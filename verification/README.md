# libclod: model and proofs

A model of five parts of libclod, and proofs of what they promise. `dafny verify dfyconfig.toml` checks
all of it.

**NBT** (`NbtTree`, `NbtScan`, `NbtDecode`, `NbtWalk`, `NbtEdit`, `NbtLimits`, `NbtExamples`, `Nbt`).
Documents are trees; `Encode` is the grammar. `Scan` says what `clod_nbt_payload_size` answers on any
bytes whatever; `FindTag` and `Step` say the same of the lookup and of the iterator. The methods in
`Nbt` work on bytes and arrays as the C code does and are proved against these functions; the lemmas
then say what the functions mean. Sizing an encoded value gives its length. Deleting a name, or changing
a list's element type, at any depth leaves exactly the encoding of the edited document. A nonzero size
does not always mean a value; `SizeIsOfAValue` says when it does. `NbtLimits` has inputs on which the
code wraps or does not end, the exact condition for the move in a deletion to wrap, and the exact
condition for one turn of the sizing loop to stay in place. `NbtExamples` gives the sizes of each type
byte, and two documents as bytes and as trees.

**Hash table** (`TableSpec`, `TableOrder`, `TableDefaults`, `Table.dfy`, `TableRun`). A class with
mutable control and element arrays. Its invariant is linear probing with tombstones, exact counters, and
the finite map that the slots represent, keyed by size and equality class. The hash is any function of
seed, key and size that agrees on equal keys. Every operation is proved against the map, through
rebuilds under new seeds and failures of malloc. A run is a sequence of states, each following from the
one before by its operation; over any run the answers are the map's, but for insertions that need memory
and get none, which change nothing; and the elements moved by rebuilds are at most 17/7 of the EMPTY
slots filled.

**CRC** (`Bits`, `Division`, `CrcTables`, `Crc`, `CrcParity`, `CrcWords`, `CrcExamples`). Machine words
are bit sequences, highest bit first. The tables are what the generator writes. The five loops compute
the remainder of polynomial division, so they work in pieces and detect every burst no longer than the
checksum. Every variant but CRC-32 detects every odd number of flipped bits. The five checksums of
"abcdefg" are proved to be those that the repository expects.

**Streaming SipHash variant** (`SipSpec`, `SipMix`, `SipExamples`, `Sip`). The hash is a function of
seed and message; the streaming state, with its packed counters and its buffer whose unused bytes may be
anything, computes it however the message is cut. The variant keeps the length modulo 32 and mixes in
0xee; it is not the published SipHash, and nothing is said about that. A word is absorbed twice, before
and behind two rounds, so absorbing is not injective in the word: `SipExamples.OneBlockDiffers` says
exactly when two different blocks leave the same state, and `SipExamples.WordsOfSameEffect` has lanes
for which two different words do. Whether a seed and a message lead to such lanes is not claimed.

**Regions** (`VecGroup`, `FilenameSpec`, `Filename.dfy`, `FileCache`, `RegionCache`). `vec_group` is a
mixed-radix split, proved to be a bijection. A region file's name fits its buffer, and its coordinates
read back as the position. The file cache is a state machine over slots and a log of what was opened and
closed; over any run every handle is in one live slot or was closed exactly once.

How the model relates to the code:

- Addresses into NBT data are offsets, and `end` is the length of the byte sequence. Elements and keys
  of the table are non-null addresses; what stands there is the business of the two callbacks, and a
  parameter (`Content`) where the default callbacks read it.
- The outcomes of malloc, of the clock, and of opening and closing files are parameters, so the proofs
  hold for every combination of them. The address of a table's control array, its seed, is the outcome
  of its malloc.
- C passes the SipHash state by value; `Sip.SipState.Add` copies the object and changes the copy.
- A long C function is split into methods (`Nbt.ListSize`, `HashTable.Table.Refill`,
  `RegionCache.Region.Fill` and so on), one for each part of its body.
- `TableRun.Execute`, `TableRun.Traverse`, `TableRun.Drain`, `Sip.HashChunks` and `FileCache.Run` are
  clients of the modelled functions: they make statements about whole runs possible.

Where code and documentation differ: include/clod/nbt.h:194 says a list's type is set if the given type
is non-zero, but src/nbt/nbt.c:349 compares it in any case, so the type 0 retypes a list too. The model
does what the code does, and `NbtEdit.RetypeToZero` says what becomes of the list.

## Model

| member | source | states |
|---|---|---|
| Nbt.PayloadSize | src/nbt/nbt.c:26-92 | The size is the one `Scan` defines, for any bytes without a list of numbers of negative length; every read lies before `end` and it terminates |
| NbtExamples.NumberSizes | src/nbt/nbt.c:32-38 | Payloads of types 1 to 6 are sized 1, 2, 4, 8, 4 and 8 |
| NbtExamples.ArraySizes | src/nbt/nbt.c:39-56 | Types 7, 11 and 12 with a count of n that is not negative are sized 4 + n, 4 + 4n and 4 + 8n if they fit, and else malformed |
| NbtExamples.StringSize | src/nbt/nbt.c:57-62 | Type 8 with length bytes x and y is sized 2 + 256x + y if it fits, and else malformed |
| NbtExamples.NoSize | src/nbt/nbt.c:39-91 | Cut-off headers, type 0 and types above 12 have no size |
| NbtExamples.DocumentOfEveryType | src/nbt/nbt.c:26-92 | A document of 125 bytes with a tag of each of the twelve types, its size and the tree it decodes to |
| NbtExamples.DeleteFromNested | src/nbt/nbt.c:318-334 | In a document of 22 bytes the lookup finds the tags of a compound within a list within a compound; the 17 bytes left after one is deleted, and their tree |
| Nbt.ListSize | src/nbt/nbt.c:63-75 | The list branch, a loop over elements |
| Nbt.CompoundSize | src/nbt/nbt.c:76-91 | The compound branch, a loop over tags; a malformed payload counts as its header alone |
| NbtScan.ScanEncoding | src/nbt/nbt.c:26-92 | Sizing an encoded value of any type gives the length of its encoding, whatever bytes surround it |
| NbtScan.ScanEncodedItems | src/nbt/nbt.c:67-74 | The same for the elements of a list in a row |
| NbtScan.ScanEncodedTags | src/nbt/nbt.c:76-91 | The same for the tags of a compound and its terminator |
| NbtScan.ScanBounded | src/nbt/nbt.c:24-92 | On arbitrary bytes a string, array or compound never claims more than is available; a list overshoots by less than one list of numbers, so no size wraps |
| NbtDecode.DecodeSound | src/nbt/nbt.c:26-92 | What the decoder reads at an offset is a well-formed value whose encoding stands there |
| NbtDecode.DecodeComplete | src/nbt/nbt.c:26-92 | Every well-formed value whose encoding stands at an offset is decoded: decode after encode is the identity |
| NbtDecode.EncodingsPrefixFree | src/nbt/nbt.c:26-92 | No encoding is a proper prefix of another of its type; distinct values have distinct encodings |
| NbtDecode.DecodingUnique | src/nbt/nbt.c:26-92 | Bytes at an offset encode at most one value of each type |
| NbtDecode.SizeIsOfAValue | src/nbt/nbt.c:28-91 | Exactly when a nonzero size is that of a value: no number reaches past `end`, no array or list count is negative, no tag payload is malformed |
| NbtDecode.SizesOfNoValue | src/nbt/nbt.c:35-83 | Three payloads with a nonzero size that encode no value |
| NbtDecode.WipedListIsAValue | src/nbt/nbt.c:349-364 | Exactly when the list that a change of type writes is a list: a valid type and a length below 2^31, or type 0 |
| NbtWalk.TagOfEncoding | src/nbt/nbt.c:94-116 | On an encoded tag `tag_size` is the length of its encoding, and `tag_payload` and `tag_name` find its payload and its name |
| NbtWalk.SizeOfCutOffTag | src/nbt/nbt.c:94-116 | A tag with a malformed payload is sized as its header alone, and one with a name cut off not at all |
| Nbt.NbtIter.NextInCompound | src/nbt/nbt.c:125-152 | One step of the compound iterator, on arbitrary bytes, including what a failed step leaves in the fields |
| NbtWalk.StepsAside | src/nbt/nbt.c:125-152 | A step past the end clears every field; the index wraps at 32 bits |
| NbtWalk.IterationFollowsTags | src/nbt/nbt.c:125-152 | Iterating an encoded compound yields its children in order with offset, size, type and index, then stops just behind it with `index` the number of children |
| Nbt.CompoundGet | src/nbt/nbt.c:269-279 | The tag that `FindTag` finds on arbitrary bytes, or null |
| NbtWalk.FindInEncoding | src/nbt/nbt.c:269-279 | The lookup finds the first child of the name, and misses exactly if there is none |
| NbtEdit.FindInDocument | src/nbt/nbt.c:269-279 | The same for the compound at any place of a document |
| Nbt.NbtBuffer.CompoundDel | src/nbt/nbt.c:318-334 | Cuts the found tag out of the buffer; `end + free` is unchanged, and so is everything if the name is missing |
| NbtEdit.DeleteInDocument | src/nbt/nbt.c:318-334 | At any depth, cutting out what the lookup finds leaves the encoding of the document without the first child of that name |
| Nbt.SizedCompoundIsSafe | src/nbt/nbt.c:318-329 | In every compound with a nonzero size, malformed parts included, a found tag ends within the data |
| NbtEdit.ReplaceSplices | src/nbt/nbt.c:318-364 | Replacing the value at any place of a document changes exactly the bytes of that value |
| NbtEdit.ReplaceWellFormed | src/nbt/nbt.c:318-364 | Such a replacement by a value of the same type keeps the document well-formed |
| NbtEdit.RemoveTagSplices | src/nbt/nbt.c:326 | Cutting a tag out of an encoded compound gives the encoding without that tag |
| Nbt.NbtBuffer.ListRetype | src/nbt/nbt.c:336-364 | Changing the element type: result, `end`, `free` and bytes in every case, growing or shrinking, with what lies behind the list kept |
| Nbt.NbtBuffer.Wipe | src/nbt/nbt.c:358-362 | The move and the writes of that change |
| NbtEdit.RetypeInDocument | src/nbt/nbt.c:349-364 | At any depth the result is the encoding of the document with that list replaced by default elements of the new type |
| NbtEdit.RetypeToZero | src/nbt/nbt.c:349-364 | With type 0 a list of any other type becomes an END list of the given length, at any depth |
| NbtLimits.FoundTagFits | src/nbt/nbt.c:326 | The byte count of the move does not wrap exactly if the size of the found tag is at most what is available there; only a number or a list can break that |
| NbtLimits.CutOffNumber | src/nbt/nbt.c:326 | A number cut off by the end of the data breaks it: 7 bytes among 3 |
| NbtLimits.CutOffList | src/nbt/nbt.c:350-358 | A list cut off by the end of the data: a size of 9 for 5 bytes |
| NbtLimits.LoopStalls | src/nbt/nbt.c:67-83 | Exactly when one turn of the compound loop over a list of numbers of negative length leaves it where it was, so that it never ends |
| NbtLimits.CyclingCompound | src/nbt/nbt.c:67-83 | A compound on which two tags take the loop round in a circle, each turn moving it |
| NbtLimits.StallingCompound | src/nbt/nbt.c:67-83 | A compound of eight bytes on which that happens |
| NbtEdit.ZeroBytesAreDefault | src/nbt/nbt.c:6-22 | `type_zero_size` zero bytes are a well-formed payload of each type |
| NbtExamples.ZeroSizes | src/nbt/nbt.c:6-23 | The table `type_zero_size`, type by type |
| NbtEdit.DefaultItemsEncoding | src/nbt/nbt.c:359 | The zeroed part of a list encodes its default elements |
| HashTable.Table.Create | src/table/table.c:52-74 | A new table is valid, stands for the empty map and is no smaller than its minimum capacity asks |
| HashTable.Table.CreateTable | src/table/table.c:168-186 | The table's callbacks are the caller's where given and the defaults where missing, each on its own; the capacity is the caller's, or 0 for null options; fails exactly if the struct or the first slots cannot be allocated |
| TableDefaults.DefaultsAreLawful | src/table/table.c:163-171 | The default callbacks meet the demands of the table: keys are equal exactly if their bytes are, and then their hashes agree |
| TableDefaults.DefaultsConfigured | src/table/table.c:163-180 | A given callback is used as it is whatever the other is; the default hash is the streaming hash of the bytes under the seed, the default comparison is zero exactly on equal bytes and negative exactly if the first byte that differs is smaller |
| TableDefaults.MemCmpSign | src/table/table.c:170 | The byte comparison is negative exactly if the first byte that differs is smaller |
| HashTable.Table.Probe | src/table/table.c:83-117 | Finds the slot that holds the key, or that none does and the first free slot of its search |
| HashTable.Table.Insert | src/table/table.c:118-142 | Answers with the previous entry and changes the map at that key only; a new key takes the first free slot, and one more slot is in use exactly if that was EMPTY and no tombstone; the assertions hold |
| HashTable.Table.Rebuild | src/table/table.c:143-162 | Same map under a new seed and without tombstones, or nothing changes if malloc fails |
| HashTable.Table.Refill | src/table/table.c:146-157 | The new table has exactly the old map, and as many insertions were made as there are elements |
| HashTable.Table.Take | src/table/table.c:152-157 | Each element moved is new to the new table: the duplicate branch of `rebuild` cannot be reached |
| HashTable.Table.Reserve | src/table/table.c:195-199 | When a rebuild happens, its size, and that afterwards a slot is free, and two are from 7 slots on, so that one stays EMPTY |
| HashTable.Table.Add | src/table/table.c:194-202 | Adds to the map unless the key is there; answers with the previous entry, or with the element if malloc fails, and then nothing changes; exact counts of slots in use, table size and seed |
| HashTable.Table.Set | src/table/table.c:203-211 | Sets the key in the map and answers with its previous entry; the same failure |
| HashTable.Table.Get | src/table/table.c:212-220 | Looks the key up in the map |
| HashTable.Table.Del | src/table/table.c:221-233 | Removes the key from the map and answers with its entry; occupied plus removed slots stay the same number |
| HashTable.Table.Len | src/table/table.c:191-193 | The size of the map |
| HashTable.Table.Iter | src/table/table.c:234-250 | Yields the first occupied slot ahead, or resets the iterator if there is none |
| TableRun.Execute | src/table/table.c:194-233 | The states of any run: an insertion into a full table without memory hands its element back and changes nothing; every other operation answers as a finite map does, with any hash and seeds, writes only the slot of its key, and keeps exact counters, size and seed |
| TableRun.CreateAndExecute | src/table/table.c:172-233 | The same from the creation of a table on, empty and of the size asked for, with the caller's callbacks or the defaults, and 7 * Moved <= 17 * Filled over the run |
| TableRun.OneSlotWritten | src/table/table.c:118-142 | In a run, an operation that does not rebuild writes at most one slot; a deletion that finds its key leaves a tombstone, and one that does not writes nothing |
| TableRun.RebuildsArePaid | src/table/table.c:8-14 | Over any run, the elements moved by its rebuilds are at most 17/7 of the EMPTY slots its insertions filled, counting those in use at its start |
| TableRun.MovedEntries | src/table/table.c:143-162 | An insertion that rebuilds moves as many elements as the map has entries; no other operation moves any |
| TableRun.SumsSplit | src/table/table.c:143-162 | What a run moves and fills is the sum over its parts, down to single operations |
| TableRun.AnswersOfTheMap | src/table/table.c:194-233 | Unless an insertion into a full table gets no memory, the answers of a run depend on the map alone |
| TableRun.CapacityHoldsOverRun | include/clod/table.h:36-38 | Over any run, an operation that finds fewer slots in use than the minimum capacity neither rebuilds nor fails, whatever malloc does, and answers as the map |
| TableRun.Drain | src/table/table.c:221-250 | Taking the first element and deleting it, again and again, empties the table; what it takes are the entries of all keys, each key once |
| TableRun.Traverse | src/table/table.c:234-250 | Calling the iteration until it ends yields the entry of every key once, in slot order from the cursor on, and resets the iterator |
| TableOrder.IterationVisitsEachOnce | src/table/table.c:234-250 | From any cursor the slots ahead of a fresh iterator are the occupied slots, each once |
| TableOrder.AheadIsExact | src/table/table.c:234-250 | From any step on it visits exactly the occupied slots of the later steps |
| TableSpec.KeysAgree | include/clod/table.h:43-47 | Two entries have the same key exactly if their sizes agree and `cmp` says equal |
| TableSpec.HashSplit | src/table/table.c:43-51 | The low seven bits of the hash and the top bit are the control byte, the other bits pick the first slot |
| TableSpec.OccupyKeepsProbing | src/table/table.c:135-141 | Filling the first free slot, empty or removed, keeps the linear-probing invariant |
| TableSpec.OccupyRepresents | src/table/table.c:135-141 | and adds the entry to the map |
| TableSpec.VacateKeepsProbing | src/table/table.c:225 | A tombstone keeps the linear-probing invariant |
| TableSpec.VacateRepresents | src/table/table.c:225 | and takes exactly the key out of the map |
| TableSpec.OverwriteKeepsProbing | src/table/table.c:125-129 | Replacing an element by one of the same key keeps the invariant |
| TableSpec.OverwriteRepresents | src/table/table.c:125-129 | and sets the key in the map |
| TableSpec.OccupyCoherent | src/table/table.c:136-141 | The counters stay the numbers of occupied and removed slots when a slot is filled |
| TableSpec.VacateCoherent | src/table/table.c:225-227 | and when one is removed |
| TableSpec.EmptyEndsSearch | src/table/table.c:94-99 | A search may stop at an EMPTY slot: the key is in no slot at all |
| TableSpec.HoldsIffMapped | src/table/table.c:101-106 | A slot holds the key exactly if the map has it, and it holds the entry |
| TableSpec.RoomLeft | src/table/table.c:119-135 | While the counters do not reach the table size a slot is EMPTY; so a valid table of 7 slots or more always keeps one, and the assertions of `insert` hold |
| HashTable.RebuildIsPaid | src/table/table.c:8-14 | The load rises from 50 to 85 percent between rebuilds, so 17 for every EMPTY slot filled pay 7 for every element moved |
| HashTable.RebuildExactly | src/table/table.c:8-14 | A rebuild is due from 85 percent on, and makes the least table that has two slots for each element and the new one and room for the minimum capacity at 85 percent |
| HashTable.LeastSize | src/table/table.c:12-14 | The size for a capacity is the least one within the load factor |
| HashTable.CapacityHolds | src/table/table.c:12-14 | With fewer slots used than the minimum capacity no rebuild happens |
| Crc.Crc64Add | src/hash/crc.c:7-12 | Equals bit-serial division of the whole message, left-shift form |
| Crc.Crc32Add | src/hash/crc.c:14-19 | The same for the reflected 32-bit form |
| Crc.Crc24Add | src/hash/crc.c:21-27 | The same for 24 bits in a 32-bit word: the top byte is ignored on entry and zero on return |
| Crc.Crc16Add | src/hash/crc.c:29-34 | The same for the reflected 16-bit form |
| Crc.Crc8Add | src/hash/crc.c:36-41 | The same for 8 bits, where the loop shifts right over a table that is not reflected |
| Crc.LeftStep | src/hash/crc.c:10 | One table step of the left-shift form is eight steps of the division register |
| Crc.RightStep | src/hash/crc.c:17 | One step of the right-shift form is the bit-reversed mirror of the left-shift form |
| Crc.CrcIsRemainder | src/hash/crc.c:7-41 | A word is the CRC exactly if it is the remainder of dividing the message polynomial, start value included, by the variant's polynomial |
| Division.FeedIsRemainder | src/hash/crc.c:7-41 | The bit-serial register ends with the remainder, and quotient and remainder are unique |
| Crc.CrcStreams | src/hash/crc.c:7-41 | Adding a message in pieces gives the CRC of the whole |
| Crc.CrcDetectsBurst | src/hash/crc.c:7-41 | Messages of the same length that differ only within bits / 8 consecutive bytes have different CRCs from any start value, however long they are |
| Crc.ChecksumDetectsBurst | include/clod/hash.h:119-268 | The same for the five finished checksums |
| CrcExamples.Crc64OfAbcdefg | test/hash/expected_outputs.c:6 | The CRC-64 of "abcdefg" is 0xe94be4086bedae1d |
| CrcExamples.Crc32OfAbcdefg | test/hash/expected_outputs.c:7 | Its CRC-32 is 0x312a6aa6 |
| CrcExamples.Crc24OfAbcdefg | test/hash/expected_outputs.c:8 | Its CRC-24 is 0x7d29d5 |
| CrcExamples.Crc16OfAbcdefg | test/hash/expected_outputs.c:9 | Its CRC-16 is 0x757c |
| CrcExamples.Crc8OfAbcdefg | test/hash/expected_outputs.c:10 | Its CRC-8 is 0x24 |
| CrcExamples.ZeroInFrontDetected | include/clod/hash.h:98-268 | In every variant a zero byte put in front of a message changes its checksum, however long it is |
| CrcParity.DetectsOddErrorsExactly | src/hash/crc.c:7-41 | Exactly the polynomials with an even number of terms, the leading one included, detect every odd number of flipped bits, at any distance and from any start value |
| CrcParity.ChecksumDetectsOddErrors | include/clod/hash.h:119-268 | The finished checksums of CRC-64, CRC-24, CRC-16 and CRC-8 do |
| CrcParity.FlippedOneBit | src/hash/crc.c:7-41 | The count of flipped bits behind these: zero for equal messages, and one more for one more bit turned |
| CrcParity.Crc32MissesAnOddError | include/clod/hash.h:154-163 | CRC-32 does not: two messages of five bytes that differ in an odd number of bits and have the same checksum |
| Division.FeedInjective | src/hash/crc.c:7-41 | With an odd polynomial the register before a message is determined by the register after it |
| Division.FeedAtOnce | src/hash/crc.c:10 | Feeding up to a register's width of bits is adding them at the top and multiplying by a power of x |
| CrcTables.TableGen | src/hash/crc_tables_generate.c:45-68 | The generator writes, for each byte, that byte times x^8 in the variant's bit order |
| CrcTables.ReflectBits | src/hash/crc_tables_generate.c:36-44 | `reflect` reverses the low bits and clears the others |
| CrcTables.ShiftStep | src/hash/crc_tables_generate.c:56-61 | The unmasked 64-bit step agrees with the register of the variant's width |
| CrcTables.VariantsAreOdd | src/hash/crc_tables_generate.c:90-121 | The five polynomials have a constant term |
| Sip.SipState.constructor | include/clod/hash.h:56-62 | The initial state is that of the empty message |
| Sip.SipState.Add | src/hash/siphash.c:52-95 | Adding data to the state of a message gives the state of the longer message, whatever stale bytes the buffer holds |
| Sip.SipState.FillBlock | src/hash/siphash.c:63-77 | The buffered bytes and the first new ones make one block |
| Sip.SipState.AbsorbBlocks | src/hash/siphash.c:79-87 | The block loop absorbs every full block that is left |
| Sip.SipState.SipRound | src/hash/siphash.c:20-36 | One round, on the fields |
| Sip.SipState.Finalise | src/hash/siphash.c:96-109 | The hash of the message: no stale byte is read |
| Sip.HashChunks | src/hash/siphash.c:52-109 | However a message is cut into chunks, empty ones included, the hash is that of the message |
| SipSpec.BlocksConcat | src/hash/siphash.c:79-87 | Absorbing two runs of full blocks is absorbing them in a row |
| SipSpec.ReadJoined | src/hash/siphash.c:64-68 | A word joined from buffered and new bytes is the word of those bytes in a row |
| SipExamples.ReadIsSum | src/hash/siphash.c:37-51 | The word read from up to 8 bytes is the sum of byte i times 256^i |
| SipExamples.ReadBytes | src/hash/siphash.c:37-51 | Byte i of the word read from up to 8 bytes is byte i of the data, and the others are zero |
| SipExamples.ReadInjective | src/hash/siphash.c:37-51 | Different blocks are different words |
| SipExamples.MixedInjective | src/hash/siphash.c:74-76 | Different words leave different lanes after the two rounds |
| SipExamples.AbsorbSameExactly | src/hash/siphash.c:74-77 | The same for one word: exactly when two words lead from one state to the same state |
| SipExamples.OneBlockDiffers | src/hash/siphash.c:74-87 | Messages that differ in one full block only: their words differ, and the states behind it are the same exactly if the lanes behind the two rounds differ by those words and no more |
| SipExamples.WordsOfSameEffect | src/hash/siphash.c:74-77 | Lanes for which two different words have the same effect |
| SipExamples.RoundOfStart | src/hash/siphash.c:20-36 | The lanes after one round of the start value of seed 0 |
| SipExamples.HashOfAbcdefghi | src/hash/siphash.c:52-109 | The hash of "abcdefghi" under seed 0 |
| SipMix.RoundUndone | src/hash/siphash.c:20-36 | A round is a permutation of the state: its inverse undoes it |
| SipMix.BlocksInjective | src/hash/siphash.c:74-87 | States that differ still do after absorbing the same blocks |
| SipMix.SeedsStayApart | include/clod/hash.h:56-62 | One message under different seeds never leads to the same state |
| VecGroup.VecGroup | include/clod/vmath.h:57-68 | Leaves the group vector and answers with the place within the group |
| VecGroup.GroupingIsBijective | include/clod/vmath.h:57-68 | Group and index determine the vector, negative coordinates included; the index is below 2^bits; every group with every such index is hit by exactly one vector |
| VecGroup.SharesAreEven | include/clod/vmath.h:61-66 | The running division hands out all bits; every share is the floor or the ceiling of an even split; shares never increase |
| VecGroup.ExampleShares | include/clod/vmath.h:48-49 | Ten bits are split 4, 3, 3 and 5, 5 |
| VecGroup.ExampleGroups | include/clod/vmath.h:57-68 | Groups and places of four vectors of ten bits, negative ones included |
| VecGroup.ShiftsDefinedExactly | include/clod/vmath.h:62-65 | Exactly when no shift amount reaches 64: below 64 bits, or over 2 to 64 components |
| RegionFilename.StrCopy | src/region/filename.c:11-25 | Copies from the source offset up to the delimiter, the terminator or the limit, never writes beyond the destination, and advances both offsets by what it would have written |
| RegionFilename.FilenameMake | src/region/filename.c:32-54 | The buffer holds the whole name, never cut off, and NULs behind it; the assertion on its length holds |
| FilenameSpec.FilenameFits | src/region/filename.c:32-54 | A name has at most 255 characters |
| FilenameSpec.FilenameInjective | src/region/filename.c:41-53 | Different positions have different names |
| FilenameSpec.DecimalReads | src/region/filename.c:45-49 | A coordinate's text reads back as the coordinate, has a minus sign exactly if that is negative, and no leading zero but for "0" |
| FilenameSpec.ExampleName | src/region/filename.c:27-54 | "region", [-32, 40] and "mcr" give "region.-32.40.mcr" |
| FilenameSpec.CutOffNames | src/region/filename.c:42-51 | Prefixes are cut off at 30 characters and extensions at 14 |
| RegionCache.Region.Get | src/region/file_cache.c:48-99 | The state machine step `After`; keeps the cache coherent whatever fails |
| RegionCache.Region.Search | src/region/file_cache.c:57-73 | The loop over the slots |
| RegionCache.Region.Fill | src/region/file_cache.c:75-98 | Opening the file, and the slot it goes to |
| RegionCache.Region.Destroy | src/region/file_cache.c:100-113 | Every handle was closed exactly once, and the answer is the first failure |
| FileCache.AfterCoherent | src/region/file_cache.c:48-99 | Every call keeps live slots at different positions, each with an open handle of its file, and every opened handle in a live slot or closed exactly once |
| FileCache.AfterAnswers | src/region/file_cache.c:61-98 | A successful call answers the open handle of the file at the position asked for, now in a slot |
| FileCache.AfterSucceeds | src/region/file_cache.c:48-99 | Exactly when a call succeeds |
| FileCache.CachedIsReused | src/region/file_cache.c:61-71 | A file in a slot is answered from there, stays there whatever fails, and is not opened again |
| FileCache.UncachedIsOpened | src/region/file_cache.c:74-98 | A file in no slot is opened at most once, and is opened if the call succeeds |
| FileCache.OthersKept | src/region/file_cache.c:65-70 | Another position's slot is untouched, or was stale and its file is closed |
| FileCache.FreshIsKept | src/region/file_cache.c:67-70 | A slot of another position that is not stale is untouched |
| FileCache.StaleIsClosed | src/region/file_cache.c:67-70 | A stale one is empty and its file closed once after a successful call that opens a file |
| FileCache.OpenedGoesFirst | src/region/file_cache.c:74-98 | The opened file goes to the slot that was the first empty one before the call, or to one more |
| FileCache.FailureReported | src/region/file_cache.c:48-99 | Which failure is answered: of the clock, of the first stale file that cannot be closed, of opening, or of malloc |
| FileCache.HitIsStamped | src/region/file_cache.c:61-66 | The slot of the file answered has the time of the call |
| FileCache.OthersNotAdded | src/region/file_cache.c:91-95 | No slot is filled for another position |
| FileCache.RunCoherent | src/region/file_cache.c:48-99 | Whole runs keep the cache coherent |
| FileCache.RunSplits | src/region/file_cache.c:48-99 | A run of two parts is one after the other, and a run of one call is that call |
| FileCache.EveryHandleClosedOnce | src/region/file_cache.c:48-113 | After any run and the final destroy every handle ever opened was closed exactly once |
| FileCache.CloseAllOnce | src/region/file_cache.c:100-108 | Destroying a coherent cache closes every open handle once |
| FileCache.LiveNamesDiffer | src/region/file_cache.c:48-99 | No two live slots belong to files of the same name |

## Left out

- Nbt.PayloadSize: lists of numbers of negative length are excluded by a precondition: the C code counts up to the sign-extended value and its sizes wrap; `NbtLimits.LoopStalls` and `NbtLimits.CyclingCompound` show how it may not end.
- Nbt.ListSize: the same exclusion.
- Nbt.CompoundSize: the same exclusion.
- Nbt.NbtIter.NextInCompound: the same exclusion, as in every function that sizes payloads.
- Nbt.CompoundGet: the same exclusion.
- Nbt.NbtBuffer.CompoundDel: requires a found tag to end within the data, as the C subtraction does; `NbtLimits.FoundTagFits` says exactly when it does, and `Nbt.SizedCompoundIsSafe` that `clod_nbt_payload_size` can be asked first.
- Nbt.NbtBuffer.ListRetype: requires the old list to end within the data, for the same reason (`NbtLimits.CutOffList`).
- VecGroup.VecGroup: shift amounts of 64 and more are undefined in C and excluded; `VecGroup.ShiftsDefinedExactly` says when they arise.
- RegionCache.Region.Get: called by one thread at a time; locks, and reading a file while it is evicted, are not modelled.
- `clod_nbt_compound_add`, and the iteration over lists, arrays and strings: they depart from their intent (the insertion goes behind the terminator, the iteration starts at the length header), and nothing is claimed of them.
- The branches of `clod_nbt_list_resize` that keep the element type.
- The arithmetic of the eviction age and of differences of clock values: any function of two times decides whether a slot is stale.
- `filename_parse_pos`: it adds an absolute offset to a running one and is not the inverse of `filename_make`.
- `clod_sstr_contains`, `divi64`, and the append functions of strings.
- The literal entries of `crc_tables.h`: the tables are taken to be what the generator writes, as the file's first line says.
- `clod_table_destroy`, freeing memory, and overflow of `size_t` counters.
- Compression, platform input and output, option parsing, error messages, and the region format, whose sources are incomplete.
