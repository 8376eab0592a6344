/** The sizes of each type of payload written out, and a document with a tag of every type as bytes and as a
    tree. Type bytes are literal here. */
module NbtExamples {
  import opened Bytes
  import opened NbtDecode
  import opened NbtEdit
  import opened NbtScan
  import opened NbtTree
  import opened NbtWalk
  import opened Wrappers

  lemma NumberSizes(b: seq<byte>, p: nat)
    ensures Scan(b, p, 1) == Sized(1)
    ensures Scan(b, p, 2) == Sized(2)
    ensures Scan(b, p, 3) == Sized(4)
    ensures Scan(b, p, 4) == Sized(8)
    ensures Scan(b, p, 5) == Sized(4)
    ensures Scan(b, p, 6) == Sized(8)
  {
  }

  /** Arrays of bytes, 32-bit and 64-bit numbers with a count that is not negative. */
  lemma ArraySizes(b: seq<byte>, p: nat, n: nat)
    requires p + 4 <= |b| && b[p] < 0x80
    requires n == (b[p] as int) * 0x100_0000 + (b[p + 1] as int) * 0x1_0000 + (b[p + 2] as int) * 0x100 + b[p + 3]
    ensures Scan(b, p, 7) == if p + 4 + n <= |b| then Sized(4 + n) else Malformed
    ensures Scan(b, p, 11) == if p + 4 + 4 * n <= |b| then Sized(4 + 4 * n) else Malformed
    ensures Scan(b, p, 12) == if p + 4 + 8 * n <= |b| then Sized(4 + 8 * n) else Malformed
  {
    hide SizeT;
    SizeTIs(4 + n);
    SizeTIs(4 + 4 * n);
    SizeTIs(4 + 8 * n);
  }

  lemma StringSize(b: seq<byte>, p: nat)
    requires p + 2 <= |b|
    ensures var n := 256 * (b[p] as int) + b[p + 1] as int;
      Scan(b, p, 8) == if p + 2 + n <= |b| then Sized(2 + n) else Malformed
  {
  }

  /** No other byte is a type, and headers that do not fit are malformed. */
  lemma NoSize(b: seq<byte>, p: nat, ty: byte)
    ensures ty == 0 || ty > 12 ==> Scan(b, p, ty) == Malformed
    ensures p + 4 > |b| && ty in {7, 11, 12} ==> Scan(b, p, ty) == Malformed
    ensures p + 2 > |b| && ty == 8 ==> Scan(b, p, ty) == Malformed
    ensures p + 5 > |b| && ty == 9 ==> Scan(b, p, ty) == Malformed
    ensures p >= |b| && ty == 10 ==> Scan(b, p, ty) == Malformed
  {
  }

  /** `payload_zero_sizes` */
  lemma ZeroSizes()
    ensures ZeroSize(1) == 1 && ZeroSize(2) == 2 && ZeroSize(3) == 4 && ZeroSize(4) == 8
    ensures ZeroSize(5) == 4 && ZeroSize(6) == 8
    ensures ZeroSize(7) == ZeroSize(11) == ZeroSize(12) == 4
    ensures ZeroSize(8) == 2 && ZeroSize(9) == 5 && ZeroSize(10) == 1
    ensures forall ty: byte :: ty == 0 || ty > 12 ==> ZeroSize(ty) == 0
  {
  }

  // ---- a document ----

  /** The tags "a" to "l", one of each type. */
  const TREE := [
    Tag([97], Number(1, [255])),
    Tag([98], Number(2, [1, 2])),
    Tag([99], Number(3, [1, 2, 3, 4])),
    Tag([100], Number(4, [1, 2, 3, 4, 5, 6, 7, 8])),
    Tag([101], Number(5, [63, 128, 0, 0])),
    Tag([102], Number(6, [63, 240, 0, 0, 0, 0, 0, 0])),
    Tag([103], Array(7, 3, [7, 8, 9])),
    Tag([104], Text([104, 105])),
    Tag([105], List(2, [Number(2, [0, 5]), Number(2, [0, 6])])),
    Tag([106], Compound([Tag([], EndList(0))])),
    Tag([107], Array(11, 1, [0, 0, 1, 0])),
    Tag([108], Array(12, 1, [0, 0, 0, 0, 0, 0, 1, 0]))]

  const FIRST: seq<byte> :=
    [1, 0, 1, 97, 255]
    + [2, 0, 1, 98, 1, 2]
    + [3, 0, 1, 99, 1, 2, 3, 4]
    + [4, 0, 1, 100, 1, 2, 3, 4, 5, 6, 7, 8]

  const SECOND: seq<byte> :=
    [5, 0, 1, 101, 63, 128, 0, 0]
    + [6, 0, 1, 102, 63, 240, 0, 0, 0, 0, 0, 0]
    + [7, 0, 1, 103, 0, 0, 0, 3, 7, 8, 9]
    + [8, 0, 1, 104, 0, 2, 104, 105]

  const THIRD: seq<byte> :=
    [9, 0, 1, 105, 2, 0, 0, 0, 2, 0, 5, 0, 6]
    + [10, 0, 1, 106, 9, 0, 0, 0, 0, 0, 0, 0, 0]
    + [11, 0, 1, 107, 0, 0, 0, 1, 0, 0, 1, 0]
    + [12, 0, 1, 108, 0, 0, 0, 1, 0, 0, 0, 0, 0, 0, 1, 0]

  const DOCUMENT: seq<byte> := FIRST + SECOND + THIRD + [0]

  lemma FourTags(a: Tag, b: Tag, c: Tag, d: Tag)
    requires WellFormedTags([a, b, c, d])
    ensures EncodeTags([a, b, c, d]) == EncodeTag(a) + EncodeTag(b) + EncodeTag(c) + EncodeTag(d)
  {
    hide EncodeTag, WellFormed;
    assert EncodeTags([d]) == EncodeTag(d) + EncodeTags([]);
    assert EncodeTags([c, d]) == EncodeTag(c) + EncodeTags([d]);
    assert EncodeTags([b, c, d]) == EncodeTag(b) + EncodeTags([c, d]);
  }

  lemma ShortNumberTags()
    ensures WellFormed(TREE[0].value) && EncodeTag(TREE[0]) == [1, 0, 1, 97, 255]
    ensures WellFormed(TREE[1].value) && EncodeTag(TREE[1]) == [2, 0, 1, 98, 1, 2]
    ensures WellFormed(TREE[2].value) && EncodeTag(TREE[2]) == [3, 0, 1, 99, 1, 2, 3, 4]
  {
  }

  lemma LongNumberTags()
    ensures WellFormed(TREE[3].value) && EncodeTag(TREE[3]) == [4, 0, 1, 100, 1, 2, 3, 4, 5, 6, 7, 8]
    ensures WellFormed(TREE[4].value) && EncodeTag(TREE[4]) == [5, 0, 1, 101, 63, 128, 0, 0]
    ensures WellFormed(TREE[5].value) && EncodeTag(TREE[5]) == [6, 0, 1, 102, 63, 240, 0, 0, 0, 0, 0, 0]
  {
  }

  lemma ByteArrayTags()
    ensures WellFormed(TREE[6].value) && EncodeTag(TREE[6]) == [7, 0, 1, 103, 0, 0, 0, 3, 7, 8, 9]
    ensures WellFormed(TREE[7].value) && EncodeTag(TREE[7]) == [8, 0, 1, 104, 0, 2, 104, 105]
  {
  }

  lemma WordArrayTags()
    ensures WellFormed(TREE[10].value) && EncodeTag(TREE[10]) == [11, 0, 1, 107, 0, 0, 0, 1, 0, 0, 1, 0]
    ensures WellFormed(TREE[11].value) && EncodeTag(TREE[11]) == [12, 0, 1, 108, 0, 0, 0, 1, 0, 0, 0, 0, 0, 0, 1, 0]
  {
  }

  lemma ListTag()
    ensures WellFormed(TREE[8].value) && EncodeTag(TREE[8]) == [9, 0, 1, 105, 2, 0, 0, 0, 2, 0, 5, 0, 6]
  {
    var (x, y) := (Number(2, [0, 5]), Number(2, [0, 6]));
    assert EncodeItems([y]) == Encode(y) + EncodeItems([]);
    assert EncodeItems([x, y]) == Encode(x) + EncodeItems([y]);
  }

  lemma CompoundTag()
    ensures WellFormed(TREE[9].value) && EncodeTag(TREE[9]) == [10, 0, 1, 106, 9, 0, 0, 0, 0, 0, 0, 0, 0]
  {
    var inner := Tag([], EndList(0));
    assert EncodeTag(inner) == [9, 0, 0, 0, 0, 0, 0, 0];
    assert EncodeTags([inner]) == EncodeTag(inner) + EncodeTags([]);
  }

  lemma TagsAreWellFormed()
    ensures WellFormedTags(TREE)
  {
    hide WellFormed, EncodeTag;
    ShortNumberTags();
    LongNumberTags();
    ByteArrayTags();
    WordArrayTags();
    ListTag();
    CompoundTag();
  }

  lemma FirstTags()
    ensures EncodeTags(TREE[..4]) == FIRST
  {
    hide WellFormed, EncodeTag, EncodeTags;
    TagsAreWellFormed();
    ShortNumberTags();
    LongNumberTags();
    FourTags(TREE[0], TREE[1], TREE[2], TREE[3]);
    assert TREE[..4] == [TREE[0], TREE[1], TREE[2], TREE[3]];
  }

  lemma SecondTags()
    ensures EncodeTags(TREE[4..8]) == SECOND
  {
    hide WellFormed, EncodeTag, EncodeTags;
    TagsAreWellFormed();
    LongNumberTags();
    ByteArrayTags();
    FourTags(TREE[4], TREE[5], TREE[6], TREE[7]);
    assert TREE[4..8] == [TREE[4], TREE[5], TREE[6], TREE[7]];
  }

  lemma ThirdTags()
    ensures EncodeTags(TREE[8..]) == THIRD
  {
    hide WellFormed, EncodeTag, EncodeTags;
    TagsAreWellFormed();
    ListTag();
    CompoundTag();
    WordArrayTags();
    FourTags(TREE[8], TREE[9], TREE[10], TREE[11]);
    assert TREE[8..] == [TREE[8], TREE[9], TREE[10], TREE[11]];
  }

  lemma TreeEncoding()
    ensures WellFormed(Compound(TREE)) && Encode(Compound(TREE)) == DOCUMENT
  {
    hide EncodeTag, EncodeTags, WellFormedTags;
    TagsAreWellFormed();
    FirstTags();
    SecondTags();
    ThirdTags();
    EncodeTagsAppend(TREE[..4], TREE[4..8]);
    EncodeTagsAppend(TREE[..4] + TREE[4..8], TREE[8..]);
    assert TREE[..4] + TREE[4..8] + TREE[8..] == TREE;
  }

  /** The document is sized as its 125 bytes and decodes to the tree. */
  lemma DocumentOfEveryType()
    ensures |DOCUMENT| == 125
    ensures Scan(DOCUMENT, 0, 10) == Sized(125)
    ensures Decode(DOCUMENT, 0, 10) == Some(Compound(TREE))
  {
    hide Scan, Decode, Encode, WellFormed;
    TreeEncoding();
    assert DOCUMENT[0..125] == DOCUMENT;
    ScanEncoding(DOCUMENT, 0, Compound(TREE));
    DecodeComplete(DOCUMENT, 0, Compound(TREE));
  }

  // ---- a deletion two levels down ----

  const X := Tag([120], Number(1, [7]))
  const Y := Tag([121], Number(1, [8]))

  function NestedList(tags: seq<Tag>): Value {
    List(10, [Compound([]), Compound(tags)])
  }

  /** A compound whose tag "l" is a list of compounds: one without tags and one with the given tags. */
  function Nested(tags: seq<Tag>): Value {
    Compound([Tag([108], NestedList(tags))])
  }

  function NestedBytes(tags: seq<byte>): seq<byte> {
    [9, 0, 1, 108, 10, 0, 0, 0, 2, 0] + tags + [0, 0]
  }

  lemma NestedListEncoding(tags: seq<Tag>)
    requires WellFormedTags(tags)
    ensures WellFormed(NestedList(tags)) && TypeOf(NestedList(tags)) == 9
    ensures Encode(NestedList(tags)) == [10, 0, 0, 0, 2, 0] + EncodeTags(tags) + [0]
  {
    hide EncodeTags, EncodeTag, WellFormedTags;
    var (none, inner) := (Compound([]), Compound(tags));
    EmptyCompound();
    EncodeCompound(tags);
    assert WellFormed(inner);
    assert EncodeItems([inner]) == Encode(inner) + EncodeItems([]);
    assert EncodeItems([none, inner]) == [0] + EncodeTags(tags) + [0];
  }

  lemma EmptyCompound()
    ensures WellFormed(Compound([])) && Encode(Compound([])) == [0]
  {
  }

  lemma NestedEncoding(tags: seq<Tag>)
    requires WellFormedTags(tags)
    ensures WellFormed(Nested(tags)) && Encode(Nested(tags)) == NestedBytes(EncodeTags(tags))
    ensures TypeOf(Nested(tags)) == 10
  {
    hide Encode, NestedList, EncodeTag;
    var tag := Tag([108], NestedList(tags));
    NestedListEncoding(tags);
    OneTag(tag);
    TagNamedL(NestedList(tags));
    EncodeCompound([tag]);
  }

  lemma TagNamedL(v: Value)
    ensures EncodeTag(Tag([108], v)) == [TypeOf(v), 0, 1, 108] + Encode(v)
  {
    hide Encode;
  }

  lemma OneTag(tag: Tag)
    requires WellFormed(tag.value) && |tag.name| < 0x1_0000
    ensures WellFormed(Compound([tag])) && EncodeTags([tag]) == EncodeTag(tag)
  {
    hide EncodeTag;
    assert EncodeTags([tag]) == EncodeTag(tag) + EncodeTags([]);
  }

  lemma TwoTags()
    ensures WellFormedTags([X, Y]) && EncodeTags([X, Y]) == [1, 0, 1, 120, 7, 1, 0, 1, 121, 8]
    ensures WellFormedTags([Y]) && EncodeTags([Y]) == [1, 0, 1, 121, 8]
  {
    assert EncodeTag(X) == [1, 0, 1, 120, 7] && EncodeTag(Y) == [1, 0, 1, 121, 8];
    assert EncodeTags([Y]) == EncodeTag(Y) + EncodeTags([]);
    assert EncodeTags([X, Y]) == EncodeTag(X) + EncodeTags([Y]);
  }

  /** The second compound of the list starts at offset 10. */
  lemma PlaceInNested(tags: seq<Tag>)
    ensures ValidPath(Nested(tags), [0, 1]) && ValueAt(Nested(tags), [0, 1]) == Compound(tags)
    ensures OffsetAt(Nested(tags), [0, 1]) == 10
    ensures forall ts :: Replace(Nested(tags), [0, 1], Compound(ts)) == Nested(ts)
  {
    var (none, inner) := (Compound([]), Compound(tags));
    var list := List(10, [none, inner]);
    assert [0, 1][1..] == [1] && [1][1..] == [];
    assert EncodeItems([none]) == [0];
    assert ChildOffset(list, 1) == 6 && ChildOffset(Nested(tags), 0) == 4 by {
      assert [none, inner][..1] == [none];
      assert Nested(tags).tags[..0] == [];
    }
    assert ChildOf(Nested(tags), 0) == list;
    assert OffsetAt(list, [1]) == 6;
    forall ts
      ensures Replace(Nested(tags), [0, 1], Compound(ts)) == Nested(ts)
    {
      assert [none, inner][1 := Compound(ts)] == [none, Compound(ts)];
      assert Replace(list, [1], Compound(ts)) == List(10, [none, Compound(ts)]);
    }
  }

  /** The tag "x" of that compound is found at its first byte, "y" behind it, and "z" nowhere; without the
      bytes of "x" the document has lost that tag and nothing else. */
  lemma DeleteFromNested()
    ensures var b: seq<byte> := [9, 0, 1, 108, 10, 0, 0, 0, 2, 0, 1, 0, 1, 120, 7, 1, 0, 1, 121, 8, 0, 0];
      && Decode(b, 0, 10) == Some(Nested([X, Y]))
      && FindTag(b, 10, Str([120])) == Found(10, 5)
      && FindTag(b, 10, Str([121])) == Found(15, 5)
      && FindTag(b, 10, Str([122])) == Missing
      && Splice(b, 10, 5, []) == [9, 0, 1, 108, 10, 0, 0, 0, 2, 0, 1, 0, 1, 121, 8, 0, 0]
      && Decode(Splice(b, 10, 5, []), 0, 10) == Some(Nested([Y]))
  {
    hide Decode, FindTag, Encode, WellFormed, EncodeTags, EncodeTag, OffsetAt, Replace, Nested, TagOffset, TypeOf;
    var b: seq<byte> := [9, 0, 1, 108, 10, 0, 0, 0, 2, 0, 1, 0, 1, 120, 7, 1, 0, 1, 121, 8, 0, 0];
    var after: seq<byte> := [9, 0, 1, 108, 10, 0, 0, 0, 2, 0, 1, 0, 1, 121, 8, 0, 0];
    TwoTags();
    NestedEncoding([X, Y]);
    NestedEncoding([Y]);
    DecodeWhole(b, Nested([X, Y]));
    DecodeWhole(after, Nested([Y]));
    FoundInNested(b);
  }

  lemma DecodeWhole(b: seq<byte>, v: Value)
    requires WellFormed(v) && b == Encode(v)
    ensures At(b, 0, b) && Decode(b, 0, TypeOf(v)) == Some(v)
  {
    hide Decode, Encode, WellFormed;
    assert b[0..|b|] == b;
    DecodeComplete(b, 0, v);
  }

  lemma FoundInNested(b: seq<byte>)
    requires WellFormed(Nested([X, Y])) && At(b, 0, Encode(Nested([X, Y])))
    ensures FindTag(b, 10, Str([120])) == Found(10, 5)
    ensures FindTag(b, 10, Str([121])) == Found(15, 5)
    ensures FindTag(b, 10, Str([122])) == Missing
  {
    hide FindTag, Encode, WellFormed, OffsetAt, Nested;
    PlaceInNested([X, Y]);
    TwoOffsets();
    FindInDocument(b, 0, Nested([X, Y]), [0, 1], Str([120]));
    FindInDocument(b, 0, Nested([X, Y]), [0, 1], Str([121]));
    FindInDocument(b, 0, Nested([X, Y]), [0, 1], Str([122]));
    assert X.name == [120] && Y.name == [121];
    assert [X, Y][1..] == [Y];
  }

  lemma TwoOffsets()
    ensures TagOffset([X, Y], 0) == 0 && TagOffset([X, Y], 1) == 5
    ensures |EncodeTag(X)| == |EncodeTag(Y)| == 5
  {
    assert [X, Y][..0] == [] && [X, Y][..1] == [X];
    assert EncodeTags([X]) == EncodeTag(X) + EncodeTags([]);
  }
}
