/** What the NBT traversal functions compute on arbitrary bytes, and why they agree with the grammar.
    `b` holds the bytes before `end`; pointers are offsets into it and may lie past its end. */
module NbtScan {
  import opened Bytes
  import opened NbtTree

  /** `Malformed` is the C result 0. `NegativeList` marks a walk that meets a list of numbers whose
      32-bit length is negative: the C code counts up to the sign-extended `size_t`, and the sum of the
      sizes wraps. */
  datatype Size = Sized(n: nat) | Malformed | NegativeList

  /** `available(ptr, end)` */
  function Available(b: seq<byte>, p: nat): (n: nat)
    ensures n == 0 || p + n == |b|
  {
    if p <= |b| then |b| - p else 0
  }

  /** The size of the payload of type `ty` at `p`. */
  function Scan(b: seq<byte>, p: nat, ty: byte): (r: Size)
    ensures r.Sized? ==> r.n >= 1
    decreases Available(b, p), 1, 0
  {
    if NumberWidth(ty) != 0 then Sized(NumberWidth(ty))
    else if ElementWidth(ty) != 0 then
      if Available(b, p) < 4 then Malformed
      else Fitting(b, p, SizeT(4 + I32Dec(b, p) * ElementWidth(ty)))
    else if ty == STRING then
      if Available(b, p) < 2 then Malformed else Fitting(b, p, 2 + U16Dec(b, p))
    else if ty == LIST then
      if Available(b, p) < 5 then Malformed
      else if b[p] == END then Sized(5)
      else if !ValidType(b[p]) then Malformed
      else if NumberWidth(b[p]) != 0 && I32Dec(b, p + 1) < 0 then NegativeList
      else
        var items := ScanItems(b, p + 5, b[p], SizeT(I32Dec(b, p + 1)));
        if items.Sized? then Sized(5 + items.n) else items
    else if ty == COMPOUND then ScanTags(b, p)
    else Malformed
  }

  function Fitting(b: seq<byte>, p: nat, size: nat): Size {
    if size == 0 || Available(b, p) < size then Malformed else Sized(size)
  }

  /** The size of `n` consecutive payloads of type `ty`. */
  function ScanItems(b: seq<byte>, p: nat, ty: byte, n: nat): (r: Size)
    decreases Available(b, p), 2, n
  {
    if n == 0 then Sized(0)
    else
      var first := Scan(b, p, ty);
      if !first.Sized? then first
      else
        var rest := ScanItems(b, p + first.n, ty, n - 1);
        if rest.Sized? then Sized(first.n + rest.n) else rest
  }

  /** The size of a compound's remaining tags, terminator included. A tag whose payload is
      malformed counts as its header alone and the scan goes on behind that header. */
  function ScanTags(b: seq<byte>, p: nat): (r: Size)
    ensures r.Sized? ==> 1 <= r.n <= Available(b, p)
    decreases Available(b, p), 0, 0
  {
    if Available(b, p) >= 3 && ValidType(b[p]) then
      var header := 3 + U16Dec(b, p + 1);
      if Available(b, p) < header then Malformed
      else
        var payload := Scan(b, p + header, b[p]);
        if payload.NegativeList? then NegativeList
        else
          var size := header + if payload.Sized? then payload.n else 0;
          var rest := ScanTags(b, p + size);
          if rest.Sized? then Sized(size + rest.n) else rest
    else if Available(b, p) >= 1 && b[p] == END then Sized(1)
    else Malformed
  }

  // ---- agreement with the grammar ----

  /** Sizing an encoded value gives the length of its encoding, whatever surrounds it. */
  lemma {:induction false} ScanEncoding(b: seq<byte>, p: nat, v: Value)
    requires WellFormed(v) && At(b, p, Encode(v))
    ensures Scan(b, p, TypeOf(v)) == Sized(|Encode(v)|)
    decreases v
  {
    hide SizeT;
    match v
    case List(ty, items) =>
      ListHeaderAt(b, p, ty, |items|, EncodeItems(items));
      SizeTIs(|items|);
      ScanEncodedItems(b, p + 5, ty, items);
    case Compound(tags) =>
      ScanEncodedTags(b, p, tags);
    case _ =>
      ScanLeaf(b, p, v);
  }

  lemma ScanLeaf(b: seq<byte>, p: nat, v: Value)
    requires !v.List? && !v.Compound?
    requires WellFormed(v) && At(b, p, Encode(v))
    ensures Scan(b, p, TypeOf(v)) == Sized(|Encode(v)|)
  {
    match v
    case Number(_, _) =>
    case Array(_, _, _) =>
      ScanArray(b, p, v);
    case Text(chars) =>
      AtAppend(b, p, U16Enc(|chars|), chars);
      U16RoundTrip(b, p, |chars|);
    case EndList(header) =>
      AtIndex(b, p, Encode(v), 0);
  }

  lemma ScanArray(b: seq<byte>, p: nat, v: Value)
    requires v.Array? && WellFormed(v) && At(b, p, Encode(v))
    ensures Scan(b, p, TypeOf(v)) == Sized(|Encode(v)|)
  {
    AtAppend(b, p, U32Enc(v.count), v.elements);
    U32RoundTrip(b, p, v.count);
    assert SizeT(4 + v.count * ElementWidth(v.arrayType)) == |Encode(v)|;
  }

  lemma ListHeaderAt(b: seq<byte>, p: nat, ty: byte, n: nat, s: seq<byte>)
    requires At(b, p, [ty] + U32Enc(n) + s) && n < 0x8000_0000
    ensures p + 5 <= |b| && b[p] == ty && I32Dec(b, p + 1) == n && At(b, p + 5, s)
  {
    AtAppend(b, p, [ty] + U32Enc(n), s);
    AtAppend(b, p, [ty], U32Enc(n));
    AtIndex(b, p, [ty], 0);
    U32RoundTrip(b, p + 1, n);
  }

  lemma {:induction false} ScanEncodedItems(b: seq<byte>, p: nat, ty: byte, items: seq<Value>)
    requires WellFormedItems(ty, items) && At(b, p, EncodeItems(items))
    ensures ScanItems(b, p, ty, |items|) == Sized(|EncodeItems(items)|)
    decreases items
  {
    if items != [] {
      hide At, Encode, EncodeItems, Scan, TypeOf, WellFormed, WellFormedItems;
      FirstItem(ty, items);
      AtAppend(b, p, Encode(items[0]), EncodeItems(items[1..]));
      ScanEncoding(b, p, items[0]);
      ScanEncodedItems(b, p + |Encode(items[0])|, ty, items[1..]);
    }
  }

  lemma {:induction false} ScanEncodedTags(b: seq<byte>, p: nat, tags: seq<Tag>)
    requires WellFormedTags(tags) && At(b, p, EncodeTags(tags) + [END])
    ensures ScanTags(b, p) == Sized(|EncodeTags(tags)| + 1)
    decreases tags
  {
    if tags == [] {
      AtIndex(b, p, EncodeTags(tags) + [END], 0);
    } else {
      ScanEncodedTagsFrom(b, p, tags);
    }
  }

  lemma {:induction false} ScanEncodedTagsFrom(b: seq<byte>, p: nat, tags: seq<Tag>)
    requires tags != [] && WellFormedTags(tags) && At(b, p, EncodeTags(tags) + [END])
    ensures ScanTags(b, p) == Sized(|EncodeTags(tags)| + 1)
    decreases tags, 0
  {
    hide Scan, ScanTags, Encode, EncodeTags, At, TypeOf;
    TagHeaderAt(b, p, tags);
    var (ty, name, value) := (TypeOf(tags[0].value), |tags[0].name|, |Encode(tags[0].value)|);
    ScanEncoding(b, p + 3 + name, tags[0].value);
    ScanEncodedTags(b, p + 3 + name + value, tags[1..]);
    ScanTagsStep(b, p, ty, name, value, |EncodeTags(tags[1..])| + 1);
  }

  /** A tag header of type `ty` with a name of `name` bytes stands at `p`. */
  predicate HeaderAt(b: seq<byte>, p: nat, ty: byte, name: nat) {
    p + 3 + name <= |b| && b[p] == ty && ValidType(ty) && U16Dec(b, p + 1) == name
  }

  lemma ScanTagsStep(b: seq<byte>, p: nat, ty: byte, name: nat, value: nat, rest: nat)
    requires HeaderAt(b, p, ty, name)
    requires Scan(b, p + 3 + name, ty) == Sized(value)
    requires ScanTags(b, p + 3 + name + value) == Sized(rest)
    ensures ScanTags(b, p) == Sized(3 + name + value + rest)
  {
  }

  /** What stands at the first tag of an encoded compound. */
  lemma TagHeaderAt(b: seq<byte>, p: nat, tags: seq<Tag>)
    requires WellFormedTags(tags) && tags != [] && At(b, p, EncodeTags(tags) + [END])
    ensures TagAt(b, p, tags[0]) && WellFormed(tags[0].value) && WellFormedTags(tags[1..])
    ensures |EncodeTags(tags)| == 3 + |tags[0].name| + |Encode(tags[0].value)| + |EncodeTags(tags[1..])|
    ensures At(b, p + 3 + |tags[0].name| + |Encode(tags[0].value)|, EncodeTags(tags[1..]) + [END])
  {
    hide At, Encode, EncodeTags, EncodeTag, TagAt, TypeOf;
    EncodeTagsStep(tags);
    AtAppend(b, p, EncodeTag(tags[0]), EncodeTags(tags[1..]) + [END]);
    EncodedTagAt(b, p, tags[0]);
  }

  lemma EncodeTagsStep(tags: seq<Tag>)
    requires tags != []
    ensures EncodeTags(tags) + [END] == EncodeTag(tags[0]) + (EncodeTags(tags[1..]) + [END])
    ensures |EncodeTags(tags)| == |EncodeTag(tags[0])| + |EncodeTags(tags[1..])|
    ensures |EncodeTag(tags[0])| == 3 + |tags[0].name| + |Encode(tags[0].value)|
  {
    hide Encode, TypeOf;
  }

  ghost predicate TagAt(b: seq<byte>, p: nat, tag: Tag) {
    var header := 3 + |tag.name|;
    && HeaderAt(b, p, TypeOf(tag.value), |tag.name|)
    && b[p + 3..p + header] == tag.name
    && At(b, p + header, Encode(tag.value))
  }

  lemma EncodedTagAt(b: seq<byte>, p: nat, tag: Tag)
    requires |tag.name| < 0x1_0000 && WellFormed(tag.value) && At(b, p, EncodeTag(tag))
    ensures TagAt(b, p, tag)
  {
    var ty := TypeOf(tag.value);
    WellFormedType(tag.value);
    AtAppend(b, p, TagHeader(tag), Encode(tag.value));
    AtAppend(b, p, [ty] + U16Enc(|tag.name|), tag.name);
    AtAppend(b, p, [ty], U16Enc(|tag.name|));
    AtIndex(b, p, [ty], 0);
    U16RoundTrip(b, p + 1, |tag.name|);
  }

  /** A type byte stands where a compound goes on, the terminator where it ends. */
  lemma FirstByte(b: seq<byte>, p: nat, tags: seq<Tag>)
    requires WellFormedTags(tags) && At(b, p, EncodeTags(tags) + [END])
    ensures p < |b| && (b[p] == END <==> tags == [])
  {
    if tags == [] {
      AtIndex(b, p, EncodeTags(tags) + [END], 0);
    } else {
      TagHeaderAt(b, p, tags);
    }
  }

  // ---- arbitrary bytes ----

  /** How far a payload can claim to reach past `end`: one list of fixed-width elements. */
  const OVERSHOOT: nat := 5 + 8 * 0x7FFF_FFFF

  /** Strings, arrays and compounds never claim bytes past `end`. A list may, but by no more than
      one list of numbers, so no sum of sizes comes near wrapping a 64-bit `size_t`. */
  lemma {:induction false} ScanBounded(b: seq<byte>, p: nat, ty: byte)
    requires Scan(b, p, ty).Sized?
    ensures Scan(b, p, ty).n <= Available(b, p) + OVERSHOOT
    ensures ElementWidth(ty) != 0 || ty == STRING || ty == COMPOUND ==> Scan(b, p, ty).n <= Available(b, p)
    decreases Available(b, p), 1, 0
  {
    if ty == LIST && b[p] != END {
      ScanItemsBounded(b, p + 5, b[p], SizeT(I32Dec(b, p + 1)));
    }
  }

  lemma {:induction false} ScanItemsBounded(b: seq<byte>, p: nat, ty: byte, n: nat)
    requires ScanItems(b, p, ty, n).Sized?
    ensures NumberWidth(ty) != 0 ==> ScanItems(b, p, ty, n).n == n * NumberWidth(ty)
    ensures NumberWidth(ty) == 0 ==> ScanItems(b, p, ty, n).n <= Available(b, p) + OVERSHOOT
    decreases Available(b, p), 2, n
  {
    if n > 0 {
      var first := Scan(b, p, ty).n;
      ScanBounded(b, p, ty);
      ScanItemsBounded(b, p + first, ty, n - 1);
    }
  }
}
