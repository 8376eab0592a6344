/** A decoder, and exactly when the size that `clod_nbt_payload_size` accepts is that of a value. */
module NbtDecode {
  import Arith
  import opened Bytes
  import opened NbtEdit
  import opened NbtScan
  import opened NbtTree
  import opened Wrappers

  /** The value of type `ty` encoded at `p`, if there is one. */
  function Decode(b: seq<byte>, p: nat, ty: byte): Option<Value>
    decreases Available(b, p), 1, 0
  {
    if NumberWidth(ty) != 0 then
      if p + NumberWidth(ty) > |b| then None else Some(Number(ty, b[p..p + NumberWidth(ty)]))
    else if ElementWidth(ty) != 0 then DecodeArray(b, p, ty)
    else if ty == STRING then
      if p + 2 > |b| || p + 2 + U16Dec(b, p) > |b| then None
      else Some(Text(b[p + 2..p + 2 + U16Dec(b, p)]))
    else if ty == LIST then
      if p + 5 > |b| then None
      else if b[p] == END then Some(EndList(U32Dec(b, p + 1)))
      else if !ValidType(b[p]) || I32Dec(b, p + 1) < 0 then None
      else
        var items := DecodeItems(b, p + 5, b[p], I32Dec(b, p + 1));
        if items.None? then None else Some(List(b[p], items.value))
    else if ty == COMPOUND then
      var tags := DecodeTags(b, p);
      if tags.None? then None else Some(Compound(tags.value))
    else None
  }

  function DecodeArray(b: seq<byte>, p: nat, ty: byte): Option<Value> {
    if p + 4 > |b| || I32Dec(b, p) < 0 then None
    else
      var size := I32Dec(b, p) * ElementWidth(ty);
      if p + 4 + size > |b| then None else Some(Array(ty, I32Dec(b, p), b[p + 4..p + 4 + size]))
  }

  function DecodeItems(b: seq<byte>, p: nat, ty: byte, n: nat): Option<seq<Value>>
    decreases Available(b, p), 2, n
  {
    if n == 0 then Some([])
    else
      var first := Decode(b, p, ty);
      if first.None? then None
      else
        var rest := DecodeItems(b, p + |Encode(first.value)|, ty, n - 1);
        if rest.None? then None else Some([first.value] + rest.value)
  }

  function DecodeTags(b: seq<byte>, p: nat): Option<seq<Tag>>
    decreases Available(b, p), 0, 0
  {
    if p >= |b| then None
    else if b[p] == END then Some([])
    else if !ValidType(b[p]) || p + 3 > |b| then None
    else
      var payload := p + 3 + U16Dec(b, p + 1);
      if payload > |b| then None
      else
        var value := Decode(b, payload, b[p]);
        if value.None? then None
        else
          var rest := DecodeTags(b, payload + |Encode(value.value)|);
          if rest.None? then None else Some([Tag(b[p + 3..payload], value.value)] + rest.value)
  }

  // ---- soundness: what is decoded stands there ----

  lemma U16OfBytes(b: seq<byte>, p: nat)
    requires p + 2 <= |b|
    ensures U16Dec(b, p) < 0x1_0000 && At(b, p, U16Enc(U16Dec(b, p)))
  {
  }

  lemma U32OfBytes(b: seq<byte>, p: nat)
    requires p + 4 <= |b|
    ensures U32Dec(b, p) < 0x1_0000_0000 && At(b, p, U32Enc(U32Dec(b, p)))
  {
    U32OfDigits(b[p] as int, b[p + 1] as int, b[p + 2] as int, b[p + 3] as int);
    assert b[p..p + 4] == [b[p], b[p + 1], b[p + 2], b[p + 3]];
  }

  lemma U32OfDigits(w: nat, x: nat, y: nat, z: nat)
    requires w < 256 && x < 256 && y < 256 && z < 256
    ensures U32Enc(w * 0x100_0000 + x * 0x1_0000 + y * 0x100 + z) == [w, x, y, z]
  {
    var n := w * 0x100_0000 + x * 0x1_0000 + y * 0x100 + z;
    Arith.DivModUnique(n, 0x100_0000, w, x * 0x1_0000 + y * 0x100 + z);
    Arith.DivModUnique(n, 0x1_0000, w * 0x100 + x, y * 0x100 + z);
    Arith.DivModUnique(n, 0x100, w * 0x1_0000 + x * 0x100 + y, z);
    Arith.DivModUnique(w * 0x100 + x, 0x100, w, x);
    Arith.DivModUnique(w * 0x1_0000 + x * 0x100 + y, 0x100, w * 0x100 + x, y);
  }

  lemma {:induction false} DecodeSound(b: seq<byte>, p: nat, ty: byte)
    requires Decode(b, p, ty).Some?
    ensures var v := Decode(b, p, ty).value;
      WellFormed(v) && TypeOf(v) == ty && At(b, p, Encode(v))
    decreases Available(b, p), 1, 0
  {
    hide At;
    if NumberWidth(ty) != 0 || ElementWidth(ty) != 0 || ty == STRING {
      DecodeLeafSound(b, p, ty);
    } else if ty == LIST {
      DecodeListSound(b, p);
    } else {
      DecodeTagsSound(b, p);
    }
  }

  lemma DecodeLeafSound(b: seq<byte>, p: nat, ty: byte)
    requires NumberWidth(ty) != 0 || ElementWidth(ty) != 0 || ty == STRING
    requires Decode(b, p, ty).Some?
    ensures var v := Decode(b, p, ty).value;
      WellFormed(v) && TypeOf(v) == ty && At(b, p, Encode(v))
  {
    hide U16Enc, U32Enc;
    if NumberWidth(ty) != 0 {
    } else if ElementWidth(ty) != 0 {
      U32OfBytes(b, p);
      var v := Decode(b, p, ty).value;
      AtAppend(b, p, U32Enc(v.count), v.elements);
    } else {
      U16OfBytes(b, p);
      var v := Decode(b, p, ty).value;
      AtAppend(b, p, U16Enc(|v.chars|), v.chars);
    }
  }

  lemma {:induction false} DecodeListSound(b: seq<byte>, p: nat)
    requires Decode(b, p, LIST).Some?
    ensures var v := Decode(b, p, LIST).value;
      WellFormed(v) && TypeOf(v) == LIST && At(b, p, Encode(v))
    decreases Available(b, p), 0, 1
  {
    hide U32Enc;
    var (ty, n) := (b[p], U32Dec(b, p + 1));
    U32OfBytes(b, p + 1);
    assert At(b, p, [ty]);
    AtAppend(b, p, [ty], U32Enc(n));
    if ty != END {
      DecodeItemsSound(b, p + 5, ty, n);
      AtAppend(b, p, [ty] + U32Enc(n), EncodeItems(DecodeItems(b, p + 5, ty, n).value));
    }
  }

  lemma {:induction false} DecodeItemsSound(b: seq<byte>, p: nat, ty: byte, n: nat)
    requires p <= |b| && DecodeItems(b, p, ty, n).Some?
    ensures var items := DecodeItems(b, p, ty, n).value;
      |items| == n && WellFormedItems(ty, items) && At(b, p, EncodeItems(items))
    decreases Available(b, p), 2, n
  {
    hide Decode, Encode, At, WellFormed, WellFormedItems;
    if n == 0 {
      assert WellFormedItems(ty, []) && At(b, p, EncodeItems([])) by { NoItems(b, p, ty); }
    } else {
      DecodeSound(b, p, ty);
      var first := Decode(b, p, ty).value;
      EncodingEnds(b, p, first);
      DecodeItemsSound(b, p + |Encode(first)|, ty, n - 1);
      ItemsAt(b, p, ty, first, DecodeItems(b, p + |Encode(first)|, ty, n - 1).value);
    }
  }

  lemma NoItems(b: seq<byte>, p: nat, ty: byte)
    requires p <= |b|
    ensures WellFormedItems(ty, []) && At(b, p, EncodeItems([]))
  {
  }

  lemma EncodingEnds(b: seq<byte>, p: nat, v: Value)
    requires At(b, p, Encode(v))
    ensures p + |Encode(v)| <= |b|
  {
  }

  lemma ItemsAt(b: seq<byte>, p: nat, ty: byte, first: Value, rest: seq<Value>)
    requires WellFormed(first) && TypeOf(first) == ty && WellFormedItems(ty, rest)
    requires At(b, p, Encode(first)) && At(b, p + |Encode(first)|, EncodeItems(rest))
    ensures WellFormedItems(ty, [first] + rest) && At(b, p, EncodeItems([first] + rest))
  {
    hide Encode, WellFormed;
    AtAppend(b, p, Encode(first), EncodeItems(rest));
    assert ([first] + rest)[1..] == rest;
  }

  lemma {:induction false} DecodeTagsSound(b: seq<byte>, p: nat)
    requires DecodeTags(b, p).Some?
    ensures var tags := DecodeTags(b, p).value;
      WellFormedTags(tags) && At(b, p, EncodeTags(tags) + [END])
    decreases Available(b, p), 0, 0
  {
    hide Encode, EncodeTags, U16Enc, At, Decode;
    if b[p] == END {
      TerminatorAt(b, p, []);
    } else {
      U16OfBytes(b, p + 1);
      var payload := p + 3 + U16Dec(b, p + 1);
      DecodeSound(b, payload, b[p]);
      var value := Decode(b, payload, b[p]).value;
      var next := payload + |Encode(value)|;
      DecodeTagsSound(b, next);
      var rest := DecodeTags(b, next).value;
      DecodedTag(b, p, Tag(b[p + 3..payload], value), rest);
    }
  }

  lemma TerminatorAt(b: seq<byte>, p: nat, tags: seq<Tag>)
    requires tags == [] && p < |b| && b[p] == END
    ensures At(b, p, EncodeTags(tags) + [END])
  {
  }

  lemma DecodedTag(b: seq<byte>, p: nat, tag: Tag, rest: seq<Tag>)
    requires |tag.name| < 0x1_0000 && p + 3 + |tag.name| <= |b|
    requires b[p] == TypeOf(tag.value) && U16Dec(b, p + 1) == |tag.name| && b[p + 3..p + 3 + |tag.name|] == tag.name
    requires At(b, p + 3 + |tag.name|, Encode(tag.value))
    requires At(b, p + 3 + |tag.name| + |Encode(tag.value)|, EncodeTags(rest) + [END])
    ensures At(b, p, EncodeTags([tag] + rest) + [END])
  {
    hide Encode, TagHeader, TypeOf, At;
    DecodedHeader(b, p, tag);
    AtAppend(b, p, TagHeader(tag), Encode(tag.value));
    AtAppend(b, p, EncodeTag(tag), EncodeTags(rest) + [END]);
    assert ([tag] + rest)[1..] == rest;
    assert EncodeTags([tag] + rest) + [END] == EncodeTag(tag) + (EncodeTags(rest) + [END]);
  }

  lemma DecodedHeader(b: seq<byte>, p: nat, tag: Tag)
    requires |tag.name| < 0x1_0000 && p + 3 + |tag.name| <= |b|
    requires b[p] == TypeOf(tag.value) && U16Dec(b, p + 1) == |tag.name| && b[p + 3..p + 3 + |tag.name|] == tag.name
    ensures At(b, p, TagHeader(tag)) && |TagHeader(tag)| == 3 + |tag.name|
  {
    hide U16Enc, TypeOf;
    var ty := TypeOf(tag.value);
    U16OfBytes(b, p + 1);
    assert At(b, p, [ty]);
    AtAppend(b, p, [ty], U16Enc(|tag.name|));
    AtAppend(b, p, [ty] + U16Enc(|tag.name|), tag.name);
  }

  // ---- completeness: what stands there is decoded ----

  lemma {:induction false} DecodeComplete(b: seq<byte>, p: nat, v: Value)
    requires WellFormed(v) && At(b, p, Encode(v))
    ensures Decode(b, p, TypeOf(v)) == Some(v)
    decreases v
  {
    match v
    case List(ty, items) =>
      ListHeaderAt(b, p, ty, |items|, EncodeItems(items));
      DecodeItemsComplete(b, p + 5, ty, items);
    case Compound(tags) =>
      DecodeTagsComplete(b, p, tags);
    case _ =>
      DecodeLeafComplete(b, p, v);
  }

  lemma DecodeLeafComplete(b: seq<byte>, p: nat, v: Value)
    requires !v.List? && !v.Compound?
    requires WellFormed(v) && At(b, p, Encode(v))
    ensures Decode(b, p, TypeOf(v)) == Some(v)
  {
    hide U16Enc, U32Enc, DecodeArray;
    match v
    case Number(_, _) =>
    case Array(_, _, _) =>
      DecodeArrayComplete(b, p, v);
    case Text(chars) =>
      AtAppend(b, p, U16Enc(|chars|), chars);
      U16RoundTrip(b, p, |chars|);
    case EndList(header) =>
      AtAppend(b, p, [END], U32Enc(header));
      AtIndex(b, p, [END], 0);
      U32RoundTrip(b, p + 1, header);
  }

  lemma DecodeArrayComplete(b: seq<byte>, p: nat, v: Value)
    requires v.Array? && WellFormed(v) && At(b, p, Encode(v))
    ensures DecodeArray(b, p, v.arrayType) == Some(v)
  {
    hide U32Enc;
    AtAppend(b, p, U32Enc(v.count), v.elements);
    U32RoundTrip(b, p, v.count);
  }

  lemma {:induction false} DecodeItemsComplete(b: seq<byte>, p: nat, ty: byte, items: seq<Value>)
    requires WellFormedItems(ty, items) && At(b, p, EncodeItems(items))
    ensures DecodeItems(b, p, ty, |items|) == Some(items)
    decreases items
  {
    if items != [] {
      hide At, Encode, EncodeItems, Decode, DecodeItems, TypeOf, WellFormed, WellFormedItems;
      FirstItem(ty, items);
      AtAppend(b, p, Encode(items[0]), EncodeItems(items[1..]));
      DecodeComplete(b, p, items[0]);
      DecodeItemsComplete(b, p + |Encode(items[0])|, ty, items[1..]);
      DecodeItemsStep(b, p, ty, items);
    }
  }

  lemma DecodeItemsStep(b: seq<byte>, p: nat, ty: byte, items: seq<Value>)
    requires items != [] && Decode(b, p, ty) == Some(items[0])
    requires DecodeItems(b, p + |Encode(items[0])|, ty, |items| - 1) == Some(items[1..])
    ensures DecodeItems(b, p, ty, |items|) == Some(items)
  {
    hide Decode, Encode;
    assert items == [items[0]] + items[1..];
  }

  lemma {:induction false} DecodeTagsComplete(b: seq<byte>, p: nat, tags: seq<Tag>)
    requires WellFormedTags(tags) && At(b, p, EncodeTags(tags) + [END])
    ensures DecodeTags(b, p) == Some(tags)
    decreases tags
  {
    hide Encode, EncodeTags, At, TypeOf, Decode;
    FirstByte(b, p, tags);
    if tags != [] {
      TagHeaderAt(b, p, tags);
      var (tag, rest) := (tags[0], tags[1..]);
      var payload := p + 3 + |tag.name|;
      DecodeComplete(b, payload, tag.value);
      DecodeTagsComplete(b, payload + |Encode(tag.value)|, rest);
      DecodeTagsStep(b, p, tag, rest);
      assert tags == [tag] + rest;
    }
  }

  lemma DecodeTagsStep(b: seq<byte>, p: nat, tag: Tag, rest: seq<Tag>)
    requires HeaderAt(b, p, TypeOf(tag.value), |tag.name|) && b[p + 3..p + 3 + |tag.name|] == tag.name
    requires Decode(b, p + 3 + |tag.name|, TypeOf(tag.value)) == Some(tag.value)
    requires DecodeTags(b, p + 3 + |tag.name| + |Encode(tag.value)|) == Some(rest)
    ensures DecodeTags(b, p) == Some([tag] + rest)
  {
    hide Encode, TypeOf, Decode;
  }

  /** Bytes standing at an offset decode to at most one value of each type. */
  lemma DecodingUnique(b: seq<byte>, p: nat, v: Value, w: Value)
    requires WellFormed(v) && WellFormed(w) && TypeOf(v) == TypeOf(w)
    requires At(b, p, Encode(v)) && At(b, p, Encode(w))
    ensures v == w
  {
    DecodeComplete(b, p, v);
    DecodeComplete(b, p, w);
  }

  /** No encoding is a proper prefix of another of the same type, and distinct values have distinct
      encodings. */
  lemma EncodingsPrefixFree(v: Value, w: Value)
    requires WellFormed(v) && WellFormed(w) && TypeOf(v) == TypeOf(w)
    requires Encode(v) <= Encode(w)
    ensures v == w
  {
    DecodingUnique(Encode(w), 0, v, w);
  }

  // ---- when a size means a value ----

  /** No number reaches past `end`, no array or list has a negative count, and no tag's payload is
      malformed: the things `clod_nbt_payload_size` lets pass. */
  predicate Intact(b: seq<byte>, p: nat, ty: byte)
    requires Scan(b, p, ty).Sized?
    decreases Available(b, p), 1, 0
  {
    if NumberWidth(ty) != 0 then p + NumberWidth(ty) <= |b|
    else if ElementWidth(ty) != 0 then I32Dec(b, p) >= 0
    else if ty == LIST && b[p] != END then
      I32Dec(b, p + 1) >= 0 && IntactItems(b, p + 5, b[p], I32Dec(b, p + 1))
    else if ty == COMPOUND then IntactTags(b, p)
    else true
  }

  predicate IntactItems(b: seq<byte>, p: nat, ty: byte, n: nat)
    requires ScanItems(b, p, ty, n).Sized?
    decreases Available(b, p), 2, n
  {
    n == 0 || (Intact(b, p, ty) && IntactItems(b, p + Scan(b, p, ty).n, ty, n - 1))
  }

  predicate IntactTags(b: seq<byte>, p: nat)
    requires ScanTags(b, p).Sized?
    decreases Available(b, p), 0, 0
  {
    b[p] == END ||
    var payload := p + 3 + U16Dec(b, p + 1);
    var size := Scan(b, payload, b[p]);
    size.Sized? && Intact(b, payload, b[p]) && IntactTags(b, payload + size.n)
  }

  lemma DecodedSize(b: seq<byte>, p: nat, ty: byte)
    requires Decode(b, p, ty).Some?
    ensures Scan(b, p, ty) == Sized(|Encode(Decode(b, p, ty).value)|)
  {
    hide Scan, Encode, Decode;
    DecodeSound(b, p, ty);
    ScanEncoding(b, p, Decode(b, p, ty).value);
  }

  lemma {:induction false} IntactDecodes(b: seq<byte>, p: nat, ty: byte)
    requires Scan(b, p, ty).Sized?
    ensures Intact(b, p, ty) <==> Decode(b, p, ty).Some?
    decreases Available(b, p), 1, 0
  {
    hide SizeT, DecodeArray;
    if ElementWidth(ty) != 0 {
      IntactArrayDecodes(b, p, ty);
    } else if ty == LIST && b[p] != END && I32Dec(b, p + 1) >= 0 {
      SizeTIs(I32Dec(b, p + 1));
      IntactItemsDecode(b, p + 5, b[p], I32Dec(b, p + 1));
    } else if ty == COMPOUND {
      IntactTagsDecode(b, p);
    }
  }

  lemma IntactArrayDecodes(b: seq<byte>, p: nat, ty: byte)
    requires ElementWidth(ty) != 0 && Scan(b, p, ty).Sized?
    ensures p + 4 <= |b| && (I32Dec(b, p) >= 0 <==> DecodeArray(b, p, ty).Some?)
  {
    hide SizeT;
    if I32Dec(b, p) >= 0 {
      SizeTIs(4 + I32Dec(b, p) * ElementWidth(ty));
    }
  }

  lemma {:induction false} IntactItemsDecode(b: seq<byte>, p: nat, ty: byte, n: nat)
    requires ScanItems(b, p, ty, n).Sized?
    ensures IntactItems(b, p, ty, n) <==> DecodeItems(b, p, ty, n).Some?
    decreases Available(b, p), 2, n
  {
    if n > 0 {
      IntactDecodes(b, p, ty);
      IntactItemsDecode(b, p + Scan(b, p, ty).n, ty, n - 1);
      if Decode(b, p, ty).Some? {
        DecodedSize(b, p, ty);
      }
    }
  }

  lemma {:induction false} IntactTagsDecode(b: seq<byte>, p: nat)
    requires ScanTags(b, p).Sized?
    ensures IntactTags(b, p) <==> DecodeTags(b, p).Some?
    decreases Available(b, p), 0, 0
  {
    hide Scan, Encode, Decode, Intact;
    if b[p] != END {
      var payload := p + 3 + U16Dec(b, p + 1);
      if Decode(b, payload, b[p]).Some? {
        DecodedSize(b, payload, b[p]);
      }
      if Scan(b, payload, b[p]).Sized? {
        IntactDecodes(b, payload, b[p]);
        IntactTagsDecode(b, payload + Scan(b, payload, b[p]).n);
      }
    }
  }

  /** Exactly when a nonzero payload size is the size of a value of that type: when nothing inside was
      let pass. */
  lemma SizeIsOfAValue(b: seq<byte>, p: nat, ty: byte)
    requires Scan(b, p, ty).Sized?
    ensures Intact(b, p, ty) <==>
      exists v :: WellFormed(v) && TypeOf(v) == ty && At(b, p, Encode(v)) && |Encode(v)| == Scan(b, p, ty).n
  {
    hide Scan, Encode, Decode, Intact, At, WellFormed;
    IntactDecodes(b, p, ty);
    if Intact(b, p, ty) {
      DecodeSound(b, p, ty);
      DecodedSize(b, p, ty);
    }
    forall v | WellFormed(v) && TypeOf(v) == ty && At(b, p, Encode(v))
      ensures Decode(b, p, ty).Some?
    {
      DecodeComplete(b, p, v);
    }
  }

  /** The sizes of three payloads that are not values: a number behind the end, an array of -1 bytes,
      and a compound whose only tag has a malformed payload. */
  lemma SizesOfNoValue()
    ensures Scan([], 0, INT16) == Sized(2) && !Intact([], 0, INT16)
    ensures Scan([255, 255, 255, 255], 0, INT8_ARRAY) == Sized(3) && !Intact([255, 255, 255, 255], 0, INT8_ARRAY)
    ensures Scan([INT8_ARRAY, 0, 0, END], 0, COMPOUND) == Sized(4) && !Intact([INT8_ARRAY, 0, 0, END], 0, COMPOUND)
  {
    var b := [INT8_ARRAY, 0, 0, END];
    assert Scan(b, 3, INT8_ARRAY) == Malformed;
    assert ScanTags(b, 3) == Sized(1);
    assert ScanTags(b, 0) == Sized(4);
  }

  /** Exactly when the list that a change of type writes is a list at all. */
  lemma WipedListIsAValue(ty: byte, n: nat)
    requires n < 0x1_0000_0000
    ensures (exists v :: WellFormed(v) && TypeOf(v) == LIST && Encode(v) == WipedList(ty, n)) <==> Listable(ty, n)
  {
    hide WipedList, DefaultList, Encode, WellFormed;
    if Listable(ty, n) {
      DefaultListEncoding(ty, n);
      assert Encode(DefaultList(ty, n)) == WipedList(ty, n);
    }
    var b := WipedList(ty, n);
    forall v | WellFormed(v) && TypeOf(v) == LIST && Encode(v) == b
      ensures Listable(ty, n)
    {
      assert At(b, 0, Encode(v));
      DecodeComplete(b, 0, v);
      WipedHeader(ty, n);
    }
  }

  lemma WipedHeader(ty: byte, n: nat)
    requires n < 0x1_0000_0000
    ensures WipedList(ty, n)[0] == ty && U32Dec(WipedList(ty, n), 1) == n
  {
    hide U32Dec;
    var b := WipedList(ty, n);
    assert b[1..5] == U32Enc(n);
    U32RoundTrip(b, 1, n);
  }
}
