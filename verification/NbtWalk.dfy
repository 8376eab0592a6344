/** Stepping through a compound's tags: what the iterator and the lookup see on arbitrary bytes, and
    what that means on an encoded tree. */
module NbtWalk {
  import opened Bytes
  import opened NbtTree
  import opened NbtScan

  datatype Ptr = Null | To(pos: nat)

  /** `clod_sstr`: a null string equals no string that has a pointer, not even an empty one. */
  datatype SStr = NullStr | Str(chars: seq<byte>)

  predicate SStrEq(s: SStr, t: SStr) {
    s == t
  }

  /** `clod_nbt_tag_payload` */
  function TagPayload(b: seq<byte>, tag: nat): Ptr {
    if Available(b, tag) < 3 || !ValidType(b[tag]) then Null
    else if Available(b, tag) < 3 + U16Dec(b, tag + 1) then Null
    else To(tag + 3 + U16Dec(b, tag + 1))
  }

  /** `clod_nbt_tag_name` */
  function TagName(b: seq<byte>, tag: nat): SStr {
    if TagPayload(b, tag).Null? then NullStr
    else Str(b[tag + 3..TagPayload(b, tag).pos])
  }

  /** `clod_nbt_tag_size`. A malformed payload adds nothing to the size of its header. */
  function TagSize(b: seq<byte>, tag: nat): Size {
    if TagPayload(b, tag).Null? then Malformed
    else
      var payload := TagPayload(b, tag).pos;
      match Scan(b, payload, b[tag])
      case Sized(n) => Sized(payload - tag + n)
      case Malformed => Sized(payload - tag)
      case NegativeList => NegativeList
  }

  /** What stands where a compound's next tag is expected. `size` counts header and payload. */
  datatype TagView = Child(payload: nat, size: nat, ty: byte) | Terminator | Broken | Negative

  function View(b: seq<byte>, tag: nat): (r: TagView)
    ensures r.Child? ==> tag + 4 <= r.payload + 1 && tag + r.size > r.payload && tag < |b|
  {
    if Available(b, tag) < 1 then Broken
    else if b[tag] == END then Terminator
    else if TagPayload(b, tag).Null? then Broken
    else
      var payload := TagPayload(b, tag).pos;
      match Scan(b, payload, b[tag])
      case Sized(n) => Child(payload, payload - tag + n, b[tag])
      case Malformed => Broken
      case NegativeList => Negative
  }

  datatype Find = Found(tag: nat, size: nat) | Missing | MeetsNegative

  /** The first tag named `name` at or after `tag`. */
  function FindTag(b: seq<byte>, tag: nat, name: SStr): Find
    decreases Available(b, tag)
  {
    match View(b, tag)
    case Child(_, size, _) =>
      if SStrEq(TagName(b, tag), name) then Found(tag, size) else FindTag(b, tag + size, name)
    case Negative => MeetsNegative
    case _ => Missing
  }

  /** The iterator's fields (`struct clod_nbt_iter`). */
  datatype Iter = Iter(tag: Ptr, payload: Ptr, size: nat, ty: byte, index: nat)

  const ITER_ZERO := Iter(Null, Null, 0, END, 0)

  ghost predicate Stepping(it: Iter) {
    it.payload.To? ==> it.tag.To?
  }

  /** Where the next step over the compound at `compound` looks. */
  function NextTag(compound: nat, it: Iter): nat
    requires Stepping(it)
  {
    if it.payload.Null? then compound else it.tag.pos + it.size
  }

  function NextIndex(it: Iter): nat {
    if it.payload.Null? then 0 else (it.index + 1) % 0x1_0000_0000
  }

  /** One step of the iteration over a compound; the step yields a child exactly if the new payload
      is not null. */
  function Step(b: seq<byte>, compound: nat, it: Iter): (r: Iter)
    requires Stepping(it)
    ensures Stepping(r)
  {
    var tag := NextTag(compound, it);
    match View(b, tag)
    case Child(payload, size, ty) => Iter(To(tag), To(payload), size, ty, NextIndex(it))
    case Terminator => Iter(To(tag + 1), Null, 0, END, NextIndex(it))
    case _ => ITER_ZERO
  }

  /** The iterator after `k` steps from its zeroed state. */
  function Steps(b: seq<byte>, compound: nat, k: nat): (r: Iter)
    ensures Stepping(r)
  {
    if k == 0 then ITER_ZERO else Step(b, compound, Steps(b, compound, k - 1))
  }

  /** A step that finds neither a tag nor the terminator leaves every field zero; one that finds a tag
      after the last 32-bit index counts on from zero. */
  lemma StepsAside(b: seq<byte>, compound: nat, it: Iter)
    requires Stepping(it)
    ensures NextTag(compound, it) >= |b| ==> Step(b, compound, it) == Iter(Null, Null, 0, 0, 0)
    ensures it.payload.To? && it.index == 0xFFFF_FFFF ==> Step(b, compound, it).index == 0
  {
    hide Scan;
  }

  /** A tag whose payload is malformed is sized as its header alone. Here a byte array without a count, and a
      tag whose name is cut off. */
  lemma SizeOfCutOffTag()
    ensures TagSize([7, 0, 1, 120], 0) == Sized(4) && TagPayload([7, 0, 1, 120], 0) == To(4)
    ensures TagSize([7, 0, 2, 120], 0) == Malformed && TagName([7, 0, 2, 120], 0) == NullStr
  {
  }

  // ---- on encoded trees ----

  lemma ViewHeader(b: seq<byte>, p: nat, ty: byte, name: nat, value: nat)
    requires HeaderAt(b, p, ty, name) && Scan(b, p + 3 + name, ty) == Sized(value)
    ensures View(b, p) == Child(p + 3 + name, 3 + name + value, ty)
    ensures TagName(b, p) == Str(b[p + 3..p + 3 + name])
  {
    hide Scan;
  }

  /** On an encoded tag the three accessors give its size, its payload and its name. */
  lemma TagOfEncoding(b: seq<byte>, p: nat, tag: Tag)
    requires |tag.name| < 0x1_0000 && WellFormed(tag.value) && At(b, p, EncodeTag(tag))
    ensures TagSize(b, p) == Sized(|EncodeTag(tag)|)
    ensures TagPayload(b, p) == To(p + |TagHeader(tag)|) && At(b, p + |TagHeader(tag)|, Encode(tag.value))
    ensures TagName(b, p) == Str(tag.name)
  {
    hide Scan, Encode, At, TypeOf;
    EncodedTagAt(b, p, tag);
    ScanEncoding(b, p + 3 + |tag.name|, tag.value);
  }

  lemma ViewTerminator(b: seq<byte>, p: nat, tags: seq<Tag>)
    requires tags == [] && At(b, p, EncodeTags(tags) + [END])
    ensures View(b, p) == Terminator
  {
  }

  lemma ViewFirstTag(b: seq<byte>, p: nat, tags: seq<Tag>)
    requires tags != [] && WellFormedTags(tags) && At(b, p, EncodeTags(tags) + [END])
    ensures View(b, p) == Child(p + 3 + |tags[0].name|, |EncodeTag(tags[0])|, TypeOf(tags[0].value))
    ensures TagName(b, p) == Str(tags[0].name)
    ensures At(b, p + |EncodeTag(tags[0])|, EncodeTags(tags[1..]) + [END])
  {
    hide View, TagName, Scan, EncodeTags, Encode, At;
    TagHeaderAt(b, p, tags);
    var tag := tags[0];
    ScanEncoding(b, p + 3 + |tag.name|, tag.value);
    ViewHeader(b, p, TypeOf(tag.value), |tag.name|, |Encode(tag.value)|);
  }

  /** The offset of the k-th tag within the encoding of a compound. */
  function TagOffset(tags: seq<Tag>, k: nat): nat
    requires k <= |tags|
  {
    |EncodeTags(tags[..k])|
  }

  lemma TagOffsetStep(tags: seq<Tag>, k: nat)
    requires k < |tags|
    ensures TagOffset(tags, k + 1) == TagOffset(tags, k) + |EncodeTag(tags[k])|
  {
    hide EncodeTag;
    assert tags[..k + 1] == tags[..k] + [tags[k]];
    EncodeTagsAppend(tags[..k], [tags[k]]);
    assert EncodeTags([tags[k]]) == EncodeTag(tags[k]) + EncodeTags([]);
  }

  lemma TagsFrom(b: seq<byte>, p: nat, tags: seq<Tag>, k: nat)
    requires k <= |tags| && At(b, p, EncodeTags(tags) + [END])
    ensures At(b, p + TagOffset(tags, k), EncodeTags(tags[k..]) + [END])
  {
    hide EncodeTags, At;
    assert tags == tags[..k] + tags[k..];
    EncodeTagsAppend(tags[..k], tags[k..]);
    assert EncodeTags(tags) + [END] == EncodeTags(tags[..k]) + (EncodeTags(tags[k..]) + [END]);
    AtAppend(b, p, EncodeTags(tags[..k]), EncodeTags(tags[k..]) + [END]);
  }

  /** The state of an iteration over an encoded compound after `k` steps. */
  function ExpectedIter(p: nat, tags: seq<Tag>, k: nat): Iter
    requires 1 <= k <= |tags| + 1
  {
    if k <= |tags| then
      var tag := p + TagOffset(tags, k - 1);
      Iter(To(tag), To(tag + 3 + |tags[k - 1].name|), |EncodeTag(tags[k - 1])|,
           TypeOf(tags[k - 1].value), k - 1)
    else
      Iter(To(p + |EncodeTags(tags)| + 1), Null, 0, END, |tags|)
  }

  lemma ViewAtEnd(b: seq<byte>, p: nat, tags: seq<Tag>)
    requires At(b, p, EncodeTags(tags) + [END])
    ensures View(b, p + |EncodeTags(tags)|) == Terminator
  {
    hide View, EncodeTags, At;
    TagsFrom(b, p, tags, |tags|);
    assert tags[|tags|..] == [] && tags[..|tags|] == tags;
    ViewTerminator(b, p + TagOffset(tags, |tags|), tags[|tags|..]);
  }

  lemma ViewAtTag(b: seq<byte>, p: nat, tags: seq<Tag>, k: nat)
    requires WellFormedTags(tags) && At(b, p, EncodeTags(tags) + [END]) && k < |tags|
    ensures var tag := p + TagOffset(tags, k);
      View(b, tag) == Child(tag + 3 + |tags[k].name|, |EncodeTag(tags[k])|, TypeOf(tags[k].value))
  {
    hide View, EncodeTags, EncodeTag, At, TagOffset;
    TagsFrom(b, p, tags, k);
    assert tags[k..][0] == tags[k];
    ViewFirstTag(b, p + TagOffset(tags, k), tags[k..]);
  }

  /** Where the k-th tag stands, the terminator being the last. */
  function TagStart(p: nat, tags: seq<Tag>, k: nat): nat
    requires k <= |tags|
  {
    p + if k < |tags| then TagOffset(tags, k) else |EncodeTags(tags)|
  }

  lemma NextTagStart(p: nat, tags: seq<Tag>, k: nat)
    requires k < |tags|
    ensures TagStart(p, tags, k) + |EncodeTag(tags[k])| == TagStart(p, tags, k + 1)
  {
    hide EncodeTag;
    TagOffsetStep(tags, k);
    assert tags[..|tags|] == tags;
  }

  /** Iterating an encoded compound yields its children in order, each at its offset with its size,
      type and index, and then stops just behind the compound with `index` equal to the number of
      children. */
  lemma {:induction false} IterationFollowsTags(b: seq<byte>, p: nat, tags: seq<Tag>, k: nat)
    requires WellFormedTags(tags) && |tags| < 0x1_0000_0000
    requires At(b, p, EncodeTags(tags) + [END])
    requires 1 <= k <= |tags| + 1
    ensures Steps(b, p, k) == ExpectedIter(p, tags, k)
  {
    hide View, At, EncodeTag, EncodeTags, TagOffset;
    if k > 1 {
      IterationFollowsTags(b, p, tags, k - 1);
      NextTagStart(p, tags, k - 2);
    } else {
      FirstTagStart(p, tags);
    }
    assert NextTag(p, Steps(b, p, k - 1)) == TagStart(p, tags, k - 1);
    if k <= |tags| {
      ViewAtTag(b, p, tags, k - 1);
    } else {
      ViewAtEnd(b, p, tags);
    }
  }

  lemma FirstTagStart(p: nat, tags: seq<Tag>)
    ensures TagStart(p, tags, 0) == p
  {
  }

  /** The position of the first tag with a given name, or the number of tags. */
  function FirstNamed(tags: seq<Tag>, name: SStr): (k: nat)
    ensures k <= |tags|
    ensures forall i :: 0 <= i < k ==> Str(tags[i].name) != name
    ensures k < |tags| ==> Str(tags[k].name) == name
  {
    if tags == [] || Str(tags[0].name) == name then 0 else 1 + FirstNamed(tags[1..], name)
  }

  /** Looking a name up in an encoded compound finds the first child of that name, and misses
      exactly if there is none. */
  lemma {:induction false} FindInEncoding(b: seq<byte>, p: nat, tags: seq<Tag>, name: SStr)
    requires WellFormedTags(tags) && At(b, p, EncodeTags(tags) + [END])
    ensures var k := FirstNamed(tags, name);
      FindTag(b, p, name) ==
        if k < |tags| then Found(p + TagOffset(tags, k), |EncodeTag(tags[k])|) else Missing
    decreases tags
  {
    hide View, TagName, EncodeTag, At;
    if tags == [] {
      ViewTerminator(b, p, tags);
    } else {
      ViewFirstTag(b, p, tags);
    }
    if tags != [] && Str(tags[0].name) != name {
      FindInEncoding(b, p + |EncodeTag(tags[0])|, tags[1..], name);
      var k := FirstNamed(tags[1..], name);
      assert tags[..k + 1][1..] == tags[1..][..k];
    }
  }
}
