/** In-place edits: what splicing bytes inside a document does to the tree it encodes. */
module NbtEdit {
  import opened Bytes
  import opened NbtTree
  import opened NbtScan
  import opened NbtWalk

  /** `s` with the `len` bytes at `at` replaced by `t`. */
  function Splice(s: seq<byte>, at: nat, len: nat, t: seq<byte>): (r: seq<byte>)
    requires at + len <= |s|
    ensures |r| == |s| - len + |t|
  {
    s[..at] + t + s[at + len..]
  }

  /** What a splice consists of. */
  lemma SpliceOfParts(r: seq<byte>, s: seq<byte>, at: nat, len: nat, t: seq<byte>)
    requires at + len <= |s| && |r| == |s| - len + |t|
    requires forall i :: 0 <= i < at ==> r[i] == s[i]
    requires forall i :: at <= i < at + |t| ==> r[i] == t[i - at]
    requires forall i :: at + |t| <= i < |r| ==> r[i] == s[i - |t| + len]
    ensures r == Splice(s, at, len, t)
  {
  }

  // ---- a place in a document: the child index to take at each level ----

  predicate HasChild(v: Value, k: nat) {
    (v.List? && k < |v.items|) || (v.Compound? && k < |v.tags|)
  }

  function ChildOf(v: Value, k: nat): Value
    requires HasChild(v, k)
  {
    if v.List? then v.items[k] else v.tags[k].value
  }

  function WithChild(v: Value, k: nat, w: Value): Value
    requires HasChild(v, k)
  {
    if v.List? then v.(items := v.items[k := w])
    else v.(tags := v.tags[k := Tag(v.tags[k].name, w)])
  }

  /** Where a child's payload starts within the encoding of its parent. */
  function ChildOffset(v: Value, k: nat): nat
    requires HasChild(v, k)
  {
    if v.List? then 5 + |EncodeItems(v.items[..k])|
    else TagOffset(v.tags, k) + 3 + |v.tags[k].name|
  }

  predicate ValidPath(v: Value, path: seq<nat>)
    decreases |path|
  {
    path == [] || (HasChild(v, path[0]) && ValidPath(ChildOf(v, path[0]), path[1..]))
  }

  /** The value at a place. */
  function ValueAt(v: Value, path: seq<nat>): Value
    requires ValidPath(v, path)
    decreases |path|
  {
    if path == [] then v else ValueAt(ChildOf(v, path[0]), path[1..])
  }

  /** The document with the value at a place replaced. */
  function Replace(v: Value, path: seq<nat>, w: Value): Value
    requires ValidPath(v, path)
    decreases |path|
  {
    if path == [] then w
    else WithChild(v, path[0], Replace(ChildOf(v, path[0]), path[1..], w))
  }

  /** Where the payload at a place starts within the document's encoding. */
  function OffsetAt(v: Value, path: seq<nat>): nat
    requires ValidPath(v, path)
    decreases |path|
  {
    if path == [] then 0
    else ChildOffset(v, path[0]) + OffsetAt(ChildOf(v, path[0]), path[1..])
  }

  // ---- replacing a value replaces its bytes and nothing else ----

  /** `r` is `s` with its middle part `x`, standing at `at`, replaced by `y`. */
  ghost predicate Spliced(s: seq<byte>, at: nat, x: seq<byte>, y: seq<byte>, r: seq<byte>) {
    At(s, at, x) && r == Splice(s, at, |x|, y)
  }

  lemma SplicedMiddle(pre: seq<byte>, x: seq<byte>, y: seq<byte>, post: seq<byte>)
    ensures Spliced(pre + x + post, |pre|, x, y, pre + y + post)
  {
  }

  lemma SliceOfSlice(s: seq<byte>, at: nat, n: nat, from: nat, m: nat)
    requires at + n <= |s| && from + m <= n
    ensures s[at..at + n][from..from + m] == s[at + from..at + from + m]
  {
    var x := s[at..at + n];
    var (y, z) := (x[from..from + m], s[at + from..at + from + m]);
    forall i | 0 <= i < m
      ensures y[i] == z[i]
    {
      assert y[i] == x[from + i] == s[at + from + i];
    }
  }

  /** A splice inside a part is a splice of the whole. */
  lemma SplicedInside(s: seq<byte>, at: nat, x: seq<byte>, y: seq<byte>, r: seq<byte>,
                      inner: nat, u: seq<byte>, w: seq<byte>)
    requires Spliced(s, at, x, y, r) && Spliced(x, inner, u, w, y)
    ensures Spliced(s, at + inner, u, w, r)
  {
    SliceOfSlice(s, at, |x|, inner, |u|);
    SliceOfSlice(s, at, |x|, 0, inner);
    SliceOfSlice(s, at, |x|, inner + |u|, |x| - inner - |u|);
    assert s[..at + inner] == s[..at] + x[..inner];
    assert s[at + inner + |u|..] == x[inner + |u|..] + s[at + |x|..];
  }

  lemma ItemSpliced(ty: byte, items: seq<Value>, k: nat, w: Value)
    requires k < |items|
    ensures var v := List(ty, items);
      Spliced(Encode(v), ChildOffset(v, k), Encode(items[k]), Encode(w), Encode(WithChild(v, k, w)))
  {
    var (pre, post) := (items[..k], items[k + 1..]);
    var header := [ty] + U32Enc(|items|);
    assert items == pre + [items[k]] + post && items[k := w] == pre + [w] + post;
    SplitList(ty, pre, items[k], post, |items|);
    SplitList(ty, pre, w, post, |items|);
    SplicedMiddle(header + EncodeItems(pre), Encode(items[k]), Encode(w), EncodeItems(post));
  }

  lemma SplitList(ty: byte, pre: seq<Value>, v: Value, post: seq<Value>, n: nat)
    requires n == |pre + [v] + post|
    ensures Encode(List(ty, pre + [v] + post)) ==
      ([ty] + U32Enc(n) + EncodeItems(pre)) + Encode(v) + EncodeItems(post)
  {
    hide Encode, U32Enc;
    EncodeList(ty, pre + [v] + post);
    ItemsSplit(pre, v, post);
    Reassociate([ty] + U32Enc(n), EncodeItems(pre), Encode(v), EncodeItems(post));
  }

  lemma Reassociate(a: seq<byte>, b: seq<byte>, c: seq<byte>, d: seq<byte>)
    ensures a + (b + c + d) == (a + b) + c + d
  {
  }

  lemma EncodeList(ty: byte, items: seq<Value>)
    ensures Encode(List(ty, items)) == [ty] + U32Enc(|items|) + EncodeItems(items)
  {
  }

  lemma ItemsSplit(pre: seq<Value>, v: Value, post: seq<Value>)
    ensures EncodeItems(pre + [v] + post) == EncodeItems(pre) + Encode(v) + EncodeItems(post)
  {
    EncodeItemsAppend(pre + [v], post);
    EncodeItemsAppend(pre, [v]);
    assert EncodeItems([v]) == Encode(v) + EncodeItems([]);
  }

  lemma TagsSplit(pre: seq<Tag>, tag: Tag, post: seq<Tag>)
    ensures EncodeTags(pre + [tag] + post) == EncodeTags(pre) + EncodeTag(tag) + EncodeTags(post)
  {
    EncodeTagsAppend(pre + [tag], post);
    EncodeTagsAppend(pre, [tag]);
    assert EncodeTags([tag]) == EncodeTag(tag) + EncodeTags([]);
  }

  lemma TagSpliced(tags: seq<Tag>, k: nat, w: Value)
    requires k < |tags| && TypeOf(w) == TypeOf(tags[k].value)
    ensures var v := Compound(tags);
      Spliced(Encode(v), ChildOffset(v, k), Encode(tags[k].value), Encode(w), Encode(WithChild(v, k, w)))
  {
    var (pre, tag, post) := (tags[..k], tags[k], tags[k + 1..]);
    assert tags == pre + [tag] + post;
    assert tags[k := Tag(tag.name, w)] == pre + [Tag(tag.name, w)] + post;
    SplitCompound(pre, tag, post);
    SplitCompound(pre, Tag(tag.name, w), post);
    SplicedMiddle(EncodeTags(pre) + TagHeader(tag), Encode(tag.value), Encode(w), EncodeTags(post) + [END]);
  }

  lemma SplitCompound(pre: seq<Tag>, tag: Tag, post: seq<Tag>)
    ensures Encode(Compound(pre + [tag] + post)) ==
      EncodeTags(pre) + TagHeader(tag) + Encode(tag.value) + (EncodeTags(post) + [END])
  {
    hide Encode, TagHeader;
    EncodeCompound(pre + [tag] + post);
    TagsSplit(pre, tag, post);
  }

  lemma {:induction false} ValueAtWellFormed(v: Value, path: seq<nat>)
    requires WellFormed(v) && ValidPath(v, path)
    ensures WellFormed(ValueAt(v, path))
    decreases |path|
  {
    if path != [] {
      ValueAtWellFormed(ChildOf(v, path[0]), path[1..]);
    }
  }

  lemma {:induction false} ReplaceWellFormed(v: Value, path: seq<nat>, w: Value)
    requires WellFormed(v) && ValidPath(v, path)
    requires WellFormed(w) && TypeOf(w) == TypeOf(ValueAt(v, path))
    ensures WellFormed(Replace(v, path, w)) && TypeOf(Replace(v, path, w)) == TypeOf(v)
    decreases |path|
  {
    if path != [] {
      ReplaceWellFormed(ChildOf(v, path[0]), path[1..], w);
    }
  }

  /** Replacing the value at any place of a document changes exactly the bytes of that value:
      nothing before it, behind it or in any enclosing header. */
  lemma {:induction false} ReplaceSplices(v: Value, path: seq<nat>, w: Value)
    requires WellFormed(v) && ValidPath(v, path)
    requires WellFormed(w) && TypeOf(w) == TypeOf(ValueAt(v, path))
    ensures Spliced(Encode(v), OffsetAt(v, path), Encode(ValueAt(v, path)), Encode(w), Encode(Replace(v, path, w)))
    decreases |path|
  {
    if path == [] {
      SplicedMiddle([], Encode(v), Encode(w), []);
      assert [] + Encode(v) + [] == Encode(v) && [] + Encode(w) + [] == Encode(w);
    } else {
      ReplaceSplicesBelow(v, path, w);
    }
  }

  lemma {:induction false} ReplaceSplicesBelow(v: Value, path: seq<nat>, w: Value)
    requires path != [] && WellFormed(v) && ValidPath(v, path)
    requires WellFormed(w) && TypeOf(w) == TypeOf(ValueAt(v, path))
    ensures Spliced(Encode(v), OffsetAt(v, path), Encode(ValueAt(v, path)), Encode(w), Encode(Replace(v, path, w)))
    decreases |path|, 0
  {
    hide Encode, Spliced, ChildOffset, WithChild, TypeOf;
    var (k, rest) := (path[0], path[1..]);
    var child := ChildOf(v, k);
    ChildWellFormed(v, k);
    ReplaceSplices(child, rest, w);
    ReplaceWellFormed(child, rest, w);
    var child' := Replace(child, rest, w);
    ChildSpliced(v, k, child');
    SplicedInside(Encode(v), ChildOffset(v, k), Encode(child), Encode(child'), Encode(WithChild(v, k, child')),
                  OffsetAt(child, rest), Encode(ValueAt(v, path)), Encode(w));
  }

  lemma ChildWellFormed(v: Value, k: nat)
    requires WellFormed(v) && HasChild(v, k)
    ensures WellFormed(ChildOf(v, k))
  {
  }

  lemma ChildSpliced(v: Value, k: nat, w: Value)
    requires HasChild(v, k) && TypeOf(w) == TypeOf(ChildOf(v, k))
    ensures Spliced(Encode(v), ChildOffset(v, k), Encode(ChildOf(v, k)), Encode(w), Encode(WithChild(v, k, w)))
  {
    hide Encode, Spliced;
    if v.List? {
      ItemSpliced(v.itemType, v.items, k, w);
    } else {
      TagSpliced(v.tags, k, w);
    }
  }

  /** The same within a buffer that holds the document at offset `p`. */
  lemma ReplaceInBuffer(b: seq<byte>, p: nat, root: Value, path: seq<nat>, w: Value)
    requires WellFormed(root) && At(b, p, Encode(root)) && ValidPath(root, path)
    requires WellFormed(w) && TypeOf(w) == TypeOf(ValueAt(root, path))
    ensures WellFormed(ValueAt(root, path)) && WellFormed(Replace(root, path, w))
    ensures Spliced(b, p + OffsetAt(root, path), Encode(ValueAt(root, path)), Encode(w),
                    Splice(b, p, |Encode(root)|, Encode(Replace(root, path, w))))
  {
    hide Encode;
    ValueAtWellFormed(root, path);
    ReplaceWellFormed(root, path, w);
    ReplaceSplices(root, path, w);
    var r := Encode(Replace(root, path, w));
    SplicedInside(b, p, Encode(root), r, Splice(b, p, |Encode(root)|, r),
                  OffsetAt(root, path), Encode(ValueAt(root, path)), Encode(w));
  }

  // ---- deleting a named child ----

  function RemoveTag(tags: seq<Tag>, k: nat): seq<Tag>
    requires k < |tags|
  {
    tags[..k] + tags[k + 1..]
  }

  lemma RemoveTagSplices(tags: seq<Tag>, k: nat)
    requires k < |tags|
    ensures Spliced(Encode(Compound(tags)), TagOffset(tags, k), EncodeTag(tags[k]), [],
                    Encode(Compound(RemoveTag(tags, k))))
  {
    var (pre, post) := (tags[..k], tags[k + 1..]);
    TagsSplit(pre, tags[k], post);
    EncodeTagsAppend(pre, post);
    assert tags == pre + [tags[k]] + post;
    assert Encode(Compound(tags)) == EncodeTags(pre) + EncodeTag(tags[k]) + (EncodeTags(post) + [END]);
    assert Encode(Compound(RemoveTag(tags, k))) == EncodeTags(pre) + [] + (EncodeTags(post) + [END]);
    SplicedMiddle(EncodeTags(pre), EncodeTag(tags[k]), [], EncodeTags(post) + [END]);
  }

  lemma RemoveInDocument(b: seq<byte>, p: nat, root: Value, path: seq<nat>, k: nat)
    requires WellFormed(root) && At(b, p, Encode(root))
    requires ValidPath(root, path) && ValueAt(root, path).Compound? && k < |ValueAt(root, path).tags|
    ensures
      var tags := ValueAt(root, path).tags;
      var edited := Replace(root, path, Compound(RemoveTag(tags, k)));
      && WellFormed(edited)
      && Spliced(b, p + OffsetAt(root, path) + TagOffset(tags, k), EncodeTag(tags[k]), [],
                 Splice(b, p, |Encode(root)|, Encode(edited)))
  {
    hide Encode, EncodeTag, TagOffset, OffsetAt, Replace, Spliced;
    ValueAtWellFormed(root, path);
    var v := ValueAt(root, path);
    var w := Compound(RemoveTag(v.tags, k));
    ReplaceInBuffer(b, p, root, path, w);
    RemoveTagSplices(v.tags, k);
    SplicedInside(b, p + OffsetAt(root, path), Encode(v), Encode(w),
                  Splice(b, p, |Encode(root)|, Encode(Replace(root, path, w))),
                  TagOffset(v.tags, k), EncodeTag(v.tags[k]), []);
  }

  /** Looking a name up in the compound at any place of a document finds the first child of that
      name, and misses exactly if there is none. */
  lemma FindInDocument(b: seq<byte>, p: nat, root: Value, path: seq<nat>, name: SStr)
    requires WellFormed(root) && At(b, p, Encode(root))
    requires ValidPath(root, path) && ValueAt(root, path).Compound?
    ensures
      var compound := p + OffsetAt(root, path);
      var tags := ValueAt(root, path).tags;
      var k := FirstNamed(tags, name);
      FindTag(b, compound, name) ==
        if k < |tags| then Found(compound + TagOffset(tags, k), |EncodeTag(tags[k])|) else Missing
  {
    hide Encode, EncodeTag, TagOffset, OffsetAt, FindTag;
    var v := ValueAt(root, path);
    ValueAtWellFormed(root, path);
    ReplaceInBuffer(b, p, root, path, v);
    EncodeCompound(v.tags);
    FindInEncoding(b, p + OffsetAt(root, path), v.tags, name);
  }

  /** Deleting a name from the compound at any place of a document: cutting out the bytes that the
      lookup finds leaves exactly the encoding of the document without the first child of that
      name. */
  lemma DeleteInDocument(b: seq<byte>, p: nat, root: Value, path: seq<nat>, name: SStr)
    requires WellFormed(root) && At(b, p, Encode(root))
    requires ValidPath(root, path) && ValueAt(root, path).Compound?
    ensures
      var tags := ValueAt(root, path).tags;
      var k := FirstNamed(tags, name);
      match FindTag(b, p + OffsetAt(root, path), name)
      case Found(tag, size) =>
        && k < |tags|
        && tag + size <= |b|
        && var edited := Replace(root, path, Compound(RemoveTag(tags, k)));
        && WellFormed(edited)
        && Splice(b, tag, size, []) == Splice(b, p, |Encode(root)|, Encode(edited))
      case Missing => k == |tags|
      case MeetsNegative => false
  {
    hide Encode, EncodeTag, TagOffset, OffsetAt, FindTag, Replace;
    FindInDocument(b, p, root, path, name);
    var tags := ValueAt(root, path).tags;
    if FirstNamed(tags, name) < |tags| {
      RemoveInDocument(b, p, root, path, FirstNamed(tags, name));
    }
  }

  lemma EncodeCompound(tags: seq<Tag>)
    ensures Encode(Compound(tags)) == EncodeTags(tags) + [END]
  {
  }

  // ---- changing the element type of a list ----

  function DefaultValue(ty: byte): Value {
    if NumberWidth(ty) != 0 then Number(ty, Zeros(NumberWidth(ty)))
    else if ElementWidth(ty) != 0 then Array(ty, 0, [])
    else if ty == STRING then Text([])
    else if ty == LIST then EndList(0)
    else Compound([])
  }

  /** `type_zero_size` zero bytes are a well-formed payload of every valid type. */
  lemma ZeroBytesAreDefault(ty: byte)
    requires ValidType(ty)
    ensures WellFormed(DefaultValue(ty)) && TypeOf(DefaultValue(ty)) == ty
    ensures Encode(DefaultValue(ty)) == Zeros(ZeroSize(ty))
  {
  }

  function DefaultItems(ty: byte, n: nat): (items: seq<Value>)
    ensures |items| == n
  {
    seq(n, _ => DefaultValue(ty))
  }

  lemma {:induction false} DefaultItemsEncoding(ty: byte, n: nat)
    requires ValidType(ty)
    ensures EncodeItems(DefaultItems(ty, n)) == Zeros(n * ZeroSize(ty))
  {
    if n > 0 {
      hide DefaultValue, ZeroSize, Encode, Zeros;
      ZeroBytesAreDefault(ty);
      DefaultItemsEncoding(ty, n - 1);
      assert DefaultItems(ty, n)[1..] == DefaultItems(ty, n - 1);
      ZerosSplit(n, ZeroSize(ty));
    }
  }

  lemma ZerosSplit(n: nat, size: nat)
    requires n > 0
    ensures Zeros(n * size) == Zeros(size) + Zeros((n - 1) * size)
  {
    assert n * size == size + (n - 1) * size;
  }

  /** The bytes `clod_nbt_list_resize` writes when it changes the element type. */
  function WipedList(ty: byte, n: nat): (r: seq<byte>)
    ensures |r| == 5 + n * ZeroSize(ty)
  {
    [ty] + U32Enc(n) + Zeros(n * ZeroSize(ty))
  }

  function DefaultList(ty: byte, n: nat): Value {
    if ty == END then EndList(n) else List(ty, DefaultItems(ty, n))
  }

  /** A type and a length that a list can have: its length field is signed, but only the elements of a
      list of type END are not counted by it. */
  predicate Listable(ty: byte, n: nat) {
    if ty == END then n < 0x1_0000_0000 else ValidType(ty) && n < 0x8000_0000
  }

  lemma DefaultListEncoding(ty: byte, n: nat)
    requires Listable(ty, n)
    ensures WellFormed(DefaultList(ty, n)) && TypeOf(DefaultList(ty, n)) == LIST
    ensures Encode(DefaultList(ty, n)) == WipedList(ty, n)
  {
    if ty != END {
      ZeroBytesAreDefault(ty);
      DefaultItemsEncoding(ty, n);
    }
  }

  /** Changing the element type of the list at any place of a document leaves the encoding of the
      document with that list replaced by `n` default elements of the new type. */
  lemma RetypeInDocument(b: seq<byte>, p: nat, root: Value, path: seq<nat>, ty: byte, n: nat)
    requires WellFormed(root) && At(b, p, Encode(root))
    requires ValidPath(root, path) && TypeOf(ValueAt(root, path)) == LIST
    requires Listable(ty, n)
    ensures
      var list := p + OffsetAt(root, path);
      var size := |Encode(ValueAt(root, path))|;
      var edited := Replace(root, path, DefaultList(ty, n));
      && Scan(b, list, LIST) == Sized(size)
      && list + size <= |b|
      && WellFormed(edited)
      && Splice(b, list, size, WipedList(ty, n)) == Splice(b, p, |Encode(root)|, Encode(edited))
  {
    hide Encode, Scan, WipedList, DefaultList, Replace, OffsetAt;
    DefaultListEncoding(ty, n);
    ReplaceInBuffer(b, p, root, path, DefaultList(ty, n));
    ScanEncoding(b, p + OffsetAt(root, path), ValueAt(root, path));
  }

  lemma {:induction false} ValueAtReplace(v: Value, path: seq<nat>, w: Value)
    requires ValidPath(v, path)
    ensures ValidPath(Replace(v, path, w), path) && ValueAt(Replace(v, path, w), path) == w
    decreases |path|
  {
    if path != [] {
      ValueAtReplace(ChildOf(v, path[0]), path[1..], w);
    }
  }

  /** The type 0 is no request to keep a list's element type: a list of any other type becomes a list of
      type END of the given length, whatever its elements were. */
  lemma RetypeToZero(b: seq<byte>, p: nat, root: Value, path: seq<nat>, n: nat)
    requires WellFormed(root) && At(b, p, Encode(root))
    requires ValidPath(root, path) && ValueAt(root, path).List?
    requires n < 0x1_0000_0000
    ensures
      var list := p + OffsetAt(root, path);
      var size := |Encode(ValueAt(root, path))|;
      var edited := Replace(root, path, EndList(n));
      && list < |b| && b[list] == ValueAt(root, path).itemType != END
      && list + size <= |b|
      && WellFormed(edited) && ValidPath(edited, path) && ValueAt(edited, path) == EndList(n)
      && Splice(b, list, size, WipedList(END, n)) == Splice(b, p, |Encode(root)|, Encode(edited))
  {
    hide Encode, Scan, WipedList, Replace, OffsetAt, WellFormed, At;
    RetypeInDocument(b, p, root, path, END, n);
    ValueAtReplace(root, path, EndList(n));
    ListInDocument(b, p, root, path);
  }

  lemma ListInDocument(b: seq<byte>, p: nat, root: Value, path: seq<nat>)
    requires WellFormed(root) && At(b, p, Encode(root))
    requires ValidPath(root, path) && ValueAt(root, path).List?
    ensures var list := p + OffsetAt(root, path);
      list < |b| && b[list] == ValueAt(root, path).itemType != END
  {
    hide Encode, Replace, OffsetAt;
    var v := ValueAt(root, path);
    ValueAtWellFormed(root, path);
    ReplaceInBuffer(b, p, root, path, v);
    EncodeList(v.itemType, v.items);
    ListHeaderAt(b, p + OffsetAt(root, path), v.itemType, |v.items|, EncodeItems(v.items));
  }
}
