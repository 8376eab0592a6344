/** The NBT functions over a byte buffer (src/nbt/nbt.c). */
module Nbt {
  import opened Bytes
  import opened NbtTree
  import opened NbtScan
  import opened NbtWalk
  import opened NbtEdit

  /** The C result for a size: 0 on failure. */
  function CSize(s: Size): nat {
    if s.Sized? then s.n else 0
  }

  /** A size counted from `k` bytes further on. */
  function Beyond(k: nat, s: Size): Size {
    if s.Sized? then Sized(k + s.n) else s
  }

  /** `clod_nbt_payload_size`. Every index into `b` is proved to lie before its end. */
  method PayloadSize(b: seq<byte>, payload: nat, ty: byte) returns (r: nat)
    requires !Scan(b, payload, ty).NegativeList?
    ensures r == CSize(Scan(b, payload, ty))
    decreases Available(b, payload), 1
  {
    if NumberWidth(ty) != 0 {
      return NumberWidth(ty);
    } else if ElementWidth(ty) != 0 {
      if Available(b, payload) < 4 { return 0; }
      var total := SizeT(4 + I32Dec(b, payload) * ElementWidth(ty));
      if Available(b, payload) < total { return 0; }
      return total;
    } else if ty == STRING {
      if Available(b, payload) < 2 { return 0; }
      var size := U16Dec(b, payload);
      if Available(b, payload) < 2 + size { return 0; }
      return 2 + size;
    } else if ty == LIST {
      r := ListSize(b, payload);
    } else if ty == COMPOUND {
      r := CompoundSize(b, payload);
    } else {
      return 0;
    }
  }

  method ListSize(b: seq<byte>, payload: nat) returns (r: nat)
    requires !Scan(b, payload, LIST).NegativeList?
    ensures r == CSize(Scan(b, payload, LIST))
    decreases Available(b, payload), 0
  {
    if Available(b, payload) < 5 { return 0; }
    var ty := b[payload];
    if ty == END { return 5; }
    if !ValidType(ty) { return 0; }
    var length := SizeT(I32Dec(b, payload + 1));
    ghost var items := ScanItems(b, payload + 5, ty, length);
    var size := 5;
    var i := 0;
    while i < length
      invariant 0 <= i <= length && 5 <= size
      invariant Beyond(size - 5, ScanItems(b, payload + size, ty, length - i)) == items
    {
      var element := PayloadSize(b, payload + size, ty);
      if element == 0 { return 0; }
      size := size + element;
      i := i + 1;
    }
    return size;
  }

  method CompoundSize(b: seq<byte>, payload: nat) returns (r: nat)
    requires !ScanTags(b, payload).NegativeList?
    ensures r == CSize(ScanTags(b, payload))
    decreases Available(b, payload), 0
  {
    hide Scan;
    var size := 0;
    while Available(b, payload) >= size + 3
      invariant Beyond(size, ScanTags(b, payload + size)) == ScanTags(b, payload)
      decreases Available(b, payload) - size
    {
      var ty := b[payload + size];
      if !ValidType(ty) { break; }
      var name := U16Dec(b, payload + size + 1);
      if Available(b, payload) < size + 3 + name { return 0; }
      var value := PayloadSize(b, payload + size + 3 + name, ty);
      size := size + 3 + name + value;
    }
    if Available(b, payload) < size + 1 { return 0; }
    if b[payload + size] == END { return size + 1; }
    return 0;
  }

  /** `struct clod_nbt_iter` with the compound branch of `clod_nbt_iter_next`. */
  class NbtIter {
    var tag: Ptr
    var payload: Ptr
    var size: nat
    var ty: byte
    var index: nat

    constructor ()
      ensures Fields() == ITER_ZERO
    {
      tag, payload, size, ty, index := Null, Null, 0, END, 0;
    }

    function Fields(): Iter
      reads this
    {
      Iter(tag, payload, size, ty, index)
    }

    method Zero()
      modifies this
      ensures Fields() == ITER_ZERO
    {
      tag, payload, size, ty, index := Null, Null, 0, END, 0;
    }

    method NextInCompound(b: seq<byte>, compound: nat) returns (found: bool)
      requires Stepping(Fields()) && !View(b, NextTag(compound, Fields())).Negative?
      modifies this
      ensures Fields() == Step(b, compound, old(Fields()))
      ensures found == payload.To?
    {
      if payload.Null? {
        Zero();
        tag := To(compound);
      } else {
        tag := To(tag.pos + size);
        index := (index + 1) % 0x1_0000_0000;
      }
      if Available(b, tag.pos) < 1 {
        Zero();
        return false;
      }
      if b[tag.pos] == END {
        tag, payload, size, ty := To(tag.pos + 1), Null, 0, END;
        return false;
      }
      var tagPayload := TagPayload(b, tag.pos);
      if tagPayload.Null? {
        Zero();
        return false;
      }
      var payloadSize := PayloadSize(b, tagPayload.pos, b[tag.pos]);
      if payloadSize == 0 {
        Zero();
        return false;
      }
      payload := tagPayload;
      size := tagPayload.pos - tag.pos + payloadSize;
      ty := b[tag.pos];
      return true;
    }
  }

  /** `clod_nbt_compound_get` */
  method CompoundGet(b: seq<byte>, compound: nat, name: SStr) returns (r: Ptr)
    requires !FindTag(b, compound, name).MeetsNegative?
    ensures r == match FindTag(b, compound, name)
                 case Found(tag, _) => To(tag)
                 case _ => Null
  {
    hide View, FindTag, TagName, Step;
    StandingStart(b, compound, name);
    var iter := new NbtIter();
    var more := iter.NextInCompound(b, compound);
    while more
      invariant fresh(iter)
      invariant Standing(b, compound, name, iter.Fields()) && more == iter.payload.To?
      decreases Left(b, iter.Fields())
    {
      StandingStep(b, compound, name, iter.Fields());
      if SStrEq(TagName(b, iter.tag.pos), name) {
        return iter.tag;
      }
      more := iter.NextInCompound(b, compound);
    }
    return Null;
  }

  /** The search for `name` has come as far as the iterator's tag: all the tags before have other
      names. A finished iterator has passed all tags. */
  ghost predicate Standing(b: seq<byte>, compound: nat, name: SStr, it: Iter) {
    var find := FindTag(b, compound, name);
    && Stepping(it)
    && !find.MeetsNegative?
    && if it.payload.To? then
         && View(b, it.tag.pos) == Child(it.payload.pos, it.size, it.ty)
         && find == FindTag(b, it.tag.pos, name)
       else find == Missing
  }

  /** How many bytes an unfinished iteration has before it. */
  function Left(b: seq<byte>, it: Iter): nat {
    if it.payload.To? && it.tag.To? then Available(b, it.tag.pos) else 0
  }

  lemma StandingStart(b: seq<byte>, compound: nat, name: SStr)
    requires !FindTag(b, compound, name).MeetsNegative?
    ensures !View(b, compound).Negative?
    ensures Standing(b, compound, name, Step(b, compound, ITER_ZERO))
  {
    hide View;
  }

  lemma StandingStep(b: seq<byte>, compound: nat, name: SStr, it: Iter)
    requires Standing(b, compound, name, it) && it.payload.To?
    ensures TagName(b, it.tag.pos) == name ==>
      FindTag(b, compound, name) == Found(it.tag.pos, it.size)
    ensures TagName(b, it.tag.pos) != name ==>
      && !View(b, NextTag(compound, it)).Negative?
      && Standing(b, compound, name, Step(b, compound, it))
      && Left(b, Step(b, compound, it)) < Left(b, it)
  {
    hide View, TagName;
    var next := it.tag.pos + it.size;
    if TagName(b, it.tag.pos) != name {
      assert FindTag(b, it.tag.pos, name) == FindTag(b, next, name);
    }
  }

  /** A buffer holding NBT data up to `end`, and the caller's count of free bytes behind it. */
  class NbtBuffer {
    var data: array<byte>
    var end: nat
    var free: int

    ghost predicate Valid()
      reads this
    {
      end <= data.Length
    }

    ghost function Contents(): seq<byte>
      requires Valid()
      reads this, data
    {
      data[..end]
    }

    constructor (data: array<byte>, end: nat, free: int)
      requires end <= data.Length
      ensures Valid() && this.data == data && this.end == end && this.free == free
    {
      this.data, this.end, this.free := data, end, free;
    }

    /** memmove */
    method Move(dst: nat, src: nat, n: nat)
      requires dst + n <= data.Length && src + n <= data.Length
      modifies data
      ensures data[dst..dst + n] == old(data[src..src + n])
      ensures forall i :: 0 <= i < data.Length && !(dst <= i < dst + n) ==> data[i] == old(data[i])
    {
      forall i | 0 <= i < n {
        data[dst + i] := data[src + i];
      }
    }

    /** Cuts `size` bytes out at `tag`. */
    method Cut(tag: nat, size: nat)
      requires Valid() && tag + size <= end
      modifies this`end, this`free, data
      ensures Valid() && end + free == old(end + free)
      ensures Contents() == Splice(old(Contents()), tag, size, [])
      ensures data[old(end)..] == old(data[end..])
    {
      ghost var before := data[..];
      Move(tag, tag + size, end - tag - size);
      end := end - size;
      free := free + size;
      assert data[tag..end] == before[tag + size..old(end)];
      assert data[..end] == data[..tag] + data[tag..end];
    }

    /** `clod_nbt_compound_del`. The C code expects the tag it deletes to end within the data; that
        holds for every compound that `clod_nbt_payload_size` accepts (SizedCompoundIsSafe). */
    method CompoundDel(compound: nat, name: SStr) returns (deleted: bool)
      requires Valid()
      requires match FindTag(Contents(), compound, name)
               case Found(tag, size) => tag + size <= end
               case Missing => true
               case MeetsNegative => false
      modifies this`end, this`free, data
      ensures Valid() && end + free == old(end + free)
      ensures match old(FindTag(Contents(), compound, name))
              case Found(tag, size) =>
                deleted && Contents() == Splice(old(Contents()), tag, size, [])
              case _ => !deleted && Contents() == old(Contents())
      ensures data[old(end)..] == old(data[end..])
    {
      hide View, FindTag, TagName, Step;
      var b := data[..end];
      StandingStart(b, compound, name);
      var iter := new NbtIter();
      var more := iter.NextInCompound(b, compound);
      while more
        invariant fresh(iter)
        invariant Standing(b, compound, name, iter.Fields()) && more == iter.payload.To?
        invariant unchanged(data) && unchanged(this)
        decreases Left(b, iter.Fields())
      {
        StandingStep(b, compound, name, iter.Fields());
        if SStrEq(TagName(b, iter.tag.pos), name) {
          Cut(iter.tag.pos, iter.size);
          return true;
        }
        more := iter.NextInCompound(b, compound);
      }
      return false;
    }

    /** Writes an all-default list at `p`. */
    method WriteList(p: nat, ty: byte, length: nat)
      requires p + |WipedList(ty, length)| <= data.Length
      modifies data
      ensures data[p..p + |WipedList(ty, length)|] == WipedList(ty, length)
      ensures forall i :: 0 <= i < data.Length && !(p <= i < p + |WipedList(ty, length)|) ==> data[i] == old(data[i])
    {
      var newSize := 5 + length * ZeroSize(ty);
      forall i | p <= i < p + newSize {
        data[i] := 0;
      }
      data[p] := ty;
      var header := U32Enc(length);
      forall i | 0 <= i < 4 {
        data[p + 1 + i] := header[i];
      }
      assert data[p..p + 5] == [ty] + header;
      assert data[p..p + newSize] == data[p..p + 5] + data[p + 5..p + newSize];
    }

    /** Replaces the `oldSize` bytes at `p` by an all-default list. */
    method Wipe(p: nat, oldSize: nat, ty: byte, length: nat)
      requires Valid() && p + oldSize <= end
      requires end - oldSize + |WipedList(ty, length)| <= data.Length
      modifies this`end, data
      ensures end == old(end) - oldSize + |WipedList(ty, length)|
      ensures Valid() && Contents() == Splice(old(Contents()), p, oldSize, WipedList(ty, length))
      ensures forall i :: old(end) <= i < data.Length && end <= i ==> data[i] == old(data[i])
    {
      hide WipedList;
      ghost var before := data[..];
      var newSize := 5 + length * ZeroSize(ty);
      Move(p + newSize, p + oldSize, end - p - oldSize);
      assert data[p + newSize..p + newSize + (end - p - oldSize)] == before[p + oldSize..end];
      WriteList(p, ty, length);
      end := end - oldSize + newSize;
      assert data[p..p + newSize] == WipedList(ty, length);
      SpliceOfParts(data[..end], before[..old(end)], p, oldSize, WipedList(ty, length));
    }

    /** `clod_nbt_list_resize` when `ty` differs from the list's element type. A failure for lack of
        space leaves `free` at the negative value that says so. */
    method ListRetype(list: Ptr, ty: byte, length: nat) returns (resized: bool)
      requires Valid() && end + free <= data.Length && length < 0x1_0000_0000
      requires list.To? && Available(Contents(), list.pos) >= 5 ==>
        && Contents()[list.pos] != ty
        && !Scan(Contents(), list.pos, LIST).NegativeList?
        && list.pos + CSize(Scan(Contents(), list.pos, LIST)) <= end
      modifies this`end, this`free, data
      ensures Valid()
      ensures list.Null? ==>
        !resized && free == old(free) - length * ZeroSize(ty) && end == old(end) && data[..] == old(data[..])
      ensures list.To? && old(Available(Contents(), list.pos) < 5 || !Scan(Contents(), list.pos, LIST).Sized?) ==>
        !resized && free == old(free) && end == old(end) && data[..] == old(data[..])
      ensures list.To? && old(Available(Contents(), list.pos) >= 5 && Scan(Contents(), list.pos, LIST).Sized?) ==>
        var size := CSize(old(Scan(Contents(), list.pos, LIST)));
        && free == old(free) + size - |WipedList(ty, length)|
        && resized == (free >= 0)
        && (!resized ==> end == old(end) && data[..] == old(data[..]))
        && (resized ==>
              && end + free == old(end + free)
              && Contents() == Splice(old(Contents()), list.pos, size, WipedList(ty, length))
              && forall i :: old(end) <= i < data.Length && end <= i ==> data[i] == old(data[i]))
    {
      hide Scan, WipedList;
      if list.Null? {
        free := free - length * ZeroSize(ty);
        return false;
      }
      var b := data[..end];
      if Available(b, list.pos) < 5 { return false; }
      var oldSize := PayloadSize(b, list.pos, LIST);
      var newSize := 5 + length * ZeroSize(ty);
      if oldSize == 0 { return false; }
      free := free - (newSize - oldSize);
      if free < 0 { return false; }
      Wipe(list.pos, oldSize, ty, length);
      return true;
    }
  }

  /** A compound whose payload size is nonzero meets no negative list length, and every tag that the
      lookup finds in it ends within the data. */
  lemma {:induction false} SizedCompoundIsSafe(b: seq<byte>, p: nat, name: SStr)
    requires ScanTags(b, p).Sized?
    ensures match FindTag(b, p, name)
            case Found(tag, size) => tag + size < |b|
            case Missing => true
            case MeetsNegative => false
    decreases Available(b, p)
  {
    if View(b, p).Child? {
      SizedCompoundIsSafe(b, p + View(b, p).size, name);
    }
  }
}
