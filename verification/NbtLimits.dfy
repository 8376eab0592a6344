/** Inputs on which the NBT functions wrap or do not end, and the conditions that keep clear of them. */
module NbtLimits {
  import Arith
  import opened Bytes
  import opened NbtTree
  import opened NbtScan
  import opened NbtWalk

  // ---- lists of numbers of negative length ----

  /** What `size` becomes in one turn of the compound loop, at a tag with a name of `name` bytes that holds
      a list of `length` numbers of `width` bytes. Every sum is a `size_t`. */
  function Turn(size: nat, name: nat, width: nat, length: int): nat {
    SizeT(size + 3 + name + SizeT(5 + SizeT(length) * width))
  }

  lemma TurnIs(size: nat, name: nat, width: nat, length: int)
    ensures Turn(size, name, width, length) == SizeT(size + 8 + name + length * width)
  {
    hide SizeT;
    var k := Multiple(length);
    var inner := 5 + SizeT(length) * width;
    var j := Multiple(inner);
    Distribute(length, k, Arith.UINT64_SIZE, width, j);
    SizeTShift(size + 8 + name + length * width, k * width + j);
  }

  /** A `size_t` differs from the number converted by a multiple of 2^64. */
  lemma Multiple(x: int) returns (k: int)
    ensures SizeT(x) == x + k * Arith.UINT64_SIZE
  {
    var q, _ := Arith.DivMod(x, Arith.UINT64_SIZE);
    k := -q;
  }

  lemma Distribute(x: int, k: int, n: int, width: int, j: int)
    ensures (x + k * n) * width + j * n == x * width + (k * width + j) * n
  {
  }

  lemma SizeTShift(x: int, k: int)
    ensures SizeT(x + k * Arith.UINT64_SIZE) == SizeT(x)
  {
    var q, r := Arith.DivMod(x, Arith.UINT64_SIZE);
    Arith.MulDifference(q, -k, Arith.UINT64_SIZE);
    Arith.DivModUnique(x + k * Arith.UINT64_SIZE, Arith.UINT64_SIZE, q + k, r);
  }

  /** Exactly when one turn of the compound loop over such a tag leaves it where it was, so that it never
      ends. Other turns go backwards, where several tags can make a circle (CyclingCompound), or wrap to
      before the payload. */
  lemma LoopStalls(size: nat, name: nat, width: nat, length: int)
    requires size < Arith.UINT64_SIZE && width in {1, 2, 4, 8}
    requires name < 0x1_0000 && -0x8000_0000 <= length < 0x8000_0000
    ensures Turn(size, name, width, length) == size <==> length * width == -(8 + name)
  {
    hide Turn, SizeT;
    TurnIs(size, name, width, length);
    var bytes := length * width;
    assert -0x4_0000_0000 <= bytes <= 0x4_0000_0000 by {
      NumberBytes(width, length);
    }
    Stands(size, 8 + name + bytes);
  }

  lemma NumberBytes(width: nat, length: int)
    requires width in {1, 2, 4, 8} && -0x8000_0000 <= length < 0x8000_0000
    ensures -0x4_0000_0000 <= length * width <= 0x4_0000_0000
  {
    if width == 1 {
    } else if width == 2 {
    } else if width == 4 {
    }
  }

  lemma Stands(size: nat, step: int)
    requires size < Arith.UINT64_SIZE && -0x10_0000_0000 <= step < 0x10_0000_0000
    ensures SizeT(size + step) == size <==> step == 0
  {
  }

  /** A compound on which it happens: one tag without a name, a list of -8 bytes. */
  lemma StallingCompound()
    ensures var b := [LIST, 0, 0, INT8, 255, 255, 255, 248];
      ScanTags(b, 0) == NegativeList && I32Dec(b, 4) == -8 && Turn(0, 0, 1, -8) == 0
  {
    var b := [LIST, 0, 0, INT8, 255, 255, 255, 248];
    assert Scan(b, 3, LIST) == NegativeList;
    LoopStalls(0, 0, 1, -8);
  }

  /** A compound on which two tags make a circle: a byte takes the loop from 0 to 4, a list of -12 bytes
      from 4 to 0. */
  lemma CyclingCompound()
    ensures var b := [INT8, 0, 0, 7, LIST, 0, 0, INT8, 255, 255, 255, 244];
      && ScanTags(b, 0) == NegativeList
      && View(b, 0) == Child(3, 4, INT8)
      && HeaderAt(b, 4, LIST, 0) && I32Dec(b, 8) == -12 && Turn(4, 0, 1, -12) == 0
  {
    var b := [INT8, 0, 0, 7, LIST, 0, 0, INT8, 255, 255, 255, 244];
    assert Scan(b, 7, LIST) == NegativeList;
    assert ScanTags(b, 4) == NegativeList;
    TurnIs(4, 0, 1, -12);
  }

  // ---- payloads that claim to reach past the data ----

  /** Exactly when the number of bytes that `clod_nbt_compound_del` moves does not wrap: when the size of
      the tag found is at most what is available at it. That is so of every tag but those that hold a
      number or a list. */
  lemma FoundTagFits(b: seq<byte>, p: nat, name: SStr)
    requires |b| < Arith.UINT64_SIZE
    ensures match FindTag(b, p, name)
      case Found(tag, size) =>
        && tag + 3 <= |b|
        && (SizeT(Available(b, tag) - size) == Available(b, tag) - size <==> size <= Available(b, tag))
        && (NumberWidth(b[tag]) == 0 && b[tag] != LIST ==> size <= Available(b, tag))
        && (NumberWidth(b[tag]) != 0 ==>
              (size <= Available(b, tag) <==> U16Dec(b, tag + 1) + 3 + NumberWidth(b[tag]) <= Available(b, tag)))
      case _ => true
  {
    hide View;
    FoundIsChild(b, p, name);
    match FindTag(b, p, name)
    case Found(tag, size) => ChildFits(b, tag, size);
    case _ =>
  }

  lemma {:induction false} FoundIsChild(b: seq<byte>, p: nat, name: SStr)
    ensures match FindTag(b, p, name)
      case Found(tag, size) => View(b, tag).Child? && View(b, tag).size == size
      case _ => true
    decreases Available(b, p)
  {
    hide View, TagName;
    if View(b, p).Child? && TagName(b, p) != name {
      FoundIsChild(b, p + View(b, p).size, name);
    }
  }

  lemma ChildFits(b: seq<byte>, tag: nat, size: nat)
    requires View(b, tag).Child? && View(b, tag).size == size && |b| < Arith.UINT64_SIZE
    ensures tag + 3 <= |b|
    ensures SizeT(Available(b, tag) - size) == Available(b, tag) - size <==> size <= Available(b, tag)
    ensures NumberWidth(b[tag]) == 0 && b[tag] != LIST ==> size <= Available(b, tag)
    ensures NumberWidth(b[tag]) != 0 ==>
      (size <= Available(b, tag) <==> U16Dec(b, tag + 1) + 3 + NumberWidth(b[tag]) <= Available(b, tag))
  {
    var payload := tag + 3 + U16Dec(b, tag + 1);
    ScanBounded(b, payload, b[tag]);
    SizeTFits(Available(b, tag) - size);
  }

  lemma SizeTFits(n: int)
    requires n < Arith.UINT64_SIZE
    ensures SizeT(n) == n <==> n >= 0
  {
  }

  /** A number cut off by the end of the data: the lookup finds a tag of 7 bytes among 3. */
  lemma CutOffNumber(name: seq<byte>)
    requires name == []
    ensures FindTag([INT32, 0, 0], 0, Str(name)) == Found(0, 7)
  {
    var b := [INT32, 0, 0];
    assert View(b, 0) == Child(3, 7, INT32);
    assert b[3..3] == name;
  }

  /** A list cut off by the end of the data: a size of 9 for 5 bytes. */
  lemma CutOffList()
    ensures Scan([INT32, 0, 0, 0, 1], 0, LIST) == Sized(9)
  {
    var b := [INT32, 0, 0, 0, 1];
    assert ScanItems(b, 9, INT32, 0) == Sized(0);
    assert ScanItems(b, 5, INT32, 1) == Sized(4);
  }
}
