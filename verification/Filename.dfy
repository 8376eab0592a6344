/** Writing a region file's name into a buffer (src/region/filename.c). */
module RegionFilename {
  import Arith
  import opened FilenameSpec

  /** `text` stands at `at` in what was `before`, cut off at `max`. */
  ghost predicate Written(now: seq<char>, before: seq<char>, at: nat, max: nat, text: seq<char>) {
    && |now| == |before|
    && max <= |now|
    && forall j :: 0 <= j < |now| ==>
         now[j] == if at <= j < at + |text| && j < max then text[j - at] else before[j]
  }

  lemma WrittenNothing(before: seq<char>, at: nat, max: nat)
    requires max <= |before|
    ensures Written(before, before, at, max, [])
  {
  }

  lemma WrittenOneMore(now: seq<char>, before: seq<char>, at: nat, max: nat, text: seq<char>, c: char)
    requires Written(now, before, at, max, text)
    ensures var i := at + |text|;
      Written(if i < max then now[i := c] else now, before, at, max, text + [c])
  {
  }

  lemma PieceIs(src: seq<char>, max: nat, delim: char, i: nat)
    requires i <= max && i <= |src| && (i == max || i == |src| || src[i] == NUL || src[i] == delim)
    requires forall j :: 0 <= j < i ==> src[j] != NUL && src[j] != delim
    ensures Piece(src, max, delim) == src[..i]
  {
  }

  /** Writes a character unless it lies beyond the limit. */
  method Put(dst: array<char>, at: nat, max: nat, c: char)
    requires max <= dst.Length
    modifies dst
    ensures dst[..] == if at < max then old(dst[..])[at := c] else old(dst[..])
  {
    if at < max {
      dst[at] := c;
    }
  }

  /** What `str_copy` copies: the part of `src` from `at` on, up to the delimiter, the terminator or the
      limit. */
  function PieceFrom(src: seq<char>, max: nat, at: nat, delim: char): seq<char>
    requires at <= |src|
  {
    Piece(src[at..], if at < max then max - at else 0, delim)
  }

  /** `str_copy`; a null offset in C is 0, and what becomes of it is not used. */
  method StrCopy(dst: array<char>, dstMax: nat, dstOffset: nat,
                 src: seq<char>, srcMax: nat, srcOffset: nat, delim: char)
    returns (dstAfter: nat, srcAfter: nat)
    requires dstMax <= dst.Length && srcOffset <= |src|
    modifies dst
    ensures dstAfter == dstOffset + |PieceFrom(src, srcMax, srcOffset, delim)|
    ensures srcAfter == srcOffset + |PieceFrom(src, srcMax, srcOffset, delim)|
    ensures Written(dst[..], old(dst[..]), dstOffset, dstMax, PieceFrom(src, srcMax, srcOffset, delim))
  {
    hide Piece, Written;
    ghost var before := dst[..];
    ghost var rest := src[srcOffset..];
    assert rest[..0] == [];
    WrittenNothing(before, dstOffset, dstMax);
    var i := 0;
    while i + srcOffset < srcMax && i + srcOffset < |src| && src[i + srcOffset] != NUL && src[i + srcOffset] != delim
      invariant i <= |rest| && (i == 0 || i + srcOffset <= srcMax)
      invariant forall j :: 0 <= j < i ==> rest[j] != NUL && rest[j] != delim
      invariant Written(dst[..], before, dstOffset, dstMax, rest[..i])
    {
      WrittenOneMore(dst[..], before, dstOffset, dstMax, rest[..i], rest[i]);
      assert rest[..i + 1] == rest[..i] + [rest[i]];
      Put(dst, i + dstOffset, dstMax, src[i + srcOffset]);
      i := i + 1;
    }
    PieceIs(rest, if srcOffset < srcMax then srcMax - srcOffset else 0, delim, i);
    return dstOffset + i, srcOffset + i;
  }

  /** How much of a text of `n` characters `snprintf` shows in a buffer of `max`. */
  function Shown(n: nat, max: nat): nat
    requires max > 0
  {
    if n < max then n else max - 1
  }

  /** `snprintf`: at most `max` characters including a NUL behind them, and the length of the whole
      text in any case. */
  method Snprintf(dst: array<char>, at: nat, max: nat, text: seq<char>) returns (n: nat)
    requires at + max <= dst.Length
    modifies dst
    ensures n == |text|
    ensures max == 0 ==> dst[..] == old(dst[..])
    ensures max > 0 ==>
      forall j :: 0 <= j < dst.Length ==>
        dst[j] == if at <= j < at + Shown(n, max) then text[j - at]
                  else if j == at + Shown(n, max) then NUL
                  else old(dst[j])
  {
    n := |text|;
    if max > 0 {
      forall i | 0 <= i < Shown(n, max) {
        dst[at + i] := text[i];
      }
      dst[at + Shown(n, max)] := NUL;
    }
  }

  /** The buffer holds a text and NULs behind it. */
  ghost predicate Holds(buffer: seq<char>, text: seq<char>) {
    && |buffer| == FILENAME_MAX + 1 && |text| <= FILENAME_MAX
    && (forall j :: 0 <= j < |text| ==> buffer[j] == text[j])
    && (forall j :: |text| <= j < |buffer| ==> buffer[j] == NUL)
  }

  lemma HoldsMore(now: seq<char>, before: seq<char>, text: seq<char>, more: seq<char>)
    requires Holds(before, text) && |text| + |more| <= FILENAME_MAX
    requires Written(now, before, |text|, FILENAME_MAX, more)
    ensures Holds(now, text + more)
  {
  }

  /** `str_copy` at the end of the text that the buffer holds. */
  method Append(buffer: array<char>, ghost text: seq<char>, at: nat, src: seq<char>, srcMax: nat, delim: char)
    returns (offset: nat)
    requires Holds(buffer[..], text) && at == |text|
    requires |text| + |Piece(src, srcMax, delim)| <= FILENAME_MAX
    modifies buffer
    ensures offset == |text + Piece(src, srcMax, delim)|
    ensures Holds(buffer[..], text + Piece(src, srcMax, delim))
  {
    hide Piece, Written;
    ghost var before := buffer[..];
    assert src[0..] == src;
    var after, _ := StrCopy(buffer, FILENAME_MAX, at, src, srcMax, 0, delim);
    offset := after;
    HoldsMore(buffer[..], before, text, Piece(src, srcMax, delim));
  }

  /** `snprintf` of a coordinate at the end of the text. */
  method AppendCoordinate(buffer: array<char>, ghost text: seq<char>, at: nat, x: int) returns (offset: nat)
    requires Holds(buffer[..], text) && at == |text| && |text| + 21 < FILENAME_MAX
    requires Arith.IsInt64(x)
    modifies buffer
    ensures offset == |text + (Decimal(x) + [DOT])| <= |text| + 21
    ensures Holds(buffer[..], text + (Decimal(x) + [DOT]))
  {
    hide Decimal;
    DecimalFits(x);
    var maxLen := if at > FILENAME_MAX then 0 else FILENAME_MAX - at;
    var cursor := if at > FILENAME_MAX then FILENAME_MAX else at;
    ghost var before := buffer[..];
    var written := Snprintf(buffer, cursor, maxLen, Decimal(x) + [DOT]);
    HoldsShown(buffer[..], before, text, Decimal(x) + [DOT]);
    return at + written;
  }

  /** `filename_make`: the whole name, never cut off, followed by NULs only. */
  method FilenameMake(filename: array<char>, prefix: seq<char>, extension: seq<char>, pos: seq<int>)
    returns (size: nat)
    requires filename.Length == 256
    requires IsPosition(pos) && |pos| <= 10
    modifies filename
    ensures size == |Filename(prefix, extension, pos)| <= 255
    ensures Holds(filename[..], Filename(prefix, extension, pos))
  {
    hide Piece, Decimal, Holds;
    forall i | 0 <= i < filename.Length {
      filename[i] := NUL;
    }
    HoldsNothing(filename[..]);
    var dot := [DOT];
    PieceOfDot(dot);
    var offset := Append(filename, [], 0, prefix, PREFIX_MAX, DOT);
    ghost var text := [] + Piece(prefix, PREFIX_MAX, DOT);
    offset := Append(filename, text, offset, dot, 1, NUL);
    text := text + Piece(dot, 1, NUL);
    ghost var start := text;
    for i := 0 to |pos|
      invariant offset == |text| <= 31 + 21 * i
      invariant text == start + Coordinates(pos[..i])
      invariant Holds(filename[..], text)
    {
      CoordinatesOneMore(pos, i);
      offset := AppendCoordinate(filename, text, offset, pos[i]);
      text := text + (Decimal(pos[i]) + [DOT]);
    }
    assert pos[..|pos|] == pos;
    offset := Append(filename, text, offset, extension, EXTENSION_MAX, NUL);
    assert text + Piece(extension, EXTENSION_MAX, NUL) == Filename(prefix, extension, pos);
    return offset;
  }

  lemma HoldsNothing(buffer: seq<char>)
    requires |buffer| == FILENAME_MAX + 1 && forall j :: 0 <= j < |buffer| ==> buffer[j] == NUL
    ensures Holds(buffer, [])
  {
  }

  /** A text that leaves room for its NUL is shown whole. */
  lemma HoldsShown(now: seq<char>, before: seq<char>, text: seq<char>, more: seq<char>)
    requires Holds(before, text) && |text| + |more| < FILENAME_MAX && |now| == |before|
    requires forall j :: 0 <= j < |now| ==>
      now[j] == if |text| <= j < |text| + |more| then more[j - |text|]
                else if j == |text| + |more| then NUL
                else before[j]
    ensures Holds(now, text + more)
  {
  }

  lemma PieceOfDot(dot: seq<char>)
    requires dot == [DOT]
    ensures Piece(dot, 1, NUL) == dot
  {
  }

  lemma {:induction false} CoordinatesAppend(p: seq<int>, x: int)
    ensures Coordinates(p + [x]) == Coordinates(p) + (Decimal(x) + [DOT])
  {
    if p == [] {
      assert [x][1..] == [];
    } else {
      assert (p + [x])[1..] == p[1..] + [x];
      CoordinatesAppend(p[1..], x);
    }
  }

  lemma CoordinatesOneMore(pos: seq<int>, i: nat)
    requires i < |pos|
    ensures Coordinates(pos[..i + 1]) == Coordinates(pos[..i]) + (Decimal(pos[i]) + [DOT])
  {
    assert pos[..i + 1] == pos[..i] + [pos[i]];
    CoordinatesAppend(pos[..i], pos[i]);
  }
}
