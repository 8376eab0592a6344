/** The name of a region file as a function of its position. A C string is the sequence of its
    characters before the terminator. */
module FilenameSpec {
  import Arith

  const NUL: char := '\0'
  const DOT: char := '.'

  const PREFIX_MAX := 30
  const EXTENSION_MAX := 14
  const FILENAME_MAX := 255

  predicate IsPosition(pos: seq<int>) {
    forall i :: 0 <= i < |pos| ==> Arith.IsInt64(pos[i])
  }

  /** The characters of `src` before NUL, `delim` or offset `max`. */
  function Piece(src: seq<char>, max: nat, delim: char): (r: seq<char>)
    ensures |r| <= max && r <= src
    ensures forall i :: 0 <= i < |r| ==> r[i] != NUL && r[i] != delim
    ensures |r| == max || |r| == |src| || src[|r|] == NUL || src[|r|] == delim
  {
    if max == 0 || src == [] || src[0] == NUL || src[0] == delim then []
    else [src[0]] + Piece(src[1..], max - 1, delim)
  }

  function Digits(n: nat): (r: seq<char>)
    ensures |r| >= 1 && forall i :: 0 <= i < |r| ==> '0' <= r[i] <= '9'
  {
    if n < 10 then [Digit(n)] else Digits(n / 10) + [Digit(n % 10)]
  }

  function Digit(d: nat): (c: char)
    requires d < 10
    ensures '0' <= c <= '9'
  {
    '0' + d as char
  }

  /** `%PRId64` */
  function Decimal(x: int): (r: seq<char>)
    ensures |r| >= 1 && forall i :: 0 <= i < |r| ==> r[i] != DOT && r[i] != NUL
  {
    if x < 0 then ['-'] + Digits(-x) else Digits(x)
  }

  /** The coordinates, each followed by a dot. */
  function Coordinates(pos: seq<int>): seq<char> {
    if pos == [] then [] else Decimal(pos[0]) + [DOT] + Coordinates(pos[1..])
  }

  function Filename(prefix: seq<char>, extension: seq<char>, pos: seq<int>): seq<char> {
    Piece(prefix, PREFIX_MAX, DOT) + [DOT] + Coordinates(pos) + Piece(extension, EXTENSION_MAX, NUL)
  }

  // ---- names fit ----

  function Pow10(k: nat): nat {
    if k == 0 then 1 else 10 * Pow10(k - 1)
  }

  lemma {:induction false} DigitsFit(n: nat, k: nat)
    requires k >= 1 && n < Pow10(k)
    ensures |Digits(n)| <= k
    decreases k
  {
    if n >= 10 {
      DigitsFit(n / 10, k - 1);
    }
  }

  lemma DecimalFits(x: int)
    requires Arith.IsInt64(x)
    ensures |Decimal(x)| <= 20
  {
    hide Digits;
    assert Pow10(19) == 10_000_000_000_000_000_000 by {
      assert Pow10(5) == 100_000;
      assert Pow10(10) == 10_000_000_000;
      assert Pow10(15) == 1_000_000_000_000_000;
    }
    DigitsFit(if x < 0 then -x else x, 19);
  }

  lemma {:induction false} CoordinatesFit(pos: seq<int>)
    requires IsPosition(pos)
    ensures |Coordinates(pos)| <= 21 * |pos|
  {
    if pos != [] {
      DecimalFits(pos[0]);
      CoordinatesFit(pos[1..]);
    }
  }

  /** A name of at most ten coordinates fits the limit of 255 characters. */
  lemma FilenameFits(prefix: seq<char>, extension: seq<char>, pos: seq<int>)
    requires IsPosition(pos) && |pos| <= 10
    ensures |Filename(prefix, extension, pos)| <= 255
  {
    CoordinatesFit(pos);
  }

  // ---- coordinates read as numbers, so names are unique ----

  /** The number that a row of digits stands for. */
  function ReadDigits(s: seq<char>): int {
    if s == [] then 0
    else 10 * ReadDigits(s[..|s| - 1]) + (s[|s| - 1] as int - '0' as int)
  }

  function ReadNumber(s: seq<char>): int {
    if s != [] && s[0] == '-' then -ReadDigits(s[1..]) else ReadDigits(s)
  }

  lemma {:induction false} DigitsRead(n: nat)
    ensures ReadDigits(Digits(n)) == n
    ensures forall i :: 0 <= i < |Digits(n)| ==> '0' <= Digits(n)[i] <= '9'
    ensures n > 0 ==> Digits(n)[0] != '0'
    ensures n == 0 ==> Digits(n) == ['0']
  {
    var r := Digits(n);
    if n < 10 {
      assert r[..|r| - 1] == [];
      assert ReadDigits(r[..|r| - 1]) == 0;
    } else {
      DigitsRead(n / 10);
      assert r[..|r| - 1] == Digits(n / 10);
    }
  }

  /** A coordinate is written in decimal: read back it is the same number, it has digits after an optional
      sign, and the first of them is 0 only for zero itself. */
  lemma DecimalReads(x: int)
    ensures ReadNumber(Decimal(x)) == x
    ensures var digits := if x < 0 then Decimal(x)[1..] else Decimal(x);
      && (x < 0 ==> Decimal(x)[0] == '-')
      && digits != [] && (forall i :: 0 <= i < |digits| ==> '0' <= digits[i] <= '9')
      && (digits[0] == '0' ==> x == 0 && digits == ['0'])
  {
    hide Digits, ReadDigits;
    DigitsRead(if x < 0 then -x else x);
    if x < 0 {
      assert Decimal(x)[1..] == Digits(-x);
    }
  }

  lemma DecimalInjective(a: int, b: int)
    requires Decimal(a) == Decimal(b)
    ensures a == b
  {
    DecimalReads(a);
    DecimalReads(b);
  }

  function FirstDot(s: seq<char>): nat {
    if s == [] || s[0] == DOT then 0 else 1 + FirstDot(s[1..])
  }

  lemma {:induction false} FirstDotIs(a: seq<char>, s: seq<char>)
    requires DOT !in a
    ensures FirstDot(a + [DOT] + s) == |a|
  {
    if a != [] {
      assert (a + [DOT] + s)[1..] == a[1..] + [DOT] + s;
      FirstDotIs(a[1..], s);
    }
  }

  /** Up to the first dot there is exactly one way to read a text. */
  lemma UpToDot(a: seq<char>, b: seq<char>, s: seq<char>, t: seq<char>)
    requires DOT !in a && DOT !in b
    requires a + [DOT] + s == b + [DOT] + t
    ensures a == b && s == t
  {
    FirstDotIs(a, s);
    FirstDotIs(b, t);
    var (x, y) := (a + [DOT] + s, b + [DOT] + t);
    assert a == x[..|a|] && b == y[..|b|] && s == x[|a| + 1..] && t == y[|b| + 1..];
  }

  lemma {:induction false} CoordinatesInjective(p: seq<int>, q: seq<int>)
    requires |p| == |q| && Coordinates(p) == Coordinates(q)
    ensures p == q
    decreases |p|
  {
    if p != [] {
      UpToDot(Decimal(p[0]), Decimal(q[0]), Coordinates(p[1..]), Coordinates(q[1..]));
      DecimalInjective(p[0], q[0]);
      CoordinatesInjective(p[1..], q[1..]);
      assert p == [p[0]] + p[1..] && q == [q[0]] + q[1..];
    }
  }

  lemma Cancel(start: seq<char>, a: seq<char>, b: seq<char>, tail: seq<char>)
    requires start + a + tail == start + b + tail
    ensures a == b
  {
    var (x, y) := (start + a + tail, start + b + tail);
    var n := |x| - |tail|;
    assert a == x[|start|..n] && b == y[|start|..n];
  }

  /** Under one prefix and extension, different positions have different names. */
  lemma FilenameInjective(prefix: seq<char>, extension: seq<char>, p: seq<int>, q: seq<int>)
    requires |p| == |q|
    ensures Filename(prefix, extension, p) == Filename(prefix, extension, q) <==> p == q
  {
    hide Piece, Coordinates;
    if Filename(prefix, extension, p) == Filename(prefix, extension, q) {
      Cancel(Piece(prefix, PREFIX_MAX, DOT) + [DOT], Coordinates(p), Coordinates(q),
             Piece(extension, EXTENSION_MAX, NUL));
      CoordinatesInjective(p, q);
    }
  }

  lemma ExampleCoordinates()
    ensures Coordinates([-32, 40]) == "-32.40."
  {
    assert Digits(32) == "32" && Digits(40) == "40";
    hide Digits;
    assert Decimal(-32) == "-32" && Decimal(40) == "40";
    NoCoordinates();
    assert Coordinates([40]) == Decimal(40) + [DOT] + Coordinates([40][1..]);
    assert [40][1..] == [] && [-32, 40][1..] == [40];
  }

  lemma WholePiece(s: seq<char>, max: nat, delim: char)
    requires |s| <= max && forall i :: 0 <= i < |s| ==> s[i] != NUL && s[i] != delim
    ensures Piece(s, max, delim) == s
  {
    hide Piece;
    var r := Piece(s, max, delim);
  }

  /** A name in full. */
  lemma ExampleName()
    ensures Filename("region", "mcr", [-32, 40]) == "region.-32.40.mcr"
  {
    hide Piece, Coordinates;
    WholePiece("region", 30, '.');
    WholePiece("mcr", 14, '\0');
    ExampleCoordinates();
  }

  /** A prefix ends at a dot, or after 30 characters; an extension after 14. */
  lemma CutOffNames(long: seq<char>)
    requires forall i :: 0 <= i < |long| ==> long[i] != '\0' && long[i] != '.'
    ensures Filename("a.b", "lck", []) == "a.lck"
    ensures |long| >= 30 ==> Filename(long, long, []) == long[..30] + "." + long[..14]
  {
    hide Coordinates;
    var r := Piece(long, 30, '.');
    var e := Piece(long, 14, '\0');
    NoCoordinates();
    assert Piece("a.b", 30, '.') == "a" && Piece("lck", 14, '\0') == "lck";
    if |long| >= 30 {
      assert r == long[..30] && e == long[..14];
    }
  }

  lemma NoCoordinates()
    ensures Coordinates([]) == []
  {
  }
}
