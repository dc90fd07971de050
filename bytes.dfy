/** Byte strings, ASCII codes, decimal numerals and the fixed-width integer
    conversions that the terminal library relies on. */
module Bytes {

  type byte = b: int | 0 <= b < 256
  type bytes = seq<byte>

  datatype Option<T> = None | Some(value: T)

  // ASCII codes used by the escape vocabulary
  const ESC: byte := 0x1B
  const SPACE: byte := 0x20
  const PLUS: byte := 0x2B
  const MINUS: byte := 0x2D
  const ZERO: byte := 0x30
  const SEMICOLON: byte := 0x3B
  const LESS: byte := 0x3C
  const UPPER_H: byte := 0x48
  const UPPER_M: byte := 0x4D
  const LBRACKET: byte := 0x5B
  const LOWER_M: byte := 0x6D

  const TWO_63: int := 0x8000_0000_0000_0000
  const TWO_64: int := 0x1_0000_0000_0000_0000

  /** Go's `int` (64 bits on the supported platforms): wrap an exact result into range. */
  function Wrap64(v: int): (r: int)
    ensures -TWO_63 <= r < TWO_63
    ensures -TWO_63 <= v < TWO_63 ==> r == v
  {
    (v + TWO_63) % TWO_64 - TWO_63
  }

  /** Go's conversion `uint64(v)` of a signed value: two's complement reinterpretation. */
  function U64(v: int): (r: nat)
    ensures r < TWO_64
    ensures 0 <= v < TWO_64 ==> r == v
  {
    v % TWO_64
  }

  predicate IsPrefix(p: bytes, s: bytes) {
    |p| <= |s| && s[..|p|] == p
  }

  predicate IsDigit(b: byte) {
    ZERO <= b <= ZERO + 9
  }

  predicate AllDigits(s: bytes) {
    forall i :: 0 <= i < |s| ==> IsDigit(s[i])
  }

  /** strconv.AppendUint(_, n, 10): the decimal numeral of n without leading zeros. */
  function Decimal(n: nat): (r: bytes)
    ensures 0 < |r| && AllDigits(r)
    ensures |r| > 1 ==> r[0] != ZERO
    decreases n
  {
    if n < 10 then [ZERO + n] else Decimal(n / 10) + [ZERO + n % 10]
  }

  /** The value of a nonempty string of decimal digits, most significant
      digit first; None when the string is empty or holds a non-digit. */
  function Magnitude(s: bytes): Option<nat> {
    if |s| == 0 || !IsDigit(s[|s| - 1]) then None
    else if |s| == 1 then Some(s[0] - ZERO)
    else
      var high := Magnitude(s[..|s| - 1]);
      if high.None? then None else Some(high.value * 10 + (s[|s| - 1] - ZERO))
  }

  /** Magnitude succeeds exactly on the nonempty strings of digits. */
  lemma {:induction false} MagnitudeDigits(s: bytes)
    ensures Magnitude(s).Some? <==> |s| > 0 && AllDigits(s)
  {
    if |s| > 1 && IsDigit(s[|s| - 1]) {
      var p := s[..|s| - 1];
      MagnitudeDigits(p);
      assert forall i :: 0 <= i < |p| ==> p[i] == s[i];
    }
  }

  lemma {:induction false} MagnitudeDecimal(n: nat)
    ensures Magnitude(Decimal(n)) == Some(n)
    decreases n
  {
    if n >= 10 {
      var d := Decimal(n / 10);
      var r := d + [ZERO + n % 10];
      assert r[..|r| - 1] == d;
      MagnitudeDecimal(n / 10);
    }
  }

  /** strconv.ParseInt(s, 10, 64): an optional '+' or '-' followed by at least
      one decimal digit, whose value must fit in a signed 64-bit integer.
      Every other input is an error (None). */
  function ParseInt(s: bytes): (r: Option<int>)
    ensures r.Some? ==> -TWO_63 <= r.value < TWO_63
    ensures r.Some? ==> 0 < |s|
  {
    if |s| == 0 then None
    else
      var neg := s[0] == MINUS;
      var digits := if s[0] == PLUS || s[0] == MINUS then s[1..] else s;
      var m := Magnitude(digits);
      if m.None? then None
      else
        var v: int := m.value;
        if neg then (if v <= TWO_63 then Some(-v) else None)
        else if v < TWO_63 then Some(v) else None
  }

  /** Reading back a numeral written by Decimal gives the number, for every
      value in the signed 64-bit range. */
  lemma ParseIntDecimal(n: nat)
    requires n < TWO_63
    ensures ParseInt(Decimal(n)) == Some(n)
  {
    MagnitudeDecimal(n);
  }

  /** A string that holds something other than digits after its sign is refused. */
  lemma ParseIntRejects(s: bytes, i: nat)
    requires 0 < i < |s| && !IsDigit(s[i])
    ensures ParseInt(s) == None
  {
    var digits := if s[0] == PLUS || s[0] == MINUS then s[1..] else s;
    var k := if s[0] == PLUS || s[0] == MINUS then i - 1 else i;
    assert digits[k] == s[i];
    MagnitudeDigits(digits);
  }

  /** strings.Index(s, b): the first position holding b, or -1. */
  function IndexOf(s: bytes, b: byte): (r: int)
    ensures -1 <= r < |s| && (r >= 0 ==> s[r] == b)
  {
    if |s| == 0 then -1
    else if s[0] == b then 0
    else
      var k := IndexOf(s[1..], b);
      if k == -1 then -1 else k + 1
  }

  /** No position before the one IndexOf finds holds b, and -1 means that
      no position does. */
  lemma {:induction false} IndexOfFirst(s: bytes, b: byte)
    ensures var r := IndexOf(s, b);
      forall j :: 0 <= j < |s| && (r == -1 || j < r) ==> s[j] != b
  {
    if |s| > 0 && s[0] != b {
      IndexOfFirst(s[1..], b);
      assert forall j :: 1 <= j < |s| ==> s[j] == s[1..][j - 1];
    }
  }

  /** strings.LastIndex(s, b): the last position holding b, or -1. */
  function LastIndexOf(s: bytes, b: byte): (r: int)
    ensures -1 <= r < |s| && (r >= 0 ==> s[r] == b)
  {
    if |s| == 0 then -1
    else if s[|s| - 1] == b then |s| - 1
    else LastIndexOf(s[..|s| - 1], b)
  }

  /** No position after the one LastIndexOf finds holds b, and -1 means
      that no position does. */
  lemma {:induction false} LastIndexOfLast(s: bytes, b: byte)
    ensures var r := LastIndexOf(s, b);
      forall j :: 0 <= j < |s| && r < j ==> s[j] != b
  {
    if |s| > 0 && s[|s| - 1] != b {
      LastIndexOfLast(s[..|s| - 1], b);
      assert forall j :: 0 <= j < |s| - 1 ==> s[j] == s[..|s| - 1][j];
    }
  }

  /** The first occurrence comes no later than the last one, and both are
      missing together. */
  lemma FirstBeforeLast(s: bytes, b: byte)
    ensures IndexOf(s, b) <= LastIndexOf(s, b)
    ensures IndexOf(s, b) == -1 <==> LastIndexOf(s, b) == -1
  {
    IndexOfFirst(s, b);
    LastIndexOfLast(s, b);
  }

  /** strings.IndexAny(s, "Mm"): the first position holding 'M' or 'm', or -1. */
  function IndexOfTerminator(s: bytes): (r: int)
    ensures -1 <= r < |s|
    ensures r >= 0 ==> (s[r] == UPPER_M || s[r] == LOWER_M)
    ensures r >= 0 ==> forall j :: 0 <= j < r ==> s[j] != UPPER_M && s[j] != LOWER_M
    ensures r == -1 ==> forall j :: 0 <= j < |s| ==> s[j] != UPPER_M && s[j] != LOWER_M
  {
    if |s| == 0 then -1
    else if s[0] == UPPER_M || s[0] == LOWER_M then 0
    else
      var k := IndexOfTerminator(s[1..]);
      if k == -1 then -1 else k + 1
  }
}
