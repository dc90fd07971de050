/** UTF-8 as Go's unicode/utf8 package implements it (RFC 3629 section 3):
    DecodeRune reads one code point from the front of a byte string,
    EncodeRune writes one. */
module Utf8 {
  import opened Bytes

  /** Go's rune: a signed 32-bit integer. */
  type rune = r: int | -0x8000_0000 <= r < 0x8000_0000

  const RuneError: rune := 0xFFFD
  const MaxRune: rune := 0x10FFFF

  /** utf8.ValidRune: a Unicode scalar value (no surrogates, at most U+10FFFF). */
  predicate ValidRune(r: rune) {
    0 <= r <= MaxRune && !(0xD800 <= r <= 0xDFFF)
  }

  predicate IsContinuation(b: byte) {
    0x80 <= b <= 0xBF
  }

  /** Lowest allowed value of the second byte for a given lead byte
      (rules out overlong forms, surrogates and values above U+10FFFF). */
  function SecondLow(p0: byte): byte {
    if p0 == 0xE0 then 0xA0 else if p0 == 0xF0 then 0x90 else 0x80
  }

  function SecondHigh(p0: byte): byte {
    if p0 == 0xED then 0x9F else if p0 == 0xF4 then 0x8F else 0xBF
  }

  /** The length announced by a lead byte, 0 for a byte that cannot start a sequence. */
  function SequenceLength(p0: byte): nat {
    if p0 < 0x80 then 1
    else if p0 < 0xC2 then 0
    else if p0 < 0xE0 then 2
    else if p0 < 0xF0 then 3
    else if p0 < 0xF5 then 4
    else 0
  }

  /** utf8.DecodeRune: the first code point of p and its length in bytes.
      An empty input gives (RuneError, 0); a malformed or truncated
      sequence gives (RuneError, 1). */
  function DecodeRune(p: bytes): (r: (rune, nat))
    ensures r.1 <= |p| && (|p| > 0 ==> 1 <= r.1 <= 4) && (|p| == 0 ==> r.1 == 0)
  {
    if |p| == 0 then (RuneError, 0)
    else
      var p0: int := p[0];
      var sz := SequenceLength(p0);
      if sz == 1 then (p0, 1)
      else if sz == 0 || |p| < sz then (RuneError, 1)
      else if p[1] < SecondLow(p0) || SecondHigh(p0) < p[1] then (RuneError, 1)
      else if sz == 2 then (Combine2(p0, p[1]), 2)
      else if !IsContinuation(p[2]) then (RuneError, 1)
      else if sz == 3 then (Combine3(p0, p[1], p[2]), 3)
      else if !IsContinuation(p[3]) then (RuneError, 1)
      else (Combine4(p0, p[1], p[2], p[3]), 4)
  }

  // The payload bits of a two-, three- and four-byte sequence.
  function Combine2(b0: int, b1: int): rune
    requires 0xC2 <= b0 <= 0xDF && 0x80 <= b1 <= 0xBF
  {
    (b0 - 0xC0) * 64 + (b1 - 0x80)
  }

  function Combine3(b0: int, b1: int, b2: int): rune
    requires 0xE0 <= b0 <= 0xEF && 0x80 <= b1 <= 0xBF && 0x80 <= b2 <= 0xBF
  {
    (b0 - 0xE0) * 4096 + (b1 - 0x80) * 64 + (b2 - 0x80)
  }

  function Combine4(b0: int, b1: int, b2: int, b3: int): rune
    requires 0xF0 <= b0 <= 0xF4 && 0x80 <= b1 <= 0xBF && 0x80 <= b2 <= 0xBF && 0x80 <= b3 <= 0xBF
  {
    (b0 - 0xF0) * 262144 + (b1 - 0x80) * 4096 + (b2 - 0x80) * 64 + (b3 - 0x80)
  }

  /** utf8.EncodeRune: the UTF-8 bytes of r; a value that is not a scalar
      value is written as RuneError. */
  function EncodeRune(r: rune): (s: bytes)
    ensures 1 <= |s| <= 4
  {
    if 0 <= r <= 0x7F then [r]
    else if 0 <= r <= 0x7FF then [0xC0 + r / 64, 0x80 + r % 64]
    else if !ValidRune(r) then [0xEF, 0xBF, 0xBD]
    else if r <= 0xFFFF then [0xE0 + r / 4096, 0x80 + (r / 64) % 64, 0x80 + r % 64]
    else [0xF0 + r / 262144, 0x80 + (r / 4096) % 64, 0x80 + (r / 64) % 64, 0x80 + r % 64]
  }

  // Splitting a value into 6-bit groups and joining them again.
  lemma Split2(r: int)
    requires 0x80 <= r <= 0x7FF
    ensures Combine2(0xC0 + r / 64, 0x80 + r % 64) == r
  {
  }

  lemma Split3(r: int)
    requires 0x800 <= r <= 0xFFFF
    ensures Combine3(0xE0 + r / 4096, 0x80 + (r / 64) % 64, 0x80 + r % 64) == r
  {
    assert r / 64 == (r / 4096) * 64 + (r / 64) % 64;
  }

  lemma Split4(r: int)
    requires 0x10000 <= r <= MaxRune
    ensures Combine4(0xF0 + r / 262144, 0x80 + (r / 4096) % 64, 0x80 + (r / 64) % 64, 0x80 + r % 64) == r
  {
    assert r / 4096 == (r / 262144) * 64 + (r / 4096) % 64;
    assert r / 64 == (r / 4096) * 64 + (r / 64) % 64;
  }

  /** Decoding what EncodeRune wrote gives the scalar value back and consumes
      exactly its encoding, whatever follows it. */
  lemma DecodeEncode(r: rune, rest: bytes)
    requires ValidRune(r)
    ensures DecodeRune(EncodeRune(r) + rest) == (r, |EncodeRune(r)|)
  {
    if r > 0xFFFF {
      Split4(r);
    } else if r > 0x7FF {
      Split3(r);
    } else if r > 0x7F {
      Split2(r);
    }
  }

  lemma Join2(b0: int, b1: int)
    requires 0xC2 <= b0 <= 0xDF && 0x80 <= b1 <= 0xBF
    ensures var r := Combine2(b0, b1); 0x80 <= r <= 0x7FF && r / 64 == b0 - 0xC0 && r % 64 == b1 - 0x80
  {
  }

  lemma Join3(b0: int, b1: int, b2: int)
    requires 0xE0 <= b0 <= 0xEF && 0x80 <= b1 <= 0xBF && 0x80 <= b2 <= 0xBF
    requires b0 == 0xE0 ==> b1 >= 0xA0
    ensures var r := Combine3(b0, b1, b2);
      0x800 <= r <= 0xFFFF && r / 4096 == b0 - 0xE0 && (r / 64) % 64 == b1 - 0x80 && r % 64 == b2 - 0x80
  {
    var r := Combine3(b0, b1, b2);
    assert r / 64 == (b0 - 0xE0) * 64 + (b1 - 0x80);
  }

  lemma Join4(b0: int, b1: int, b2: int, b3: int)
    requires 0xF0 <= b0 <= 0xF4 && 0x80 <= b1 <= 0xBF && 0x80 <= b2 <= 0xBF && 0x80 <= b3 <= 0xBF
    requires b0 == 0xF0 ==> b1 >= 0x90
    requires b0 == 0xF4 ==> b1 <= 0x8F
    ensures var r := Combine4(b0, b1, b2, b3);
      0x10000 <= r <= MaxRune && r / 262144 == b0 - 0xF0 && (r / 4096) % 64 == b1 - 0x80
      && (r / 64) % 64 == b2 - 0x80 && r % 64 == b3 - 0x80
  {
    var r := Combine4(b0, b1, b2, b3);
    assert r / 64 == (b0 - 0xF0) * 4096 + (b1 - 0x80) * 64 + (b2 - 0x80);
    assert r / 4096 == (b0 - 0xF0) * 64 + (b1 - 0x80);
  }

  /** Everything DecodeRune accepts is a scalar value in its one shortest
      encoding: the decoder admits no overlong forms and no surrogates. */
  lemma DecodedIsEncoding(p: bytes)
    requires DecodeRune(p).0 != RuneError && |p| > 0
    ensures ValidRune(DecodeRune(p).0)
    ensures p[..DecodeRune(p).1] == EncodeRune(DecodeRune(p).0)
  {
    var n := DecodeRune(p).1;
    if n == 2 {
      Join2(p[0], p[1]);
    } else if n == 3 {
      Join3(p[0], p[1], p[2]);
    } else if n == 4 {
      Join4(p[0], p[1], p[2], p[3]);
    }
  }
}
