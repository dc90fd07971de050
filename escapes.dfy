/** The output vocabulary of termbox.go: cursor positioning (CUP, section
    8.3.21 of ECMA-48), colour selection (SGR, section 8.3.117 of ECMA-48),
    the colour each output mode gives an attribute, and the bytes send_attr
    writes for an attribute pair. A reader for control sequences shows that
    the bytes written carry the numbers that were meant. */
module Escapes {
  import opened Bytes
  import opened Termbox

  // Indexes into the terminfo capability table (the funcs strings).
  const T_ENTER_CA: nat := 0
  const T_EXIT_CA: nat := 1
  const T_SHOW_CURSOR: nat := 2
  const T_HIDE_CURSOR: nat := 3
  const T_CLEAR_SCREEN: nat := 4
  const T_SGR0: nat := 5
  const T_UNDERLINE: nat := 6
  const T_BOLD: nat := 7
  const T_BLINK: nat := 8
  const T_REVERSE: nat := 9
  const T_ENTER_KEYPAD: nat := 10
  const T_EXIT_KEYPAD: nat := 11
  const T_ENTER_MOUSE: nat := 12
  const T_EXIT_MOUSE: nat := 13
  const T_MAX_FUNCS: nat := 14

  /** The terminfo capability strings, one per T_ index. */
  type Funcs = f: seq<bytes> | |f| == T_MAX_FUNCS witness seq(T_MAX_FUNCS, _ => [])

  /** The grayscale palette: index 0 is unused (the default colour), 1 is
      black, 2..25 the 24 grey shades of the 256-colour palette, 26 white. */
  const Grayscale: seq<int> := [
    0, 17, 233, 234, 235, 236, 237, 238, 239, 240, 241, 242, 243, 244,
    245, 246, 247, 248, 249, 250, 251, 252, 253, 254, 255, 256, 232]

  const THREE: byte := 0x33
  const FOUR: byte := 0x34

  /** "38;5;" and "48;5;": select a foreground or background colour of the
      256-colour palette. */
  const FG_PALETTE: bytes := [THREE, 0x38, SEMICOLON, 0x35, SEMICOLON]
  const BG_PALETTE: bytes := [FOUR, 0x38, SEMICOLON, 0x35, SEMICOLON]

  /** write_cursor: ESC [ y+1 ; x+1 H, each number written through Go's
      uint64 conversion. */
  function Cup(x: int, y: int): bytes {
    [ESC, LBRACKET] + Decimal(U64(y + 1)) + [SEMICOLON] + Decimal(U64(x + 1)) + [UPPER_H]
  }

  /** Go's uint16 subtraction a - 1. */
  function Pred16(a: Attribute): nat {
    (a - 1) % 0x1_0000
  }

  /** The output modes whose colours are indexes of the 256-colour palette. */
  predicate PaletteMode(mode: int) {
    mode == Output256 || mode == Output216 || mode == OutputGrayscale
  }

  /** write_sgr_fg */
  function SgrFg(mode: int, a: Attribute): bytes {
    if PaletteMode(mode) then [ESC, LBRACKET] + FG_PALETTE + Decimal(Pred16(a)) + [LOWER_M]
    else [ESC, LBRACKET, THREE] + Decimal(Pred16(a)) + [LOWER_M]
  }

  /** write_sgr_bg */
  function SgrBg(mode: int, a: Attribute): bytes {
    if PaletteMode(mode) then [ESC, LBRACKET] + BG_PALETTE + Decimal(Pred16(a)) + [LOWER_M]
    else [ESC, LBRACKET, FOUR] + Decimal(Pred16(a)) + [LOWER_M]
  }

  /** write_sgr: both colours, as two sequences in the palette modes and as
      one sequence with two parameters otherwise. */
  function Sgr(mode: int, fg: Attribute, bg: Attribute): (r: bytes)
    ensures PaletteMode(mode) ==> r == SgrFg(mode, fg) + SgrBg(mode, bg)
  {
    if PaletteMode(mode) then
      [ESC, LBRACKET] + FG_PALETTE + Decimal(Pred16(fg)) + [LOWER_M]
      + [ESC, LBRACKET] + BG_PALETTE + Decimal(Pred16(bg)) + [LOWER_M]
    else
      [ESC, LBRACKET, THREE] + Decimal(Pred16(fg)) + [SEMICOLON, FOUR] + Decimal(Pred16(bg)) + [LOWER_M]
  }

  /** The colour number send_attr derives from one attribute in an output
      mode; 0 is the terminal's default colour. */
  function ColorOf(mode: int, a: Attribute): (c: Attribute)
    ensures mode == Output216 ==> c == 0 || 0x11 <= c <= 0xE8
    ensures mode == OutputGrayscale ==> c == 0 || c == 17 || 232 <= c <= 256
    ensures mode == Output256 ==> c < 0x200
    ensures !PaletteMode(mode) ==> c < 0x10
    ensures mode == Output256 ==> c == a % 0x200
    ensures mode == Output216 ==> c == (if a % 0x100 > 216 || a % 0x100 == 0 then ColorDefault else a % 0x100 + 0x10)
    ensures mode == OutputGrayscale ==> c == (if a % 0x20 > 26 || a % 0x20 == 0 then ColorDefault else Grayscale[a % 0x20])
    ensures !PaletteMode(mode) ==> c == a % 0x10
  {
    if mode == Output256 then a % 0x200
    else if mode == Output216 then
      var c := a % 0x100;
      if c > 216 || c == ColorDefault then ColorDefault else c + 0x10
    else if mode == OutputGrayscale then
      var c := a % 0x20;
      if c > 26 || c == ColorDefault then ColorDefault else Grayscale[c]
    else a % 0x10
  }

  /** The colour sequences of send_attr: both colours, only one, or none
      when both are the default. */
  function ColorBytes(mode: int, fgcol: Attribute, bgcol: Attribute): (r: bytes)
    ensures r == [] <==> fgcol == ColorDefault && bgcol == ColorDefault
    ensures PaletteMode(mode) ==>
      r == (if fgcol != ColorDefault then SgrFg(mode, fgcol) else [])
        + (if bgcol != ColorDefault then SgrBg(mode, bgcol) else [])
  {
    if fgcol != ColorDefault then
      (if bgcol != ColorDefault then Sgr(mode, fgcol, bgcol) else SgrFg(mode, fgcol))
    else if bgcol != ColorDefault then SgrBg(mode, bgcol)
    else []
  }

  /** What send_attr writes for a new attribute pair: the attribute reset,
      the colours, then bold, blink (bold on the background), underline and
      reverse (from either attribute). */
  function AttrBytes(mode: int, funcs: Funcs, fg: Attribute, bg: Attribute): (r: bytes)
    ensures IsPrefix(funcs[T_SGR0] + ColorBytes(mode, ColorOf(mode, fg), ColorOf(mode, bg)), r)
    ensures HasBit(fg, AttrBold) ==>
      IsPrefix(funcs[T_SGR0] + ColorBytes(mode, ColorOf(mode, fg), ColorOf(mode, bg)) + funcs[T_BOLD], r)
    ensures PlainAttrs(fg, bg) ==> r == funcs[T_SGR0] + ColorBytes(mode, ColorOf(mode, fg), ColorOf(mode, bg))
    ensures r == funcs[T_SGR0] + ColorBytes(mode, ColorOf(mode, fg), ColorOf(mode, bg))
      + (if HasBit(fg, AttrBold) then funcs[T_BOLD] else [])
      + (if HasBit(bg, AttrBold) then funcs[T_BLINK] else [])
      + (if HasBit(fg, AttrUnderline) then funcs[T_UNDERLINE] else [])
      + (if HasBit(fg, AttrReverse) || HasBit(bg, AttrReverse) then funcs[T_REVERSE] else [])
  {
    var colors := funcs[T_SGR0] + ColorBytes(mode, ColorOf(mode, fg), ColorOf(mode, bg));
    var bold := colors + (if HasBit(fg, AttrBold) then funcs[T_BOLD] else []);
    var blink := bold + (if HasBit(bg, AttrBold) then funcs[T_BLINK] else []);
    var underline := blink + (if HasBit(fg, AttrUnderline) then funcs[T_UNDERLINE] else []);
    var r := underline + (if HasBit(fg, AttrReverse) || HasBit(bg, AttrReverse) then funcs[T_REVERSE] else []);
    assert IsPrefix(bold, r) by { assert r[..|bold|] == bold; }
    assert IsPrefix(colors, r) by { assert r[..|colors|] == bold[..|colors|]; }
    r
  }

  /** With every capability string present, send_attr writes nothing after
      the colours exactly when no attribute bit is set. */
  lemma PlainAttrBytes(mode: int, funcs: Funcs, fg: Attribute, bg: Attribute)
    requires forall i :: 0 <= i < T_MAX_FUNCS ==> funcs[i] != []
    ensures AttrBytes(mode, funcs, fg, bg) == funcs[T_SGR0] + ColorBytes(mode, ColorOf(mode, fg), ColorOf(mode, bg))
      <==> PlainAttrs(fg, bg)
  {
    var colors := funcs[T_SGR0] + ColorBytes(mode, ColorOf(mode, fg), ColorOf(mode, bg));
    if !PlainAttrs(fg, bg) {
      assert |AttrBytes(mode, funcs, fg, bg)| > |colors| by {
        assert funcs[T_BOLD] != [] && funcs[T_BLINK] != [] && funcs[T_UNDERLINE] != [] && funcs[T_REVERSE] != [];
      }
    }
  }

  /** No attribute bit that send_attr turns into a capability string. */
  predicate PlainAttrs(fg: Attribute, bg: Attribute) {
    !HasBit(fg, AttrBold) && !HasBit(bg, AttrBold) && !HasBit(fg, AttrUnderline)
    && !HasBit(fg, AttrReverse) && !HasBit(bg, AttrReverse)
  }

  // A reader for control sequences ESC [ n1 ; ... ; nk F.

  /** Decimal parameters separated by semicolons. */
  function Params(ns: seq<nat>): bytes
    requires |ns| > 0
  {
    if |ns| == 1 then Decimal(ns[0]) else Decimal(ns[0]) + [SEMICOLON] + Params(ns[1..])
  }

  /** The numbers of a parameter string; None when a parameter is empty or
      holds something other than digits. */
  function ReadParams(body: bytes): Option<seq<nat>>
    decreases |body|
  {
    var k := IndexOf(body, SEMICOLON);
    if k == -1 then
      var m := Magnitude(body);
      if m.None? then None else Some([m.value])
    else
      var m := Magnitude(body[..k]);
      var rest := ReadParams(body[k + 1..]);
      if m.None? || rest.None? then None else Some([m.value] + rest.value)
  }

  /** A control sequence read back: its parameters and its final byte. */
  function ReadCsi(s: bytes): Option<(seq<nat>, byte)> {
    if |s| < 3 || s[0] != ESC || s[1] != LBRACKET then None
    else
      var ps := ReadParams(s[2..|s| - 1]);
      if ps.None? then None else Some((ps.value, s[|s| - 1]))
  }

  /** IndexOf finds a position that holds the byte and that no earlier
      position holds. */
  lemma IndexOfAt(s: bytes, b: byte, k: nat)
    requires k < |s| && s[k] == b
    requires forall j :: 0 <= j < k ==> s[j] != b
    ensures IndexOf(s, b) == k
  {
    IndexOfFirst(s, b);
  }

  lemma NumeralHasNoSemicolon(n: nat)
    ensures forall j :: 0 <= j < |Decimal(n)| ==> Decimal(n)[j] != SEMICOLON
  {
  }

  /** Parameters written by Params are read back by ReadParams. */
  lemma {:induction false} ReadParamsJoin(ns: seq<nat>)
    requires |ns| > 0
    ensures ReadParams(Params(ns)) == Some(ns)
    decreases |ns|
  {
    var d := Decimal(ns[0]);
    NumeralHasNoSemicolon(ns[0]);
    MagnitudeDecimal(ns[0]);
    if |ns| == 1 {
      assert Params(ns) == d;
      var k := IndexOf(d, SEMICOLON);
      assert k == -1;
      assert ns == [ns[0]];
    } else {
      var body := d + [SEMICOLON] + Params(ns[1..]);
      assert forall j :: 0 <= j < |d| ==> body[j] == d[j];
      IndexOfAt(body, SEMICOLON, |d|);
      assert body[..|d|] == d;
      assert body[|d| + 1..] == Params(ns[1..]);
      ReadParamsJoin(ns[1..]);
      assert [ns[0]] + ns[1..] == ns;
    }
  }

  /** The control sequence ESC [ n1 ; ... ; nk F. */
  function Csi(ns: seq<nat>, final: byte): bytes
    requires |ns| > 0
  {
    [ESC, LBRACKET] + Params(ns) + [final]
  }

  /** A control sequence written from parameters and a final byte is read
      back as those parameters and that final byte. */
  lemma ReadCsiWritten(ns: seq<nat>, final: byte)
    requires |ns| > 0
    ensures ReadCsi(Csi(ns, final)) == Some((ns, final))
  {
    var s := Csi(ns, final);
    assert s[2..|s| - 1] == Params(ns);
    ReadParamsJoin(ns);
  }

  /** write_cursor's bytes read back as CUP with the parameters y+1 and
      x+1, each as uint64 makes it. */
  lemma CupReads(x: int, y: int)
    ensures ReadCsi(Cup(x, y)) == Some(([U64(y + 1), U64(x + 1)], UPPER_H))
  {
    CupIsCsi(x, y);
    ReadCsiWritten([U64(y + 1), U64(x + 1)], UPPER_H);
  }

  lemma CupIsCsi(x: int, y: int)
    ensures Cup(x, y) == Csi([U64(y + 1), U64(x + 1)], UPPER_H)
  {
    var ns: seq<nat> := [U64(y + 1), U64(x + 1)];
    var row, col := Decimal(U64(y + 1)), Decimal(U64(x + 1));
    assert Params(ns) == row + [SEMICOLON] + col by {
      assert ns[1..] == [U64(x + 1)];
    }
  }

  /** write_cursor moves the cursor to row y+1, column x+1 (CUP counts
      from 1): it writes CSI y+1;x+1 H. */
  lemma CupMovesTo(x: int, y: int)
    requires 0 <= x < TWO_64 - 1 && 0 <= y < TWO_64 - 1
    ensures Cup(x, y) == Csi([y + 1, x + 1], UPPER_H)
  {
    var ns: seq<nat> := [y + 1, x + 1];
    assert Params(ns[1..]) == Decimal(x + 1);
  }

  /** write_sgr_fg's bytes read back as SGR 38;5;n, n = a-1 as uint16, in
      the palette modes, and as SGR 3n otherwise; the digit 3 is followed
      by all of n's digits, so only n <= 9 reads back as the parameter
      30 + n. */
  lemma SgrFgReads(mode: int, a: Attribute)
    ensures PaletteMode(mode) ==> ReadCsi(SgrFg(mode, a)) == Some(([38, 5, Pred16(a)], LOWER_M))
    ensures !PaletteMode(mode) && Pred16(a) <= 9 ==> ReadCsi(SgrFg(mode, a)) == Some(([30 + Pred16(a)], LOWER_M))
  {
    if PaletteMode(mode) {
      PaletteIsCsi(3, Pred16(a));
      ReadCsiWritten([38, 5, Pred16(a)], LOWER_M);
    } else {
      BasicParam(3, Pred16(a));
    }
  }

  /** write_sgr_bg's bytes read back as SGR 48;5;n or SGR 4n, as for the
      foreground. */
  lemma SgrBgReads(mode: int, a: Attribute)
    ensures PaletteMode(mode) ==> ReadCsi(SgrBg(mode, a)) == Some(([48, 5, Pred16(a)], LOWER_M))
    ensures !PaletteMode(mode) && Pred16(a) <= 9 ==> ReadCsi(SgrBg(mode, a)) == Some(([40 + Pred16(a)], LOWER_M))
  {
    if PaletteMode(mode) {
      PaletteIsCsi(4, Pred16(a));
      ReadCsiWritten([48, 5, Pred16(a)], LOWER_M);
    } else {
      BasicParam(4, Pred16(a));
    }
  }

  /** Outside the palette modes write_sgr's single sequence reads back as
      SGR 3f;4g, the parameters 30+f and 40+g for one-digit f and g. */
  lemma SgrReads(mode: int, fg: Attribute, bg: Attribute)
    ensures !PaletteMode(mode) && Pred16(fg) <= 9 && Pred16(bg) <= 9 ==>
      ReadCsi(Sgr(mode, fg, bg)) == Some(([30 + Pred16(fg), 40 + Pred16(bg)], LOWER_M))
  {
    if !PaletteMode(mode) && Pred16(fg) <= 9 && Pred16(bg) <= 9 {
      NormalPair(Pred16(fg), Pred16(bg));
      ReadCsiWritten([30 + Pred16(fg), 40 + Pred16(bg)], LOWER_M);
    }
  }

  /** The control sequence ESC [ t n m for a one-digit n reads back as the
      single parameter 10t + n. */
  lemma BasicParam(t: nat, n: nat)
    requires t == 3 || t == 4
    ensures n <= 9 ==> ReadCsi([ESC, LBRACKET, ZERO + t] + Decimal(n) + [LOWER_M]) == Some(([10 * t + n], LOWER_M))
  {
    if n <= 9 {
      assert [ESC, LBRACKET, ZERO + t] + Decimal(n) + [LOWER_M] == Csi([10 * t + n], LOWER_M) by {
        DecimalTens(t, n);
      }
      ReadCsiWritten([10 * t + n], LOWER_M);
    }
  }

  /** SGR t8;5;n written out: ESC [ then "38;5;" or "48;5;" then n. */
  lemma PaletteIsCsi(t: nat, n: nat)
    requires t == 3 || t == 4
    ensures [ESC, LBRACKET] + (if t == 3 then FG_PALETTE else BG_PALETTE) + Decimal(n) + [LOWER_M]
      == Csi([10 * t + 8, 5, n], LOWER_M)
  {
    PaletteParams(t, n);
  }

  /** Decimal writes a two-digit number as its tens digit then its units digit. */
  lemma DecimalTens(t: nat, u: nat)
    requires 1 <= t <= 9 && u <= 9
    ensures Decimal(10 * t + u) == Decimal(t) + Decimal(u)
  {
    assert (10 * t + u) / 10 == t;
  }

  /** The parameters t8;5;n, for t = 3 (foreground) or 4 (background). */
  lemma PaletteParams(t: nat, n: nat)
    requires t == 3 || t == 4
    ensures Params([10 * t + 8, 5, n]) == [ZERO + t, 0x38, SEMICOLON, 0x35, SEMICOLON] + Decimal(n)
  {
    var tail: seq<nat> := [5, n];
    assert Params(tail) == [0x35, SEMICOLON] + Decimal(n) by {
      assert tail[1..] == [n];
    }
    var ns: seq<nat> := [10 * t + 8, 5, n];
    assert ns[1..] == tail;
    assert Decimal(10 * t + 8) == [ZERO + t, 0x38] by {
      DecimalTens(t, 8);
    }
  }

  /** Outside the palette modes write_sgr writes a single sequence: its
      only `m` is its last byte. */
  lemma SgrOneSequence(mode: int, fg: Attribute, bg: Attribute)
    ensures !PaletteMode(mode) ==> Sgr(mode, fg, bg)[|Sgr(mode, fg, bg)| - 1] == LOWER_M
    ensures !PaletteMode(mode) ==> forall i :: 0 <= i < |Sgr(mode, fg, bg)| - 1 ==> Sgr(mode, fg, bg)[i] != LOWER_M
  {
  }

  /** The parameters 3f;4g of a one-digit pair are the numbers 30+f and 40+g. */
  lemma NormalPair(f: nat, g: nat)
    requires f <= 9 && g <= 9
    ensures [ESC, LBRACKET, THREE] + Decimal(f) + [SEMICOLON, FOUR] + Decimal(g) + [LOWER_M]
      == Csi([30 + f, 40 + g], LOWER_M)
  {
    NormalParams(f, g);
    assert Decimal(f) == [ZERO + f] && Decimal(g) == [ZERO + g];
  }

  lemma NormalParams(f: nat, g: nat)
    requires f <= 9 && g <= 9
    ensures Params([30 + f, 40 + g]) == [THREE, ZERO + f, SEMICOLON, FOUR, ZERO + g]
  {
    var p: seq<nat> := [30 + f, 40 + g];
    assert Decimal(30 + f) == [THREE, ZERO + f] by {
      DecimalTens(3, f);
    }
    assert Decimal(40 + g) == [FOUR, ZERO + g] by {
      DecimalTens(4, g);
    }
    assert p[1..] == [40 + g];
  }

  /** The grayscale table: black, then the 24 shades 233..256 in order, then 232. */
  lemma GrayscaleShades()
    ensures Grayscale[1] == 17 && Grayscale[26] == 232
    ensures forall i :: 2 <= i <= 25 ==> Grayscale[i] == 231 + i
  {
  }

  /** Output216 keeps colours apart: the colours 1..216 select 216
      different entries of the palette, none of them the default. */
  lemma CubeColorsDistinct(a: Attribute, b: Attribute)
    requires 1 <= a <= 216 && 1 <= b <= 216 && a != b
    ensures ColorOf(Output216, a) != ColorOf(Output216, b)
    ensures ColorOf(Output216, a) != ColorDefault
  {
    assert a % 0x100 == a && b % 0x100 == b;
  }

  /** OutputGrayscale keeps colours apart: the colours 1..26 select 26
      different entries of the palette, none of them the default. */
  lemma GrayColorsDistinct(a: Attribute, b: Attribute)
    requires 1 <= a <= 26 && 1 <= b <= 26 && a != b
    ensures ColorOf(OutputGrayscale, a) != ColorOf(OutputGrayscale, b)
    ensures ColorOf(OutputGrayscale, a) != ColorDefault
  {
    GrayEntry(a);
    GrayEntry(b);
    GrayscaleShades();
  }

  lemma GrayEntry(a: Attribute)
    requires 1 <= a <= 26
    ensures ColorOf(OutputGrayscale, a) == Grayscale[a]
  {
    assert a % 0x20 == a;
  }
}
