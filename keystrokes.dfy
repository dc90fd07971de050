/** What a terminal sends for each user action, and the proof that the
    decoder of termbox.go reads every such encoding back as the event that
    names the action. The mouse encodings follow xterm's "Control Sequences"
    document (section Mouse Tracking): X10 (ESC [ M Cb Cx Cy), SGR-1006
    (ESC [ < Cb ; Cx ; Cy M or m) and urxvt-1015 (ESC [ Cb ; Cx ; Cy M). */
module Keystrokes {
  import opened Bytes
  import opened Utf8
  import opened Termbox
  import opened Decoder

  datatype Button = Left | Middle | Right | Release | WheelUp | WheelDown
  datatype Dialect = X10 | Sgr | Urxvt

  /** A mouse report: the zero-based cell, whether the pointer moved with the
      button held, the shift (1), meta (2) and control (4) keys held, and for
      SGR whether the final byte is the lowercase release marker. */
  datatype Report = Report(dialect: Dialect, button: Button, motion: bool, held: nat, x: int, y: int, up: bool)

  /** xterm's button number. */
  function Code(b: Button): nat {
    match b
    case Left => 0
    case Middle => 1
    case Right => 2
    case Release => 3
    case WheelUp => 64
    case WheelDown => 65
  }

  /** The termbox key that names a button. */
  function ButtonOf(b: Button): Key {
    match b
    case Left => MouseLeft
    case Middle => MouseMiddle
    case Right => MouseRight
    case Release => MouseRelease
    case WheelUp => MouseWheelUp
    case WheelDown => MouseWheelDown
  }

  /** The button code on the wire: the button number, plus 4, 8 and 16 for
      the keys held, plus 32 for motion. */
  function ButtonCode(m: Report): nat {
    Code(m.button) + 4 * m.held + (if m.motion then 32 else 0)
  }

  /** The reports each dialect can carry: X10 packs the code and the
      coordinates plus 32 and 33 into single bytes, the decimal dialects
      carry one-based coordinates that fit a signed 64-bit integer, and
      only SGR has a release final byte. */
  predicate Encodable(m: Report) {
    m.held < 8 &&
    match m.dialect
    case X10 => -33 <= m.x < 223 && -33 <= m.y < 223 && !m.up
    case Sgr => -1 <= m.x < TWO_63 - 1 && -1 <= m.y < TWO_63 - 1
    case Urxvt => -1 <= m.x < TWO_63 - 1 && -1 <= m.y < TWO_63 - 1 && !m.up
  }

  /** Three decimal fields separated by semicolons. */
  function Fields(a: nat, b: nat, c: nat): bytes {
    Decimal(a) + [SEMICOLON] + Decimal(b) + [SEMICOLON] + Decimal(c)
  }

  function EncodeReport(m: Report): (s: bytes)
    requires Encodable(m)
    ensures StartsCsi(s)
  {
    match m.dialect
    case X10 => [ESC, LBRACKET, UPPER_M, 32 + ButtonCode(m), 33 + m.x, 33 + m.y]
    case Sgr => [ESC, LBRACKET, LESS] + Fields(ButtonCode(m), m.x + 1, m.y + 1) + [if m.up then LOWER_M else UPPER_M]
    case Urxvt => [ESC, LBRACKET] + Fields(ButtonCode(m) + 32, m.x + 1, m.y + 1) + [UPPER_M]
  }

  /** The event a report stands for: a mouse event with the button (or
      MouseRelease for an SGR release), the motion modifier added to what
      the event carried, and the zero-based position. */
  function Reported(ev: Event, m: Report): Event {
    ev.(kind := EventMouse,
        key := if m.up then MouseRelease else ButtonOf(m.button),
        mod := if m.motion then WithMotion(ev.mod) else ev.mod,
        mouseX := m.x, mouseY := m.y)
  }

  /** The decoder recovers button and motion from every button code, and
      ignores the keys held. */
  lemma ButtonCodeBits(m: Report)
    requires m.held < 8
    ensures ButtonKey(ButtonCode(m)) == ButtonOf(m.button)
    ensures HasBit(ButtonCode(m), 32) == m.motion
  {
  }

  /** The first and the last semicolon of three semicolon-free pieces
      joined by semicolons are the two joints. */
  lemma SeparatorPositions(x: bytes, y: bytes, z: bytes)
    requires forall j :: 0 <= j < |x| ==> x[j] != SEMICOLON
    requires forall j :: 0 <= j < |y| ==> y[j] != SEMICOLON
    requires forall j :: 0 <= j < |z| ==> z[j] != SEMICOLON
    ensures var body := x + [SEMICOLON] + y + [SEMICOLON] + z;
      IndexOf(body, SEMICOLON) == |x| && LastIndexOf(body, SEMICOLON) == |x| + 1 + |y|
  {
    var body := x + [SEMICOLON] + y + [SEMICOLON] + z;
    assert forall j :: 0 <= j < |x| ==> body[j] == x[j];
    assert forall j :: |x| + 1 + |y| + 1 <= j < |body| ==> body[j] == z[j - |x| - |y| - 2];
    assert body[|x|] == SEMICOLON && body[|x| + 1 + |y|] == SEMICOLON;
    IndexOfFirst(body, SEMICOLON);
    LastIndexOfLast(body, SEMICOLON);
  }

  lemma SeparatedPieces(x: bytes, y: bytes, z: bytes, body: bytes)
    requires body == x + [SEMICOLON] + y + [SEMICOLON] + z
    ensures SplitFields(body, |x|, |x| + 1 + |y|) == ParseFields(x, y, z)
  {
    assert body[..|x|] == x;
    assert body[|x| + 1..|x| + 1 + |y|] == y;
    assert body[|x| + 1 + |y| + 1..] == z;
  }

  /** ReportFields parses the three pieces between its split points. */
  lemma ReportFieldsAt(body: bytes, s1: nat, s2: nat)
    requires s1 < s2 < |body|
    requires IndexOf(body, SEMICOLON) == s1 && LastIndexOf(body, SEMICOLON) == s2
    ensures ReportFields(body) == SplitFields(body, s1, s2)
  {
  }

  /** Three semicolon-free pieces joined by semicolons are split back into
      the same pieces. */
  lemma SeparatedSplit(x: bytes, y: bytes, z: bytes)
    requires forall j :: 0 <= j < |x| ==> x[j] != SEMICOLON
    requires forall j :: 0 <= j < |y| ==> y[j] != SEMICOLON
    requires forall j :: 0 <= j < |z| ==> z[j] != SEMICOLON
    ensures ReportFields(x + [SEMICOLON] + y + [SEMICOLON] + z) == ParseFields(x, y, z)
  {
    var body := x + [SEMICOLON] + y + [SEMICOLON] + z;
    var s1, s2 := |x|, |x| + 1 + |y|;
    assert ReportFields(body) == SplitFields(body, s1, s2) by {
      SeparatorPositions(x, y, z);
      assert IndexOf(body, SEMICOLON) == s1;
      assert LastIndexOf(body, SEMICOLON) == s2;
      ReportFieldsAt(body, s1, s2);
    }
    assert SplitFields(body, s1, s2) == ParseFields(x, y, z) by {
      SeparatedPieces(x, y, z, body);
    }
  }

  /** The fields are digits and semicolons: never a final byte, never the
      SGR marker '<' and never the X10 marker 'M'. */
  lemma FieldsShape(a: nat, b: nat, c: nat)
    ensures var body := Fields(a, b, c);
      |body| > 0 && IsDigit(body[0])
      && forall j :: 0 <= j < |body| ==> body[j] != UPPER_M && body[j] != LOWER_M
  {
    var body, da := Fields(a, b, c), Decimal(a);
    assert AllDigits(da) && AllDigits(Decimal(b)) && AllDigits(Decimal(c));
    assert body[0] == da[0];
  }

  /** The first final byte of pre + body + [fin] + rest is fin, when pre
      and body hold none. */
  lemma TerminatorAt(pre: bytes, body: bytes, fin: byte, rest: bytes)
    requires forall j :: 0 <= j < |pre| ==> pre[j] != UPPER_M && pre[j] != LOWER_M
    requires forall j :: 0 <= j < |body| ==> body[j] != UPPER_M && body[j] != LOWER_M
    requires fin == UPPER_M || fin == LOWER_M
    ensures var buf := pre + body + [fin] + rest;
      IndexOfTerminator(buf) == |pre| + |body| && buf[|pre|..|pre| + |body|] == body
  {
    var buf := pre + body + [fin] + rest;
    var mi := |pre| + |body|;
    assert forall j :: 0 <= j < mi ==> buf[j] != UPPER_M && buf[j] != LOWER_M by {
      forall j | 0 <= j < mi
        ensures buf[j] != UPPER_M && buf[j] != LOWER_M
      {
        if j < |pre| {
          assert buf[j] == pre[j];
        } else {
          assert buf[j] == body[j - |pre|];
        }
      }
    }
    assert buf[mi] == fin;
    assert buf[|pre|..mi] == body;
  }

  /** The extended branch of parse_mouse_event accepts a CSI prefix (with
      '<' for SGR), a body free of final bytes that holds three integers,
      and a final byte, whatever follows. */
  lemma ExtendedRoundTrip(ev: Event, sgr: bool, body: bytes, fin: byte, rest: bytes, f: (int, int, int))
    requires |body| > 0 && IsDigit(body[0])
    requires forall j :: 0 <= j < |body| ==> body[j] != UPPER_M && body[j] != LOWER_M
    requires fin == UPPER_M || fin == LOWER_M
    requires ReportFields(body) == Some(f)
    ensures var pre := if sgr then [ESC, LBRACKET, LESS] else [ESC, LBRACKET];
      ParseMouseEvent(ev, pre + body + [fin] + rest)
        == Parse(ExtendedEvent(ev, !sgr, fin == UPPER_M, f), |pre| + |body| + 1, true)
  {
    var pre := if sgr then [ESC, LBRACKET, LESS] else [ESC, LBRACKET];
    var buf := pre + body + [fin] + rest;
    var mi := |pre| + |body|;
    TerminatorAt(pre, body, fin, rest);
    assert IndexOfTerminator(buf) == mi;
    assert buf[|pre|..mi] == body;
    CsiStart(sgr, body, fin, rest);
    assert StartsCsi(buf) && !StartsX10(buf) && (buf[2] == LESS) == sgr;
    assert buf[mi] == fin;
    ExtendedAccepts(ev, buf, |pre|, mi, f);
    assert ParseMouseEvent(ev, buf) == Parse(ExtendedEvent(ev, !sgr, fin == UPPER_M, f), mi + 1, true);
  }

  /** How a report buffer begins: the CSI prefix, then '<' exactly for SGR,
      and never the X10 'M'. */
  lemma CsiStart(sgr: bool, body: bytes, fin: byte, rest: bytes)
    requires |body| > 0 && IsDigit(body[0])
    ensures var pre := if sgr then [ESC, LBRACKET, LESS] else [ESC, LBRACKET];
      var buf := pre + body + [fin] + rest;
      StartsCsi(buf) && |buf| > 2 && (buf[2] == LESS) == sgr && !StartsX10(buf)
  {
    var pre := if sgr then [ESC, LBRACKET, LESS] else [ESC, LBRACKET];
    var buf := pre + body + [fin] + rest;
    assert buf[0] == ESC && buf[1] == LBRACKET;
    assert buf[2] == if sgr then LESS else body[0];
  }

  /** A numeral holds no semicolon. */
  lemma NumeralHasNoSeparator(n: nat)
    ensures forall j :: 0 <= j < |Decimal(n)| ==> Decimal(n)[j] != SEMICOLON
  {
  }

  /** The fields of a decimal report parse back to the numbers written. */
  lemma FieldsParse(a: nat, b: nat, c: nat)
    requires a < TWO_63 && b < TWO_63 && c < TWO_63
    ensures ReportFields(Fields(a, b, c)) == Some((a, b, c))
  {
    NumeralHasNoSeparator(a);
    NumeralHasNoSeparator(b);
    NumeralHasNoSeparator(c);
    SeparatedSplit(Decimal(a), Decimal(b), Decimal(c));
    ParseIntDecimal(a);
    ParseIntDecimal(b);
    ParseIntDecimal(c);
  }

  lemma X10RoundTrip(ev: Event, m: Report, rest: bytes)
    requires Encodable(m) && m.dialect == X10
    ensures ParseMouseEvent(ev, EncodeReport(m) + rest) == Parse(Reported(ev, m), |EncodeReport(m)|, true)
  {
    var buf := EncodeReport(m) + rest;
    var b := ButtonCode(m);
    assert buf[3] == 32 + b && buf[4] == 33 + m.x && buf[5] == 33 + m.y;
    assert (buf[3] as int - 32) % 256 == b;
    X10Accepts(ev, buf);
    ButtonCodeBits(m);
  }

  /** parse_mouse_event on an X10 report: the button code and coordinates
      are single bytes offset by 32 (and one-based). */
  lemma X10Accepts(ev: Event, buf: bytes)
    requires StartsX10(buf) && |buf| >= 6
    ensures var b := (buf[3] as int - 32) % 256;
      ParseMouseEvent(ev, buf) == Parse(WithMouse(ev, ButtonKey(b), b, buf[4] as int - 33, buf[5] as int - 33), 6, true)
  {
  }

  /** parse_mouse_event on a CSI buffer that is not X10, whose body, up to
      the first final byte, holds three integers. */
  lemma ExtendedAccepts(ev: Event, buf: bytes, start: nat, mi: nat, f: (int, int, int))
    requires StartsCsi(buf) && !StartsX10(buf)
    requires (start == 2 || start == 3) && start <= mi < |buf|
    requires (start == 3) == (buf[2] == LESS)
    requires IndexOfTerminator(buf) == mi
    requires ReportFields(buf[start..mi]) == Some(f)
    ensures ParseMouseEvent(ev, buf) == Parse(ExtendedEvent(ev, start == 2, buf[mi] == UPPER_M, f), mi + 1, true)
  {
  }

  /** The event of a decimal report is the event the report stands for. */
  lemma ExtendedEventReported(ev: Event, m: Report)
    requires Encodable(m) && m.dialect != X10
    ensures var a := if m.dialect == Urxvt then ButtonCode(m) + 32 else ButtonCode(m);
      ExtendedEvent(ev, m.dialect == Urxvt, !m.up, (a, m.x + 1, m.y + 1)) == Reported(ev, m)
  {
    ButtonCodeBits(m);
  }

  lemma SgrRoundTrip(ev: Event, m: Report, rest: bytes)
    requires Encodable(m) && m.dialect == Sgr
    ensures ParseMouseEvent(ev, EncodeReport(m) + rest) == Parse(Reported(ev, m), |EncodeReport(m)|, true)
  {
    var a, b, c := ButtonCode(m), m.x + 1, m.y + 1;
    var fin: byte := if m.up then LOWER_M else UPPER_M;
    assert EncodeReport(m) + rest == [ESC, LBRACKET, LESS] + Fields(a, b, c) + [fin] + rest;
    FieldsShape(a, b, c);
    FieldsParse(a, b, c);
    ExtendedRoundTrip(ev, true, Fields(a, b, c), fin, rest, (a, b, c));
    ExtendedEventReported(ev, m);
  }

  lemma UrxvtRoundTrip(ev: Event, m: Report, rest: bytes)
    requires Encodable(m) && m.dialect == Urxvt
    ensures ParseMouseEvent(ev, EncodeReport(m) + rest) == Parse(Reported(ev, m), |EncodeReport(m)|, true)
  {
    var a, b, c := ButtonCode(m) + 32, m.x + 1, m.y + 1;
    assert EncodeReport(m) + rest == [ESC, LBRACKET] + Fields(a, b, c) + [UPPER_M] + rest;
    FieldsShape(a, b, c);
    FieldsParse(a, b, c);
    ExtendedRoundTrip(ev, false, Fields(a, b, c), UPPER_M, rest, (a, b, c));
    ExtendedEventReported(ev, m);
  }

  /** parse_mouse_event on an urxvt report with any first field a signed
      64-bit integer can hold, not only the codes a report of this model
      sends: the int64 subtraction of 32 may go below zero, and button and
      motion are read from the bits of the difference. */
  lemma UrxvtAnyCode(ev: Event, a: nat, b: nat, c: nat, rest: bytes)
    requires a < TWO_63 && b < TWO_63 && c < TWO_63
    ensures var body := Fields(a, b, c);
      ParseMouseEvent(ev, [ESC, LBRACKET] + body + [UPPER_M] + rest)
        == Parse(WithMouse(ev, ButtonKey(a - 32), a - 32, b - 1, c - 1), |body| + 3, true)
  {
    FieldsShape(a, b, c);
    FieldsParse(a, b, c);
    ExtendedRoundTrip(ev, false, Fields(a, b, c), UPPER_M, rest, (a, b, c));
    UrxvtEvent(ev, a, b, c);
  }

  lemma UrxvtEvent(ev: Event, a: nat, b: nat, c: nat)
    requires a < TWO_63 && b < TWO_63 && c < TWO_63
    ensures ExtendedEvent(ev, true, true, (a, b, c)) == WithMouse(ev, ButtonKey(a - 32), a - 32, b - 1, c - 1)
  {
    assert Wrap64(a - 32) == a - 32 && Wrap64(b - 1) == b - 1 && Wrap64(c - 1) == c - 1;
  }

  /** A first field below 32 goes negative after the -32, and the
      difference has bits 32 and 64 set: the low two bits then give wheel
      up, wheel down, right or release, always with motion. */
  lemma UrxvtLowCode(a: nat)
    requires a < 32
    ensures HasBit(a - 32, 32) && HasBit(a - 32, 64)
    ensures ButtonKey(a - 32)
      == if a % 4 == 0 then MouseWheelUp else if a % 4 == 1 then MouseWheelDown
         else if a % 4 == 2 then MouseRight else MouseRelease
  {
    assert (a - 32) / 32 == -1 && (a - 32) / 64 == -1;
    assert (a - 32) % 4 == a % 4;
  }

  /** What the package's mouse test checks of a decoded event: the key,
      the motion flag and the zero-based position. */
  predicate Shows(p: Parse, key: Key, motion: bool, x: int, y: int) {
    p.ok && p.ev.key == key && HasBit(p.ev.mod, ModMotion) == motion
    && p.ev.mouseX == x && p.ev.mouseY == y
  }

  /** One urxvt report ESC [ a ; b ; c M on its own, decoded from the zero
      event. */
  lemma UrxvtShows(a: nat, b: nat, c: nat, key: Key, motion: bool)
    requires a < TWO_63 && 1 <= b < TWO_63 && 1 <= c < TWO_63
    requires ButtonKey(a - 32) == key && HasBit(a - 32, 32) == motion
    ensures Shows(ParseMouseEvent(ZeroEvent, [ESC, LBRACKET] + Fields(a, b, c) + [UPPER_M]), key, motion, b - 1, c - 1)
  {
    var s := [ESC, LBRACKET] + Fields(a, b, c) + [UPPER_M];
    UrxvtAnyCode(ZeroEvent, a, b, c, []);
    assert s + [] == s;
    MotionReported(ZeroEvent, ButtonKey(a - 32), a - 32, b - 1, c - 1);
  }

  /** An event with no modifier gets the motion flag from a mouse report
      exactly when the report's button code has bit 32. */
  lemma MotionReported(ev: Event, key: Key, b: int, x: int, y: int)
    requires ev.mod == 0
    ensures HasBit(WithMouse(ev, key, b, x, y).mod, ModMotion) == HasBit(b, 32)
  {
    assert !HasBit(0, ModMotion);
  }

  /** The urxvt rows of the package's mouse test: the three fields of the
      report, the key and whether motion is reported. The fields 20, 21,
      10 and 11 are below 32 and go negative after the -32. */
  const UrxvtTable: seq<(nat, nat, nat, Key, bool)> := [
    (20, 49, 13, MouseWheelUp, true), (244, 49, 13, MouseWheelUp, false),
    (21, 49, 13, MouseWheelDown, true), (245, 49, 13, MouseWheelDown, false),
    (32, 49, 13, MouseLeft, false), (64, 100, 2, MouseLeft, true),
    (10, 49, 13, MouseRight, true), (42, 49, 13, MouseRight, false),
    (11, 49, 13, MouseRelease, true), (43, 49, 13, MouseRelease, false),
    (33, 49, 13, MouseMiddle, false), (65, 49, 13, MouseMiddle, true)]

  /** The button code each urxvt test row carries, after the -32, is the
      expected key, and its motion bit is the expected motion flag. */
  lemma UrxvtTestCodes(i: nat)
    requires i < |UrxvtTable|
    ensures var (a, b, c, key, motion) := UrxvtTable[i];
      ButtonKey(a as int - 32) == key && HasBit(a as int - 32, 32) == motion && b >= 1 && c >= 1
  {
    var a := UrxvtTable[i].0;
    if a < 32 {
      UrxvtLowCode(a);
    }
  }

  /** Every urxvt row of the package's mouse test decodes to the key, the
      motion flag and the zero-based position the test expects. */
  lemma UrxvtTestRows(i: nat)
    requires i < |UrxvtTable|
    ensures var (a, b, c, key, motion) := UrxvtTable[i];
      Shows(ParseMouseEvent(ZeroEvent, [ESC, LBRACKET] + Fields(a, b, c) + [UPPER_M]), key, motion, b as int - 1, c as int - 1)
  {
    UrxvtTestCodes(i);
    var (a, b, c, key, motion) := UrxvtTable[i];
    UrxvtShows(a, b, c, key, motion);
  }

  /** parse_mouse_event reads every report of every dialect back, whatever
      follows it in the buffer, and consumes exactly the report. */
  lemma MouseRoundTrip(ev: Event, m: Report, rest: bytes)
    requires Encodable(m)
    ensures ParseMouseEvent(ev, EncodeReport(m) + rest) == Parse(Reported(ev, m), |EncodeReport(m)|, true)
  {
    match m.dialect
    case X10 => X10RoundTrip(ev, m, rest);
    case Sgr => SgrRoundTrip(ev, m, rest);
    case Urxvt => UrxvtRoundTrip(ev, m, rest);
  }

  /** parse_mouse_event's consumed count does not depend on the event it fills. */
  lemma MouseLengthIndependent(ev: Event, buf: bytes)
    ensures ParseMouseEvent(ev, buf).n == ParseMouseEvent(ZeroEvent, buf).n
  {
  }

  /** A user action, as the terminal reports it. */
  datatype Input =
    | Control(k: byte)       // a control byte, space or DEL
    | Char(r: rune)          // a printable character
    | TermKey(i: nat)        // the i-th key sequence of the terminfo table
    | Mouse(m: Report)
    | Escape                 // a lone ESC, in Esc mode
    | Alt(inner: Input)      // ESC followed by an action, in Alt mode

  predicate Sendable(keys: seq<bytes>, a: Input) {
    match a
    case TermKey(i) => i < |keys|
    case Mouse(m) => Encodable(m)
    case Alt(inner) => Sendable(keys, inner)
    case _ => true
  }

  /** The bytes the terminal sends for an action. */
  function Encode(keys: seq<bytes>, a: Input): (s: bytes)
    requires Sendable(keys, a)
  {
    match a
    case Control(k) => [k]
    case Char(r) => EncodeRune(r)
    case TermKey(i) => keys[i]
    case Mouse(m) => EncodeReport(m)
    case Escape => [ESC]
    case Alt(inner) => [ESC] + Encode(keys, inner)
  }

  /** The event that names an action, written into ev, with N the length
      of the action's encoding. */
  function Expected(keys: seq<bytes>, a: Input, ev: Event): (e: Event)
    requires Sendable(keys, a)
    ensures e.n == |Encode(keys, a)|
  {
    match a
    case Control(k) => ev.(ch := 0, key := k, n := 1)
    case Char(r) => ev.(ch := r, key := 0, n := |EncodeRune(r)|)
    case TermKey(i) => ev.(ch := 0, key := TableKey(i), n := |keys[i]|)
    case Mouse(m) => Reported(ev, m).(n := |EncodeReport(m)|)
    case Escape => ev.(ch := 0, key := KeyEsc, mod := 0, n := 1)
    case Alt(inner) =>
      var e := Expected(keys, inner, ev.(mod := ModAlt));
      e.(n := e.n + 1)
  }

  /** An ESC that starts neither a key of the table nor a mouse report. */
  predicate LoneEscape(keys: seq<bytes>, buf: bytes) {
    FirstKeyMatch(keys, buf) == -1 && ParseMouseEvent(ZeroEvent, buf).n == 0
  }

  /** When the decoder can tell an action apart from what follows it: a
      control byte other than ESC, a scalar value above space other than
      DEL and RuneError, a table key that is the first entry matching, a
      mouse report that no table key shadows, and an ESC (alone in Esc mode,
      or as the Alt prefix) that starts no recognised sequence. */
  predicate Distinguishable(keys: seq<bytes>, mode: int, a: Input, rest: bytes)
    requires Sendable(keys, a)
  {
    match a
    case Control(k) => k != ESC && (k <= KeySpace || k == KeyBackspace2)
    case Char(r) => ValidRune(r) && r != RuneError && KeySpace < r && r != KeyBackspace2
    case TermKey(i) => |keys[i]| > 0 && keys[i][0] == ESC && FirstKeyMatch(keys, keys[i] + rest) == i
    case Mouse(m) => FirstKeyMatch(keys, EncodeReport(m) + rest) == -1
    case Escape => HasBit(mode, InputEsc) && LoneEscape(keys, [ESC] + rest)
    case Alt(inner) =>
      !HasBit(mode, InputEsc) && LoneEscape(keys, [ESC] + Encode(keys, inner) + rest)
      && Distinguishable(keys, mode, inner, rest)
  }

  // One lemma per kind of action; each states the goal of DecodesAction
  // in the same terms, so that the case split there is immediate.

  lemma DecodesControl(keys: seq<bytes>, mode: int, a: Input, rest: bytes, ev: Event)
    requires a.Control? && ModeDecodes(mode) && Distinguishable(keys, mode, a, rest)
    ensures ExtractEvent(keys, mode, Encode(keys, a) + rest, ev) == (Expected(keys, a, ev), true)
  {
  }

  lemma DecodesChar(keys: seq<bytes>, mode: int, a: Input, rest: bytes, ev: Event)
    requires a.Char? && ModeDecodes(mode) && Distinguishable(keys, mode, a, rest)
    ensures ExtractEvent(keys, mode, Encode(keys, a) + rest, ev) == (Expected(keys, a, ev), true)
  {
    DecodeEncode(a.r, rest);
    var buf := EncodeRune(a.r) + rest;
    assert buf[0] == EncodeRune(a.r)[0];
  }

  /** extract_event's last case: a byte that is not ESC, a control byte or
      DEL, and from which DecodeRune reads RuneError, is not decoded; nothing
      is consumed and the event is left as it was. */
  lemma RejectsMalformed(keys: seq<bytes>, mode: int, buf: bytes, ev: Event)
    requires ModeDecodes(mode) && |buf| > 0 && buf[0] != ESC && buf[0] > KeySpace && buf[0] != KeyBackspace2
    requires DecodeRune(buf).0 == RuneError
    ensures ExtractEvent(keys, mode, buf, ev) == (ev, false)
  {
  }

  /** Outside the ESC branch, decoding fails exactly on an empty buffer or on
      a byte of that last case. */
  lemma FailsOnlyOnRuneError(keys: seq<bytes>, mode: int, buf: bytes, ev: Event)
    requires ModeDecodes(mode) && (|buf| == 0 || buf[0] != ESC)
    ensures !ExtractEvent(keys, mode, buf, ev).1 <==>
      |buf| == 0 || (buf[0] > KeySpace && buf[0] != KeyBackspace2 && DecodeRune(buf).0 == RuneError)
  {
  }

  /** A stray continuation byte, a byte that never starts UTF-8, or a lead
      byte whose sequence is cut short is rejected; so is a rune split
      across two reads until its last byte arrives. */
  lemma RejectsBadLead(keys: seq<bytes>, mode: int, buf: bytes, ev: Event)
    requires ModeDecodes(mode) && |buf| > 0 && buf[0] >= 0x80
    requires SequenceLength(buf[0]) == 0 || |buf| < SequenceLength(buf[0])
    ensures ExtractEvent(keys, mode, buf, ev) == (ev, false)
  {
    assert DecodeRune(buf).0 == RuneError;
    RejectsMalformed(keys, mode, buf, ev);
  }

  lemma DecodesTermKey(keys: seq<bytes>, mode: int, a: Input, rest: bytes, ev: Event)
    requires a.TermKey? && ModeDecodes(mode) && Sendable(keys, a) && Distinguishable(keys, mode, a, rest)
    ensures ExtractEvent(keys, mode, Encode(keys, a) + rest, ev) == (Expected(keys, a, ev), true)
  {
    var buf := keys[a.i] + rest;
    assert buf[0] == keys[a.i][0];
  }

  lemma DecodesMouse(keys: seq<bytes>, mode: int, a: Input, rest: bytes, ev: Event)
    requires a.Mouse? && ModeDecodes(mode) && Sendable(keys, a) && Distinguishable(keys, mode, a, rest)
    ensures ExtractEvent(keys, mode, Encode(keys, a) + rest, ev) == (Expected(keys, a, ev), true)
  {
    MouseRoundTrip(ev, a.m, rest);
    var buf := EncodeReport(a.m) + rest;
    assert buf[0] == EncodeReport(a.m)[0];
  }

  lemma DecodesEscape(keys: seq<bytes>, mode: int, a: Input, rest: bytes, ev: Event)
    requires a.Escape? && ModeDecodes(mode) && Distinguishable(keys, mode, a, rest)
    ensures ExtractEvent(keys, mode, Encode(keys, a) + rest, ev) == (Expected(keys, a, ev), true)
  {
    MouseLengthIndependent(ev, [ESC] + rest);
  }

  /** The Alt step of extract_event: an ESC that starts no sequence, in Alt
      mode, marks the event decoded from the rest with ModAlt. */
  lemma DecodesAltPrefix(keys: seq<bytes>, mode: int, tail: bytes, ev: Event, e: Event)
    requires ModeDecodes(mode) && !HasBit(mode, InputEsc) && LoneEscape(keys, [ESC] + tail)
    requires ExtractEvent(keys, mode, tail, ev.(mod := ModAlt)) == (e, true)
    ensures ExtractEvent(keys, mode, [ESC] + tail, ev) == (e.(n := e.n + 1), true)
  {
    MouseLengthIndependent(ev, [ESC] + tail);
    assert ([ESC] + tail)[1..] == tail;
  }

  /** How an Alt action unfolds: its encoding is ESC before the inner
      encoding, and its event is the inner event, with ModAlt, one byte longer. */
  lemma AltUnfolds(keys: seq<bytes>, mode: int, a: Input, rest: bytes, ev: Event)
    requires a.Alt? && Sendable(keys, a) && Distinguishable(keys, mode, a, rest)
    ensures var tail := Encode(keys, a.inner) + rest;
      var e := Expected(keys, a.inner, ev.(mod := ModAlt));
      Encode(keys, a) + rest == [ESC] + tail
      && !HasBit(mode, InputEsc) && LoneEscape(keys, [ESC] + tail)
      && Distinguishable(keys, mode, a.inner, rest)
      && Expected(keys, a, ev) == e.(n := e.n + 1)
  {
    assert [ESC] + Encode(keys, a.inner) + rest == [ESC] + (Encode(keys, a.inner) + rest);
  }

  /** extract_event reads every distinguishable action back as the event
      that names it, consuming exactly its encoding. */
  lemma {:induction false} DecodesAction(keys: seq<bytes>, mode: int, a: Input, rest: bytes, ev: Event)
    requires ModeDecodes(mode) && Sendable(keys, a) && Distinguishable(keys, mode, a, rest)
    ensures ExtractEvent(keys, mode, Encode(keys, a) + rest, ev) == (Expected(keys, a, ev), true)
    decreases a
  {
    if a.Control? {
      DecodesControl(keys, mode, a, rest, ev);
    } else if a.Char? {
      DecodesChar(keys, mode, a, rest, ev);
    } else if a.TermKey? {
      DecodesTermKey(keys, mode, a, rest, ev);
    } else if a.Mouse? {
      DecodesMouse(keys, mode, a, rest, ev);
    } else if a.Escape? {
      DecodesEscape(keys, mode, a, rest, ev);
    } else {
      var ev' := ev.(mod := ModAlt);
      var tail := Encode(keys, a.inner) + rest;
      var e := Expected(keys, a.inner, ev');
      AltUnfolds(keys, mode, a, rest, ev);
      assert Encode(keys, a) + rest == [ESC] + tail;
      assert Expected(keys, a, ev) == e.(n := e.n + 1);
      DecodesAction(keys, mode, a.inner, rest, ev');
      assert ExtractEvent(keys, mode, tail, ev') == (e, true);
      DecodesAltPrefix(keys, mode, tail, ev, e);
      assert ExtractEvent(keys, mode, [ESC] + tail, ev) == (e.(n := e.n + 1), true);
    }
  }

  /** ParseEvent reads a distinguishable action back as the key or mouse
      event that names it. */
  lemma ParseEventDecodes(keys: seq<bytes>, mode: int, a: Input, rest: bytes)
    requires ModeDecodes(mode) && Sendable(keys, a) && Distinguishable(keys, mode, a, rest)
    ensures ParseEvent(keys, mode, Encode(keys, a) + rest) == Expected(keys, a, ZeroEvent)
  {
    DecodesAction(keys, mode, a, rest, ZeroEvent);
  }
}
