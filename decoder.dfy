/** The input escape decoder of termbox.go: extract_event classifies a prefix
    of the unread input as a control key, a UTF-8 rune, a terminfo key or one
    of three mouse report dialects (X10, SGR-1006 and urxvt-1015 from xterm's
    "Control Sequences" document, section Mouse Tracking), and says how many
    bytes it used. The Go code fills an out-parameter *Event only partly, so
    the event is threaded through every function here as a value. */
module Decoder {
  import opened Bytes
  import opened Utf8
  import opened Termbox

  /** The (event, bytes consumed, success) triple of parse_mouse_event and
      parse_escape_sequence. */
  datatype Parse = Parse(ev: Event, n: int, ok: bool)

  /** bytes.HasPrefix(buf, "\033[") */
  predicate StartsCsi(buf: bytes) {
    |buf| >= 2 && buf[0] == ESC && buf[1] == LBRACKET
  }

  /** bytes.HasPrefix(buf, "\033[M") */
  predicate StartsX10(buf: bytes) {
    StartsCsi(buf) && |buf| >= 3 && buf[2] == UPPER_M
  }

  /** Button identity from a button code: the low two bits select left,
      middle, right or release, and bit 64 turns left and middle into the
      wheel. For a negative code, b % 4 and HasBit read the bits of its
      two's complement pattern, as Go's & does (Termbox.TwosComplementBit). */
  function ButtonKey(b: int): (r: Key)
    ensures MouseWheelDown <= r <= MouseLeft
    ensures r == MouseRelease <==> b % 4 == 3
    ensures r == MouseRight <==> b % 4 == 2
    ensures (r == MouseWheelUp || r == MouseWheelDown) <==> b % 4 < 2 && HasBit(b, 64)
  {
    var low := b % 4;
    if low == 0 then (if HasBit(b, 64) then MouseWheelUp else MouseLeft)
    else if low == 1 then (if HasBit(b, 64) then MouseWheelDown else MouseMiddle)
    else if low == 2 then MouseRight
    else MouseRelease
  }

  /** event.Mod |= ModMotion */
  function WithMotion(m: Modifier): (r: Modifier)
    ensures HasBit(r, ModMotion)
    ensures HasBit(r, ModAlt) == HasBit(m, ModAlt)
  {
    if HasBit(m, ModMotion) then m else m + ModMotion
  }

  /** The fields a successful mouse parse writes: type, key, the motion
      modifier (bit 32 of the button code) and the zero-based position. */
  function WithMouse(ev: Event, key: Key, b: int, x: int, y: int): Event {
    ev.(kind := EventMouse, key := key,
        mod := if HasBit(b, 32) then WithMotion(ev.mod) else ev.mod,
        mouseX := x, mouseY := y)
  }

  /** parse_mouse_event */
  function ParseMouseEvent(ev: Event, buf: bytes): (r: Parse)
    ensures 0 <= r.n <= |buf|
    ensures r.ok ==> r.ev.kind == EventMouse && r.ev.n == ev.n
    ensures r.ok <==> r.n > 0
    ensures !r.ok ==> r.ev == ev
  {
    if StartsX10(buf) && |buf| >= 6 then
      // ESC [ M Cb Cx Cy; Cb - 32 is a byte subtraction and wraps
      var cb: int, cx: int, cy: int := buf[3], buf[4], buf[5];
      var b := (cb - 32) % 256;
      Parse(WithMouse(ev, ButtonKey(b), b, cx - 1 - 32, cy - 1 - 32), 6, true)
    else if StartsCsi(buf) then
      ParseExtendedMouse(ev, buf)
    else
      Parse(ev, 0, false)
  }

  /** The SGR-1006 (ESC [ < Cb ; Cx ; Cy M|m) and urxvt-1015
      (ESC [ Cb ; Cx ; Cy M) branch of parse_mouse_event. */
  function ParseExtendedMouse(ev: Event, buf: bytes): (r: Parse)
    requires StartsCsi(buf)
    ensures 0 <= r.n <= |buf|
    ensures r.ok <==> r.n > 0
    ensures !r.ok ==> r.ev == ev
    ensures var mi := IndexOfTerminator(buf);
      r.ok <==> mi >= 0 && ReportFields(ReportBody(buf, mi)).Some?
  {
    var mi := IndexOfTerminator(buf);
    if mi == -1 then Parse(ev, 0, false)
    else
      var isM := buf[mi] == UPPER_M;
      var isU := buf[2] != LESS;
      var fields := ReportFields(ReportBody(buf, mi));
      if fields.None? then Parse(ev, 0, false)
      else
        Parse(ExtendedEvent(ev, isU, isM, fields.value), mi + 1, true)
  }

  /** What an extended report holds between its prefix (ESC [ < for SGR,
      ESC [ for urxvt) and its final byte at mi. */
  function ReportBody(buf: bytes, mi: int): bytes
    requires StartsCsi(buf) && 2 <= mi < |buf| && (buf[mi] == UPPER_M || buf[mi] == LOWER_M)
  {
    if buf[2] == LESS then buf[3..mi] else buf[2..mi]
  }

  /** The event an extended report describes. urxvt adds 32 to the button
      code as X10 does, and the int64 subtraction may go negative; a
      lowercase final byte is a release. */
  function ExtendedEvent(ev: Event, isU: bool, isM: bool, fields: (int, int, int)): (r: Event)
    ensures r.kind == EventMouse && r.ch == ev.ch && r.n == ev.n
    ensures !isM ==> r.key == MouseRelease
    ensures r.mouseX == Wrap64(fields.1 - 1) && r.mouseY == Wrap64(fields.2 - 1)
  {
    var (f1, f2, f3) := fields;
    var n1 := if isU then Wrap64(f1 - 32) else f1;
    var key := if isM then ButtonKey(n1) else MouseRelease;
    WithMouse(ev, key, n1, Wrap64(f2 - 1), Wrap64(f3 - 1))
  }

  /** The three integers of an extended report body, split at its first and
      its last semicolon; None when there are not two distinct semicolons or
      a field is not a signed 64-bit decimal integer. */
  function ReportFields(body: bytes): (r: Option<(int, int, int)>)
    ensures var s1, s2 := IndexOf(body, SEMICOLON), LastIndexOf(body, SEMICOLON);
      r.Some? <==> (0 <= s1 < s2 && ParseInt(body[..s1]).Some?
                    && ParseInt(body[s1 + 1..s2]).Some? && ParseInt(body[s2 + 1..]).Some?)
  {
    FirstBeforeLast(body, SEMICOLON);
    SplitFields(body, IndexOf(body, SEMICOLON), LastIndexOf(body, SEMICOLON))
  }

  /** The fields around the first (s1) and the last (s2) semicolon. */
  function SplitFields(body: bytes, s1: int, s2: int): Option<(int, int, int)>
    requires -1 <= s1 <= s2 < |body| && (s1 == -1 <==> s2 == -1)
  {
    if s1 == -1 || s2 == -1 || s1 == s2 then None
    else ParseFields(body[..s1], body[s1 + 1..s2], body[s2 + 1..])
  }

  function ParseFields(x: bytes, y: bytes, z: bytes): Option<(int, int, int)> {
    var f1, f2, f3 := ParseInt(x), ParseInt(y), ParseInt(z);
    if f1.None? || f2.None? || f3.None? then None
    else Some((f1.value, f2.value, f3.value))
  }

  /** The first entry of the terminfo key table, in table order, that is a
      prefix of buf; -1 when there is none. */
  function FirstKeyMatch(keys: seq<bytes>, buf: bytes): (r: int)
    ensures -1 <= r < |keys|
    ensures r >= 0 ==> IsPrefix(keys[r], buf) && forall j :: 0 <= j < r ==> !IsPrefix(keys[j], buf)
    ensures r == -1 ==> forall j :: 0 <= j < |keys| ==> !IsPrefix(keys[j], buf)
  {
    if |keys| == 0 then -1
    else if IsPrefix(keys[0], buf) then 0
    else
      var k := FirstKeyMatch(keys[1..], buf);
      if k == -1 then -1 else k + 1
  }

  /** The same first-match search, written as the loop of parse_escape_sequence. */
  method ScanKeyTable(keys: seq<bytes>, buf: bytes) returns (found: int)
    ensures -1 <= found < |keys|
    ensures found >= 0 ==> IsPrefix(keys[found], buf) && forall j :: 0 <= j < found ==> !IsPrefix(keys[j], buf)
    ensures found == -1 ==> forall j :: 0 <= j < |keys| ==> !IsPrefix(keys[j], buf)
  {
    var i := 0;
    while i < |keys|
      invariant 0 <= i <= |keys|
      invariant forall j :: 0 <= j < i ==> !IsPrefix(keys[j], buf)
    {
      if IsPrefix(keys[i], buf) {
        return i;
      }
      i := i + 1;
    }
    return -1;
  }

  /** parse_escape_sequence: the key table first, then the mouse dialects. */
  function ParseEscapeSequence(keys: seq<bytes>, ev: Event, buf: bytes): (r: Parse)
    ensures 0 <= r.n <= |buf|
    ensures r.n > 0 ==> r.ok
    ensures r.ev.kind == ev.kind || r.ev.kind == EventMouse
    ensures r.ev.n == ev.n
  {
    var i := FirstKeyMatch(keys, buf);
    if i >= 0 then Parse(ev.(ch := 0, key := TableKey(i)), |keys[i]|, true)
    else ParseMouseEvent(ev, buf)
  }

  /** extract_event's panic("unreachable"): the input mode always has the Esc
      or the Alt bit (SetInputMode guarantees it). */
  predicate ModeDecodes(mode: int) {
    HasBit(mode, InputEsc) || HasBit(mode, InputAlt)
  }

  /** extract_event: decode one event from the front of buf. Starting from an
      event whose N is 0, the consumed count lies within the buffer, the
      decode succeeds exactly when it consumes something, and a success is
      a key event (or a mouse event) as the event passed in was. */
  function ExtractEvent(keys: seq<bytes>, mode: int, buf: bytes, ev: Event): (r: (Event, bool))
    requires ModeDecodes(mode)
    ensures ev.n == 0 ==> 0 <= r.0.n <= |buf| && (r.1 <==> r.0.n > 0)
    ensures r.1 ==> r.0.kind == ev.kind || r.0.kind == EventMouse
    decreases |buf|, 1
  {
    if |buf| == 0 then (ev.(n := 0), false)
    else if buf[0] == ESC then ExtractEscape(keys, mode, buf, ev)
    else if buf[0] <= KeySpace || buf[0] == KeyBackspace2 then
      (ev.(ch := 0, key := buf[0], n := 1), true)
    else
      var (ch, size) := DecodeRune(buf);
      if ch != RuneError then (ev.(ch := ch, key := 0, n := size), true)
      else (ev, false)
  }

  /** The ESC branch of extract_event: a key of the table or a mouse report;
      failing those, the escape key in Esc mode, or in Alt mode the event
      that follows, marked with ModAlt. */
  function ExtractEscape(keys: seq<bytes>, mode: int, buf: bytes, ev: Event): (r: (Event, bool))
    requires ModeDecodes(mode) && |buf| > 0 && buf[0] == ESC
    ensures ev.n == 0 ==> 0 <= r.0.n <= |buf| && (r.1 <==> r.0.n > 0)
    ensures r.1 ==> r.0.kind == ev.kind || r.0.kind == EventMouse
    decreases |buf|, 0
  {
    var p := ParseEscapeSequence(keys, ev, buf);
    if p.n != 0 then (p.ev.(n := p.n), p.ok)
    else if HasBit(mode, InputEsc) then (p.ev.(ch := 0, key := KeyEsc, mod := 0, n := 1), true)
    else
      var inner := ExtractEvent(keys, mode, buf[1..], p.ev.(mod := ModAlt));
      if inner.1 then (inner.0.(n := inner.0.n + 1), true) else (inner.0.(n := 0), false)
  }

  /** ParseEvent: decode from a fresh key event; a failure is EventNone
      carrying N, and N is then always 0. A success is a key or mouse event
      that consumed part of the data. */
  function ParseEvent(keys: seq<bytes>, mode: int, data: bytes): (r: Event)
    requires ModeDecodes(mode)
    ensures r.kind == EventNone <==> !ExtractEvent(keys, mode, data, ZeroEvent).1
    ensures r.kind == EventNone ==> r.n == 0
    ensures r.kind != EventNone ==> (r.kind == EventKey || r.kind == EventMouse) && 0 < r.n <= |data|
  {
    var (e, ok) := ExtractEvent(keys, mode, data, ZeroEvent);
    if !ok then ZeroEvent.(kind := EventNone, n := e.n) else e
  }
}
