/** The output side of termbox.go and the diff pass of Flush in api.go, as
    functions over values: the output buffer with the last attributes and
    cursor position written, and one pass over the back and front buffers
    that sends only the cells that differ. The TermClient methods in
    client.dfy are proved to compute exactly these functions. */
module Render {
  import opened Bytes
  import opened Utf8
  import opened Termbox
  import opened Escapes
  import opened Grid

  const CoordInvalid: int := -2
  const AttrInvalid: Attribute := 0xFFFF

  /** The bytes written so far and what send_attr and send_char remember. */
  datatype Out = Out(buf: bytes, lastfg: Attribute, lastbg: Attribute, lastx: int, lasty: int)

  /** What the pass needs besides the buffers: the terminfo strings, the
      bytes send_attr writes for an attribute pair (which depend on the
      output mode; the client supplies Escapes.AttrBytes), the runes
      runewidth.RuneWidth reports two columns wide, and those
      runewidth.IsAmbiguousWidth reports ambiguous (both taken as given). */
  datatype Env = Env(funcs: Funcs, attr: (Attribute, Attribute) -> bytes, wide: set<rune>, ambiguous: set<rune>)

  /** send_attr: nothing when the pair is the one last sent, otherwise the
      attribute bytes, and the pair is remembered. */
  function SendAttr(env: Env, o: Out, fg: Attribute, bg: Attribute): (r: Out)
    ensures r.lastfg == fg && r.lastbg == bg && r.lastx == o.lastx && r.lasty == o.lasty
    ensures IsPrefix(o.buf, r.buf)
    ensures fg == o.lastfg && bg == o.lastbg ==> r == o
  {
    if fg == o.lastfg && bg == o.lastbg then o
    else o.(buf := o.buf + env.attr(fg, bg), lastfg := fg, lastbg := bg)
  }

  /** send_char: a cursor move unless the cell is the one right after the
      last one written, then the rune's UTF-8 bytes. */
  function SendChar(o: Out, x: int, y: int, ch: rune): (r: Out)
    ensures r.lastx == x && r.lasty == y && r.lastfg == o.lastfg && r.lastbg == o.lastbg
    ensures IsPrefix(o.buf, r.buf)
  {
    var cup := if x - 1 != o.lastx || y != o.lasty then Cup(x, y) else [];
    o.(buf := o.buf + cup + EncodeRune(ch), lastx := x, lasty := y)
  }

  /** Sending the same attribute pair twice writes it once. */
  lemma SendAttrIdempotent(env: Env, o: Out, fg: Attribute, bg: Attribute)
    ensures SendAttr(env, SendAttr(env, o, fg, bg), fg, bg) == SendAttr(env, o, fg, bg)
  {
  }

  /** Characters written left to right along a row need one cursor move,
      before the first of them. */
  lemma SendCharAdjacent(o: Out, x: int, y: int, a: rune, b: rune)
    ensures SendChar(SendChar(o, x, y, a), x + 1, y, b).buf == SendChar(o, x, y, a).buf + EncodeRune(b)
  {
  }

  /** What send_char appends, read back: the cursor move to (x, y) when
      one is written, and the rune itself when it is a scalar value. */
  lemma SendCharReads(o: Out, x: nat, y: nat, ch: rune)
    requires ValidRune(ch) && x + 1 < TWO_64 && y + 1 < TWO_64
    ensures var added := SendChar(o, x, y, ch).buf[|o.buf|..];
      if x - 1 != o.lastx || y != o.lasty then
        |Cup(x, y)| <= |added| && ReadCsi(added[..|Cup(x, y)|]) == Some(([y + 1, x + 1], UPPER_H))
        && DecodeRune(added[|Cup(x, y)|..]) == (ch, |added| - |Cup(x, y)|)
      else DecodeRune(added) == (ch, |added|)
  {
    var added := SendChar(o, x, y, ch).buf[|o.buf|..];
    if x - 1 != o.lastx || y != o.lasty {
      var cup := Cup(x, y);
      assert added == cup + EncodeRune(ch);
      assert DecodeRune(added[|cup|..]) == (ch, |added| - |cup|) by {
        assert added[|cup|..] == EncodeRune(ch) + [];
        DecodeEncode(ch, []);
      }
      assert added[..|cup|] == cup;
      assert ReadCsi(cup) == Some(([y + 1, x + 1], UPPER_H)) by {
        CupReads(x, y);
        assert U64(y + 1) == y + 1 && U64(x + 1) == x + 1;
      }
    } else {
      assert added == EncodeRune(ch) + [];
      DecodeEncode(ch, []);
    }
  }

  /** The width the pass steps by: RuneWidth, with 0 and an ambiguous 2
      counted as 1, so that only an unambiguous wide rune takes two. */
  function CellWidth(env: Env, ch: rune): (r: nat)
    ensures r == 1 || r == 2
  {
    if ch in env.wide && ch !in env.ambiguous then 2 else 1
  }

  /** A control character in the back buffer is written as a space. */
  function Printable(c: Cell): (r: Cell)
    ensures r.ch >= ' ' as rune && r.fg == c.fg && r.bg == c.bg
    ensures c.ch >= ' ' as rune ==> r == c
    ensures c.ch < ' ' as rune ==> r.ch == ' ' as rune
  {
    if c.ch < ' ' as rune then c.(ch := ' ' as rune) else c
  }

  /** The back buffer, the front buffer (what the terminal shows) and the output. */
  datatype Frame = Frame(back: seq<Cell>, front: seq<Cell>, out: Out)

  predicate Fits(w: nat, h: nat, f: Frame) {
    |f.back| == RowStart(w, h) && |f.front| == RowStart(w, h)
  }

  /** One cell of the pass: the back cell made printable; equal cells are
      skipped; a differing one is copied to the front, its attributes and
      glyph are sent (a space for a wide glyph in the last column), and a
      wide glyph blanks the front cell it covers. The second component is
      the width to step by. */
  function Step(env: Env, w: nat, h: nat, f: Frame, x: nat, y: nat): (r: (Frame, nat))
    requires Fits(w, h, f) && x < w && y < h
    ensures Fits(w, h, r.0) && r.1 >= 1
  {
    OffsetInRange(w, h, x, y);
    var i := Offset(w, x, y);
    var b := Printable(f.back[i]);
    var cw := CellWidth(env, b.ch);
    var back := f.back[i := b];
    if b == f.front[i] then (f.(back := back), cw)
    else
      var front := f.front[i := b];
      var o := SendAttr(env, f.out, b.fg, b.bg);
      if cw == 2 && x == w - 1 then (Frame(back, front, SendChar(o, x, y, ' ' as rune)), cw)
      else if cw == 2 then
        OffsetInRange(w, h, x + 1, y);
        (Frame(back, front[i + 1 := Cell(0, b.fg, b.bg)], SendChar(o, x, y, b.ch)), cw)
      else (Frame(back, front, SendChar(o, x, y, b.ch)), cw)
  }

  /** The rest of the pass from column x of row y: row by row, stepping
      along each row by the width of each cell. */
  function Pass(env: Env, w: nat, h: nat, f: Frame, x: nat, y: nat): (r: Frame)
    requires Fits(w, h, f) && y <= h
    ensures Fits(w, h, r)
    decreases h - y, w - x
  {
    if y >= h then f
    else if x >= w then Pass(env, w, h, f, 0, y + 1)
    else
      var s := Step(env, w, h, f, x, y);
      Pass(env, w, h, s.0, x + s.1, y)
  }

  /** What a step sends and where a wide glyph lands: a cell the front
      already shows sends nothing and leaves the front alone; a differing
      cell sends its attribute pair then its glyph at (x, y); a wide glyph
      in the last column is sent as a space; a wide glyph elsewhere turns
      the front cell it covers into Cell{0, fg, bg}, and only that one. */
  lemma StepWrites(env: Env, w: nat, h: nat, f: Frame, x: nat, y: nat)
    requires Fits(w, h, f) && x < w && y < h
    ensures var (r, cw) := Step(env, w, h, f, x, y);
      var i := Offset(w, x, y);
      0 <= i < |f.back| &&
      var b := Printable(f.back[i]);
      var o := SendAttr(env, f.out, b.fg, b.bg);
      (b == f.front[i] ==> r.out == f.out && r.front == f.front)
      && (b != f.front[i] && cw == 2 && x == w - 1 ==>
            r.out == SendChar(o, x, y, ' ' as rune) && r.front == f.front[i := b]
            && r.out.buf[|r.out.buf| - 1] == SPACE)
      && (b != f.front[i] && cw == 2 && x < w - 1 ==>
            i + 1 < |f.front| && r.out == SendChar(o, x, y, b.ch)
            && r.front == f.front[i := b][i + 1 := Cell(0, b.fg, b.bg)])
      && (b != f.front[i] && cw == 1 ==> r.out == SendChar(o, x, y, b.ch) && r.front == f.front[i := b])
  {
    OffsetInRange(w, h, x, y);
    var i := Offset(w, x, y);
    var b := Printable(f.back[i]);
    if b != f.front[i] && CellWidth(env, b.ch) == 2 && x < w - 1 {
      OffsetInRange(w, h, x + 1, y);
    }
  }

  /** The pass from a cell is the step there followed by the pass from
      the next cell. */
  lemma PassAfterStep(env: Env, w: nat, h: nat, f: Frame, g: Frame, x: nat, y: nat, cw: nat)
    requires Fits(w, h, f) && x < w && y < h && (g, cw) == Step(env, w, h, f, x, y)
    ensures Pass(env, w, h, f, x, y) == Pass(env, w, h, g, x + cw, y)
  {
  }

  /** The index the pass has reached at column x of row y. */
  function Reached(w: nat, x: nat, y: nat): nat {
    RowStart(w, y) + if x < w then x else w
  }

  /** A step changes no cell before the one it visits; of the back buffer
      it changes only that cell, to its printable form, and the front cell
      becomes equal to it. */
  lemma StepLocal(env: Env, w: nat, h: nat, f: Frame, x: nat, y: nat)
    requires Fits(w, h, f) && x < w && y < h
    ensures var (r, cw) := Step(env, w, h, f, x, y);
      var i := Offset(w, x, y);
      0 <= i < |f.back| && r.back == f.back[i := Printable(f.back[i])] && r.front[i] == r.back[i]
      && cw == CellWidth(env, r.back[i].ch)
      && forall j :: 0 <= j < i ==> r.front[j] == f.front[j]
  {
    OffsetInRange(w, h, x, y);
  }

  /** The cell a step visits ends printable and equal in both buffers, and
      the step is its width. */
  lemma StepSettles(env: Env, w: nat, h: nat, f: Frame, x: nat, y: nat)
    requires Fits(w, h, f) && x < w && y < h
    ensures var s := Step(env, w, h, f, x, y);
      0 <= Offset(w, x, y) < |s.0.back|
      && s.0.back[Offset(w, x, y)].ch >= ' ' as rune && s.0.front[Offset(w, x, y)] == s.0.back[Offset(w, x, y)]
      && s.1 == CellWidth(env, s.0.back[Offset(w, x, y)].ch)
  {
    OffsetInRange(w, h, x, y);
  }

  /** The pass from (x, y) changes no cell before the index it has reached. */
  lemma {:induction false} PassKeepsReached(env: Env, w: nat, h: nat, f: Frame, x: nat, y: nat, j: nat)
    requires Fits(w, h, f) && y <= h && j < Reached(w, x, y) && j < |f.back|
    ensures Pass(env, w, h, f, x, y).back[j] == f.back[j] && Pass(env, w, h, f, x, y).front[j] == f.front[j]
    decreases h - y, w - x
  {
    if y >= h {
    } else if x >= w {
      PassKeepsReached(env, w, h, f, 0, y + 1, j);
    } else {
      var s := Step(env, w, h, f, x, y);
      StepLocal(env, w, h, f, x, y);
      assert Reached(w, x, y) <= Reached(w, x + s.1, y);
      PassKeepsReached(env, w, h, s.0, x + s.1, y, j);
    }
  }

  /** From (x, y) on, every cell the pass visits is printable and equal in
      the back and front buffers. */
  predicate Settled(env: Env, w: nat, h: nat, back: seq<Cell>, front: seq<Cell>, x: nat, y: nat)
    requires |back| == RowStart(w, h) && |front| == RowStart(w, h) && y <= h
    decreases h - y, w - x
  {
    if y >= h then true
    else if x >= w then Settled(env, w, h, back, front, 0, y + 1)
    else
      OffsetInRange(w, h, x, y);
      var c := back[Offset(w, x, y)];
      c.ch >= ' ' as rune && c == front[Offset(w, x, y)]
      && Settled(env, w, h, back, front, x + CellWidth(env, c.ch), y)
  }

  lemma SettledAt(env: Env, w: nat, h: nat, back: seq<Cell>, front: seq<Cell>, x: nat, y: nat, cw: nat)
    requires |back| == RowStart(w, h) && |front| == RowStart(w, h) && x < w && y < h
    requires 0 <= Offset(w, x, y) < |back|
    requires back[Offset(w, x, y)].ch >= ' ' as rune && back[Offset(w, x, y)] == front[Offset(w, x, y)]
    requires cw == CellWidth(env, back[Offset(w, x, y)].ch)
    requires Settled(env, w, h, back, front, x + cw, y)
    ensures Settled(env, w, h, back, front, x, y)
  {
  }

  /** The cell a step has settled stays settled through the rest of the pass. */
  lemma SettledAfterStep(env: Env, w: nat, h: nat, g: Frame, x: nat, y: nat, cw: nat)
    requires Fits(w, h, g) && x < w && y < h && 0 <= Offset(w, x, y) < |g.back|
    requires g.back[Offset(w, x, y)].ch >= ' ' as rune && g.front[Offset(w, x, y)] == g.back[Offset(w, x, y)]
    requires cw >= 1 && cw == CellWidth(env, g.back[Offset(w, x, y)].ch)
    requires Settled(env, w, h, Pass(env, w, h, g, x + cw, y).back, Pass(env, w, h, g, x + cw, y).front, x + cw, y)
    ensures Settled(env, w, h, Pass(env, w, h, g, x + cw, y).back, Pass(env, w, h, g, x + cw, y).front, x, y)
  {
    var r := Pass(env, w, h, g, x + cw, y);
    var i := Offset(w, x, y);
    assert i < Reached(w, x + cw, y);
    PassKeepsReached(env, w, h, g, x + cw, y, i);
    SettledAt(env, w, h, r.back, r.front, x, y, cw);
  }

  /** After the pass, every cell it visited is settled. */
  lemma {:induction false} PassSettles(env: Env, w: nat, h: nat, f: Frame, x: nat, y: nat)
    requires Fits(w, h, f) && y <= h
    ensures Settled(env, w, h, Pass(env, w, h, f, x, y).back, Pass(env, w, h, f, x, y).front, x, y)
    decreases h - y, w - x
  {
    if y >= h {
    } else if x >= w {
      PassSettles(env, w, h, f, 0, y + 1);
    } else {
      var s := Step(env, w, h, f, x, y);
      StepSettles(env, w, h, f, x, y);
      PassAfterStep(env, w, h, f, s.0, x, y, s.1);
      PassSettles(env, w, h, s.0, x + s.1, y);
      SettledAfterStep(env, w, h, s.0, x, y, s.1);
    }
  }

  /** On settled buffers the pass changes nothing and writes nothing. */
  lemma {:induction false} SettledPassIsIdle(env: Env, w: nat, h: nat, f: Frame, x: nat, y: nat)
    requires Fits(w, h, f) && y <= h
    requires Settled(env, w, h, f.back, f.front, x, y)
    ensures Pass(env, w, h, f, x, y) == f
    decreases h - y, w - x
  {
    if y >= h {
    } else if x >= w {
      SettledPassIsIdle(env, w, h, f, 0, y + 1);
    } else {
      OffsetInRange(w, h, x, y);
      var i := Offset(w, x, y);
      assert f.back[i := f.back[i]] == f.back;
      SettledPassIsIdle(env, w, h, f, x + CellWidth(env, f.back[i].ch), y);
    }
  }

  /** Flush without a pending resize and before the output is handed to
      the writer: the cursor position is forgotten, the pass runs, and the
      cursor is placed when it is shown. */
  function FlushFrame(env: Env, w: nat, h: nat, f: Frame, cursorX: int, cursorY: int): (r: Frame)
    requires Fits(w, h, f)
    ensures Fits(w, h, r)
  {
    var f0 := f.(out := f.out.(lastx := CoordInvalid, lasty := CoordInvalid));
    var f1 := Pass(env, w, h, f0, 0, 0);
    if IsCursorHidden(cursorX, cursorY) then f1
    else f1.(out := f1.out.(buf := f1.out.buf + Cup(cursorX, cursorY)))
  }

  /** A second Flush with nothing set in between and the first one's output
      handed on finds every visited cell unchanged and sends no character:
      it writes at most the cursor position. */
  lemma FlushTwice(env: Env, w: nat, h: nat, f: Frame, cursorX: int, cursorY: int)
    requires Fits(w, h, f)
    ensures var f1 := FlushFrame(env, w, h, f, cursorX, cursorY);
      var f2 := FlushFrame(env, w, h, f1.(out := f1.out.(buf := [])), cursorX, cursorY);
      f2.back == f1.back && f2.front == f1.front
      && f2.out.buf == (if IsCursorHidden(cursorX, cursorY) then [] else Cup(cursorX, cursorY))
  {
    var f0 := f.(out := f.out.(lastx := CoordInvalid, lasty := CoordInvalid));
    var p := Pass(env, w, h, f0, 0, 0);
    PassSettles(env, w, h, f0, 0, 0);
    var f1 := FlushFrame(env, w, h, f, cursorX, cursorY);
    assert f1.back == p.back && f1.front == p.front;
    var g := f1.(out := f1.out.(buf := [])).(out := f1.out.(buf := [], lastx := CoordInvalid, lasty := CoordInvalid));
    SettledPassIsIdle(env, w, h, g, 0, 0);
  }

  /** send_clear before the output is handed to the writer: the current
      attributes, the clear-screen string, the cursor when it is shown, and
      the cursor position forgotten. */
  function SendClearOut(env: Env, o: Out, fg: Attribute, bg: Attribute, cursorX: int, cursorY: int): (r: Out)
    ensures r.lastfg == fg && r.lastbg == bg && r.lastx == CoordInvalid && r.lasty == CoordInvalid
    ensures IsPrefix(o.buf, r.buf)
  {
    var o1 := SendAttr(env, o, fg, bg);
    var cursor := if IsCursorHidden(cursorX, cursorY) then [] else Cup(cursorX, cursorY);
    o1.(buf := o1.buf + env.funcs[T_CLEAR_SCREEN] + cursor, lastx := CoordInvalid, lasty := CoordInvalid)
  }

  /** The resize branch of update_size_maybe: the back buffer keeps its
      overlap with the new size, the front buffer is blank, and send_clear
      runs. The second component is what send_clear hands to the writer. */
  function ResizeFrame(env: Env, w: nat, h: nat, f: Frame, cols: nat, rows: nat,
                       fg: Attribute, bg: Attribute, cursorX: int, cursorY: int): (r: (Frame, bytes))
    requires Fits(w, h, f)
    ensures Fits(cols, rows, r.0) && r.0.out.buf == []
    ensures forall i :: 0 <= i < |r.0.front| ==> r.0.front[i] == Blank(fg, bg)
    ensures r.0.out.lastx == CoordInvalid && r.0.out.lasty == CoordInvalid
    ensures r.0.back == ResizeGrid(f.back, w, h, cols, rows, Blank(fg, bg))
    ensures r.1 == SendClearOut(env, f.out, fg, bg, cursorX, cursorY).buf
    ensures r.0.out == SendClearOut(env, f.out, fg, bg, cursorX, cursorY).(buf := [])
  {
    var o := SendClearOut(env, f.out, fg, bg, cursorX, cursorY);
    (Frame(ResizeGrid(f.back, w, h, cols, rows, Blank(fg, bg)), seq(RowStart(cols, rows), _ => Blank(fg, bg)), o.(buf := [])),
     o.buf)
  }
}
