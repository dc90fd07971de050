/** TermClient of termbox.go and api.go: the state of one terminal session
    and the public calls that change it. The terminal is not opened here:
    what the terminal reports (its size, the terminfo strings, the width of
    a rune, the bytes read and the signals) comes in as parameters, and
    what is written to it is collected in two byte fields. */
module Client {
  import opened Bytes
  import opened Utf8
  import opened Termbox
  import opened Escapes
  import opened Grid
  import opened Decoder
  import opened Render
  import opened Polling

  /** SetInputMode's normalisation: exactly one of Esc and Alt is set, Esc
      when the mode names neither or both, and the other bits are kept. */
  function NormalInputMode(mode: int): (r: int)
    ensures ModeDecodes(r) && HasBit(r, InputEsc) != HasBit(r, InputAlt)
    ensures HasBit(r, InputAlt) <==> HasBit(mode, InputAlt) && !HasBit(mode, InputEsc)
    ensures r / InputMouse == mode / InputMouse
  {
    var m := if !HasBit(mode, InputEsc) && !HasBit(mode, InputAlt) then SetBit(mode, InputEsc) else mode;
    if HasBit(m, InputEsc) && HasBit(m, InputAlt) then ClearBit(m, InputAlt) else m
  }

  /** Setting a mode SetInputMode has returned gives the same mode back. */
  lemma NormalInputModeStable(mode: int)
    ensures NormalInputMode(NormalInputMode(mode)) == NormalInputMode(mode)
  {
  }

  /** The bytes SetCursor writes when the cursor moves from (ox, oy) to
      (x, y): the show string when a hidden cursor is shown, the hide string
      when a shown one is hidden, then the new position if it is shown. */
  function CursorBytes(funcs: Funcs, ox: int, oy: int, x: int, y: int): (r: bytes)
    ensures IsCursorHidden(x, y) ==> r == if IsCursorHidden(ox, oy) then [] else funcs[T_HIDE_CURSOR]
    ensures !IsCursorHidden(x, y) ==> r == (if IsCursorHidden(ox, oy) then funcs[T_SHOW_CURSOR] else []) + Cup(x, y)
  {
    (if IsCursorHidden(ox, oy) && !IsCursorHidden(x, y) then funcs[T_SHOW_CURSOR] else [])
    + (if !IsCursorHidden(ox, oy) && IsCursorHidden(x, y) then funcs[T_HIDE_CURSOR] else [])
    + (if !IsCursorHidden(x, y) then Cup(x, y) else [])
  }

  /** The scalar fields of TermClient that the public calls set: the size
      Size() reports, the input and output modes, the cursor, the colours
      Clear takes, and whether Init has run. */
  datatype Session = Session(termw: int, termh: int, inputMode: int, outputMode: int,
                             cursorX: int, cursorY: int, foreground: Attribute, background: Attribute,
                             isInit: bool)

  /** The size bookkeeping of update_size_maybe: the size Size() reports
      and the dimensions of the buffers. */
  datatype Sizes = Sizes(termw: int, termh: int, bufw: int, bufh: int)

  /** update_size_maybe as written: the new size is assigned to local
      variables that shadow the termw and termh fields, so only the buffers
      take it. */
  function ResizeAsWritten(s: Sizes, cols: int, rows: int): (r: Sizes)
    ensures r.bufw == cols && r.bufh == rows
    ensures r.termw == s.termw && r.termh == s.termh
  {
    Sizes(s.termw, s.termh, cols, rows)
  }

  /** After a window change from 80x24 to 100x30, Size() still reports
      80x24 while the buffers are 100x30. */
  lemma SizeGoesStale()
    ensures var r := ResizeAsWritten(Sizes(80, 24, 80, 24), 100, 30);
      r.termw != r.bufw && r.termh != r.bufh
  {
  }

  class TermClient {
    // From setup_term and the runewidth package, fixed for the session.
    const keys: seq<bytes>
    const funcs: Funcs
    const wide: set<rune>
    const ambiguous: set<rune>

    const back: CellBuf
    const front: CellBuf
    var session: Session
    /** outbuf, with the attributes and the cell last sent. */
    var out: Out
    var inbuf: bytes
    /** What flush has handed to the Out writer. */
    var written: bytes
    /** What Close has written straight to the terminal. */
    var tty: bytes

    /** Two distinct buffers of the same size, an input mode extract_event
        can decode with, and while initialised a size that is the buffers'. */
    predicate Valid()
      reads this, back, front
    {
      back != front && back.cells != front.cells && back.Valid() && front.Valid()
      && back.width == front.width && back.height == front.height
      && ModeDecodes(session.inputMode)
      && (session.isInit ==> session.termw == back.width && session.termh == back.height)
    }

    /** What the diff pass sees of the session: send_attr encodes in the
        current output mode. */
    function RenderEnv(): Render.Env
      reads this
    {
      var mode, fs := session.outputMode, funcs;
      Render.Env(fs, (fg, bg) => AttrBytes(mode, fs, fg, bg), wide, ambiguous)
    }

    ghost function Screen(): Frame
      reads this, back, front, back.cells, front.cells
    {
      Frame(back.cells[..], front.cells[..], out)
    }

    /** The state that drawing and output leave alone. */
    function Config(): (Session, bytes, bytes)
      reads this
    {
      (session, inbuf, tty)
    }

    /** NewClient: Esc input, normal output, nothing sent yet, the cursor
        hidden, default colours and empty buffers. */
    constructor (keys: seq<bytes>, funcs: Funcs, wide: set<rune>, ambiguous: set<rune>)
      ensures Valid() && fresh(back) && fresh(front) && fresh(back.cells) && fresh(front.cells)
      ensures this.keys == keys && this.funcs == funcs && this.wide == wide && this.ambiguous == ambiguous
      ensures session == Session(0, 0, InputEsc, OutputNormal, CursorHidden, CursorHidden, ColorDefault, ColorDefault, false)
      ensures out == Out([], AttrInvalid, AttrInvalid, CoordInvalid, CoordInvalid)
      ensures inbuf == [] && written == [] && tty == []
    {
      this.keys, this.funcs, this.wide, this.ambiguous := keys, funcs, wide, ambiguous;
      back := new CellBuf();
      front := new CellBuf();
      session := Session(0, 0, InputEsc, OutputNormal, CursorHidden, CursorHidden, ColorDefault, ColorDefault, false);
      out := Out([], AttrInvalid, AttrInvalid, CoordInvalid, CoordInvalid);
      inbuf, written, tty := [], [], [];
    }

    /** Init after the terminal is set up, w x h being the size the terminal
        reports: enter the alternate screen and keypad mode, hide the cursor,
        clear the screen, and make both buffers w x h of blank cells. */
    method Init(w: nat, h: nat)
      requires Valid()
      modifies this, back, front
      ensures Valid() && back.width == w && back.height == h
      ensures session == old(session).(termw := w, termh := h, isInit := true)
      ensures out == old(out).(buf := old(out.buf) + funcs[T_ENTER_CA] + funcs[T_ENTER_KEYPAD] + funcs[T_HIDE_CURSOR] + funcs[T_CLEAR_SCREEN])
      ensures forall i :: 0 <= i < back.cells.Length ==> back.cells[i] == Blank(session.foreground, session.background)
      ensures forall i :: 0 <= i < front.cells.Length ==> front.cells[i] == Blank(session.foreground, session.background)
      ensures inbuf == old(inbuf) && written == old(written) && tty == old(tty)
    {
      out := out.(buf := out.buf + funcs[T_ENTER_CA] + funcs[T_ENTER_KEYPAD] + funcs[T_HIDE_CURSOR] + funcs[T_CLEAR_SCREEN]);
      back.Init(w, h);
      front.Init(w, h);
      back.Clear(session.foreground, session.background);
      front.Clear(session.foreground, session.background);
      session := session.(termw := w, termh := h, isInit := true);
    }

    /** Close: restore the terminal through the terminfo strings written
        directly to it, and reset the state so that Init can run again. */
    method Close()
      requires Valid()
      modifies this
      ensures Valid()
      ensures tty == old(tty) + funcs[T_SHOW_CURSOR] + funcs[T_SGR0] + funcs[T_CLEAR_SCREEN]
        + funcs[T_EXIT_CA] + funcs[T_EXIT_KEYPAD] + funcs[T_EXIT_MOUSE]
      ensures session == old(session).(termw := 0, termh := 0, inputMode := InputEsc,
        cursorX := CursorHidden, cursorY := CursorHidden, foreground := ColorDefault, background := ColorDefault,
        isInit := false)
      ensures out == old(out).(lastfg := AttrInvalid, lastbg := AttrInvalid, lastx := CoordInvalid, lasty := CoordInvalid)
      ensures inbuf == old(inbuf) && written == old(written)
    {
      tty := tty + funcs[T_SHOW_CURSOR] + funcs[T_SGR0] + funcs[T_CLEAR_SCREEN]
        + funcs[T_EXIT_CA] + funcs[T_EXIT_KEYPAD] + funcs[T_EXIT_MOUSE];
      session := session.(termw := 0, termh := 0, inputMode := InputEsc,
        cursorX := CursorHidden, cursorY := CursorHidden, foreground := ColorDefault, background := ColorDefault,
        isInit := false);
      out := out.(lastfg := AttrInvalid, lastbg := AttrInvalid, lastx := CoordInvalid, lasty := CoordInvalid);
    }

    /** write_cursor: the cursor position sequence for (x, y). */
    method WriteCursor(x: int, y: int)
      modifies this
      ensures out == old(out).(buf := old(out.buf) + Cup(x, y))
      ensures Config() == old(Config()) && written == old(written)
    {
      out := out.(buf := out.buf + Cup(x, y));
    }

    /** send_attr, as Render.SendAttr. */
    method SendAttr(fg: Attribute, bg: Attribute)
      modifies this
      ensures out == Render.SendAttr(old(RenderEnv()), old(out), fg, bg)
      ensures Config() == old(Config()) && written == old(written)
    {
      if fg == out.lastfg && bg == out.lastbg {
        return;
      }
      out := out.(buf := out.buf + AttrBytes(session.outputMode, funcs, fg, bg), lastfg := fg, lastbg := bg);
    }

    /** send_char, as Render.SendChar. */
    method SendChar(x: int, y: int, ch: rune)
      modifies this
      ensures out == Render.SendChar(old(out), x, y, ch)
      ensures Config() == old(Config()) && written == old(written)
    {
      if x - 1 != out.lastx || y != out.lasty {
        WriteCursor(x, y);
      }
      out := out.(buf := out.buf + EncodeRune(ch), lastx := x, lasty := y);
    }

    /** flush: the output buffer goes to the writer and is emptied. */
    method FlushOut()
      modifies this
      ensures written == old(written) + old(out.buf) && out == old(out).(buf := [])
      ensures Config() == old(Config())
    {
      written := written + out.buf;
      out := out.(buf := []);
    }

    /** send_clear, as Render.SendClearOut followed by flush. */
    method SendClear()
      modifies this
      ensures var o := SendClearOut(old(RenderEnv()), old(out), session.foreground, session.background,
                                    session.cursorX, session.cursorY);
        written == old(written) + o.buf && out == o.(buf := [])
      ensures Config() == old(Config())
    {
      SendAttr(session.foreground, session.background);
      out := out.(buf := out.buf + funcs[T_CLEAR_SCREEN]);
      if !IsCursorHidden(session.cursorX, session.cursorY) {
        WriteCursor(session.cursorX, session.cursorY);
      }
      out := out.(lastx := CoordInvalid, lasty := CoordInvalid);
      FlushOut();
    }

    /** update_size_maybe with the window size waiting on Win_chan, if any:
        with none, nothing changes; with one, both buffers take the new
        size (the back one keeping its overlap), the front one is blanked,
        the screen is cleared, and Size() reports the new size. */
    method UpdateSize(pending: Option<(nat, nat)>)
      requires Valid()
      modifies this, back, front, front.cells
      ensures Valid() && inbuf == old(inbuf) && tty == old(tty)
      ensures back.cells == old(back.cells) || fresh(back.cells)
      ensures front.cells == old(front.cells) || fresh(front.cells)
      ensures pending.None? ==>
        unchanged(this) && unchanged(back) && unchanged(front) && front.cells[..] == old(front.cells[..])
      ensures pending.Some? ==>
        var r := ResizeFrame(old(RenderEnv()), old(back.width), old(back.height), old(Screen()),
                             pending.value.0, pending.value.1, session.foreground, session.background,
                             session.cursorX, session.cursorY);
        session == old(session).(termw := pending.value.0, termh := pending.value.1)
        && back.width == pending.value.0 && back.height == pending.value.1
        && Screen() == r.0 && written == old(written) + r.1
    {
      if pending.None? {
        return;
      }
      var cols, rows := pending.value.0, pending.value.1;
      var fg, bg := session.foreground, session.background;
      back.Resize(fg, bg, cols, rows);
      front.Resize(fg, bg, cols, rows);
      front.Clear(fg, bg);
      session := session.(termw := cols, termh := rows);
      SendClear();
      assert front.cells[..] == seq(RowStart(cols, rows), _ => Blank(fg, bg));
    }

    /** One cell of the diff pass in Flush, as Render.Step. */
    method StepCell(x: nat, y: nat) returns (cw: nat)
      requires Valid() && x < back.width && y < back.height
      modifies this, back.cells, front.cells
      ensures Valid() && Config() == old(Config()) && written == old(written)
      ensures (Screen(), cw) == Step(old(RenderEnv()), back.width, back.height, old(Screen()), x, y)
    {
      ghost var f := Screen();
      var w := back.width;
      OffsetInRange(w, back.height, x, y);
      var i := Offset(w, x, y);
      var b := Printable(back.cells[i]);
      back.cells[i] := b;
      cw := CellWidth(RenderEnv(), b.ch);
      if b == front.cells[i] {
        assert back.cells[..] == f.back[i := b] && front.cells[..] == f.front;
        return;
      }
      front.cells[i] := b;
      SendAttr(b.fg, b.bg);
      if cw == 2 && x == w - 1 {
        SendChar(x, y, ' ' as rune);
      } else {
        SendChar(x, y, b.ch);
        if cw == 2 {
          OffsetInRange(w, back.height, x + 1, y);
          front.cells[i + 1] := Cell(0, b.fg, b.bg);
        }
      }
      assert back.cells[..] == f.back[i := b];
    }

    /** StepCell on the way to the end of the pass. */
    method StepTowards(x: nat, y: nat, ghost target: Frame) returns (cw: nat)
      requires Valid() && x < back.width && y < back.height
      requires Pass(RenderEnv(), back.width, back.height, Screen(), x, y) == target
      modifies this, back.cells, front.cells
      ensures Valid() && Config() == old(Config()) && written == old(written) && cw >= 1
      ensures Pass(old(RenderEnv()), back.width, back.height, Screen(), x + cw, y) == target
    {
      ghost var f := Screen();
      cw := StepCell(x, y);
      PassAfterStep(RenderEnv(), back.width, back.height, f, Screen(), x, y, cw);
    }

    /** The inner loop of Flush over row y: the pass from the first cell of
        the row reaches the first cell of the next row. */
    method RowPass(y: nat)
      requires Valid() && y < back.height
      modifies this, back.cells, front.cells
      ensures Valid() && Config() == old(Config()) && written == old(written)
      ensures Pass(old(RenderEnv()), back.width, back.height, Screen(), 0, y + 1)
           == Pass(old(RenderEnv()), back.width, back.height, old(Screen()), 0, y)
    {
      var w: nat, h: nat := back.width, back.height;
      ghost var env, target := RenderEnv(), Pass(RenderEnv(), w, h, Screen(), 0, y);
      var x: nat := 0;
      while x < w
        invariant Valid() && Config() == old(Config()) && written == old(written)
        invariant back.width == w && back.height == h
        invariant Pass(env, w, h, Screen(), x, y) == target
        decreases w - x
      {
        var cw := StepTowards(x, y, target);
        x := x + cw;
      }
      assert Pass(env, w, h, Screen(), x, y) == Pass(env, w, h, Screen(), 0, y + 1);
    }

    /** The nested loops of Flush: the whole pass, as Render.Pass from the
        first cell. */
    method DiffPass()
      requires Valid()
      modifies this, back.cells, front.cells
      ensures Valid() && Config() == old(Config()) && written == old(written)
      ensures Screen() == Pass(old(RenderEnv()), back.width, back.height, old(Screen()), 0, 0)
    {
      var w: nat, h: nat := back.width, back.height;
      ghost var env, init := RenderEnv(), Screen();
      var y := 0;
      while y < h
        invariant 0 <= y <= h && Valid() && Config() == old(Config()) && written == old(written)
        invariant back.width == w && back.height == h
        invariant Pass(env, w, h, Screen(), 0, y) == Pass(env, w, h, init, 0, 0)
      {
        ghost var before := Screen();
        RowPass(y);
        assert Pass(env, w, h, Screen(), 0, y + 1) == Pass(env, w, h, before, 0, y);
        y := y + 1;
      }
      assert Pass(env, w, h, Screen(), 0, h) == Screen();
    }

    /** Flush: forget the cursor position, take a pending window size,
        send every cell that differs from the front buffer, place the cursor
        when it is shown, and hand the output to the writer. */
    method Flush(pending: Option<(nat, nat)>)
      requires Valid()
      modifies this, back, front, back.cells, front.cells
      ensures Valid() && inbuf == old(inbuf) && tty == old(tty)
      ensures pending.None? ==>
        var f := FlushFrame(old(RenderEnv()), old(back.width), old(back.height), old(Screen()),
                            session.cursorX, session.cursorY);
        session == old(session) && Screen() == f.(out := f.out.(buf := [])) && written == old(written) + f.out.buf
      ensures pending.Some? ==>
        var f0 := old(Screen()).(out := old(out).(lastx := CoordInvalid, lasty := CoordInvalid));
        var r := ResizeFrame(old(RenderEnv()), old(back.width), old(back.height), f0,
                             pending.value.0, pending.value.1, session.foreground, session.background,
                             session.cursorX, session.cursorY);
        var f := FlushFrame(old(RenderEnv()), pending.value.0, pending.value.1, r.0, session.cursorX, session.cursorY);
        session == old(session).(termw := pending.value.0, termh := pending.value.1)
        && Screen() == f.(out := f.out.(buf := [])) && written == old(written) + r.1 + f.out.buf
    {
      out := out.(lastx := CoordInvalid, lasty := CoordInvalid);
      UpdateSize(pending);
      ghost var env, w, h, f1, w1 := RenderEnv(), back.width, back.height, Screen(), written;
      DiffPass();
      ghost var f2 := Screen();
      assert f2 == Pass(env, w, h, f1, 0, 0);
      if !IsCursorHidden(session.cursorX, session.cursorY) {
        WriteCursor(session.cursorX, session.cursorY);
      }
      FlushOut();
    }

    /** SetCursor: show or hide the cursor when its visibility changes, and
        move it when it is shown. */
    method SetCursor(x: int, y: int)
      modifies this
      ensures session == old(session).(cursorX := x, cursorY := y)
      ensures out == old(out).(buf := old(out.buf) + CursorBytes(funcs, old(session.cursorX), old(session.cursorY), x, y))
      ensures inbuf == old(inbuf) && tty == old(tty) && written == old(written)
    {
      var wasHidden := IsCursorHidden(session.cursorX, session.cursorY);
      var toggle: bytes := [];
      if wasHidden && !IsCursorHidden(x, y) {
        toggle := funcs[T_SHOW_CURSOR];
      }
      if !wasHidden && IsCursorHidden(x, y) {
        toggle := funcs[T_HIDE_CURSOR];
      }
      var move: bytes := [];
      if !IsCursorHidden(x, y) {
        move := Cup(x, y);
      }
      assert toggle + move == CursorBytes(funcs, session.cursorX, session.cursorY, x, y);
      session := session.(cursorX := x, cursorY := y);
      out := out.(buf := out.buf + (toggle + move));
    }

    /** HideCursor: SetCursor(-1, -1). */
    method HideCursor()
      modifies this
      ensures session == old(session).(cursorX := CursorHidden, cursorY := CursorHidden)
      ensures IsCursorHidden(session.cursorX, session.cursorY)
      ensures out == old(out).(buf := old(out.buf)
        + if IsCursorHidden(old(session.cursorX), old(session.cursorY)) then [] else funcs[T_HIDE_CURSOR])
      ensures inbuf == old(inbuf) && tty == old(tty) && written == old(written)
    {
      SetCursor(CursorHidden, CursorHidden);
    }

    /** SetCell: outside the back buffer nothing changes; inside, the cell
        at (x, y) takes the rune and attributes and no other cell changes. */
    method SetCell(x: int, y: int, ch: rune, fg: Attribute, bg: Attribute)
      requires Valid()
      modifies back.cells
      ensures Valid()
      ensures !(0 <= x < back.width && 0 <= y < back.height) ==> back.cells[..] == old(back.cells[..])
      ensures 0 <= x < back.width && 0 <= y < back.height ==>
        forall cx: nat, cy: nat :: cx < back.width && cy < back.height ==>
          0 <= Offset(back.width, cx, cy) < back.cells.Length
          && back.cells[Offset(back.width, cx, cy)]
             == if cx == x && cy == y then Cell(ch, fg, bg) else old(back.cells[Offset(back.width, cx, cy)])
    {
      if x < 0 || x >= back.width {
        return;
      }
      if y < 0 || y >= back.height {
        return;
      }
      ghost var before := back.cells[..];
      OffsetInRange(back.width, back.height, x, y);
      back.cells[Offset(back.width, x, y)] := Cell(ch, fg, bg);
      forall cx: nat, cy: nat | cx < back.width && cy < back.height
        ensures 0 <= Offset(back.width, cx, cy) < back.cells.Length
        ensures back.cells[Offset(back.width, cx, cy)]
             == if cx == x && cy == y then Cell(ch, fg, bg) else before[Offset(back.width, cx, cy)]
      {
        UpdateOneCell(before, back.width, back.height, x, y, Cell(ch, fg, bg), cx, cy);
      }
    }

    /** Size: the size of the back buffer while initialised. */
    method Size() returns (width: int, height: int)
      requires Valid()
      ensures width == session.termw && height == session.termh
      ensures session.isInit ==> width == back.width && height == back.height
    {
      return session.termw, session.termh;
    }

    /** Clear: take the colours, take a pending window size, and blank the
        back buffer. */
    method Clear(fg: Attribute, bg: Attribute, pending: Option<(nat, nat)>)
      requires Valid()
      modifies this, back, front, back.cells, front.cells
      ensures Valid() && inbuf == old(inbuf) && tty == old(tty)
      ensures forall i :: 0 <= i < back.cells.Length ==> back.cells[i] == Blank(fg, bg)
      ensures pending.None? ==>
        session == old(session).(foreground := fg, background := bg)
        && back.width == old(back.width) && back.height == old(back.height)
        && front.cells[..] == old(front.cells[..]) && out == old(out) && written == old(written)
      ensures pending.Some? ==>
        var r := ResizeFrame(old(RenderEnv()), old(back.width), old(back.height), old(Screen()),
                             pending.value.0, pending.value.1, fg, bg, session.cursorX, session.cursorY);
        session == old(session).(foreground := fg, background := bg, termw := pending.value.0, termh := pending.value.1)
        && back.width == pending.value.0 && back.height == pending.value.1
        && front.cells[..] == r.0.front && out == r.0.out && written == old(written) + r.1
    {
      session := session.(foreground := fg, background := bg);
      UpdateSize(pending);
      back.Clear(fg, bg);
    }

    /** SetInputMode: InputCurrent reads the mode; any other mode is
        normalised, switches mouse reporting on or off, and becomes the
        input mode. */
    method SetInputMode(mode: int) returns (r: int)
      requires Valid()
      modifies this
      ensures Valid() && inbuf == old(inbuf) && written == old(written) && tty == old(tty)
      ensures mode == InputCurrent ==> r == old(session.inputMode) && unchanged(this)
      ensures mode != InputCurrent ==>
        r == NormalInputMode(mode) && session == old(session).(inputMode := r)
        && out == old(out).(buf := old(out.buf) + funcs[if HasBit(mode, InputMouse) then T_ENTER_MOUSE else T_EXIT_MOUSE])
    {
      if mode == InputCurrent {
        return session.inputMode;
      }
      var m := NormalInputMode(mode);
      if HasBit(m, InputMouse) {
        out := out.(buf := out.buf + funcs[T_ENTER_MOUSE]);
      } else {
        out := out.(buf := out.buf + funcs[T_EXIT_MOUSE]);
      }
      session := session.(inputMode := m);
      return session.inputMode;
    }

    /** SetOutputMode: OutputCurrent reads the mode; any other value is
        taken as it is. */
    method SetOutputMode(mode: int) returns (r: int)
      modifies this
      ensures mode == OutputCurrent ==> r == old(session.outputMode) && unchanged(this)
      ensures mode != OutputCurrent ==> r == mode && session == old(session).(outputMode := mode)
      ensures out == old(out) && inbuf == old(inbuf) && written == old(written) && tty == old(tty)
    {
      if mode == OutputCurrent {
        return session.outputMode;
      }
      session := session.(outputMode := mode);
      return session.outputMode;
    }

    /** One attempt of PollEvent: extract_event on the input buffer, then
        the eviction of the bytes it consumed, as Polling.Attempt. */
    method TryExtract(ev: Event) returns (event: Event, ok: bool)
      requires Valid() && ev.n == 0
      modifies this
      ensures Valid() && (event, ok, inbuf) == Attempt(keys, session.inputMode, old(inbuf), ev)
      ensures session == old(session) && out == old(out) && written == old(written) && tty == old(tty)
    {
      var next := ExtractEvent(keys, session.inputMode, inbuf, ev);
      event, ok := next.0, next.1;
      if event.n != 0 {
        inbuf := inbuf[event.n..];
      }
    }

    /** PollEvent, as Polling.Poll over the wake-ups that reach it; with no
        event by the last wake-up it is still blocked (None). */
    method PollEvent(ws: seq<Wakeup>) returns (r: Option<Event>, used: nat)
      requires Valid()
      modifies this
      ensures Valid() && Polled(r, inbuf, used) == Poll(keys, session.inputMode, old(inbuf), ws)
      ensures session == old(session) && out == old(out) && written == old(written) && tty == old(tty)
    {
      var mode := session.inputMode;
      var event, ok := TryExtract(ZeroEvent);
      if ok {
        return Some(event), 0;
      }
      var i := 0;
      while i < |ws|
        invariant 0 <= i <= |ws| && event.n == 0 && Valid()
        invariant session == old(session) && out == old(out) && written == old(written) && tty == old(tty)
        invariant var w := Wait(keys, mode, inbuf, event, ws[i..]);
          Poll(keys, mode, old(inbuf), ws) == w.(used := w.used + i)
      {
        assert ws[i..][1..] == ws[i + 1..];
        match ws[i]
        case ReadError =>
          return Some(ZeroEvent.(kind := EventError)), i + 1;
        case Interrupt =>
          return Some(event.(kind := EventInterrupt)), i + 1;
        case Resize(w, h) =>
          return Some(event.(kind := EventResize, width := w, height := h)), i + 1;
        case Data(d) =>
          inbuf := inbuf + d;
          event, ok := TryExtract(event);
          if ok {
            return Some(event), i + 1;
          }
        i := i + 1;
      }
      return None, |ws|;
    }

    /** extract_raw_event: with input buffered and room in data, move as many
        buffered bytes as fit into data; no byte is lost or reordered. */
    method ExtractRawEvent(data: array<byte>, ev: Event) returns (ok: bool, e: Event)
      modifies this, data
      ensures ok <==> |old(inbuf)| > 0 && data.Length > 0
      ensures !ok ==> e == ev && unchanged(this) && unchanged(data)
      ensures ok ==>
        e == ev.(kind := EventRaw, n := e.n)
        && e.n == (if data.Length < |old(inbuf)| then data.Length else |old(inbuf)|)
        && old(inbuf) == data[..e.n] + inbuf && data[e.n..] == old(data[e.n..])
      ensures session == old(session) && out == old(out) && written == old(written) && tty == old(tty)
    {
      e := ev;
      if |inbuf| == 0 {
        return false, e;
      }
      var n := data.Length;
      if n == 0 {
        return false, e;
      }
      n := if data.Length < |inbuf| then data.Length else |inbuf|;
      forall k | 0 <= k < n {
        data[k] := inbuf[k];
      }
      inbuf := inbuf[n..];
      e := e.(n := n, kind := EventRaw);
      return true, e;
    }
  }
}
