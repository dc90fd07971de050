# shogun in Dafny: the terminal library and the game rules

shogun is a small terminal roguelike. Most of its logic is in the vendored
terminal library pseudo-termbox-go, a fork of termbox-go driven through a
`TermClient` object. This project models that library's core and the rules
of game.go, and proves properties about both:

- **Input decoding.** `extract_event`, `parse_escape_sequence` and
  `parse_mouse_event` turn the front of the input buffer into a key, rune or
  mouse event. This covers the X10, SGR-1006 and urxvt-1015 mouse dialects
  described in xterm's "Control Sequences" document. `PollEvent` evicts the
  bytes each event used.
- **Output.** `write_cursor`, `write_sgr*`, `send_attr`, `send_char` and
  `send_clear` produce CUP and SGR control sequences (sections 8.3.21 and
  8.3.117 of ECMA-48) in an output buffer.
- **Cell buffers.** The `cellbuf` grids support init, clear and resize.
- **Flush.** Its diff pass sends only the cells where the back buffer
  differs from the front buffer.
- **Session state.** `TermClient`'s public calls: `NewClient`, `Init`,
  `Close`, `SetCell`, `SetCursor`, `Clear`, `Size`, and `SetInputMode` and
  `SetOutputMode`.
- **Game rules.** game.go has entities with named attributes, a message log,
  a level map with registered entities, and the `Movement` rule with its
  collision check.

Files, one module each:

| file | module | what |
|---|---|---|
| bytes.dfy | Bytes | bytes, Go's 64-bit `int`/`uint64`, `strconv.AppendUint`, `strconv.ParseInt`, `strings.Index`/`LastIndex`/`IndexAny` |
| utf8.dfy | Utf8 | `utf8.DecodeRune` and `utf8.EncodeRune` (RFC 3629 section 3) |
| types.dfy | Termbox | keys, modifiers, modes, attributes, `Cell`, `Event` |
| decoder.dfy | Decoder | the input decoder, as functions over byte strings |
| keystrokes.dfy | Keystrokes | what a terminal sends for each user action, and the proofs that the decoder reads it back |
| polling.dfy | Polling | `PollEvent` as a function of the input buffer and the wake-ups |
| escapes.dfy | Escapes | CUP and SGR bytes, colour mapping, and a control-sequence reader |
| grid.dfy | Grid | `cellbuf` as a class over an array |
| render.dfy | Render | the output buffer and the Flush diff pass, as functions over values |
| client.dfy | Client | `TermClient` as a class, proved against the Render and Polling functions |
| game.dfy | Game | `Entity`, `Messages` and `Level` as classes, with `GetTile`, `GetEntity` and `Movement` |

### How the model is built

- **The decoder is pure.** The Go decoder fills an out-parameter `*Event` only in part. The model threads that event through as a value.
  - `extract_event`'s `panic("unreachable")` becomes the precondition `ModeDecodes`: the input mode has the Esc bit or the Alt bit. `SetInputMode` always ensures this.
- **`TermClient` is a class.** Two `CellBuf` objects hold arrays of cells.
  - The fields the public calls set are kept together in one `Session` value: the size, the modes, the cursor, the colours and `IsInit`.
  - `outbuf` and the last attributes and cell written form an `Out` value.
  - `written` collects what `flush` hands to the writer, and `tty` collects what `Close` writes straight to the terminal.
- **Flush's diff pass is specified by functions.** `Render.Step` and `Render.Pass` are pure functions over a `Frame` (back cells, front cells, output). The nested loops of `TermClient.Flush` are proved to compute exactly `Pass`.
  - The pass takes an `Env`, which carries the bytes `send_attr` writes for an attribute pair. The client supplies `Escapes.AttrBytes` for its current output mode.
- **`PollEvent` is specified by functions.** `Polling.Poll` is a function of the input buffer and a sequence of wake-ups: data read, a read error, `Interrupt`, or a window change with its size. The method is proved to compute it.
- **game.go reaches its state through package variables.** The model passes the level, the message log and the moving entity to `Movement` as parameters.
  - `Movement(e)` returns a closure. The model applies it directly: `Movement(level, log, e, choice)`. `MoveOnto` is its second half, from the target tile on.
  - `GetTile` reads only the immutable map, so it is a function of the map.
- **Go integer behaviour is written out where it matters:**
  - `uint64(x+1)` in `write_cursor`;
  - the byte subtraction `buf[3]-32`;
  - the `uint16` subtraction `a-1` in `write_sgr*`;
  - the `int64` field arithmetic of the urxvt dialect, where bit tests on negative numbers are two's complement;
  - the `Attribute` masks of `send_attr`.
- **Constants from a file outside this model.** The file that declares `Key*`, `Mouse*`, `Mod*`, `Input*`, `Output*`, `Color*` and `Attr*` is not part of this model, so their values are those of termbox-go:
  - `KeyF1` = 0xFFFF, and the terminfo keys count down from it;
  - the arrow keys are 0xFFED to 0xFFEA;
  - the mouse keys are 0xFFE8 (left) down to 0xFFE3 (wheel down);
  - `ModAlt` = 1 and `ModMotion` = 2;
  - `InputEsc` = 1, `InputAlt` = 2, `InputMouse` = 4;
  - `OutputNormal` = 1 up to `OutputGrayscale` = 4;
  - `AttrBold` = 0x200, `AttrUnderline` = 0x400, `AttrReverse` = 0x800.

### Behaviour of the code as written

These follow the code where the library's own comments, or a natural reading of it, suggest otherwise:

- **Malformed UTF-8 is not skipped.** `extract_event` has no single-byte fallback: a byte that `utf8.DecodeRune` rejects (`RuneError`) makes decoding fail and consumes nothing (termbox.go:528-537). The byte stays at the front of `inbuf` (`Keystrokes.RejectsMalformed`).
- **A split mouse report can read as Esc.** In Esc mode, a mouse report that arrives in two reads is decoded as `KeyEsc` if the first part has no final byte, because the Esc fallback comes first (termbox.go:482-498).
- **`ParseEvent` never returns a nonzero N with `EventNone`.** The comment at api.go:276-277 says it may. Every failing path of `extract_event` leaves N at 0.
- **`PollEvent` reuses one `Event` across its attempts.** The `ModAlt` set by a failed Alt-mode attempt is still present on a later event (api.go:333-362). `Polling.Wait` carries the event along in the same way, and `Polling.AltMarkCarriesOver` shows the mark on an `EventInterrupt`.
- **`Movement` with a choice outside 1..5 aims at the entity's own tile.** When that tile is floor and the entity is registered, the entity "bumps" into the first entity registered there, possibly itself (game.go:203-226). `Game.Decide` gives this outcome; the game itself only passes 1..5.

## Model

| member | source | states |
|---|---|---|
| Bytes.Wrap64 | vendor/github.com/sillsm/pseudo-termbox-go/termbox.go:433-434 | Go's 64-bit `int`: the result is in range and equals the exact value when that is in range |
| Bytes.U64 | vendor/github.com/sillsm/pseudo-termbox-go/termbox.go:95-97 | `uint64(v)` is below 2^64 and keeps every value already in range |
| Bytes.Decimal | vendor/github.com/sillsm/pseudo-termbox-go/termbox.go:95-97 | `strconv.AppendUint(_, n, 10)` writes a nonempty digit string with no leading zero |
| Bytes.MagnitudeDigits | vendor/github.com/sillsm/pseudo-termbox-go/termbox.go:385-396 | the digit reader succeeds exactly on nonempty strings of digits |
| Bytes.MagnitudeDecimal | vendor/github.com/sillsm/pseudo-termbox-go/termbox.go:385-396 | reading back a numeral that `AppendUint` wrote gives the number |
| Bytes.ParseInt | vendor/github.com/sillsm/pseudo-termbox-go/termbox.go:385-396 | `strconv.ParseInt(s, 10, 64)` gives a value in the signed 64-bit range and fails on the empty string |
| Bytes.ParseIntDecimal | vendor/github.com/sillsm/pseudo-termbox-go/termbox.go:385-396 | `ParseInt` reads back every numeral `AppendUint` writes for a value below 2^63 |
| Bytes.ParseIntRejects | vendor/github.com/sillsm/pseudo-termbox-go/termbox.go:385-396 | a non-digit after the first byte makes `ParseInt` fail |
| Bytes.IndexOf | vendor/github.com/sillsm/pseudo-termbox-go/termbox.go:378 | `strings.Index` gives -1 or a position that holds the byte |
| Bytes.IndexOfFirst | vendor/github.com/sillsm/pseudo-termbox-go/termbox.go:378 | no earlier position holds the byte, and -1 means no position does |
| Bytes.LastIndexOf | vendor/github.com/sillsm/pseudo-termbox-go/termbox.go:379 | `strings.LastIndex` gives -1 or a position that holds the byte |
| Bytes.LastIndexOfLast | vendor/github.com/sillsm/pseudo-termbox-go/termbox.go:379 | no later position holds the byte |
| Bytes.FirstBeforeLast | vendor/github.com/sillsm/pseudo-termbox-go/termbox.go:378-383 | the first `;` comes no later than the last one, and both are missing together, so `s1 == s2` means exactly one `;` |
| Bytes.IndexOfTerminator | vendor/github.com/sillsm/pseudo-termbox-go/termbox.go:358-361 | `strings.IndexAny(buf, "Mm")` gives the first `M` or `m`, or -1 when there is none |
| Utf8.DecodeRune | vendor/github.com/sillsm/pseudo-termbox-go/termbox.go:528 | `utf8.DecodeRune` consumes 1 to 4 bytes of a nonempty input and none of an empty one |
| Utf8.EncodeRune | vendor/github.com/sillsm/pseudo-termbox-go/termbox.go:239-240 | `utf8.EncodeRune` writes 1 to 4 bytes |
| Utf8.DecodeEncode | vendor/github.com/sillsm/pseudo-termbox-go/termbox.go:528-534 | decoding the encoding of a scalar value gives it back and consumes exactly its bytes, whatever follows |
| Utf8.DecodedIsEncoding | vendor/github.com/sillsm/pseudo-termbox-go/termbox.go:528-534 | every rune the decoder accepts is a scalar value read from its one shortest encoding |
| Termbox.SetBit | vendor/github.com/sillsm/pseudo-termbox-go/api.go:446 | `mode \|= bit` sets the bit and keeps every other bit: the same remainder below the bit and the same quotient above it |
| Termbox.ClearBit | vendor/github.com/sillsm/pseudo-termbox-go/api.go:449 | `mode &^= bit` clears the bit and keeps every other bit in the same sense |
| Termbox.TwosComplementBit | vendor/github.com/sillsm/pseudo-termbox-go/termbox.go:403-431 | `&` on a negative int64 tests its two's complement pattern n + 2^64; for every mask dividing 2^63, and for the low two bits, the Euclidean division the model uses reads the same bits from n as from that pattern |
| Decoder.WithMotion | vendor/github.com/sillsm/pseudo-termbox-go/termbox.go:343-345 | `Mod \|= ModMotion` sets ModMotion and keeps ModAlt |
| Decoder.ButtonKey | vendor/github.com/sillsm/pseudo-termbox-go/termbox.go:403-424 | `n1 & 3` and `n1 & 64` choose the key: release exactly when the low bits are 3, right exactly when 2, a wheel exactly when they are below 2 and bit 64 is set; otherwise left or middle |
| Decoder.ExtendedEvent | vendor/github.com/sillsm/pseudo-termbox-go/termbox.go:398-434 | the extended event is a mouse event with Ch and N kept, a release whenever the final byte is `m`, and position (int(n2)-1, int(n3)-1) with Go's 64-bit wrap-around |
| Decoder.ReportFields | vendor/github.com/sillsm/pseudo-termbox-go/termbox.go:378-396 | three fields exactly when the first and last `;` are distinct and the text before, between and after them each parse as int64; so one or no `;`, or any non-integer field, fails |
| Decoder.ParseMouseEvent | vendor/github.com/sillsm/pseudo-termbox-go/termbox.go:316-439 | the consumed count lies within the buffer; success means exactly that something was consumed and the event is a mouse event; failure leaves the event as it was |
| Decoder.ParseExtendedMouse | vendor/github.com/sillsm/pseudo-termbox-go/termbox.go:352-436 | the SGR/urxvt branch succeeds exactly when an `M` or `m` is present and ReportFields of the body between the prefix and it succeeds (both directions); a failure returns 0 and leaves the event unchanged |
| Decoder.FirstKeyMatch | vendor/github.com/sillsm/pseudo-termbox-go/termbox.go:443-449 | the first terminfo key, in table order, that is a prefix of the input, or -1 when none is |
| Decoder.ScanKeyTable | vendor/github.com/sillsm/pseudo-termbox-go/termbox.go:443-449 | the loop over `t.keys` finds the first matching entry and none before it, or reports that none matches |
| Decoder.ParseEscapeSequence | vendor/github.com/sillsm/pseudo-termbox-go/termbox.go:441-453 | the count lies within the buffer, any count is a success, and the event stays a key event or becomes a mouse event |
| Decoder.ExtractEvent | vendor/github.com/sillsm/pseudo-termbox-go/termbox.go:474-538 | starting from N = 0, N lies within the buffer and the decode succeeds exactly when N > 0 |
| Decoder.ExtractEscape | vendor/github.com/sillsm/pseudo-termbox-go/termbox.go:482-512 | the ESC branch: the same bounds through the Esc and Alt fallbacks |
| Decoder.ParseEvent | vendor/github.com/sillsm/pseudo-termbox-go/api.go:280-287 | `EventNone` exactly when `extract_event` fails, and then N is 0; otherwise a key or mouse event that used 1 to len(data) bytes |
| Keystrokes.ButtonCodeBits | vendor/github.com/sillsm/pseudo-termbox-go/termbox.go:321-345 | the low two bits and bit 64 of a button code give the button or wheel, bit 32 gives motion, and the modifier-key bits are ignored |
| Keystrokes.X10Accepts | vendor/github.com/sillsm/pseudo-termbox-go/termbox.go:317-351 | `ESC [ M` with at least 6 bytes consumes 6, the button is buf[3]-32 as a wrapping byte, and the position is (buf[4]-33, buf[5]-33) |
| Keystrokes.X10RoundTrip | vendor/github.com/sillsm/pseudo-termbox-go/termbox.go:317-351 | every X10 report is decoded as its button, motion and position, consuming exactly the report |
| Keystrokes.SeparatedSplit | vendor/github.com/sillsm/pseudo-termbox-go/termbox.go:378-396 | three separator-free fields joined by `;` are split back at the first and the last `;` |
| Keystrokes.FieldsParse | vendor/github.com/sillsm/pseudo-termbox-go/termbox.go:378-396 | the decimal fields of a report parse back to the numbers written |
| Keystrokes.TerminatorAt | vendor/github.com/sillsm/pseudo-termbox-go/termbox.go:358-376 | the first final byte of a report is its own, and the body between prefix and final byte is what was written |
| Keystrokes.ExtendedAccepts | vendor/github.com/sillsm/pseudo-termbox-go/termbox.go:352-436 | a CSI buffer that is not X10 and has three integer fields before its first `M`/`m` consumes up to and including that byte |
| Keystrokes.ExtendedRoundTrip | vendor/github.com/sillsm/pseudo-termbox-go/termbox.go:352-436 | an SGR or urxvt body with three integers is decoded into the extended event whatever follows, with count = index of the final byte + 1 |
| Keystrokes.ExtendedEventReported | vendor/github.com/sillsm/pseudo-termbox-go/termbox.go:398-434 | urxvt's -32, the lowercase-`m` release and the one-based coordinates give back the reported button and position |
| Keystrokes.SgrRoundTrip | vendor/github.com/sillsm/pseudo-termbox-go/termbox.go:352-436 | every SGR-1006 report, press or release, is read back exactly |
| Keystrokes.UrxvtRoundTrip | vendor/github.com/sillsm/pseudo-termbox-go/termbox.go:352-436 | every urxvt-1015 report the model sends (first field 32 and up) is read back exactly |
| Keystrokes.UrxvtAnyCode | vendor/github.com/sillsm/pseudo-termbox-go/termbox.go:352-436 | any urxvt report whose fields are below 2^63, whatever follows it, is decoded with key ButtonKey(a-32) and motion from bit 32 of a-32, also when a-32 is negative, at (b-1, c-1), consuming exactly the report |
| Keystrokes.UrxvtEvent | vendor/github.com/sillsm/pseudo-termbox-go/termbox.go:398-434 | for fields below 2^63 no wrap-around happens: the urxvt event is the report's key, code and zero-based position |
| Keystrokes.UrxvtLowCode | vendor/github.com/sillsm/pseudo-termbox-go/termbox.go:400-431 | a first field below 32 goes negative after -32 with bits 32 and 64 set: wheel up, wheel down, right or release by its low two bits, always with motion |
| Keystrokes.MotionReported | vendor/github.com/sillsm/pseudo-termbox-go/termbox.go:429-431 | an event with no modifier gets ModMotion exactly when the code has bit 32 |
| Keystrokes.UrxvtShows | vendor/github.com/sillsm/pseudo-termbox-go/termbox.go:352-436 | a lone urxvt report decoded from the zero event gives the key, motion flag and position its code and fields stand for |
| Keystrokes.UrxvtTestCodes | vendor/github.com/sillsm/pseudo-termbox-go/api_test.go:143-155 | the first field of each urxvt test row, after -32, is the expected key and motion flag |
| Keystrokes.UrxvtTestRows | vendor/github.com/sillsm/pseudo-termbox-go/api_test.go:143-155 | each of the twelve urxvt rows of the mouse test decodes to the key, motion flag and position the test expects |
| Keystrokes.MouseRoundTrip | vendor/github.com/sillsm/pseudo-termbox-go/termbox.go:316-439 | every mouse report of every dialect is decoded as the event it stands for and consumes exactly its bytes |
| Keystrokes.MouseLengthIndependent | vendor/github.com/sillsm/pseudo-termbox-go/termbox.go:316-439 | the consumed count does not depend on the event being filled |
| Keystrokes.DecodesControl | vendor/github.com/sillsm/pseudo-termbox-go/termbox.go:518-525 | a control byte up to space, or DEL, gives Key = that byte, Ch = 0, N = 1 |
| Keystrokes.DecodesChar | vendor/github.com/sillsm/pseudo-termbox-go/termbox.go:528-534 | a UTF-8 rune gives Ch = rune, Key = 0, N = its encoded length |
| Keystrokes.RejectsMalformed | vendor/github.com/sillsm/pseudo-termbox-go/termbox.go:528-537 | a byte that is not ESC, a control byte or DEL, from which DecodeRune reads RuneError, fails with nothing consumed and the event unchanged |
| Keystrokes.FailsOnlyOnRuneError | vendor/github.com/sillsm/pseudo-termbox-go/termbox.go:474-537 | outside the ESC branch, extract_event fails exactly on an empty buffer or on that RuneError case (both directions) |
| Keystrokes.RejectsBadLead | vendor/github.com/sillsm/pseudo-termbox-go/termbox.go:528-537 | a stray continuation byte, a byte that cannot start UTF-8, or a sequence cut short is rejected and left in place |
| Keystrokes.DecodesTermKey | vendor/github.com/sillsm/pseudo-termbox-go/termbox.go:443-447 | the first matching terminfo entry i gives Key = 0xFFFF - i, Ch = 0, N = its length |
| Keystrokes.DecodesMouse | vendor/github.com/sillsm/pseudo-termbox-go/termbox.go:451-452 | a mouse report no table key shadows is decoded as the report |
| Keystrokes.DecodesEscape | vendor/github.com/sillsm/pseudo-termbox-go/termbox.go:492-498 | an unmatched ESC in Esc mode gives KeyEsc with Mod = 0 and N = 1 |
| Keystrokes.DecodesAltPrefix | vendor/github.com/sillsm/pseudo-termbox-go/termbox.go:499-508 | an unmatched ESC in Alt mode decodes the rest with ModAlt and adds 1 to N |
| Keystrokes.AltUnfolds | vendor/github.com/sillsm/pseudo-termbox-go/termbox.go:499-508 | an Alt action is ESC then the inner action, read in Alt mode, and the expected event is the inner one with ModAlt and one more byte |
| Keystrokes.DecodesAction | vendor/github.com/sillsm/pseudo-termbox-go/termbox.go:474-538 | `extract_event` reads every distinguishable action back as the event that names it, consuming exactly its encoding |
| Keystrokes.ParseEventDecodes | vendor/github.com/sillsm/pseudo-termbox-go/api.go:280-287 | `ParseEvent` returns the event that names the action at the front of the data |
| Polling.Attempt | vendor/github.com/sillsm/pseudo-termbox-go/api.go:337-341 | eviction: the consumed prefix and the rest make up the old buffer, and something is consumed exactly on success |
| Polling.Wait | vendor/github.com/sillsm/pseudo-termbox-go/api.go:346-372 | the select loop returns at the first wake-up that yields an event, all earlier wake-ups being data; a read error returns a fresh EventError, an Interrupt the carried event as EventInterrupt, a window change the carried event as EventResize with the reported size, each leaving the input buffer as it was |
| Polling.Poll | vendor/github.com/sillsm/pseudo-termbox-go/api.go:332-373 | never uses more wake-ups than it is given; an event found without one shortens the buffer; no event means every wake-up was used |
| Polling.PollWakeup | vendor/github.com/sillsm/pseudo-termbox-go/api.go:332-372 | when the buffer holds no event, a read error, an Interrupt or a window change ends PollEvent at once with EventError, EventInterrupt or EventResize (with the reported size), the buffer left as it was |
| Polling.AltMarkCarriesOver | vendor/github.com/sillsm/pseudo-termbox-go/api.go:333-366 | in Alt mode a lone ESC fails with ModAlt set, and the EventInterrupt that follows still carries ModAlt |
| Polling.PollFirst | vendor/github.com/sillsm/pseudo-termbox-go/api.go:335-344 | a buffer that starts with an action returns its event at once and evicts exactly its bytes |
| Polling.DataArrives | vendor/github.com/sillsm/pseudo-termbox-go/api.go:348-362 | a blocked call returns the action the next read delivers and keeps the rest |
| Polling.SeparableTail | vendor/github.com/sillsm/pseudo-termbox-go/api.go:335-344 | after the first action is evicted, the rest of a separable stream is still separable |
| Polling.StreamDecodes | vendor/github.com/sillsm/pseudo-termbox-go/api_test.go:189-222 | actions buffered together come back one per PollEvent, in the order sent, leaving exactly what followed them; the buffered urxvt row `ESC[21;49;13M` is not a report the model sends, and Keystrokes.UrxvtAnyCode decodes it whatever follows |
| Escapes.ColorOf | vendor/github.com/sillsm/pseudo-termbox-go/termbox.go:173-210 | the colour per output mode, exactly: Output256 keeps `a & 0x1FF`; Output216 gives ColorDefault for a masked 0 or a value above 216 and adds 0x10 otherwise (so 0 or 0x11..0xE8); grayscale gives ColorDefault for 0 or above 26 and the table entry otherwise; normal keeps `a & 0x0F` |
| Escapes.ReadParamsJoin | vendor/github.com/sillsm/pseudo-termbox-go/termbox.go:93-99 | the parameters written between `;` are read back |
| Escapes.ReadCsiWritten | vendor/github.com/sillsm/pseudo-termbox-go/termbox.go:93-99 | a control sequence that was written is read back as its parameters and final byte |
| Escapes.PaletteParams | vendor/github.com/sillsm/pseudo-termbox-go/termbox.go:101-106 | the parameter list 38;5;n (or 48;5;n) is the text "38;5;" followed by the numeral of n |
| Escapes.GrayEntry | vendor/github.com/sillsm/pseudo-termbox-go/termbox.go:192-206 | in grayscale mode colour a in 1..26 is table entry a |
| Escapes.CupMovesTo | vendor/github.com/sillsm/pseudo-termbox-go/termbox.go:93-99 | `write_cursor(x, y)` on the screen is exactly CSI y+1;x+1 H |
| Escapes.CupReads | vendor/github.com/sillsm/pseudo-termbox-go/termbox.go:93-99 | `write_cursor(x, y)` for any x, y reads back as CUP with the parameters uint64(y+1) and uint64(x+1) |
| Escapes.CupIsCsi | vendor/github.com/sillsm/pseudo-termbox-go/termbox.go:93-99 | `write_cursor`'s bytes are the control sequence with parameters uint64(y+1);uint64(x+1) and final H |
| Escapes.SgrFgReads | vendor/github.com/sillsm/pseudo-termbox-go/termbox.go:101-112 | `write_sgr_fg` reads back as SGR 38;5;n with n = uint16(a-1) in the palette modes, and as SGR 30+n otherwise when n is one digit |
| Escapes.SgrBgReads | vendor/github.com/sillsm/pseudo-termbox-go/termbox.go:114-125 | `write_sgr_bg` reads back as SGR 48;5;n in the palette modes, and as SGR 40+n otherwise when n is one digit |
| Escapes.Sgr | vendor/github.com/sillsm/pseudo-termbox-go/termbox.go:127-143 | in the palette modes `write_sgr` writes exactly the fg sequence then the bg sequence |
| Escapes.SgrReads | vendor/github.com/sillsm/pseudo-termbox-go/termbox.go:136-141 | outside the palette modes `write_sgr` reads back as one SGR with 30+f and 40+g for one-digit f and g |
| Escapes.BasicParam | vendor/github.com/sillsm/pseudo-termbox-go/termbox.go:107-111 | ESC [ 3n m (or 4n) with one digit n reads back as the single parameter 30+n (or 40+n) |
| Escapes.PaletteIsCsi | vendor/github.com/sillsm/pseudo-termbox-go/termbox.go:104-106 | ESC [ 38;5; n m is the control sequence with parameters 38, 5, n |
| Escapes.NormalPair | vendor/github.com/sillsm/pseudo-termbox-go/termbox.go:136-140 | ESC [ 3f;4g m with one-digit f, g is the control sequence with parameters 30+f and 40+g |
| Escapes.ColorBytes | vendor/github.com/sillsm/pseudo-termbox-go/termbox.go:212-220 | nothing exactly when both colours are the default; in the palette modes, the fg sequence for a non-default fg followed by the bg sequence for a non-default bg |
| Escapes.AttrBytes | vendor/github.com/sillsm/pseudo-termbox-go/termbox.go:169-233 | send_attr's bytes are exactly sgr0, the colour sequences, then bold when fg has AttrBold, blink when bg has AttrBold, underline when fg has AttrUnderline, and reverse when either has AttrReverse, in that order |
| Escapes.PlainAttrBytes | vendor/github.com/sillsm/pseudo-termbox-go/termbox.go:222-233 | with every capability string nonempty, nothing follows the colours exactly when no bold, blink, underline or reverse bit is set |
| Escapes.SgrOneSequence | vendor/github.com/sillsm/pseudo-termbox-go/termbox.go:136-141 | outside the palette modes `write_sgr` is one sequence whose only `m` is its last byte |
| Escapes.GrayscaleShades | vendor/github.com/sillsm/pseudo-termbox-go/termbox.go:45-50 | the table is black (17), the 24 shades 233..256 in order, then 232 |
| Escapes.CubeColorsDistinct | vendor/github.com/sillsm/pseudo-termbox-go/termbox.go:177-191 | Output216 maps colours 1..216 to distinct, non-default palette entries |
| Escapes.GrayColorsDistinct | vendor/github.com/sillsm/pseudo-termbox-go/termbox.go:192-206 | OutputGrayscale maps colours 1..26 to distinct, non-default palette entries |
| Grid.RowStartProduct | vendor/github.com/sillsm/pseudo-termbox-go/termbox_common.go:14 | the grid has width x height cells |
| Grid.IsCursorHidden | vendor/github.com/sillsm/pseudo-termbox-go/termbox_common.go:55-59 | hidden exactly when x or y is -1 |
| Grid.ResizeGrid | vendor/github.com/sillsm/pseudo-termbox-go/termbox_common.go:17-44 | the resized grid has w x h cells |
| Grid.ResizeKeepsOverlap | vendor/github.com/sillsm/pseudo-termbox-go/termbox_common.go:26-43 | after resize, every cell of the overlap is the old cell at the same column and row, and every other cell is blank |
| Grid.ResizeSameSize | vendor/github.com/sillsm/pseudo-termbox-go/termbox_common.go:18-20 | resizing to the current dimensions keeps every cell |
| Grid.GridByCells | vendor/github.com/sillsm/pseudo-termbox-go/termbox_common.go:38-43 | after the copy loop over all overlap rows, the grid is the resized grid |
| Grid.OffsetInRange | vendor/github.com/sillsm/pseudo-termbox-go/api.go:255-259 | a position inside width x height indexes a cell of the buffer |
| Grid.UpdateOneCell | vendor/github.com/sillsm/pseudo-termbox-go/api.go:259 | writing cell y*width+x changes no other cell |
| Grid.CellBuf.constructor | vendor/github.com/sillsm/pseudo-termbox-go/api.go:25-47 | the zero cellbuf of a new client: 0 x 0 with no cells |
| Grid.CellBuf.Init | vendor/github.com/sillsm/pseudo-termbox-go/termbox_common.go:11-15 | sets width and height and allocates width x height zero cells |
| Grid.CellBuf.Clear | vendor/github.com/sillsm/pseudo-termbox-go/termbox_common.go:46-53 | every cell becomes a space in the given colours; dimensions and array stay |
| Grid.CellBuf.Resize | vendor/github.com/sillsm/pseudo-termbox-go/termbox_common.go:17-44 | with the same dimensions nothing changes; otherwise a fresh array holds exactly ResizeGrid |
| Grid.CellBuf.CopyRow | vendor/github.com/sillsm/pseudo-termbox-go/termbox_common.go:39-42 | one `copy` moves the overlap of one row and leaves every other cell |
| Render.SendAttr | vendor/github.com/sillsm/pseudo-termbox-go/termbox.go:164-236 | the pair is remembered and output only grows; a repeated pair writes nothing |
| Render.SendAttrIdempotent | vendor/github.com/sillsm/pseudo-termbox-go/termbox.go:165-167 | sending the same pair twice writes it once |
| Render.SendChar | vendor/github.com/sillsm/pseudo-termbox-go/termbox.go:238-246 | (lastx, lasty) becomes (x, y), the attributes stay, and output only grows |
| Render.SendCharAdjacent | vendor/github.com/sillsm/pseudo-termbox-go/termbox.go:241-243 | a character right after the last one is written without a cursor move |
| Render.SendCharReads | vendor/github.com/sillsm/pseudo-termbox-go/termbox.go:238-246 | what is appended reads back as CSI y+1;x+1 H exactly when (x-1, y) is not the last cell, then the rune |
| Render.CellWidth | vendor/github.com/sillsm/pseudo-termbox-go/api.go:193-196 | the step width is 1 or 2; width 0 and ambiguous width 2 count as 1 |
| Render.Printable | vendor/github.com/sillsm/pseudo-termbox-go/api.go:190-192 | a back cell below space becomes a space with its colours kept; others are unchanged |
| Render.Step | vendor/github.com/sillsm/pseudo-termbox-go/api.go:186-220 | one cell keeps the buffers' sizes and steps at least one column |
| Render.StepWrites | vendor/github.com/sillsm/pseudo-termbox-go/api.go:186-220 | a cell equal to its front cell writes nothing and leaves the front; a differing cell sends its attributes then its glyph; a wide glyph in the last column is sent as a space; elsewhere a wide glyph makes the next front cell Cell{0, fg, bg} and changes no other |
| Render.StepLocal | vendor/github.com/sillsm/pseudo-termbox-go/api.go:187-218 | a step changes only its own back cell (to printable), makes front equal to back there, steps by its width, and touches no earlier front cell |
| Render.StepSettles | vendor/github.com/sillsm/pseudo-termbox-go/api.go:187-219 | after one step its cell is printable, front equals back there, and the step is that cell's width |
| Render.PassAfterStep | vendor/github.com/sillsm/pseudo-termbox-go/api.go:186-219 | the pass from a cell is its step then the pass from the next cell |
| Render.PassKeepsReached | vendor/github.com/sillsm/pseudo-termbox-go/api.go:184-221 | the pass never revisits a cell it has passed |
| Render.SettledAfterStep | vendor/github.com/sillsm/pseudo-termbox-go/api.go:186-220 | a settled cell stays settled while the pass goes on from the next cell |
| Render.PassSettles | vendor/github.com/sillsm/pseudo-termbox-go/api.go:184-221 | after the pass, every visited cell is printable and equal in back and front |
| Render.SettledPassIsIdle | vendor/github.com/sillsm/pseudo-termbox-go/api.go:197-200 | on settled buffers the pass changes nothing and writes nothing |
| Render.FlushFrame | vendor/github.com/sillsm/pseudo-termbox-go/api.go:177-226 | Flush without a pending resize keeps the buffers' sizes |
| Render.FlushTwice | vendor/github.com/sillsm/pseudo-termbox-go/api.go:184-225 | a second Flush with nothing set in between changes no cell and writes only the cursor position, or nothing when the cursor is hidden |
| Render.SendClearOut | vendor/github.com/sillsm/pseudo-termbox-go/termbox.go:256-272 | `send_clear` remembers the current colours, forgets the cursor cell, and only appends |
| Render.ResizeFrame | vendor/github.com/sillsm/pseudo-termbox-go/termbox.go:276-282 | the back buffer is exactly ResizeGrid of the old one (overlap kept, rest blank), the front one is all blank, the output is send_clear's and is handed on whole, and the remembered state is send_clear's: the pair (fg, bg) that the next send_attr compares against, and the cursor cell forgotten |
| Client.NormalInputMode | vendor/github.com/sillsm/pseudo-termbox-go/api.go:445-450 | exactly one of Esc and Alt; Alt only when Alt was asked without Esc; the mouse and higher bits kept |
| Client.NormalInputModeStable | vendor/github.com/sillsm/pseudo-termbox-go/api.go:441-458 | setting the mode that was returned gives the same mode |
| Client.CursorBytes | vendor/github.com/sillsm/pseudo-termbox-go/api.go:229-241 | moving to a hidden cursor writes hide_cursor only if the cursor was shown; moving to a shown cursor writes show_cursor only if it was hidden, then CUP to the new position |
| Client.ResizeAsWritten | vendor/github.com/sillsm/pseudo-termbox-go/termbox.go:276-280 | as written: the buffers take the new size, but termw/termh keep the old one |
| Client.SizeGoesStale | vendor/github.com/sillsm/pseudo-termbox-go/api.go:416-418 | after a window change as written, Size() disagrees with the buffers |
| Client.TermClient.constructor | vendor/github.com/sillsm/pseudo-termbox-go/api.go:25-47 | NewClient's defaults: Esc input, normal output, invalid last attributes and cell, hidden cursor, default colours, empty input |
| Client.TermClient.Init | vendor/github.com/sillsm/pseudo-termbox-go/api.go:98-107 | enter_ca, keypad, hide_cursor and clear are written; both buffers are w x h blank cells; IsInit is set |
| Client.TermClient.Close | vendor/github.com/sillsm/pseudo-termbox-go/api.go:146-174 | the six restore strings go to the terminal in order and the state is reset for the next Init |
| Client.TermClient.WriteCursor | vendor/github.com/sillsm/pseudo-termbox-go/termbox.go:93-99 | appends the CUP sequence and changes nothing else |
| Client.TermClient.SendAttr | vendor/github.com/sillsm/pseudo-termbox-go/termbox.go:164-236 | updates the output as Render.SendAttr in the current output mode |
| Client.TermClient.SendChar | vendor/github.com/sillsm/pseudo-termbox-go/termbox.go:238-246 | updates the output as Render.SendChar |
| Client.TermClient.FlushOut | vendor/github.com/sillsm/pseudo-termbox-go/termbox.go:248-254 | the whole output buffer goes to the writer and is emptied |
| Client.TermClient.SendClear | vendor/github.com/sillsm/pseudo-termbox-go/termbox.go:256-272 | writes Render.SendClearOut's bytes through flush |
| Client.TermClient.UpdateSize | vendor/github.com/sillsm/pseudo-termbox-go/termbox.go:274-286 | no pending size: nothing changes; a pending size: the screen becomes ResizeFrame's and Size() reports the new size (corrected) |
| Client.TermClient.StepCell | vendor/github.com/sillsm/pseudo-termbox-go/api.go:186-220 | one iteration of the inner loop computes Render.Step |
| Client.TermClient.StepTowards | vendor/github.com/sillsm/pseudo-termbox-go/api.go:186-219 | one iteration keeps the pass's end result |
| Client.TermClient.RowPass | vendor/github.com/sillsm/pseudo-termbox-go/api.go:186-220 | the inner loop over a row carries the pass to the next row |
| Client.TermClient.DiffPass | vendor/github.com/sillsm/pseudo-termbox-go/api.go:184-221 | the nested loops compute Render.Pass over the whole screen |
| Client.TermClient.Flush | vendor/github.com/sillsm/pseudo-termbox-go/api.go:177-226 | Flush is FlushFrame, preceded by ResizeFrame when a size is pending; the output goes to the writer (corrected) |
| Client.TermClient.SetCursor | vendor/github.com/sillsm/pseudo-termbox-go/api.go:229-242 | the cursor is stored and the show/hide string and position are appended |
| Client.TermClient.HideCursor | vendor/github.com/sillsm/pseudo-termbox-go/api.go:245-247 | SetCursor(-1, -1): the cursor becomes hidden, the rest of the session stays, hide_cursor is written only if the cursor was shown, and input, terminal and writer are untouched |
| Client.TermClient.SetCell | vendor/github.com/sillsm/pseudo-termbox-go/api.go:251-260 | outside the buffer nothing changes; inside, only cell (x, y) changes and it becomes {ch, fg, bg} |
| Client.TermClient.Size | vendor/github.com/sillsm/pseudo-termbox-go/api.go:416-418 | returns termw and termh, which while initialised are the back buffer's size (corrected) |
| Client.TermClient.Clear | vendor/github.com/sillsm/pseudo-termbox-go/api.go:421-426 | the colours are taken, a pending size is applied, and every back cell becomes a space in fg/bg (corrected) |
| Client.TermClient.SetInputMode | vendor/github.com/sillsm/pseudo-termbox-go/api.go:441-459 | InputCurrent returns the mode and changes nothing; otherwise the normalised mode is stored and returned, and mouse reporting is switched on or off |
| Client.TermClient.SetOutputMode | vendor/github.com/sillsm/pseudo-termbox-go/api.go:500-507 | OutputCurrent returns the mode and changes nothing; any other value is stored and returned |
| Client.TermClient.TryExtract | vendor/github.com/sillsm/pseudo-termbox-go/api.go:337-341 | one decode and eviction, as Polling.Attempt |
| Client.TermClient.PollEvent | vendor/github.com/sillsm/pseudo-termbox-go/api.go:332-373 | the method computes Polling.Poll, and the event, the remaining input and the wake-ups used agree with it |
| Client.TermClient.ExtractRawEvent | vendor/github.com/sillsm/pseudo-termbox-go/termbox.go:455-472 | with input and room, the buffered bytes that fit move into data in order, N is their count, and nothing is lost |
| Game.Entity.constructor | game.go:232-241 | makeEntity: position (x, y), HP 10, AC 10, Str 5 |
| Game.Messages.constructor | game.go:307-309 | the log holds the given messages at the given location |
| Game.Level.constructor | game.go:295 | a level holds the given map and no entities |
| Game.Entity.SetAttribute | game.go:71-75 | the attribute takes the value and reads back as it; every other attribute keeps its value |
| Game.Messages.Broadcast | game.go:85-88 | appends the message and advances the location, which keeps Display on the newest message |
| Game.Messages.Display | game.go:89-91 | the message at the location, the newest one while the location is kept at the end |
| Game.Level.RegisterEntity | game.go:130-132 | appends the entity after all earlier ones |
| Game.Level.GetEntity | game.go:107-115 | the loop returns exactly Occupants, the registered entities on (x, y) in registration order |
| Game.Occupants | game.go:107-115 | the filter returns no more entities than are registered |
| Game.OccupantsMembers | game.go:107-115 | an entity is returned exactly when it is registered and stands on (x, y) |
| Game.OccupantsConcat | game.go:107-115 | filtering keeps registration order |
| Game.RegisterOccupants | game.go:130-132 | registering an entity adds it to the occupants of its own tile and of no other |
| Game.OccupantsEmpty | game.go:222-223 | no occupants exactly when no registered entity stands on the tile |
| Game.GetTile | game.go:118-128 | (corrected) a position on the map gives (tile, true); any other gives (' ', false) |
| Game.GetTileAsWritten | game.go:118-128 | as written: the index faults exactly when the row is shorter than row 0 and x falls in between |
| Game.AsWrittenOnRectangle | game.go:122-127 | on a rectangular map the written bound and the corrected bound agree everywhere |
| Game.RaggedMapPanics | game.go:123-127 | a 2-and-1 ragged map at (1, 1) passes the guard and reads past row 1 |
| Game.Target | game.go:203-214 | choices 1..4 aim at a neighbour tile along a row or column; any other choice aims at the tile itself |
| Game.BumpMessage | game.go:224 | "S bumped T." ends with a full stop |
| Game.BumpNamesMover | game.go:224 | the message starts with the mover's symbol, which reads back as that symbol |
| Game.Decide | game.go:199-229 | (corrected GetTile) choice 5 does nothing; something happens (a bump or a step) exactly when the target is floor; a bump names the first entity registered on the target; a step goes to an empty target one tile away |
| Game.StepEntity | game.go:227-228 | only xpos and ypos change, and no two entities come to share a tile |
| Game.Movement | game.go:199-229 | (corrected GetTile) does what Decide says: nothing, one bump message appended with no move, or a move of xpos/ypos only; entities stay on distinct tiles |
| Game.MoveOnto | game.go:215-228 | (corrected GetTile) once the target is known, the same outcome as Movement |

## Findings

| source | as written | input that shows it | evidently intended | confidence | as-written member | corrected member |
|---|---|---|---|---|---|---|
| vendor/github.com/sillsm/pseudo-termbox-go/termbox.go:277-278 | `termw := size.Cols` and `termh := size.Rows` declare new local variables, so the fields Size() returns are never updated | a window change from 80x24 to 100x30 arrives on Win_chan before Flush: the buffers become 100x30 and Size() still returns 80x24 | assign the fields (`t.termw, t.termh = size.Cols, size.Rows`), as the commented-out code below it does | high (not executed) | Client.ResizeAsWritten, Client.SizeGoesStale | Client.TermClient.UpdateSize |
| game.go:123 | the column bound of every row is taken from row 0 (`len(l.Game[0])`) | a map loaded with rows of lengths 2 and 1: GetTile(1, 1) passes the guard and indexes past the end of row 1, an index panic | bound x by the length of row y; the comment above the guard asks for this fix | high (not executed) | Game.GetTileAsWritten, Game.RaggedMapPanics | Game.GetTile |

The rest of the model uses the corrected definitions. `Client.TermClient.Valid` states that `termw` and `termh` equal the back buffer's size; only the corrected `UpdateSize` keeps that, so every method that keeps `Valid` (`Size`, `Flush`, `Clear` among them) relies on it. `Game.Walkable`, `Game.Decide`, `Game.Movement` and `Game.MoveOnto` read tiles through the corrected `GetTile`.

## Left out

- **Terminal setup and teardown.** Opening /dev/tty, raw mode (`tcgetattr`/`tcsetattr`), `fcntl`, `signal.Notify` and `get_term_size` are operating-system calls. Their results come in as parameters: the size for `Init`, the size in a pending resize and in a `Resize` wake-up, and the `keys` and `funcs` tables for the constructor.
- **`setup_term`** is not part of this model. The terminfo tables it fills are constructor parameters.
- **Concurrency.** The reader goroutine, the `input_comm`, `interrupt_comm`, `sigwinch`, `quit` and `Win_chan` channels, and `Interrupt` are left out, because the model is sequential.
  - What PollEvent's select receives is a sequence of `Polling.Wakeup` values.
  - update_size_maybe's non-blocking receive is an optional pending size.
- **`flush`'s `io.Copy`** is modelled as appending `outbuf` to `written`. Write errors are not modelled, so `Flush`, `Clear` and `send_clear` return no error.
- **`runewidth.RuneWidth` and `runewidth.IsAmbiguousWidth`** come from a foreign library. They are given as the set of wide runes and the set of ambiguous runes. Every rune outside the wide set counts as width 1, which is what Flush makes of widths 0 and 1.
- **The `fmt.Printf` debug output** in the decoder is left out, as is `PollEvent2`, which is debug scaffolding.
- **`PollRawEvent`** is commented out in the source, so it is not modelled. `extract_raw_event`, which only it would call, is modelled as `TermClient.ExtractRawEvent`.
- **`Sync`** is a composition of modelled pieces: front clear, `send_clear`, then `Flush`. It gets no method of its own.
- **`CellBuffer`** returns an alias of the back buffer's slice, and aliasing through the returned slice is not modelled.
- **Error values of `EventError`** (`Err`) are not modelled. An `EventError` event carries only its type.
- **game.go's `main`, `roll`, `RandomAI`, `IgnoreAI`, `Level.Tick` and `LoadMapFromFile`** are left out. They involve random numbers, goroutines, channels and file input.
- **`drawGame`** only calls `SetCell`. It is left out.
- **The `Entity` mutex, `Predicates`, `Tock` and `Events`** are left out, for the same reasons as the game loop above.
- Game.Entity.GetAttribute: requires the attribute to exist, because the source panics on a missing one. It has no contract of its own: `SetAttribute` states what reading back gives.
- Game.Messages.Display: requires the location to index the log, because the source's slice index panics otherwise.
- Game.Movement: assumes every registered entity has xpos and ypos, because `GetEntity` panics otherwise. `makeEntity` always sets both.
