/** PollEvent of api.go as a function of the input buffer and of what wakes
    the blocked call up: data read from the terminal, a read error, an
    Interrupt call or a window-size change. The TermClient method in
    client.dfy is proved to compute it. */
module Polling {
  import opened Bytes
  import opened Termbox
  import opened Decoder
  import opened Keystrokes

  /** One wake-up of the select loop in PollEvent; a Resize carries what
      get_term_size reports. */
  datatype Wakeup = Data(data: bytes) | ReadError | Interrupt | Resize(width: int, height: int)

  /** The event returned (None while PollEvent is still blocked), the input
      buffer left behind, and how many wake-ups were consumed. */
  datatype Polled = Polled(ev: Option<Event>, inbuf: bytes, used: nat)

  /** One call of extract_event on the input buffer followed by the eviction
      of the N bytes it consumed. The consumed prefix and what remains make
      up the buffer, and something is consumed exactly when an event is
      decoded. */
  function Attempt(keys: seq<bytes>, mode: int, buf: bytes, ev: Event): (r: (Event, bool, bytes))
    requires ModeDecodes(mode) && ev.n == 0
    ensures 0 <= r.0.n <= |buf| && buf == buf[..r.0.n] + r.2
    ensures r.1 <==> r.0.n > 0
  {
    var (e, ok) := ExtractEvent(keys, mode, buf, ev);
    (e, ok, if e.n != 0 then buf[e.n..] else buf)
  }

  /** The select loop of PollEvent over the wake-ups ws, the event of the
      failed attempts carried along. It returns at the first wake-up that
      yields an event, and consumes every wake-up when none does. */
  function Wait(keys: seq<bytes>, mode: int, inbuf: bytes, ev: Event, ws: seq<Wakeup>): (r: Polled)
    requires ModeDecodes(mode) && ev.n == 0
    ensures r.used <= |ws|
    ensures r.ev.None? ==> r.used == |ws| && forall k :: 0 <= k < |ws| ==> ws[k].Data?
    ensures r.ev.Some? ==> 1 <= r.used && forall k :: 0 <= k < r.used - 1 ==> ws[k].Data?
    ensures |ws| > 0 && ws[0] == ReadError ==> r == Polled(Some(ZeroEvent.(kind := EventError)), inbuf, 1)
    ensures |ws| > 0 && ws[0] == Interrupt ==> r == Polled(Some(ev.(kind := EventInterrupt)), inbuf, 1)
    ensures |ws| > 0 && ws[0].Resize? ==>
      r == Polled(Some(ev.(kind := EventResize, width := ws[0].width, height := ws[0].height)), inbuf, 1)
    decreases |ws|
  {
    if |ws| == 0 then Polled(None, inbuf, 0)
    else match ws[0]
      case ReadError => Polled(Some(ZeroEvent.(kind := EventError)), inbuf, 1)
      case Interrupt => Polled(Some(ev.(kind := EventInterrupt)), inbuf, 1)
      case Resize(w, h) => Polled(Some(ev.(kind := EventResize, width := w, height := h)), inbuf, 1)
      case Data(d) =>
        var a := Attempt(keys, mode, inbuf + d, ev);
        if a.1 then Polled(Some(a.0), a.2, 1)
        else
          var r := Wait(keys, mode, a.2, a.0, ws[1..]);
          assert forall k :: 1 <= k < |ws| ==> ws[1..][k - 1] == ws[k];
          r.(used := r.used + 1)
  }

  /** PollEvent: an event already in the input buffer is returned at once;
      otherwise the select loop runs. */
  function Poll(keys: seq<bytes>, mode: int, inbuf: bytes, ws: seq<Wakeup>): (r: Polled)
    requires ModeDecodes(mode)
    ensures r.used <= |ws|
    ensures r.ev.Some? && r.used == 0 ==> |r.inbuf| < |inbuf|
    ensures r.ev.None? ==> r.used == |ws|
  {
    var a := Attempt(keys, mode, inbuf, ZeroEvent);
    if a.1 then Polled(Some(a.0), a.2, 0) else Wait(keys, mode, a.2, a.0, ws)
  }

  /** When the input buffer holds no event, a read error, an Interrupt or a
      window change ends PollEvent at once: a fresh EventError, or the event
      of the failed attempt turned into EventInterrupt or into EventResize
      with the reported size; the input buffer is left as it was. */
  lemma PollWakeup(keys: seq<bytes>, mode: int, inbuf: bytes, w: Wakeup, more: seq<Wakeup>)
    requires ModeDecodes(mode) && !w.Data? && !ExtractEvent(keys, mode, inbuf, ZeroEvent).1
    ensures var e := ExtractEvent(keys, mode, inbuf, ZeroEvent).0;
      Poll(keys, mode, inbuf, [w] + more) == Polled(Some(match w
        case ReadError => ZeroEvent.(kind := EventError)
        case Interrupt => e.(kind := EventInterrupt)
        case Resize(width, height) => e.(kind := EventResize, width := width, height := height)), inbuf, 1)
  {
    var a := Attempt(keys, mode, inbuf, ZeroEvent);
    assert a.2 == inbuf;
    assert ([w] + more)[0] == w;
  }

  /** A lone ESC in Alt mode is not an event: the failed attempt marks the
      event with ModAlt, and that mark is still on the event an Interrupt
      makes PollEvent return. */
  lemma AltMarkCarriesOver(keys: seq<bytes>)
    requires forall j :: 0 <= j < |keys| ==> !IsPrefix(keys[j], [ESC])
    ensures Poll(keys, InputAlt, [ESC], [Interrupt]) ==
      Polled(Some(ZeroEvent.(mod := ModAlt, kind := EventInterrupt)), [ESC], 1)
  {
    assert HasBit(InputAlt, InputAlt) && !HasBit(InputAlt, InputEsc);
    assert !StartsX10([ESC]) && !StartsCsi([ESC]);
    var p := ParseEscapeSequence(keys, ZeroEvent, [ESC]);
    assert FirstKeyMatch(keys, [ESC]) == -1;
    assert p == ParseMouseEvent(ZeroEvent, [ESC]) && p.n == 0 && p.ev == ZeroEvent;
    assert [ESC][1..] == [];
    assert ExtractEvent(keys, InputAlt, [], ZeroEvent.(mod := ModAlt)) == (ZeroEvent.(mod := ModAlt), false);
    assert ExtractEscape(keys, InputAlt, [ESC], ZeroEvent) == (ZeroEvent.(mod := ModAlt), false);
    assert ExtractEvent(keys, InputAlt, [ESC], ZeroEvent) == (ZeroEvent.(mod := ModAlt), false);
    PollWakeup(keys, InputAlt, [ESC], Interrupt, []);
    assert [Interrupt] + [] == [Interrupt];
  }

  predicate AllSendable(keys: seq<bytes>, actions: seq<Input>) {
    forall i :: 0 <= i < |actions| ==> Sendable(keys, actions[i])
  }

  /** The bytes the terminal sends for a series of actions. */
  function EncodeAll(keys: seq<bytes>, actions: seq<Input>): bytes
    requires AllSendable(keys, actions)
    decreases |actions|
  {
    if |actions| == 0 then [] else Encode(keys, actions[0]) + EncodeAll(keys, actions[1..])
  }

  /** Every action can be told apart from everything sent after it. */
  predicate Separable(keys: seq<bytes>, mode: int, actions: seq<Input>, rest: bytes)
    requires AllSendable(keys, actions)
  {
    forall i :: 0 <= i < |actions| ==>
      Distinguishable(keys, mode, actions[i], EncodeAll(keys, actions[i + 1..]) + rest)
  }

  /** k calls of PollEvent on a buffer that already holds every event, so
      that none of them blocks: the events returned and the buffer left. */
  function PollEach(keys: seq<bytes>, mode: int, inbuf: bytes, k: nat): (r: (seq<Option<Event>>, bytes))
    requires ModeDecodes(mode)
    ensures |r.0| == k
  {
    if k == 0 then ([], inbuf)
    else
      var p := Poll(keys, mode, inbuf, []);
      var more := PollEach(keys, mode, p.inbuf, k - 1);
      ([p.ev] + more.0, more.1)
  }

  /** The event that names each action, in order. */
  function Named(keys: seq<bytes>, actions: seq<Input>): (r: seq<Option<Event>>)
    requires AllSendable(keys, actions)
    ensures |r| == |actions|
    decreases |actions|
  {
    if |actions| == 0 then [] else [Some(Expected(keys, actions[0], ZeroEvent))] + Named(keys, actions[1..])
  }

  /** The actions after the first are sendable and separable in their turn. */
  lemma SeparableTail(keys: seq<bytes>, mode: int, actions: seq<Input>, rest: bytes)
    requires |actions| > 0 && AllSendable(keys, actions) && Separable(keys, mode, actions, rest)
    ensures AllSendable(keys, actions[1..]) && Separable(keys, mode, actions[1..], rest)
    ensures EncodeAll(keys, actions) + rest == Encode(keys, actions[0]) + (EncodeAll(keys, actions[1..]) + rest)
  {
    var tail := actions[1..];
    assert forall i :: 0 <= i < |tail| ==> tail[i] == actions[i + 1];
    forall i | 0 <= i < |tail|
      ensures Distinguishable(keys, mode, tail[i], EncodeAll(keys, tail[i + 1..]) + rest)
    {
      assert tail[i + 1..] == actions[i + 2..];
    }
  }

  /** A PollEvent on a buffer that starts with a distinguishable action
      returns that action without blocking and evicts exactly its bytes. */
  lemma PollFirst(keys: seq<bytes>, mode: int, a: Input, after: bytes)
    requires ModeDecodes(mode) && Sendable(keys, a) && Distinguishable(keys, mode, a, after)
    ensures Poll(keys, mode, Encode(keys, a) + after, []) == Polled(Some(Expected(keys, a, ZeroEvent)), after, 0)
  {
    var buf := Encode(keys, a) + after;
    DecodesAction(keys, mode, a, after, ZeroEvent);
    assert buf[Expected(keys, a, ZeroEvent).n..] == after;
  }

  /** Input that is already buffered is read back action by action, in the
      order sent, each PollEvent evicting exactly one action's bytes. */
  lemma {:induction false} StreamDecodes(keys: seq<bytes>, mode: int, actions: seq<Input>, rest: bytes)
    requires ModeDecodes(mode) && AllSendable(keys, actions) && Separable(keys, mode, actions, rest)
    ensures PollEach(keys, mode, EncodeAll(keys, actions) + rest, |actions|) == (Named(keys, actions), rest)
    decreases |actions|
  {
    if |actions| == 0 {
      assert EncodeAll(keys, actions) + rest == rest;
    } else {
      var tail := actions[1..];
      SeparableTail(keys, mode, actions, rest);
      var after := EncodeAll(keys, tail) + rest;
      PollFirst(keys, mode, actions[0], after);
      StreamDecodes(keys, mode, tail, rest);
      var p := Poll(keys, mode, EncodeAll(keys, actions) + rest, []);
      assert p.inbuf == after;
      assert PollEach(keys, mode, EncodeAll(keys, actions) + rest, |actions|)
        == ([p.ev] + PollEach(keys, mode, after, |tail|).0, PollEach(keys, mode, after, |tail|).1);
    }
  }

  /** A blocked PollEvent returns the action that the next read delivers,
      and keeps what follows it for the next call. */
  lemma DataArrives(keys: seq<bytes>, mode: int, a: Input, rest: bytes)
    requires ModeDecodes(mode) && Sendable(keys, a) && Distinguishable(keys, mode, a, rest)
    ensures Poll(keys, mode, [], [Data(Encode(keys, a) + rest)]) == Polled(Some(Expected(keys, a, ZeroEvent)), rest, 1)
  {
    DecodesAction(keys, mode, a, rest, ZeroEvent);
    assert [] + (Encode(keys, a) + rest) == Encode(keys, a) + rest;
  }
}
