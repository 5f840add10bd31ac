/** Outbound side of a vDC-API connection: `sendMessage` frames a packed
    message and writes it, buffering whatever the socket does not take;
    `canSendData` drains that buffer when the socket becomes writable; and
    `closeAfterSend` asks for the connection to be closed once drained.

    The socket is replaced by an oracle: each write attempt is answered with
    the number of bytes the transport accepted, or with a write error. */
module Transmit {
  import opened Basics
  import opened Framing

  /** `transmitBuffer`, `closeWhenSent`, whether the ready-for-send handler is
      installed, and whether `closeConnection` has been called. */
  datatype TxState = TxState(buffer: seq<byte>, closeWhenSent: bool, handlerArmed: bool, closed: bool)

  const InitialTx: TxState := TxState([], false, false, false)

  /** The transport's answer to one `transmitBytes` call. */
  datatype Outcome = Accepted(k: nat) | WriteError

  /** Bytes actually taken when `n` are offered. */
  function Taken(o: Outcome, n: nat): (t: nat)
    requires o.Accepted?
    ensures t <= n && (t == n <==> o.k >= n)
  {
    if o.k < n then o.k else n
  }

  /** The transmit handler is installed exactly while bytes wait in the buffer. */
  predicate Armed(s: TxState)
  {
    s.handlerArmed <==> |s.buffer| > 0
  }

  /** Result of one step: the new state, the bytes that went onto the wire, and whether no error was reported. */
  datatype TxStep = TxStep(state: TxState, wire: seq<byte>, ok: bool)

  /** `sendMessage`: frame the body; append it whole behind waiting bytes, or
      else write it now and keep the unsent suffix. A write error drops the
      frame and is returned. */
  function SendMessage(s: TxState, body: seq<byte>, o: Outcome): (r: TxStep)
    ensures r.ok ==> r.wire + r.state.buffer == s.buffer + Frame(body)
    ensures !r.ok ==> r.state == s && r.wire == []
    ensures r.ok <==> |s.buffer| > 0 || o.Accepted?
    ensures |s.buffer| > 0 ==> r.wire == []
    ensures Armed(s) ==> Armed(r.state)
    ensures r.state.closeWhenSent == s.closeWhenSent && r.state.closed == s.closed
  {
    var f := Frame(body);
    if |s.buffer| > 0 then
      TxStep(s.(buffer := s.buffer + f), [], true)
    else
      match o
      case WriteError => TxStep(s, [], false)
      case Accepted(_) =>
        var sent := Taken(o, |f|);
        if sent < |f| then
          TxStep(s.(buffer := f[sent..], handlerArmed := true), f[..sent], true)
        else
          TxStep(s.(handlerArmed := false), f, true)
  }

  /** `canSendData`: with bytes waiting and no error reported by the event,
      write them and erase exactly the part taken; once the buffer is empty
      and a close was requested, close. A write error leaves everything as it was. */
  function CanSendData(s: TxState, eventOk: bool, o: Outcome): (r: TxStep)
    ensures r.wire + r.state.buffer == s.buffer
    ensures Armed(s) ==> Armed(r.state)
    ensures r.state.closed <==> s.closed || (s.closeWhenSent && !r.state.closeWhenSent)
    ensures r.state.closeWhenSent && !s.closed ==> !r.state.closed
    ensures r.state.closeWhenSent != s.closeWhenSent ==> r.state.buffer == [] && |s.buffer| > 0
    ensures s.closeWhenSent && |s.buffer| > 0 && eventOk && o.Accepted? && o.k >= |s.buffer| ==> r.state.closed
    ensures r.ok
  {
    if |s.buffer| > 0 && eventOk then
      match o
      case WriteError => TxStep(s, [], true)
      case Accepted(_) =>
        var sent := Taken(o, |s.buffer|);
        var s1 :=
          if sent == |s.buffer| then s.(buffer := [], handlerArmed := false)
          else s.(buffer := s.buffer[sent..]);
        var s2 := if s1.closeWhenSent && |s1.buffer| == 0 then s1.(closeWhenSent := false, closed := true) else s1;
        TxStep(s2, s.buffer[..sent], true)
    else
      TxStep(s, [], true)
  }

  /** `closeAfterSend`: only records the request. */
  function CloseAfterSend(s: TxState): (r: TxState)
    ensures r.closeWhenSent && r.buffer == s.buffer && r.closed == s.closed
    ensures Armed(s) ==> Armed(r)
  {
    s.(closeWhenSent := true)
  }

  /** Things that happen to the outbound side, in order. */
  datatype TxEvent =
    | Send(body: seq<byte>, outcome: Outcome)
    | Writable(eventOk: bool, outcome: Outcome)
    | CloseRequest

  /** One event applied to the outbound side. */
  function Step(s: TxState, e: TxEvent): (r: TxStep)
    ensures Armed(s) ==> Armed(r.state)
  {
    match e
    case Send(body, o) => SendMessage(s, body, o)
    case Writable(ok, o) => CanSendData(s, ok, o)
    case CloseRequest => TxStep(CloseAfterSend(s), [], true)
  }

  /** The bodies an event hands to the outbound side: a send that reported no error. */
  function AcceptedBodies(e: TxEvent, r: TxStep): seq<seq<byte>>
  {
    if e.Send? && r.ok then [e.body] else []
  }

  /** Each single step keeps written bytes plus buffer equal to the old buffer plus the accepted frame. */
  lemma StepPreservesOrder(s: TxState, e: TxEvent)
    ensures var r := Step(s, e); r.wire + r.state.buffer == s.buffer + Frames(AcceptedBodies(e, r))
  {
    var r := Step(s, e);
    if e.Send? && r.ok {
      assert [e.body][1..] == [];
      assert Frames([e.body]) == Frame(e.body) + [];
    }
  }

  /** Re-association step of the order proof. */
  lemma Regroup(w: seq<byte>, w2: seq<byte>, fin: seq<byte>, mid: seq<byte>, later: seq<byte>, old0: seq<byte>, now: seq<byte>)
    requires w2 + fin == mid + later && w + mid == old0 + now
    ensures (w + w2) + fin == old0 + (now + later)
  {
    calc {
      (w + w2) + fin;
      w + (mid + later);
      (w + mid) + later;
    }
  }

  /** Run a sequence of events: final state, all bytes written, and the bodies whose send was accepted. */
  function Run(s: TxState, evs: seq<TxEvent>): (r: (TxState, seq<byte>, seq<seq<byte>>))
    ensures Armed(s) ==> Armed(r.0)
    decreases |evs|
  {
    if |evs| == 0 then (s, [], [])
    else
      var step := Step(s, evs[0]);
      var rest := Run(step.state, evs[1..]);
      (rest.0, step.wire + rest.1, AcceptedBodies(evs[0], step) + rest.2)
  }

  /** Outbound order: the bytes written, followed by the bytes still buffered,
      are exactly the frames of the accepted messages in send order. */
  lemma {:induction false} RunPreservesOrder(s: TxState, evs: seq<TxEvent>)
    ensures Run(s, evs).1 + Run(s, evs).0.buffer == s.buffer + Frames(Run(s, evs).2)
    decreases |evs|
  {
    if |evs| > 0 {
      var step := Step(s, evs[0]);
      var accepted := AcceptedBodies(evs[0], step);
      StepPreservesOrder(s, evs[0]);
      RunPreservesOrder(step.state, evs[1..]);
      var rest := Run(step.state, evs[1..]);
      FramesAppend(accepted, rest.2);
      assert Run(s, evs) == (rest.0, step.wire + rest.1, accepted + rest.2);
      Regroup(step.wire, rest.1, rest.0.buffer, step.state.buffer, Frames(rest.2), s.buffer, Frames(accepted));
    }
  }

  /** Once everything is drained, a peer reading the written bytes in any
      chunking receives exactly the accepted message bodies, in send order. */
  lemma DrainedStreamReassembles(evs: seq<TxEvent>, chunks: seq<seq<byte>>)
    requires Run(InitialTx, evs).0.buffer == []
    requires Deliverable(Run(InitialTx, evs).2)
    requires Concat(chunks) == Run(InitialTx, evs).1
    ensures Payloads(ReceiveAll(EmptyRecv, chunks).1) == Run(InitialTx, evs).2
  {
    RunPreservesOrder(InitialTx, evs);
    assert Run(InitialTx, evs).1 == Frames(Run(InitialTx, evs).2) by {
      assert InitialTx.buffer == [];
      assert Run(InitialTx, evs).1 + [] == Run(InitialTx, evs).1;
    }
    FreshConnectionReceivesAll(chunks, Run(InitialTx, evs).2);
  }

  /** A close requested when nothing is buffered does not happen on the next
      writable event: `canSendData` only closes after writing something. */
  lemma CloseOnDrainedBufferWaits(s: TxState, ok: bool, o: Outcome)
    requires s.buffer == [] && !s.closed
    ensures !CanSendData(CloseAfterSend(s), ok, o).state.closed
    ensures CanSendData(CloseAfterSend(s), ok, o).state.closeWhenSent
  {
  }
}
