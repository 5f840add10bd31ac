/** Binary framing of the vDC API: every message travels as a 4-byte
    big-endian length header followed by that many bytes of packed protobuf.

    Outbound, `sendMessage` writes the header; inbound, `gotData` appends the
    received bytes to a buffer and repeatedly extracts complete frames from it
    (`expectedMsgBytes` remembers a header that has been consumed but whose
    body is not complete yet). */
module Framing {
  import opened Basics

  // ---------------------------------------------------------------------
  // The length header
  // ---------------------------------------------------------------------

  /** The header written by `sendMessage`: bits 31..0 of the length, most significant byte first. */
  function EncodeHeader(n: nat): (h: seq<byte>)
    ensures |h| == 4
  {
    var m := n % TWO32;
    var r3 := m / 256;
    var r2 := r3 / 256;
    [r2 / 256 % 256, r2 % 256, r3 % 256, m % 256]
  }

  /** Reading a header as an unsigned 32-bit big-endian number (the intended reading). */
  function DecodeHeader(h: seq<byte>): (n: uint32)
    requires |h| == 4
    ensures n == h[0] as int * 0x100_0000 + h[1] as int * 0x1_0000 + h[2] as int * 0x100 + h[3] as int
    ensures n < TWO31 <==> h[0] < 0x80
  {
    ((h[0] as int * 256 + h[1] as int) * 256 + h[2] as int) * 256 + h[3] as int
  }

  /** The header reading as written in `gotData`: the bytes are promoted to
      `int`, so `sz[0]<<24` lands in the sign bit for a first byte >= 0x80, and
      the negative sum is then converted to the 64-bit `size_t` `expectedMsgBytes`. */
  function DecodeHeaderAsWritten(h: seq<byte>): (n: uint64)
    requires |h| == 4
    ensures h[0] < 0x80 ==> n == DecodeHeader(h)
    ensures h[0] >= 0x80 ==> n == DecodeHeader(h) + TWO64 - TWO32
  {
    Uint64Of(Int32Of(h[0] as int * 0x100_0000 + h[1] as int * 0x1_0000 + h[2] as int * 0x100 + h[3] as int))
  }

  /** Euclidean division undoes `q * k + r` for a remainder in range. */
  lemma DivModUnique(q: int, r: int)
    requires 0 <= r < 256
    ensures (q * 256 + r) / 256 == q && (q * 256 + r) % 256 == r
  {
  }

  /** Every length below 2^32 survives the header. */
  lemma HeaderRoundTrip(n: nat)
    requires n < TWO32
    ensures DecodeHeader(EncodeHeader(n)) == n
  {
    var r3 := n / 256;
    var r2 := r3 / 256;
    var r1 := r2 / 256;
    assert n == r3 * 256 + n % 256;
    assert r3 == r2 * 256 + r3 % 256;
    assert r2 == r1 * 256 + r2 % 256;
    assert r3 < 0x100_0000;
    assert r2 < 0x1_0000;
    assert r1 < 256;
    var h := EncodeHeader(n);
    assert n % TWO32 == n;
    assert h == [r1 % 256, r2 % 256, r3 % 256, n % 256];
    assert r1 % 256 == r1;
    assert h[0] as int * 256 + h[1] as int == r2;
    assert r2 * 256 + h[2] as int == r3;
  }

  /** Every 4-byte header is the encoding of the length it decodes to. */
  lemma HeaderInverse(h: seq<byte>)
    requires |h| == 4
    ensures EncodeHeader(DecodeHeader(h)) == h
  {
    var r2 := h[0] as int * 256 + h[1] as int;
    var r3 := r2 * 256 + h[2] as int;
    var n := r3 * 256 + h[3] as int;
    assert n == DecodeHeader(h) && n % TWO32 == n;
    DivModUnique(r3, h[3] as int);
    assert n / 256 == r3 && n % 256 == h[3];
    DivModUnique(r2, h[2] as int);
    assert r3 / 256 == r2 && r3 % 256 == h[2];
    DivModUnique(h[0] as int, h[1] as int);
    assert r2 / 256 == h[0] && r2 % 256 == h[1];
    DivModUnique(0, h[0] as int);
    assert h[0] % 256 == h[0];
    assert EncodeHeader(n) == [h[0], h[1], h[2], h[3]];
  }

  /** The as-written reading turns a length of 2^31 into 2^64 - 2^31: such a frame never completes. */
  lemma HeaderAsWrittenSignExtends()
    ensures DecodeHeaderAsWritten(EncodeHeader(TWO31)) == TWO64 - TWO31
    ensures DecodeHeader(EncodeHeader(TWO31)) == TWO31
  {
  }

  /** The framed form of one packed message. */
  function Frame(body: seq<byte>): (f: seq<byte>)
    ensures |f| == |body| + 4
    ensures f[..4] == EncodeHeader(|body|) && f[4..] == body
  {
    EncodeHeader(|body|) + body
  }

  /** Frames of several messages, back to back in send order. */
  function Frames(bodies: seq<seq<byte>>): seq<byte>
  {
    if |bodies| == 0 then [] else Frame(bodies[0]) + Frames(bodies[1..])
  }

  /** Framing distributes over concatenation of message lists. */
  lemma {:induction false} FramesAppend(a: seq<seq<byte>>, b: seq<seq<byte>>)
    ensures Frames(a + b) == Frames(a) + Frames(b)
    decreases |a|
  {
    if |a| == 0 {
      assert a + b == b;
    } else {
      assert (a + b)[0] == a[0];
      assert (a + b)[1..] == a[1..] + b;
      FramesAppend(a[1..], b);
    }
  }

  /** Bodies that frame faithfully and are delivered by the reassembler: non-empty, below 2^32 bytes. */
  predicate Deliverable(bodies: seq<seq<byte>>)
  {
    forall i :: 0 <= i < |bodies| ==> 1 <= |bodies[i]| < TWO32
  }

  // ---------------------------------------------------------------------
  // Reassembly
  // ---------------------------------------------------------------------

  /** `receivedMessage` and `expectedMsgBytes` (0 means: no header consumed). */
  datatype RecvState = RecvState(buffer: seq<byte>, expected: nat)

  const EmptyRecv: RecvState := RecvState([], 0)

  /** One call of `processMessage`: the remaining buffer it is given and the
      frame length that is erased afterwards. */
  datatype Delivery = Delivery(buffer: seq<byte>, len: nat)

  /** The bytes `gotData` hands to `processMessage` as written: the whole remaining buffer. */
  function PassedAsWritten(d: Delivery): seq<byte>
  {
    d.buffer
  }

  /** The message body proper: the first `len` bytes of that buffer. */
  function Payload(d: Delivery): seq<byte>
    requires WellFormedDelivery(d)
  {
    d.buffer[..d.len]
  }

  predicate WellFormedDelivery(d: Delivery)
  {
    1 <= d.len <= |d.buffer|
  }

  function Payloads(ds: seq<Delivery>): (ps: seq<seq<byte>>)
    requires forall i :: 0 <= i < |ds| ==> WellFormedDelivery(ds[i])
    ensures |ps| == |ds|
    ensures forall i :: 0 <= i < |ds| ==> ps[i] == Payload(ds[i])
  {
    if |ds| == 0 then [] else [Payload(ds[0])] + Payloads(ds[1..])
  }

  /** The buffers handed to `processMessage` for a sequence of deliveries, as written. */
  function PassedAllAsWritten(ds: seq<Delivery>): (ps: seq<seq<byte>>)
    ensures |ps| == |ds|
    ensures forall i :: 0 <= i < |ds| ==> ps[i] == PassedAsWritten(ds[i])
  {
    if |ds| == 0 then [] else [PassedAsWritten(ds[0])] + PassedAllAsWritten(ds[1..])
  }

  lemma {:induction false} PayloadsAppend(a: seq<Delivery>, b: seq<Delivery>)
    requires forall i :: 0 <= i < |a| ==> WellFormedDelivery(a[i])
    requires forall i :: 0 <= i < |b| ==> WellFormedDelivery(b[i])
    ensures Payloads(a + b) == Payloads(a) + Payloads(b)
  {
    var l, r := Payloads(a + b), Payloads(a) + Payloads(b);
    assert |l| == |r|;
    forall i | 0 <= i < |l|
      ensures l[i] == r[i]
    {
      if i < |a| {
        assert (a + b)[i] == a[i];
      } else {
        assert (a + b)[i] == b[i - |a|];
      }
    }
  }

  /** First half of the loop body: consume a header when none is pending and 4 bytes are there. */
  function TakeHeader(s: RecvState): (s': RecvState)
    ensures s.expected != 0 || |s.buffer| < 4 ==> s' == s
    ensures s.expected == 0 && |s.buffer| >= 4 ==> s' == RecvState(s.buffer[4..], DecodeHeader(s.buffer[..4]))
  {
    if s.expected == 0 && |s.buffer| >= 4 then RecvState(s.buffer[4..], DecodeHeader(s.buffer[..4])) else s
  }

  /** The extraction loop of `gotData`: repeatedly take a header and, while the
      expected body is complete and non-empty, deliver it and erase it. */
  function Reassemble(s: RecvState): (r: (RecvState, seq<Delivery>))
    ensures forall i :: 0 <= i < |r.1| ==> WellFormedDelivery(r.1[i])
    ensures r.0.expected != 0 ==> |r.0.buffer| < r.0.expected
    decreases |s.buffer|
  {
    var s1 := TakeHeader(s);
    if s1.expected != 0 && |s1.buffer| >= s1.expected then
      var rest := Reassemble(RecvState(s1.buffer[s1.expected..], 0));
      (rest.0, [Delivery(s1.buffer, s1.expected)] + rest.1)
    else (s1, [])
  }

  /** Append newly received bytes and run the extraction loop. */
  function Receive(s: RecvState, data: seq<byte>): (r: (RecvState, seq<Delivery>))
    ensures forall i :: 0 <= i < |r.1| ==> WellFormedDelivery(r.1[i])
    ensures r.0.expected != 0 ==> |r.0.buffer| < r.0.expected
    ensures data == [] && s.expected != 0 && |s.buffer| < s.expected ==> r == (s, [])
  {
    assert data == [] ==> s.buffer + data == s.buffer;
    Reassemble(RecvState(s.buffer + data, s.expected))
  }

  /** The unconsumed stream a state stands for: a pending header is put back in front of the buffer. */
  function Pending(s: RecvState): seq<byte>
  {
    if s.expected == 0 then s.buffer else EncodeHeader(s.expected) + s.buffer
  }

  predicate StateOk(s: RecvState)
  {
    s.expected < TWO32
  }

  /** A stream that does not start with a complete non-empty frame and is not
      a zero-length header the loop would consume. */
  predicate Incomplete(p: seq<byte>)
  {
    |p| < 4 || (DecodeHeader(p[..4]) != 0 && |p| < 4 + DecodeHeader(p[..4]))
  }

  lemma FramesLength(bodies: seq<seq<byte>>)
    ensures |Frames(bodies)| >= 5 * |bodies|
    requires Deliverable(bodies)
  {
    if |bodies| > 0 {
      FramesLength(bodies[1..]);
    }
  }

  /** Taking a non-zero header does not change the stream a state stands for. */
  lemma TakeHeaderKeepsPending(s: RecvState)
    requires StateOk(s) && Incomplete(Pending(s))
    ensures Pending(TakeHeader(s)) == Pending(s) && StateOk(TakeHeader(s))
  {
    if s.expected == 0 && |s.buffer| >= 4 {
      HeaderInverse(s.buffer[..4]);
      assert s.buffer == s.buffer[..4] + s.buffer[4..];
    }
  }

  /** With an incomplete stream pending, the loop stops. */
  lemma IncompleteStops(s: RecvState)
    requires StateOk(s) && Incomplete(Pending(s))
    ensures !(s.expected != 0 && |s.buffer| >= s.expected)
  {
    if s.expected != 0 {
      HeaderRoundTrip(s.expected);
      assert Pending(s)[..4] == EncodeHeader(s.expected);
    }
  }

  /** With a complete frame pending, taking the header yields that frame's length and body. */
  lemma FramePendingSplits(s: RecvState, b: seq<byte>, tail: seq<byte>)
    requires StateOk(s) && 1 <= |b| < TWO32
    requires Pending(s) == Frame(b) + tail
    ensures TakeHeader(s).expected == |b| && TakeHeader(s).buffer == b + tail
  {
    var whole := Pending(s);
    HeaderRoundTrip(|b|);
    assert whole[..4] == EncodeHeader(|b|);
    assert whole[4..] == b + tail;
    if s.expected != 0 {
      HeaderRoundTrip(s.expected);
      assert whole[..4] == EncodeHeader(s.expected);
      assert s.buffer == whole[4..];
    }
  }

  /** The central reassembly property: a stream of complete non-empty frames
      followed by an incomplete remainder yields exactly those bodies, in
      order, and leaves exactly the remainder pending. */
  lemma {:induction false} ReassembleFrames(s: RecvState, bodies: seq<seq<byte>>, p: seq<byte>)
    requires StateOk(s) && Deliverable(bodies) && Incomplete(p)
    requires Pending(s) == Frames(bodies) + p
    ensures Payloads(Reassemble(s).1) == bodies
    ensures Pending(Reassemble(s).0) == p && StateOk(Reassemble(s).0)
    decreases |s.buffer|
  {
    if |bodies| == 0 {
      TakeHeaderKeepsPending(s);
      IncompleteStops(TakeHeader(s));
    } else {
      var b := bodies[0];
      var tail := Frames(bodies[1..]) + p;
      assert Pending(s) == Frame(b) + tail;
      ReassembleFirstFrame(s, b, tail);
      var next := RecvState(tail, 0);
      ReassembleFrames(next, bodies[1..], p);
      assert bodies == [b] + bodies[1..];
    }
  }

  /** One turn of the loop on a complete frame: its body is delivered and the loop continues on the rest. */
  lemma ReassembleFirstFrame(s: RecvState, b: seq<byte>, tail: seq<byte>)
    requires StateOk(s) && 1 <= |b| < TWO32
    requires Pending(s) == Frame(b) + tail
    ensures |s.buffer| > |tail|
    ensures Reassemble(s).0 == Reassemble(RecvState(tail, 0)).0
    ensures Payloads(Reassemble(s).1) == [b] + Payloads(Reassemble(RecvState(tail, 0)).1)
  {
    var s1 := TakeHeader(s);
    FramePendingSplits(s, b, tail);
    var next := RecvState(s1.buffer[s1.expected..], 0);
    assert next.buffer == tail;
    var d := Delivery(s1.buffer, s1.expected);
    assert Payload(d) == b;
    var rest := Reassemble(next);
    assert Reassemble(s) == (rest.0, [d] + rest.1);
    assert Payloads([d] + rest.1) == [b] + Payloads(rest.1);
  }

  /** A stream that starts with a complete non-empty frame is not incomplete. */
  lemma FramesNotIncomplete(bodies: seq<seq<byte>>, p: seq<byte>)
    requires Deliverable(bodies) && |bodies| > 0
    ensures !Incomplete(Frames(bodies) + p)
  {
    var b := bodies[0];
    var whole := Frames(bodies) + p;
    assert whole == Frame(b) + (Frames(bodies[1..]) + p);
    assert whole[..4] == EncodeHeader(|b|);
    HeaderRoundTrip(|b|);
  }

  /** Frames of a non-empty prefix start with the first frame. */
  lemma FramesPrefixCons(bodies: seq<seq<byte>>, k: nat)
    requires 1 <= k <= |bodies|
    ensures Frames(bodies[..k]) == Frame(bodies[0]) + Frames(bodies[1..][..k - 1])
    ensures bodies[k..] == bodies[1..][k - 1..]
  {
    assert bodies[..k][1..] == bodies[1..][..k - 1];
  }

  /** A prefix of an incomplete stream is incomplete. */
  lemma IncompletePrefix(q: seq<byte>, p: seq<byte>)
    requires q <= p && Incomplete(p)
    ensures Incomplete(q)
  {
    if |q| >= 4 {
      assert q[..4] == p[..4];
    }
  }

  /** A frame cut short is incomplete. */
  lemma ProperFramePrefix(c: seq<byte>, b: seq<byte>)
    requires 1 <= |b| < TWO32 && c <= Frame(b) && |c| < |Frame(b)|
    ensures Incomplete(c)
  {
    if |c| >= 4 {
      HeaderRoundTrip(|b|);
      assert c[..4] == Frame(b)[..4];
    }
  }

  lemma SplitAfter(c: seq<byte>, rest: seq<byte>, f: seq<byte>, more: seq<byte>)
    requires c + rest == f + more && |c| >= |f|
    ensures c == f + c[|f|..] && c[|f|..] + rest == more
  {
    assert (c + rest)[..|f|] == c[..|f|];
    assert (f + more)[..|f|] == f;
    assert c == c[..|f|] + c[|f|..];
    assert (c + rest)[|f|..] == c[|f|..] + rest;
    assert (f + more)[|f|..] == more;
  }

  lemma SplitBefore(c: seq<byte>, rest: seq<byte>, f: seq<byte>, more: seq<byte>)
    requires c + rest == f + more && |c| < |f|
    ensures c <= f
  {
    assert (c + rest)[..|c|] == c;
    assert (f + more)[..|c|] == f[..|c|];
  }

  /** Any prefix of a well-formed stream splits into complete frames plus an incomplete piece. */
  lemma {:induction false} PrefixSplit(bodies: seq<seq<byte>>, p: seq<byte>, c: seq<byte>, rest: seq<byte>) returns (k: nat, q: seq<byte>)
    requires Deliverable(bodies) && Incomplete(p)
    requires c + rest == Frames(bodies) + p
    ensures k <= |bodies| && Incomplete(q)
    ensures c == Frames(bodies[..k]) + q
    ensures q + rest == Frames(bodies[k..]) + p
    decreases |bodies|
  {
    if |bodies| == 0 {
      k, q := 0, c;
      assert bodies[..0] == [] && bodies[0..] == [];
      assert c + rest == p;
      assert (c + rest)[..|c|] == c;
      IncompletePrefix(c, p);
    } else {
      var f := Frame(bodies[0]);
      var more := Frames(bodies[1..]) + p;
      assert c + rest == f + more;
      if |c| < |f| {
        k, q := 0, c;
        assert bodies[..0] == [] && bodies[0..] == bodies;
        SplitBefore(c, rest, f, more);
        ProperFramePrefix(c, bodies[0]);
      } else {
        var c' := c[|f|..];
        SplitAfter(c, rest, f, more);
        var k', q' := PrefixSplit(bodies[1..], p, c', rest);
        k, q := k' + 1, q';
        FramesPrefixCons(bodies, k);
      }
    }
  }

  /** Feeding a chunked stream one chunk at a time. */
  function ReceiveAll(s: RecvState, chunks: seq<seq<byte>>): (r: (RecvState, seq<Delivery>))
    ensures forall i :: 0 <= i < |r.1| ==> WellFormedDelivery(r.1[i])
    decreases |chunks|
  {
    if |chunks| == 0 then (s, [])
    else
      var first := Receive(s, chunks[0]);
      var rest := ReceiveAll(first.0, chunks[1..]);
      (rest.0, first.1 + rest.1)
  }

  function Concat(chunks: seq<seq<byte>>): seq<byte>
  {
    if |chunks| == 0 then [] else chunks[0] + Concat(chunks[1..])
  }

  /** One read of a chunked well-formed stream: the complete frames it finishes
      are delivered and the unfinished rest stays pending. */
  lemma ReceiveStep(s: RecvState, chunk: seq<byte>, later: seq<byte>, bodies: seq<seq<byte>>, p: seq<byte>) returns (k: nat)
    requires StateOk(s) && Deliverable(bodies) && Incomplete(p)
    requires (Pending(s) + chunk) + later == Frames(bodies) + p
    ensures k <= |bodies|
    ensures Payloads(Receive(s, chunk).1) == bodies[..k]
    ensures Pending(Receive(s, chunk).0) + later == Frames(bodies[k..]) + p
    ensures StateOk(Receive(s, chunk).0) && Incomplete(Pending(Receive(s, chunk).0))
  {
    var c := Pending(s) + chunk;
    var q;
    k, q := PrefixSplit(bodies, p, c, later);
    var appended := RecvState(s.buffer + chunk, s.expected);
    assert Pending(appended) == c;
    ReassembleFrames(appended, bodies[..k], q);
  }

  /** Reassembly does not depend on how the transport chunks the bytes: from
      a state holding no complete frame, any chunking of a stream of non-empty
      frames yields the same bodies, in order. */
  lemma {:induction false} ChunkingIndependent(s: RecvState, chunks: seq<seq<byte>>, bodies: seq<seq<byte>>, p: seq<byte>)
    requires StateOk(s) && Incomplete(Pending(s)) && Deliverable(bodies) && Incomplete(p)
    requires Pending(s) + Concat(chunks) == Frames(bodies) + p
    ensures Payloads(ReceiveAll(s, chunks).1) == bodies
    ensures Pending(ReceiveAll(s, chunks).0) == p
    decreases |chunks|
  {
    if |chunks| == 0 {
      NothingPendingNoFrames(s, bodies, p);
    } else {
      var later := Concat(chunks[1..]);
      assert (Pending(s) + chunks[0]) + later == Frames(bodies) + p;
      var k := ReceiveStep(s, chunks[0], later, bodies, p);
      var first := Receive(s, chunks[0]);
      assert Deliverable(bodies[k..]);
      ChunkingIndependent(first.0, chunks[1..], bodies[k..], p);
      var rest := ReceiveAll(first.0, chunks[1..]);
      assert ReceiveAll(s, chunks) == (rest.0, first.1 + rest.1);
      PayloadsAppend(first.1, rest.1);
      assert bodies == bodies[..k] + bodies[k..];
    }
  }

  /** An incomplete pending stream holds no complete frame. */
  lemma NothingPendingNoFrames(s: RecvState, bodies: seq<seq<byte>>, p: seq<byte>)
    requires Incomplete(Pending(s)) && Deliverable(bodies)
    requires Pending(s) == Frames(bodies) + p
    ensures bodies == [] && Pending(s) == p
  {
    if |bodies| > 0 {
      FramesNotIncomplete(bodies, p);
    }
  }

  /** The original stream from a fresh connection: all frames, whatever the chunking. */
  lemma FreshConnectionReceivesAll(chunks: seq<seq<byte>>, bodies: seq<seq<byte>>)
    requires Deliverable(bodies) && Concat(chunks) == Frames(bodies)
    ensures Payloads(ReceiveAll(EmptyRecv, chunks).1) == bodies
    ensures ReceiveAll(EmptyRecv, chunks).0.buffer == []
  {
    assert Frames(bodies) + [] == Frames(bodies);
    ChunkingIndependent(EmptyRecv, chunks, bodies, []);
  }

  /** Two frames read together are both delivered, in order. */
  lemma TwoFramesDelivered(b1: seq<byte>, b2: seq<byte>)
    requires 1 <= |b1| < TWO32 && 1 <= |b2| < TWO32
    ensures Payloads(Receive(EmptyRecv, Frame(b1) + Frame(b2)).1) == [b1, b2]
  {
    var bodies: seq<seq<byte>> := [b1, b2];
    assert bodies[1..] == [b2];
    assert |bodies[1..][1..]| == 0;
    assert Frames(bodies[1..]) == Frame(b2) + [];
    assert Frames(bodies) == Frame(b1) + Frames(bodies[1..]);
    assert Frames(bodies) + [] == Frame(b1) + Frame(b2);
    assert EmptyRecv.buffer + (Frame(b1) + Frame(b2)) == Frame(b1) + Frame(b2);
    ReassembleFrames(RecvState(Frame(b1) + Frame(b2), 0), bodies, []);
  }

  /** A zero-length header is consumed but stops the loop: a complete frame behind it
      in the same read stays buffered until more bytes arrive. */
  lemma ZeroHeaderStallsNextFrame(b: seq<byte>)
    requires 1 <= |b| < TWO32
    ensures Receive(EmptyRecv, [0, 0, 0, 0] + Frame(b)).1 == []
    ensures Pending(Receive(EmptyRecv, [0, 0, 0, 0] + Frame(b)).0) == Frame(b)
  {
    var all := [0, 0, 0, 0] + Frame(b);
    assert all[..4] == [0, 0, 0, 0];
    assert all[4..] == Frame(b);
  }

  /** As written, the first of two frames received together is handed over with the second one still attached. */
  lemma PassedBufferIncludesNextFrame(b1: seq<byte>, b2: seq<byte>)
    requires 1 <= |b1| < TWO32 && 1 <= |b2| < TWO32
    ensures var ds := Receive(EmptyRecv, Frame(b1) + Frame(b2)).1;
      |ds| == 2 && PassedAsWritten(ds[0]) == b1 + Frame(b2) && Payload(ds[0]) == b1
  {
    var all := Frame(b1) + Frame(b2);
    var s1 := TakeHeader(RecvState(all, 0));
    HeaderRoundTrip(|b1|);
    assert all[..4] == EncodeHeader(|b1|);
    assert all[4..] == b1 + Frame(b2);
    assert s1 == RecvState(b1 + Frame(b2), |b1|);
    var next := RecvState(s1.buffer[|b1|..], 0);
    assert next.buffer == Frame(b2);
    var t := TakeHeader(next);
    HeaderRoundTrip(|b2|);
    assert Frame(b2)[..4] == EncodeHeader(|b2|);
    assert t == RecvState(b2, |b2|);
    assert |Reassemble(next).1| == 1 by {
      assert b2[|b2|..] == [];
      assert Reassemble(RecvState([], 0)).1 == [];
    }
    assert EmptyRecv.buffer + all == all;
    var ds := Receive(EmptyRecv, all).1;
    assert ds == [Delivery(b1 + Frame(b2), |b1|)] + Reassemble(next).1;
  }
}
