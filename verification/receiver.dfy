/**
 The receiving endpoint (B) of the Selective Repeat protocol: it acknowledges
 every valid packet, buffers the ones inside its window, and delivers the
 contiguous run that starts at the number it expects next.
 */
module Receiver {
  import opened Packets
  import opened Ring
  import opened Events

  datatype ReceiverState = ReceiverState(
    expected: int,        // lowest sequence number not yet delivered
    packets: PacketRing,  // packets received ahead of a gap
    valid: Flags)         // the slot holds a packet not yet delivered

  /** `B_init`: nothing buffered, expecting number 1. */
  function Init(): (r: ReceiverState)
    ensures r.expected == 1
    ensures forall k :: 0 <= k < BufSize ==> !r.valid[k]
  {
    ReceiverState(1, BlankRing(), NoFlags())
  }

  /** The acknowledgement of sequence number `seqnum`. */
  function AckFor(seqnum: int): (ack: Packet)
    ensures ack.seqnum == 0 && ack.acknum == seqnum && ack.payload == ZeroPayload()
    ensures IsChecksumValid(ack)
  {
    MakePacket(0, seqnum, ZeroPayload())
  }

  /** `q` lies in the receive window `[expected, expected + WindowSize)`. */
  predicate InWindow(r: ReceiverState, q: int)
  {
    r.expected <= q < r.expected + WindowSize
  }

  /** One delivery to the application per number of `[lo, hi)`, in order. */
  function Deliveries(packets: PacketRing, lo: int, hi: int): seq<Event>
    requires lo <= hi
  {
    seq(hi - lo, i requires 0 <= i < hi - lo => ToLayer5(B, packets[Slot(lo + i)].payload))
  }

  /** Deliveries send no packet and hand over the payloads of `[lo, hi)` in order. */
  lemma {:induction false} DeliveriesContent(packets: PacketRing, lo: int, hi: int)
    requires lo <= hi
    ensures Sent(Deliveries(packets, lo, hi)) == []
    ensures Delivered(Deliveries(packets, lo, hi)) == seq(hi - lo, i requires 0 <= i < hi - lo => packets[Slot(lo + i)].payload)
    decreases hi - lo
  {
    var es := Deliveries(packets, lo, hi);
    if lo < hi {
      DeliveriesContent(packets, lo + 1, hi);
      assert es[1..] == Deliveries(packets, lo + 1, hi);
    }
  }

  /**
   `B_input`: a corrupted packet is dropped without trace. A valid packet is
   acknowledged exactly once, with an ack carrying its number, whether or not
   it is inside the window. A packet outside the window changes nothing else;
   what one inside the window does is stated by `InputInWindow`.
   */
  function Input(s: ReceiverState, p: Packet): (r: Step<ReceiverState>)
    ensures !IsChecksumValid(p) ==> r == Step(s, [])
    ensures IsChecksumValid(p) ==>
      |r.events| >= 1 && r.events[0] == ToLayer3(B, AckFor(p.seqnum)) && Sent(r.events) == [AckFor(p.seqnum)]
    ensures IsChecksumValid(p) && !InWindow(s, p.seqnum) ==>
      r == Step(s, [ToLayer3(B, AckFor(p.seqnum))])
  {
    if !IsChecksumValid(p) then Step(s, [])
    else
      var ack := [ToLayer3(B, AckFor(p.seqnum))];
      if InWindow(s, p.seqnum) then
        var packets := s.packets[Slot(p.seqnum) := p];
        var held := s.valid[Slot(p.seqnum) := true];
        var swept := Sweep(s.expected, held, held);
        DeliveriesContent(packets, s.expected, swept.0);
        SentConcat(ack, Deliveries(packets, s.expected, swept.0));
        Step(ReceiverState(swept.0, packets, swept.1), ack + Deliveries(packets, s.expected, swept.0))
      else
        Step(s, ack)
  }

  /**
   `B_input` on a valid packet inside the window: the packet is buffered, and
   then the run of buffered numbers starting at `expected` is delivered in
   increasing order and retired; `expected` moves past the run, onto a slot
   that is not valid, and the slots past the run keep their flags.
   */
  lemma InputInWindow(s: ReceiverState, p: Packet)
    requires IsChecksumValid(p) && InWindow(s, p.seqnum)
    ensures s.expected <= Input(s, p).state.expected <= s.expected + BufSize
    ensures Input(s, p).state.packets == s.packets[Slot(p.seqnum) := p]
    ensures |Input(s, p).events| == 1 + Input(s, p).state.expected - s.expected
    ensures forall q :: s.expected <= q < Input(s, p).state.expected ==>
      && s.valid[Slot(p.seqnum) := true][Slot(q)]
      && !Input(s, p).state.valid[Slot(q)]
      && Input(s, p).events[1 + q - s.expected] == ToLayer5(B, Input(s, p).state.packets[Slot(q)].payload)
    ensures forall q :: Input(s, p).state.expected <= q < s.expected + BufSize ==>
      Input(s, p).state.valid[Slot(q)] == s.valid[Slot(p.seqnum) := true][Slot(q)]
    ensures !Input(s, p).state.valid[Slot(Input(s, p).state.expected)]
  {
    var r := Input(s, p);
    var packets := s.packets[Slot(p.seqnum) := p];
    var held := s.valid[Slot(p.seqnum) := true];
    var swept := Sweep(s.expected, held, held);
    SweepSpec(s.expected, held, held);
    var ack := [ToLayer3(B, AckFor(p.seqnum))];
    var ds := Deliveries(packets, s.expected, swept.0);
    assert r == Step(ReceiverState(swept.0, packets, swept.1), ack + ds);
    if swept.0 == s.expected + BufSize {
      SlotWraps(s.expected);
      assert !swept.1[Slot(s.expected)];
    } else {
      assert swept.1[Slot(swept.0)] == held[Slot(swept.0)];
    }
    forall q | s.expected <= q < swept.0
      ensures r.events[1 + q - s.expected] == ToLayer5(B, packets[Slot(q)].payload)
    {
      assert r.events[1 + q - s.expected] == ds[q - s.expected];
    }
  }

  /** `B_timerinterrupt`: the receiver runs no timer, so an expiry changes nothing. */
  function TimerInterrupt(s: ReceiverState): (r: Step<ReceiverState>)
    ensures r.state == s && r.events == []
  {
    Step(s, [])
  }

  /** Some valid packet of `trace` carried number `q` and payload `data`. */
  ghost predicate Received(trace: seq<Packet>, q: int, data: Payload)
  {
    exists j :: 0 <= j < |trace| && IsChecksumValid(trace[j]) && trace[j].seqnum == q && trace[j].payload == data
  }

  lemma ReceivedGrows(trace: seq<Packet>, more: seq<Packet>, q: int, data: Payload)
    requires Received(trace, q, data)
    ensures Received(trace + more, q, data)
  {
    var j :| 0 <= j < |trace| && IsChecksumValid(trace[j]) && trace[j].seqnum == q && trace[j].payload == data;
    assert (trace + more)[j] == trace[j];
  }

  /** Each valid slot of the numbers `lo .. lo + BufSize - 1` holds a packet
      of `trace` that arrived with exactly that number. */
  ghost predicate BufferedFrom(valid: Flags, packets: PacketRing, lo: int, trace: seq<Packet>)
  {
    forall q :: lo <= q < lo + BufSize && valid[Slot(q)] ==>
      packets[Slot(q)].seqnum == q && Received(trace, q, packets[Slot(q)].payload)
  }

  /**
   The invariant of a receiver that has seen `trace`: the slot of `expected`
   is empty, and each valid slot of the numbers `expected .. expected +
   BufSize - 1` holds a packet that arrived with exactly that number.
   */
  ghost predicate Holds(r: ReceiverState, trace: seq<Packet>)
  {
    && r.expected >= 1
    && !r.valid[Slot(r.expected)]
    && BufferedFrom(r.valid, r.packets, r.expected, trace)
  }

  /** Buffering a valid in-window packet keeps every valid slot truthful:
      the window is narrower than the ring, so the packet's slot is named by
      its own number only. */
  lemma BufferingKeepsSlotsTruthful(s: ReceiverState, trace: seq<Packet>, p: Packet)
    requires BufferedFrom(s.valid, s.packets, s.expected, trace)
    requires IsChecksumValid(p) && InWindow(s, p.seqnum)
    ensures BufferedFrom(s.valid[Slot(p.seqnum) := true], s.packets[Slot(p.seqnum) := p], s.expected, trace + [p])
  {
    var trace' := trace + [p];
    var packets := s.packets[Slot(p.seqnum) := p];
    var held := s.valid[Slot(p.seqnum) := true];
    assert trace'[|trace|] == p;
    forall q | s.expected <= q < s.expected + BufSize && held[Slot(q)]
      ensures packets[Slot(q)].seqnum == q && Received(trace', q, packets[Slot(q)].payload)
    {
      if q != p.seqnum {
        if q < p.seqnum { SlotsDistinct(q, p.seqnum); } else { SlotsDistinct(p.seqnum, q); }
        ReceivedGrows(trace, [p], q, s.packets[Slot(q)].payload);
      }
    }
  }

  /** Retiring the delivered run keeps every valid slot truthful, now counted
      from where the run ended. */
  lemma SweepKeepsSlotsTruthful(held: Flags, packets: PacketRing, lo: int, trace: seq<Packet>)
    requires BufferedFrom(held, packets, lo, trace)
    ensures BufferedFrom(Sweep(lo, held, held).1, packets, Sweep(lo, held, held).0, trace)
  {
    SweepSpec(lo, held, held);
    var (e, valid) := Sweep(lo, held, held);
    forall q | e <= q < e + BufSize
      ensures valid[Slot(q)] ==> packets[Slot(q)].seqnum == q && Received(trace, q, packets[Slot(q)].payload)
    {
      if q >= lo + BufSize {
        SlotWraps(q - BufSize);
        assert !valid[Slot(q)];
      }
    }
  }

  /** One packet keeps the invariant, and what it delivers is, position by
      position, a payload that arrived with the next expected number. */
  lemma InputPreservesHolds(s: ReceiverState, trace: seq<Packet>, p: Packet)
    requires Holds(s, trace)
    ensures Holds(Input(s, p).state, trace + [p])
    ensures |Delivered(Input(s, p).events)| == Input(s, p).state.expected - s.expected
    ensures forall i :: 0 <= i < |Delivered(Input(s, p).events)| ==>
      Received(trace + [p], s.expected + i, Delivered(Input(s, p).events)[i])
  {
    var trace' := trace + [p];
    var r := Input(s, p);
    if !IsChecksumValid(p) || !InWindow(s, p.seqnum) {
      forall q | s.expected <= q < s.expected + BufSize && s.valid[Slot(q)]
        ensures Received(trace', q, s.packets[Slot(q)].payload)
      {
        ReceivedGrows(trace, [p], q, s.packets[Slot(q)].payload);
      }
      if IsChecksumValid(p) {
        assert Delivered(r.events) == [] + Delivered(r.events[1..]);
      }
    } else {
      var packets := s.packets[Slot(p.seqnum) := p];
      var held := s.valid[Slot(p.seqnum) := true];
      BufferingKeepsSlotsTruthful(s, trace, p);
      SweepKeepsSlotsTruthful(held, packets, s.expected, trace');
      InputInWindow(s, p);
      var e := r.state.expected;
      assert r.state == ReceiverState(Sweep(s.expected, held, held).0, packets, Sweep(s.expected, held, held).1);
      DeliveriesContent(packets, s.expected, e);
      DeliveredConcat([ToLayer3(B, AckFor(p.seqnum))], Deliveries(packets, s.expected, e));
      assert Delivered([ToLayer3(B, AckFor(p.seqnum))]) == [];
      assert r.events == [ToLayer3(B, AckFor(p.seqnum))] + Deliveries(packets, s.expected, e);
    }
  }

  /** The receiver and everything it has handed to the layers around it
      after processing `trace` packet by packet. */
  function Run(s: ReceiverState, trace: seq<Packet>): Step<ReceiverState>
    decreases |trace|
  {
    if |trace| == 0 then Step(s, [])
    else
      var before := Run(s, trace[..|trace| - 1]);
      var last := Input(before.state, trace[|trace| - 1]);
      Step(last.state, before.events + last.events)
  }

  /**
   In-order, gap-free, repeat-free delivery: whatever packets arrive, in
   whatever order and with whatever duplicates or corruption, the payloads
   delivered from `B_init` on are one per number `1 .. expected - 1`, in that
   order, and the one in position `i` arrived in a valid packet numbered `i + 1`.
   */
  lemma {:induction false} InOrderDelivery(trace: seq<Packet>)
    ensures Holds(Run(Init(), trace).state, trace)
    ensures |Delivered(Run(Init(), trace).events)| == Run(Init(), trace).state.expected - 1
    ensures forall i :: 0 <= i < |Delivered(Run(Init(), trace).events)| ==>
      Received(trace, i + 1, Delivered(Run(Init(), trace).events)[i])
    decreases |trace|
  {
    if |trace| > 0 {
      var prefix := trace[..|trace| - 1];
      var p := trace[|trace| - 1];
      assert prefix + [p] == trace;
      InOrderDelivery(prefix);
      var before := Run(Init(), prefix);
      var last := Input(before.state, p);
      InputPreservesHolds(before.state, prefix, p);
      DeliveredConcat(before.events, last.events);
      var d0 := Delivered(before.events);
      var d := Delivered(Run(Init(), trace).events);
      forall i | 0 <= i < |d|
        ensures Received(trace, i + 1, d[i])
      {
        if i < |d0| {
          ReceivedGrows(prefix, [p], i + 1, d0[i]);
        }
      }
    }
  }

  /** A packet that arrives above a gap is buffered and acknowledged, but
      nothing is delivered and `expected` stays where it is. */
  lemma GapHoldsBackDelivery(s: ReceiverState, trace: seq<Packet>, p: Packet)
    requires Holds(s, trace)
    requires IsChecksumValid(p) && InWindow(s, p.seqnum) && p.seqnum != s.expected
    ensures Input(s, p).state.expected == s.expected
    ensures Input(s, p).events == [ToLayer3(B, AckFor(p.seqnum))]
    ensures Input(s, p).state.valid[Slot(p.seqnum)]
  {
    SlotsDistinct(s.expected, p.seqnum);
    InputInWindow(s, p);
  }

  /** Three messages whose packets arrive in the order 3, 1, 2: the first
      arrival delivers nothing, the second delivers the first message, and
      the third delivers the second and third messages, in that order. */
  lemma OutOfOrderScenario(m1: Payload, m2: Payload, m3: Payload)
    ensures var p1, p2, p3 := MakePacket(1, 0, m1), MakePacket(2, 0, m2), MakePacket(3, 0, m3);
      var r1 := Input(Init(), p3);
      var r2 := Input(r1.state, p1);
      var r3 := Input(r2.state, p2);
      && Delivered(r1.events) == []
      && |Delivered(r2.events)| == 1 && Delivered(r2.events)[0] == m1
      && |Delivered(r3.events)| == 2 && Delivered(r3.events)[0] == m2 && Delivered(r3.events)[1] == m3
      && r3.state.expected == 4
  {
    var p1, p2, p3 := MakePacket(1, 0, m1), MakePacket(2, 0, m2), MakePacket(3, 0, m3);
    assert Slot(1) == 1 && Slot(2) == 2 && Slot(3) == 3 && Slot(4) == 4;
    var s0 := Init();
    // packet 3 is buffered above the gap at 1
    var r1 := Input(s0, p3);
    assert Holds(s0, []);
    GapHoldsBackDelivery(s0, [], p3);
    InputInWindow(s0, p3);
    assert Delivered(r1.events) == [] + Delivered(r1.events[1..]);
    assert r1.state.valid[3] && !r1.state.valid[2] && !r1.state.valid[4];
    // packet 1 fills the gap; packet 2 is still missing
    var r2 := Input(r1.state, p1);
    InputInWindow(r1.state, p1);
    assert r2.state.expected == 2;
    assert r2.state.valid[3] && !r2.state.valid[4];
    assert r2.state.packets[1] == p1;
    assert r2.events == [ToLayer3(B, AckFor(1))] + Deliveries(r1.state.packets[1 := p1], 1, 2);
    DeliveriesContent(r1.state.packets[1 := p1], 1, 2);
    DeliveredConcat([ToLayer3(B, AckFor(1))], Deliveries(r1.state.packets[1 := p1], 1, 2));
    assert Delivered([ToLayer3(B, AckFor(1))]) == [];
    // packet 2 completes the run 2, 3
    var r3 := Input(r2.state, p2);
    InputInWindow(r2.state, p2);
    var held := r2.state.valid[2 := true];
    assert held[2] && held[3] && !held[4];
    assert r3.state.expected == 4;
    assert r3.state.packets[2] == p2 && r3.state.packets[3] == p3;
    var buffered := r2.state.packets[2 := p2];
    assert buffered[2] == p2 && buffered[3] == p3;
    var ds := Deliveries(buffered, 2, 4);
    assert r3.events == [ToLayer3(B, AckFor(2))] + ds;
    DeliveriesContent(buffered, 2, 4);
    DeliveredConcat([ToLayer3(B, AckFor(2))], ds);
    assert Delivered([ToLayer3(B, AckFor(2))]) == [];
    var payloads := Delivered(ds);
    assert |payloads| == 2;
    assert payloads[0] == buffered[Slot(2)].payload;
    assert payloads[1] == buffered[Slot(3)].payload;
    assert p2.payload == m2 && p3.payload == m3;
    assert Delivered(r3.events) == Delivered([ToLayer3(B, AckFor(2))]) + payloads;
  }
}
