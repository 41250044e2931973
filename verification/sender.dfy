/**
 The sending endpoint (A) of the Selective Repeat protocol: window admission,
 acknowledgement handling with base advance, and a single retransmission
 timer that follows the oldest unacknowledged packet.
 */
module Sender {
  import opened Options
  import opened Packets
  import opened Ring
  import opened Events

  datatype SenderState = SenderState(
    base: int,            // oldest sequence number not yet retired
    nextSeqNum: int,      // sequence number the next admitted message gets
    packets: PacketRing,  // sent packets, kept for retransmission
    valid: Flags,         // the slot holds a packet of the current window
    acked: Flags,         // an acknowledgement has arrived for the slot
    timerActive: bool,
    timerFor: int)        // sequence number the timer is tracking

  /** `p` is the data packet the sender built for sequence number `q`. */
  ghost predicate Stored(p: Packet, q: int)
  {
    p.seqnum == q && p.acknum == 0 && IsChecksumValid(p)
  }

  /**
   The invariant of every reachable sender state: the window holds at most
   `WindowSize` numbers, a slot is valid exactly when it belongs to a number
   of the window (each of the `BufSize` slots is named once by the numbers
   `base .. base + BufSize - 1`), and each window slot holds the packet
   built for its number. Nothing is claimed about `acked`: an
   acknowledgement for any number `q ± BufSize` sets the same flag.
   */
  ghost predicate Inv(s: SenderState)
  {
    && 1 <= s.base <= s.nextSeqNum <= s.base + WindowSize
    && (forall q :: s.base <= q < s.base + BufSize ==> (s.valid[Slot(q)] <==> q < s.nextSeqNum))
    && (forall q :: s.base <= q < s.nextSeqNum ==> Stored(s.packets[Slot(q)], q))
  }

  /** `A_init`: an empty window starting at 1, no slot valid or acknowledged,
      no timer. Buffers and `timerFor` keep their zero-initialised contents. */
  function Init(): (s: SenderState)
    ensures Inv(s)
    ensures s.base == 1 && s.nextSeqNum == 1 && !s.timerActive
    ensures forall k :: 0 <= k < BufSize ==> !s.valid[k] && !s.acked[k]
  {
    SenderState(1, 1, BlankRing(), NoFlags(), NoFlags(), false, 0)
  }

  /**
   `A_output`: a message is admitted exactly when the window has room. An
   admitted message is stored, unacknowledged, in the slot of `nextSeqNum` and
   sent; the timer is started for it only if none is running. A refused
   message changes nothing and sends nothing.
   */
  function Output(s: SenderState, message: Payload): (r: Step<SenderState>)
    ensures r.state.nextSeqNum != s.nextSeqNum <==> s.nextSeqNum < s.base + WindowSize
    ensures s.nextSeqNum >= s.base + WindowSize ==> r == Step(s, [])
    ensures s.nextSeqNum < s.base + WindowSize ==>
      var k := Slot(s.nextSeqNum);
      var p := r.state.packets[k];
      && p.seqnum == s.nextSeqNum && p.acknum == 0 && p.payload == message && IsChecksumValid(p)
      && r.state.packets == s.packets[k := p]
      && r.state.valid == s.valid[k := true]
      && r.state.acked == s.acked[k := false]
      && r.state.base == s.base
      && r.state.nextSeqNum == s.nextSeqNum + 1
      && r.state.timerActive
      && r.state.timerFor == (if s.timerActive then s.timerFor else s.nextSeqNum)
      && r.events == [ToLayer3(A, p)] + (if s.timerActive then [] else [StartTimer(A)])
  {
    if s.nextSeqNum < s.base + WindowSize then
      var k := Slot(s.nextSeqNum);
      var p := MakePacket(s.nextSeqNum, 0, message);
      var s' := s.(packets := s.packets[k := p], valid := s.valid[k := true], acked := s.acked[k := false]);
      if s.timerActive then
        Step(s'.(nextSeqNum := s.nextSeqNum + 1), [ToLayer3(A, p)])
      else
        Step(s'.(nextSeqNum := s.nextSeqNum + 1, timerActive := true, timerFor := s.nextSeqNum),
             [ToLayer3(A, p), StartTimer(A)])
    else
      Step(s, [])
  }

  /**
   `A_input`: a corrupted acknowledgement is ignored. A valid one marks the
   slot of `acknum`; an acknowledgement of `base` retires the contiguous run
   of acknowledged, valid slots from `base` on. Then the timer is stopped if
   every number of the window is acknowledged, and otherwise, if the
   acknowledgement was for the tracked number, re-armed for the lowest
   unacknowledged number of the window. A negative `acknum` on a valid packet
   would index outside the buffer, so callers must not supply one.
   */
  function Input(s: SenderState, ack: Packet): (r: Step<SenderState>)
    requires IsChecksumValid(ack) ==> ack.acknum >= 0
    ensures !IsChecksumValid(ack) ==> r == Step(s, [])
    ensures IsChecksumValid(ack) ==> r.state.acked == s.acked[Slot(ack.acknum) := true]
    ensures r.state.nextSeqNum == s.nextSeqNum && r.state.packets == s.packets
    ensures s.base <= r.state.base
    ensures r.state.base != s.base ==> IsChecksumValid(ack) && ack.acknum == s.base
    ensures forall q :: s.base <= q < r.state.base ==>
      s.valid[Slot(q)] && r.state.acked[Slot(q)] && !r.state.valid[Slot(q)]
    ensures forall q :: r.state.base <= q < s.base + BufSize ==> r.state.valid[Slot(q)] == s.valid[Slot(q)]
    ensures IsChecksumValid(ack) && ack.acknum == s.base ==>
      !(r.state.acked[Slot(r.state.base)] && r.state.valid[Slot(r.state.base)])
    ensures IsChecksumValid(ack) && AllSet(r.state.acked, r.state.base, s.nextSeqNum) ==>
      !r.state.timerActive && r.state.timerFor == s.timerFor && r.events == [StopTimer(A)]
    ensures IsChecksumValid(ack) && !AllSet(r.state.acked, r.state.base, s.nextSeqNum) && ack.acknum == s.timerFor ==>
      && r.state.timerActive
      && LowestUnset(r.state.acked, r.state.base, s.nextSeqNum, r.state.timerFor)
      && r.events == [StopTimer(A), StartTimer(A)]
    ensures IsChecksumValid(ack) && !AllSet(r.state.acked, r.state.base, s.nextSeqNum) && ack.acknum != s.timerFor ==>
      r.state.timerActive == s.timerActive && r.state.timerFor == s.timerFor && r.events == []
  {
    if !IsChecksumValid(ack) then Step(s, [])
    else
      var acked := s.acked[Slot(ack.acknum) := true];
      SweepSpec(s.base, s.valid, acked);
      var (base, valid) := if ack.acknum == s.base then Sweep(s.base, s.valid, acked) else (s.base, s.valid);
      var s' := s.(base := base, valid := valid, acked := acked);
      match FirstUnset(acked, base, s.nextSeqNum)
      case None => Step(s'.(timerActive := false), [StopTimer(A)])
      case Some(t) =>
        if ack.acknum == s.timerFor then
          Step(s'.(timerActive := true, timerFor := t), [StopTimer(A), StartTimer(A)])
        else
          Step(s', [])
  }

  /**
   `A_timerinterrupt`: resend the one stored packet of the tracked number, and
   only while that number is still in the window; restart the timer in every
   case. Nothing else changes.
   */
  function TimerInterrupt(s: SenderState): (r: Step<SenderState>)
    ensures r.state == s.(timerActive := true)
    ensures s.base <= s.timerFor < s.nextSeqNum ==>
      r.events == [ToLayer3(A, s.packets[Slot(s.timerFor)]), StartTimer(A)]
    ensures !(s.base <= s.timerFor < s.nextSeqNum) ==> r.events == [StartTimer(A)]
  {
    var resend := if s.base <= s.timerFor < s.nextSeqNum then [ToLayer3(A, s.packets[Slot(s.timerFor)])] else [];
    Step(s.(timerActive := true), resend + [StartTimer(A)])
  }

  /** Admission keeps the invariant: the new number's slot was free, because
      it is less than `BufSize` away from every number of the window. */
  lemma OutputPreservesInv(s: SenderState, message: Payload)
    requires Inv(s)
    ensures Inv(Output(s, message).state)
  {
    if s.nextSeqNum < s.base + WindowSize {
      var s' := Output(s, message).state;
      var n := s.nextSeqNum;
      forall q | s.base <= q < s.base + BufSize && q != n
        ensures Slot(q) != Slot(n)
      {
        if q < n { SlotsDistinct(q, n); } else { SlotsDistinct(n, q); }
      }
      assert forall q :: s'.base <= q < s'.base + BufSize ==> (s'.valid[Slot(q)] <==> q < s'.nextSeqNum);
    }
  }

  /** The base advance stops at `nextSeqNum` at the latest, since the slot of
      `nextSeqNum` is not valid. */
  lemma AdvanceStaysInWindow(s: SenderState, acked: Flags)
    requires Inv(s)
    ensures s.base <= Sweep(s.base, s.valid, acked).0 <= s.nextSeqNum
  {
    SweepSpec(s.base, s.valid, acked);
    var b := Sweep(s.base, s.valid, acked).0;
    assert !s.valid[Slot(s.nextSeqNum)];
  }

  /** Acknowledgement handling keeps the invariant, in particular the window
      bound, whatever number the acknowledgement carries. */
  lemma InputPreservesInv(s: SenderState, ack: Packet)
    requires Inv(s)
    requires IsChecksumValid(ack) ==> ack.acknum >= 0
    ensures Inv(Input(s, ack).state)
    ensures Input(s, ack).state.base <= s.nextSeqNum
  {
    if IsChecksumValid(ack) && ack.acknum == s.base {
      var acked := s.acked[Slot(ack.acknum) := true];
      SweepSpec(s.base, s.valid, acked);
      AdvanceStaysInWindow(s, acked);
      var s' := Input(s, ack).state;
      assert (s'.base, s'.valid) == Sweep(s.base, s.valid, acked);
      forall q | s'.base <= q < s'.base + BufSize
        ensures s'.valid[Slot(q)] <==> q < s'.nextSeqNum
      {
        if q >= s.base + BufSize {
          SlotWraps(q - BufSize);
          assert !s'.valid[Slot(q - BufSize)];
        }
      }
    }
  }

  /** A timer expiry changes nothing the invariant talks about. */
  lemma TimerInterruptPreservesInv(s: SenderState)
    requires Inv(s)
    ensures Inv(TimerInterrupt(s).state)
  {
  }

  /**
   Delivering the same valid acknowledgement a second time changes nothing:
   the base advances at most once, no slot is retired twice, and the timer
   binding stays as the first delivery left it.
   */
  lemma DuplicateAckIdempotent(s: SenderState, ack: Packet)
    requires Inv(s)
    requires IsChecksumValid(ack) ==> ack.acknum >= 0
    ensures Input(Input(s, ack).state, ack).state == Input(s, ack).state
  {
    if IsChecksumValid(ack) {
      var s1 := Input(s, ack).state;
      var s2 := Input(s1, ack).state;
      InputPreservesInv(s, ack);
      var k := Slot(ack.acknum);
      assert s1.acked[k];
      assert s1.acked[k := true] == s1.acked;
      if ack.acknum == s1.base {
        // either the first delivery did not move the base, and the base slot
        // is not valid, or it did and the base is now past `acknum`
        assert s1.base == s.base;
        assert !s1.valid[Slot(s1.base)];
        SweepSpec(s1.base, s1.valid, s1.acked);
        assert Sweep(s1.base, s1.valid, s1.acked) == (s1.base, s1.valid);
      }
      assert s2.base == s1.base && s2.valid == s1.valid && s2.acked == s1.acked;
      if !AllSet(s1.acked, s1.base, s1.nextSeqNum) {
        if ack.acknum == s1.timerFor {
          assert false;
        }
      }
    }
  }

  /** A timer expiry resends at most one packet, and in a reachable state it
      is exactly the packet built for the tracked number: retransmission is
      selective. */
  lemma SelectiveRetransmission(s: SenderState)
    requires Inv(s)
    ensures |Sent(TimerInterrupt(s).events)| <= 1
    ensures forall p :: p in Sent(TimerInterrupt(s).events) ==>
      Stored(p, s.timerFor) && s.base <= s.timerFor < s.nextSeqNum
    ensures s.base <= s.timerFor < s.nextSeqNum ==> |Sent(TimerInterrupt(s).events)| == 1
  {
    var es := TimerInterrupt(s).events;
    if s.base <= s.timerFor < s.nextSeqNum {
      assert Sent(es) == [s.packets[Slot(s.timerFor)]] + Sent(es[1..]);
      assert Sent(es[1..]) == [] + Sent(es[2..]);
    } else {
      assert Sent(es) == [] + Sent(es[1..]);
    }
  }

  /**
   Re-arming after the base is acknowledged: when the timer tracks `base`,
   the base packet is acknowledged and the next packet is not, the timer moves
   to `base + 1`, and the next expiry resends exactly the packet of `base + 1`.
   */
  lemma RearmFollowsBase(s: SenderState, ack: Packet)
    requires Inv(s)
    requires s.timerFor == s.base && s.base + 1 < s.nextSeqNum
    requires !s.acked[Slot(s.base + 1)]
    requires IsChecksumValid(ack) && ack.acknum == s.base
    ensures Input(s, ack).state.base == s.base + 1
    ensures Input(s, ack).state.timerActive && Input(s, ack).state.timerFor == s.base + 1
    ensures Sent(TimerInterrupt(Input(s, ack).state).events) == [s.packets[Slot(s.base + 1)]]
    ensures Stored(s.packets[Slot(s.base + 1)], s.base + 1)
  {
    var s' := Input(s, ack).state;
    var acked := s.acked[Slot(s.base) := true];
    SlotsDistinct(s.base, s.base + 1);
    SweepSpec(s.base, s.valid, acked);
    AdvanceStaysInWindow(s, acked);
    assert s.valid[Slot(s.base)] && s.valid[Slot(s.base + 1)];
    assert s'.base == s.base + 1;
    InputPreservesInv(s, ack);
    SelectiveRetransmission(s');
    var es := TimerInterrupt(s').events;
    assert Sent(es) == [s'.packets[Slot(s'.timerFor)]] + Sent(es[1..]);
    assert Sent(es[1..]) == [] + Sent(es[2..]);
  }

  /** The inputs the emulator feeds the sender. */
  datatype SenderInput = Submit(message: Payload) | AckArrives(ack: Packet) | Expire

  /** An input the sender can process without indexing outside its buffers. */
  predicate Admissible(e: SenderInput)
  {
    e.AckArrives? && IsChecksumValid(e.ack) ==> e.ack.acknum >= 0
  }

  /** One input, dispatched to its handler. */
  function Handle(s: SenderState, e: SenderInput): Step<SenderState>
    requires Admissible(e)
  {
    match e
    case Submit(m) => Output(s, m)
    case AckArrives(ack) => Input(s, ack)
    case Expire => TimerInterrupt(s)
  }

  /** The sender after a sequence of inputs. */
  function Run(s: SenderState, es: seq<SenderInput>): SenderState
    requires forall i :: 0 <= i < |es| ==> Admissible(es[i])
    decreases |es|
  {
    if |es| == 0 then s else Handle(Run(s, es[..|es| - 1]), es[|es| - 1]).state
  }

  /** After any sequence of inputs from `A_init` on, the invariant holds; in
      particular `base <= nextSeqNum <= base + WindowSize`. */
  lemma {:induction false} ReachableInv(es: seq<SenderInput>)
    requires forall i :: 0 <= i < |es| ==> Admissible(es[i])
    ensures Inv(Run(Init(), es))
    ensures Run(Init(), es).base <= Run(Init(), es).nextSeqNum <= Run(Init(), es).base + WindowSize
    decreases |es|
  {
    if |es| > 0 {
      var prefix := es[..|es| - 1];
      assert forall i :: 0 <= i < |prefix| ==> prefix[i] == es[i];
      ReachableInv(prefix);
      var s := Run(Init(), prefix);
      match es[|es| - 1]
      case Submit(m) => OutputPreservesInv(s, m);
      case AckArrives(ack) => InputPreservesInv(s, ack);
      case Expire => TimerInterruptPreservesInv(s);
    }
  }
}
