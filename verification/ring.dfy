/**
 The circular buffers shared by both endpoints. A sequence number `q` lives in
 slot `q % BufSize`; the window constants fix how many sequence numbers can be
 live at once, and `BufSize > WindowSize` is what keeps live numbers from
 sharing a slot.
 */
module Ring {
  import opened Options
  import opened Packets

  const WindowSize := 8
  const BufSize := 50

  /** An array of `BufSize` per-slot flags (`sndpktValid`, `sndpktAcked`, `rcvpktValid`). */
  type Flags = f: seq<bool> | |f| == BufSize witness seq(BufSize, _ => false)

  /** An array of `BufSize` stored packets (`sndpkt`, `rcvpkt`). */
  type PacketRing = s: seq<Packet> | |s| == BufSize witness seq(BufSize, _ => Blank())

  function NoFlags(): Flags
  {
    seq(BufSize, _ => false)
  }

  function BlankRing(): PacketRing
  {
    seq(BufSize, _ => Blank())
  }

  /** The slot of sequence number `q`. Dafny's `%` is Euclidean; for the
      non-negative numbers that reach a buffer it agrees with C's `%`. */
  function Slot(q: int): (k: nat)
    ensures k < BufSize
  {
    q % BufSize
  }

  /** Two sequence numbers less than `BufSize` apart never share a slot. */
  lemma SlotsDistinct(a: int, b: int)
    requires a < b < a + BufSize
    ensures Slot(a) != Slot(b)
  {
  }

  /** Sequence numbers exactly `BufSize` apart share a slot. */
  lemma SlotWraps(q: int)
    ensures Slot(q + BufSize) == Slot(q)
  {
  }

  /** Every sequence number in `[lo, hi)` has its flag set. */
  ghost predicate AllSet(flags: Flags, lo: int, hi: int)
  {
    forall q :: lo <= q < hi ==> flags[Slot(q)]
  }

  /** `t` is the lowest number in `[lo, hi)` whose flag is clear. */
  ghost predicate LowestUnset(flags: Flags, lo: int, hi: int, t: int)
  {
    lo <= t < hi && !flags[Slot(t)] && AllSet(flags, lo, t)
  }

  /** The number of set flags. */
  function Count(f: seq<bool>): nat
  {
    if |f| == 0 then 0 else (if f[0] then 1 else 0) + Count(f[1..])
  }

  /** Clearing a set flag lowers the count by one: the measure by which both
      retirement loops terminate. */
  lemma {:induction false} CountClear(f: seq<bool>, k: nat)
    requires k < |f| && f[k]
    ensures Count(f[k := false]) == Count(f) - 1
    decreases |f|
  {
    if k > 0 {
      assert f[k := false][1..] == f[1..][k - 1 := false];
      CountClear(f[1..], k - 1);
    }
  }

  /**
   The retirement loop shared by both endpoints: starting at `start`, while the
   current number's slot is both `ready` and `live`, clear its `live` flag and
   move on. Returns where the loop stops and the flags it leaves behind.
   It terminates because each step clears one set flag.
   */
  function Sweep(start: int, live: Flags, ready: Flags): (r: (int, Flags))
    ensures start <= r.0
    decreases Count(live)
  {
    var k := Slot(start);
    if ready[k] && live[k] then
      CountClear(live, k);
      Sweep(start + 1, live[k := false], ready)
    else
      (start, live)
  }

  /** What the retirement loop does: every number it passes was ready and
      live and is now cleared, it passes at most one full turn of the ring,
      the slots of the numbers it does not reach keep their flags, and it
      stops at the first number that is not both ready and live. */
  lemma {:induction false} SweepSpec(start: int, live: Flags, ready: Flags)
    ensures start <= Sweep(start, live, ready).0 <= start + BufSize
    ensures forall q :: start <= q < Sweep(start, live, ready).0 ==>
      ready[Slot(q)] && live[Slot(q)] && !Sweep(start, live, ready).1[Slot(q)]
    ensures forall q :: Sweep(start, live, ready).0 <= q < start + BufSize ==>
      Sweep(start, live, ready).1[Slot(q)] == live[Slot(q)]
    ensures !(ready[Slot(Sweep(start, live, ready).0)] && Sweep(start, live, ready).1[Slot(Sweep(start, live, ready).0)])
    decreases Count(live)
  {
    var k := Slot(start);
    if ready[k] && live[k] {
      CountClear(live, k);
      var live' := live[k := false];
      SweepSpec(start + 1, live', ready);
      var r := Sweep(start + 1, live', ready);
      assert r == Sweep(start, live, ready);
      forall q | start < q < start + BufSize
        ensures Slot(q) != k
      {
        SlotsDistinct(start, q);
      }
      SlotWraps(start);
      assert !live'[Slot(start + BufSize)];
      assert !r.1[k];
    }
  }

  /** The first number in `[lo, hi)` whose flag is clear, if any: the two
      scans over the window after an acknowledgement. */
  function FirstUnset(flags: Flags, lo: int, hi: int): (r: Option<int>)
    ensures r.None? <==> AllSet(flags, lo, hi)
    ensures r.Some? ==> LowestUnset(flags, lo, hi, r.value)
    decreases hi - lo
  {
    if lo >= hi then None
    else if !flags[Slot(lo)] then Some(lo)
    else FirstUnset(flags, lo + 1, hi)
  }
}
