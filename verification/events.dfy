/**
 The side effects of the two endpoints. Each handler returns its new state
 together with the calls it makes into the network emulator, in call order.
 */
module Events {
  import opened Packets

  /** The two endpoints: the sender `A` and the receiver `B`. */
  datatype Endpoint = A | B

  datatype Event =
    | ToLayer3(side: Endpoint, packet: Packet)   // hand a packet to the network
    | ToLayer5(side: Endpoint, data: Payload)    // deliver a payload to the application
    | StartTimer(side: Endpoint)                 // arm the retransmission timer for one RTT
    | StopTimer(side: Endpoint)                  // cancel the retransmission timer

  /** The outcome of one event handler. */
  datatype Step<S> = Step(state: S, events: seq<Event>)

  /** The packets handed to the network, in order. */
  function Sent(es: seq<Event>): seq<Packet>
  {
    if |es| == 0 then []
    else (if es[0].ToLayer3? then [es[0].packet] else []) + Sent(es[1..])
  }

  /** The payloads delivered to the application, in order. */
  function Delivered(es: seq<Event>): seq<Payload>
  {
    if |es| == 0 then []
    else (if es[0].ToLayer5? then [es[0].data] else []) + Delivered(es[1..])
  }

  lemma {:induction false} SentConcat(a: seq<Event>, b: seq<Event>)
    ensures Sent(a + b) == Sent(a) + Sent(b)
    decreases |a|
  {
    if |a| > 0 {
      assert (a + b)[1..] == a[1..] + b;
      SentConcat(a[1..], b);
    } else {
      assert a + b == b;
    }
  }

  lemma {:induction false} DeliveredConcat(a: seq<Event>, b: seq<Event>)
    ensures Delivered(a + b) == Delivered(a) + Delivered(b)
    decreases |a|
  {
    if |a| > 0 {
      assert (a + b)[1..] == a[1..] + b;
      DeliveredConcat(a[1..], b);
    } else {
      assert a + b == b;
    }
  }
}
