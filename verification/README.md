# Selective Repeat ARQ — a Dafny model of `sr.c`

This project models the Selective Repeat reliable-transfer protocol of `sr.c`.
It covers a sending endpoint A and a receiving endpoint B that talk only through
packet values over an emulated network. Packets on that network can be lost or
corrupted, but they are never reordered.

- `packets.dfy` (module `Packets`): the packet structure and the additive
  checksum, which is `seqnum + acknum + Σ payload bytes` over a fixed 20-byte
  payload.
- `ring.dfy` (module `Ring`): the constants `WindowSize = 8` and `BufSize = 50`,
  and `Slot(q) = q % BufSize`. It also holds `Sweep`, the `while` loop both
  endpoints share, which retires a contiguous run of slots; it terminates
  because each step clears one set flag. `FirstUnset`, used by the sender
  only, is the scan for the lowest unacknowledged number.
- `events.dfy` (module `Events`): the calls a handler makes into the emulator
  (`tolayer3`, `tolayer5`, `starttimer`, `stoptimer`), as values. Each handler
  returns a `Step`: its new state plus the events in call order.
- `sender.dfy` (module `Sender`): `A_init`, `A_output`, `A_input` and
  `A_timerinterrupt`, as pure transitions on an explicit `SenderState`. It also
  holds the sender invariant, the lemmas that prove it is preserved, and a
  `Run` over any sequence of sender inputs.
- `receiver.dfy` (module `Receiver`): `B_init`, `B_input` and
  `B_timerinterrupt` on an explicit `ReceiverState`. It also holds a `Run` over
  any sequence of arriving packets, and the in-order delivery theorem.
- `options.dfy` (module `Options`): an `Option` type.

The sender invariant `Sender.Inv` has three parts:

- `1 <= base <= nextSeqNum <= base + WindowSize`.
- For every `q` in `base .. base + BufSize - 1`, slot `Slot(q)` is valid exactly
  when `q < nextSeqNum`. These numbers name each slot once, so this pins down
  every flag. It holds only because `BufSize > WindowSize`.
- Every window slot holds a valid-checksum data packet carrying its own number.

The model claims nothing about the acknowledged flags. An acknowledgement for
`q ± 50` sets the same flag as one for `q`.

Sequence numbers are unbounded integers. C's `%` truncates toward zero, while
Dafny's is Euclidean. The two agree on the non-negative numbers used here:

- Every reachable state has `base`, `nextSeqNum` and `expected` at 1 or more.
- The receiver indexes only numbers at or above `expected`.
- `Sender.Input` requires `acknum >= 0` on a packet that passes the checksum.
  In C, a negative value would index outside `sndpktAcked` at sr.c:161.

## Model

| member | source | states |
|---|---|---|
| Packets.CalculateChecksum | sr.c:49-60 | the running-sum loop computes `seqnum + acknum + Σ unsigned payload bytes`, and the result equals the stored field exactly when the packet is valid |
| Packets.MakePacket | sr.c:110-114 | a packet whose checksum field is filled in from its other fields keeps those fields and passes validation (the round trip used for data packets and acks) |
| Packets.ValidIffSealed | sr.c:65-68 | a packet is valid if and only if it equals the packet built from its own seqnum, acknum and payload |
| Packets.PayloadSumUpdate | sr.c:55-57 | replacing one payload byte changes the byte sum by exactly the difference of the old and new values |
| Packets.CorruptedByteDetected | sr.c:49-68 | changing the value of one payload byte of a valid packet, with the checksum field kept, makes it fail validation |
| Packets.CorruptedHeaderDetected | sr.c:49-68 | changing the seqnum alone or the acknum alone of a valid packet makes it fail validation |
| Ring.CountClear | sr.c:166-169 | clearing a set flag lowers the number of set flags by one, which is the termination measure of both retirement loops |
| Ring.SweepSpec | sr.c:166-169 | the retirement loop passes only slots that are acknowledged and valid, clears each one, goes at most one turn round the ring, leaves unreached slots alone, and stops at the first number that is not both |
| Ring.FirstUnset | sr.c:173-180 | the window scan finds nothing exactly when every number in the range is acknowledged; otherwise it returns the lowest unacknowledged one |
| Sender.Init | sr.c:73-82 | the sender starts with an empty window at 1, no valid or acknowledged slot, no timer, and satisfies the invariant |
| Sender.Output | sr.c:106-145 | a message is admitted iff `nextSeqNum < base + WindowSize`. A refused one changes nothing and sends nothing. An admitted one is stored valid and unacknowledged at `Slot(nextSeqNum)` as a valid packet carrying that number and the message, and is sent once. The timer is started and bound to it only if none was active, and `nextSeqNum` grows by one |
| Sender.Input | sr.c:150-206 | a corrupted ack changes nothing. A valid ack marks `Slot(acknum)`. `base` moves only for `acknum == base` and never backwards, and every slot it passes was valid and is now cleared, while every other slot keeps its valid flag; it stops at the first slot that is not acknowledged and valid. Afterwards the timer is stopped, keeping its binding, if the whole window is acknowledged. Otherwise it is re-armed on the lowest unacknowledged number if the ack was for the tracked one, and left alone if not |
| Sender.TimerInterrupt | sr.c:211-226 | an expiry resends only the stored packet of the tracked number, and only while that number is in `[base, nextSeqNum)`. It always restarts the timer and changes nothing else |
| Sender.OutputPreservesInv | sr.c:108-132 | admission keeps the window bound, the valid-iff-in-window property of every slot, and the stored packets |
| Sender.AdvanceStaysInWindow | sr.c:164-169 | in a reachable state, the base advance never passes `nextSeqNum` |
| Sender.InputPreservesInv | sr.c:150-170 | acknowledgement handling keeps the invariant whatever non-negative number a valid ack carries, so `base <= nextSeqNum <= base + WindowSize` still holds |
| Sender.TimerInterruptPreservesInv | sr.c:211-226 | a timer expiry keeps the invariant |
| Sender.DuplicateAckIdempotent | sr.c:150-198 | delivering the same ack twice leaves exactly the state the first delivery left: `base` advances at most once, and no slot is retired twice |
| Sender.SelectiveRetransmission | sr.c:217-221 | in a reachable state an expiry sends at most one packet. It sends exactly one while the tracked number is in the window, and that packet is the stored data packet of the tracked number |
| Sender.RearmFollowsBase | sr.c:185-197 | when the timer tracks `base`, `base` is acknowledged and `base + 1` is not, the timer moves to `base + 1` and the next expiry resends exactly the packet of `base + 1` |
| Sender.ReachableInv | sr.c:73-226 | after `A_init` and any sequence of submissions, acks and expiries, the sender invariant holds, including the window bound |
| Receiver.Init | sr.c:94-101 | the receiver starts expecting 1, with no slot valid |
| Receiver.AckFor | sr.c:236-241 | an acknowledgement carries `acknum = seqnum`, `seqnum = 0`, an all-zero payload and a valid checksum |
| Receiver.Input | sr.c:231-278 | a corrupted packet produces no event and no state change. A valid packet produces exactly one packet sent, its ack, first, whether or not it is inside the window. A packet outside the window changes no state |
| Receiver.InputInWindow | sr.c:251-263 | an in-window packet is buffered at its slot. The payloads delivered are those of the contiguous buffered run from the old `expected`, in increasing order, and each of those slots is cleared. `expected` grows by the number delivered and lands on a slot that is not valid |
| Receiver.TimerInterrupt | sr.c:283-285 | a receiver timer expiry changes nothing and emits nothing |
| Receiver.BufferingKeepsSlotsTruthful | sr.c:252-255 | buffering an in-window packet keeps each valid slot of the ring holding a packet that arrived with that slot's number |
| Receiver.SweepKeepsSlotsTruthful | sr.c:258-263 | retiring the delivered run keeps each valid slot truthful, now counted from the new `expected` |
| Receiver.InputPreservesHolds | sr.c:231-278 | one arrival keeps the receiver invariant, and its i-th delivery is a payload that arrived in a valid packet numbered `expected + i` |
| Receiver.InOrderDelivery | sr.c:231-263 | from `B_init`, for any sequence of arrivals, the delivered payloads are one per number `1 .. expected - 1`, in order, with no gaps or repeats. Position `i` holds a payload that arrived in a valid packet numbered `i + 1` |
| Receiver.GapHoldsBackDelivery | sr.c:252-263 | an in-window packet above a gap is buffered and acknowledged, but nothing is delivered and `expected` stays put |
| Receiver.OutOfOrderScenario | sr.c:252-263 | packets 3, 1, 2 arriving in that order deliver nothing, then message 1, then messages 2 and 3 |

## Left out

- Debug logging to `debug.txt` (`fp`, `fopen`, `fprintf`). It has no effect on the protocol.
- The network emulator behind `tolayer3`, `tolayer5`, `starttimer` and
  `stoptimer` (`emulator.h` is not part of this model): delay, loss, corruption
  and event scheduling. These calls appear only as `Events.Event` values, so no
  property relates the two endpoints through the channel, and liveness is not
  claimed.
- The timer duration `RTT` (16.0). It is a floating-point value passed to the
  emulator, and `StartTimer` leaves it implicit.
- `BIDIRECTIONAL` and `lastAckReceived` are declared but never used. The
  endpoint constants `A` and `B` of `sr.h` become `Events.Endpoint`.
- 32-bit `int` overflow of sequence numbers and checksums: all integers are
  unbounded.
- Sender.Input: requires `acknum >= 0` on a packet that passes the checksum,
  because C's remainder of a negative number would index outside
  `sndpktAcked`, which is undefined behaviour rather than a behaviour to model.
- Sender.Init and Receiver.Init: start from the zero-initialised C globals. The
  packets are all zero and `timerForPacket` is 0, since `A_init` never sets it.
  A second call to `A_init` or `B_init` in the middle of a run, which would keep
  the old buffer contents, is not modelled.
- Payload bytes are `char` in C and are read through an `(unsigned char)` cast.
  The model stores them directly as values 0..255.
- Sender.Inv: records for each window slot the number, the zero acknum and the
  valid checksum of its packet, but not that the payload is the message
  submitted for that number. That link is stated per call by `Sender.Output`.
- Logging-only branches of `sr.c`, which the model treats like their neighbours:
  - `A_output` only logs a refused submission (sr.c:138-144); it returns
    nothing to the caller, so a refusal is an unchanged state and no event;
  - the "duplicate" branch of `B_input` (sr.c:264-270) only logs, so it
    behaves like any other out-of-window packet;
  - `stoptimer` is called whenever the whole window is acknowledged
    (sr.c:182-184), even when no timer is running, and the model emits
    `StopTimer(A)` in that case too.
