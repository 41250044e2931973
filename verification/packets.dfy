/**
 The packet structure exchanged between the two endpoints, and the additive
 checksum that guards it: `seqnum + acknum + Σ payload bytes`, where every
 payload byte is read as an unsigned value.
 */
module Packets {

  /** One payload byte, read as `unsigned char`. */
  type Byte = b: int | 0 <= b < 256

  /** Every packet and every application message carries exactly this many bytes. */
  const PayloadSize := 20

  type Payload = s: seq<Byte> | |s| == PayloadSize witness seq(PayloadSize, _ => 0)

  function ZeroPayload(): Payload
  {
    seq(PayloadSize, _ => 0)
  }

  datatype Packet = Packet(seqnum: int, acknum: int, checksum: int, payload: Payload)

  /** The all-zero packet: the contents of a zero-initialised buffer slot. */
  function Blank(): Packet
  {
    Packet(0, 0, 0, ZeroPayload())
  }

  /** The sum of the bytes, added in index order. */
  function PayloadSum(s: seq<Byte>): nat
  {
    if |s| == 0 then 0 else PayloadSum(s[..|s| - 1]) + s[|s| - 1]
  }

  /** The checksum a packet ought to carry, computed from its other three fields. */
  function Checksum(p: Packet): int
  {
    p.seqnum + p.acknum + PayloadSum(p.payload)
  }

  /** A packet is accepted exactly when its stored checksum equals the recomputed one. */
  predicate IsChecksumValid(p: Packet)
  {
    Checksum(p) == p.checksum
  }

  /** The checksum computation as the source writes it: a running sum over
      the header fields and then the payload bytes one by one. */
  method CalculateChecksum(p: Packet) returns (checksum: int)
    ensures checksum == p.seqnum + p.acknum + PayloadSum(p.payload)
    ensures checksum == p.checksum <==> IsChecksumValid(p)
  {
    checksum := 0;
    checksum := checksum + p.seqnum;
    checksum := checksum + p.acknum;
    var i := 0;
    while i < PayloadSize
      invariant 0 <= i <= PayloadSize
      invariant checksum == p.seqnum + p.acknum + PayloadSum(p.payload[..i])
    {
      assert p.payload[..i + 1][..i] == p.payload[..i];
      checksum := checksum + p.payload[i];
      i := i + 1;
    }
    assert p.payload[..PayloadSize] == p.payload;
  }

  /** Builds a packet and fills in its checksum field, as both endpoints do
      before handing a packet to the network. */
  function MakePacket(seqnum: int, acknum: int, payload: Payload): (p: Packet)
    ensures p.seqnum == seqnum && p.acknum == acknum && p.payload == payload
    ensures IsChecksumValid(p)
  {
    var unsealed := Packet(seqnum, acknum, 0, payload);
    unsealed.(checksum := Checksum(unsealed))
  }

  /** A packet passes validation exactly when it is what `MakePacket` builds from its own fields. */
  lemma ValidIffSealed(p: Packet)
    ensures IsChecksumValid(p) <==> p == MakePacket(p.seqnum, p.acknum, p.payload)
  {
  }

  /** Replacing one byte shifts the sum by exactly the difference of the two byte values. */
  lemma {:induction false} PayloadSumUpdate(s: seq<Byte>, i: nat, b: Byte)
    requires i < |s|
    ensures PayloadSum(s[i := b]) == PayloadSum(s) - s[i] + b
    decreases |s|
  {
    var n := |s| - 1;
    if i == n {
      assert s[i := b][..n] == s[..n];
    } else {
      assert s[i := b][..n] == s[..n][i := b];
      PayloadSumUpdate(s[..n], i, b);
    }
  }

  /** Corrupting the value of a single payload byte, while the checksum field
      stays as it was, makes a valid packet fail validation. */
  lemma CorruptedByteDetected(p: Packet, i: nat, b: Byte)
    requires IsChecksumValid(p)
    requires i < PayloadSize && b != p.payload[i]
    ensures !IsChecksumValid(p.(payload := p.payload[i := b]))
  {
    PayloadSumUpdate(p.payload, i, b);
  }

  /** Corrupting either header field alone, with the checksum field unchanged,
      is detected as well. */
  lemma CorruptedHeaderDetected(p: Packet, seqnum: int, acknum: int)
    requires IsChecksumValid(p)
    ensures seqnum != p.seqnum ==> !IsChecksumValid(p.(seqnum := seqnum))
    ensures acknum != p.acknum ==> !IsChecksumValid(p.(acknum := acknum))
  {
  }
}
