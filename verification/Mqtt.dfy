/** MQTT 3.1.1 PUBLISH packets as the event loop writes them. */
module Mqtt {
  import opened Basics

  datatype Packet = Packet(topic: bytes, qos: nat, retain: bool, payload: bytes)

  /** Remaining Length, section 2.2.3 of MQTT 3.1.1: seven bits a byte, least
      significant first, high bit set on all but the last. */
  function RemainingLength(n: nat): (r: bytes)
    decreases n
  {
    if n < 128 then [n] else [n % 128 + 128] + RemainingLength(n / 128)
  }

  function DecodeLength(b: bytes): nat {
    if b == [] then 0
    else if b[0] < 128 then b[0]
    else b[0] - 128 + 128 * DecodeLength(b[1..])
  }

  function PacketIdLength(qos: nat): nat {
    if qos == 0 then 0 else 2
  }

  /** Variable header and payload of section 3.3: length-prefixed topic,
      packet identifier for QoS 1 and 2, application message. */
  function Body(p: Packet, id: bytes): bytes
    requires |p.topic| < 65536 && |id| == PacketIdLength(p.qos)
  {
    [|p.topic| / 256, |p.topic| % 256] + p.topic + id + p.payload
  }

  function Wire(p: Packet, id: bytes, dup: bool): bytes
    requires |p.topic| < 65536 && p.qos <= 2 && |id| == PacketIdLength(p.qos)
  {
    var flags := (if dup then 8 else 0) + 2 * p.qos + (if p.retain then 1 else 0);
    [48 + flags] + RemainingLength(|Body(p, id)|) + Body(p, id)
  }

  /** Size of the packet on the wire, also for a topic too long to send. */
  function WireSize(p: Packet): nat {
    1 + |RemainingLength(BodySize(p))| + BodySize(p)
  }

  function BodySize(p: Packet): nat {
    2 + |p.topic| + PacketIdLength(p.qos) + |p.payload|
  }

  lemma WireSizeIsLength(p: Packet, id: bytes, dup: bool)
    requires |p.topic| < 65536 && p.qos <= 2 && |id| == PacketIdLength(p.qos)
    ensures |Wire(p, id, dup)| == WireSize(p)
  {
  }

  lemma {:induction false} LengthRoundTrip(n: nat)
    ensures DecodeLength(RemainingLength(n)) == n
    decreases n
  {
    if n >= 128 {
      LengthRoundTrip(n / 128);
      assert RemainingLength(n)[1..] == RemainingLength(n / 128);
    }
  }

  /** At least one byte always; at most four exactly up to 268 435 455. */
  lemma LengthBytes(n: nat)
    ensures 1 <= |RemainingLength(n)|
    ensures |RemainingLength(n)| <= 4 <==> n <= 268_435_455
  {
    var a := n / 128;
    var b := a / 128;
    var c := b / 128;
    assert n < 128 ==> |RemainingLength(n)| == 1;
    assert n >= 128 ==> |RemainingLength(n)| == 1 + |RemainingLength(a)|;
    assert a >= 128 ==> |RemainingLength(a)| == 1 + |RemainingLength(b)|;
    assert b >= 128 ==> |RemainingLength(b)| == 1 + |RemainingLength(c)|;
    assert c >= 128 ==> |RemainingLength(c)| == 1 + |RemainingLength(c / 128)|;
  }

  lemma LengthSteps(n: nat)
    ensures |RemainingLength(n)| == 1 <==> n < 128
    ensures |RemainingLength(n)| <= 2 <==> n < 16_384
    ensures |RemainingLength(n)| <= 3 <==> n < 2_097_152
  {
    var a := n / 128;
    var b := a / 128;
    LengthBytes(b);
    assert n >= 128 ==> |RemainingLength(n)| == 1 + |RemainingLength(a)|;
    assert a >= 128 ==> |RemainingLength(a)| == 1 + |RemainingLength(b)|;
    assert b >= 128 ==> |RemainingLength(b)| == 1 + |RemainingLength(b / 128)|;
    LengthBytes(b / 128);
  }

  /** The longest variable header and payload that a packet of `limit` bytes holds. */
  function LargestBody(limit: nat): nat
    requires 2 <= limit
  {
    if limit < 130 then limit - 2
    else if limit < 16_387 then limit - 3
    else if limit < 2_097_156 then limit - 4
    else limit - 5
  }

  /** A packet fits a limit exactly when its variable header and payload do. */
  lemma FitsExactly(p: Packet, limit: nat)
    requires 2 <= limit <= 268_435_460
    ensures WireSize(p) <= limit <==> BodySize(p) <= LargestBody(limit)
  {
    LengthBytes(BodySize(p));
    LengthSteps(BodySize(p));
  }
}
