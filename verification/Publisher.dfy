/** Encoding hand-off to the request queue (crates/mqtt/v3/src/publisher.rs).
    The serializer's answer for a value is an argument: any bytes or a failure. */
module Publisher {
  import opened Basics
  import opened Channel
  import opened Framer
  import opened Mqtt

  const MAX_PACKET_SIZE_LIMIT: nat := 268_435_455

  datatype Meta = Meta(topic: bytes, qos: byte, retain: bool)

  datatype Settings = Settings(baseTopic: bytes, format: Format, framing: bool, maxPacketSize: nat) {
    /** The range that the configuration check enforces. */
    ghost predicate Valid() {
      64 <= maxPacketSize <= MAX_PACKET_SIZE_LIMIT
    }
  }

  type Encoded = Result<bytes, TransferError>

  // ---------------------------------------------------------------- topics

  function TrimStart(s: bytes): bytes {
    if s != [] && s[0] == SLASH then TrimStart(s[1..]) else s
  }

  function TrimEnd(s: bytes): bytes {
    if s != [] && s[|s| - 1] == SLASH then TrimEnd(s[..|s| - 1]) else s
  }

  function JoinTopic(base: bytes, topic: bytes): bytes {
    var t := TrimStart(topic);
    var b := TrimEnd(base);
    if b == [] then t else b + [SLASH] + t
  }

  function Slashes(n: nat): bytes {
    seq(n, _ => SLASH)
  }

  /** Slashes at the join do not matter: a bare base and topic with any number
      of them in between give exactly one, and an empty base gives none. */
  lemma JoinTopicExact(base: bytes, topic: bytes, m: nat, n: nat)
    requires base == [] || base[|base| - 1] != SLASH
    requires topic == [] || topic[0] != SLASH
    ensures JoinTopic(base + Slashes(m), Slashes(n) + topic) == if base == [] then topic else base + [SLASH] + topic
  {
    TrimEndSlashes(base, m);
    TrimStartSlashes(topic, n);
  }

  lemma {:induction false} TrimStartSlashes(topic: bytes, n: nat)
    requires topic == [] || topic[0] != SLASH
    ensures TrimStart(Slashes(n) + topic) == topic
  {
    if n == 0 {
      assert Slashes(n) + topic == topic;
    } else {
      assert (Slashes(n) + topic)[1..] == Slashes(n - 1) + topic;
      TrimStartSlashes(topic, n - 1);
    }
  }

  lemma {:induction false} TrimEndSlashes(base: bytes, m: nat)
    requires base == [] || base[|base| - 1] != SLASH
    ensures TrimEnd(base + Slashes(m)) == base
  {
    if m == 0 {
      assert base + Slashes(m) == base;
    } else {
      assert (base + Slashes(m))[..|base| + m - 1] == base + Slashes(m - 1);
      TrimEndSlashes(base, m - 1);
    }
  }

  // ---------------------------------------------------------------- preparing packets

  /** Worst-case packet size without the payload: four length bytes. */
  function Overhead(topic: bytes, qos: nat): nat {
    1 + 4 + 2 + |topic| + PacketIdLength(qos)
  }

  function Packets(topic: bytes, meta: Meta, payloads: seq<bytes>): seq<Packet> {
    seq(|payloads|, i requires 0 <= i < |payloads| => Packet(topic, meta.qos, meta.retain, payloads[i]))
  }

  /** The packets a publish will try to queue, or why it queues none. */
  function Prepare(cfg: Settings, streamId: u64, encoded: Encoded, meta: Meta): Result<seq<Packet>, TransferError> {
    if meta.qos > 2 then Err(InvalidQos(meta.qos))
    else if encoded.Err? then Err(encoded.error)
    else
      var topic := JoinTopic(cfg.baseTopic, meta.topic);
      var payload := encoded.value;
      var room := cfg.maxPacketSize - Overhead(topic, meta.qos);
      if room < 0 || (!cfg.framing && |payload| > room) || (cfg.framing && room < HEADER_LEN) then
        Err(PayloadTooLarge(|payload|, cfg.maxPacketSize))
      else if !cfg.framing then Ok(Packets(topic, meta, [payload]))
      else
        match Frames(payload, cfg.format, meta.qos, streamId, room)
        case Err(e) => Err(e)
        case Ok(frames) => Ok(Packets(topic, meta, frames))
  }

  /** A stream id is used up as soon as framing starts, even if it then fails. */
  predicate TakesStreamId(cfg: Settings, encoded: Encoded, meta: Meta) {
    && cfg.framing && meta.qos <= 2 && encoded.Ok?
    && cfg.maxPacketSize - Overhead(JoinTopic(cfg.baseTopic, meta.topic), meta.qos) >= HEADER_LEN
  }

  /** Result of a publish and the queue it leaves behind. */
  function Publish(cfg: Settings, streamId: u64, encoded: Encoded, meta: Meta, queue: Queue<Packet>)
    : (Result<nat, TransferError>, Queue<Packet>)
  {
    match Prepare(cfg, streamId, encoded, meta)
    case Err(e) => (Err(e), queue)
    case Ok(packets) =>
      var (all, q) := queue.PushAll(packets);
      (if all then Ok(|encoded.value|) else Err(QueueFull), q)
  }

  function NextStreamId(cfg: Settings, streamId: u64, encoded: Encoded, meta: Meta): u64 {
    if TakesStreamId(cfg, encoded, meta) then (streamId + 1) % U64_LIMIT else streamId
  }

  /** The queue grows by exactly the packets that fit, in order: unframed one or
      none, framed a prefix of the frames. The publish succeeds exactly when all
      of them went in, and a refused payload leaves the queue as it was. */
  lemma PublishExact(cfg: Settings, streamId: u64, encoded: Encoded, meta: Meta, queue: Queue<Packet>)
    ensures var (r, q) := Publish(cfg, streamId, encoded, meta, queue);
            var prepared := Prepare(cfg, streamId, encoded, meta);
            && (prepared.Err? ==> r == Err(prepared.error) && q == queue)
            && (prepared.Ok? ==>
                  var k := Min(|prepared.value|, queue.Free());
                  && 0 < |prepared.value| && (!cfg.framing ==> |prepared.value| == 1)
                  && q == queue.(pending := queue.pending + prepared.value[..k], sent := queue.sent + prepared.value[..k])
                  && (r.Ok? <==> k == |prepared.value|)
                  && (r.Ok? ==> r.value == |encoded.value|)
                  && (r.Err? ==> r.error == QueueFull))
  {
    var prepared := Prepare(cfg, streamId, encoded, meta);
    if prepared.Ok? {
      queue.PushAllExact(prepared.value);
      if cfg.framing {
        var room := cfg.maxPacketSize - Overhead(JoinTopic(cfg.baseTopic, meta.topic), meta.qos);
        FramesSucceed(encoded.value, cfg.format, meta.qos, streamId, room);
      }
    }
  }

  /** Every packet by which a publish grows the queue goes to the joined topic with
      the entry's QoS and retain flag. Unframed it carries the payload itself;
      framed, a frame of this stream, and their chunks are the payload. */
  lemma QueuedPackets(cfg: Settings, streamId: u64, encoded: Encoded, meta: Meta, queue: Queue<Packet>)
    ensures var (r, q) := Publish(cfg, streamId, encoded, meta, queue);
            queue.sent <= q.sent
            && var packets := q.sent[|queue.sent|..];
               && (forall i | 0 <= i < |packets| ::
                     && packets[i].topic == JoinTopic(cfg.baseTopic, meta.topic)
                     && packets[i].qos == meta.qos && packets[i].retain == meta.retain)
               && (packets != [] ==> encoded.Ok?)
               && (!cfg.framing && packets != [] ==> packets[0].payload == encoded.value && |packets| == 1 && r.Ok?)
               && (cfg.framing ==> forall i | 0 <= i < |packets| ::
                     && Decode(packets[i].payload).Some?
                     && var h := Decode(packets[i].payload).value;
                        h.format == cfg.format && h.qos == meta.qos && h.streamId == streamId && h.index == i)
               && (cfg.framing && r.Ok? ==>
                     && |packets| > 0
                     && (forall i | 0 <= i < |packets| :: Decode(packets[i].payload).value.total == |packets|)
                     && Concat(seq(|packets|, i requires 0 <= i < |packets| => ChunkOf(packets[i].payload))) == encoded.value)
  {
    hide JoinTopic, Frames;
    PublishExact(cfg, streamId, encoded, meta, queue);
    var prepared := Prepare(cfg, streamId, encoded, meta);
    if prepared.Ok? {
      var k := Min(|prepared.value|, queue.Free());
      var q := Publish(cfg, streamId, encoded, meta, queue).1;
      assert q.sent[|queue.sent|..] == prepared.value[..k];
      if cfg.framing {
        var room := cfg.maxPacketSize - Overhead(JoinTopic(cfg.baseTopic, meta.topic), meta.qos);
        FramesExact(encoded.value, cfg.format, meta.qos, streamId, room);
        var frames := Frames(encoded.value, cfg.format, meta.qos, streamId, room).value;
        var packets := q.sent[|queue.sent|..];
        assert |packets| == |frames| ==>
            seq(|packets|, i requires 0 <= i < |packets| => ChunkOf(packets[i].payload)) == ChunksOf(frames);
      }
    }
  }

  /** What a refused publish reports, and exactly when each answer is given. The
      room is what the longest header leaves of a packet. */
  lemma RefusalExact(cfg: Settings, streamId: u64, encoded: Encoded, meta: Meta)
    ensures var r := Prepare(cfg, streamId, encoded, meta);
            var room := cfg.maxPacketSize - |JoinTopic(cfg.baseTopic, meta.topic)| - if meta.qos == 0 then 7 else 9;
            && (r == Err(InvalidQos(meta.qos)) <==> meta.qos > 2 || (encoded == Err(InvalidQos(meta.qos))))
            && (meta.qos <= 2 && encoded.Err? ==> r == Err(encoded.error))
            && (meta.qos <= 2 && encoded.Ok? ==>
                  && (r == Err(PayloadTooLarge(|encoded.value|, cfg.maxPacketSize)) <==>
                        if cfg.framing then room < HEADER_LEN else room < |encoded.value|)
                  && (r == Err(NoRoomForPayload) <==> cfg.framing && room == HEADER_LEN && encoded.value != [])
                  && (r == Err(TooManyFrames) <==>
                        cfg.framing && room > HEADER_LEN && DivCeil(|encoded.value|, room - HEADER_LEN) >= U32_LIMIT)
                  && (r.Err? ==> r.error.PayloadTooLarge? || r.error.NoRoomForPayload? || r.error.TooManyFrames?))
  {
    hide JoinTopic;
    var room := cfg.maxPacketSize - Overhead(JoinTopic(cfg.baseTopic, meta.topic), meta.qos);
    if meta.qos <= 2 && encoded.Ok? && cfg.framing && room >= HEADER_LEN {
      FramesSucceed(encoded.value, cfg.format, meta.qos, streamId, room);
    }
  }

  // ---------------------------------------------------------------- wire size

  lemma PreparedBody(cfg: Settings, streamId: u64, encoded: Encoded, meta: Meta, i: nat)
    requires var r := Prepare(cfg, streamId, encoded, meta); r.Ok? && i < |r.value|
    ensures var p := Prepare(cfg, streamId, encoded, meta).value[i];
            p.qos <= 2 && BodySize(p) + 5 <= cfg.maxPacketSize
  {
    var p := Prepare(cfg, streamId, encoded, meta).value[i];
    var room := cfg.maxPacketSize - Overhead(p.topic, meta.qos);
    if cfg.framing {
      FrameAt(encoded.value, cfg.format, meta.qos, streamId, room, i);
    }
  }

  /** Every packet that a publish prepares fits the configured packet size. */
  lemma WireBound(cfg: Settings, streamId: u64, encoded: Encoded, meta: Meta, i: nat)
    requires cfg.Valid()
    requires var r := Prepare(cfg, streamId, encoded, meta); r.Ok? && i < |r.value|
    ensures var p := Prepare(cfg, streamId, encoded, meta).value[i];
            && WireSize(p) <= cfg.maxPacketSize
            && (|p.topic| < 65536 ==>
                  forall id, dup | |id| == PacketIdLength(p.qos) :: |Wire(p, id, dup)| <= cfg.maxPacketSize)
  {
    PreparedBody(cfg, streamId, encoded, meta, i);
    hide Prepare, Wire, RemainingLength;
    var p := Prepare(cfg, streamId, encoded, meta).value[i];
    LengthBytes(BodySize(p));
    if |p.topic| < 65536 {
      forall id, dup | |id| == PacketIdLength(p.qos)
        ensures |Wire(p, id, dup)| <= cfg.maxPacketSize
      {
        WireSizeIsLength(p, id, dup);
      }
    }
  }

  /** The packet an unframed payload would travel in. */
  function Whole(cfg: Settings, payload: bytes, meta: Meta): Packet {
    Packet(JoinTopic(cfg.baseTopic, meta.topic), meta.qos, meta.retain, payload)
  }

  /** The size check assumes the longest length field, so it refuses an unframed
      payload exactly when the real packet does not leave the unused length
      bytes free: never one that ends more than three bytes below the limit,
      always one above it. */
  lemma UnframedRejection(cfg: Settings, streamId: u64, payload: bytes, meta: Meta)
    requires cfg.Valid() && !cfg.framing && meta.qos <= 2
    ensures var p := Whole(cfg, payload, meta);
            var lengthBytes := WireSize(p) - 1 - BodySize(p);
            var rejected := Prepare(cfg, streamId, Ok(payload), meta) == Err(PayloadTooLarge(|payload|, cfg.maxPacketSize));
            && (rejected <==> WireSize(p) + 4 > cfg.maxPacketSize + lengthBytes)
            && (rejected ==> WireSize(p) > cfg.maxPacketSize - 3)
            && (WireSize(p) > cfg.maxPacketSize ==> rejected)
            && (!rejected ==> Prepare(cfg, streamId, Ok(payload), meta) == Ok([p]))
  {
    var p := Whole(cfg, payload, meta);
    LengthBytes(BodySize(p));
    assert Packets(p.topic, meta, [payload]) == [p];
  }

  /** The driver's own message on the status topic. */
  function StatusPacket(topic: bytes, online: bool): Packet {
    Packet(topic, 1, true, if online then Ascii("online") else Ascii("offline"))
  }

  function StatusTopic(cfg: Settings): bytes {
    JoinTopic(cfg.baseTopic, Ascii("status"))
  }

  /** Nothing checks the size of the status messages: each of them fits the
      configured packet size exactly when the status topic is short enough. */
  lemma StatusFits(cfg: Settings, online: bool)
    requires cfg.Valid()
    ensures WireSize(StatusPacket(StatusTopic(cfg), online)) <= cfg.maxPacketSize <==>
            |StatusTopic(cfg)| + (if online then 10 else 11) <= LargestBody(cfg.maxPacketSize)
  {
    FitsExactly(StatusPacket(StatusTopic(cfg), online), cfg.maxPacketSize);
  }

  lemma StatusTopicLength(cfg: Settings)
    requires cfg.baseTopic != [] && cfg.baseTopic[|cfg.baseTopic| - 1] != SLASH
    ensures |StatusTopic(cfg)| == |cfg.baseTopic| + 7
  {
    assert Ascii("status")[0] != SLASH;
  }

  /** A configuration that passes its check while both messages exceed the limit: a
      base topic of a hundred bytes and the smallest packet size. */
  lemma StatusTooLarge(format: Format, framing: bool)
    ensures var cfg := Settings(seq(100, _ => 97), format, framing, 64);
            && cfg.Valid()
            && WireSize(StatusPacket(StatusTopic(cfg), true)) > cfg.maxPacketSize
            && WireSize(StatusPacket(StatusTopic(cfg), false)) > cfg.maxPacketSize
  {
    var cfg := Settings(seq(100, _ => 97), format, framing, 64);
    StatusTopicLength(cfg);
    StatusFits(cfg, true);
    StatusFits(cfg, false);
  }

  // ---------------------------------------------------------------- the object

  class Publisher {
    const client: Requests<Packet>
    const cfg: Settings
    var nextStreamId: u64
    var sizeHint: nat

    constructor (client: Requests<Packet>, cfg: Settings)
      ensures this.client == client && this.cfg == cfg
      ensures nextStreamId == 1 && sizeHint == 256
    {
      this.client, this.cfg := client, cfg;
      nextStreamId, sizeHint := 1, 256;
    }

    method PublishValue(encoded: Encoded, meta: Meta) returns (r: Result<nat, TransferError>)
      modifies this, client
      ensures (r, client.View()) == Publish(cfg, old(nextStreamId), encoded, meta, old(client.View()))
      ensures nextStreamId == NextStreamId(cfg, old(nextStreamId), encoded, meta)
      ensures sizeHint ==
              if meta.qos <= 2 && encoded.Ok? && |encoded.value| > old(sizeHint) then |encoded.value| else old(sizeHint)
    {
      hide Frames, JoinTopic, Packets;
      if meta.qos > 2 {
        return Err(InvalidQos(meta.qos));
      }
      var topic := JoinTopic(cfg.baseTopic, meta.topic);
      if encoded.Err? {
        return Err(encoded.error);
      }
      var payload := encoded.value;
      sizeHint := if |payload| > sizeHint then |payload| else sizeHint;
      if cfg.maxPacketSize < Overhead(topic, meta.qos) {
        return Err(PayloadTooLarge(|payload|, cfg.maxPacketSize));
      }
      var maxPayload := cfg.maxPacketSize - Overhead(topic, meta.qos);
      if !cfg.framing {
        if |payload| > maxPayload {
          return Err(PayloadTooLarge(|payload|, cfg.maxPacketSize));
        }
        r := Send(Packets(topic, meta, [payload]), |payload|);
        return;
      }
      if maxPayload < HEADER_LEN {
        return Err(PayloadTooLarge(|payload|, cfg.maxPacketSize));
      }
      var streamId := nextStreamId;
      nextStreamId := (streamId + 1) % U64_LIMIT;
      var frames := Frames(payload, cfg.format, meta.qos, streamId, maxPayload);
      if frames.Err? {
        return Err(frames.error);
      }
      r := Send(Packets(topic, meta, frames.value), |payload|);
    }

    /** Queues the packets in order and gives up at the first refusal. */
    method Send(packets: seq<Packet>, size: nat) returns (r: Result<nat, TransferError>)
      modifies client
      ensures var (all, q) := old(client.View()).PushAll(packets);
              client.View() == q && r == if all then Ok(size) else Err(QueueFull)
    {
      var i := 0;
      while i < |packets|
        invariant 0 <= i <= |packets|
        invariant old(client.View()).PushAll(packets) == client.View().PushAll(packets[i..])
      {
        var sent := client.TryPublish(packets[i]);
        if !sent {
          return Err(QueueFull);
        }
        i := i + 1;
      }
      return Ok(size);
    }
  }
}
