/** What a consumer can rebuild from the frames of one publisher, however they
    are reordered, repeated or lost on the way. */
module Reassembly {
  import opened Basics
  import opened Channel
  import opened Framer
  import opened Mqtt
  import opened Publisher

  // ---------------------------------------------------------------- the consumer

  /** The header of a received payload if it belongs to the stream. */
  predicate InStream(r: bytes, id: u64) {
    Decode(r).Some? && Decode(r).value.streamId == id
  }

  /** The first received frame of the stream with the given index. */
  function Find(received: seq<bytes>, id: u64, index: nat): Option<bytes> {
    if received == [] then None
    else if InStream(received[0], id) && Decode(received[0]).value.index == index then Some(received[0])
    else Find(received[1..], id, index)
  }

  /** The frame count announced by the first received frame of the stream. */
  function Announced(received: seq<bytes>, id: u64): Option<nat> {
    if received == [] then None
    else if InStream(received[0], id) then Some(Decode(received[0]).value.total)
    else Announced(received[1..], id)
  }

  /** Chunks `from` to `total` of the stream, if none is missing. */
  function Join(received: seq<bytes>, id: u64, from: nat, total: nat): Option<bytes>
    requires from <= total
    decreases total - from
  {
    if from == total then Some([])
    else
      match Find(received, id, from)
      case None => None
      case Some(frame) =>
        match Join(received, id, from + 1, total)
        case None => None
        case Some(rest) => Some(ChunkOf(frame) + rest)
  }

  function Reassemble(received: seq<bytes>, id: u64): Option<bytes> {
    match Announced(received, id)
    case None => None
    case Some(total) => Join(received, id, 0, total)
  }

  // ---------------------------------------------------------------- the producer

  /** One framed publish: its frames and how many of them the queue took. */
  datatype Stream = Stream(id: u64, payload: bytes, frames: seq<bytes>, queued: nat) {
    ghost predicate WellFormed() {
      && 0 < |frames| < U32_LIMIT && queued <= |frames|
      && (forall i | 0 <= i < |frames| ::
            && Decode(frames[i]).Some?
            && Decode(frames[i]).value.streamId == id
            && Decode(frames[i]).value.index == i
            && Decode(frames[i]).value.total == |frames|)
      && Concat(ChunksOf(frames)) == payload
    }

    predicate Complete() {
      queued == |frames|
    }
  }

  ghost predicate Streams(streams: seq<Stream>) {
    && (forall s | s in streams :: s.WellFormed())
    && (forall j, k | 0 <= j < k < |streams| :: streams[j].id < streams[k].id)
  }

  /** The payload is a frame that a stream got into the queue. */
  ghost predicate Queued(r: bytes, streams: seq<Stream>) {
    exists s | s in streams :: r in s.frames[..Min(s.queued, |s.frames|)]
  }

  /** Everything received was queued by this publisher, or is no frame at all. */
  ghost predicate Genuine(received: seq<bytes>, streams: seq<Stream>) {
    forall r | r in received :: Decode(r).None? || Queued(r, streams)
  }

  /** Received frames of a stream are that stream's own frames at their index. */
  lemma FrameBelongs(r: bytes, streams: seq<Stream>, s: Stream)
    requires Streams(streams) && s in streams && Queued(r, streams) && InStream(r, s.id)
    ensures var h := Decode(r).value;
            h.index < s.queued && h.total == |s.frames| && r == s.frames[h.index]
  {
    var t :| t in streams && r in t.frames[..Min(t.queued, |t.frames|)];
    var i :| 0 <= i < t.queued && r == t.frames[i];
    assert t.id == s.id;
    var j :| 0 <= j < |streams| && streams[j] == t;
    var k :| 0 <= k < |streams| && streams[k] == s;
    assert j == k;
  }

  lemma {:induction false} FindExact(received: seq<bytes>, streams: seq<Stream>, s: Stream, index: nat)
    requires Streams(streams) && s in streams && Genuine(received, streams) && index < |s.frames|
    ensures Find(received, s.id, index) ==
            if Has(received, s, index) then Some(s.frames[index]) else None
  {
    if received != [] {
      var r := received[0];
      if InStream(r, s.id) {
        FrameBelongs(r, streams, s);
      }
      assert forall x | x in received[1..] :: x in received;
      FindExact(received[1..], streams, s, index);
      assert received == [r] + received[1..];
    }
  }

  lemma {:induction false} AnnouncedExact(received: seq<bytes>, streams: seq<Stream>, s: Stream)
    requires Streams(streams) && s in streams && Genuine(received, streams)
    ensures Announced(received, s.id) ==
            if exists r :: r in received && InStream(r, s.id) then Some(|s.frames|) else None
  {
    if received != [] {
      var r := received[0];
      if InStream(r, s.id) {
        FrameBelongs(r, streams, s);
      }
      assert forall x | x in received[1..] :: x in received;
      AnnouncedExact(received[1..], streams, s);
      assert forall x | x in received :: x == r || x in received[1..];
    }
  }

  ghost predicate Has(received: seq<bytes>, s: Stream, i: nat) {
    i < s.queued && i < |s.frames| && s.frames[i] in received
  }

  ghost predicate HasAll(received: seq<bytes>, s: Stream, from: nat) {
    forall i | from <= i < |s.frames| :: Has(received, s, i)
  }

  ghost predicate FindsOwnFrames(received: seq<bytes>, s: Stream) {
    forall i | 0 <= i < |s.frames| ::
      Find(received, s.id, i) == if Has(received, s, i) then Some(s.frames[i]) else None
  }

  lemma {:induction false} JoinExact(received: seq<bytes>, s: Stream, from: nat)
    requires FindsOwnFrames(received, s) && from <= |s.frames|
    ensures Join(received, s.id, from, |s.frames|) ==
            if HasAll(received, s, from) then Some(Concat(ChunksOf(s.frames)[from..])) else None
    decreases |s.frames| - from
  {
    if from < |s.frames| {
      JoinExact(received, s, from + 1);
      assert HasAll(received, s, from) <==> Has(received, s, from) && HasAll(received, s, from + 1);
      assert ChunksOf(s.frames)[from..] == [ChunkOf(s.frames[from])] + ChunksOf(s.frames)[from + 1..];
    }
  }

  /** A stream is rebuilt exactly when each of its frames was queued and arrived,
      in any order and any number of copies, and then to its own payload. */
  lemma ReassembleExact(received: seq<bytes>, streams: seq<Stream>, s: Stream)
    requires Streams(streams) && s in streams && Genuine(received, streams)
    ensures Reassemble(received, s.id) == if HasAll(received, s, 0) then Some(s.payload) else None
  {
    AnnouncedExact(received, streams, s);
    forall i | 0 <= i < |s.frames|
      ensures Find(received, s.id, i) == if Has(received, s, i) then Some(s.frames[i]) else None
    {
      FindExact(received, streams, s, i);
    }
    JoinExact(received, s, 0);
    assert ChunksOf(s.frames)[0..] == ChunksOf(s.frames);
    if HasAll(received, s, 0) {
      assert Has(received, s, 0) && InStream(s.frames[0], s.id);
    }
  }

  lemma QueuedHasStream(r: bytes, streams: seq<Stream>)
    requires Streams(streams) && Queued(r, streams)
    ensures exists s | s in streams :: InStream(r, s.id)
  {
    var s :| s in streams && r in s.frames[..Min(s.queued, |s.frames|)];
    assert InStream(r, s.id);
  }

  lemma {:induction false} NoSuchStream(received: seq<bytes>, streams: seq<Stream>, id: u64)
    requires Streams(streams) && Genuine(received, streams)
    requires forall s | s in streams :: s.id != id
    ensures Announced(received, id) == None
  {
    if received != [] {
      var r := received[0];
      if Decode(r).Some? {
        QueuedHasStream(r, streams);
      }
      assert forall x | x in received[1..] :: x in received;
      NoSuchStream(received[1..], streams, id);
    }
  }

  /** Whatever arrives, an id rebuilds either nothing or the one payload of its
      stream, and that only if all of its frames were queued. */
  lemma ReassembleSound(received: seq<bytes>, streams: seq<Stream>, id: u64)
    requires Streams(streams) && Genuine(received, streams) && Reassemble(received, id).Some?
    ensures exists s | s in streams :: s.id == id && s.Complete() && s.payload == Reassemble(received, id).value
  {
    if s :| s in streams && s.id == id {
      ReassembleExact(received, streams, s);
      assert Has(received, s, |s.frames| - 1);
    } else {
      NoSuchStream(received, streams, id);
    }
  }

  lemma ReassembleComplete(received: seq<bytes>, streams: seq<Stream>, s: Stream)
    requires Streams(streams) && Genuine(received, streams) && s in streams
    requires forall i | 0 <= i < s.queued :: s.frames[i] in received
    ensures Reassemble(received, s.id) == if s.Complete() then Some(s.payload) else None
  {
    ReassembleExact(received, streams, s);
    if s.Complete() {
      assert HasAll(received, s, 0);
    } else {
      assert !Has(received, s, s.queued);
    }
  }

  // ---------------------------------------------------------------- whole runs

  /** What happens to the queue: a publish, the driver's status message, or the
      event loop taking requests out. */
  datatype Action = Offer(encoded: Encoded, meta: Meta) | Status(topic: bytes, online: bool) | Drain(count: nat)

  datatype Run = Run(nextId: u64, queue: Queue<Packet>, streams: seq<Stream>)

  function Begin(capacity: nat): Run {
    Run(1, Queue(capacity, true, [], []), [])
  }

  function Payloads(packets: seq<Packet>): seq<bytes> {
    seq(|packets|, i requires 0 <= i < |packets| => packets[i].payload)
  }

  function Apply(cfg: Settings, run: Run, a: Action): Run {
    match a
    case Drain(n) => run.(queue := run.queue.Drain(Min(n, |run.queue.pending|)))
    case Status(topic, online) => run.(queue := run.queue.TryPush(StatusPacket(topic, online)))
    case Offer(encoded, meta) =>
      var prepared := Prepare(cfg, run.nextId, encoded, meta);
      Run(NextStreamId(cfg, run.nextId, encoded, meta),
          Publish(cfg, run.nextId, encoded, meta, run.queue).1,
          if prepared.Err? then run.streams else run.streams + [OfferedStream(cfg, run, encoded, meta)])
  }

  function OfferedStream(cfg: Settings, run: Run, encoded: Encoded, meta: Meta): Stream
    requires Prepare(cfg, run.nextId, encoded, meta).Ok?
  {
    var frames := Payloads(Prepare(cfg, run.nextId, encoded, meta).value);
    Stream(run.nextId, encoded.value, frames, Min(|frames|, run.queue.Free()))
  }

  function ApplyAll(cfg: Settings, run: Run, actions: seq<Action>): Run {
    if actions == [] then run
    else Apply(cfg, ApplyAll(cfg, run, actions[..|actions| - 1]), actions[|actions| - 1])
  }

  /** The frames that a history of packets contains, in order. */
  function FramesIn(packets: seq<Packet>): seq<bytes> {
    if packets == [] then []
    else
      var last := packets[|packets| - 1].payload;
      FramesIn(packets[..|packets| - 1]) + if Decode(last).Some? then [last] else []
  }

  /** Stream after stream, the frames each of them got into the queue. */
  function QueuedFrames(streams: seq<Stream>): seq<bytes> {
    if streams == [] then []
    else
      var last := streams[|streams| - 1];
      QueuedFrames(streams[..|streams| - 1]) + last.frames[..Min(last.queued, |last.frames|)]
  }

  ghost predicate RunInv(run: Run) {
    && Streams(run.streams)
    && (forall s | s in run.streams :: s.id < run.nextId)
    && FramesIn(run.queue.sent) == QueuedFrames(run.streams)
  }

  lemma StatusIsNoFrame(topic: bytes, online: bool)
    ensures Decode(StatusPacket(topic, online).payload).None?
  {
  }

  lemma {:induction false} FramesInAppend(packets: seq<Packet>, more: seq<Packet>)
    requires forall p | p in more :: Decode(p.payload).Some?
    ensures FramesIn(packets + more) == FramesIn(packets) + Payloads(more)
    decreases |more|
  {
    if more == [] {
      assert packets + more == packets;
      assert Payloads(more) == [];
    } else {
      var shorter := more[..|more| - 1];
      assert (packets + more)[..|packets + more| - 1] == packets + shorter;
      assert (packets + more)[|packets + more| - 1] == more[|more| - 1];
      FramesInAppend(packets, shorter);
      assert more[|more| - 1] in more;
      assert Payloads(more) == Payloads(shorter) + [more[|more| - 1].payload];
    }
  }

  /** The stream that a framed publish starts is well-formed. */
  lemma PreparedStream(cfg: Settings, id: u64, encoded: Encoded, meta: Meta, queued: nat)
    requires cfg.framing && Prepare(cfg, id, encoded, meta).Ok?
    requires queued <= |Prepare(cfg, id, encoded, meta).value|
    ensures var frames := Payloads(Prepare(cfg, id, encoded, meta).value);
            Stream(id, encoded.value, frames, queued).WellFormed()
  {
    var room := cfg.maxPacketSize - Overhead(JoinTopic(cfg.baseTopic, meta.topic), meta.qos);
    var frames := Frames(encoded.value, cfg.format, meta.qos, id, room).value;
    FramesSucceed(encoded.value, cfg.format, meta.qos, id, room);
    FramesExact(encoded.value, cfg.format, meta.qos, id, room);
    assert Payloads(Prepare(cfg, id, encoded, meta).value) == frames;
  }

  lemma RunStep(cfg: Settings, run: Run, a: Action)
    requires cfg.framing && RunInv(run) && run.nextId + 1 < U64_LIMIT
    ensures RunInv(Apply(cfg, run, a))
    ensures run.nextId <= Apply(cfg, run, a).nextId <= run.nextId + 1
  {
    match a
    case Drain(_) =>
    case Status(topic, online) => StatusStep(run.queue, topic, online);
    case Offer(encoded, meta) => OfferStep(cfg, run, encoded, meta);
  }

  lemma OfferStep(cfg: Settings, run: Run, encoded: Encoded, meta: Meta)
    requires cfg.framing && RunInv(run) && run.nextId + 1 < U64_LIMIT
    ensures var next := Apply(cfg, run, Offer(encoded, meta));
            RunInv(next) && run.nextId <= next.nextId <= run.nextId + 1
  {
    var next := Apply(cfg, run, Offer(encoded, meta));
    PreparedTakesId(cfg, run.nextId, encoded, meta);
    PublishExact(cfg, run.nextId, encoded, meta, run.queue);
    if Prepare(cfg, run.nextId, encoded, meta).Ok? {
      OfferHistory(cfg, run.nextId, encoded, meta, run.queue);
      StreamsAppend(run.streams, OfferedStream(cfg, run, encoded, meta));
    }
  }

  lemma PreparedTakesId(cfg: Settings, id: u64, encoded: Encoded, meta: Meta)
    requires cfg.framing && id + 1 < U64_LIMIT
    ensures id <= NextStreamId(cfg, id, encoded, meta) <= id + 1
    ensures Prepare(cfg, id, encoded, meta).Ok? ==> NextStreamId(cfg, id, encoded, meta) == id + 1
  {
  }

  lemma StatusStep(queue: Queue<Packet>, topic: bytes, online: bool)
    ensures FramesIn(queue.TryPush(StatusPacket(topic, online)).sent) == FramesIn(queue.sent)
  {
    StatusIsNoFrame(topic, online);
    assert (queue.sent + [StatusPacket(topic, online)])[..|queue.sent|] == queue.sent;
    assert FramesIn(queue.sent) + [] == FramesIn(queue.sent);
  }

  lemma StreamsAppend(streams: seq<Stream>, s: Stream)
    requires Streams(streams) && s.WellFormed() && (forall t | t in streams :: t.id < s.id)
    ensures Streams(streams + [s])
    ensures QueuedFrames(streams + [s]) == QueuedFrames(streams) + s.frames[..s.queued]
  {
    assert (streams + [s])[..|streams|] == streams;
  }

  lemma OfferHistory(cfg: Settings, id: u64, encoded: Encoded, meta: Meta, queue: Queue<Packet>)
    requires cfg.framing && Prepare(cfg, id, encoded, meta).Ok?
    ensures var frames := Payloads(Prepare(cfg, id, encoded, meta).value);
            var k := Min(|frames|, queue.Free());
            && FramesIn(Publish(cfg, id, encoded, meta, queue).1.sent) == FramesIn(queue.sent) + frames[..k]
            && Stream(id, encoded.value, frames, k).WellFormed()
  {
    var packets := Prepare(cfg, id, encoded, meta).value;
    var frames := Payloads(packets);
    var k := Min(|frames|, queue.Free());
    PublishExact(cfg, id, encoded, meta, queue);
    PreparedStream(cfg, id, encoded, meta, k);
    forall p | p in packets[..k]
      ensures Decode(p.payload).Some?
    {
      var i :| 0 <= i < k && packets[i] == p;
      assert frames[i] == p.payload;
    }
    FramesInAppend(queue.sent, packets[..k]);
    assert Payloads(packets[..k]) == frames[..k];
  }

  lemma {:induction false} RunsKeepStreams(cfg: Settings, capacity: nat, actions: seq<Action>)
    requires cfg.framing && |actions| + 2 < U64_LIMIT
    ensures var run := ApplyAll(cfg, Begin(capacity), actions);
            RunInv(run) && run.nextId <= 1 + |actions|
  {
    if actions != [] {
      var before := actions[..|actions| - 1];
      RunsKeepStreams(cfg, capacity, before);
      RunStep(cfg, ApplyAll(cfg, Begin(capacity), before), actions[|actions| - 1]);
    }
  }

  /** A framed publish is started with a valid QoS, an encoded payload and room
      for a header. */
  predicate Starts(cfg: Settings, a: Action) {
    && a.Offer? && a.meta.qos <= 2 && a.encoded.Ok?
    && cfg.maxPacketSize >= |JoinTopic(cfg.baseTopic, a.meta.topic)| + (if a.meta.qos == 0 then 28 else 30)
  }

  function Started(cfg: Settings, actions: seq<Action>): nat {
    if actions == [] then 0
    else Started(cfg, actions[..|actions| - 1]) + if Starts(cfg, actions[|actions| - 1]) then 1 else 0
  }

  lemma IdStep(cfg: Settings, run: Run, a: Action)
    requires cfg.framing && run.nextId + 1 < U64_LIMIT
    ensures Apply(cfg, run, a).nextId == run.nextId + if Starts(cfg, a) then 1 else 0
  {
    hide JoinTopic, Prepare, Publish;
  }

  /** Stream ids count the framed publishes that were started, from one on. */
  lemma {:induction false} IdsCountPublishes(cfg: Settings, capacity: nat, actions: seq<Action>)
    requires cfg.framing && |actions| + 2 < U64_LIMIT
    ensures ApplyAll(cfg, Begin(capacity), actions).nextId == 1 + Started(cfg, actions)
  {
    if actions != [] {
      hide Apply, Starts, RunInv;
      var before := actions[..|actions| - 1];
      IdsCountPublishes(cfg, capacity, before);
      RunsKeepStreams(cfg, capacity, before);
      IdStep(cfg, ApplyAll(cfg, Begin(capacity), before), actions[|actions| - 1]);
    }
  }

  lemma {:induction false} QueuedFramesMembers(streams: seq<Stream>, r: bytes)
    ensures r in QueuedFrames(streams) <==> Queued(r, streams)
  {
    if streams != [] {
      var last := streams[|streams| - 1];
      var before := streams[..|streams| - 1];
      QueuedFramesMembers(before, r);
      assert streams == before + [last];
      assert Queued(r, streams) <==> Queued(r, before) || r in last.frames[..Min(last.queued, |last.frames|)];
    }
  }

  lemma {:induction false} FramesInMembers(packets: seq<Packet>, p: Packet)
    requires p in packets && Decode(p.payload).Some?
    ensures p.payload in FramesIn(packets)
  {
    var before := packets[..|packets| - 1];
    if packets[|packets| - 1] != p {
      assert packets == before + [packets[|packets| - 1]];
      FramesInMembers(before, p);
    }
  }

  /** The publish that started a stream reported success exactly when the queue
      took all of its frames. */
  lemma CompleteIffPublished(cfg: Settings, run: Run, encoded: Encoded, meta: Meta)
    requires Prepare(cfg, run.nextId, encoded, meta).Ok?
    ensures OfferedStream(cfg, run, encoded, meta).Complete() <==>
            Publish(cfg, run.nextId, encoded, meta, run.queue).0 == Ok(|encoded.value|)
  {
    PublishExact(cfg, run.nextId, encoded, meta, run.queue);
  }

  /** From any payloads taken from a publisher's history, in any order, with
      repetitions and losses, every stream id rebuilds either nothing or the one
      payload published under it, and only if all of its frames were queued. */
  lemma NothingIsForged(cfg: Settings, capacity: nat, actions: seq<Action>, received: seq<bytes>, id: u64)
    requires cfg.framing && |actions| + 2 < U64_LIMIT
    requires var sent := ApplyAll(cfg, Begin(capacity), actions).queue.sent;
             forall r | r in received :: r in Payloads(sent)
    ensures var run := ApplyAll(cfg, Begin(capacity), actions);
            var result := Reassemble(received, id);
            result.Some? ==>
              exists s | s in run.streams :: s.id == id && s.Complete() && result.value == s.payload
  {
    var run := ApplyAll(cfg, Begin(capacity), actions);
    HistoryIsGenuine(cfg, capacity, actions, received);
    if Reassemble(received, id).Some? {
      ReassembleSound(received, run.streams, id);
    }
  }

  lemma HistoryIsGenuine(cfg: Settings, capacity: nat, actions: seq<Action>, received: seq<bytes>)
    requires cfg.framing && |actions| + 2 < U64_LIMIT
    requires var sent := ApplyAll(cfg, Begin(capacity), actions).queue.sent;
             forall r | r in received :: r in Payloads(sent)
    ensures var run := ApplyAll(cfg, Begin(capacity), actions);
            Streams(run.streams) && Genuine(received, run.streams)
  {
    var run := ApplyAll(cfg, Begin(capacity), actions);
    RunsKeepStreams(cfg, capacity, actions);
    forall r | r in received && Decode(r).Some?
      ensures Queued(r, run.streams)
    {
      var i :| 0 <= i < |run.queue.sent| && Payloads(run.queue.sent)[i] == r;
      FramesInMembers(run.queue.sent, run.queue.sent[i]);
      QueuedFramesMembers(run.streams, r);
    }
  }

  /** If everything that was queued arrives, however shuffled and repeated, the
      streams rebuild exactly the payloads whose publish succeeded, and a stream
      cut short by a full queue is recognisably incomplete. */
  lemma SuccessfulPublishesArrive(cfg: Settings, capacity: nat, actions: seq<Action>, received: seq<bytes>, s: Stream)
    requires cfg.framing && |actions| + 2 < U64_LIMIT
    requires var run := ApplyAll(cfg, Begin(capacity), actions);
             && s in run.streams
             && (forall r :: r in received <==> r in Payloads(run.queue.sent))
    ensures Reassemble(received, s.id) == if s.Complete() then Some(s.payload) else None
  {
    var run := ApplyAll(cfg, Begin(capacity), actions);
    HistoryIsGenuine(cfg, capacity, actions, received);
    RunsKeepStreams(cfg, capacity, actions);
    forall i | 0 <= i < s.queued
      ensures s.frames[i] in received
    {
      assert s.frames[i] in s.frames[..Min(s.queued, |s.frames|)];
      QueuedFramesMembers(run.streams, s.frames[i]);
      FramesInSource(run.queue.sent, s.frames[i]);
    }
    ReassembleComplete(received, run.streams, s);
  }

  lemma {:induction false} FramesInSource(packets: seq<Packet>, r: bytes)
    requires r in FramesIn(packets)
    ensures r in Payloads(packets)
  {
    var n := |packets| - 1;
    if packets[n].payload == r {
      assert Payloads(packets)[n] == r;
    } else {
      FramesInSource(packets[..n], r);
      var i :| 0 <= i < n && Payloads(packets[..n])[i] == r;
      assert Payloads(packets)[i] == r;
    }
  }
}
