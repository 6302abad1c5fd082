/** Splitting a payload into frames (crates/mqtt/v3/src/framer.rs). */
module Framer {
  import opened Basics

  datatype Format = Json | MessagePack | Cbor

  /** Errors of the transport that a publish can report. */
  datatype TransferError =
    | Encoding(detail: string)
    | PayloadTooLarge(size: nat, max: nat)
    | InvalidQos(qos: nat)
    | NoRoomForPayload
    | TooManyFrames
    | QueueFull

  const HEADER_LEN: nat := 21

  const U32_LIMIT: nat := 0x1_0000_0000

  const U64_LIMIT: nat := 0x1_0000_0000_0000_0000

  type u32 = x: int | 0 <= x < 0x1_0000_0000

  type u64 = x: int | 0 <= x < 0x1_0000_0000_0000_0000

  datatype Header = Header(format: Format, qos: byte, streamId: u64, index: u32, total: u32)

  // ---------------------------------------------------------------- big-endian integers

  function Pow256(width: nat): (r: nat)
    ensures r > 0
  {
    if width == 0 then 1 else 256 * Pow256(width - 1)
  }

  function BigEndian(n: nat, width: nat): (r: bytes)
    ensures |r| == width
  {
    if width == 0 then [] else BigEndian(n / 256, width - 1) + [n % 256]
  }

  function FromBigEndian(b: bytes): nat {
    if b == [] then 0 else 256 * FromBigEndian(b[..|b| - 1]) + b[|b| - 1]
  }

  lemma {:induction false} BigEndianRoundTrip(n: nat, width: nat)
    requires n < Pow256(width)
    ensures FromBigEndian(BigEndian(n, width)) == n
  {
    if width > 0 {
      BigEndianRoundTrip(n / 256, width - 1);
      assert BigEndian(n, width)[..width - 1] == BigEndian(n / 256, width - 1);
    }
  }

  lemma {:induction false} FromBigEndianRoundTrip(b: bytes)
    ensures FromBigEndian(b) < Pow256(|b|)
    ensures BigEndian(FromBigEndian(b), |b|) == b
  {
    if b != [] {
      FromBigEndianRoundTrip(b[..|b| - 1]);
      assert b == b[..|b| - 1] + [b[|b| - 1]];
    }
  }

  lemma Widths()
    ensures Pow256(4) == U32_LIMIT && Pow256(8) == U64_LIMIT
  {
    assert Pow256(4) == U32_LIMIT;
    assert Pow256(8) == 256 * 256 * 256 * 256 * Pow256(4);
  }

  // ---------------------------------------------------------------- header

  function FormatCode(f: Format): byte {
    match f
    case Json => 0
    case MessagePack => 1
    case Cbor => 2
  }

  /** "FR", version 1, format, QoS, stream id, frame index, frame count. */
  function HeaderBytes(h: Header): (r: bytes)
    ensures |r| == HEADER_LEN
  {
    [70, 82, 1, FormatCode(h.format), h.qos]
    + BigEndian(h.streamId, 8) + BigEndian(h.index, 4) + BigEndian(h.total, 4)
  }

  /** The digits of n to the base 256, most significant first. */
  ghost predicate HoldsDigits(b: bytes, n: nat) {
    forall i | 0 <= i < |b| :: b[i] == n / Pow256(|b| - 1 - i) % 256
  }

  lemma {:induction false} BigEndianDigits(n: nat, width: nat)
    ensures HoldsDigits(BigEndian(n, width), n)
  {
    if width > 0 {
      var b, shorter := BigEndian(n, width), BigEndian(n / 256, width - 1);
      BigEndianDigits(n / 256, width - 1);
      forall i | 0 <= i < width
        ensures b[i] == n / Pow256(width - 1 - i) % 256
      {
        if i < width - 1 {
          assert b[i] == shorter[i];
          DivideTwice(n, Pow256(width - 2 - i));
        }
      }
    }
  }

  lemma DivideTwice(n: nat, d: nat)
    requires d > 0
    ensures n / 256 / d == n / (256 * d)
  {
    var m := n / 256;
    var q := m / d;
    assert d * q <= m < d * q + d;
    assert 256 * m <= n < 256 * m + 256;
    assert 256 * (d * q) == 256 * d * q;
    DivideBetween(n, 256 * d, q);
  }

  /** The layout field by field: "FR", 1, the format's number, the QoS, and stream
      id, index and count with their most significant byte first. */
  lemma HeaderLayout(h: Header)
    ensures var b := HeaderBytes(h);
            && b[..2] == Ascii("FR") && b[2] == 1
            && (b[3] == 0 <==> h.format == Json) && (b[3] == 1 <==> h.format == MessagePack)
            && (b[3] == 2 <==> h.format == Cbor)
            && b[4] == h.qos
            && HoldsDigits(b[5..13], h.streamId)
            && HoldsDigits(b[13..17], h.index)
            && HoldsDigits(b[17..21], h.total)
  {
    BigEndianDigits(h.streamId, 8);
    BigEndianDigits(h.index, 4);
    BigEndianDigits(h.total, 4);
    hide BigEndian, HoldsDigits;
    var b := HeaderBytes(h);
    assert b[5..13] == BigEndian(h.streamId, 8);
    assert b[13..17] == BigEndian(h.index, 4);
    assert b[17..21] == BigEndian(h.total, 4);
  }

  function Decode(b: bytes): Option<Header> {
    if |b| < HEADER_LEN || b[..2] != [70, 82] || b[2] != 1 then None
    else if b[3] > 2 then None
    else
      var format := if b[3] == 0 then Json else if b[3] == 1 then MessagePack else Cbor;
      DecodeFits(b);
      Some(Header(format, b[4], FromBigEndian(b[5..13]), FromBigEndian(b[13..17]), FromBigEndian(b[17..21])))
  }

  lemma DecodeFits(b: bytes)
    requires |b| >= HEADER_LEN
    ensures FromBigEndian(b[5..13]) < U64_LIMIT
    ensures FromBigEndian(b[13..17]) < U32_LIMIT && FromBigEndian(b[17..21]) < U32_LIMIT
  {
    Widths();
    FromBigEndianRoundTrip(b[5..13]);
    FromBigEndianRoundTrip(b[13..17]);
    FromBigEndianRoundTrip(b[17..21]);
  }

  /** Decoding a frame recovers its header whatever chunk follows. */
  lemma HeaderRoundTrip(h: Header, chunk: bytes)
    ensures Decode(HeaderBytes(h) + chunk) == Some(h)
    ensures (HeaderBytes(h) + chunk)[HEADER_LEN..] == chunk
  {
    var b := HeaderBytes(h) + chunk;
    Widths();
    BigEndianRoundTrip(h.streamId, 8);
    BigEndianRoundTrip(h.index, 4);
    BigEndianRoundTrip(h.total, 4);
    var id, index, total := BigEndian(h.streamId, 8), BigEndian(h.index, 4), BigEndian(h.total, 4);
    var fixed := [70, 82, 1, FormatCode(h.format), h.qos];
    assert b == fixed + (id + (index + (total + chunk)));
    assert b[5..13] == id;
    assert b[13..17] == index;
    assert b[17..21] == total;
    assert b[..2] == [70, 82];
  }

  /** What decodes is exactly what starts with an encoded header. */
  lemma DecodeInverse(b: bytes, h: Header)
    ensures Decode(b) == Some(h) <==> |b| >= HEADER_LEN && b[..HEADER_LEN] == HeaderBytes(h)
  {
    if |b| >= HEADER_LEN && b[..HEADER_LEN] == HeaderBytes(h) {
      HeaderRoundTrip(h, b[HEADER_LEN..]);
      assert b == HeaderBytes(h) + b[HEADER_LEN..];
    }
    if Decode(b) == Some(h) {
      FromBigEndianRoundTrip(b[5..13]);
      FromBigEndianRoundTrip(b[13..17]);
      FromBigEndianRoundTrip(b[17..21]);
      assert b[..HEADER_LEN] == b[..2] + [b[2], b[3], b[4]] + b[5..13] + b[13..17] + b[17..21];
    }
  }

  /** Fills the header array field by field. */
  method Encode(h: Header) returns (out: array<byte>)
    ensures fresh(out)
    ensures out[..] == HeaderBytes(h)
  {
    out := new byte[HEADER_LEN](_ => 0);
    CopyInto(out, 0, [70, 82]);
    out[2] := 1;
    out[3] := FormatCode(h.format);
    out[4] := h.qos;
    assert out[..5] == [70, 82, 1, FormatCode(h.format), h.qos];
    CopyInto(out, 5, BigEndian(h.streamId, 8));
    CopyInto(out, 13, BigEndian(h.index, 4));
    CopyInto(out, 17, BigEndian(h.total, 4));
    assert out[..] == out[..5] + out[5..13] + out[13..17] + out[17..21];
  }

  method CopyInto(out: array<byte>, at: nat, src: bytes)
    requires at + |src| <= out.Length
    modifies out
    ensures out[at..at + |src|] == src
    ensures out[..at] == old(out[..at])
    ensures forall i | 0 <= i < out.Length && !(at <= i < at + |src|) :: out[i] == old(out[i])
  {
    forall i | 0 <= i < |src| {
      out[at + i] := src[i];
    }
  }

  // ---------------------------------------------------------------- frames

  function DivCeil(n: nat, d: nat): nat
    requires d > 0
  {
    (n + d - 1) / d
  }

  /** Consecutive pieces of `size` bytes, the last one shorter; one empty piece
      for an empty payload. */
  function Chunks(payload: bytes, size: nat): (r: seq<bytes>)
    requires size > 0 || payload == []
    ensures |r| > 0
    decreases |payload|
  {
    if |payload| <= size then [payload]
    else [payload[..size]] + Chunks(payload[size..], size)
  }

  function Concat(pieces: seq<bytes>): bytes {
    if pieces == [] then [] else pieces[0] + Concat(pieces[1..])
  }

  function Frames(payload: bytes, format: Format, qos: byte, streamId: u64, maxLen: nat): Result<seq<bytes>, TransferError> {
    if maxLen < HEADER_LEN || (maxLen == HEADER_LEN && payload != []) then Err(NoRoomForPayload)
    else
      var size := maxLen - HEADER_LEN;
      var total := FrameCount(|payload|, size);
      if total >= U32_LIMIT then Err(TooManyFrames)
      else
        ChunksCover(payload, size);
        var chunks := Chunks(payload, size);
        Ok(seq(|chunks|, i requires 0 <= i < |chunks| =>
          HeaderBytes(Header(format, qos, streamId, i, total)) + chunks[i]))
  }

  function FrameCount(length: nat, size: nat): nat
    requires size > 0 || length == 0
  {
    if length == 0 then 1 else DivCeil(length, size)
  }

  /** The pieces are as many as the header's count says, none is longer than
      `size`, only the last is shorter, and together they are the payload. */
  lemma {:induction false} ChunksCover(payload: bytes, size: nat)
    requires size > 0 || payload == []
    ensures var cs := Chunks(payload, size);
            && |cs| == FrameCount(|payload|, size)
            && (forall i | 0 <= i < |cs| - 1 :: |cs[i]| == size)
            && |cs[|cs| - 1]| <= size && (payload != [] ==> cs[|cs| - 1] != [])
            && Concat(cs) == payload
    decreases |payload|
  {
    if |payload| <= size {
      if payload != [] {
        CeilOfOne(|payload|, size);
      }
      assert Concat([payload]) == payload + Concat([]);
    } else {
      var rest := payload[size..];
      ChunksCover(rest, size);
      CeilStep(|payload|, size);
      var cs := Chunks(payload, size);
      assert cs == [payload[..size]] + Chunks(rest, size);
      assert cs[1..] == Chunks(rest, size);
      assert payload == payload[..size] + rest;
    }
  }

  lemma CeilOfOne(n: nat, d: nat)
    requires 0 < n <= d
    ensures DivCeil(n, d) == 1
  {
    DivideBetween(n + d - 1, d, 1);
  }

  lemma CeilStep(n: nat, d: nat)
    requires 0 < d < n
    ensures DivCeil(n, d) == DivCeil(n - d, d) + 1
  {
    var q := DivCeil(n - d, d);
    assert d * q <= n - 1 < d * q + d;
    DivideBetween(n + d - 1, d, q + 1);
  }

  lemma DivideBetween(n: nat, d: nat, q: nat)
    requires 0 < d && d * q <= n < d * q + d
    ensures n / d == q
  {
    var r := n / d;
    assert d * r <= n < d * r + d;
    Monotone(d, r + 1, q);
    Monotone(d, q + 1, r);
  }

  lemma Monotone(d: nat, a: nat, b: nat)
    ensures a <= b ==> d * a <= d * b
  {
  }

  /** Splitting fails exactly when the header leaves no room or the count does
      not fit its field; otherwise there are max(1, ceil(len / room)) frames. */
  lemma FramesSucceed(payload: bytes, format: Format, qos: byte, streamId: u64, maxLen: nat)
    ensures var r := Frames(payload, format, qos, streamId, maxLen);
            var room := maxLen - HEADER_LEN;
            && (r.Ok? <==> room >= 0 && (payload == [] || (room > 0 && DivCeil(|payload|, room) < U32_LIMIT)))
            && (r.Ok? ==> 0 < |r.value| == FrameCount(|payload|, room) < U32_LIMIT)
  {
    if maxLen > HEADER_LEN || (maxLen == HEADER_LEN && payload == []) {
      ChunksCover(payload, maxLen - HEADER_LEN);
    }
  }

  lemma FrameAt(payload: bytes, format: Format, qos: byte, streamId: u64, maxLen: nat, i: nat)
    requires var r := Frames(payload, format, qos, streamId, maxLen); r.Ok? && i < |r.value|
    ensures var frames := Frames(payload, format, qos, streamId, maxLen).value;
            var chunks := Chunks(payload, maxLen - HEADER_LEN);
            && |frames| == |chunks| < U32_LIMIT
            && HEADER_LEN <= |frames[i]| <= maxLen
            && Decode(frames[i]) == Some(Header(format, qos, streamId, i, |frames|))
            && ChunkOf(frames[i]) == chunks[i]
  {
    FramesSucceed(payload, format, qos, streamId, maxLen);
    var size := maxLen - HEADER_LEN;
    ChunksCover(payload, size);
    HeaderRoundTrip(Header(format, qos, streamId, i, |Chunks(payload, size)|), Chunks(payload, size)[i]);
  }

  /** Frames are numbered in order with their common count, none is longer than
      allowed, and their chunks concatenate to the payload. */
  lemma FramesExact(payload: bytes, format: Format, qos: byte, streamId: u64, maxLen: nat)
    requires Frames(payload, format, qos, streamId, maxLen).Ok?
    ensures var frames := Frames(payload, format, qos, streamId, maxLen).value;
            && |frames| < U32_LIMIT
            && (forall i | 0 <= i < |frames| ::
                  && HEADER_LEN <= |frames[i]| <= maxLen
                  && Decode(frames[i]) == Some(Header(format, qos, streamId, i, |frames|)))
            && Concat(ChunksOf(frames)) == payload
  {
    var frames := Frames(payload, format, qos, streamId, maxLen).value;
    forall i | 0 <= i < |frames|
      ensures |frames| == |Chunks(payload, maxLen - HEADER_LEN)| < U32_LIMIT
      ensures HEADER_LEN <= |frames[i]| <= maxLen
      ensures Decode(frames[i]) == Some(Header(format, qos, streamId, i, |frames|))
      ensures ChunkOf(frames[i]) == Chunks(payload, maxLen - HEADER_LEN)[i]
    {
      FrameAt(payload, format, qos, streamId, maxLen, i);
    }
    ChunksCover(payload, maxLen - HEADER_LEN);
    FramesSucceed(payload, format, qos, streamId, maxLen);
    assert ChunksOf(frames) == Chunks(payload, maxLen - HEADER_LEN);
  }

  function ChunkOf(frame: bytes): bytes {
    if |frame| < HEADER_LEN then [] else frame[HEADER_LEN..]
  }

  function ChunksOf(frames: seq<bytes>): seq<bytes> {
    seq(|frames|, i requires 0 <= i < |frames| => ChunkOf(frames[i]))
  }
}
