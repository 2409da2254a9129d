/** The measurement packets of the throughput tool. */
module Iperf {
  import opened Bytes
  import opened Wrappers
  import opened Frames
  import Crc32

  const MIN_PACKET_SIZE: nat := 24
  const MAX_PACKET_SIZE: nat := 2048
  const MAGIC: seq<byte> := [0x8B, 0x52, 0x54, 0x54]

  datatype ParseError = TooShort | BadMagic | CrcMismatch(expected: bv32, actual: bv32)

  function Clamp(size: nat): (n: nat)
    ensures MIN_PACKET_SIZE <= n <= MAX_PACKET_SIZE
    ensures MIN_PACKET_SIZE <= size <= MAX_PACKET_SIZE ==> n == size
  {
    if size < MIN_PACKET_SIZE then MIN_PACKET_SIZE else if size > MAX_PACKET_SIZE then MAX_PACKET_SIZE else size
  }

  function LowByte(n: nat): byte {
    (n % 256) as byte
  }

  /** Everything in front of the checksum. */
  function Body(seqNo: bv32, timestamp: bv64, size: nat): (body: seq<byte>)
    requires MIN_PACKET_SIZE <= size
    ensures |body| == size - 4
  {
    Head(seqNo, timestamp) + Padding(size - 20)
  }

  function Head(seqNo: bv32, timestamp: bv64): (head: seq<byte>)
    ensures |head| == 16
  {
    MAGIC + U32ToLe(seqNo) + U64ToLe(timestamp)
  }

  function Padding(n: nat): (p: seq<byte>)
    ensures |p| == n
  {
    if n == 0 then [] else Padding(n - 1) + [LowByte(15 + n)]
  }

  function FilledPacket(seqNo: bv32, timestamp: bv64, size: nat): (bytes: seq<byte>)
    requires MIN_PACKET_SIZE <= size
    ensures |bytes| == size
  {
    var body := Body(seqNo, timestamp, size);
    body + U32ToLe(Crc32.Checksum(body))
  }

  function ParsedPacket(data: seq<byte>): Result<(bv32, bv64), ParseError> {
    if |data| < MIN_PACKET_SIZE then Failure(TooShort)
    else if data[..4] != MAGIC then Failure(BadMagic)
    else
      var end := |data| - 4;
      var expected := U32FromLe(data[end], data[end + 1], data[end + 2], data[end + 3]);
      var actual := Crc32.Checksum(data[..end]);
      if expected != actual then Failure(CrcMismatch(expected, actual))
      else Success((U32FromLe(data[4], data[5], data[6], data[7]), U64FromLe(data[8..16])))
  }

  /** Magic, number and time stamp, field by field behind a moving position. */
  method FillHead(frame: FrameSegment, seqNo: bv32, now: bv64) returns (pos: nat)
    requires frame.Valid() && frame.len >= 16
    modifies frame.data
    ensures pos == 16 && frame.data[..16] == Head(seqNo, now)
  {
    hide U32ToLe, U64ToLe;
    pos := 0;
    frame.Write(pos, MAGIC);
    pos := pos + 4;
    frame.Write(pos, U32ToLe(seqNo));
    pos := pos + 4;
    frame.Write(pos, U64ToLe(now));
    pos := pos + 8;
  }

  /** Fills the frame in place. */
  method FillPacket(frame: FrameSegment, seqNo: bv32, requested: nat, now: bv64)
    requires frame.Valid() && frame.S == MAX_PACKET_SIZE && frame.R == 1
    modifies frame, frame.data
    ensures frame.Valid() && frame.Contents() == FilledPacket(seqNo, now, Clamp(requested))
  {
    hide U32ToLe, Padding, Head, Crc32.Checksum;
    var size := Clamp(requested);
    frame.Clear();
    var start := frame.AllocBuffer(size);
    assert start == Some(0) && frame.len == size;
    var pos := FillHead(frame, seqNo, now);
    pos := FillPadding(frame, pos, size);
    assert frame.data[..pos] == frame.data[..16] + frame.data[16..pos];
    var crc := Crc32.Checksum(frame.data[..pos]);
    frame.Write(pos, U32ToLe(crc));
  }

  method FillPadding(frame: FrameSegment, from: nat, size: nat) returns (pos: nat)
    requires frame.Valid() && from == 16 && MIN_PACKET_SIZE <= size <= frame.data.Length
    modifies frame.data
    ensures pos == size - 4
    ensures frame.data[..16] == old(frame.data[..16]) && frame.data[16..pos] == Padding(pos - 16)
  {
    hide LowByte;
    pos := from;
    while pos < size - 4
      invariant 16 <= pos <= size - 4
      invariant frame.data[..16] == old(frame.data[..16]) && frame.data[16..pos] == Padding(pos - 16)
    {
      frame.data[pos] := LowByte(pos);
      pos := pos + 1;
      assert frame.data[16..pos] == frame.data[16..pos - 1] + [LowByte(pos - 1)];
    }
  }

  lemma HeadFields(seqNo: bv32, timestamp: bv64)
    ensures
      var head := Head(seqNo, timestamp);
      head[..4] == MAGIC && head[4..8] == U32ToLe(seqNo) && head[8..16] == U64ToLe(timestamp)
  {
    hide U32ToLe, U64ToLe;
  }

  lemma BodyFields(seqNo: bv32, timestamp: bv64, size: nat)
    requires MIN_PACKET_SIZE <= size
    ensures
      var body := Body(seqNo, timestamp, size);
      && body[..4] == MAGIC && body[4..8] == U32ToLe(seqNo) && body[8..16] == U64ToLe(timestamp)
      && body[16..] == Padding(size - 20)
  {
    hide U32ToLe, U64ToLe, Head, Padding;
    HeadFields(seqNo, timestamp);
    var head, body := Head(seqNo, timestamp), Body(seqNo, timestamp, size);
    assert body[..16] == head;
    assert body[..4] == head[..4] && body[4..8] == head[4..8] && body[8..16] == head[8..16];
  }

  /** The fields of a filled packet, wherever it ends. */
  lemma PacketFields(seqNo: bv32, timestamp: bv64, size: nat)
    requires MIN_PACKET_SIZE <= size
    ensures
      var data := FilledPacket(seqNo, timestamp, size);
      && data[..4] == MAGIC && data[4..8] == U32ToLe(seqNo) && data[8..16] == U64ToLe(timestamp)
      && data[16..size - 4] == Padding(size - 20) && data[..size - 4] == Body(seqNo, timestamp, size)
      && data[size - 4..] == U32ToLe(Crc32.Checksum(data[..size - 4]))
  {
    hide U32ToLe, U64ToLe, Body, Padding, Crc32.Checksum;
    BodyFields(seqNo, timestamp, size);
    var body, data := Body(seqNo, timestamp, size), FilledPacket(seqNo, timestamp, size);
    assert data[..size - 4] == body;
    assert data[..4] == body[..4] && data[4..8] == body[4..8] && data[8..16] == body[8..16];
    assert data[16..size - 4] == body[16..];
  }

  /** The layout of a packet in bytes. */
  lemma FilledBytes(seqNo: bv32, timestamp: bv64, requested: nat)
    ensures
      var size := if requested < 24 then 24 else if requested > 2048 then 2048 else requested;
      var data := FilledPacket(seqNo, timestamp, Clamp(requested));
      && |data| == size && data[..4] == [0x8B, 0x52, 0x54, 0x54]
      && data[4..8] == U32ToLe(seqNo) && data[8..16] == U64ToLe(timestamp)
      && (forall k | 16 <= k < size - 4 :: data[k] == (k % 256) as byte)
      && data[size - 4..] == U32ToLe(Crc32.Checksum(data[..size - 4]))
  {
    hide U32ToLe, U64ToLe, Padding, Body, FilledPacket, Crc32.Checksum;
    var size := Clamp(requested);
    var data := FilledPacket(seqNo, timestamp, size);
    PacketFields(seqNo, timestamp, size);
    forall k | 16 <= k < size - 4 ensures data[k] == (k % 256) as byte {
      PaddingAt(size - 20, k - 16);
      assert data[k] == data[16..size - 4][k - 16];
    }
  }

  lemma {:induction false} PaddingAt(n: nat, k: nat)
    requires k < n
    ensures Padding(n)[k] == LowByte(16 + k)
  {
    if k < n - 1 {
      PaddingAt(n - 1, k);
    }
  }

  /** Exactly the packets that are long enough, start with the magic and end in their checksum are accepted. */
  lemma ParsedIff(data: seq<byte>)
    ensures
      var r := ParsedPacket(data);
      var good := |data| >= 24 && data[..4] == [0x8B, 0x52, 0x54, 0x54];
      && (r.Success? <==> good && data[|data| - 4..] == U32ToLe(Crc32.Checksum(data[..|data| - 4])))
      && (r == Failure(TooShort) <==> |data| < 24)
      && (r == Failure(BadMagic) <==> |data| >= 24 && data[..4] != [0x8B, 0x52, 0x54, 0x54])
      && (r.Failure? && r.error.CrcMismatch? <==>
          good && data[|data| - 4..] != U32ToLe(Crc32.Checksum(data[..|data| - 4])))
      && (r.Success? ==> U32ToLe(r.value.0) == data[4..8] && U64ToLe(r.value.1) == data[8..16])
  {
    hide U32ToLe, U32FromLe, U64ToLe, U64FromLe, Crc32.Checksum;
    if |data| >= MIN_PACKET_SIZE {
      var end := |data| - 4;
      FourBytes(data, end);
      FourBytes(data, 4);
      assert data[end..end + 4] == data[end..];
      U32BytesRoundTrip(data[end], data[end + 1], data[end + 2], data[end + 3]);
      U32RoundTripBytes(Crc32.Checksum(data[..end]));
      U32BytesRoundTrip(data[4], data[5], data[6], data[7]);
      U64BytesRoundTrip(data[8..16]);
    }
  }

  lemma FourBytes(data: seq<byte>, at: nat)
    requires at + 4 <= |data|
    ensures data[at..at + 4] == [data[at], data[at + 1], data[at + 2], data[at + 3]]
  {
  }

  lemma U32RoundTripBytes(x: bv32)
    ensures forall b0, b1, b2, b3 :: U32ToLe(x) == [b0, b1, b2, b3] ==> U32FromLe(b0, b1, b2, b3) == x
  {
    hide U32ToLe, U32FromLe;
    U32RoundTrip(x);
    forall b0, b1, b2, b3 | U32ToLe(x) == [b0, b1, b2, b3] ensures U32FromLe(b0, b1, b2, b3) == x {
      var b := U32ToLe(x);
      assert b[0] == b0 && b[1] == b1 && b[2] == b2 && b[3] == b3;
    }
  }

  /** A packet that arrives unchanged gives back its number and time stamp, whatever size was asked for. */
  lemma ParseFilled(seqNo: bv32, timestamp: bv64, requested: nat)
    ensures ParsedPacket(FilledPacket(seqNo, timestamp, Clamp(requested))) == Success((seqNo, timestamp))
  {
    hide Body, FilledPacket, Padding, U32ToLe, U32FromLe, U64ToLe, U64FromLe, Crc32.Checksum;
    var size := Clamp(requested);
    var data := FilledPacket(seqNo, timestamp, size);
    PacketFields(seqNo, timestamp, size);
    assert data[size - 4..size] == data[size - 4..];
    LeOfSlice(data, 4, seqNo);
    LeOfSlice(data, size - 4, Crc32.Checksum(data[..size - 4]));
    U64RoundTrip(timestamp);
  }

  lemma LeOfSlice(data: seq<byte>, at: nat, x: bv32)
    requires at + 4 <= |data| && data[at..at + 4] == U32ToLe(x)
    ensures U32FromLe(data[at], data[at + 1], data[at + 2], data[at + 3]) == x
  {
    hide U32ToLe, U32FromLe;
    FourBytes(data, at);
    U32RoundTrip(x);
  }

  /** Damage to four consecutive bytes between the magic and the checksum is always reported as a mismatch. */
  lemma BurstReported(seqNo: bv32, timestamp: bv64, requested: nat, damaged: seq<byte>, at: nat)
    requires
      var packet := FilledPacket(seqNo, timestamp, Clamp(requested));
      && Crc32.DifferInBurst(packet, damaged, at)
      && damaged[..4] == MAGIC
      && damaged[|damaged| - 4..] == packet[|packet| - 4..]
    ensures ParsedPacket(damaged).Failure? && ParsedPacket(damaged).error.CrcMismatch?
  {
    hide Body, FilledPacket, Padding, U32ToLe, U32FromLe, U64ToLe, U64FromLe, Crc32.Checksum;
    var size := Clamp(requested);
    var body := Body(seqNo, timestamp, size);
    var packet := FilledPacket(seqNo, timestamp, size);
    var end := size - 4;
    PacketFields(seqNo, timestamp, size);
    assert damaged == damaged[..end] + damaged[end..] && packet == packet[..end] + packet[end..];
    assert Crc32.DifferInBurst(body, damaged[..end], at) by {
      forall j | 0 <= j < end && !(at <= j < at + 4) ensures body[j] == damaged[..end][j] {
        assert packet[j] == damaged[j];
      }
    }
    Crc32.BurstDetected(body, damaged[..end], at);
    assert damaged[end..end + 4] == damaged[end..];
    LeOfSlice(damaged, end, Crc32.Checksum(body));
  }
}
