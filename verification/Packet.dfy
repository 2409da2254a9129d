/** Packets: a 16-byte header in front of a payload frame. */
module Packets {
  import opened Bytes
  import opened Wrappers
  import opened Frames
  import Crc32

  datatype NetworkError =
    | CorruptedData
    | OutOfMemory
    | PayloadTooBig
    | TryAgain
    | IncorrectSequence
    | NotSupported
    | Busy

  const HEADER_SIZE: nat := 16
  const PACKET_TYPE: byte := 0xBA

  const ENCODED: byte := 0x01
  const SEGMENTED: byte := 0x02

  /** `seqNo` and `seqCount` are machine words in memory but travel in four bits each. */
  datatype Header = Header(id: bv32, flags: byte, seqNo: nat, seqCount: nat, len: nat, crc: bv32) {

    predicate HasFlag(flag: byte) {
      flags & flag != 0
    }

    function AddFlag(flag: byte): Header {
      this.(flags := flags | flag)
    }

    /** The header as the receiver sees it. */
    function OnWire(): Header {
      this.(seqNo := seqNo % 16, seqCount := seqCount % 16)
    }
  }

  const EMPTY_HEADER: Header := Header(0, 0, 0, 0, 0, 0)

  function SeqByte(seqNo: nat, seqCount: nat): byte {
    (((seqNo % 256) as byte) & 0x0F) | ((((seqCount % 256) as byte) & 0x0F) << 4)
  }

  function PackedHeader(h: Header): (bytes: seq<byte>)
    requires h.len < 0x1_0000
    ensures |bytes| == HEADER_SIZE
  {
    [PACKET_TYPE, h.flags, SeqByte(h.seqNo, h.seqCount)] + U32ToLe(h.id) + [0, 0, 0]
    + U16ToLe(h.len) + U32ToLe(h.crc)
  }

  function UnpackedHeader(data: seq<byte>): (r: Result<Header, NetworkError>)
    ensures r.Success? ==> r.value.len < 0x1_0000
  {
    if |data| < HEADER_SIZE then
      Failure(OutOfMemory)
    else if data[0] != PACKET_TYPE then
      Failure(NotSupported)
    else
      Success(Header(
        U32FromLe(data[3], data[4], data[5], data[6]),
        data[1],
        (data[2] & 0x0F) as nat,
        ((data[2] & 0xF0) >> 4) as nat,
        U16FromLe(data[10], data[11]),
        U32FromLe(data[12], data[13], data[14], data[15])))
  }

  /** Writes the header field by field behind a moving offset. */
  method Pack(h: Header) returns (buffer: array<byte>)
    requires h.len < 0x1_0000
    ensures fresh(buffer) && buffer[..] == PackedHeader(h)
  {
    hide SeqByte, U16ToLe, U32ToLe;
    buffer := new byte[HEADER_SIZE](_ => 0);
    var offset := 0;
    buffer[offset] := PACKET_TYPE;
    offset := offset + 1;
    buffer[offset] := h.flags;
    offset := offset + 1;
    buffer[offset] := SeqByte(h.seqNo, h.seqCount);
    offset := offset + 1;
    ghost var front := [PACKET_TYPE, h.flags, SeqByte(h.seqNo, h.seqCount)];
    assert buffer[..3] == front && forall i | 3 <= i < 16 :: buffer[i] == 0;
    CopyInto(buffer, offset, U32ToLe(h.id));
    offset := offset + 4;
    front := front + U32ToLe(h.id);
    assert buffer[..7] == front && forall i | 7 <= i < 16 :: buffer[i] == 0;
    offset := offset + 3;
    front := front + [0, 0, 0];
    assert buffer[..10] == front;
    CopyInto(buffer, offset, U16ToLe(h.len));
    offset := offset + 2;
    front := front + U16ToLe(h.len);
    assert buffer[..12] == front;
    CopyInto(buffer, offset, U32ToLe(h.crc));
    assert buffer[..] == front + U32ToLe(h.crc);
  }

  method CopyInto(buffer: array<byte>, offset: nat, bytes: seq<byte>)
    requires offset + |bytes| <= buffer.Length
    modifies buffer
    ensures forall i | 0 <= i < buffer.Length && !(offset <= i < offset + |bytes|) :: buffer[i] == old(buffer[i])
    ensures forall i | 0 <= i < |bytes| :: buffer[offset + i] == bytes[i]
  {
    forall i | 0 <= i < |bytes| {
      buffer[offset + i] := bytes[i];
    }
  }

  lemma SeqByteNibbles(seqNo: nat, seqCount: nat)
    ensures (SeqByte(seqNo, seqCount) & 0x0F) as nat == seqNo % 16
    ensures ((SeqByte(seqNo, seqCount) & 0xF0) >> 4) as nat == seqCount % 16
  {
    var lo, hi := (seqNo % 256) as byte, (seqCount % 256) as byte;
    NibbleOfNat(seqNo, lo);
    NibbleOfNat(seqCount, hi);
    NibblesPacked(lo, hi);
  }

  lemma NibblesPacked(lo: byte, hi: byte)
    ensures ((lo & 0x0F) | ((hi & 0x0F) << 4)) & 0x0F == lo & 0x0F
    ensures (((lo & 0x0F) | ((hi & 0x0F) << 4)) & 0xF0) >> 4 == hi & 0x0F
  {
  }

  /** The receiver gets every header field back, with the sequence numbers cut to four bits. */
  lemma UnpackPack(h: Header, rest: seq<byte>)
    requires h.len < 0x1_0000
    ensures UnpackedHeader(PackedHeader(h) + rest) == Success(h.OnWire())
  {
    hide SeqByte, U16ToLe, U16FromLe, U32ToLe, U32FromLe;
    SeqByteNibbles(h.seqNo, h.seqCount);
    U32RoundTrip(h.id);
    U32RoundTrip(h.crc);
    U16RoundTrip(h.len);
  }

  /** So a header survives the wire exactly when its sequence numbers fit four bits. */
  lemma HeaderSurvivesIff(h: Header)
    requires h.len < 0x1_0000
    ensures UnpackedHeader(PackedHeader(h)) == Success(h) <==> h.seqNo < 16 && h.seqCount < 16
  {
    hide PackedHeader, UnpackedHeader;
    UnpackPack(h, []);
    assert PackedHeader(h) + [] == PackedHeader(h);
  }

  lemma NibblesOfByte(b: byte)
    ensures SeqByte((b & 0x0F) as nat, ((b & 0xF0) >> 4) as nat) == b
  {
    var lo, hi := b & 0x0F, (b & 0xF0) >> 4;
    SmallByte(lo);
    SmallByte(hi);
    assert (lo & 0x0F) | ((hi & 0x0F) << 4) == b;
  }

  lemma SmallByte(b: byte)
    ensures ((b as nat) % 256) as byte == b
  {
    NatOfByte(b);
  }

  /** Exactly the bytes that are long enough and start with the type of payload packets are a header. */
  lemma UnpackedIff(data: seq<byte>)
    ensures UnpackedHeader(data).Success? <==> |data| >= 16 && data[0] == 0xBA
    ensures UnpackedHeader(data) == Failure(OutOfMemory) <==> |data| < 16
    ensures UnpackedHeader(data) == Failure(NotSupported) <==> |data| >= 16 && data[0] != 0xBA
  {
  }

  /** The five groups of fields of a header as it is packed. */
  lemma PackedGroups(h: Header)
    requires h.len < 0x1_0000
    ensures
      var b := PackedHeader(h);
      && b[..3] == [PACKET_TYPE, h.flags, SeqByte(h.seqNo, h.seqCount)] && b[3..7] == U32ToLe(h.id)
      && b[7..10] == [0, 0, 0] && b[10..12] == U16ToLe(h.len) && b[12..] == U32ToLe(h.crc)
  {
    hide SeqByte, U16ToLe, U32ToLe;
  }

  lemma FourFrom(b: seq<byte>, i: nat)
    requires i + 4 <= |b|
    ensures b[i..i + 4] == [b[i], b[i + 1], b[i + 2], b[i + 3]]
  {
  }

  lemma UnpackedFields(b: seq<byte>)
    requires |b| >= HEADER_SIZE && b[0] == PACKET_TYPE
    ensures UnpackedHeader(b).Success?
    ensures
      var h := UnpackedHeader(b).value;
      && h.flags == b[1] && SeqByte(h.seqNo, h.seqCount) == b[2]
      && h.id == U32FromLe(b[3], b[4], b[5], b[6]) && h.len == U16FromLe(b[10], b[11])
      && h.crc == U32FromLe(b[12], b[13], b[14], b[15])
  {
    hide SeqByte, U16FromLe, U32FromLe;
    NibblesOfByte(b[2]);
  }

  lemma SameGroups(a: seq<byte>, b: seq<byte>)
    requires |a| == 16 <= |b| && a[..3] == b[..3] && a[3..7] == b[3..7]
    requires a[7..10] == [0, 0, 0] && a[10..12] == b[10..12] && a[12..] == b[12..16]
    ensures a == b[..7] + [0, 0, 0] + b[10..16]
  {
    assert a == a[..3] + a[3..7] + a[7..10] + a[10..12] + a[12..];
    assert b[..7] == b[..3] + b[3..7] && b[10..16] == b[10..12] + b[12..16];
  }

  /** Every header that is read packs into the bytes it was read from, but for three reserved ones. */
  lemma PackUnpackAny(b: seq<byte>)
    requires |b| >= HEADER_SIZE && b[0] == PACKET_TYPE
    ensures UnpackedHeader(b).Success?
    ensures PackedHeader(UnpackedHeader(b).value) == b[..7] + [0, 0, 0] + b[10..16]
  {
    hide PackedHeader, UnpackedHeader, SeqByte, U16ToLe, U16FromLe, U32ToLe, U32FromLe;
    UnpackedFields(b);
    var h := UnpackedHeader(b).value;
    PackedGroups(h);
    U32BytesRoundTrip(b[3], b[4], b[5], b[6]);
    U32BytesRoundTrip(b[12], b[13], b[14], b[15]);
    U16BytesRoundTrip(b[10], b[11]);
    FourFrom(b, 3);
    FourFrom(b, 12);
    assert b[..3] == [b[0], b[1], b[2]] && b[10..12] == [b[10], b[11]];
    SameGroups(PackedHeader(h), b);
  }

  /** Packing loses nothing that unpacking reads: only the type byte and three reserved bytes are fixed. */
  lemma PackUnpack(b: seq<byte>)
    requires |b| == HEADER_SIZE
    requires b[0] == PACKET_TYPE && b[7] == b[8] == b[9] == 0
    ensures PackedHeader(UnpackedHeader(b).value) == b
  {
    hide PackedHeader, UnpackedHeader;
    PackUnpackAny(b);
    assert b == b[..7] + [0, 0, 0] + b[10..16];
  }

  /** The wire format in numbers: type, flags, both sequence fields in one byte, then little-endian fields. */
  lemma WireFormat(h: Header)
    requires h.len < 0x1_0000
    ensures
      var b := PackedHeader(h);
      && |b| == 16 && b[0] == 0xBA && b[1] == h.flags
      && b[2] as nat == h.seqNo % 16 + 16 * (h.seqCount % 16)
      && b[3..7] == U32ToLe(h.id) && b[7..10] == [0, 0, 0] && b[12..16] == U32ToLe(h.crc)
      && b[10] as nat + 256 * (b[11] as nat) == h.len
  {
    hide SeqByte, U32ToLe, U16ToLe;
    SeqByteNibbles(h.seqNo, h.seqCount);
    NibbleSum(SeqByte(h.seqNo, h.seqCount));
    U16RoundTrip(h.len);
  }

  lemma NibbleSum(b: byte)
    ensures b as nat == (b & 0x0F) as nat + 16 * (((b & 0xF0) >> 4) as nat)
  {
  }

  /** A packet is copied by value; its frame carries the bytes left over from earlier uses along. */
  datatype Packet = Packet(header: Header, frame: Frame) {

    predicate Valid(S: nat) {
      frame.Valid() && |frame.data| == S && header.len < 0x1_0000
    }

    function Contents(): seq<byte>
      requires frame.Valid()
    {
      frame.Contents()
    }

    function Reset(): Packet {
      Packet(EMPTY_HEADER, frame.Clear())
    }

    /** Stamps the length, cut to 16 bits, and the checksum of the payload. */
    function Build(): Packet
      requires frame.Valid()
    {
      this.(header := header.(len := frame.len % 0x1_0000, crc := Crc32.Checksum(Contents())))
    }

    predicate Validate()
      requires frame.Valid()
    {
      Crc32.Checksum(Contents()) == header.crc && frame.len == header.len
    }
  }

  function NewPacket(S: nat): (p: Packet)
    ensures p.Valid(S)
  {
    Packet(EMPTY_HEADER, Frame(seq(S, _ => 0), 0))
  }

  /** A built packet is accepted exactly when its length fits the header field. */
  lemma BuiltValidatesIff(p: Packet)
    requires p.frame.Valid()
    ensures p.Build().Validate() <==> p.frame.len < 0x1_0000
  {
  }

  /** Damage confined to four consecutive payload bytes of a built packet never validates. */
  lemma BurstInPayloadRejected(p: Packet, damaged: Frame, at: nat)
    requires p.frame.Valid() && damaged.Valid()
    requires Crc32.DifferInBurst(p.Contents(), damaged.Contents(), at)
    ensures !p.Build().(frame := damaged).Validate()
  {
    Crc32.BurstDetected(p.Contents(), damaged.Contents(), at);
  }
}
