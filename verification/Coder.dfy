/** Turning one packet into the bytes of one frame and back, plainly or with error correction. */
module Coders {
  import opened Bytes
  import opened Wrappers
  import opened Frames
  import opened Packets

  // Sizes in bytes of the TC256 (header) and TM2048 (payload) block codes.
  const HEADER_WORD: nat := 32
  const BLOCK: nat := 128
  const BLOCK_WORD: nat := 256
  const OUTPUT_BUFFER: nat := 320

  /** A block code; decoding fills a buffer whose first bytes are the data, or reports failure. */
  datatype BlockCode = BlockCode(encode: seq<byte> -> seq<byte>, decode: seq<byte> -> Option<seq<byte>>)
  {
    ghost predicate Shaped(data: nat, word: nat, output: nat) {
      && (forall x :: |x| == data ==> |encode(x)| == word)
      && (forall y :: |y| == word && decode(y).Some? ==> |decode(y).value| == output)
    }

    ghost predicate Lossless(data: nat) {
      forall x :: |x| == data ==>
        decode(encode(x)).Some? && |decode(encode(x)).value| >= data && decode(encode(x)).value[..data] == x
    }
  }

  datatype Codec = BinaryCodec | LdpcCodec(header: BlockCode, payload: BlockCode)
  {
    ghost predicate Shaped() {
      LdpcCodec? ==>
        && header.Shaped(HEADER_SIZE, HEADER_WORD, HEADER_WORD)
        && payload.Shaped(BLOCK, BLOCK_WORD, OUTPUT_BUFFER)
    }

    ghost predicate Lossless() {
      LdpcCodec? ==> header.Lossless(HEADER_SIZE) && payload.Lossless(BLOCK)
    }

    /** Bytes in front of the encoded payload; smaller frames have no maximum payload. */
    function HeaderLength(): nat {
      if BinaryCodec? then HEADER_SIZE else HEADER_WORD
    }

    function MaxPayload(S: nat): nat
      requires S >= HeaderLength()
    {
      if BinaryCodec? then S - HEADER_SIZE else (S - HEADER_WORD) / BLOCK_WORD * BLOCK
    }

    /** All bytes of the encoded packet, whether or not they fit a frame. */
    function Encoded(h: Header, payload: seq<byte>): seq<byte>
      requires h.len < 0x1_0000
    {
      match this
      case BinaryCodec => PackedHeader(h) + payload
      case LdpcCodec(hc, pc) => hc.encode(PackedHeader(h)) + EncodedBlocks(pc, payload)
    }

    /** How much an encoder writes of a packet that does not fit: the pieces in front of the first that does not. */
    function Written(S: nat): nat {
      if S < HeaderLength() then 0
      else if BinaryCodec? then HEADER_SIZE
      else HEADER_WORD + (S - HEADER_WORD) / BLOCK_WORD * BLOCK_WORD
    }

    /** False for the frames on which the source indexes past the end of its input. */
    predicate Readable(S: nat, frame: seq<byte>) {
      match this
      case BinaryCodec => |frame| >= HEADER_SIZE
      case LdpcCodec(hc, pc) =>
        LdpcHeader(hc, frame).Success? ==> BlocksReadable(pc, S, frame[HEADER_WORD..])
    }

    /** What decoding leaves in a packet that held `prior` before. */
    function Decoded(S: nat, prior: Packet, frame: seq<byte>): (r: Result<Packet, NetworkError>)
      requires prior.Valid(S) && Readable(S, frame)
    {
      match this
      case BinaryCodec =>
        match UnpackedHeader(frame[..HEADER_SIZE]) {
          case Failure(e) => Failure(e)
          case Success(h) =>
            var f := prior.frame.Clear();
            if !f.Fits(|frame| - HEADER_SIZE) then Failure(OutOfMemory)
            else Success(Packet(h, f.Push(frame[HEADER_SIZE..]).Resize(h.len, S)))
        }
      case LdpcCodec(hc, pc) =>
        match LdpcHeader(hc, frame) {
          case Failure(e) => Failure(e)
          case Success(h) =>
            match DecodedBlocks(pc, prior.frame.Clear(), frame[HEADER_WORD..]) {
              case Failure(e) => Failure(e)
              case Success(f) => Success(Packet(h, f.Resize(h.len, S)))
            }
        }
    }

    /** What a decoding that fails leaves in the packet: all that was decoded before. */
    function LeftBehind(S: nat, prior: Packet, frame: seq<byte>): (p: Packet)
      requires prior.Valid(S) && Readable(S, frame)
    {
      var empty := prior.Reset();
      match this
      case BinaryCodec =>
        match UnpackedHeader(frame[..HEADER_SIZE]) {
          case Failure(_) => empty
          case Success(h) => empty.(header := h)
        }
      case LdpcCodec(hc, pc) =>
        match LdpcHeader(hc, frame) {
          case Failure(_) => empty
          case Success(h) => Packet(h, BlocksBefore(pc, empty.frame, frame[HEADER_WORD..]))
        }
    }
  }

  function LdpcHeader(code: BlockCode, frame: seq<byte>): (r: Result<Header, NetworkError>)
    ensures r.Success? ==> |frame| >= HEADER_WORD && r.value.len < 0x1_0000
  {
    if |frame| < HEADER_WORD then Failure(OutOfMemory)
    else match code.decode(frame[..HEADER_WORD])
      case None => Failure(CorruptedData)
      case Some(out) => UnpackedHeader(if |out| < HEADER_SIZE then out else out[..HEADER_SIZE])
  }

  /** The next block: full, or what is left filled up with zeros. */
  function PaddedBlock(data: seq<byte>): (b: seq<byte>)
    ensures |b| == BLOCK
    ensures forall i | 0 <= i < BLOCK :: b[i] == if i < |data| then data[i] else 0
  {
    if |data| < BLOCK then data + seq(BLOCK - |data|, _ => 0) else data[..BLOCK]
  }

  function AfterBlock(data: seq<byte>): seq<byte> {
    if |data| < BLOCK then [] else data[BLOCK..]
  }

  function EncodedBlocks(code: BlockCode, data: seq<byte>): seq<byte>
    decreases |data|
  {
    if data == [] then [] else code.encode(PaddedBlock(data)) + EncodedBlocks(code, AfterBlock(data))
  }

  lemma NoEncodedBlocks(code: BlockCode)
    ensures EncodedBlocks(code, []) == []
  {
  }

  lemma NextEncodedBlock(code: BlockCode, data: seq<byte>)
    requires data != []
    ensures EncodedBlocks(code, data) == code.encode(PaddedBlock(data)) + EncodedBlocks(code, AfterBlock(data))
  {
  }

  lemma AfterBlockRest(data: seq<byte>, offset: nat, blockLen: nat)
    requires offset < |data| && blockLen == if offset + BLOCK < |data| then BLOCK else |data| - offset
    ensures data[offset + blockLen..] == AfterBlock(data[offset..])
  {
  }

  function Padded(data: seq<byte>): (p: seq<byte>)
    ensures |p| == (|data| + BLOCK - 1) / BLOCK * BLOCK
    decreases |data|
  {
    if data == [] then [] else PaddedBlock(data) + Padded(AfterBlock(data))
  }

  predicate BlocksReadable(code: BlockCode, room: nat, input: seq<byte>)
    decreases |input|
  {
    input != [] ==>
      && |input| >= BLOCK_WORD
      && (code.decode(input[..BLOCK_WORD]).Some? && room >= BLOCK ==>
          BlocksReadable(code, room - BLOCK, input[BLOCK_WORD..]))
  }

  function DecodedBlocks(code: BlockCode, f: Frame, input: seq<byte>): (r: Result<Frame, NetworkError>)
    requires f.Valid() && BlocksReadable(code, |f.data| - f.len, input)
    ensures r.Success? ==> r.value.Valid() && |r.value.data| == |f.data|
    decreases |input|
  {
    if input == [] then Success(f)
    else match code.decode(input[..BLOCK_WORD])
      case None => Failure(CorruptedData)
      case Some(out) =>
        var block := if |out| < BLOCK then out + seq(BLOCK - |out|, _ => 0) else out[..BLOCK];
        if !f.Fits(BLOCK) then Failure(OutOfMemory) else DecodedBlocks(code, f.Push(block), input[BLOCK_WORD..])
  }

  /** The blocks decoded before the first that fails, or all. */
  function BlocksBefore(code: BlockCode, f: Frame, input: seq<byte>): (r: Frame)
    requires f.Valid() && BlocksReadable(code, |f.data| - f.len, input)
    ensures r.Valid() && |r.data| == |f.data|
    ensures DecodedBlocks(code, f, input).Success? ==> r == DecodedBlocks(code, f, input).value
    decreases |input|
  {
    if input == [] then f
    else match code.decode(input[..BLOCK_WORD])
      case None => f
      case Some(out) =>
        var block := if |out| < BLOCK then out + seq(BLOCK - |out|, _ => 0) else out[..BLOCK];
        if !f.Fits(BLOCK) then f else BlocksBefore(code, f.Push(block), input[BLOCK_WORD..])
  }

  lemma DecodedValid(codec: Codec, S: nat, prior: Packet, frame: seq<byte>)
    requires prior.Valid(S) && codec.Readable(S, frame)
    requires codec.Decoded(S, prior, frame).Success?
    ensures codec.Decoded(S, prior, frame).value.Valid(S)
  {
  }

  // ----- which frames can be decoded at all

  /** The decoder gives up at code word `j`: it cannot be corrected, or there is no room for its data. */
  predicate StopsAt(code: BlockCode, room: nat, input: seq<byte>, j: nat)
    requires (j + 1) * BLOCK_WORD <= |input|
  {
    code.decode(input[j * BLOCK_WORD..(j + 1) * BLOCK_WORD]).None? || room < (j + 1) * BLOCK
  }

  lemma StopsLater(code: BlockCode, room: nat, input: seq<byte>, j: nat)
    requires room >= BLOCK && (j + 2) * BLOCK_WORD <= |input|
    ensures StopsAt(code, room, input, j + 1) <==> StopsAt(code, room - BLOCK, input[BLOCK_WORD..], j)
  {
    assert input[BLOCK_WORD..][j * BLOCK_WORD..(j + 1) * BLOCK_WORD]
        == input[(j + 1) * BLOCK_WORD..(j + 2) * BLOCK_WORD];
  }

  /** Decoding runs past the end exactly when the input ends within a code word and the decoder gets that far. */
  lemma {:induction false} BlocksReadableIff(code: BlockCode, room: nat, input: seq<byte>)
    ensures BlocksReadable(code, room, input) <==>
      (|input| % BLOCK_WORD == 0 || exists j: nat | (j + 1) * BLOCK_WORD <= |input| :: StopsAt(code, room, input, j))
    decreases |input|
  {
    hide StopsAt;
    if |input| >= BLOCK_WORD {
      FirstWord(code, room, input);
      if !StopsAt(code, room, input, 0) {
        var left: nat, rest := room - BLOCK, input[BLOCK_WORD..];
        BlocksReadableIff(code, left, rest);
        if j: nat :| (j + 1) * BLOCK_WORD <= |rest| && StopsAt(code, left, rest, j) {
          StopsLater(code, room, input, j);
        }
        if j: nat :| (j + 1) * BLOCK_WORD <= |input| && StopsAt(code, room, input, j) {
          StopsLater(code, room, input, j - 1);
        }
      }
    }
  }

  lemma FirstWord(code: BlockCode, room: nat, input: seq<byte>)
    requires |input| >= BLOCK_WORD
    ensures StopsAt(code, room, input, 0) ==> BlocksReadable(code, room, input)
    ensures !StopsAt(code, room, input, 0) ==>
      room >= BLOCK
      && (BlocksReadable(code, room, input) <==> BlocksReadable(code, room - BLOCK, input[BLOCK_WORD..]))
  {
  }

  /** The frames on which the source indexes past the end of its input, for both coders. */
  lemma ReadableIff(codec: Codec, S: nat, frame: seq<byte>)
    ensures !codec.Readable(S, frame) <==>
      match codec
      case BinaryCodec => |frame| < HEADER_SIZE
      case LdpcCodec(hc, pc) =>
        && LdpcHeader(hc, frame).Success?
        && var input := frame[HEADER_WORD..];
        && |input| % BLOCK_WORD != 0
        && forall j: nat | (j + 1) * BLOCK_WORD <= |input| :: !StopsAt(pc, S, input, j)
  {
    hide BlocksReadable, StopsAt;
    if codec.LdpcCodec? && LdpcHeader(codec.header, frame).Success? {
      BlocksReadableIff(codec.payload, S, frame[HEADER_WORD..]);
    }
  }

  // ----- capacity

  lemma {:induction false} EncodedBlocksLength(code: BlockCode, data: seq<byte>)
    requires code.Shaped(BLOCK, BLOCK_WORD, OUTPUT_BUFFER)
    ensures |EncodedBlocks(code, data)| == (|data| + BLOCK - 1) / BLOCK * BLOCK_WORD
    decreases |data|
  {
    if data != [] {
      EncodedBlocksLength(code, AfterBlock(data));
    }
  }

  lemma SliceBehind(a: seq<byte>, b: seq<byte>, i: nat, j: nat)
    requires i <= j <= |b|
    ensures (a + b)[|a| + i..|a| + j] == b[i..j]
  {
  }

  lemma LaterBlock(data: seq<byte>, j: nat)
    requires (j + 1) * BLOCK < |data|
    ensures j * BLOCK < |AfterBlock(data)| && AfterBlock(data)[j * BLOCK..] == data[(j + 1) * BLOCK..]
  {
  }

  /** Word `j` on the air is the encoding of block `j` of the payload, filled up with zeros if it is the last. */
  lemma {:induction false} EncodedWord(code: BlockCode, data: seq<byte>, j: nat)
    requires code.Shaped(BLOCK, BLOCK_WORD, OUTPUT_BUFFER) && j * BLOCK < |data|
    ensures (j + 1) * BLOCK_WORD <= |EncodedBlocks(code, data)|
    ensures EncodedBlocks(code, data)[j * BLOCK_WORD..(j + 1) * BLOCK_WORD]
         == code.encode(PaddedBlock(data[j * BLOCK..]))
    decreases j
  {
    hide PaddedBlock, AfterBlock, EncodedBlocks;
    var first, rest := code.encode(PaddedBlock(data)), EncodedBlocks(code, AfterBlock(data));
    NextEncodedBlock(code, data);
    assert |first| == BLOCK_WORD;
    if j == 0 {
      assert data[0 * BLOCK..] == data;
      assert (first + rest)[0 * BLOCK_WORD..1 * BLOCK_WORD] == first;
    } else {
      LaterBlock(data, j - 1);
      EncodedWord(code, AfterBlock(data), j - 1);
      SliceBehind(first, rest, (j - 1) * BLOCK_WORD, j * BLOCK_WORD);
    }
  }

  /** The layout of a frame in bytes: header then payload, or a word of 32 bytes and then one of 256 per 128. */
  lemma FrameLayout(codec: Codec, h: Header, payload: seq<byte>)
    requires codec.Shaped() && h.len < 0x1_0000
    ensures
      var bytes := codec.Encoded(h, payload);
      match codec
      case BinaryCodec => |bytes| == 16 + |payload| && bytes[..16] == PackedHeader(h) && bytes[16..] == payload
      case LdpcCodec(hc, pc) =>
        && |bytes| == 32 + (|payload| + 127) / 128 * 256 && bytes[..32] == hc.encode(PackedHeader(h))
        && forall j: nat | j * 128 < |payload| ::
            && 32 + (j + 1) * 256 <= |bytes|
            && bytes[32 + j * 256..32 + (j + 1) * 256] == pc.encode(PaddedBlock(payload[j * 128..]))
  {
    hide PackedHeader, PaddedBlock, EncodedBlocks;
    if codec.LdpcCodec? {
      var word, words := codec.header.encode(PackedHeader(h)), EncodedBlocks(codec.payload, payload);
      assert |word| == HEADER_WORD;
      EncodedBlocksLength(codec.payload, payload);
      forall j: nat | j * 128 < |payload|
        ensures 32 + (j + 1) * 256 <= |word + words|
        ensures (word + words)[32 + j * 256..32 + (j + 1) * 256]
             == codec.payload.encode(PaddedBlock(payload[j * 128..]))
      {
        EncodedWord(codec.payload, payload, j);
        assert (word + words)[32 + j * 256..32 + (j + 1) * 256] == words[j * 256..(j + 1) * 256];
      }
    }
  }

  /** What is written of a packet that does not fit: all whole pieces that do. */
  lemma WrittenFits(codec: Codec, S: nat)
    ensures codec.Written(S) <= S
    ensures S < codec.HeaderLength() ==> codec.Written(S) == 0
    ensures S >= codec.HeaderLength() ==>
      if codec.BinaryCodec? then codec.Written(S) == 16
      else codec.Written(S) >= 32 && (codec.Written(S) - 32) % 256 == 0 && codec.Written(S) + 256 > S
  {
  }

  /** A packet fits a frame exactly when its payload is within the advertised maximum. */
  lemma FitsIff(codec: Codec, S: nat, h: Header, payload: seq<byte>)
    requires codec.Shaped() && S >= codec.HeaderLength() && h.len < 0x1_0000
    ensures |codec.Encoded(h, payload)| <= S <==> |payload| <= codec.MaxPayload(S)
  {
    if codec.LdpcCodec? {
      EncodedBlocksLength(codec.payload, payload);
      assert |codec.header.encode(PackedHeader(h))| == HEADER_WORD;
    }
  }

  lemma BlocksThatFit(room: nat, blocks: nat)
    requires blocks * BLOCK_WORD <= room < (blocks + 1) * BLOCK_WORD
    ensures room / BLOCK_WORD == blocks
  {
  }

  // ----- round trip

  lemma {:induction false} PaddedPrefix(data: seq<byte>)
    ensures |Padded(data)| >= |data| && Padded(data)[..|data|] == data
    decreases |data|
  {
    if data != [] {
      PaddedPrefix(AfterBlock(data));
      if |data| >= BLOCK {
        assert data == data[..BLOCK] + AfterBlock(data);
      }
    }
  }

  lemma OneBlock(code: BlockCode, f: Frame, block: seq<byte>, rest: seq<byte>)
    requires code.Shaped(BLOCK, BLOCK_WORD, OUTPUT_BUFFER) && code.Lossless(BLOCK) && |block| == BLOCK
    requires f.Valid() && f.Fits(BLOCK)
    requires BlocksReadable(code, |f.data| - f.len - BLOCK, rest)
    ensures BlocksReadable(code, |f.data| - f.len, code.encode(block) + rest)
    ensures DecodedBlocks(code, f, code.encode(block) + rest) == DecodedBlocks(code, f.Push(block), rest)
  {
    var input := code.encode(block) + rest;
    assert input[..BLOCK_WORD] == code.encode(block);
    assert input[BLOCK_WORD..] == rest;
  }

  lemma {:induction false} BlocksRoundTrip(code: BlockCode, f: Frame, data: seq<byte>)
    requires code.Shaped(BLOCK, BLOCK_WORD, OUTPUT_BUFFER) && code.Lossless(BLOCK)
    requires f.Valid() && f.Fits(|Padded(data)|)
    ensures BlocksReadable(code, |f.data| - f.len, EncodedBlocks(code, data))
    ensures DecodedBlocks(code, f, EncodedBlocks(code, data)) == Success(f.Push(Padded(data)))
    decreases |data|
  {
    hide PaddedBlock, BlocksReadable, DecodedBlocks, BlockCode.Shaped, BlockCode.Lossless, Frame.Push;
    if data == [] {
      NoBlocks(code, f);
    } else {
      var block, rest := PaddedBlock(data), AfterBlock(data);
      BlocksRoundTrip(code, f.Push(block), rest);
      OneBlock(code, f, block, EncodedBlocks(code, rest));
      PushPush(f, block, Padded(rest));
    }
  }

  lemma NoBlocks(code: BlockCode, f: Frame)
    requires f.Valid()
    ensures BlocksReadable(code, |f.data| - f.len, []) && DecodedBlocks(code, f, []) == Success(f.Push([]))
  {
    assert f.Push([]) == f;
  }

  lemma PushPush(f: Frame, a: seq<byte>, b: seq<byte>)
    requires f.Valid() && f.Fits(|a| + |b|)
    ensures f.Push(a).Push(b) == f.Push(a + b)
  {
  }

  /**
   Decoding an encoded packet restores header and payload, whatever the receiving packet held
   before: the zero padding is cut off and nothing stale shows.
   */
  lemma RoundTrip(codec: Codec, S: nat, prior: Packet, h: Header, payload: seq<byte>)
    requires codec.Shaped() && codec.Lossless() && S >= codec.HeaderLength()
    requires prior.Valid(S) && |payload| <= codec.MaxPayload(S) && h.len == |payload| < 0x1_0000
    ensures codec.Readable(S, codec.Encoded(h, payload))
    ensures
      var r := codec.Decoded(S, prior, codec.Encoded(h, payload));
      r.Success? && r.value.Valid(S) && r.value.header == h.OnWire() && r.value.Contents() == payload
  {
    if codec.BinaryCodec? {
      BinaryRoundTrip(S, prior, h, payload);
    } else {
      LdpcRoundTrip(codec.header, codec.payload, S, prior, h, payload);
    }
  }

  lemma BinaryRoundTrip(S: nat, prior: Packet, h: Header, payload: seq<byte>)
    requires S >= HEADER_SIZE && prior.Valid(S)
    requires |payload| <= S - HEADER_SIZE && h.len == |payload| < 0x1_0000
    ensures BinaryCodec.Readable(S, BinaryCodec.Encoded(h, payload))
    ensures
      var r := BinaryCodec.Decoded(S, prior, BinaryCodec.Encoded(h, payload));
      r.Success? && r.value.Valid(S) && r.value.header == h.OnWire() && r.value.Contents() == payload
  {
    hide PackedHeader, UnpackedHeader;
    var frame := BinaryCodec.Encoded(h, payload);
    UnpackPack(h, []);
    assert PackedHeader(h) + [] == PackedHeader(h);
    assert frame[..HEADER_SIZE] == PackedHeader(h);
    assert frame[HEADER_SIZE..] == payload;
  }

  lemma LdpcRoundTrip(hc: BlockCode, pc: BlockCode, S: nat, prior: Packet, h: Header, payload: seq<byte>)
    requires hc.Shaped(HEADER_SIZE, HEADER_WORD, HEADER_WORD) && hc.Lossless(HEADER_SIZE)
    requires pc.Shaped(BLOCK, BLOCK_WORD, OUTPUT_BUFFER) && pc.Lossless(BLOCK)
    requires S >= HEADER_WORD && prior.Valid(S)
    requires |payload| <= (S - HEADER_WORD) / BLOCK_WORD * BLOCK && h.len == |payload| < 0x1_0000
    ensures LdpcCodec(hc, pc).Readable(S, LdpcCodec(hc, pc).Encoded(h, payload))
    ensures
      var r := LdpcCodec(hc, pc).Decoded(S, prior, LdpcCodec(hc, pc).Encoded(h, payload));
      r.Success? && r.value.Valid(S) && r.value.header == h.OnWire() && r.value.Contents() == payload
  {
    hide PackedHeader, UnpackedHeader, EncodedBlocks, DecodedBlocks, BlocksReadable, Padded;
    LdpcHeaderDecoded(hc, h, EncodedBlocks(pc, payload));
    var f := prior.frame.Clear();
    BlocksRoundTrip(pc, f, payload);
    PaddedPrefix(payload);
    assert f.Push(Padded(payload)).data[..|payload|] == Padded(payload)[..|payload|];
  }

  lemma LdpcHeaderDecoded(hc: BlockCode, h: Header, rest: seq<byte>)
    requires hc.Shaped(HEADER_SIZE, HEADER_WORD, HEADER_WORD) && hc.Lossless(HEADER_SIZE) && h.len < 0x1_0000
    ensures LdpcHeader(hc, hc.encode(PackedHeader(h)) + rest) == Success(h.OnWire())
    ensures (hc.encode(PackedHeader(h)) + rest)[HEADER_WORD..] == rest
  {
    hide PackedHeader, UnpackedHeader;
    var word := hc.encode(PackedHeader(h));
    UnpackPack(h, []);
    assert PackedHeader(h) + [] == PackedHeader(h);
    assert (word + rest)[..HEADER_WORD] == word;
  }

  /** The decoder never runs past the end of a frame that an encoder filled. */
  lemma EncodedReadable(codec: Codec, S: nat, h: Header, payload: seq<byte>)
    requires codec.Shaped() && codec.Lossless() && S >= codec.HeaderLength() && h.len < 0x1_0000
    requires |payload| <= codec.MaxPayload(S)
    ensures codec.Readable(S, codec.Encoded(h, payload))
  {
    match codec {
      case BinaryCodec =>
      case LdpcCodec(hc, pc) =>
        LdpcHeaderDecoded(hc, h, EncodedBlocks(pc, payload));
        BlocksRoundTrip(pc, Frame(seq(S, _ => 0), 0), payload);
    }
  }

  /** A built packet that fits comes back intact exactly when its fields fit their bits on the wire. */
  lemma RoundTripIff(codec: Codec, S: nat, prior: Packet, p: Packet)
    requires codec.Shaped() && codec.Lossless() && S >= codec.HeaderLength()
    requires prior.Valid(S) && p.Valid(S) && p.frame.len <= codec.MaxPayload(S)
    ensures codec.Readable(S, codec.Encoded(p.Build().header, p.Contents()))
    ensures
      var r := codec.Decoded(S, prior, codec.Encoded(p.Build().header, p.Contents()));
      (r.Success? && r.value.header == p.Build().header && r.value.frame.Valid() && r.value.Contents() == p.Contents())
      <==> p.frame.len < 0x1_0000 && p.header.seqNo < 16 && p.header.seqCount < 16
  {
    hide Codec.Encoded, Codec.Decoded, Codec.Readable;
    var h := p.Build().header;
    EncodedReadable(codec, S, h, p.Contents());
    var r := codec.Decoded(S, prior, codec.Encoded(h, p.Contents()));
    if p.frame.len < 0x1_0000 {
      RoundTrip(codec, S, prior, h, p.Contents());
    } else if r.Success? {
      HeaderDecoded(codec, S, prior, h, p.Contents());
    }
  }

  lemma HeaderDecoded(codec: Codec, S: nat, prior: Packet, h: Header, payload: seq<byte>)
    requires codec.Shaped() && codec.Lossless() && h.len < 0x1_0000 && prior.Valid(S)
    requires codec.Readable(S, codec.Encoded(h, payload))
    requires codec.Decoded(S, prior, codec.Encoded(h, payload)).Success?
    ensures codec.Decoded(S, prior, codec.Encoded(h, payload)).value.header == h.OnWire()
    ensures codec.Decoded(S, prior, codec.Encoded(h, payload)).value.frame.len <= h.len
  {
    hide PackedHeader, UnpackedHeader;
    var frame := codec.Encoded(h, payload);
    UnpackPack(h, []);
    assert PackedHeader(h) + [] == PackedHeader(h);
    match codec {
      case BinaryCodec =>
        assert frame[..HEADER_SIZE] == PackedHeader(h);
      case LdpcCodec(hc, pc) =>
        LdpcHeaderDecoded(hc, h, EncodedBlocks(pc, payload));
    }
  }

  /** Whether decoding succeeds, and what the packet then shows, does not depend on what it held before. */
  lemma PriorIrrelevant(codec: Codec, S: nat, p: Packet, q: Packet, frame: seq<byte>)
    requires p.Valid(S) && q.Valid(S) && codec.Readable(S, frame)
    ensures
      var a, b := codec.Decoded(S, p, frame), codec.Decoded(S, q, frame);
      && (a.Failure? <==> b.Failure?)
      && (a.Failure? ==> a == b)
      && (a.Success? ==> a.value.header == b.value.header && a.value.frame.len == b.value.frame.len)
  {
    if codec.LdpcCodec? && LdpcHeader(codec.header, frame).Success? {
      BlocksPriorIrrelevant(codec.payload, p.frame.Clear(), q.frame.Clear(), frame[HEADER_WORD..]);
    }
  }

  lemma {:induction false} BlocksPriorIrrelevant(code: BlockCode, f: Frame, g: Frame, input: seq<byte>)
    requires f.Valid() && g.Valid() && |f.data| == |g.data| && f.len == g.len
    requires BlocksReadable(code, |f.data| - f.len, input)
    ensures
      var a, b := DecodedBlocks(code, f, input), DecodedBlocks(code, g, input);
      && (a.Failure? <==> b.Failure?)
      && (a.Failure? ==> a == b)
      && (a.Success? ==> a.value.len == b.value.len)
    decreases |input|
  {
    if input != [] {
      match code.decode(input[..BLOCK_WORD])
      case None =>
      case Some(out) =>
        var block := if |out| < BLOCK then out + seq(BLOCK - |out|, _ => 0) else out[..BLOCK];
        if f.Fits(BLOCK) {
          BlocksPriorIrrelevant(code, f.Push(block), g.Push(block), input[BLOCK_WORD..]);
        }
    }
  }
}
