/** The two packet coders, working in place on frames and on their own scratch buffer. */
module PacketCoders {
  import opened Bytes
  import opened Wrappers
  import opened Frames
  import opened Packets
  import opened Coders

  /** Packet header and payload side by side. */
  class BinaryPacketCoder {

    constructor () {
    }

    method Encode(input: Packet, output: FrameSegment) returns (error: Option<NetworkError>)
      requires input.Valid(output.S) && output.Valid() && output.R == 1
      modifies output, output.data
      ensures output.Valid()
      ensures
        var bytes := BinaryCodec.Encoded(input.header, input.Contents());
        if |bytes| <= output.S then error == None && output.Contents() == bytes
        else error == Some(OutOfMemory) && output.Contents() == bytes[..BinaryCodec.Written(output.S)]
    {
      output.Clear();
      var header := Pack(input.header);
      var ok := output.PushData(header[..]);
      if !ok {
        return Some(OutOfMemory);
      }
      ok := output.PushData(input.Contents());
      return if ok then None else Some(OutOfMemory);
    }

    /** Overwrites `packet`; after an error it holds whatever was decoded so far. */
    method Decode(input: FrameSegment, packet: Packet) returns (output: Packet, error: Option<NetworkError>)
      requires input.Valid() && input.R == 1 && packet.Valid(input.S)
      requires BinaryCodec.Readable(input.S, input.Contents())
      ensures output.Valid(input.S)
      ensures
        match BinaryCodec.Decoded(input.S, packet, input.Contents())
        case Success(p) => error == None && output == p
        case Failure(e) => error == Some(e) && output == BinaryCodec.LeftBehind(input.S, packet, input.Contents())
    {
      output := packet.Reset();
      var bytes := input.AsSlice();
      var header := UnpackedHeader(bytes[..HEADER_SIZE]);
      if header.Failure? {
        return output, Some(header.error);
      }
      output := output.(header := header.value);
      if !output.frame.Fits(|bytes| - HEADER_SIZE) {
        return output, Some(OutOfMemory);
      }
      output := output.(frame := output.frame.Push(bytes[HEADER_SIZE..]));
      output := output.(frame := output.frame.Resize(output.header.len, input.S));
      return output, None;
    }
  }

  /** Header and payload protected by block codes; the scratch buffer is reused from block to block. */
  class LdpcPacketCoder {
    const header: BlockCode
    const payload: BlockCode
    const outputBuffer: array<byte>

    ghost predicate Valid() {
      && outputBuffer.Length == OUTPUT_BUFFER
      && LdpcCodec(header, payload).Shaped()
    }

    constructor (hc: BlockCode, pc: BlockCode)
      requires LdpcCodec(hc, pc).Shaped()
      ensures Valid() && fresh(outputBuffer) && header == hc && payload == pc
    {
      header, payload := hc, pc;
      outputBuffer := new byte[OUTPUT_BUFFER](_ => 0);
    }

    method Store(at: nat, bytes: seq<byte>)
      requires at + |bytes| <= outputBuffer.Length
      modifies outputBuffer
      ensures outputBuffer[..] == old(outputBuffer[..at]) + bytes + old(outputBuffer[at + |bytes|..])
    {
      forall i | 0 <= i < |bytes| {
        outputBuffer[at + i] := bytes[i];
      }
    }

    /** Leaves one block in the scratch buffer, zero-filled when the data is short. */
    method FillBlock(data: seq<byte>)
      requires Valid()
      modifies outputBuffer
      ensures outputBuffer[..BLOCK] == PaddedBlock(data)
    {
      var n := if |data| < BLOCK then |data| else BLOCK;
      Store(0, data[..n]);
      if n < BLOCK {
        Store(n, seq(BLOCK, _ => 0));
      }
    }

    method Encode(input: Packet, output: FrameSegment) returns (error: Option<NetworkError>)
      requires Valid() && input.Valid(output.S) && output.Valid() && output.R == 1 && output.data != outputBuffer
      modifies outputBuffer, output, output.data
      ensures output.Valid()
      ensures
        var bytes := LdpcCodec(header, payload).Encoded(input.header, input.Contents());
        if |bytes| <= output.S then error == None && output.Contents() == bytes
        else error == Some(OutOfMemory) && output.Contents() == bytes[..LdpcCodec(header, payload).Written(output.S)]
    {
      hide PackedHeader, PaddedBlock;
      output.Clear();
      var packed := Pack(input.header);
      var word := header.encode(packed[..]);
      if HEADER_WORD > output.S {
        return Some(OutOfMemory);
      }
      var start := output.AllocBuffer(HEADER_WORD);
      if start.None? {
        return Some(OutOfMemory);
      }
      output.Write(start.value, word);
      assert output.Contents() == word;
      error := EncodePayload(input, output);
    }

    /** Appends one encoded block, or nothing when there is no space for it. */
    method EncodeBlock(data: seq<byte>, output: FrameSegment) returns (error: Option<NetworkError>)
      requires Valid() && output.Valid() && output.R == 1 && output.data != outputBuffer
      modifies outputBuffer, output, output.data
      ensures output.Valid()
      ensures error == if old(output.len) + BLOCK_WORD <= output.S then None else Some(OutOfMemory)
      ensures error.None? ==> output.Contents() == old(output.Contents()) + payload.encode(PaddedBlock(data))
      ensures error.Some? ==> output.Contents() == old(output.Contents())
    {
      hide PaddedBlock;
      FillBlock(data);
      ghost var before := output.Contents();
      var start := output.AllocBuffer(BLOCK_WORD);
      if start.None? {
        assert output.Contents() == before;
        return Some(OutOfMemory);
      }
      output.Write(start.value, payload.encode(outputBuffer[..BLOCK]));
      assert output.Contents() == before + payload.encode(PaddedBlock(data));
      return None;
    }

    method EncodePayload(input: Packet, output: FrameSegment) returns (error: Option<NetworkError>)
      requires Valid() && input.frame.Valid() && output.Valid() && output.R == 1 && output.data != outputBuffer
      modifies outputBuffer, output, output.data
      ensures output.Valid()
      ensures
        var bytes := old(output.Contents()) + EncodedBlocks(payload, input.Contents());
        if |bytes| <= output.S then error == None && output.Contents() == bytes
        else
          var n := old(output.len) + (output.S - old(output.len)) / BLOCK_WORD * BLOCK_WORD;
          error == Some(OutOfMemory) && output.Contents() == bytes[..n]
    {
      hide PaddedBlock, EncodedBlocks, AfterBlock;
      NoEncodedBlocks(payload);
      ghost var bytes := output.Contents() + EncodedBlocks(payload, input.Contents());
      var data := input.Contents();
      var offset := 0;
      ghost var blocks := 0;
      while offset < |data|
        invariant 0 <= offset <= |data| && output.Valid()
        invariant output.Contents() + EncodedBlocks(payload, data[offset..]) == bytes
        invariant output.len == old(output.len) + blocks * BLOCK_WORD
      {
        var blockLen := if offset + BLOCK < |data| then BLOCK else |data| - offset;
        ghost var before := output.Contents();
        NextEncodedBlock(payload, data[offset..]);
        AfterBlockRest(data, offset, blockLen);
        assert |payload.encode(PaddedBlock(data[offset..]))| == BLOCK_WORD;
        error := EncodeBlock(data[offset..], output);
        if error.Some? {
          BlocksThatFit(output.S - old(output.len), blocks);
          assert before == bytes[..|before|];
          return;
        }
        offset := offset + blockLen;
        blocks := blocks + 1;
      }
      assert data[offset..] == [];
      return None;
    }

    /** Overwrites `packet`; after an error it holds whatever was decoded so far. */
    method Decode(input: FrameSegment, packet: Packet) returns (output: Packet, error: Option<NetworkError>)
      requires Valid() && input.Valid() && input.R == 1 && packet.Valid(input.S) && input.data != outputBuffer
      requires LdpcCodec(header, payload).Readable(input.S, input.Contents())
      modifies outputBuffer
      ensures output.Valid(input.S)
      ensures
        match LdpcCodec(header, payload).Decoded(input.S, packet, input.Contents())
        case Success(p) => error == None && output == p
        case Failure(e) =>
          error == Some(e) && output == LdpcCodec(header, payload).LeftBehind(input.S, packet, input.Contents())
    {
      hide UnpackedHeader, DecodedBlocks, BlocksBefore, BlocksReadable;
      output := packet.Reset();
      var bytes := input.AsSlice();
      if |bytes| < HEADER_WORD {
        return output, Some(OutOfMemory);
      }
      var word := header.decode(bytes[..HEADER_WORD]);
      if word.None? {
        return output, Some(CorruptedData);
      }
      Store(0, word.value);
      assert outputBuffer[..HEADER_SIZE] == word.value[..HEADER_SIZE];
      var h := UnpackedHeader(outputBuffer[..HEADER_SIZE]);
      if h.Failure? {
        return output, Some(h.error);
      }
      assert LdpcHeader(header, input.Contents()) == h;
      var frame;
      frame, error := DecodePayload(output.frame.Clear(), bytes[HEADER_WORD..]);
      output := Packet(h.value, frame);
      if error.Some? {
        return;
      }
      output := output.(frame := frame.Resize(h.value.len, input.S));
    }

    method DecodePayload(f: Frame, input: seq<byte>) returns (frame: Frame, error: Option<NetworkError>)
      requires Valid() && f.Valid() && BlocksReadable(payload, |f.data| - f.len, input)
      modifies outputBuffer
      ensures frame.Valid() && |frame.data| == |f.data|
      ensures
        match DecodedBlocks(payload, f, input)
        case Success(g) => error == None && frame == g
        case Failure(e) => error == Some(e) && frame == BlocksBefore(payload, f, input)
    {
      frame := f;
      var offset := 0;
      while offset < |input|
        invariant 0 <= offset <= |input| && frame.Valid() && |frame.data| == |f.data|
        invariant BlocksReadable(payload, |frame.data| - frame.len, input[offset..])
        invariant DecodedBlocks(payload, frame, input[offset..]) == DecodedBlocks(payload, f, input)
        invariant BlocksBefore(payload, frame, input[offset..]) == BlocksBefore(payload, f, input)
      {
        var rest := input[offset..];
        var word := payload.decode(rest[..BLOCK_WORD]);
        if word.None? {
          return frame, Some(CorruptedData);
        }
        Store(0, word.value);
        if !frame.Fits(BLOCK) {
          return frame, Some(OutOfMemory);
        }
        assert outputBuffer[..BLOCK] == word.value[..BLOCK];
        frame := frame.Push(outputBuffer[..BLOCK]);
        assert rest[BLOCK_WORD..] == input[offset + BLOCK_WORD..];
        offset := offset + BLOCK_WORD;
      }
      assert input[offset..] == [];
      return frame, None;
    }
  }

  /** Either coder, behind one interface. */
  datatype PacketCoder = Binary(binary: BinaryPacketCoder) | Ldpc(ldpc: LdpcPacketCoder) {

    function Codec(): Codec {
      if Binary? then BinaryCodec else LdpcCodec(ldpc.header, ldpc.payload)
    }

    ghost predicate Valid() {
      Codec().Shaped() && (Ldpc? ==> ldpc.Valid())
    }

    /** The scratch memory of the coder. */
    function Scratch(): set<object> {
      if Binary? then {} else {ldpc.outputBuffer}
    }

    method Encode(input: Packet, output: FrameSegment) returns (error: Option<NetworkError>)
      requires Valid() && input.Valid(output.S) && output.Valid() && output.R == 1 && output.data !in Scratch()
      modifies Scratch(), output, output.data
      ensures output.Valid()
      ensures
        var bytes := Codec().Encoded(input.header, input.Contents());
        if |bytes| <= output.S then error == None && output.Contents() == bytes
        else error == Some(OutOfMemory) && output.Contents() == bytes[..Codec().Written(output.S)]
    {
      match this {
        case Binary(coder) => error := coder.Encode(input, output);
        case Ldpc(coder) => error := coder.Encode(input, output);
      }
    }

    method Decode(input: FrameSegment, packet: Packet) returns (output: Packet, error: Option<NetworkError>)
      requires Valid() && input.Valid() && input.R == 1 && packet.Valid(input.S) && input.data !in Scratch()
      requires Codec().Readable(input.S, input.Contents())
      modifies Scratch()
      ensures output.Valid(input.S)
      ensures
        match Codec().Decoded(input.S, packet, input.Contents())
        case Success(p) => error == None && output == p
        case Failure(e) => error == Some(e) && output == Codec().LeftBehind(input.S, packet, input.Contents())
    {
      match this {
        case Binary(coder) => output, error := coder.Decode(input, packet);
        case Ldpc(coder) => output, error := coder.Decode(input, packet);
      }
    }
  }
}
