/** Exactly which frames the decoders refuse, with which error, and what they make of all others. */
module Decodings {
  import opened Bytes
  import opened Wrappers
  import opened Frames
  import opened Packets
  import opened Coders
  import opened Slots
  import opened Receiver

  // ----- code words

  ghost function Word(input: seq<byte>, j: nat): seq<byte>
    requires (j + 1) * BLOCK_WORD <= |input|
  {
    input[j * BLOCK_WORD..(j + 1) * BLOCK_WORD]
  }

  /** The first `n` code words can all be corrected. */
  ghost predicate AllDecode(code: BlockCode, input: seq<byte>, n: nat)
    requires n * BLOCK_WORD <= |input|
  {
    forall i: nat | i < n :: code.decode(Word(input, i)).Some?
  }

  /** The decoder comes as far as code word `j`. */
  ghost predicate Reaches(code: BlockCode, room: nat, input: seq<byte>, j: nat)
    requires j * BLOCK_WORD <= |input|
  {
    forall i: nat | i < j :: !StopsAt(code, room, input, i)
  }

  lemma ReachesLater(code: BlockCode, room: nat, input: seq<byte>, j: nat)
    requires |input| >= BLOCK_WORD && room >= BLOCK && j * BLOCK_WORD <= |input| - BLOCK_WORD
    requires !StopsAt(code, room, input, 0)
    ensures Reaches(code, room, input, j + 1) <==> Reaches(code, room - BLOCK, input[BLOCK_WORD..], j)
  {
    hide StopsAt;
    var left: nat, rest := room - BLOCK, input[BLOCK_WORD..];
    if Reaches(code, room, input, j + 1) {
      forall i: nat | i < j ensures !StopsAt(code, left, rest, i) {
        StopsLater(code, room, input, i);
      }
    }
    if Reaches(code, left, rest, j) {
      forall i: nat | i < j + 1 ensures !StopsAt(code, room, input, i) {
        if i > 0 {
          StopsLater(code, room, input, i - 1);
        }
      }
    }
  }

  /** The data of all whole words: of each, the first block of what it decodes to. */
  ghost function DataOf(code: BlockCode, input: seq<byte>): seq<byte>
    decreases |input|
  {
    if |input| < BLOCK_WORD then []
    else match code.decode(input[..BLOCK_WORD])
      case None => []
      case Some(out) => out[..if |out| < BLOCK then |out| else BLOCK] + DataOf(code, input[BLOCK_WORD..])
  }

  /** An input of whole words that the decoder gets through is decoded: the data of the words, in order. */
  lemma {:induction false} AllWordsDecoded(code: BlockCode, f: Frame, input: seq<byte>)
    requires code.Shaped(BLOCK, BLOCK_WORD, OUTPUT_BUFFER)
    requires f.Valid() && BlocksReadable(code, |f.data| - f.len, input)
    requires |input| % BLOCK_WORD == 0 && Reaches(code, |f.data| - f.len, input, |input| / BLOCK_WORD)
    ensures f.Fits(|DataOf(code, input)|) && |DataOf(code, input)| == |input| / BLOCK_WORD * BLOCK
    ensures DecodedBlocks(code, f, input) == Success(f.Push(DataOf(code, input)))
    decreases |input|
  {
    hide Frame.Push;
    if input == [] {
      NoBlocks(code, f);
    } else {
      var word, rest := input[..BLOCK_WORD], input[BLOCK_WORD..];
      assert !StopsAt(code, |f.data| - f.len, input, 0);
      var block := code.decode(word).value[..BLOCK];
      ReachesLater(code, |f.data| - f.len, input, |rest| / BLOCK_WORD);
      AllWordsDecoded(code, f.Push(block), rest);
      PushPush(f, block, DataOf(code, rest));
    }
  }

  /** Block `j` of the data is the data of word `j`. */
  lemma {:induction false} DataOfWord(code: BlockCode, room: nat, input: seq<byte>, n: nat, j: nat)
    requires code.Shaped(BLOCK, BLOCK_WORD, OUTPUT_BUFFER)
    requires n * BLOCK_WORD <= |input| && Reaches(code, room, input, n) && j < n
    ensures
      var out := code.decode(input[j * BLOCK_WORD..(j + 1) * BLOCK_WORD]);
      && out.Some? && (j + 1) * BLOCK <= |DataOf(code, input)|
      && DataOf(code, input)[j * BLOCK..(j + 1) * BLOCK] == out.value[..BLOCK]
    decreases j
  {
    assert !StopsAt(code, room, input, 0);
    var rest := input[BLOCK_WORD..];
    var out := code.decode(input[0 * BLOCK_WORD..1 * BLOCK_WORD]);
    assert input[0 * BLOCK_WORD..1 * BLOCK_WORD] == input[..BLOCK_WORD];
    if j > 0 {
      ReachesLater(code, room, input, n - 1);
      DataOfWord(code, room - BLOCK, rest, n - 1, j - 1);
      assert rest[(j - 1) * BLOCK_WORD..j * BLOCK_WORD] == input[j * BLOCK_WORD..(j + 1) * BLOCK_WORD];
      assert DataOf(code, input)[j * BLOCK..(j + 1) * BLOCK] == DataOf(code, rest)[(j - 1) * BLOCK..j * BLOCK];
    }
  }

  /** The first word at which the decoder stops decides the error: it cannot be corrected, or there is no room. */
  lemma {:induction false} FirstStopDecides(code: BlockCode, f: Frame, input: seq<byte>, j: nat)
    requires f.Valid() && BlocksReadable(code, |f.data| - f.len, input) && (j + 1) * BLOCK_WORD <= |input|
    requires Reaches(code, |f.data| - f.len, input, j) && StopsAt(code, |f.data| - f.len, input, j)
    ensures DecodedBlocks(code, f, input) == Failure(
      if code.decode(input[j * BLOCK_WORD..(j + 1) * BLOCK_WORD]).None? then CorruptedData else OutOfMemory)
    decreases j
  {
    if j == 0 {
      assert input[0 * BLOCK_WORD..1 * BLOCK_WORD] == input[..BLOCK_WORD];
    } else {
      var rest := input[BLOCK_WORD..];
      assert !StopsAt(code, |f.data| - f.len, input, 0);
      var out := code.decode(input[..BLOCK_WORD]).value;
      var block := if |out| < BLOCK then out + seq(BLOCK - |out|, _ => 0) else out[..BLOCK];
      ReachesLater(code, |f.data| - f.len, input, j - 1);
      StopsLater(code, |f.data| - f.len, input, j - 1);
      FirstStopDecides(code, f.Push(block), rest, j - 1);
      assert rest[(j - 1) * BLOCK_WORD..j * BLOCK_WORD] == input[j * BLOCK_WORD..(j + 1) * BLOCK_WORD];
    }
  }

  /** The frame then holds the data of the words before it. */
  lemma {:induction false} LeftBeforeStop(code: BlockCode, f: Frame, input: seq<byte>, j: nat)
    requires code.Shaped(BLOCK, BLOCK_WORD, OUTPUT_BUFFER)
    requires f.Valid() && BlocksReadable(code, |f.data| - f.len, input) && (j + 1) * BLOCK_WORD <= |input|
    requires Reaches(code, |f.data| - f.len, input, j) && StopsAt(code, |f.data| - f.len, input, j)
    ensures f.Fits(|DataOf(code, input[..j * BLOCK_WORD])|)
    ensures BlocksBefore(code, f, input) == f.Push(DataOf(code, input[..j * BLOCK_WORD]))
    decreases j
  {
    hide Frame.Push;
    if j == 0 {
      assert input[0 * BLOCK_WORD..1 * BLOCK_WORD] == input[..BLOCK_WORD];
      NoBlocks(code, f);
    } else {
      var rest, before := input[BLOCK_WORD..], input[..j * BLOCK_WORD];
      assert !StopsAt(code, |f.data| - f.len, input, 0);
      var block := code.decode(input[..BLOCK_WORD]).value[..BLOCK];
      ReachesLater(code, |f.data| - f.len, input, j - 1);
      StopsLater(code, |f.data| - f.len, input, j - 1);
      LeftBeforeStop(code, f.Push(block), rest, j - 1);
      assert before[..BLOCK_WORD] == input[..BLOCK_WORD] && before[BLOCK_WORD..] == rest[..(j - 1) * BLOCK_WORD];
      PushPush(f, block, DataOf(code, before[BLOCK_WORD..]));
    }
  }

  lemma ReachesIff(code: BlockCode, room: nat, input: seq<byte>, j: nat)
    requires j * BLOCK_WORD <= |input|
    ensures Reaches(code, room, input, j) <==> AllDecode(code, input, j) && j * BLOCK <= room
  {
    if Reaches(code, room, input, j) {
      if j > 0 {
        assert !StopsAt(code, room, input, j - 1);
      }
      forall i: nat | i < j ensures code.decode(Word(input, i)).Some? {
        assert !StopsAt(code, room, input, i);
      }
    }
    if AllDecode(code, input, j) && j * BLOCK <= room {
      forall i: nat | i < j ensures !StopsAt(code, room, input, i) {
        assert code.decode(Word(input, i)).Some?;
      }
    }
  }

  /** Either the decoder gets through the first `n` words, or there is a first at which it stops. */
  lemma StopsOrNot(code: BlockCode, room: nat, input: seq<byte>, n: nat) returns (j: nat)
    requires n * BLOCK_WORD <= |input|
    ensures j <= n && Reaches(code, room, input, j) && (j < n ==> StopsAt(code, room, input, j))
  {
    hide StopsAt;
    j := 0;
    while j < n && !StopsAt(code, room, input, j)
      invariant j <= n && Reaches(code, room, input, j)
    {
      j := j + 1;
    }
  }

  /** Where decoding ends: at word `j`, which cannot be corrected, all before it having been decoded. */
  ghost predicate Uncorrectable(code: BlockCode, room: nat, input: seq<byte>, j: nat) {
    && (j + 1) * BLOCK_WORD <= |input|
    && AllDecode(code, input, j) && j * BLOCK <= room && code.decode(Word(input, j)).None?
  }

  /** Where decoding ends: at word `j`, which is corrected but has no room, all before it having had some. */
  ghost predicate Overflows(code: BlockCode, room: nat, input: seq<byte>, j: nat) {
    (j + 1) * BLOCK_WORD <= |input| && AllDecode(code, input, j + 1) && j * BLOCK <= room < (j + 1) * BLOCK
  }

  lemma EndsOnce(code: BlockCode, room: nat, input: seq<byte>, i: nat, j: nat)
    requires Uncorrectable(code, room, input, i) || Overflows(code, room, input, i)
    requires (j + 1) * BLOCK_WORD <= |input| && Reaches(code, room, input, j) && StopsAt(code, room, input, j)
    ensures i == j
  {
    ReachesIff(code, room, input, i);
    ReachesIff(code, room, input, j);
  }

  /**
   A payload is decoded exactly if it is made of whole words that can all be corrected and have room. Otherwise the
   first word that ends the decoding tells the error.
   */
  lemma DecodedBlocksIff(code: BlockCode, f: Frame, input: seq<byte>)
    requires code.Shaped(BLOCK, BLOCK_WORD, OUTPUT_BUFFER)
    requires f.Valid() && BlocksReadable(code, |f.data| - f.len, input)
    ensures
      var r, room, n := DecodedBlocks(code, f, input), |f.data| - f.len, |input| / BLOCK_WORD;
      && (r.Success? <==> |input| % BLOCK_WORD == 0 && AllDecode(code, input, n) && n * BLOCK <= room)
      && (r.Success? ==> f.Fits(|DataOf(code, input)|) && r.value == f.Push(DataOf(code, input)))
      && (r == Failure(CorruptedData) <==> exists j :: Uncorrectable(code, room, input, j))
      && (r == Failure(OutOfMemory) <==> exists j :: Overflows(code, room, input, j))
      && (r.Failure? ==> r.error == CorruptedData || r.error == OutOfMemory)
  {
    hide DecodedBlocks, BlocksReadable, AllDecode, Frame.Push, DataOf;
    var room: nat, n := |f.data| - f.len, |input| / BLOCK_WORD;
    var j := StopsOrNot(code, room, input, n);
    ReachesIff(code, room, input, n);
    if j < n {
      FirstStopDecides(code, f, input, j);
      StopKind(code, room, input, j);
      forall i | Uncorrectable(code, room, input, i) || Overflows(code, room, input, i) ensures i == j {
        EndsOnce(code, room, input, i, j);
      }
    } else {
      NoStop(code, room, input);
      AllWordsDecoded(code, f, input);
    }
  }

  lemma StopKind(code: BlockCode, room: nat, input: seq<byte>, j: nat)
    requires (j + 1) * BLOCK_WORD <= |input| && Reaches(code, room, input, j) && StopsAt(code, room, input, j)
    ensures Uncorrectable(code, room, input, j) <==> code.decode(Word(input, j)).None?
    ensures Overflows(code, room, input, j) <==> code.decode(Word(input, j)).Some?
    ensures !Reaches(code, room, input, |input| / BLOCK_WORD)
  {
    ReachesIff(code, room, input, j);
  }

  lemma NoStop(code: BlockCode, room: nat, input: seq<byte>)
    requires BlocksReadable(code, room, input) && Reaches(code, room, input, |input| / BLOCK_WORD)
    ensures |input| % BLOCK_WORD == 0
    ensures forall i :: !Uncorrectable(code, room, input, i) && !Overflows(code, room, input, i)
  {
    hide StopsAt;
    BlocksReadableIff(code, room, input);
    ReachesIff(code, room, input, |input| / BLOCK_WORD);
  }

  // ----- whole frames

  /** The header word is refused if it is too short, cannot be corrected, or is of another type. */
  lemma HeaderWordIff(code: BlockCode, frame: seq<byte>)
    requires code.Shaped(HEADER_SIZE, HEADER_WORD, HEADER_WORD)
    ensures
      var r := LdpcHeader(code, frame);
      && (r == Failure(OutOfMemory) <==> |frame| < HEADER_WORD)
      && (r == Failure(CorruptedData) <==> |frame| >= HEADER_WORD && code.decode(frame[..HEADER_WORD]).None?)
      && (r == Failure(NotSupported) <==> OtherTypeWord(code, frame))
      && (r.Success? <==> PayloadTypeWord(code, frame))
  {
    hide UnpackedHeader;
    if |frame| >= HEADER_WORD && code.decode(frame[..HEADER_WORD]).Some? {
      UnpackedIff(code.decode(frame[..HEADER_WORD]).value[..HEADER_SIZE]);
    }
  }

  /** The frame starts with a code word whose data starts with the type of payload packets. */
  ghost predicate PayloadTypeWord(code: BlockCode, frame: seq<byte>) {
    && |frame| >= HEADER_WORD
    && var out := code.decode(frame[..HEADER_WORD]);
    out.Some? && |out.value| >= HEADER_SIZE && out.value[0] == 0xBA
  }

  /** The frame starts with a code word whose data starts with another type. */
  ghost predicate OtherTypeWord(code: BlockCode, frame: seq<byte>) {
    && |frame| >= HEADER_WORD
    && var out := code.decode(frame[..HEADER_WORD]);
    out.Some? && |out.value| >= HEADER_SIZE && out.value[0] != 0xBA
  }

  /** The plain decoder accepts exactly the frames of the right type that are not longer than a packet can be. */
  lemma BinaryDecodedIff(S: nat, prior: Packet, frame: seq<byte>)
    requires prior.Valid(S) && |frame| >= HEADER_SIZE
    ensures
      var r := BinaryCodec.Decoded(S, prior, frame);
      && (r.Success? <==> frame[0] == 0xBA && |frame| - HEADER_SIZE <= S)
      && (r == Failure(NotSupported) <==> frame[0] != 0xBA)
      && (r == Failure(OutOfMemory) <==> frame[0] == 0xBA && |frame| - HEADER_SIZE > S)
  {
    hide UnpackedHeader;
    UnpackedIff(frame[..HEADER_SIZE]);
  }

  /** The decoder with error correction: exactly which frames it accepts, and why it refuses the others. */
  lemma LdpcDecodedIff(hc: BlockCode, pc: BlockCode, S: nat, prior: Packet, frame: seq<byte>)
    requires LdpcCodec(hc, pc).Shaped() && prior.Valid(S) && LdpcCodec(hc, pc).Readable(S, frame)
    ensures
      var r := LdpcCodec(hc, pc).Decoded(S, prior, frame);
      var input := if |frame| >= HEADER_WORD then frame[HEADER_WORD..] else [];
      && (r.Success? <==>
          (&& PayloadTypeWord(hc, frame)
           && |input| % BLOCK_WORD == 0 && AllDecode(pc, input, |input| / BLOCK_WORD)
           && |input| / BLOCK_WORD * BLOCK <= S))
      && (r == Failure(NotSupported) <==> OtherTypeWord(hc, frame))
      && (r == Failure(CorruptedData) <==>
          (|| (|frame| >= HEADER_WORD && hc.decode(frame[..HEADER_WORD]).None?)
           || (PayloadTypeWord(hc, frame) && exists j :: Uncorrectable(pc, S, input, j))))
      && (r == Failure(OutOfMemory) <==>
          (|| |frame| < HEADER_WORD
           || (PayloadTypeWord(hc, frame) && exists j :: Overflows(pc, S, input, j))))
  {
    hide LdpcHeader, DecodedBlocks, BlocksReadable, AllDecode, Uncorrectable, Overflows, DataOf;
    HeaderWordIff(hc, frame);
    if LdpcHeader(hc, frame).Success? {
      DecodedBlocksIff(pc, prior.frame.Clear(), frame[HEADER_WORD..]);
    }
  }

  /** The bytes that a frame brings for the payload. */
  ghost function PayloadOf(codec: Codec, frame: seq<byte>): seq<byte> {
    match codec
    case BinaryCodec => if |frame| < HEADER_SIZE then [] else frame[HEADER_SIZE..]
    case LdpcCodec(hc, pc) => if |frame| < HEADER_WORD then [] else DataOf(pc, frame[HEADER_WORD..])
  }

  /**
   What an accepted frame leaves in the packet: as many bytes as its header says, but at most one block; the first
   of them those that came with the frame, any others left over from before.
   */
  lemma DecodedContents(codec: Codec, S: nat, prior: Packet, frame: seq<byte>)
    requires codec.Shaped() && prior.Valid(S) && codec.Readable(S, frame)
    requires codec.Decoded(S, prior, frame).Success?
    ensures
      var p, data := codec.Decoded(S, prior, frame).value, PayloadOf(codec, frame);
      && p.frame.Valid() && p.frame.len == (if p.header.len < S then p.header.len else S)
      && forall i | 0 <= i < p.frame.len ::
          p.Contents()[i] == if i < |data| then data[i] else prior.frame.data[i]
  {
    hide UnpackedHeader, LdpcHeader, DecodedBlocks, BlocksReadable, AllDecode, DataOf;
    if codec.LdpcCodec? {
      DecodedBlocksIff(codec.payload, prior.frame.Clear(), frame[HEADER_WORD..]);
    }
  }

  // ----- frames of another type

  /** The first byte of the header, corrected if need be, is not that of payload packets. */
  ghost predicate OtherType(codec: Codec, frame: seq<byte>) {
    match codec
    case BinaryCodec => |frame| >= HEADER_SIZE && frame[0] != 0xBA
    case LdpcCodec(hc, _) => OtherTypeWord(hc, frame)
  }

  /** With either coder a frame of another type is not supported. */
  lemma OtherTypeRefused(codec: Codec, S: nat, prior: Packet, frame: seq<byte>)
    requires codec.Shaped() && prior.Valid(S) && codec.Readable(S, frame) && OtherType(codec, frame)
    ensures codec.Decoded(S, prior, frame) == Failure(NotSupported)
  {
    hide Codec.Readable, Codec.Decoded, LdpcHeader;
    match codec
    case BinaryCodec => BinaryDecodedIff(S, prior, frame);
    case LdpcCodec(hc, pc) => LdpcDecodedIff(hc, pc, S, prior, frame);
  }

  /** And the receiver stores nothing of it. */
  lemma OtherTypeIgnored(cfg: Config, slots: seq<Slot>, e: Event)
    requires cfg.codec.Shaped() && ValidTable(slots, cfg.S, cfg.R) && e.Valid(cfg) && OtherType(cfg.codec, e.frame)
    ensures Step(cfg, slots, e) == (slots, Failure(NotSupported))
  {
    hide Codec.Readable, Codec.Decoded, OtherType, Arrive;
    OtherTypeRefused(cfg.codec, cfg.S, e.prior, e.frame);
  }

  /** A frame with a word that cannot be corrected, the first of them before any that has no room, is ignored too. */
  lemma UncorrectableIgnored(cfg: Config, slots: seq<Slot>, e: Event, j: nat)
    requires cfg.codec.LdpcCodec? && cfg.codec.Shaped() && ValidTable(slots, cfg.S, cfg.R) && e.Valid(cfg)
    requires PayloadTypeWord(cfg.codec.header, e.frame)
    requires Uncorrectable(cfg.codec.payload, cfg.S, e.frame[HEADER_WORD..], j)
    ensures Step(cfg, slots, e) == (slots, Failure(CorruptedData))
  {
    hide Codec.Readable, Codec.Decoded, UnpackedHeader, Arrive, Uncorrectable;
    LdpcDecodedIff(cfg.codec.header, cfg.codec.payload, cfg.S, e.prior, e.frame);
  }
}
