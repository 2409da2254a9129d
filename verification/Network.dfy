/** The packet pipeline: one scratch packet array shared by both directions, one reassembly table. */
module Networks {
  import opened Bytes
  import opened Wrappers
  import opened Frames
  import opened Packets
  import opened Coders
  import opened PacketCoders
  import opened Decodings
  import opened Demuxers
  import opened Slots
  import opened Muxers
  import opened Receiver

  class Network {
    const S: nat
    const R: nat
    const Q: nat
    const demuxer: Demuxer
    const muxer: Muxer
    const packets: array<Packet>
    const coder: PacketCoder

    ghost function Config(): Config {
      Receiver.Config(S, R, Q, coder.Codec())
    }

    /** Everything the network may write to. */
    ghost function Repr(): set<object>
      reads muxer
    {
      {packets} + coder.Scratch() + muxer.Repr
    }

    ghost predicate Valid()
      reads demuxer, packets, muxer, muxer.Repr
    {
      && coder.Valid() && S >= coder.Codec().HeaderLength() && Config().Size() > 0
      && packets.Length == R > 0
      && (forall i | 0 <= i < R :: packets[i].Valid(S))
      && demuxer.Valid() && demuxer.S == S && demuxer.R == R && demuxer.segmentSize == Config().Size()
      && muxer.Valid() && muxer.S == S && muxer.R == R && muxer.queue.Length == Q
      && packets !in muxer.Repr && coder.Scratch() !! muxer.Repr
      && demuxer !in muxer.Repr && packets as object !in coder.Scratch()
    }

    constructor (s: nat, r: nat, q: nat, c: PacketCoder)
      requires c.Valid() && r > 0
      requires s > c.Codec().HeaderLength() && c.Codec().MaxPayload(s) > 0
      ensures Valid() && S == s && R == r && Q == q && coder == c
      ensures muxer.Model() == EmptyTable(s, r, q)
      ensures fresh(Repr() - c.Scratch()) && fresh(demuxer)
    {
      S, R, Q, coder := s, r, q, c;
      demuxer := new Demuxer(s, r, c.Codec().MaxPayload(s));
      muxer := new Muxer(s, r, q);
      packets := new Packet[r](_ => NewPacket(s));
      new;
      assert muxer.Model() == EmptyTable(s, r, q);
    }

    /** Decodes into the first scratch packet; a failure leaves there what was decoded before it. */
    method DecodeScratch(frame: FrameSegment) returns (error: Option<NetworkError>)
      requires Valid() && frame.Valid() && frame.R == 1 && frame.S == S && {frame, frame.data} !! Repr()
      requires coder.Codec().Readable(S, frame.Contents())
      modifies packets, coder.Scratch()
      ensures Valid() && muxer.Repr == old(muxer.Repr) && muxer.Model() == old(muxer.Model())
      ensures packets[..] == old(packets[..])[0 := packets[0]]
      ensures
        match coder.Codec().Decoded(S, old(packets[0]), old(frame.Contents()))
        case Failure(e) =>
          error == Some(e) && packets[0] == coder.Codec().LeftBehind(S, old(packets[0]), old(frame.Contents()))
        case Success(p) => error == None && packets[0] == p
    {
      hide Codec.Readable, Codec.Decoded, Codec.LeftBehind, Packet.Valid;
      ghost var slots := muxer.Model();
      var packet;
      packet, error := coder.Decode(frame, packets[0]);
      packets[0] := packet;
      assert muxer.Valid() && muxer.Model() == slots;
    }

    /** Decodes into the first scratch packet and stores the result; refused packets are dropped silently. */
    method Receive(now: nat, frame: FrameSegment) returns (error: Option<NetworkError>)
      requires Valid() && frame.Valid() && frame.R == 1 && frame.S == S && {frame, frame.data} !! Repr()
      requires coder.Codec().Readable(S, frame.Contents())
      modifies Repr()
      ensures Valid() && muxer.Repr == old(muxer.Repr)
      ensures
        match coder.Codec().Decoded(S, old(packets[0]), old(frame.Contents()))
        case Failure(e) => error == Some(e) && muxer.Model() == old(muxer.Model())
        case Success(p) => error == None && muxer.Model() == Multiplexed(old(muxer.Model()), now, p).0
      ensures OtherType(coder.Codec(), old(frame.Contents())) ==>
        error == Some(NotSupported) && muxer.Model() == old(muxer.Model())
    {
      hide OtherType, Codec.Readable, Codec.Decoded, Codec.LeftBehind, Multiplexed;
      if OtherType(coder.Codec(), frame.Contents()) {
        OtherTypeRefused(coder.Codec(), S, packets[0], frame.Contents());
      }
      error := DecodeScratch(frame);
      if error.Some? {
        return;
      }
      var _ := muxer.Multiplex(now, packets[0]);
    }

    method Process(now: nat, rxFrame: FrameSegment) returns (r: Result<Assembled, NetworkError>)
      requires Valid() && rxFrame.Valid() && rxFrame.S == S && rxFrame.R == R
      requires {rxFrame, rxFrame.data} !! Repr() && rxFrame as object != demuxer
      modifies muxer.Repr, rxFrame, rxFrame.data
      ensures Valid() && muxer.Repr == old(muxer.Repr) && rxFrame.Valid()
      ensures
        var (stored, packet) := Processed(old(muxer.Model()), S, R);
        r == packet && muxer.Model() == ReleasedExpired(stored, now)
      ensures rxFrame.Contents() == Output(old(muxer.Model()), S, R, old(rxFrame.Contents()))
      ensures r.Success? ==> rxFrame.Contents() == r.value.payload
    {
      r := muxer.Process(rxFrame);
      muxer.ReleaseExpired(now);
    }

    /** The error a transmit reports, if any. */
    ghost function TransmitError(data: seq<byte>, room: nat): Option<NetworkError>
      requires coder.Valid() && Config().Size() > 0
    {
      if |data| > Config().Size() * R || Config().Size() > 0xFFFF || |Chunks(data, Config().Size())| > room
      then Some(PayloadTooBig) else None
    }

    /** Cuts `data` into segments and encodes one frame for each; the reassembly table is not touched. */
    method Transmit(id: bv32, data: seq<byte>, outputFrames: array<FrameSegment>)
      returns (r: Result<nat, NetworkError>)
      requires Valid() && OutputFrames(outputFrames)
      modifies packets, coder.Scratch(), outputFrames[..], set i | 0 <= i < outputFrames.Length :: outputFrames[i].data
      ensures Valid() && OutputFrames(outputFrames)
      ensures muxer.Repr == old(muxer.Repr) && muxer.Model() == old(muxer.Model())
      ensures
        match TransmitError(data, outputFrames.Length)
        case Some(e) => r == Failure(e)
        case None =>
          && r == Success(|Chunks(data, Config().Size())|)
          && forall k | 0 <= k < r.value :: outputFrames[k].Contents() == FrameOf(Config(), id, data, k)
    {
      hide SegmentOver;
      ghost var size := Config().Size();
      ghost var slots := muxer.Model();
      ghost var before := packets[..];
      ChunkCountBound(data, size, R);
      var count := demuxer.Demultiplex(id, data, packets);
      assert muxer.Valid() && muxer.Model() == slots;
      ChunksShort(data, size, S, coder.Codec());
      if count.Failure? {
        return Failure(count.error);
      }
      if outputFrames.Length < count.value {
        return Failure(PayloadTooBig);
      }
      DemuxedSegments(before, packets[..], id, Chunks(data, size));
      EncodeAll(id, data, count.value, outputFrames);
      return Success(count.value);
    }

    /** The packets hold the segments of `data`. */
    ghost predicate HoldsSegments(id: bv32, data: seq<byte>, n: nat)
      requires Config().Size() > 0
      reads packets
    {
      var chunks := Chunks(data, Config().Size());
      && n == |chunks| <= packets.Length
      && forall k | 0 <= k < n ::
          && packets[k].Valid(S)
          && packets[k].header == SegmentHeader(id, n, k, chunks[k])
          && packets[k].Contents() == chunks[k]
    }

    /** Encodes one packet into its frame; the other frames and the reassembly table stay as they are. */
    method EncodeOne(i: nat, outputFrames: array<FrameSegment>) returns (error: Option<NetworkError>)
      requires Valid() && OutputFrames(outputFrames) && i < outputFrames.Length && i < R
      modifies coder.Scratch(), outputFrames[i], outputFrames[i].data
      ensures Valid() && OutputFrames(outputFrames) && outputFrames[..] == old(outputFrames[..])
      ensures packets[..] == old(packets[..])
      ensures muxer.Repr == old(muxer.Repr) && muxer.Model() == old(muxer.Model())
      ensures forall k | 0 <= k < outputFrames.Length && k != i ::
          outputFrames[k].Contents() == old(outputFrames[k].Contents())
      ensures
        var bytes := coder.Codec().Encoded(packets[i].header, packets[i].Contents());
        if |bytes| <= S then error == None && outputFrames[i].Contents() == bytes else error == Some(OutOfMemory)
    {
      error := coder.Encode(packets[i], outputFrames[i]);
    }

    method EncodeAll(id: bv32, data: seq<byte>, n: nat, outputFrames: array<FrameSegment>)
      requires Valid() && OutputFrames(outputFrames) && HoldsSegments(id, data, n) && n <= outputFrames.Length
      requires Config().Size() < 0x1_0000
      modifies coder.Scratch(), outputFrames[..], set i | 0 <= i < outputFrames.Length :: outputFrames[i].data
      ensures Valid() && OutputFrames(outputFrames)
      ensures muxer.Repr == old(muxer.Repr) && muxer.Model() == old(muxer.Model())
      ensures forall k | 0 <= k < n :: outputFrames[k].Contents() == FrameOf(Config(), id, data, k)
    {
      hide SegmentHeader, FrameOf;
      for i := 0 to n
        invariant Valid() && OutputFrames(outputFrames) && outputFrames[..] == old(outputFrames[..])
        invariant packets[..] == old(packets[..])
        invariant muxer.Repr == old(muxer.Repr) && muxer.Model() == old(muxer.Model())
        invariant forall k | 0 <= k < i :: outputFrames[k].Contents() == FrameOf(Config(), id, data, k)
      {
        EncodedSegment(packets[i], Config(), id, data, i);
        var error := EncodeOne(i, outputFrames);
        if error.Some? {
          assert false;
        }
      }
    }

    /** Frames for the outgoing segments: separate buffers, none of them part of the network. */
    ghost predicate OutputFrames(frames: array<FrameSegment>)
      reads frames, frames[..], muxer
    {
      Unowned(frames) && Separate(frames, S)
    }

    /** The frames are not part of the network. */
    ghost predicate Unowned(frames: array<FrameSegment>)
      reads frames, muxer
    {
      && frames as object !in Repr()
      && forall i | 0 <= i < frames.Length ::
          {frames[i], frames[i].data} !! Repr() && frames[i] as object != demuxer
    }
  }

  /** Empty or filled frames of one block each, without overlap. */
  ghost predicate Separate(frames: array<FrameSegment>, S: nat)
    reads frames, frames[..]
  {
    && (forall i | 0 <= i < frames.Length ::
        frames[i].Valid() && frames[i].S == S && frames[i].R == 1 && frames[i].data as object != frames)
    && forall i, j | 0 <= i < j < frames.Length :: frames[i] != frames[j] && frames[i].data != frames[j].data
  }

  /** A transmit is refused exactly for a payload that is too big for the table, a frame or the frames at hand. */
  lemma TransmitErrorIff(network: Network, data: seq<byte>, room: nat)
    requires network.coder.Valid() && network.Config().Size() > 0
    ensures
      var size := network.Config().Size();
      network.TransmitError(data, room) ==
        if |data| <= size * network.R && size <= 65535 && DivRoundUp(|data|, size) <= room
        then None else Some(PayloadTooBig)
  {
    ChunkCount(data, network.Config().Size());
  }

  lemma DemuxedSegments(before: seq<Packet>, after: seq<Packet>, id: bv32, chunks: seq<seq<byte>>)
    requires Demuxed(before, after, id, chunks, |chunks|)
    ensures |chunks| <= |after|
    ensures forall k | 0 <= k < |chunks| ::
        && after[k].header == SegmentHeader(id, |chunks|, k, chunks[k])
        && after[k].frame.Valid() && after[k].Contents() == chunks[k]
  {
  }

  lemma ChunksShort(data: seq<byte>, size: nat, S: nat, codec: Codec)
    requires size > 0 && S >= codec.HeaderLength() && size == codec.MaxPayload(S)
    ensures forall k | 0 <= k < |Chunks(data, size)| :: |Chunks(data, size)[k]| <= size <= S
  {
  }

  /** Encoding a written segment gives its frame, and the frame is long enough. */
  lemma EncodedSegment(p: Packet, cfg: Config, id: bv32, data: seq<byte>, k: nat)
    requires cfg.codec.Shaped() && cfg.S >= cfg.codec.HeaderLength() && 0 < cfg.Size() < 0x1_0000
    requires k < |Chunks(data, cfg.Size())| && p.Valid(cfg.S)
    requires
      var chunks := Chunks(data, cfg.Size());
      p.header == SegmentHeader(id, |chunks|, k, chunks[k]) && p.Contents() == chunks[k]
    ensures cfg.codec.Encoded(p.header, p.Contents()) == FrameOf(cfg, id, data, k)
    ensures |FrameOf(cfg, id, data, k)| <= cfg.S
  {
    FitsIff(cfg.codec, cfg.S, p.header, p.Contents());
  }
}
