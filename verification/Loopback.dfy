/** Both directions together: what one controller transmits, another receives. */
module Loopback {
  import opened Bytes
  import opened Wrappers
  import opened Frames
  import opened Packets
  import opened Coders
  import opened Demuxers
  import opened Slots
  import opened Reassembly
  import opened Receiver
  import opened EndToEnd
  import opened Networks
  import opened Controller

  /** Two controllers share nothing. */
  ghost predicate Disjoint(sender: ControllerNetwork, receiver: ControllerNetwork)
    reads sender, receiver, receiver.network.muxer, sender.network.muxer
  {
    && receiver != sender
    && {sender, sender.network.demuxer} + sender.network.Repr()
       !! {receiver, receiver.network.demuxer} + receiver.network.Repr()
  }

  /** Two controllers and the frames and buffers between them do not overlap. */
  ghost predicate Apart(sender: ControllerNetwork, receiver: ControllerNetwork,
                        frames: array<FrameSegment>, output: FrameSegment)
    reads sender, receiver, receiver.network.muxer, sender.network.muxer, frames, frames[..], output
  {
    && Disjoint(sender, receiver)
    && sender.network.OutputFrames(frames) && Beside(receiver, frames, output)
    && {output, output.data} !! sender.network.Repr()
  }

  /**
   A payload sent by one controller and passed frame by frame to a fresh one comes out as it went in, for
   every payload of up to fifteen segments that the sender accepts.
   */
  method SendAndReceive(sender: ControllerNetwork, receiver: ControllerNetwork, id: bv32, data: seq<byte>,
                        frames: array<FrameSegment>, output: FrameSegment, clock: seq<nat>)
    returns (r: Result<Assembled, ControllerError>)
    requires sender.Valid() && receiver.Valid() && receiver.history == [] && Apart(sender, receiver, frames, output)
    requires sender.Config() == receiver.Config()
    requires data != [] && sender.network.TransmitError(data, frames.Length) == None
    requires |Chunks(data, sender.Config().Size())| <= MAX_SEGMENTS
    requires |clock| == |Chunks(data, sender.Config().Size())| && Steady(clock)
    modifies sender.network.packets, frames[..], set i | 0 <= i < frames.Length :: frames[i].data
    modifies receiver, receiver.network.Repr(), output, output.data
    ensures r == Success(Assembled(id, data)) && output.Valid() && output.Contents() == data
  {
    hide FrameOf, Chunks, Steady, Encoded, Network.Valid;
    NoChunks(data, receiver.Config().Size());
    ChunkCountBound(data, receiver.Config().Size(), receiver.network.R);
    TransmitBeside(sender, receiver, id, data, frames, output);
    r := ReceiveAll(receiver, id, data, frames, output, clock);
  }

  /** The frames hold the encoded message. */
  ghost predicate Encoded(cfg: Config, frames: array<FrameSegment>, id: bv32, data: seq<byte>)
    requires Separate(frames, cfg.S)
    reads frames, frames[..], set i | 0 <= i < frames.Length :: frames[i].data
  {
    && cfg.codec.Shaped() && 0 < cfg.Size() < 0x1_0000
    && |Chunks(data, cfg.Size())| <= frames.Length
    && forall k | 0 <= k < |Chunks(data, cfg.Size())| :: frames[k].Contents() == FrameOf(cfg, id, data, k)
  }

  /** What the validity of a controller depends on. */
  ghost function Footprint(c: ControllerNetwork): set<object>
    reads c.network.muxer
  {
    {c, c.network.demuxer, c.network.packets, c.network.muxer} + c.network.muxer.Repr
  }

  /** What a transmit writes to. */
  ghost function Written(c: ControllerNetwork, frames: array<FrameSegment>): set<object>
    reads frames
  {
    {c.network.packets} + (set i | 0 <= i < frames.Length :: frames[i])
    + (set i | 0 <= i < frames.Length :: frames[i].data)
  }

  /** Transmitting fills the frames and leaves the receiver as it is. */
  method TransmitBeside(sender: ControllerNetwork, receiver: ControllerNetwork, id: bv32, data: seq<byte>,
                        frames: array<FrameSegment>, ghost output: FrameSegment)
    requires sender.Valid() && receiver.Valid() && Apart(sender, receiver, frames, output)
    requires sender.Config() == receiver.Config()
    requires sender.network.TransmitError(data, frames.Length) == None
    modifies sender.network.packets, frames[..], set i | 0 <= i < frames.Length :: frames[i].data
    ensures receiver.Valid() && receiver.history == old(receiver.history)
    ensures receiver.network.muxer.Repr == old(receiver.network.muxer.Repr)
    ensures Beside(receiver, frames, output)
    ensures Encoded(receiver.Config(), frames, id, data)
  {
    hide FrameOf, After, Chunks;
    assert receiver.network.Valid() && receiver.network.muxer in receiver.network.muxer.Repr;
    assert receiver.Config().Size() > 0 && receiver.network.Unowned(frames);
    assert Footprint(receiver) !! Written(sender, frames) && {frames, output, output.data} !! Written(sender, frames);
    hide ControllerNetwork.Valid, Network.Valid, Network.Unowned, OutputApart, Disjoint, Separate;
    var _ := sender.Transmit(id, data, frames);
  }

  /** Buffers that receiving does not overwrite. */
  ghost predicate Beside(receiver: ControllerNetwork, frames: array<FrameSegment>, output: FrameSegment)
    reads receiver, receiver.network.muxer, frames, frames[..], output
  {
    receiver.network.OutputFrames(frames) && OutputApart(receiver, frames, output)
  }

  /** The output buffer belongs neither to the receiver nor to the frames. */
  ghost predicate OutputApart(receiver: ControllerNetwork, frames: array<FrameSegment>, output: FrameSegment)
    reads receiver, receiver.network.muxer, frames, output
  {
    && output.Valid() && output.S == receiver.network.S && output.R == receiver.network.R
    && {output, output.data} !! receiver.network.Repr() + {receiver.network.demuxer}
    && output.data as object != frames
    && forall i | 0 <= i < frames.Length :: output != frames[i] && output.data != frames[i].data
  }

  method ReceiveAll(receiver: ControllerNetwork, ghost id: bv32, ghost data: seq<byte>,
                    frames: array<FrameSegment>, output: FrameSegment, clock: seq<nat>)
    returns (r: Result<Assembled, ControllerError>)
    requires receiver.Valid() && receiver.history == [] && Beside(receiver, frames, output)
    requires Encoded(receiver.Config(), frames, id, data)
    requires 0 < |clock| == |Chunks(data, receiver.Config().Size())| <= receiver.network.R
    requires |clock| <= MAX_SEGMENTS && Steady(clock)
    modifies receiver, receiver.network.Repr(), output, output.data
    ensures r == Success(Assembled(id, data)) && output.Valid() && output.Contents() == data
  {
    hide FrameOf, Outcome, InOrder, After, Chunks, Steady;
    ghost var cfg := receiver.Config();
    NothingInOrder(cfg, id, data);
    r := Failure(ControllerError.OutOfMemory);
    for k := 0 to |clock|
      invariant receiver.Valid() && Beside(receiver, frames, output) && Encoded(receiver.Config(), frames, id, data)
      invariant receiver.network.muxer.Repr == old(receiver.network.muxer.Repr)
      invariant |receiver.history| == k && InOrder(cfg, receiver.history, id, data)
      invariant forall j | 0 <= j < k :: receiver.history[j].time == clock[j]
      invariant k > 0 ==> r == FromNetwork(Outcome(cfg, receiver.history, k - 1))
      invariant r.Success? ==> output.Contents() == r.value.payload
    {
      r := ReceiveFrame(receiver, id, data, frames, output, clock[k], k);
    }
    assert Times(receiver.history) == clock;
    InOrderDelivery(cfg, receiver.history, id, data);
  }

  lemma NothingInOrder(cfg: Config, id: bv32, payload: seq<byte>)
    requires cfg.codec.Shaped() && 0 < cfg.Size() < 0x1_0000
    ensures InOrder(cfg, [], id, payload)
  {
  }

  lemma InOrderNext(cfg: Config, events: seq<Event>, e: Event, id: bv32, payload: seq<byte>)
    requires cfg.codec.Shaped() && 0 < cfg.Size() < 0x1_0000 && InOrder(cfg, events, id, payload)
    requires |events| < |Chunks(payload, cfg.Size())|
    requires e.prior.Valid(cfg.S) && e.frame == FrameOf(cfg, id, payload, |events|)
    ensures InOrder(cfg, events + [e], id, payload)
  {
    hide FrameOf;
  }

  lemma FrameLength(cfg: Config, id: bv32, payload: seq<byte>, k: nat)
    requires cfg.codec.BinaryCodec? && 0 < cfg.Size() < 0x1_0000 && k < |Chunks(payload, cfg.Size())|
    ensures |FrameOf(cfg, id, payload, k)| >= HEADER_SIZE
  {
  }

  method ReceiveFrame(receiver: ControllerNetwork, ghost id: bv32, ghost data: seq<byte>,
                      frames: array<FrameSegment>, output: FrameSegment, now: nat, k: nat)
    returns (r: Result<Assembled, ControllerError>)
    requires receiver.Valid() && Beside(receiver, frames, output) && Encoded(receiver.Config(), frames, id, data)
    requires k < |Chunks(data, receiver.Config().Size())|
    requires |receiver.history| == k && InOrder(receiver.Config(), receiver.history, id, data)
    modifies receiver, receiver.network.Repr(), output, output.data
    ensures receiver.Valid() && Beside(receiver, frames, output) && Encoded(receiver.Config(), frames, id, data)
    ensures receiver.network.muxer.Repr == old(receiver.network.muxer.Repr)
    ensures |receiver.history| == k + 1 && receiver.history[..k] == old(receiver.history)
    ensures receiver.history[k].time == now && InOrder(receiver.Config(), receiver.history, id, data)
    ensures r == FromNetwork(Outcome(receiver.Config(), receiver.history, k))
    ensures r.Success? ==> output.Contents() == r.value.payload
  {
    hide FrameOf, Outcome, InOrder, After, Chunks;
    FrameLength(receiver.Config(), id, data, k);
    ghost var e := Event(now, frames[k].Contents(), receiver.network.packets[0]);
    InOrderNext(receiver.Config(), receiver.history, e, id, data);
    r := receiver.Receive(now, frames[k], output);
  }

  /** Frames of `mtu` bytes, separate and empty. */
  method NewFrames(mtu: nat, n: nat) returns (frames: array<FrameSegment>)
    ensures fresh(frames) && frames.Length == n
    ensures forall i | 0 <= i < n ::
        && fresh(frames[i]) && fresh(frames[i].data)
        && frames[i].Valid() && frames[i].S == mtu && frames[i].R == 1 && frames[i].data as object != frames
    ensures forall i, j | 0 <= i < j < n :: frames[i] != frames[j] && frames[i].data != frames[j].data
  {
    var first := new FrameSegment(mtu, 1);
    frames := new FrameSegment[n](_ => first);
    for i := 0 to n
      invariant forall k | 0 <= k < i ::
          && fresh(frames[k]) && fresh(frames[k].data)
          && frames[k].Valid() && frames[k].S == mtu && frames[k].R == 1 && frames[k].data as object != frames
      invariant forall k, l | 0 <= k < l < i :: frames[k] != frames[l] && frames[k].data != frames[l].data
    {
      var frame := new FrameSegment(mtu, 1);
      frames[i] := frame;
    }
  }

  method NewControllers(mtu: nat, r: nat) returns (sender: ControllerNetwork, receiver: ControllerNetwork)
    requires mtu > HEADER_SIZE && r > 0
    ensures sender.Valid() && receiver.Valid() && receiver.history == [] && Disjoint(sender, receiver)
    ensures sender.Config() == receiver.Config() == Receiver.Config(mtu, r, CONTROLLER_NETWORK_QUEUE_SIZE, BinaryCodec)
    ensures fresh(sender) && fresh(sender.network) && fresh(sender.network.Repr()) && fresh(sender.network.demuxer)
    ensures fresh(receiver) && fresh(receiver.network) && fresh(receiver.network.Repr())
    ensures fresh(receiver.network.demuxer)
  {
    hide After, ValidRun, ControllerNetwork.Valid, Network.Valid;
    sender := new ControllerNetwork(mtu, r);
    receiver := new ControllerNetwork(mtu, r);
  }

  /** Frames that serve two controllers. */
  method NewFramesFor(sender: ControllerNetwork, receiver: ControllerNetwork, mtu: nat, n: nat)
    returns (frames: array<FrameSegment>)
    requires sender.network.S == receiver.network.S == mtu
    ensures sender.network.OutputFrames(frames) && receiver.network.OutputFrames(frames)
    ensures frames.Length == n && fresh(frames) && forall i | 0 <= i < n :: fresh(frames[i]) && fresh(frames[i].data)
  {
    frames := NewFrames(mtu, n);
  }

  /** Buffers for two controllers, made from scratch. */
  method NewBuffers(sender: ControllerNetwork, receiver: ControllerNetwork, mtu: nat, r: nat)
    returns (frames: array<FrameSegment>, output: FrameSegment)
    requires r > 0 && Disjoint(sender, receiver)
    requires sender.network.S == receiver.network.S == mtu && receiver.network.R == r
    ensures Apart(sender, receiver, frames, output)
    ensures frames.Length == r && fresh(frames) && forall i | 0 <= i < r :: fresh(frames[i]) && fresh(frames[i].data)
    ensures fresh(output) && fresh(output.data)
  {
    hide Network.OutputFrames;
    frames := NewFramesFor(sender, receiver, mtu, r);
    output := new FrameSegment(mtu, r);
  }

  /** Whoever makes two controllers can send any payload of up to fifteen segments from one to the other. */
  method BetweenTwo(mtu: nat, r: nat, id: bv32, data: seq<byte>, clock: seq<nat>)
    returns (result: Result<Assembled, ControllerError>)
    requires HEADER_SIZE < mtu <= HEADER_SIZE + 0xFFFF && r > 0
    requires data != [] && |clock| == |Chunks(data, mtu - HEADER_SIZE)| <= r
    requires |clock| <= MAX_SEGMENTS && Steady(clock)
    ensures result == Success(Assembled(id, data))
  {
    hide Chunks, Steady, After, ValidRun, FrameOf, ControllerNetwork.Valid, Network.Valid, Apart;
    var sender, receiver := NewControllers(mtu, r);
    var frames, output := NewBuffers(sender, receiver, mtu, r);
    ChunkCountBound(data, mtu - HEADER_SIZE, r);
    result := SendAndReceive(sender, receiver, id, data, frames, output, clock);
  }
}
