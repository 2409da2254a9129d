/** The controller's network: every frame is received and processed in one step at one time. */
module Controller {
  import opened Bytes
  import opened Wrappers
  import opened Frames
  import opened Packets
  import opened Coders
  import opened PacketCoders
  import opened Demuxers
  import opened Slots
  import opened Receiver
  import opened Reassembly
  import opened Networks
  import opened EndToEnd

  const CONTROLLER_NETWORK_QUEUE_SIZE: nat := 24

  datatype ControllerError =
    | OutOfMemory
    | DecodeError
    | SocketError
    | Timeout
    | MethodError

  /** Callers of the controller cannot tell the errors of the network apart. */
  function FromNetwork<T>(r: Result<T, NetworkError>): Result<T, ControllerError> {
    match r
    case Success(value) => Success(value)
    case Failure(_) => Failure(ControllerError.OutOfMemory)
  }

  class ControllerNetwork {
    const network: Network

    /** The frames received so far, each with what the shared packet held when it came in. */
    ghost var history: seq<Event>

    ghost function Config(): Config {
      network.Config()
    }

    /** The table is always the one a run over the received frames leads to; transmits do not occur in it. */
    ghost predicate Valid()
      reads this, network.demuxer, network.packets, network.muxer, network.muxer.Repr
    {
      && network.Valid() && network.coder.Binary? && network.Q == CONTROLLER_NETWORK_QUEUE_SIZE
      && this !in network.muxer.Repr
      && ValidRun(Config(), history)
      && network.muxer.Model() == After(Config(), history)
    }

    constructor (mtu: nat, r: nat)
      requires mtu > HEADER_SIZE && r > 0
      ensures Valid() && history == [] && network.S == mtu && network.R == r
      ensures Config() == Receiver.Config(mtu, r, 24, BinaryCodec)
      ensures fresh(network) && fresh(network.Repr()) && fresh(network.demuxer)
    {
      var binary := new BinaryPacketCoder();
      network := new Network(mtu, r, CONTROLLER_NETWORK_QUEUE_SIZE, Binary(binary));
      history := [];
    }

    /** Frames shorter than a packet header make the source index out of range. */
    method Receive(now: nat, rxFrame: FrameSegment, outputFrame: FrameSegment)
      returns (r: Result<Assembled, ControllerError>)
      requires Valid() && rxFrame.Valid() && rxFrame.R == 1 && rxFrame.S == network.S
      requires outputFrame.Valid() && outputFrame.S == network.S && outputFrame.R == network.R
      requires {rxFrame, rxFrame.data, outputFrame, outputFrame.data} !! network.Repr() + {network.demuxer}
      requires rxFrame.len >= HEADER_SIZE
      modifies this, network.Repr(), outputFrame, outputFrame.data
      ensures Valid() && network.muxer.Repr == old(network.muxer.Repr) && outputFrame.Valid()
      ensures history == old(history) + [Event(now, old(rxFrame.Contents()), old(network.packets[0]))]
      ensures r == FromNetwork(Outcome(Config(), history, |history| - 1))
      ensures r.Success? ==> outputFrame.Contents() == r.value.payload
    {
      hide After, Outcome, Step, Output;
      ghost var e := Event(now, rxFrame.Contents(), network.packets[0]);
      RunNext(Config(), history, e);
      var packet := ReceiveAndProcess(now, rxFrame, outputFrame);
      history := history + [e];
      r := FromNetwork(packet);
    }

    /** One step of the network: receive and then process, at one time. */
    method ReceiveAndProcess(now: nat, rxFrame: FrameSegment, outputFrame: FrameSegment)
      returns (r: Result<Assembled, NetworkError>)
      requires network.Valid() && network.coder.Binary?
      requires rxFrame.Valid() && rxFrame.R == 1 && rxFrame.S == network.S && rxFrame.len >= HEADER_SIZE
      requires outputFrame.Valid() && outputFrame.S == network.S && outputFrame.R == network.R
      requires {rxFrame, rxFrame.data, outputFrame, outputFrame.data} !! network.Repr() + {network.demuxer}
      modifies network.Repr(), outputFrame, outputFrame.data
      ensures network.Valid() && network.muxer.Repr == old(network.muxer.Repr) && outputFrame.Valid()
      ensures
        var e := Event(now, old(rxFrame.Contents()), old(network.packets[0]));
        e.Valid(Config()) && (network.muxer.Model(), r) == Step(Config(), old(network.muxer.Model()), e)
      ensures r.Success? ==> outputFrame.Contents() == r.value.payload
    {
      hide Output, Multiplexed, Processed, ReleasedExpired;
      var error := network.Receive(now, rxFrame);
      if error.Some? {
        return Failure(error.value);
      }
      r := network.Process(now, outputFrame);
    }

    /** Sending leaves the history, and with it the reassembly table, as it is. */
    method Transmit(id: bv32, data: seq<byte>, outputFrames: array<FrameSegment>)
      returns (r: Result<nat, ControllerError>)
      requires Valid() && network.OutputFrames(outputFrames)
      modifies network.packets, outputFrames[..], set i | 0 <= i < outputFrames.Length :: outputFrames[i].data
      ensures Valid() && history == old(history) && network.OutputFrames(outputFrames)
      ensures
        match network.TransmitError(data, outputFrames.Length)
        case Some(_) => r == Failure(ControllerError.OutOfMemory)
        case None =>
          && r == Success(|Chunks(data, Config().Size())|)
          && forall k | 0 <= k < r.value :: outputFrames[k].Contents() == FrameOf(Config(), id, data, k)
    {
      var count := network.Transmit(id, data, outputFrames);
      r := FromNetwork(count);
    }
  }

  lemma RunNext(cfg: Config, events: seq<Event>, e: Event)
    requires ValidRun(cfg, events) && e.Valid(cfg)
    ensures ValidRun(cfg, events + [e])
    ensures After(cfg, events + [e]) == Step(cfg, After(cfg, events), e).0
    ensures Outcome(cfg, events + [e], |events|) == Step(cfg, After(cfg, events), e).1
  {
    assert (events + [e])[..|events|] == events;
  }

  /**
   What a peer receives is what was sent: once the frames so far are admissible, the next answer of
   `Receive` is a sent message or an error.
   */
  lemma ReceivedIsSent(c: ControllerNetwork, sent: Messages)
    requires c.Valid() && c.Config().Valid() && c.history != []
    requires Sendable(sent, c.Config().Size(), c.network.R) && AdmissibleRun(c.Config(), sent, c.history)
    ensures
      var r := Outcome(c.Config(), c.history, |c.history| - 1);
      r.Success? ==> r.value.id in sent.ids && r.value.payload == sent.payload(r.value.id)
    ensures NoneComplete(c.network.muxer.Model())
  {
    hide Genuine, Outcome, After, Admissible;
    Safety(c.Config(), sent, c.history, |c.history| - 1);
    ReachableTables(c.Config(), sent, c.history);
  }

  /**
   And what was sent is received: if the frames so far bring every segment of message `id` once, close
   together and with room at the first, then the last call of `Receive` returned the message.
   */
  lemma SentIsReceived(c: ControllerNetwork, sent: Messages, labels: seq<(bv32, nat)>, id: bv32)
    requires c.Valid() && c.Config().Valid() && Sendable(sent, c.Config().Size(), c.network.R)
    requires Labelled(c.Config(), sent, c.history, labels)
    requires id in sent.ids && EachOnce(labels, id, |Chunks(sent.payload(id), c.Config().Size())|)
    requires Monotone(c.history) && CloseTogether(c.history, labels, id)
    requires RoomAtFirst(c.Config(), c.history, labels, id)
    ensures c.history != []
    ensures Outcome(c.Config(), c.history, |c.history| - 1) == Success(Assembled(id, sent.payload(id)))
  {
    hide Outcome, Labelled, CloseTogether, RoomAtFirst, Sendable;
    Delivered(c.Config(), sent, c.history, labels, id);
  }
}
