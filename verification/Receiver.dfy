/** Whole runs of a receiver: frames arrive one after another, and each may complete a message. */
module Receiver {
  import opened Bytes
  import opened Wrappers
  import opened Packets
  import opened Coders
  import opened Demuxers
  import opened Slots
  import opened Reassembly

  /** `Q` slots for messages of at most `R` segments, frames of `S` bytes. */
  datatype Config = Config(S: nat, R: nat, Q: nat, codec: Codec) {

    /** The segment size is the largest payload the coder can put into a frame. */
    function Size(): nat {
      if S >= codec.HeaderLength() then codec.MaxPayload(S) else 0
    }

    ghost predicate Valid() {
      && codec.Shaped() && codec.Lossless()
      && S >= codec.HeaderLength()
      && 0 < Size() < 0x1_0000
      && R > 0
    }
  }

  /**
   A frame arriving at some time. The packet it is decoded into is shared with the transmit side, so
   it holds whatever earlier calls, receives and transmits alike, have left there.
   */
  datatype Event = Event(time: nat, frame: seq<byte>, prior: Packet) {

    predicate Valid(cfg: Config) {
      prior.Valid(cfg.S) && cfg.codec.Readable(cfg.S, frame)
    }
  }

  function EmptySlot(S: nat, R: nat): Slot {
    Slot(seq(R, _ => NewPacket(S)), 0, 0)
  }

  function EmptyTable(S: nat, R: nat, Q: nat): (slots: seq<Slot>)
    ensures ValidTable(slots, S, R) && |slots| == Q
  {
    seq(Q, _ => EmptySlot(S, R))
  }

  /** Store the packet, hand out a message if one is complete, then drop what has expired. */
  function Arrive(slots: seq<Slot>, now: nat, p: Packet, S: nat, R: nat): (seq<Slot>, Result<Assembled, NetworkError>)
    requires ValidTable(slots, S, R) && p.Valid(S)
  {
    MultiplexedValid(slots, now, p, S, R);
    var (stored, r) := Processed(Multiplexed(slots, now, p).0, S, R);
    (ReleasedExpired(stored, now), r)
  }

  lemma ArriveValid(slots: seq<Slot>, now: nat, p: Packet, S: nat, R: nat)
    requires ValidTable(slots, S, R) && p.Valid(S)
    ensures ValidTable(Arrive(slots, now, p, S, R).0, S, R) && |Arrive(slots, now, p, S, R).0| == |slots|
  {
    MultiplexedValid(slots, now, p, S, R);
    ProcessedValid(Multiplexed(slots, now, p).0, S, R);
    ReleasedExpiredValid(Processed(Multiplexed(slots, now, p).0, S, R).0, now, S, R);
  }

  function DecodedEvent(cfg: Config, e: Event): (r: Result<Packet, NetworkError>)
    requires e.Valid(cfg)
    ensures r.Success? ==> r.value.Valid(cfg.S)
  {
    DecodedValidIf(cfg, e);
    cfg.codec.Decoded(cfg.S, e.prior, e.frame)
  }

  lemma DecodedValidIf(cfg: Config, e: Event)
    requires e.Valid(cfg)
    ensures
      var r := cfg.codec.Decoded(cfg.S, e.prior, e.frame);
      r.Success? ==> r.value.Valid(cfg.S)
  {
    if cfg.codec.Decoded(cfg.S, e.prior, e.frame).Success? {
      DecodedValid(cfg.codec, cfg.S, e.prior, e.frame);
    }
  }

  /** A frame that cannot be decoded is dropped before anything else happens. */
  function Step(cfg: Config, slots: seq<Slot>, e: Event): (r: (seq<Slot>, Result<Assembled, NetworkError>))
    requires ValidTable(slots, cfg.S, cfg.R) && e.Valid(cfg)
    ensures ValidTable(r.0, cfg.S, cfg.R) && |r.0| == |slots|
  {
    match DecodedEvent(cfg, e)
    case Failure(error) => (slots, Failure(error))
    case Success(p) =>
      ArriveValid(slots, e.time, p, cfg.S, cfg.R);
      Arrive(slots, e.time, p, cfg.S, cfg.R)
  }

  predicate ValidRun(cfg: Config, events: seq<Event>) {
    forall i | 0 <= i < |events| :: events[i].Valid(cfg)
  }

  /** The table after a run that started empty. */
  function After(cfg: Config, events: seq<Event>): (slots: seq<Slot>)
    requires ValidRun(cfg, events)
    ensures ValidTable(slots, cfg.S, cfg.R) && |slots| == cfg.Q
  {
    if events == [] then EmptyTable(cfg.S, cfg.R, cfg.Q)
    else Step(cfg, After(cfg, events[..|events| - 1]), events[|events| - 1]).0
  }

  /** What the receiver returned for event `i` of the run. */
  function Outcome(cfg: Config, events: seq<Event>, i: nat): Result<Assembled, NetworkError>
    requires ValidRun(cfg, events) && i < |events|
  {
    Step(cfg, After(cfg, events[..i]), events[i]).1
  }

  // ----- frames that transmitters produce

  /** The frame that carries segment `k` of a message. */
  ghost function FrameOf(cfg: Config, id: bv32, payload: seq<byte>, k: nat): seq<byte>
    requires cfg.codec.Shaped() && 0 < cfg.Size() < 0x1_0000 && k < |Chunks(payload, cfg.Size())|
  {
    var chunks := Chunks(payload, cfg.Size());
    cfg.codec.Encoded(SegmentHeader(id, |chunks|, k, chunks[k]), chunks[k])
  }

  ghost predicate Carries(cfg: Config, sent: Messages, frame: seq<byte>, id: bv32, k: nat)
    requires cfg.Valid()
  {
    id in sent.ids && k < |Chunks(sent.payload(id), cfg.Size())| && frame == FrameOf(cfg, id, sent.payload(id), k)
  }

  /** Event `j` brings the frame of the segment named by `labels[j]`. */
  ghost predicate Labelled(cfg: Config, sent: Messages, events: seq<Event>, labels: seq<(bv32, nat)>)
    requires cfg.Valid()
  {
    && |labels| == |events|
    && forall j | 0 <= j < |events| ::
        events[j].prior.Valid(cfg.S) && Carries(cfg, sent, events[j].frame, labels[j].0, labels[j].1)
  }

  /** Decoding a transmitted frame gives back its segment, whatever the receiving packet held before. */
  lemma CarriedSegment(cfg: Config, sent: Messages, e: Event, id: bv32, k: nat)
    requires cfg.Valid() && Sendable(sent, cfg.Size(), cfg.R)
    requires e.prior.Valid(cfg.S) && Carries(cfg, sent, e.frame, id, k)
    ensures e.Valid(cfg)
    ensures
      var r := DecodedEvent(cfg, e);
      && r.Success? && r.value.header.HasFlag(SEGMENTED) && Genuine(sent, cfg.Size(), r.value)
      && r.value.header.id == id && r.value.header.seqNo == k
  {
    hide Codec.Encoded, Codec.Decoded, Codec.Readable, Codec.MaxPayload;
    var chunks := Chunks(sent.payload(id), cfg.Size());
    var h := SegmentHeader(id, |chunks|, k, chunks[k]);
    RoundTrip(cfg.codec, cfg.S, e.prior, h, chunks[k]);
    assert h.OnWire() == h;
    SegmentFlag(h.flags);
  }

  lemma SegmentFlag(flags: byte)
    requires flags == ENCODED | SEGMENTED
    ensures flags & SEGMENTED != 0
  {
  }

  /**
   What may arrive: a frame that some transmit produced, or any other that decodes to a segment of a sent
   message, whatever its checksum; a frame the coder rejects; or a packet that is not part of a segmented
   message. Loss, reordering and duplication are the choice of events.
   */
  ghost predicate Admissible(cfg: Config, sent: Messages, e: Event)
    requires cfg.Valid() && e.Valid(cfg)
  {
    match DecodedEvent(cfg, e)
    case Failure(_) => true
    case Success(p) => p.header.HasFlag(SEGMENTED) ==> Genuine(sent, cfg.Size(), p)
  }

  ghost predicate AdmissibleRun(cfg: Config, sent: Messages, events: seq<Event>)
    requires cfg.Valid()
  {
    && ValidRun(cfg, events)
    && forall i | 0 <= i < |events| :: Admissible(cfg, sent, events[i])
  }

  // ----- one arrival

  /** At most the slot that took the packet becomes complete. */
  lemma OnlyTheTakerCompletes(sent: Messages, size: nat, slots: seq<Slot>, now: nat, p: Packet)
    requires size > 0 && GoodTable(sent, size, slots) && NoneComplete(slots)
    requires p.header.HasFlag(SEGMENTED) ==> Genuine(sent, size, p)
    ensures
      var stored := Multiplexed(slots, now, p).0;
      && (forall i | 0 <= i < |stored| :: stored[i].count <= |stored[i].packets|)
      && forall i, j | 0 <= i < j < |stored| :: !(stored[i].CanAssemble() && stored[j].CanAssemble())
  {
    hide Genuine;
  }

  /** Processing hands out the complete message, if there is one, and then none is left. */
  lemma ProcessDelivers(sent: Messages, size: nat, slots: seq<Slot>, S: nat, R: nat)
    requires Sendable(sent, size, R) && size <= S && ValidTable(slots, S, R) && GoodTable(sent, size, slots)
    requires forall i, j | 0 <= i < j < |slots| :: !(slots[i].CanAssemble() && slots[j].CanAssemble())
    ensures
      var (stored, r) := Processed(slots, S, R);
      && NoneComplete(stored)
      && (r.Failure? ==> r.error == TryAgain && NoneComplete(slots))
      && (r.Success? ==> r.value.id in sent.ids && r.value.payload == sent.payload(r.value.id))
      && forall i | 0 <= i < |slots| && slots[i].CanAssemble() ::
          slots[i].packets[0].header.id in sent.ids &&
          r == Success(Assembled(slots[i].packets[0].header.id, sent.payload(slots[i].packets[0].header.id)))
  {
    hide Genuine, AssembledSlot, Chunks, Slot.Valid;
    var i := FirstComplete(slots, 0);
    if i < |slots| {
      assert slots[i].Valid(S, R);
      CompleteAssembles(sent, size, slots[i], S, R);
    }
  }

  lemma ArriveKeeps(sent: Messages, size: nat, slots: seq<Slot>, now: nat, p: Packet, S: nat, R: nat)
    requires Sendable(sent, size, R) && size <= S && ValidTable(slots, S, R) && p.Valid(S)
    requires GoodTable(sent, size, slots) && NoneComplete(slots)
    requires p.header.HasFlag(SEGMENTED) ==> Genuine(sent, size, p)
    ensures
      var (next, r) := Arrive(slots, now, p, S, R);
      && ValidTable(next, S, R) && GoodTable(sent, size, next) && NoneComplete(next)
      && (r.Failure? ==> r.error == TryAgain)
      && (r.Success? ==> r.value.id in sent.ids && r.value.payload == sent.payload(r.value.id))
  {
    hide Genuine, Multiplexed, Processed, GoodSlot;
    var stored := Multiplexed(slots, now, p).0;
    MultiplexedValid(slots, now, p, S, R);
    MultiplexGood(sent, size, slots, now, p);
    OnlyTheTakerCompletes(sent, size, slots, now, p);
    ProcessDelivers(sent, size, stored, S, R);
    ProcessedValid(stored, S, R);
    ProcessGood(sent, size, stored, S, R);
    ExpiredGood(sent, size, Processed(stored, S, R).0, now);
    ArriveValid(slots, now, p, S, R);
  }

  // ----- whole runs

  /** In every reachable table the slots hold genuine segments and no finished message is left behind. */
  lemma {:induction false} ReachableTables(cfg: Config, sent: Messages, events: seq<Event>)
    requires cfg.Valid() && Sendable(sent, cfg.Size(), cfg.R) && AdmissibleRun(cfg, sent, events)
    ensures GoodTable(sent, cfg.Size(), After(cfg, events)) && NoneComplete(After(cfg, events))
    decreases |events|
  {
    hide Genuine, Arrive, Codec.Decoded, Codec.Readable;
    if events != [] {
      var n := |events| - 1;
      ReachableTables(cfg, sent, events[..n]);
      match DecodedEvent(cfg, events[n])
      case Failure(_) =>
      case Success(p) =>
        SizeWithinFrame(cfg);
        ArriveKeeps(sent, cfg.Size(), After(cfg, events[..n]), events[n].time, p, cfg.S, cfg.R);
    }
  }

  lemma SizeWithinFrame(cfg: Config)
    requires cfg.Valid()
    ensures cfg.Size() <= cfg.S
  {
  }

  /**
   Safety: whatever is lost, repeated, reordered or expires, every message handed out is one that was
   sent under that identifier, byte for byte. The only other answer to a decodable frame is TryAgain.
   */
  lemma Safety(cfg: Config, sent: Messages, events: seq<Event>, i: nat)
    requires cfg.Valid() && Sendable(sent, cfg.Size(), cfg.R) && AdmissibleRun(cfg, sent, events) && i < |events|
    ensures
      match Outcome(cfg, events, i)
      case Success(m) => m.id in sent.ids && m.payload == sent.payload(m.id)
      case Failure(e) => DecodedEvent(cfg, events[i]) == Failure(e) || e == TryAgain
  {
    hide Genuine, Arrive, Codec.Decoded, Codec.Readable;
    ReachableTables(cfg, sent, events[..i]);
    match DecodedEvent(cfg, events[i])
    case Failure(_) =>
    case Success(p) =>
      SizeWithinFrame(cfg);
      ArriveKeeps(sent, cfg.Size(), After(cfg, events[..i]), events[i].time, p, cfg.S, cfg.R);
  }
}
