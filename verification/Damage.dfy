/**
 Frames damaged on the way. The receiver never compares a packet with its checksum, so damaged payload bytes
 are handed out; comparing would have been enough to keep them out.
 */
module Damage {
  import opened Bytes
  import opened Wrappers
  import opened Packets
  import opened Coders
  import opened Demuxers
  import opened Slots
  import opened Reassembly
  import opened Receiver
  import opened Conservation
  import opened EndToEnd
  import opened Limits
  import Crc32

  /** The frame of segment `k` with `contents` in the place of its payload, under the header that was sent. */
  ghost predicate CarriesInstead(cfg: Config, sent: Messages, frame: seq<byte>, id: bv32, k: nat, contents: seq<byte>)
    requires cfg.Valid()
  {
    && id in sent.ids
    && var chunks := Chunks(sent.payload(id), cfg.Size());
    && k < |chunks| && |contents| == |chunks[k]|
    && frame == cfg.codec.Encoded(SegmentHeader(id, |chunks|, k, chunks[k]), contents)
  }

  /** At most four consecutive bytes are changed. */
  ghost predicate Scratched(chunk: seq<byte>, contents: seq<byte>) {
    contents == chunk || exists at :: Crc32.DifferInBurst(chunk, contents, at)
  }

  /** What the source's `Packet::validate` would say about the packet, if the receiver asked. */
  ghost predicate Validates(cfg: Config, e: Event)
    requires e.Valid(cfg) && DecodedEvent(cfg, e).Success?
  {
    DecodedEvent(cfg, e).value.Validate()
  }

  lemma DecodedInstead(cfg: Config, sent: Messages, e: Event, id: bv32, k: nat, contents: seq<byte>)
    requires cfg.Valid() && Sendable(sent, cfg.Size(), cfg.R)
    requires e.prior.Valid(cfg.S) && CarriesInstead(cfg, sent, e.frame, id, k, contents)
    ensures e.Valid(cfg)
    ensures
      var chunks, r := Chunks(sent.payload(id), cfg.Size()), DecodedEvent(cfg, e);
      r.Success? && r.value.header == SegmentHeader(id, |chunks|, k, chunks[k]) && r.value.Contents() == contents
  {
    hide Codec.Encoded, Codec.Decoded, Codec.Readable, Codec.MaxPayload;
    var chunks := Chunks(sent.payload(id), cfg.Size());
    var h := SegmentHeader(id, |chunks|, k, chunks[k]);
    RoundTrip(cfg.codec, cfg.S, e.prior, h, contents);
    assert h.OnWire() == h;
  }

  /** Of a segment with up to four changed bytes, exactly the unchanged one is genuine, and validation tells which. */
  lemma GenuineIffValidates(cfg: Config, sent: Messages, e: Event, id: bv32, k: nat, contents: seq<byte>)
    requires cfg.Valid() && Sendable(sent, cfg.Size(), cfg.R)
    requires e.prior.Valid(cfg.S) && CarriesInstead(cfg, sent, e.frame, id, k, contents)
    requires Scratched(Chunks(sent.payload(id), cfg.Size())[k], contents)
    ensures e.Valid(cfg) && DecodedEvent(cfg, e).Success?
    ensures Validates(cfg, e) <==> contents == Chunks(sent.payload(id), cfg.Size())[k]
    ensures Validates(cfg, e) <==> Admissible(cfg, sent, e)
  {
    hide DecodedEvent, Crc32.Checksum;
    var chunk := Chunks(sent.payload(id), cfg.Size())[k];
    DecodedInstead(cfg, sent, e, id, k, contents);
    SegmentFlag(ENCODED | SEGMENTED);
    if contents != chunk {
      var at :| Crc32.DifferInBurst(chunk, contents, at);
      Crc32.BurstDetected(chunk, contents, at);
    }
  }

  /** With the plain coder, damage to the bytes of the frame behind the header is damage to the payload. */
  lemma DamageOnTheAir(cfg: Config, sent: Messages, frame: seq<byte>, id: bv32, k: nat, at: nat)
    requires cfg.Valid() && cfg.codec.BinaryCodec? && id in sent.ids && k < |Chunks(sent.payload(id), cfg.Size())|
    requires Crc32.DifferInBurst(FrameOf(cfg, id, sent.payload(id), k), frame, at) && at >= HEADER_SIZE
    ensures CarriesInstead(cfg, sent, frame, id, k, frame[HEADER_SIZE..])
    ensures Crc32.DifferInBurst(Chunks(sent.payload(id), cfg.Size())[k], frame[HEADER_SIZE..], at - HEADER_SIZE)
  {
    hide PackedHeader;
    var chunks := Chunks(sent.payload(id), cfg.Size());
    var packed := PackedHeader(SegmentHeader(id, |chunks|, k, chunks[k]));
    assert frame[..HEADER_SIZE] == packed;
    assert frame == packed + frame[HEADER_SIZE..];
    forall j | 0 <= j < |chunks[k]| && !(at - HEADER_SIZE <= j < at - HEADER_SIZE + 4)
      ensures chunks[k][j] == frame[HEADER_SIZE..][j]
    {
      assert (packed + chunks[k])[HEADER_SIZE + j] == frame[HEADER_SIZE + j];
    }
  }

  /** A damaged frame is handed out as a message, although its packet does not validate. */
  lemma DamagedFrameHandedOut(cfg: Config, sent: Messages, e: Event, id: bv32, contents: seq<byte>, at: nat)
    requires cfg.Valid() && cfg.Q > 0 && Sendable(sent, cfg.Size(), cfg.R)
    requires e.prior.Valid(cfg.S) && CarriesInstead(cfg, sent, e.frame, id, 0, contents)
    requires |Chunks(sent.payload(id), cfg.Size())| == 1 && Crc32.DifferInBurst(sent.payload(id), contents, at)
    ensures e.Valid(cfg) && ValidRun(cfg, [e]) && DecodedEvent(cfg, e).Success? && !Validates(cfg, e)
    ensures Outcome(cfg, [e], 0) == Success(Assembled(id, contents)) && contents != sent.payload(id)
  {
    hide DecodedEvent, Arrive, Crc32.Checksum;
    assert Chunks(sent.payload(id), cfg.Size())[0] == sent.payload(id);
    DecodedInstead(cfg, sent, e, id, 0, contents);
    GenuineIffValidates(cfg, sent, e, id, 0, contents);
    SegmentFlag(ENCODED | SEGMENTED);
    LonePacket(cfg.S, cfg.R, cfg.Q, e.time, DecodedEvent(cfg, e).value);
    assert [e][..0] == [];
  }

  /** The checksum does not cover the header: under a damaged identifier even a packet that validates is handed out. */
  lemma DamagedIdentifierValidates(cfg: Config, e: Event, id: bv32, other: bv32, payload: seq<byte>)
    requires cfg.Valid() && cfg.Q > 0 && e.prior.Valid(cfg.S)
    requires 0 < |payload| <= cfg.Size() && id != other
    requires e.frame == cfg.codec.Encoded(SegmentHeader(id, 1, 0, payload).(id := other), payload)
    ensures e.Valid(cfg) && ValidRun(cfg, [e]) && DecodedEvent(cfg, e).Success? && Validates(cfg, e)
    ensures Outcome(cfg, [e], 0) == Success(Assembled(other, payload))
  {
    hide Arrive, Crc32.Checksum, Codec.Encoded, Codec.Decoded, Codec.Readable, Codec.MaxPayload;
    var h := SegmentHeader(id, 1, 0, payload).(id := other);
    RoundTrip(cfg.codec, cfg.S, e.prior, h, payload);
    assert h.OnWire() == h;
    SegmentFlag(ENCODED | SEGMENTED);
    LonePacket(cfg.S, cfg.R, cfg.Q, e.time, DecodedEvent(cfg, e).value);
    assert [e][..0] == [];
  }

  // ----- messages of several segments

  /** The pieces are as long as the segments they arrive in the place of. */
  ghost predicate SameLengths(chunks: seq<seq<byte>>, pieces: seq<seq<byte>>) {
    |pieces| == |chunks| && forall k | 0 <= k < |chunks| :: |pieces[k]| == |chunks[k]|
  }

  /**
   Event `j` brings the segment named by `labels[j]`: those of message `id` with the bytes of `pieces`, the others
   as they were sent.
   */
  ghost predicate LabelledInstead(cfg: Config, sent: Messages, events: seq<Event>, labels: seq<Key>,
                                  id: bv32, pieces: seq<seq<byte>>)
    requires cfg.Valid()
  {
    && id in sent.ids && SameLengths(Chunks(sent.payload(id), cfg.Size()), pieces)
    && |labels| == |events|
    && forall j | 0 <= j < |events| ::
        && events[j].prior.Valid(cfg.S)
        && var (x, k) := labels[j];
        if x == id then k < |pieces| && CarriesInstead(cfg, sent, events[j].frame, x, k, pieces[k])
        else Carries(cfg, sent, events[j].frame, x, k)
  }

  /** What the frames amount to: the pieces put together as message `id`, the other messages as they were sent. */
  ghost function Arrived(sent: Messages, id: bv32, pieces: seq<seq<byte>>): (arrived: Messages)
    ensures arrived.ids == sent.ids
    ensures forall x :: arrived.payload(x) == if x == id then Concat(pieces) else sent.payload(x)
  {
    sent.(payload := x => if x == id then Concat(pieces) else sent.payload(x))
  }

  lemma PiecesCut(payload: seq<byte>, size: nat, pieces: seq<seq<byte>>)
    requires size > 0 && SameLengths(Chunks(payload, size), pieces)
    ensures Chunks(Concat(pieces), size) == pieces
    ensures Concat(pieces) == payload <==> pieces == Chunks(payload, size)
  {
    forall k | 0 <= k < |pieces| ensures k + 1 < |pieces| ==> |pieces[k]| == size {
      if k + 1 < |pieces| {
        AllButLastFull(payload, size, k);
      }
    }
    ChunksOfConcat(pieces, size);
    ChunksConcat(payload, size);
  }

  lemma ArrivedSendable(sent: Messages, size: nat, R: nat, id: bv32, pieces: seq<seq<byte>>)
    requires Sendable(sent, size, R) && id in sent.ids && SameLengths(Chunks(sent.payload(id), size), pieces)
    ensures Sendable(Arrived(sent, id, pieces), size, R)
  {
    hide Chunks, Concat;
    PiecesCut(sent.payload(id), size, pieces);
    NoChunks(sent.payload(id), size);
    NoChunks(Concat(pieces), size);
  }

  lemma ArrivedSegment(cfg: Config, sent: Messages, e: Event, id: bv32, k: nat, pieces: seq<seq<byte>>)
    requires cfg.Valid() && Sendable(sent, cfg.Size(), cfg.R) && e.prior.Valid(cfg.S)
    requires id in sent.ids && SameLengths(Chunks(sent.payload(id), cfg.Size()), pieces)
    requires k < |pieces| && CarriesInstead(cfg, sent, e.frame, id, k, pieces[k])
    ensures Brings(cfg, e, (id, k)) && Admissible(cfg, Arrived(sent, id, pieces), e)
  {
    hide DecodedEvent, Codec.Readable, Chunks, Concat, Crc32.Checksum, CarriesInstead;
    DecodedInstead(cfg, sent, e, id, k, pieces[k]);
    PiecesCut(sent.payload(id), cfg.Size(), pieces);
    SegmentFlag(ENCODED | SEGMENTED);
  }

  lemma OtherSegment(cfg: Config, sent: Messages, e: Event, x: bv32, k: nat, id: bv32, pieces: seq<seq<byte>>)
    requires cfg.Valid() && Sendable(sent, cfg.Size(), cfg.R) && e.prior.Valid(cfg.S)
    requires x != id && Carries(cfg, sent, e.frame, x, k)
    ensures Brings(cfg, e, (x, k)) && Admissible(cfg, Arrived(sent, id, pieces), e)
  {
    hide DecodedEvent, Codec.Readable, Chunks, Crc32.Checksum, Carries;
    CarriedSegment(cfg, sent, e, x, k);
  }

  lemma InsteadRun(cfg: Config, sent: Messages, events: seq<Event>, labels: seq<Key>, id: bv32, pieces: seq<seq<byte>>)
    requires cfg.Valid() && Sendable(sent, cfg.Size(), cfg.R)
    requires LabelledInstead(cfg, sent, events, labels, id, pieces)
    ensures Tagged(cfg, events, labels) && AdmissibleRun(cfg, Arrived(sent, id, pieces), events)
  {
    hide DecodedEvent, Admissible, CarriesInstead, FrameOf, Sendable;
    forall j | 0 <= j < |events|
      ensures Brings(cfg, events[j], labels[j]) && Admissible(cfg, Arrived(sent, id, pieces), events[j])
    {
      var (x, k) := labels[j];
      if x == id {
        ArrivedSegment(cfg, sent, events[j], id, k, pieces);
      } else {
        OtherSegment(cfg, sent, events[j], x, k, id, pieces);
      }
    }
    forall j | 0 <= j < |events| ensures events[j].Valid(cfg) {
      assert Brings(cfg, events[j], labels[j]);
    }
  }

  /** Whatever bytes arrive in the place of the segments are handed out as the message. */
  lemma DamagedDelivered(cfg: Config, sent: Messages, events: seq<Event>, labels: seq<Key>,
                         id: bv32, pieces: seq<seq<byte>>)
    requires cfg.Valid() && Sendable(sent, cfg.Size(), cfg.R)
    requires LabelledInstead(cfg, sent, events, labels, id, pieces) && EachOnce(labels, id, |pieces|)
    requires Monotone(events) && CloseTogether(events, labels, id)
    requires ValidRun(cfg, events) && RoomAtFirst(cfg, events, labels, id)
    ensures Tagged(cfg, events, labels)
    ensures Outcome(cfg, events, |events| - 1) == Success(Assembled(id, Concat(pieces)))
  {
    hide Outcome, Tagged, Sendable, CloseTogether, RoomAtFirst, EachOnce, Deliveries, Admissible, CarriesInstead;
    hide Carries, Chunks, Concat;
    InsteadRun(cfg, sent, events, labels, id, pieces);
    ArrivedSendable(sent, cfg.Size(), cfg.R, id, pieces);
    PiecesCut(sent.payload(id), cfg.Size(), pieces);
    TaggedDelivered(cfg, Arrived(sent, id, pieces), events, labels, id);
  }

  /**
   Exactly when damage does not matter. Let up to four consecutive bytes be changed in each segment of a message
   that is received in time. Then the message is handed out intact if and only if each of its packets would have
   passed validation: the check that the receiver leaves out is the one that is needed.
   */
  lemma IntactIffAllValidate(cfg: Config, sent: Messages, events: seq<Event>, labels: seq<Key>,
                             id: bv32, pieces: seq<seq<byte>>)
    requires cfg.Valid() && Sendable(sent, cfg.Size(), cfg.R)
    requires LabelledInstead(cfg, sent, events, labels, id, pieces) && EachOnce(labels, id, |pieces|)
    requires forall k | 0 <= k < |pieces| :: Scratched(Chunks(sent.payload(id), cfg.Size())[k], pieces[k])
    requires Monotone(events) && CloseTogether(events, labels, id)
    requires ValidRun(cfg, events) && RoomAtFirst(cfg, events, labels, id)
    ensures forall j | 0 <= j < |events| :: DecodedEvent(cfg, events[j]).Success?
    ensures Outcome(cfg, events, |events| - 1).Success?
    ensures Outcome(cfg, events, |events| - 1) == Success(Assembled(id, sent.payload(id)))
      <==> forall j | 0 <= j < |events| && labels[j].0 == id :: Validates(cfg, events[j])
  {
    hide DecodedEvent, Outcome, Sendable, CloseTogether, RoomAtFirst, Validates, Scratched, CarriesInstead, Carries;
    DamagedDelivered(cfg, sent, events, labels, id, pieces);
    PiecesCut(sent.payload(id), cfg.Size(), pieces);
    var chunks := Chunks(sent.payload(id), cfg.Size());
    forall j | 0 <= j < |events|
      ensures DecodedEvent(cfg, events[j]).Success?
      ensures labels[j].0 == id ==> (Validates(cfg, events[j]) <==> pieces[labels[j].1] == chunks[labels[j].1])
    {
      assert Brings(cfg, events[j], labels[j]);
      if labels[j].0 == id {
        GenuineIffValidates(cfg, sent, events[j], id, labels[j].1, pieces[labels[j].1]);
      }
    }
    if forall j | 0 <= j < |events| && labels[j].0 == id :: Validates(cfg, events[j]) {
      forall k: nat | k < |pieces| ensures pieces[k] == chunks[k] {
        var j :| 0 <= j < |labels| && labels[j] == (id, k);
      }
    }
  }

  /** In the plainest case: a fresh receiver and the damaged frames of one message, in order and in time. */
  lemma InOrderDamage(cfg: Config, events: seq<Event>, id: bv32, payload: seq<byte>, pieces: seq<seq<byte>>)
    requires cfg.Valid() && cfg.Q > 0 && Steady(Times(events))
    requires 0 < |events| == |Chunks(payload, cfg.Size())| <= cfg.R && |events| <= MAX_SEGMENTS
    requires SameLengths(Chunks(payload, cfg.Size()), pieces)
    requires forall k | 0 <= k < |pieces| :: Scratched(Chunks(payload, cfg.Size())[k], pieces[k])
    requires forall k | 0 <= k < |events| ::
        && events[k].prior.Valid(cfg.S)
        && CarriesInstead(cfg, Messages({id}, _ => payload), events[k].frame, id, k, pieces[k])
    ensures ValidRun(cfg, events) && forall k | 0 <= k < |events| :: DecodedEvent(cfg, events[k]).Success?
    ensures Outcome(cfg, events, |events| - 1) == Success(Assembled(id, Concat(pieces)))
    ensures Concat(pieces) == payload <==> forall k | 0 <= k < |events| :: Validates(cfg, events[k])
  {
    hide DecodedEvent, Outcome, Chunks, Concat, CarriesInstead, Scratched, Validates, Steady, CloseTogether;
    hide Tagged, Admissible, RoomAtFirst, EachOnce;
    var sent, labels := Messages({id}, _ => payload), Labels(id, |events|);
    NoChunks(payload, cfg.Size());
    OrderedLabels(events, labels, id, |events|);
    InsteadRun(cfg, sent, events, labels, id, pieces);
    FirstHasRoom(cfg, events, labels, id);
    DamagedDelivered(cfg, sent, events, labels, id, pieces);
    IntactIffAllValidate(cfg, sent, events, labels, id, pieces);
  }

  // ----- the missing check

  /** Transmitted frames, with up to four payload bytes of each changed. */
  ghost predicate ScratchedRun(cfg: Config, sent: Messages, events: seq<Event>, labels: seq<Key>,
                               contents: seq<seq<byte>>)
    requires cfg.Valid()
  {
    && |labels| == |contents| == |events|
    && forall j | 0 <= j < |events| ::
        && events[j].prior.Valid(cfg.S)
        && CarriesInstead(cfg, sent, events[j].frame, labels[j].0, labels[j].1, contents[j])
        && Scratched(Chunks(sent.payload(labels[j].0), cfg.Size())[labels[j].1], contents[j])
  }

  /** The frames that a receiver would keep if it asked for validation before storing. */
  ghost function Checked(cfg: Config, events: seq<Event>): seq<Event>
    requires ValidRun(cfg, events)
  {
    if events == [] then []
    else
      var n := |events| - 1;
      var keep := DecodedEvent(cfg, events[n]).Success? && Validates(cfg, events[n]);
      Checked(cfg, events[..n]) + if keep then [events[n]] else []
  }

  lemma {:induction false} CheckedAdmissible(cfg: Config, sent: Messages, events: seq<Event>, labels: seq<Key>,
                                             contents: seq<seq<byte>>)
    requires cfg.Valid() && Sendable(sent, cfg.Size(), cfg.R) && ScratchedRun(cfg, sent, events, labels, contents)
    ensures ValidRun(cfg, events) && AdmissibleRun(cfg, sent, Checked(cfg, events))
    ensures AdmissibleRun(cfg, sent, events)
      <==> forall j | 0 <= j < |events| :: DecodedEvent(cfg, events[j]).Success? && Validates(cfg, events[j])
    decreases |events|
  {
    hide DecodedEvent, Sendable, CarriesInstead, Scratched, Validates, Admissible;
    forall j | 0 <= j < |events|
      ensures events[j].Valid(cfg) && DecodedEvent(cfg, events[j]).Success?
      ensures Validates(cfg, events[j]) <==> Admissible(cfg, sent, events[j])
    {
      GenuineIffValidates(cfg, sent, events[j], labels[j].0, labels[j].1, contents[j]);
    }
    if events != [] {
      var n := |events| - 1;
      CheckedAdmissible(cfg, sent, events[..n], labels[..n], contents[..n]);
    }
  }

  /** With the check in place, every message handed out would be one that was sent, in spite of the damage. */
  lemma CheckedSafety(cfg: Config, sent: Messages, events: seq<Event>, labels: seq<Key>,
                      contents: seq<seq<byte>>, i: nat)
    requires cfg.Valid() && Sendable(sent, cfg.Size(), cfg.R) && ScratchedRun(cfg, sent, events, labels, contents)
    requires ValidRun(cfg, events) && i < |Checked(cfg, events)|
    ensures ValidRun(cfg, Checked(cfg, events))
    ensures
      var r := Outcome(cfg, Checked(cfg, events), i);
      r.Success? ==> r.value.id in sent.ids && r.value.payload == sent.payload(r.value.id)
  {
    hide Sendable, Outcome, Checked, Admissible, ScratchedRun;
    CheckedAdmissible(cfg, sent, events, labels, contents);
    Safety(cfg, sent, Checked(cfg, events), i);
  }
}
