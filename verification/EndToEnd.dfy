/** The delivery guarantee in terms of the frames on the wire and their arrival times alone. */
module EndToEnd {
  import opened Bytes
  import opened Wrappers
  import opened Packets
  import opened Coders
  import opened Demuxers
  import opened Slots
  import opened Reassembly
  import opened Receiver
  import opened Conservation
  import opened Delivery

  ghost predicate Monotone(events: seq<Event>) {
    forall i, j | 0 <= i <= j < |events| :: events[i].time <= events[j].time
  }

  /** No frame of the message arrives between `i` and `j`. */
  ghost predicate NoneBetween(labels: seq<Key>, id: bv32, i: int, j: nat)
    requires j <= |labels|
  {
    forall k | 0 <= k < j && i < k :: labels[k].0 != id
  }

  /** The event decodes to a segment with this identifier and number. */
  ghost predicate Brings(cfg: Config, e: Event, key: Key) {
    && e.Valid(cfg)
    && var r := DecodedEvent(cfg, e);
    && r.Success? && r.value.header.HasFlag(SEGMENTED) && KeyOf(r.value) == key
  }

  ghost predicate Tagged(cfg: Config, events: seq<Event>, labels: seq<Key>) {
    |labels| == |events| && forall j | 0 <= j < |events| :: Brings(cfg, events[j], labels[j])
  }

  /** Transmitted frames are admissible, whichever they are and whatever was in the shared packet. */
  lemma LabelledRun(cfg: Config, sent: Messages, events: seq<Event>, labels: seq<Key>)
    requires cfg.Valid() && Sendable(sent, cfg.Size(), cfg.R) && Labelled(cfg, sent, events, labels)
    ensures AdmissibleRun(cfg, sent, events) && Tagged(cfg, events, labels)
  {
    hide DecodedEvent, FrameOf, Genuine, Codec.Readable;
    forall j | 0 <= j < |events|
      ensures Brings(cfg, events[j], labels[j]) && Admissible(cfg, sent, events[j])
    {
      CarriedSegment(cfg, sent, events[j], labels[j].0, labels[j].1);
    }
  }

  lemma {:induction false} SeenLabels(cfg: Config, events: seq<Event>, labels: seq<Key>, id: bv32, n: nat)
    requires Tagged(cfg, events, labels) && n <= |events|
    ensures ValidRun(cfg, events)
    ensures forall k: nat :: k in Seen(cfg, events[..n], id) <==> exists j | 0 <= j < n :: labels[j] == (id, k)
    decreases n
  {
    hide DecodedEvent;
    if n > 0 {
      SeenLabels(cfg, events, labels, id, n - 1);
      assert events[..n][..n - 1] == events[..n - 1];
      assert Brings(cfg, events[n - 1], labels[n - 1]);
    }
  }

  /** The time at which the message was last extended is that of the last of its frames. */
  lemma {:induction false} LastLabel(cfg: Config, events: seq<Event>, labels: seq<Key>, id: bv32, n: nat)
    returns (i: nat)
    requires Tagged(cfg, events, labels) && n <= |events|
    requires exists j | 0 <= j < n :: labels[j].0 == id
    ensures ValidRun(cfg, events)
    ensures i < n && labels[i].0 == id && NoneBetween(labels, id, i, n)
    ensures LastTime(cfg, events[..n], id) == events[i].time
    decreases n
  {
    hide DecodedEvent;
    assert events[..n][..n - 1] == events[..n - 1];
    assert Brings(cfg, events[n - 1], labels[n - 1]);
    if labels[n - 1].0 == id {
      i := n - 1;
    } else {
      i := LastLabel(cfg, events, labels, id, n - 1);
    }
  }

  /** Every frame of a message arrives once, and the last event is one of them. */
  ghost predicate EachOnce(labels: seq<Key>, id: bv32, count: nat) {
    && labels != [] && labels[|labels| - 1].0 == id
    && (forall i, j | 0 <= i < j < |labels| && labels[i].0 == id :: labels[i] != labels[j])
    && forall k: nat | k < count :: exists j | 0 <= j < |labels| :: labels[j] == (id, k)
  }

  /** Consecutive frames of the message are at most the timeout apart. */
  ghost predicate CloseTogether(events: seq<Event>, labels: seq<Key>, id: bv32)
    requires |labels| == |events|
  {
    forall i, j | 0 <= i < j < |labels| && labels[i].0 == id && labels[j].0 == id && NoneBetween(labels, id, i, j) ::
      events[j].time <= events[i].time + TIMEOUT
  }

  /** Its first frame finds a free or expired slot. */
  ghost predicate RoomAtFirst(cfg: Config, events: seq<Event>, labels: seq<Key>, id: bv32)
    requires ValidRun(cfg, events) && |labels| == |events|
  {
    forall j | 0 <= j < |labels| && labels[j].0 == id && NoneBetween(labels, id, -1, j) ::
      HasRoom(After(cfg, events[..j]), events[j].time)
  }

  /** With a clock that never goes back, the gap to any event is bounded by the gap to the next frame of the message. */
  lemma {:induction false} GapCovers(events: seq<Event>, labels: seq<Key>, id: bv32, i: nat, j: nat)
    requires |labels| == |events| && Monotone(events) && CloseTogether(events, labels, id)
    requires labels != [] && labels[|labels| - 1].0 == id
    requires i < j < |labels| && labels[i].0 == id && NoneBetween(labels, id, i, j)
    ensures events[j].time <= events[i].time + TIMEOUT
    decreases |labels| - j
  {
    if labels[j].0 != id {
      GapCovers(events, labels, id, i, j + 1);
    }
  }

  lemma OwnEventHarmless(cfg: Config, events: seq<Event>, labels: seq<Key>, id: bv32, count: nat, j: nat)
    requires Tagged(cfg, events, labels) && EachOnce(labels, id, count)
    requires ValidRun(cfg, events) && RoomAtFirst(cfg, events, labels, id)
    requires j < |events| && labels[j].0 == id
    ensures Harmless(cfg, events, id, j)
  {
    hide DecodedEvent, HasRoom;
    SeenLabels(cfg, events, labels, id, j);
    assert Brings(cfg, events[j], labels[j]);
    assert labels[j] == (id, labels[j].1);
    if Seen(cfg, events[..j], id) == {} {
      forall k | 0 <= k < j ensures labels[k].0 != id {
        assert labels[k] == (labels[k].0, labels[k].1);
      }
      assert NoneBetween(labels, id, -1, j);
    }
  }

  lemma OtherEventHarmless(cfg: Config, events: seq<Event>, labels: seq<Key>, id: bv32, count: nat, j: nat)
    requires Tagged(cfg, events, labels) && EachOnce(labels, id, count)
    requires ValidRun(cfg, events) && Monotone(events) && CloseTogether(events, labels, id)
    requires j < |events| && labels[j].0 != id
    ensures Harmless(cfg, events, id, j)
  {
    hide DecodedEvent, HasRoom, CloseTogether, Monotone;
    SeenLabels(cfg, events, labels, id, j);
    assert Brings(cfg, events[j], labels[j]);
    if k :| k in Seen(cfg, events[..j], id) {
      var i := LastLabel(cfg, events, labels, id, j);
      GapCovers(events, labels, id, i, j);
    }
  }

  lemma AllSeen(cfg: Config, sent: Messages, events: seq<Event>, labels: seq<Key>, id: bv32)
    requires cfg.Valid() && AdmissibleRun(cfg, sent, events) && Tagged(cfg, events, labels)
    requires id in sent.ids && EachOnce(labels, id, |Chunks(sent.payload(id), cfg.Size())|)
    ensures Seen(cfg, events, id) == AllSegments(cfg, sent, id)
  {
    hide DecodedEvent, IsOf, Seen;
    SeenLabels(cfg, events, labels, id, |events|);
    assert events[..|events|] == events;
    SeenWithin(cfg, sent, events, id);
  }

  /** Delivery in terms of the segments that the frames decode to. */
  lemma TaggedDelivered(cfg: Config, sent: Messages, events: seq<Event>, labels: seq<Key>, id: bv32)
    requires cfg.Valid() && Sendable(sent, cfg.Size(), cfg.R)
    requires AdmissibleRun(cfg, sent, events) && Tagged(cfg, events, labels)
    requires id in sent.ids && EachOnce(labels, id, |Chunks(sent.payload(id), cfg.Size())|)
    requires Monotone(events) && CloseTogether(events, labels, id) && RoomAtFirst(cfg, events, labels, id)
    ensures Outcome(cfg, events, |events| - 1) == Success(Assembled(id, sent.payload(id)))
    ensures Deliveries(cfg, events, id) == 1
  {
    hide DecodedEvent, Harmless, Seen, Outcome, Deliveries, CloseTogether, RoomAtFirst, AllSegments, Sendable;
    forall j | 0 <= j < |events| ensures Harmless(cfg, events, id, j) {
      if labels[j].0 == id {
        OwnEventHarmless(cfg, events, labels, id, |Chunks(sent.payload(id), cfg.Size())|, j);
      } else {
        OtherEventHarmless(cfg, events, labels, id, |Chunks(sent.payload(id), cfg.Size())|, j);
      }
    }
    assert Brings(cfg, events[|events| - 1], labels[|events| - 1]);
    AllSeen(cfg, sent, events, labels, id);
    LastSegmentDelivers(cfg, sent, events, id);
  }

  /**
   End-to-end delivery. Frames of any messages arrive in any order and interleaving; those of other
   messages may be lost or repeated. If every frame of message `id` arrives once, consecutive ones at
   most 500 ms apart, and the first finds room, then the arrival of the last one hands out exactly the
   payload that was sent, and does so for the first and only time.
   */
  lemma Delivered(cfg: Config, sent: Messages, events: seq<Event>, labels: seq<Key>, id: bv32)
    requires cfg.Valid() && Sendable(sent, cfg.Size(), cfg.R) && Labelled(cfg, sent, events, labels)
    requires id in sent.ids && EachOnce(labels, id, |Chunks(sent.payload(id), cfg.Size())|)
    requires Monotone(events) && CloseTogether(events, labels, id)
    requires ValidRun(cfg, events) && RoomAtFirst(cfg, events, labels, id)
    ensures Outcome(cfg, events, |events| - 1) == Success(Assembled(id, sent.payload(id)))
    ensures Deliveries(cfg, events, id) == 1
  {
    hide Carries, Tagged, Outcome, Deliveries, CloseTogether, RoomAtFirst, Sendable, EachOnce;
    LabelledRun(cfg, sent, events, labels);
    TaggedDelivered(cfg, sent, events, labels, id);
  }

  // ----- the plainest case: one message, in order

  /** The frames of one message, in order. */
  ghost predicate InOrder(cfg: Config, events: seq<Event>, id: bv32, payload: seq<byte>)
    requires cfg.codec.Shaped() && 0 < cfg.Size() < 0x1_0000
  {
    && |events| <= |Chunks(payload, cfg.Size())|
    && forall k | 0 <= k < |events| :: events[k].prior.Valid(cfg.S) && events[k].frame == FrameOf(cfg, id, payload, k)
  }

  /** Times that never go back and never pause for longer than the timeout. */
  ghost predicate Steady(times: seq<nat>) {
    && (forall i, j | 0 <= i <= j < |times| :: times[i] <= times[j])
    && forall i | 0 <= i < |times| - 1 :: times[i + 1] <= times[i] + TIMEOUT
  }

  function Times(events: seq<Event>): (times: seq<nat>)
    ensures |times| == |events| && forall k | 0 <= k < |events| :: times[k] == events[k].time
  {
    seq(|events|, k requires 0 <= k < |events| => events[k].time)
  }

  function Labels(id: bv32, n: nat): seq<Key> {
    seq(n, k requires 0 <= k < n => (id, k))
  }

  /** A message received frame by frame, in order and without long pauses, is handed out by a fresh receiver. */
  lemma InOrderDelivery(cfg: Config, events: seq<Event>, id: bv32, payload: seq<byte>)
    requires cfg.Valid() && cfg.Q > 0 && InOrder(cfg, events, id, payload)
    requires events != [] && |events| == |Chunks(payload, cfg.Size())| <= cfg.R && |events| <= MAX_SEGMENTS
    requires Steady(Times(events))
    ensures ValidRun(cfg, events)
    ensures Outcome(cfg, events, |events| - 1) == Success(Assembled(id, payload))
  {
    hide Outcome, FrameOf, Chunks;
    var sent := Messages({id}, _ => payload);
    var n := |events|;
    var labels := Labels(id, n);
    NoChunks(payload, cfg.Size());
    forall k | 0 <= k < n ensures Carries(cfg, sent, events[k].frame, labels[k].0, labels[k].1) {
      assert labels[k] == (id, k);
    }
    LabelledRun(cfg, sent, events, labels);
    OrderedLabels(events, labels, id, n);
    FirstHasRoom(cfg, events, labels, id);
    Delivered(cfg, sent, events, labels, id);
  }

  lemma OrderedLabels(events: seq<Event>, labels: seq<Key>, id: bv32, n: nat)
    requires labels == Labels(id, n) && |events| == n > 0
    requires Steady(Times(events))
    ensures EachOnce(labels, id, n) && Monotone(events) && CloseTogether(events, labels, id)
  {
    var times := Times(events);
    forall k: nat | k < n ensures exists j | 0 <= j < |labels| :: labels[j] == (id, k) {
      assert labels[k] == (id, k);
    }
    forall i, j | 0 <= i < j < n && NoneBetween(labels, id, i, j)
      ensures events[j].time <= events[i].time + TIMEOUT
    {
      assert labels[i + 1].0 == id;
      assert j == i + 1;
      assert times[i + 1] <= times[i] + TIMEOUT;
    }
  }

  lemma FirstHasRoom(cfg: Config, events: seq<Event>, labels: seq<Key>, id: bv32)
    requires ValidRun(cfg, events) && labels == Labels(id, |events|) && cfg.Q > 0
    ensures RoomAtFirst(cfg, events, labels, id)
  {
    forall j | 0 <= j < |labels| && NoneBetween(labels, id, -1, j)
      ensures HasRoom(After(cfg, events[..j]), events[j].time)
    {
      assert labels[0].0 == id;
      assert events[..j] == [];
      assert EmptyTable(cfg.S, cfg.R, cfg.Q)[0].count == 0;
    }
  }
}
