/** Where the delivery guarantees end: long messages and repeated frames. */
module Limits {
  import opened Bytes
  import opened Wrappers
  import opened Frames
  import opened Packets
  import opened Coders
  import opened Demuxers
  import opened Slots
  import opened Reassembly
  import opened Receiver
  import opened Conservation
  import opened Delivery
  import opened EndToEnd

  // ----- messages of sixteen or more segments

  lemma DecodedAsSent(cfg: Config, sent: Messages, e: Event, id: bv32, k: nat)
    requires cfg.Valid() && e.prior.Valid(cfg.S) && Carries(cfg, sent, e.frame, id, k)
    ensures e.Valid(cfg)
    ensures
      var chunks, r := Chunks(sent.payload(id), cfg.Size()), DecodedEvent(cfg, e);
      && r.Success?
      && r.value.header == SegmentHeader(id, |chunks|, k, chunks[k]).OnWire()
      && r.value.Contents() == chunks[k]
  {
    hide Codec.Encoded, Codec.Decoded, Codec.Readable, Codec.MaxPayload;
    var chunks := Chunks(sent.payload(id), cfg.Size());
    RoundTrip(cfg.codec, cfg.S, e.prior, SegmentHeader(id, |chunks|, k, chunks[k]), chunks[k]);
  }

  /** No slot holds anything; the arrays may be full of left-over packets. */
  ghost predicate AllFree(slots: seq<Slot>, S: nat, R: nat) {
    ValidTable(slots, S, R) && |slots| > 0 && forall i | 0 <= i < |slots| :: slots[i].count == 0
  }

  lemma StoredInFreeTable(slots: seq<Slot>, S: nat, R: nat, now: nat, p: Packet)
    requires AllFree(slots, S, R) && p.Valid(S) && R > 0 && p.header.HasFlag(SEGMENTED) && p.header.seqCount <= R
    ensures Multiplexed(slots, now, p).0 == slots[0 := slots[0].Expire(now).Push(now, p)]
  {
    assert slots[0].Opens(now, p);
    assert FirstOpen(slots, now, p, 0) == 0;
    assert FirstJoin(slots, p, 0) == |slots|;
    ExpireFirstSteps(slots, now, 0);
  }

  /**
   A packet that claims to be the whole message is handed out as such. If it is not numbered zero, the packet
   handed out is the left-over one behind it.
   */
  lemma AloneInFreeTable(slots: seq<Slot>, now: nat, p: Packet, S: nat, R: nat)
    requires AllFree(slots, S, R) && p.Valid(S) && R > 0 && p.header.HasFlag(SEGMENTED) && p.header.seqCount <= 1
    requires p.header.seqNo == 0 || (R > 1 && slots[0].packets[1].header.seqNo == 0)
    ensures
      var (next, r) := Arrive(slots, now, p, S, R);
      && AllFree(next, S, R) && |next| == |slots| && next[0].packets == slots[0].packets[0 := p]
      && r == Success(Assembled(p.header.id, (if p.header.seqNo == 0 then p else slots[0].packets[1]).Contents()))
  {
    hide Multiplexed;
    StoredInFreeTable(slots, S, R, now, p);
    MultiplexedValid(slots, now, p, S, R);
    ArriveValid(slots, now, p, S, R);
    var stored := Multiplexed(slots, now, p).0;
    var packets := slots[0].packets[0 := p];
    assert stored[0] == Slot(packets, 1, now);
    assert FirstComplete(stored, 0) == 0;
    var i := if p.header.seqNo == 0 then 0 else 1;
    assert FirstSeq(packets, 0, 0) == i;
    ProductMonotone(S, R);
    assert [] + packets[i].Contents() == packets[i].Contents();
    assert Gather(packets, 0, 1, [], S * R) == Gather(packets, 1, 1, packets[i].Contents(), S * R);
  }

  lemma LonePacket(S: nat, R: nat, Q: nat, now: nat, p: Packet)
    requires p.Valid(S) && R > 0 && Q > 0 && p.header.HasFlag(SEGMENTED)
    requires p.header.seqCount <= 1 && p.header.seqNo == 0
    ensures Arrive(EmptyTable(S, R, Q), now, p, S, R).1 == Success(Assembled(p.header.id, p.Contents()))
  {
    hide Arrive;
    AloneInFreeTable(EmptyTable(S, R, Q), now, p, S, R);
  }

  /**
   The number of segments wraps at sixteen. When it wraps to zero or one, the first frame alone is handed
   out as the whole message.
   */
  lemma WrappedCountTruncates(cfg: Config, sent: Messages, e: Event, id: bv32)
    requires cfg.Valid() && cfg.Q > 0 && e.prior.Valid(cfg.S) && Carries(cfg, sent, e.frame, id, 0)
    requires |Chunks(sent.payload(id), cfg.Size())| >= 16 && |Chunks(sent.payload(id), cfg.Size())| % 16 <= 1
    ensures ValidRun(cfg, [e])
    ensures
      var r := Outcome(cfg, [e], 0);
      && r == Success(Assembled(id, Chunks(sent.payload(id), cfg.Size())[0]))
      && r.value.payload != sent.payload(id)
  {
    hide DecodedEvent, FrameOf, Arrive;
    var chunks := Chunks(sent.payload(id), cfg.Size());
    DecodedAsSent(cfg, sent, e, id, 0);
    SegmentFlag(ENCODED | SEGMENTED);
    LonePacket(cfg.S, cfg.R, cfg.Q, e.time, DecodedEvent(cfg, e).value);
    assert [e][..0] == [];
    assert |chunks[0]| < |sent.payload(id)|;
  }

  /** Live packets have different numbers below sixteen, and no packet of the array is longer than a segment. */
  ghost predicate ShortSlot(slot: Slot, size: nat) {
    && Coherent(slot)
    && (forall i | 0 <= i < slot.count :: slot.packets[i].header.seqNo < 16)
    && forall i | 0 <= i < |slot.packets| :: slot.packets[i].frame.Valid() && |slot.packets[i].Contents()| <= size
  }

  ghost predicate ShortTable(slots: seq<Slot>, size: nat) {
    forall i | 0 <= i < |slots| :: ShortSlot(slots[i], size)
  }

  ghost predicate ShortPacket(p: Packet, size: nat) {
    p.frame.Valid() && |p.Contents()| <= size && p.header.seqNo < 16
  }

  lemma {:induction false} GatherLength(packets: seq<Packet>, k: nat, n: nat, acc: seq<byte>, capacity: nat, size: nat)
    requires forall i | 0 <= i < |packets| :: packets[i].frame.Valid() && |packets[i].Contents()| <= size
    requires k <= n
    ensures |Gather(packets, k, n, acc, capacity).bytes| <= |acc| + (n - k) * size
    decreases n - k
  {
    hide FirstSeq;
    if k < n {
      var i := FirstSeq(packets, k, 0);
      OneMore(n - k, size);
      if i < |packets| && |acc| + |packets[i].Contents()| <= capacity {
        GatherLength(packets, k + 1, n, acc + packets[i].Contents(), capacity, size);
      }
    }
  }

  lemma OneMore(n: nat, size: nat)
    ensures 0 <= n * size
    ensures n > 0 ==> n * size == (n - 1) * size + size && 0 <= (n - 1) * size
  {
  }

  lemma ShortAssembled(slot: Slot, S: nat, R: nat, size: nat)
    requires slot.Valid(S, R) && ShortSlot(slot, size)
    ensures
      var r := AssembledSlot(slot, S, R);
      r.Success? ==> |r.value.payload| <= 16 * size
  {
    hide Gather;
    AllNumbersPresent(slot.packets, slot.count, 16);
    GatherLength(slot.packets, 0, slot.count, [], S * R, size);
    ProductBound(slot.count, 16, size);
  }

  lemma ShortPush(slot: Slot, now: nat, p: Packet, size: nat)
    requires ShortSlot(slot, size) && ShortPacket(p, size) && slot.Accepts(p)
    ensures ShortSlot(slot.Push(now, p), size)
  {
  }

  lemma ShortMultiplex(slots: seq<Slot>, now: nat, p: Packet, size: nat)
    requires ShortTable(slots, size) && ShortPacket(p, size)
    ensures ShortTable(Multiplexed(slots, now, p).0, size)
  {
    hide ShortPacket;
    var i, k := FirstJoin(slots, p, 0), FirstOpen(slots, now, p, 0);
    if p.header.HasFlag(SEGMENTED) {
      if i < |slots| {
        ShortPush(slots[i], now, p, size);
      } else if k < |slots| {
        ShortPush(slots[k].Expire(now), now, p, size);
      }
    }
  }

  lemma ShortArrive(slots: seq<Slot>, now: nat, p: Packet, S: nat, R: nat, size: nat)
    requires ValidTable(slots, S, R) && p.Valid(S) && ShortTable(slots, size) && ShortPacket(p, size)
    ensures ShortTable(Arrive(slots, now, p, S, R).0, size)
    ensures
      var r := Arrive(slots, now, p, S, R).1;
      r.Success? ==> |r.value.payload| <= 16 * size
  {
    hide AssembledSlot, Multiplexed, ShortPacket;
    MultiplexedValid(slots, now, p, S, R);
    ShortMultiplex(slots, now, p, size);
    var stored := Multiplexed(slots, now, p).0;
    var i := FirstComplete(stored, 0);
    if i < |stored| {
      ShortAssembled(stored[i], S, R, size);
    }
  }

  lemma TransmittedValid(cfg: Config, sent: Messages, events: seq<Event>, labels: seq<Key>)
    requires cfg.Valid() && Labelled(cfg, sent, events, labels)
    ensures ValidRun(cfg, events)
    ensures forall j | 0 <= j < |events| ::
        DecodedEvent(cfg, events[j]).Success? && ShortPacket(DecodedEvent(cfg, events[j]).value, cfg.Size())
  {
    hide DecodedEvent, FrameOf, Codec.Readable;
    forall j | 0 <= j < |events|
      ensures events[j].Valid(cfg)
      ensures DecodedEvent(cfg, events[j]).Success? && ShortPacket(DecodedEvent(cfg, events[j]).value, cfg.Size())
    {
      DecodedAsSent(cfg, sent, events[j], labels[j].0, labels[j].1);
    }
  }

  lemma {:induction false} ShortRun(cfg: Config, sent: Messages, events: seq<Event>, labels: seq<Key>)
    requires cfg.Valid() && Labelled(cfg, sent, events, labels)
    ensures ValidRun(cfg, events) && ShortTable(After(cfg, events), cfg.Size())
    decreases |events|
  {
    hide DecodedEvent, Arrive, Carries, ShortPacket;
    TransmittedValid(cfg, sent, events, labels);
    if events != [] {
      var n := |events| - 1;
      ShortRun(cfg, sent, events[..n], labels[..n]);
      var p := DecodedEvent(cfg, events[n]).value;
      ShortArrive(After(cfg, events[..n]), events[n].time, p, cfg.S, cfg.R, cfg.Size());
    }
  }

  /** A message of seventeen segments or more is never handed out intact, in any order of arrival. */
  lemma LongMessageNeverIntact(cfg: Config, sent: Messages, events: seq<Event>, labels: seq<Key>, i: nat, id: bv32)
    requires cfg.Valid() && Labelled(cfg, sent, events, labels) && i < |events|
    requires id in sent.ids && |Chunks(sent.payload(id), cfg.Size())| >= 17
    ensures ValidRun(cfg, events)
    ensures
      var r := Outcome(cfg, events, i);
      r.Success? ==> |r.value.payload| <= 16 * cfg.Size() && r.value.payload != sent.payload(id)
  {
    hide DecodedEvent, Arrive, Carries, ShortPacket;
    TransmittedValid(cfg, sent, events, labels);
    ShortRun(cfg, sent, events[..i], labels[..i]);
    ShortArrive(After(cfg, events[..i]), events[i].time, DecodedEvent(cfg, events[i]).value, cfg.S, cfg.R, cfg.Size());
    ChunkCountBound(sent.payload(id), cfg.Size(), 16);
  }

  // ----- the exact limit for a message received in order

  lemma SeqByteWraps(seqNo: nat, seqCount: nat)
    ensures SeqByte(seqNo % 16, seqCount % 16) == SeqByte(seqNo, seqCount)
  {
    LowNibbleWraps(seqNo);
    LowNibbleWraps(seqCount);
  }

  lemma LowNibbleWraps(n: nat)
    ensures ((n % 16 % 256) as byte) & 0x0F == ((n % 256) as byte) & 0x0F
  {
    NibbleOfNat(n, (n % 256) as byte);
    NibbleOfNat(n % 16, (n % 16 % 256) as byte);
    NatOfByte(((n % 256) as byte) & 0x0F);
    NatOfByte(((n % 16 % 256) as byte) & 0x0F);
  }

  /** A header and what the receiver sees of it are the same bytes. */
  lemma PackedOnWire(h: Header)
    requires h.len < 0x1_0000
    ensures PackedHeader(h.OnWire()) == PackedHeader(h)
  {
    hide SeqByte;
    SeqByteWraps(h.seqNo, h.seqCount);
  }

  /** The first frames of a message of sixteen or more segments are, byte for byte, those of a shorter message. */
  lemma FramesOfPrefix(cfg: Config, id: bv32, payload: seq<byte>, k: nat)
    requires cfg.codec.Shaped() && 0 < cfg.Size() < 0x1_0000
    requires |Chunks(payload, cfg.Size())| >= 16 && k < |Chunks(payload, cfg.Size())| % 16
    ensures
      var chunks := Chunks(payload, cfg.Size());
      var prefix := chunks[..|chunks| % 16];
      && Chunks(Concat(prefix), cfg.Size()) == prefix
      && FrameOf(cfg, id, Concat(prefix), k) == FrameOf(cfg, id, payload, k)
  {
    hide Chunks, Concat, PackedHeader;
    var chunks := Chunks(payload, cfg.Size());
    var n := |chunks|;
    var prefix := chunks[..n % 16];
    forall j | 0 <= j < |prefix| ensures |prefix[j]| == cfg.Size() {
      AllButLastFull(payload, cfg.Size(), j);
    }
    ChunksOfConcat(prefix, cfg.Size());
    var long, short := SegmentHeader(id, n, k, chunks[k]), SegmentHeader(id, n % 16, k, chunks[k]);
    assert long.OnWire() == short.OnWire();
    PackedOnWire(long);
    PackedOnWire(short);
  }

  /** How many frames are taken for the whole message. */
  function CutAt(n: nat): nat {
    if n % 16 == 0 then 1 else n % 16
  }

  lemma OutcomeOfPrefix(cfg: Config, events: seq<Event>, m: nat, i: nat)
    requires ValidRun(cfg, events) && i < m <= |events|
    ensures Outcome(cfg, events[..m], i) == Outcome(cfg, events, i)
  {
    assert events[..m][..i] == events[..i];
  }

  lemma ShorterThanWhole(chunks: seq<seq<byte>>, m: nat)
    requires m < |chunks| && forall k | 0 <= k < |chunks| :: |chunks[k]| > 0
    ensures |Concat(chunks[..m])| < |Concat(chunks)|
  {
    ConcatPrefix(chunks, m);
    ConcatPrefixLength(chunks, m + 1);
  }

  /**
   The cut. Of a message of sixteen or more segments the first frames, as many as the wrapped count says and at
   least one, are handed out as the whole message.
   */
  lemma LongMessageCut(cfg: Config, events: seq<Event>, id: bv32, payload: seq<byte>)
    requires cfg.Valid() && cfg.Q > 0 && InOrder(cfg, events, id, payload) && Steady(Times(events))
    requires 16 <= |Chunks(payload, cfg.Size())| <= cfg.R && |events| >= CutAt(|Chunks(payload, cfg.Size())|)
    ensures ValidRun(cfg, events)
    ensures
      var chunks := Chunks(payload, cfg.Size());
      var m := CutAt(|chunks|);
      && Outcome(cfg, events, m - 1) == Success(Assembled(id, Concat(chunks[..m])))
      && Concat(chunks[..m]) != payload
  {
    hide FrameOf, Outcome, Chunks, Concat, Carries;
    var chunks := Chunks(payload, cfg.Size());
    var n, m := |chunks|, CutAt(|chunks|);
    OnlyMessage(cfg, events, id, payload);
    ChunksConcat(payload, cfg.Size());
    ShorterThanWhole(chunks, m);
    OutcomeOfPrefix(cfg, events, m, m - 1);
    if n % 16 == 0 {
      WrappedCountTruncates(cfg, Messages({id}, _ => payload), events[0], id);
      assert events[..1] == [events[0]];
      assert chunks[..1] == [chunks[0]];
      ConcatOne(chunks[0]);
    } else {
      FramesOfPrefix(cfg, id, payload, 0);
      forall k | 0 <= k < m ensures events[k].frame == FrameOf(cfg, id, Concat(chunks[..m]), k) {
        FramesOfPrefix(cfg, id, payload, k);
      }
      SteadyPrefix(events, m);
      InOrderDelivery(cfg, events[..m], id, Concat(chunks[..m]));
    }
  }

  lemma ConcatOne(chunk: seq<byte>)
    ensures Concat([chunk]) == chunk
  {
  }

  lemma SteadyPrefix(events: seq<Event>, m: nat)
    requires Steady(Times(events)) && m <= |events|
    ensures Steady(Times(events[..m]))
  {
    var times := Times(events);
    forall i | 0 <= i < m - 1 ensures Times(events[..m])[i + 1] <= Times(events[..m])[i] + TIMEOUT {
      assert times[i + 1] <= times[i] + TIMEOUT;
    }
  }

  /** Frames of one message in order are frames of the only message there is. */
  lemma OnlyMessage(cfg: Config, events: seq<Event>, id: bv32, payload: seq<byte>)
    requires cfg.Valid() && InOrder(cfg, events, id, payload)
    ensures Labelled(cfg, Messages({id}, _ => payload), events, Labels(id, |events|)) && ValidRun(cfg, events)
  {
    hide FrameOf, Chunks;
    var sent, labels := Messages({id}, _ => payload), Labels(id, |events|);
    forall k | 0 <= k < |events| ensures Carries(cfg, sent, events[k].frame, labels[k].0, labels[k].1) {
      assert labels[k] == (id, k);
    }
    TransmittedValid(cfg, sent, events, labels);
  }

  /** Before each frame of a message of sixteen segments all slots are free, and the second packet is unused. */
  ghost predicate Untouched(slots: seq<Slot>, S: nat, R: nat) {
    AllFree(slots, S, R) && R > 1 && slots[0].packets[1] == NewPacket(S)
  }

  lemma SixteenthStep(cfg: Config, sent: Messages, slots: seq<Slot>, e: Event, id: bv32, k: nat)
    requires cfg.Valid() && Untouched(slots, cfg.S, cfg.R) && e.prior.Valid(cfg.S)
    requires Carries(cfg, sent, e.frame, id, k) && |Chunks(sent.payload(id), cfg.Size())| == 16
    ensures e.Valid(cfg) && Untouched(Step(cfg, slots, e).0, cfg.S, cfg.R)
    ensures Step(cfg, slots, e).1
         == Success(Assembled(id, if k == 0 then Chunks(sent.payload(id), cfg.Size())[0] else []))
  {
    hide DecodedEvent, FrameOf, Arrive;
    DecodedAsSent(cfg, sent, e, id, k);
    SegmentFlag(ENCODED | SEGMENTED);
    AloneInFreeTable(slots, e.time, DecodedEvent(cfg, e).value, cfg.S, cfg.R);
  }

  /** A message of sixteen segments comes out as its first segment, followed by fifteen empty messages. */
  lemma {:induction false} SixteenFallApart(cfg: Config, events: seq<Event>, id: bv32, payload: seq<byte>, i: nat)
    requires cfg.Valid() && cfg.Q > 0 && cfg.R >= 16 && InOrder(cfg, events, id, payload)
    requires |Chunks(payload, cfg.Size())| == 16 && i <= |events|
    ensures ValidRun(cfg, events) && Untouched(After(cfg, events[..i]), cfg.S, cfg.R)
    ensures i < |events| ==>
      Outcome(cfg, events, i) == Success(Assembled(id, if i == 0 then Chunks(payload, cfg.Size())[0] else []))
  {
    hide FrameOf, Chunks, Step, Carries;
    OnlyMessage(cfg, events, id, payload);
    var sent := Messages({id}, _ => payload);
    if i == 0 {
      assert events[..0] == [];
    } else {
      SixteenFallApart(cfg, events, id, payload, i - 1);
      assert events[..i][..i - 1] == events[..i - 1];
      assert Labels(id, |events|)[i - 1] == (id, i - 1);
      SixteenthStep(cfg, sent, After(cfg, events[..i - 1]), events[i - 1], id, i - 1);
    }
    if i < |events| {
      assert Labels(id, |events|)[i] == (id, i);
      SixteenthStep(cfg, sent, After(cfg, events[..i]), events[i], id, i);
    }
  }

  /**
   The exact limit. A message received in order and in time by a fresh receiver is handed out intact if and only if
   it has at most fifteen segments.
   */
  lemma IntactIff(cfg: Config, events: seq<Event>, id: bv32, payload: seq<byte>)
    requires cfg.Valid() && cfg.Q > 0 && InOrder(cfg, events, id, payload) && Steady(Times(events))
    requires 0 < |events| == |Chunks(payload, cfg.Size())| <= cfg.R
    ensures ValidRun(cfg, events)
    ensures (exists i | 0 <= i < |events| :: Outcome(cfg, events, i) == Success(Assembled(id, payload)))
      <==> |events| <= MAX_SEGMENTS
  {
    hide FrameOf, Outcome, Chunks, Carries;
    OnlyMessage(cfg, events, id, payload);
    if |events| <= MAX_SEGMENTS {
      InOrderDelivery(cfg, events, id, payload);
    } else {
      forall i | 0 <= i < |events| ensures Outcome(cfg, events, i) != Success(Assembled(id, payload)) {
        if |events| == 16 {
          SixteenFallApart(cfg, events, id, payload, i);
          ChunkCountBound(payload, cfg.Size(), 1);
        } else {
          LongMessageNeverIntact(cfg, Messages({id}, _ => payload), events, Labels(id, |events|), i, id);
        }
      }
    }
  }

  // ----- repeated frames

  /** A message of one segment whose frame is repeated is handed out twice: the bound on deliveries is met. */
  lemma RepeatedFrameRedelivers(cfg: Config, sent: Messages, e: Event, f: Event, id: bv32)
    requires cfg.Valid() && cfg.Q > 0 && Sendable(sent, cfg.Size(), cfg.R)
    requires e.prior.Valid(cfg.S) && f.prior.Valid(cfg.S)
    requires Carries(cfg, sent, e.frame, id, 0) && Carries(cfg, sent, f.frame, id, 0)
    requires |Chunks(sent.payload(id), cfg.Size())| == 1
    ensures ValidRun(cfg, [e, f])
    ensures Outcome(cfg, [e, f], 0) == Outcome(cfg, [e, f], 1) == Success(Assembled(id, sent.payload(id)))
  {
    hide DecodedEvent, FrameOf, Arrive, Genuine;
    CarriedSegment(cfg, sent, e, id, 0);
    CarriedSegment(cfg, sent, f, id, 0);
    SizeWithinFrame(cfg);
    var slots := EmptyTable(cfg.S, cfg.R, cfg.Q);
    assert slots[0].count == 0;
    assert {} + {0} == Below(1);
    ArriveSegment(sent, cfg.Size(), slots, e.time, DecodedEvent(cfg, e).value, cfg.S, cfg.R, {}, 0);
    ArriveKeeps(sent, cfg.Size(), slots, e.time, DecodedEvent(cfg, e).value, cfg.S, cfg.R);
    var next := Arrive(slots, e.time, DecodedEvent(cfg, e).value, cfg.S, cfg.R).0;
    RoomAfterDelivery(sent, cfg.Size(), slots, e.time, DecodedEvent(cfg, e).value, cfg.S, cfg.R, f.time);
    ArriveSegment(sent, cfg.Size(), next, f.time, DecodedEvent(cfg, f).value, cfg.S, cfg.R, {}, 0);
    assert [e, f][..0] == [] && [e, f][..1] == [e] && [e][..0] == [];
  }

  /** Handing out a message frees its slot. */
  lemma RoomAfterDelivery(sent: Messages, size: nat, slots: seq<Slot>, now: nat, p: Packet, S: nat, R: nat, later: nat)
    requires ValidTable(slots, S, R) && p.Valid(S) && Arrive(slots, now, p, S, R).1.Success?
    ensures HasRoom(Arrive(slots, now, p, S, R).0, later)
  {
    hide Multiplexed, AssembledSlot;
    MultiplexedValid(slots, now, p, S, R);
    var stored := Multiplexed(slots, now, p).0;
    var i := FirstComplete(stored, 0);
    assert Arrive(slots, now, p, S, R).0[i].count == 0;
  }
}
