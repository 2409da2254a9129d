/**
 Delivery when frames of the message itself are repeated. A repeat that its slot refuses opens another slot, and
 a later segment goes to whichever slot of the message comes first.
 */
module Repeats {
  import opened Wrappers
  import opened Packets
  import opened Demuxers
  import opened Slots
  import opened Reassembly
  import opened Receiver
  import opened Conservation
  import opened Delivery

  ghost predicate IsOfSlot(slot: Slot, id: bv32) {
    0 < slot.count <= |slot.packets| && slot.packets[0].header.id == id
  }

  /** Slot `x` is the first with packets of the message; it holds exactly those in `seen`, the last stored at `last`. */
  ghost predicate Leads(slots: seq<Slot>, x: nat, id: bv32, seen: set<nat>, last: nat) {
    && Counted(slots) && x < |slots| && IsOfSlot(slots[x], id)
    && slots[x].count == |seen| && Numbers(slots[x].packets, slots[x].count) == seen
    && slots[x].lastUpdate == last
    && forall i | 0 <= i < x :: !IsOfSlot(slots[i], id)
  }

  /** A free or expired slot comes before all slots of the message. */
  ghost predicate RoomInFront(slots: seq<Slot>, id: bv32, now: nat) {
    exists i | 0 <= i < |slots| ::
      (slots[i].count == 0 || slots[i].TimedOut(now)) && forall h | 0 <= h <= i :: !IsOfSlot(slots[h], id)
  }

  /** A new segment goes to a slot with all the others: the first of the message, or at the start any with room. */
  ghost predicate Ready(slots: seq<Slot>, id: bv32, seen: set<nat>, now: nat) {
    if seen == {} then HasRoom(slots, now) else exists x, last :: Leads(slots, x, id, seen, last)
  }

  /** Live packets of the message have numbers in `seen`. */
  ghost predicate Within(slots: seq<Slot>, id: bv32, seen: set<nat>) {
    && Counted(slots)
    && forall i, j | 0 <= i < |slots| && 0 <= j < slots[i].count ::
        slots[i].packets[j].header.id == id ==> slots[i].packets[j].header.seqNo in seen
  }

  // ----- only what has been received is in the table

  lemma StoreWithin(slots: seq<Slot>, now: nat, p: Packet, id: bv32, seen: set<nat>, more: set<nat>)
    requires Within(slots, id, seen) && seen <= more
    requires p.header.HasFlag(SEGMENTED) && p.header.id == id ==> p.header.seqNo in more
    ensures Within(Multiplexed(slots, now, p).0, id, more)
  {
  }

  lemma ArriveWithin(slots: seq<Slot>, now: nat, p: Packet, S: nat, R: nat, id: bv32, seen: set<nat>, more: set<nat>)
    requires ValidTable(slots, S, R) && p.Valid(S) && Within(slots, id, seen) && seen <= more
    requires p.header.HasFlag(SEGMENTED) && p.header.id == id ==> p.header.seqNo in more
    ensures Within(Arrive(slots, now, p, S, R).0, id, more)
  {
    hide Multiplexed, AssembledSlot;
    MultiplexedValid(slots, now, p, S, R);
    StoreWithin(slots, now, p, id, seen, more);
  }

  lemma {:induction false} TableWithin(cfg: Config, events: seq<Event>, id: bv32)
    requires ValidRun(cfg, events)
    ensures Within(After(cfg, events), id, Seen(cfg, events, id))
    decreases |events|
  {
    hide DecodedEvent, Arrive, Within;
    if events == [] {
      EmptyWithin(cfg, id);
    } else {
      var n := |events| - 1;
      TableWithin(cfg, events[..n], id);
      SeenGrows(cfg, events, id, n);
      match DecodedEvent(cfg, events[n])
      case Failure(_) =>
        assert Seen(cfg, events, id) == Seen(cfg, events[..n], id);
      case Success(p) =>
        ArriveWithin(After(cfg, events[..n]), events[n].time, p, cfg.S, cfg.R, id,
                     Seen(cfg, events[..n], id), Seen(cfg, events, id));
    }
  }

  lemma EmptyWithin(cfg: Config, id: bv32)
    ensures Within(EmptyTable(cfg.S, cfg.R, cfg.Q), id, {})
  {
  }

  lemma {:induction false} UnseenNotReceived(cfg: Config, events: seq<Event>, id: bv32, k: nat)
    requires ValidRun(cfg, events) && k !in Seen(cfg, events, id)
    ensures Received(cfg, events, (id, k)) == 0
    decreases |events|
  {
    hide DecodedEvent;
    if events != [] {
      UnseenNotReceived(cfg, events[..|events| - 1], id, k);
    }
  }

  /** While a segment is missing the message is not handed out, however often the others arrive. */
  lemma IncompleteNotDelivered(cfg: Config, sent: Messages, events: seq<Event>, id: bv32)
    requires cfg.Valid() && Sendable(sent, cfg.Size(), cfg.R) && AdmissibleRun(cfg, sent, events) && id in sent.ids
    requires Seen(cfg, events, id) != AllSegments(cfg, sent, id)
    ensures Deliveries(cfg, events, id) == 0
  {
    hide Deliveries, Received, Seen;
    SeenWithin(cfg, sent, events, id);
    var k :| k in AllSegments(cfg, sent, id) && k !in Seen(cfg, events, id);
    UnseenNotReceived(cfg, events, id, k);
    DeliveredAtMostAsReceived(cfg, sent, events, id, k);
  }

  // ----- the last missing segment

  lemma SegmentNumbers(sent: Messages, size: nat, p: Packet)
    requires size > 0 && Genuine(sent, size, p)
    ensures p.header.id in sent.ids
    ensures p.header.seqNo < p.header.seqCount == |Chunks(sent.payload(p.header.id), size)|
  {
  }

  lemma LeadComplete(sent: Messages, size: nat, slots: seq<Slot>, x: nat, id: bv32, seen: set<nat>, last: nat)
    requires size > 0 && id in sent.ids && Leads(slots, x, id, seen, last) && GoodSlot(sent, size, slots[x])
    ensures seen <= Below(|Chunks(sent.payload(id), size)|)
    ensures slots[x].CanAssemble() <==> seen == Below(|Chunks(sent.payload(id), size)|)
  {
    hide Chunks, Genuine;
    CompleteCount(sent, size, slots[x]);
    forall k | k in seen ensures k < |Chunks(sent.payload(id), size)| {
      var i :| 0 <= i < slots[x].count && slots[x].packets[i].header.seqNo == k;
      assert slots[x].packets[i].header.id == id;
      SegmentNumbers(sent, size, slots[x].packets[i]);
    }
  }

  lemma LeadJoins(sent: Messages, size: nat, slots: seq<Slot>, p: Packet, S: nat, R: nat,
                  x: nat, seen: set<nat>, last: nat)
    requires Sendable(sent, size, R) && ValidTable(slots, S, R) && GoodTable(sent, size, slots)
    requires Genuine(sent, size, p) && Leads(slots, x, p.header.id, seen, last) && p.header.seqNo !in seen
    ensures slots[x].Joins(p) && FirstJoin(slots, p, 0) == x
  {
    hide Chunks, Genuine;
    var slot := slots[x];
    SegmentNumbers(sent, size, p);
    LeadComplete(sent, size, slots, x, p.header.id, seen, last);
    SubsetSize(seen, Below(p.header.seqCount));
    assert p.header.seqNo in Below(p.header.seqCount);
    assert slot.Valid(S, R) && Coherent(slot);
    forall i | 0 <= i < slot.count
      ensures slot.packets[i].header.id == p.header.id && slot.packets[i].header.seqNo != p.header.seqNo
    {
      assert slot.packets[i].header.seqNo in Numbers(slot.packets, slot.count);
    }
  }

  lemma LeadExtended(slots: seq<Slot>, now: nat, p: Packet, x: nat, seen: set<nat>, last: nat)
    requires Leads(slots, x, p.header.id, seen, last) && p.header.seqNo !in seen && p.header.HasFlag(SEGMENTED)
    requires slots[x].Joins(p) && FirstJoin(slots, p, 0) == x
    ensures
      var stored := Multiplexed(slots, now, p).0;
      stored == slots[x := slots[x].Push(now, p)] && Leads(stored, x, p.header.id, seen + {p.header.seqNo}, now)
  {
    hide Numbers;
    NumbersPush(slots[x], now, p);
  }

  /** A slot that the segment completes by joining was the first of the message and held all the others. */
  lemma JoinedLed(sent: Messages, size: nat, slots: seq<Slot>, now: nat, p: Packet, S: nat, R: nat,
                  c: nat, seen: set<nat>)
    requires Sendable(sent, size, R) && ValidTable(slots, S, R) && GoodTable(sent, size, slots)
    requires Genuine(sent, size, p) && p.header.seqNo !in seen && Within(slots, p.header.id, seen)
    requires c < |slots| && c == FirstJoin(slots, p, 0)
    requires
      var slot := slots[c].Push(now, p);
      Numbers(slot.packets, slot.count) == seen + {p.header.seqNo}
    ensures Leads(slots, c, p.header.id, seen, slots[c].lastUpdate)
  {
    hide Genuine, Numbers, Slot.Accepts;
    var id, k := p.header.id, p.header.seqNo;
    NumbersPush(slots[c], now, p);
    NumbersWithin(slots, c, id, seen);
    var held := Numbers(slots[c].packets, slots[c].count);
    assert held + {k} == seen + {k};
    assert held == seen;
    NumbersDistinct(slots[c].packets, slots[c].count);
    forall i | 0 <= i < c ensures !IsOfSlot(slots[i], id) {
      if IsOfSlot(slots[i], id) {
        EarlierWouldJoin(sent, size, slots, p, S, R, i, seen);
      }
    }
  }

  /** If the segment completes a slot, the table was ready for it. */
  lemma TakerWasReady(sent: Messages, size: nat, slots: seq<Slot>, now: nat, p: Packet, S: nat, R: nat,
                      c: nat, seen: set<nat>)
    requires Sendable(sent, size, R) && ValidTable(slots, S, R) && GoodTable(sent, size, slots) && NoneComplete(slots)
    requires p.header.HasFlag(SEGMENTED) && Genuine(sent, size, p) && p.header.seqNo !in seen
    requires Within(slots, p.header.id, seen)
    requires seen + {p.header.seqNo} == Below(|Chunks(sent.payload(p.header.id), size)|)
    requires GoodTable(sent, size, Multiplexed(slots, now, p).0)
    requires
      var stored := Multiplexed(slots, now, p).0;
      c < |stored| && Counted(stored) && stored[c].CanAssemble() && stored[c].packets[0].header.id == p.header.id
    ensures Ready(slots, p.header.id, seen, now)
  {
    hide Chunks, Genuine, Numbers, Slot.Joins, Slot.Opens, Slot.Accepts, GoodSlot, Leads;
    var stored := Multiplexed(slots, now, p).0;
    assert GoodSlot(sent, size, stored[c]);
    CompleteCount(sent, size, stored[c]);
    if FirstJoin(slots, p, 0) < |slots| {
      assert c == FirstJoin(slots, p, 0);
      JoinedLed(sent, size, slots, now, p, S, R, c, seen);
      assert seen != {} by {
        LeadNotEmpty(slots, c, p.header.id, seen, slots[c].lastUpdate);
      }
    } else {
      assert c == FirstOpen(slots, now, p, 0);
      OneNumber(stored[c].packets);
      OpenedFree(slots[c], now, p);
      assert seen == {};
    }
  }

  lemma LeadNotEmpty(slots: seq<Slot>, x: nat, id: bv32, seen: set<nat>, last: nat)
    requires Leads(slots, x, id, seen, last)
    ensures seen != {}
  {
  }

  lemma OpenedFree(slot: Slot, now: nat, p: Packet)
    requires slot.count <= |slot.packets| && slot.Opens(now, p)
    ensures slot.count == 0 || slot.TimedOut(now)
    ensures slot.Expire(now).count == 0
  {
  }

  lemma NumbersWithin(slots: seq<Slot>, c: nat, id: bv32, seen: set<nat>)
    requires Within(slots, id, seen) && c < |slots| && Coherent(slots[c]) && IsOfSlot(slots[c], id)
    ensures Numbers(slots[c].packets, slots[c].count) <= seen
  {
  }

  /** A slot of the message always has space for a segment that has not been seen. */
  lemma EarlierWouldJoin(sent: Messages, size: nat, slots: seq<Slot>, p: Packet, S: nat, R: nat, i: nat, seen: set<nat>)
    requires Sendable(sent, size, R) && ValidTable(slots, S, R) && GoodTable(sent, size, slots)
    requires Genuine(sent, size, p) && p.header.seqNo !in seen && Within(slots, p.header.id, seen)
    requires i < |slots| && IsOfSlot(slots[i], p.header.id)
    ensures slots[i].Joins(p)
  {
    hide Chunks, Genuine;
    var slot := slots[i];
    SegmentNumbers(sent, size, p);
    CompleteCount(sent, size, slot);
    NumbersWithin(slots, i, p.header.id, seen);
    assert p.header.seqNo in Below(p.header.seqCount) && p.header.seqNo !in Numbers(slot.packets, slot.count);
    assert slot.Valid(S, R);
  }

  /** The arrival of the last missing segment hands the message out exactly if its slot is ready for it. */
  lemma LastMissingArrives(sent: Messages, size: nat, slots: seq<Slot>, now: nat, p: Packet, S: nat, R: nat,
                           seen: set<nat>)
    requires Sendable(sent, size, R) && size <= S && ValidTable(slots, S, R) && p.Valid(S)
    requires GoodTable(sent, size, slots) && NoneComplete(slots) && Within(slots, p.header.id, seen)
    requires p.header.HasFlag(SEGMENTED) && Genuine(sent, size, p) && p.header.seqNo !in seen
    requires seen + {p.header.seqNo} == Below(|Chunks(sent.payload(p.header.id), size)|)
    ensures
      var r := Arrive(slots, now, p, S, R).1;
      && (Ready(slots, p.header.id, seen, now) <==> r.Success? && r.value.id == p.header.id)
      && (r.Success? ==> r.value.payload == sent.payload(r.value.id))
  {
    hide Multiplexed, Processed, Genuine, GoodSlot, Numbers, Chunks, Within;
    var id := p.header.id;
    var stored := Multiplexed(slots, now, p).0;
    MultiplexedValid(slots, now, p, S, R);
    MultiplexGood(sent, size, slots, now, p);
    OnlyTheTakerCompletes(sent, size, slots, now, p);
    ProcessDelivers(sent, size, stored, S, R);
    var r := Processed(stored, S, R).1;
    if Ready(slots, id, seen, now) {
      var c := ReadyCompletes(sent, size, slots, now, p, S, R, seen);
      assert stored[c].CanAssemble();
    }
    if r.Success? && r.value.id == id {
      var c := DeliveredFrom(stored, S, R);
      TakerWasReady(sent, size, slots, now, p, S, R, c, seen);
    }
  }

  lemma DeliveredFrom(slots: seq<Slot>, S: nat, R: nat) returns (c: nat)
    requires ValidTable(slots, S, R) && Processed(slots, S, R).1.Success?
    ensures Counted(slots) && c < |slots| && slots[c].CanAssemble()
    ensures slots[c].packets[0].header.id == Processed(slots, S, R).1.value.id
  {
    c := FirstComplete(slots, 0);
  }

  lemma ReadyCompletes(sent: Messages, size: nat, slots: seq<Slot>, now: nat, p: Packet, S: nat, R: nat,
                       seen: set<nat>) returns (c: nat)
    requires Sendable(sent, size, R) && ValidTable(slots, S, R) && p.Valid(S)
    requires GoodTable(sent, size, slots) && Within(slots, p.header.id, seen)
    requires p.header.HasFlag(SEGMENTED) && Genuine(sent, size, p) && p.header.seqNo !in seen
    requires seen + {p.header.seqNo} == Below(|Chunks(sent.payload(p.header.id), size)|)
    requires Ready(slots, p.header.id, seen, now)
    ensures
      var stored := Multiplexed(slots, now, p).0;
      Counted(stored) && c < |stored| && stored[c].CanAssemble() && stored[c].packets[0].header.id == p.header.id
  {
    hide Multiplexed, Genuine, GoodSlot, Numbers, Chunks, Slot.Joins;
    var id := p.header.id;
    var stored := Multiplexed(slots, now, p).0;
    MultiplexedValid(slots, now, p, S, R);
    MultiplexGood(sent, size, slots, now, p);
    SegmentNumbers(sent, size, p);
    if seen == {} {
      NothingSeen(slots, id);
      EnoughSpace(sent, size, slots, p, S, R);
      StoreFirst(slots, now, p);
      c := FirstOpen(slots, now, p, 0);
      assert {p.header.seqNo} == seen + {p.header.seqNo};
      HeldIncomplete(sent, size, stored, c, id, {p.header.seqNo}, now);
    } else {
      var x, last :| Leads(slots, x, id, seen, last);
      LeadJoins(sent, size, slots, p, S, R, x, seen, last);
      LeadExtended(slots, now, p, x, seen, last);
      c := x;
      LeadComplete(sent, size, stored, x, id, seen + {p.header.seqNo}, now);
    }
  }

  lemma NothingSeen(slots: seq<Slot>, id: bv32)
    requires Within(slots, id, {})
    ensures Absent(slots, id)
  {
  }

  lemma EnoughSpace(sent: Messages, size: nat, slots: seq<Slot>, p: Packet, S: nat, R: nat)
    requires Sendable(sent, size, R) && ValidTable(slots, S, R) && Genuine(sent, size, p)
    ensures forall i | 0 <= i < |slots| :: |slots[i].packets| >= p.header.seqCount && |slots[i].packets| > 0
  {
    forall i | 0 <= i < |slots| ensures |slots[i].packets| == R {
      assert slots[i].Valid(S, R);
    }
  }

  /**
   Exactly when a message is delivered, however often its frames are repeated. When the last missing segment
   arrives, the message is handed out, for the first time, if and only if the first of its slots holds all the
   other segments, or there is room if there are no others.
   */
  lemma DeliveredIffReady(cfg: Config, sent: Messages, events: seq<Event>, id: bv32)
    requires cfg.Valid() && Sendable(sent, cfg.Size(), cfg.R) && AdmissibleRun(cfg, sent, events) && id in sent.ids
    requires events != [] && IsOf(cfg, events[|events| - 1], id)
    requires NumberOf(cfg, events[|events| - 1]) !in Seen(cfg, events[..|events| - 1], id)
    requires Seen(cfg, events, id) == AllSegments(cfg, sent, id)
    ensures
      var n := |events| - 1;
      var ready := Ready(After(cfg, events[..n]), id, Seen(cfg, events[..n], id), events[n].time);
      && (Outcome(cfg, events, n) == Success(Assembled(id, sent.payload(id))) <==> ready)
      && Deliveries(cfg, events, id) == if ready then 1 else 0
  {
    hide DecodedEvent, Arrive, Genuine, Ready, GoodTable, NoneComplete, Within;
    var n := |events| - 1;
    var seen := Seen(cfg, events[..n], id);
    assert Admissible(cfg, sent, events[n]);
    assert NumberOf(cfg, events[n]) in Seen(cfg, events, id);
    IncompleteNotDelivered(cfg, sent, events[..n], id);
    ReachableTables(cfg, sent, events[..n]);
    TableWithin(cfg, events[..n], id);
    SizeWithinFrame(cfg);
    var p := DecodedEvent(cfg, events[n]).value;
    LastMissingArrives(sent, cfg.Size(), After(cfg, events[..n]), events[n].time, p, cfg.S, cfg.R, seen);
  }

  // ----- what a repeat does

  /** Storing leaves the leading slot alone, and in the lead unless a repeat finds room in front of it. */
  lemma StoreBehind(slots: seq<Slot>, now: nat, p: Packet, x: nat, id: bv32, seen: set<nat>, last: nat)
    requires Leads(slots, x, id, seen, last) && Coherent(slots[x]) && !slots[x].TimedOut(now)
    requires p.header.HasFlag(SEGMENTED) && p.header.id == id ==>
      p.header.seqNo in seen && !RoomInFront(slots, id, now)
    ensures
      var stored := Multiplexed(slots, now, p).0;
      Leads(stored, x, id, seen, last) && stored[x] == slots[x]
  {
    hide Numbers;
    if p.header.HasFlag(SEGMENTED) && p.header.id == id {
      RepeatRefused(slots[x], p, seen);
    }
  }

  lemma RepeatRefused(slot: Slot, p: Packet, seen: set<nat>)
    requires slot.count <= |slot.packets| && Numbers(slot.packets, slot.count) == seen && p.header.seqNo in seen
    ensures !slot.Accepts(p)
  {
    var i :| 0 <= i < slot.count && slot.packets[i].header.seqNo == p.header.seqNo;
  }

  lemma LeadKept(slots: seq<Slot>, now: nat, S: nat, R: nat, x: nat, id: bv32, seen: set<nat>, last: nat)
    requires ValidTable(slots, S, R) && Leads(slots, x, id, seen, last)
    requires !slots[x].CanAssemble() && !slots[x].TimedOut(now)
    ensures Leads(ReleasedExpired(Processed(slots, S, R).0, now), x, id, seen, last)
  {
    hide Numbers, AssembledSlot;
  }

  /** Other traffic, and repeats without room in front, leave the message in the lead of its slot. */
  lemma ArriveBehind(sent: Messages, size: nat, slots: seq<Slot>, now: nat, p: Packet, S: nat, R: nat,
                     x: nat, id: bv32, seen: set<nat>, last: nat)
    requires size > 0 && ValidTable(slots, S, R) && p.Valid(S) && GoodTable(sent, size, slots) && NoneComplete(slots)
    requires Leads(slots, x, id, seen, last) && !slots[x].TimedOut(now)
    requires p.header.HasFlag(SEGMENTED) && p.header.id == id ==>
      p.header.seqNo in seen && !RoomInFront(slots, id, now)
    ensures Leads(Arrive(slots, now, p, S, R).0, x, id, seen, last)
  {
    hide Multiplexed, Processed, Numbers, RoomInFront, Genuine;
    MultiplexedValid(slots, now, p, S, R);
    StoreBehind(slots, now, p, x, id, seen, last);
    LeadKept(Multiplexed(slots, now, p).0, now, S, R, x, id, seen, last);
  }

  /** A segment that repeats one of an incomplete message is not the whole message. */
  lemma OneOfMany(sent: Messages, size: nat, slots: seq<Slot>, p: Packet, x: nat, seen: set<nat>, last: nat)
    requires size > 0 && Genuine(sent, size, p) && p.header.seqNo in seen
    requires Holds(slots, x, p.header.id, seen, last) && GoodSlot(sent, size, slots[x]) && !slots[x].CanAssemble()
    ensures p.header.seqCount > 1
  {
    hide Chunks;
    HeldIncomplete(sent, size, slots, x, p.header.id, seen, last);
    SubsetSize(seen, Below(|Chunks(sent.payload(p.header.id), size)|));
  }

  lemma RepeatJoinsNone(slots: seq<Slot>, p: Packet, x: nat, seen: set<nat>, last: nat)
    requires Holds(slots, x, p.header.id, seen, last) && p.header.seqNo in seen
    ensures FirstJoin(slots, p, 0) == |slots|
  {
    hide Numbers, Slot.Accepts;
    RepeatRefused(slots[x], p, seen);
  }

  lemma OpensInFront(slots: seq<Slot>, now: nat, p: Packet)
    requires Counted(slots) && RoomInFront(slots, p.header.id, now)
    requires forall i | 0 <= i < |slots| :: |slots[i].packets| >= p.header.seqCount && |slots[i].packets| > 0
    ensures
      var k := FirstOpen(slots, now, p, 0);
      k < |slots| && forall i | 0 <= i < k :: !IsOfSlot(slots[i], p.header.id)
  {
    var i :| 0 <= i < |slots| && (slots[i].count == 0 || slots[i].TimedOut(now))
             && forall h | 0 <= h <= i :: !IsOfSlot(slots[h], p.header.id);
    assert slots[i].Opens(now, p);
  }

  lemma StoreInFront(slots: seq<Slot>, now: nat, p: Packet, x: nat, seen: set<nat>, last: nat) returns (k: nat)
    requires Holds(slots, x, p.header.id, seen, last) && p.header.seqNo in seen && p.header.HasFlag(SEGMENTED)
    requires forall i | 0 <= i < |slots| :: |slots[i].packets| >= p.header.seqCount && |slots[i].packets| > 0
    requires RoomInFront(slots, p.header.id, now)
    ensures
      var stored := Multiplexed(slots, now, p).0;
      Leads(stored, k, p.header.id, {p.header.seqNo}, now) && stored[k].packets[0] == p
  {
    hide Numbers, RoomInFront, Slot.Joins, Slot.Accepts;
    RepeatJoinsNone(slots, p, x, seen, last);
    OpensInFront(slots, now, p);
    k := FirstOpen(slots, now, p, 0);
    OneNumber(Multiplexed(slots, now, p).0[k].packets);
  }

  /** A repeat that finds room in front of the message opens a slot there and takes over the lead. */
  lemma ArriveInFront(sent: Messages, size: nat, slots: seq<Slot>, now: nat, p: Packet, S: nat, R: nat,
                      x: nat, seen: set<nat>, last: nat)
    returns (k: nat)
    requires Sendable(sent, size, R) && ValidTable(slots, S, R) && p.Valid(S)
    requires GoodTable(sent, size, slots) && NoneComplete(slots)
    requires Holds(slots, x, p.header.id, seen, last)
    requires p.header.HasFlag(SEGMENTED) && Genuine(sent, size, p) && p.header.seqNo in seen
    requires RoomInFront(slots, p.header.id, now)
    ensures Leads(Arrive(slots, now, p, S, R).0, k, p.header.id, {p.header.seqNo}, now)
  {
    hide Multiplexed, Processed, Numbers, GoodSlot, Genuine, RoomInFront;
    MultiplexedValid(slots, now, p, S, R);
    EnoughSpace(sent, size, slots, p, S, R);
    k := StoreInFront(slots, now, p, x, seen, last);
    OneOfMany(sent, size, slots, p, x, seen, last);
    LeadKept(Multiplexed(slots, now, p).0, now, S, R, k, p.header.id, {p.header.seqNo}, now);
  }

  /**
   A repeat spoils the message exactly if it finds a free or expired slot in front of it, unless it repeats the
   only segment so far.
   */
  lemma RepeatSpoilsIff(sent: Messages, size: nat, slots: seq<Slot>, now: nat, p: Packet, S: nat, R: nat,
                        x: nat, seen: set<nat>, last: nat, later: nat)
    requires Sendable(sent, size, R) && ValidTable(slots, S, R) && p.Valid(S)
    requires GoodTable(sent, size, slots) && NoneComplete(slots)
    requires Holds(slots, x, p.header.id, seen, last) && now <= last + TIMEOUT
    requires p.header.HasFlag(SEGMENTED) && Genuine(sent, size, p) && p.header.seqNo in seen
    ensures Ready(Arrive(slots, now, p, S, R).0, p.header.id, seen, later)
      <==> !RoomInFront(slots, p.header.id, now) || seen == {p.header.seqNo}
  {
    hide Arrive, Numbers, RoomInFront, Genuine, GoodSlot, NoneComplete;
    var next := Arrive(slots, now, p, S, R).0;
    if RoomInFront(slots, p.header.id, now) {
      var k := ArriveInFront(sent, size, slots, now, p, S, R, x, seen, last);
      forall y, t | Leads(next, y, p.header.id, seen, t) ensures seen == {p.header.seqNo} {
        assert y == k;
      }
    } else {
      assert Leads(slots, x, p.header.id, seen, last);
      ArriveBehind(sent, size, slots, now, p, S, R, x, p.header.id, seen, last);
    }
  }

  /** So a repeat in between loses a message of which every segment arrived in time. */
  lemma RepeatLosesMessage(sent: Messages, size: nat, slots: seq<Slot>, S: nat, R: nat, x: nat, seen: set<nat>,
                           last: nat, p: Packet, now: nat, q: Packet, later: nat)
    requires Sendable(sent, size, R) && size <= S && ValidTable(slots, S, R) && p.Valid(S) && q.Valid(S)
    requires GoodTable(sent, size, slots) && NoneComplete(slots)
    requires Holds(slots, x, p.header.id, seen, last) && now <= last + TIMEOUT && q.header.id == p.header.id
    requires p.header.HasFlag(SEGMENTED) && Genuine(sent, size, p) && p.header.seqNo in seen
    requires q.header.HasFlag(SEGMENTED) && Genuine(sent, size, q) && q.header.seqNo !in seen
    requires seen + {q.header.seqNo} == Below(|Chunks(sent.payload(q.header.id), size)|)
    ensures ValidTable(Arrive(slots, now, p, S, R).0, S, R)
    ensures
      var r := Arrive(Arrive(slots, now, p, S, R).0, later, q, S, R).1;
      (r == Success(Assembled(q.header.id, sent.payload(q.header.id))))
      <==> (!RoomInFront(slots, q.header.id, now) || seen == {p.header.seqNo})
  {
    hide Arrive, Numbers, RoomInFront, Genuine, GoodSlot, NoneComplete, Ready, Within, Chunks;
    ArriveKeeps(sent, size, slots, now, p, S, R);
    HeldWithin(slots, x, p.header.id, seen, last, sent, size);
    ArriveWithin(slots, now, p, S, R, p.header.id, seen, seen);
    RepeatSpoilsIff(sent, size, slots, now, p, S, R, x, seen, last, later);
    LastMissingArrives(sent, size, Arrive(slots, now, p, S, R).0, later, q, S, R, seen);
  }

  lemma HeldWithin(slots: seq<Slot>, x: nat, id: bv32, seen: set<nat>, last: nat, sent: Messages, size: nat)
    requires size > 0 && Holds(slots, x, id, seen, last) && GoodTable(sent, size, slots)
    ensures Within(slots, id, seen)
  {
    hide Genuine;
    forall i, j | 0 <= i < |slots| && 0 <= j < slots[i].count && slots[i].packets[j].header.id == id
      ensures slots[i].packets[j].header.seqNo in seen
    {
      assert Coherent(slots[i]);
      assert slots[i].packets[0].header.id == id;
      assert i == x;
    }
  }

  // ----- runs with repeats

  /** When the last new segment of the message arrived. */
  ghost function NewestTime(cfg: Config, events: seq<Event>, id: bv32): nat
    requires ValidRun(cfg, events)
  {
    if events == [] then 0
    else
      var n := |events| - 1;
      if IsOf(cfg, events[n], id) && NumberOf(cfg, events[n]) !in Seen(cfg, events[..n], id) then events[n].time
      else NewestTime(cfg, events[..n], id)
  }

  /**
   The event does the message no harm: it is its first segment and finds room, or another new one; or it is a repeat
   without room in front; or a frame of another message; the last two before the slot of the message times out.
   */
  ghost predicate BenignEvent(cfg: Config, slots: seq<Slot>, e: Event, id: bv32, seen: set<nat>, last: nat)
    requires e.Valid(cfg)
  {
    if IsOf(cfg, e, id) && NumberOf(cfg, e) !in seen then
      seen == {} ==> HasRoom(slots, e.time)
    else
      DecodedEvent(cfg, e).Success? && seen != {} ==>
        e.time <= last + TIMEOUT && (IsOf(cfg, e, id) ==> !RoomInFront(slots, id, e.time))
  }

  ghost predicate Benign(cfg: Config, events: seq<Event>, id: bv32, j: nat)
    requires ValidRun(cfg, events) && j < |events|
  {
    BenignEvent(cfg, After(cfg, events[..j]), events[j], id,
                Seen(cfg, events[..j], id), NewestTime(cfg, events[..j], id))
  }

  ghost predicate BenignRun(cfg: Config, events: seq<Event>, id: bv32)
    requires ValidRun(cfg, events)
  {
    forall j | 0 <= j < |events| :: Benign(cfg, events, id, j)
  }

  lemma BenignPrefix(cfg: Config, events: seq<Event>, id: bv32)
    requires ValidRun(cfg, events) && events != [] && BenignRun(cfg, events, id)
    ensures BenignRun(cfg, events[..|events| - 1], id)
  {
    var n := |events| - 1;
    forall j | 0 <= j < n ensures Benign(cfg, events[..n], id, j) {
      assert Benign(cfg, events, id, j);
      assert events[..n][..j] == events[..j];
    }
  }

  /** A new segment that does not complete the message extends it in the lead. */
  lemma ArriveNew(sent: Messages, size: nat, slots: seq<Slot>, now: nat, p: Packet, S: nat, R: nat,
                  seen: set<nat>, x: nat, last: nat) returns (y: nat)
    requires Sendable(sent, size, R) && ValidTable(slots, S, R) && p.Valid(S)
    requires GoodTable(sent, size, slots) && Within(slots, p.header.id, seen)
    requires p.header.HasFlag(SEGMENTED) && Genuine(sent, size, p) && p.header.seqNo !in seen
    requires if seen == {} then HasRoom(slots, now) else Leads(slots, x, p.header.id, seen, last)
    requires seen + {p.header.seqNo} != Below(|Chunks(sent.payload(p.header.id), size)|)
    ensures Leads(Arrive(slots, now, p, S, R).0, y, p.header.id, seen + {p.header.seqNo}, now)
  {
    hide Multiplexed, Processed, Genuine, GoodSlot, Numbers, Chunks, Slot.Joins, Within;
    var id, more := p.header.id, seen + {p.header.seqNo};
    var stored := Multiplexed(slots, now, p).0;
    MultiplexedValid(slots, now, p, S, R);
    MultiplexGood(sent, size, slots, now, p);
    SegmentNumbers(sent, size, p);
    if seen == {} {
      NothingSeen(slots, id);
      EnoughSpace(sent, size, slots, p, S, R);
      StoreFirst(slots, now, p);
      y := FirstOpen(slots, now, p, 0);
      assert {p.header.seqNo} == more;
    } else {
      LeadJoins(sent, size, slots, p, S, R, x, seen, last);
      LeadExtended(slots, now, p, x, seen, last);
      y := x;
    }
    assert Leads(stored, y, id, more, now);
    LeadComplete(sent, size, stored, y, id, more, now);
    LeadKept(stored, now, S, R, y, id, more, now);
  }

  lemma LeadInTime(slots: seq<Slot>, x: nat, id: bv32, seen: set<nat>, last: nat, now: nat)
    requires Leads(slots, x, id, seen, last) && now <= last + TIMEOUT
    ensures x < |slots| && !slots[x].TimedOut(now)
  {
  }

  lemma LeadAfterEvent(cfg: Config, sent: Messages, slots: seq<Slot>, e: Event, id: bv32,
                       seen: set<nat>, last: nat, x: nat) returns (y: nat)
    requires cfg.Valid() && Sendable(sent, cfg.Size(), cfg.R) && ValidTable(slots, cfg.S, cfg.R)
    requires GoodTable(sent, cfg.Size(), slots) && NoneComplete(slots) && Within(slots, id, seen)
    requires e.Valid(cfg) && Admissible(cfg, sent, e) && id in sent.ids
    requires seen != {} ==> Leads(slots, x, id, seen, last)
    requires BenignEvent(cfg, slots, e, id, seen, last)
    requires IsOf(cfg, e, id) ==> seen + {NumberOf(cfg, e)} != AllSegments(cfg, sent, id)
    ensures
      var isNew := IsOf(cfg, e, id) && NumberOf(cfg, e) !in seen;
      var more := if isNew then seen + {NumberOf(cfg, e)} else seen;
      more != {} ==> Leads(Step(cfg, slots, e).0, y, id, more, if isNew then e.time else last)
  {
    hide DecodedEvent, Arrive, Genuine, HasRoom, GoodTable, NoneComplete, Leads, RoomInFront, Within, Chunks;
    y := x;
    if DecodedEvent(cfg, e).Success? {
      var p := DecodedEvent(cfg, e).value;
      if IsOf(cfg, e, id) && p.header.seqNo !in seen {
        y := ArriveNew(sent, cfg.Size(), slots, e.time, p, cfg.S, cfg.R, seen, x, last);
      } else if seen != {} {
        LeadInTime(slots, x, id, seen, last, e.time);
        ArriveBehind(sent, cfg.Size(), slots, e.time, p, cfg.S, cfg.R, x, id, seen, last);
      }
    }
  }

  /** Until it is complete, a message that suffers no harm has all its segments in the first of its slots. */
  lemma {:induction false} StaysInLead(cfg: Config, sent: Messages, events: seq<Event>, id: bv32) returns (x: nat)
    requires cfg.Valid() && Sendable(sent, cfg.Size(), cfg.R) && AdmissibleRun(cfg, sent, events) && id in sent.ids
    requires BenignRun(cfg, events, id) && Seen(cfg, events, id) != AllSegments(cfg, sent, id)
    ensures Seen(cfg, events, id) != {} ==>
      Leads(After(cfg, events), x, id, Seen(cfg, events, id), NewestTime(cfg, events, id))
    decreases |events|
  {
    hide DecodedEvent, Step, BenignEvent, GoodTable, NoneComplete, Leads, Within, AllSegments, Admissible;
    x := 0;
    if events != [] {
      var n := |events| - 1;
      var seen := Seen(cfg, events[..n], id);
      SeenGrows(cfg, events, id, n);
      SeenWithin(cfg, sent, events, id);
      BenignPrefix(cfg, events, id);
      x := StaysInLead(cfg, sent, events[..n], id);
      ReachableTables(cfg, sent, events[..n]);
      TableWithin(cfg, events[..n], id);
      assert Benign(cfg, events, id, n);
      x := LeadAfterEvent(cfg, sent, After(cfg, events[..n]), events[n], id, seen, NewestTime(cfg, events[..n], id), x);
      var isNew := IsOf(cfg, events[n], id) && NumberOf(cfg, events[n]) !in seen;
      assert Seen(cfg, events, id) == if isNew then seen + {NumberOf(cfg, events[n])} else seen;
    }
  }

  /** Repeats do a message no harm as long as they find no room in front of it: it is handed out at its last segment. */
  lemma BenignDelivered(cfg: Config, sent: Messages, events: seq<Event>, id: bv32)
    requires cfg.Valid() && Sendable(sent, cfg.Size(), cfg.R) && AdmissibleRun(cfg, sent, events) && id in sent.ids
    requires events != [] && BenignRun(cfg, events, id) && IsOf(cfg, events[|events| - 1], id)
    requires NumberOf(cfg, events[|events| - 1]) !in Seen(cfg, events[..|events| - 1], id)
    requires Seen(cfg, events, id) == AllSegments(cfg, sent, id)
    ensures Outcome(cfg, events, |events| - 1) == Success(Assembled(id, sent.payload(id)))
    ensures Deliveries(cfg, events, id) == 1
  {
    hide DecodedEvent, Genuine, HasRoom, Leads, RoomInFront, Outcome, Deliveries;
    var n := |events| - 1;
    assert NumberOf(cfg, events[n]) in Seen(cfg, events, id);
    assert Benign(cfg, events, id, n);
    BenignPrefix(cfg, events, id);
    var x := StaysInLead(cfg, sent, events[..n], id);
    DeliveredIffReady(cfg, sent, events, id);
  }
}
