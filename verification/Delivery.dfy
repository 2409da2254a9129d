/** When a message is delivered: following one message through a run. */
module Delivery {
  import opened Wrappers
  import opened Packets
  import opened Demuxers
  import opened Slots
  import opened Reassembly
  import opened Receiver
  import opened Conservation

  /** No slot holds a packet of the message. */
  ghost predicate Absent(slots: seq<Slot>, id: bv32) {
    Counted(slots) && forall i | 0 <= i < |slots| && slots[i].count > 0 :: slots[i].packets[0].header.id != id
  }

  /** Slot `x`, and no other, holds the message: exactly the segments in `seen`, last extended at `last`. */
  ghost predicate Holds(slots: seq<Slot>, x: nat, id: bv32, seen: set<nat>, last: nat) {
    && Counted(slots) && x < |slots|
    && slots[x].count == |seen| > 0
    && slots[x].packets[0].header.id == id
    && Numbers(slots[x].packets, slots[x].count) == seen
    && slots[x].lastUpdate == last
    && forall i | 0 <= i < |slots| && i != x && slots[i].count > 0 :: slots[i].packets[0].header.id != id
  }

  /** A slot that is free or expired. */
  ghost predicate HasRoom(slots: seq<Slot>, now: nat) {
    exists i | 0 <= i < |slots| :: slots[i].count == 0 || slots[i].TimedOut(now)
  }

  // ----- storing

  lemma {:induction false} NumbersSame(p: seq<Packet>, q: seq<Packet>, n: nat)
    requires n <= |p| && n <= |q| && forall i | 0 <= i < n :: p[i] == q[i]
    ensures Numbers(p, n) == Numbers(q, n)
  {
    if n > 0 {
      NumbersSame(p, q, n - 1);
    }
  }

  lemma StoreOther(slots: seq<Slot>, now: nat, p: Packet, x: nat, id: bv32, seen: set<nat>, last: nat)
    requires Holds(slots, x, id, seen, last) && !slots[x].TimedOut(now)
    requires p.header.HasFlag(SEGMENTED) ==> p.header.id != id
    ensures
      var stored := Multiplexed(slots, now, p).0;
      Holds(stored, x, id, seen, last) && stored[x] == slots[x]
  {
    hide Numbers;
  }

  lemma StoreOtherAbsent(slots: seq<Slot>, now: nat, p: Packet, id: bv32)
    requires Absent(slots, id)
    requires p.header.HasFlag(SEGMENTED) ==> p.header.id != id
    ensures Absent(Multiplexed(slots, now, p).0, id)
  {
  }

  lemma StoreFirst(slots: seq<Slot>, now: nat, p: Packet)
    requires Absent(slots, p.header.id) && HasRoom(slots, now) && p.header.HasFlag(SEGMENTED)
    requires forall i | 0 <= i < |slots| :: |slots[i].packets| >= p.header.seqCount && |slots[i].packets| > 0
    ensures
      var k := FirstOpen(slots, now, p, 0);
      var stored := Multiplexed(slots, now, p).0;
      && Holds(stored, k, p.header.id, {p.header.seqNo}, now)
      && forall i | 0 <= i < |slots| && i != k :: stored[i] == slots[i] || stored[i] == slots[i].Expire(now)
  {
    hide Numbers;
    var k := FirstOpen(slots, now, p, 0);
    var room :| 0 <= room < |slots| && (slots[room].count == 0 || slots[room].TimedOut(now));
    assert slots[room].Opens(now, p);
    var slot := slots[k].Expire(now).Push(now, p);
    assert Multiplexed(slots, now, p).0[k] == slot;
    OneNumber(slot.packets);
  }

  lemma OneNumber(packets: seq<Packet>)
    requires |packets| > 0
    ensures Numbers(packets, 1) == {packets[0].header.seqNo}
  {
    assert Numbers(packets, 0) == {};
  }

  lemma NextJoins(slots: seq<Slot>, p: Packet, x: nat, seen: set<nat>, last: nat)
    requires Holds(slots, x, p.header.id, seen, last) && p.header.seqNo !in seen
    requires Coherent(slots[x]) && |seen| < |slots[x].packets| && p.header.seqCount <= |slots[x].packets|
    ensures slots[x].Joins(p) && FirstJoin(slots, p, 0) == x
  {
    var slot := slots[x];
    forall i | 0 <= i < slot.count
      ensures slot.packets[i].header.id == p.header.id && slot.packets[i].header.seqNo != p.header.seqNo
    {
      assert slot.packets[i].header.seqNo in Numbers(slot.packets, slot.count);
    }
  }

  lemma NumbersPush(slot: Slot, now: nat, p: Packet)
    requires slot.count < |slot.packets|
    ensures Numbers(slot.Push(now, p).packets, slot.count + 1) == Numbers(slot.packets, slot.count) + {p.header.seqNo}
  {
    var packets := slot.Push(now, p).packets;
    NumbersSame(slot.packets, packets, slot.count);
    assert packets[slot.count].header.seqNo == p.header.seqNo;
    assert Numbers(packets, slot.count + 1) == Numbers(packets, slot.count) + {packets[slot.count].header.seqNo};
  }

  lemma StoreNext(slots: seq<Slot>, now: nat, p: Packet, x: nat, seen: set<nat>, last: nat)
    requires Holds(slots, x, p.header.id, seen, last) && p.header.seqNo !in seen && p.header.HasFlag(SEGMENTED)
    requires Coherent(slots[x]) && |seen| < |slots[x].packets| && p.header.seqCount <= |slots[x].packets|
    ensures
      var stored := Multiplexed(slots, now, p).0;
      && stored == slots[x := slots[x].Push(now, p)]
      && Holds(stored, x, p.header.id, seen + {p.header.seqNo}, now)
  {
    hide Numbers, Slot.Accepts;
    NextJoins(slots, p, x, seen, last);
    NumbersPush(slots[x], now, p);
  }

  // ----- processing

  lemma ProcessOther(slots: seq<Slot>, S: nat, R: nat, x: nat, id: bv32, seen: set<nat>, last: nat)
    requires ValidTable(slots, S, R) && Holds(slots, x, id, seen, last) && !slots[x].CanAssemble()
    ensures Holds(Processed(slots, S, R).0, x, id, seen, last)
  {
    hide Numbers, AssembledSlot;
  }

  lemma ProcessAbsent(slots: seq<Slot>, S: nat, R: nat, id: bv32)
    requires ValidTable(slots, S, R) && Absent(slots, id)
    ensures Absent(Processed(slots, S, R).0, id)
  {
    hide AssembledSlot;
  }

  lemma ExpireOther(slots: seq<Slot>, now: nat, x: nat, id: bv32, seen: set<nat>, last: nat)
    requires Holds(slots, x, id, seen, last) && !slots[x].TimedOut(now)
    ensures Holds(ReleasedExpired(slots, now), x, id, seen, last)
  {
    hide Numbers;
  }

  lemma ExpireAbsent(slots: seq<Slot>, now: nat, id: bv32)
    requires Absent(slots, id)
    ensures Absent(ReleasedExpired(slots, now), id)
  {
  }

  // ----- one arrival

  /** The table holds exactly the segments in `seen`, in one slot. */
  ghost predicate Tracks(slots: seq<Slot>, id: bv32, seen: set<nat>, last: nat) {
    if seen == {} then Absent(slots, id) else exists x :: Holds(slots, x, id, seen, last)
  }

  lemma OtherNotDelivered(sent: Messages, size: nat, slots: seq<Slot>, S: nat, R: nat, id: bv32)
    requires Sendable(sent, size, R) && size <= S && ValidTable(slots, S, R) && GoodTable(sent, size, slots)
    requires forall i | 0 <= i < |slots| && slots[i].CanAssemble() :: slots[i].packets[0].header.id != id
    ensures
      var r := Processed(slots, S, R).1;
      r.Success? ==> r.value.id != id
  {
    hide Genuine, AssembledSlot, Slot.Valid;
    var i := FirstComplete(slots, 0);
    if i < |slots| {
      assert slots[i].Valid(S, R);
      CompleteAssembles(sent, size, slots[i], S, R);
    }
  }

  lemma HeldIncomplete(sent: Messages, size: nat, slots: seq<Slot>, x: nat, id: bv32, seen: set<nat>, last: nat)
    requires size > 0 && id in sent.ids && Holds(slots, x, id, seen, last) && GoodSlot(sent, size, slots[x])
    ensures seen <= Below(|Chunks(sent.payload(id), size)|)
    ensures slots[x].CanAssemble() <==> seen == Below(|Chunks(sent.payload(id), size)|)
  {
    var n := |Chunks(sent.payload(id), size)|;
    CompleteCount(sent, size, slots[x]);
    forall k | k in seen ensures k < n {
      var i :| 0 <= i < slots[x].count && slots[x].packets[i].header.seqNo == k;
      assert Genuine(sent, size, slots[x].packets[i]);
    }
  }

  /** Traffic of other messages leaves this one alone, as long as its slot has not timed out. */
  lemma ArriveOther(sent: Messages, size: nat, slots: seq<Slot>, now: nat, p: Packet, S: nat, R: nat,
                    id: bv32, seen: set<nat>, last: nat)
    requires Sendable(sent, size, R) && size <= S && ValidTable(slots, S, R) && p.Valid(S)
    requires GoodTable(sent, size, slots) && NoneComplete(slots)
    requires p.header.HasFlag(SEGMENTED) ==> Genuine(sent, size, p) && p.header.id != id
    requires id in sent.ids && Tracks(slots, id, seen, last) && (seen != {} ==> now <= last + TIMEOUT)
    ensures
      var (next, r) := Arrive(slots, now, p, S, R);
      Tracks(next, id, seen, last) && (r.Success? ==> r.value.id != id)
  {
    hide Genuine, Multiplexed, Processed, ExpireFirst, Numbers, GoodSlot;
    var stored := Multiplexed(slots, now, p).0;
    MultiplexedValid(slots, now, p, S, R);
    MultiplexGood(sent, size, slots, now, p);
    ProcessedValid(stored, S, R);
    var kept := Processed(stored, S, R).0;
    if seen == {} {
      StoreOtherAbsent(slots, now, p, id);
      ProcessAbsent(stored, S, R, id);
      ExpireAbsent(kept, now, id);
    } else {
      var x :| Holds(slots, x, id, seen, last);
      StoreOther(slots, now, p, x, id, seen, last);
      ProcessOther(stored, S, R, x, id, seen, last);
      ExpireOther(kept, now, x, id, seen, last);
    }
    OtherNotDelivered(sent, size, stored, S, R, id);
  }

  /** What follows once the segment is stored in slot `x` and no other slot is complete. */
  lemma AfterStoring(sent: Messages, size: nat, stored: seq<Slot>, now: nat, S: nat, R: nat,
                     x: nat, id: bv32, seen: set<nat>)
    requires Sendable(sent, size, R) && size <= S && ValidTable(stored, S, R) && GoodTable(sent, size, stored)
    requires id in sent.ids && Holds(stored, x, id, seen, now)
    requires forall i | 0 <= i < |stored| && i != x :: !stored[i].CanAssemble()
    ensures
      var (kept, r) := Processed(stored, S, R);
      if seen == Below(|Chunks(sent.payload(id), size)|) then
        r == Success(Assembled(id, sent.payload(id))) && Absent(ReleasedExpired(kept, now), id)
      else
        r == Failure(TryAgain) && Holds(ReleasedExpired(kept, now), x, id, seen, now)
  {
    hide Genuine, GoodSlot, Numbers, AssembledSlot, ExpireFirst;
    HeldIncomplete(sent, size, stored, x, id, seen, now);
    var kept := Processed(stored, S, R).0;
    if seen == Below(|Chunks(sent.payload(id), size)|) {
      assert FirstComplete(stored, 0) == x;
      CompleteAssembles(sent, size, stored[x], S, R);
      ExpireAbsent(kept, now, id);
    } else {
      assert FirstComplete(stored, 0) == |stored|;
      ExpireOther(kept, now, x, id, seen, now);
    }
  }

  ghost predicate OthersIncomplete(slots: seq<Slot>, x: nat)
    requires Counted(slots)
  {
    forall i | 0 <= i < |slots| && i != x :: !slots[i].CanAssemble()
  }

  lemma StoreSegment(sent: Messages, size: nat, slots: seq<Slot>, now: nat, p: Packet, S: nat, R: nat,
                     seen: set<nat>, last: nat) returns (x: nat)
    requires Sendable(sent, size, R) && ValidTable(slots, S, R) && p.Valid(S)
    requires GoodTable(sent, size, slots) && NoneComplete(slots)
    requires p.header.HasFlag(SEGMENTED) && Genuine(sent, size, p) && p.header.seqNo !in seen
    requires Tracks(slots, p.header.id, seen, last) && (seen == {} ==> HasRoom(slots, now))
    ensures
      var stored := Multiplexed(slots, now, p).0;
      Holds(stored, x, p.header.id, seen + {p.header.seqNo}, now) && OthersIncomplete(stored, x)
  {
    hide Multiplexed, Numbers, GoodSlot;
    MultiplexedValid(slots, now, p, S, R);
    if seen == {} {
      StoreFirst(slots, now, p);
      x := FirstOpen(slots, now, p, 0);
      assert {p.header.seqNo} == seen + {p.header.seqNo};
    } else {
      x :| Holds(slots, x, p.header.id, seen, last);
      SlotHasSpace(sent, size, slots, x, p, seen, last);
      StoreNext(slots, now, p, x, seen, last);
    }
  }

  /** A segment not seen before extends the message, and the one that completes it delivers it. */
  lemma ArriveSegment(sent: Messages, size: nat, slots: seq<Slot>, now: nat, p: Packet, S: nat, R: nat,
                      seen: set<nat>, last: nat)
    requires Sendable(sent, size, R) && size <= S && ValidTable(slots, S, R) && p.Valid(S)
    requires GoodTable(sent, size, slots) && NoneComplete(slots)
    requires p.header.HasFlag(SEGMENTED) && Genuine(sent, size, p) && p.header.seqNo !in seen
    requires Tracks(slots, p.header.id, seen, last) && (seen == {} ==> HasRoom(slots, now))
    ensures
      var id, after := p.header.id, seen + {p.header.seqNo};
      var (next, r) := Arrive(slots, now, p, S, R);
      if after == Below(|Chunks(sent.payload(id), size)|) then
        r == Success(Assembled(id, sent.payload(id))) && Absent(next, id)
      else
        r == Failure(TryAgain) && Tracks(next, id, after, now)
  {
    hide Multiplexed, Processed, ExpireFirst, Numbers, GoodSlot;
    var x := StoreSegment(sent, size, slots, now, p, S, R, seen, last);
    MultiplexedValid(slots, now, p, S, R);
    MultiplexGood(sent, size, slots, now, p);
    AfterStoring(sent, size, Multiplexed(slots, now, p).0, now, S, R, x, p.header.id, seen + {p.header.seqNo});
  }

  lemma SlotHasSpace(sent: Messages, size: nat, slots: seq<Slot>, x: nat, p: Packet, seen: set<nat>, last: nat)
    requires size > 0 && Genuine(sent, size, p) && p.header.seqNo !in seen
    requires Holds(slots, x, p.header.id, seen, last) && GoodSlot(sent, size, slots[x])
    ensures Coherent(slots[x]) && |seen| < |Chunks(sent.payload(p.header.id), size)|
  {
    HeldIncomplete(sent, size, slots, x, p.header.id, seen, last);
    var all := Below(|Chunks(sent.payload(p.header.id), size)|);
    SubsetSize(seen, all);
    assert p.header.seqNo in all;
  }

  // ----- runs

  ghost predicate IsOf(cfg: Config, e: Event, id: bv32)
    requires e.Valid(cfg)
  {
    var r := DecodedEvent(cfg, e);
    r.Success? && r.value.header.HasFlag(SEGMENTED) && r.value.header.id == id
  }

  ghost function NumberOf(cfg: Config, e: Event): nat
    requires e.Valid(cfg) && DecodedEvent(cfg, e).Success?
  {
    DecodedEvent(cfg, e).value.header.seqNo
  }

  /** The segments of the message that have arrived. */
  ghost function Seen(cfg: Config, events: seq<Event>, id: bv32): set<nat>
    requires ValidRun(cfg, events)
  {
    if events == [] then {}
    else
      var n := |events| - 1;
      Seen(cfg, events[..n], id) + if IsOf(cfg, events[n], id) then {NumberOf(cfg, events[n])} else {}
  }

  /** When the last of them arrived. */
  ghost function LastTime(cfg: Config, events: seq<Event>, id: bv32): nat
    requires ValidRun(cfg, events)
  {
    if events == [] then 0
    else
      var n := |events| - 1;
      if IsOf(cfg, events[n], id) then events[n].time else LastTime(cfg, events[..n], id)
  }

  /** All segments of the message. */
  ghost function AllSegments(cfg: Config, sent: Messages, id: bv32): set<nat>
    requires cfg.Valid() && id in sent.ids
  {
    Below(|Chunks(sent.payload(id), cfg.Size())|)
  }

  /**
   Event `j` does the message no harm: a segment of it is new, and finds room if it is the first; any
   other frame, once decoded, comes before the slot of the message times out.
   */
  ghost predicate Harmless(cfg: Config, events: seq<Event>, id: bv32, j: nat)
    requires ValidRun(cfg, events) && j < |events|
  {
    var seen := Seen(cfg, events[..j], id);
    if IsOf(cfg, events[j], id) then
      NumberOf(cfg, events[j]) !in seen && (seen == {} ==> HasRoom(After(cfg, events[..j]), events[j].time))
    else
      DecodedEvent(cfg, events[j]).Success? && seen != {} ==>
        events[j].time <= LastTime(cfg, events[..j], id) + TIMEOUT
  }

  lemma {:induction false} SeenWithin(cfg: Config, sent: Messages, events: seq<Event>, id: bv32)
    requires cfg.Valid() && AdmissibleRun(cfg, sent, events) && id in sent.ids
    ensures Seen(cfg, events, id) <= AllSegments(cfg, sent, id)
    decreases |events|
  {
    hide DecodedEvent;
    if events != [] {
      var n := |events| - 1;
      SeenWithin(cfg, sent, events[..n], id);
      assert Admissible(cfg, sent, events[n]);
    }
  }

  lemma {:induction false} SeenGrows(cfg: Config, events: seq<Event>, id: bv32, j: nat)
    requires ValidRun(cfg, events) && j <= |events|
    ensures Seen(cfg, events[..j], id) <= Seen(cfg, events, id)
    decreases |events|
  {
    hide DecodedEvent, IsOf;
    if j == |events| {
      assert events[..j] == events;
    } else {
      var n := |events| - 1;
      SeenGrows(cfg, events[..n], id, j);
      assert events[..n][..j] == events[..j];
    }
  }

  ghost predicate HarmlessRun(cfg: Config, events: seq<Event>, id: bv32)
    requires ValidRun(cfg, events)
  {
    forall j | 0 <= j < |events| :: Harmless(cfg, events, id, j)
  }

  /** Until its last segment arrives, an undisturbed message waits in one slot and is not handed out. */
  lemma {:induction false} Waiting(cfg: Config, sent: Messages, events: seq<Event>, id: bv32)
    requires cfg.Valid() && Sendable(sent, cfg.Size(), cfg.R) && AdmissibleRun(cfg, sent, events) && id in sent.ids
    requires HarmlessRun(cfg, events, id)
    requires Seen(cfg, events, id) != AllSegments(cfg, sent, id)
    ensures Tracks(After(cfg, events), id, Seen(cfg, events, id), LastTime(cfg, events, id))
    ensures Deliveries(cfg, events, id) == 0
    decreases |events|
  {
    hide DecodedEvent, Arrive, Genuine, Tracks, HasRoom, GoodTable, NoneComplete;
    if events == [] {
      EmptyTracks(cfg, id);
    } else {
      var n := |events| - 1;
      SeenGrows(cfg, events, id, n);
      SeenWithin(cfg, sent, events, id);
      HarmlessPrefix(cfg, events, id);
      Waiting(cfg, sent, events[..n], id);
      ReachableTables(cfg, sent, events[..n]);
      SizeWithinFrame(cfg);
      assert Admissible(cfg, sent, events[n]) && Harmless(cfg, events, id, n);
      var slots, seen, last := After(cfg, events[..n]), Seen(cfg, events[..n], id), LastTime(cfg, events[..n], id);
      match DecodedEvent(cfg, events[n])
      case Failure(_) =>
      case Success(p) =>
        if IsOf(cfg, events[n], id) {
          ArriveSegment(sent, cfg.Size(), slots, events[n].time, p, cfg.S, cfg.R, seen, last);
        } else {
          ArriveOther(sent, cfg.Size(), slots, events[n].time, p, cfg.S, cfg.R, id, seen, last);
        }
    }
  }

  lemma EmptyTracks(cfg: Config, id: bv32)
    ensures Tracks(After(cfg, []), id, {}, 0)
  {
  }

  lemma HarmlessPrefix(cfg: Config, events: seq<Event>, id: bv32)
    requires ValidRun(cfg, events) && events != []
    requires HarmlessRun(cfg, events, id)
    ensures HarmlessRun(cfg, events[..|events| - 1], id)
  {
    var n := |events| - 1;
    forall j | 0 <= j < n ensures Harmless(cfg, events[..n], id, j) {
      assert Harmless(cfg, events, id, j);
      assert events[..n][..j] == events[..j];
    }
  }

  /** The arrival of the last missing segment of an undisturbed message hands it out, intact and for the first time. */
  lemma LastSegmentDelivers(cfg: Config, sent: Messages, events: seq<Event>, id: bv32)
    requires cfg.Valid() && Sendable(sent, cfg.Size(), cfg.R) && AdmissibleRun(cfg, sent, events) && id in sent.ids
    requires events != [] && HarmlessRun(cfg, events, id)
    requires IsOf(cfg, events[|events| - 1], id) && Seen(cfg, events, id) == AllSegments(cfg, sent, id)
    ensures Outcome(cfg, events, |events| - 1) == Success(Assembled(id, sent.payload(id)))
    ensures Deliveries(cfg, events, id) == 1
  {
    hide Arrive, Genuine, Tracks, HasRoom, GoodTable, NoneComplete, DecodedEvent;
    var n := |events| - 1;
    assert Admissible(cfg, sent, events[n]) && Harmless(cfg, events, id, n);
    var slots, seen, last := After(cfg, events[..n]), Seen(cfg, events[..n], id), LastTime(cfg, events[..n], id);
    assert NumberOf(cfg, events[n]) !in seen && NumberOf(cfg, events[n]) in Seen(cfg, events, id);
    HarmlessPrefix(cfg, events, id);
    Waiting(cfg, sent, events[..n], id);
    ReachableTables(cfg, sent, events[..n]);
    SizeWithinFrame(cfg);
    var p := DecodedEvent(cfg, events[n]).value;
    ArriveSegment(sent, cfg.Size(), slots, events[n].time, p, cfg.S, cfg.R, seen, last);
  }
}
