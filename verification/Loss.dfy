/** The other half of the delivery guarantee: a message that is disturbed even once is never handed out. */
module Loss {
  import opened Wrappers
  import opened Packets
  import opened Demuxers
  import opened Slots
  import opened Reassembly
  import opened Receiver
  import opened Conservation
  import opened Delivery

  // ----- a first segment without room

  /** With no free or expired slot the first segment is turned away. */
  lemma TurnedAway(slots: seq<Slot>, now: nat, p: Packet)
    requires Absent(slots, p.header.id) && !HasRoom(slots, now)
    ensures Multiplexed(slots, now, p).1.Some?
  {
    if p.header.HasFlag(SEGMENTED) {
      assert FirstJoin(slots, p, 0) == |slots|;
      assert FirstOpen(slots, now, p, 0) == |slots|;
    }
  }

  // ----- a slot that times out

  /** Live packets of the message are at most in slot `x`, which is incomplete and out of date. */
  ghost predicate OnlyStale(slots: seq<Slot>, x: nat, id: bv32, now: nat) {
    && Counted(slots)
    && forall i | 0 <= i < |slots| && slots[i].count > 0 && slots[i].packets[0].header.id == id ::
        i == x && slots[i].TimedOut(now) && !slots[i].CanAssemble()
  }

  lemma StoreStale(slots: seq<Slot>, now: nat, p: Packet, x: nat, id: bv32)
    requires OnlyStale(slots, x, id, now)
    requires p.header.HasFlag(SEGMENTED) ==> p.header.id != id
    ensures OnlyStale(Multiplexed(slots, now, p).0, x, id, now)
  {
  }

  lemma ProcessStale(slots: seq<Slot>, S: nat, R: nat, x: nat, id: bv32, now: nat)
    requires ValidTable(slots, S, R) && OnlyStale(slots, x, id, now)
    ensures OnlyStale(Processed(slots, S, R).0, x, id, now)
    ensures
      var i := FirstComplete(slots, 0);
      i < |slots| ==> slots[i].count > 0 && slots[i].packets[0].header.id != id
  {
    hide AssembledSlot;
  }

  lemma ExpireStale(slots: seq<Slot>, x: nat, id: bv32, now: nat)
    requires OnlyStale(slots, x, id, now)
    ensures Absent(ReleasedExpired(slots, now), id)
  {
  }

  lemma {:induction false} OtherHoldsNone(packets: seq<Packet>, n: nat, id: bv32, k: nat)
    requires n <= |packets| && forall i | 0 <= i < n :: packets[i].header.id != id
    ensures HeldFirst(packets, n, (id, k)) == 0
  {
    if n > 0 {
      OtherHoldsNone(packets, n - 1, id, k);
    }
  }

  lemma SlotOfOther(slot: Slot, id: bv32, k: nat)
    requires Coherent(slot) && (slot.count > 0 ==> slot.packets[0].header.id != id)
    ensures Held(slot, (id, k)) == 0
  {
    OtherHoldsNone(slot.packets, slot.count, id, k);
  }

  lemma {:induction false} AbsentHoldsNone(slots: seq<Slot>, id: bv32, k: nat, n: nat)
    requires Absent(slots, id) && n <= |slots| && forall i | 0 <= i < |slots| :: Coherent(slots[i])
    ensures HeldBy(slots, n, (id, k)) == 0
  {
    hide Coherent;
    if n > 0 {
      AbsentHoldsNone(slots, id, k, n - 1);
      SlotOfOther(slots[n - 1], id, k);
    }
  }

  lemma {:induction false} HeldBySlot(slots: seq<Slot>, x: nat, n: nat, key: Key)
    requires Counted(slots) && x < n <= |slots|
    ensures HeldBy(slots, n, key) >= Held(slots[x], key)
  {
    if x < n - 1 {
      HeldBySlot(slots, x, n - 1, key);
    }
  }

  /** Every segment of a message whose slot has timed out is counted as expired. */
  lemma ArriveTimesOut(sent: Messages, size: nat, slots: seq<Slot>, now: nat, p: Packet, S: nat, R: nat,
                       x: nat, id: bv32, seen: set<nat>, last: nat, k: nat)
    requires Sendable(sent, size, R) && size <= S && ValidTable(slots, S, R) && p.Valid(S)
    requires GoodTable(sent, size, slots) && NoneComplete(slots)
    requires p.header.HasFlag(SEGMENTED) ==> Genuine(sent, size, p) && p.header.id != id
    requires Holds(slots, x, id, seen, last) && k in seen && now > last + TIMEOUT
    ensures ArriveLedger(slots, now, p, S, R, (id, k)).expired >= 1
  {
    hide Multiplexed, Processed, ExpireFirst, Genuine, Numbers, MultiplexLedger, HeldBy, Held, Expiring;
    var key := (id, k);
    var stored := Multiplexed(slots, now, p).0;
    MultiplexedValid(slots, now, p, S, R);
    MultiplexGood(sent, size, slots, now, p);
    StoreStale(slots, now, p, x, id);
    ProcessStale(stored, S, R, x, id, now);
    ProcessedValid(stored, S, R);
    ProcessGood(sent, size, stored, S, R);
    var kept := Processed(stored, S, R).0;
    ExpireStale(kept, x, id, now);
    ExpiredGood(sent, size, kept, now);
    AbsentHoldsNone(ReleasedExpired(kept, now), id, k, |ReleasedExpired(kept, now)|);
    CompleteIsOther(stored, S, R, id, k);
    ArriveBalances(slots, now, p, S, R, key);
    HeldInSlot(slots, x, id, seen, last, k);
    HeldBySlot(slots, x, |slots|, key);
    MultiplexDeliversNothing(slots, now, p, key);
  }

  lemma MultiplexDeliversNothing(slots: seq<Slot>, now: nat, p: Packet, key: Key)
    requires Counted(slots)
    ensures MultiplexLedger(slots, now, p, key).delivered == 0
  {
  }

  lemma HeldInSlot(slots: seq<Slot>, x: nat, id: bv32, seen: set<nat>, last: nat, k: nat)
    requires Holds(slots, x, id, seen, last) && k in seen && Coherent(slots[x])
    ensures Held(slots[x], (id, k)) >= 1
  {
    HeldCovers(slots[x].packets, slots[x].count, id, k);
  }

  lemma CompleteIsOther(slots: seq<Slot>, S: nat, R: nat, id: bv32, k: nat)
    requires ValidTable(slots, S, R) && forall i | 0 <= i < |slots| :: Coherent(slots[i])
    requires var i := FirstComplete(slots, 0); i < |slots| ==> slots[i].count > 0 && slots[i].packets[0].header.id != id
    ensures ProcessLedger(slots, S, R, (id, k)).delivered == 0
  {
    hide AssembledSlot, Held;
    var i := FirstComplete(slots, 0);
    if i < |slots| {
      SlotOfOther(slots[i], id, k);
    }
  }

  // ----- runs

  /** No segment of the message arrives twice. */
  ghost predicate NoRepeats(cfg: Config, events: seq<Event>, id: bv32)
    requires ValidRun(cfg, events)
  {
    forall j | 0 <= j < |events| && IsOf(cfg, events[j], id) :: NumberOf(cfg, events[j]) !in Seen(cfg, events[..j], id)
  }

  lemma NoRepeatsPrefix(cfg: Config, events: seq<Event>, id: bv32, n: nat)
    requires ValidRun(cfg, events) && NoRepeats(cfg, events, id) && n <= |events|
    ensures NoRepeats(cfg, events[..n], id)
  {
    hide DecodedEvent, Seen;
    forall j | 0 <= j < n && IsOf(cfg, events[..n][j], id)
      ensures NumberOf(cfg, events[..n][j]) !in Seen(cfg, events[..n][..j], id)
    {
      assert events[..n][..j] == events[..j] && events[..n][j] == events[j];
    }
  }

  lemma {:induction false} ReceivedOnce(cfg: Config, events: seq<Event>, id: bv32, k: nat)
    requires ValidRun(cfg, events) && NoRepeats(cfg, events, id)
    ensures Received(cfg, events, (id, k)) <= if k in Seen(cfg, events, id) then 1 else 0
    decreases |events|
  {
    hide DecodedEvent;
    if events != [] {
      var n := |events| - 1;
      NoRepeatsPrefix(cfg, events, id, n);
      ReceivedOnce(cfg, events[..n], id, k);
    }
  }

  lemma {:induction false} ExpiredStays(cfg: Config, events: seq<Event>, j: nat, key: Key)
    requires ValidRun(cfg, events) && j < |events|
    ensures RunLedger(cfg, events, key).expired >= StepLedger(cfg, After(cfg, events[..j]), events[j], key).expired
    decreases |events|
  {
    hide StepLedger;
    var n := |events| - 1;
    if j < n {
      ExpiredStays(cfg, events[..n], j, key);
      assert events[..n][..j] == events[..j];
    }
  }

  /** A received copy that was turned away leaves fewer copies accepted than received. */
  lemma {:induction false} TurnedAwayStays(cfg: Config, events: seq<Event>, j: nat, key: Key)
    requires ValidRun(cfg, events) && j < |events|
    requires IsOf(cfg, events[j], key.0) && NumberOf(cfg, events[j]) == key.1
    requires StepLedger(cfg, After(cfg, events[..j]), events[j], key).accepted == 0
    ensures RunLedger(cfg, events, key).accepted < Received(cfg, events, key)
    decreases |events|
  {
    hide DecodedEvent, ArriveLedger, Arrive;
    var n := |events| - 1;
    if j == n {
      RunConserves(cfg, events[..n], key);
    } else {
      assert events[..n][..j] == events[..j];
      TurnedAwayStays(cfg, events[..n], j, key);
      if DecodedEvent(cfg, events[n]).Success? {
        ArriveBalances(After(cfg, events[..n]), events[n].time, DecodedEvent(cfg, events[n]).value, cfg.S, cfg.R, key);
      }
    }
  }

  /** With one copy of each segment, one that is turned away or expires leaves none to deliver. */
  lemma NothingToDeliver(cfg: Config, sent: Messages, events: seq<Event>, id: bv32, k: nat)
    requires cfg.Valid() && Sendable(sent, cfg.Size(), cfg.R) && AdmissibleRun(cfg, sent, events)
    requires id in sent.ids && k < |Chunks(sent.payload(id), cfg.Size())| && NoRepeats(cfg, events, id)
    requires
      var l := RunLedger(cfg, events, (id, k));
      l.expired >= 1 || l.accepted < Received(cfg, events, (id, k))
    ensures Deliveries(cfg, events, id) == 0
  {
    hide RunLedger, Received, Deliveries, NoRepeats;
    ReceivedOnce(cfg, events, id, k);
    RunConserves(cfg, events, (id, k));
    DeliveriesCounted(cfg, sent, events, id, k);
  }

  lemma FirstTurnedAway(cfg: Config, sent: Messages, events: seq<Event>, id: bv32, j: nat)
    requires cfg.Valid() && Sendable(sent, cfg.Size(), cfg.R) && AdmissibleRun(cfg, sent, events) && id in sent.ids
    requires j < |events| && IsOf(cfg, events[j], id)
    requires Absent(After(cfg, events[..j]), id) && !HasRoom(After(cfg, events[..j]), events[j].time)
    ensures
      StepLedger(cfg, After(cfg, events[..j]), events[j], (id, NumberOf(cfg, events[j]))).accepted == 0
  {
    hide Multiplexed, Processed, HasRoom;
    TurnedAway(After(cfg, events[..j]), events[j].time, DecodedEvent(cfg, events[j]).value);
  }

  /** One disturbance before the message is complete, and it is never handed out. */
  lemma DisturbedNeverDelivered(cfg: Config, sent: Messages, events: seq<Event>, id: bv32, j: nat)
    requires cfg.Valid() && Sendable(sent, cfg.Size(), cfg.R) && AdmissibleRun(cfg, sent, events) && id in sent.ids
    requires NoRepeats(cfg, events, id)
    requires j < |events| && HarmlessRun(cfg, events[..j], id) && !Harmless(cfg, events, id, j)
    requires Seen(cfg, events[..j], id) != AllSegments(cfg, sent, id)
    ensures Deliveries(cfg, events, id) == 0
  {
    hide DecodedEvent, Genuine, HasRoom, HarmlessRun, Deliveries;
    hide StepLedger, RunLedger, Received, GoodTable, NoneComplete;
    Waiting(cfg, sent, events[..j], id);
    assert Admissible(cfg, sent, events[j]);
    var slots, seen, last := After(cfg, events[..j]), Seen(cfg, events[..j], id), LastTime(cfg, events[..j], id);
    if IsOf(cfg, events[j], id) {
      var k := NumberOf(cfg, events[j]);
      SegmentNumber(cfg, sent, events[j], id);
      FirstTurnedAway(cfg, sent, events, id, j);
      TurnedAwayStays(cfg, events, j, (id, k));
      NothingToDeliver(cfg, sent, events, id, k);
    } else {
      var k :| k in seen;
      SeenWithin(cfg, sent, events[..j], id);
      var x :| Holds(slots, x, id, seen, last);
      StepTimesOut(cfg, sent, events, j, x, id, seen, last, k);
      ExpiredStays(cfg, events, j, (id, k));
      NothingToDeliver(cfg, sent, events, id, k);
    }
  }

  lemma SegmentNumber(cfg: Config, sent: Messages, e: Event, id: bv32)
    requires cfg.Valid() && e.Valid(cfg) && Admissible(cfg, sent, e) && IsOf(cfg, e, id)
    ensures id in sent.ids && NumberOf(cfg, e) < |Chunks(sent.payload(id), cfg.Size())|
  {
  }

  lemma StepTimesOut(cfg: Config, sent: Messages, events: seq<Event>, j: nat,
                     x: nat, id: bv32, seen: set<nat>, last: nat, k: nat)
    requires cfg.Valid() && Sendable(sent, cfg.Size(), cfg.R) && AdmissibleRun(cfg, sent, events)
    requires j < |events| && Holds(After(cfg, events[..j]), x, id, seen, last) && k in seen
    requires !IsOf(cfg, events[j], id) && DecodedEvent(cfg, events[j]).Success? && events[j].time > last + TIMEOUT
    ensures StepLedger(cfg, After(cfg, events[..j]), events[j], (id, k)).expired >= 1
  {
    hide Genuine, ArriveLedger, Arrive;
    ReachableTables(cfg, sent, events[..j]);
    SizeWithinFrame(cfg);
    assert Admissible(cfg, sent, events[j]);
    ArriveTimesOut(sent, cfg.Size(), After(cfg, events[..j]), events[j].time, DecodedEvent(cfg, events[j]).value,
                   cfg.S, cfg.R, x, id, seen, last, k);
  }

  lemma FirstDisturbance(cfg: Config, events: seq<Event>, id: bv32, n: nat) returns (j: nat)
    requires ValidRun(cfg, events) && n < |events| && !Harmless(cfg, events, id, n)
    ensures j <= n && !Harmless(cfg, events, id, j) && HarmlessRun(cfg, events[..j], id)
    decreases n
  {
    hide Harmless;
    if i :| 0 <= i < n && !Harmless(cfg, events, id, i) {
      j := FirstDisturbance(cfg, events, id, i);
    } else {
      j := n;
      forall i | 0 <= i < n ensures Harmless(cfg, events[..n], id, i) {
        HarmlessSame(cfg, events, id, n, i);
      }
    }
  }

  lemma HarmlessSame(cfg: Config, events: seq<Event>, id: bv32, n: nat, i: nat)
    requires ValidRun(cfg, events) && i < n <= |events|
    ensures Harmless(cfg, events[..n], id, i) <==> Harmless(cfg, events, id, i)
  {
    assert events[..n][..i] == events[..i] && events[..n][i] == events[i];
  }

  lemma LastNumberNew(cfg: Config, sent: Messages, events: seq<Event>, id: bv32)
    requires cfg.Valid() && AdmissibleRun(cfg, sent, events) && id in sent.ids
    requires events != [] && IsOf(cfg, events[|events| - 1], id) && NoRepeats(cfg, events, id)
    requires Seen(cfg, events, id) == AllSegments(cfg, sent, id)
    ensures forall j | 0 <= j < |events| :: Seen(cfg, events[..j], id) != AllSegments(cfg, sent, id)
  {
    hide DecodedEvent, AllSegments;
    var last := |events| - 1;
    var k := NumberOf(cfg, events[last]);
    assert k in Seen(cfg, events, id) && k !in Seen(cfg, events[..last], id);
    forall j | 0 <= j < |events| ensures k !in Seen(cfg, events[..j], id) {
      SeenGrows(cfg, events[..last], id, j);
      assert events[..last][..j] == events[..j];
    }
  }

  /**
   Exactly when a message is delivered. Let each of its frames arrive once, the last of them at the end
   of the run. It is handed out there if its first frame found room and no other frame was processed
   after its slot had timed out; otherwise it is never handed out at all.
   */
  lemma DeliveredIff(cfg: Config, sent: Messages, events: seq<Event>, id: bv32)
    requires cfg.Valid() && Sendable(sent, cfg.Size(), cfg.R) && AdmissibleRun(cfg, sent, events) && id in sent.ids
    requires events != [] && IsOf(cfg, events[|events| - 1], id) && NoRepeats(cfg, events, id)
    requires Seen(cfg, events, id) == AllSegments(cfg, sent, id)
    ensures HarmlessRun(cfg, events, id)
      <==> Outcome(cfg, events, |events| - 1) == Success(Assembled(id, sent.payload(id)))
    ensures Deliveries(cfg, events, id) == if HarmlessRun(cfg, events, id) then 1 else 0
  {
    hide DecodedEvent, Harmless, Genuine, Step, Seen, AllSegments, NoRepeats;
    if HarmlessRun(cfg, events, id) {
      LastSegmentDelivers(cfg, sent, events, id);
    } else {
      var n :| 0 <= n < |events| && !Harmless(cfg, events, id, n);
      var j := FirstDisturbance(cfg, events, id, n);
      LastNumberNew(cfg, sent, events, id);
      DisturbedNeverDelivered(cfg, sent, events, id, j);
    }
  }

  lemma NothingSeenYet(cfg: Config, events: seq<Event>, id: bv32)
    requires ValidRun(cfg, events)
    ensures Seen(cfg, events[..0], id) == {}
  {
  }

  lemma SeenNext(cfg: Config, events: seq<Event>, id: bv32, j: nat)
    requires ValidRun(cfg, events) && j < |events|
    ensures IsOf(cfg, events[j], id) ==>
      Seen(cfg, events[..j + 1], id) == Seen(cfg, events[..j], id) + {NumberOf(cfg, events[j])}
    ensures !IsOf(cfg, events[j], id) ==> Seen(cfg, events[..j + 1], id) == Seen(cfg, events[..j], id)
    ensures IsOf(cfg, events[j], id) ==> LastTime(cfg, events[..j + 1], id) == events[j].time
  {
    hide DecodedEvent;
    assert events[..j + 1][..j] == events[..j];
  }

  /** Nothing of the message before its first frame; after it the other frame; then the second. */
  lemma ThreeEvents(cfg: Config, sent: Messages, first: Event, other: Event, second: Event, id: bv32)
    requires cfg.Valid() && Sendable(sent, cfg.Size(), cfg.R) && cfg.Q > 0
    requires first.prior.Valid(cfg.S) && Carries(cfg, sent, first.frame, id, 0)
    requires second.prior.Valid(cfg.S) && Carries(cfg, sent, second.frame, id, 1)
    requires other.Valid(cfg) && Admissible(cfg, sent, other) && !IsOf(cfg, other, id)
    requires |Chunks(sent.payload(id), cfg.Size())| == 2
    ensures first.Valid(cfg) && second.Valid(cfg)
    ensures DecodedEvent(cfg, first).Success? && DecodedEvent(cfg, second).Success?
    ensures
      var events := [first, other, second];
      && AdmissibleRun(cfg, sent, events)
      && IsOf(cfg, first, id) && IsOf(cfg, second, id) && NumberOf(cfg, first) == 0 && NumberOf(cfg, second) == 1
      && Seen(cfg, events[..0], id) == {} && Seen(cfg, events[..1], id) == Seen(cfg, events[..2], id) == {0}
      && Seen(cfg, events, id) == AllSegments(cfg, sent, id)
      && LastTime(cfg, events[..1], id) == first.time
  {
    hide DecodedEvent, FrameOf, Genuine, Chunks, Seen, LastTime;
    CarriedSegment(cfg, sent, first, id, 0);
    CarriedSegment(cfg, sent, second, id, 1);
    var events := [first, other, second];
    NothingSeenYet(cfg, events, id);
    SeenNext(cfg, events, id, 0);
    SeenNext(cfg, events, id, 1);
    SeenNext(cfg, events, id, 2);
    assert events[..3] == events;
    assert {0, 1} == Below(2);
  }

  /**
   The timeout in milliseconds. A message of two segments with one other frame processed in between is handed out if
   and only if that frame comes at most 500 ms after the first segment.
   */
  lemma FiveHundredMilliseconds(cfg: Config, sent: Messages, first: Event, other: Event, second: Event, id: bv32)
    requires cfg.Valid() && Sendable(sent, cfg.Size(), cfg.R) && cfg.Q > 0
    requires first.prior.Valid(cfg.S) && Carries(cfg, sent, first.frame, id, 0)
    requires second.prior.Valid(cfg.S) && Carries(cfg, sent, second.frame, id, 1)
    requires other.Valid(cfg) && Admissible(cfg, sent, other) && !IsOf(cfg, other, id)
    requires DecodedEvent(cfg, other).Success? && |Chunks(sent.payload(id), cfg.Size())| == 2
    ensures ValidRun(cfg, [first, other, second])
    ensures Outcome(cfg, [first, other, second], 2) == Success(Assembled(id, sent.payload(id)))
      <==> other.time <= first.time + 500
  {
    hide DecodedEvent, FrameOf, Genuine, Outcome, Seen, LastTime, Deliveries, Admissible, AllSegments;
    var events := [first, other, second];
    ThreeEvents(cfg, sent, first, other, second, id);
    FreshRoom(cfg, first.time);
    assert events[..0] == [];
    assert NoRepeats(cfg, events, id);
    assert Harmless(cfg, events, id, 0) && Harmless(cfg, events, id, 2);
    assert Harmless(cfg, events, id, 1) <==> other.time <= first.time + 500;
    assert HarmlessRun(cfg, events, id) <==> Harmless(cfg, events, id, 1);
    DeliveredIff(cfg, sent, events, id);
  }

  lemma FreshRoom(cfg: Config, now: nat)
    requires cfg.Q > 0
    ensures HasRoom(After(cfg, []), now)
  {
    assert EmptyTable(cfg.S, cfg.R, cfg.Q)[0].count == 0;
  }
}
