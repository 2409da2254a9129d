/**
 Where every accepted packet goes. Nothing here assumes that packets are genuine until deliveries are
 counted: the ledger balances for any traffic.
 */
module Conservation {
  import opened Wrappers
  import opened Packets
  import opened Demuxers
  import opened Slots
  import opened Reassembly
  import opened Receiver

  /** Message identifier and sequence number. */
  type Key = (bv32, nat)

  function KeyOf(p: Packet): Key {
    (p.header.id, p.header.seqNo)
  }

  /** Live copies of `key` in a slot. */
  ghost function Held(slot: Slot, key: Key): nat
    requires slot.count <= |slot.packets|
  {
    HeldFirst(slot.packets, slot.count, key)
  }

  ghost function HeldFirst(packets: seq<Packet>, n: nat, key: Key): nat
    requires n <= |packets|
  {
    if n == 0 then 0 else HeldFirst(packets, n - 1, key) + One(KeyOf(packets[n - 1]) == key)
  }

  ghost predicate Counted(slots: seq<Slot>) {
    forall i | 0 <= i < |slots| :: slots[i].count <= |slots[i].packets|
  }

  /** Live copies in the first `n` slots. */
  ghost function HeldBy(slots: seq<Slot>, n: nat, key: Key): nat
    requires n <= |slots| && Counted(slots)
  {
    if n == 0 then 0 else HeldBy(slots, n - 1, key) + Held(slots[n - 1], key)
  }

  ghost function InTable(slots: seq<Slot>, key: Key): nat
    requires Counted(slots)
  {
    HeldBy(slots, |slots|, key)
  }

  /** Live copies that expiry takes from the first `n` slots. */
  ghost function Expiring(slots: seq<Slot>, now: nat, n: nat, key: Key): nat
    requires n <= |slots| && Counted(slots)
  {
    if n == 0 then 0
    else Expiring(slots, now, n - 1, key) + if slots[n - 1].TimedOut(now) then Held(slots[n - 1], key) else 0
  }

  /** Copies of one key that came into the table and that left it, delivered or expired. */
  datatype Ledger = Ledger(accepted: nat, delivered: nat, expired: nat) {
    function Add(other: Ledger): Ledger {
      Ledger(accepted + other.accepted, delivered + other.delivered, expired + other.expired)
    }
  }

  const NOTHING: Ledger := Ledger(0, 0, 0)

  ghost function MultiplexLedger(slots: seq<Slot>, now: nat, p: Packet, key: Key): Ledger
    requires Counted(slots)
  {
    var accepted := One(Multiplexed(slots, now, p).1.None? && KeyOf(p) == key);
    if !p.header.HasFlag(SEGMENTED) || FirstJoin(slots, p, 0) < |slots| then Ledger(accepted, 0, 0)
    else
      var k := FirstOpen(slots, now, p, 0);
      Ledger(accepted, 0, Expiring(slots, now, if k < |slots| then k + 1 else k, key))
  }

  ghost function ProcessLedger(slots: seq<Slot>, S: nat, R: nat, key: Key): Ledger
    requires ValidTable(slots, S, R)
  {
    Ledger(0, if Processed(slots, S, R).1.Success? then Held(slots[FirstComplete(slots, 0)], key) else 0, 0)
  }

  ghost function ArriveLedger(slots: seq<Slot>, now: nat, p: Packet, S: nat, R: nat, key: Key): Ledger
    requires ValidTable(slots, S, R) && p.Valid(S)
  {
    MultiplexedValid(slots, now, p, S, R);
    var stored := Multiplexed(slots, now, p).0;
    ProcessedValid(stored, S, R);
    var kept := Processed(stored, S, R).0;
    MultiplexLedger(slots, now, p, key).Add(ProcessLedger(stored, S, R, key))
      .Add(Ledger(0, 0, Expiring(kept, now, |kept|, key)))
  }

  // ----- one operation at a time

  lemma {:induction false} HeldFirstSame(p: seq<Packet>, q: seq<Packet>, n: nat, key: Key)
    requires n <= |p| && n <= |q| && forall i | 0 <= i < n :: p[i] == q[i]
    ensures HeldFirst(p, n, key) == HeldFirst(q, n, key)
  {
    if n > 0 {
      HeldFirstSame(p, q, n - 1, key);
    }
  }

  lemma HeldPush(slot: Slot, now: nat, p: Packet, key: Key)
    requires slot.count < |slot.packets|
    ensures Held(slot.Push(now, p), key) == Held(slot, key) + One(KeyOf(p) == key)
  {
    HeldFirstSame(slot.packets, slot.Push(now, p).packets, slot.count, key);
  }

  lemma {:induction false} HeldReplace(slots: seq<Slot>, i: nat, slot: Slot, n: nat, key: Key)
    requires i < |slots| && n <= |slots| && Counted(slots) && slot.count <= |slot.packets|
    ensures Counted(slots[i := slot])
    ensures HeldBy(slots[i := slot], n, key)
         == HeldBy(slots, n, key) + if i < n then Held(slot, key) - Held(slots[i], key) else 0
  {
    hide Held;
    if n > 0 {
      HeldReplace(slots, i, slot, n - 1, key);
    }
  }

  lemma HeldAfterExpiry(slot: Slot, now: nat, key: Key)
    requires slot.count <= |slot.packets|
    ensures slot.Expire(now).count <= |slot.Expire(now).packets|
    ensures Held(slot.Expire(now), key) + (if slot.TimedOut(now) then Held(slot, key) else 0) == Held(slot, key)
  {
  }

  lemma {:induction false} HeldExpire(slots: seq<Slot>, now: nat, m: nat, n: nat, key: Key)
    requires m <= |slots| && n <= |slots| && Counted(slots)
    ensures Counted(ExpireFirst(slots, now, m))
    ensures HeldBy(ExpireFirst(slots, now, m), n, key) + Expiring(slots, now, if m < n then m else n, key)
         == HeldBy(slots, n, key)
  {
    hide Held;
    if n > 0 {
      HeldExpire(slots, now, m, n - 1, key);
      HeldAfterExpiry(slots[n - 1], now, key);
    }
  }

  lemma MultiplexBalances(slots: seq<Slot>, now: nat, p: Packet, key: Key)
    requires Counted(slots)
    ensures
      var next, l := Multiplexed(slots, now, p).0, MultiplexLedger(slots, now, p, key);
      && Counted(next)
      && InTable(next, key) + l.expired == InTable(slots, key) + l.accepted
      && l.accepted <= One(p.header.HasFlag(SEGMENTED) && KeyOf(p) == key)
  {
    hide Held, HeldBy, Expiring;
    var n := |slots|;
    var i, k := FirstJoin(slots, p, 0), FirstOpen(slots, now, p, 0);
    if p.header.HasFlag(SEGMENTED) {
      if i < n {
        HeldPush(slots[i], now, p, key);
        HeldReplace(slots, i, slots[i].Push(now, p), n, key);
      } else if k < n {
        var expired := ExpireFirst(slots, now, k + 1);
        HeldExpire(slots, now, k + 1, n, key);
        HeldPush(expired[k], now, p, key);
        HeldReplace(expired, k, expired[k].Push(now, p), n, key);
        ExpireFirstReplace(slots, now, k, expired[k].Push(now, p));
      } else {
        HeldExpire(slots, now, n, n, key);
      }
    }
  }

  lemma ReleasedHoldsNothing(slot: Slot, key: Key)
    ensures Held(slot.Release(), key) == 0
  {
  }

  lemma ProcessBalances(slots: seq<Slot>, S: nat, R: nat, key: Key)
    requires ValidTable(slots, S, R)
    ensures Counted(slots)
    ensures
      var next, l := Processed(slots, S, R).0, ProcessLedger(slots, S, R, key);
      && Counted(next)
      && InTable(next, key) + l.delivered == InTable(slots, key)
  {
    hide AssembledSlot, Held, HeldBy;
    var i := FirstComplete(slots, 0);
    if Processed(slots, S, R).1.Success? {
      ReleasedHoldsNothing(slots[i], key);
      HeldReplace(slots, i, slots[i].Release(), |slots|, key);
    }
  }

  /** One arrival conserves packets, whatever they contain. */
  lemma ArriveBalances(slots: seq<Slot>, now: nat, p: Packet, S: nat, R: nat, key: Key)
    requires ValidTable(slots, S, R) && p.Valid(S)
    ensures
      var next, l := Arrive(slots, now, p, S, R).0, ArriveLedger(slots, now, p, S, R, key);
      && Counted(slots) && Counted(next)
      && InTable(next, key) + l.delivered + l.expired == InTable(slots, key) + l.accepted
      && l.accepted <= One(p.header.HasFlag(SEGMENTED) && KeyOf(p) == key)
  {
    hide Multiplexed, Processed, HeldBy, Expiring, ExpireFirst, ProcessLedger;
    MultiplexedValid(slots, now, p, S, R);
    var stored := Multiplexed(slots, now, p).0;
    MultiplexBalances(slots, now, p, key);
    ProcessBalances(stored, S, R, key);
    ProcessedValid(stored, S, R);
    var kept := Processed(stored, S, R).0;
    HeldExpire(kept, now, |kept|, |kept|, key);
    NotAccepted(stored, S, R, key);
  }

  lemma NotAccepted(slots: seq<Slot>, S: nat, R: nat, key: Key)
    requires ValidTable(slots, S, R)
    ensures ProcessLedger(slots, S, R, key).accepted == ProcessLedger(slots, S, R, key).expired == 0
  {
  }

  // ----- runs

  ghost function StepLedger(cfg: Config, slots: seq<Slot>, e: Event, key: Key): Ledger
    requires ValidTable(slots, cfg.S, cfg.R) && e.Valid(cfg)
  {
    match DecodedEvent(cfg, e)
    case Failure(_) => NOTHING
    case Success(p) => ArriveLedger(slots, e.time, p, cfg.S, cfg.R, key)
  }

  ghost function RunLedger(cfg: Config, events: seq<Event>, key: Key): Ledger
    requires ValidRun(cfg, events)
  {
    if events == [] then NOTHING
    else
      var n := |events| - 1;
      RunLedger(cfg, events[..n], key).Add(StepLedger(cfg, After(cfg, events[..n]), events[n], key))
  }

  /** How many frames of the run decode to a segment with this key. */
  ghost function Received(cfg: Config, events: seq<Event>, key: Key): nat
    requires ValidRun(cfg, events)
  {
    if events == [] then 0
    else
      var n := |events| - 1;
      var r := DecodedEvent(cfg, events[n]);
      Received(cfg, events[..n], key) + One(r.Success? && r.value.header.HasFlag(SEGMENTED) && KeyOf(r.value) == key)
  }

  lemma {:induction false} EmptyHoldsNothing(S: nat, R: nat, Q: nat, n: nat, key: Key)
    requires n <= Q
    ensures Counted(EmptyTable(S, R, Q)) && HeldBy(EmptyTable(S, R, Q), n, key) == 0
  {
    if n > 0 {
      EmptyHoldsNothing(S, R, Q, n - 1, key);
    }
  }

  /**
   Conservation: over any run, every copy that was accepted is still in a slot, was delivered as part
   of a message, or has expired; and no more copies were accepted than received.
   */
  lemma {:induction false} RunConserves(cfg: Config, events: seq<Event>, key: Key)
    requires ValidRun(cfg, events)
    ensures Counted(After(cfg, events))
    ensures
      var l := RunLedger(cfg, events, key);
      && l.accepted == InTable(After(cfg, events), key) + l.delivered + l.expired
      && l.accepted <= Received(cfg, events, key)
    decreases |events|
  {
    hide Arrive, ArriveLedger, DecodedEvent, HeldBy;
    if events == [] {
      EmptyHoldsNothing(cfg.S, cfg.R, cfg.Q, cfg.Q, key);
    } else {
      var n := |events| - 1;
      RunConserves(cfg, events[..n], key);
      match DecodedEvent(cfg, events[n])
      case Failure(_) =>
      case Success(p) =>
        ArriveBalances(After(cfg, events[..n]), events[n].time, p, cfg.S, cfg.R, key);
    }
  }

  // ----- deliveries

  /** How often the run handed out the message with this identifier. */
  ghost function Deliveries(cfg: Config, events: seq<Event>, id: bv32): nat
    requires ValidRun(cfg, events)
  {
    if events == [] then 0
    else
      var n := |events| - 1;
      var r := Step(cfg, After(cfg, events[..n]), events[n]).1;
      Deliveries(cfg, events[..n], id) + if r.Success? && r.value.id == id then 1 else 0
  }

  lemma {:induction false} HeldCovers(packets: seq<Packet>, n: nat, id: bv32, k: nat)
    requires n <= |packets| && k in Numbers(packets, n)
    requires forall i | 0 <= i < n :: packets[i].header.id == id
    ensures HeldFirst(packets, n, (id, k)) >= 1
  {
    if packets[n - 1].header.seqNo != k {
      HeldCovers(packets, n - 1, id, k);
    }
  }

  /** A delivery takes out one copy of every segment of the message. */
  lemma DeliveryConsumes(sent: Messages, size: nat, slots: seq<Slot>, S: nat, R: nat, k: nat)
    requires Sendable(sent, size, R) && size <= S && ValidTable(slots, S, R) && GoodTable(sent, size, slots)
    requires Processed(slots, S, R).1.Success?
    ensures
      var id := Processed(slots, S, R).1.value.id;
      && Counted(slots) && id in sent.ids
      && (k < |Chunks(sent.payload(id), size)| ==> ProcessLedger(slots, S, R, (id, k)).delivered >= 1)
  {
    hide AssembledSlot, Genuine, Slot.Valid;
    var slot := slots[FirstComplete(slots, 0)];
    assert slots[FirstComplete(slots, 0)].Valid(S, R);
    CompleteAssembles(sent, size, slot, S, R);
    CompleteCount(sent, size, slot);
    var id := slot.packets[0].header.id;
    if k < |Chunks(sent.payload(id), size)| {
      HeldCovers(slot.packets, slot.count, id, k);
    }
  }

  lemma ArriveDelivery(sent: Messages, size: nat, slots: seq<Slot>, now: nat, p: Packet, S: nat, R: nat, k: nat)
    requires Sendable(sent, size, R) && size <= S && ValidTable(slots, S, R) && p.Valid(S)
    requires GoodTable(sent, size, slots)
    requires p.header.HasFlag(SEGMENTED) ==> Genuine(sent, size, p)
    requires Arrive(slots, now, p, S, R).1.Success?
    ensures
      var id := Arrive(slots, now, p, S, R).1.value.id;
      && id in sent.ids
      && (k < |Chunks(sent.payload(id), size)| ==> ArriveLedger(slots, now, p, S, R, (id, k)).delivered >= 1)
  {
    hide Multiplexed, Processed, Genuine;
    MultiplexedValid(slots, now, p, S, R);
    MultiplexGood(sent, size, slots, now, p);
    DeliveryConsumes(sent, size, Multiplexed(slots, now, p).0, S, R, k);
  }

  lemma {:induction false} DeliveriesCounted(cfg: Config, sent: Messages, events: seq<Event>, id: bv32, k: nat)
    requires cfg.Valid() && Sendable(sent, cfg.Size(), cfg.R) && AdmissibleRun(cfg, sent, events)
    requires id in sent.ids && k < |Chunks(sent.payload(id), cfg.Size())|
    ensures Deliveries(cfg, events, id) <= RunLedger(cfg, events, (id, k)).delivered
    decreases |events|
  {
    hide Arrive, ArriveLedger, DecodedEvent, Genuine;
    if events != [] {
      var n := |events| - 1;
      DeliveriesCounted(cfg, sent, events[..n], id, k);
      ReachableTables(cfg, sent, events[..n]);
      SizeWithinFrame(cfg);
      var slots := After(cfg, events[..n]);
      match DecodedEvent(cfg, events[n])
      case Failure(_) =>
      case Success(p) =>
        if Arrive(slots, events[n].time, p, cfg.S, cfg.R).1.Success? {
          ArriveDelivery(sent, cfg.Size(), slots, events[n].time, p, cfg.S, cfg.R, k);
        }
    }
  }

  /** A message is handed out at most as often as the copies received of any one of its segments. */
  lemma DeliveredAtMostAsReceived(cfg: Config, sent: Messages, events: seq<Event>, id: bv32, k: nat)
    requires cfg.Valid() && Sendable(sent, cfg.Size(), cfg.R) && AdmissibleRun(cfg, sent, events)
    requires id in sent.ids && k < |Chunks(sent.payload(id), cfg.Size())|
    ensures Deliveries(cfg, events, id) <= Received(cfg, events, (id, k))
  {
    hide RunLedger, Received, Deliveries;
    RunConserves(cfg, events, (id, k));
    DeliveriesCounted(cfg, sent, events, id, k);
  }
}
