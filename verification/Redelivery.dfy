/**
 How often a message can be handed out. Every frame may arrive several times; as long as there are slots for all
 copies, each copy completes a slot of its own, and the message is handed out once for each.
 */
module Redelivery {
  import opened Wrappers
  import opened Packets
  import opened Coders
  import opened Demuxers
  import opened Slots
  import opened Reassembly
  import opened Receiver
  import opened Conservation

  /** The slot holds the first `count` segments of the message, in order. */
  ghost predicate Row(sent: Messages, size: nat, slot: Slot, id: bv32, count: nat)
    requires size > 0
  {
    && slot.count == count <= |slot.packets|
    && forall q | 0 <= q < count ::
        Genuine(sent, size, slot.packets[q]) && slot.packets[q].header.id == id && slot.packets[q].header.seqNo == q
  }

  /** How much slot `i` holds when copy `j` of segment `k` out of `n` is about to arrive. */
  function Held(n: nat, k: nat, j: nat, i: nat): nat {
    if i >= j then k else if k + 1 == n then 0 else k + 1
  }

  /** One slot for each of `m` copies; the others are free. All of them have been extended since `base`. */
  ghost predicate Rows(sent: Messages, size: nat, slots: seq<Slot>, id: bv32, n: nat, k: nat, j: nat, m: nat, base: nat)
    requires size > 0
  {
    && m <= |slots|
    && (forall i | 0 <= i < |slots| :: Row(sent, size, slots[i], id, if i < m then Held(n, k, j, i) else 0))
    && forall i | 0 <= i < |slots| && slots[i].count > 0 :: base <= slots[i].lastUpdate
  }

  /** Where a copy goes: to the slot of its own, or, if the message has one segment, always to the first. */
  function Place(n: nat, j: nat): nat {
    if n == 1 then 0 else j
  }

  lemma RowGood(sent: Messages, size: nat, slot: Slot, id: bv32, count: nat)
    requires size > 0 && Row(sent, size, slot, id, count)
    ensures GoodSlot(sent, size, slot) && (count > 0 ==> slot.packets[0].header.id == id)
    ensures id in sent.ids ==>
      (slot.CanAssemble() <==> count > 0 && count >= |Chunks(sent.payload(id), size)|)
  {
    hide Chunks;
    if count > 0 {
      assert Genuine(sent, size, slot.packets[0]);
    }
  }

  lemma CopyStored(sent: Messages, size: nat, slots: seq<Slot>, now: nat, p: Packet, S: nat, R: nat,
                   n: nat, k: nat, j: nat, m: nat, base: nat)
    requires Sendable(sent, size, R) && ValidTable(slots, S, R)
    requires p.header.HasFlag(SEGMENTED) && Genuine(sent, size, p) && p.header.seqNo == k
    requires k < n == |Chunks(sent.payload(p.header.id), size)| && j < m
    requires Rows(sent, size, slots, p.header.id, n, k, j, m, base) && now <= base + TIMEOUT
    ensures
      var x := Place(n, j);
      && x < |slots| && slots[x].count == k < |slots[x].packets|
      && Multiplexed(slots, now, p).0 == slots[x := Slot(slots[x].packets[k := p], k + 1, now)]
  {
    hide Multiplexed, Genuine, Chunks;
    var x := Place(n, j);
    PacketStorable(sent, size, p, R);
    assert slots[x].Valid(S, R);
    forall i | 0 <= i < |slots| && i != x
      ensures HasPlaceFor(slots[i], p) ==> i > x
      ensures IsVacant(slots[i], now) ==> i > x || k > 0
    {
      assert Row(sent, size, slots[i], p.header.id, if i < m then Held(n, k, j, i) else 0);
      if i < j && k + 1 < n {
        assert slots[i].packets[k].header.seqNo == k;
      }
    }
    assert Row(sent, size, slots[x], p.header.id, Held(n, k, j, x));
    if k > 0 {
      JoinsFirstPlace(slots, now, p, S, R, x);
    } else {
      forall i | 0 <= i < |slots| ensures !HasPlaceFor(slots[i], p) {
        assert Row(sent, size, slots[i], p.header.id, if i < m then Held(n, k, j, i) else 0);
      }
      TakesFirstVacancy(slots, now, p, S, R, x);
    }
  }

  lemma PacketStorable(sent: Messages, size: nat, p: Packet, R: nat)
    requires Sendable(sent, size, R) && Genuine(sent, size, p) && p.header.HasFlag(SEGMENTED)
    ensures IsStorable(p, R) && p.header.seqCount == |Chunks(sent.payload(p.header.id), size)| <= R
    ensures p.header.id in sent.ids
  {
  }

  lemma RowsNext(sent: Messages, size: nat, slots: seq<Slot>, now: nat, p: Packet,
                 n: nat, k: nat, j: nat, m: nat, base: nat)
    requires size > 0 && Genuine(sent, size, p) && p.header.seqNo == k < n && j < m
    requires Rows(sent, size, slots, p.header.id, n, k, j, m, base) && base <= now
    requires var x := Place(n, j); x < |slots| && slots[x].count == k < |slots[x].packets|
    ensures
      var x := Place(n, j);
      var pushed := Slot(slots[x].packets[k := p], k + 1, now);
      && Row(sent, size, pushed, p.header.id, k + 1)
      && (k + 1 < n ==> Rows(sent, size, slots[x := pushed], p.header.id, n, k, j + 1, m, base))
      && (k + 1 == n ==> Rows(sent, size, slots[x := pushed.Release()], p.header.id, n, k, j + 1, m, base))
  {
    hide Genuine;
    var x := Place(n, j);
    assert Row(sent, size, slots[x], p.header.id, Held(n, k, j, x));
  }

  lemma RowsReleased(sent: Messages, size: nat, slots: seq<Slot>, now: nat, id: bv32,
                     n: nat, k: nat, j: nat, m: nat, base: nat)
    requires size > 0 && Rows(sent, size, slots, id, n, k, j, m, base) && now <= base + TIMEOUT
    ensures Rows(sent, size, ReleasedExpired(slots, now), id, n, k, j, m, base)
  {
    hide Genuine;
    forall i | 0 <= i < |slots|
      ensures Row(sent, size, slots[i].Expire(now), id, if i < m then Held(n, k, j, i) else 0)
    {
      assert Row(sent, size, slots[i], id, if i < m then Held(n, k, j, i) else 0);
    }
  }

  /** One copy of a segment: the message is handed out if it is the last segment. */
  lemma CopyArrives(sent: Messages, size: nat, slots: seq<Slot>, now: nat, p: Packet, S: nat, R: nat,
                    n: nat, k: nat, j: nat, m: nat, base: nat)
    requires Sendable(sent, size, R) && size <= S && ValidTable(slots, S, R) && p.Valid(S)
    requires p.header.HasFlag(SEGMENTED) && Genuine(sent, size, p) && p.header.seqNo == k
    requires k < n == |Chunks(sent.payload(p.header.id), size)| && j < m
    requires Rows(sent, size, slots, p.header.id, n, k, j, m, base) && base <= now <= base + TIMEOUT
    ensures
      var (next, r) := Arrive(slots, now, p, S, R);
      && Rows(sent, size, next, p.header.id, n, k, j + 1, m, base)
      && r == if k + 1 == n then Success(Assembled(p.header.id, sent.payload(p.header.id))) else Failure(TryAgain)
  {
    hide Multiplexed, Genuine, Chunks, ExpireFirst, AssembledSlot, Row, GoodSlot, Slot.CanAssemble;
    var id, x := p.header.id, Place(n, j);
    PacketStorable(sent, size, p, R);
    CopyStored(sent, size, slots, now, p, S, R, n, k, j, m, base);
    MultiplexedValid(slots, now, p, S, R);
    RowsNext(sent, size, slots, now, p, n, k, j, m, base);
    var stored := Multiplexed(slots, now, p).0;
    RowGood(sent, size, stored[x], id, k + 1);
    forall i | 0 <= i < |stored| && i != x ensures !stored[i].CanAssemble() {
      RowGood(sent, size, slots[i], id, if i < m then Held(n, k, j, i) else 0);
    }
    assert stored[x].Valid(S, R);
    if k + 1 == n {
      assert FirstComplete(stored, 0) == x;
      CompleteAssembles(sent, size, stored[x], S, R);
      assert Processed(stored, S, R).0 == slots[x := stored[x].Release()];
    } else {
      assert FirstComplete(stored, 0) == |stored|;
    }
    RowsReleased(sent, size, Processed(stored, S, R).0, now, id, n, k, j + 1, m, base);
  }

  // ----- runs

  /** Which segment event `e` brings, and which copy of it. */
  function Round(e: nat, m: nat): nat
    requires m > 0
  {
    e / m
  }

  function Turn(e: nat, m: nat): (t: nat)
    requires m > 0
    ensures t < m
  {
    e % m
  }

  /** Each frame of the message `m` times before the next, all within 500 ms. */
  ghost predicate Repeated(cfg: Config, sent: Messages, events: seq<Event>, id: bv32, m: nat, base: nat)
    requires cfg.Valid() && m > 0
  {
    && id in sent.ids && |events| == |Chunks(sent.payload(id), cfg.Size())| * m
    && forall e | 0 <= e < |events| ::
        && events[e].prior.Valid(cfg.S) && Carries(cfg, sent, events[e].frame, id, Round(e, m))
        && base <= events[e].time <= base + TIMEOUT
  }

  lemma RepeatedValid(cfg: Config, sent: Messages, events: seq<Event>, id: bv32, m: nat, base: nat)
    requires cfg.Valid() && Sendable(sent, cfg.Size(), cfg.R) && m > 0 && Repeated(cfg, sent, events, id, m, base)
    ensures ValidRun(cfg, events)
  {
    hide DecodedEvent, Carries, Genuine, Codec.Readable, Round;
    forall e | 0 <= e < |events| ensures events[e].Valid(cfg) {
      CarriedSegment(cfg, sent, events[e], id, Round(e, m));
    }
  }

  lemma NextPosition(e: nat, m: nat)
    requires m > 0
    ensures Round(e + 1, m) == Round(e, m) + (if Turn(e, m) + 1 < m then 0 else 1)
    ensures Turn(e + 1, m) == if Turn(e, m) + 1 < m then Turn(e, m) + 1 else 0
  {
    assert e == m * Round(e, m) + Turn(e, m);
    if Turn(e, m) + 1 < m {
      DivModOf(e + 1, m, Round(e, m), Turn(e, m) + 1);
    } else {
      assert m * (Round(e, m) + 1) == m * Round(e, m) + m;
      DivModOf(e + 1, m, Round(e, m) + 1, 0);
    }
  }

  lemma PositionBound(e: nat, n: nat, m: nat)
    requires m > 0 && e < n * m
    ensures Round(e, m) < n
  {
    assert e == m * Round(e, m) + Turn(e, m);
    if Round(e, m) >= n {
      ProductBound(n, Round(e, m), m);
      assert false;
    }
  }

  lemma FirstEvent(m: nat)
    requires m > 0
    ensures Round(0, m) == Turn(0, m) == 0
  {
  }

  lemma NothingAfter(cfg: Config, sent: Messages, id: bv32, n: nat, m: nat, base: nat)
    requires cfg.Valid() && m <= cfg.Q
    ensures Rows(sent, cfg.Size(), After(cfg, []), id, n, 0, 0, m, base)
  {
  }

  lemma RowsRound(sent: Messages, size: nat, slots: seq<Slot>, id: bv32, n: nat, k: nat, m: nat, base: nat)
    requires size > 0 && k + 1 < n && Rows(sent, size, slots, id, n, k, m, m, base)
    ensures Rows(sent, size, slots, id, n, k + 1, 0, m, base)
  {
    hide Row;
  }

  /** The table before event `e`. */
  lemma {:induction false} RowsAfter(cfg: Config, sent: Messages, events: seq<Event>, id: bv32, m: nat,
                                     base: nat, e: nat)
    requires cfg.Valid() && Sendable(sent, cfg.Size(), cfg.R) && 0 < m <= cfg.Q
    requires Repeated(cfg, sent, events, id, m, base) && ValidRun(cfg, events) && e < |events|
    ensures Round(e, m) < |Chunks(sent.payload(id), cfg.Size())|
    ensures
      var n := |Chunks(sent.payload(id), cfg.Size())|;
      Rows(sent, cfg.Size(), After(cfg, events[..e]), id, n, Round(e, m), Turn(e, m), m, base)
    decreases e
  {
    hide Rows, Chunks, After, Carries, Round, Turn;
    var n := |Chunks(sent.payload(id), cfg.Size())|;
    PositionBound(e, n, m);
    if e == 0 {
      assert events[..0] == [];
      FirstEvent(m);
      NothingAfter(cfg, sent, id, n, m, base);
    } else {
      RowsAfter(cfg, sent, events, id, m, base, e - 1);
      NextPosition(e - 1, m);
      CopyStep(cfg, sent, events, id, m, base, n, e - 1);
      if Turn(e - 1, m) + 1 == m {
        RowsRound(sent, cfg.Size(), After(cfg, events[..e]), id, n, Round(e - 1, m), m, base);
      }
    }
  }

  lemma CopyStep(cfg: Config, sent: Messages, events: seq<Event>, id: bv32, m: nat, base: nat, n: nat, e: nat)
    requires cfg.Valid() && Sendable(sent, cfg.Size(), cfg.R) && m > 0
    requires Repeated(cfg, sent, events, id, m, base) && ValidRun(cfg, events)
    requires n == |Chunks(sent.payload(id), cfg.Size())| && e < |events| && Round(e, m) < n
    requires Rows(sent, cfg.Size(), After(cfg, events[..e]), id, n, Round(e, m), Turn(e, m), m, base)
    ensures Rows(sent, cfg.Size(), After(cfg, events[..e + 1]), id, n, Round(e, m), Turn(e, m) + 1, m, base)
    ensures Outcome(cfg, events, e) ==
      if Round(e, m) + 1 == n then Success(Assembled(id, sent.payload(id))) else Failure(TryAgain)
  {
    hide DecodedEvent, Arrive, Rows, Carries, Genuine, Chunks, Codec.Readable, Round, Turn;
    CarriedSegment(cfg, sent, events[e], id, Round(e, m));
    SizeWithinFrame(cfg);
    assert events[..e + 1][..e] == events[..e];
    CopyArrives(sent, cfg.Size(), After(cfg, events[..e]), events[e].time, DecodedEvent(cfg, events[e]).value,
                cfg.S, cfg.R, n, Round(e, m), Turn(e, m), m, base);
  }

  /** The answers: every copy of the last segment hands the message out, and nothing else does. */
  lemma EveryCopyDelivers(cfg: Config, sent: Messages, events: seq<Event>, id: bv32, m: nat, base: nat, e: nat)
    requires cfg.Valid() && Sendable(sent, cfg.Size(), cfg.R) && 0 < m <= cfg.Q
    requires Repeated(cfg, sent, events, id, m, base) && e < |events|
    ensures ValidRun(cfg, events)
    ensures Outcome(cfg, events, e) == if Round(e, m) + 1 == |Chunks(sent.payload(id), cfg.Size())|
      then Success(Assembled(id, sent.payload(id))) else Failure(TryAgain)
  {
    hide Outcome, Chunks, Rows, After, Carries, Round, Turn;
    RepeatedValid(cfg, sent, events, id, m, base);
    RowsAfter(cfg, sent, events, id, m, base, e);
    CopyStep(cfg, sent, events, id, m, base, |Chunks(sent.payload(id), cfg.Size())|, e);
  }

  lemma {:induction false} CountedDeliveries(cfg: Config, sent: Messages, events: seq<Event>, id: bv32, m: nat,
                                             base: nat, e: nat)
    requires cfg.Valid() && Sendable(sent, cfg.Size(), cfg.R) && 0 < m <= cfg.Q
    requires Repeated(cfg, sent, events, id, m, base) && ValidRun(cfg, events) && e <= |events|
    ensures
      var last := (|Chunks(sent.payload(id), cfg.Size())| - 1) * m;
      Deliveries(cfg, events[..e], id) == if e <= last then 0 else e - last
    decreases e
  {
    hide Outcome, Chunks, Repeated, Step, Round;
    RepeatedLength(cfg, sent, events, id, m, base);
    NoChunks(sent.payload(id), cfg.Size());
    if e == 0 {
      assert events[..0] == [];
      LastRound(|Chunks(sent.payload(id), cfg.Size())|, m, 0);
    } else {
      CountedDeliveries(cfg, sent, events, id, m, base, e - 1);
      EveryCopyDelivers(cfg, sent, events, id, m, base, e - 1);
      LastRound(|Chunks(sent.payload(id), cfg.Size())|, m, e - 1);
      DeliveriesStep(cfg, events, id, e - 1);
    }
  }

  lemma RepeatedLength(cfg: Config, sent: Messages, events: seq<Event>, id: bv32, m: nat, base: nat)
    requires cfg.Valid() && m > 0 && Repeated(cfg, sent, events, id, m, base)
    ensures id in sent.ids && |events| == |Chunks(sent.payload(id), cfg.Size())| * m
  {
  }

  lemma LastRound(n: nat, m: nat, e: nat)
    requires n > 0 && m > 0
    ensures e < n * m ==> (Round(e, m) + 1 == n <==> e >= (n - 1) * m)
    ensures (n - 1) * m >= 0 && n * m == (n - 1) * m + m
  {
    assert n * m == (n - 1) * m + m;
    assert e == m * Round(e, m) + Turn(e, m);
    if e < n * m {
      PositionBound(e, n, m);
      if e >= (n - 1) * m {
        DivModOf(e, m, n - 1, e - (n - 1) * m);
      } else {
        PositionBound(e, n - 1, m);
      }
    }
  }

  lemma DeliveriesStep(cfg: Config, events: seq<Event>, id: bv32, e: nat)
    requires ValidRun(cfg, events) && e < |events|
    ensures
      var r := Outcome(cfg, events, e);
      Deliveries(cfg, events[..e + 1], id) == Deliveries(cfg, events[..e], id) + One(r.Success? && r.value.id == id)
  {
    hide Step;
    assert events[..e + 1][..e] == events[..e];
  }

  /**
   The bound on deliveries is met for every number of copies that there are slots for: if each frame of a message
   arrives `m` times, the message is handed out `m` times.
   */
  lemma DeliveredAsOftenAsReceived(cfg: Config, sent: Messages, events: seq<Event>, id: bv32, m: nat, base: nat)
    requires cfg.Valid() && Sendable(sent, cfg.Size(), cfg.R) && 0 < m <= cfg.Q
    requires Repeated(cfg, sent, events, id, m, base)
    ensures ValidRun(cfg, events) && Deliveries(cfg, events, id) == m
  {
    hide Deliveries, Chunks;
    RepeatedValid(cfg, sent, events, id, m, base);
    NoChunks(sent.payload(id), cfg.Size());
    LastRound(|Chunks(sent.payload(id), cfg.Size())|, m, 0);
    CountedDeliveries(cfg, sent, events, id, m, base, |events|);
    assert events[..|events|] == events;
  }
}
