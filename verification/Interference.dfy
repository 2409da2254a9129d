/**
 Transmits share a scratch packet with receives, and slots keep bytes of earlier messages. Neither
 shows: two runs over the same frames at the same times agree in everything that is handed out.
 */
module Interference {
  import opened Wrappers
  import opened Packets
  import opened Coders
  import opened Slots
  import opened Reassembly
  import opened Receiver

  /** Same live headers and times; left-over packets and hidden bytes may differ. */
  ghost predicate AlikeSlot(a: Slot, b: Slot) {
    && a.count == b.count && a.lastUpdate == b.lastUpdate
    && |a.packets| == |b.packets| && a.count <= |a.packets|
    && forall j | 0 <= j < a.count :: a.packets[j].header == b.packets[j].header
  }

  ghost predicate Alike(a: seq<Slot>, b: seq<Slot>) {
    |a| == |b| && forall i | 0 <= i < |a| :: AlikeSlot(a[i], b[i])
  }

  lemma AlikeAnswers(a: Slot, b: Slot, now: nat, p: Packet, q: Packet)
    requires AlikeSlot(a, b) && p.header == q.header
    ensures a.Accepts(p) == b.Accepts(q)
    ensures a.Joins(p) == b.Joins(q)
    ensures a.Opens(now, p) == b.Opens(now, q)
    ensures a.CanAssemble() == b.CanAssemble()
    ensures AlikeSlot(a.Expire(now), b.Expire(now)) && AlikeSlot(a.Release(), b.Release())
    ensures a.count < |a.packets| ==> AlikeSlot(a.Push(now, p), b.Push(now, q))
  {
    AlikeAccepts(a, b, p, q);
    AlikeAccepts(a.Expire(now), b.Expire(now), p, q);
  }

  lemma AlikeAccepts(a: Slot, b: Slot, p: Packet, q: Packet)
    requires AlikeSlot(a, b) && p.header == q.header
    ensures a.Accepts(p) == b.Accepts(q)
  {
    forall j | 0 <= j < a.count ensures a.packets[j].header == b.packets[j].header {
    }
  }

  lemma {:induction false} AlikeSearches(a: seq<Slot>, b: seq<Slot>, now: nat, p: Packet, q: Packet, i: nat)
    requires Alike(a, b) && p.header == q.header && i <= |a|
    ensures forall j | 0 <= j < |a| :: a[j].count <= |a[j].packets| && b[j].count <= |b[j].packets|
    ensures FirstJoin(a, p, i) == FirstJoin(b, q, i)
    ensures FirstOpen(a, now, p, i) == FirstOpen(b, now, q, i)
    ensures FirstComplete(a, i) == FirstComplete(b, i)
    decreases |a| - i
  {
    hide Slot.Joins, Slot.Opens, Slot.CanAssemble;
    if i < |a| {
      AlikeAnswers(a[i], b[i], now, p, q);
      AlikeSearches(a, b, now, p, q, i + 1);
      JoinStep(a, p, i);
      JoinStep(b, q, i);
      OpenStep(a, now, p, i);
      OpenStep(b, now, q, i);
      CompleteStep(a, i);
      CompleteStep(b, i);
    }
  }

  lemma AlikeExpire(a: seq<Slot>, b: seq<Slot>, now: nat, n: nat)
    requires Alike(a, b) && n <= |a|
    ensures Alike(ExpireFirst(a, now, n), ExpireFirst(b, now, n))
  {
  }

  lemma AlikeUpdate(a: seq<Slot>, b: seq<Slot>, i: nat, x: Slot, y: Slot)
    requires Alike(a, b) && i < |a| && AlikeSlot(x, y)
    ensures Alike(a[i := x], b[i := y])
  {
  }

  lemma AlikeMultiplexed(a: seq<Slot>, b: seq<Slot>, now: nat, p: Packet, q: Packet)
    requires Alike(a, b) && p.header == q.header
    ensures forall j | 0 <= j < |a| :: a[j].count <= |a[j].packets| && b[j].count <= |b[j].packets|
    ensures Alike(Multiplexed(a, now, p).0, Multiplexed(b, now, q).0)
    ensures Multiplexed(a, now, p).1 == Multiplexed(b, now, q).1
  {
    hide AlikeSlot, Slot.Joins, Slot.Push, Slot.Expire, ExpireFirst;
    AlikeSearches(a, b, now, p, q, 0);
    var i, k := FirstJoin(a, p, 0), FirstOpen(a, now, p, 0);
    if p.header.HasFlag(SEGMENTED) {
      if i < |a| {
        JoinedHasRoom(a[i], p);
        JoinedHasRoom(b[i], q);
        AlikeAnswers(a[i], b[i], now, p, q);
        AlikeUpdate(a, b, i, a[i].Push(now, p), b[i].Push(now, q));
      } else if k < |a| {
        OpenedHasRoom(a[k], now, p);
        OpenedHasRoom(b[k], now, q);
        AlikeAnswers(a[k], b[k], now, p, q);
        AlikeAnswers(a[k].Expire(now), b[k].Expire(now), now, p, q);
        AlikeExpire(a, b, now, k);
        AlikeUpdate(ExpireFirst(a, now, k), ExpireFirst(b, now, k), k,
                    a[k].Expire(now).Push(now, p), b[k].Expire(now).Push(now, q));
      } else {
        AlikeExpire(a, b, now, |a|);
      }
    }
  }

  lemma JoinedHasRoom(slot: Slot, p: Packet)
    requires slot.count <= |slot.packets| && slot.Joins(p)
    ensures slot.count < |slot.packets|
  {
  }

  lemma OpenedHasRoom(slot: Slot, now: nat, p: Packet)
    requires slot.count <= |slot.packets| && slot.Opens(now, p)
    ensures slot.Expire(now).count < |slot.Expire(now).packets|
  {
  }

  lemma AlikeProcessed(sent: Messages, size: nat, a: seq<Slot>, b: seq<Slot>, S: nat, R: nat)
    requires Sendable(sent, size, R) && size <= S && ValidTable(a, S, R) && ValidTable(b, S, R)
    requires GoodTable(sent, size, a) && GoodTable(sent, size, b) && Alike(a, b)
    ensures Alike(Processed(a, S, R).0, Processed(b, S, R).0)
    ensures Processed(a, S, R).1 == Processed(b, S, R).1
  {
    hide AssembledSlot, Slot.CanAssemble, Slot.Valid, GoodSlot;
    AlikeSearches(a, b, 0, NewPacket(S), NewPacket(S), 0);
    var i := FirstComplete(a, 0);
    if i < |a| {
      assert a[i].Valid(S, R) && b[i].Valid(S, R);
      CompleteAssembles(sent, size, a[i], S, R);
      CompleteAssembles(sent, size, b[i], S, R);
      CompleteNonEmpty(a[i]);
      AlikeAnswers(a[i], b[i], 0, NewPacket(S), NewPacket(S));
    }
  }

  lemma CompleteNonEmpty(slot: Slot)
    requires slot.count <= |slot.packets| && slot.CanAssemble()
    ensures slot.count > 0
  {
  }

  lemma AlikeArrive(sent: Messages, size: nat, a: seq<Slot>, b: seq<Slot>, now: nat, p: Packet, q: Packet,
                    S: nat, R: nat)
    requires Sendable(sent, size, R) && size <= S && ValidTable(a, S, R) && ValidTable(b, S, R)
    requires GoodTable(sent, size, a) && GoodTable(sent, size, b) && Alike(a, b)
    requires p.Valid(S) && q.Valid(S) && p.header == q.header
    requires p.header.HasFlag(SEGMENTED) ==> Genuine(sent, size, p) && Genuine(sent, size, q)
    ensures Alike(Arrive(a, now, p, S, R).0, Arrive(b, now, q, S, R).0)
    ensures Arrive(a, now, p, S, R).1 == Arrive(b, now, q, S, R).1
  {
    hide Multiplexed, Processed, Genuine, AlikeSlot, GoodSlot;
    MultiplexedValid(a, now, p, S, R);
    MultiplexedValid(b, now, q, S, R);
    MultiplexGood(sent, size, a, now, p);
    MultiplexGood(sent, size, b, now, q);
    AlikeMultiplexed(a, b, now, p, q);
    AlikeProcessed(sent, size, Multiplexed(a, now, p).0, Multiplexed(b, now, q).0, S, R);
    var x, y := Processed(Multiplexed(a, now, p).0, S, R).0, Processed(Multiplexed(b, now, q).0, S, R).0;
    AlikeExpire(x, y, now, |x|);
  }

  // ----- runs

  ghost predicate SameTraffic(events: seq<Event>, others: seq<Event>) {
    && |events| == |others|
    && forall i | 0 <= i < |events| :: events[i].time == others[i].time && events[i].frame == others[i].frame
  }

  lemma SameHeader(cfg: Config, e: Event, f: Event)
    requires e.Valid(cfg) && f.Valid(cfg) && e.frame == f.frame
    ensures
      match DecodedEvent(cfg, e)
      case Failure(x) => DecodedEvent(cfg, f) == Failure(x)
      case Success(p) => DecodedEvent(cfg, f).Success? && DecodedEvent(cfg, f).value.header == p.header
  {
    PriorIrrelevant(cfg.codec, cfg.S, e.prior, f.prior, e.frame);
  }

  lemma AlikeStep(cfg: Config, sent: Messages, a: seq<Slot>, b: seq<Slot>, e: Event, f: Event)
    requires cfg.Valid() && Sendable(sent, cfg.Size(), cfg.R)
    requires ValidTable(a, cfg.S, cfg.R) && ValidTable(b, cfg.S, cfg.R) && Alike(a, b)
    requires GoodTable(sent, cfg.Size(), a) && GoodTable(sent, cfg.Size(), b)
    requires e.Valid(cfg) && f.Valid(cfg) && e.frame == f.frame && e.time == f.time
    requires Admissible(cfg, sent, e) && Admissible(cfg, sent, f)
    ensures Alike(Step(cfg, a, e).0, Step(cfg, b, f).0)
    ensures Step(cfg, a, e).1 == Step(cfg, b, f).1
  {
    hide DecodedEvent, Arrive, Genuine, GoodTable, Alike;
    SameHeader(cfg, e, f);
    if DecodedEvent(cfg, e).Success? {
      SizeWithinFrame(cfg);
      AlikeArrive(sent, cfg.Size(), a, b, e.time, DecodedEvent(cfg, e).value, DecodedEvent(cfg, f).value, cfg.S, cfg.R);
    }
  }

  lemma {:induction false} AlikeRuns(cfg: Config, sent: Messages, events: seq<Event>, others: seq<Event>)
    requires cfg.Valid() && Sendable(sent, cfg.Size(), cfg.R) && SameTraffic(events, others)
    requires AdmissibleRun(cfg, sent, events) && AdmissibleRun(cfg, sent, others)
    ensures Alike(After(cfg, events), After(cfg, others))
    decreases |events|
  {
    hide Step, Admissible;
    if events != [] {
      var n := |events| - 1;
      AlikeRuns(cfg, sent, events[..n], others[..n]);
      ReachableTables(cfg, sent, events[..n]);
      ReachableTables(cfg, sent, others[..n]);
      AlikeStep(cfg, sent, After(cfg, events[..n]), After(cfg, others[..n]), events[n], others[n]);
    }
  }

  /** The same frames at the same times give the same answers, whatever the transmit side did in between. */
  lemma ScratchNeverShows(cfg: Config, sent: Messages, events: seq<Event>, others: seq<Event>, i: nat)
    requires cfg.Valid() && Sendable(sent, cfg.Size(), cfg.R) && SameTraffic(events, others)
    requires AdmissibleRun(cfg, sent, events) && AdmissibleRun(cfg, sent, others) && i < |events|
    ensures Outcome(cfg, events, i) == Outcome(cfg, others, i)
  {
    hide Step, Admissible;
    AlikeRuns(cfg, sent, events[..i], others[..i]);
    ReachableTables(cfg, sent, events[..i]);
    ReachableTables(cfg, sent, others[..i]);
    AlikeStep(cfg, sent, After(cfg, events[..i]), After(cfg, others[..i]), events[i], others[i]);
  }
}
