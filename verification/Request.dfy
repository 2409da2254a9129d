/** The table of requests waiting for a response. */
module Requests {
  import opened Wrappers
  import opened Packets
  import opened Slots

  /** A responder is moved into the request and from there into its single call. */
  datatype Request<R> = NewRequest(id: bv32, startTime: nat, timeout: nat, responder: R) {
    predicate Expired(now: nat) {
      TimeElapsed(startTime, now, timeout)
    }
  }

  type Queue<R> = seq<Option<Request<R>>>

  // ----- what the operations do

  function Purge<R>(slot: Option<Request<R>>, now: nat): Option<Request<R>> {
    if slot.Some? && slot.value.Expired(now) then None else slot
  }

  function Purged<R>(queue: Queue<R>, now: nat): (q: Queue<R>)
    ensures |q| == |queue| && forall i | 0 <= i < |q| :: q[i] == Purge(queue[i], now)
  {
    seq(|queue|, i requires 0 <= i < |queue| => Purge(queue[i], now))
  }

  function FirstFree<R>(queue: Queue<R>, from: nat): (i: nat)
    requires from <= |queue|
    ensures from <= i <= |queue|
    ensures forall j | from <= j < i :: queue[j].Some?
    ensures i < |queue| ==> queue[i].None?
    decreases |queue| - from
  {
    if from == |queue| || queue[from].None? then from else FirstFree(queue, from + 1)
  }

  function FirstFor<R>(queue: Queue<R>, id: bv32, from: nat): (i: nat)
    requires from <= |queue|
    ensures from <= i <= |queue|
    ensures forall j | from <= j < i :: queue[j].Some? ==> queue[j].value.id != id
    ensures i < |queue| ==> queue[i].Some? && queue[i].value.id == id
    decreases |queue| - from
  {
    if from == |queue| || (queue[from].Some? && queue[from].value.id == id) then from else FirstFor(queue, id, from + 1)
  }

  /** A request: expired ones are purged first, then the first free slot is taken. */
  function Requested<R>(queue: Queue<R>, now: nat, request: Request<R>): (Queue<R>, Option<NetworkError>) {
    var q := Purged(queue, now);
    var i := FirstFree(q, 0);
    if i < |q| then (q[i := Some(request)], None) else (q, Some(Busy))
  }

  /** A response: the first request for the identifier is taken out, and its responder is called. */
  function Responded<R>(queue: Queue<R>, id: bv32): (Queue<R>, Option<R>) {
    var i := FirstFor(queue, id, 0);
    if i < |queue| then (queue[i := None], Some(queue[i].value.responder)) else (queue, None)
  }

  class RequestQueue<R, T> {
    const queue: array<Option<Request<R>>>

    ghost function Model(): Queue<R>
      reads this, queue
    {
      queue[..]
    }

    constructor (q: nat)
      ensures Model() == seq(q, _ => None) && fresh(queue)
    {
      queue := new Option<Request<R>>[q](_ => None);
    }

    /** The call made to a responder, if any. */
    method Response(id: bv32, item: T) returns (call: Option<(R, bv32, T)>)
      modifies queue
      ensures
        var (q, responder) := Responded(old(Model()), id);
        && Model() == q
        && call == if responder.Some? then Some((responder.value, id, item)) else None
    {
      for i := 0 to queue.Length
        invariant Model() == old(Model()) && FirstFor(old(Model()), id, i) == FirstFor(old(Model()), id, 0)
      {
        if queue[i].Some? && queue[i].value.id == id {
          var request := queue[i].value;
          queue[i] := None;
          return Some((request.responder, id, item));
        }
      }
      return None;
    }

    method Request(id: bv32, now: nat, timeout: nat, responder: R) returns (error: Option<NetworkError>)
      modifies queue
      ensures (Model(), error) == Requested(old(Model()), now, NewRequest(id, now, timeout, responder))
    {
      ghost var purged := Purged(Model(), now);
      for i := 0 to queue.Length
        invariant forall j | 0 <= j < i :: queue[j] == purged[j]
        invariant forall j | i <= j < queue.Length :: queue[j] == old(queue[j])
      {
        if queue[i].Some? && TimeElapsed(queue[i].value.startTime, now, queue[i].value.timeout) {
          queue[i] := None;
        }
      }
      assert queue[..] == purged;
      for i := 0 to queue.Length
        invariant queue[..] == purged && FirstFree(purged, i) == FirstFree(purged, 0)
      {
        if queue[i].None? {
          queue[i] := Some(NewRequest(id, now, timeout, responder));
          return None;
        }
      }
      return Some(Busy);
    }
  }

  // ----- properties of single operations

  /** A request is refused exactly when every slot holds a request that has not expired. */
  lemma BusyIff<R>(queue: Queue<R>, now: nat, request: Request<R>)
    ensures Requested(queue, now, request).1 == Some(Busy)
      <==> forall i | 0 <= i < |queue| :: queue[i].Some? && !queue[i].value.Expired(now)
  {
    var q := Purged(queue, now);
    var free := FirstFree(q, 0);
    if free < |q| {
      assert q[free] == Purge(queue[free], now);
    } else {
      forall i | 0 <= i < |queue| ensures queue[i].Some? && !queue[i].value.Expired(now) {
        assert q[i] == Purge(queue[i], now);
      }
    }
  }

  /** A slot that holds no request, or one that has waited for longer than its timeout. */
  ghost predicate IsFree<R>(slot: Option<Request<R>>, now: nat) {
    slot.None? || now > slot.value.startTime + slot.value.timeout
  }

  /**
   An accepted request is stored as it was made, in the first free slot; every expired request is gone, and every
   other is as it was.
   */
  lemma RequestStored<R>(queue: Queue<R>, id: bv32, now: nat, timeout: nat, responder: R, i: nat)
    requires i < |queue| && IsFree(queue[i], now) && forall j | 0 <= j < i :: !IsFree(queue[j], now)
    ensures
      var (q, error) := Requested(queue, now, NewRequest(id, now, timeout, responder));
      && error == None && |q| == |queue| && q[i].Some?
      && q[i].value.id == id && q[i].value.startTime == now && q[i].value.timeout == timeout
      && q[i].value.responder == responder
      && forall j | 0 <= j < |queue| && j != i :: q[j] == if IsFree(queue[j], now) then None else queue[j]
  {
    var purged := Purged(queue, now);
    forall j | 0 <= j < |queue| ensures purged[j] == if IsFree(queue[j], now) then None else queue[j] {
      assert purged[j] == Purge(queue[j], now);
    }
    assert FirstFree(purged, 0) == i;
  }

  /** A refused request changes nothing. */
  lemma BusyChangesNothing<R>(queue: Queue<R>, now: nat, request: Request<R>)
    requires forall j | 0 <= j < |queue| :: !IsFree(queue[j], now)
    ensures Requested(queue, now, request) == (queue, Some(Busy))
  {
    assert Purged(queue, now) == queue;
  }

  /** A responder is only ever called for the identifier of its own request, and is gone afterwards. */
  lemma CalledForOwnId<R(!new)>(queue: Queue<R>, id: bv32)
    requires Responded(queue, id).1.Some?
    ensures
      var (q, responder) := Responded(queue, id);
      exists i | 0 <= i < |queue| && queue[i].Some? ::
        && queue[i].value.id == id && queue[i].value.responder == responder.value
        && q == queue[i := None]
        && forall j | 0 <= j < i && queue[j].Some? :: queue[j].value.id != id
  {
    var i := FirstFor(queue, id, 0);
    assert queue[i].value.id == id;
  }

  // ----- conservation over runs

  datatype Op<R> = Ask(id: bv32, now: nat, timeout: nat, responder: R) | Answer(id: bv32)

  /** For one responder: how often it was accepted, called and purged. */
  datatype Ledger = Ledger(accepted: nat, called: nat, purged: nat)

  /** Requests with this responder in the first `n` slots. */
  ghost function Waiting<R>(queue: Queue<R>, n: nat, r: R): nat
    requires n <= |queue|
  {
    if n == 0 then 0 else Waiting(queue, n - 1, r) + One(queue[n - 1].Some? && queue[n - 1].value.responder == r)
  }

  /** Those of them that a purge removes. */
  ghost function Purging<R>(queue: Queue<R>, now: nat, n: nat, r: R): nat
    requires n <= |queue|
  {
    if n == 0 then 0
    else
      var slot := queue[n - 1];
      Purging(queue, now, n - 1, r) + One(slot.Some? && slot.value.Expired(now) && slot.value.responder == r)
  }

  function Apply<R>(queue: Queue<R>, op: Op<R>): Queue<R> {
    match op
    case Ask(id, now, timeout, responder) => Requested(queue, now, NewRequest(id, now, timeout, responder)).0
    case Answer(id) => Responded(queue, id).0
  }

  function Run<R>(q: nat, ops: seq<Op<R>>): Queue<R> {
    if ops == [] then seq(q, _ => None) else Apply(Run(q, ops[..|ops| - 1]), ops[|ops| - 1])
  }

  ghost function Entry<R>(queue: Queue<R>, op: Op<R>, r: R): Ledger {
    match op
    case Ask(id, now, timeout, responder) =>
      var error := Requested(queue, now, NewRequest(id, now, timeout, responder)).1;
      Ledger(One(error.None? && responder == r), 0, Purging(queue, now, |queue|, r))
    case Answer(id) => Ledger(0, One(Responded(queue, id).1 == Some(r)), 0)
  }

  ghost function RunLedger<R>(q: nat, ops: seq<Op<R>>, r: R): Ledger {
    if ops == [] then Ledger(0, 0, 0)
    else
      var n := |ops| - 1;
      var before, e := RunLedger(q, ops[..n], r), Entry(Run(q, ops[..n]), ops[n], r);
      Ledger(before.accepted + e.accepted, before.called + e.called, before.purged + e.purged)
  }

  lemma {:induction false} WaitingReplace<R>(queue: Queue<R>, i: nat, slot: Option<Request<R>>, n: nat, r: R)
    requires i < |queue| && n <= |queue|
    ensures Waiting(queue[i := slot], n, r) == Waiting(queue, n, r) + if i < n then
      One(slot.Some? && slot.value.responder == r) - One(queue[i].Some? && queue[i].value.responder == r) else 0
  {
    if n > 0 {
      WaitingReplace(queue, i, slot, n - 1, r);
    }
  }

  lemma {:induction false} WaitingPurged<R>(queue: Queue<R>, now: nat, n: nat, r: R)
    requires n <= |queue|
    ensures Waiting(Purged(queue, now), n, r) + Purging(queue, now, n, r) == Waiting(queue, n, r)
  {
    if n > 0 {
      WaitingPurged(queue, now, n - 1, r);
    }
  }

  lemma ApplyConserves<R>(queue: Queue<R>, op: Op<R>, r: R)
    ensures
      var next, e := Apply(queue, op), Entry(queue, op, r);
      |next| == |queue| && Waiting(queue, |queue|, r) + e.accepted == Waiting(next, |next|, r) + e.called + e.purged
  {
    hide Waiting, Purging;
    match op
    case Ask(id, now, timeout, responder) =>
      var purged := Purged(queue, now);
      WaitingPurged(queue, now, |queue|, r);
      var i := FirstFree(purged, 0);
      if i < |purged| {
        WaitingReplace(purged, i, Some(NewRequest(id, now, timeout, responder)), |purged|, r);
      }
    case Answer(id) =>
      var i := FirstFor(queue, id, 0);
      if i < |queue| {
        WaitingReplace(queue, i, None, |queue|, r);
      }
  }

  lemma {:induction false} NothingWaiting<R>(q: nat, n: nat, r: R)
    requires n <= q
    ensures Waiting(seq(q, _ => None), n, r) == 0
  {
    if n > 0 {
      NothingWaiting(q, n - 1, r);
    }
  }

  /** Over any run, every accepted request has been answered, has been purged, or is still waiting. */
  lemma {:induction false} RunConserves<R>(q: nat, ops: seq<Op<R>>, r: R)
    ensures |Run(q, ops)| == q
    ensures
      var l := RunLedger(q, ops, r);
      l.accepted == l.called + l.purged + Waiting(Run(q, ops), q, r)
    decreases |ops|
  {
    hide Waiting, Apply, Entry;
    if ops == [] {
      NothingWaiting(q, q, r);
    } else {
      var n := |ops| - 1;
      RunConserves(q, ops[..n], r);
      ApplyConserves(Run(q, ops[..n]), ops[n], r);
    }
  }

  // ----- what becomes of one request

  /** A run that starts from any table. */
  function RunOn<R>(queue: Queue<R>, ops: seq<Op<R>>): Queue<R> {
    if ops == [] then queue else Apply(RunOn(queue, ops[..|ops| - 1]), ops[|ops| - 1])
  }

  lemma {:induction false} RunSplits<R>(q: nat, ops: seq<Op<R>>, more: seq<Op<R>>)
    ensures Run(q, ops + more) == RunOn(Run(q, ops), more)
  {
    if more == [] {
      assert ops + more == ops;
    } else {
      var n := |more| - 1;
      RunSplits(q, ops, more[..n]);
      assert (ops + more)[..|ops| + n] == ops + more[..n];
    }
  }

  /** The table holds this request and no other with its identifier. */
  ghost predicate HoldsOnly<R>(queue: Queue<R>, request: Request<R>) {
    exists i | 0 <= i < |queue| :: queue[i] == Some(request)
      && forall j | 0 <= j < |queue| && j != i && queue[j].Some? :: queue[j].value.id != request.id
  }

  ghost predicate HoldsNone<R>(queue: Queue<R>, id: bv32) {
    forall j | 0 <= j < |queue| && queue[j].Some? :: queue[j].value.id != id
  }

  /** The operation is about another identifier. */
  predicate IsOther<R>(op: Op<R>, id: bv32) {
    op.id != id
  }

  /** The operation comes too late for the request: it purges it. */
  predicate Outlives<R>(op: Op<R>, request: Request<R>) {
    op.Ask? && op.now > request.startTime + request.timeout
  }

  lemma AskOther<R>(queue: Queue<R>, op: Op<R>, request: Request<R>)
    requires op.Ask? && IsOther(op, request.id)
    ensures HoldsOnly(queue, request) ==>
      if Outlives(op, request) then HoldsNone(Apply(queue, op), request.id) else HoldsOnly(Apply(queue, op), request)
    ensures HoldsNone(queue, request.id) ==> HoldsNone(Apply(queue, op), request.id)
  {
    var purged := Purged(queue, op.now);
    var next := Apply(queue, op);
    var free := FirstFree(purged, 0);
    if HoldsOnly(queue, request) && !Outlives(op, request) {
      var i :| 0 <= i < |queue| && queue[i] == Some(request)
               && forall j | 0 <= j < |queue| && j != i && queue[j].Some? :: queue[j].value.id != request.id;
      assert purged[i] == queue[i] && next[i] == queue[i];
    }
  }

  lemma AnswerOther<R>(queue: Queue<R>, op: Op<R>, request: Request<R>)
    requires op.Answer? && IsOther(op, request.id)
    ensures HoldsOnly(queue, request) ==> HoldsOnly(Apply(queue, op), request)
    ensures HoldsNone(queue, request.id) ==> HoldsNone(Apply(queue, op), request.id)
  {
    if HoldsOnly(queue, request) {
      var i :| 0 <= i < |queue| && queue[i] == Some(request)
               && forall j | 0 <= j < |queue| && j != i && queue[j].Some? :: queue[j].value.id != request.id;
      assert Apply(queue, op)[i] == queue[i];
    }
  }

  /** Through operations for other identifiers a request stays until one of them outlives it. */
  lemma {:induction false} StaysUntilOutlived<R>(queue: Queue<R>, ops: seq<Op<R>>, request: Request<R>)
    requires HoldsOnly(queue, request) && forall k | 0 <= k < |ops| :: IsOther(ops[k], request.id)
    ensures
      if exists k | 0 <= k < |ops| :: Outlives(ops[k], request) then HoldsNone(RunOn(queue, ops), request.id)
      else HoldsOnly(RunOn(queue, ops), request)
    decreases |ops|
  {
    hide Apply, HoldsOnly, HoldsNone;
    if ops != [] {
      var n := |ops| - 1;
      StaysUntilOutlived(queue, ops[..n], request);
      assert IsOther(ops[n], request.id);
      if ops[n].Ask? {
        AskOther(RunOn(queue, ops[..n]), ops[n], request);
      } else {
        AnswerOther(RunOn(queue, ops[..n]), ops[n], request);
      }
      if exists k | 0 <= k < n :: Outlives(ops[..n][k], request) {
        var k :| 0 <= k < n && Outlives(ops[..n][k], request);
        assert Outlives(ops[k], request);
      } else {
        forall k | 0 <= k < |ops| ensures Outlives(ops[k], request) ==> k == n {
          if k < n {
            assert ops[..n][k] == ops[k];
          }
        }
      }
    }
  }

  lemma AcceptedHeld<R>(queue: Queue<R>, id: bv32, now: nat, timeout: nat, r: R)
    requires Requested(queue, now, NewRequest(id, now, timeout, r)).1 == None
    requires forall i | 0 <= i < |queue| && queue[i].Some? && queue[i].value.id == id :: IsFree(queue[i], now)
    ensures HoldsOnly(Apply(queue, Ask(id, now, timeout, r)), NewRequest(id, now, timeout, r))
  {
    var purged := Purged(queue, now);
    var i := FirstFree(purged, 0);
    assert Apply(queue, Ask(id, now, timeout, r))[i] == Some(NewRequest(id, now, timeout, r));
  }

  lemma AnsweredBy<R>(queue: Queue<R>, request: Request<R>)
    ensures HoldsOnly(queue, request) ==> Responded(queue, request.id).1 == Some(request.responder)
    ensures HoldsNone(queue, request.id) ==> Responded(queue, request.id).1 == None
  {
  }

  /**
   What becomes of an accepted request whose identifier no pending request shares: after any operations for other
   identifiers, the answer to it calls its responder, unless one of them was a request made after its timeout.
   */
  lemma AnswerCallsResponder<R>(queue: Queue<R>, id: bv32, now: nat, timeout: nat, r: R, ops: seq<Op<R>>)
    requires Requested(queue, now, NewRequest(id, now, timeout, r)).1 == None
    requires forall i | 0 <= i < |queue| && queue[i].Some? && queue[i].value.id == id ::
        now > queue[i].value.startTime + queue[i].value.timeout
    requires forall k | 0 <= k < |ops| :: ops[k].id != id
    ensures
      var next := RunOn(Apply(queue, Ask(id, now, timeout, r)), ops);
      Responded(next, id).1 ==
        if exists k | 0 <= k < |ops| :: ops[k].Ask? && ops[k].now > now + timeout then None else Some(r)
  {
    hide HoldsOnly, HoldsNone, Apply, Requested, Responded;
    var request := NewRequest(id, now, timeout, r);
    var next := Apply(queue, Ask(id, now, timeout, r));
    AcceptedHeld(queue, id, now, timeout, r);
    StaysUntilOutlived(next, ops, request);
    AnsweredBy(RunOn(next, ops), request);
    if k :| 0 <= k < |ops| && ops[k].Ask? && ops[k].now > now + timeout {
      assert Outlives(ops[k], request);
    }
  }

  /** The same for a table that starts empty, at any point of a run. */
  lemma RunAnswers<R>(q: nat, before: seq<Op<R>>, id: bv32, now: nat, timeout: nat, r: R, between: seq<Op<R>>)
    requires Requested(Run(q, before), now, NewRequest(id, now, timeout, r)).1 == None
    requires forall i | 0 <= i < |Run(q, before)| && Run(q, before)[i].Some? && Run(q, before)[i].value.id == id ::
        now > Run(q, before)[i].value.startTime + Run(q, before)[i].value.timeout
    requires forall k | 0 <= k < |between| :: between[k].id != id
    requires forall k | 0 <= k < |between| && between[k].Ask? :: between[k].now <= now + timeout
    ensures Responded(Run(q, before + [Ask(id, now, timeout, r)] + between), id).1 == Some(r)
  {
    hide Requested, Responded, Apply;
    var ask := Ask(id, now, timeout, r);
    RunSplits(q, before + [ask], between);
    RunSplits(q, before, [ask]);
    assert [ask][..0] == [];
    assert RunOn(Run(q, before), [ask][..0]) == Run(q, before);
    AnswerCallsResponder(Run(q, before), id, now, timeout, r, between);
  }

  /** How often a responder was handed over. */
  function Asked<R(==)>(ops: seq<Op<R>>, r: R): nat {
    if ops == [] then 0
    else Asked(ops[..|ops| - 1], r) + One(ops[|ops| - 1].Ask? && ops[|ops| - 1].responder == r)
  }

  lemma {:induction false} AcceptedAtMostAsked<R>(q: nat, ops: seq<Op<R>>, r: R)
    ensures RunLedger(q, ops, r).accepted <= Asked(ops, r)
    decreases |ops|
  {
    hide Requested, Responded, Purging;
    if ops != [] {
      AcceptedAtMostAsked(q, ops[..|ops| - 1], r);
    }
  }

  /** A responder that was handed over once is called at most once. */
  lemma CalledAtMostOnce<R>(q: nat, ops: seq<Op<R>>, r: R)
    requires Asked(ops, r) <= 1
    ensures RunLedger(q, ops, r).called <= 1
    ensures |Run(q, ops)| == q
    ensures RunLedger(q, ops, r).called == 1 ==> RunLedger(q, ops, r).purged == 0 && Waiting(Run(q, ops), q, r) == 0
  {
    RunConserves(q, ops, r);
    AcceptedAtMostAsked(q, ops, r);
  }
}
