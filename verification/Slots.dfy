/** The reassembly table as a value: what each operation of the muxer does to it. */
module Slots {
  import opened Bytes
  import opened Wrappers
  import opened Packets

  /** Milliseconds after its last packet at which an unfinished message is given up. */
  const TIMEOUT: nat := 500

  predicate TimeElapsed(start: nat, now: nat, duration: nat) {
    now > start + duration
  }

  /**
   One slot. Only the first `count` packets are live; the others are left over from earlier messages
   and are still visited by `Assembled`.
   */
  datatype Slot = Slot(packets: seq<Packet>, count: nat, lastUpdate: nat) {

    predicate Valid(S: nat, R: nat) {
      && |packets| == R
      && count <= R
      && forall i | 0 <= i < R :: packets[i].Valid(S)
    }

    function Id(): bv32
      requires count <= |packets|
    {
      if count == 0 then 0 else packets[0].header.id
    }

    predicate Accepts(p: Packet)
      requires count <= |packets|
    {
      && count < |packets|
      && p.header.seqCount <= |packets|
      && forall i | 0 <= i < count :: packets[i].header.id == p.header.id && packets[i].header.seqNo != p.header.seqNo
    }

    function Push(now: nat, p: Packet): Slot
      requires count < |packets|
    {
      Slot(packets[count := p], count + 1, now)
    }

    function Release(): Slot {
      this.(count := 0, lastUpdate := 0)
    }

    predicate TimedOut(now: nat) {
      TimeElapsed(lastUpdate, now, TIMEOUT)
    }

    function Expire(now: nat): Slot {
      if TimedOut(now) then Release() else this
    }

    predicate CanAssemble()
      requires count <= |packets|
    {
      count != 0 && packets[0].header.seqCount <= count
    }

    /** A packet of a message already in this slot that the slot takes. */
    predicate Joins(p: Packet)
      requires count <= |packets|
    {
      count != 0 && Id() == p.header.id && Accepts(p)
    }

    /** Free, or made free by expiry, and willing to start with `p`. */
    predicate Opens(now: nat, p: Packet)
      requires count <= |packets|
    {
      Expire(now).count == 0 && Expire(now).Accepts(p)
    }
  }

  predicate ValidTable(slots: seq<Slot>, S: nat, R: nat) {
    forall i | 0 <= i < |slots| :: slots[i].Valid(S, R)
  }

  // ----- linear searches

  function FirstSeq(packets: seq<Packet>, seqNo: nat, from: nat): (i: nat)
    requires from <= |packets|
    ensures from <= i <= |packets|
    ensures forall j | from <= j < i :: packets[j].header.seqNo != seqNo
    ensures i < |packets| ==> packets[i].header.seqNo == seqNo
    decreases |packets| - from
  {
    if from == |packets| || packets[from].header.seqNo == seqNo then from else FirstSeq(packets, seqNo, from + 1)
  }

  function FirstJoin(slots: seq<Slot>, p: Packet, from: nat): (i: nat)
    requires from <= |slots| && forall j | 0 <= j < |slots| :: slots[j].count <= |slots[j].packets|
    ensures from <= i <= |slots|
    ensures forall j | from <= j < i :: !slots[j].Joins(p)
    ensures i < |slots| ==> slots[i].Joins(p)
    decreases |slots| - from
  {
    if from == |slots| || slots[from].Joins(p) then from else FirstJoin(slots, p, from + 1)
  }

  function FirstOpen(slots: seq<Slot>, now: nat, p: Packet, from: nat): (i: nat)
    requires from <= |slots| && forall j | 0 <= j < |slots| :: slots[j].count <= |slots[j].packets|
    ensures from <= i <= |slots|
    ensures forall j | from <= j < i :: !slots[j].Opens(now, p)
    ensures i < |slots| ==> slots[i].Opens(now, p)
    decreases |slots| - from
  {
    if from == |slots| || slots[from].Opens(now, p) then from else FirstOpen(slots, now, p, from + 1)
  }

  function FirstComplete(slots: seq<Slot>, from: nat): (i: nat)
    requires from <= |slots| && forall j | 0 <= j < |slots| :: slots[j].count <= |slots[j].packets|
    ensures from <= i <= |slots|
    ensures forall j | from <= j < i :: !slots[j].CanAssemble()
    ensures i < |slots| ==> slots[i].CanAssemble()
    decreases |slots| - from
  {
    if from == |slots| || slots[from].CanAssemble() then from else FirstComplete(slots, from + 1)
  }

  lemma JoinStep(slots: seq<Slot>, p: Packet, i: nat)
    requires i < |slots| && forall j | 0 <= j < |slots| :: slots[j].count <= |slots[j].packets|
    ensures FirstJoin(slots, p, i) == if slots[i].Joins(p) then i else FirstJoin(slots, p, i + 1)
  {
  }

  lemma OpenStep(slots: seq<Slot>, now: nat, p: Packet, i: nat)
    requires i < |slots| && forall j | 0 <= j < |slots| :: slots[j].count <= |slots[j].packets|
    ensures FirstOpen(slots, now, p, i) == if slots[i].Opens(now, p) then i else FirstOpen(slots, now, p, i + 1)
  {
  }

  lemma CompleteStep(slots: seq<Slot>, i: nat)
    requires i < |slots| && forall j | 0 <= j < |slots| :: slots[j].count <= |slots[j].packets|
    ensures FirstComplete(slots, i) == if slots[i].CanAssemble() then i else FirstComplete(slots, i + 1)
  {
  }

  // ----- the operations

  /** Expiry of the first `n` slots. */
  function ExpireFirst(slots: seq<Slot>, now: nat, n: nat): (r: seq<Slot>)
    requires n <= |slots|
    ensures |r| == |slots|
    ensures forall i | 0 <= i < |r| :: r[i] == if i < n then slots[i].Expire(now) else slots[i]
  {
    seq(|slots|, i requires 0 <= i < |slots| => if i < n then slots[i].Expire(now) else slots[i])
  }

  lemma ExpireFirstSteps(slots: seq<Slot>, now: nat, n: nat)
    ensures ExpireFirst(slots, now, 0) == slots
    ensures n < |slots| ==>
      ExpireFirst(slots, now, n)[n := ExpireFirst(slots, now, n)[n].Expire(now)] == ExpireFirst(slots, now, n + 1)
    ensures n < |slots| ==> ExpireFirst(slots, now, n)[n] == slots[n]
  {
  }

  lemma ExpireFirstReplace(slots: seq<Slot>, now: nat, n: nat, slot: Slot)
    requires n < |slots|
    ensures ExpireFirst(slots, now, n + 1)[n := slot] == ExpireFirst(slots, now, n)[n := slot]
    ensures ExpireFirst(slots, now, n + 1)[n] == slots[n].Expire(now)
  {
  }

  /** A packet joins its message, or else opens the first free slot; slots passed on the way expire. */
  function Multiplexed(slots: seq<Slot>, now: nat, p: Packet): (seq<Slot>, Option<NetworkError>)
    requires forall j | 0 <= j < |slots| :: slots[j].count <= |slots[j].packets|
  {
    if !p.header.HasFlag(SEGMENTED) then (slots, Some(NotSupported))
    else
      var i := FirstJoin(slots, p, 0);
      if i < |slots| then (slots[i := slots[i].Push(now, p)], None)
      else
        var k := FirstOpen(slots, now, p, 0);
        if k < |slots| then
          (ExpireFirst(slots, now, k)[k := slots[k].Expire(now).Push(now, p)], None)
        else
          (ExpireFirst(slots, now, |slots|), Some(TryAgain))
  }

  // ----- storing, said without the searches

  /** Some packets, fewer than the slot has space for, all of the message of `p` and none with its number. */
  ghost predicate HasPlaceFor(slot: Slot, p: Packet) {
    && 0 < slot.count < |slot.packets|
    && forall i | 0 <= i < slot.count ::
        slot.packets[i].header.id == p.header.id && slot.packets[i].header.seqNo != p.header.seqNo
  }

  /** Nothing in the slot, or nothing that is not given up by now. */
  ghost predicate IsVacant(slot: Slot, now: nat) {
    slot.count == 0 || now > slot.lastUpdate + TIMEOUT
  }

  /** A packet is of a kind that is stored at all: part of a message with a supported number of segments. */
  ghost predicate IsStorable(p: Packet, R: nat) {
    p.header.flags & SEGMENTED != 0 && p.header.seqCount <= R && R > 0
  }

  /** Exactly when a packet is stored, repeats included; the two reasons for which it is not are told apart. */
  lemma StoredIff(slots: seq<Slot>, now: nat, p: Packet, S: nat, R: nat)
    requires ValidTable(slots, S, R)
    ensures
      var error := Multiplexed(slots, now, p).1;
      && (error == None <==>
          (IsStorable(p, R) && exists i | 0 <= i < |slots| :: HasPlaceFor(slots[i], p) || IsVacant(slots[i], now)))
      && (error == Some(NotSupported) <==> p.header.flags & SEGMENTED == 0)
      && error in {None, Some(NotSupported), Some(TryAgain)}
  {
    hide Slot.Valid;
    PlacesFound(slots, now, p, S, R);
  }

  lemma PlaceOf(slot: Slot, now: nat, p: Packet, S: nat, R: nat)
    requires slot.Valid(S, R)
    ensures slot.Joins(p) <==> HasPlaceFor(slot, p) && p.header.seqCount <= R
    ensures slot.Opens(now, p) <==> IsVacant(slot, now) && p.header.seqCount <= R && R > 0
  {
  }

  lemma PlacesFound(slots: seq<Slot>, now: nat, p: Packet, S: nat, R: nat)
    requires ValidTable(slots, S, R)
    ensures forall i | 0 <= i < |slots| ::
        && slots[i].count <= |slots[i].packets| == R
        && (slots[i].Joins(p) <==> HasPlaceFor(slots[i], p) && p.header.seqCount <= R)
        && (slots[i].Opens(now, p) <==> IsVacant(slots[i], now) && p.header.seqCount <= R && R > 0)
  {
    forall i | 0 <= i < |slots|
      ensures slots[i].count <= |slots[i].packets| == R
      ensures slots[i].Joins(p) <==> HasPlaceFor(slots[i], p) && p.header.seqCount <= R
      ensures slots[i].Opens(now, p) <==> IsVacant(slots[i], now) && p.header.seqCount <= R && R > 0
    {
      assert slots[i].Valid(S, R);
      PlaceOf(slots[i], now, p, S, R);
    }
  }

  /** A packet that joins becomes the last of the first slot with a place for it, and nothing else changes. */
  lemma JoinsFirstPlace(slots: seq<Slot>, now: nat, p: Packet, S: nat, R: nat, i: nat)
    requires ValidTable(slots, S, R) && IsStorable(p, R)
    requires i < |slots| && HasPlaceFor(slots[i], p) && forall j | 0 <= j < i :: !HasPlaceFor(slots[j], p)
    ensures slots[i].count < |slots[i].packets|
    ensures
      var slot := slots[i];
      Multiplexed(slots, now, p) == (slots[i := Slot(slot.packets[slot.count := p], slot.count + 1, now)], None)
  {
    hide Slot.Valid;
    PlacesFound(slots, now, p, S, R);
    assert FirstJoin(slots, p, 0) == i;
  }

  /**
   A packet without such a place, first of its message or a repeat, becomes the one packet of the first vacant slot,
   and nothing else changes.
   */
  lemma TakesFirstVacancy(slots: seq<Slot>, now: nat, p: Packet, S: nat, R: nat, i: nat)
    requires ValidTable(slots, S, R) && IsStorable(p, R) && forall j | 0 <= j < |slots| :: !HasPlaceFor(slots[j], p)
    requires i < |slots| && IsVacant(slots[i], now) && forall j | 0 <= j < i :: !IsVacant(slots[j], now)
    ensures |slots[i].packets| > 0
    ensures Multiplexed(slots, now, p) == (slots[i := Slot(slots[i].packets[0 := p], 1, now)], None)
  {
    hide Slot.Valid;
    PlacesFound(slots, now, p, S, R);
    assert FirstJoin(slots, p, 0) == |slots|;
    assert FirstOpen(slots, now, p, 0) == i;
    assert ExpireFirst(slots, now, i) == slots;
  }

  /** A packet that is not stored changes nothing but that slots past their timeout are emptied. */
  lemma RefusedChanges(slots: seq<Slot>, now: nat, p: Packet, S: nat, R: nat)
    requires ValidTable(slots, S, R) && Multiplexed(slots, now, p).1 != None
    ensures
      var after := Multiplexed(slots, now, p).0;
      && |after| == |slots|
      && forall i | 0 <= i < |slots| :: after[i] ==
          if p.header.flags & SEGMENTED != 0 && now > slots[i].lastUpdate + TIMEOUT
          then Slot(slots[i].packets, 0, 0) else slots[i]
  {
    hide Slot.Valid;
    PlacesFound(slots, now, p, S, R);
  }

  /** The bytes gathered so far and the error that stopped the gathering, if any. */
  datatype Gathered = Gathered(bytes: seq<byte>, error: Option<NetworkError>)

  /** Segments `k` up to `n`, each taken from the first packet of the whole array with that number. */
  function Gather(packets: seq<Packet>, k: nat, n: nat, acc: seq<byte>, capacity: nat): Gathered
    requires forall i | 0 <= i < |packets| :: packets[i].frame.Valid()
    decreases n - k
  {
    if k >= n then Gathered(acc, None)
    else
      var i := FirstSeq(packets, k, 0);
      if i == |packets| then Gathered(acc, Some(IncorrectSequence))
      else if |acc| + |packets[i].Contents()| > capacity then Gathered(acc, Some(OutOfMemory))
      else Gather(packets, k + 1, n, acc + packets[i].Contents(), capacity)
  }

  datatype Assembled = Assembled(id: bv32, payload: seq<byte>)

  function AssembledSlot(slot: Slot, S: nat, R: nat): (r: Result<Assembled, NetworkError>)
    requires slot.Valid(S, R)
  {
    if !slot.CanAssemble() then Failure(TryAgain)
    else
      var g := Gather(slot.packets, 0, slot.count, [], S * R);
      if g.error.Some? then Failure(g.error.value) else Success(Assembled(slot.packets[0].header.id, g.bytes))
  }

  /** What assembling leaves in the output frame: the message, or what comes before the first obstacle. */
  function GatheredBytes(slot: Slot, S: nat, R: nat): seq<byte>
    requires slot.Valid(S, R)
  {
    Gather(slot.packets, 0, slot.count, [], S * R).bytes
  }

  /** The first complete slot is assembled and released; when that fails it stays where it is. */
  function Processed(slots: seq<Slot>, S: nat, R: nat): (seq<Slot>, Result<Assembled, NetworkError>)
    requires ValidTable(slots, S, R)
  {
    var i := FirstComplete(slots, 0);
    if i == |slots| then (slots, Failure(TryAgain))
    else
      var r := AssembledSlot(slots[i], S, R);
      if r.Success? then (slots[i := slots[i].Release()], r) else (slots, Failure(TryAgain))
  }

  /** What the output frame holds after processing, given what it held before. */
  function Output(slots: seq<Slot>, S: nat, R: nat, before: seq<byte>): seq<byte>
    requires ValidTable(slots, S, R)
  {
    var i := FirstComplete(slots, 0);
    if i == |slots| then before else GatheredBytes(slots[i], S, R)
  }

  function ReleasedExpired(slots: seq<Slot>, now: nat): seq<Slot> {
    ExpireFirst(slots, now, |slots|)
  }

  lemma MultiplexedValid(slots: seq<Slot>, now: nat, p: Packet, S: nat, R: nat)
    requires ValidTable(slots, S, R) && p.Valid(S)
    ensures ValidTable(Multiplexed(slots, now, p).0, S, R) && |Multiplexed(slots, now, p).0| == |slots|
  {
  }

  lemma ProcessedValid(slots: seq<Slot>, S: nat, R: nat)
    requires ValidTable(slots, S, R)
    ensures ValidTable(Processed(slots, S, R).0, S, R) && |Processed(slots, S, R).0| == |slots|
  {
  }

  lemma ReleasedExpiredValid(slots: seq<Slot>, now: nat, S: nat, R: nat)
    requires ValidTable(slots, S, R)
    ensures ValidTable(ReleasedExpired(slots, now), S, R) && |ReleasedExpired(slots, now)| == |slots|
  {
  }
}
