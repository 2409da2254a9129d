/** Why a complete slot yields exactly the message that was sent, whatever else the array holds. */
module Reassembly {
  import opened Bytes
  import opened Wrappers
  import opened Packets
  import opened Demuxers
  import opened Slots

  /** The identifiers in use and the payload sent under each. */
  datatype Messages = Messages(ids: set<bv32>, payload: bv32 -> seq<byte>)

  /** Sequence numbers travel in four bits. */
  const MAX_SEGMENTS: nat := 15

  ghost predicate Sendable(sent: Messages, size: nat, R: nat) {
    && 0 < size < 0x1_0000
    && forall id | id in sent.ids ::
        && sent.payload(id) != []
        && |Chunks(sent.payload(id), size)| <= R && |Chunks(sent.payload(id), size)| <= MAX_SEGMENTS
  }

  /**
   Header and contents are those of a segment of a sent message. Leftover bytes may be anything, and so may the
   checksum, which nothing on the receive path looks at.
   */
  ghost predicate Genuine(sent: Messages, size: nat, p: Packet)
    requires size > 0
  {
    && p.header.id in sent.ids
    && p.frame.Valid()
    && var chunks := Chunks(sent.payload(p.header.id), size);
    && var k := p.header.seqNo;
    && k < |chunks|
    && p.header.(crc := 0) == SegmentHeader(p.header.id, |chunks|, k, chunks[k]).(crc := 0)
    && p.Contents() == chunks[k]
  }

  /** The live packets of a slot belong to one message and have different numbers. */
  ghost predicate Coherent(slot: Slot) {
    && slot.count <= |slot.packets|
    && (forall i | 0 <= i < slot.count :: slot.packets[i].header.id == slot.packets[0].header.id)
    && forall i, j | 0 <= i < j < slot.count :: slot.packets[i].header.seqNo != slot.packets[j].header.seqNo
  }

  ghost predicate GoodSlot(sent: Messages, size: nat, slot: Slot)
    requires size > 0
  {
    Coherent(slot) && forall i | 0 <= i < slot.count :: Genuine(sent, size, slot.packets[i])
  }

  ghost predicate GoodTable(sent: Messages, size: nat, slots: seq<Slot>)
    requires size > 0
  {
    forall i | 0 <= i < |slots| :: GoodSlot(sent, size, slots[i])
  }

  ghost predicate NoneComplete(slots: seq<Slot>)
    requires forall i | 0 <= i < |slots| :: slots[i].count <= |slots[i].packets|
  {
    forall i | 0 <= i < |slots| :: !slots[i].CanAssemble()
  }

  // ----- pigeonhole

  /** The sequence numbers of the first `n` packets. */
  ghost function Numbers(packets: seq<Packet>, n: nat): set<nat>
    requires n <= |packets|
  {
    set i | 0 <= i < n :: packets[i].header.seqNo
  }

  lemma {:induction false} NumbersDistinct(packets: seq<Packet>, n: nat)
    requires n <= |packets|
    requires forall i, j | 0 <= i < j < n :: packets[i].header.seqNo != packets[j].header.seqNo
    ensures |Numbers(packets, n)| == n
  {
    if n > 0 {
      NumbersDistinct(packets, n - 1);
      var last := packets[n - 1].header.seqNo;
      assert Numbers(packets, n) == Numbers(packets, n - 1) + {last};
      assert last !in Numbers(packets, n - 1);
    }
  }

  ghost function Below(n: nat): (s: set<nat>)
    ensures forall k: nat :: k in s <==> k < n
    ensures |s| == n
  {
    if n == 0 then {} else
      var s := Below(n - 1);
      assert n - 1 !in s;
      s + {n - 1}
  }

  /** Among distinct numbers below `n` there are at most `n`, and if there are `n` then none is missing. */
  lemma AllNumbersPresent(packets: seq<Packet>, count: nat, n: nat)
    requires count <= |packets|
    requires forall i, j | 0 <= i < j < count :: packets[i].header.seqNo != packets[j].header.seqNo
    requires forall i | 0 <= i < count :: packets[i].header.seqNo < n
    ensures count <= n
    ensures count == n ==> Numbers(packets, count) == Below(n)
  {
    NumbersDistinct(packets, count);
    var s := Numbers(packets, count);
    assert s <= Below(n);
    SubsetSize(s, Below(n));
  }

  lemma SubsetSize(a: set<nat>, b: set<nat>)
    requires a <= b
    ensures |a| <= |b| && (|a| == |b| ==> a == b)
  {
    assert |b| == |a| + |b - a| by {
      assert b == a + (b - a);
    }
    if |a| == |b| {
      assert b - a == {};
    }
  }

  // ----- assembling

  /** The search hits a live packet first, so nothing left over in the array is ever used. */
  lemma SearchFindsLive(sent: Messages, size: nat, slot: Slot, k: nat)
    requires size > 0 && GoodSlot(sent, size, slot) && k in Numbers(slot.packets, slot.count)
    ensures
      var i := FirstSeq(slot.packets, k, 0);
      i < slot.count && Genuine(sent, size, slot.packets[i]) && slot.packets[i].header.seqNo == k
  {
    var j :| 0 <= j < slot.count && slot.packets[j].header.seqNo == k;
    assert FirstSeq(slot.packets, k, 0) <= j;
  }

  /** The search for number `k` ends at a packet holding `chunk`. */
  ghost predicate Finds(packets: seq<Packet>, k: nat, chunk: seq<byte>) {
    var i := FirstSeq(packets, k, 0);
    i < |packets| && packets[i].frame.Valid() && packets[i].Contents() == chunk
  }

  lemma {:induction false} GatherSegments(packets: seq<Packet>, chunks: seq<seq<byte>>, k: nat, capacity: nat)
    requires forall i | 0 <= i < |packets| :: packets[i].frame.Valid()
    requires forall j | 0 <= j < |chunks| :: Finds(packets, j, chunks[j])
    requires k <= |chunks| && |Concat(chunks)| <= capacity
    ensures Gather(packets, k, |chunks|, Concat(chunks[..k]), capacity) == Gathered(Concat(chunks), None)
    decreases |chunks| - k
  {
    if k == |chunks| {
      assert chunks[..k] == chunks;
    } else {
      assert Finds(packets, k, chunks[k]);
      ConcatPrefix(chunks, k);
      ConcatPrefixLength(chunks, k + 1);
      GatherSegments(packets, chunks, k + 1, capacity);
    }
  }

  lemma CompleteCount(sent: Messages, size: nat, slot: Slot)
    requires size > 0 && GoodSlot(sent, size, slot) && slot.count > 0
    ensures
      var n := |Chunks(sent.payload(slot.packets[0].header.id), size)|;
      && slot.count <= n
      && (slot.CanAssemble() <==> slot.count == n)
      && (slot.count == n ==> Numbers(slot.packets, n) == Below(n))
  {
    var n := |Chunks(sent.payload(slot.packets[0].header.id), size)|;
    forall i | 0 <= i < slot.count ensures slot.packets[i].header.seqNo < n {
      assert Genuine(sent, size, slot.packets[i]);
    }
    AllNumbersPresent(slot.packets, slot.count, n);
    assert Genuine(sent, size, slot.packets[0]);
  }

  lemma AllFound(sent: Messages, size: nat, slot: Slot)
    requires size > 0 && GoodSlot(sent, size, slot) && slot.CanAssemble()
    ensures slot.packets[0].header.id in sent.ids
    ensures
      var chunks := Chunks(sent.payload(slot.packets[0].header.id), size);
      && slot.count == |chunks|
      && forall k | 0 <= k < |chunks| :: Finds(slot.packets, k, chunks[k])
  {
    assert Genuine(sent, size, slot.packets[0]);
    CompleteCount(sent, size, slot);
    var chunks := Chunks(sent.payload(slot.packets[0].header.id), size);
    forall k | 0 <= k < |chunks| ensures Finds(slot.packets, k, chunks[k]) {
      SearchFindsLive(sent, size, slot, k);
    }
  }

  lemma PayloadFits(payload: seq<byte>, size: nat, S: nat, R: nat)
    requires 0 < size <= S && |Chunks(payload, size)| <= R
    ensures |Concat(Chunks(payload, size))| <= S * R && Concat(Chunks(payload, size)) == payload
  {
    ChunksConcat(payload, size);
    ChunkCountBound(payload, size, R);
    ProductBound(size, S, R);
  }

  // ----- assembling any slot, genuine or not

  /** Some packet of the array has the number. */
  ghost predicate Present(packets: seq<Packet>, seqNo: nat) {
    exists i | 0 <= i < |packets| :: packets[i].header.seqNo == seqNo
  }

  ghost predicate AllPresent(packets: seq<Packet>, k: nat, n: nat) {
    forall j: nat | k <= j < n :: Present(packets, j)
  }

  lemma {:induction false} GatherError(packets: seq<Packet>, k: nat, n: nat, acc: seq<byte>, S: nat, R: nat)
    requires forall i | 0 <= i < |packets| :: packets[i].frame.Valid() && |packets[i].frame.data| == S
    requires k <= n <= R && |acc| <= k * S
    ensures Gather(packets, k, n, acc, S * R).error
         == if AllPresent(packets, k, n) then None else Some(IncorrectSequence)
    decreases n - k
  {
    if k < n {
      var i := FirstSeq(packets, k, 0);
      if i < |packets| {
        OneMoreSegment(k, n, S, R);
        GatherError(packets, k + 1, n, acc + packets[i].Contents(), S, R);
        assert Present(packets, k);
      } else {
        assert !Present(packets, k);
      }
    }
  }

  lemma OneMoreSegment(k: nat, n: nat, S: nat, R: nat)
    requires k < n <= R
    ensures k * S + S == (k + 1) * S <= S * R
  {
    ProductBound(k + 1, R, S);
  }

  /**
   A complete slot assembles exactly if every number is on some packet of the array, live or not; otherwise the
   sequence is incorrect. The frame is always large enough.
   */
  lemma AssembledIff(slot: Slot, S: nat, R: nat)
    requires slot.Valid(S, R)
    ensures
      var r := AssembledSlot(slot, S, R);
      var complete := slot.count > 0 && slot.packets[0].header.seqCount <= slot.count;
      && (r.Success? <==> complete && AllPresent(slot.packets, 0, slot.count))
      && (r == Failure(IncorrectSequence) <==> complete && !AllPresent(slot.packets, 0, slot.count))
      && (r == Failure(TryAgain) <==> !complete)
  {
    hide Gather, AllPresent;
    GatherError(slot.packets, 0, slot.count, [], S, R);
  }

  /** It then gives, in the order of the numbers, the contents of the first packet of the array with each. */
  lemma AssembledContents(slot: Slot, S: nat, R: nat, pieces: seq<seq<byte>>)
    requires slot.Valid(S, R) && slot.count > 0 && slot.packets[0].header.seqCount <= slot.count == |pieces|
    requires forall k | 0 <= k < |pieces| :: exists i | 0 <= i < R ::
        && slot.packets[i].header.seqNo == k && slot.packets[i].Contents() == pieces[k]
        && forall j | 0 <= j < i :: slot.packets[j].header.seqNo != k
    ensures AssembledSlot(slot, S, R) == Success(Assembled(slot.packets[0].header.id, Concat(pieces)))
  {
    hide Gather, Concat;
    forall k | 0 <= k < |pieces| ensures Finds(slot.packets, k, pieces[k]) && |pieces[k]| <= S {
      var i :| 0 <= i < R && slot.packets[i].header.seqNo == k && slot.packets[i].Contents() == pieces[k]
               && forall j | 0 <= j < i :: slot.packets[j].header.seqNo != k;
      assert FirstSeq(slot.packets, k, 0) == i;
    }
    PiecesFit(pieces, S, R);
    GatherSegments(slot.packets, pieces, 0, S * R);
    assert pieces[..0] == [];
    NothingConcat();
  }

  lemma {:induction false} GatherToGap(packets: seq<Packet>, pieces: seq<seq<byte>>, k: nat, n: nat, capacity: nat)
    requires forall i | 0 <= i < |packets| :: packets[i].frame.Valid()
    requires forall j | 0 <= j < |pieces| :: Finds(packets, j, pieces[j])
    requires k <= |pieces| < n && |Concat(pieces)| <= capacity && !Present(packets, |pieces|)
    ensures Gather(packets, k, n, Concat(pieces[..k]), capacity) == Gathered(Concat(pieces), Some(IncorrectSequence))
    decreases |pieces| - k
  {
    if k == |pieces| {
      assert pieces[..k] == pieces;
    } else {
      assert Finds(packets, k, pieces[k]);
      ConcatPrefix(pieces, k);
      ConcatPrefixLength(pieces, k + 1);
      GatherToGap(packets, pieces, k + 1, n, capacity);
    }
  }

  /** If a number is missing, the output frame is left with the contents of the numbers before it. */
  lemma LeftAtGap(slot: Slot, S: nat, R: nat, pieces: seq<seq<byte>>)
    requires slot.Valid(S, R) && |pieces| < slot.count && !Present(slot.packets, |pieces|)
    requires forall k | 0 <= k < |pieces| :: Finds(slot.packets, k, pieces[k])
    ensures GatheredBytes(slot, S, R) == Concat(pieces)
  {
    hide Gather, Concat;
    forall k | 0 <= k < |pieces| ensures |pieces[k]| <= S {
      assert Finds(slot.packets, k, pieces[k]);
    }
    PiecesFit(pieces, S, R);
    GatherToGap(slot.packets, pieces, 0, slot.count, S * R);
    assert pieces[..0] == [];
    NothingConcat();
  }

  lemma {:induction false} PiecesLength(pieces: seq<seq<byte>>, S: nat)
    requires forall k | 0 <= k < |pieces| :: |pieces[k]| <= S
    ensures |Concat(pieces)| <= |pieces| * S
  {
    if pieces != [] {
      PiecesLength(pieces[1..], S);
      assert |pieces| * S == (|pieces| - 1) * S + S;
    }
  }

  lemma PiecesFit(pieces: seq<seq<byte>>, S: nat, R: nat)
    requires |pieces| <= R && forall k | 0 <= k < |pieces| :: |pieces[k]| <= S
    ensures |Concat(pieces)| <= S * R
  {
    PiecesLength(pieces, S);
    ProductBound(|pieces|, R, S);
  }

  /** Processing tries the first complete slot and no other; one that cannot be assembled stays and blocks the rest. */
  lemma FirstCompleteDecides(slots: seq<Slot>, S: nat, R: nat, i: nat)
    requires ValidTable(slots, S, R) && i < |slots|
    requires slots[i].count > 0 && slots[i].packets[0].header.seqCount <= slots[i].count
    requires forall j | 0 <= j < i :: slots[j].count == 0 || slots[j].packets[0].header.seqCount > slots[j].count
    ensures
      var slot := slots[i];
      Processed(slots, S, R) ==
        if AllPresent(slot.packets, 0, slot.count)
        then (slots[i := Slot(slot.packets, 0, 0)], AssembledSlot(slot, S, R))
        else (slots, Failure(TryAgain))
  {
    hide Gather, AllPresent, AssembledSlot;
    AssembledIff(slots[i], S, R);
    forall j | 0 <= j < |slots| ensures slots[j].count <= |slots[j].packets| {
      assert slots[j].Valid(S, R);
    }
    assert FirstComplete(slots, 0) == i;
  }

  // ----- assembling genuine slots

  /** A slot that can be assembled gives the payload that was sent under its identifier, byte for byte. */
  lemma CompleteAssembles(sent: Messages, size: nat, slot: Slot, S: nat, R: nat)
    requires Sendable(sent, size, R) && size <= S && slot.Valid(S, R) && GoodSlot(sent, size, slot)
    requires slot.CanAssemble()
    ensures slot.packets[0].header.id in sent.ids
    ensures
      var id := slot.packets[0].header.id;
      AssembledSlot(slot, S, R) == Success(Assembled(id, sent.payload(id)))
  {
    hide Genuine, Gather, Finds, Chunks, Concat;
    AllFound(sent, size, slot);
    var payload := sent.payload(slot.packets[0].header.id);
    var chunks := Chunks(payload, size);
    PayloadFits(payload, size, S, R);
    GatherSegments(slot.packets, chunks, 0, S * R);
    assert chunks[..0] == [];
    NothingConcat();
  }

  lemma NothingConcat()
    ensures Concat([]) == []
  {
  }

  lemma ProductBound(size: nat, S: nat, R: nat)
    requires size <= S
    ensures size * R <= S * R
  {
  }

  // ----- the table stays good

  lemma PushGood(sent: Messages, size: nat, slot: Slot, now: nat, p: Packet)
    requires size > 0 && GoodSlot(sent, size, slot) && Genuine(sent, size, p) && slot.Accepts(p)
    ensures GoodSlot(sent, size, slot.Push(now, p))
  {
  }

  lemma MultiplexGood(sent: Messages, size: nat, slots: seq<Slot>, now: nat, p: Packet)
    requires size > 0 && GoodTable(sent, size, slots)
    requires p.header.HasFlag(SEGMENTED) ==> Genuine(sent, size, p)
    ensures GoodTable(sent, size, Multiplexed(slots, now, p).0)
  {
    hide Genuine;
    var i, k := FirstJoin(slots, p, 0), FirstOpen(slots, now, p, 0);
    if p.header.HasFlag(SEGMENTED) {
      if i < |slots| {
        PushGood(sent, size, slots[i], now, p);
      } else if k < |slots| {
        PushGood(sent, size, slots[k].Expire(now), now, p);
      }
    }
  }

  lemma ProcessGood(sent: Messages, size: nat, slots: seq<Slot>, S: nat, R: nat)
    requires size > 0 && ValidTable(slots, S, R) && GoodTable(sent, size, slots)
    ensures GoodTable(sent, size, Processed(slots, S, R).0)
  {
  }

  lemma ExpiredGood(sent: Messages, size: nat, slots: seq<Slot>, now: nat)
    requires size > 0 && GoodTable(sent, size, slots)
    ensures GoodTable(sent, size, ReleasedExpired(slots, now))
  {
  }
}
