/** Cutting a payload into numbered packets. */
module Demuxers {
  import opened Bytes
  import opened Wrappers
  import opened Packets
  import Crc32

  function DivRoundUp(n: nat, d: nat): nat
    requires d > 0
  {
    n / d + if n % d != 0 then 1 else 0
  }

  /** The pieces of a payload: all full except perhaps the last. */
  function Chunks(payload: seq<byte>, size: nat): (c: seq<seq<byte>>)
    requires size > 0
    ensures forall k | 0 <= k < |c| :: 0 < |c[k]| <= size
    decreases |payload|
  {
    if payload == [] then []
    else if |payload| <= size then [payload]
    else [payload[..size]] + Chunks(payload[size..], size)
  }

  function Concat(chunks: seq<seq<byte>>): seq<byte> {
    if chunks == [] then [] else chunks[0] + Concat(chunks[1..])
  }

  function SegmentHeader(id: bv32, n: nat, k: nat, chunk: seq<byte>): Header {
    Header(id, ENCODED | SEGMENTED, k, n, |chunk|, Crc32.Checksum(chunk))
  }

  /** Segment `k` of `n`, written over whatever the packet held. */
  function SegmentOver(prior: Packet, id: bv32, n: nat, k: nat, chunk: seq<byte>): Packet
    requires |chunk| <= |prior.frame.data|
  {
    Packet(SegmentHeader(id, n, k, chunk), prior.frame.Clear().Push(chunk))
  }

  // ----- properties of the cut

  /** Putting the pieces together again gives the payload. */
  lemma {:induction false} ChunksConcat(payload: seq<byte>, size: nat)
    requires size > 0
    ensures Concat(Chunks(payload, size)) == payload
    decreases |payload|
  {
    if |payload| > size {
      var rest := Chunks(payload[size..], size);
      ChunksConcat(payload[size..], size);
      assert ([payload[..size]] + rest)[1..] == rest;
    }
  }

  lemma {:induction false} AllButLastFull(payload: seq<byte>, size: nat, k: nat)
    requires size > 0 && k + 1 < |Chunks(payload, size)|
    ensures |Chunks(payload, size)[k]| == size
    decreases |payload|
  {
    if k > 0 {
      AllButLastFull(payload[size..], size, k - 1);
    }
  }

  /** Pieces that are all full, except perhaps the last, are what their concatenation is cut into. */
  lemma {:induction false} ChunksOfConcat(pieces: seq<seq<byte>>, size: nat)
    requires forall k | 0 <= k < |pieces| :: 0 < |pieces[k]| <= size && (k + 1 < |pieces| ==> |pieces[k]| == size)
    requires size > 0
    ensures Chunks(Concat(pieces), size) == pieces
  {
    if pieces != [] {
      var rest := pieces[1..];
      ChunksOfConcat(rest, size);
      assert pieces == [pieces[0]] + rest;
      if rest == [] {
        assert Concat(pieces) == pieces[0];
      } else {
        assert Concat(rest) == rest[0] + Concat(rest[1..]);
        assert Concat(pieces)[..size] == pieces[0] && Concat(pieces)[size..] == Concat(rest);
      }
    }
  }

  lemma OneLess(n: nat, d: nat)
    requires 0 < d < n
    ensures DivRoundUp(n, d) == DivRoundUp(n - d, d) + 1
  {
    assert n == d * (n / d) + n % d;
    DivModOf(n - d, d, n / d - 1, n % d);
  }

  lemma MultipleAway(d: int, q: int)
    requires d > 0
    ensures q >= 1 ==> d * q >= d
    ensures q <= -1 ==> d * q <= -d
  {
  }

  lemma DivModOf(n: nat, d: nat, q: int, r: nat)
    requires d > 0 && n == d * q + r && r < d
    ensures n / d == q && n % d == r
  {
    var p := n / d;
    assert n == d * p + n % d;
    assert d * (q - p) == d * q - d * p;
    MultipleAway(d, q - p);
  }

  lemma {:induction false} ChunkCount(payload: seq<byte>, size: nat)
    requires size > 0
    ensures |Chunks(payload, size)| == DivRoundUp(|payload|, size)
    decreases |payload|
  {
    if |payload| > size {
      ChunkCount(payload[size..], size);
      OneLess(|payload|, size);
    } else if |payload| == size {
      DivModOf(size, size, 1, 0);
    } else {
      DivModOf(|payload|, size, 0, |payload|);
    }
  }

  /** A payload fits `r` full segments exactly when it is cut into at most `r` pieces. */
  lemma {:induction false} ChunkCountBound(payload: seq<byte>, size: nat, r: nat)
    requires size > 0
    ensures |payload| <= size * r <==> |Chunks(payload, size)| <= r
    decreases r
  {
    if r > 0 {
      assert size * r == size * (r - 1) + size;
      if |payload| > size {
        ChunkCountBound(payload[size..], size, r - 1);
      } else {
        assert size * (r - 1) >= 0;
      }
    }
  }

  lemma {:induction false} ConcatPrefix(chunks: seq<seq<byte>>, k: nat)
    requires k < |chunks|
    ensures Concat(chunks[..k + 1]) == Concat(chunks[..k]) + chunks[k]
  {
    if k == 0 {
      assert chunks[..1][1..] == [];
    } else {
      ConcatPrefix(chunks[1..], k - 1);
      assert chunks[..k + 1][1..] == chunks[1..][..k];
      assert chunks[..k][1..] == chunks[1..][..k - 1];
    }
  }

  lemma {:induction false} ConcatPrefixLength(chunks: seq<seq<byte>>, k: nat)
    requires k <= |chunks|
    ensures |Concat(chunks[..k])| <= |Concat(chunks)|
    decreases |chunks| - k
  {
    if k < |chunks| {
      ConcatPrefixLength(chunks, k + 1);
      ConcatPrefix(chunks, k);
    } else {
      assert chunks[..k] == chunks;
    }
  }

  // ----- the demuxer

  /** The error a call reports, if any, in the order of the checks. */
  function DemuxError(size: nat, R: nat, room: nat, S: nat, payload: seq<byte>): Option<NetworkError>
    requires size > 0 || payload != []
  {
    if |payload| > size * R || size > 0xFFFF then Some(PayloadTooBig)
    else if size == 0 then Some(PayloadTooBig)
    else if |Chunks(payload, size)| > room then Some(PayloadTooBig)
    else if payload != [] && |Chunks(payload, size)[0]| > S then Some(OutOfMemory)
    else None
  }

  /** With segments that fit a frame, a payload is refused only for being too big, for the table or for the slice. */
  lemma AcceptedIff(size: nat, R: nat, room: nat, S: nat, payload: seq<byte>)
    requires 0 < size <= S && size <= 0xFFFF
    ensures DemuxError(size, R, room, S, payload) in {None, Some(PayloadTooBig)}
    ensures DemuxError(size, R, room, S, payload) == None
      <==> |payload| <= size * R && DivRoundUp(|payload|, size) <= room
    ensures DemuxError(size, R, R, S, payload) == None <==> |payload| <= size * R
  {
    ChunkCount(payload, size);
    ChunkCountBound(payload, size, R);
  }

  /** Every configuration: what is accepted, and which of the two errors the rest gets. */
  lemma RefusedIff(size: nat, R: nat, room: nat, S: nat, payload: seq<byte>)
    requires size > 0 || payload != []
    ensures
      var error := DemuxError(size, R, room, S, payload);
      var cut := 0 < size <= 65535 && |payload| <= size * R && DivRoundUp(|payload|, size) <= room;
      var longest := if |payload| < size then |payload| else size;
      && (error == None <==> cut && longest <= S)
      && (error == Some(OutOfMemory) <==> cut && longest > S)
      && (error == Some(PayloadTooBig) <==> !cut)
  {
    if size > 0 {
      ChunkCount(payload, size);
    }
  }

  /** `after` is `before` with the first `n` segments written over the first packets. */
  ghost predicate Demuxed(before: seq<Packet>, after: seq<Packet>, id: bv32, chunks: seq<seq<byte>>, n: nat) {
    && |after| == |before|
    && n <= |chunks|
    && n <= |before|
    && (forall k | 0 <= k < n ::
        |chunks[k]| <= |before[k].frame.data| && after[k] == SegmentOver(before[k], id, |chunks|, k, chunks[k]))
    && forall k | n <= k < |before| :: after[k] == before[k]
  }

  lemma NextChunk(payload: seq<byte>, size: nat, offset: nat, chunkLen: nat, chunks: seq<seq<byte>>, k: nat)
    requires size > 0 && offset < |payload| && k <= |chunks|
    requires chunkLen == if offset + size < |payload| then size else |payload| - offset
    requires chunks[k..] == Chunks(payload[offset..], size)
    ensures k < |chunks| && chunks[k] == payload[offset..offset + chunkLen]
    ensures chunks[k + 1..] == Chunks(payload[offset + chunkLen..], size)
  {
    var rest := payload[offset..];
    assert rest[chunkLen..] == payload[offset + chunkLen..];
    assert chunks[k..][0] == chunks[k] && chunks[k..][1..] == chunks[k + 1..];
    if |rest| > size {
      assert Chunks(rest, size)[1..] == Chunks(rest[size..], size);
    }
  }

  lemma NoChunks(payload: seq<byte>, size: nat)
    requires size > 0
    ensures Chunks(payload, size) == [] <==> payload == []
  {
  }

  /** If any piece is too long for a frame then so is the first. */
  lemma FirstChunkLongest(payload: seq<byte>, size: nat, k: nat)
    requires size > 0 && k < |Chunks(payload, size)|
    ensures |Chunks(payload, size)[k]| <= |Chunks(payload, size)[0]|
  {
    if k > 0 {
      AllButLastFull(payload, size, 0);
    }
  }

  lemma SegmentBuilt(prior: Packet, id: bv32, n: nat, k: nat, chunk: seq<byte>, S: nat)
    requires prior.Valid(S) && |chunk| <= S && |chunk| < 0x1_0000
    ensures
      var flagged := EMPTY_HEADER.AddFlag(ENCODED).AddFlag(SEGMENTED);
      var header := flagged.(id := id, seqNo := k, seqCount := n, len := |chunk|);
      && prior.Reset().frame.Fits(|chunk|)
      && Packet(header, prior.Reset().frame.Push(chunk)).Build() == SegmentOver(prior, id, n, k, chunk)
      && SegmentOver(prior, id, n, k, chunk).Valid(S)
  {
    assert prior.Reset().frame.Push(chunk).Contents() == chunk;
  }

  function ContentsOf(packets: seq<Packet>, n: nat): seq<seq<byte>>
    requires n <= |packets| && forall k | 0 <= k < n :: packets[k].frame.Valid()
  {
    seq(n, k requires 0 <= k < n => packets[k].Contents())
  }

  /**
   The packets of a payload: numbered from zero with a common count, valid, all but the last full, and
   together the payload.
   */
  lemma DemuxedPackets(before: seq<Packet>, after: seq<Packet>, id: bv32, payload: seq<byte>, size: nat, R: nat)
    requires 0 < size <= 0xFFFF && |payload| <= size * R
    requires Demuxed(before, after, id, Chunks(payload, size), |Chunks(payload, size)|)
    ensures
      var n := |Chunks(payload, size)|;
      && n <= R && n <= |after|
      && (forall k | 0 <= k < n ::
          && after[k].header.id == id && after[k].header.seqNo == k && after[k].header.seqCount == n
          && after[k].header.flags == 0x03 && after[k].header.HasFlag(SEGMENTED)
          && after[k].frame.Valid() && after[k].Validate()
          && (k + 1 < n ==> |after[k].Contents()| == size))
      && Concat(ContentsOf(after, n)) == payload
  {
    hide Crc32.Checksum;
    var chunks := Chunks(payload, size);
    ChunkCountBound(payload, size, R);
    ChunksConcat(payload, size);
    assert (ENCODED | SEGMENTED) & SEGMENTED != 0;
    forall k | 0 <= k < |chunks|
      ensures after[k].frame.Valid() && after[k].Contents() == chunks[k] && (k + 1 < |chunks| ==> |chunks[k]| == size)
    {
      if k + 1 < |chunks| {
        AllButLastFull(payload, size, k);
      }
    }
    assert ContentsOf(after, |chunks|) == chunks;
  }

  lemma DemuxedNone(packets: seq<Packet>, id: bv32, chunks: seq<seq<byte>>)
    ensures Demuxed(packets, packets, id, chunks, 0)
  {
  }

  lemma DemuxedNext(before: seq<Packet>, mid: seq<Packet>, id: bv32, chunks: seq<seq<byte>>, n: nat, S: nat)
    requires Demuxed(before, mid, id, chunks, n)
    requires n < |chunks| && n < |before| && before[n].Valid(S) && |chunks[n]| <= S
    ensures n < |mid| && mid[n] == before[n]
    ensures Demuxed(before, mid[n := SegmentOver(mid[n], id, |chunks|, n, chunks[n])], id, chunks, n + 1)
  {
  }

  class Demuxer {
    const S: nat
    const R: nat
    var totalSize: nat
    var segmentSize: nat

    ghost predicate Valid()
      reads this
    {
      totalSize == segmentSize * R
    }

    constructor (s: nat, r: nat, size: nat)
      ensures Valid() && S == s && R == r && segmentSize == size
    {
      S, R := s, r;
      segmentSize := size;
      totalSize := size * r;
    }

    /** Writes one segment over a packet of the slice. */
    method WriteSegment(packets: array<Packet>, id: bv32, seqCount: nat, seqNo: nat, chunk: seq<byte>)
      returns (ok: bool)
      requires seqNo < packets.Length && packets[seqNo].Valid(S) && |chunk| < 0x1_0000
      modifies packets
      ensures ok <==> |chunk| <= S
      ensures ok ==>
        && |chunk| <= |old(packets[seqNo]).frame.data|
        && packets[..] == old(packets[..])[seqNo := SegmentOver(old(packets[seqNo]), id, seqCount, seqNo, chunk)]
      ensures packets[seqNo].Valid(S) && packets[..] == old(packets[..])[seqNo := packets[seqNo]]
    {
      var prior := packets[seqNo];
      var packet := prior.Reset();
      packet := packet.(header := EMPTY_HEADER.AddFlag(ENCODED).AddFlag(SEGMENTED)
        .(id := id, seqNo := seqNo, seqCount := seqCount, len := |chunk|));
      if !packet.frame.Fits(|chunk|) {
        packets[seqNo] := packet;
        return false;
      }
      SegmentBuilt(prior, id, seqCount, seqNo, chunk, S);
      packets[seqNo] := packet.(frame := packet.frame.Push(chunk)).Build();
      return true;
    }

    /**
     Cuts `payload` into the first packets of the slice. Calling it with an empty payload and segments
     of size zero divides by zero in the source.
     */
    method Demultiplex(id: bv32, payload: seq<byte>, packets: array<Packet>) returns (r: Result<nat, NetworkError>)
      requires Valid() && (segmentSize > 0 || payload != [])
      requires forall i | 0 <= i < packets.Length :: packets[i].Valid(S)
      modifies packets
      ensures forall i | 0 <= i < packets.Length :: packets[i].Valid(S)
      ensures
        match DemuxError(segmentSize, R, packets.Length, S, payload)
        case Some(e) => r == Failure(e) && (e == PayloadTooBig ==> packets[..] == old(packets[..]))
        case None =>
          && segmentSize > 0
          && r == Success(|Chunks(payload, segmentSize)|)
          && Demuxed(old(packets[..]), packets[..], id, Chunks(payload, segmentSize), r.value)
      ensures r.Failure? ==> forall i | 1 <= i < packets.Length :: packets[i] == old(packets[i])
    {
      hide SegmentOver, Packet.Valid, Chunks, Demuxed;
      DemuxedNone(packets[..], id, if segmentSize > 0 then Chunks(payload, segmentSize) else []);
      var totalLen := |payload|;
      if totalLen > totalSize {
        return Failure(PayloadTooBig);
      }
      if segmentSize > 0xFFFF {
        return Failure(PayloadTooBig);
      }
      assert segmentSize > 0;
      var seqCount := DivRoundUp(totalLen, segmentSize);
      ChunkCount(payload, segmentSize);
      if seqCount > packets.Length {
        return Failure(PayloadTooBig);
      }
      ghost var chunks := Chunks(payload, segmentSize);
      NoChunks(payload, segmentSize);
      var seqNo, offset := 0, 0;
      while offset < totalLen
        invariant 0 <= offset <= totalLen && 0 <= seqNo <= |chunks|
        invariant chunks[seqNo..] == Chunks(payload[offset..], segmentSize)
        invariant forall i | 0 <= i < packets.Length :: packets[i].Valid(S)
        invariant Demuxed(old(packets[..]), packets[..], id, chunks, seqNo)
        invariant forall i | seqNo <= i < packets.Length :: packets[i] == old(packets[i])
        invariant seqNo > 0 ==> |chunks[0]| <= S
      {
        if seqNo > packets.Length {
          assert false;
        }
        var chunkLen := if offset + segmentSize < totalLen then segmentSize else totalLen - offset;
        var chunk := payload[offset..offset + chunkLen];
        NextChunk(payload, segmentSize, offset, chunkLen, chunks, seqNo);
        offset := offset + chunkLen;
        ghost var before := packets[..];
        var ok := WriteSegment(packets, id, seqCount, seqNo, chunk);
        if !ok {
          FirstChunkLongest(payload, segmentSize, seqNo);
          assert seqNo == 0;
          return Failure(OutOfMemory);
        }
        DemuxedNext(old(packets[..]), before, id, chunks, seqNo, S);
        seqNo := seqNo + 1;
      }
      NoChunks(payload[offset..], segmentSize);
      assert seqNo == |chunks|;
      return Success(seqNo);
    }
  }
}
