/** The hardware backend: checksums computed by the kernel through an operation socket. */
module AfAlg {
  import opened Bytes
  import opened Wrappers
  import opened Crc32

  const SEND_CHUNK: nat := 65536
  const MIN_HW_LEN: nat := 16384
  const POISONED: bv32 := 0xFFFF_FFFF

  // ----- the kernel

  /**
   How the kernel answers one system call: it takes up to `n` bytes, is interrupted, or fails and leaves
   the socket in any state whatever.
   */
  datatype Reply = Accepted(n: nat) | Interrupted | Failed(fed: seq<byte>, closed: bool)

  datatype SysResult = Count(n: nat) | ErrInterrupted | ErrOther

  /**
   An operation socket. `replies` is what the kernel is going to answer; once they are used up, every
   call is served in full. The ghost counters only observe.
   */
  class OpSocket {
    var replies: seq<Reply>
    var fed: seq<byte>
    var closed: bool
    ghost var failures: nat
    ghost var dataSends: nat
    ghost var hiccups: nat

    constructor (script: seq<Reply>)
      ensures Fresh() && failures == 0 && dataSends == 0 && hiccups == 0 && replies == script
    {
      replies, fed, closed := script, [], false;
      failures, dataSends, hiccups := 0, 0, 0;
    }

    /** Ready for a new checksum. */
    ghost predicate Fresh()
      reads this
    {
      fed == [] && !closed
    }

    /** The bytes the next send adds to: a closed hash is started over. */
    function Pending(): seq<byte>
      reads this
    {
      if closed then [] else fed
    }

    method NextReply(full: nat) returns (reply: Reply)
      modifies this`replies
      ensures |replies| <= |old(replies)|
      ensures reply != Accepted(full) ==> |replies| < |old(replies)|
      ensures old(replies) == [] ==> reply == Accepted(full) && replies == []
    {
      if replies == [] {
        return Accepted(full);
      }
      reply := replies[0];
      replies := replies[1..];
    }

    /** With `more` the hash stays open and something is taken; without, it is closed over what was taken. */
    method Send(data: seq<byte>, more: bool) returns (r: SysResult)
      modifies this
      ensures |replies| <= |old(replies)|
      ensures old(replies) == [] ==> r == Count(|data|) && replies == []
      ensures dataSends == old(dataSends) + if more then 1 else 0
      ensures hiccups == old(hiccups) + if more && r != Count(|data|) then 1 else 0
      ensures
        match r
        case Count(n) =>
          && n <= |data| && (more && data != [] ==> n > 0)
          && fed == old(Pending()) + data[..n] && closed == !more
          && failures == old(failures) + if !more && n < |data| then 1 else 0
        case ErrInterrupted =>
          && |replies| < |old(replies)|
          && fed == old(fed) && closed == old(closed) && failures == old(failures)
        case ErrOther => failures == old(failures) + 1
    {
      dataSends := dataSends + if more then 1 else 0;
      var reply := NextReply(|data|);
      match reply {
        case Accepted(n) =>
          var taken := if n > |data| then |data| else if more && n == 0 && data != [] then 1 else n;
          fed := Pending() + data[..taken];
          closed := !more;
          if !more && taken < |data| {
            failures := failures + 1;
          }
          r := Count(taken);
        case Interrupted =>
          r := ErrInterrupted;
        case Failed(f, c) =>
          fed, closed, failures := f, c, failures + 1;
          r := ErrOther;
      }
      hiccups := hiccups + if more && r != Count(|data|) then 1 else 0;
    }

    /** Reads the register, little-endian and without the final exclusive-or; the socket starts over. */
    method Read() returns (r: SysResult, digest: seq<byte>)
      modifies this
      ensures |replies| <= |old(replies)| && dataSends == old(dataSends) && hiccups == old(hiccups)
      ensures old(replies) == [] ==> r == Count(4) && replies == []
      ensures
        match r
        case Count(n) =>
          && n <= 4 && digest == U32ToLe(Fold(INIT, old(fed)))[..n] && Fresh()
          && failures == old(failures) + if n < 4 then 1 else 0
        case ErrInterrupted =>
          && |replies| < |old(replies)|
          && fed == old(fed) && closed == old(closed) && failures == old(failures)
        case ErrOther => failures == old(failures) + 1
    {
      digest := [];
      var reply := NextReply(4);
      match reply {
        case Accepted(n) =>
          var taken := if n > 4 then 4 else n;
          digest := U32ToLe(Fold(INIT, fed))[..taken];
          fed, closed := [], false;
          if taken < 4 {
            failures := failures + 1;
          }
          r := Count(taken);
        case Interrupted =>
          r := ErrInterrupted;
        case Failed(f, c) =>
          fed, closed, failures := f, c, failures + 1;
          r := ErrOther;
      }
    }
  }

  /** The bound transform socket; `accepts` says which accept calls succeed and what their sockets answer. */
  class Tfm {
    var accepts: seq<Option<seq<Reply>>>

    constructor (script: seq<Option<seq<Reply>>>) {
      accepts := script;
    }

    /** The next accept call succeeds. */
    predicate Accepts()
      reads this
    {
      accepts != [] && accepts[0].Some?
    }

    method AcceptOp() returns (op: OpSocket?)
      modifies this
      ensures op != null <==> old(Accepts())
      ensures op != null ==> fresh(op) && op.Fresh() && op.failures == 0 && op.dataSends == 0 && op.hiccups == 0
      ensures op != null ==> op.replies == old(accepts)[0].value
      ensures accepts == old(if accepts == [] then [] else accepts[1..])
    {
      if accepts == [] {
        return null;
      }
      var next := accepts[0];
      accepts := accepts[1..];
      if next.None? {
        return null;
      }
      op := new OpSocket(next.value);
    }
  }

  // ----- sending and reading

  function NormalizeDigest(digest: seq<byte>): bv32
    requires |digest| == 4
  {
    Xor(U32FromLe(digest[0], digest[1], digest[2], digest[3]), 0xFFFF_FFFF)
  }

  /** Undoing the kernel's conventions gives the standard checksum. */
  lemma NormalizedIsChecksum(data: seq<byte>)
    ensures NormalizeDigest(U32ToLe(Fold(INIT, data))) == Checksum(data)
  {
    hide Fold, Xor, U32ToLe, U32FromLe;
    U32RoundTrip(Fold(INIT, data));
  }

  /** The number of chunks `n` bytes are sent in. */
  function SendsFor(n: nat): nat {
    if n == 0 then 0 else if n <= SEND_CHUNK then 1 else 1 + SendsFor(n - SEND_CHUNK)
  }

  lemma {:induction false} WholeChunks(n: nat)
    requires n % SEND_CHUNK == 0
    ensures SEND_CHUNK * SendsFor(n) == n
  {
    if n > SEND_CHUNK {
      WholeChunks(n - SEND_CHUNK);
    }
  }

  /** Feeds `data` in bounded chunks, carrying on after short sends and interrupts. */
  method SendAll(op: OpSocket, data: seq<byte>) returns (ok: bool)
    modifies op
    ensures ok ==> op.Pending() == old(op.Pending()) + data
    ensures ok && (data != [] || !old(op.closed)) ==> !op.closed
    ensures op.failures == old(op.failures) + if ok then 0 else 1
    ensures op.dataSends - op.hiccups <= old(op.dataSends - op.hiccups) + SendsFor(|data|)
    ensures ok ==> op.dataSends - op.hiccups == old(op.dataSends - op.hiccups) + SendsFor(|data|)
    ensures old(op.replies) == [] ==> ok && op.replies == []
  {
    var position := 0;
    ghost var chunks := 0;
    while position < |data|
      invariant 0 <= position <= |data|
      invariant chunks + SendsFor(|data| - position) == SendsFor(|data|)
      invariant op.Pending() == old(op.Pending()) + data[..position]
      invariant position > 0 || !old(op.closed) ==> !op.closed
      invariant op.failures == old(op.failures) && (old(op.replies) == [] ==> op.replies == [])
      invariant op.dataSends - op.hiccups == old(op.dataSends - op.hiccups) + chunks
    {
      var end := if |data| - position < SEND_CHUNK then |data| else position + SEND_CHUNK;
      ok := SendChunk(op, data[position..end]);
      if !ok {
        return false;
      }
      assert data[..position] + data[position..end] == data[..end];
      position := end;
      chunks := chunks + 1;
    }
    assert data[..position] == data;
    return true;
  }

  method SendChunk(op: OpSocket, chunk: seq<byte>) returns (ok: bool)
    requires chunk != []
    modifies op
    ensures ok ==> op.Pending() == old(op.Pending()) + chunk && !op.closed
    ensures op.failures == old(op.failures) + if ok then 0 else 1
    ensures op.dataSends - op.hiccups == old(op.dataSends - op.hiccups) + if ok then 1 else 0
    ensures old(op.replies) == [] ==> ok && op.replies == []
  {
    var offset := 0;
    while offset < |chunk|
      invariant 0 <= offset <= |chunk|
      invariant op.Pending() == old(op.Pending()) + chunk[..offset]
      invariant offset > 0 ==> !op.closed
      invariant op.failures == old(op.failures) && (old(op.replies) == [] ==> op.replies == [])
      invariant op.dataSends - op.hiccups == old(op.dataSends - op.hiccups) + if offset == |chunk| then 1 else 0
      decreases |chunk| - offset, |op.replies|
    {
      var ret := op.Send(chunk[offset..], true);
      match ret {
        case ErrInterrupted =>
        case ErrOther => return false;
        case Count(n) =>
          assert chunk[..offset] + chunk[offset..][..n] == chunk[..offset + n];
          offset := offset + n;
      }
    }
    assert chunk[..offset] == chunk;
    return true;
  }

  /** The last bytes feed and close the hash at once; a short send would close it early and is an error. */
  method SendFinal(op: OpSocket, data: seq<byte>) returns (ok: bool)
    modifies op
    ensures ok ==> op.fed == old(op.Pending()) + data && op.closed
    ensures op.failures == old(op.failures) + if ok then 0 else 1
    ensures op.dataSends == old(op.dataSends) && op.hiccups == old(op.hiccups)
    ensures old(op.replies) == [] ==> ok && op.replies == []
  {
    while true
      invariant old(op.replies) == [] ==> op.replies == []
      invariant op.Pending() == old(op.Pending()) && op.failures == old(op.failures)
      invariant op.dataSends == old(op.dataSends) && op.hiccups == old(op.hiccups)
      decreases |op.replies|
    {
      var ret := op.Send(data, false);
      match ret {
        case ErrInterrupted =>
        case ErrOther => return false;
        case Count(n) => return n == |data|;
      }
    }
  }

  method ReadDigest(op: OpSocket) returns (r: Option<bv32>)
    modifies op
    ensures r.Some? ==> r.value == Checksum(old(op.fed)) && op.Fresh()
    ensures op.failures == old(op.failures) + if r.Some? then 0 else 1
    ensures op.dataSends == old(op.dataSends) && op.hiccups == old(op.hiccups)
    ensures old(op.replies) == [] ==> r.Some? && op.replies == []
  {
    while true
      invariant old(op.replies) == [] ==> op.replies == []
      invariant op.fed == old(op.fed) && op.failures == old(op.failures)
      invariant op.dataSends == old(op.dataSends) && op.hiccups == old(op.hiccups)
      decreases |op.replies|
    {
      var ret, digest := op.Read();
      match ret {
        case ErrInterrupted =>
        case ErrOther => return None;
        case Count(n) =>
          if n != 4 {
            return None;
          }
          NormalizedIsChecksum(old(op.fed));
          return Some(NormalizeDigest(digest));
      }
    }
  }

  /** One checksum over a socket; on success the socket is ready for the next one. */
  method ChecksumOn(op: OpSocket, data: seq<byte>) returns (r: Option<bv32>)
    requires data != []
    modifies op
    ensures r.Some? ==> r.value == Checksum(old(op.Pending()) + data) && op.Fresh()
    ensures r.Some? <==> op.failures == old(op.failures)
    ensures op.failures >= old(op.failures)
    ensures old(op.replies) == [] ==> r.Some? && op.replies == []
    ensures r.Some? ==>
      var streamed := if |data| <= SEND_CHUNK then 0 else |data| - SEND_CHUNK;
      op.dataSends - op.hiccups == old(op.dataSends - op.hiccups) + SendsFor(streamed)
  {
    var ok;
    if |data| <= SEND_CHUNK {
      ok := SendFinal(op, data);
      if !ok {
        return None;
      }
    } else {
      var split := |data| - SEND_CHUNK;
      ok := SendAll(op, data[..split]);
      if !ok {
        return None;
      }
      ghost var sent := op.Pending();
      ok := SendFinal(op, data[split..]);
      if !ok {
        return None;
      }
      assert sent + data[split..] == old(op.Pending()) + data;
    }
    r := ReadDigest(op);
  }

  // ----- one-shot checksums

  /** What one thread keeps between checksums: its operation socket, if any. */
  class Backend {
    const tfm: Tfm?
    var slot: OpSocket?
    var hwOps: nat

    ghost function Repr(): set<object>
      reads this
    {
      {this} + (if tfm == null then {} else {tfm}) + (if slot == null then {} else {slot})
    }

    /** Between calls the socket is absent or fresh. */
    ghost predicate Valid()
      reads Repr()
    {
      slot != null ==> slot.Fresh() && tfm != null
    }

    constructor (t: Tfm?)
      ensures Valid() && tfm == t && slot == null && hwOps == 0
    {
      tfm, slot, hwOps := t, null, 0;
    }

    /** A checksum has a socket to go to: the cached one, or one that the next accept call gives. */
    predicate HasSocket()
      reads Repr()
    {
      slot != null || (tfm != null && tfm.Accepts())
    }

    /** Failed calls on the cached socket so far. */
    ghost function PastFailures(): nat
      reads Repr()
    {
      if slot == null then 0 else slot.failures
    }

    /** The kernel will serve the next checksum in full. */
    ghost predicate ServedInFull()
      reads Repr()
    {
      if slot != null then slot.replies == [] else tfm != null && tfm.accepts != [] && tfm.accepts[0] == Some([])
    }

    /** Afterwards a socket is cached exactly if there was one or one could be had. */
    method WarmUp()
      requires Valid()
      modifies Repr()
      ensures Valid() && fresh(Repr() - old(Repr())) && hwOps == old(hwOps)
      ensures slot != null <==> tfm != null && old(HasSocket())
      ensures old(slot) != null ==> slot == old(slot)
    {
      if tfm != null && slot == null {
        slot := tfm.AcceptOp();
      }
    }

    /**
     Right, or absent exactly if there is nothing to compute, no socket, or a system call that fails. `op` is the
     socket used, if any; it stays cached if all went well and is dropped if not.
     */
    method Crc32With(data: seq<byte>) returns (r: Option<bv32>, ghost op: OpSocket?)
      requires Valid() && tfm != null
      modifies Repr()
      ensures Valid() && fresh(Repr() - old(Repr()))
      ensures r.Some? ==> r.value == Checksum(data)
      ensures hwOps == old(hwOps) + if r.Some? then 1 else 0
      ensures op != null <==> data != [] && old(HasSocket())
      ensures op != null && old(slot) != null ==> op == old(slot)
      ensures op != null && old(slot) == null ==> fresh(op)
      ensures r.Some? <==> op != null && op.failures == old(PastFailures())
      ensures slot == if r.Some? then op else if op == null then old(slot) else null
      ensures data != [] && old(ServedInFull()) ==> r.Some?
    {
      op := null;
      if data == [] {
        return None, null;
      }
      if slot == null {
        slot := tfm.AcceptOp();
        if slot == null {
          return None, null;
        }
      }
      op := slot;
      assert slot.Pending() + data == data;
      r := ChecksumOn(slot, data);
      if r.None? {
        slot := null;
        return;
      }
      hwOps := hwOps + 1;
    }

    /** Inputs below the threshold never reach the kernel; all others do if there is a socket. */
    method HwCrc32(data: seq<byte>) returns (r: Option<bv32>, ghost op: OpSocket?)
      requires Valid()
      modifies Repr()
      ensures Valid() && fresh(Repr() - old(Repr()))
      ensures r.Some? ==> r.value == Checksum(data)
      ensures hwOps == old(hwOps) + if r.Some? then 1 else 0
      ensures op != null <==> |data| >= 16384 && tfm != null && old(HasSocket())
      ensures r.Some? <==> op != null && op.failures == old(PastFailures())
      ensures op == null ==> slot == old(slot)
      ensures |data| >= 16384 && tfm != null && old(ServedInFull()) ==> r.Some?
    {
      op := null;
      if |data| < MIN_HW_LEN {
        return None, null;
      }
      if tfm == null {
        return None, null;
      }
      r, op := Crc32With(data);
    }

    /**
     The public checksum: always right; it is the hardware's exactly from the threshold on, if there is a socket and no
     system call fails.
     */
    method Crc32(data: seq<byte>) returns (r: bv32, ghost op: OpSocket?)
      requires Valid()
      modifies Repr()
      ensures Valid() && fresh(Repr() - old(Repr()))
      ensures r == Checksum(data)
      ensures op != null <==> |data| >= 16384 && tfm != null && old(HasSocket())
      ensures hwOps == old(hwOps) + if op != null && op.failures == old(PastFailures()) then 1 else 0
      ensures |data| >= 16384 && tfm != null && old(ServedInFull()) ==> hwOps == old(hwOps) + 1
    {
      var hw;
      hw, op := HwCrc32(data);
      if hw.Some? {
        return hw.value, op;
      }
      return Checksum(data), op;
    }
  }

  // ----- streaming

  /** The length of the coalescing buffer and the data sends so far, not counting those the kernel cut short. */
  datatype Load = Load(buffered: nat, sends: int)

  function AfterUpdate(load: Load, n: nat): Load {
    if n == 0 then load
    else if load.buffered + n <= SEND_CHUNK then load.(buffered := load.buffered + n)
    else
      var tail := (n - 1) % SEND_CHUNK + 1;
      Load(tail, load.sends + (if load.buffered == 0 then 0 else 1) + SendsFor(n - tail))
  }

  function AfterUpdates(lengths: seq<nat>): Load {
    if lengths == [] then Load(0, 0) else AfterUpdate(AfterUpdates(lengths[..|lengths| - 1]), lengths[|lengths| - 1])
  }

  function Total(lengths: seq<nat>): nat {
    if lengths == [] then 0 else Total(lengths[..|lengths| - 1]) + lengths[|lengths| - 1]
  }

  /** However a stream is cut up, 64 KiB of it cost at most two data sends. */
  lemma {:induction false} AtMostTwoSends(lengths: seq<nat>)
    ensures
      var load := AfterUpdates(lengths);
      load.buffered <= SEND_CHUNK && 65536 * load.sends + load.buffered <= 2 * Total(lengths)
  {
    if lengths != [] {
      var n := |lengths| - 1;
      AtMostTwoSends(lengths[..n]);
      if lengths[n] > 0 {
        HeadIsWholeChunks(lengths[n]);
      }
    }
  }

  /** By how much the buffer falls short of a whole chunk when an update of `n` bytes sends it. */
  function Waste(load: Load, n: nat): (w: nat) {
    if load.buffered + n > SEND_CHUNK && 0 < load.buffered <= SEND_CHUNK then SEND_CHUNK - load.buffered else 0
  }

  lemma UpdateCosts(load: Load, n: nat)
    requires load.buffered <= SEND_CHUNK
    ensures
      var after := AfterUpdate(load, n);
      && after.buffered <= SEND_CHUNK
      && SEND_CHUNK * after.sends + after.buffered == SEND_CHUNK * load.sends + load.buffered + n + Waste(load, n)
  {
    if n > 0 {
      HeadIsWholeChunks(n);
    }
  }

  /** An update that spills over finds the buffer empty or full, so that only whole chunks are sent. */
  predicate SpillsWhole(load: Load, n: nat) {
    load.buffered + n > SEND_CHUNK ==> load.buffered == 0 || load.buffered == SEND_CHUNK
  }

  predicate AllSpillWhole(lengths: seq<nat>) {
    forall i | 0 <= i < |lengths| :: SpillsWhole(AfterUpdates(lengths[..i]), lengths[i])
  }

  lemma AllSpillWholeNext(lengths: seq<nat>)
    requires lengths != []
    ensures
      var n := |lengths| - 1;
      AllSpillWhole(lengths) <==> (AllSpillWhole(lengths[..n]) && SpillsWhole(AfterUpdates(lengths[..n]), lengths[n]))
  {
    hide SpillsWhole, AfterUpdates;
    var n := |lengths| - 1;
    assert forall i | 0 <= i < n :: lengths[..n][..i] == lengths[..i];
    assert forall i | 0 <= i < n :: lengths[..n][i] == lengths[i];
  }

  /** No send takes more than 64 KiB, and a stream costs one send per 64 KiB exactly when all updates spill whole. */
  lemma {:induction false} OneSendPerChunkIff(lengths: seq<nat>)
    ensures
      var load := AfterUpdates(lengths);
      && SEND_CHUNK * load.sends + load.buffered >= Total(lengths)
      && (SEND_CHUNK * load.sends + load.buffered == Total(lengths) <==> AllSpillWhole(lengths))
  {
    hide AfterUpdate;
    if lengths != [] {
      var n := |lengths| - 1;
      OneSendPerChunkIff(lengths[..n]);
      AllSpillWholeNext(lengths);
      AtMostTwoSends(lengths[..n]);
      UpdateCosts(AfterUpdates(lengths[..n]), lengths[n]);
    }
  }

  predicate PiecesAtMost(lengths: seq<nat>, c: nat) {
    forall i | 0 <= i < |lengths| :: lengths[i] <= c
  }

  /**
   The shorter the pieces, the fuller the sends: with pieces of at most `c` bytes each send takes more than
   64 KiB less `c` bytes.
   */
  lemma {:induction false} SmallPiecesFillSends(lengths: seq<nat>, c: nat)
    requires 0 < c <= SEND_CHUNK && PiecesAtMost(lengths, c)
    ensures
      var load := AfterUpdates(lengths);
      (SEND_CHUNK + 1 - c) * load.sends + load.buffered <= Total(lengths)
  {
    if lengths != [] {
      var n := |lengths| - 1;
      SmallPiecesFillSends(lengths[..n], c);
      AtMostTwoSends(lengths[..n]);
      var load := AfterUpdates(lengths[..n]);
      if lengths[n] > 0 {
        HeadIsWholeChunks(lengths[n]);
        assert SendsFor(0) == 0;
        OneMoreSend(SEND_CHUNK + 1 - c, load.sends);
      }
    }
  }

  lemma OneMoreSend(share: int, sends: int)
    ensures share * (sends + 1) == share * sends + share
  {
  }

  function Ones(n: nat): seq<nat> {
    seq(n, _ => 1)
  }

  /** Fill the buffer byte by byte to one byte more than leaves room for `c`, and then let a piece of `c` spill over. */
  function Wasteful(c: nat, k: nat): seq<nat>
    requires 0 < c <= SEND_CHUNK / 2
  {
    if k == 0 then Ones(c) else Wasteful(c, k - 1) + Ones(SEND_CHUNK + 1 - 2 * c) + [c]
  }

  lemma OneMore(lengths: seq<nat>, n: nat)
    ensures AfterUpdates(lengths + [n]) == AfterUpdate(AfterUpdates(lengths), n)
    ensures Total(lengths + [n]) == Total(lengths) + n
  {
    assert (lengths + [n])[..|lengths|] == lengths;
  }

  lemma {:induction false} OnesFill(lengths: seq<nat>, n: nat)
    requires AfterUpdates(lengths).buffered + n <= SEND_CHUNK
    ensures AfterUpdates(lengths + Ones(n)) == AfterUpdates(lengths).(buffered := AfterUpdates(lengths).buffered + n)
    ensures Total(lengths + Ones(n)) == Total(lengths) + n
  {
    if n == 0 {
      assert lengths + Ones(0) == lengths;
    } else {
      OnesFill(lengths, n - 1);
      assert lengths + Ones(n) == lengths + Ones(n - 1) + [1];
      OneMore(lengths + Ones(n - 1), 1);
    }
  }

  lemma NoUpdates()
    ensures AfterUpdates([]) == Load(0, 0) && Total([]) == 0
  {
  }

  lemma FlushedAlone(buffered: nat, sends: int, c: nat)
    requires 0 < buffered && 0 < c <= SEND_CHUNK && buffered + c > SEND_CHUNK
    ensures AfterUpdate(Load(buffered, sends), c) == Load(c, sends + 1)
  {
    assert SendsFor(0) == 0;
  }

  /** The bound is met, for every length of pieces up to half a chunk and any number of sends. */
  lemma {:induction false} WastefulMeetsBound(c: nat, k: nat)
    requires 0 < c <= SEND_CHUNK / 2
    ensures PiecesAtMost(Wasteful(c, k), c)
    ensures AfterUpdates(Wasteful(c, k)) == Load(c, k)
    ensures (SEND_CHUNK + 1 - c) * k + c == Total(Wasteful(c, k))
  {
    hide AfterUpdates, AfterUpdate, Total;
    if k == 0 {
      NoUpdates();
      OnesFill([], c);
      assert [] + Ones(c) == Ones(c);
    } else {
      WastefulMeetsBound(c, k - 1);
      var before, fill := Wasteful(c, k - 1), SEND_CHUNK + 1 - 2 * c;
      OnesFill(before, fill);
      OneMore(before + Ones(fill), c);
      FlushedAlone(SEND_CHUNK + 1 - c, k - 1, c);
      OneMoreSend(SEND_CHUNK + 1 - c, k - 1);
    }
  }

  /** Pieces of 32769 bytes cost one send each after the first, close to two for every 64 KiB. */
  lemma {:induction false} TwoSendsNeeded(k: nat)
    requires k > 0
    ensures AfterUpdates(seq(k, _ => 32769)) == Load(32769, k - 1)
    ensures Total(seq(k, _ => 32769)) == 32769 * k
  {
    var lengths := seq(k, _ => 32769);
    assert lengths[..k - 1] == seq(k - 1, _ => 32769);
    if k > 1 {
      TwoSendsNeeded(k - 1);
    }
  }

  /** A streaming hasher with a socket of its own. `given` is everything passed to `Update`. */
  class HwHasher {
    const op: OpSocket
    var buf: seq<byte>
    var flushedAny: bool
    var failed: bool
    ghost var given: seq<byte>

    /** The kernel has a prefix of the stream and the buffer the rest, which is empty only at the start. */
    ghost predicate Coalesced()
      reads this, op
    {
      && op.fed + buf == given && !op.closed
      && (flushedAny <==> op.fed != [])
      && (flushedAny ==> buf != [])
    }

    /**
     Each 64 KiB of input costs at most two data sends, plus one for every send that the kernel cut short,
     interrupted or failed.
     */
    ghost predicate Amortised()
      reads this, op
    {
      SEND_CHUNK * op.dataSends + |buf| <= 2 * |given| + SEND_CHUNK * op.hiccups
    }

    ghost predicate Valid()
      reads this, op
    {
      && |buf| <= SEND_CHUNK
      && (failed <==> op.failures > 0)
      && (!failed ==> Coalesced() && Amortised())
    }

    constructor (socket: OpSocket)
      requires socket.Fresh() && socket.failures == 0 && socket.dataSends == 0
      ensures Valid() && op == socket && given == []
    {
      op, buf, flushedAny, failed, given := socket, [], false, false, [];
    }

    method Update(data: seq<byte>)
      requires Valid()
      modifies this, op
      ensures Valid() && given == old(given) + data
      ensures op.failures == 0 ==> Coalesced() && Amortised()
      ensures op.failures == 0 ==>
        AfterUpdate(Load(|old(buf)|, old(op.dataSends - op.hiccups)), |data|) == Load(|buf|, op.dataSends - op.hiccups)
      ensures old(failed) ==> failed
      ensures |old(buf)| + |data| <= SEND_CHUNK ==> op.dataSends == old(op.dataSends)
      ensures old(op.replies) == [] ==> op.replies == [] && op.failures == old(op.failures)
    {
      given := given + data;
      if failed || data == [] {
        return;
      }
      if |buf| + |data| <= SEND_CHUNK {
        buf := buf + data;
        return;
      }
      ghost var load := Load(|buf|, op.dataSends - op.hiccups);
      UpdateCosts(load, |data|);
      var sent := Spill(data);
      if !sent {
        failed := true;
      }
    }

    /** Streams the buffer and all but a tail of the data, which is buffered instead. */
    method Spill(data: seq<byte>) returns (sent: bool)
      requires data != [] && |buf| <= SEND_CHUNK < |buf| + |data| && !op.closed
      modifies this`buf, this`flushedAny, op
      ensures op.failures == old(op.failures) + if sent then 0 else 1
      ensures sent ==> op.fed + buf == old(op.fed + buf) + data && op.fed != [] && !op.closed
      ensures sent ==> flushedAny && 0 < |buf| <= SEND_CHUNK
      ensures sent ==>
        AfterUpdate(Load(|old(buf)|, old(op.dataSends - op.hiccups)), |data|) == Load(|buf|, op.dataSends - op.hiccups)
      ensures !sent ==> buf == old(buf)
      ensures old(op.replies) == [] ==> sent && op.replies == []
    {
      hide SendsFor;
      var tailLen := (|data| - 1) % SEND_CHUNK + 1;
      HeadIsWholeChunks(|data|);
      assert |buf| + (|data| - tailLen) > 0;
      var head, tail := data[..|data| - tailLen], data[|data| - tailLen..];
      assert data == head + tail;
      sent := Flush(head);
      if sent {
        flushedAny := true;
        buf := tail;
      }
    }

    /** Sends the buffer, if there is anything in it, and then `head`. */
    method Flush(head: seq<byte>) returns (sent: bool)
      requires |buf| <= SEND_CHUNK && !op.closed
      modifies op
      ensures sent ==> op.fed == old(op.fed) + buf + head && !op.closed
      ensures op.failures == old(op.failures) + if sent then 0 else 1
      ensures sent ==>
        op.dataSends - op.hiccups == old(op.dataSends - op.hiccups) + (if buf == [] then 0 else 1) + SendsFor(|head|)
      ensures old(op.replies) == [] ==> sent && op.replies == []
    {
      if buf == [] {
        sent := SendAll(op, head);
      } else {
        sent := SendAll(op, buf);
        if sent {
          sent := SendAll(op, head);
        }
      }
    }

    /**
     The checksum of the whole stream if no system call ever failed, and the poison value otherwise. The hardware is
     credited with it unless the stream was empty.
     */
    method Finalize(backend: Backend) returns (r: bv32)
      requires Valid()
      modifies op, backend`hwOps
      ensures r == if op.failures == 0 then Checksum(given) else 0xFFFF_FFFF
      ensures old(op.replies) == [] ==> op.failures == old(op.failures)
      ensures backend.hwOps == old(backend.hwOps) + if op.failures == 0 && given != [] then 1 else 0
    {
      if failed {
        return POISONED;
      }
      var result: Option<bv32>;
      if buf != [] {
        var ok := SendFinal(op, buf);
        if !ok {
          return POISONED;
        }
        result := ReadDigest(op);
      } else if flushedAny {
        assert false;
      } else {
        return Checksum([]);
      }
      if result.None? {
        return POISONED;
      }
      backend.hwOps := backend.hwOps + 1;
      return result.value;
    }
  }

  lemma HeadIsWholeChunks(n: nat)
    requires n > 0
    ensures
      var tailLen := (n - 1) % SEND_CHUNK + 1;
      1 <= tailLen <= n && tailLen <= SEND_CHUNK && SEND_CHUNK * SendsFor(n - tailLen) == n - tailLen
  {
    WholeChunks(n - ((n - 1) % SEND_CHUNK + 1));
  }
}
