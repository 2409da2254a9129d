/** The streaming hasher: held back while short, then handed over to hardware or software. */
module Hasher {
  import opened Bytes
  import opened Wrappers
  import opened Crc32
  import opened AfAlg

  datatype HasherImpl = Software(register: bv32) | Pending(buffered: seq<byte>) | Hardware(hasher: HwHasher)

  /** `given` is everything passed to `Update`. */
  class Crc32Hasher {
    const tfm: Tfm?
    var inner: HasherImpl
    ghost var given: seq<byte>

    ghost function Repr(): set<object>
      reads this
    {
      {this} + (if tfm == null then {} else {tfm})
      + (if inner.Hardware? then {inner.hasher, inner.hasher.op} else {})
    }

    /** With hardware, nothing but the total length decides whether the stream is still held back. */
    ghost predicate Valid()
      reads Repr()
    {
      && (tfm == null ==> inner.Software?)
      && (tfm != null ==> (inner.Pending? <==> |given| < MIN_HW_LEN))
      && match inner
         case Software(register) => register == Fold(INIT, given)
         case Pending(buffered) => buffered == given
         case Hardware(hasher) => hasher.Valid() && hasher.given == given
    }

    /** A system call failed after the stream was handed to the hardware. */
    ghost predicate Broken()
      reads Repr()
    {
      inner.Hardware? && inner.hasher.op.failures > 0
    }

    /** The hardware is there for this stream, and so far the kernel has served and will serve it in full. */
    ghost predicate ServedInFull()
      reads Repr()
    {
      match inner
      case Software(_) => false
      case Pending(_) => tfm != null && tfm.accepts != [] && tfm.accepts[0] == Some([])
      case Hardware(hasher) => hasher.op.replies == [] && hasher.op.failures == 0
    }

    constructor (t: Tfm?)
      ensures Valid() && tfm == t && given == [] && !inner.Hardware?
      ensures t != null && t.accepts != [] && t.accepts[0] == Some([]) ==> ServedInFull()
    {
      tfm := t;
      inner := if t != null then Pending([]) else Software(INIT);
      given := [];
    }

    method Update(data: seq<byte>)
      requires Valid()
      modifies Repr()
      ensures Valid() && fresh(Repr() - old(Repr()))
      ensures given == old(given) + data
      ensures tfm != null ==> (inner.Pending? <==> |given| < 16384)
      ensures old(inner).Pending? && |given| >= 16384 ==> (inner.Hardware? <==> old(tfm.Accepts()))
      ensures old(inner).Hardware? ==> inner == old(inner)
      ensures old(inner).Software? ==> inner.Software?
      ensures old(ServedInFull()) ==> ServedInFull()
    {
      hide Fold, Checksum;
      given := given + data;
      match inner {
        case Pending(buffered) =>
          if |buffered| + |data| < MIN_HW_LEN {
            inner := Pending(buffered + data);
            return;
          }
          var op := tfm.AcceptOp();
          if op != null {
            var hasher := new HwHasher(op);
            hasher.Update(buffered);
            hasher.Update(data);
            assert [] + buffered + data == given;
            inner := Hardware(hasher);
          } else {
            FoldAppend(INIT, buffered, data);
            inner := Software(Fold(Fold(INIT, buffered), data));
          }
        case Software(register) =>
          FoldAppend(INIT, old(given), data);
          inner := Software(Fold(register, data));
        case Hardware(hasher) =>
          hasher.Update(data);
      }
    }

    /** The checksum of everything given, however it was cut up; the poison value only for a broken stream. */
    method Finalize(backend: Backend) returns (r: bv32)
      requires Valid()
      modifies Repr(), backend`hwOps
      ensures r == if Broken() then 0xFFFF_FFFF else Checksum(given)
      ensures given == old(given) && inner == old(inner)
      ensures old(ServedInFull()) ==> !Broken()
      ensures backend.hwOps == old(backend.hwOps) + if inner.Hardware? && !Broken() then 1 else 0
    {
      match inner {
        case Software(register) => r := Xor(register, FINAL_XOR);
        case Pending(buffered) => r := Checksum(buffered);
        case Hardware(hasher) => r := hasher.Finalize(backend);
      }
    }
  }

  /** A stream and the one-shot state of the same thread share the transform socket and nothing else. */
  ghost predicate Separate(hasher: Crc32Hasher, backend: Backend)
    reads hasher, backend
  {
    && hasher.tfm == backend.tfm
    && forall o :: o in hasher.Repr() && o in backend.Repr() ==> o == hasher.tfm
  }

  /**
   A one-shot checksum in the middle of a stream: each gets the right data, and afterwards they are still
   separate.
   */
  method UpdateThenOneShot(hasher: Crc32Hasher, backend: Backend, piece: seq<byte>, other: seq<byte>)
    returns (value: bv32)
    requires hasher.Valid() && backend.Valid() && Separate(hasher, backend)
    modifies hasher.Repr(), backend.Repr()
    ensures hasher.Valid() && backend.Valid() && Separate(hasher, backend)
    ensures fresh(hasher.Repr() - old(hasher.Repr())) && fresh(backend.Repr() - old(backend.Repr()))
    ensures hasher.given == old(hasher.given) + piece && value == Checksum(other)
  {
    hide Checksum, MIN_HW_LEN;
    hasher.Update(piece);
    assert backend.Valid() && Separate(hasher, backend);
    label Updated:
    ghost var op;
    value, op := backend.Crc32(other);
    assert forall o :: o in hasher.Repr() && o in old@Updated(backend.Repr()) ==> o == hasher.tfm;
  }

  function Joined(pieces: seq<seq<byte>>): seq<byte> {
    if pieces == [] then [] else Joined(pieces[..|pieces| - 1]) + pieces[|pieces| - 1]
  }

  /**
   Streaming equals one-shot: for every way to cut a message into pieces, and whatever the kernel answers,
   the stream ends in the checksum of the whole message or is visibly broken, and it breaks only once it
   has reached the hardware. Checksums of other data computed in between come out right.
   */
  method StreamBesideOneShots(backend: Backend, pieces: seq<seq<byte>>, others: seq<seq<byte>>)
    returns (r: bv32, results: seq<bv32>, ghost broken: bool)
    requires backend.Valid() && |pieces| == |others|
    modifies backend.Repr()
    ensures backend.Valid() && fresh(backend.Repr() - old(backend.Repr()))
    ensures r == if broken then POISONED else Checksum(Joined(pieces))
    ensures broken ==> backend.tfm != null && |Joined(pieces)| >= MIN_HW_LEN
    ensures |results| == |others| && forall i | 0 <= i < |others| :: results[i] == Checksum(others[i])
  {
    hide Checksum, Fold;
    var hasher := new Crc32Hasher(backend.tfm);
    results := [];
    for i := 0 to |pieces|
      invariant hasher.Valid() && hasher.given == Joined(pieces[..i])
      invariant backend.Valid() && Separate(hasher, backend)
      invariant fresh(backend.Repr() - old(backend.Repr())) && fresh(hasher.Repr() - old(backend.Repr()))
      invariant |results| == i && forall k | 0 <= k < i :: results[k] == Checksum(others[k])
    {
      JoinedNext(pieces, i);
      var value := UpdateThenOneShot(hasher, backend, pieces[i], others[i]);
      results := results + [value];
    }
    assert pieces[..|pieces|] == pieces;
    r, broken := FinishStream(hasher, backend);
  }

  lemma JoinedNext(pieces: seq<seq<byte>>, i: nat)
    requires i < |pieces|
    ensures Joined(pieces[..i + 1]) == Joined(pieces[..i]) + pieces[i]
  {
    assert pieces[..i + 1][..i] == pieces[..i];
  }

  /** Closing the stream leaves the one-shot state alone. */
  method FinishStream(hasher: Crc32Hasher, backend: Backend) returns (r: bv32, ghost broken: bool)
    requires hasher.Valid() && backend.Valid() && Separate(hasher, backend)
    modifies hasher.Repr(), backend`hwOps
    ensures backend.Valid() && backend.Repr() == old(backend.Repr())
    ensures r == if broken then POISONED else Checksum(old(hasher.given))
    ensures broken ==> hasher.tfm != null && |old(hasher.given)| >= MIN_HW_LEN
  {
    hide Checksum, Fold;
    r := hasher.Finalize(backend);
    broken := hasher.Broken();
  }

  /**
   Routing: where the kernel serves in full, a stream is computed by the hardware exactly if its total length reaches
   the threshold, however it is cut.
   */
  method StreamRouted(backend: Backend, pieces: seq<seq<byte>>) returns (r: bv32)
    requires backend.Valid() && backend.tfm != null && backend.tfm.accepts != [] && backend.tfm.accepts[0] == Some([])
    modifies backend.Repr()
    ensures r == Checksum(Joined(pieces))
    ensures backend.hwOps == old(backend.hwOps) + if |Joined(pieces)| >= 16384 then 1 else 0
  {
    hide Checksum, Fold;
    var hasher := new Crc32Hasher(backend.tfm);
    for i := 0 to |pieces|
      invariant hasher.Valid() && hasher.given == Joined(pieces[..i]) && hasher.ServedInFull()
      invariant hasher.tfm == backend.tfm && backend.hwOps == old(backend.hwOps)
      invariant fresh(hasher.Repr() - {backend.tfm})
    {
      JoinedNext(pieces, i);
      hasher.Update(pieces[i]);
    }
    assert pieces[..|pieces|] == pieces;
    r := hasher.Finalize(backend);
  }
}
