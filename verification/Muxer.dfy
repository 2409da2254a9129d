/** The bounded reassembly table, updated in place. */
module Muxers {
  import opened Wrappers
  import opened Frames
  import opened Packets
  import opened Slots

  class PacketMuxer {
    const S: nat
    const R: nat
    const packets: array<Packet>
    var count: nat
    var lastUpdateTime: nat

    ghost predicate Valid()
      reads this, packets
    {
      && packets.Length == R
      && count <= R
      && forall i | 0 <= i < R :: packets[i].Valid(S)
    }

    ghost function Model(): (slot: Slot)
      reads this, packets
    {
      Slot(packets[..], count, lastUpdateTime)
    }

    constructor (s: nat, r: nat)
      ensures Valid() && S == s && R == r && fresh(packets)
      ensures Model() == Slot(seq(r, _ => NewPacket(s)), 0, 0)
    {
      S, R := s, r;
      packets := new Packet[r](_ => NewPacket(s));
      count, lastUpdateTime := 0, 0;
    }

    method PacketId() returns (id: bv32)
      requires Valid()
      ensures id == Model().Id()
    {
      return if count == 0 then 0 else packets[0].header.id;
    }

    method IsEmpty() returns (b: bool)
      ensures b <==> count == 0
    {
      return count == 0;
    }

    method Push(now: nat, newPacket: Packet) returns (ok: bool)
      requires Valid() && newPacket.Valid(S)
      modifies this, packets
      ensures Valid()
      ensures ok <==> old(Model()).Accepts(newPacket)
      ensures Model() == if ok then old(Model()).Push(now, newPacket) else old(Model())
    {
      if count >= R {
        return false;
      }
      if newPacket.header.seqCount > R {
        return false;
      }
      if count != 0 {
        for i := 0 to count
          invariant forall j | 0 <= j < i ::
              packets[j].header.id == newPacket.header.id && packets[j].header.seqNo != newPacket.header.seqNo
        {
          var header := packets[i].header;
          if header.id != newPacket.header.id {
            assert !Model().Accepts(newPacket);
            return false;
          }
          if header.seqNo == newPacket.header.seqNo {
            assert !Model().Accepts(newPacket);
            return false;
          }
        }
      }
      packets[count] := newPacket;
      count := count + 1;
      lastUpdateTime := now;
      return true;
    }

    method Release()
      requires Valid()
      modifies this
      ensures Valid() && Model() == old(Model()).Release()
    {
      count := 0;
      lastUpdateTime := 0;
    }

    method TimeoutReached(now: nat, timeout: nat) returns (b: bool)
      ensures b <==> TimeElapsed(lastUpdateTime, now, timeout)
    {
      return TimeElapsed(lastUpdateTime, now, timeout);
    }

    method CanAssemble() returns (b: bool)
      requires Valid()
      ensures b <==> Model().CanAssemble()
    {
      if count == 0 {
        return false;
      }
      var header := packets[0].header;
      if count < header.seqCount {
        return false;
      }
      return true;
    }

    /** Appends the first packet of the array with the given number, live or not. */
    method PushSegment(seqNo: nat, frame: FrameSegment) returns (error: Option<NetworkError>)
      requires Valid() && frame.Valid() && frame.data as object != packets
      modifies frame, frame.data
      ensures packets[..] == old(packets[..]) && frame.Valid()
      ensures
        var i := FirstSeq(packets[..], seqNo, 0);
        if i == R then error == Some(IncorrectSequence)
        else if !old(frame.Model()).Fits(|packets[i].Contents()|) then error == Some(OutOfMemory)
        else error == None && frame.Contents() == old(frame.Contents()) + packets[i].Contents()
      ensures error.Some? ==> frame.Contents() == old(frame.Contents())
    {
      ghost var all := packets[..];
      var i := 0;
      while i < packets.Length && packets[i].header.seqNo != seqNo
        invariant 0 <= i <= packets.Length
        invariant FirstSeq(all, seqNo, i) == FirstSeq(all, seqNo, 0)
      {
        i := i + 1;
      }
      assert FirstSeq(all, seqNo, 0) == i;
      if i == packets.Length {
        return Some(IncorrectSequence);
      }
      var bytes := packets[i].Contents();
      var ok := frame.PushData(bytes);
      return if ok then None else Some(OutOfMemory);
    }

    /** Gathers the segments into `frame`; an obstacle leaves what was gathered before it. */
    method Assemble(frame: FrameSegment) returns (r: Result<Assembled, NetworkError>)
      requires Valid() && frame.Valid() && frame.S == S && frame.R == R && frame.data as object != packets
      modifies frame, frame.data
      ensures Valid() && Model() == old(Model())
      ensures frame.Valid() && r == AssembledSlot(old(Model()), S, R)
      ensures frame.Contents() ==
        if Model().CanAssemble() then GatheredBytes(Model(), S, R) else old(frame.Contents())
    {
      hide FirstSeq;
      var can := CanAssemble();
      if !can {
        return Failure(TryAgain);
      }
      var header := packets[0].header;
      frame.Clear();
      var seqNo, iter := 0, 0;
      ghost var all := packets[..];
      while iter < count
        invariant 0 <= iter == seqNo <= count && frame.Valid()
        invariant packets[..] == all
        invariant Gather(all, seqNo, count, frame.Contents(), S * R) == Gather(all, 0, count, [], S * R)
      {
        var error := PushSegment(seqNo, frame);
        if error.Some? {
          return Failure(error.value);
        }
        seqNo := seqNo + 1;
        iter := iter + 1;
      }
      var bytes := frame.AsSlice();
      return Success(Assembled(header.id, bytes));
    }
  }

  /** The table of `Q` slots. */
  class Muxer {
    const S: nat
    const R: nat
    const queue: array<PacketMuxer>
    const timeout: nat
    ghost var Repr: set<object>

    ghost predicate Valid()
      reads this, Repr
      ensures Valid() ==> this in Repr
    {
      && this in Repr && queue in Repr
      && timeout == TIMEOUT
      && (forall i | 0 <= i < queue.Length ::
          && queue[i] in Repr && queue[i].packets in Repr
          && queue[i].S == S && queue[i].R == R && queue[i].Valid())
      && (forall i, j | 0 <= i < j < queue.Length ::
          queue[i] != queue[j] && queue[i].packets != queue[j].packets)
    }

    ghost function Model(): (slots: seq<Slot>)
      requires Valid()
      reads this, Repr
      ensures |slots| == queue.Length && ValidTable(slots, S, R)
      ensures forall i | 0 <= i < queue.Length :: slots[i] == queue[i].Model()
    {
      seq(queue.Length, i requires 0 <= i < queue.Length && Valid() reads this, Repr => queue[i].Model())
    }

    constructor (s: nat, r: nat, q: nat)
      ensures Valid() && fresh(Repr) && S == s && R == r
      ensures Model() == seq(q, _ => Slot(seq(r, _ => NewPacket(s)), 0, 0))
    {
      S, R, timeout := s, r, TIMEOUT;
      var first := new PacketMuxer(s, r);
      var slots := new PacketMuxer[q](_ => first);
      queue := slots;
      Repr := {this, slots};
      new;
      for i := 0 to q
        invariant this in Repr && queue in Repr && fresh(Repr)
        invariant forall k | 0 <= k < i ::
            && queue[k] in Repr && queue[k].packets in Repr
            && queue[k].S == s && queue[k].R == r && queue[k].Valid()
            && queue[k].Model() == Slot(seq(r, _ => NewPacket(s)), 0, 0)
        invariant forall k, l | 0 <= k < l < i :: queue[k] != queue[l] && queue[k].packets != queue[l].packets
      {
        var px := new PacketMuxer(s, r);
        queue[i] := px;
        Repr := Repr + {px, px.packets};
      }
    }

    method PushAt(i: nat, now: nat, packet: Packet) returns (ok: bool)
      requires Valid() && i < queue.Length && packet.Valid(S)
      modifies Repr
      ensures Valid() && Repr == old(Repr)
      ensures ok <==> old(Model())[i].Accepts(packet)
      ensures Model() == if ok then old(Model())[i := old(Model())[i].Push(now, packet)] else old(Model())
    {
      ghost var before := Model();
      ok := queue[i].Push(now, packet);
      assert forall j | 0 <= j < queue.Length && j != i :: queue[j].Model() == before[j];
    }

    method ReleaseAt(i: nat)
      requires Valid() && i < queue.Length
      modifies Repr
      ensures Valid() && Repr == old(Repr)
      ensures Model() == old(Model())[i := old(Model())[i].Release()]
    {
      ghost var before := Model();
      queue[i].Release();
      assert forall j | 0 <= j < queue.Length && j != i :: queue[j].Model() == before[j];
    }

    method ExpireAt(i: nat, now: nat)
      requires Valid() && i < queue.Length
      modifies Repr
      ensures Valid() && Repr == old(Repr)
      ensures Model() == old(Model())[i := old(Model())[i].Expire(now)]
    {
      var expired := queue[i].TimeoutReached(now, timeout);
      if expired {
        ReleaseAt(i);
      }
    }

    method AssembleAt(i: nat, frame: FrameSegment) returns (r: Result<Assembled, NetworkError>)
      requires Valid() && i < queue.Length
      requires frame.Valid() && frame.S == S && frame.R == R && {frame, frame.data} !! Repr
      modifies frame, frame.data
      ensures Valid() && Model() == old(Model()) && frame.Valid()
      ensures r == AssembledSlot(old(Model())[i], S, R)
      ensures old(Model())[i].CanAssemble() ==> frame.Contents() == GatheredBytes(old(Model())[i], S, R)
      ensures r.Success? ==> frame.Contents() == r.value.payload
    {
      r := queue[i].Assemble(frame);
      assert forall j | 0 <= j < queue.Length :: queue[j].Model() == old(queue[j].Model());
    }

    /** First pass: add to a slot that already holds packets of the message. */
    method TryJoin(now: nat, packet: Packet) returns (ok: bool)
      requires Valid() && packet.Valid(S)
      modifies Repr
      ensures Valid() && Repr == old(Repr)
      ensures
        var slots := old(Model());
        var i := FirstJoin(slots, packet, 0);
        ok == (i < |slots|) && Model() == if ok then slots[i := slots[i].Push(now, packet)] else slots
    {
      hide Slot.Accepts, Slot.Push, Slot.Valid, FirstJoin;
      var packetId := packet.header.id;
      ghost var before := Model();
      for i := 0 to queue.Length
        invariant Valid() && Repr == old(Repr) && Model() == before
        invariant FirstJoin(before, packet, i) == FirstJoin(before, packet, 0)
      {
        JoinStep(before, packet, i);
        var empty := queue[i].IsEmpty();
        var id := queue[i].PacketId();
        if !empty && id == packetId {
          ok := PushAt(i, now, packet);
          if ok {
            return;
          }
        }
      }
      return false;
    }

    /** Second pass: start in the first slot that is free or expired. */
    method TryOpen(now: nat, packet: Packet) returns (ok: bool)
      requires Valid() && packet.Valid(S)
      modifies Repr
      ensures Valid() && Repr == old(Repr)
      ensures
        var slots := old(Model());
        var k := FirstOpen(slots, now, packet, 0);
        ok == (k < |slots|) && Model() ==
          if ok then ExpireFirst(slots, now, k)[k := slots[k].Expire(now).Push(now, packet)]
          else ExpireFirst(slots, now, |slots|)
    {
      hide Slot.Accepts, Slot.Push, Slot.Valid, Slot.Expire, FirstOpen, ExpireFirst;
      ghost var before := Model();
      ExpireFirstSteps(before, now, 0);
      for i := 0 to queue.Length
        invariant Valid() && Repr == old(Repr) && Model() == ExpireFirst(before, now, i)
        invariant FirstOpen(before, now, packet, i) == FirstOpen(before, now, packet, 0)
      {
        OpenStep(before, now, packet, i);
        ExpireFirstSteps(before, now, i);
        ExpireAt(i, now);
        var empty := queue[i].IsEmpty();
        if empty {
          ok := PushAt(i, now, packet);
          if ok {
            ExpireFirstReplace(before, now, i, Model()[i]);
            return;
          }
        }
      }
      return false;
    }

    method Multiplex(now: nat, packet: Packet) returns (error: Option<NetworkError>)
      requires Valid() && packet.Valid(S)
      modifies Repr
      ensures Valid() && Repr == old(Repr)
      ensures (Model(), error) == Multiplexed(old(Model()), now, packet)
    {
      hide FirstJoin, FirstOpen, ExpireFirst, Slot.Valid;
      if !packet.header.HasFlag(SEGMENTED) {
        return Some(NotSupported);
      }
      var ok := TryJoin(now, packet);
      if ok {
        return None;
      }
      ok := TryOpen(now, packet);
      return if ok then None else Some(TryAgain);
    }

    method Process(frame: FrameSegment) returns (r: Result<Assembled, NetworkError>)
      requires Valid() && frame.Valid() && frame.S == S && frame.R == R && {frame, frame.data} !! Repr
      modifies Repr, frame, frame.data
      ensures Valid() && Repr == old(Repr) && frame.Valid()
      ensures (Model(), r) == Processed(old(Model()), S, R)
      ensures frame.Contents() == Output(old(Model()), S, R, old(frame.Contents()))
      ensures r.Success? ==> frame.Contents() == r.value.payload
    {
      hide FirstComplete, AssembledSlot, GatheredBytes, Slot.Valid, Slot.Release, Slot.CanAssemble;
      ghost var before := Model();
      for i := 0 to queue.Length
        invariant Valid() && Repr == old(Repr) && Model() == before
        invariant frame.Valid() && frame.Contents() == old(frame.Contents())
        invariant FirstComplete(before, i) == FirstComplete(before, 0)
      {
        CompleteStep(before, i);
        var can := queue[i].CanAssemble();
        if can {
          r := AssembleAt(i, frame);
          if r.Success? {
            ReleaseAt(i);
            return;
          }
          return Failure(TryAgain);
        }
      }
      return Failure(TryAgain);
    }

    method ReleaseExpired(now: nat)
      requires Valid()
      modifies Repr
      ensures Valid() && Repr == old(Repr)
      ensures Model() == ReleasedExpired(old(Model()), now)
    {
      hide ExpireFirst;
      ghost var before := Model();
      ExpireFirstSteps(before, now, 0);
      for i := 0 to queue.Length
        invariant Valid() && Repr == old(Repr) && Model() == ExpireFirst(before, now, i)
      {
        ExpireFirstSteps(before, now, i);
        ExpireAt(i, now);
      }
    }
  }
}
