/** Fixed-capacity byte buffers: `R` blocks of `S` bytes used as one flat array, filled up to `len`. */
module Frames {
  import opened Bytes
  import opened Wrappers

  /**
   The value of a frame. Bytes past `len` are left over from earlier uses; they stay in memory and
   come back into view when the frame is lengthened.
   */
  datatype Frame = Frame(data: seq<byte>, len: nat) {

    predicate Valid() {
      len <= |data|
    }

    function Contents(): seq<byte>
      requires Valid()
    {
      data[..len]
    }

    function Clear(): Frame {
      this.(len := 0)
    }

    predicate Fits(n: nat) {
      len + n <= |data|
    }

    function Push(bytes: seq<byte>): (f: Frame)
      requires Fits(|bytes|)
      ensures f.Valid() && |f.data| == |data|
      ensures f.Contents() == Contents() + bytes
    {
      Frame(data[..len] + bytes + data[len + |bytes|..], len + |bytes|)
    }

    /** Shortens or lengthens, but never past one block of `block` bytes. */
    function Resize(n: nat, block: nat): Frame {
      this.(len := if n < block then n else block)
    }
  }

  class FrameSegment {
    const S: nat
    const R: nat
    const data: array<byte>
    var len: nat

    ghost predicate Valid()
      reads this
    {
      && data.Length == S * R
      && S <= data.Length
      && len <= data.Length
    }

    ghost function Model(): (f: Frame)
      reads this, data
    {
      Frame(data[..], len)
    }

    ghost function Contents(): seq<byte>
      requires Valid()
      reads this, data
    {
      data[..len]
    }

    constructor (s: nat, r: nat)
      requires r >= 1
      ensures Valid() && S == s && R == r && fresh(data)
      ensures Model() == Frame(seq(s * r, _ => 0), 0)
    {
      S, R := s, r;
      ProductMonotone(s, r);
      data := new byte[s * r](_ => 0);
      len := 0;
    }

    method Clear()
      requires Valid()
      modifies this
      ensures Valid() && Model() == old(Model()).Clear()
    {
      len := 0;
    }

    /** Reserves `n` bytes after the contents; they show whatever was there before. */
    method AllocBuffer(n: nat) returns (r: Option<nat>)
      requires Valid()
      modifies this
      ensures Valid()
      ensures r.Some? <==> old(Model()).Fits(n)
      ensures r.Some? ==> r.value == old(len) && Model() == old(Model()).(len := old(len) + n)
      ensures r.None? ==> Model() == old(Model())
    {
      if len + n > data.Length {
        return None;
      }
      var start := len;
      len := len + n;
      r := Some(start);
    }

    /** Fills a reserved part of the buffer. */
    method Write(start: nat, bytes: seq<byte>)
      requires Valid() && start + |bytes| <= len
      modifies data
      ensures data[..] == old(data[..start]) + bytes + old(data[start + |bytes|..])
      ensures data[..start + |bytes|] == old(data[..start]) + bytes
    {
      for i := 0 to |bytes|
        invariant data[start..start + i] == bytes[..i]
        invariant data[..start] == old(data[..start])
        invariant data[start + i..] == old(data[start + i..])
      {
        data[start + i] := bytes[i];
        assert data[start..start + i + 1] == data[start..start + i] + [bytes[i]];
      }
      assert data[..] == data[..start] + data[start..start + |bytes|] + data[start + |bytes|..];
    }

    method PushData(bytes: seq<byte>) returns (ok: bool)
      requires Valid()
      modifies this, data
      ensures Valid()
      ensures ok <==> old(Model()).Fits(|bytes|)
      ensures Model() == if ok then old(Model()).Push(bytes) else old(Model())
    {
      var start := AllocBuffer(|bytes|);
      if start.None? {
        return false;
      }
      Write(start.value, bytes);
      ok := true;
    }

    /** Replaces the contents, silently cutting what does not fit. */
    method CopyFromSlice(bytes: seq<byte>)
      requires Valid()
      modifies this, data
      ensures Valid()
      ensures
        var n := if |bytes| < data.Length then |bytes| else data.Length;
        Model() == Frame(bytes[..n] + old(data[n..]), n)
    {
      var n := if |bytes| < data.Length then |bytes| else data.Length;
      len := data.Length;
      Write(0, bytes[..n]);
      len := n;
    }

    method Resize(n: nat)
      requires Valid()
      modifies this
      ensures Valid() && Model() == old(Model()).Resize(n, S)
    {
      len := if n < S then n else S;
    }

    method AsSlice() returns (bytes: seq<byte>)
      requires Valid()
      ensures bytes == Contents() == Model().Contents()
    {
      bytes := data[..len];
    }
  }

  lemma ProductMonotone(s: nat, r: nat)
    requires r >= 1
    ensures s <= s * r
  {
  }
}
