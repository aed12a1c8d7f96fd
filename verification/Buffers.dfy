/** Byte buffers written in place. */
module Buffers {
  import opened Octets

  /** Only buf[base..base + room] may differ from the state at entry. */
  twostate predicate OnlyWithin(buf: array<byte>, base: nat, room: nat)
    reads buf
  {
    forall i :: 0 <= i < buf.Length && !(base <= i < base + room) ==> buf[i] == old(buf[i])
  }

  /** The bytes b stand in the buffer from position `at` on. */
  ghost predicate Holds(buf: array<byte>, at: nat, b: bytes)
    reads buf
  {
    at + |b| <= buf.Length && forall i :: 0 <= i < |b| ==> buf[at + i] == b[i]
  }

  /** As much of b as fits the room. */
  function Upto(b: bytes, room: nat): (c: bytes)
    ensures |c| <= room && |c| <= |b|
  {
    if |b| <= room then b else b[..room]
  }

  /** The byte behind the room, once a writer that does not look has stored its last one there. */
  function Behind(stray: Option<byte>, was: byte): byte {
    if stray.Some? then stray.value else was
  }

  /** The stray byte of two writers, one after the other. */
  function Later(first: Option<byte>, second: Option<byte>): Option<byte> {
    if second.Some? then second else first
  }

  /** Filling a limited room part by part leaves the same as cutting off the whole. */
  lemma UptoJoin(a: bytes, b: bytes, room: nat)
    ensures Upto(a + b, room) == Upto(a, room) + Upto(b, room - |Upto(a, room)|)
  {
    if |a| <= room < |a| + |b| {
      assert (a + b)[..room] == a + b[..room - |a|];
    } else if room < |a| {
      assert (a + b)[..room] == a[..room];
      assert b[..0] == [];
    }
  }

  lemma HoldsJoin(buf: array<byte>, at: nat, a: bytes, b: bytes)
    requires Holds(buf, at, a) && Holds(buf, at + |a|, b)
    ensures Holds(buf, at, a + b)
  {
    forall i | 0 <= i < |a + b|
      ensures buf[at + i] == (a + b)[i]
    {
      if i >= |a| {
        assert buf[at + |a| + (i - |a|)] == b[i - |a|];
      }
    }
  }

  method CopyIn(src: bytes, buf: array<byte>, at: nat)
    requires at + |src| <= buf.Length
    modifies buf
    ensures Holds(buf, at, src)
    ensures OnlyWithin(buf, at, |src|)
  {
    forall i | 0 <= i < |src| {
      buf[at + i] := src[i];
    }
  }

  /** The next part of a buffer that is filled from its start. */
  method Append(part: bytes, buf: array<byte>, ghost done: bytes, at: nat)
    requires at == |done| && at + |part| <= buf.Length
    requires Holds(buf, 0, done)
    modifies buf
    ensures Holds(buf, 0, done + part)
  {
    CopyIn(part, buf, at);
    HoldsJoin(buf, 0, done, part);
  }

  lemma HoldsAll(buf: array<byte>, b: bytes)
    requires Holds(buf, 0, b)
    ensures buf[..|b|] == b
  {
  }

  lemma NothingHeld(buf: array<byte>)
    ensures Holds(buf, 0, [])
  {
  }
}
