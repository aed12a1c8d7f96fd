/**
 Laws of the decoder loop: it is a left fold over the TLVs of its input, and the fold only
 depends on the order of TLVs that share a tag.
 */
module DecoderAlgebra {
  import opened Octets
  import opened JsonValue
  import opened Tlv
  import opened Schema

  /** module::dataB2J: read the data into an existing object. */
  function DecodeInto(props: seq<Property>, data: bytes, m: Members): Members {
    StoreAll(StructType(props), Parse(data), m)
  }

  /** The data ends exactly where its last TLV ends. */
  predicate Whole(data: bytes)
    decreases |data|
  {
    data == [] ||
    var h := GetLength(At(data, 1, 0), At(data, 2, 0));
    var end := 1 + h.count + h.length;
    end <= |data| && Whole(data[end..])
  }

  lemma {:induction false} ParseAppend(a: bytes, b: bytes)
    requires Whole(a)
    ensures Parse(a + b) == Parse(a) + Parse(b)
    decreases |a|
  {
    if a == [] {
      assert a + b == b;
    } else {
      var h := GetLength(At(a, 1, 0), At(a, 2, 0));
      var start := 1 + h.count;
      var end := start + h.length;
      assert At(a + b, 1, 0) == At(a, 1, 0);
      assert h == GetLength(At(a + b, 1, 0), At(a + b, 2, 0));
      assert (a + b)[end..] == a[end..] + b;
      assert (a + b)[start..end] == a[start..end];
      ParseAppend(a[end..], b);
    }
  }

  lemma {:induction false} StoreAllAppend(dt: DataType, s: seq<Tlv>, t: seq<Tlv>, m: Members)
    requires dt.StructType?
    ensures StoreAll(dt, s + t, m) == StoreAll(dt, t, StoreAll(dt, s, m))
    decreases |s|
  {
    if s == [] {
      assert s + t == t;
    } else {
      assert (s + t)[1..] == s[1..] + t;
      StoreAllAppend(dt, s[1..], t, Store(dt, s[0], m));
    }
  }

  /** Reading a and then b is reading a ++ b, when a is a whole number of TLVs. */
  lemma DecodeAppend(props: seq<Property>, a: bytes, b: bytes, m: Members)
    requires Whole(a)
    ensures DecodeInto(props, a + b, m) == DecodeInto(props, b, DecodeInto(props, a, m))
  {
    ParseAppend(a, b);
    StoreAllAppend(StructType(props), Parse(a), Parse(b), m);
  }

  // ----- One key at a time

  /** The bodies written under one tag, in order. */
  function Bodies(ts: seq<Tlv>, tag: int): (bs: seq<bytes>) {
    if ts == [] then []
    else if ts[0].tag == tag then [ts[0].body] + Bodies(ts[1..], tag)
    else Bodies(ts[1..], tag)
  }

  lemma {:induction false} BodiesAppend(s: seq<Tlv>, t: seq<Tlv>, tag: int)
    ensures Bodies(s + t, tag) == Bodies(s, tag) + Bodies(t, tag)
  {
    if s == [] {
      assert s + t == t;
    } else {
      assert (s + t)[1..] == s[1..] + t;
      BodiesAppend(s[1..], t, tag);
    }
  }

  function FoldField(dt: DataType, was: Option<Json>, bodies: seq<bytes>): Option<Json>
    decreases |bodies|
  {
    if bodies == [] then was else FoldField(dt, StoreField(dt, was, bodies[0]), bodies[1..])
  }

  lemma StoreOneKey(dt: DataType, t: Tlv, m: Members, p: Property)
    requires dt.StructType? && DistinctProps(dt.props) && p in dt.props
    ensures Lookup(Store(dt, t, m), p.name) ==
            if t.tag == p.index then StoreField(p.dataType, Lookup(m, p.name), t.body) else Lookup(m, p.name)
  {
    if t.tag == p.index {
      FindByIndexComplete(dt.props, p);
      var x := StoreField(p.dataType, Lookup(m, p.name), t.body);
      if x.None? {
        assert Lookup(m, p.name).None?;
      }
    }
  }

  /** The value under a property's key depends only on the bodies under its tag. */
  lemma {:induction false} StoreAllOneKey(dt: DataType, ts: seq<Tlv>, m: Members, p: Property)
    requires dt.StructType? && DistinctProps(dt.props) && p in dt.props
    ensures Lookup(StoreAll(dt, ts, m), p.name) == FoldField(p.dataType, Lookup(m, p.name), Bodies(ts, p.index))
    decreases |ts|
  {
    if ts != [] {
      StoreOneKey(dt, ts[0], m, p);
      StoreAllOneKey(dt, ts[1..], Store(dt, ts[0], m), p);
    }
  }

  /** Keys that no property names are never touched. */
  lemma {:induction false} StoreAllForeignKey(dt: DataType, ts: seq<Tlv>, m: Members, key: string)
    requires dt.StructType?
    requires forall p :: p in dt.props ==> p.name != key
    ensures Lookup(StoreAll(dt, ts, m), key) == Lookup(m, key)
    decreases |ts|
  {
    if ts != [] {
      StoreAllForeignKey(dt, ts[1..], Store(dt, ts[0], m), key);
    }
  }

  lemma SameLookups(m: Members, n: Members)
    requires forall k :: Lookup(m, k) == Lookup(n, k)
    ensures m == n
  {
    forall k
      ensures k in m <==> k in n
      ensures k in m ==> m[k] == n[k]
    {
      assert Lookup(m, k) == Lookup(n, k);
    }
    assert m.Keys == n.Keys;
  }

  /** The two streams agree on what each tag of the schema is given, and in which order. */
  ghost predicate SamePerTag(props: seq<Property>, s: seq<Tlv>, t: seq<Tlv>) {
    forall p :: p in props ==> Bodies(s, p.index) == Bodies(t, p.index)
  }

  /**
   Reordering that keeps the order of equal tags, and adding or dropping TLVs of unknown tags
   anywhere, leave the decoded object unchanged.
   */
  lemma DecodeUpToReordering(dt: DataType, s: seq<Tlv>, t: seq<Tlv>, m: Members)
    requires dt.StructType? && DistinctProps(dt.props)
    requires SamePerTag(dt.props, s, t)
    ensures StoreAll(dt, s, m) == StoreAll(dt, t, m)
  {
    forall k
      ensures Lookup(StoreAll(dt, s, m), k) == Lookup(StoreAll(dt, t, m), k)
    {
      if p :| p in dt.props && p.name == k {
        StoreAllOneKey(dt, s, m, p);
        StoreAllOneKey(dt, t, m, p);
      } else {
        StoreAllForeignKey(dt, s, m, k);
        StoreAllForeignKey(dt, t, m, k);
      }
    }
    SameLookups(StoreAll(dt, s, m), StoreAll(dt, t, m));
  }

  /** TLVs of unknown tags have no effect wherever they stand, for any schema. */
  lemma UnknownTagIgnored(props: seq<Property>, s: seq<Tlv>, u: Tlv, t: seq<Tlv>, m: Members)
    requires FindByIndex(props, u.tag).None?
    ensures StoreAll(StructType(props), s + [u] + t, m) == StoreAll(StructType(props), s + t, m)
  {
    var dt := StructType(props);
    var n := StoreAll(dt, s, m);
    StoreAllAppend(dt, s, [u] + t, m);
    StoreAllAppend(dt, s, t, m);
    assert s + [u] + t == s + ([u] + t);
    assert ([u] + t)[1..] == t;
    assert StoreAll(dt, [u] + t, n) == StoreAll(dt, t, Store(dt, u, n));
  }

  /** Two neighbours with different tags can change places. */
  lemma SwapNeighbours(dt: DataType, s: seq<Tlv>, x: Tlv, y: Tlv, t: seq<Tlv>, m: Members)
    requires dt.StructType? && DistinctProps(dt.props)
    requires x.tag != y.tag
    ensures StoreAll(dt, s + [x, y] + t, m) == StoreAll(dt, s + [y, x] + t, m)
  {
    forall p | p in dt.props
      ensures Bodies(s + [x, y] + t, p.index) == Bodies(s + [y, x] + t, p.index)
    {
      BodiesAppend(s + [x, y], t, p.index);
      BodiesAppend(s + [y, x], t, p.index);
      BodiesAppend(s, [x, y], p.index);
      BodiesAppend(s, [y, x], p.index);
      assert [x, y][1..] == [y] && [y, x][1..] == [x];
      assert [x][1..] == [] && [y][1..] == [];
      assert Bodies([], p.index) == [];
      assert Bodies([x], p.index) == if x.tag == p.index then [x.body] else [];
      assert Bodies([y], p.index) == if y.tag == p.index then [y.body] else [];
    }
    DecodeUpToReordering(dt, s + [x, y] + t, s + [y, x] + t, m);
  }
}
