/**
 What comes back when a JSON value is written by the schema codec and read again, for every
 value the encoder accepts; and exactly which values come back unchanged.
 */
module SchemaRoundTrip {
  import opened Octets
  import opened JsonValue
  import opened Tlv
  import opened Schema
  import opened DecoderAlgebra

  // ----- The value that comes back

  /** The values the TLVs written for v stand for, one for each TLV. */
  ghost function Leaves(dt: DataType, v: Json): seq<Json>
    decreases dt, 2, 0
  {
    match dt
    case NumberType(w) => if v.IsUInt64() then [Int(v.n % Pow256(w))] else []
    case StringType(limit) => if v.Str? then [Str(TrimZeros(Clip(v.s, limit)))] else []
    case HexType(limit) => if v.Str? then [Str(UpperPairs(ClipHex(v.s, limit)))] else []
    case BoolType => [v]
    case EnumType => if v.IsUInt() then [Int(v.n % 256)] else []
    case ArrayType(item) => if v.Arr? then Wrap(LeavesOfItems(item, v.items)) else []
    case StructType(_) => if v.Obj? then [AsValue(Normal(dt, v.members))] else []
  }

  ghost function LeavesOfItems(item: DataType, vs: seq<Json>): seq<Json>
    decreases item, 3, |vs|
  {
    if vs == [] then [] else Leaves(item, vs[0]) + LeavesOfItems(item, vs[1..])
  }

  function Wrap(vs: seq<Json>): (ws: seq<Json>)
    ensures |ws| == |vs|
  {
    seq(|vs|, i requires 0 <= i < |vs| => Arr([vs[i]]))
  }

  /** A member that is written and read back; None when nothing is written for it. */
  ghost function NormalField(dt: DataType, v: Json): Option<Json>
    decreases dt, 4
  {
    if dt.ArrayType? then
      if v.Arr? && LeavesOfItems(dt.item, v.items) != [] then Some(Arr(LeavesOfItems(dt.item, v.items))) else None
    else
      var l := Leaves(dt, v);
      if l == [] then None else Some(l[0])
  }

  ghost function NormalMember(dt: DataType, m: Members, k: string): Option<Json>
    requires dt.StructType?
    decreases dt, 0
  {
    var p := FindByName(dt.props, k);
    if p.None? || k !in m then None else NormalField(p.value.dataType, m[k])
  }

  /** The object that comes back. */
  ghost function Normal(dt: DataType, m: Members): Members
    requires dt.StructType?
    decreases dt, 1
  {
    map k | k in m && NormalMember(dt, m, k).Some? :: NormalMember(dt, m, k).value
  }

  function TrimZeros(s: text): (t: text) {
    if s != "" && s[|s| - 1] as int == 0 then TrimZeros(s[..|s| - 1]) else s
  }

  lemma {:induction false} TrimRightIsTrimZeros(s: text)
    ensures FromBytes(TrimRight(ToBytes(s))) == TrimZeros(s)
  {
    if s != "" && s[|s| - 1] as int == 0 {
      assert ToBytes(s)[..|s| - 1] == ToBytes(s[..|s| - 1]);
      TrimRightIsTrimZeros(s[..|s| - 1]);
    } else {
      assert TrimRight(ToBytes(s)) == ToBytes(s);
      TextRoundTrip(s);
    }
  }

  // ----- Reading back what was written

  /** Every TLV carries the tag, has a body below 2^14 bytes, and reads back as its leaf. */
  ghost predicate ReadsBack(dt: DataType, ts: seq<Tlv>, tag: byte, leaves: seq<Json>) {
    && |ts| == |leaves|
    && forall i :: 0 <= i < |ts| ==>
         ts[i].tag == tag && |ts[i].body| < LENGTH_LIMIT && Decode(dt, ts[i].body) == Some(leaves[i])
  }

  lemma {:induction false} LeafRoundTrip(dt: DataType, v: Json, tag: byte)
    requires WellFormed(dt)
    requires Encode(dt, v, tag).Some?
    ensures ReadsBack(dt, Encode(dt, v, tag).value, tag, Leaves(dt, v))
    decreases dt, 2, 0
  {
    hide Pow256, BigEndian, FromBigEndian, ToBytes, FromBytes, TrimRight, TrimZeros,
         HexOf, HexBytes, UpperPairs, HexPairs, EncodeItems, LeavesOfItems, EncodeMembers, Normal,
         StoreAll, Parse, Serialize, MemberNames, DistinctProps;
    match dt
    case NumberType(w) => BigEndianRoundTrip(v.n, w);
    case StringType(limit) => TrimRightIsTrimZeros(Clip(v.s, limit));
    case HexType(limit) => HexRoundTrip(ClipHex(v.s, limit));
    case BoolType =>
    case EnumType =>
    case ArrayType(item) =>
      ItemsRoundTrip(item, v.items, tag);
    case StructType(_) =>
      StructRoundTrip(dt, v.members);
  }

  lemma {:induction false} ItemsRoundTrip(item: DataType, vs: seq<Json>, tag: byte)
    requires WellFormed(item)
    requires EncodeItems(item, vs, tag).Some?
    ensures ReadsBack(item, EncodeItems(item, vs, tag).value, tag, LeavesOfItems(item, vs))
    decreases item, 3, |vs|
  {
    if vs != [] {
      LeafRoundTrip(item, vs[0], tag);
      ItemsRoundTrip(item, vs[1..], tag);
    }
  }

  /** A field filled from the TLVs written for v holds the normal form of v. */
  lemma FieldRoundTrip(dt: DataType, v: Json, tag: byte)
    requires WellFormed(dt)
    requires Encode(dt, v, tag).Some?
    ensures Short(Encode(dt, v, tag).value)
    ensures forall i :: 0 <= i < |Encode(dt, v, tag).value| ==> Encode(dt, v, tag).value[i].tag == tag
    ensures FoldField(dt, None, Bodies(Encode(dt, v, tag).value, tag)) == NormalField(dt, v)
    decreases dt, 4
  {
    LeafRoundTrip(dt, v, tag);
    var ts := Encode(dt, v, tag).value;
    if dt.ArrayType? {
      var items := LeavesOfItems(dt.item, v.items);
      FoldArray(dt, ts, tag, items, []);
      assert [] + items == items;
    } else {
      assert |ts| == 1 && ts[1..] == [];
      assert Bodies(ts, tag) == [ts[0].body];
    }
  }

  lemma {:induction false} FoldArray(dt: DataType, ts: seq<Tlv>, tag: byte, items: seq<Json>, sofar: seq<Json>)
    requires dt.ArrayType?
    requires ReadsBack(dt, ts, tag, Wrap(items))
    ensures FoldField(dt, if sofar == [] then None else Some(Arr(sofar)), Bodies(ts, tag)) ==
            if sofar + items == [] then None else Some(Arr(sofar + items))
    decreases |ts|
  {
    if ts == [] {
      assert items == [] && sofar + items == sofar;
    } else {
      var was := if sofar == [] then None else Some(Arr(sofar));
      var more := sofar + [items[0]];
      assert Wrap(items)[0] == Arr([items[0]]);
      assert StoreField(dt, was, ts[0].body) == Some(Arr(more)) by {
        assert sofar == [] ==> more == [items[0]];
      }
      var bodies := Bodies(ts, tag);
      assert bodies[0] == ts[0].body && bodies[1..] == Bodies(ts[1..], tag);
      assert Wrap(items)[1..] == Wrap(items[1..]);
      FoldArray(dt, ts[1..], tag, items[1..], more);
      assert more + items[1..] == sofar + items;
    }
  }

  // ----- Structs

  /** The TLVs of other members never carry p's tag. */
  lemma {:induction false} MemberBodies(dt: DataType, names: seq<string>, m: Members, p: Property)
    requires dt.StructType? && WellFormed(dt) && p in dt.props
    requires DistinctNames(names)
    requires EncodeMembers(dt, names, m).Some?
    ensures Short(EncodeMembers(dt, names, m).value)
    ensures FoldField(p.dataType, None, Bodies(EncodeMembers(dt, names, m).value, p.index)) ==
            if p.name in names then NormalField(p.dataType, Get(m, p.name)) else None
    ensures p.name !in names ==> Bodies(EncodeMembers(dt, names, m).value, p.index) == []
    decreases dt, 0, |names| + 1
  {
    if names != [] {
      var name, rest := names[0], names[1..];
      MemberBodies(dt, rest, m, p);
      var ts := EncodeMember(dt, name, m).value;
      BodiesAppend(ts, EncodeMembers(dt, rest, m).value, p.index);
      OneMemberBodies(dt, name, m, p);
      if name == p.name {
        assert p.name !in rest;
        assert Bodies(ts, p.index) + [] == Bodies(ts, p.index);
      } else {
        var bodies := Bodies(EncodeMembers(dt, rest, m).value, p.index);
        assert [] + bodies == bodies;
      }
    }
  }

  lemma OneMemberBodies(dt: DataType, name: string, m: Members, p: Property)
    requires dt.StructType? && WellFormed(dt) && p in dt.props
    requires EncodeMember(dt, name, m).Some?
    ensures Short(EncodeMember(dt, name, m).value)
    ensures name == p.name ==>
              FoldField(p.dataType, None, Bodies(EncodeMember(dt, name, m).value, p.index)) ==
              NormalField(p.dataType, Get(m, name))
    ensures name != p.name ==> Bodies(EncodeMember(dt, name, m).value, p.index) == []
    decreases dt, 0, 0
  {
    hide Encode, NormalField, FoldField, FindByName;
    var q := FindByName(dt.props, name);
    if q.Some? {
      FieldRoundTrip(q.value.dataType, Get(m, name), q.value.index);
      if name == p.name {
        FindByNameComplete(dt.props, p);
      } else {
        NoBodies(EncodeMember(dt, name, m).value, q.value.index, p.index);
      }
    } else if name == p.name {
      FindByNameComplete(dt.props, p);
    }
  }

  lemma {:induction false} NoBodies(ts: seq<Tlv>, tag: int, other: int)
    requires forall i :: 0 <= i < |ts| ==> ts[i].tag == tag
    requires tag != other
    ensures Bodies(ts, other) == []
  {
    if ts != [] {
      NoBodies(ts[1..], tag, other);
    }
  }

  lemma {:induction false} MembersShort(dt: DataType, names: seq<string>, m: Members)
    requires dt.StructType? && WellFormed(dt)
    requires EncodeMembers(dt, names, m).Some?
    ensures Short(EncodeMembers(dt, names, m).value)
    decreases dt, 0, |names|
  {
    if names != [] {
      var q := FindByName(dt.props, names[0]);
      if q.Some? {
        FieldRoundTrip(q.value.dataType, Get(m, names[0]), q.value.index);
      }
      MembersShort(dt, names[1..], m);
    }
  }

  /** The TLVs written for an object read back as its normal form. */
  lemma {:induction false} MembersRoundTrip(dt: DataType, m: Members)
    requires dt.StructType? && WellFormed(dt)
    requires EncodeMembers(dt, MemberNames(m.Keys), m).Some?
    ensures Short(EncodeMembers(dt, MemberNames(m.Keys), m).value)
    ensures StoreAll(dt, EncodeMembers(dt, MemberNames(m.Keys), m).value, map[]) == Normal(dt, m)
    decreases dt, 1, 1
  {
    var names := MemberNames(m.Keys);
    var ts := EncodeMembers(dt, names, m).value;
    MemberNamesDistinct(m.Keys);
    MemberNamesCover(m.Keys);
    MembersShort(dt, names, m);
    forall k
      ensures Lookup(StoreAll(dt, ts, map[]), k) == Lookup(Normal(dt, m), k)
    {
      if p :| p in dt.props && p.name == k {
        FindByNameComplete(dt.props, p);
        MemberBodies(dt, names, m, p);
        StoreAllOneKey(dt, ts, map[], p);
      } else {
        StoreAllForeignKey(dt, ts, map[], k);
      }
    }
    SameLookups(StoreAll(dt, ts, map[]), Normal(dt, m));
  }

  lemma {:induction false} StructRoundTrip(dt: DataType, m: Members)
    requires dt.StructType? && WellFormed(dt)
    requires EncodeMembers(dt, MemberNames(m.Keys), m).Some?
    ensures Decode(dt, Serialize(EncodeMembers(dt, MemberNames(m.Keys), m).value)) == Some(AsValue(Normal(dt, m)))
    decreases dt, 1, 2
  {
    MembersRoundTrip(dt, m);
    ParseWhole(EncodeMembers(dt, MemberNames(m.Keys), m).value);
  }
}
