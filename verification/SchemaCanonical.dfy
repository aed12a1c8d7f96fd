/** Exactly which values survive a trip through the schema codec unchanged. */
module SchemaCanonical {
  import opened Octets
  import opened JsonValue
  import opened Tlv
  import opened Schema
  import opened DecoderAlgebra
  import opened SchemaRoundTrip

  /** Survives as one TLV: an array here must hold exactly one item. */
  ghost predicate CanonicalItem(dt: DataType, v: Json)
    decreases dt, 2
  {
    match dt
    case NumberType(w) => v.IsUInt64() && v.n < Pow256(w)
    case StringType(limit) => v.Str? && |v.s| <= limit && (v.s == "" || v.s[|v.s| - 1] as int != 0)
    case HexType(limit) => v.Str? && |v.s| % 2 == 0 && |v.s| / 2 <= limit && IsUpperHex(v.s)
    case BoolType => v.Bool?
    case EnumType => v.IsUInt() && v.n < 256
    case ArrayType(item) => v.Arr? && |v.items| == 1 && CanonicalItem(item, v.items[0])
    case StructType(_) => v.Obj? && CanonicalMembers(dt, v.members)
  }

  /** Survives as a member: an array is any non-empty list of surviving items. */
  ghost predicate Canonical(dt: DataType, v: Json)
    decreases dt, 3
  {
    if dt.ArrayType? then
      v.Arr? && v.items != [] && forall i :: 0 <= i < |v.items| ==> CanonicalItem(dt.item, v.items[i])
    else
      CanonicalItem(dt, v)
  }

  /** Non-empty, only declared members, each surviving. */
  ghost predicate CanonicalMembers(dt: DataType, m: Members)
    requires dt.StructType?
    decreases dt, 1
  {
    m != map[] && forall k :: k in m ==> CanonicalMember(dt, m, k)
  }

  ghost predicate CanonicalMember(dt: DataType, m: Members, k: string)
    requires dt.StructType? && k in m
    decreases dt, 0
  {
    var p := FindByName(dt.props, k);
    p.Some? && Canonical(p.value.dataType, m[k])
  }

  lemma TrimZerosFixed(s: text, limit: nat)
    ensures TrimZeros(Clip(s, limit)) == s <==> |s| <= limit && (s == "" || s[|s| - 1] as int != 0)
  {
    TrimZerosShorter(Clip(s, limit));
  }

  lemma {:induction false} TrimZerosShorter(s: text)
    ensures |TrimZeros(s)| <= |s|
    ensures s != "" && s[|s| - 1] as int == 0 ==> |TrimZeros(s)| < |s|
  {
    if s != "" && s[|s| - 1] as int == 0 {
      TrimZerosShorter(s[..|s| - 1]);
    }
  }

  lemma UpperPairsFixed(s: text, limit: nat)
    requires HexPairs(ClipHex(s, limit))
    ensures UpperPairs(ClipHex(s, limit)) == s <==> |s| % 2 == 0 && |s| / 2 <= limit && IsUpperHex(s)
  {
    var u := UpperPairs(ClipHex(s, limit));
    if |s| % 2 == 0 && |s| / 2 <= limit {
      assert ClipHex(s, limit) == s;
      if IsUpperHex(s) {
        assert u == s;
      } else {
        var i :| 0 <= i < |s| && !('0' <= s[i] <= '9' || 'A' <= s[i] <= 'F');
        assert HexValue(s[i]) < 16;
        assert u[i] == UpperHex(s[i]) != s[i];
      }
    }
  }

  /** A nest of arrays that holds one item at every level. */
  ghost predicate Single(dt: DataType, v: Json) {
    dt.ArrayType? ==> v.Arr? && |v.items| == 1 && Single(dt.item, v.items[0])
  }

  lemma {:induction false} LeavesAreSingle(dt: DataType, v: Json)
    ensures forall i :: 0 <= i < |Leaves(dt, v)| ==> Single(dt, Leaves(dt, v)[i])
    decreases dt, 0
  {
    if dt.ArrayType? && v.Arr? {
      ItemLeavesAreSingle(dt.item, v.items);
    }
  }

  lemma {:induction false} ItemLeavesAreSingle(item: DataType, vs: seq<Json>)
    ensures forall i :: 0 <= i < |LeavesOfItems(item, vs)| ==> Single(item, LeavesOfItems(item, vs)[i])
    decreases item, 1, |vs|
  {
    if vs != [] {
      LeavesAreSingle(item, vs[0]);
      ItemLeavesAreSingle(item, vs[1..]);
    }
  }

  lemma {:induction false} SingleHasOneLeaf(dt: DataType, v: Json, tag: byte)
    requires Encode(dt, v, tag).Some? && Single(dt, v)
    ensures |Leaves(dt, v)| == 1
  {
    if dt.ArrayType? {
      assert v.items[1..] == [];
      SingleHasOneLeaf(dt.item, v.items[0], tag);
    }
  }

  lemma {:induction false} SinglesHaveOneLeafEach(item: DataType, vs: seq<Json>, tag: byte)
    requires EncodeItems(item, vs, tag).Some?
    requires forall i :: 0 <= i < |vs| ==> Single(item, vs[i])
    ensures |LeavesOfItems(item, vs)| == |vs|
    ensures forall i :: 0 <= i < |vs| ==> Leaves(item, vs[i]) == [LeavesOfItems(item, vs)[i]]
  {
    if vs != [] {
      SingleHasOneLeaf(item, vs[0], tag);
      SinglesHaveOneLeafEach(item, vs[1..], tag);
    }
  }

  lemma {:induction false} ItemEncodable(item: DataType, vs: seq<Json>, tag: byte, i: nat)
    requires EncodeItems(item, vs, tag).Some? && i < |vs|
    ensures Encode(item, vs[i], tag).Some?
  {
    if i > 0 {
      ItemEncodable(item, vs[1..], tag, i - 1);
    }
  }

  lemma NumberFixed(n: nat, p: nat)
    requires p > 0
    ensures n % p == n <==> n < p
  {
    if n < p {
      DivModUnique(n, p, 0, n);
    }
  }

  /** An item comes back as itself, and alone, exactly when it is canonical. */
  lemma {:induction false} ItemSurvives(dt: DataType, v: Json, tag: byte)
    requires WellFormed(dt) && Encode(dt, v, tag).Some?
    ensures Leaves(dt, v) == [v] <==> CanonicalItem(dt, v)
    decreases dt, 2
  {
    hide Normal, CanonicalMembers, LeavesOfItems, EncodeMembers, EncodeItems, TrimZeros, UpperPairs, Clip, ClipHex;
    match dt
    case NumberType(w) => NumberFixed(v.n, Pow256(w));
    case StringType(limit) => TrimZerosFixed(v.s, limit);
    case HexType(limit) => UpperPairsFixed(v.s, limit);
    case BoolType =>
    case EnumType =>
    case ArrayType(item) =>
      NestSurvives(item, v.items, tag);
    case StructType(_) =>
      MembersSurvive(dt, v.members);
  }

  lemma NestSurvives(item: DataType, vs: seq<Json>, tag: byte)
    requires WellFormed(item) && EncodeItems(item, vs, tag).Some?
    ensures Wrap(LeavesOfItems(item, vs)) == [Arr(vs)] <==> |vs| == 1 && CanonicalItem(item, vs[0])
    decreases item, 3
  {
    var leaves := LeavesOfItems(item, vs);
    if |vs| == 1 {
      ItemSurvives(item, vs[0], tag);
      assert vs == [vs[0]] && vs[1..] == [];
      assert LeavesOfItems(item, vs[1..]) == [];
      assert leaves == Leaves(item, vs[0]);
      if |leaves| == 1 {
        assert leaves == [leaves[0]] && Wrap(leaves) == [Arr(leaves)];
      }
    } else if |leaves| == 1 {
      assert Wrap(leaves)[0].items == [leaves[0]];
      assert [Arr(vs)][0].items == vs;
    }
  }

  /** A member comes back as itself exactly when it is canonical. */
  lemma {:induction false} FieldSurvives(dt: DataType, v: Json, tag: byte)
    requires WellFormed(dt) && Encode(dt, v, tag).Some?
    ensures NormalField(dt, v) == Some(v) <==> Canonical(dt, v)
    decreases dt, 3
  {
    if dt.ArrayType? {
      ItemsSurvive(dt.item, v.items, tag);
    } else {
      ItemSurvives(dt, v, tag);
      LeafRoundTrip(dt, v, tag);
      assert |Leaves(dt, v)| == 1;
    }
  }

  lemma ItemsSurvive(item: DataType, vs: seq<Json>, tag: byte)
    requires WellFormed(item) && EncodeItems(item, vs, tag).Some?
    ensures LeavesOfItems(item, vs) == vs <==> forall i :: 0 <= i < |vs| ==> CanonicalItem(item, vs[i])
    decreases item, 3
  {
    forall i | 0 <= i < |vs|
      ensures Leaves(item, vs[i]) == [vs[i]] <==> CanonicalItem(item, vs[i])
    {
      ItemEncodable(item, vs, tag, i);
      ItemSurvives(item, vs[i], tag);
    }
    if LeavesOfItems(item, vs) == vs {
      ItemLeavesAreSingle(item, vs);
      SinglesHaveOneLeafEach(item, vs, tag);
    }
    if forall i :: 0 <= i < |vs| ==> CanonicalItem(item, vs[i]) {
      LeavesOfFixedItems(item, vs);
    }
  }

  lemma {:induction false} LeavesOfFixedItems(item: DataType, vs: seq<Json>)
    requires forall i :: 0 <= i < |vs| ==> Leaves(item, vs[i]) == [vs[i]]
    ensures LeavesOfItems(item, vs) == vs
  {
    if vs != [] {
      LeavesOfFixedItems(item, vs[1..]);
      assert vs == [vs[0]] + vs[1..];
    }
  }

  lemma {:induction false} MemberEncodable(dt: DataType, names: seq<string>, m: Members, k: string)
    requires dt.StructType? && EncodeMembers(dt, names, m).Some? && k in names
    ensures EncodeMember(dt, k, m).Some?
    decreases |names|
  {
    if k != names[0] {
      MemberEncodable(dt, names[1..], m, k);
    }
  }

  lemma MemberSurvives(dt: DataType, m: Members, k: string)
    requires dt.StructType? && WellFormed(dt) && k in m
    requires EncodeMembers(dt, MemberNames(m.Keys), m).Some?
    ensures NormalMember(dt, m, k) == Some(m[k]) <==> CanonicalMember(dt, m, k)
    decreases dt, 0
  {
    var p := FindByName(dt.props, k);
    if p.Some? {
      MemberNamesCover(m.Keys);
      MemberEncodable(dt, MemberNames(m.Keys), m, k);
      FieldSurvives(p.value.dataType, m[k], p.value.index);
    }
  }

  /** An encodable object comes back as itself exactly when all its members are canonical. */
  lemma {:induction false} MembersSurvive(dt: DataType, m: Members)
    requires dt.StructType? && WellFormed(dt)
    requires EncodeMembers(dt, MemberNames(m.Keys), m).Some?
    ensures Normal(dt, m) == m <==> forall k :: k in m ==> CanonicalMember(dt, m, k)
    ensures AsValue(Normal(dt, m)) == Obj(m) <==> CanonicalMembers(dt, m)
    decreases dt, 1
  {
    forall k | k in m
      ensures NormalMember(dt, m, k) == Some(m[k]) <==> CanonicalMember(dt, m, k)
    {
      MemberSurvives(dt, m, k);
    }
    if Normal(dt, m) == m {
      forall k | k in m
        ensures CanonicalMember(dt, m, k)
      {
        assert k in Normal(dt, m);
      }
    }
    if forall k :: k in m ==> CanonicalMember(dt, m, k) {
      assert Normal(dt, m).Keys == m.Keys;
    }
  }
}
