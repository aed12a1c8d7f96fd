/**
 The schema codec in a buffer of limited room: which members are dropped, what is stored behind
 the room, and exactly which objects come back from what was written.
 */
module SchemaRoom {
  import opened Octets
  import opened Buffers
  import opened JsonValue
  import opened Tlv
  import opened Schema
  import opened DecoderAlgebra
  import opened SchemaRoundTrip
  import opened SchemaCanonical
  import opened SchemaBuffers

  // ----- Which members are dropped

  /** What is written without a byte fits any room. */
  lemma {:induction false} NothingFits(dt: DataType, v: Json, tag: byte, room: nat)
    requires Encode(dt, v, tag) == Some([])
    ensures Status(dt, v, tag, room) == 0
    decreases dt, 0
  {
    if dt.ArrayType? {
      NoItemsFit(dt.item, v.items, tag, room);
    }
  }

  lemma {:induction false} NoItemsFit(item: DataType, vs: seq<Json>, tag: byte, room: nat)
    requires EncodeItems(item, vs, tag) == Some([])
    ensures ItemsFit(item, vs, tag, room)
    decreases item, 1, |vs|
  {
    if vs != [] {
      SerializeNone();
      NothingFits(item, vs[0], tag, room);
      NoItemsFit(item, vs[1..], tag, room);
    }
  }

  lemma MemberKept(dt: DataType, name: string, m: Members, room: nat)
    requires dt.StructType? && EncodeMember(dt, name, m).Some?
    ensures MemberFits(dt, name, m, room) ==>
              && KeptMember(dt, name, m, room) == EncodeMember(dt, name, m).value
              && |Serialize(KeptMember(dt, name, m, room))| == |MemberWire(dt, name, m)| <= room
    ensures !MemberFits(dt, name, m, room) ==> KeptMember(dt, name, m, room) == [] && EncodeMember(dt, name, m).value != []
  {
    hide Encode, Status;
    SerializeNone();
    var p := FindByName(dt.props, name);
    if p.Some? {
      if MemberFits(dt, name, m, room) {
        SuccessFits(p.value.dataType, Get(m, name), p.value.index % 256, room);
      } else if EncodeMember(dt, name, m).value == [] {
        NothingFits(p.value.dataType, Get(m, name), p.value.index % 256, room);
      }
    }
  }

  /** Of an encodable object no more is kept than it has, and less if a member does not fit. */
  lemma {:induction false} KeptCount(dt: DataType, names: seq<string>, m: Members, room: nat)
    requires dt.StructType? && EncodeMembers(dt, names, m).Some?
    ensures |Kept(dt, names, m, room)| <= |EncodeMembers(dt, names, m).value|
    ensures !MembersFit(dt, names, m, room) ==> |Kept(dt, names, m, room)| < |EncodeMembers(dt, names, m).value|
    decreases |names|
  {
    hide EncodeMember, KeptMember, MemberFits, MemberWire, Serialize;
    if names != [] {
      SerializeNone();
      MemberKept(dt, names[0], m, room);
      KeptCount(dt, names[1..], m, room - |Serialize(KeptMember(dt, names[0], m, room))|);
    }
  }

  /** dataJ2B writes the whole object exactly when every member fits; it reports success either way. */
  lemma KeptExactly(dt: DataType, names: seq<string>, m: Members, room: nat)
    requires dt.StructType?
    ensures EncodeMembers(dt, names, m) == Some(Kept(dt, names, m, room)) <==> MembersFit(dt, names, m, room)
  {
    hide EncodeMembers, Kept, MembersFit;
    if MembersFit(dt, names, m, room) {
      KeptAll(dt, names, m, room);
    } else if EncodeMembers(dt, names, m).Some? {
      KeptCount(dt, names, m, room);
    }
  }

  // ----- What is stored behind the room

  /** With room for every member, nothing is. */
  lemma {:induction false} FittingStays(dt: DataType, names: seq<string>, m: Members, room: nat)
    requires dt.StructType? && MembersFit(dt, names, m, room)
    ensures StrayKept(dt, names, m, room) == None
    decreases |names|
  {
    hide MemberFits, StrayMember, KeptMember, MemberWire, EncodeMember, Serialize;
    if names != [] {
      MembersFitFits(dt, names, m, room);
      FirstEncodable(dt, names, m);
      FittingMemberStays(dt, names[0], m, room);
      MemberKept(dt, names[0], m, room);
      FittingStays(dt, names[1..], m, room - |MemberWire(dt, names[0], m)|);
    }
  }

  lemma FirstEncodable(dt: DataType, names: seq<string>, m: Members)
    requires dt.StructType? && names != [] && EncodeMembers(dt, names, m).Some?
    ensures EncodeMember(dt, names[0], m).Some?
  {
  }

  lemma TwoNames()
    ensures MemberNames({"a", "b"}) == ["a", "b"]
  {
    assert Before("a", "b");
    LeastUnique("a", Least({"a", "b"}), {"a", "b"});
    assert {"a", "b"} - {"a"} == {"b"};
    LeastUnique("b", Least({"b"}), {"b"});
    assert {"b"} - {"b"} == {};
  }

  /** A number that fills the buffer, and an empty hexadecimal member that is met behind it. */
  const NUMBER_AND_HEX := [Property(1, "a", NumberType(8)), Property(2, "b", HexType(4))]

  lemma HexBehindFullRoom()
    ensures var dt := StructType(NUMBER_AND_HEX);
            var m: Members := map["a" := Int(7), "b" := Str("")];
            && Kept(dt, MemberNames(m.Keys), m, 10) == [Tlv(1, BigEndian(7, 8))]
            && StrayKept(dt, MemberNames(m.Keys), m, 10) == Some(2)
  {
    hide BigEndian, Serialize, MemberNames;
    var dt := StructType(NUMBER_AND_HEX);
    var m: Members := map["a" := Int(7), "b" := Str("")];
    assert m.Keys == {"a", "b"};
    TwoNames();
    assert NUMBER_AND_HEX[..1] == [Property(1, "a", NumberType(8))];
    assert FindByName(NUMBER_AND_HEX, "b") == Some(Property(2, "b", HexType(4)));
    assert FindByName(NUMBER_AND_HEX, "a") == Some(Property(1, "a", NumberType(8)));
    var t := Tlv(1, BigEndian(7, 8));
    assert EncodeMember(dt, "a", m) == Some([t]);
    SerializeOne(t);
    FrameLength(t);
    assert KeptMember(dt, "a", m, 10) == [t] && KeptMember(dt, "b", m, 0) == [];
    OneKept(dt, m, t);
  }

  lemma OneKept(dt: DataType, m: Members, t: Tlv)
    requires dt.StructType? && |Serialize([t])| == 10
    requires KeptMember(dt, "a", m, 10) == [t] && KeptMember(dt, "b", m, 0) == []
    ensures Kept(dt, ["a", "b"], m, 10) == [t]
    ensures StrayKept(dt, ["a", "b"], m, 10) == Later(StrayMember(dt, "a", m, 10), StrayMember(dt, "b", m, 0))
  {
    hide KeptMember, StrayMember, Serialize;
    SerializeNone();
    assert ["a", "b"][1..] == ["b"] && ["b"][1..] == [];
    assert Kept(dt, ["b"], m, 0) == [];
  }

  // ----- Which objects come back

  lemma {:induction false} NamesKept(dt: DataType, names: seq<string>, m: Members, room: nat, i: nat)
    requires dt.StructType? && WellFormed(dt) && i < |Kept(dt, names, m, room)|
    ensures var t := Kept(dt, names, m, room)[i];
            && |t.body| < LENGTH_LIMIT
            && exists p :: p in dt.props && p.name in names && p.index == t.tag
    decreases |names|
  {
    hide KeptMember, Serialize;
    SerializeNone();
    var first := KeptMember(dt, names[0], m, room);
    if i < |first| {
      OneNameKept(dt, names[0], m, room, i);
    } else {
      KeptWithin(dt, names[0], m, room);
      NamesKept(dt, names[1..], m, room - |Serialize(first)|, i - |first|);
      assert forall k :: k in names[1..] ==> k in names;
    }
  }

  lemma KeptWithin(dt: DataType, name: string, m: Members, room: nat)
    requires dt.StructType?
    ensures |Serialize(KeptMember(dt, name, m, room))| <= room
  {
    hide Serialize, Status, Encode;
    SerializeNone();
    if EncodeMember(dt, name, m).Some? {
      MemberKept(dt, name, m, room);
    }
  }

  lemma OneNameKept(dt: DataType, name: string, m: Members, room: nat, i: nat)
    requires dt.StructType? && WellFormed(dt) && i < |KeptMember(dt, name, m, room)|
    ensures var t := KeptMember(dt, name, m, room)[i];
            && |t.body| < LENGTH_LIMIT
            && exists p :: p in dt.props && p.name == name && p.index == t.tag
  {
    hide Encode, Status;
    var p := FindByName(dt.props, name).value;
    FieldRoundTrip(p.dataType, Get(m, name), p.index);
    assert p in dt.props && p.name == name;
  }

  lemma KeptShort(dt: DataType, names: seq<string>, m: Members, room: nat)
    requires dt.StructType? && WellFormed(dt)
    ensures Short(Kept(dt, names, m, room))
  {
    forall i | 0 <= i < |Kept(dt, names, m, room)|
      ensures |Kept(dt, names, m, room)[i].body| < LENGTH_LIMIT
    {
      NamesKept(dt, names, m, room, i);
    }
  }

  /** Under a property's tag stands all that its member encodes to, or nothing. */
  lemma {:induction false} KeptBodies(dt: DataType, names: seq<string>, m: Members, room: nat, p: Property)
    requires dt.StructType? && WellFormed(dt) && p in dt.props && DistinctNames(names)
    ensures var bodies := Bodies(Kept(dt, names, m, room), p.index);
            && (p.name !in names ==> bodies == [])
            && (bodies != [] ==> EncodeMember(dt, p.name, m).Some?
                                 && bodies == Bodies(EncodeMember(dt, p.name, m).value, p.index))
    decreases |names|
  {
    hide KeptMember, Serialize, EncodeMember, WellFormed;
    if names != [] {
      var first := KeptMember(dt, names[0], m, room);
      KeptWithin(dt, names[0], m, room);
      var left := room - |Serialize(first)|;
      KeptBodies(dt, names[1..], m, left, p);
      BodiesAppend(first, Kept(dt, names[1..], m, left), p.index);
      OneKeptBodies(dt, names[0], m, room, p);
      var a, b := Bodies(first, p.index), Bodies(Kept(dt, names[1..], m, left), p.index);
      assert names[0] !in names[1..];
      assert a + [] == a && [] + b == b;
    }
  }

  lemma OneKeptBodies(dt: DataType, name: string, m: Members, room: nat, p: Property)
    requires dt.StructType? && WellFormed(dt) && p in dt.props
    ensures var bodies := Bodies(KeptMember(dt, name, m, room), p.index);
            && (name != p.name ==> bodies == [])
            && (bodies != [] ==> EncodeMember(dt, name, m).Some? && bodies == Bodies(EncodeMember(dt, name, m).value, p.index))
  {
    hide EncodeMember, MemberFits;
    if EncodeMember(dt, name, m).Some? {
      OneMemberBodies(dt, name, m, p);
    }
  }

  /** If a member does not fit, some declared member leaves nothing behind. */
  lemma {:induction false} SomeDropped(dt: DataType, names: seq<string>, m: Members, room: nat) returns (k: string)
    requires dt.StructType? && WellFormed(dt) && DistinctNames(names) && !MembersFit(dt, names, m, room)
    ensures k in names
    ensures forall p :: p in dt.props && p.name == k ==> Bodies(Kept(dt, names, m, room), p.index) == []
    decreases |names|
  {
    hide KeptMember, Serialize, EncodeMember, WellFormed, MemberFits, MemberWire;
    SerializeNone();
    var first := KeptMember(dt, names[0], m, room);
    KeptWithin(dt, names[0], m, room);
    var left := room - |Serialize(first)|;
    assert names[0] !in names[1..];
    if MemberFits(dt, names[0], m, room) {
      FittingKept(dt, names[0], m, room);
      k := SomeDropped(dt, names[1..], m, left);
      forall p | p in dt.props && p.name == k
        ensures Bodies(Kept(dt, names, m, room), p.index) == []
      {
        BodiesAppend(first, Kept(dt, names[1..], m, left), p.index);
        OneKeptBodies(dt, names[0], m, room, p);
      }
    } else {
      k := names[0];
      UnfitDropped(dt, k, m, room);
      forall p | p in dt.props && p.name == k
        ensures Bodies(Kept(dt, names, m, room), p.index) == []
      {
        BodiesAppend(first, Kept(dt, names[1..], m, left), p.index);
        KeptBodies(dt, names[1..], m, left, p);
      }
    }
  }

  lemma FittingKept(dt: DataType, name: string, m: Members, room: nat)
    requires dt.StructType? && MemberFits(dt, name, m, room)
    ensures |Serialize(KeptMember(dt, name, m, room))| == |MemberWire(dt, name, m)|
  {
    hide Encode, Status;
    KeptIs(dt, name, m, room);
    MemberKept(dt, name, m, room);
  }

  lemma UnfitDropped(dt: DataType, name: string, m: Members, room: nat)
    requires dt.StructType? && !MemberFits(dt, name, m, room)
    ensures KeptMember(dt, name, m, room) == []
  {
  }

  /** Of the bodies written for a value, only all of them together read back as the value. */
  lemma AllBodiesNeeded(dt: DataType, v: Json, tag: byte, n: nat)
    requires WellFormed(dt) && Encode(dt, v, tag).Some?
    requires n <= |Encode(dt, v, tag).value|
    requires FoldField(dt, None, Bodies(Encode(dt, v, tag).value[..n], tag)) == Some(v)
    ensures n == |Encode(dt, v, tag).value|
  {
    hide Encode, Leaves, LeavesOfItems, Decode, WellFormed;
    LeafRoundTrip(dt, v, tag);
    var ts := Encode(dt, v, tag).value;
    if dt.ArrayType? {
      ArrayShape(dt, v, tag);
      var leaves := LeavesOfItems(dt.item, v.items);
      PrefixReadsBack(dt, ts, tag, leaves, n);
      FoldArray(dt, ts[..n], tag, leaves[..n], []);
      assert [] + leaves[..n] == leaves[..n];
      assert v.items == leaves[..n];
      ItemLeavesAreSingle(dt.item, v.items);
      assert forall i :: 0 <= i < n ==> leaves[..n][i] == leaves[i];
      SinglesHaveOneLeafEach(dt.item, v.items, tag);
    } else {
      OneTlv(dt, v, tag);
      assert ts[..0] == [];
    }
  }

  lemma ArrayShape(dt: DataType, v: Json, tag: byte)
    requires dt.ArrayType? && Encode(dt, v, tag).Some?
    ensures v.Arr? && EncodeItems(dt.item, v.items, tag).Some? && Leaves(dt, v) == Wrap(LeavesOfItems(dt.item, v.items))
  {
  }

  lemma OneTlv(dt: DataType, v: Json, tag: byte)
    requires !dt.ArrayType? && Encode(dt, v, tag).Some?
    ensures |Encode(dt, v, tag).value| == 1
  {
  }

  lemma PrefixReadsBack(dt: DataType, ts: seq<Tlv>, tag: byte, items: seq<Json>, n: nat)
    requires ReadsBack(dt, ts, tag, Wrap(items)) && n <= |ts|
    ensures n <= |items| && ReadsBack(dt, ts[..n], tag, Wrap(items[..n]))
  {
    hide Decode;
    assert Wrap(items[..n]) == Wrap(items)[..n];
  }

  lemma {:induction false} UniformBodies(ts: seq<Tlv>, tag: byte, n: nat)
    requires n <= |ts| && forall i :: 0 <= i < |ts| ==> ts[i].tag == tag
    ensures |Bodies(ts, tag)| == |ts| && Bodies(ts[..n], tag) == Bodies(ts, tag)[..n]
  {
    if ts != [] {
      UniformBodies(ts[1..], tag, if n == 0 then 0 else n - 1);
      if n > 0 {
        assert ts[..n][1..] == ts[1..][..n - 1];
      }
    }
  }

  /** What stands under a key of a decoded object was folded from the bodies of its property. */
  lemma FieldFolded(dt: DataType, ts: seq<Tlv>, m: Members, k: string) returns (p: Property)
    requires dt.StructType? && DistinctProps(dt.props) && StoreAll(dt, ts, map[]) == m && k in m
    ensures p in dt.props && p.name == k
    ensures FoldField(p.dataType, None, Bodies(ts, p.index)) == Some(m[k])
  {
    hide StoreAll, FoldField, Bodies;
    if forall q :: q in dt.props ==> q.name != k {
      StoreAllForeignKey(dt, ts, map[], k);
      assert false;
    }
    p :| p in dt.props && p.name == k;
    StoreAllOneKey(dt, ts, map[], p);
  }

  /** Nothing that was kept is missing from data that reads back as the object. */
  lemma NothingMissing(dt: DataType, m: Members, room: nat, j: nat)
    requires dt.StructType? && WellFormed(dt)
    requires j <= |Kept(dt, MemberNames(m.Keys), m, room)|
    requires StoreAll(dt, Kept(dt, MemberNames(m.Keys), m, room)[..j], map[]) == m
    ensures j == |Kept(dt, MemberNames(m.Keys), m, room)|
  {
    hide StoreAll, FoldField, Bodies, Kept, EncodeMember, MemberNames, Encode;
    var names := MemberNames(m.Keys);
    var ts := Kept(dt, names, m, room);
    MemberNamesCover(m.Keys);
    MemberNamesDistinct(m.Keys);
    if j < |ts| {
      NamesKept(dt, names, m, room, j);
      var q :| q in dt.props && q.name in names && q.index == ts[j].tag;
      var p := FieldFolded(dt, ts[..j], m, q.name);
      assert p == q;
      KeptBodies(dt, names, m, room, p);
      assert ts == ts[..j] + ts[j..];
      BodiesAppend(ts[..j], ts[j..], p.index);
      BodyAtHead(ts[j..], p.index);
      PartOfMember(dt, m, p, Bodies(ts[..j], p.index), Bodies(ts[j..], p.index));
    }
  }

  lemma BodyAtHead(ts: seq<Tlv>, tag: int)
    requires ts != [] && ts[0].tag == tag
    ensures Bodies(ts, tag) != []
  {
  }

  /** The bodies of a member cannot be split and the first part read back as the member. */
  lemma PartOfMember(dt: DataType, m: Members, p: Property, a: seq<bytes>, b: seq<bytes>)
    requires dt.StructType? && WellFormed(dt) && p in dt.props && p.name in m
    requires EncodeMember(dt, p.name, m).Some? && a + b == Bodies(EncodeMember(dt, p.name, m).value, p.index)
    requires FoldField(p.dataType, None, a) == Some(m[p.name])
    ensures b == []
  {
    hide FoldField, Bodies, Encode, FindByName;
    FindByNameComplete(dt.props, p);
    FieldRoundTrip(p.dataType, m[p.name], p.index);
    var ts := Encode(p.dataType, m[p.name], p.index).value;
    UniformBodies(ts, p.index, |ts|);
    UniformBodies(ts, p.index, |a|);
    assert (a + b)[..|a|] == a;
    AllBodiesNeeded(p.dataType, m[p.name], p.index, |a|);
  }

  /** Nor was any member dropped. */
  lemma NothingDropped(dt: DataType, m: Members, room: nat)
    requires dt.StructType? && WellFormed(dt)
    requires StoreAll(dt, Kept(dt, MemberNames(m.Keys), m, room), map[]) == m
    ensures MembersFit(dt, MemberNames(m.Keys), m, room)
  {
    hide StoreAll, Bodies, Kept, MemberNames, MembersFit;
    var names := MemberNames(m.Keys);
    MemberNamesCover(m.Keys);
    MemberNamesDistinct(m.Keys);
    if !MembersFit(dt, names, m, room) {
      var k := SomeDropped(dt, names, m, room);
      var p := FieldFolded(dt, Kept(dt, names, m, room), m, k);
    }
  }

  /** What is written in full is read back as the object's normal form. */
  lemma ReadBack(props: seq<Property>, m: Members, room: nat)
    requires WellFormed(StructType(props))
    requires MembersFit(StructType(props), MemberNames(m.Keys), m, room)
    ensures var dt := StructType(props);
            DecodeInto(props, Serialize(Kept(dt, MemberNames(m.Keys), m, room)), map[]) == Normal(dt, m)
  {
    hide WellFormed, MembersFit, Kept, MemberNames, Normal, EncodeMembers, Serialize, Parse, StoreAll;
    var dt := StructType(props);
    KeptAll(dt, MemberNames(m.Keys), m, room);
    MembersRoundTrip(dt, m);
    ParseWhole(Kept(dt, MemberNames(m.Keys), m, room));
  }

  /**
   Of the bytes written for an object, the first n read back as the object exactly when they are all
   the bytes, every member fitted the room, and the object is canonical.
   */
  lemma ComesBackExactly(props: seq<Property>, m: Members, room: nat, n: nat)
    requires WellFormed(StructType(props))
    requires n <= |Serialize(Kept(StructType(props), MemberNames(m.Keys), m, room))|
    ensures var dt := StructType(props);
            var data := Serialize(Kept(dt, MemberNames(m.Keys), m, room));
            AsValue(DecodeInto(props, data[..n], map[])) == Obj(m) <==>
            n == |data| && MembersFit(dt, MemberNames(m.Keys), m, room) && CanonicalMembers(dt, m)
  {
    hide StoreAll, Kept, MemberNames, MembersFit, CanonicalMembers, CanonicalMember, Normal, EncodeMembers, Serialize, Parse, WellFormed;
    var dt := StructType(props);
    var names := MemberNames(m.Keys);
    var ts := Kept(dt, names, m, room);
    KeptShort(dt, names, m, room);
    var j := ParseCut(ts, n);
    assert ts[..|ts|] == ts;
    if StoreAll(dt, ts[..j], map[]) == m {
      NothingMissing(dt, m, room, j);
      NothingDropped(dt, m, room);
    }
    if MembersFit(dt, names, m, room) && j == |ts| {
      KeptAll(dt, names, m, room);
      MembersRoundTrip(dt, m);
      MembersSurvive(dt, m);
    }
  }
}
