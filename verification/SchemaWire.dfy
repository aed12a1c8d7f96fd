/**
 The schema codec byte by byte: what is written for a conforming value, what each body reads as,
 and what of an object is kept and comes back, all from the declaration and the JSON alone.
 */
module SchemaWire {
  import opened Octets
  import opened Buffers
  import opened JsonValue
  import opened Tlv
  import opened Schema
  import opened DecoderAlgebra
  import opened SchemaRoundTrip
  import opened SchemaCanonical
  import opened SchemaBuffers
  import opened SchemaRoom
  import opened SchemaAccept

  // ----- The bytes

  function Header(tag: byte, n: nat): (b: bytes)
    requires n < 0x4000
    ensures |b| + n == Framed(n)
  {
    if n < 128 then [tag, n] else [tag, 128 + n % 128, n / 128]
  }

  function NumberBytes(n: u64, w: Width): (b: bytes)
    ensures |b| == w
  {
    if w == 1 then [n % 256]
    else if w == 2 then [n / 256 % 256, n % 256]
    else if w == 4 then Word(n % 0x1_0000_0000)
    else Word(n / 0x1_0000_0000) + Word(n % 0x1_0000_0000)
  }

  /** Every byte of a conforming value. */
  ghost function Bytes(dt: DataType, v: Json, tag: byte): (b: bytes)
    requires Conforms(dt, v)
    ensures |b| == Size(dt, v)
    decreases dt, 2, 0
  {
    match dt
    case NumberType(w) => [tag, w] + NumberBytes(v.n, w)
    case StringType(limit) =>
      var s: text := v.s[..Min(|v.s|, limit)];
      Header(tag, |s|) + ToBytes(s)
    case HexType(limit) =>
      HexFormIs(v.s, limit);
      Header(tag, Min(|v.s| / 2, limit)) + HexBytes(v.s[..2 * Min(|v.s| / 2, limit)])
    case BoolType => [tag, 1, if v.b then 1 else 0]
    case EnumType => [tag, 1, v.n % 256]
    case ArrayType(item) => ItemsBytes(item, v.items, tag)
    case StructType(_) =>
      var b := MembersBytes(dt, MemberNames(v.members.Keys), v.members);
      Header(tag, |b|) + b
  }

  ghost function ItemsBytes(item: DataType, vs: seq<Json>, tag: byte): (b: bytes)
    requires ItemsConform(item, vs)
    ensures |b| == ItemsSize(item, vs)
    decreases item, 3, |vs|
  {
    if vs == [] then [] else
      FirstAndRest(item, vs);
      Bytes(item, vs[0], tag) + ItemsBytes(item, vs[1..], tag)
  }

  ghost function MembersBytes(dt: DataType, names: seq<string>, m: Members): (b: bytes)
    requires dt.StructType? && MembersConform(dt, names, m)
    ensures |b| == MembersSize(dt, names, m)
    decreases dt, 1, |names|
  {
    if names == [] then [] else
      FirstAndOthers(dt, names, m);
      MemberBytes(dt, names[0], m) + MembersBytes(dt, names[1..], m)
  }

  /** A member stands under the low byte of its index. */
  ghost function MemberBytes(dt: DataType, name: string, m: Members): (b: bytes)
    requires dt.StructType? && MemberConforms(dt, name, m)
    ensures |b| == MemberSize(dt, name, m)
    decreases dt, 0
  {
    var p := FindByName(dt.props, name);
    if p.None? then [] else Bytes(p.value.dataType, Get(m, name), p.value.index % 256)
  }

  lemma NumberIs(n: u64, w: Width)
    ensures BigEndian(n, w) == NumberBytes(n, w)
  {
    hide BigEndian;
    if w == 1 {
      LastByte(n, 0);
      assert BigEndian(n / 256, 0) == [];
    } else if w == 2 {
      TwoBytes(n);
    } else if w == 4 {
      LowWordIs(n);
    } else {
      DoubleWordIs(n);
    }
  }

  lemma HeaderIs(t: Tlv)
    requires |t.body| < 0x4000
    ensures Serialize([t]) == Header(t.tag, |t.body|) + t.body
  {
    hide Frame;
    SerializeOne(t);
    FrameBytes(t);
  }

  lemma HexBytesIs(v: Json, limit: Limit)
    requires v.Str? && HexForm(v.s, limit)
    ensures HexPairs(ClipHex(v.s, limit)) && HexPairs(v.s[..2 * Min(|v.s| / 2, limit)])
    ensures HexBytes(ClipHex(v.s, limit)) == HexBytes(v.s[..2 * Min(|v.s| / 2, limit)])
  {
    HexFormIs(v.s, limit);
    var c, d := ClipHex(v.s, limit), v.s[..2 * Min(|v.s| / 2, limit)];
    assert forall i :: 0 <= i < |d| ==> d[i] == c[i];
  }

  lemma LeafBytes(dt: DataType, v: Json, tag: byte)
    requires !dt.ArrayType? && !dt.StructType? && Conforms(dt, v)
    ensures Wire(dt, v, tag) == Bytes(dt, v, tag)
  {
    hide BigEndian, ToBytes, Serialize, HexPairs, HexBytes, HexForm;
    match dt
    case NumberType(w) =>
      NumberIs(v.n, w);
      HeaderIs(Tlv(tag, BigEndian(v.n, w)));
    case StringType(limit) =>
      assert Clip(v.s, limit) == v.s[..Min(|v.s|, limit)];
      HeaderIs(Tlv(tag, ToBytes(Clip(v.s, limit))));
    case HexType(limit) =>
      HexBytesIs(v, limit);
      HexFormIs(v.s, limit);
      HeaderIs(Tlv(tag, HexBytes(ClipHex(v.s, limit))));
    case BoolType => HeaderIs(Tlv(tag, [if v.b then 1 else 0]));
    case EnumType => HeaderIs(Tlv(tag, [v.n % 256]));
  }

  /** The encoder writes exactly these bytes for a conforming value. */
  lemma {:induction false} WrittenAs(dt: DataType, v: Json, tag: byte)
    requires Conforms(dt, v)
    ensures Wire(dt, v, tag) == Bytes(dt, v, tag)
    decreases dt, 2, 0
  {
    hide Serialize, EncodeItems, EncodeMembers, ItemsConform, MembersConform, ItemsSize, MembersSize, HexForm,
         BigEndian, ToBytes, HexBytes, HexPairs;
    match dt
    case ArrayType(item) => ItemsWrittenAs(item, v.items, tag);
    case StructType(_) =>
      var names := MemberNames(v.members.Keys);
      MembersWrittenAs(dt, names, v.members);
      HeaderIs(Tlv(tag, MembersBytes(dt, names, v.members)));
    case _ => LeafBytes(dt, v, tag);
  }

  lemma {:induction false} ItemsWrittenAs(item: DataType, vs: seq<Json>, tag: byte)
    requires ItemsConform(item, vs)
    ensures EncodeItems(item, vs, tag).Some? && Serialize(EncodeItems(item, vs, tag).value) == ItemsBytes(item, vs, tag)
    decreases item, 3, |vs|
  {
    hide Serialize, Encode, Conforms, Size, Bytes, ItemsConform;
    if vs == [] {
      SerializeNone();
    } else {
      FirstAndRest(item, vs);
      AcceptedExactly(item, vs[0], tag, 0);
      WrittenAs(item, vs[0], tag);
      ItemsWrittenAs(item, vs[1..], tag);
      SerializeAppend(Encode(item, vs[0], tag).value, EncodeItems(item, vs[1..], tag).value);
    }
  }

  lemma {:induction false} MemberWrittenAs(dt: DataType, name: string, m: Members)
    requires dt.StructType? && MemberConforms(dt, name, m)
    ensures EncodeMember(dt, name, m).Some?
    ensures Serialize(EncodeMember(dt, name, m).value) == MemberBytes(dt, name, m)
    decreases dt, 0
  {
    hide Serialize, Encode, Conforms, Size, Bytes;
    SerializeNone();
    var p := FindByName(dt.props, name);
    if p.Some? {
      AcceptedExactly(p.value.dataType, Get(m, name), p.value.index % 256, 0);
      WrittenAs(p.value.dataType, Get(m, name), p.value.index % 256);
    }
  }

  lemma {:induction false} MembersWrittenAs(dt: DataType, names: seq<string>, m: Members)
    requires dt.StructType? && MembersConform(dt, names, m)
    ensures EncodeMembers(dt, names, m).Some?
    ensures Serialize(EncodeMembers(dt, names, m).value) == MembersBytes(dt, names, m)
    decreases dt, 1, |names|
  {
    hide Serialize, EncodeMember, MemberConforms, MemberBytes, MemberSize, MembersConform;
    if names == [] {
      SerializeNone();
    } else {
      FirstAndOthers(dt, names, m);
      MemberWrittenAs(dt, names[0], m);
      MembersWrittenAs(dt, names[1..], m);
      SerializeAppend(EncodeMember(dt, names[0], m).value, EncodeMembers(dt, names[1..], m).value);
    }
  }

  // ----- Whole objects

  /** A member is kept when it conforms and its room is left; then all its bytes are written. */
  lemma MemberKeptExactly(dt: DataType, name: string, m: Members, room: nat)
    requires dt.StructType?
    ensures Serialize(KeptMember(dt, name, m, room)) ==
            if MemberConforms(dt, name, m) && room >= MemberNeeded(dt, name, m) then MemberBytes(dt, name, m) else []
  {
    hide Serialize, EncodeMember, MemberFits, MemberConforms, MemberBytes, MemberSize, MemberNeeded;
    SerializeNone();
    MemberAccepted(dt, name, m, room);
    if MemberConforms(dt, name, m) {
      MemberWrittenAs(dt, name, m);
    }
  }

  /** What dataJ2B writes, member by member: each one whose turn finds it conforming and its room left. */
  ghost function KeptBytes(dt: DataType, names: seq<string>, m: Members, room: nat): (b: bytes)
    requires dt.StructType?
    ensures |b| <= room
    decreases |names|
  {
    if names == [] then [] else
      var fits := MemberConforms(dt, names[0], m) && room >= MemberNeeded(dt, names[0], m);
      SizeWithinNeeded(dt, names[0], m);
      if fits then MemberBytes(dt, names[0], m) + KeptBytes(dt, names[1..], m, room - MemberSize(dt, names[0], m))
      else KeptBytes(dt, names[1..], m, room)
  }

  lemma SizeWithinNeeded(dt: DataType, name: string, m: Members)
    requires dt.StructType?
    ensures MemberConforms(dt, name, m) ==> MemberSize(dt, name, m) <= MemberNeeded(dt, name, m)
  {
    hide MemberConforms, MemberSize, MemberNeeded, MemberFits, MemberWire, EncodeMember, Serialize;
    MemberAccepted(dt, name, m, MemberNeeded(dt, name, m));
  }

  lemma {:induction false} KeptAs(dt: DataType, names: seq<string>, m: Members, room: nat)
    requires dt.StructType?
    ensures Serialize(Kept(dt, names, m, room)) == KeptBytes(dt, names, m, room)
    decreases |names|
  {
    hide Serialize, KeptMember, MemberConforms, MemberBytes, MemberSize, MemberNeeded;
    if names == [] {
      SerializeNone();
    } else {
      var first := KeptMember(dt, names[0], m, room);
      MemberKeptExactly(dt, names[0], m, room);
      SizeWithinNeeded(dt, names[0], m);
      KeptAs(dt, names[1..], m, room - |Serialize(first)|);
      SerializeAppend(first, Kept(dt, names[1..], m, room - |Serialize(first)|));
    }
  }

  /** An object is written in full exactly when its declared members conform and the room they need is there. */
  lemma ObjectWrittenExactly(dt: DataType, m: Members, room: nat)
    requires dt.StructType?
    ensures var names := MemberNames(m.Keys);
            EncodeMembers(dt, names, m) == Some(Kept(dt, names, m, room)) <==>
            MembersConform(dt, names, m) && room >= MembersNeeded(dt, names, m)
  {
    hide EncodeMembers, Kept, MembersFit, MembersConform, MembersNeeded, MemberNames;
    KeptExactly(dt, MemberNames(m.Keys), m, room);
    MembersAccepted(dt, MemberNames(m.Keys), m, room);
  }

  /** ... and comes back exactly when, besides, nothing is cut off and it is canonical. */
  lemma ObjectComesBackExactly(props: seq<Property>, m: Members, room: nat, n: nat)
    requires WellFormed(StructType(props))
    requires n <= |KeptBytes(StructType(props), MemberNames(m.Keys), m, room)|
    ensures var dt := StructType(props);
            var names := MemberNames(m.Keys);
            var data := KeptBytes(dt, names, m, room);
            AsValue(DecodeInto(props, data[..n], map[])) == Obj(m) <==>
            && n == |data| && MembersConform(dt, names, m) && room >= MembersNeeded(dt, names, m)
            && CanonicalMembers(dt, m)
  {
    hide *;
    var dt := StructType(props);
    KeptAs(dt, MemberNames(m.Keys), m, room);
    MembersAccepted(dt, MemberNames(m.Keys), m, room);
    ComesBackExactly(props, m, room, n);
  }

  // ----- Bodies read back

  /** Numbers are read in their declared width only, most significant byte first. */
  lemma NumberDecoded(w: Width, body: bytes)
    ensures Decode(NumberType(w), body) == if |body| == w then Some(Int(Number(body))) else None
  {
    hide FromBigEndian, Number;
    if |body| == w {
      NumberRead(body);
    }
  }

  /** One, two, four or eight digits to the base 256. */
  function Number(b: seq<nat>): nat
    requires |b| == 1 || |b| == 2 || |b| == 4 || |b| == 8
  {
    if |b| == 1 then b[0]
    else if |b| == 2 then 256 * b[0] + b[1]
    else if |b| == 4 then 16777216 * b[0] + 65536 * b[1] + 256 * b[2] + b[3]
    else Number(b[..4]) * 0x1_0000_0000 + Number(b[4..])
  }

  lemma NumberRead(b: bytes)
    requires |b| == 1 || |b| == 2 || |b| == 4 || |b| == 8
    ensures FromBigEndian(b) == Number(b)
  {
    hide FromBigEndian;
    if |b| == 8 {
      WordRead(b[..4]);
      WordRead(b[4..]);
      assert b == b[..4] + b[4..];
      EightBytesRead(b[..4], b[4..]);
    } else if |b| == 4 {
      WordRead(b);
    } else if |b| == 2 {
      assert b == [b[0], b[1]];
      TwoBytesRead(b[0], b[1]);
    } else {
      ByteRead(b);
    }
  }

  lemma WordRead(b: bytes)
    requires |b| == 4
    ensures FromBigEndian(b) == Number(b)
  {
    hide FromBigEndian;
    assert b == [b[0], b[1], b[2], b[3]];
    FourBytesRead(b[0], b[1], b[2], b[3]);
  }

  lemma ByteRead(b: bytes)
    requires |b| == 1
    ensures FromBigEndian(b) == b[0]
  {
    assert b[..0] == [];
  }

  /** The zero bytes at the end of a string body are not read, and no others. */
  lemma {:induction false} StringDecoded(limit: Limit, body: bytes, zeros: nat)
    requires body != [] ==> body[|body| - 1] != 0
    ensures Decode(StringType(limit), Padded(body, zeros)) == Some(Str(FromBytes(body)))
    decreases zeros
  {
    var b := Padded(body, zeros);
    if zeros > 0 {
      assert b[..|b| - 1] == Padded(body, zeros - 1);
      StringDecoded(limit, body, zeros - 1);
    } else {
      assert b == body;
    }
  }

  function Padded(body: bytes, zeros: nat): (b: bytes)
    ensures |b| == |body| + zeros
  {
    body + seq(zeros, _ => 0)
  }

  /** Hexadecimal values, truth values and enumeration values. */
  lemma OthersDecoded(limit: Limit, body: bytes)
    ensures Decode(HexType(limit), body) == Some(Str(HexOf(body)))
    ensures |body| != 1 ==> Decode(BoolType, body) == None && Decode(EnumType, body) == None
    ensures |body| == 1 ==> Decode(BoolType, body) == Some(Bool(body[0] == 1)) && Decode(EnumType, body) == Some(Int(body[0]))
  {
  }

  /** A further body of a list goes behind the items read so far; a body that cannot be read changes nothing. */
  lemma ListStored(item: DataType, was: Option<Json>, body: bytes)
    ensures var x := Decode(item, body);
            StoreField(ArrayType(item), was, body) ==
            if x.None? then was
            else if was.Some? && was.value.Arr? then Some(Arr(was.value.items + [x.value]))
            else Some(Arr([x.value]))
  {
    hide Decode;
    ItemDecoded(item, body);
  }

  lemma ItemDecoded(item: DataType, body: bytes)
    ensures Decode(ArrayType(item), body) == var x := Decode(item, body); if x.None? then None else Some(Arr([x.value]))
  {
  }

  /** Any other value replaces the one before it. */
  lemma ValueStored(dt: DataType, was: Option<Json>, body: bytes)
    requires !dt.ArrayType?
    ensures StoreField(dt, was, body) == if Decode(dt, body).None? then was else Decode(dt, body)
  {
    hide Decode;
  }
}
