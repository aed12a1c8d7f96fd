/**
 The schema-driven codec: the data types of a product model, the TLVs each type writes for a
 JSON value, and what each type reads back.  Here both directions are pure functions on TLV
 streams; SchemaBuffers holds the loops over byte buffers that compute them.
 */
module Schema {
  import opened Octets
  import opened JsonValue
  import opened Tlv

  type Width = w: nat | w == 1 || w == 2 || w == 4 || w == 8 witness 1

  /** A declared string or byte-string length, in bytes. */
  type Limit = n: nat | n < LENGTH_LIMIT

  datatype DataType =
    | NumberType(width: Width)
    | StringType(limit: Limit)
    | HexType(limit: Limit)
    | BoolType
    | EnumType
    | ArrayType(item: DataType)
    | StructType(props: seq<Property>)

  datatype Property = Property(index: int, name: text, dataType: DataType)

  /** Lookup by identifier; of two properties with one identifier the later one is kept. */
  function FindByName(props: seq<Property>, name: string): (r: Option<Property>)
    ensures r.Some? ==> r.value in props && r.value.name == name
  {
    if props == [] then None
    else if props[|props| - 1].name == name then Some(props[|props| - 1])
    else FindByName(props[..|props| - 1], name)
  }

  function FindByIndex(props: seq<Property>, index: int): (r: Option<Property>)
    ensures r.Some? ==> r.value in props && r.value.index == index
  {
    if props == [] then None
    else if props[|props| - 1].index == index then Some(props[|props| - 1])
    else FindByIndex(props[..|props| - 1], index)
  }

  /** In every struct: indices distinct and of one byte, identifiers distinct. */
  ghost predicate WellFormed(dt: DataType) {
    match dt
    case ArrayType(item) => WellFormed(item)
    case StructType(props) =>
      && DistinctProps(props)
      && forall p :: p in props ==> WellFormed(p.dataType)
    case _ => true
  }

  ghost predicate DistinctProps(props: seq<Property>) {
    && (forall p :: p in props ==> 0 <= p.index < 256)
    && (forall p, q :: p in props && q in props && (p.index == q.index || p.name == q.name) ==> p == q)
  }

  lemma {:induction false} FindByNameComplete(props: seq<Property>, p: Property)
    requires p in props
    requires forall q :: q in props && q.name == p.name ==> q == p
    ensures FindByName(props, p.name) == Some(p)
  {
    var last := props[|props| - 1];
    if last.name != p.name {
      FindByNameComplete(props[..|props| - 1], p);
    }
  }

  lemma {:induction false} FindByIndexComplete(props: seq<Property>, p: Property)
    requires p in props
    requires forall q :: q in props && q.index == p.index ==> q == p
    ensures FindByIndex(props, p.index) == Some(p)
  {
    var last := props[|props| - 1];
    if last.index != p.index {
      FindByIndexComplete(props[..|props| - 1], p);
    }
  }

  /** Of several properties of one name the last one counts, and there is none exactly if no property has it. */
  lemma {:induction false} LookupByName(props: seq<Property>, name: string)
    ensures FindByName(props, name).None? <==> forall i :: 0 <= i < |props| ==> props[i].name != name
    ensures forall i :: 0 <= i < |props| && props[i].name == name && (forall j :: i < j < |props| ==> props[j].name != name)
              ==> FindByName(props, name) == Some(props[i])
  {
    if props != [] {
      var rest := props[..|props| - 1];
      LookupByName(rest, name);
      assert forall i :: 0 <= i < |rest| ==> rest[i] == props[i];
    }
  }

  lemma {:induction false} LookupByIndex(props: seq<Property>, index: int)
    ensures FindByIndex(props, index).None? <==> forall i :: 0 <= i < |props| ==> props[i].index != index
    ensures forall i :: 0 <= i < |props| && props[i].index == index && (forall j :: i < j < |props| ==> props[j].index != index)
              ==> FindByIndex(props, index) == Some(props[i])
  {
    if props != [] {
      var rest := props[..|props| - 1];
      LookupByIndex(rest, index);
      assert forall i :: 0 <= i < |rest| ==> rest[i] == props[i];
    }
  }

  // ----- Writing

  function Clip(s: text, limit: nat): (t: text) {
    if |s| > limit then s[..limit] else s
  }

  /** The characters of a hexadecimal value that are written. */
  function ClipHex(s: text, limit: nat): (t: text) {
    if |s| / 2 > limit then s[..2 * limit] else s
  }

  /** The TLVs written for v under `tag`; None when v does not fit the type. */
  ghost function Encode(dt: DataType, v: Json, tag: byte): Option<seq<Tlv>>
    decreases dt, 2, 0
  {
    match dt
    case NumberType(w) =>
      if v.IsUInt64() then Some([Tlv(tag, BigEndian(v.n, w))]) else None
    case StringType(limit) =>
      if v.Str? then Some([Tlv(tag, ToBytes(Clip(v.s, limit)))]) else None
    case HexType(limit) =>
      if v.Str? && HexPairs(ClipHex(v.s, limit))
      then Some([Tlv(tag, HexBytes(ClipHex(v.s, limit)))]) else None
    case BoolType =>
      if v.Bool? then Some([Tlv(tag, [if v.b then 1 else 0])]) else None
    case EnumType =>
      if v.IsUInt() then Some([Tlv(tag, [v.n % 256])]) else None
    case ArrayType(item) =>
      if v.Arr? then EncodeItems(item, v.items, tag) else None
    case StructType(_) =>
      if !v.Obj? then None else
        var ts := EncodeMembers(dt, MemberNames(v.members.Keys), v.members);
        if ts.Some? && |Serialize(ts.value)| < LENGTH_LIMIT
        then Some([Tlv(tag, Serialize(ts.value))]) else None
  }

  /** Every item under the array's own tag. */
  ghost function EncodeItems(item: DataType, vs: seq<Json>, tag: byte): Option<seq<Tlv>>
    decreases item, 3, |vs|
  {
    if vs == [] then Some([]) else
      Concat(Encode(item, vs[0], tag), EncodeItems(item, vs[1..], tag))
  }

  function Concat(a: Option<seq<Tlv>>, b: Option<seq<Tlv>>): Option<seq<Tlv>> {
    if a.Some? && b.Some? then Some(a.value + b.value) else None
  }

  /** The named members in order; a name the struct does not declare is skipped. */
  ghost function EncodeMembers(dt: DataType, names: seq<string>, m: Members): Option<seq<Tlv>>
    requires dt.StructType?
    decreases dt, 1, |names|
  {
    if names == [] then Some([]) else
      Concat(EncodeMember(dt, names[0], m), EncodeMembers(dt, names[1..], m))
  }

  ghost function EncodeMember(dt: DataType, name: string, m: Members): Option<seq<Tlv>>
    requires dt.StructType?
    decreases dt, 0
  {
    var p := FindByName(dt.props, name);
    if p.None? then Some([]) else Encode(p.value.dataType, Get(m, name), p.value.index % 256)
  }

  // ----- Reading

  function TrimRight(b: bytes): (t: bytes)
    ensures |t| <= |b|
  {
    if b != [] && b[|b| - 1] == 0 then TrimRight(b[..|b| - 1]) else b
  }

  /** jsonRoot[key] of a fresh object after one body is read; None when the body is rejected. */
  function Decode(dt: DataType, body: bytes): Option<Json>
    decreases dt, 1
  {
    match dt
    case NumberType(w) => if |body| == w then Some(Int(FromBigEndian(body))) else None
    case StringType(_) => Some(Str(FromBytes(TrimRight(body))))
    case HexType(_) => Some(Str(HexOf(body)))
    case BoolType => if |body| == 1 then Some(Bool(body[0] == 1)) else None
    case EnumType => if |body| == 1 then Some(Int(body[0])) else None
    case ArrayType(item) =>
      var x := Decode(item, body);
      if x.Some? then Some(Arr([x.value])) else None
    case StructType(_) => Some(AsValue(StoreAll(dt, Parse(body), map[])))
  }

  /** A default-constructed Json::Value stays null until a member is assigned. */
  function AsValue(m: Members): Json {
    if m == map[] then Null else Obj(m)
  }

  /** One TLV applied to the object read so far; an unknown tag changes nothing. */
  function Store(dt: DataType, t: Tlv, m: Members): Members
    requires dt.StructType?
    decreases dt, 0, 0
  {
    var p := FindByIndex(dt.props, t.tag);
    if p.None? then m else
      var x := StoreField(p.value.dataType, Lookup(m, p.value.name), t.body);
      if x.None? then m else m[p.value.name := x.value]
  }

  function StoreAll(dt: DataType, ts: seq<Tlv>, m: Members): Members
    requires dt.StructType?
    decreases dt, 0, |ts|
  {
    if ts == [] then m else StoreAll(dt, ts[1..], Store(dt, ts[0], m))
  }

  function Lookup(m: Members, key: string): Option<Json> {
    if key in m then Some(m[key]) else None
  }

  /** A further body under one key: arrays grow by it, any other type is replaced. */
  function StoreField(dt: DataType, was: Option<Json>, body: bytes): Option<Json>
    decreases dt, 2
  {
    var x := Decode(dt, body);
    if x.None? then was
    else if dt.ArrayType? && was.Some? && was.value.Arr? then Some(Arr(was.value.items + x.value.items))
    else x
  }
}
