/**
 Which JSON values the schema codec accepts, read off the declaration and the value alone: the
 form a value must have, the bytes it takes, and the room it needs while it is written.
 */
module SchemaAccept {
  import opened Octets
  import opened JsonValue
  import opened Tlv
  import opened Schema
  import opened SchemaBuffers

  // ----- Form

  function Min(a: nat, b: nat): nat { if a < b then a else b }

  predicate IsHexDigit(c: char) { '0' <= c <= '9' || 'a' <= c <= 'f' || 'A' <= c <= 'F' }

  /** The characters that are written are hexadecimal digits; an odd last one does not count. */
  predicate HexForm(s: string, limit: nat) {
    forall i :: 0 <= i < 2 * Min(|s| / 2, limit) ==> IsHexDigit(s[i])
  }

  /**
   A number of 64 bits, a string, hexadecimal digits, a truth value, an enumeration value of 32
   bits, a list of such values, or an object whose declared members are such values and together
   take less than 2^14 bytes.
   */
  ghost predicate Conforms(dt: DataType, v: Json)
    decreases dt, 2, 0
  {
    match dt
    case NumberType(_) => v.Int? && 0 <= v.n < 0x1_0000_0000_0000_0000
    case StringType(_) => v.Str?
    case HexType(limit) => v.Str? && HexForm(v.s, limit)
    case BoolType => v.Bool?
    case EnumType => v.Int? && 0 <= v.n < 0x1_0000_0000
    case ArrayType(item) => v.Arr? && ItemsConform(item, v.items)
    case StructType(_) =>
      && v.Obj?
      && MembersConform(dt, MemberNames(v.members.Keys), v.members)
      && MembersSize(dt, MemberNames(v.members.Keys), v.members) < 0x4000
  }

  ghost predicate ItemsConform(item: DataType, vs: seq<Json>)
    decreases item, 3, |vs|
  {
    forall i :: 0 <= i < |vs| ==> Conforms(item, vs[i])
  }

  ghost predicate MembersConform(dt: DataType, names: seq<string>, m: Members)
    requires dt.StructType?
    decreases dt, 1, |names|
  {
    forall i :: 0 <= i < |names| ==> MemberConforms(dt, names[i], m)
  }

  /** A member that is not declared may be anything. */
  ghost predicate MemberConforms(dt: DataType, name: string, m: Members)
    requires dt.StructType?
    decreases dt, 0
  {
    var p := FindByName(dt.props, name);
    p.None? || Conforms(p.value.dataType, Get(m, name))
  }

  // ----- Size

  /** Tag, length and a body of n bytes. */
  function Framed(n: nat): nat { if n < 128 then 2 + n else 3 + n }

  /** The bytes a conforming value takes. */
  ghost function Size(dt: DataType, v: Json): nat
    decreases dt, 2, 0
  {
    match dt
    case NumberType(w) => 2 + w
    case StringType(limit) => if v.Str? then Framed(Min(|v.s|, limit)) else 0
    case HexType(limit) => if v.Str? then Framed(Min(|v.s| / 2, limit)) else 0
    case BoolType => 3
    case EnumType => 3
    case ArrayType(item) => if v.Arr? then ItemsSize(item, v.items) else 0
    case StructType(_) => if v.Obj? then Framed(MembersSize(dt, MemberNames(v.members.Keys), v.members)) else 0
  }

  ghost function ItemsSize(item: DataType, vs: seq<Json>): nat
    decreases item, 3, |vs|
  {
    if vs == [] then 0 else Size(item, vs[0]) + ItemsSize(item, vs[1..])
  }

  ghost function MembersSize(dt: DataType, names: seq<string>, m: Members): nat
    requires dt.StructType?
    decreases dt, 1, |names|
  {
    if names == [] then 0 else MemberSize(dt, names[0], m) + MembersSize(dt, names[1..], m)
  }

  ghost function MemberSize(dt: DataType, name: string, m: Members): nat
    requires dt.StructType?
    decreases dt, 0
  {
    var p := FindByName(dt.props, name);
    if p.None? then 0 else Size(p.value.dataType, Get(m, name))
  }

  // ----- Room

  function Max(a: nat, b: nat): nat { if a < b then b else a }

  /**
   The room a value needs.  It can be more than its size: strings ask for three bytes of header,
   hexadecimal values for twice their bytes, an object for three bytes in any case.
   */
  ghost function Needed(dt: DataType, v: Json): nat
    decreases dt, 2, 0
  {
    match dt
    case NumberType(w) => 2 + w
    case StringType(limit) => if v.Str? then 3 + Min(|v.s|, limit) else 0
    case HexType(limit) => if v.Str? then HexNeeded(v.s, limit) else 0
    case BoolType => 3
    case EnumType => 3
    case ArrayType(item) => if v.Arr? then ItemsNeeded(item, v.items) else 0
    case StructType(_) =>
      if !v.Obj? then 0 else
        var names := MemberNames(v.members.Keys);
        var size := MembersSize(dt, names, v.members);
        Max(Max(3, 2 + MembersNeeded(dt, names, v.members)), if size < 128 then 0 else 3 + size)
  }

  function HexNeeded(s: string, limit: nat): nat {
    var characters := if |s| / 2 > limit then 2 * limit else |s|;
    characters + (if characters / 2 < 128 then 2 else 3)
  }

  /** Each value behind the ones before it. */
  ghost function ItemsNeeded(item: DataType, vs: seq<Json>): nat
    decreases item, 3, |vs|
  {
    if vs == [] then 0 else Max(Needed(item, vs[0]), Size(item, vs[0]) + ItemsNeeded(item, vs[1..]))
  }

  ghost function MembersNeeded(dt: DataType, names: seq<string>, m: Members): nat
    requires dt.StructType?
    decreases dt, 1, |names|
  {
    if names == [] then 0 else
      Max(MemberNeeded(dt, names[0], m), MemberSize(dt, names[0], m) + MembersNeeded(dt, names[1..], m))
  }

  ghost function MemberNeeded(dt: DataType, name: string, m: Members): nat
    requires dt.StructType?
    decreases dt, 0
  {
    var p := FindByName(dt.props, name);
    if p.None? then 0 else Needed(p.value.dataType, Get(m, name))
  }

  // ----- The law

  lemma HexFormIs(s: text, limit: nat)
    ensures HexPairs(ClipHex(s, limit)) <==> HexForm(s, limit)
    ensures |ClipHex(s, limit)| / 2 == Min(|s| / 2, limit)
  {
    var c := ClipHex(s, limit);
    assert |c| / 2 * 2 == 2 * Min(|s| / 2, limit);
    forall ch: char ensures HexValue(ch) < 16 <==> IsHexDigit(ch) {
    }
    assert forall i :: 0 <= i < 2 * Min(|s| / 2, limit) ==> c[i] == s[i];
    if HexPairs(c) {
      forall i | 0 <= i < 2 * Min(|s| / 2, limit) ensures IsHexDigit(s[i]) {
        assert HexValue(c[i]) < 16;
      }
    }
  }

  lemma OneFramed(t: Tlv)
    requires |t.body| < LENGTH_LIMIT
    ensures |Serialize([t])| == Framed(|t.body|)
  {
    hide Serialize, Frame;
    SerializeOne(t);
    ShortFrameLength(t);
  }

  lemma HexAccepted(limit: Limit, v: Json, tag: byte, room: nat)
    ensures var dt := HexType(limit);
            && (Status(dt, v, tag, room) == 0 <==> Conforms(dt, v) && room >= Needed(dt, v))
            && (Conforms(dt, v) ==> Encode(dt, v, tag).Some? && |Wire(dt, v, tag)| == Size(dt, v))
  {
    hide HexPairs, HexForm, HexBytes, Serialize;
    if v.Str? {
      var s := ClipHex(v.s, limit);
      HexFormIs(v.s, limit);
      LengthBytesSmall(|s| / 2);
      if HexForm(v.s, limit) {
        OneFramed(Tlv(tag, HexBytes(s)));
      }
    }
  }

  lemma LeafAccepted(dt: DataType, v: Json, tag: byte, room: nat)
    requires !dt.ArrayType? && !dt.StructType?
    ensures Status(dt, v, tag, room) == 0 <==> Conforms(dt, v) && room >= Needed(dt, v)
    ensures Conforms(dt, v) ==> Encode(dt, v, tag).Some? && |Wire(dt, v, tag)| == Size(dt, v)
  {
    hide BigEndian, ToBytes, Serialize, HexPairs;
    if dt.HexType? {
      HexAccepted(dt.limit, v, tag, room);
    } else if Conforms(dt, v) {
      OneFramed(Encode(dt, v, tag).value[0]);
    }
  }

  /**
   A value is written exactly when it has the declared form and its room is there; the bytes
   written are as many as its size says.
   */
  lemma {:induction false} AcceptedExactly(dt: DataType, v: Json, tag: byte, room: nat)
    ensures Status(dt, v, tag, room) == 0 <==> Conforms(dt, v) && room >= Needed(dt, v)
    ensures Conforms(dt, v) ==> Encode(dt, v, tag).Some? && |Wire(dt, v, tag)| == Size(dt, v)
    decreases dt, 2, 0
  {
    hide Serialize, EncodeItems, EncodeMembers, ItemsFit, MembersFit, ItemsConform, MembersConform, ItemsSize, MembersSize,
         ItemsNeeded, MembersNeeded, HexPairs, HexForm, BigEndian, ToBytes;
    match dt
    case ArrayType(item) =>
      if v.Arr? {
        ItemsAccepted(item, v.items, tag, room);
      }
    case StructType(_) =>
      if v.Obj? {
        StructAccepted(dt, v.members, tag, room);
      }
    case _ => LeafAccepted(dt, v, tag, room);
  }

  lemma {:induction false} ItemsAccepted(item: DataType, vs: seq<Json>, tag: byte, room: nat)
    ensures ItemsFit(item, vs, tag, room) <==> ItemsConform(item, vs) && room >= ItemsNeeded(item, vs)
    ensures ItemsConform(item, vs) ==>
              EncodeItems(item, vs, tag).Some? && |Serialize(EncodeItems(item, vs, tag).value)| == ItemsSize(item, vs)
    decreases item, 3, |vs|
  {
    hide Serialize, Encode, Status, Conforms, Size, Needed;
    if vs == [] {
      SerializeNone();
    } else {
      var rest := vs[1..];
      assert forall i :: 0 <= i < |rest| ==> rest[i] == vs[i + 1];
      assert ItemsConform(item, vs) <==> Conforms(item, vs[0]) && ItemsConform(item, rest) by {
        FirstAndRest(item, vs);
      }
      AcceptedExactly(item, vs[0], tag, room);
      ItemsAccepted(item, rest, tag, if room >= Size(item, vs[0]) then room - Size(item, vs[0]) else 0);
      if Status(item, vs[0], tag, room) == 0 {
        SuccessFits(item, vs[0], tag, room);
      }
      if ItemsConform(item, vs) {
        SerializeAppend(Encode(item, vs[0], tag).value, EncodeItems(item, rest, tag).value);
      }
    }
  }

  lemma FirstAndRest(item: DataType, vs: seq<Json>)
    requires vs != []
    ensures ItemsConform(item, vs) <==> Conforms(item, vs[0]) && ItemsConform(item, vs[1..])
  {
    hide Conforms;
    assert forall i :: 0 <= i < |vs[1..]| ==> vs[1..][i] == vs[i + 1];
    if Conforms(item, vs[0]) && ItemsConform(item, vs[1..]) {
      forall i | 0 <= i < |vs| ensures Conforms(item, vs[i]) {
        if i > 0 {
          assert Conforms(item, vs[1..][i - 1]);
        }
      }
    }
  }

  lemma FirstAndOthers(dt: DataType, names: seq<string>, m: Members)
    requires dt.StructType? && names != []
    ensures MembersConform(dt, names, m) <==> MemberConforms(dt, names[0], m) && MembersConform(dt, names[1..], m)
  {
    hide MemberConforms;
    assert forall i :: 0 <= i < |names[1..]| ==> names[1..][i] == names[i + 1];
    if MemberConforms(dt, names[0], m) && MembersConform(dt, names[1..], m) {
      forall i | 0 <= i < |names| ensures MemberConforms(dt, names[i], m) {
        if i > 0 {
          assert MemberConforms(dt, names[1..][i - 1], m);
        }
      }
    }
  }

  lemma {:induction false} MemberAccepted(dt: DataType, name: string, m: Members, room: nat)
    requires dt.StructType?
    ensures MemberFits(dt, name, m, room) <==> MemberConforms(dt, name, m) && room >= MemberNeeded(dt, name, m)
    ensures MemberConforms(dt, name, m) ==>
              && EncodeMember(dt, name, m).Some?
              && MemberWire(dt, name, m) == Serialize(EncodeMember(dt, name, m).value)
              && |MemberWire(dt, name, m)| == MemberSize(dt, name, m)
    ensures MemberFits(dt, name, m, room) ==> MemberSize(dt, name, m) <= room
    decreases dt, 0
  {
    hide Encode, Status, Conforms, Size, Needed, Serialize;
    SerializeNone();
    var p := FindByName(dt.props, name);
    if p.Some? {
      AcceptedExactly(p.value.dataType, Get(m, name), p.value.index % 256, room);
      if MemberFits(dt, name, m, room) {
        SuccessFits(p.value.dataType, Get(m, name), p.value.index % 256, room);
      }
    }
  }

  lemma {:induction false} MembersAccepted(dt: DataType, names: seq<string>, m: Members, room: nat)
    requires dt.StructType?
    ensures MembersFit(dt, names, m, room) <==> MembersConform(dt, names, m) && room >= MembersNeeded(dt, names, m)
    ensures MembersConform(dt, names, m) ==>
              EncodeMembers(dt, names, m).Some? && |Serialize(EncodeMembers(dt, names, m).value)| == MembersSize(dt, names, m)
    decreases dt, 1, |names|
  {
    hide Serialize, EncodeMember, MemberFits, MemberWire, MemberConforms, MemberSize, MemberNeeded, MembersConform;
    if names == [] {
      SerializeNone();
      NothingConforms(dt, m);
    } else {
      FirstAndOthers(dt, names, m);
      MemberAccepted(dt, names[0], m, room);
      var size := MemberSize(dt, names[0], m);
      MembersAccepted(dt, names[1..], m, if room >= size then room - size else 0);
      if MembersConform(dt, names, m) {
        SerializeAppend(EncodeMember(dt, names[0], m).value, EncodeMembers(dt, names[1..], m).value);
      }
    }
  }

  lemma NothingConforms(dt: DataType, m: Members)
    requires dt.StructType?
    ensures MembersConform(dt, [], m)
  {
  }

  lemma {:induction false} StructAccepted(dt: DataType, m: Members, tag: byte, room: nat)
    requires dt.StructType?
    ensures Status(dt, Obj(m), tag, room) == 0 <==> Conforms(dt, Obj(m)) && room >= Needed(dt, Obj(m))
    ensures Conforms(dt, Obj(m)) ==> Encode(dt, Obj(m), tag).Some? && |Wire(dt, Obj(m), tag)| == Size(dt, Obj(m))
    decreases dt, 1, |MemberNames(m.Keys)| + 1
  {
    hide Serialize, EncodeMembers, MembersFit, MembersConform, MembersSize, MembersNeeded, MemberNames;
    var names := MemberNames(m.Keys);
    MembersAccepted(dt, names, m, if room >= 2 then room - 2 else 0);
    if Conforms(dt, Obj(m)) {
      OneFramed(Tlv(tag, Serialize(EncodeMembers(dt, names, m).value)));
    }
  }

  // ----- The codes

  /** Why a leaf is refused: -1 for another kind of value, -2 for too little room. */
  lemma LeafCodes(dt: DataType, v: Json, tag: byte, room: nat)
    requires !dt.ArrayType? && !dt.StructType? && !dt.HexType?
    ensures Status(dt, v, tag, room) == if !Conforms(dt, v) then -1 else if room < Needed(dt, v) then -2 else 0
  {
  }

  /** Hexadecimal values: -1 for no string, -2 and -3 for too little room, -4 for other characters. */
  lemma HexCodes(limit: Limit, v: Json, tag: byte, room: nat)
    ensures var dt := HexType(limit);
            Status(dt, v, tag, room) ==
            if !v.Str? then -1
            else if room < (if Min(|v.s| / 2, limit) < 128 then 2 else 3) then -2
            else if room < Needed(dt, v) then -3
            else if !Conforms(dt, v) then -4 else 0
  {
    hide HexPairs, HexForm;
    if v.Str? {
      HexFormIs(v.s, limit);
      LengthBytesSmall(|ClipHex(v.s, limit)| / 2);
    }
  }

  /** Lists: -1 for no list, -2 when an item cannot be written. */
  lemma ArrayCodes(item: DataType, v: Json, tag: byte, room: nat)
    ensures var dt := ArrayType(item);
            Status(dt, v, tag, room) == if !v.Arr? then -1 else if Conforms(dt, v) && room >= Needed(dt, v) then 0 else -2
  {
    hide ItemsFit, ItemsConform, ItemsNeeded;
    if v.Arr? {
      ItemsAccepted(item, v.items, tag, room);
    }
  }

  /**
   Objects: -1 for no object, -2 for less room than the shortest one takes, -3 when a member cannot be
   written, -4 when the second byte of the length has no room, -5 when the length needs a third.
   */
  lemma StructCodes(dt: DataType, v: Json, tag: byte, room: nat)
    requires dt.StructType?
    ensures Status(dt, v, tag, room) ==
            if !v.Obj? then -1
            else if room < 3 then -2
            else
              var names := MemberNames(v.members.Keys);
              var size := MembersSize(dt, names, v.members);
              if !MembersConform(dt, names, v.members) || room < 2 + MembersNeeded(dt, names, v.members) then -3
              else if size < 128 then 0
              else if room < 3 + size then -4
              else if size >= 0x4000 then -5 else 0
  {
    hide Serialize, EncodeMembers, MembersFit, MembersConform, MembersSize, MembersNeeded, MemberNames;
    if v.Obj? && room >= 3 {
      MembersAccepted(dt, MemberNames(v.members.Keys), v.members, room - 2);
    }
  }
}
