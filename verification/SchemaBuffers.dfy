/**
 The schema codec as it runs: every type writes its TLVs into the caller's buffer in place and
 every decoder loops over an offset.  Each method is tied to the pure codec of Schema.
 */
module SchemaBuffers {
  import opened Octets
  import opened Buffers
  import opened JsonValue
  import opened Tlv
  import opened Schema
  import opened DecoderAlgebra

  // ----- When writing succeeds

  /** The bytes written for v. */
  ghost function Wire(dt: DataType, v: Json, tag: byte): bytes {
    var ts := Encode(dt, v, tag);
    if ts.Some? then Serialize(ts.value) else []
  }

  /** The return code of j2b with `room` bytes left in the buffer; 0 is success. */
  ghost function Status(dt: DataType, v: Json, tag: byte, room: int): int
    decreases dt, 2, 0
  {
    match dt
    case NumberType(w) => if !v.IsUInt64() then -1 else if room < w + 2 then -2 else 0
    case StringType(limit) =>
      if !v.Str? then -1 else if room < |Clip(v.s, limit)| + 3 then -2 else 0
    case HexType(limit) =>
      if !v.Str? then -1 else
        var s := ClipHex(v.s, limit);
        var field := |LengthBytes(|s| / 2)|;
        if room - 1 < field then -2
        else if room < |s| + 1 + field then -3
        else if !HexPairs(s) then -4 else 0
    case BoolType => if !v.Bool? then -1 else if room < 3 then -2 else 0
    case EnumType => if !v.IsUInt() then -1 else if room < 3 then -2 else 0
    case ArrayType(item) =>
      if !v.Arr? then -1 else if !ItemsFit(item, v.items, tag, room) then -2 else 0
    case StructType(_) =>
      if !v.Obj? then -1
      else if room < 3 then -2
      else
        var names := MemberNames(v.members.Keys);
        if !MembersFit(dt, names, v.members, room - 2) then -3 else
          var ts := EncodeMembers(dt, names, v.members);
          var length := if ts.Some? then |Serialize(ts.value)| else 0;
          if length <= 0x7F then 0
          else if room < length + 3 then -4
          else if length >= LENGTH_LIMIT then -5 else 0
  }

  ghost predicate ItemsFit(item: DataType, vs: seq<Json>, tag: byte, room: int)
    decreases item, 3, |vs|
  {
    vs == [] ||
    (Status(item, vs[0], tag, room) == 0 && ItemsFit(item, vs[1..], tag, room - |Wire(item, vs[0], tag)|))
  }

  ghost predicate MembersFit(dt: DataType, names: seq<string>, m: Members, room: int)
    requires dt.StructType?
    decreases dt, 1, |names|
  {
    names == [] ||
    (MemberFits(dt, names[0], m, room) && MembersFit(dt, names[1..], m, room - |MemberWire(dt, names[0], m)|))
  }

  ghost predicate MemberFits(dt: DataType, name: string, m: Members, room: int)
    requires dt.StructType?
    decreases dt, 0
  {
    var p := FindByName(dt.props, name);
    p.None? || Status(p.value.dataType, Get(m, name), p.value.index % 256, room) == 0
  }

  ghost function MemberWire(dt: DataType, name: string, m: Members): bytes
    requires dt.StructType?
  {
    var p := FindByName(dt.props, name);
    if p.None? then [] else Wire(p.value.dataType, Get(m, name), p.value.index % 256)
  }

  // ----- When writing does not stay in the room

  /**
   The byte j2b stores just behind the room: a hexadecimal type stores its tag before it looks at
   the room, so one that is reached with no room left stores it there.  None if that never happens.
   */
  ghost function Stray(dt: DataType, v: Json, tag: byte, room: int): Option<byte>
    decreases dt, 2, 0
  {
    match dt
    case HexType(_) => if v.Str? && room == 0 then Some(tag) else None
    case ArrayType(item) => if v.Arr? then StrayItems(item, v.items, tag, room) else None
    case StructType(_) =>
      if v.Obj? && room >= 3 then StrayMembers(dt, MemberNames(v.members.Keys), v.members, room - 2) else None
    case _ => None
  }

  /** Writing stops at the first item that fails, so only that one can store behind the room. */
  ghost function StrayItems(item: DataType, vs: seq<Json>, tag: byte, room: int): Option<byte>
    decreases item, 3, |vs|
  {
    if vs == [] then None
    else if Status(item, vs[0], tag, room) == 0 then StrayItems(item, vs[1..], tag, room - |Wire(item, vs[0], tag)|)
    else Stray(item, vs[0], tag, room)
  }

  ghost function StrayMembers(dt: DataType, names: seq<string>, m: Members, room: int): Option<byte>
    requires dt.StructType?
    decreases dt, 1, |names|
  {
    if names == [] then None
    else if MemberFits(dt, names[0], m, room) then StrayMembers(dt, names[1..], m, room - |MemberWire(dt, names[0], m)|)
    else StrayMember(dt, names[0], m, room)
  }

  ghost function StrayMember(dt: DataType, name: string, m: Members, room: int): Option<byte>
    requires dt.StructType?
    decreases dt, 0
  {
    var p := FindByName(dt.props, name);
    if p.None? then None else Stray(p.value.dataType, Get(m, name), p.value.index % 256, room)
  }

  /** Success stays in the room. */
  lemma {:induction false} SuccessStays(dt: DataType, v: Json, tag: byte, room: int)
    requires Status(dt, v, tag, room) == 0
    ensures Stray(dt, v, tag, room) == None
    decreases dt, 2, 0
  {
    match dt
    case HexType(limit) => LongerThanNothing(|ClipHex(v.s, limit)| / 2);
    case ArrayType(item) => FittingItemsStay(item, v.items, tag, room);
    case StructType(_) => FittingMembersStay(dt, MemberNames(v.members.Keys), v.members, room - 2);
    case _ =>
  }

  lemma LongerThanNothing(n: nat)
    ensures |LengthBytes(n)| > 0
  {
  }

  lemma {:induction false} FittingItemsStay(item: DataType, vs: seq<Json>, tag: byte, room: int)
    requires ItemsFit(item, vs, tag, room)
    ensures StrayItems(item, vs, tag, room) == None
    decreases item, 3, |vs|
  {
    if vs != [] {
      FittingItemsStay(item, vs[1..], tag, room - |Wire(item, vs[0], tag)|);
    }
  }

  lemma {:induction false} FittingMembersStay(dt: DataType, names: seq<string>, m: Members, room: int)
    requires dt.StructType? && MembersFit(dt, names, m, room)
    ensures StrayMembers(dt, names, m, room) == None
    decreases dt, 1, |names|
  {
    hide MemberFits, MemberWire, StrayMember;
    if names != [] {
      FittingMembersStay(dt, names[1..], m, room - |MemberWire(dt, names[0], m)|);
    }
  }

  lemma FittingMemberStays(dt: DataType, name: string, m: Members, room: int)
    requires dt.StructType? && MemberFits(dt, name, m, room)
    ensures StrayMember(dt, name, m, room) == None
  {
    var p := FindByName(dt.props, name);
    if p.Some? {
      SuccessStays(p.value.dataType, Get(m, name), p.value.index % 256, room);
    }
  }

  /** Success means the value has TLVs and they lie within the room given. */
  lemma {:induction false} SuccessFits(dt: DataType, v: Json, tag: byte, room: int)
    requires Status(dt, v, tag, room) == 0
    requires room >= 0
    ensures Encode(dt, v, tag).Some? && |Wire(dt, v, tag)| <= room
    decreases dt, 2, 0
  {
    match dt
    case ArrayType(item) => ItemsFitFits(item, v.items, tag, room);
    case StructType(_) =>
      var names := MemberNames(v.members.Keys);
      MembersFitFits(dt, names, v.members, room - 2);
      var t := Tlv(tag, Serialize(EncodeMembers(dt, names, v.members).value));
      SerializeOne(t);
      ShortFrameLength(t);
    case _ =>
      var t := Encode(dt, v, tag).value[0];
      SerializeOne(t);
      ShortFrameLength(t);
  }

  lemma {:induction false} ItemsFitFits(item: DataType, vs: seq<Json>, tag: byte, room: int)
    requires ItemsFit(item, vs, tag, room) && room >= 0
    ensures EncodeItems(item, vs, tag).Some?
    ensures |Serialize(EncodeItems(item, vs, tag).value)| <= room
    decreases item, 3, |vs|
  {
    if vs != [] {
      SuccessFits(item, vs[0], tag, room);
      ItemsFitFits(item, vs[1..], tag, room - |Wire(item, vs[0], tag)|);
      SerializeAppend(Encode(item, vs[0], tag).value, EncodeItems(item, vs[1..], tag).value);
    }
  }

  lemma {:induction false} MembersFitFits(dt: DataType, names: seq<string>, m: Members, room: int)
    requires dt.StructType?
    requires MembersFit(dt, names, m, room) && room >= 0
    ensures EncodeMembers(dt, names, m).Some?
    ensures |Serialize(EncodeMembers(dt, names, m).value)| <= room
    decreases dt, 1, |names|
  {
    if names != [] {
      var p := FindByName(dt.props, names[0]);
      if p.Some? {
        SuccessFits(p.value.dataType, Get(m, names[0]), p.value.index % 256, room);
      }
      MembersFitFits(dt, names[1..], m, room - |MemberWire(dt, names[0], m)|);
      SerializeAppend(EncodeMember(dt, names[0], m).value, EncodeMembers(dt, names[1..], m).value);
    }
  }

  // ----- Writing in place

  /** Tag and length field; the body is to follow at base + start.  The tag is stored whatever the room. */
  method WriteHeader(tag: byte, length: nat, buf: array<byte>, base: nat, room: nat) returns (ok: bool, start: nat)
    requires base < buf.Length && base + room <= buf.Length
    requires length < LENGTH_LIMIT
    modifies buf
    ensures start == 1 + |LengthBytes(length)|
    ensures ok == (start <= room)
    ensures ok ==> Holds(buf, base, [tag] + LengthBytes(length))
    ensures if room == 0 then buf[base] == tag && OnlyWithin(buf, base, 1) else OnlyWithin(buf, base, room)
  {
    LengthBytesSmall(length);
    buf[base] := tag;
    var field;
    ok, field := SetTlvLength(length, buf, base + 1, room - 1);
    start := 1 + |LengthBytes(length)|;
    if ok {
      HoldsJoin(buf, base, [tag], LengthBytes(length));
    }
  }

  lemma HeaderAndBody(buf: array<byte>, base: nat, tag: byte, body: bytes)
    requires Holds(buf, base, [tag] + LengthBytes(|body|))
    requires Holds(buf, base + 1 + |LengthBytes(|body|)|, body)
    ensures Holds(buf, base, Serialize([Tlv(tag, body)]))
    ensures |Serialize([Tlv(tag, body)])| == 1 + |LengthBytes(|body|)| + |body|
  {
    SerializeOne(Tlv(tag, body));
    HoldsJoin(buf, base, [tag] + LengthBytes(|body|), body);
  }

  /** The number types; the value is cut to the declared width. */
  method WriteNumber(w: Width, v: Json, tag: byte, buf: array<byte>, base: nat, room: nat)
    returns (rc: int, count: nat)
    requires base + room <= buf.Length
    modifies buf
    ensures rc == Status(NumberType(w), v, tag, room)
    ensures rc == 0 ==> count == |Wire(NumberType(w), v, tag)| && Holds(buf, base, Wire(NumberType(w), v, tag))
    ensures OnlyWithin(buf, base, room)
  {
    count := 0;
    if !v.IsUInt64() {
      return -1, count;
    }
    if room < w + 2 {
      return -2, count;
    }
    CopyIn(BigEndian(v.n, w), buf, base + 2);
    buf[base] := tag;
    buf[base + 1] := w;
    rc, count := 0, w + 2;
    ghost var t := Tlv(tag, BigEndian(v.n, w));
    SerializeOne(t);
    HoldsJoin(buf, base, [tag, w], BigEndian(v.n, w));
    assert Frame(t) == [tag, w] + BigEndian(v.n, w);
  }

  method WriteString(limit: Limit, v: Json, tag: byte, buf: array<byte>, base: nat, room: nat)
    returns (rc: int, count: nat)
    requires base + room <= buf.Length
    modifies buf
    ensures rc == Status(StringType(limit), v, tag, room)
    ensures rc == 0 ==> count == |Wire(StringType(limit), v, tag)| && Holds(buf, base, Wire(StringType(limit), v, tag))
    ensures OnlyWithin(buf, base, room)
  {
    count := 0;
    if !v.Str? {
      return -1, count;
    }
    var s := Clip(v.s, limit);
    if room < |s| + 3 {
      return -2, count;
    }
    LengthBytesSmall(|s|);
    var _, start := WriteHeader(tag, |s|, buf, base, room);
    CopyIn(ToBytes(s), buf, base + start);
    rc, count := 0, start + |s|;
    HeaderAndBody(buf, base, tag, ToBytes(s));
  }

  method WriteHex(limit: Limit, v: Json, tag: byte, buf: array<byte>, base: nat, room: nat)
    returns (rc: int, count: nat)
    requires base + room < buf.Length
    modifies buf
    ensures rc == Status(HexType(limit), v, tag, room)
    ensures rc == 0 ==> count == |Wire(HexType(limit), v, tag)| && Holds(buf, base, Wire(HexType(limit), v, tag))
    ensures OnlyWithin(buf, base, room + 1)
    ensures buf[base + room] == Behind(Stray(HexType(limit), v, tag, room), old(buf[base + room]))
  {
    hide HexPairs, HexBytes, LengthBytes;
    count := 0;
    if !v.Str? {
      return -1, count;
    }
    var s := ClipHex(v.s, limit);
    LengthBytesSmall(|s| / 2);
    var ok, start := WriteHeader(tag, |s| / 2, buf, base, room);
    if !ok {
      return -2, count;
    }
    if room < |s| + start {
      return -3, count;
    }
    var n := HexStringToBytes(s, buf, base + start, room - start);
    if n < 0 {
      return -4, count;
    }
    rc, count := 0, start + n;
    HeaderAndBody(buf, base, tag, HexBytes(s));
  }

  /** Two characters a byte; -1 at the first character that is not a digit. */
  method HexStringToBytes(s: text, buf: array<byte>, at: nat, room: nat) returns (n: int)
    requires at + room <= buf.Length
    modifies buf
    ensures n == if |s| / 2 <= room && HexPairs(s) then |s| / 2 else -1
    ensures n >= 0 ==> HexPairs(s) && Holds(buf, at, HexBytes(s))
    ensures OnlyWithin(buf, at, room)
  {
    var length := |s| / 2;
    if room < length {
      return -1;
    }
    for i := 0 to length
      invariant forall j :: 0 <= j < 2 * i ==> HexValue(s[j]) < 16
      invariant forall j :: 0 <= j < i ==> buf[at + j] == HexValue(s[2 * j]) * 16 + HexValue(s[2 * j + 1])
      invariant OnlyWithin(buf, at, room)
    {
      var high: nat, low: nat := HexValue(s[2 * i]), HexValue(s[2 * i + 1]);
      if high > 0x0F || low > 0x0F {
        assert !HexPairs(s);
        return -1;
      }
      buf[at + i] := high * 16 + low;
    }
    n := length;
    assert HexPairs(s);
  }

  /** The one-byte types: a flag, or the low byte of an enumeration value. */
  method WriteByte(b: byte, tag: byte, buf: array<byte>, base: nat, room: nat) returns (rc: int, count: nat)
    requires base + room <= buf.Length
    modifies buf
    ensures rc == if room < 3 then -2 else 0
    ensures rc == 0 ==> count == |Serialize([Tlv(tag, [b])])| && Holds(buf, base, Serialize([Tlv(tag, [b])]))
    ensures OnlyWithin(buf, base, room)
  {
    count := 0;
    if room < 3 {
      return -2, count;
    }
    buf[base], buf[base + 1], buf[base + 2] := tag, 1, b;
    rc, count := 0, 3;
    SerializeOne(Tlv(tag, [b]));
    assert Frame(Tlv(tag, [b])) == [tag, 1, b];
  }

  // ----- Arrays, structs and whole objects in place

  lemma SerializeJoin(buf: array<byte>, base: nat, a: seq<Tlv>, b: seq<Tlv>)
    requires Holds(buf, base, Serialize(a)) && Holds(buf, base + |Serialize(a)|, Serialize(b))
    ensures Holds(buf, base, Serialize(a + b))
    ensures |Serialize(a + b)| == |Serialize(a)| + |Serialize(b)|
  {
    hide Serialize, Holds;
    SerializeAppend(a, b);
    HoldsJoin(buf, base, Serialize(a), Serialize(b));
  }

  lemma ConcatStep(done: seq<Tlv>, a: Option<seq<Tlv>>, b: Option<seq<Tlv>>)
    requires a.Some?
    ensures Concat(Some(done), Concat(a, b)) == Concat(Some(done + a.value), b)
  {
    if b.Some? {
      assert done + (a.value + b.value) == done + a.value + b.value;
    }
  }

  lemma ItemsStep(item: DataType, vs: seq<Json>, tag: byte, i: nat, done: seq<Tlv>, room: int)
    requires i < |vs|
    ensures ItemsFit(item, vs[i..], tag, room) ==
            (Status(item, vs[i], tag, room) == 0 && ItemsFit(item, vs[i + 1..], tag, room - |Wire(item, vs[i], tag)|))
    ensures StrayItems(item, vs[i..], tag, room) ==
            if Status(item, vs[i], tag, room) == 0 then StrayItems(item, vs[i + 1..], tag, room - |Wire(item, vs[i], tag)|)
            else Stray(item, vs[i], tag, room)
    ensures Encode(item, vs[i], tag).Some? ==>
              Concat(Some(done), EncodeItems(item, vs[i..], tag)) ==
              Concat(Some(done + Encode(item, vs[i], tag).value), EncodeItems(item, vs[i + 1..], tag))
  {
    hide Encode, Status, Serialize, Wire;
    assert vs[i..][0] == vs[i] && vs[i..][1..] == vs[i + 1..];
    var first := Encode(item, vs[i], tag);
    if first.Some? {
      ConcatStep(done, first, EncodeItems(item, vs[i + 1..], tag));
    }
  }

  lemma MembersStep(dt: DataType, names: seq<string>, m: Members, i: nat, done: seq<Tlv>, room: int)
    requires dt.StructType? && i < |names|
    ensures MembersFit(dt, names[i..], m, room) ==
            (MemberFits(dt, names[i], m, room) && MembersFit(dt, names[i + 1..], m, room - |MemberWire(dt, names[i], m)|))
    ensures StrayMembers(dt, names[i..], m, room) ==
            if MemberFits(dt, names[i], m, room) then StrayMembers(dt, names[i + 1..], m, room - |MemberWire(dt, names[i], m)|)
            else StrayMember(dt, names[i], m, room)
    ensures EncodeMember(dt, names[i], m).Some? ==>
              Concat(Some(done), EncodeMembers(dt, names[i..], m)) ==
              Concat(Some(done + EncodeMember(dt, names[i], m).value), EncodeMembers(dt, names[i + 1..], m))
  {
    hide EncodeMember, MemberFits, MemberWire;
    assert names[i..][0] == names[i] && names[i..][1..] == names[i + 1..];
    var first := EncodeMember(dt, names[i], m);
    if first.Some? {
      ConcatStep(done, first, EncodeMembers(dt, names[i + 1..], m));
    }
  }

  lemma ConcatEmpty(a: Option<seq<Tlv>>)
    ensures Concat(Some([]), a) == a
  {
    if a.Some? {
      assert [] + a.value == a.value;
    }
  }

  /** Any value; the buffer goes on behind the room, where at most one byte is stored. */
  method WriteValue(dt: DataType, v: Json, tag: byte, buf: array<byte>, base: nat, room: nat)
    returns (rc: int, count: nat)
    requires base + room < buf.Length
    modifies buf
    ensures rc == Status(dt, v, tag, room)
    ensures rc == 0 ==> Encode(dt, v, tag).Some? && count == |Wire(dt, v, tag)| <= room
    ensures rc == 0 ==> Holds(buf, base, Wire(dt, v, tag))
    ensures OnlyWithin(buf, base, room + 1)
    ensures buf[base + room] == Behind(Stray(dt, v, tag, room), old(buf[base + room]))
    decreases dt, 2
  {
    match dt {
      case NumberType(w) => rc, count := WriteNumber(w, v, tag, buf, base, room);
      case StringType(limit) => rc, count := WriteString(limit, v, tag, buf, base, room);
      case HexType(limit) => rc, count := WriteHex(limit, v, tag, buf, base, room);
      case BoolType =>
        if !v.Bool? {
          return -1, 0;
        }
        rc, count := WriteByte(if v.b then 1 else 0, tag, buf, base, room);
      case EnumType =>
        if !v.IsUInt() {
          return -1, 0;
        }
        rc, count := WriteByte(v.n % 256, tag, buf, base, room);
      case ArrayType(item) =>
        if !v.Arr? {
          return -1, 0;
        }
        rc, count := WriteItems(item, v.items, tag, buf, base, room);
      case StructType(_) =>
        if !v.Obj? {
          return -1, 0;
        }
        rc, count := WriteStruct(dt, v.members, tag, buf, base, room);
    }
    if rc == 0 {
      SuccessFits(dt, v, tag, room);
    }
  }

  /** Every item behind the one before it. */
  method WriteItems(item: DataType, vs: seq<Json>, tag: byte, buf: array<byte>, base: nat, room: nat)
    returns (rc: int, count: nat)
    requires base + room < buf.Length
    modifies buf
    ensures rc == if ItemsFit(item, vs, tag, room) then 0 else -2
    ensures rc == 0 ==> EncodeItems(item, vs, tag).Some?
    ensures rc == 0 ==> count == |Serialize(EncodeItems(item, vs, tag).value)| <= room
    ensures rc == 0 ==> Holds(buf, base, Serialize(EncodeItems(item, vs, tag).value))
    ensures OnlyWithin(buf, base, room + 1)
    ensures buf[base + room] == Behind(StrayItems(item, vs, tag, room), old(buf[base + room]))
    decreases item, 3
  {
    hide Encode, Status, Stray, Serialize;
    count := 0;
    ghost var done: seq<Tlv> := [];
    SerializeNone();
    ConcatEmpty(EncodeItems(item, vs, tag));
    assert vs[0..] == vs;
    for i := 0 to |vs|
      invariant count <= room
      invariant |Serialize(done)| == count && Holds(buf, base, Serialize(done))
      invariant EncodeItems(item, vs, tag) == Concat(Some(done), EncodeItems(item, vs[i..], tag))
      invariant ItemsFit(item, vs, tag, room) == ItemsFit(item, vs[i..], tag, room - count)
      invariant StrayItems(item, vs, tag, room) == StrayItems(item, vs[i..], tag, room - count)
      invariant OnlyWithin(buf, base, room)
    {
      ItemsStep(item, vs, tag, i, done, room - count);
      var rc', length := WriteValue(item, vs[i], tag, buf, base + count, room - count);
      if rc' != 0 {
        return -2, count;
      }
      SuccessStays(item, vs[i], tag, room - count);
      ghost var more := Encode(item, vs[i], tag).value;
      SerializeJoin(buf, base, done, more);
      done := done + more;
      count := count + length;
    }
    rc := 0;
    assert vs[|vs|..] == [];
    assert done + [] == done;
  }

  /** One member; a name the struct does not declare writes nothing. */
  method WriteMember(dt: DataType, name: string, m: Members, buf: array<byte>, base: nat, room: nat)
    returns (ok: bool, count: nat)
    requires dt.StructType?
    requires base + room < buf.Length
    modifies buf
    ensures ok == MemberFits(dt, name, m, room)
    ensures ok ==> EncodeMember(dt, name, m).Some?
    ensures ok ==> count == |MemberWire(dt, name, m)| <= room
    ensures ok ==> MemberWire(dt, name, m) == Serialize(EncodeMember(dt, name, m).value)
    ensures ok ==> Holds(buf, base, MemberWire(dt, name, m))
    ensures OnlyWithin(buf, base, room + 1)
    ensures buf[base + room] == Behind(StrayMember(dt, name, m, room), old(buf[base + room]))
    decreases dt, 0, 0
  {
    ok, count := true, 0;
    var p := FindByName(dt.props, name);
    if p.Some? {
      var rc;
      rc, count := WriteValue(p.value.dataType, Get(m, name), p.value.index % 256, buf, base, room);
      ok := rc == 0;
    }
  }

  /** The declared members of an object, in key order, from buf[base] on. */
  method WriteMembers(dt: DataType, m: Members, buf: array<byte>, base: nat, room: nat)
    returns (ok: bool, count: nat)
    requires dt.StructType?
    requires base + room < buf.Length
    modifies buf
    ensures ok == MembersFit(dt, MemberNames(m.Keys), m, room)
    ensures ok ==> EncodeMembers(dt, MemberNames(m.Keys), m).Some?
    ensures ok ==> count == |Serialize(EncodeMembers(dt, MemberNames(m.Keys), m).value)| <= room
    ensures ok ==> Holds(buf, base, Serialize(EncodeMembers(dt, MemberNames(m.Keys), m).value))
    ensures OnlyWithin(buf, base, room + 1)
    ensures buf[base + room] == Behind(StrayMembers(dt, MemberNames(m.Keys), m, room), old(buf[base + room]))
    decreases dt, 0, 1
  {
    hide Encode, Status, Stray, Serialize, EncodeMember, MemberFits, MemberWire, StrayMember;
    count := 0;
    var names := ListMemberNames(m);
    ghost var done: seq<Tlv> := [];
    SerializeNone();
    ConcatEmpty(EncodeMembers(dt, names, m));
    assert names[0..] == names;
    for i := 0 to |names|
      invariant count <= room
      invariant |Serialize(done)| == count && Holds(buf, base, Serialize(done))
      invariant EncodeMembers(dt, names, m) == Concat(Some(done), EncodeMembers(dt, names[i..], m))
      invariant MembersFit(dt, names, m, room) == MembersFit(dt, names[i..], m, room - count)
      invariant StrayMembers(dt, names, m, room) == StrayMembers(dt, names[i..], m, room - count)
      invariant OnlyWithin(buf, base, room)
    {
      MembersStep(dt, names, m, i, done, room - count);
      var fits, length := WriteMember(dt, names[i], m, buf, base + count, room - count);
      if !fits {
        return false, count;
      }
      FittingMemberStays(dt, names[i], m, room - count);
      ghost var more := EncodeMember(dt, names[i], m).value;
      SerializeJoin(buf, base, done, more);
      done := done + more;
      count := count + length;
    }
    ok := true;
    assert names[|names|..] == [];
    assert done + [] == done;
  }

  /**
   The body is written after a one-byte length; a body over 127 bytes is then moved up by one
   byte to make room for the second byte of its length.
   */
  method WriteStruct(dt: DataType, m: Members, tag: byte, buf: array<byte>, base: nat, room: nat)
    returns (rc: int, count: nat)
    requires dt.StructType?
    requires base + room < buf.Length
    modifies buf
    ensures rc == Status(dt, Obj(m), tag, room)
    ensures rc == 0 ==> count == |Wire(dt, Obj(m), tag)|
    ensures rc == 0 ==> Holds(buf, base, Wire(dt, Obj(m), tag))
    ensures OnlyWithin(buf, base, room + 1)
    ensures buf[base + room] == Behind(Stray(dt, Obj(m), tag, room), old(buf[base + room]))
    decreases dt, 1
  {
    hide EncodeMembers, MembersFit, StrayMembers, Serialize, MemberNames;
    count := 0;
    if room < 3 {
      return -2, count;
    }
    buf[base] := tag;
    var ok, length := WriteMembers(dt, m, buf, base + 2, room - 2);
    if !ok {
      return -3, count;
    }
    FittingMembersStay(dt, MemberNames(m.Keys), m, room - 2);
    ghost var body := Serialize(EncodeMembers(dt, MemberNames(m.Keys), m).value);
    if length <= 0x7F {
      buf[base + 1] := length;
      HeaderAndBody(buf, base, tag, body);
      return 0, 2 + length;
    }
    if room < length + 3 {
      return -4, count;
    }
    var lengthOk := WidenLength(tag, buf, base, length, body);
    if !lengthOk {
      return -5, count;
    }
    HeaderAndBody(buf, base, tag, body);
    return 0, 3 + length;
  }

  /** memmove of the body by one byte, then the two-byte length; false when it needs three. */
  method WidenLength(tag: byte, buf: array<byte>, base: nat, length: nat, ghost body: bytes) returns (ok: bool)
    requires 127 < length == |body| && base + 3 + length <= buf.Length
    requires buf[base] == tag && Holds(buf, base + 2, body)
    modifies buf
    ensures ok == (length < LENGTH_LIMIT)
    ensures ok ==> |LengthBytes(length)| == 2 && Holds(buf, base, [tag] + LengthBytes(length))
    ensures Holds(buf, base + 3, body)
    ensures OnlyWithin(buf, base, length + 3)
  {
    forall i | 0 <= i < length {
      buf[base + 3 + i] := buf[base + 2 + i];
    }
    var bytes;
    ok, bytes := SetTlvLength(length, buf, base + 1, 2);
    LengthLimitTwo(length);
    ok := ok && bytes == 2;
    if ok {
      HoldsJoin(buf, base, [tag], LengthBytes(length));
    }
  }

  lemma LengthLimitTwo(n: nat)
    requires n > 127
    ensures |LengthBytes(n)| >= 2
    ensures |LengthBytes(n)| == 2 <==> n < LENGTH_LIMIT
  {
  }

  // ----- module::dataJ2B

  /** The TLVs written for the members that can be written into what is left of the room. */
  ghost function Kept(dt: DataType, names: seq<string>, m: Members, room: int): seq<Tlv>
    requires dt.StructType?
    decreases |names|
  {
    if names == [] then [] else
      var first := KeptMember(dt, names[0], m, room);
      first + Kept(dt, names[1..], m, room - |Serialize(first)|)
  }

  ghost function KeptMember(dt: DataType, name: string, m: Members, room: int): seq<Tlv>
    requires dt.StructType?
  {
    var ts := EncodeMember(dt, name, m);
    if MemberFits(dt, name, m, room) && ts.Some? then ts.value else []
  }

  /** The last byte stored behind the room: writing goes on after a member that fails. */
  ghost function StrayKept(dt: DataType, names: seq<string>, m: Members, room: int): Option<byte>
    requires dt.StructType?
    decreases |names|
  {
    if names == [] then None else
      Later(StrayMember(dt, names[0], m, room),
            StrayKept(dt, names[1..], m, room - |Serialize(KeptMember(dt, names[0], m, room))|))
  }

  /** With room for every member, all of them are kept. */
  lemma {:induction false} KeptAll(dt: DataType, names: seq<string>, m: Members, room: int)
    requires dt.StructType? && MembersFit(dt, names, m, room) && room >= 0
    ensures EncodeMembers(dt, names, m) == Some(Kept(dt, names, m, room))
    decreases |names|
  {
    if names != [] {
      MembersFitFits(dt, names, m, room);
      SerializeNone();
      assert Serialize(KeptMember(dt, names[0], m, room)) == MemberWire(dt, names[0], m);
      assert |MemberWire(dt, names[0], m)| <= room by {
        SerializeAppend(EncodeMember(dt, names[0], m).value, EncodeMembers(dt, names[1..], m).value);
      }
      KeptAll(dt, names[1..], m, room - |MemberWire(dt, names[0], m)|);
    }
  }

  lemma KeptStep(dt: DataType, names: seq<string>, m: Members, i: nat, done: seq<Tlv>, room: int)
    requires dt.StructType? && i < |names|
    ensures var more := KeptMember(dt, names[i], m, room);
            done + Kept(dt, names[i..], m, room) == (done + more) + Kept(dt, names[i + 1..], m, room - |Serialize(more)|)
  {
    hide KeptMember, Serialize;
    assert names[i..][0] == names[i] && names[i..][1..] == names[i + 1..];
    var more := KeptMember(dt, names[i], m, room);
    var rest := Kept(dt, names[i + 1..], m, room - |Serialize(more)|);
    assert Kept(dt, names[i..], m, room) == more + rest;
    assert done + (more + rest) == (done + more) + rest;
  }

  /** One member behind what is already written, or nothing when it cannot be written. */
  method AppendMember(dt: DataType, name: string, m: Members, buf: array<byte>, length: nat, bufSize: nat, ghost done: seq<Tlv>)
    returns (next: nat)
    requires dt.StructType? && length <= bufSize < buf.Length
    requires |Serialize(done)| == length && Holds(buf, 0, Serialize(done))
    modifies buf
    ensures var more := KeptMember(dt, name, m, bufSize - length);
            && next == length + |Serialize(more)| <= bufSize
            && |Serialize(done + more)| == next && Holds(buf, 0, Serialize(done + more))
    ensures OnlyWithin(buf, 0, bufSize + 1)
    ensures buf[bufSize] == Behind(StrayMember(dt, name, m, bufSize - length), old(buf[bufSize]))
  {
    hide Encode, Status, Serialize, EncodeMember, MemberFits, KeptMember, StrayMember;
    var ok, count := WriteMember(dt, name, m, buf, length, bufSize - length);
    ghost var more := KeptMember(dt, name, m, bufSize - length);
    KeptIs(dt, name, m, bufSize - length);
    next := length;
    if ok {
      SerializeJoin(buf, 0, done, more);
      next := length + count;
    } else {
      SerializeNone();
      assert done + more == done;
    }
  }

  /** A member that cannot be written is left out; the others are written one after another. */
  method DataJ2B(props: seq<Property>, m: Members, buf: array<byte>, bufSize: nat) returns (length: nat)
    requires bufSize < buf.Length
    modifies buf
    ensures length == |Serialize(Kept(StructType(props), MemberNames(m.Keys), m, bufSize))| <= bufSize
    ensures buf[..length] == Serialize(Kept(StructType(props), MemberNames(m.Keys), m, bufSize))
    ensures OnlyWithin(buf, 0, bufSize + 1)
    ensures buf[bufSize] == Behind(StrayKept(StructType(props), MemberNames(m.Keys), m, bufSize), old(buf[bufSize]))
  {
    hide Serialize, Kept, KeptMember, StrayKept, StrayMember, Holds;
    var dt := StructType(props);
    length := 0;
    var names := ListMemberNames(m);
    ghost var done: seq<Tlv> := [];
    ghost var stray: Option<byte> := None;
    SerializeNone();
    NothingHeld(buf);
    assert names[0..] == names;
    for i := 0 to |names|
      invariant length <= bufSize
      invariant |Serialize(done)| == length && Holds(buf, 0, Serialize(done))
      invariant Kept(dt, names, m, bufSize) == done + Kept(dt, names[i..], m, bufSize - length)
      invariant OnlyWithin(buf, 0, bufSize + 1)
      invariant StrayKept(dt, names, m, bufSize) == Later(stray, StrayKept(dt, names[i..], m, bufSize - length))
      invariant buf[bufSize] == Behind(stray, old(buf[bufSize]))
    {
      KeptStep(dt, names, m, i, done, bufSize - length);
      StrayStep(dt, names, m, i, bufSize - length);
      ghost var more := KeptMember(dt, names[i], m, bufSize - length);
      stray := Later(stray, StrayMember(dt, names[i], m, bufSize - length));
      length := AppendMember(dt, names[i], m, buf, length, bufSize, done);
      done := done + more;
    }
    assert names[|names|..] == [];
    KeptNone(dt, m, bufSize - length);
    assert done + [] == done;
    HoldsAll(buf, Serialize(done));
  }

  lemma KeptNone(dt: DataType, m: Members, room: int)
    requires dt.StructType?
    ensures Kept(dt, [], m, room) == [] && StrayKept(dt, [], m, room) == None
  {
  }

  lemma StrayStep(dt: DataType, names: seq<string>, m: Members, i: nat, room: int)
    requires dt.StructType? && i < |names|
    ensures StrayKept(dt, names[i..], m, room) ==
            Later(StrayMember(dt, names[i], m, room),
                  StrayKept(dt, names[i + 1..], m, room - |Serialize(KeptMember(dt, names[i], m, room))|))
  {
    hide StrayMember, KeptMember, Serialize;
    assert names[i..][0] == names[i] && names[i..][1..] == names[i + 1..];
  }

  lemma KeptIs(dt: DataType, name: string, m: Members, room: nat)
    requires dt.StructType?
    ensures MemberFits(dt, name, m, room) ==> EncodeMember(dt, name, m) == Some(KeptMember(dt, name, m, room))
    ensures !MemberFits(dt, name, m, room) ==> KeptMember(dt, name, m, room) == []
  {
    var p := FindByName(dt.props, name);
    if p.Some? && MemberFits(dt, name, m, room) {
      SuccessFits(p.value.dataType, Get(m, name), p.value.index % 256, room);
    }
  }

  // ----- Reading

  /** The memory as seen from position `start` of the data. */
  function From(data: bytes, start: nat, beyond: Memory): Memory {
    (i: nat) => At(data, start + i, beyond(start + i))
  }

  /** The object after one body has been read under p's key. */
  function Assign(dt: DataType, name: string, body: bytes, m: Members): Members {
    var x := StoreField(dt, Lookup(m, name), body);
    if x.None? then m else m[name := x.value]
  }

  method TrimZeroBytes(body: bytes) returns (length: nat)
    ensures length <= |body| && body[..length] == TrimRight(body)
  {
    length := |body|;
    assert body[..length] == body;
    while length > 0 && body[length - 1] == 0
      invariant length <= |body| && TrimRight(body[..length]) == TrimRight(body)
    {
      assert body[..length][..length - 1] == body[..length - 1];
      length := length - 1;
    }
  }

  method HexText(body: bytes) returns (s: text)
    ensures s == HexOf(body)
  {
    s := "";
    for i := 0 to |body|
      invariant s == HexOf(body[..i])
    {
      var more: text := [HexDigit(body[i] / 16), HexDigit(body[i] % 16)];
      assert body[..i + 1][..i] == body[..i];
      HexOfAppend(body[..i], body[i]);
      assert body[..i + 1] == body[..i] + [body[i]];
      s := s + more;
    }
    assert body[..|body|] == body;
  }

  lemma HexOfAppend(b: bytes, x: byte)
    ensures HexOf(b + [x]) == HexOf(b) + [HexDigit(x / 16), HexDigit(x % 16)]
  {
    var l, r := HexOf(b + [x]), HexOf(b) + [HexDigit(x / 16), HexDigit(x % 16)];
    forall i | 0 <= i < |l|
      ensures l[i] == r[i]
    {
      if i < 2 * |b| {
        assert (b + [x])[i / 2] == b[i / 2];
      } else {
        assert i / 2 == |b| && (b + [x])[i / 2] == x;
      }
    }
  }

  lemma AssignNothing(dt: DataType, name: string, body: bytes, m: Members)
    requires Decode(dt, body).None?
    ensures Assign(dt, name, body, m) == m
  {
  }

  /** b2j of each type: reads one body and assigns or appends it under the key. */
  method ReadValue(dt: DataType, name: string, body: bytes, m: Members, beyond: Memory) returns (rc: int, r: Members)
    ensures r == Assign(dt, name, body, m)
    ensures rc == 0 <==> Decode(dt, body).Some?
    ensures rc != 0 ==> r == m && rc == if dt.ArrayType? then -2 else -1
    decreases dt, 1, 0
  {
    rc, r := 0, m;
    if Decode(dt, body).None? {
      AssignNothing(dt, name, body, m);
    }
    match dt {
      case NumberType(w) =>
        if |body| != w {
          return -1, m;
        }
        r := m[name := Int(FromBigEndian(body))];
      case StringType(_) =>
        var length := TrimZeroBytes(body);
        r := m[name := Str(FromBytes(body[..length]))];
      case HexType(_) =>
        var s := HexText(body);
        r := m[name := Str(s)];
      case BoolType =>
        if |body| != 1 {
          return -1, m;
        }
        r := m[name := Bool(body[0] == 1)];
      case EnumType =>
        if |body| != 1 {
          return -1, m;
        }
        r := m[name := Int(body[0])];
      case ArrayType(item) =>
        var rc', fresh' := ReadValue(item, "item", body, map[], beyond);
        if rc' != 0 {
          return -2, m;
        }
        assert fresh'["item"] == Decode(item, body).value;
        var was := Get(m, name);
        r := m[name := if was.Arr? then Arr(was.items + [fresh'["item"]]) else Arr([fresh'["item"]])];
      case StructType(_) =>
        var obj := ReadMembers(dt, body, map[], beyond);
        r := m[name := AsValue(obj)];
    }
  }

  /** The decoder loop: tag, length, body, until the data ends or a body would run past it. */
  method ReadMembers(dt: DataType, data: bytes, m: Members, beyond: Memory) returns (r: Members)
    requires dt.StructType?
    ensures r == StoreAll(dt, Parse(data), m)
    decreases dt, 0, 0
  {
    hide Parse, Decode, StoreField, StoreAll, GetLength, At;
    var offset := 0;
    r := m;
    assert data[0..] == data;
    while offset < |data|
      invariant offset <= |data|
      invariant StoreAll(dt, Parse(data), m) == StoreAll(dt, Parse(data[offset..]), r)
    {
      var tag := data[offset];
      var length, count := GetTlvLength(data, offset + 1, beyond);
      var start := offset + 1 + count;
      ParseStep(data, offset, beyond);
      if start + length > |data| {
        StoreNothing(dt, r);
        return;
      }
      StoreAllStep(dt, Tlv(tag, data[start..start + length]), Parse(data[start + length..]), r);
      var p := FindByIndex(dt.props, tag);
      if p.Some? {
        var rc;
        rc, r := ReadValue(p.value.dataType, p.value.name, data[start..start + length], r, From(data, start, beyond));
      }
      offset := start + length;
    }
    assert data[offset..] == [];
    ParseNothing();
    StoreNothing(dt, r);
  }

  lemma ParseNothing()
    ensures Parse([]) == []
  {
  }

  lemma StoreNothing(dt: DataType, m: Members)
    requires dt.StructType?
    ensures StoreAll(dt, [], m) == m
  {
  }

  lemma StoreAllStep(dt: DataType, t: Tlv, ts: seq<Tlv>, m: Members)
    requires dt.StructType?
    ensures StoreAll(dt, [t] + ts, m) == StoreAll(dt, ts, Store(dt, t, m))
  {
    assert ([t] + ts)[1..] == ts;
  }

  /** One turn of the decoder loop, whatever the memory holds past the data. */
  lemma ParseStep(data: bytes, offset: nat, beyond: Memory)
    requires offset < |data|
    ensures var h := GetLength(At(data, offset + 1, beyond(offset + 1)), At(data, offset + 2, beyond(offset + 2)));
            var start := offset + 1 + h.count;
            Parse(data[offset..]) ==
            if start + h.length > |data| then []
            else [Tlv(data[offset], data[start..start + h.length])] + Parse(data[start + h.length..])
  {
    BeyondIsIrrelevant(data, offset + 1, beyond(offset + 1), beyond(offset + 2), 0, 0);
    var rest := data[offset..];
    assert At(rest, 1, 0) == At(data, offset + 1, 0) && At(rest, 2, 0) == At(data, offset + 2, 0);
    var h := GetLength(At(rest, 1, 0), At(rest, 2, 0));
    var start := 1 + h.count;
    if start + h.length <= |rest| {
      assert rest[start..start + h.length] == data[offset + start..offset + start + h.length];
      assert rest[start + h.length..] == data[offset + start + h.length..];
    }
  }

  /** module::dataB2J: the same loop into an object that may already hold members. */
  method DataB2J(props: seq<Property>, data: bytes, m: Members, beyond: Memory) returns (r: Members)
    ensures r == DecodeInto(props, data, m)
  {
    r := ReadMembers(StructType(props), data, m, beyond);
  }
}
