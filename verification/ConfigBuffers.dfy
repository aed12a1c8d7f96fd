/** The get-configuration request as it runs: two passes over the module list, and the decoder loops. */
module ConfigBuffers {
  import opened Octets
  import opened Buffers
  import opened JsonValue
  import opened Tlv
  import opened Schema
  import opened ConfigRequest
  import SchemaBuffers

  // ----- Writers that stop silently when the room is used up

  /** The buffer holds as much of `done` as fits the room, and `at` is where that ends. */
  ghost predicate Filled(buf: array<byte>, done: bytes, room: nat, at: nat)
    reads buf
  {
    at == |Upto(done, room)| && Holds(buf, 0, Upto(done, room))
  }

  lemma FilledMore(buf: array<byte>, done: bytes, part: bytes, room: nat, at: nat)
    requires Filled(buf, done, room, at) && Holds(buf, at, Upto(part, room - at))
    ensures Filled(buf, done + part, room, at + |Upto(part, room - at)|)
  {
    hide Upto, Holds;
    UptoJoin(done, part, room);
    HoldsJoin(buf, 0, Upto(done, room), Upto(part, room - at));
  }

  method PutByte(v: byte, buf: array<byte>, at: nat, room: nat, ghost done: bytes) returns (next: nat)
    requires room <= buf.Length && Filled(buf, done, room, at)
    modifies buf
    ensures Filled(buf, done + [v], room, next)
    ensures OnlyWithin(buf, 0, room)
  {
    next := at;
    if at < room {
      buf[at] := v;
      next := at + 1;
    }
    FilledMore(buf, done, [v], room, at);
  }

  method PutLength(n: nat, buf: array<byte>, at: nat, room: nat, ghost done: bytes) returns (next: nat)
    requires room <= buf.Length && Filled(buf, done, room, at)
    modifies buf
    ensures Filled(buf, done + LengthField(n), room, next)
    ensures OnlyWithin(buf, 0, room)
  {
    hide LengthField, LengthBytes, Upto;
    var _, count := SetTlvLength(n, buf, at, room - at);
    next := at + count;
    assert Filled(buf, done, room, at);
    FilledMore(buf, done, LengthField(n), room, at);
  }

  // ----- The encoder

  lemma PropsTail(props: seq<Property>, items: seq<Json>, i: nat)
    requires i < |items|
    ensures PropsPart(props, items[i..]) == Then(PropPart(props, items[i]), PropsPart(props, items[i + 1..]))
  {
    hide PropPart;
    assert items[i..][1..] == items[i + 1..];
  }

  lemma ThenTwice(a: bytes, b: bytes, o: Outcome)
    ensures Then(Written(a), Then(Written(b), o)) == Then(Written(a + b), o)
  {
    if o.Written? {
      assert a + (b + o.b) == a + b + o.b;
    }
  }

  lemma ThenNothing(o: Outcome)
    ensures Then(Written([]), o) == o
  {
    if o.Written? {
      assert [] + o.b == o.b;
    }
  }

  lemma ThenEnd(a: bytes)
    ensures Then(Written(a), Written([])) == Written(a)
  {
    assert a + [] == a;
  }

  /** The second pass over one module: an index and a zero length for every property. */
  method WriteProps(props: seq<Property>, items: seq<Json>, buf: array<byte>, at: nat, room: nat, ghost done: bytes)
    returns (ok: bool, next: nat)
    requires !PropsPart(props, items).Undefined?
    requires room <= buf.Length && Filled(buf, done, room, at)
    modifies buf
    ensures ok == PropsPart(props, items).Written?
    ensures ok ==> Filled(buf, done + PropsPart(props, items).b, room, next)
    ensures OnlyWithin(buf, 0, room)
  {
    hide FindByName, PropsPart, Filled, LengthField, LengthBytes;
    next := at;
    ghost var mine: bytes := [];
    assert items[0..] == items && done + [] == done;
    ThenNothing(PropsPart(props, items));
    for i := 0 to |items|
      invariant PropsPart(props, items) == Then(Written(mine), PropsPart(props, items[i..]))
      invariant Filled(buf, done + mine, room, next)
      invariant OnlyWithin(buf, 0, room)
    {
      PropsTail(props, items, i);
      if !items[i].Str? {
        return false, next;
      }
      var p := FindByName(props, items[i].s).value;
      ghost var part := [p.index % 256, 0];
      next := PutByte(p.index % 256, buf, next, room, done + mine);
      ghost var half := done + mine + [p.index % 256];
      next := PutLength(0, buf, next, room, half);
      assert half + LengthField(0) == done + (mine + part) by { ZeroField(); }
      ThenTwice(mine, part, PropsPart(props, items[i + 1..]));
      mine := mine + part;
    }
    NoProps(props, items);
    ThenEnd(mine);
    ok := true;
  }

  lemma ZeroField()
    ensures LengthField(0) == [0]
  {
  }

  lemma NoProps(props: seq<Property>, items: seq<Json>)
    ensures PropsPart(props, items[|items|..]) == Written([])
  {
  }

  /** The first pass; None when a member is not a list. */
  method AnnouncedLength(names: seq<string>, m: Members) returns (r: Option<nat>)
    requires names == MemberNames(m.Keys)
    ensures forall k :: k in names <==> k in m
    ensures r == if Lists(m) then Some(Announced(names, m)) else None
  {
    hide MemberNames;
    MemberNamesCover(m.Keys);
    var n: nat := 0;
    for i := 0 to |names|
      invariant forall j :: 0 <= j < i ==> m[names[j]].Arr?
      invariant Lists(m) ==> Announced(names, m) == n + Announced(names[i..], m)
    {
      if !m[names[i]].Arr? {
        return None;
      }
      var propertysSum := 2 * |m[names[i]].items|;
      n := n + 1;
      if propertysSum > 127 {
        n := n + 2;
      } else {
        n := n + 1;
      }
      n := n + propertysSum;
      assert names[i..][1..] == names[i + 1..];
    }
    forall k | k in m
      ensures m[k].Arr?
    {
      assert k in names;
    }
    r := Some(n);
  }

  lemma ModulesTail(model: Model, names: seq<string>, m: Members, i: nat)
    requires Lists(m) && (forall k :: k in names ==> k in m) && i < |names|
    ensures ModulesPart(model, names[i..], m)
            == Then(ModulePart(model, names[i], m[names[i]].items), ModulesPart(model, names[i + 1..], m))
  {
    hide ModulePart;
    assert names[i..][1..] == names[i + 1..];
  }

  /** The second pass: every module with its own length and its properties. */
  method WriteModules(model: Model, names: seq<string>, m: Members, buf: array<byte>, at: nat, room: nat, ghost done: bytes)
    returns (ok: bool, next: nat)
    requires Lists(m) && forall k :: k in names ==> k in m
    requires !ModulesPart(model, names, m).Undefined?
    requires room <= buf.Length && Filled(buf, done, room, at)
    modifies buf
    ensures ok == ModulesPart(model, names, m).Written?
    ensures ok ==> Filled(buf, done + ModulesPart(model, names, m).b, room, next)
    ensures OnlyWithin(buf, 0, room)
  {
    hide FindByName, PropsPart, ModulesPart, Filled, LengthField, LengthBytes;
    next := at;
    ghost var mine: bytes := [];
    assert names[0..] == names && done + [] == done;
    ThenNothing(ModulesPart(model, names, m));
    for i := 0 to |names|
      invariant ModulesPart(model, names, m) == Then(Written(mine), ModulesPart(model, names[i..], m))
      invariant Filled(buf, done + mine, room, next)
      invariant OnlyWithin(buf, 0, room)
    {
      ModulesTail(model, names, m, i);
      ok, next := WriteModule(model, names[i], m[names[i]].items, buf, next, room, done + mine);
      if !ok {
        return;
      }
      ghost var part := ModulePart(model, names[i], m[names[i]].items).b;
      assert done + mine + part == done + (mine + part);
      ThenTwice(mine, part, ModulesPart(model, names[i + 1..], m));
      mine := mine + part;
    }
    NoNames(model, names, m);
    ThenEnd(mine);
    ok := true;
  }

  lemma NoNames(model: Model, names: seq<string>, m: Members)
    requires Lists(m)
    ensures ModulesPart(model, names[|names|..], m) == Written([])
  {
  }

  method WriteModule(model: Model, name: string, items: seq<Json>, buf: array<byte>, at: nat, room: nat, ghost done: bytes)
    returns (ok: bool, next: nat)
    requires !ModulePart(model, name, items).Undefined?
    requires room <= buf.Length && Filled(buf, done, room, at)
    modifies buf
    ensures ok == ModulePart(model, name, items).Written?
    ensures ok ==> Filled(buf, done + ModulePart(model, name, items).b, room, next)
    ensures OnlyWithin(buf, 0, room)
  {
    hide FindByName, PropsPart, Filled, LengthField, LengthBytes;
    var md := FindByName(model, name);
    if md.None? {
      return false, at;
    }
    var t := md.value.index % 256;
    next := PutByte(t, buf, at, room, done);
    next := PutLength(2 * |items|, buf, next, room, done + [t]);
    ghost var head := [t] + LengthField(2 * |items|);
    assert done + [t] + LengthField(2 * |items|) == done + head;
    ok, next := WriteProps(md.value.dataType.props, items, buf, next, room, done + head);
    if ok {
      ghost var body := PropsPart(md.value.dataType.props, items).b;
      assert done + head + body == done + (head + body);
    }
  }

  method WriteType(m: Members, buf: array<byte>, room: nat) returns (ok: bool, count: nat)
    requires room <= buf.Length
    modifies buf
    ensures ok == TypePart(m, room).Some?
    ensures ok ==> count == |TypePart(m, room).value| <= room && Holds(buf, 0, TypePart(m, room).value)
    ensures OnlyWithin(buf, 0, room)
  {
    if !Get(m, "type").IsUInt() {
      return true, 0;
    }
    if room < 3 {
      return false, 0;
    }
    buf[0], buf[1], buf[2] := T_TYPE, 1, m["type"].n % 256;
    return true, 3;
  }

  /** The tag and the length are written before the room for the value is tested. */
  method WriteReqid(s: text, buf: array<byte>, at: nat, room: nat, ghost done: bytes) returns (ok: bool, next: nat)
    requires room <= buf.Length && |done| == at <= room && Filled(buf, done, room, at)
    modifies buf
    ensures ok == ReqidPart(s, room - at).Some?
    ensures ok ==> Filled(buf, done + ReqidPart(s, room - at).value, room, next)
    ensures OnlyWithin(buf, 0, room)
  {
    hide HexPairs, HexBytes, LengthBytes, LengthField, Upto;
    var length := |s| / 2;
    next := PutByte(T_REQID, buf, at, room, done);
    next := PutLength(length, buf, next, room, done + [T_REQID]);
    ghost var head := [T_REQID] + LengthField(length);
    assert done + [T_REQID] + LengthField(length) == done + head;
    HeadEnds(done, head, room, at, next);
    if room < next + length {
      return false, next;
    }
    var n := SchemaBuffers.HexStringToBytes(s, buf, next, room - next);
    ok := n >= 0;
    if ok {
      assert Filled(buf, done + head, room, next);
      WholePart(HexBytes(s), room - next);
      FilledMore(buf, done + head, HexBytes(s), room, next);
      assert done + head + HexBytes(s) == done + (head + HexBytes(s));
      next := next + n;
    }
  }

  lemma WholePart(b: bytes, room: nat)
    requires |b| <= room
    ensures Upto(b, room) == b
  {
  }

  lemma HeadEnds(done: bytes, head: bytes, room: nat, at: nat, next: nat)
    requires |done| == at <= room && next == |Upto(done + head, room)|
    ensures next == if at + |head| <= room then at + |head| else room
  {
  }

  /** getTermConfigReq::j2b: the number of bytes in the buffer, or -1. */
  method WriteRequest(model: Model, m: Members, isAck: bool, buf: array<byte>, room: nat) returns (rc: int)
    requires !J2B(model, m, isAck, room).Undefined?
    requires room <= buf.Length
    modifies buf
    ensures rc == match J2B(model, m, isAck, room) case Written(b) => |Upto(b, room)| case _ => -1
    ensures rc >= 0 ==> J2B(model, m, isAck, room).Written? && rc <= room && buf[..rc] == Upto(J2B(model, m, isAck, room).b, room)
    ensures OnlyWithin(buf, 0, room)
  {
    hide ListPart, TypePart, ReqidPart, LengthField, Holds, Upto;
    if !FlagsPresent(m) {
      return -1;
    }
    if isAck {
      EmptyUpto(room);
      return 0;
    }
    var ok, at := WriteType(m, buf, room);
    if !ok || !Get(m, "reqid").Str? || |m["reqid"].s| % 2 != 0 {
      return -1;
    }
    ghost var first := TypePart(m, room).value;
    WholePart(first, room);
    ok, at := WriteReqid(m["reqid"].s, buf, at, room, first);
    if !ok {
      return -1;
    }
    ghost var head := HeadPart(m, room).value;
    if m["getModuleId"].b {
      at := PutByte(T_MODULE_ID, buf, at, room, head);
      at := PutLength(0, buf, at, room, head + [T_MODULE_ID]);
      assert head + [T_MODULE_ID] + LengthField(0) == head + ([T_MODULE_ID] + LengthField(0));
      HoldsAll(buf, Upto(head + ([T_MODULE_ID] + LengthField(0)), room));
    } else {
      ok, at := WriteList(model, m["getModuleData"], buf, at, room, head);
      if !ok {
        return -1;
      }
      HoldsAll(buf, Upto(head + ListPart(model, m["getModuleData"]).b, room));
    }
    rc := at;
  }

  lemma EmptyUpto(room: nat)
    ensures Upto([], room) == []
  {
  }

  method WriteList(model: Model, data: Json, buf: array<byte>, at: nat, room: nat, ghost done: bytes)
    returns (ok: bool, next: nat)
    requires !ListPart(model, data).Undefined?
    requires room <= buf.Length && Filled(buf, done, room, at)
    modifies buf
    ensures ok == ListPart(model, data).Written?
    ensures ok ==> Filled(buf, done + ListPart(model, data).b, room, next)
    ensures OnlyWithin(buf, 0, room)
  {
    hide ModulesPart, Filled, LengthField, MemberNames, Announced, Lists;
    next := at;
    if !data.Obj? {
      return false, next;
    }
    next := PutByte(T_MODULE_DATA, buf, next, room, done);
    var names := ListMemberNames(data.members);
    var moduleLen := AnnouncedLength(names, data.members);
    if moduleLen.None? {
      return false, next;
    }
    next := PutLength(moduleLen.value, buf, next, room, done + [T_MODULE_DATA]);
    ghost var head := [T_MODULE_DATA] + LengthField(moduleLen.value);
    assert done + [T_MODULE_DATA] + LengthField(moduleLen.value) == done + head;
    ok, next := WriteModules(model, names, data.members, buf, next, room, done + head);
    if ok {
      ghost var body := ModulesPart(model, names, data.members).b;
      assert done + head + body == done + (head + body);
    }
  }

  // ----- Decoder loops

  method ReadProps(props: seq<Property>, name: string, data: bytes, at: nat, length: nat, jm: Members, beyond: Memory)
    returns (r: Members)
    requires PropsFrom(props, name, data, at, length, 0, jm, beyond).Some?
    ensures PropsFrom(props, name, data, at, length, 0, jm, beyond) == Some(r)
  {
    hide FindByIndex, AppendTo;
    r := jm;
    var done := 0;
    while done < length
      invariant PropsFrom(props, name, data, at, length, 0, jm, beyond) == PropsFrom(props, name, data, at, length, done, r, beyond)
      decreases length - done
    {
      var p := FindByIndex(props, At(data, at + done, beyond(at + done)));
      r := AppendTo(r, name, Str(p.value.name));
      done := done + 2;
    }
  }

  method ReadModules(model: Model, data: bytes, start: nat, length: nat, beyond: Memory) returns (r: Members)
    requires ModulesFrom(model, data, start, length, 0, map[], beyond).Some?
    ensures ModulesFrom(model, data, start, length, 0, map[], beyond) == Some(r)
  {
    hide FindByIndex, PropsFrom, GetLength;
    r := map[];
    var done := 0;
    while done < length
      invariant ModulesFrom(model, data, start, length, 0, map[], beyond) == ModulesFrom(model, data, start, length, done, r, beyond)
      decreases length - done
    {
      var t := At(data, start + done, beyond(start + done));
      var moduleLen, count := GetTlvLength(data, start + done + 1, beyond);
      var body := done + 1 + count;
      var md := FindByIndex(model, t);
      if md.Some? {
        r := ReadProps(md.value.dataType.props, md.value.name, data, start + body, moduleLen, r, beyond);
      }
      done := body + moduleLen;
    }
  }

  /** getTermConfigReq::b2j: on an error the members read so far stay in the object. */
  method ReadRequest(model: Model, data: bytes, isAck: bool, m: Members, beyond: Memory) returns (rc: int, r: Members)
    requires B2J(model, data, isAck, m, beyond).Some?
    ensures B2J(model, data, isAck, m, beyond) == Some(Decoded(rc, r))
  {
    hide GetLength, At, ModulesFrom, HexOf, AsValue;
    r := m;
    if isAck {
      return 0, r;
    }
    var offset := 0;
    while offset < |data|
      invariant offset <= |data|
      invariant B2JFrom(model, data, 0, m, beyond) == B2JFrom(model, data, offset, r, beyond)
    {
      var t := data[offset];
      var length, count := GetTlvLength(data, offset + 1, beyond);
      var start := offset + 1 + count;
      var end := start + length;
      if end > |data| {
        return -1, r;
      }
      if t == T_TYPE {
        if length != 1 {
          return -2, r;
        }
        r := r["type" := Int(data[start])];
      } else if t == T_REQID {
        if length > REQID_MAX {
          return -2, r;
        }
        var s := SchemaBuffers.HexText(data[start..end]);
        r := r["reqid" := Str(s)];
      } else if t == T_MODULE_ID {
        r := r["getModuleId" := Bool(true)]["getModuleData" := Null];
      } else if t == T_MODULE_DATA {
        var lists := ReadModules(model, data, start, length, beyond);
        r := r["getModuleId" := Bool(false)]["getModuleData" := AsValue(lists)];
      }
      offset := end;
    }
    rc := 0;
  }
}
