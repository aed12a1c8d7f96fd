/** The get-configuration request on the wire: tags, limits and codes in literals, in both directions. */
module ConfigWire {
  import opened Octets
  import opened Buffers
  import opened JsonValue
  import opened Tlv
  import opened Schema
  import opened ConfigRequest
  import opened ConfigDefined
  import opened ConfigCut

  // ----- What a request looks like

  predicate NamesType(m: Members) {
    "type" in m && m["type"].Int? && 0 <= m["type"].n < 0x1_0000_0000
  }

  predicate NamesRequest(m: Members) {
    && "reqid" in m && m["reqid"].Str? && |m["reqid"].s| % 2 == 0 && HexPairs(m["reqid"].s)
  }

  predicate NamesFlag(m: Members) {
    "getModuleId" in m && m["getModuleId"].Bool? && "getModuleData" in m
  }

  /** The index of each property, in one byte, and a zero behind it. */
  function Pairs(props: seq<Property>, items: seq<Json>): (b: bytes)
    requires AllKnown(props, items)
    ensures |b| == 2 * |items|
  {
    seq(2 * |items|, i requires 0 <= i < 2 * |items| =>
      assert KnownName(props, items[i / 2]);
      if i % 2 == 0 then FindByName(props, items[i / 2].s).value.index % 256 else 0)
  }

  /** One TLV for each module, under its index. */
  function ModuleTlv(model: Model, name: string, items: seq<Json>): Tlv
    requires SoundModule(model, name, items)
  {
    var md := FindByName(model, name).value;
    Tlv(md.index % 256, Pairs(md.dataType.props, items))
  }

  predicate AllSound(model: Model, names: seq<string>, m: Members)
    requires forall k :: k in names ==> k in m
  {
    forall i :: 0 <= i < |names| ==> m[names[i]].Arr? && SoundModule(model, names[i], m[names[i]].items)
  }

  function ModuleTlvs(model: Model, names: seq<string>, m: Members): (ts: seq<Tlv>)
    requires (forall k :: k in names ==> k in m) && AllSound(model, names, m)
    ensures |ts| == |names|
  {
    seq(|names|, i requires 0 <= i < |names| => ModuleTlv(model, names[i], m[names[i]].items))
  }

  /** The list of modules and properties, in the order of the module names. */
  ghost predicate NamesModules(model: Model, j: Json) {
    j.Obj? && (MemberNamesCover(j.members.Keys); AllSound(model, MemberNames(j.members.Keys), j.members))
  }

  ghost predicate RequestFormed(model: Model, m: Members) {
    NamesFlag(m) && NamesRequest(m) && (m["getModuleId"].b || NamesModules(model, m["getModuleData"]))
  }

  ghost function ListTlvs(model: Model, j: Json): seq<Tlv>
    requires NamesModules(model, j)
  {
    MemberNamesCover(j.members.Keys);
    ModuleTlvs(model, MemberNames(j.members.Keys), j.members)
  }

  /** Tag 1 for the type, if there is one, 2 for the id, and 3 without a value or 4 with the list. */
  ghost function RequestTlvs(model: Model, m: Members): seq<Tlv>
    requires RequestFormed(model, m)
  {
    (if NamesType(m) then [Tlv(1, [m["type"].n % 256])] else [])
    + [Tlv(2, HexBytes(m["reqid"].s)),
       if m["getModuleId"].b then Tlv(3, []) else Tlv(4, Serialize(ListTlvs(model, m["getModuleData"])))]
  }

  // ----- The encoder

  lemma {:induction false} PropsWritten(props: seq<Property>, items: seq<Json>)
    requires AllKnown(props, items)
    ensures PropsPart(props, items) == Written(Pairs(props, items))
  {
    hide FindByName;
    if items != [] {
      assert forall i :: 0 <= i < |items[1..]| ==> items[1..][i] == items[i + 1];
      assert KnownName(props, items[0]);
      assert AllKnown(props, items[1..]) by {
        forall i | 0 <= i < |items[1..]| ensures KnownName(props, items[1..][i]) { assert KnownName(props, items[i + 1]); }
      }
      PropsWritten(props, items[1..]);
      var b, rest := Pairs(props, items), Pairs(props, items[1..]);
      assert b == [FindByName(props, items[0].s).value.index % 256, 0] + rest by {
        forall i | 2 <= i < |b| ensures b[i] == rest[i - 2] {
          assert (i - 2) / 2 == i / 2 - 1 && (i - 2) % 2 == i % 2;
        }
      }
    }
  }

  lemma ModuleWritten(model: Model, name: string, items: seq<Json>)
    requires SoundModule(model, name, items) && 2 * |items| < 0x4000
    ensures ModulePart(model, name, items) == Written(Frame(ModuleTlv(model, name, items)))
  {
    hide FindByName, AllKnown, Pairs, PropsPart, LengthField, Frame;
    var md := FindByName(model, name).value;
    PropsWritten(md.dataType.props, items);
    FieldSize(2 * |items|);
    FrameLength(ModuleTlv(model, name, items));
  }

  lemma {:induction false} ModulesWritten(model: Model, names: seq<string>, m: Members)
    requires Lists(m) && (forall k :: k in names ==> k in m) && AllSound(model, names, m)
    requires forall i :: 0 <= i < |names| ==> 2 * |m[names[i]].items| < 0x4000
    ensures ModulesPart(model, names, m) == Written(Serialize(ModuleTlvs(model, names, m)))
  {
    hide SoundModule, ModuleTlv, ModulePart, Frame;
    if names == [] {
      SerializeNone();
    } else {
      ModuleWritten(model, names[0], m[names[0]].items);
      ModulesWritten(model, names[1..], m);
      assert ModuleTlvs(model, names, m)[1..] == ModuleTlvs(model, names[1..], m);
    }
  }

  lemma {:induction false} ModulesAccepted(model: Model, names: seq<string>, m: Members)
    requires Lists(m) && forall k :: k in names ==> k in m
    ensures ModulesPart(model, names, m).Written? <==> AllSound(model, names, m)
  {
    hide SoundModule, ModulePart;
    if names != [] {
      ModuleOutcome(model, names[0], m[names[0]].items);
      ModulesAccepted(model, names[1..], m);
      assert forall i :: 0 <= i < |names[1..]| ==> names[1..][i] == names[i + 1];
      assert forall i :: 0 < i < |names| ==> names[i] == names[1..][i - 1];
    }
  }

  lemma ListsNamed(m: Members)
    ensures (forall k :: k in MemberNames(m.Keys) ==> k in m)
    ensures Lists(m) <==> forall i :: 0 <= i < |MemberNames(m.Keys)| ==> m[MemberNames(m.Keys)[i]].Arr?
  {
    hide MemberNames;
    MemberNamesCover(m.Keys);
    ListedNames(MemberNames(m.Keys), m);
  }

  lemma ListedNames(names: seq<string>, m: Members)
    requires forall k :: k in names <==> k in m
    ensures Lists(m) <==> forall i :: 0 <= i < |names| ==> m[names[i]].Arr?
  {
    if forall i :: 0 <= i < |names| ==> m[names[i]].Arr? {
      forall k | k in m ensures m[k].Arr? {
        assert k in names;
      }
    }
    if Lists(m) {
      forall i | 0 <= i < |names| ensures m[names[i]].Arr? {
        assert names[i] in m;
      }
    }
  }

  lemma ListAccepted(model: Model, j: Json)
    ensures ListPart(model, j).Written? <==> NamesModules(model, j)
    ensures ListPart(model, j).Written? ==> Lists(j.members)
  {
    hide ModulesPart, LengthField, Announced, SoundModule, AllSound, Lists, MemberNames;
    if j.Obj? {
      ListsNamed(j.members);
      if Lists(j.members) {
        ModulesAccepted(model, MemberNames(j.members.Keys), j.members);
      } else {
        SoundAreLists(model, MemberNames(j.members.Keys), j.members);
      }
    }
  }

  lemma SoundAreLists(model: Model, names: seq<string>, m: Members)
    requires forall k :: k in names ==> k in m
    ensures AllSound(model, names, m) ==> forall i :: 0 <= i < |names| ==> m[names[i]].Arr?
  {
  }

  /** The room of the type and of the id; the id's is tested only if it has a byte. */
  predicate HeadFits(m: Members, room: nat)
    requires NamesRequest(m)
  {
    var n := |m["reqid"].s| / 2;
    && (NamesType(m) ==> room >= 3)
    && (n > 0 ==> room >= (if NamesType(m) then 3 else 0) + 1 + |LengthField(n)| + n)
  }

  lemma HeadAccepted(m: Members, room: nat)
    ensures HeadPart(m, room).Some? <==> NamesRequest(m) && HeadFits(m, room)
  {
    hide HexBytes, LengthField, HexPairs;
  }

  /** Which requests are accepted: those of the right form whose type and id fit.  The rest is cut off in silence. */
  lemma WrittenExactly(model: Model, m: Members, room: nat)
    ensures J2B(model, m, false, room).Written? <==> RequestFormed(model, m) && HeadFits(m, room)
    ensures J2B(model, m, true, room) == if NamesFlag(m) then Written([]) else Failed
  {
    hide HeadPart, ListPart, LengthField, NamesModules, HexPairs;
    HeadAccepted(m, room);
    if NamesFlag(m) {
      ListAccepted(model, m["getModuleData"]);
    }
  }

  lemma HeadIs(m: Members, room: nat)
    requires HeadPart(m, room).Some? && NamesRequest(m) && |m["reqid"].s| / 2 <= 16
    ensures HeadPart(m, room).value ==
            (if NamesType(m) then Frame(Tlv(1, [m["type"].n % 256])) else []) + Frame(Tlv(2, HexBytes(m["reqid"].s)))
  {
    hide ReqidPart, Frame, HexBytes, HexPairs;
    if NamesType(m) {
      TypeFrame(m, room);
    }
    ReqidFrame(m["reqid"].s, room - |TypePart(m, room).value|);
  }

  /** Ids of up to 16 bytes, lists below 2^13 names and a list part below 2^14 bytes. */
  ghost predicate WithinLimits(model: Model, m: Members)
    requires RequestFormed(model, m)
  {
    && |m["reqid"].s| / 2 <= 16
    && (!m["getModuleId"].b ==>
          && (forall k :: k in m["getModuleData"].members ==> m["getModuleData"].members[k].Arr? && |m["getModuleData"].members[k].items| < 0x2000)
          && |Serialize(ListTlvs(model, m["getModuleData"]))| < 0x4000)
  }

  lemma ListWritten(model: Model, j: Json)
    requires NamesModules(model, j) && Lists(j.members)
    requires forall k :: k in j.members ==> |j.members[k].items| < 0x2000
    requires |Serialize(ListTlvs(model, j))| < 0x4000
    ensures ListPart(model, j) == Written(Frame(Tlv(4, Serialize(ListTlvs(model, j)))))
  {
    hide ModulesPart, LengthField, LengthBytes, Announced, SoundModule, ModuleTlv, Serialize;
    var names := MemberNames(j.members.Keys);
    MemberNamesCover(j.members.Keys);
    forall i | 0 <= i < |names| ensures 2 * |j.members[names[i]].items| < 0x4000 {
      assert names[i] in j.members;
    }
    ModulesWritten(model, names, j.members);
    TwoPassLength(model, names, j.members);
    var b := Serialize(ListTlvs(model, j));
    FieldSize(|b|);
    FrameLength(Tlv(4, b));
  }

  lemma SerializeJoin(a: seq<Tlv>, b: Tlv, c: Tlv)
    ensures Serialize(a + [b, c]) == Serialize(a) + Frame(b) + Frame(c)
  {
    hide Frame;
    SerializeOne(b);
    SerializeOne(c);
    SerializeAppend([b], [c]);
    assert [b] + [c] == [b, c];
    SerializeAppend(a, [b, c]);
    assert Serialize(a) + (Frame(b) + Frame(c)) == Serialize(a) + Frame(b) + Frame(c);
  }

  lemma FlagTlv()
    ensures [T_MODULE_ID] + LengthField(0) == Frame(Tlv(3, []))
  {
  }

  /** An accepted request within the limits is written as its TLVs, and a walk over the bytes finds them. */
  lemma WrittenAs(model: Model, m: Members, room: nat)
    requires J2B(model, m, false, room).Written? && RequestFormed(model, m) && WithinLimits(model, m)
    ensures J2B(model, m, false, room).b == Serialize(RequestTlvs(model, m))
    ensures Parse(J2B(model, m, false, room).b) == RequestTlvs(model, m)
  {
    hide HeadPart, ListPart, LengthField, NamesModules, HexPairs, Serialize, Frame, ListTlvs, HexBytes;
    HeadIs(m, room);
    var ts := RequestTlvs(model, m);
    var typed := if NamesType(m) then [Tlv(1, [m["type"].n % 256])] else [];
    var last := ts[|ts| - 1];
    SerializeJoin(typed, Tlv(2, HexBytes(m["reqid"].s)), last);
    TypedBytes(m);
    if m["getModuleId"].b {
      FlagTlv();
    } else {
      ListAccepted(model, m["getModuleData"]);
      ListWritten(model, m["getModuleData"]);
    }
    ParseWhole(ts);
  }

  lemma TypedBytes(m: Members)
    ensures Serialize(if NamesType(m) then [Tlv(1, [m["type"].n % 256])] else [])
            == if NamesType(m) then Frame(Tlv(1, [m["type"].n % 256])) else []
  {
    hide Frame;
    if NamesType(m) {
      SerializeOne(Tlv(1, [m["type"].n % 256]));
    } else {
      SerializeNone();
    }
  }

  /** ... and a walk over the list finds the modules. */
  lemma ListWalked(model: Model, j: Json)
    requires NamesModules(model, j) && Lists(j.members)
    requires forall k :: k in j.members ==> |j.members[k].items| < 0x2000
    ensures Parse(Serialize(ListTlvs(model, j))) == ListTlvs(model, j)
  {
    hide Serialize, Parse, SoundModule;
    var names := MemberNames(j.members.Keys);
    MemberNamesCover(j.members.Keys);
    forall i | 0 <= i < |names| ensures |ListTlvs(model, j)[i].body| < LENGTH_LIMIT {
      assert names[i] in j.members;
    }
    ParseWhole(ListTlvs(model, j));
  }

  // ----- The decoder

  /** What the decoder makes of a TLV at any position, whoever wrote it. */
  lemma TlvDecoded(model: Model, data: bytes, offset: nat, t: Tlv, rest: bytes, m: Members, beyond: Memory)
    requires |t.body| < 0x4000 && offset <= |data| && data[offset..] == Frame(t) + rest
    ensures var d := B2JFrom(model, data, offset, m, beyond);
            var next := |data| - |rest|;
            && 0 <= next && data[next..] == rest
            && (t.tag == 1 ==> d == if |t.body| != 1 then Some(Decoded(-2, m))
                                    else B2JFrom(model, data, next, m["type" := Int(t.body[0])], beyond))
            && (t.tag == 2 ==> d == if |t.body| > 16 then Some(Decoded(-2, m))
                                    else B2JFrom(model, data, next, m["reqid" := Str(HexOf(t.body))], beyond))
            && (t.tag == 3 ==> d == B2JFrom(model, data, next, m["getModuleId" := Bool(true)]["getModuleData" := Null], beyond))
            && (t.tag !in {1, 2, 3, 4} ==> d == B2JFrom(model, data, next, m, beyond))
  {
    hide HeaderAt, Frame, ModulesFrom, HexOf;
    FrameAt(data, offset, t, rest, beyond);
    var h := HeaderAt(data, offset + 1, beyond);
    assert |data[offset + 1 + h.count + h.length..]| == |rest|;
  }

  /** The names of the properties whose indices stand at the even positions; None if there is one without a property. */
  function ListRead(props: seq<Property>, name: string, b: bytes, jm: Members): Option<Members>
    decreases |b|
  {
    if b == [] then Some(jm) else
      var p := FindByIndex(props, b[0]);
      if p.None? then None
      else ListRead(props, name, if |b| < 2 then [] else b[2..], AppendTo(jm, name, Str(p.value.name)))
  }

  lemma {:induction false} PropsLoop(props: seq<Property>, name: string, data: bytes, at: nat, length: nat, done: nat, jm: Members,
                                     beyond: Memory)
    requires at + length <= |data| && done <= length
    ensures PropsFrom(props, name, data, at, length, done, jm, beyond) == ListRead(props, name, data[at + done..at + length], jm)
    decreases length - done
  {
    hide FindByIndex, AppendTo;
    var b := data[at + done..at + length];
    if done < length {
      assert b[0] == data[at + done];
      var p := FindByIndex(props, b[0]);
      if p.Some? {
        var more := AppendTo(jm, name, Str(p.value.name));
        if done + 2 <= length {
          assert b[2..] == data[at + (done + 2)..at + length];
          PropsLoop(props, name, data, at, length, done + 2, more, beyond);
        }
      }
    }
  }

  /** The modules one after another; an unknown one is passed over. */
  function ModulesRead(model: Model, ts: seq<Tlv>, jm: Members): Option<Members>
    decreases |ts|
  {
    if ts == [] then Some(jm) else
      var md := FindByIndex(model, ts[0].tag);
      var r := if md.None? then Some(jm) else ListRead(md.value.dataType.props, md.value.name, ts[0].body, jm);
      if r.None? then None else ModulesRead(model, ts[1..], r.value)
  }

  lemma ModulesTurn(model: Model, t: Tlv, data: bytes, start: nat, length: nat, done: nat, rest: bytes, jm: Members, beyond: Memory)
    requires |t.body| < 0x4000 && done < length
    requires start + done <= |data| && data[start + done..] == Frame(t) + rest
    ensures var next := done + |Frame(t)|;
            var md := FindByIndex(model, t.tag);
            var r := if md.None? then Some(jm) else ListRead(md.value.dataType.props, md.value.name, t.body, jm);
            && start + next <= |data| && data[start + next..] == rest
            && ModulesFrom(model, data, start, length, done, jm, beyond)
               == if r.None? then None else ModulesFrom(model, data, start, length, next, r.value, beyond)
  {
    hide HeaderAt, Frame, PropsFrom, FindByIndex, LengthBytes, ListRead;
    FrameAt(data, start + done, t, rest, beyond);
    FrameLength(t);
    var body := done + 1 + HeaderAt(data, start + done + 1, beyond).count;
    var md := FindByIndex(model, t.tag);
    if md.Some? {
      PropsLoop(md.value.dataType.props, md.value.name, data, start + body, |t.body|, 0, jm, beyond);
    }
  }

  lemma {:induction false} ModulesLoop(model: Model, ts: seq<Tlv>, data: bytes, start: nat, length: nat, done: nat, rest: bytes,
                                       jm: Members, beyond: Memory)
    requires Short(ts) && start + done <= |data| && data[start + done..] == Serialize(ts) + rest
    requires length == done + |Serialize(ts)|
    ensures ModulesFrom(model, data, start, length, done, jm, beyond) == ModulesRead(model, ts, jm)
    decreases |ts|
  {
    hide Frame, FindByIndex, ListRead, ModulesFrom;
    if ts == [] {
      SerializeNone();
      ModulesEnd(model, data, start, length, jm, beyond);
    } else {
      var tail := Serialize(ts[1..]) + rest;
      assert Serialize(ts) + rest == Frame(ts[0]) + tail;
      ModulesTurn(model, ts[0], data, start, length, done, tail, jm, beyond);
      var md := FindByIndex(model, ts[0].tag);
      var r := if md.None? then Some(jm) else ListRead(md.value.dataType.props, md.value.name, ts[0].body, jm);
      if r.Some? {
        ModulesLoop(model, ts[1..], data, start, length, done + |Frame(ts[0])|, rest, r.value, beyond);
      }
    }
  }

  lemma ModulesEnd(model: Model, data: bytes, start: nat, length: nat, jm: Members, beyond: Memory)
    ensures ModulesFrom(model, data, start, length, length, jm, beyond) == Some(jm)
  {
  }

  /** Tag 4 replaces both members by the list it holds; null when it holds no property. */
  lemma ListDecoded(model: Model, ts: seq<Tlv>, data: bytes, offset: nat, rest: bytes, m: Members, beyond: Memory)
    requires Short(ts) && |Serialize(ts)| < 0x4000
    requires offset <= |data| && data[offset..] == Frame(Tlv(4, Serialize(ts))) + rest
    ensures var r := ModulesRead(model, ts, map[]);
            B2JFrom(model, data, offset, m, beyond) ==
            if r.None? then None else
            B2JFrom(model, data, |data| - |rest|,
                    m["getModuleId" := Bool(false)]["getModuleData" := if r.value == map[] then Null else Obj(r.value)], beyond)
  {
    hide HeaderAt, Frame, ModulesFrom, HexOf, ModulesRead, Serialize;
    var t := Tlv(4, Serialize(ts));
    FrameAt(data, offset, t, rest, beyond);
    var h := HeaderAt(data, offset + 1, beyond);
    var start := offset + 1 + h.count;
    assert data[start..] == data[start..start + h.length] + data[start + h.length..];
    ModulesLoop(model, ts, data, start, h.length, 0, rest, map[], beyond);
    assert |data[start + h.length..]| == |rest|;
  }

  /** A TLV that announces more than there is: -1, with what was read before. */
  lemma RequestOverrun(model: Model, data: bytes, offset: nat, p: bytes, m: Members, beyond: Memory)
    requires offset <= |data| && data[offset..] == p && |p| >= 3
    requires var h := GetLength(p[1], p[2]); 1 + h.count + h.length > |p|
    ensures B2JFrom(model, data, offset, m, beyond) == Some(Decoded(-1, m))
  {
    hide GetLength, ModulesFrom;
    assert p[1] == data[offset + 1] && p[2] == data[offset + 2];
  }

  /** The end of the data: 0. */
  lemma RequestEnd(model: Model, data: bytes, m: Members, beyond: Memory)
    ensures B2JFrom(model, data, |data|, m, beyond) == Some(Decoded(0, m))
    ensures B2J(model, data, false, m, beyond) == B2JFrom(model, data, 0, m, beyond)
    ensures B2J(model, data, true, m, beyond) == Some(Decoded(0, m))
  {
  }
}
