/**
 The get-configuration request (topic 4, command 1): a list of module and property names.  The
 length of the whole list is summed in a first pass and the list written in a second one.
 */
module ConfigRequest {
  import opened Octets
  import opened Buffers
  import opened JsonValue
  import opened Tlv
  import opened Schema

  const T_TYPE: byte := 1
  const T_REQID: byte := 2
  const T_MODULE_ID: byte := 3
  const T_MODULE_DATA: byte := 4

  const REQID_MAX := 16

  /** A module is a named, indexed struct of properties. */
  type Model = ms: seq<Property> | IsModel(ms)

  predicate IsModel(ms: seq<Property>) {
    forall p :: p in ms ==> p.dataType.StructType?
  }

  // ----- The encoder

  /** Undefined: a property name the module does not have is dereferenced as a null pointer. */
  datatype Outcome = Failed | Undefined | Written(b: bytes)

  function Then(a: Outcome, b: Outcome): Outcome {
    if a.Written? && b.Written? then Written(a.b + b.b) else if a.Written? then b else a
  }

  function PropPart(props: seq<Property>, item: Json): Outcome {
    if !item.Str? then Failed else
      var p := FindByName(props, item.s);
      if p.None? then Undefined else Written([p.value.index % 256, 0])
  }

  /** A property is its index and an empty value. */
  function PropsPart(props: seq<Property>, items: seq<Json>): Outcome {
    if items == [] then Written([]) else Then(PropPart(props, items[0]), PropsPart(props, items[1..]))
  }

  function ModulePart(model: Model, name: string, items: seq<Json>): Outcome {
    var md := FindByName(model, name);
    if md.None? then Failed else
      Then(Written([md.value.index % 256] + LengthField(2 * |items|)), PropsPart(md.value.dataType.props, items))
  }

  predicate Lists(m: Members) {
    forall k :: k in m ==> m[k].Arr?
  }

  function ModulesPart(model: Model, names: seq<string>, m: Members): Outcome
    requires Lists(m) && forall k :: k in names ==> k in m
  {
    if names == [] then Written([]) else
      Then(ModulePart(model, names[0], m[names[0]].items), ModulesPart(model, names[1..], m))
  }

  function AnnouncedOne(count: nat): nat {
    1 + (if 2 * count > 127 then 2 else 1) + 2 * count
  }

  /** The first pass: what the second one is going to write, counted without writing it. */
  function Announced(names: seq<string>, m: Members): nat
    requires Lists(m) && forall k :: k in names ==> k in m
  {
    if names == [] then 0 else AnnouncedOne(|m[names[0]].items|) + Announced(names[1..], m)
  }

  function TypePart(m: Members, room: nat): Option<bytes> {
    if !Get(m, "type").IsUInt() then Some([])
    else if room < 3 then None
    else Some([T_TYPE, 1, m["type"].n % 256])
  }

  function ReqidPart(s: text, room: int): Option<bytes> {
    var head := [T_REQID] + LengthField(|s| / 2);
    if |s| >= 2 && room < |head| + |s| / 2 then None
    else if !HexPairs(s) then None
    else Some(head + HexBytes(s))
  }

  predicate FlagsPresent(m: Members) {
    Get(m, "getModuleId").Bool? && "getModuleData" in m
  }

  function HeadPart(m: Members, room: nat): Option<bytes> {
    var a := TypePart(m, room);
    if a.None? || !Get(m, "reqid").Str? || |m["reqid"].s| % 2 != 0 then None else
      var b := ReqidPart(m["reqid"].s, room - |a.value|);
      if b.None? then None else Some(a.value + b.value)
  }

  ghost function ListPart(model: Model, data: Json): Outcome {
    if !data.Obj? || !Lists(data.members) then Failed else
      var names := MemberNames(data.members.Keys);
      MemberNamesCover(data.members.Keys);
      Then(Written([T_MODULE_DATA] + LengthField(Announced(names, data.members))), ModulesPart(model, names, data.members))
  }

  /** The bytes meant to be written; what exceeds the room is cut off without an error. */
  ghost function J2B(model: Model, m: Members, isAck: bool, room: nat): Outcome {
    if !FlagsPresent(m) then Failed
    else if isAck then Written([])
    else
      var head := HeadPart(m, room);
      if head.None? then Failed
      else if m["getModuleId"].b then Written(head.value + ([T_MODULE_ID] + LengthField(0)))
      else Then(Written(head.value), ListPart(model, m["getModuleData"]))
  }

  // ----- The two passes

  /** The summed length is the length written exactly when every list has fewer than 2^13 names. */
  lemma {:induction false} TwoPassLength(model: Model, names: seq<string>, m: Members)
    requires Lists(m) && forall k :: k in names ==> k in m
    requires ModulesPart(model, names, m).Written?
    ensures |ModulesPart(model, names, m).b| >= Announced(names, m)
    ensures |ModulesPart(model, names, m).b| == Announced(names, m) <==>
            forall k :: k in names ==> 2 * |m[k].items| < LENGTH_LIMIT
  {
    hide ModulePart, AnnouncedOne;
    if names != [] {
      TwoPassLength(model, names[1..], m);
      ModuleLength(model, names[0], m[names[0]].items);
    }
  }

  lemma ModuleLength(model: Model, name: string, items: seq<Json>)
    requires ModulePart(model, name, items).Written?
    ensures |ModulePart(model, name, items).b| >= AnnouncedOne(|items|)
    ensures |ModulePart(model, name, items).b| == AnnouncedOne(|items|) <==> 2 * |items| < LENGTH_LIMIT
  {
    hide LengthBytes, PropsPart, FindByName;
    PropsLength(FindByName(model, name).value.dataType.props, items);
    FieldSize(2 * |items|);
  }

  lemma FieldSize(n: nat)
    ensures |LengthField(n)| == if n < 128 then 1 else if n < LENGTH_LIMIT then 2 else 3
    ensures n < LENGTH_LIMIT ==> LengthField(n) == LengthBytes(n)
  {
    if n >= LENGTH_LIMIT {
      assert |LengthBytes(n / 128)| == 1 + |LengthBytes(n / 128 / 128)|;
    } else {
      LengthBytesSmall(n);
    }
  }

  /** What stands in the buffer for each property. */
  lemma {:induction false} PropsLength(props: seq<Property>, items: seq<Json>)
    requires PropsPart(props, items).Written?
    ensures |PropsPart(props, items).b| == 2 * |items|
    ensures forall k :: 0 <= k < |items| ==>
              && items[k].Str? && FindByName(props, items[k].s).Some?
              && PropsPart(props, items).b[2 * k] == FindByName(props, items[k].s).value.index % 256
  {
    hide FindByName;
    if items != [] {
      PropsLength(props, items[1..]);
      var b, rest := PropsPart(props, items).b, PropsPart(props, items[1..]).b;
      assert b == PropPart(props, items[0]).b + rest;
      forall k | 0 <= k < |items|
        ensures items[k].Str? && FindByName(props, items[k].s).Some?
        ensures b[2 * k] == FindByName(props, items[k].s).value.index % 256
      {
        if k > 0 {
          assert items[k] == items[1..][k - 1];
          assert b[2 * k] == rest[2 * (k - 1)];
        }
      }
    }
  }

  // ----- The decoder

  datatype Decoded = Decoded(rc: int, m: Members)

  /** The names of the properties in one module's value; None is the null dereference. */
  function PropsFrom(props: seq<Property>, name: string, data: bytes, at: nat, length: nat, done: nat, jm: Members,
                     beyond: Memory): Option<Members>
    decreases length - done
  {
    if done >= length then Some(jm) else
      var p := FindByIndex(props, At(data, at + done, beyond(at + done)));
      if p.None? then None else
        PropsFrom(props, name, data, at, length, done + 2, AppendTo(jm, name, Str(p.value.name)), beyond)
  }

  /** The modules of the list whose value starts at `start`; an unknown module is skipped. */
  function ModulesFrom(model: Model, data: bytes, start: nat, length: nat, done: nat, jm: Members, beyond: Memory): Option<Members>
    decreases length - done
  {
    if done >= length then Some(jm) else
      var h := HeaderAt(data, start + done + 1, beyond);
      var body := done + 1 + h.count;
      var md := FindByIndex(model, At(data, start + done, beyond(start + done)));
      var r := if md.None? then Some(jm)
               else PropsFrom(md.value.dataType.props, md.value.name, data, start + body, h.length, 0, jm, beyond);
      if r.None? then None else ModulesFrom(model, data, start, length, body + h.length, r.value, beyond)
  }

  function B2JFrom(model: Model, data: bytes, offset: nat, m: Members, beyond: Memory): Option<Decoded>
    requires offset <= |data|
    decreases |data| - offset
  {
    if offset == |data| then Some(Decoded(0, m)) else
      var t := data[offset];
      var h := HeaderAt(data, offset + 1, beyond);
      var start := offset + 1 + h.count;
      var end := start + h.length;
      if end > |data| then Some(Decoded(-1, m))
      else if t == T_TYPE then
        if h.length != 1 then Some(Decoded(-2, m))
        else B2JFrom(model, data, end, m["type" := Int(data[start])], beyond)
      else if t == T_REQID then
        if h.length > REQID_MAX then Some(Decoded(-2, m))
        else B2JFrom(model, data, end, m["reqid" := Str(HexOf(data[start..end]))], beyond)
      else if t == T_MODULE_ID then
        B2JFrom(model, data, end, m["getModuleId" := Bool(true)]["getModuleData" := Null], beyond)
      else if t == T_MODULE_DATA then
        var r := ModulesFrom(model, data, start, h.length, 0, map[], beyond);
        if r.None? then None
        else B2JFrom(model, data, end, m["getModuleId" := Bool(false)]["getModuleData" := AsValue(r.value)], beyond)
      else B2JFrom(model, data, end, m, beyond)
  }

  function B2J(model: Model, data: bytes, isAck: bool, m: Members, beyond: Memory): Option<Decoded> {
    if isAck then Some(Decoded(0, m)) else B2JFrom(model, data, 0, m, beyond)
  }

  // ----- Reading back one module

  function WithList(jm: Members, name: string, items: seq<Json>): Members {
    if items == [] then jm else jm[name := Arr(items)]
  }

  lemma WithListSnoc(jm: Members, name: string, items: seq<Json>, i: nat)
    requires name !in jm && i < |items|
    ensures AppendTo(WithList(jm, name, items[..i]), name, items[i]) == WithList(jm, name, items[..i + 1])
  {
    assert items[..i + 1] == items[..i] + [items[i]];
  }

  lemma {:induction false} PropsReadBack(props: seq<Property>, name: string, data: bytes, at: nat, items: seq<Json>, i: nat,
                                         jm: Members, beyond: Memory)
    requires DistinctProps(props) && name !in jm
    requires PropsPart(props, items).Written?
    requires at + 2 * |items| <= |data| && data[at..at + 2 * |items|] == PropsPart(props, items).b
    requires i <= |items|
    ensures PropsFrom(props, name, data, at, 2 * |items|, 2 * i, WithList(jm, name, items[..i]), beyond)
            == Some(WithList(jm, name, items))
    decreases |items| - i
  {
    hide PropsPart, WithList, AppendTo, FindByName, FindByIndex, DistinctProps;
    if i == |items| {
      assert items[..i] == items;
    } else {
      PropsLength(props, items);
      var p := FindByName(props, items[i].s).value;
      assert data[at + 2 * i] == data[at..at + 2 * |items|][2 * i] == p.index % 256;
      PropFound(props, p);
      WithListSnoc(jm, name, items, i);
      PropsReadBack(props, name, data, at, items, i + 1, jm, beyond);
    }
  }

  lemma PropFound(props: seq<Property>, p: Property)
    requires DistinctProps(props) && p in props
    ensures FindByIndex(props, p.index % 256) == Some(p)
  {
    FindByIndexComplete(props, p);
  }

  function Declared(model: Model, name: string): Property
    requires FindByName(model, name).Some?
  {
    FindByName(model, name).value
  }

  /** A module is written as one TLV under its index. */
  lemma ModuleIsTlv(model: Model, name: string, items: seq<Json>)
    requires WellFormed(StructType(model)) && ModulePart(model, name, items).Written? && 2 * |items| < LENGTH_LIMIT
    ensures FindByName(model, name).Some?
    ensures var md := Declared(model, name);
            var body := PropsPart(md.dataType.props, items);
            && md in model && md.name == name && DistinctProps(md.dataType.props)
            && 0 <= md.index < 256 && FindByIndex(model, md.index) == Some(md)
            && body.Written? && |body.b| == 2 * |items|
            && ModulePart(model, name, items).b == Frame(Tlv(md.index, body.b))
  {
    hide FindByName, FindByIndex, LengthField, PropsPart, Frame, DistinctProps;
    var md := FindByName(model, name).value;
    PropsLength(md.dataType.props, items);
    FieldSize(2 * |items|);
    IndexBound(model, md);
    FrameLength(Tlv(md.index, PropsPart(md.dataType.props, items).b));
    PropFound(model, md);
  }

  /** One turn of the loop over modules, at a TLV of a known module. */
  lemma ModuleTurn(model: Model, md: Property, t: Tlv, data: bytes, start: nat, length: nat, done: nat, rest: bytes,
                   jm: Members, beyond: Memory)
    requires FindByIndex(model, t.tag) == Some(md) && md.dataType.StructType?
    requires |t.body| < LENGTH_LIMIT && done < length
    requires start + done <= |data| && data[start + done..] == Frame(t) + rest
    ensures var at := start + done + 1 + |LengthBytes(|t.body|)|;
            var next := done + |Frame(t)|;
            var r := PropsFrom(md.dataType.props, md.name, data, at, |t.body|, 0, jm, beyond);
            && at + |t.body| <= |data| && data[at..at + |t.body|] == t.body
            && start + next <= |data| && data[start + next..] == rest
            && (r.Some? ==> ModulesFrom(model, data, start, length, done, jm, beyond)
                            == ModulesFrom(model, data, start, length, next, r.value, beyond))
  {
    hide HeaderAt, Frame, PropsFrom, FindByIndex, LengthBytes;
    FrameAt(data, start + done, t, rest, beyond);
    FrameLength(t);
  }

  /** One module of the list, read where it was written. */
  lemma ModuleStep(model: Model, name: string, items: seq<Json>, data: bytes, start: nat, length: nat, done: nat,
                   rest: bytes, jm: Members, beyond: Memory)
    requires WellFormed(StructType(model)) && name !in jm
    requires ModulePart(model, name, items).Written? && 2 * |items| < LENGTH_LIMIT
    requires start + done <= |data| && data[start + done..] == ModulePart(model, name, items).b + rest
    requires done < length
    ensures var next := done + |ModulePart(model, name, items).b|;
            && start + next <= |data| && data[start + next..] == rest
            && ModulesFrom(model, data, start, length, done, jm, beyond)
               == ModulesFrom(model, data, start, length, next, WithList(jm, name, items), beyond)
  {
    hide *;
    ModuleIsTlv(model, name, items);
    var md := Declared(model, name);
    ModuleKind(model, md);
    var body := PropsPart(md.dataType.props, items).b;
    var t := Tlv(md.index, body);
    ModuleTurn(model, md, t, data, start, length, done, rest, jm, beyond);
    NothingListed(jm, name, items);
    PropsReadBack(md.dataType.props, name, data, start + done + 1 + |LengthBytes(|body|)|, items, 0, jm, beyond);
  }

  lemma ModuleKind(model: Model, md: Property)
    requires md in model
    ensures md.dataType.StructType?
  {
  }

  lemma IndexBound(props: seq<Property>, p: Property)
    requires DistinctProps(props) && p in props
    ensures 0 <= p.index < 256
  {
  }

  lemma NothingListed(jm: Members, name: string, items: seq<Json>)
    ensures WithList(jm, name, items[..0]) == jm
  {
  }

  // ----- Reading back the whole list

  function Restored(jm: Members, names: seq<string>, m: Members): Members
    requires Lists(m) && forall k :: k in names ==> k in m
    decreases |names|
  {
    if names == [] then jm else Restored(WithList(jm, names[0], m[names[0]].items), names[1..], m)
  }

  lemma {:induction false} ModulesReadBack(model: Model, names: seq<string>, m: Members, data: bytes, start: nat, length: nat,
                                           done: nat, rest: bytes, jm: Members, beyond: Memory)
    requires WellFormed(StructType(model)) && Lists(m) && (forall k :: k in names ==> k in m)
    requires DistinctNames(names) && forall k :: k in names ==> k !in jm
    requires forall k :: k in names ==> 2 * |m[k].items| < LENGTH_LIMIT
    requires ModulesPart(model, names, m).Written?
    requires length == done + |ModulesPart(model, names, m).b|
    requires start + done <= |data| && data[start + done..] == ModulesPart(model, names, m).b + rest
    ensures ModulesFrom(model, data, start, length, done, jm, beyond) == Some(Restored(jm, names, m))
    decreases |names|
  {
    hide ModulePart, WithList, PropsFrom, FindByIndex, HeaderAt, WellFormed, ModulesPart, AnnouncedOne;
    if names == [] {
      NoModules(model, m);
    } else {
      var name, items := names[0], m[names[0]].items;
      ModulesSplit(model, names, m, rest);
      var first, tail := ModulePart(model, name, items).b, ModulesPart(model, names[1..], m).b;
      ModuleStep(model, name, items, data, start, length, done, tail + rest, jm, beyond);
      ListedKeys(jm, name, items);
      DistinctTail(names);
      ModulesReadBack(model, names[1..], m, data, start, length, done + |first|, rest, WithList(jm, name, items), beyond);
    }
  }

  lemma NoModules(model: Model, m: Members)
    requires Lists(m)
    ensures ModulesPart(model, [], m) == Written([])
  {
  }

  lemma DistinctTail(names: seq<string>)
    requires names != [] && DistinctNames(names)
    ensures DistinctNames(names[1..]) && names[0] !in names[1..]
  {
  }

  lemma ModulesSplit(model: Model, names: seq<string>, m: Members, rest: bytes)
    requires Lists(m) && names != [] && forall k :: k in names ==> k in m
    requires ModulesPart(model, names, m).Written?
    ensures m[names[0]].Arr? && ModulePart(model, names[0], m[names[0]].items).Written?
    ensures ModulesPart(model, names[1..], m).Written?
    ensures var first, tail := ModulePart(model, names[0], m[names[0]].items).b, ModulesPart(model, names[1..], m).b;
            && first != [] && ModulesPart(model, names, m).b == first + tail
            && ModulesPart(model, names, m).b + rest == first + (tail + rest)
  {
    hide ModulePart, ModulesPart, Then;
    ModulesUnfold(model, names, m);
    ThenParts(ModulePart(model, names[0], m[names[0]].items), ModulesPart(model, names[1..], m));
    var first, tail := ModulePart(model, names[0], m[names[0]].items).b, ModulesPart(model, names[1..], m).b;
    ModuleNotEmpty(model, names[0], m[names[0]].items);
    assert first + tail + rest == first + (tail + rest);
  }

  lemma ModulesUnfold(model: Model, names: seq<string>, m: Members)
    requires Lists(m) && names != [] && forall k :: k in names ==> k in m
    ensures m[names[0]].Arr?
    ensures ModulesPart(model, names, m) == Then(ModulePart(model, names[0], m[names[0]].items), ModulesPart(model, names[1..], m))
  {
    hide ModulePart, Then;
  }

  lemma ThenParts(a: Outcome, b: Outcome)
    requires Then(a, b).Written?
    ensures a.Written? && b.Written? && Then(a, b).b == a.b + b.b
  {
  }

  lemma ModuleNotEmpty(model: Model, name: string, items: seq<Json>)
    requires ModulePart(model, name, items).Written?
    ensures ModulePart(model, name, items).b != []
  {
    hide FindByName, PropsPart, LengthField;
  }

  lemma ListedKeys(jm: Members, name: string, items: seq<Json>)
    ensures WithList(jm, name, items).Keys == jm.Keys + if items == [] then {} else {name}
  {
  }

  /** The lists that are not empty. */
  function NonEmpty(m: Members): Members
    requires Lists(m)
  {
    map k | k in m && m[k].items != [] :: m[k]
  }

  function Chosen(names: seq<string>, m: Members): Members
    requires Lists(m)
  {
    map k | k in m && k in names && m[k].items != [] :: m[k]
  }

  lemma ChosenCons(jm: Members, names: seq<string>, m: Members)
    requires Lists(m) && names != [] && names[0] in m && names[0] !in jm
    requires names[0] !in names[1..]
    ensures WithList(jm, names[0], m[names[0]].items) + Chosen(names[1..], m) == jm + Chosen(names, m)
  {
    var k0 := names[0];
    assert names == [k0] + names[1..];
    assert m[k0] == Arr(m[k0].items);
    assert Chosen(names, m) == if m[k0].items == [] then Chosen(names[1..], m) else Chosen(names[1..], m)[k0 := m[k0]];
  }

  lemma {:induction false} RestoredIs(jm: Members, names: seq<string>, m: Members)
    requires Lists(m) && forall k :: k in names ==> k in m
    requires DistinctNames(names) && forall k :: k in names ==> k !in jm
    ensures Restored(jm, names, m) == jm + Chosen(names, m)
    decreases |names|
  {
    hide WithList, Chosen;
    if names == [] {
      NothingChosen(jm, m);
    } else {
      assert forall k :: k in names[1..] ==> k != names[0];
      ListedKeys(jm, names[0], m[names[0]].items);
      RestoredIs(WithList(jm, names[0], m[names[0]].items), names[1..], m);
      ChosenCons(jm, names, m);
    }
  }

  lemma NothingChosen(jm: Members, m: Members)
    requires Lists(m)
    ensures jm + Chosen([], m) == jm
  {
  }

  lemma RestoredAll(m: Members)
    requires Lists(m)
    ensures forall k :: k in MemberNames(m.Keys) ==> k in m
    ensures Restored(map[], MemberNames(m.Keys), m) == NonEmpty(m)
  {
    MemberNamesCover(m.Keys);
    MemberNamesDistinct(m.Keys);
    RestoredIs(map[], MemberNames(m.Keys), m);
  }

  // ----- Reading back the request

  /** Lists and lengths the two length bytes of the format can announce. */
  ghost predicate Fits(m: Members) {
    && (Get(m, "reqid").Str? ==> |m["reqid"].s| / 2 <= REQID_MAX)
    && (Get(m, "getModuleData").Obj? && Lists(m["getModuleData"].members) ==> ListsFit(m["getModuleData"].members))
  }

  ghost predicate ListsFit(lists: Members)
    requires Lists(lists)
  {
    MemberNamesCover(lists.Keys);
    && (forall k :: k in lists ==> 2 * |lists[k].items| < LENGTH_LIMIT)
    && Announced(MemberNames(lists.Keys), lists) < LENGTH_LIMIT
  }

  /** The list as one TLV, which comes back without its empty lists. */
  lemma ListReadBack(model: Model, lists: Members, data: bytes, offset: nat, m: Members, beyond: Memory)
    requires WellFormed(StructType(model)) && Lists(lists) && ListsFit(lists)
    requires ListPart(model, Obj(lists)).Written?
    requires offset <= |data| && data[offset..] == ListPart(model, Obj(lists)).b
    ensures B2JFrom(model, data, offset, m, beyond)
            == Some(Decoded(0, m["getModuleId" := Bool(false)]["getModuleData" := AsValue(NonEmpty(lists))]))
  {
    hide ModulesPart, ModulesFrom, HeaderAt, LengthField, LengthBytes, NonEmpty, Announced, Restored, WellFormed, AsValue, DistinctNames, Frame;
    var names := MemberNames(lists.Keys);
    MemberNamesCover(lists.Keys);
    MemberNamesDistinct(lists.Keys);
    TwoPassLength(model, names, lists);
    var body := ModulesPart(model, names, lists).b;
    FieldSize(|body|);
    var t := Tlv(T_MODULE_DATA, body);
    FrameLength(t);
    assert Frame(t) + [] == Frame(t);
    FrameAt(data, offset, t, [], beyond);
    var start := offset + 1 + HeaderAt(data, offset + 1, beyond).count;
    assert data[start..] == body + [];
    ModulesReadBack(model, names, lists, data, start, |body|, 0, [], map[], beyond);
    RestoredAll(lists);
  }

  /** The whole-model flag is a TLV without a value. */
  lemma FlagReadBack(model: Model, data: bytes, offset: nat, m: Members, beyond: Memory)
    requires offset <= |data| && data[offset..] == [T_MODULE_ID] + LengthField(0)
    ensures B2JFrom(model, data, offset, m, beyond)
            == Some(Decoded(0, m["getModuleId" := Bool(true)]["getModuleData" := Null]))
  {
    var d := data[offset..];
    assert d == [T_MODULE_ID, 0];
    assert data[offset] == d[0] && data[offset + 1] == d[1];
  }

  function NormalType(m: Members): Members {
    if Get(m, "type").IsUInt() then map["type" := Int(m["type"].n % 256)] else map[]
  }

  lemma TypeReadBack(model: Model, data: bytes, m: Members, room: nat, rest: bytes, beyond: Memory)
    requires TypePart(m, room).Some? && data == TypePart(m, room).value + rest
    ensures var end := |TypePart(m, room).value|;
            data[end..] == rest && B2JFrom(model, data, 0, map[], beyond) == B2JFrom(model, data, end, NormalType(m), beyond)
  {
    hide ModulesFrom, HexOf;
    if Get(m, "type").IsUInt() {
      assert data[0] == T_TYPE && data[1] == 1 && data[2] == m["type"].n % 256;
    }
  }

  lemma ReqidReadBack(model: Model, data: bytes, offset: nat, s: text, room: int, rest: bytes, m: Members, beyond: Memory)
    requires |s| / 2 <= REQID_MAX && ReqidPart(s, room).Some?
    requires offset <= |data| && data[offset..] == ReqidPart(s, room).value + rest
    ensures var end := offset + |ReqidPart(s, room).value|;
            && end <= |data| && data[end..] == rest
            && B2JFrom(model, data, offset, m, beyond)
               == B2JFrom(model, data, end, m["reqid" := Str(UpperPairs(s))], beyond)
  {
    hide HeaderAt, LengthBytes, LengthField, HexBytes, HexOf, UpperPairs, Frame, ModulesFrom, HexPairs;
    var t := Tlv(T_REQID, HexBytes(s));
    FieldSize(|s| / 2);
    FrameLength(t);
    FrameAt(data, offset, t, rest, beyond);
    HexRoundTrip(s);
  }

  /** The object that comes back: upper-case id, one-byte type, no empty list, null for an empty object. */
  function Normal(m: Members): Members
    requires FlagsPresent(m) && Get(m, "reqid").Str?
    requires m["getModuleId"].b || (m["getModuleData"].Obj? && Lists(m["getModuleData"].members))
  {
    NormalHead(m)["getModuleId" := m["getModuleId"]]
    ["getModuleData" := if m["getModuleId"].b then Null else AsValue(NonEmpty(m["getModuleData"].members))]
  }

  function NormalHead(m: Members): Members
    requires Get(m, "reqid").Str?
  {
    NormalType(m)["reqid" := Str(UpperPairs(m["reqid"].s))]
  }

  lemma HeadReadBack(model: Model, data: bytes, m: Members, room: nat, rest: bytes, beyond: Memory)
    requires HeadPart(m, room).Some? && |m["reqid"].s| / 2 <= REQID_MAX
    requires data == HeadPart(m, room).value + rest
    ensures var end := |HeadPart(m, room).value|;
            && data[end..] == rest
            && B2JFrom(model, data, 0, map[], beyond) == B2JFrom(model, data, end, NormalHead(m), beyond)
  {
    hide B2JFrom, ReqidPart, UpperPairs;
    var a := TypePart(m, room).value;
    var b := ReqidPart(m["reqid"].s, room - |a|).value;
    assert data == a + (b + rest);
    TypeReadBack(model, data, m, room, b + rest, beyond);
    ReqidReadBack(model, data, |a|, m["reqid"].s, room - |a|, rest, NormalType(m), beyond);
  }

  /** Whatever request is accepted within these limits, decoding what was written gives its normal form. */
  lemma ReadBack(model: Model, m: Members, room: nat, beyond: Memory)
    requires WellFormed(StructType(model)) && J2B(model, m, false, room).Written? && Fits(m)
    ensures FlagsPresent(m) && Get(m, "reqid").Str?
    ensures m["getModuleId"].b || (m["getModuleData"].Obj? && Lists(m["getModuleData"].members))
    ensures B2J(model, J2B(model, m, false, room).b, false, map[], beyond) == Some(Decoded(0, Normal(m)))
  {
    hide B2JFrom, HeadPart, ListPart, NormalHead, NonEmpty, AsValue, ListsFit, WellFormed, LengthField;
    var data := J2B(model, m, false, room).b;
    HeadNeeds(m, room);
    var end := |HeadPart(m, room).value|;
    if m["getModuleId"].b {
      HeadReadBack(model, data, m, room, [T_MODULE_ID] + LengthField(0), beyond);
      FlagReadBack(model, data, end, NormalHead(m), beyond);
    } else {
      ListNeeds(model, m["getModuleData"]);
      HeadReadBack(model, data, m, room, ListPart(model, m["getModuleData"]).b, beyond);
      ListReadBack(model, m["getModuleData"].members, data, end, NormalHead(m), beyond);
    }
  }

  lemma HeadNeeds(m: Members, room: nat)
    requires HeadPart(m, room).Some?
    ensures Get(m, "reqid").Str? && |m["reqid"].s| % 2 == 0 && HexPairs(m["reqid"].s)
  {
  }

  lemma ListNeeds(model: Model, data: Json)
    requires ListPart(model, data).Written?
    ensures data.Obj? && Lists(data.members) && data == Obj(data.members)
  {
  }

  // ----- Which requests come back unchanged

  predicate Canonical(m: Members)
    requires FlagsPresent(m) && Get(m, "reqid").Str?
    requires m["getModuleId"].b || (m["getModuleData"].Obj? && Lists(m["getModuleData"].members))
  {
    && m.Keys == {"reqid", "getModuleId", "getModuleData"} + (if "type" in m then {"type"} else {})
    && ("type" in m ==> m["type"].Int? && 0 <= m["type"].n < 256)
    && IsUpperHex(m["reqid"].s)
    && if m["getModuleId"].b then m["getModuleData"].Null? else NoEmptyList(m["getModuleData"].members)
  }

  /** At least one module, and at least one property of each. */
  predicate NoEmptyList(lists: Members)
    requires Lists(lists)
  {
    lists != map[] && forall k :: k in lists ==> lists[k].items != []
  }

  lemma ListsFixed(lists: Members)
    requires Lists(lists)
    ensures AsValue(NonEmpty(lists)) == Obj(lists) <==> NoEmptyList(lists)
  {
    if NoEmptyList(lists) {
      assert NonEmpty(lists) == lists;
    } else if lists != map[] {
      var k :| k in lists && lists[k].items == [];
      assert k !in NonEmpty(lists);
    }
  }

  lemma NormalFixed(m: Members)
    requires FlagsPresent(m) && Get(m, "reqid").Str?
    requires m["getModuleId"].b || (m["getModuleData"].Obj? && Lists(m["getModuleData"].members))
    ensures Normal(m) == m <==>
            && m.Keys == {"reqid", "getModuleId", "getModuleData"} + (if "type" in m then {"type"} else {})
            && ("type" in m ==> m["type"].Int? && 0 <= m["type"].n < 256)
            && UpperPairs(m["reqid"].s) == m["reqid"].s
            && m["getModuleData"] == if m["getModuleId"].b then Null else AsValue(NonEmpty(m["getModuleData"].members))
  {
    hide UpperPairs, NonEmpty, AsValue, Lists;
    var n := Normal(m);
    if n == m {
      assert n["reqid"] == m["reqid"] && n["getModuleData"] == m["getModuleData"];
      assert "type" in m ==> n["type"] == m["type"];
      assert n.Keys == {"reqid", "getModuleId", "getModuleData"} + (if "type" in m then {"type"} else {});
    } else if m.Keys == {"reqid", "getModuleId", "getModuleData"} + (if "type" in m then {"type"} else {}) {
      if "type" in m ==> m["type"].Int? && 0 <= m["type"].n < 256 {
        assert n.Keys == m.Keys;
      }
    }
  }

  /**
   An accepted request comes back as itself exactly when it is canonical.  The documented request
   for all modules, with an empty "getModuleData" object, is not: it comes back with null there.
   */
  lemma RoundTripExactly(model: Model, m: Members, room: nat, beyond: Memory)
    requires WellFormed(StructType(model)) && J2B(model, m, false, room).Written? && Fits(m)
    ensures FlagsPresent(m) && Get(m, "reqid").Str?
    ensures m["getModuleId"].b || (m["getModuleData"].Obj? && Lists(m["getModuleData"].members))
    ensures B2J(model, J2B(model, m, false, room).b, false, map[], beyond) == Some(Decoded(0, m)) <==> Canonical(m)
  {
    hide B2J, HeadPart, ListPart, Normal, Lists, NoEmptyList, IsUpperHex, UpperPairs, HexPairs, AsValue, NonEmpty, WellFormed;
    ReadBack(model, m, room, beyond);
    HeadNeeds(m, room);
    NormalFixed(m);
    UpperHexFixed(m["reqid"].s);
    if !m["getModuleId"].b {
      ListsFixed(m["getModuleData"].members);
    }
  }

  /** An identifier of more than 16 bytes is written, but the reader refuses it. */
  lemma LongReqidRefused(model: Model, m: Members, room: nat, beyond: Memory)
    requires J2B(model, m, false, room).Written?
    requires Get(m, "reqid").Str? && REQID_MAX < |m["reqid"].s| / 2 < LENGTH_LIMIT
    ensures var d := B2J(model, J2B(model, m, false, room).b, false, map[], beyond);
            d.Some? && d.value.rc == -2
  {
    hide TypePart, ReqidPart, ListPart, B2JFrom, NormalType, LengthField;
    var data := J2B(model, m, false, room).b;
    var a := TypePart(m, room).value;
    var b := ReqidPart(m["reqid"].s, room - |a|).value;
    var rest := data[|a + b|..];
    assert data == a + (b + rest);
    TypeReadBack(model, data, m, room, b + rest, beyond);
    LongReqidAt(model, data, |a|, m["reqid"].s, room - |a|, rest, NormalType(m), beyond);
  }

  lemma LongReqidAt(model: Model, data: bytes, offset: nat, s: text, room: int, rest: bytes, m: Members, beyond: Memory)
    requires REQID_MAX < |s| / 2 < LENGTH_LIMIT && ReqidPart(s, room).Some?
    requires offset <= |data| && data[offset..] == ReqidPart(s, room).value + rest
    ensures B2JFrom(model, data, offset, m, beyond) == Some(Decoded(-2, m))
  {
    hide HeaderAt, LengthBytes, LengthField, HexBytes, Frame, ModulesFrom, HexPairs, HexOf;
    var t := Tlv(T_REQID, HexBytes(s));
    FieldSize(|s| / 2);
    FrameLength(t);
    FrameAt(data, offset, t, rest, beyond);
  }
}
