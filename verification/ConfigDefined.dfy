/**
 Which get-configuration requests, and which bytes, make the source look up a property that the
 module does not have and go through the null pointer it gets.
 */
module ConfigDefined {
  import opened Octets
  import opened JsonValue
  import opened Tlv
  import opened Schema
  import opened ConfigRequest

  // ----- Encoding

  predicate KnownName(props: seq<Property>, item: Json) {
    item.Str? && FindByName(props, item.s).Some?
  }

  predicate UnknownName(props: seq<Property>, item: Json) {
    item.Str? && FindByName(props, item.s).None?
  }

  predicate AllKnown(props: seq<Property>, items: seq<Json>) {
    forall i :: 0 <= i < |items| ==> KnownName(props, items[i])
  }

  /** The first entry that is no known name is a string. */
  predicate MeetsUnknown(props: seq<Property>, items: seq<Json>) {
    exists i :: 0 <= i < |items| && UnknownName(props, items[i]) && forall j :: 0 <= j < i ==> KnownName(props, items[j])
  }

  lemma {:induction false} PropsOutcome(props: seq<Property>, items: seq<Json>)
    ensures PropsPart(props, items).Written? <==> AllKnown(props, items)
    ensures PropsPart(props, items).Undefined? <==> MeetsUnknown(props, items)
  {
    hide FindByName;
    if items != [] {
      var rest := items[1..];
      PropsOutcome(props, rest);
      assert forall i :: 0 < i < |items| ==> items[i] == rest[i - 1];
      assert forall i :: 0 <= i < |rest| ==> rest[i] == items[i + 1];
      if MeetsUnknown(props, rest) && KnownName(props, items[0]) {
        var i :| 0 <= i < |rest| && UnknownName(props, rest[i]) && forall j :: 0 <= j < i ==> KnownName(props, rest[j]);
        assert UnknownName(props, items[i + 1]) && forall j :: 0 <= j < i + 1 ==> KnownName(props, items[j]);
      }
      if MeetsUnknown(props, items) && KnownName(props, items[0]) {
        var i :| 0 <= i < |items| && UnknownName(props, items[i]) && forall j :: 0 <= j < i ==> KnownName(props, items[j]);
        assert UnknownName(props, rest[i - 1]) && forall j :: 0 <= j < i - 1 ==> KnownName(props, rest[j]);
      }
    }
  }

  predicate SoundModule(model: Model, name: string, items: seq<Json>) {
    FindByName(model, name).Some? && AllKnown(FindByName(model, name).value.dataType.props, items)
  }

  predicate BrokenModule(model: Model, name: string, items: seq<Json>) {
    FindByName(model, name).Some? && MeetsUnknown(FindByName(model, name).value.dataType.props, items)
  }

  lemma ModuleOutcome(model: Model, name: string, items: seq<Json>)
    ensures ModulePart(model, name, items).Written? <==> SoundModule(model, name, items)
    ensures ModulePart(model, name, items).Undefined? <==> BrokenModule(model, name, items)
  {
    hide FindByName, PropsPart, AllKnown, MeetsUnknown, LengthField;
    if FindByName(model, name).Some? {
      PropsOutcome(FindByName(model, name).value.dataType.props, items);
    }
  }

  /** All modules are sound up to one that names an unknown property. */
  predicate MeetsBroken(model: Model, names: seq<string>, m: Members)
    requires Lists(m) && forall k :: k in names ==> k in m
  {
    exists i :: 0 <= i < |names| && BrokenModule(model, names[i], m[names[i]].items)
                && forall j :: 0 <= j < i ==> SoundModule(model, names[j], m[names[j]].items)
  }

  lemma {:induction false} ModulesUndefined(model: Model, names: seq<string>, m: Members)
    requires Lists(m) && forall k :: k in names ==> k in m
    ensures ModulesPart(model, names, m).Undefined? <==> MeetsBroken(model, names, m)
  {
    hide ModulePart, SoundModule, BrokenModule;
    if names != [] {
      var rest := names[1..];
      ModuleOutcome(model, names[0], m[names[0]].items);
      ModulesUndefined(model, rest, m);
      SoundNotBroken(model, names[0], m[names[0]].items);
      if MeetsBroken(model, rest, m) && SoundModule(model, names[0], m[names[0]].items) {
        var i :| 0 <= i < |rest| && BrokenModule(model, rest[i], m[rest[i]].items)
                 && forall j :: 0 <= j < i ==> SoundModule(model, rest[j], m[rest[j]].items);
        assert names[i + 1] == rest[i] && forall j :: 0 < j < i + 1 ==> names[j] == rest[j - 1];
        assert BrokenModule(model, names[i + 1], m[names[i + 1]].items);
      }
      if MeetsBroken(model, names, m) && SoundModule(model, names[0], m[names[0]].items) {
        var i :| 0 <= i < |names| && BrokenModule(model, names[i], m[names[i]].items)
                 && forall j :: 0 <= j < i ==> SoundModule(model, names[j], m[names[j]].items);
        assert rest[i - 1] == names[i] && forall j :: 0 <= j < i - 1 ==> rest[j] == names[j + 1];
        assert BrokenModule(model, rest[i - 1], m[rest[i - 1]].items);
      }
    }
  }

  ghost predicate BrokenList(model: Model, lists: Members)
    requires Lists(lists)
  {
    MemberNamesCover(lists.Keys);
    MeetsBroken(model, MemberNames(lists.Keys), lists)
  }

  lemma SoundNotBroken(model: Model, name: string, items: seq<Json>)
    ensures !(SoundModule(model, name, items) && BrokenModule(model, name, items))
  {
  }

  /** The encoder is undefined exactly for a well-typed request whose list meets an unknown property first. */
  lemma EncodingUndefinedExactly(model: Model, m: Members, isAck: bool, room: nat)
    ensures J2B(model, m, isAck, room).Undefined? <==>
            && FlagsPresent(m) && !isAck && HeadPart(m, room).Some? && !m["getModuleId"].b
            && m["getModuleData"].Obj? && Lists(m["getModuleData"].members)
            && BrokenList(model, m["getModuleData"].members)
  {
    hide HeadPart, ModulesPart, MeetsBroken, LengthField, Announced, MemberNames, Lists;
    if Get(m, "getModuleData").Obj? {
      var lists := m["getModuleData"].members;
      MemberNamesCover(lists.Keys);
      if Lists(lists) {
        ModulesUndefined(model, MemberNames(lists.Keys), lists);
      }
    }
  }

  // ----- Decoding

  predicate KnownTag(props: seq<Property>, data: bytes, at: nat, i: nat, beyond: Memory) {
    FindByIndex(props, At(data, at + i, beyond(at + i))).Some?
  }

  /** Every second byte of a module's value, from `done` on, is the index of a property. */
  predicate AllTagsKnown(props: seq<Property>, data: bytes, at: nat, length: nat, done: nat, beyond: Memory) {
    forall i: nat :: done <= i < length && (i - done) % 2 == 0 ==> KnownTag(props, data, at, i, beyond)
  }

  lemma {:induction false} PropsDefinedExactly(props: seq<Property>, name: string, data: bytes, at: nat, length: nat,
                                               done: nat, jm: Members, beyond: Memory)
    ensures PropsFrom(props, name, data, at, length, done, jm, beyond).Some? <==> AllTagsKnown(props, data, at, length, done, beyond)
    decreases length - done
  {
    hide FindByIndex, At, AppendTo;
    if done < length {
      var p := FindByIndex(props, At(data, at + done, beyond(at + done)));
      assert KnownTag(props, data, at, done, beyond) <==> p.Some?;
      if p.Some? {
        PropsDefinedExactly(props, name, data, at, length, done + 2, AppendTo(jm, name, Str(p.value.name)), beyond);
        TagsFrom(props, data, at, length, done, beyond);
      }
    }
  }

  lemma TagsFrom(props: seq<Property>, data: bytes, at: nat, length: nat, done: nat, beyond: Memory)
    requires done < length && KnownTag(props, data, at, done, beyond)
    ensures AllTagsKnown(props, data, at, length, done, beyond) <==> AllTagsKnown(props, data, at, length, done + 2, beyond)
  {
    hide KnownTag;
    if AllTagsKnown(props, data, at, length, done + 2, beyond) {
      forall i: nat | done <= i < length && (i - done) % 2 == 0
        ensures KnownTag(props, data, at, i, beyond)
      {
        assert i == done || (i >= done + 2 && (i - (done + 2)) % 2 == 0);
      }
    }
    if AllTagsKnown(props, data, at, length, done, beyond) {
      forall i: nat | done + 2 <= i < length && (i - (done + 2)) % 2 == 0
        ensures KnownTag(props, data, at, i, beyond)
      {
        assert (i - done) % 2 == 0;
      }
    }
  }

  /** Every module of the list that the model knows holds known properties only. */
  predicate ListKnown(model: Model, data: bytes, start: nat, length: nat, done: nat, beyond: Memory)
    decreases length - done
  {
    done >= length || (
      var h := HeaderAt(data, start + done + 1, beyond);
      var body := done + 1 + h.count;
      var md := FindByIndex(model, At(data, start + done, beyond(start + done)));
      && (md.Some? ==> AllTagsKnown(md.value.dataType.props, data, start + body, h.length, 0, beyond))
      && ListKnown(model, data, start, length, body + h.length, beyond))
  }

  lemma {:induction false} ListDefinedExactly(model: Model, data: bytes, start: nat, length: nat, done: nat, jm: Members, beyond: Memory)
    ensures ModulesFrom(model, data, start, length, done, jm, beyond).Some? <==> ListKnown(model, data, start, length, done, beyond)
    decreases length - done
  {
    hide FindByIndex, At, HeaderAt, PropsFrom, AllTagsKnown;
    if done < length {
      var h := HeaderAt(data, start + done + 1, beyond);
      var body := done + 1 + h.count;
      var md := FindByIndex(model, At(data, start + done, beyond(start + done)));
      if md.None? {
        ListDefinedExactly(model, data, start, length, body + h.length, jm, beyond);
      } else {
        PropsDefinedExactly(md.value.dataType.props, md.value.name, data, start + body, h.length, 0, jm, beyond);
        var r := PropsFrom(md.value.dataType.props, md.value.name, data, start + body, h.length, 0, jm, beyond);
        if r.Some? {
          ListDefinedExactly(model, data, start, length, body + h.length, r.value, beyond);
        }
      }
    }
  }

  /** Every list that the decoder comes to, before it ends or meets an error, is known. */
  predicate DataKnown(model: Model, data: bytes, offset: nat, beyond: Memory)
    requires offset <= |data|
    decreases |data| - offset
  {
    offset == |data| || (
      var t := data[offset];
      var h := HeaderAt(data, offset + 1, beyond);
      var start := offset + 1 + h.count;
      var end := start + h.length;
      end > |data| || (t == T_TYPE && h.length != 1) || (t == T_REQID && h.length > REQID_MAX) ||
      ((t == T_MODULE_DATA ==> ListKnown(model, data, start, h.length, 0, beyond)) && DataKnown(model, data, end, beyond)))
  }

  /** The decoder is undefined exactly for bytes with a list that names an unknown property of a known module. */
  lemma {:induction false} DecodingDefinedExactly(model: Model, data: bytes, offset: nat, m: Members, beyond: Memory)
    requires offset <= |data|
    ensures B2JFrom(model, data, offset, m, beyond).Some? <==> DataKnown(model, data, offset, beyond)
    decreases |data| - offset
  {
    hide HeaderAt, ModulesFrom, ListKnown, HexOf, AsValue;
    if offset < |data| {
      var t := data[offset];
      var h := HeaderAt(data, offset + 1, beyond);
      var start := offset + 1 + h.count;
      var end := start + h.length;
      if end <= |data| {
        if t == T_TYPE {
          if h.length == 1 {
            DecodingDefinedExactly(model, data, end, m["type" := Int(data[start])], beyond);
          }
        } else if t == T_REQID {
          DecodingDefinedExactly(model, data, end, m["reqid" := Str(HexOf(data[start..end]))], beyond);
        } else if t == T_MODULE_ID {
          DecodingDefinedExactly(model, data, end, m["getModuleId" := Bool(true)]["getModuleData" := Null], beyond);
        } else if t == T_MODULE_DATA {
          ListDefinedExactly(model, data, start, h.length, 0, map[], beyond);
          var r := ModulesFrom(model, data, start, h.length, 0, map[], beyond);
          if r.Some? {
            DecodingDefinedExactly(model, data, end, m["getModuleId" := Bool(false)]["getModuleData" := AsValue(r.value)], beyond);
          }
        } else {
          DecodingDefinedExactly(model, data, end, m, beyond);
        }
      }
    }
  }
}
