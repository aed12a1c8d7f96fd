/** A get-configuration payload that was cut off, by the room or by the 16-bit length, loses its list. */
module ConfigCut {
  import opened Octets
  import opened JsonValue
  import opened Tlv
  import opened Schema
  import opened ConfigRequest

  /** The decoder stops at a TLV that is cut off and keeps what it has read. */
  lemma CutStops(model: Model, data: bytes, offset: nat, t: Tlv, m: Members, beyond: Memory)
    requires |t.body| < LENGTH_LIMIT && offset <= |data|
    requires |data| - offset < |Frame(t)| && data[offset..] == Frame(t)[..|data| - offset]
    ensures B2JFrom(model, data, offset, m, beyond) == Some(Decoded(if offset == |data| then 0 else -1, m))
  {
    hide ModulesFrom, Frame, GetLength, HexOf, AsValue;
    if offset < |data| {
      var p := data[offset..];
      CutFrame(p, t, beyond(offset + 1), beyond(offset + 2));
      assert At(p, 1, beyond(offset + 1)) == At(data, offset + 1, beyond(offset + 1));
      assert At(p, 2, beyond(offset + 2)) == At(data, offset + 2, beyond(offset + 2));
    }
  }

  lemma TypeFrame(m: Members, room: nat)
    requires TypePart(m, room).Some? && TypePart(m, room).value != []
    ensures Get(m, "type").IsUInt()
    ensures TypePart(m, room).value == Frame(Tlv(T_TYPE, [m["type"].n % 256]))
  {
    LengthBytesSmall(1);
  }

  lemma ReqidFrame(s: text, room: int)
    requires |s| / 2 <= REQID_MAX && ReqidPart(s, room).Some?
    ensures HexPairs(s) && ReqidPart(s, room).value == Frame(Tlv(T_REQID, HexBytes(s)))
  {
    hide LengthField, LengthBytes, HexBytes, HexPairs;
    FieldSize(|s| / 2);
  }

  /** The last TLV of a request: the flag, or the list. */
  ghost function LastPart(model: Model, m: Members): Outcome
    requires FlagsPresent(m)
  {
    if m["getModuleId"].b then Written([T_MODULE_ID] + LengthField(0)) else ListPart(model, m["getModuleData"])
  }

  lemma LastIsFrame(model: Model, m: Members) returns (t: Tlv)
    requires FlagsPresent(m) && LastPart(model, m).Written? && Fits(m)
    ensures |t.body| < LENGTH_LIMIT && LastPart(model, m).b == Frame(t)
  {
    hide ModulesPart, LengthField, LengthBytes, Announced, Frame;
    if m["getModuleId"].b {
      t := Tlv(T_MODULE_ID, []);
      FieldSize(0);
      FrameLength(t);
      assert [T_MODULE_ID] + LengthField(0) + [] == [T_MODULE_ID] + LengthField(0);
    } else {
      var lists := m["getModuleData"].members;
      var names := MemberNames(lists.Keys);
      MemberNamesCover(lists.Keys);
      TwoPassLength(model, names, lists);
      t := Tlv(T_MODULE_DATA, ModulesPart(model, names, lists).b);
      FieldSize(|t.body|);
      FrameLength(t);
    }
  }

  lemma TypeHasNoFlag(m: Members)
    ensures "getModuleId" !in NormalType(m)
    ensures Get(m, "reqid").Str? ==> "getModuleId" !in NormalHead(m)
  {
  }

  /** A cut within the type and the id. */
  lemma HeadCut(model: Model, m: Members, room: nat, n: nat, beyond: Memory)
    requires HeadPart(m, room).Some? && |m["reqid"].s| / 2 <= REQID_MAX && n < |HeadPart(m, room).value|
    ensures var d := B2JFrom(model, HeadPart(m, room).value[..n], 0, map[], beyond);
            d.Some? && "getModuleId" !in d.value.m
  {
    hide B2JFrom, ReqidPart, TypePart, NormalType, Frame, HexBytes, HexPairs;
    var a := TypePart(m, room).value;
    var r := ReqidPart(m["reqid"].s, room - |a|).value;
    var data := HeadPart(m, room).value[..n];
    TypeHasNoFlag(m);
    if n < |a| {
      TypeFrame(m, room);
      assert data[0..] == a[..n];
      CutStops(model, data, 0, Tlv(T_TYPE, [m["type"].n % 256]), map[], beyond);
    } else {
      var tail := r[..n - |a|];
      assert data == a + tail;
      TypeReadBack(model, data, m, room, tail, beyond);
      ReqidFrame(m["reqid"].s, room - |a|);
      CutStops(model, data, |a|, Tlv(T_REQID, HexBytes(m["reqid"].s)), NormalType(m), beyond);
    }
  }

  /** A strict prefix of what was written for a request decodes to an object without the flag. */
  lemma CutLosesFlag(model: Model, m: Members, room: nat, n: nat, beyond: Memory)
    requires J2B(model, m, false, room).Written? && Fits(m) && n < |J2B(model, m, false, room).b|
    ensures var d := B2J(model, J2B(model, m, false, room).b[..n], false, map[], beyond);
            d.Some? && "getModuleId" !in d.value.m
  {
    hide B2JFrom, HeadPart, ListPart, NormalHead, LengthField, Frame, ListsFit;
    var head := HeadPart(m, room).value;
    HeadNeeds(m, room);
    var last := LastPart(model, m).b;
    var data := J2B(model, m, false, room).b[..n];
    assert J2B(model, m, false, room).b == head + last;
    if n < |head| {
      assert data == head[..n];
      HeadCut(model, m, room, n, beyond);
    } else {
      var tail := last[..n - |head|];
      assert data == head + tail;
      HeadReadBack(model, data, m, room, tail, beyond);
      var t := LastIsFrame(model, m);
      CutStops(model, data, |head|, t, NormalHead(m), beyond);
      TypeHasNoFlag(m);
    }
  }

  /**
   Of the bytes written for a request, the first n decode to the request exactly when they are all
   the bytes and the request is canonical.
   */
  lemma ComesBackExactly(model: Model, m: Members, room: nat, n: nat, beyond: Memory)
    requires WellFormed(StructType(model)) && J2B(model, m, false, room).Written? && Fits(m)
    requires n <= |J2B(model, m, false, room).b|
    ensures FlagsPresent(m) && Get(m, "reqid").Str?
    ensures m["getModuleId"].b || (m["getModuleData"].Obj? && Lists(m["getModuleData"].members))
    ensures var d := B2J(model, J2B(model, m, false, room).b[..n], false, map[], beyond);
            d.Some? && (d.value.m == m <==> n == |J2B(model, m, false, room).b| && Canonical(m))
  {
    hide B2J, J2B, Canonical, Fits, WellFormed, Normal, Lists;
    ReadBack(model, m, room, beyond);
    RoundTripExactly(model, m, room, beyond);
    var b := J2B(model, m, false, room).b;
    if n < |b| {
      CutLosesFlag(model, m, room, n, beyond);
    } else {
      assert b[..n] == b;
    }
  }
}
