/** The start-upgrade command on the wire: tags, limits and codes in literals, in both directions. */
module UpgradeWire {
  import opened Octets
  import opened JsonValue
  import opened Tlv
  import opened DottedQuad
  import opened Upgrade
  import opened UpgradeUnknown

  // ----- What a request looks like

  predicate IsText32(j: Json) { j.Str? && |j.s| == 32 }

  /** An entry names its hardware code and version. */
  predicate EntryFormed(item: Json) {
    && item.Obj? && "hwcode" in item.members && "version" in item.members
    && item.members["hwcode"].Str? && item.members["version"].Str?
  }

  predicate MembersFormed(m: Members) {
    && "taskid" in m && "url" in m && "size" in m && "md5" in m && "firmware" in m
    && IsText32(m["taskid"]) && m["url"].Str? && m["size"].Int? && 0 <= m["size"].n < 0x1_0000_0000
    && IsText32(m["md5"]) && m["firmware"].Arr?
  }

  predicate RequestFormed(m: Members) {
    && MembersFormed(m)
    && HexPairs(m["taskid"].s) && HexPairs(m["md5"].s)
    && forall i :: 0 <= i < |m["firmware"].items| ==> EntryFormed(m["firmware"].items[i])
  }

  function Leading(s: text, n: nat): text { if |s| > n then s[..n] else s }

  /** Inside an entry: tag 1 holds the hardware code, tag 2 the version as an address. */
  function EntryTlvs(item: Json): (ts: seq<Tlv>)
    requires EntryFormed(item)
    ensures |ts| == 2
  {
    [Tlv(1, ToBytes(Leading(item.members["hwcode"].s, 32))), Tlv(2, Word(Str2Ip(item.members["version"].s)))]
  }

  function EntriesTlvs(items: seq<Json>): (ts: seq<Tlv>)
    requires forall i :: 0 <= i < |items| ==> EntryFormed(items[i])
    ensures |ts| == |items|
  {
    seq(|items|, i requires 0 <= i < |items| => Tlv(5, Serialize(EntryTlvs(items[i]))))
  }

  /** Tags 1 to 4 for the head of a request, then one tag 5 for every entry. */
  function HeadTlvs(m: Members): (ts: seq<Tlv>)
    requires MembersFormed(m) && HexPairs(m["taskid"].s) && HexPairs(m["md5"].s)
    ensures |ts| == 4
  {
    [Tlv(1, HexBytes(m["taskid"].s)), Tlv(2, ToBytes(Leading(m["url"].s, 256))), Tlv(3, Word(m["size"].n)),
     Tlv(4, HexBytes(m["md5"].s))]
  }

  function RequestTlvs(m: Members): seq<Tlv>
    requires RequestFormed(m)
  {
    HeadTlvs(m) + EntriesTlvs(m["firmware"].items)
  }

  // ----- The encoder writes exactly that

  lemma LeadingIsCut(s: text, n: nat)
    ensures Leading(s, n) == Cut(s, n) && |Leading(s, n)| <= n
  {
  }

  lemma FormedIsPresent(m: Members)
    ensures FieldsPresent(m) && |m["taskid"].s| == 32 && |m["md5"].s| == 32 <==> MembersFormed(m)
  {
  }

  lemma EntryIsPresent(item: Json)
    ensures ItemPresent(item) <==> EntryFormed(item)
  {
  }

  lemma SerializeTwo(a: Tlv, b: Tlv)
    ensures Serialize([a, b]) == Frame(a) + Frame(b)
  {
    hide Frame;
    SerializeOne(b);
    assert [a, b][1..] == [b];
  }

  lemma EntryIs(item: Json)
    requires EntryFormed(item)
    ensures ItemPresent(item) && ItemTlv(item) == Tlv(5, Serialize(EntryTlvs(item)))
    ensures |Frame(ItemTlv(item))| == 10 + |Leading(item.members["hwcode"].s, 32)| <= 42
    ensures Short(EntryTlvs(item)) && |Serialize(EntryTlvs(item))| <= 40
  {
    hide Frame, BigEndian, ToBytes, Str2Ip;
    EntryIsPresent(item);
    LeadingIsCut(item.members["hwcode"].s, 32);
    WordIs(Str2Ip(item.members["version"].s));
    SerializeTwo(HwTlv(item), VersionTlv(item));
    ShortFrameLength(HwTlv(item));
    ShortFrameLength(VersionTlv(item));
    ShortFrameLength(ItemTlv(item));
  }

  /** An entry is written exactly when it is formed and the whole of it fits. */
  lemma EntryWritten(item: Json, room: int)
    requires EntryFormed(item)
    ensures var f := Frame(Tlv(5, Serialize(EntryTlvs(item))));
            ItemPart(item, room) == if room >= |f| then Written(f) else Failed(-1)
  {
    hide Frame, BigEndian, ToBytes, Str2Ip;
    EntryIs(item);
    LeadingIsCut(item.members["hwcode"].s, 32);
    ShortFrameLength(HwTlv(item));
    ShortFrameLength(VersionTlv(item));
  }

  lemma EntryRefused(item: Json, room: int)
    requires !EntryFormed(item)
    ensures ItemPart(item, room) == Failed(if item.Null? || item.Obj? then -3 else -1)
  {
  }

  lemma EntriesCons(items: seq<Json>)
    requires items != [] && forall i :: 0 <= i < |items| ==> EntryFormed(items[i])
    ensures Serialize(EntriesTlvs(items)) == Frame(Tlv(5, Serialize(EntryTlvs(items[0])))) + Serialize(EntriesTlvs(items[1..]))
  {
    hide Frame, EntryFormed, EntryTlvs;
    assert EntriesTlvs(items)[1..] == EntriesTlvs(items[1..]);
  }

  lemma {:induction false} EntriesWritten(items: seq<Json>, room: int)
    requires forall i :: 0 <= i < |items| ==> EntryFormed(items[i])
    ensures var b := Serialize(EntriesTlvs(items));
            ItemsPart(items, room) == if items == [] || room >= |b| then Written(b) else Failed(-1)
    decreases |items|
  {
    hide ItemPart, EntryFormed, EntryTlvs, Frame, EntriesTlvs;
    if items == [] {
      assert EntriesTlvs(items) == [];
      SerializeNone();
    } else {
      EntryWritten(items[0], room);
      EntriesCons(items);
      EntriesWritten(items[1..], room - |Frame(Tlv(5, Serialize(EntryTlvs(items[0]))))|);
      if items[1..] == [] {
        assert EntriesTlvs(items[1..]) == [];
        SerializeNone();
      }
    }
  }

  lemma SerializeFour(a: Tlv, b: Tlv, c: Tlv, d: Tlv)
    ensures Serialize([a, b, c, d]) == Frame(a) + Frame(b) + Frame(c) + Frame(d)
  {
    hide Frame;
    SerializeTwo(a, b);
    SerializeTwo(c, d);
    assert [a, b, c, d] == [a, b] + [c, d];
    SerializeAppend([a, b], [c, d]);
  }

  /** The head is written exactly when the two identifiers are hexadecimal and the whole of it fits. */
  lemma HeadWritten(m: Members, room: int)
    requires MembersFormed(m)
    ensures HeadPart(m, room) ==
            if HexPairs(m["taskid"].s) && HexPairs(m["md5"].s) && room >= |Serialize(HeadTlvs(m))|
            then Some(Serialize(HeadTlvs(m))) else None
  {
    hide Frame, HexBytes, HexPairs, BigEndian, ToBytes;
    LeadingIsCut(m["url"].s, 256);
    WordIs(m["size"].n);
    LengthBytesSmall(16);
    if HexPairs(m["taskid"].s) && HexPairs(m["md5"].s) {
      var ts := HeadTlvs(m);
      SerializeFour(ts[0], ts[1], ts[2], ts[3]);
      ShortFrameLength(ts[0]);
      ShortFrameLength(ts[1]);
      ShortFrameLength(ts[2]);
      ShortFrameLength(ts[3]);
    }
  }

  /**
   A request that has its members is written when it is formed as it must be and its TLVs fit the
   room, and only then; what is written are the TLVs.
   */
  lemma WrittenExactly(m: Members, room: int)
    ensures J2B(m, false, room).Written? <==> RequestFormed(m) && room >= |Serialize(RequestTlvs(m))|
    ensures J2B(m, false, room).Written? ==> J2B(m, false, room).b == Serialize(RequestTlvs(m))
  {
    hide HeadPart, ItemsPart, HexPairs, ItemPresent, EntryFormed, HeadTlvs, EntriesTlvs, Serialize;
    FormedIsPresent(m);
    if MembersFormed(m) {
      var items := m["firmware"].items;
      HeadWritten(m, room);
      if HeadPart(m, room).Some? {
        var left := room - |HeadPart(m, room).value|;
        if ItemsPart(items, left).Written? {
          ItemsPartPresent(items, left);
          forall i | 0 <= i < |items| ensures EntryFormed(items[i]) {
            EntryIsPresent(items[i]);
          }
        }
      }
      if RequestFormed(m) {
        var head := Serialize(HeadTlvs(m));
        SerializeAppend(HeadTlvs(m), EntriesTlvs(items));
        EntriesWritten(items, room - |head|);
        NoEntries(items);
      }
    }
  }

  lemma NoEntries(items: seq<Json>)
    requires forall i :: 0 <= i < |items| ==> EntryFormed(items[i])
    ensures items == [] ==> Serialize(EntriesTlvs(items)) == []
  {
    hide EntryFormed, EntryTlvs;
  }

  /** A walk over the bytes of an accepted request finds tags 1 to 4, then one 5 for each entry, and inside each 1 and 2. */
  lemma WalkedAs(m: Members, room: int)
    requires J2B(m, false, room).Written?
    ensures RequestFormed(m) && Parse(J2B(m, false, room).b) == RequestTlvs(m)
    ensures forall i :: 0 <= i < |m["firmware"].items| ==>
              Parse(RequestTlvs(m)[4 + i].body) == EntryTlvs(m["firmware"].items[i])
  {
    hide J2B, HexPairs, EntryFormed, HeadTlvs, EntryTlvs, EntriesTlvs, Serialize, Parse;
    WrittenExactly(m, room);
    var items := m["firmware"].items;
    HeadShort(m);
    EntriesWalked(items);
    ParseWhole(RequestTlvs(m));
  }

  lemma EntriesWalked(items: seq<Json>)
    requires forall i :: 0 <= i < |items| ==> EntryFormed(items[i])
    ensures Short(EntriesTlvs(items))
    ensures forall i :: 0 <= i < |items| ==> Parse(EntriesTlvs(items)[i].body) == EntryTlvs(items[i])
  {
    hide EntryFormed, EntryTlvs, Serialize, Parse;
    forall i | 0 <= i < |items|
      ensures |EntriesTlvs(items)[i].body| < LENGTH_LIMIT && Parse(EntriesTlvs(items)[i].body) == EntryTlvs(items[i])
    {
      EntryIs(items[i]);
      ParseWhole(EntryTlvs(items[i]));
    }
  }

  lemma HeadShort(m: Members)
    requires MembersFormed(m) && HexPairs(m["taskid"].s) && HexPairs(m["md5"].s)
    ensures Short(HeadTlvs(m))
  {
    hide HexPairs, HexBytes, ToBytes;
    LeadingIsCut(m["url"].s, 256);
  }

  // ----- The codes of a refusal

  /** Members missing, of the wrong kind, or identifiers not of 32 characters: -2. */
  lemma MembersRefused(m: Members, room: int)
    requires !MembersFormed(m)
    ensures J2B(m, false, room) == Failed(-2)
  {
    FormedIsPresent(m);
  }

  /** Identifiers that are no hexadecimal text, or a head or entries that do not fit: -1. */
  lemma RoomRefused(m: Members, room: int)
    requires MembersFormed(m)
    requires RequestFormed(m) ==> room < |Serialize(RequestTlvs(m))|
    requires HexPairs(m["taskid"].s) && HexPairs(m["md5"].s) ==> RequestFormed(m) || room < |Serialize(HeadTlvs(m))|
    ensures J2B(m, false, room) == Failed(-1)
  {
    hide HeadPart, ItemsPart, HexPairs, ItemPresent, EntryFormed, HeadTlvs, EntriesTlvs, Serialize;
    FormedIsPresent(m);
    HeadWritten(m, room);
    if RequestFormed(m) {
      SerializeAppend(HeadTlvs(m), EntriesTlvs(m["firmware"].items));
      EntriesWritten(m["firmware"].items, room - |Serialize(HeadTlvs(m))|);
      NoEntries(m["firmware"].items);
    }
  }

  /** The first entry that is no object, or lacks a member, decides the code when all before it fit: -1 or -3. */
  lemma {:induction false} EntriesRefused(items: seq<Json>, n: nat, room: int)
    requires n < |items| && !EntryFormed(items[n])
    requires forall i :: 0 <= i < n ==> EntryFormed(items[i])
    requires n == 0 || room >= |Serialize(EntriesTlvs(items[..n]))|
    ensures ItemsPart(items, room) == Failed(if items[n].Null? || items[n].Obj? then -3 else -1)
    decreases n
  {
    hide ItemPart, EntryFormed, EntryTlvs, EntriesTlvs, Frame, Serialize;
    if n == 0 {
      EntryRefused(items[0], room);
    } else {
      EntryWritten(items[0], room);
      EntriesCons(items[..n]);
      assert items[..n][1..] == items[1..][..n - 1];
      EntriesRefused(items[1..], n - 1, room - |Frame(Tlv(5, Serialize(EntryTlvs(items[0]))))|);
    }
  }

  lemma EntryDecides(m: Members, n: nat, room: int)
    requires MembersFormed(m) && HexPairs(m["taskid"].s) && HexPairs(m["md5"].s)
    requires n < |m["firmware"].items| && !EntryFormed(m["firmware"].items[n])
    requires forall i :: 0 <= i < n ==> EntryFormed(m["firmware"].items[i])
    requires room >= |Serialize(HeadTlvs(m))| + |Serialize(EntriesTlvs(m["firmware"].items[..n]))|
    ensures J2B(m, false, room) == Failed(if m["firmware"].items[n].Null? || m["firmware"].items[n].Obj? then -3 else -1)
  {
    hide HeadPart, ItemsPart, HexPairs, ItemPresent, EntryFormed, HeadTlvs, EntriesTlvs, Serialize;
    FormedIsPresent(m);
    HeadWritten(m, room);
    EntriesRefused(m["firmware"].items, n, room - |Serialize(HeadTlvs(m))|);
  }

  /** An acknowledgement has no bytes, and none are read. */
  lemma AckIsEmpty(m: Members, room: int, data: bytes, beyond: Memory)
    ensures J2B(m, true, room) == Written([]) && B2J(data, true, m, beyond) == Decoded(0, m)
  {
  }

  // ----- The decoder

  /** What the decoder makes of one TLV in front of the rest of the data, whoever wrote it. */
  lemma TlvDecoded(t: Tlv, rest: bytes, m: Members, beyond: Memory)
    requires |t.body| < 0x4000
    ensures var d := B2J(Frame(t) + rest, false, m, beyond);
            var moved := Shifted(beyond, |Frame(t)|);
            && (t.tag == 1 ==> d == if |t.body| != 16 then Decoded(-2, m)
                                    else B2J(rest, false, m["taskid" := Str(HexOf(t.body))], moved))
            && (t.tag == 2 ==> d == B2J(rest, false, m["url" := Str(FromBytes(t.body))], moved))
            && (t.tag == 4 ==> d == if |t.body| != 16 then Decoded(-2, m)
                                    else B2J(rest, false, m["md5" := Str(HexOf(t.body))], moved))
            && (t.tag == 5 && |t.body| < 4 ==> d == Decoded(-3, m))
  {
    hide HeaderAt, Frame, FirmwareFrom, HexOf, FromBytes, U32At, Appended, LengthBytes, Shifted;
    var data := Frame(t) + rest;
    TlvAhead(t, rest, beyond);
    forall x: Members
      ensures B2JFrom(data, |Frame(t)|, x, beyond) == B2JFrom(rest, 0, x, Shifted(beyond, |Frame(t)|))
    {
      DecodingShifted(Frame(t), rest, 0, x, beyond);
    }
  }

  lemma TlvAhead(t: Tlv, rest: bytes, beyond: Memory)
    requires |t.body| < 0x4000
    ensures var data := Frame(t) + rest;
            var h := HeaderAt(data, 1, beyond);
            && data[0] == t.tag && h.length == |t.body| && 1 + h.count + h.length == |Frame(t)| <= |data|
            && data[1 + h.count..|Frame(t)|] == t.body
  {
    hide HeaderAt, Frame, LengthBytes;
    var data := Frame(t) + rest;
    assert data[0..] == data;
    FrameAt(data, 0, t, rest, beyond);
    FrameLength(t);
  }

  /** Tag 3: the size is in the next four bytes, the most significant first, however many the TLV announces. */
  lemma SizeDecoded(t: Tlv, rest: bytes, m: Members, beyond: Memory)
    requires t.tag == 3 && |t.body| < 0x4000 && |t.body + rest| >= 4
    ensures var b: seq<nat> := t.body + rest;
            var size: int := b[0] * 16777216 + b[1] * 65536 + b[2] * 256 + b[3];
            B2J(Frame(t) + rest, false, m, beyond)
            == B2J(rest, false, m["size" := Int(size)], Shifted(beyond, |Frame(t)|))
  {
    hide HeaderAt, Frame, FirmwareFrom, HexOf, FromBytes, U32At, Appended, LengthBytes, Shifted;
    var data := Frame(t) + rest;
    TlvAhead(t, rest, beyond);
    var start := 1 + HeaderAt(data, 1, beyond).count;
    FrameLength(t);
    assert data[start..] == t.body + rest;
    NumberRead(data, start, t.body + rest, beyond);
    DecodingShifted(Frame(t), rest, 0, m["size" := Int(U32At(data, start, beyond))], beyond);
  }

  lemma NumberRead(data: bytes, at: nat, b: seq<nat>, beyond: Memory)
    requires at + 4 <= |data| && data[at..] == b
    ensures U32At(data, at, beyond) == b[0] * 16777216 + b[1] * 65536 + b[2] * 256 + b[3]
  {
    hide FromBigEndian;
    assert b[0] == data[at] && b[1] == data[at + 1] && b[2] == data[at + 2] && b[3] == data[at + 3];
    FourBytesRead(b[0], b[1], b[2], b[3]);
  }

  /** What an entry's TLVs leave behind: the last of tag 1 and the last of tag 2. */
  function EntryRead(ts: seq<Tlv>, f: Firmware): Firmware
    requires forall i :: 0 <= i < |ts| && ts[i].tag == 2 ==> |ts[i].body| >= 4
    decreases |ts|
  {
    if ts == [] then f else
      EntryRead(ts[1..], After(ts[0], f))
  }

  function AddressText(a: byte, b: byte, c: byte, d: byte): text {
    IpText(((a * 256 + b) * 256 + c) * 256 + d)
  }

  lemma AddressRead(data: bytes, at: nat, beyond: Memory)
    requires at + 4 <= |data|
    ensures IpText(U32At(data, at, beyond)) == AddressText(data[at], data[at + 1], data[at + 2], data[at + 3])
  {
    hide FromBigEndian, IpText;
    FourBytesRead(data[at], data[at + 1], data[at + 2], data[at + 3]);
  }

  /** What one TLV of an entry leaves behind. */
  function After(t: Tlv, f: Firmware): Firmware
    requires t.tag == 2 ==> |t.body| >= 4
  {
    if t.tag == 1 then Firmware(FromBytes(t.body), f.version)
    else if t.tag == 2 then Firmware(f.hwcode, AddressText(t.body[0], t.body[1], t.body[2], t.body[3]))
    else f
  }

  /** One turn of the inner loop. */
  lemma EntryTurn(data: bytes, at: nat, end: nat, t: Tlv, tail: bytes, f: Firmware, beyond: Memory)
    requires |t.body| < LENGTH_LIMIT && (t.tag == 2 ==> |t.body| >= 4)
    requires at <= end <= |data| && data[at..end] == Frame(t) + tail
    ensures var next := at + |Frame(t)|;
            && next <= end && data[next..end] == tail
            && FirmwareFrom(data, at, end, f, beyond) == FirmwareFrom(data, next, end, After(t, f), beyond)
  {
    hide HeaderAt, Frame, U32At, FromBytes, LengthBytes, AddressText;
    assert data[at..] == data[at..end] + data[end..] == Frame(t) + (tail + data[end..]);
    FrameAt(data, at, t, tail + data[end..], beyond);
    FrameLength(t);
    var next := at + |Frame(t)|;
    assert data[next..end] == data[at..end][|Frame(t)|..] == tail;
    if t.tag == 2 {
      var start := next - |t.body|;
      AddressRead(data, start, beyond);
      FourOfBody(data, start, t.body);
    }
  }

  lemma {:induction false} EntryLoop(data: bytes, at: nat, end: nat, ts: seq<Tlv>, f: Firmware, beyond: Memory)
    requires at <= end <= |data| && data[at..end] == Serialize(ts) && Short(ts)
    requires forall i :: 0 <= i < |ts| && ts[i].tag == 2 ==> |ts[i].body| >= 4
    ensures FirmwareFrom(data, at, end, f, beyond) == Some(EntryRead(ts, f))
    decreases |ts|
  {
    hide FirmwareFrom, Frame, After;
    if ts == [] {
      SerializeNone();
      assert |data[at..end]| == 0;
      EntryEnd(data, at, end, f, beyond);
    } else {
      EntryTurn(data, at, end, ts[0], Serialize(ts[1..]), f, beyond);
      EntryLoop(data, at + |Frame(ts[0])|, end, ts[1..], After(ts[0], f), beyond);
    }
  }

  lemma EntryEnd(data: bytes, at: nat, end: nat, f: Firmware, beyond: Memory)
    requires at == end <= |data|
    ensures FirmwareFrom(data, at, end, f, beyond) == Some(f)
  {
  }

  lemma FourOfBody(data: bytes, start: nat, body: bytes)
    requires |body| >= 4 && start + |body| <= |data| && data[start..start + |body|] == body
    ensures data[start] == body[0] && data[start + 1] == body[1] && data[start + 2] == body[2] && data[start + 3] == body[3]
  {
    assert data[start + 1] == data[start..start + |body|][1];
    assert data[start + 2] == data[start..start + |body|][2];
    assert data[start + 3] == data[start..start + |body|][3];
  }

  /** Tag 5 appends an entry, read from the TLVs it holds; any other tags in it are passed over. */
  lemma EntryDecoded(ts: seq<Tlv>, rest: bytes, m: Members, beyond: Memory)
    requires Short(ts) && 4 <= |Serialize(ts)| < 0x4000
    requires forall i :: 0 <= i < |ts| && ts[i].tag == 2 ==> |ts[i].body| >= 4
    ensures var t := Tlv(5, Serialize(ts));
            var f := EntryRead(ts, Firmware("", ""));
            B2J(Frame(t) + rest, false, m, beyond) ==
            B2J(rest, false, AppendTo(m, "firmware", Obj(map["hwcode" := Str(f.hwcode), "version" := Str(f.version)])),
                Shifted(beyond, |Frame(t)|))
  {
    hide HeaderAt, Frame, FirmwareFrom, HexOf, FromBytes, U32At, LengthBytes, Shifted, Serialize, EntryRead;
    var t := Tlv(5, Serialize(ts));
    var data := Frame(t) + rest;
    TlvAhead(t, rest, beyond);
    EntryLoop(data, 1 + HeaderAt(data, 1, beyond).count, |Frame(t)|, ts, Firmware("", ""), beyond);
    var f := EntryRead(ts, Firmware("", ""));
    DecodingShifted(Frame(t), rest, 0, Appended(m, AsJson(f)), beyond);
  }

  /** An entry whose last TLV runs past its end: -2. */
  lemma EntryOverrun(ts: seq<Tlv>, p: bytes, rest: bytes, m: Members, beyond: Memory)
    requires Short(ts) && |Serialize(ts)| + |p| < 0x4000 && |p| >= 3 && 4 <= |Serialize(ts)| + |p|
    requires forall i :: 0 <= i < |ts| && ts[i].tag == 2 ==> |ts[i].body| >= 4
    requires var h := GetLength(p[1], p[2]); 1 + h.count + h.length > |p|
    ensures B2J(Frame(Tlv(5, Serialize(ts) + p)) + rest, false, m, beyond) == Decoded(-2, m)
  {
    hide HeaderAt, Frame, FirmwareFrom, HexOf, FromBytes, U32At, LengthBytes, Serialize, EntryRead;
    var t := Tlv(5, Serialize(ts) + p);
    var data := Frame(t) + rest;
    TlvAhead(t, rest, beyond);
    EntryLoopOverrun(data, 1 + HeaderAt(data, 1, beyond).count, |Frame(t)|, ts, p, Firmware("", ""), beyond);
  }

  lemma {:induction false} EntryLoopOverrun(data: bytes, at: nat, end: nat, ts: seq<Tlv>, p: bytes, f: Firmware, beyond: Memory)
    requires at <= end <= |data| && data[at..end] == Serialize(ts) + p && Short(ts) && |p| >= 3
    requires forall i :: 0 <= i < |ts| && ts[i].tag == 2 ==> |ts[i].body| >= 4
    requires var h := GetLength(p[1], p[2]); 1 + h.count + h.length > |p|
    ensures FirmwareFrom(data, at, end, f, beyond) == None
    decreases |ts|
  {
    hide FirmwareFrom, Frame, After, GetLength;
    if ts == [] {
      SerializeNone();
      assert data[at..end] == p;
      StopsShort(data, at, end, p, f, beyond);
    } else {
      assert Serialize(ts) + p == Frame(ts[0]) + (Serialize(ts[1..]) + p);
      EntryTurn(data, at, end, ts[0], Serialize(ts[1..]) + p, f, beyond);
      EntryLoopOverrun(data, at + |Frame(ts[0])|, end, ts[1..], p, After(ts[0], f), beyond);
    }
  }

  lemma StopsShort(data: bytes, at: nat, end: nat, p: bytes, f: Firmware, beyond: Memory)
    requires at <= end <= |data| && data[at..end] == p && |p| >= 3
    requires var h := GetLength(p[1], p[2]); 1 + h.count + h.length > |p|
    ensures FirmwareFrom(data, at, end, f, beyond) == None
  {
    hide GetLength;
    assert p[1] == data[at + 1] && p[2] == data[at + 2];
  }

  /** A TLV that announces more than there is: -2, with what was read before. */
  lemma RequestOverrun(p: bytes, m: Members, beyond: Memory)
    requires |p| >= 3
    requires var h := GetLength(p[1], p[2]); 1 + h.count + h.length > |p|
    ensures B2J(p, false, m, beyond) == Decoded(-2, m)
  {
    hide GetLength;
  }

  /** No other tag is known: decoding goes on inside such a value. */
  lemma OtherTags(t: Tlv, rest: bytes, m: Members, beyond: Memory)
    requires t.tag !in {1, 2, 3, 4, 5} && |t.body| < 0x4000
    ensures B2J(Frame(t) + rest, false, m, beyond) ==
            B2J(t.body + rest, false, m, Shifted(beyond, |Frame(t)| - |t.body|))
  {
    hide B2JFrom, Frame, Shifted;
    FrameBytes(t);
    var header := Frame(t)[..|Frame(t)| - |t.body|];
    UnknownEntered(t, rest, m, beyond);
    assert Frame(t) + rest == header + (t.body + rest);
    DecodingShifted(header, t.body + rest, 0, m, beyond);
  }
}
