/**
 The start-upgrade command (topic 5, command 3): a hand-written two-level TLV encoding, its
 decoder, and which requests survive the trip.
 */
module Upgrade {
  import opened Octets
  import opened JsonValue
  import opened Tlv
  import opened DottedQuad

  const T_TASKID: byte := 1
  const T_URL: byte := 2
  const T_SIZE: byte := 3
  const T_MD5: byte := 4
  const T_FIRMWARE: byte := 5
  const T_HWCODE: byte := 1
  const T_VERSION: byte := 2

  const URL_MAX := 256
  const HWCODE_MAX := 32

  // ----- Writing one parameter; None is the exception of a full buffer or a bad digit

  function Cut(s: text, maxLen: nat): text {
    if |s| > maxLen then s[..maxLen] else s
  }

  function ParamBytes(s: text, t: byte, room: int): Option<bytes> {
    if room < 1 + |LengthBytes(|s| / 2)| + |s| / 2 || !HexPairs(s) then None
    else Some(Frame(Tlv(t, HexBytes(s))))
  }

  /** Above 127 bytes the room test has one byte too few: it counts two of the three header bytes. */
  function ParamString(s: text, t: byte, room: int, maxLen: nat): Option<bytes> {
    var value := Cut(s, maxLen);
    if room < (if |value| > 127 then 2 + |value| else 3 + |value|) then None else Some(Frame(Tlv(t, ToBytes(value))))
  }

  /** The byte of the string that is stored behind the room, if it passes the test and does not fit. */
  function ParamStray(s: text, room: int, maxLen: nat): Option<byte> {
    var value := Cut(s, maxLen);
    if |value| > 127 && room == 2 + |value| then Some(ToBytes(value)[|value| - 1]) else None
  }

  function ParamU32(n: u32, t: byte, room: int): Option<bytes> {
    if room < 6 then None else Some(Frame(Tlv(t, BigEndian(n, 4))))
  }

  // ----- The encoder

  datatype Outcome = Failed(code: int) | Written(b: bytes)

  predicate HasString(m: Members, key: string) {
    Get(m, key).Str?
  }

  predicate FieldsPresent(m: Members) {
    && HasString(m, "taskid") && HasString(m, "url") && Get(m, "size").IsUInt()
    && HasString(m, "md5") && Get(m, "firmware").Arr?
  }

  predicate ItemPresent(item: Json) {
    item.Obj? && HasString(item.members, "hwcode") && HasString(item.members, "version")
  }

  /** The four leading parameters, each in what the ones before it leave of the room. */
  function HeadPart(m: Members, room: int): Option<bytes>
    requires FieldsPresent(m)
  {
    var a := ParamBytes(m["taskid"].s, T_TASKID, room);
    if a.None? then None else
      var b := ParamString(m["url"].s, T_URL, room - |a.value|, URL_MAX);
      if b.None? then None else
        var c := ParamU32(m["size"].n, T_SIZE, room - |a.value| - |b.value|);
        if c.None? then None else
          var d := ParamBytes(m["md5"].s, T_MD5, room - |a.value| - |b.value| - |c.value|);
          if d.None? then None else Some(a.value + b.value + c.value + d.value)
  }

  /** Only the url is long enough to be stored behind the room. */
  function HeadStray(m: Members, room: int): Option<byte>
    requires FieldsPresent(m)
  {
    var a := ParamBytes(m["taskid"].s, T_TASKID, room);
    if a.None? then None else ParamStray(m["url"].s, room - |a.value|, URL_MAX)
  }

  /** One firmware entry; its length is filled in after its two parameters. */
  function ItemPart(item: Json, room: int): Outcome {
    if !item.Null? && !item.Obj? then Failed(-1)
    else if !ItemPresent(item) then Failed(-3)
    else
      var hw := ParamString(item.members["hwcode"].s, T_HWCODE, room - 2, HWCODE_MAX);
      if hw.None? then Failed(-1) else
        var ip := ParamU32(Str2Ip(item.members["version"].s), T_VERSION, room - 2 - |hw.value|);
        if ip.None? then Failed(-1) else Written(Frame(Tlv(T_FIRMWARE, hw.value + ip.value)))
  }

  function ItemsPart(items: seq<Json>, room: int): Outcome
    decreases |items|
  {
    if items == [] then Written([]) else
      var first := ItemPart(items[0], room);
      if first.Failed? then first else
        var rest := ItemsPart(items[1..], room - |first.b|);
        if rest.Failed? then rest else Written(first.b + rest.b)
  }

  function J2B(m: Members, isAck: bool, room: int): Outcome {
    if isAck then Written([])
    else if !FieldsPresent(m) || |m["taskid"].s| != 32 || |m["md5"].s| != 32 then Failed(-2)
    else
      var head := HeadPart(m, room);
      if head.None? then Failed(-1) else
        var items := ItemsPart(m["firmware"].items, room - |head.value|);
        if items.Failed? then items else Written(head.value + items.b)
  }

  /** The byte j2b stores behind the room. */
  function RequestStray(m: Members, isAck: bool, room: int): Option<byte> {
    if isAck || !FieldsPresent(m) || |m["taskid"].s| != 32 || |m["md5"].s| != 32 then None else HeadStray(m, room)
  }

  /**
   The encoder stores a byte behind the room exactly when the url has more than 127 bytes and the
   room ends with its last but one.  It then fails at the next parameter.
   */
  lemma StrayExactly(m: Members, isAck: bool, room: int)
    ensures RequestStray(m, isAck, room).Some? <==>
            && !isAck && FieldsPresent(m) && |m["taskid"].s| == 32 && |m["md5"].s| == 32 && HexPairs(m["taskid"].s)
            && |Cut(m["url"].s, URL_MAX)| > 127 && room == 20 + |Cut(m["url"].s, URL_MAX)|
    ensures RequestStray(m, isAck, room).Some? ==> J2B(m, isAck, room) == Failed(-1)
  {
    hide Frame, HexPairs, HexBytes, Cut, ItemsPart;
    if FieldsPresent(m) && |m["taskid"].s| == 32 {
      LengthBytesSmall(16);
      var url := m["url"].s;
      if HexPairs(m["taskid"].s) {
        FrameLength(Tlv(T_TASKID, HexBytes(m["taskid"].s)));
      }
      CutShort(url, URL_MAX);
      LengthBytesSmall(|Cut(url, URL_MAX)|);
      FrameLength(Tlv(T_URL, ToBytes(Cut(url, URL_MAX))));
    }
  }

  /** For every url of 128 to 256 bytes there is such a room. */
  lemma UrlBehindRoom(m: Members)
    requires FieldsPresent(m) && |m["taskid"].s| == 32 && HexPairs(m["taskid"].s) && |m["md5"].s| == 32
    requires 128 <= |m["url"].s| <= URL_MAX
    ensures var url := m["url"].s;
            && RequestStray(m, false, 20 + |url|) == Some(url[|url| - 1] as int)
            && J2B(m, false, 20 + |url|) == Failed(-1)
  {
    hide J2B, HexPairs;
    StrayExactly(m, false, 20 + |m["url"].s|);
  }

  // ----- The decoder

  datatype Decoded = Decoded(rc: int, m: Members)

  /** Four bytes as they stand in memory, whatever the announced length. */
  function U32At(data: bytes, at: nat, beyond: Memory): u32 {
    var b := [At(data, at, beyond(at)), At(data, at + 1, beyond(at + 1)),
              At(data, at + 2, beyond(at + 2)), At(data, at + 3, beyond(at + 3))];
    FourBytesBound(b);
    FromBigEndian(b)
  }

  lemma FourBytesBound(b: bytes)
    requires |b| == 4
    ensures FromBigEndian(b) < 0x1_0000_0000
  {
    FromBigEndianBound(b);
    assert Pow256(2) == 0x1_0000 && Pow256(4) == 0x1_0000_0000;
  }

  datatype Firmware = Firmware(hwcode: text, version: text)

  /** The inner loop over one entry that ends at `end`; None when a TLV runs past it. */
  function FirmwareFrom(data: bytes, at: nat, end: nat, f: Firmware, beyond: Memory): Option<Firmware>
    requires end <= |data|
    decreases end - at
  {
    if at >= end then Some(f) else
      var h := HeaderAt(data, at + 1, beyond);
      var start := at + 1 + h.count;
      if start + h.length > end then None else
        var g := if data[at] == T_HWCODE then f.(hwcode := FromBytes(data[start..start + h.length]))
                 else if data[at] == T_VERSION then f.(version := IpText(U32At(data, start, beyond)))
                 else f;
        FirmwareFrom(data, start + h.length, end, g, beyond)
  }

  function AsJson(f: Firmware): Json {
    Obj(map["hwcode" := Str(f.hwcode), "version" := Str(f.version)])
  }

  /** jsonRoot["firmware"].append(...) */
  function Appended(m: Members, x: Json): Members {
    AppendTo(m, "firmware", x)
  }

  /** The outer loop.  An unknown tag is not skipped: decoding goes on inside its value. */
  function B2JFrom(data: bytes, offset: nat, m: Members, beyond: Memory): Decoded
    requires offset <= |data|
    decreases |data| - offset
  {
    if offset == |data| then Decoded(0, m) else
      var t := data[offset];
      var h := HeaderAt(data, offset + 1, beyond);
      var start := offset + 1 + h.count;
      var end := start + h.length;
      if end > |data| then Decoded(-2, m)
      else if t == T_TASKID then
        if h.length != 16 then Decoded(-2, m)
        else B2JFrom(data, end, m["taskid" := Str(HexOf(data[start..end]))], beyond)
      else if t == T_URL then
        B2JFrom(data, end, m["url" := Str(FromBytes(data[start..end]))], beyond)
      else if t == T_SIZE then
        B2JFrom(data, end, m["size" := Int(U32At(data, start, beyond))], beyond)
      else if t == T_MD5 then
        if h.length != 16 then Decoded(-2, m)
        else B2JFrom(data, end, m["md5" := Str(HexOf(data[start..end]))], beyond)
      else if t == T_FIRMWARE then
        if h.length < 4 then Decoded(-3, m) else
          var f := FirmwareFrom(data, start, end, Firmware("", ""), beyond);
          if f.None? then Decoded(-2, m)
          else B2JFrom(data, end, Appended(m, AsJson(f.value)), beyond)
      else B2JFrom(data, start, m, beyond)
  }

  function B2J(data: bytes, isAck: bool, m: Members, beyond: Memory): Decoded {
    if isAck then Decoded(0, m) else B2JFrom(data, 0, m, beyond)
  }

  // ----- What comes back

  function NormalFirmware(item: Json): Firmware
    requires ItemPresent(item)
  {
    Firmware(Cut(item.members["hwcode"].s, HWCODE_MAX), IpText(Str2Ip(item.members["version"].s)))
  }

  function NormalItems(items: seq<Json>): (r: seq<Json>)
    requires forall i :: 0 <= i < |items| ==> ItemPresent(items[i])
    ensures |r| == |items|
  {
    seq(|items|, i requires 0 <= i < |items| => AsJson(NormalFirmware(items[i])))
  }

  function NormalHead(m: Members): Members
    requires FieldsPresent(m)
  {
    map["taskid" := Str(UpperPairs(m["taskid"].s)), "url" := Str(Cut(m["url"].s, URL_MAX)),
        "size" := m["size"], "md5" := Str(UpperPairs(m["md5"].s))]
  }

  function WithItems(m: Members, items: seq<Json>): Members {
    if items == [] then m else m["firmware" := Arr(items)]
  }

  lemma U32InBody(data: bytes, start: nat, n: u32, beyond: Memory)
    requires start + 4 <= |data| && data[start..start + 4] == BigEndian(n, 4)
    ensures U32At(data, start, beyond) == n
  {
    var b := data[start..start + 4];
    assert b == [data[start], data[start + 1], data[start + 2], data[start + 3]];
    BigEndianRoundTrip(n, 4);
    assert Pow256(2) == 0x1_0000 && Pow256(4) == 0x1_0000_0000;
  }

  // ----- Reading back what was written

  /** The two TLVs inside a firmware entry. */
  function HwTlv(item: Json): Tlv requires ItemPresent(item) {
    Tlv(T_HWCODE, ToBytes(Cut(item.members["hwcode"].s, HWCODE_MAX)))
  }

  function VersionTlv(item: Json): Tlv requires ItemPresent(item) {
    Tlv(T_VERSION, BigEndian(Str2Ip(item.members["version"].s), 4))
  }

  function ItemTlv(item: Json): Tlv requires ItemPresent(item) {
    Tlv(T_FIRMWARE, Frame(HwTlv(item)) + Frame(VersionTlv(item)))
  }

  lemma ItemBytes(item: Json, room: int)
    requires ItemPart(item, room).Written?
    ensures ItemPresent(item) && ItemPart(item, room).b == Frame(ItemTlv(item))
    ensures 8 <= |ItemTlv(item).body| <= 40
  {
    hide Frame, Cut, ToBytes, BigEndian;
    HwSize(item);
  }

  lemma HwSize(item: Json)
    requires ItemPresent(item)
    ensures 2 <= |Frame(HwTlv(item))| <= 2 + HWCODE_MAX && |Frame(VersionTlv(item))| == 6
  {
  }

  /** The inner loop over the bytes of an entry gives its normal form. */
  lemma FirmwareReadBack(data: bytes, start: nat, end: nat, item: Json, beyond: Memory)
    requires ItemPresent(item)
    requires start <= end <= |data| && data[start..end] == ItemTlv(item).body
    ensures FirmwareFrom(data, start, end, Firmware("", ""), beyond) == Some(NormalFirmware(item))
  {
    hide Frame, BigEndian, HeaderAt, U32At, Cut, Str2Ip, IpText, HexBytes;
    var hw, ver := HwTlv(item), VersionTlv(item);
    HwSize(item);
    var tail := data[end..];
    assert data[start..] == data[start..end] + tail;
    assert data[start..] == Frame(hw) + (Frame(ver) + tail);
    FrameLength(hw);
    FrameLength(ver);
    CutShort(item.members["hwcode"].s, HWCODE_MAX);
    FrameAt(data, start, hw, Frame(ver) + tail, beyond);
    var mid := start + |Frame(hw)|;
    FrameAt(data, mid, ver, tail, beyond);
    TextRoundTrip(Cut(item.members["hwcode"].s, HWCODE_MAX));
    U32InBody(data, mid + 2, Str2Ip(item.members["version"].s), beyond);
    FourByteField();
    var n := NormalFirmware(item);
    assert FirmwareFrom(data, end, end, n, beyond) == Some(n);
    assert FirmwareFrom(data, mid, end, Firmware(n.hwcode, ""), beyond) == Some(n);
  }

  lemma FourByteField()
    ensures |LengthBytes(4)| == 1
  {
  }

  lemma CutShort(s: text, maxLen: nat)
    ensures |Cut(s, maxLen)| <= maxLen
  {
  }

  lemma ItemTag(item: Json)
    requires ItemPresent(item)
    ensures ItemTlv(item).tag == T_FIRMWARE
  {
  }

  /** One turn of the outer loop on a firmware entry. */
  lemma FirmwareStep(data: bytes, offset: nat, item: Json, rest: bytes, m: Members, beyond: Memory)
    requires ItemPresent(item)
    requires offset <= |data| && data[offset..] == Frame(ItemTlv(item)) + rest
    requires 8 <= |ItemTlv(item).body| <= 40
    ensures var end := |data| - |rest|;
            && end > offset && data[end..] == rest
            && B2JFrom(data, offset, m, beyond) == B2JFrom(data, end, Appended(m, AsJson(NormalFirmware(item))), beyond)
  {
    hide Frame, HeaderAt, FirmwareFrom, ItemPresent, AsJson, Appended, NormalFirmware, HexOf, FromBytes, U32At, ItemTlv;
    ItemTag(item);
    FrameAt(data, offset, ItemTlv(item), rest, beyond);
    var h := HeaderAt(data, offset + 1, beyond);
    var start := offset + 1 + h.count;
    var end := start + h.length;
    FirmwareReadBack(data, start, end, item, beyond);
    assert |data[end..]| == |rest|;
  }

  lemma {:induction false} ItemsReadBack(data: bytes, offset: nat, items: seq<Json>, room: int, m: Members, sofar: seq<Json>, beyond: Memory)
    requires ItemsPart(items, room).Written?
    requires offset <= |data| && data[offset..] == ItemsPart(items, room).b
    requires "firmware" !in m
    requires forall i :: 0 <= i < |items| ==> ItemPresent(items[i])
    ensures B2JFrom(data, offset, WithItems(m, sofar), beyond) ==
            Decoded(0, WithItems(m, sofar + NormalItems(items)))
    decreases |items|
  {
    hide ItemPart, NormalFirmware, ItemPresent, AsJson, WithItems, NormalItems, ItemsPart, B2JFrom, ItemTlv, Frame;
    if items == [] {
      ItemsEnd(data, offset, room, WithItems(m, sofar), beyond);
      assert sofar + NormalItems(items) == sofar by { NoNormalItems(); }
    } else {
      ItemsPartSplit(items, room);
      var left := room - |ItemPart(items[0], room).b|;
      var rest := ItemsPart(items[1..], left).b;
      var x := AsJson(NormalFirmware(items[0]));
      FirmwareStep(data, offset, items[0], rest, WithItems(m, sofar), beyond);
      AppendItem(m, sofar, x);
      ItemsReadBack(data, |data| - |rest|, items[1..], left, m, sofar + [x], beyond);
      NormalItemsCons(items);
      Associative(sofar, x, NormalItems(items[1..]));
    }
  }

  lemma Associative(s: seq<Json>, x: Json, t: seq<Json>)
    ensures s + [x] + t == s + ([x] + t)
  {
  }

  lemma NoNormalItems()
    ensures NormalItems([]) == []
  {
  }

  lemma ItemsEnd(data: bytes, offset: nat, room: int, m: Members, beyond: Memory)
    requires offset <= |data| && data[offset..] == ItemsPart([], room).b
    ensures B2JFrom(data, offset, m, beyond) == Decoded(0, m)
  {
    assert |data[offset..]| == 0;
  }

  lemma {:induction false} ItemsPartPresent(items: seq<Json>, room: int)
    requires ItemsPart(items, room).Written?
    ensures forall i :: 0 <= i < |items| ==> ItemPresent(items[i])
    decreases |items|
  {
    hide *;
    if items != [] {
      ItemsPartSplit(items, room);
      ItemsPartPresent(items[1..], room - |ItemPart(items[0], room).b|);
    }
  }

  lemma ItemsPartSplit(items: seq<Json>, room: int)
    requires items != [] && ItemsPart(items, room).Written?
    ensures ItemPart(items[0], room).Written? && ItemPresent(items[0])
    ensures ItemPart(items[0], room).b == Frame(ItemTlv(items[0])) && 8 <= |ItemTlv(items[0]).body| <= 40
    ensures ItemsPart(items[1..], room - |ItemPart(items[0], room).b|).Written?
    ensures ItemsPart(items, room).b ==
            ItemPart(items[0], room).b + ItemsPart(items[1..], room - |ItemPart(items[0], room).b|).b
  {
    hide ItemPart, ItemPresent, ItemTlv, Frame;
    ItemBytes(items[0], room);
  }

  lemma NormalItemsCons(items: seq<Json>)
    requires items != [] && forall i :: 0 <= i < |items| ==> ItemPresent(items[i])
    ensures NormalItems(items) == [AsJson(NormalFirmware(items[0]))] + NormalItems(items[1..])
  {
    hide ItemPresent, AsJson, NormalFirmware;
  }

  lemma AppendItem(m: Members, sofar: seq<Json>, x: Json)
    requires "firmware" !in m
    ensures Appended(WithItems(m, sofar), x) == WithItems(m, sofar + [x])
  {
    assert [] + [x] == [x];
  }

  /** One turn of the outer loop on a hexadecimal parameter of 16 bytes. */
  lemma HexStep(data: bytes, offset: nat, t: Tlv, rest: bytes, m: Members, beyond: Memory)
    requires (t.tag == T_TASKID || t.tag == T_MD5) && |t.body| == 16
    requires offset <= |data| && data[offset..] == Frame(t) + rest
    ensures var end := |data| - |rest|;
            && end > offset && data[end..] == rest
            && B2JFrom(data, offset, m, beyond) ==
               B2JFrom(data, end, m[(if t.tag == T_TASKID then "taskid" else "md5") := Str(HexOf(t.body))], beyond)
  {
    hide Frame, HeaderAt, FirmwareFrom, HexOf, FromBytes, U32At;
    FrameAt(data, offset, t, rest, beyond);
    var h := HeaderAt(data, offset + 1, beyond);
    assert |data[offset + 1 + h.count + h.length..]| == |rest|;
  }

  lemma UrlStep(data: bytes, offset: nat, t: Tlv, rest: bytes, m: Members, beyond: Memory)
    requires t.tag == T_URL && |t.body| < LENGTH_LIMIT
    requires offset <= |data| && data[offset..] == Frame(t) + rest
    ensures var end := |data| - |rest|;
            && end > offset && data[end..] == rest
            && B2JFrom(data, offset, m, beyond) == B2JFrom(data, end, m["url" := Str(FromBytes(t.body))], beyond)
  {
    hide Frame, HeaderAt, FirmwareFrom, HexOf, FromBytes, U32At;
    FrameAt(data, offset, t, rest, beyond);
    var h := HeaderAt(data, offset + 1, beyond);
    assert |data[offset + 1 + h.count + h.length..]| == |rest|;
  }

  lemma SizeStep(data: bytes, offset: nat, n: u32, rest: bytes, m: Members, beyond: Memory)
    requires offset <= |data| && data[offset..] == Frame(Tlv(T_SIZE, BigEndian(n, 4))) + rest
    ensures var end := |data| - |rest|;
            && end > offset && data[end..] == rest
            && B2JFrom(data, offset, m, beyond) == B2JFrom(data, end, m["size" := Int(n)], beyond)
  {
    hide Frame, HeaderAt, FirmwareFrom, HexOf, FromBytes, U32At, BigEndian;
    FrameAt(data, offset, Tlv(T_SIZE, BigEndian(n, 4)), rest, beyond);
    var h := HeaderAt(data, offset + 1, beyond);
    U32InBody(data, offset + 1 + h.count, n, beyond);
    assert |data[offset + 1 + h.count + h.length..]| == |rest|;
  }

  lemma HeadBytes(m: Members, room: int)
    requires FieldsPresent(m) && HeadPart(m, room).Some?
    ensures HexPairs(m["taskid"].s) && HexPairs(m["md5"].s)
    ensures HeadPart(m, room).value ==
            Frame(Tlv(T_TASKID, HexBytes(m["taskid"].s))) + Frame(Tlv(T_URL, ToBytes(Cut(m["url"].s, URL_MAX))))
            + Frame(Tlv(T_SIZE, BigEndian(m["size"].n, 4))) + Frame(Tlv(T_MD5, HexBytes(m["md5"].s)))
  {
    hide Frame, BigEndian, HexBytes, ToBytes, Cut, HexPairs;
  }

  /** The object that comes back for an accepted request. */
  function Normal(m: Members): Members
    requires FieldsPresent(m)
    requires forall i :: 0 <= i < |m["firmware"].items| ==> ItemPresent(m["firmware"].items[i])
  {
    WithItems(NormalHead(m), NormalItems(m["firmware"].items))
  }

  /** Whatever request is accepted, decoding what was written gives its normal form. */
  lemma ReadBack(m: Members, room: int, beyond: Memory)
    requires J2B(m, false, room).Written?
    ensures FieldsPresent(m)
    ensures forall i :: 0 <= i < |m["firmware"].items| ==> ItemPresent(m["firmware"].items[i])
    ensures B2J(J2B(m, false, room).b, false, map[], beyond) == Decoded(0, Normal(m))
  {
    hide Frame, B2JFrom, HeadPart, BigEndian, HexBytes, ToBytes, UpperPairs, HexOf, Cut, HexPairs, ItemPart,
         ItemsPart, FromBytes, NormalItems, WithItems, ItemPresent;
    var data := J2B(m, false, room).b;
    var task, md5, url := m["taskid"].s, m["md5"].s, m["url"].s;
    HeadBytes(m, room);
    var a, b := Frame(Tlv(T_TASKID, HexBytes(task))), Frame(Tlv(T_URL, ToBytes(Cut(url, URL_MAX))));
    var c, d := Frame(Tlv(T_SIZE, BigEndian(m["size"].n, 4))), Frame(Tlv(T_MD5, HexBytes(md5)));
    var items := m["firmware"].items;
    var left := room - |HeadPart(m, room).value|;
    var e := ItemsPart(items, left).b;
    assert data == a + b + c + d + e;
    assert data[0..] == a + (b + (c + (d + e)));
    CutShort(url, URL_MAX);
    ItemsPartPresent(items, left);
    var m1 := map["taskid" := Str(HexOf(HexBytes(task)))];
    HexStep(data, 0, Tlv(T_TASKID, HexBytes(task)), b + (c + (d + e)), map[], beyond);
    var m2 := m1["url" := Str(FromBytes(ToBytes(Cut(url, URL_MAX))))];
    UrlStep(data, |data| - |b + (c + (d + e))|, Tlv(T_URL, ToBytes(Cut(url, URL_MAX))), c + (d + e), m1, beyond);
    var m3 := m2["size" := Int(m["size"].n)];
    SizeStep(data, |data| - |c + (d + e)|, m["size"].n, d + e, m2, beyond);
    var m4 := m3["md5" := Str(HexOf(HexBytes(md5)))];
    HexStep(data, |data| - |d + e|, Tlv(T_MD5, HexBytes(md5)), e, m3, beyond);
    TextRoundTrip(Cut(url, URL_MAX));
    HexRoundTrip(task);
    HexRoundTrip(md5);
    assert m4 == NormalHead(m);
    assert WithItems(m4, []) == m4 by { NoItems(m4); }
    ItemsReadBack(data, |data| - |e|, items, left, m4, [], beyond);
    assert [] + NormalItems(items) == NormalItems(items);
  }

  lemma NoItems(m: Members)
    ensures WithItems(m, []) == m
  {
  }

  // ----- Which requests come back unchanged

  predicate CanonicalItem(item: Json)
    requires ItemPresent(item)
  {
    && item.members.Keys == {"hwcode", "version"}
    && |item.members["hwcode"].s| <= HWCODE_MAX
    && IpText(Str2Ip(item.members["version"].s)) == item.members["version"].s
  }

  /** Upper-case identifiers, lengths within their limits, at least one entry, and nothing else. */
  predicate Canonical(m: Members)
    requires FieldsPresent(m)
    requires forall i :: 0 <= i < |m["firmware"].items| ==> ItemPresent(m["firmware"].items[i])
  {
    && m.Keys == {"taskid", "url", "size", "md5", "firmware"}
    && IsUpperHex(m["taskid"].s) && IsUpperHex(m["md5"].s)
    && |m["url"].s| <= URL_MAX
    && m["firmware"].items != []
    && forall i :: 0 <= i < |m["firmware"].items| ==> CanonicalItem(m["firmware"].items[i])
  }

  lemma CutFixed(s: text, maxLen: nat)
    ensures Cut(s, maxLen) == s <==> |s| <= maxLen
  {
  }

  lemma ItemFixed(item: Json)
    requires ItemPresent(item)
    ensures AsJson(NormalFirmware(item)) == item <==> CanonicalItem(item)
  {
    hide IpText, Str2Ip, Cut;
    var m := item.members;
    CutFixed(m["hwcode"].s, HWCODE_MAX);
    var n := AsJson(NormalFirmware(item)).members;
    assert n.Keys == {"hwcode", "version"};
    if CanonicalItem(item) {
      assert n == m;
    }
    if n == m {
      assert n["hwcode"] == m["hwcode"] && n["version"] == m["version"];
    }
  }

  lemma ItemsFixed(items: seq<Json>)
    requires forall i :: 0 <= i < |items| ==> ItemPresent(items[i])
    ensures NormalItems(items) == items <==> forall i :: 0 <= i < |items| ==> CanonicalItem(items[i])
  {
    hide CanonicalItem, AsJson, NormalFirmware, ItemPresent;
    forall i | 0 <= i < |items|
      ensures NormalItems(items)[i] == items[i] <==> CanonicalItem(items[i])
    {
      ItemFixed(items[i]);
    }
  }

  /** An accepted request comes back as itself exactly when it is canonical. */
  lemma RoundTripExactly(m: Members, room: int, beyond: Memory)
    requires J2B(m, false, room).Written?
    ensures FieldsPresent(m)
    ensures forall i :: 0 <= i < |m["firmware"].items| ==> ItemPresent(m["firmware"].items[i])
    ensures B2J(J2B(m, false, room).b, false, map[], beyond) == Decoded(0, m) <==> Canonical(m)
  {
    ReadBack(m, room, beyond);
    var head := HeadPart(m, room);
    HeadBytes(m, room);
    hide B2J, J2B, HeadPart, UpperPairs, HexPairs, IsUpperHex, Cut, NormalItems, CanonicalItem, ItemPresent;
    UpperHexFixed(m["taskid"].s);
    UpperHexFixed(m["md5"].s);
    CutFixed(m["url"].s, URL_MAX);
    ItemsFixed(m["firmware"].items);
    NormalFixed(m);
  }

  lemma NormalFixed(m: Members)
    requires FieldsPresent(m)
    requires forall i :: 0 <= i < |m["firmware"].items| ==> ItemPresent(m["firmware"].items[i])
    ensures Normal(m) == m <==>
            && m.Keys == {"taskid", "url", "size", "md5", "firmware"}
            && UpperPairs(m["taskid"].s) == m["taskid"].s && UpperPairs(m["md5"].s) == m["md5"].s
            && Cut(m["url"].s, URL_MAX) == m["url"].s
            && m["firmware"].items != [] && NormalItems(m["firmware"].items) == m["firmware"].items
  {
    hide UpperPairs, Cut, NormalItems, ItemPresent;
    var n := Normal(m);
    var items := m["firmware"].items;
    assert |NormalItems(items)| == |items|;
    if n == m {
      assert "firmware" in n;
      assert n["taskid"] == m["taskid"] && n["md5"] == m["md5"] && n["url"] == m["url"] && n["firmware"] == m["firmware"];
      assert n.Keys == {"taskid", "url", "size", "md5", "firmware"};
    } else if m.Keys == {"taskid", "url", "size", "md5", "firmware"} && items != [] {
      assert n.Keys == m.Keys;
    }
  }
}
