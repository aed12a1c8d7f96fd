/** The start-upgrade command as it runs: parameters appended to the caller's buffer, decoder loops. */
module UpgradeBuffers {
  import opened Octets
  import opened Buffers
  import opened JsonValue
  import opened Tlv
  import opened DottedQuad
  import opened SchemaBuffers
  import opened Upgrade

  method WriteParamBytes(s: text, t: byte, buf: array<byte>, base: nat, room: nat) returns (ok: bool, count: nat)
    requires |s| / 2 < LENGTH_LIMIT && base + room <= buf.Length
    modifies buf
    ensures ok == ParamBytes(s, t, room).Some?
    ensures ok ==> count == |ParamBytes(s, t, room).value| <= room && Holds(buf, base, ParamBytes(s, t, room).value)
    ensures OnlyWithin(buf, base, room)
  {
    hide LengthBytes;
    ok, count := false, 0;
    LengthBytesSmall(|s| / 2);
    if room == 0 {
      return;
    }
    var fits, start := WriteHeader(t, |s| / 2, buf, base, room);
    if !fits || room < start + |s| / 2 {
      return;
    }
    var n := HexStringToBytes(s, buf, base + start, room - start);
    if n < 0 {
      return;
    }
    HeaderAndBody(buf, base, t, HexBytes(s));
    SerializeOne(Tlv(t, HexBytes(s)));
    ok, count := true, start + n;
  }

  /** A string of more than 127 bytes may end one byte behind the room. */
  method WriteParamString(s: text, t: byte, buf: array<byte>, base: nat, room: int, maxLen: nat) returns (ok: bool, count: nat)
    requires maxLen < LENGTH_LIMIT && base + room < buf.Length
    modifies buf
    ensures ok == ParamString(s, t, room, maxLen).Some?
    ensures ok ==> count == |ParamString(s, t, room, maxLen).value| && Holds(buf, base, ParamString(s, t, room, maxLen).value)
    ensures ok ==> count == if ParamStray(s, room, maxLen).Some? then room + 1 else |ParamString(s, t, room, maxLen).value|
    ensures ok && ParamStray(s, room, maxLen).None? ==> count <= room
    ensures room >= 0 ==> OnlyWithin(buf, base, room + 1)
    ensures room >= 0 ==> buf[base + room] == Behind(ParamStray(s, room, maxLen), old(buf[base + room]))
    ensures room < 0 ==> !ok && buf[..] == old(buf[..])
  {
    hide LengthBytes;
    ok, count := false, 0;
    var value := Cut(s, maxLen);
    CutShort(s, maxLen);
    if room < (if |value| > 127 then 2 + |value| else 3 + |value|) {
      return;
    }
    LengthBytesSmall(|value|);
    var _, start := WriteHeader(t, |value|, buf, base, room);
    CopyIn(ToBytes(value), buf, base + start);
    HeaderAndBody(buf, base, t, ToBytes(value));
    SerializeOne(Tlv(t, ToBytes(value)));
    ok, count := true, start + |value|;
  }

  method WriteParamU32(n: u32, t: byte, buf: array<byte>, base: nat, room: int) returns (ok: bool, count: nat)
    requires base + room <= buf.Length
    modifies buf
    ensures ok == ParamU32(n, t, room).Some?
    ensures ok ==> count == |ParamU32(n, t, room).value| <= room && Holds(buf, base, ParamU32(n, t, room).value)
    ensures forall i :: 0 <= i < buf.Length && !(base <= i < base + room) ==> buf[i] == old(buf[i])
  {
    ok, count := false, 0;
    if room < 6 {
      return;
    }
    LengthBytesSmall(4);
    var _, start := WriteHeader(t, 4, buf, base, room);
    CopyIn(BigEndian(n, 4), buf, base + start);
    HeaderAndBody(buf, base, t, BigEndian(n, 4));
    SerializeOne(Tlv(t, BigEndian(n, 4)));
    ok, count := true, start + 4;
  }

  /** The four leading parameters. */
  method WriteHead(m: Members, buf: array<byte>, room: nat) returns (ok: bool, count: nat)
    requires FieldsPresent(m) && |m["taskid"].s| == 32 && |m["md5"].s| == 32
    requires room < buf.Length
    modifies buf
    ensures ok == HeadPart(m, room).Some?
    ensures ok ==> count == |HeadPart(m, room).value| <= room && Holds(buf, 0, HeadPart(m, room).value)
    ensures OnlyWithin(buf, 0, room + 1)
    ensures buf[room] == Behind(HeadStray(m, room), old(buf[room]))
    ensures ok ==> HeadStray(m, room) == None
  {
    hide ParamBytes, ParamString, ParamU32, ParamStray;
    ok, count := WriteParamBytes(m["taskid"].s, T_TASKID, buf, 0, room);
    if !ok {
      return;
    }
    ghost var done := ParamBytes(m["taskid"].s, T_TASKID, room).value;
    var n;
    ok, n := WriteParamString(m["url"].s, T_URL, buf, count, room - count, URL_MAX);
    if !ok {
      return;
    }
    HoldsJoin(buf, 0, done, ParamString(m["url"].s, T_URL, room - count, URL_MAX).value);
    done := done + ParamString(m["url"].s, T_URL, room - count, URL_MAX).value;
    count := count + n;
    ok, n := WriteParamU32(m["size"].n, T_SIZE, buf, count, room - count);
    if !ok {
      return;
    }
    HoldsJoin(buf, 0, done, ParamU32(m["size"].n, T_SIZE, room - count).value);
    done := done + ParamU32(m["size"].n, T_SIZE, room - count).value;
    count := count + n;
    ok, n := WriteParamBytes(m["md5"].s, T_MD5, buf, count, room - count);
    if !ok {
      return;
    }
    HoldsJoin(buf, 0, done, ParamBytes(m["md5"].s, T_MD5, room - count).value);
    count := count + n;
  }

  /** One entry: tag, a gap for the length, the two parameters, then the length into the gap. */
  method WriteItem(item: Json, buf: array<byte>, base: nat, room: nat) returns (rc: int, count: nat)
    requires base + room < buf.Length
    modifies buf
    ensures rc == match ItemPart(item, room) case Failed(c) => c case Written(_) => 0
    ensures rc == 0 ==> ItemPart(item, room).Written? && count == |ItemPart(item, room).b| <= room
    ensures rc == 0 ==> Holds(buf, base, ItemPart(item, room).b)
    ensures OnlyWithin(buf, base, room)
  {
    hide ItemPart, Frame;
    ItemChecks(item, room);
    count := 0;
    if !item.Null? && !item.Obj? {
      return -1, count;
    }
    if !ItemPresent(item) {
      return -3, count;
    }
    if room > 0 {
      buf[base] := T_FIRMWARE;
    }
    var ok, n, body := WriteEntry(item, buf, base + 2, room - 2);
    if !ok {
      return -1, count;
    }
    PatchLength(buf, base, n, body);
    return 0, 2 + n;
  }

  /** The two parameters of an entry. */
  method WriteEntry(item: Json, buf: array<byte>, base: nat, room: int) returns (ok: bool, count: nat, ghost body: bytes)
    requires ItemPresent(item) && base + room < buf.Length
    modifies buf
    ensures ok == ItemPart(item, room + 2).Written?
    ensures !ok ==> ItemPart(item, room + 2) == Failed(-1)
    ensures ok ==> ItemPart(item, room + 2).b == Frame(Tlv(T_FIRMWARE, body))
    ensures ok ==> count == |body| <= 40 && count <= room && Holds(buf, base, body)
    ensures forall i :: 0 <= i < buf.Length && !(base <= i < base + room) ==> buf[i] == old(buf[i])
  {
    hide ParamString, ParamU32, ParamStray, Str2Ip, Frame, Cut;
    body := [];
    ShortStays(item.members["hwcode"].s, room);
    ok, count := WriteParamString(item.members["hwcode"].s, T_HWCODE, buf, base, room, HWCODE_MAX);
    if !ok {
      return;
    }
    ghost var hw := ParamString(item.members["hwcode"].s, T_HWCODE, room, HWCODE_MAX).value;
    ghost var ip := ParamU32(Str2Ip(item.members["version"].s), T_VERSION, room - count);
    var k;
    ok, k := WriteParamU32(Str2Ip(item.members["version"].s), T_VERSION, buf, base + count, room - count);
    if ok {
      HoldsJoin(buf, base, hw, ip.value);
      ItemIs(item, room + 2, count);
      body := hw + ip.value;
      count := count + k;
    }
  }

  /** The length of a short body goes into the byte left free for it. */
  method PatchLength(buf: array<byte>, base: nat, length: nat, ghost body: bytes)
    requires length == |body| <= 127 && Holds(buf, base + 2, body) && buf[base] == T_FIRMWARE
    modifies buf
    ensures Holds(buf, base, Frame(Tlv(T_FIRMWARE, body))) && |Frame(Tlv(T_FIRMWARE, body))| == 2 + length
    ensures OnlyWithin(buf, base, 2 + length)
  {
    LengthBytesSmall(length);
    buf[base + 1] := length;
    HeaderAndBody(buf, base, T_FIRMWARE, body);
    SerializeOne(Tlv(T_FIRMWARE, body));
  }

  lemma ItemChecks(item: Json, room: int)
    ensures !item.Null? && !item.Obj? ==> ItemPart(item, room) == Failed(-1)
    ensures (item.Null? || item.Obj?) && !ItemPresent(item) ==> ItemPart(item, room) == Failed(-3)
  {
  }

  /** A hardware code is too short to be stored behind the room. */
  lemma ShortStays(s: text, room: int)
    ensures ParamStray(s, room, HWCODE_MAX) == None
  {
    CutShort(s, HWCODE_MAX);
  }

  lemma ItemIs(item: Json, room: int, n: nat)
    requires ItemPresent(item)
    requires ParamString(item.members["hwcode"].s, T_HWCODE, room - 2, HWCODE_MAX).Some?
    requires n == |ParamString(item.members["hwcode"].s, T_HWCODE, room - 2, HWCODE_MAX).value|
    requires ParamU32(Str2Ip(item.members["version"].s), T_VERSION, room - 2 - n).Some?
    ensures n <= 2 + HWCODE_MAX
    ensures |ParamU32(Str2Ip(item.members["version"].s), T_VERSION, room - 2 - n).value| == 6
  {
    HwSize(item);
  }

  lemma ItemsTail(items: seq<Json>, i: nat, room: int)
    requires i < |items|
    ensures var first := ItemPart(items[i], room);
            ItemsPart(items[i..], room) ==
            if first.Failed? then first else
            var rest := ItemsPart(items[i + 1..], room - |first.b|);
            if rest.Failed? then rest else Written(first.b + rest.b)
  {
    hide ItemPart;
    assert items[i..][0] == items[i] && items[i..][1..] == items[i + 1..];
  }

  lemma NoItemsLeft(items: seq<Json>, room: int)
    ensures ItemsPart(items[|items|..], room) == Written([])
  {
  }

  function Prepend(done: bytes, o: Outcome): Outcome {
    if o.Failed? then o else Written(done + o.b)
  }

  /** The entries, one after another, behind what is already in the buffer. */
  method WriteItemsFrom(items: seq<Json>, buf: array<byte>, base: nat, room: nat) returns (rc: int, count: nat)
    requires base + room < buf.Length
    modifies buf
    ensures rc == match ItemsPart(items, room) case Failed(c) => c case Written(_) => 0
    ensures rc == 0 ==> ItemsPart(items, room).Written? && count == |ItemsPart(items, room).b| <= room
    ensures rc == 0 ==> Holds(buf, base, ItemsPart(items, room).b)
    ensures OnlyWithin(buf, base, room)
  {
    hide ItemPart, ItemsPart;
    count := 0;
    ghost var done: bytes := [];
    assert items[0..] == items;
    PrependNothing(ItemsPart(items, room));
    for i := 0 to |items|
      invariant |done| == count <= room && Holds(buf, base, done)
      invariant ItemsPart(items, room) == Prepend(done, ItemsPart(items[i..], room - count))
      invariant OnlyWithin(buf, base, room)
    {
      ItemsTail(items, i, room - count);
      ItemFailure(items[i], room - count);
      var rc', n := WriteItem(items[i], buf, base + count, room - count);
      if rc' != 0 {
        return rc', count;
      }
      ghost var b := ItemPart(items[i], room - count).b;
      HoldsJoin(buf, base, done, b);
      PrependTwice(done, b, ItemsPart(items[i + 1..], room - count - n));
      done := done + b;
      count := count + n;
    }
    NoItemsLeft(items, room - count);
    assert done + [] == done;
    rc := 0;
  }

  lemma PrependNothing(o: Outcome)
    ensures Prepend([], o) == o
  {
    if o.Written? {
      assert [] + o.b == o.b;
    }
  }

  lemma PrependTwice(a: bytes, b: bytes, o: Outcome)
    ensures Prepend(a, Prepend(b, o)) == Prepend(a + b, o)
  {
    if o.Written? {
      assert a + (b + o.b) == a + b + o.b;
    }
  }

  lemma ItemFailure(item: Json, room: int)
    ensures ItemPart(item, room).Failed? ==> ItemPart(item, room).code < 0
  {
  }

  /** startUpgradeRequest::j2b: the number of bytes written, or a negative code; the buffer goes on behind the room. */
  method WriteRequest(m: Members, isAck: bool, buf: array<byte>, room: nat) returns (rc: int)
    requires room < buf.Length
    modifies buf
    ensures rc == match J2B(m, isAck, room) case Failed(c) => c case Written(b) => |b|
    ensures J2B(m, isAck, room).Written? ==> rc <= room && buf[..rc] == J2B(m, isAck, room).b
    ensures J2B(m, isAck, room).Failed? ==> rc < 0
    ensures OnlyWithin(buf, 0, room + 1)
    ensures buf[room] == Behind(RequestStray(m, isAck, room), old(buf[room]))
  {
    hide HeadPart, HeadStray, ItemsPart;
    if isAck {
      return 0;
    }
    if !FieldsPresent(m) || |m["taskid"].s| != 32 || |m["md5"].s| != 32 {
      return -2;
    }
    var ok, count := WriteHead(m, buf, room);
    if !ok {
      return -1;
    }
    ghost var head := HeadPart(m, room).value;
    var rc', n := WriteItemsFrom(m["firmware"].items, buf, count, room - count);
    ItemsFailure(m["firmware"].items, room - count);
    if rc' != 0 {
      return rc';
    }
    HoldsJoin(buf, 0, head, ItemsPart(m["firmware"].items, room - count).b);
    HoldsAll(buf, head + ItemsPart(m["firmware"].items, room - count).b);
    return count + n;
  }

  lemma {:induction false} ItemsFailure(items: seq<Json>, room: int)
    ensures ItemsPart(items, room).Failed? ==> ItemsPart(items, room).code < 0
    decreases |items|
  {
    hide ItemPart;
    if items != [] {
      ItemFailure(items[0], room);
      if ItemPart(items[0], room).Written? {
        ItemsFailure(items[1..], room - |ItemPart(items[0], room).b|);
      }
    }
  }

  // ----- Decoder loops

  method ReadFirmware(data: bytes, start: nat, end: nat, beyond: Memory) returns (f: Option<Firmware>)
    requires start <= end <= |data|
    ensures f == FirmwareFrom(data, start, end, Firmware("", ""), beyond)
  {
    hide GetLength, At, U32At, IpText;
    var at := start;
    var r := Firmware("", "");
    while at < end
      invariant start <= at <= end
      invariant FirmwareFrom(data, start, end, Firmware("", ""), beyond) == FirmwareFrom(data, at, end, r, beyond)
    {
      var t := data[at];
      var length, count := GetTlvLength(data, at + 1, beyond);
      var body := at + 1 + count;
      if body + length > end {
        return None;
      }
      if t == T_HWCODE {
        r := r.(hwcode := FromBytes(data[body..body + length]));
      } else if t == T_VERSION {
        r := r.(version := IpText(U32At(data, body, beyond)));
      }
      at := body + length;
    }
    f := Some(r);
  }

  /** startUpgradeRequest::b2j: on an error the members read so far stay in the object. */
  method ReadRequest(data: bytes, isAck: bool, m: Members, beyond: Memory) returns (rc: int, r: Members)
    ensures Decoded(rc, r) == B2J(data, isAck, m, beyond)
  {
    hide GetLength, At, U32At, FirmwareFrom, Appended, AsJson, HexOf;
    r := m;
    if isAck {
      return 0, r;
    }
    var offset := 0;
    while offset < |data|
      invariant offset <= |data|
      invariant B2JFrom(data, 0, m, beyond) == B2JFrom(data, offset, r, beyond)
    {
      var t := data[offset];
      var length, count := GetTlvLength(data, offset + 1, beyond);
      var start := offset + 1 + count;
      var end := start + length;
      if end > |data| {
        return -2, r;
      }
      if t == T_TASKID || t == T_MD5 {
        if length != 16 {
          return -2, r;
        }
        var s := HexText(data[start..end]);
        r := r[(if t == T_TASKID then "taskid" else "md5") := Str(s)];
        offset := end;
      } else if t == T_URL {
        r := r["url" := Str(FromBytes(data[start..end]))];
        offset := end;
      } else if t == T_SIZE {
        r := r["size" := Int(U32At(data, start, beyond))];
        offset := end;
      } else if t == T_FIRMWARE {
        if length < 4 {
          return -3, r;
        }
        var f := ReadFirmware(data, start, end, beyond);
        if f.None? {
          return -2, r;
        }
        r := Appended(r, AsJson(f.value));
        offset := end;
      } else {
        offset := start;
      }
    }
    rc := 0;
  }
}
