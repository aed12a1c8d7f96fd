/**
 Unknown tags in the start-upgrade decoder.  It goes on inside the value of such a TLV instead of
 behind it; here it is shown for which values that makes no difference.
 */
module UpgradeUnknown {
  import opened Octets
  import opened JsonValue
  import opened Tlv
  import opened DottedQuad
  import opened Upgrade

  predicate Known(t: byte) {
    t == T_TASKID || t == T_URL || t == T_SIZE || t == T_MD5 || t == T_FIRMWARE
  }

  /** The TLV at the start of b: its tag is unknown, it ends within b, and the same goes for what stands behind its header. */
  predicate Harmless(b: bytes)
    decreases |b|
  {
    b == [] || (
      var h := GetLength(At(b, 1, 0), At(b, 2, 0));
      !Known(b[0]) && 1 + h.count + h.length <= |b| && Harmless(b[1 + h.count..]))
  }

  // ----- What is harmless is skipped

  /** A header whose TLV ends within a stretch of the data is read from that stretch alone. */
  lemma HeaderWithin(data: bytes, offset: nat, n: nat, beyond: Memory)
    requires 0 < n && offset + n <= |data|
    ensures var b := data[offset..offset + n];
            var h := GetLength(At(b, 1, 0), At(b, 2, 0));
            && (1 + h.count + h.length <= n ==> HeaderAt(data, offset + 1, beyond) == h)
            && (offset + n == |data| && 1 + h.count + h.length > n ==>
                  offset + 1 + HeaderAt(data, offset + 1, beyond).count + HeaderAt(data, offset + 1, beyond).length > |data|)
  {
    var b := data[offset..offset + n];
    assert n > 1 ==> b[1] == data[offset + 1];
    assert n > 2 ==> b[2] == data[offset + 2];
  }

  lemma {:induction false} HarmlessSkipped(data: bytes, offset: nat, n: nat, m: Members, beyond: Memory)
    requires offset + n <= |data| && Harmless(data[offset..offset + n])
    ensures B2JFrom(data, offset, m, beyond) == B2JFrom(data, offset + n, m, beyond)
    decreases n
  {
    hide HeaderAt, GetLength, FirmwareFrom, HexOf, U32At, Appended;
    if n > 0 {
      var b := data[offset..offset + n];
      var h := GetLength(At(b, 1, 0), At(b, 2, 0));
      HeaderWithin(data, offset, n, beyond);
      var start := 1 + h.count;
      assert b[start..] == data[offset + start..offset + start + (n - start)];
      HarmlessSkipped(data, offset + start, n - start, m, beyond);
    }
  }

  // ----- What is not leaves a trace

  lemma {:induction false} KeysStay(data: bytes, offset: nat, m: Members, beyond: Memory)
    requires offset <= |data|
    ensures B2JFrom(data, offset, m, beyond).m.Keys >= m.Keys
    decreases |data| - offset
  {
    hide HeaderAt, FirmwareFrom, HexOf, U32At, AsJson, FromBytes;
    if offset < |data| {
      var t := data[offset];
      var h := HeaderAt(data, offset + 1, beyond);
      var start := offset + 1 + h.count;
      var end := start + h.length;
      if end <= |data| {
        KeysStay(data, start, m, beyond);
        KeysStay(data, end, m["taskid" := Str(HexOf(data[start..end]))], beyond);
        KeysStay(data, end, m["url" := Str(FromBytes(data[start..end]))], beyond);
        KeysStay(data, end, m["size" := Int(U32At(data, start, beyond))], beyond);
        KeysStay(data, end, m["md5" := Str(HexOf(data[start..end]))], beyond);
        var f := FirmwareFrom(data, start, end, Firmware("", ""), beyond);
        if f.Some? {
          KeysStay(data, end, Appended(m, AsJson(f.value)), beyond);
        }
      }
    }
  }

  /** A known tag leaves a member behind, or an error. */
  lemma KnownShows(data: bytes, offset: nat, beyond: Memory)
    requires offset < |data| && Known(data[offset])
    ensures B2JFrom(data, offset, map[], beyond) != Decoded(0, map[])
  {
    hide HeaderAt, FirmwareFrom, HexOf, U32At, AsJson, FromBytes;
    var h := HeaderAt(data, offset + 1, beyond);
    var start := offset + 1 + h.count;
    var end := start + h.length;
    if end <= |data| {
      KeysStay(data, end, map["taskid" := Str(HexOf(data[start..end]))], beyond);
      KeysStay(data, end, map["url" := Str(FromBytes(data[start..end]))], beyond);
      KeysStay(data, end, map["size" := Int(U32At(data, start, beyond))], beyond);
      KeysStay(data, end, map["md5" := Str(HexOf(data[start..end]))], beyond);
      var f := FirmwareFrom(data, start, end, Firmware("", ""), beyond);
      if f.Some? {
        KeysStay(data, end, Appended(map[], AsJson(f.value)), beyond);
        assert "firmware" in Appended(map[], AsJson(f.value));
      }
      assert "taskid" in map["taskid" := Str(HexOf(data[start..end]))];
      assert "url" in map["url" := Str(FromBytes(data[start..end]))];
      assert "size" in map["size" := Int(U32At(data, start, beyond))];
      assert "md5" in map["md5" := Str(HexOf(data[start..end]))];
    }
  }

  lemma {:induction false} HarmShows(data: bytes, offset: nat, beyond: Memory)
    requires offset <= |data| && !Harmless(data[offset..])
    ensures B2JFrom(data, offset, map[], beyond) != Decoded(0, map[])
    decreases |data| - offset
  {
    hide HeaderAt, GetLength, FirmwareFrom, HexOf, U32At, Appended;
    var b := data[offset..];
    assert b == data[offset..offset + |b|] && b[0] == data[offset];
    if Known(data[offset]) {
      KnownShows(data, offset, beyond);
    } else {
      var h := GetLength(At(b, 1, 0), At(b, 2, 0));
      HeaderWithin(data, offset, |b|, beyond);
      if 1 + h.count + h.length <= |b| {
        assert b[1 + h.count..] == data[offset + 1 + h.count..];
        HarmShows(data, offset + 1 + h.count, beyond);
      }
    }
  }

  // ----- Decoding behind a prefix

  function Shifted(beyond: Memory, n: nat): Memory {
    (i: nat) => beyond(i + n)
  }

  lemma ByteShifted(a: bytes, rest: bytes, i: nat, beyond: Memory)
    ensures At(a + rest, |a| + i, beyond(|a| + i)) == At(rest, i, Shifted(beyond, |a|)(i))
  {
  }

  lemma ReadsShifted(a: bytes, rest: bytes, i: nat, beyond: Memory)
    ensures HeaderAt(a + rest, |a| + i, beyond) == HeaderAt(rest, i, Shifted(beyond, |a|))
    ensures U32At(a + rest, |a| + i, beyond) == U32At(rest, i, Shifted(beyond, |a|))
  {
    hide At, GetLength, Shifted, FromBigEndian;
    ByteShifted(a, rest, i, beyond);
    ByteShifted(a, rest, i + 1, beyond);
    ByteShifted(a, rest, i + 2, beyond);
    ByteShifted(a, rest, i + 3, beyond);
  }

  lemma SliceShifted(a: bytes, rest: bytes, i: nat, j: nat)
    requires i <= j <= |rest|
    ensures (a + rest)[|a| + i..|a| + j] == rest[i..j]
  {
  }

  lemma {:induction false} FirmwareShifted(a: bytes, rest: bytes, at: nat, end: nat, f: Firmware, beyond: Memory)
    requires end <= |rest|
    ensures FirmwareFrom(a + rest, |a| + at, |a| + end, f, beyond) == FirmwareFrom(rest, at, end, f, Shifted(beyond, |a|))
    decreases end - at
  {
    hide HeaderAt, U32At, IpText, FromBytes, Shifted;
    if at < end {
      var data := a + rest;
      ReadsShifted(a, rest, at + 1, beyond);
      var h := HeaderAt(rest, at + 1, Shifted(beyond, |a|));
      var start := at + 1 + h.count;
      if start + h.length <= end {
        ReadsShifted(a, rest, start, beyond);
        SliceShifted(a, rest, start, start + h.length);
        assert data[|a| + at] == rest[at];
        var g := if rest[at] == T_HWCODE then f.(hwcode := FromBytes(rest[start..start + h.length]))
                 else if rest[at] == T_VERSION then f.(version := IpText(U32At(rest, start, Shifted(beyond, |a|))))
                 else f;
        FirmwareShifted(a, rest, start + h.length, end, g, beyond);
      }
    }
  }

  /** Where the data stands in memory does not matter. */
  lemma {:induction false} DecodingShifted(a: bytes, rest: bytes, at: nat, m: Members, beyond: Memory)
    requires at <= |rest|
    ensures B2JFrom(a + rest, |a| + at, m, beyond) == B2JFrom(rest, at, m, Shifted(beyond, |a|))
    decreases |rest| - at
  {
    hide HeaderAt, U32At, FirmwareFrom, FromBytes, HexOf, Shifted, AsJson, Appended;
    if at < |rest| {
      var data, moved := a + rest, Shifted(beyond, |a|);
      ReadsShifted(a, rest, at + 1, beyond);
      var h := HeaderAt(rest, at + 1, moved);
      var start := at + 1 + h.count;
      var end := start + h.length;
      if end <= |rest| {
        var t, body := rest[at], rest[start..end];
        assert data[|a| + at] == t;
        SliceShifted(a, rest, start, end);
        ReadsShifted(a, rest, start, beyond);
        FirmwareShifted(a, rest, start, end, Firmware("", ""), beyond);
        var f := FirmwareFrom(rest, start, end, Firmware("", ""), moved);
        if t == T_FIRMWARE {
          if f.Some? {
            DecodingShifted(a, rest, end, Appended(m, AsJson(f.value)), beyond);
          }
        } else if Known(t) {
          var n := if t == T_TASKID then m["taskid" := Str(HexOf(body))]
                   else if t == T_URL then m["url" := Str(FromBytes(body))]
                   else if t == T_SIZE then m["size" := Int(U32At(rest, start, moved))]
                   else m["md5" := Str(HexOf(body))];
          DecodingShifted(a, rest, end, n, beyond);
        } else {
          DecodingShifted(a, rest, start, m, beyond);
        }
      }
    }
  }

  // ----- The exact condition

  /** Whatever follows it and whatever was read before, the TLV might as well not be there. */
  ghost predicate Skipped(u: Tlv) {
    forall rest: bytes, m: Members, beyond: Memory ::
      B2J(Frame(u) + rest, false, m, beyond) == B2J(rest, false, m, Shifted(beyond, |Frame(u)|))
  }

  /** An unknown TLV sends the decoder to the first byte of its value. */
  lemma UnknownEntered(u: Tlv, rest: bytes, m: Members, beyond: Memory)
    requires !Known(u.tag) && |u.body| < LENGTH_LIMIT
    ensures var data := Frame(u) + rest;
            var start := |Frame(u)| - |u.body|;
            && 0 <= start <= |data| && data[start..start + |u.body|] == u.body
            && B2J(data, false, m, beyond) == B2JFrom(data, start, m, beyond)
  {
    hide HeaderAt, Frame, FirmwareFrom, HexOf, U32At, Appended, LengthBytes;
    var data := Frame(u) + rest;
    assert data[0..] == data;
    FrameAt(data, 0, u, rest, beyond);
    FrameLength(u);
  }

  /** An unknown TLV is skipped exactly when its value is harmless. */
  lemma UnknownSkippedExactly(u: Tlv)
    requires !Known(u.tag) && |u.body| < LENGTH_LIMIT
    ensures Skipped(u) <==> Harmless(u.body)
  {
    hide B2JFrom, Harmless, Frame, Known;
    if Harmless(u.body) {
      forall rest: bytes, m: Members, beyond: Memory
        ensures B2J(Frame(u) + rest, false, m, beyond) == B2J(rest, false, m, Shifted(beyond, |Frame(u)|))
      {
        UnknownEntered(u, rest, m, beyond);
        HarmlessSkipped(Frame(u) + rest, |Frame(u)| - |u.body|, |u.body|, m, beyond);
        DecodingShifted(Frame(u), rest, 0, m, beyond);
      }
    } else {
      var beyond: Memory := (i: nat) => 0;
      UnknownEntered(u, [], map[], beyond);
      var data := Frame(u) + [];
      var start := |Frame(u)| - |u.body|;
      assert data[start..] == data[start..start + |u.body|] by { FrameLength(u); }
      HarmShows(data, start, beyond);
      NothingDecoded(Shifted(beyond, |Frame(u)|));
    }
  }

  lemma NothingDecoded(beyond: Memory)
    ensures B2J([], false, map[], beyond) == Decoded(0, map[])
  {
  }

  /** An unknown TLV of three bytes that is read as a url. */
  lemma UnknownTagRead(beyond: Memory)
    ensures B2J([9, 3, T_URL, 1, 65], false, map[], beyond) == Decoded(0, map["url" := Str("A")])
  {
    var data: bytes := [9, 3, T_URL, 1, 65];
    var m: Members := map["url" := Str("A")];
    assert data[4..5] == [65] && FromBytes([65]) == "A";
    assert B2JFrom(data, 5, m, beyond) == Decoded(0, m);
    assert B2JFrom(data, 2, map[], beyond) == Decoded(0, m);
  }
}
