/** A start-upgrade payload that was cut off never decodes to the request it was written for. */
module UpgradeCut {
  import opened Octets
  import opened JsonValue
  import opened Tlv
  import opened DottedQuad
  import opened Upgrade

  /** The decoder stops at a TLV that is cut off and keeps what it has read. */
  lemma CutStops(data: bytes, offset: nat, t: Tlv, m: Members, beyond: Memory)
    requires |t.body| < LENGTH_LIMIT && offset <= |data|
    requires |data| - offset < |Frame(t)| && data[offset..] == Frame(t)[..|data| - offset]
    ensures B2JFrom(data, offset, m, beyond).m == m
  {
    hide FirmwareFrom, Frame, GetLength, HexOf, U32At, Appended;
    if offset < |data| {
      var p := data[offset..];
      CutFrame(p, t, beyond(offset + 1), beyond(offset + 2));
      assert At(p, 1, beyond(offset + 1)) == At(data, offset + 1, beyond(offset + 1));
      assert At(p, 2, beyond(offset + 2)) == At(data, offset + 2, beyond(offset + 2));
    }
  }

  lemma {:induction false} ItemsCut(data: bytes, offset: nat, items: seq<Json>, room: int, m: Members, sofar: seq<Json>, beyond: Memory)
    returns (j: nat)
    requires ItemsPart(items, room).Written? && "firmware" !in m
    requires offset <= |data| && |data| - offset < |ItemsPart(items, room).b|
    requires data[offset..] == ItemsPart(items, room).b[..|data| - offset]
    ensures j < |items| && forall i :: 0 <= i < |items| ==> ItemPresent(items[i])
    ensures B2JFrom(data, offset, WithItems(m, sofar), beyond).m == WithItems(m, sofar + NormalItems(items[..j]))
    decreases |items|
  {
    hide ItemPart, NormalFirmware, ItemPresent, AsJson, WithItems, NormalItems, B2JFrom, ItemTlv, Frame;
    ItemsPartPresent(items, room);
    ItemsPartSplit(items, room);
    var first := ItemPart(items[0], room).b;
    var left := room - |first|;
    var rest := ItemsPart(items[1..], left).b;
    var k := |data| - offset;
    if k < |first| {
      j := 0;
      assert data[offset..] == first[..k];
      CutStops(data, offset, ItemTlv(items[0]), WithItems(m, sofar), beyond);
      NoNormalItems();
      assert items[..0] == [] && sofar + [] == sofar;
    } else {
      var tail := rest[..k - |first|];
      assert data[offset..] == first + tail;
      var x := AsJson(NormalFirmware(items[0]));
      FirmwareStep(data, offset, items[0], tail, WithItems(m, sofar), beyond);
      AppendItem(m, sofar, x);
      j := ItemsCut(data, |data| - |tail|, items[1..], left, m, sofar + [x], beyond);
      NormalItemsCons(items[..j + 1]);
      assert items[..j + 1][1..] == items[1..][..j];
      Associative(sofar, x, NormalItems(items[1..][..j]));
      j := j + 1;
    }
  }

  /** The four leading TLVs of a request. */
  function HeadTlv(m: Members, i: nat): Tlv
    requires FieldsPresent(m) && HexPairs(m["taskid"].s) && HexPairs(m["md5"].s) && i < 4
  {
    if i == 0 then Tlv(T_TASKID, HexBytes(m["taskid"].s))
    else if i == 1 then Tlv(T_URL, ToBytes(Cut(m["url"].s, URL_MAX)))
    else if i == 2 then Tlv(T_SIZE, BigEndian(m["size"].n, 4))
    else Tlv(T_MD5, HexBytes(m["md5"].s))
  }

  lemma HeadTlvShort(m: Members, i: nat)
    requires FieldsPresent(m) && HexPairs(m["taskid"].s) && HexPairs(m["md5"].s) && i < 4
    requires |m["taskid"].s| == 32 && |m["md5"].s| == 32
    ensures |HeadTlv(m, i).body| < LENGTH_LIMIT && (i == 0 || i == 3 ==> |HeadTlv(m, i).body| == 16)
  {
    hide BigEndian, HexBytes, ToBytes, Cut;
    CutShort(m["url"].s, URL_MAX);
  }

  /** The object after the first i parameters. */
  function HeadRead(m: Members, i: nat): (r: Members)
    requires FieldsPresent(m) && HexPairs(m["taskid"].s) && HexPairs(m["md5"].s) && i <= 4
    ensures "firmware" !in r
  {
    if i == 0 then map[] else
      var r := HeadRead(m, i - 1);
      if i == 1 then r["taskid" := Str(HexOf(HexBytes(m["taskid"].s)))]
      else if i == 2 then r["url" := Str(FromBytes(ToBytes(Cut(m["url"].s, URL_MAX))))]
      else if i == 3 then r["size" := Int(m["size"].n)]
      else r["md5" := Str(HexOf(HexBytes(m["md5"].s)))]
  }

  function HeadFrom(m: Members, i: nat): bytes
    requires FieldsPresent(m) && HexPairs(m["taskid"].s) && HexPairs(m["md5"].s) && i <= 4
    decreases 4 - i
  {
    if i == 4 then [] else Frame(HeadTlv(m, i)) + HeadFrom(m, i + 1)
  }

  /** One parameter of the head, read where it was written. */
  lemma HeadStep(data: bytes, offset: nat, m: Members, i: nat, rest: bytes, beyond: Memory)
    requires FieldsPresent(m) && HexPairs(m["taskid"].s) && HexPairs(m["md5"].s) && i < 4
    requires |m["taskid"].s| == 32 && |m["md5"].s| == 32
    requires offset <= |data| && data[offset..] == Frame(HeadTlv(m, i)) + rest
    ensures |rest| <= |data| && data[|data| - |rest|..] == rest
    ensures B2JFrom(data, offset, HeadRead(m, i), beyond) == B2JFrom(data, |data| - |rest|, HeadRead(m, i + 1), beyond)
  {
    hide Frame, BigEndian, HexBytes, ToBytes, Cut, B2JFrom, HexOf, FromBytes, HexPairs;
    HeadTlvShort(m, i);
    if i == 0 || i == 3 {
      HexStep(data, offset, HeadTlv(m, i), rest, HeadRead(m, i), beyond);
    } else if i == 1 {
      UrlStep(data, offset, HeadTlv(m, i), rest, HeadRead(m, i), beyond);
    } else {
      SizeStep(data, offset, m["size"].n, rest, HeadRead(m, i), beyond);
    }
  }

  /** A cut that leaves not all of the head leaves no firmware list. */
  lemma {:induction false} HeadCut(data: bytes, offset: nat, m: Members, i: nat, beyond: Memory)
    requires FieldsPresent(m) && HexPairs(m["taskid"].s) && HexPairs(m["md5"].s) && i <= 4
    requires |m["taskid"].s| == 32 && |m["md5"].s| == 32
    requires offset <= |data| && |data| - offset < |HeadFrom(m, i)| && data[offset..] == HeadFrom(m, i)[..|data| - offset]
    ensures "firmware" !in B2JFrom(data, offset, HeadRead(m, i), beyond).m
    decreases 4 - i
  {
    hide Frame, HeadTlv, B2JFrom, HeadRead, HexPairs;
    var f, rest := Frame(HeadTlv(m, i)), HeadFrom(m, i + 1);
    var k := |data| - offset;
    if k < |f| {
      assert data[offset..] == f[..k];
      HeadTlvShort(m, i);
      CutStops(data, offset, HeadTlv(m, i), HeadRead(m, i), beyond);
    } else {
      var tail := rest[..k - |f|];
      assert data[offset..] == f + tail;
      HeadStep(data, offset, m, i, tail, beyond);
      HeadCut(data, |data| - |tail|, m, i + 1, beyond);
    }
  }

  /** The whole head, and what is read behind it. */
  lemma {:induction false} HeadReadOn(data: bytes, offset: nat, m: Members, i: nat, rest: bytes, beyond: Memory)
    requires FieldsPresent(m) && HexPairs(m["taskid"].s) && HexPairs(m["md5"].s) && i <= 4
    requires |m["taskid"].s| == 32 && |m["md5"].s| == 32
    requires offset <= |data| && data[offset..] == HeadFrom(m, i) + rest
    ensures |rest| <= |data| && data[|data| - |rest|..] == rest
    ensures B2JFrom(data, offset, HeadRead(m, i), beyond) == B2JFrom(data, |data| - |rest|, HeadRead(m, 4), beyond)
    decreases 4 - i
  {
    hide Frame, HeadTlv, B2JFrom, HeadRead, HexPairs;
    if i == 4 {
      assert [] + rest == rest;
    } else {
      var tail := HeadFrom(m, i + 1) + rest;
      assert data[offset..] == Frame(HeadTlv(m, i)) + tail;
      HeadStep(data, offset, m, i, tail, beyond);
      HeadReadOn(data, |data| - |tail|, m, i + 1, rest, beyond);
    }
  }

  lemma HeadIs(m: Members, room: int)
    requires FieldsPresent(m) && Upgrade.HeadPart(m, room).Some?
    ensures HexPairs(m["taskid"].s) && HexPairs(m["md5"].s) && HeadPart(m, room).value == HeadFrom(m, 0)
  {
    hide HeadPart, Frame, HexPairs, HexBytes, BigEndian, ToBytes, Cut;
    HeadBytes(m, room);
    var a, b, c, d := Frame(HeadTlv(m, 0)), Frame(HeadTlv(m, 1)), Frame(HeadTlv(m, 2)), Frame(HeadTlv(m, 3));
    assert HeadFrom(m, 4) == [];
    assert HeadFrom(m, 3) == d + [] == d;
    assert HeadFrom(m, 2) == c + d;
    assert HeadFrom(m, 1) == b + (c + d);
    assert a + b + c + d == a + (b + (c + d));
  }

  lemma WithItemsCount(r: Members, items: seq<Json>, m: Members)
    requires "firmware" !in r && Get(m, "firmware").Arr? && WithItems(r, items) == m
    ensures |items| == |m["firmware"].items|
  {
  }

  /** A strict prefix of what was written for a request does not decode to the request. */
  lemma CutDiffers(m: Members, room: int, n: nat, beyond: Memory)
    requires J2B(m, false, room).Written? && n < |J2B(m, false, room).b|
    ensures B2J(J2B(m, false, room).b[..n], false, map[], beyond).m != m
  {
    hide HeadPart, ItemsPart, B2JFrom, HeadFrom, HeadRead, HexPairs, WithItems, NormalItems, ItemPresent;
    HeadIs(m, room);
    var head := HeadPart(m, room).value;
    var items := m["firmware"].items;
    var left := room - |head|;
    var tail := ItemsPart(items, left).b;
    var data := J2B(m, false, room).b[..n];
    StartsEmpty(m);
    assert data[0..] == data;
    if n < |head| {
      assert data == head[..n];
      HeadCut(data, 0, m, 0, beyond);
    } else {
      var k := n - |head|;
      assert data == head + tail[..k];
      HeadReadOn(data, 0, m, 0, tail[..k], beyond);
      NoItems(HeadRead(m, 4));
      var j := ItemsCut(data, n - k, items, left, HeadRead(m, 4), [], beyond);
      var got := NormalItems(items[..j]);
      assert [] + got == got;
      if WithItems(HeadRead(m, 4), got) == m {
        WithItemsCount(HeadRead(m, 4), got, m);
      }
    }
  }

  lemma StartsEmpty(m: Members)
    requires FieldsPresent(m) && HexPairs(m["taskid"].s) && HexPairs(m["md5"].s)
    ensures HeadRead(m, 0) == map[]
  {
  }

  /**
   Of the bytes written for a request, the first n decode to the request exactly when they are all
   the bytes and the request is canonical.
   */
  lemma ComesBackExactly(m: Members, room: int, n: nat, beyond: Memory)
    requires J2B(m, false, room).Written? && n <= |J2B(m, false, room).b|
    ensures FieldsPresent(m)
    ensures forall i :: 0 <= i < |m["firmware"].items| ==> ItemPresent(m["firmware"].items[i])
    ensures B2J(J2B(m, false, room).b[..n], false, map[], beyond).m == m <==> n == |J2B(m, false, room).b| && Canonical(m)
  {
    hide B2J, J2B, Canonical, Normal, ItemPresent;
    ReadBack(m, room, beyond);
    RoundTripExactly(m, room, beyond);
    var b := J2B(m, false, room).b;
    if n < |b| {
      CutDiffers(m, room, n, beyond);
    } else {
      assert b[..n] == b;
    }
  }
}
