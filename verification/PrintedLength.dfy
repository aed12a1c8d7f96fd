/**
 The room that initFromJson gives a parser is the length of the parameters as printed JSON.  Here
 is a lower bound of that length, and what it is enough for.
 */
module PrintedLength {
  import opened Octets
  import opened JsonValue
  import opened Tlv
  import opened Schema
  import opened SchemaBuffers
  import opened DottedQuad
  import opened Upgrade

  /** Names and strings with their quotes, a colon behind each name, and the brackets. */
  ghost function PrintedAtLeast(j: Json): nat
    decreases j, 1
  {
    match j
    case Null => 4
    case Bool(_) => 4
    case Int(_) => 1
    case Str(s) => |s| + 2
    case Arr(items) => 2 + ItemsAtLeast(items)
    case Obj(members) => 2 + MembersAtLeast(j, members.Keys)
  }

  ghost function ItemsAtLeast(items: seq<Json>): nat
    decreases items, 0
  {
    if items == [] then 0 else PrintedAtLeast(items[0]) + ItemsAtLeast(items[1..])
  }

  ghost function MemberAtLeast(j: Json, k: string): nat
    requires j.Obj? && k in j.members
    decreases j, 0, 0
  {
    |k| + 3 + PrintedAtLeast(j.members[k])
  }

  ghost function MembersAtLeast(j: Json, keys: set<string>): nat
    requires j.Obj? && keys <= j.members.Keys
    decreases j, 0, |keys| + 1
  {
    if keys == {} then 0 else
      var k := Least(keys);
      assert |keys - {k}| < |keys|;
      MemberAtLeast(j, k) + MembersAtLeast(j, keys - {k})
  }

  /** The order of the members does not matter. */
  lemma {:induction false} MemberOut(j: Json, keys: set<string>, k: string)
    requires j.Obj? && keys <= j.members.Keys && k in keys
    ensures MembersAtLeast(j, keys) == MemberAtLeast(j, k) + MembersAtLeast(j, keys - {k})
    decreases |keys|
  {
    hide MemberAtLeast;
    var l := Least(keys);
    if l != k {
      assert |keys - {l}| < |keys|;
      MemberOut(j, keys - {l}, k);
      assert keys - {l} - {k} == keys - {k} - {l};
      LeastOfRest(keys, k);
    }
  }

  lemma LeastOfRest(keys: set<string>, k: string)
    requires k in keys && Least(keys) != k
    ensures keys - {k} != {} && Least(keys - {k}) == Least(keys)
  {
    assert Least(keys) in keys - {k};
    LeastUnique(Least(keys), Least(keys - {k}), keys - {k});
  }

  // ----- Start-upgrade requests

  /** Room for one entry is no more than it takes to print it. */
  lemma EntryFits(item: Json, room: int)
    requires ItemPresent(item) && room >= PrintedAtLeast(item)
    ensures ItemPart(item, room).Written? && |ItemPart(item, room).b| <= PrintedAtLeast(item)
  {
    hide Frame, Str2Ip, BigEndian, ToBytes, MembersAtLeast;
    var keys := item.members.Keys;
    MemberOut(item, keys, "hwcode");
    MemberOut(item, keys - {"hwcode"}, "version");
    var hw := item.members["hwcode"].s;
    CutShorter(hw, HWCODE_MAX);
    assert PrintedAtLeast(item) >= 25 + |hw|;
    CutShort(hw, HWCODE_MAX);
    ShortFrameLength(HwTlv(item));
    ShortFrameLength(VersionTlv(item));
    ShortFrameLength(ItemTlv(item));
  }

  lemma CutShorter(s: text, maxLen: nat)
    ensures |Cut(s, maxLen)| <= |s|
  {
  }

  lemma {:induction false} EntriesFit(items: seq<Json>, room: int)
    requires forall i :: 0 <= i < |items| ==> ItemPresent(items[i])
    requires room >= ItemsAtLeast(items)
    ensures ItemsPart(items, room).Written?
    decreases |items|
  {
    hide ItemPart, ItemPresent;
    if items != [] {
      EntryFits(items[0], room);
      EntriesFit(items[1..], room - |ItemPart(items[0], room).b|);
    }
  }

  /** The head of a request takes less room than printing its four members. */
  lemma HeadFits(m: Members, room: int)
    requires FieldsPresent(m) && |m["taskid"].s| == 32 && |m["md5"].s| == 32
    requires HexPairs(m["taskid"].s) && HexPairs(m["md5"].s)
    requires room >= 45 + |m["url"].s|
    ensures HeadPart(m, room).Some? && |HeadPart(m, room).value| <= 45 + |m["url"].s|
  {
    hide Frame, HexBytes, HexPairs, BigEndian, ToBytes;
    var url := m["url"].s;
    CutShorter(url, URL_MAX);
    CutShort(url, URL_MAX);
    ShortFrameLength(Tlv(T_TASKID, HexBytes(m["taskid"].s)));
    ShortFrameLength(Tlv(T_MD5, HexBytes(m["md5"].s)));
    ShortFrameLength(Tlv(T_URL, ToBytes(Cut(url, URL_MAX))));
    ShortFrameLength(Tlv(T_SIZE, BigEndian(m["size"].n, 4)));
    LengthBytesSmall(16);
  }

  lemma FieldsPrinted(m: Members)
    requires FieldsPresent(m)
    ensures PrintedAtLeast(Obj(m)) >= 45 + |m["url"].s| + ItemsAtLeast(m["firmware"].items)
            + |m["taskid"].s| + |m["md5"].s| - 32
  {
    hide ItemsAtLeast, MembersAtLeast;
    var j := Obj(m);
    var k0 := m.Keys;
    MemberOut(j, k0, "taskid");
    var k1 := k0 - {"taskid"};
    MemberOut(j, k1, "url");
    var k2 := k1 - {"url"};
    MemberOut(j, k2, "size");
    var k3 := k2 - {"size"};
    MemberOut(j, k3, "md5");
    MemberOut(j, k3 - {"md5"}, "firmware");
  }

  /** With the room of the printed request, only its form decides whether a request is accepted. */
  lemma UpgradeAcceptedExactly(m: Members, room: int)
    requires room >= PrintedAtLeast(Obj(m))
    ensures J2B(m, false, room).Written? <==>
            && FieldsPresent(m) && |m["taskid"].s| == 32 && |m["md5"].s| == 32
            && HexPairs(m["taskid"].s) && HexPairs(m["md5"].s)
            && forall i :: 0 <= i < |m["firmware"].items| ==> ItemPresent(m["firmware"].items[i])
  {
    hide HeadPart, ItemsPart, HexPairs, ItemPresent, PrintedAtLeast;
    if FieldsPresent(m) && |m["taskid"].s| == 32 && |m["md5"].s| == 32 {
      var items := m["firmware"].items;
      FieldsPrinted(m);
      if HeadPart(m, room).Some? {
        HeadBytes(m, room);
        if ItemsPart(items, room - |HeadPart(m, room).value|).Written? {
          ItemsPartPresent(items, room - |HeadPart(m, room).value|);
        }
      }
      if HexPairs(m["taskid"].s) && HexPairs(m["md5"].s) {
        HeadFits(m, room);
        if forall i :: 0 <= i < |items| ==> ItemPresent(items[i]) {
          EntriesFit(items, room - |HeadPart(m, room).value|);
        }
      }
    }
  }

  /** ... and nothing is stored behind it. */
  lemma UpgradeStays(m: Members, room: int)
    requires room >= PrintedAtLeast(Obj(m))
    ensures RequestStray(m, false, room) == None
  {
    hide RequestStray, PrintedAtLeast, HexPairs;
    StrayExactly(m, false, room);
    if FieldsPresent(m) {
      FieldsPrinted(m);
      CutShorter(m["url"].s, URL_MAX);
    }
  }

  // ----- Arrays of numbers

  /**
   A list of numbers fits exactly in two bytes and the declared width for each.  Printed, small
   numbers take three characters each, so a list of them declared wider is dropped by dataJ2B.
   */
  lemma {:induction false} NumbersFitExactly(w: Width, vs: seq<Json>, tag: byte, room: nat)
    requires forall i :: 0 <= i < |vs| ==> vs[i].IsUInt64()
    ensures ItemsFit(NumberType(w), vs, tag, room) <==> Times(|vs|, w + 2) <= room
  {
    hide BigEndian;
    if vs != [] {
      var t := Tlv(tag, BigEndian(vs[0].n, w));
      SerializeOne(t);
      ShortFrameLength(t);
      assert |Wire(NumberType(w), vs[0], tag)| == w + 2;
      if w + 2 <= room {
        NumbersFitExactly(w, vs[1..], tag, room - (w + 2));
      }
    }
  }

  function Times(n: nat, size: nat): nat {
    if n == 0 then 0 else size + Times(n - 1, size)
  }
}
