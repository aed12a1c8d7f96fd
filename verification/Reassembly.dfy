/**
 Cutting a message into packages and putting it together again from packages that arrive in
 any order, any number of times each.
 */
module Reassembly {
  import opened Octets
  import opened SerialNumber
  import opened TermPackage

  // ----- Slicing

  /** A message of 16-bit length. */
  type Message = m: bytes | |m| < 0x10000

  /** ((length - 1) / 1024) + 1 in C, where the division truncates: an empty message is one slice. */
  function SliceCount(length: nat): (n: nat)
    ensures n >= 1
  {
    if length == 0 then 1 else (length - 1) / BODY_MAX_SIZE + 1
  }

  lemma SliceCountBound(m: Message)
    ensures SliceCount(|m|) <= 64
  {
  }

  /** The end of slice i. */
  function SliceEnd(m: Message, i: nat): nat {
    if BODY_MAX_SIZE * (i + 1) < |m| then BODY_MAX_SIZE * (i + 1) else |m|
  }

  function SliceBody(m: Message, i: nat): (b: bytes)
    requires i < SliceCount(|m|)
    ensures |b| <= BODY_MAX_SIZE
  {
    m[BODY_MAX_SIZE * i..SliceEnd(m, i)]
  }

  /** How a message is sent: with or without serial number, signed with which customer number. */
  datatype Sending = Sending(meta: Meta, withSn: bool, customerNo: text)

  /** The i-th package of the message, stamped with the given time. */
  function SlicePackage(how: Sending, m: Message, i: nat, time: u32): bytes
    requires i < SliceCount(|m|)
  {
    SliceCountBound(m);
    Package(how.meta, how.withSn, Slice(i, SliceCount(|m|), BODY_MAX_SIZE * i), SliceBody(m, i), |m|, time, how.customerNo)
  }

  /** All packages of the message; clock holds the time stamp of each. */
  function Packages(how: Sending, m: Message, clock: seq<u32>): (ps: seq<bytes>)
    requires |clock| >= SliceCount(|m|)
    ensures |ps| == SliceCount(|m|)
    ensures forall i :: 0 <= i < |ps| ==> ps[i] == SlicePackage(how, m, i, clock[i])
  {
    seq(SliceCount(|m|), i requires 0 <= i < SliceCount(|m|) => SlicePackage(how, m, i, clock[i]))
  }

  /** The bodies of the packages, in order, are the message. */
  lemma {:induction false} BodiesPartition(m: Message, n: nat)
    requires n <= SliceCount(|m|)
    ensures JoinBodies(m, n) == m[..if n == 0 then 0 else SliceEnd(m, n - 1)]
  {
    if n > 0 {
      BodiesPartition(m, n - 1);
      assert n == 1 || SliceEnd(m, n - 2) == BODY_MAX_SIZE * (n - 1);
    }
  }

  function JoinBodies(m: Message, n: nat): bytes
    requires n <= SliceCount(|m|)
  {
    if n == 0 then [] else JoinBodies(m, n - 1) + SliceBody(m, n - 1)
  }

  lemma WholeMessage(m: Message)
    ensures JoinBodies(m, SliceCount(|m|)) == m
  {
    hide JoinBodies, SliceCount, SliceEnd;
    BodiesPartition(m, SliceCount(|m|));
    LastSlice(m);
    assert m[..|m|] == m;
  }

  lemma LastSlice(m: Message)
    ensures SliceEnd(m, SliceCount(|m|) - 1) == |m|
  {
  }

  /** Slices of 1024 bytes, the last one of what is left; an empty message is one empty slice. */
  lemma SliceSizes(m: Message, i: nat)
    requires i < SliceCount(|m|)
    ensures SliceCount(|m|) == if |m| == 0 then 1 else (|m| + 1023) / 1024
    ensures |SliceBody(m, i)| == if i < SliceCount(|m|) - 1 then 1024 else |m| - 1024 * i
    ensures SliceBody(m, i) == m[1024 * i..1024 * i + |SliceBody(m, i)|]
  {
  }

  /** What the package of a slice is built from: its number, their number, where its bytes stand, and its bytes. */
  lemma SlicePackageIs(how: Sending, m: Message, i: nat, time: u32)
    requires i < SliceCount(|m|)
    ensures SliceCount(|m|) <= 64 && 1024 * i <= |m|
    ensures SlicePackage(how, m, i, time)
            == Package(how.meta, how.withSn, Slice(i, SliceCount(|m|), 1024 * i),
                       m[1024 * i..if |m| < 1024 * (i + 1) then |m| else 1024 * (i + 1)], |m|, time, how.customerNo)
  {
    hide Package;
    SliceCountBound(m);
  }

  /** Every package verifies with the customer number it was sent with; and by its serial number, if that gives the same. */
  lemma SentVerifies(how: Sending, m: Message, i: nat, time: u32)
    requires i < SliceCount(|m|)
    ensures var p := SlicePackage(how, m, i, time);
            && Verify(p, Some(how.customerNo)) == Some(true)
            && (how.withSn && how.customerNo == CustomerId2Str(how.meta.sn / 0x1_0000_0000 % 0x10000) ==>
                  Verify(p, None) == Some(true))
  {
    hide Package, SliceBody, Verify, CustomerId2Str;
    SliceCountBound(m);
    var s := Slice(i, SliceCount(|m|), BODY_MAX_SIZE * i);
    PackageReadBack(how.meta, how.withSn, s, SliceBody(m, i), |m|, time, how.customerNo);
    VerifiesBySerial(how.meta, s, SliceBody(m, i), |m|, time);
  }

  // ----- The receiver's state

  datatype Receiver =
    | Waiting
    | Collecting(meta: Meta, data: bytes, missing: set<nat>)

  predicate Complete(r: Receiver) {
    r.Collecting? && r.missing == {}
  }

  function MetaOf(p: bytes): Meta
    requires LongEnough(p)
  {
    SnBound(p);
    NumberBounds(p);
    Meta(Sn(p), Qos(p), IsAck(p), Topic(p), Cmd(p), MsgId(p))
  }

  lemma SnBound(p: bytes)
    requires LongEnough(p)
    ensures Sn(p) < 0x1_0000_0000_0000_0000
  {
    FromBigEndianBound(p[12..20]);
    assert Pow256(2) == 0x1_0000 && Pow256(4) == 0x1_0000_0000;
    assert Pow256(6) == 0x1_0000_0000_0000 && Pow256(8) == 0x1_0000_0000_0000_0000;
  }

  lemma NumberBounds(p: bytes)
    requires LongEnough(p)
    ensures MsgId(p) < 0x10000 && MsgLength(p) < 0x10000
  {
    FromBigEndianBound(p[6..8]);
    FromBigEndianBound(p[10..12]);
    assert Pow256(1) == 256 && Pow256(2) == 0x10000;
  }

  function Below(n: nat): (s: set<nat>)
    ensures forall i: nat :: i in s <==> i < n
  {
    if n == 0 then {} else Below(n - 1) + {n - 1}
  }

  /** The state before the body is copied: a first package sets everything up. */
  function Opened(r: Receiver, p: bytes, junk: bytes): Receiver
    requires WellFramed(p)
  {
    if r.Collecting? then r else
      Collecting(MetaOf(p), junk, if IsSlice(p) then Below(SliceTotal(p)) else {})
  }

  /** A slice that is not awaited, because it came before or was never announced, is ignored. */
  predicate Awaited(r: Receiver, p: bytes)
    requires WellFramed(p)
  {
    IsSlice(p) ==> if r.Collecting? then SliceIndex(p) in r.missing else SliceIndex(p) < SliceTotal(p)
  }

  function CopyAt(p: bytes): nat
    requires WellFramed(p)
  {
    if IsSlice(p) then SliceOffset(p) else 0
  }

  /** The body of an awaited package fits the message buffer. */
  predicate Fits(r: Receiver, p: bytes)
    requires WellFramed(p)
  {
    Awaited(r, p) ==> CopyAt(p) + BodyLength(p) <= if r.Collecting? then |r.data| else MsgLength(p)
  }

  function Overwrite(data: bytes, at: nat, b: bytes): (d: bytes)
    requires at + |b| <= |data|
    ensures |d| == |data|
  {
    data[..at] + b + data[at + |b|..]
  }

  /** initFromTermPackage: junk is what a freshly allocated message buffer holds. */
  function Receive(r: Receiver, p: bytes, junk: bytes): Receiver
    requires WellFramed(p) && Fits(r, p) && |junk| == MsgLength(p)
  {
    var o := Opened(r, p, junk);
    if !Awaited(r, p) then o else
      Collecting(o.meta, Overwrite(o.data, CopyAt(p), Body(p)), if IsSlice(p) then o.missing - {SliceIndex(p)} else o.missing)
  }

  /** A first package is received as by a receiver that was already set up for it. */
  lemma ReceiveOpened(p: bytes, junk: bytes)
    requires WellFramed(p) && Fits(Waiting, p) && |junk| == MsgLength(p)
    ensures var o := Opened(Waiting, p, junk);
            Fits(o, p) && Receive(o, p, junk) == Receive(Waiting, p, junk)
  {
  }

  /** A slice that is not missing, or never was, changes nothing at all, whatever it holds. */
  lemma NotAwaited(r: Receiver, p: bytes, junk: bytes)
    requires WellFramed(p) && |junk| == MsgLength(p)
    requires r.Collecting? && IsSlice(p) && SliceIndex(p) !in r.missing
    ensures Fits(r, p) && Receive(r, p, junk) == r
  {
  }

  /** Any other package stores its body at its place, at the start if it is no slice, and is no longer missing. */
  lemma StoredAtPlace(r: Receiver, p: bytes, junk: bytes)
    requires WellFramed(p) && |junk| == MsgLength(p) && Fits(r, p)
    requires r.Collecting? && (IsSlice(p) ==> SliceIndex(p) in r.missing)
    ensures var t := Receive(r, p, junk);
            var at := if IsSlice(p) then SliceOffset(p) else 0;
            && t.meta == r.meta && |t.data| == |r.data|
            && (forall k :: 0 <= k < |r.data| ==>
                  t.data[k] == if at <= k < at + |Body(p)| then Body(p)[k - at] else r.data[k])
            && t.missing == r.missing - (if IsSlice(p) then {SliceIndex(p)} else {})
  {
    hide IsSlice, SliceIndex, SliceOffset, Body, WellFramed, MsgLength;
  }

  /** The first package decides about header, length and the slices to wait for. */
  lemma FirstPackage(p: bytes, junk: bytes)
    requires WellFramed(p) && |junk| == MsgLength(p) && Fits(Waiting, p)
    ensures var t := Receive(Waiting, p, junk);
            && t.Collecting? && |t.data| == MsgLength(p)
            && t.meta.sn == Sn(p) && t.meta.qos == Qos(p) && t.meta.ack == IsAck(p)
            && t.meta.topic == Topic(p) && t.meta.cmd == Cmd(p) && t.meta.messageId == MsgId(p)
            && (forall i: nat :: i in t.missing <==> IsSlice(p) && i < SliceTotal(p) && i != SliceIndex(p))
  {
    hide IsSlice, SliceIndex, SliceOffset, SliceTotal, Body, MsgLength, Sn, Qos, IsAck, Topic, Cmd, MsgId;
  }

  // ----- Any order, any repetition

  datatype Delivery = Delivery(index: nat, time: u32)

  /** Deliveries of packages of one message. */
  predicate Deliveries(m: Message, ds: seq<Delivery>) {
    forall d :: d in ds ==> d.index < SliceCount(|m|)
  }

  function Seen(ds: seq<Delivery>): set<nat> {
    set d | d in ds :: d.index
  }

  function AllSlices(m: Message): set<nat> {
    Below(SliceCount(|m|))
  }

  /** The slice's region holds the original bytes. */
  ghost predicate RegionRight(m: Message, data: bytes, i: nat)
    requires |data| == |m|
  {
    forall k :: BODY_MAX_SIZE * i <= k < SliceEnd(m, i) ==> data[k] == m[k]
  }

  /** What holds after packages of exactly the slices in `seen` have arrived. */
  ghost predicate Progress(how: Sending, m: Message, r: Receiver, seen: set<nat>) {
    && r.Collecting? && seen != {} && seen <= AllSlices(m)
    && r.meta == how.meta.(sn := if how.withSn then how.meta.sn else 0)
    && |r.data| == |m|
    && r.missing == AllSlices(m) - seen
    && forall i :: i in seen ==> RegionRight(m, r.data, i)
  }

  lemma PackageParts(how: Sending, m: Message, i: nat, time: u32)
    requires i < SliceCount(|m|)
    ensures var p := SlicePackage(how, m, i, time);
            && WellFramed(p)
            && MetaOf(p) == how.meta.(sn := if how.withSn then how.meta.sn else 0)
            && MsgLength(p) == |m|
            && IsSlice(p) == (SliceCount(|m|) > 1)
            && (IsSlice(p) ==> SliceIndex(p) == i && SliceTotal(p) == SliceCount(|m|))
            && CopyAt(p) == BODY_MAX_SIZE * i
            && Body(p) == SliceBody(m, i)
  {
    hide Package, SliceBody, WellFramed, Verify, SliceIndex, SliceTotal, SliceOffset, Body;
    SliceCountBound(m);
    PackageReadBack(how.meta, how.withSn, Slice(i, SliceCount(|m|), BODY_MAX_SIZE * i), SliceBody(m, i), |m|, time, how.customerNo);
  }

  lemma OverwriteRegion(m: Message, data: bytes, i: nat)
    requires i < SliceCount(|m|) && |data| == |m|
    ensures var d := Overwrite(data, BODY_MAX_SIZE * i, SliceBody(m, i));
            && RegionRight(m, d, i)
            && forall j :: j != i && RegionRight(m, data, j) ==> RegionRight(m, d, j)
  {
    hide RegionRight;
    OwnRegion(m, data, i);
    forall j: nat | j != i && RegionRight(m, data, j)
      ensures RegionRight(m, Overwrite(data, BODY_MAX_SIZE * i, SliceBody(m, i)), j)
    {
      OtherRegion(m, data, i, j);
    }
  }

  lemma OwnRegion(m: Message, data: bytes, i: nat)
    requires i < SliceCount(|m|) && |data| == |m|
    ensures RegionRight(m, Overwrite(data, BODY_MAX_SIZE * i, SliceBody(m, i)), i)
  {
    var d := Overwrite(data, BODY_MAX_SIZE * i, SliceBody(m, i));
    var lo := BODY_MAX_SIZE * i;
    forall k | lo <= k < SliceEnd(m, i)
      ensures d[k] == m[k]
    {
      assert d[k] == SliceBody(m, i)[k - lo];
    }
  }

  lemma OtherRegion(m: Message, data: bytes, i: nat, j: nat)
    requires i < SliceCount(|m|) && |data| == |m| && j != i && RegionRight(m, data, j)
    ensures RegionRight(m, Overwrite(data, BODY_MAX_SIZE * i, SliceBody(m, i)), j)
  {
    var d := Overwrite(data, BODY_MAX_SIZE * i, SliceBody(m, i));
    var lo, hi := BODY_MAX_SIZE * i, SliceEnd(m, i);
    assert j < i ==> SliceEnd(m, j) <= lo;
    assert j > i ==> BODY_MAX_SIZE * j >= hi;
    forall k | BODY_MAX_SIZE * j <= k < SliceEnd(m, j)
      ensures d[k] == m[k]
    {
      assert d[k] == data[k];
    }
  }

  /** A package of the message always fits, and adds exactly its own slice. */
  lemma DeliveryStep(how: Sending, m: Message, r: Receiver, seen: set<nat>, d: Delivery, junk: bytes)
    requires d.index < SliceCount(|m|) && |junk| == |m|
    requires Progress(how, m, r, seen) || (r.Waiting? && seen == {})
    ensures var p := SlicePackage(how, m, d.index, d.time);
            && WellFramed(p) && MsgLength(p) == |m| && Fits(r, p)
            && Progress(how, m, Receive(r, p, junk), seen + {d.index})
  {
    hide SlicePackage, SliceBody, Body, SliceIndex, SliceTotal, SliceOffset, IsSlice, MsgLength,
         RegionRight, Overwrite, MetaOf, SliceCount;
    PackageParts(how, m, d.index, d.time);
    SliceSpan(m, d.index);
    var p := SlicePackage(how, m, d.index, d.time);
    if IsSlice(p) && !Awaited(r, p) {
      assert d.index in AllSlices(m);
      assert seen + {d.index} == seen;
    }
    if !IsSlice(p) {
      assert forall i :: i in AllSlices(m) ==> i == 0;
    }
    if Awaited(r, p) {
      var o := Opened(r, p, junk);
      OverwriteRegion(m, o.data, d.index);
      var n := Receive(r, p, junk);
      assert n.missing == AllSlices(m) - (seen + {d.index});
    }
  }

  lemma SliceSpan(m: Message, i: nat)
    requires i < SliceCount(|m|)
    ensures BODY_MAX_SIZE * i + |SliceBody(m, i)| <= |m|
    ensures SliceCount(|m|) == 1 ==> i == 0
  {
  }

  /** Receive, for packages that are known to fit. */
  function Take(r: Receiver, p: bytes, junk: bytes): Receiver {
    if WellFramed(p) && |junk| == MsgLength(p) && Fits(r, p) then Receive(r, p, junk) else r
  }

  function Deliver(how: Sending, m: Message, ds: seq<Delivery>, junk: bytes): Receiver
    requires Deliveries(m, ds)
  {
    if ds == [] then Waiting else
      var d := ds[|ds| - 1];
      Take(Deliver(how, m, ds[..|ds| - 1], junk), SlicePackage(how, m, d.index, d.time), junk)
  }

  /** Over every run of deliveries: missing is what has not come, and what has come is in place. */
  lemma {:induction false} RunProgress(how: Sending, m: Message, ds: seq<Delivery>, junk: bytes)
    requires Deliveries(m, ds) && |junk| == |m|
    ensures if ds == [] then Deliver(how, m, ds, junk).Waiting? else Progress(how, m, Deliver(how, m, ds, junk), Seen(ds))
  {
    hide SlicePackage, Progress, WellFramed, MsgLength, Fits, Receive, SliceCount;
    if ds != [] {
      var before, d := ds[..|ds| - 1], ds[|ds| - 1];
      RunProgress(how, m, before, junk);
      DeliveryStep(how, m, Deliver(how, m, before, junk), Seen(before), d, junk);
      SeenSnoc(before, d);
      assert ds == before + [d];
    }
  }

  lemma SeenSnoc(ds: seq<Delivery>, d: Delivery)
    ensures Seen(ds + [d]) == Seen(ds) + {d.index}
    ensures Seen([]) == {}
  {
    forall i
      ensures i in Seen(ds + [d]) <==> i in Seen(ds) + {d.index}
    {
      if i in Seen(ds + [d]) {
        var e :| e in ds + [d] && e.index == i;
        assert e in ds || e == d;
      }
      if i in Seen(ds) {
        var e :| e in ds && e.index == i;
        assert e in ds + [d];
      }
      if i == d.index {
        assert d in ds + [d];
      }
    }
  }

  /**
   The main result.  Whatever the order, the repetitions, the time stamps and the contents of the
   fresh buffer: the message is complete exactly when every slice has come at least once, and a
   complete message is the original, under the original header.
   */
  lemma AnyOrderReassembles(how: Sending, m: Message, ds: seq<Delivery>, junk: bytes)
    requires Deliveries(m, ds) && |junk| == |m|
    ensures var r := Deliver(how, m, ds, junk);
            && (Complete(r) <==> Seen(ds) == AllSlices(m))
            && (Complete(r) ==> r.data == m && r.meta == how.meta.(sn := if how.withSn then how.meta.sn else 0))
  {
    RunProgress(how, m, ds, junk);
    var r := Deliver(how, m, ds, junk);
    SeenBelow(m, ds);
    if ds == [] {
      assert Seen(ds) == {};
      assert 0 in AllSlices(m);
    } else if Complete(r) {
      AllRegionsRight(m, r.data);
    }
  }

  lemma SeenBelow(m: Message, ds: seq<Delivery>)
    requires Deliveries(m, ds)
    ensures Seen(ds) <= AllSlices(m)
  {
  }

  lemma AllRegionsRight(m: Message, data: bytes)
    requires |data| == |m|
    requires forall i :: i in AllSlices(m) ==> RegionRight(m, data, i)
    ensures data == m
  {
    forall k | 0 <= k < |m|
      ensures data[k] == m[k]
    {
      var i := k / BODY_MAX_SIZE;
      assert i in AllSlices(m);
      assert RegionRight(m, data, i);
    }
  }
}
