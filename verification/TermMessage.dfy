/** The message object: cutting its data into packages, and filling it package by package. */
module TermMessage {
  import opened Octets
  import opened Buffers
  import opened Crc32
  import opened Crc32Bytes
  import opened SerialNumber
  import opened TermPackage
  import opened Reassembly

  /** One package written into a fresh buffer, part after part, and signed. */
  method BuildPackage(meta: Meta, withSn: bool, s: Slice, body: bytes, msgLength: u16, time: u32, customerNo: text)
    returns (p: bytes)
    requires |body| <= BODY_MAX_SIZE
    ensures p == Package(meta, withSn, s, body, msgLength, time, customerNo)
  {
    hide BigEndian, Crc, WordBytes, BaseHeader, Holds, SnPart, SlicePart;
    var size := PackageSize(withSn, s, body);
    PartSizes(meta, withSn, s);
    var buff := new byte[size];
    var header := BaseHeader(meta, withSn, s.total > 1, size, msgLength);
    NothingHeld(buff);
    Append(header, buff, [], 0);
    var at := BASE_HEADER_SIZE;
    ghost var done := [] + header;
    if withSn {
      Append(BigEndian(meta.sn, 8), buff, done, at);
      at := at + SN_LENGTH;
    } else {
      assert done + [] == done;
    }
    done := done + SnPart(meta, withSn);
    if s.total > 1 {
      Append([s.index, s.total] + BigEndian(s.offset, 2), buff, done, at);
      at := at + SLICE_INFO_LENGTH;
    } else {
      assert done + [] == done;
    }
    done := done + SlicePart(s);
    Append(body, buff, done, at);
    done, at := done + body, at + |body|;
    Append(BigEndian(time, 4), buff, done, at);
    done, at := done + BigEndian(time, 4), at + 4;
    assert done == Unsigned(meta, withSn, s, body, msgLength, time);
    HoldsAll(buff, done);
    var crc := Crc32Two(buff[..at], ToBytes(customerNo));
    Append(WordBytes(crc), buff, done, at);
    HoldsAll(buff, done + WordBytes(crc));
    p := buff[..];
    assert p == buff[..size];
  }

  lemma PartSizes(meta: Meta, withSn: bool, s: Slice)
    ensures SnPart(meta, withSn) == if withSn then BigEndian(meta.sn, 8) else []
    ensures SlicePart(s) == if s.total > 1 then [s.index, s.total] + BigEndian(s.offset, 2) else []
  {
  }

  class Message {
    var sn: u64
    var qos: bool
    var ack: bool
    var topic: byte
    var cmd: byte
    var messageId: u16
    var productId: string
    var packageCount: nat
    var data: array?<byte>
    var length: u16
    var sliceMap: map<nat, bool>
    var packages: seq<bytes>

    constructor ()
      ensures View() == Waiting && packages == [] && length == 0
    {
      sn, qos, ack, topic, cmd, messageId := 0, false, false, 0, 0, 0;
      productId, packageCount, length, sliceMap, packages := "", 0, 0, map[], [];
      data := null;
    }

    function Header(): Meta
      reads this
    {
      Meta(sn, qos, ack, topic, cmd, messageId)
    }

    /** What has been received so far. */
    function View(): Receiver
      reads this, data
    {
      if data == null then Waiting else Collecting(Header(), data[..], sliceMap.Keys)
    }

    predicate IsComplete()
      reads this, data
      ensures IsComplete() <==> Complete(View())
    {
      data != null && |sliceMap| == 0
    }

    /** The bytes to send. */
    predicate HasPayload(m: bytes)
      reads this`data, this`length, data
    {
      if data == null then length == 0 && m == [] else length <= data.Length && m == data[..length]
    }

    /**
     None is the exception on a package shorter than the minimum; otherwise 1 when the message
     is complete and 0 when it is not.  Of an accepted package the source requires that its
     parts lie within it and its body within the message.
     */
    method InitFromTermPackage(p: bytes, product: string) returns (rc: Option<int>, ghost junk: bytes)
      requires LongEnough(p) ==> WellFramed(p) && Fits(View(), p)
      modifies this, data
      ensures !LongEnough(p) ==> rc == None && View() == old(View())
      ensures LongEnough(p) ==> |junk| == MsgLength(p) && View() == Receive(old(View()), p, junk)
      ensures LongEnough(p) ==> rc == Some(if Complete(View()) then 1 else 0)
      ensures LongEnough(p) && old(View()).Waiting? ==> productId == product && length == MsgLength(p) && fresh(data)
      ensures data == old(data) || fresh(data)
      ensures packages == old(packages)
    {
      hide FromBigEndian, Flag, Receive, Fits, Opened, WellFramed;
      junk := [];
      if !LongEnough(p) {
        return None, junk;
      }
      if data == null {
        OpenWith(p, product);
        junk := data[..];
        ReceiveOpened(p, junk);
      } else {
        junk := seq(MsgLength(p), _ => 0);
      }
      AddBody(p, junk);
      rc := Some(if IsComplete() then 1 else 0);
    }

    /** Every package: an awaited body is copied to its place, anything else is ignored. */
    method AddBody(p: bytes, ghost junk: bytes)
      requires data != null && WellFramed(p) && Fits(View(), p) && |junk| == MsgLength(p)
      modifies this`sliceMap, data
      ensures View() == Receive(old(View()), p, junk)
    {
      hide FromBigEndian, Flag, IsSlice, SliceIndex, SliceOffset, SliceTotal, MsgLength;
      if IsSlice(p) {
        if SliceIndex(p) !in sliceMap {
          return;
        }
        sliceMap := sliceMap - {SliceIndex(p)};
      }
      CopyIn(Body(p), data, CopyAt(p));
      assert data[..] == Overwrite(old(data[..]), CopyAt(p), Body(p));
    }

    /** The first package: header fields, a buffer of unknown contents, and the slices to await. */
    method OpenWith(p: bytes, product: string)
      requires WellFramed(p)
      modifies this
      ensures data != null && fresh(data) && data.Length == MsgLength(p)
      ensures View() == Opened(Waiting, p, data[..])
      ensures productId == product && length == MsgLength(p) && packages == old(packages)
    {
      hide FromBigEndian, Flag, Sn, Qos, IsAck, Topic, Cmd, MsgId, MsgLength, IsSlice, SliceTotal;
      SnBound(p);
      NumberBounds(p);
      sn, qos, ack, topic, cmd, messageId := Sn(p), Qos(p), IsAck(p), Topic(p), Cmd(p), MsgId(p);
      productId := product;
      length := MsgLength(p);
      data := new byte[length];
      sliceMap := map[];
      if IsSlice(p) {
        AwaitSlices(SliceTotal(p));
        packageCount := SliceTotal(p);
      }
    }

    method AwaitSlices(total: nat)
      requires sliceMap == map[]
      modifies this`sliceMap
      ensures sliceMap.Keys == Below(total)
    {
      for i := 0 to total
        invariant sliceMap.Keys == Below(i)
      {
        sliceMap := sliceMap[i := false];
      }
    }

    /** The customer number packages are signed with: the given one, or that of the serial number. */
    function CustomerNo(given: Option<text>): text
      reads this
    {
      if given.Some? then given.value else CustomerId2Str(CustomerIdOf(sn))
    }

    lemma PayloadLength(m: bytes)
      requires HasPayload(m)
      ensures |m| == length
    {
    }

    /** The package of the slice that starts at offset. */
    method CutPackage(withSn: bool, no: text, i: nat, sliceCount: nat, offset: nat, time: u32, ghost m: Reassembly.Message)
      returns (p: bytes, bodySize: nat)
      requires HasPayload(m)
      requires i < sliceCount == SliceCount(|m|) && offset == BODY_MAX_SIZE * i <= |m|
      ensures p == SlicePackage(Sending(Header(), withSn, no), m, i, time)
      ensures offset + bodySize == SliceEnd(m, i)
    {
      hide SlicePackage, Package;
      SliceCountBound(m);
      bodySize := if length - offset > BODY_MAX_SIZE then BODY_MAX_SIZE else length - offset;
      var body := if data == null then [] else data[offset..offset + bodySize];
      assert body == SliceBody(m, i);
      p := BuildPackage(Header(), withSn, Slice(i, sliceCount, offset), body, length, time, no);
      PackageIs(Sending(Header(), withSn, no), m, i, time);
    }

    /** At most 64 slices, so the limit of 255 is never met. */
    method MakePackages(withSn: bool, customerNo: Option<text>, clock: seq<u32>, ghost m: Reassembly.Message)
      requires HasPayload(m)
      requires |clock| >= SliceCount(|m|)
      modifies this`packages, this`packageCount
      ensures packages == old(packages) + Packages(Sending(Header(), withSn, CustomerNo(customerNo)), m, clock)
      ensures packageCount == SliceCount(|m|)
    {
      hide SlicePackage, Package, CustomerId2Str, SliceEnd, HasPayload;
      var no := CustomerNo(customerNo);
      PayloadLength(m);
      var sliceCount := SliceCount(length);
      ghost var all := Packages(Sending(Header(), withSn, no), m, clock);
      SliceCountBound(m);
      var offset := 0;
      for i := 0 to sliceCount
        invariant offset == if i == 0 then 0 else SliceEnd(m, i - 1)
        invariant packages == old(packages) + all[..i]
      {
        OffsetOf(m, i);
        var p, bodySize := CutPackage(withSn, no, i, sliceCount, offset, clock[i], m);
        packages := packages + [p];
        assert all[..i + 1] == all[..i] + [p];
        offset := offset + bodySize;
      }
      packageCount := sliceCount;
      assert all[..sliceCount] == all;
    }
  }

  lemma OffsetOf(m: Reassembly.Message, i: nat)
    requires i < SliceCount(|m|)
    ensures (if i == 0 then 0 else SliceEnd(m, i - 1)) == BODY_MAX_SIZE * i <= |m|
  {
  }

  lemma PackageIs(how: Sending, m: Reassembly.Message, i: nat, time: u32)
    requires i < SliceCount(|m|) <= 64
    ensures SlicePackage(how, m, i, time) ==
            Package(how.meta, how.withSn, Slice(i, SliceCount(|m|), BODY_MAX_SIZE * i), SliceBody(m, i), |m|, time, how.customerNo)
  {
  }

  /** Packages are signed with the given customer number, and without one with that of the serial number. */
  lemma SignedWith(msg: Message, given: Option<text>)
    ensures given.Some? ==> msg.CustomerNo(given) == given.value
    ensures given.None? ==> msg.CustomerNo(given) == CustomerId2Str(msg.sn / 0x1_0000_0000 % 0x10000)
  {
  }
}
