/** The message object's two JSON methods, over the shared cache of serial numbers. */
module JsonMessage {
  import opened Octets
  import opened Buffers
  import opened JsonValue
  import opened Tlv
  import opened TermPackage
  import opened Reassembly
  import opened WholeStack
  import ConfigBuffers
  import ConfigRequest
  import DecoderAlgebra
  import DevidCache
  import Schema
  import SchemaBuffers
  import TermMessage
  import Upgrade
  import UpgradeBuffers

  /**
   The parameters written into a fresh buffer; negative when the parser reports an error.  The
   array goes on one byte behind the buffer: `behind` is what lies there.
   */
  method EncodeParameters(parser: Parser, m: Members, ack: bool, room: nat, behind: byte) returns (buf: array<byte>, length: int)
    requires !Encoded(parser, m, ack, room).Undefined?
    ensures fresh(buf) && buf.Length == room + 1
    ensures Encoded(parser, m, ack, room).Failed? ==> length < 0
    ensures Encoded(parser, m, ack, room).Written? ==>
              0 <= length <= room && buf[..length] == Encoded(parser, m, ack, room).b
    ensures buf[room] == Behind(StrayOf(parser, m, ack, room), behind)
  {
    hide SchemaBuffers.Kept, SchemaBuffers.StrayKept, Serialize, Upgrade.J2B, Upgrade.RequestStray, ConfigRequest.J2B,
         MemberNames, Upto;
    buf := new byte[room + 1];
    buf[room] := behind;
    match parser {
      case UpgradeParser =>
        length := UpgradeBuffers.WriteRequest(m, ack, buf, room);
      case ConfigParser(model) =>
        length := ConfigBuffers.WriteRequest(model, m, ack, buf, room);
      case SchemaParser(props) =>
        length := SchemaBuffers.DataJ2B(props, m, buf, room);
      case NoModel =>
        length := -1;
    }
  }

  /** clear() and the header fields; false when one is missing or has the wrong type. */
  method FillHeader(msg: TermMessage.Message, cache: DevidCache.Cache, root: Members, product: string) returns (ok: bool)
    modifies msg, cache
    ensures msg.data == null && msg.length == 0 && msg.packages == [] && msg.productId == product
    ensures ok == EnvelopePresent(root)
    ensures ok ==> msg.Header() == MetaFrom(root, old(cache.View()))
    ensures cache.View() == if Get(root, "sn").Str? then DevidCache.After(old(cache.View()), DevidCache.ToId(root["sn"].s))
                            else old(cache.View())
  {
    hide DevidCache.IdFor, DevidCache.After;
    msg.data, msg.length, msg.packages, msg.productId := null, 0, [], product;
    if Get(root, "sn").Str? {
      msg.sn := cache.Str2Devid(root["sn"].s);
    } else {
      msg.sn := 0;
    }
    ghost var after := cache.View();
    assert msg.sn == SnOf(root, old(cache.View()));
    ok := FillFields(msg, root);
    assert cache.View() == after;
  }

  method FillFields(msg: TermMessage.Message, root: Members) returns (ok: bool)
    modifies msg`qos, msg`ack, msg`topic, msg`cmd, msg`messageId
    ensures ok == EnvelopePresent(root)
    ensures ok ==> msg.qos == (root["qos"].n == 1) && msg.ack == (root["ack"].n == 1)
    ensures ok ==> msg.topic == root["topic"].n % 0x100 && msg.cmd == root["cmd"].n % 0x100
    ensures ok ==> msg.messageId == root["msgid"].n % 0x10000
  {
    if !IsInt(Get(root, "qos")) {
      return false;
    }
    msg.qos := root["qos"].n == 1;
    if !IsInt(Get(root, "ack")) {
      return false;
    }
    msg.ack := root["ack"].n == 1;
    if !Get(root, "topic").IsUInt() {
      return false;
    }
    msg.topic := root["topic"].n % 0x100;
    if !Get(root, "cmd").IsUInt() {
      return false;
    }
    msg.cmd := root["cmd"].n % 0x100;
    if !Get(root, "msgid").IsUInt() {
      return false;
    }
    msg.messageId := root["msgid"].n % 0x10000;
    ok := true;
  }

  /** The encoded parameters become the message's data, their length kept in 16 bits. */
  method FillPayload(msg: TermMessage.Message, parser: Parser, m: Members, room: nat, behind: byte)
    returns (ok: bool, ghost payload: Reassembly.Message)
    requires !Encoded(parser, m, msg.ack, room).Undefined?
    modifies msg`data, msg`length
    ensures ok == Encoded(parser, m, msg.ack, room).Written?
    ensures ok ==> payload == Kept16(Encoded(parser, m, msg.ack, room).b) && msg.HasPayload(payload)
    ensures ok ==> msg.data != null && fresh(msg.data) && msg.data.Length == room + 1
    ensures ok ==> msg.data[room] == Behind(StrayOf(parser, m, msg.ack, room), behind)
  {
    hide Encoded, StrayOf;
    payload := [];
    var buf, length := EncodeParameters(parser, m, msg.ack, room, behind);
    ok := length >= 0;
    if ok {
      msg.length := length % 0x10000;
      msg.data := buf;
      payload := buf[..msg.length];
      assert buf[..length][..msg.length] == buf[..msg.length];
    }
  }

  /** initFromJson: room is the length of the printed parameters, which sizes the buffer. */
  method InitFromJson(msg: TermMessage.Message, cache: DevidCache.Cache, root: Members, product: string, repo: Repo, room: nat, behind: byte,
                      withSn: bool, customerNo: Option<text>, clock: seq<u32>)
    returns (rc: int, ghost payload: Reassembly.Message)
    requires !Prepare(root, repo, room, cache.View()).Crashed?
    requires |clock| >= 64
    modifies msg, cache
    ensures match Prepare(root, repo, room, old(cache.View()))
            case Rejected(code) => rc == code
            case Crashed => false
            case Ready(meta, m) =>
              && rc == 0 && payload == m && msg.Header() == meta && msg.HasPayload(m) && msg.productId == product
              && |clock| >= SliceCount(|m|)
              && msg.packages == Packages(Sending(meta, withSn, msg.CustomerNo(customerNo)), m, clock)
    ensures cache.View() == if Get(root, "sn").Str? then DevidCache.After(old(cache.View()), DevidCache.ToId(root["sn"].s))
                            else old(cache.View())
  {
    hide SnOf, Packages, Encoded, SliceCount, Kept16, EnvelopePresent, MetaFrom, DevidCache.After;
    payload := [];
    var ok := FillHeader(msg, cache, root, product);
    ghost var after := cache.View();
    if !ok {
      return -1, payload;
    }
    MetaNumbers(root, old(cache.View()));
    if Get(root, "msg").Obj? {
      var parser := repo(msg.topic, msg.cmd);
      if parser.None? {
        return -2, payload;
      }
      ok, payload := FillPayload(msg, parser.value, root["msg"].members, room, behind);
      if !ok {
        return -3, payload;
      }
    }
    PackAll(msg, withSn, customerNo, clock, payload);
    assert cache.View() == after;
    rc := 0;
  }

  /** makePackages of a message that has none yet. */
  method PackAll(msg: TermMessage.Message, withSn: bool, customerNo: Option<text>, clock: seq<u32>, ghost payload: Reassembly.Message)
    requires msg.HasPayload(payload) && msg.packages == [] && |clock| >= 64
    modifies msg`packages, msg`packageCount
    ensures |clock| >= SliceCount(|payload|)
    ensures msg.packages == Packages(Sending(msg.Header(), withSn, msg.CustomerNo(customerNo)), payload, clock)
  {
    hide Packages, SliceCount;
    SliceCountBound(payload);
    msg.MakePackages(withSn, customerNo, clock, payload);
    ghost var sent := Packages(Sending(msg.Header(), withSn, msg.CustomerNo(customerNo)), payload, clock);
    assert [] + sent == sent;
  }

  lemma MetaNumbers(root: Members, cache: DevidCache.State)
    requires EnvelopePresent(root)
    ensures MetaFrom(root, cache).topic == root["topic"].n % 0x100 && MetaFrom(root, cache).cmd == root["cmd"].n % 0x100
  {
  }

  /** What getJsonMsg reads: the announced bytes, which a message just built keeps at the start of a longer buffer. */
  function Data(msg: TermMessage.Message): bytes
    requires msg.data != null && msg.length <= msg.data.Length
    reads msg, msg.data
  {
    msg.data[..msg.length]
  }

  /**
   getJsonMsg, of a message received or just built; an incomplete one, and one without parameters
   that was just built, gives whatever was there before.
   */
  method GetJsonMsg(msg: TermMessage.Message, cache: DevidCache.Cache, repo: Repo, beyond: Memory, before: Json) returns (j: Json)
    requires msg.data != null ==> msg.length <= msg.data.Length
    requires Complete(msg.View()) ==> ToJson(msg.Header(), Data(msg), repo, cache.View(), beyond).Some?
    modifies cache
    ensures old(Complete(msg.View())) ==> old(ToJson(msg.Header(), Data(msg), repo, cache.View(), beyond)) == Some(j)
    ensures !old(Complete(msg.View())) ==> j == before && cache.View() == old(cache.View())
    ensures old(Complete(msg.View())) ==>
              cache.View() == if msg.sn == 0 then old(cache.View()) else DevidCache.After(old(cache.View()), DevidCache.ToString(msg.sn))
  {
    hide Flag01, DecodedMsg, DevidCache.NameFor, DevidCache.After;
    if !msg.IsComplete() {
      return before;
    }
    ghost var was := cache.View();
    var sn := "";
    if msg.sn != 0 {
      sn := cache.Devid2Str(msg.sn);
    }
    assert sn == SnText(msg.sn, was);
    var parser := repo(msg.topic, msg.cmd);
    if parser.None? {
      return Obj(map[]);
    }
    var parameters := DecodeParameters(parser.value, msg.data[..msg.length], msg.ack, beyond);
    j := Obj(map["sn" := Str(sn), "qos" := Flag01(msg.qos), "ack" := Flag01(msg.ack),
                 "topic" := Int(msg.topic), "cmd" := Int(msg.cmd), "msgid" := Int(msg.messageId), "msg" := parameters]);
  }

  method DecodeParameters(parser: Parser, data: bytes, ack: bool, beyond: Memory) returns (parameters: Json)
    requires DecodedMsg(parser, data, ack, beyond).Some?
    ensures Some(parameters) == DecodedMsg(parser, data, ack, beyond)
  {
    hide Upgrade.B2J, ConfigRequest.B2J, DecoderAlgebra.DecodeInto, Schema.AsValue;
    parameters := Null;
    match parser {
      case UpgradeParser =>
        var _, m := UpgradeBuffers.ReadRequest(data, ack, map[], beyond);
        parameters := Schema.AsValue(m);
      case ConfigParser(model) =>
        var _, m := ConfigBuffers.ReadRequest(model, data, ack, map[], beyond);
        parameters := Schema.AsValue(m);
      case SchemaParser(props) =>
        if !ack {
          var m := SchemaBuffers.DataB2J(props, data, map[], beyond);
          parameters := Schema.AsValue(m);
        }
      case NoModel =>
    }
  }
}
