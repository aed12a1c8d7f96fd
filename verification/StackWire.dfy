/** From a JSON message to its payload and back, in literals: members, codes, and what a faulty payload leaves. */
module StackWire {
  import opened Octets
  import opened Buffers
  import opened JsonValue
  import opened Tlv
  import opened TermPackage
  import opened WholeStack
  import ConfigRequest
  import ConfigWire
  import DecoderAlgebra
  import DevidCache
  import Schema
  import SchemaAccept
  import SchemaBuffers
  import SchemaWire
  import Upgrade
  import UpgradeUnknown
  import UpgradeWire

  // ----- Which messages are accepted

  predicate IntMember(root: Members, key: string) {
    key in root && root[key].Int? && -0x8000_0000 <= root[key].n < 0x8000_0000
  }

  predicate UIntMember(root: Members, key: string) {
    key in root && root[key].Int? && 0 <= root[key].n < 0x1_0000_0000
  }

  /** The five numbers every message has. */
  predicate HeaderFormed(root: Members) {
    && IntMember(root, "qos") && IntMember(root, "ack")
    && UIntMember(root, "topic") && UIntMember(root, "cmd") && UIntMember(root, "msgid")
  }

  /** The flags are set for 1 alone; the other numbers are cut to their widths. */
  function HeaderOf(root: Members, cache: DevidCache.State): Meta
    requires HeaderFormed(root)
  {
    Meta(if "sn" in root && root["sn"].Str? then DevidCache.IdFor(cache, root["sn"].s) else 0,
         root["qos"].n == 1, root["ack"].n == 1, root["topic"].n % 256, root["cmd"].n % 256, root["msgid"].n % 65536)
  }

  lemma FormedIsPresent(root: Members, cache: DevidCache.State)
    ensures EnvelopePresent(root) <==> HeaderFormed(root)
    ensures HeaderFormed(root) ==> MetaFrom(root, cache) == HeaderOf(root, cache)
  {
    hide DevidCache.IdFor;
  }

  predicate HasParameters(root: Members) { "msg" in root && root["msg"].Obj? }

  /** A message without its five numbers, or with parameters no parser is known for, and one without parameters. */
  lemma PreparedExactly(root: Members, repo: Repo, room: nat, cache: DevidCache.State)
    ensures !HeaderFormed(root) ==> Prepare(root, repo, room, cache) == Rejected(-1)
    ensures HeaderFormed(root) && !HasParameters(root) ==>
              Prepare(root, repo, room, cache) == Ready(HeaderOf(root, cache), [])
    ensures HeaderFormed(root) && HasParameters(root) && repo(root["topic"].n % 256, root["cmd"].n % 256).None? ==>
              Prepare(root, repo, room, cache) == Rejected(-2)
  {
    hide EnvelopePresent, MetaFrom, HeaderFormed, Encoded;
    FormedIsPresent(root, cache);
  }

  /** At most 65535 bytes of a payload are sent: its length modulo 2^16. */
  function Sent(b: bytes): Reassembly.Message { b[..|b| % 65536] }

  lemma ParsedExactly(root: Members, repo: Repo, room: nat, cache: DevidCache.State)
    requires HeaderFormed(root) && HasParameters(root) && repo(root["topic"].n % 256, root["cmd"].n % 256).Some?
    ensures var e := Encoded(repo(root["topic"].n % 256, root["cmd"].n % 256).value, root["msg"].members, root["ack"].n == 1, room);
            Prepare(root, repo, room, cache) ==
            if e.Failed? then Rejected(-3) else if e.Undefined? then Crashed else Ready(HeaderOf(root, cache), Sent(e.b))
  {
    hide EnvelopePresent, MetaFrom, HeaderFormed, Encoded, HeaderOf;
    FormedIsPresent(root, cache);
    HeaderNumbers(root, cache);
  }

  lemma HeaderNumbers(root: Members, cache: DevidCache.State)
    requires HeaderFormed(root)
    ensures var h := HeaderOf(root, cache);
            h.topic == root["topic"].n % 256 && h.cmd == root["cmd"].n % 256 && h.ack == (root["ack"].n == 1)
  {
    hide DevidCache.IdFor;
  }

  /** Parameters of a start-upgrade request: accepted in their form when they fit, as their TLVs. */
  lemma UpgradeEncoded(m: Members, room: nat)
    ensures Encoded(UpgradeParser, m, true, room) == ConfigRequest.Written([])
    ensures Encoded(UpgradeParser, m, false, room) ==
            if UpgradeWire.RequestFormed(m) && room >= |Serialize(UpgradeWire.RequestTlvs(m))|
            then ConfigRequest.Written(Serialize(UpgradeWire.RequestTlvs(m))) else ConfigRequest.Failed
  {
    hide Upgrade.J2B, UpgradeWire.RequestFormed, UpgradeWire.RequestTlvs, Serialize;
    UpgradeWire.WrittenExactly(m, room);
    UpgradeWire.AckIsEmpty(m, room, [], _ => 0);
  }

  /** Parameters of a get-configuration request: as much of their TLVs as fits, without an error. */
  lemma ConfigEncoded(model: ConfigRequest.Model, m: Members, room: nat)
    ensures Encoded(ConfigParser(model), m, true, room) ==
            if ConfigWire.NamesFlag(m) then ConfigRequest.Written([]) else ConfigRequest.Failed
    ensures Encoded(ConfigParser(model), m, false, room).Written? <==>
            ConfigWire.RequestFormed(model, m) && ConfigWire.HeadFits(m, room)
    ensures Encoded(ConfigParser(model), m, false, room).Written? && ConfigWire.WithinLimits(model, m) ==>
              var b := Serialize(ConfigWire.RequestTlvs(model, m));
              Encoded(ConfigParser(model), m, false, room).b == if |b| <= room then b else b[..room]
  {
    hide ConfigRequest.J2B, ConfigWire.RequestFormed, ConfigWire.HeadFits, ConfigWire.WithinLimits, ConfigWire.RequestTlvs,
         ConfigWire.NamesFlag, Serialize;
    ConfigWire.WrittenExactly(model, m, room);
    if ConfigRequest.J2B(model, m, false, room).Written? && ConfigWire.WithinLimits(model, m) {
      ConfigWire.WrittenAs(model, m, room);
    }
  }

  /** Parameters a command model describes: member by member what conforms and fits; a command without a model fails. */
  lemma SchemaEncoded(props: seq<Schema.Property>, m: Members, ack: bool, room: nat)
    ensures Encoded(SchemaParser(props), m, ack, room)
            == ConfigRequest.Written(SchemaWire.KeptBytes(Schema.StructType(props), MemberNames(m.Keys), m, room))
    ensures Encoded(NoModel, m, ack, room) == ConfigRequest.Failed
  {
    hide SchemaBuffers.Kept, SchemaWire.KeptBytes, Serialize, MemberNames;
    SchemaWire.KeptAs(Schema.StructType(props), MemberNames(m.Keys), m, room);
  }

  // ----- What a payload is read as

  /** The object a parser fills; null while it has no member, also when the parser stops with an error. */
  function ObjectOf(m: Members): Json { if m == map[] then Null else Obj(m) }

  lemma MsgDecoded(data: bytes, ack: bool, model: ConfigRequest.Model, props: seq<Schema.Property>, beyond: Memory)
    ensures DecodedMsg(UpgradeParser, data, ack, beyond) == Some(ObjectOf(Upgrade.B2J(data, ack, map[], beyond).m))
    ensures var d := ConfigRequest.B2J(model, data, ack, map[], beyond);
            DecodedMsg(ConfigParser(model), data, ack, beyond) == if d.None? then None else Some(ObjectOf(d.value.m))
    ensures DecodedMsg(SchemaParser(props), data, ack, beyond)
            == Some(if ack then Null else ObjectOf(DecoderAlgebra.DecodeInto(props, data, map[])))
    ensures DecodedMsg(NoModel, data, ack, beyond) == Some(Null)
  {
    hide Upgrade.B2J, ConfigRequest.B2J, DecoderAlgebra.DecodeInto;
  }

  function One(key: string, value: Json): (m: Members)
    ensures m != map[]
  {
    assert key in map[key := value];
    map[key := value]
  }

  lemma UpgradeErrorRead(beyond: Memory)
    ensures Upgrade.B2J([2, 1, 65, 1, 2, 0, 0], false, map[], beyond) == Upgrade.Decoded(-2, One("url", Str("A")))
  {
    hide Upgrade.B2J, Frame;
    var url, id := Tlv(2, [65]), Tlv(1, [0, 0]);
    FrameBytes(url);
    FrameBytes(id);
    assert Frame(url) == [2, 1, 65] && Frame(id) == [1, 2, 0, 0];
    assert Frame(url) + Frame(id) == [2, 1, 65, 1, 2, 0, 0];
    assert Frame(id) + [] == Frame(id);
    assert FromBytes(url.body) == "A";
    var none: Members := map[];
    assert none["url" := Str(FromBytes(url.body))] == One("url", Str("A"));
    UpgradeWire.TlvDecoded(url, Frame(id), none, beyond);
    UpgradeWire.TlvDecoded(id, [], One("url", Str("A")), UpgradeUnknown.Shifted(beyond, |Frame(url)|));
  }

  /** A url and then a task id of two bytes: the error code is lost, the url stays. */
  lemma UpgradeErrorKeeps(beyond: Memory)
    ensures DecodedMsg(UpgradeParser, [2, 1, 65, 1, 2, 0, 0], false, beyond) == Some(Obj(map["url" := Str("A")]))
  {
    hide Upgrade.B2J;
    UpgradeErrorRead(beyond);
  }

  lemma ConfigErrorRead(model: ConfigRequest.Model, beyond: Memory)
    ensures ConfigRequest.B2J(model, [1, 1, 7, 2, 5, 1], false, map[], beyond)
            == Some(ConfigRequest.Decoded(-1, One("type", Int(7))))
  {
    hide ConfigRequest.B2JFrom, Frame;
    var data: bytes := [1, 1, 7, 2, 5, 1];
    var t := Tlv(1, [7]);
    var none: Members := map[];
    FrameBytes(t);
    assert Frame(t) == [1, 1, 7];
    assert data[0..] == Frame(t) + [2, 5, 1] && data[3..] == [2, 5, 1];
    assert none["type" := Int(t.body[0])] == One("type", Int(7));
    ConfigWire.TlvDecoded(model, data, 0, t, [2, 5, 1], none, beyond);
    LengthRead(5, 1);
    ConfigWire.RequestOverrun(model, data, 3, [2, 5, 1], One("type", Int(7)), beyond);
  }

  /** A type and then an id that is cut off: the type stays. */
  lemma ConfigErrorKeeps(model: ConfigRequest.Model, beyond: Memory)
    ensures DecodedMsg(ConfigParser(model), [1, 1, 7, 2, 5, 1], false, beyond) == Some(Obj(map["type" := Int(7)]))
  {
    hide ConfigRequest.B2J;
    ConfigErrorRead(model, beyond);
  }

  /** What getJsonMsg gives: an empty object for an unknown command, and otherwise seven members. */
  lemma JsonExactly(meta: Meta, data: bytes, repo: Repo, cache: DevidCache.State, beyond: Memory)
    ensures var parser := repo(meta.topic, meta.cmd);
            && (parser.None? ==> ToJson(meta, data, repo, cache, beyond) == Some(Obj(map[])))
            && (parser.Some? && DecodedMsg(parser.value, data, meta.ack, beyond).Some? ==>
                  ToJson(meta, data, repo, cache, beyond) == Some(Obj(map[
                    "sn" := Str(if meta.sn == 0 then "" else DevidCache.NameFor(cache, meta.sn)),
                    "qos" := Int(if meta.qos then 1 else 0), "ack" := Int(if meta.ack then 1 else 0),
                    "topic" := Int(meta.topic), "cmd" := Int(meta.cmd), "msgid" := Int(meta.messageId),
                    "msg" := DecodedMsg(parser.value, data, meta.ack, beyond).value])))
  {
    hide DecodedMsg, DevidCache.NameFor;
  }
}
