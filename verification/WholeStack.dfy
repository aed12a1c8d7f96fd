/**
 The whole protocol stack: a JSON message is encoded, cut into packages, delivered in any order,
 reassembled and decoded; and exactly which messages come out of it as they went in.
 */
module WholeStack {
  import opened Octets
  import opened Buffers
  import opened JsonValue
  import opened Tlv
  import opened TermPackage
  import opened Reassembly
  import ConfigCut
  import ConfigRequest
  import DecoderAlgebra
  import DevidCache
  import Schema
  import SchemaBuffers
  import SchemaCanonical
  import SchemaRoom
  import SerialNumber
  import Upgrade
  import UpgradeCut

  // ----- Command parsers

  /** Start-upgrade, get-configuration, or a command whose parameters a command model describes, if there is one. */
  datatype Parser =
    | UpgradeParser
    | ConfigParser(model: ConfigRequest.Model)
    | SchemaParser(props: seq<Schema.Property>)
    | NoModel

  type Repo = (byte, byte) -> Option<Parser>

  type Encoding = ConfigRequest.Outcome

  /** The encoded parameters as they stand in a buffer of the given room. */
  ghost function Encoded(parser: Parser, m: Members, ack: bool, room: nat): Encoding {
    match parser
    case UpgradeParser =>
      (match Upgrade.J2B(m, ack, room)
       case Failed(_) => ConfigRequest.Failed
       case Written(b) => ConfigRequest.Written(b))
    case ConfigParser(model) =>
      var o := ConfigRequest.J2B(model, m, ack, room);
      if o.Written? then ConfigRequest.Written(Upto(o.b, room)) else o
    case SchemaParser(props) =>
      ConfigRequest.Written(Serialize(SchemaBuffers.Kept(Schema.StructType(props), MemberNames(m.Keys), m, room)))
    case NoModel => ConfigRequest.Failed
  }

  /** The byte the parser stores behind the room. */
  ghost function StrayOf(parser: Parser, m: Members, ack: bool, room: nat): Option<byte> {
    match parser
    case UpgradeParser => Upgrade.RequestStray(m, ack, room)
    case SchemaParser(props) => SchemaBuffers.StrayKept(Schema.StructType(props), MemberNames(m.Keys), m, room)
    case _ => None
  }

  /**
   The "msg" member that is read back; errors of the parser leave what it has read so far.  None
   when it goes through a null pointer.
   */
  function DecodedMsg(parser: Parser, data: bytes, ack: bool, beyond: Memory): Option<Json> {
    match parser
    case UpgradeParser => Some(Schema.AsValue(Upgrade.B2J(data, ack, map[], beyond).m))
    case ConfigParser(model) =>
      var d := ConfigRequest.B2J(model, data, ack, map[], beyond);
      if d.None? then None else Some(Schema.AsValue(d.value.m))
    case SchemaParser(props) =>
      Some(if ack then Null else Schema.AsValue(DecoderAlgebra.DecodeInto(props, data, map[])))
    case NoModel => Some(Null)
  }

  // ----- initFromJson

  predicate IsInt(j: Json) { j.Int? && -0x8000_0000 <= j.n < 0x8000_0000 }

  /** Crashed: the parser goes through a null pointer. */
  datatype Prepared = Rejected(code: int) | Crashed | Ready(meta: Meta, payload: Reassembly.Message)

  function SnOf(root: Members, cache: DevidCache.State): u64 {
    if Get(root, "sn").Str? then DevidCache.IdFor(cache, root["sn"].s) else 0
  }

  predicate EnvelopePresent(root: Members) {
    && IsInt(Get(root, "qos")) && IsInt(Get(root, "ack")) && Get(root, "topic").IsUInt()
    && Get(root, "cmd").IsUInt() && Get(root, "msgid").IsUInt()
  }

  function MetaFrom(root: Members, cache: DevidCache.State): Meta
    requires EnvelopePresent(root)
  {
    Meta(SnOf(root, cache), root["qos"].n == 1, root["ack"].n == 1, root["topic"].n % 0x100, root["cmd"].n % 0x100,
         root["msgid"].n % 0x10000)
  }

  /** The message length is kept in 16 bits. */
  function Kept16(b: bytes): Reassembly.Message {
    b[..|b| % 0x10000]
  }

  ghost function Prepare(root: Members, repo: Repo, room: nat, cache: DevidCache.State): Prepared {
    if !EnvelopePresent(root) then Rejected(-1) else
      var meta := MetaFrom(root, cache);
      if !Get(root, "msg").Obj? then Ready(meta, []) else
        var parser := repo(meta.topic, meta.cmd);
        if parser.None? then Rejected(-2) else
          match Encoded(parser.value, root["msg"].members, meta.ack, room)
          case Failed => Rejected(-3)
          case Undefined => Crashed
          case Written(b) => Ready(meta, Kept16(b))
  }

  // ----- getJsonMsg

  function SnText(sn: u64, cache: DevidCache.State): text {
    if sn == 0 then "" else DevidCache.NameFor(cache, sn)
  }

  function Flag01(b: bool): Json { Int(if b then 1 else 0) }

  function Printed(meta: Meta, cache: DevidCache.State, msg: Json): Json {
    Obj(map["sn" := Str(SnText(meta.sn, cache)), "qos" := Flag01(meta.qos), "ack" := Flag01(meta.ack),
            "topic" := Int(meta.topic), "cmd" := Int(meta.cmd), "msgid" := Int(meta.messageId), "msg" := msg])
  }

  /** An empty object when no parser knows the command; None when the parser goes through a null pointer. */
  function ToJson(meta: Meta, data: bytes, repo: Repo, cache: DevidCache.State, beyond: Memory): Option<Json> {
    var parser := repo(meta.topic, meta.cmd);
    if parser.None? then Some(Obj(map[])) else
      var msg := DecodedMsg(parser.value, data, meta.ack, beyond);
      if msg.None? then None else Some(Printed(meta, cache, msg.value))
  }

  // ----- Parameters that come back

  /** The model is well formed, and a get-configuration request keeps to the lengths its reader knows. */
  ghost predicate Modelled(parser: Parser, m: Members) {
    match parser
    case ConfigParser(model) => Schema.WellFormed(Schema.StructType(model)) && ConfigRequest.Fits(m)
    case SchemaParser(props) => Schema.WellFormed(Schema.StructType(props))
    case _ => true
  }

  /** Written in full, below 64 KiB, and canonical. */
  ghost predicate MsgComesBack(parser: Parser, m: Members, room: nat)
    requires Encoded(parser, m, false, room).Written?
  {
    match parser
    case UpgradeParser =>
      ItemsOf(m, room);
      |Upgrade.J2B(m, false, room).b| < 0x10000 && Upgrade.Canonical(m)
    case ConfigParser(model) =>
      PartsOf(model, m, room);
      |ConfigRequest.J2B(model, m, false, room).b| < 0x10000 && |ConfigRequest.J2B(model, m, false, room).b| <= room
      && ConfigRequest.Canonical(m)
    case SchemaParser(props) =>
      var dt := Schema.StructType(props);
      && |Serialize(SchemaBuffers.Kept(dt, MemberNames(m.Keys), m, room))| < 0x10000
      && SchemaBuffers.MembersFit(dt, MemberNames(m.Keys), m, room)
      && SchemaCanonical.CanonicalMembers(dt, m)
  }

  lemma ItemsOf(m: Members, room: nat)
    requires Upgrade.J2B(m, false, room).Written?
    ensures Upgrade.FieldsPresent(m)
    ensures forall i :: 0 <= i < |m["firmware"].items| ==> Upgrade.ItemPresent(m["firmware"].items[i])
  {
    hide *;
    UpgradeCut.ComesBackExactly(m, room, 0, _ => 0);
  }

  lemma PartsOf(model: ConfigRequest.Model, m: Members, room: nat)
    requires ConfigRequest.J2B(model, m, false, room).Written?
    ensures ConfigRequest.FlagsPresent(m) && Get(m, "reqid").Str?
    ensures m["getModuleId"].b || (m["getModuleData"].Obj? && ConfigRequest.Lists(m["getModuleData"].members))
  {
    ConfigRequest.HeadNeeds(m, room);
  }

  /** Cutting off what does not fit and then keeping the length in 16 bits leaves all exactly when both have room. */
  lemma CutTwice(b: bytes, room: nat) returns (n: nat)
    ensures n <= |b| && Kept16(Upto(b, room)) == b[..n]
    ensures n == |b| <==> |b| <= room && |b| < 0x10000
  {
    var c := Upto(b, room);
    n := |c| % 0x10000;
    assert c[..n] == b[..n];
  }

  lemma UpgradeReadBackExactly(m: Members, room: nat, beyond: Memory)
    requires Encoded(UpgradeParser, m, false, room).Written?
    ensures DecodedMsg(UpgradeParser, Kept16(Encoded(UpgradeParser, m, false, room).b), false, beyond) == Some(Obj(m))
            <==> MsgComesBack(UpgradeParser, m, room)
  {
    hide Upgrade.B2J, Upgrade.Canonical, Upgrade.J2B, Upgrade.ItemPresent;
    UpgradeCut.ComesBackExactly(m, room, |Upgrade.J2B(m, false, room).b| % 0x10000, beyond);
  }

  lemma ConfigReadBackExactly(model: ConfigRequest.Model, m: Members, room: nat, beyond: Memory)
    requires Encoded(ConfigParser(model), m, false, room).Written? && Modelled(ConfigParser(model), m)
    ensures DecodedMsg(ConfigParser(model), Kept16(Encoded(ConfigParser(model), m, false, room).b), false, beyond) == Some(Obj(m))
            <==> MsgComesBack(ConfigParser(model), m, room)
  {
    hide ConfigRequest.B2J, ConfigRequest.Canonical, ConfigRequest.J2B, ConfigRequest.Fits, ConfigRequest.Lists,
         Schema.WellFormed, Upto, Kept16;
    PartsOf(model, m, room);
    var b := ConfigRequest.J2B(model, m, false, room).b;
    var n := CutTwice(b, room);
    ConfigCut.ComesBackExactly(model, m, room, n, beyond);
  }

  lemma SchemaReadBackExactly(props: seq<Schema.Property>, m: Members, room: nat, beyond: Memory)
    requires Schema.WellFormed(Schema.StructType(props))
    ensures DecodedMsg(SchemaParser(props), Kept16(Encoded(SchemaParser(props), m, false, room).b), false, beyond) == Some(Obj(m))
            <==> MsgComesBack(SchemaParser(props), m, room)
  {
    hide Schema.WellFormed, SchemaBuffers.Kept, SchemaBuffers.MembersFit, SchemaCanonical.CanonicalMembers,
         DecoderAlgebra.DecodeInto, Serialize;
    var b := Encoded(SchemaParser(props), m, false, room).b;
    SchemaRoom.ComesBackExactly(props, m, room, |b| % 0x10000);
  }

  /** Accepted parameters come back exactly when they are written in full, below 64 KiB, and canonical. */
  lemma MsgReadBackExactly(parser: Parser, m: Members, room: nat, beyond: Memory)
    requires Encoded(parser, m, false, room).Written? && Modelled(parser, m)
    ensures DecodedMsg(parser, Kept16(Encoded(parser, m, false, room).b), false, beyond) == Some(Obj(m))
            <==> MsgComesBack(parser, m, room)
  {
    hide Encoded, DecodedMsg, MsgComesBack, Kept16;
    match parser
    case UpgradeParser => UpgradeReadBackExactly(m, room, beyond);
    case ConfigParser(model) => ConfigReadBackExactly(model, m, room, beyond);
    case SchemaParser(props) => SchemaReadBackExactly(props, m, room, beyond);
    case NoModel => NoModelFails(m, room);
  }

  lemma NoModelFails(m: Members, room: nat)
    ensures !Encoded(NoModel, m, false, room).Written?
  {
  }

  /** No payload, or an acknowledgement: nothing is decoded. */
  lemma NothingReadBack(parser: Parser, data: bytes, ack: bool, beyond: Memory)
    requires data == [] || ack
    ensures DecodedMsg(parser, data, ack, beyond) == Some(Null)
  {
  }

  // ----- Messages that come back

  ghost predicate EnvelopeComesBack(root: Members, withSn: bool, sender: DevidCache.State, receiver: DevidCache.State) {
    && root.Keys == {"sn", "qos", "ack", "topic", "cmd", "msgid", "msg"}
    && root["sn"].Str? && DevidCache.ComesBack(root["sn"].s, withSn, sender, receiver)
    && (root["qos"] == Int(0) || root["qos"] == Int(1)) && (root["ack"] == Int(0) || root["ack"] == Int(1))
    && root["topic"].Int? && 0 <= root["topic"].n < 0x100
    && root["cmd"].Int? && 0 <= root["cmd"].n < 0x100
    && root["msgid"].Int? && 0 <= root["msgid"].n < 0x10000
  }

  /** A message without parameters, or a command whose parameters come back; an acknowledgement carries none. */
  ghost predicate BodyComesBack(root: Members, parser: Parser, room: nat) {
    var msg := Get(root, "msg");
    if msg.Obj? then
      && Get(root, "ack") == Int(0) && Encoded(parser, msg.members, false, room).Written?
      && MsgComesBack(parser, msg.members, room)
    else msg.Null?
  }

  ghost predicate RootComesBack(root: Members, repo: Repo, room: nat, withSn: bool,
                                sender: DevidCache.State, receiver: DevidCache.State)
  {
    && EnvelopeComesBack(root, withSn, sender, receiver)
    && var parser := repo(root["topic"].n, root["cmd"].n);
       parser.Some? && BodyComesBack(root, parser.value, room)
  }

  lemma SevenMembers(p: Members, root: Members)
    requires p.Keys == {"sn", "qos", "ack", "topic", "cmd", "msgid", "msg"}
    ensures p == root <==>
            && root.Keys == p.Keys
            && root["sn"] == p["sn"] && root["qos"] == p["qos"] && root["ack"] == p["ack"] && root["topic"] == p["topic"]
            && root["cmd"] == p["cmd"] && root["msgid"] == p["msgid"] && root["msg"] == p["msg"]
  {
  }

  lemma FlagExactly(n: int)
    ensures Int(n) == Flag01(n == 1) <==> Int(n) == Int(0) || Int(n) == Int(1)
  {
  }

  lemma NumberExactly(n: nat, range: nat)
    requires range > 0
    ensures n == n % range <==> n < range
  {
    SchemaCanonical.NumberFixed(n, range);
  }

  /** Which of the numbers survive being cut to their widths, and the two flags being read as such. */
  lemma NumbersExactly(root: Members, cache: DevidCache.State)
    requires EnvelopePresent(root)
    ensures var meta := MetaFrom(root, cache);
            && (root["qos"] == Flag01(meta.qos) <==> root["qos"] == Int(0) || root["qos"] == Int(1))
            && (root["ack"] == Flag01(meta.ack) <==> root["ack"] == Int(0) || root["ack"] == Int(1))
            && (root["topic"] == Int(meta.topic) <==> root["topic"].n < 0x100)
            && (root["cmd"] == Int(meta.cmd) <==> root["cmd"].n < 0x100)
            && (root["msgid"] == Int(meta.messageId) <==> root["msgid"].n < 0x10000)
  {
    hide SnOf;
    FlagExactly(root["qos"].n);
    FlagExactly(root["ack"].n);
    NumberExactly(root["topic"].n, 0x100);
    NumberExactly(root["cmd"].n, 0x100);
    NumberExactly(root["msgid"].n, 0x10000);
  }

  lemma MembersPrinted(meta: Meta, cache: DevidCache.State, msg: Json)
    ensures var j := Printed(meta, cache, msg);
            && j.Obj? && j.members.Keys == {"sn", "qos", "ack", "topic", "cmd", "msgid", "msg"}
            && j.members["sn"] == Str(SnText(meta.sn, cache)) && j.members["qos"] == Flag01(meta.qos)
            && j.members["ack"] == Flag01(meta.ack) && j.members["topic"] == Int(meta.topic)
            && j.members["cmd"] == Int(meta.cmd) && j.members["msgid"] == Int(meta.messageId) && j.members["msg"] == msg
  {
    hide SnText, Flag01;
  }

  lemma SnExactly(root: Members, withSn: bool, sender: DevidCache.State, receiver: DevidCache.State)
    requires "sn" in root
    ensures root["sn"] == Str(SnText(if withSn then SnOf(root, sender) else 0, receiver)) <==>
            root["sn"].Str? && DevidCache.ComesBack(root["sn"].s, withSn, sender, receiver)
  {
    hide DevidCache.IdFor, DevidCache.NameFor;
  }

  /** The header of what is printed is the sender's exactly when the envelope comes back. */
  lemma EnvelopeExactly(root: Members, withSn: bool, sender: DevidCache.State, receiver: DevidCache.State, msg: Json)
    requires EnvelopePresent(root)
    ensures var meta := MetaFrom(root, sender);
            var sent := meta.(sn := if withSn then meta.sn else 0);
            Printed(sent, receiver, msg) == Obj(root) <==>
            EnvelopeComesBack(root, withSn, sender, receiver) && root["msg"] == msg
  {
    hide Printed, Flag01, SnText, SnOf, DevidCache.ComesBack;
    var meta := MetaFrom(root, sender);
    var sent := meta.(sn := if withSn then meta.sn else 0);
    MembersPrinted(sent, receiver, msg);
    SevenMembers(Printed(sent, receiver, msg).members, root);
    NumbersExactly(root, sender);
    if "sn" in root {
      SnExactly(root, withSn, sender, receiver);
    }
  }

  /** The parameters of an accepted message are decoded as they were exactly when the body comes back. */
  lemma BodyExactly(root: Members, parser: Parser, room: nat, cache: DevidCache.State, payload: bytes, beyond: Memory)
    requires EnvelopePresent(root)
    requires var meta := MetaFrom(root, cache);
             if Get(root, "msg").Obj? then
               var o := Encoded(parser, root["msg"].members, meta.ack, room);
               o.Written? && payload == Kept16(o.b) && Modelled(parser, root["msg"].members)
             else payload == []
    requires root["ack"] == Int(0) || root["ack"] == Int(1)
    ensures "msg" in root ==>
              (DecodedMsg(parser, payload, MetaFrom(root, cache).ack, beyond) == Some(root["msg"]) <==> BodyComesBack(root, parser, room))
  {
    hide Encoded, DecodedMsg, MsgComesBack, Kept16, Modelled, SnOf;
    var ack := MetaFrom(root, cache).ack;
    if Get(root, "msg").Obj? && !ack {
      MsgReadBackExactly(parser, root["msg"].members, room, beyond);
    } else {
      NothingReadBack(parser, payload, ack, beyond);
    }
  }

  /**
   What the receiver prints for the payload of an accepted message is the message exactly when it
   comes back by this definition: envelope, serial number through both caches, and parameters.
   */
  lemma PrintedExactly(root: Members, repo: Repo, room: nat, withSn: bool,
                       sender: DevidCache.State, receiver: DevidCache.State, beyond: Memory)
    requires Prepare(root, repo, room, sender).Ready?
    requires Get(root, "msg").Obj? ==>
               var p := Prepare(root, repo, room, sender);
               repo(p.meta.topic, p.meta.cmd).Some? ==> Modelled(repo(p.meta.topic, p.meta.cmd).value, root["msg"].members)
    ensures var p := Prepare(root, repo, room, sender);
            var sent := p.meta.(sn := if withSn then p.meta.sn else 0);
            ToJson(sent, p.payload, repo, receiver, beyond) == Some(Obj(root)) <==>
            RootComesBack(root, repo, room, withSn, sender, receiver)
  {
    hide Encoded, DecodedMsg, MsgComesBack, Kept16, Modelled, SnOf, Printed, BodyComesBack, DevidCache.ComesBack;
    var p := Prepare(root, repo, room, sender);
    var meta := p.meta;
    var sent := meta.(sn := if withSn then meta.sn else 0);
    var parser := repo(meta.topic, meta.cmd);
    if parser.Some? {
      var msg := DecodedMsg(parser.value, p.payload, meta.ack, beyond);
      if msg.Some? {
        EnvelopeExactly(root, withSn, sender, receiver, msg.value);
      }
      if root["ack"] == Int(0) || root["ack"] == Int(1) {
        BodyExactly(root, parser.value, room, sender, p.payload, beyond);
      }
      TopicExactly(root, sender);
    }
  }

  lemma TopicExactly(root: Members, cache: DevidCache.State)
    requires EnvelopePresent(root)
    ensures root["topic"].n < 0x100 ==> MetaFrom(root, cache).topic == root["topic"].n
    ensures root["cmd"].n < 0x100 ==> MetaFrom(root, cache).cmd == root["cmd"].n
  {
  }

  /**
   The stack's central law, exactly.  A message that was accepted is cut into packages and delivered
   in any order with any repetition.  It is complete exactly when every slice has come, and then the
   receiver's JSON is the sender's exactly when the message comes back by the definition above.
   */
  lemma EndToEndExactly(root: Members, repo: Repo, room: nat, withSn: bool, customerNo: text,
                        sender: DevidCache.State, receiver: DevidCache.State, ds: seq<Delivery>, junk: bytes, beyond: Memory)
    requires Prepare(root, repo, room, sender).Ready?
    requires Get(root, "msg").Obj? ==>
               var p := Prepare(root, repo, room, sender);
               repo(p.meta.topic, p.meta.cmd).Some? ==> Modelled(repo(p.meta.topic, p.meta.cmd).value, root["msg"].members)
    requires Deliveries(Prepare(root, repo, room, sender).payload, ds)
    requires |junk| == |Prepare(root, repo, room, sender).payload|
    ensures var p := Prepare(root, repo, room, sender);
            var r := Deliver(Sending(p.meta, withSn, customerNo), p.payload, ds, junk);
            && (Complete(r) <==> Seen(ds) == AllSlices(p.payload))
            && (Complete(r) ==> (ToJson(r.meta, r.data, repo, receiver, beyond) == Some(Obj(root)) <==>
                                 RootComesBack(root, repo, room, withSn, sender, receiver)))
  {
    hide Deliver, Deliveries, Seen, AllSlices, ToJson, RootComesBack, Prepare, Modelled;
    var p := Prepare(root, repo, room, sender);
    AnyOrderReassembles(Sending(p.meta, withSn, customerNo), p.payload, ds, junk);
    PrintedExactly(root, repo, room, withSn, sender, receiver, beyond);
  }

  // ----- Canonical messages

  /** Canonical parameters and a serial number in its printed form, sent along, or none. */
  ghost predicate CanonicalRoot(root: Members, repo: Repo, room: nat, withSn: bool) {
    && root.Keys == {"sn", "qos", "ack", "topic", "cmd", "msgid", "msg"}
    && root["sn"].Str?
    && (if withSn && SerialNumber.Str2Devid(root["sn"].s) != 0 then SerialNumber.Canonical(root["sn"].s) else root["sn"].s == "")
    && (root["qos"] == Int(0) || root["qos"] == Int(1)) && (root["ack"] == Int(0) || root["ack"] == Int(1))
    && root["topic"].Int? && 0 <= root["topic"].n < 0x100
    && root["cmd"].Int? && 0 <= root["cmd"].n < 0x100
    && root["msgid"].Int? && 0 <= root["msgid"].n < 0x10000
    && var parser := repo(root["topic"].n, root["cmd"].n);
       && parser.Some? && BodyComesBack(root, parser.value, room)
       && (root["msg"].Obj? ==> Modelled(parser.value, root["msg"].members))
  }

  /** Between transparent caches a canonical message is one that comes back; and it is always accepted. */
  lemma CanonicalComesBack(root: Members, repo: Repo, room: nat, withSn: bool,
                           sender: DevidCache.State, receiver: DevidCache.State)
    requires CanonicalRoot(root, repo, room, withSn)
    requires DevidCache.Transparent(sender) && DevidCache.Transparent(receiver)
    ensures RootComesBack(root, repo, room, withSn, sender, receiver)
    ensures Prepare(root, repo, room, sender).Ready?
    ensures Prepare(root, repo, room, sender).meta.topic == root["topic"].n
    ensures Prepare(root, repo, room, sender).meta.cmd == root["cmd"].n
  {
    hide Encoded, MsgComesBack, Modelled, Kept16, SnOf, SerialNumber.Str2Devid, SerialNumber.Canonical, DevidCache.ComesBack,
         DevidCache.Transparent;
    DevidCache.ComesBackExactly(root["sn"].s, withSn, sender, receiver);
  }

  /** A canonical message between transparent caches: complete exactly when every slice has come, and then the same JSON. */
  lemma EndToEnd(root: Members, repo: Repo, room: nat, withSn: bool, customerNo: text,
                 sender: DevidCache.State, receiver: DevidCache.State, ds: seq<Delivery>, junk: bytes, beyond: Memory)
    requires CanonicalRoot(root, repo, room, withSn)
    requires DevidCache.Transparent(sender) && DevidCache.Transparent(receiver)
    requires Prepare(root, repo, room, sender).Ready?
    requires Deliveries(Prepare(root, repo, room, sender).payload, ds)
    requires |junk| == |Prepare(root, repo, room, sender).payload|
    ensures var p := Prepare(root, repo, room, sender);
            var r := Deliver(Sending(p.meta, withSn, customerNo), p.payload, ds, junk);
            && (Complete(r) <==> Seen(ds) == AllSlices(p.payload))
            && (Complete(r) ==> ToJson(r.meta, r.data, repo, receiver, beyond) == Some(Obj(root)))
  {
    hide Deliver, Deliveries, Seen, AllSlices, ToJson, RootComesBack, Prepare, Modelled, BodyComesBack,
         DevidCache.Transparent, SerialNumber.Canonical, SerialNumber.Str2Devid;
    CanonicalComesBack(root, repo, room, withSn, sender, receiver);
    EndToEndExactly(root, repo, room, withSn, customerNo, sender, receiver, ds, junk, beyond);
  }
}
