/** The two-way memo of serial number conversions, and when it is invisible to its callers. */
module DevidCache {
  import opened Octets
  import opened SerialNumber

  datatype State = State(names: map<u64, text>, ids: map<text, u64>)

  const EMPTY := State(map[], map[])

  datatype Call = ToString(id: u64) | ToId(name: text)

  datatype Answer = Name(name: text) | Id(id: u64)

  // ----- One call as a step of the state

  function NameFor(st: State, id: u64): text {
    if id in st.names then st.names[id] else Devid2Str(id)
  }

  function IdFor(st: State, name: text): u64 {
    if name in st.ids then st.ids[name] else Str2Devid(name)
  }

  function Ask(st: State, c: Call): Answer {
    match c
    case ToString(id) => Name(NameFor(st, id))
    case ToId(name) => Id(IdFor(st, name))
  }

  /** On a miss both maps learn the pair, whatever they held for its two ends. */
  function After(st: State, c: Call): State {
    match c
    case ToString(id) =>
      if id in st.names then st else State(st.names[id := Devid2Str(id)], st.ids[Devid2Str(id) := id])
    case ToId(name) =>
      if name in st.ids then st else State(st.names[Str2Devid(name) := name], st.ids[name := Str2Devid(name)])
  }

  /** A call that misses teaches the cache both ways; one that hits changes nothing. */
  lemma LearnsPair(st: State, id: u64, name: text)
    ensures id !in st.names ==>
              var t := After(st, ToString(id));
              && t.names == st.names[id := Devid2Str(id)] && Devid2Str(id) in t.ids && t.ids[Devid2Str(id)] == id
              && forall n :: n != Devid2Str(id) ==> (n in t.ids <==> n in st.ids) && IdFor(t, n) == IdFor(st, n)
    ensures name !in st.ids ==>
              var t := After(st, ToId(name));
              && t.ids == st.ids[name := Str2Devid(name)] && Str2Devid(name) in t.names && t.names[Str2Devid(name)] == name
              && forall i :: i != Str2Devid(name) ==> (i in t.names <==> i in st.names) && NameFor(t, i) == NameFor(st, i)
    ensures id in st.names ==> After(st, ToString(id)) == st
    ensures name in st.ids ==> After(st, ToId(name)) == st
  {
    hide Devid2Str, Str2Devid;
  }

  /** The answer of the conversion itself. */
  function Uncached(c: Call): Answer {
    match c
    case ToString(id) => Name(Devid2Str(id))
    case ToId(name) => Id(Str2Devid(name))
  }

  /** No caller can tell the cache from the conversions. */
  ghost predicate Transparent(st: State) {
    forall c: Call :: Ask(st, c) == Uncached(c)
  }

  ghost predicate EntriesRight(st: State) {
    && (forall id :: id in st.names ==> st.names[id] == Devid2Str(id))
    && (forall name :: name in st.ids ==> st.ids[name] == Str2Devid(name))
  }

  lemma TransparentEntries(st: State)
    ensures Transparent(st) <==> EntriesRight(st)
  {
    hide Devid2Str, Str2Devid;
    if Transparent(st) {
      forall id | id in st.names
        ensures st.names[id] == Devid2Str(id)
      {
        assert Ask(st, ToString(id)) == Uncached(ToString(id));
      }
      forall name | name in st.ids
        ensures st.ids[name] == Str2Devid(name)
      {
        assert Ask(st, ToId(name)) == Uncached(ToId(name));
      }
    }
  }

  /** The calls whose string, if any, is one that devid2str prints. */
  predicate CanonicalCall(c: Call) {
    c.ToId? ==> Canonical(c.name)
  }

  /**
   A call keeps the cache transparent exactly when its string is canonical or is already known:
   a new string that is not the printed form of its identifier is handed out later as if it were.
   */
  lemma TransparentStep(st: State, c: Call)
    requires Transparent(st)
    ensures Transparent(After(st, c)) <==> CanonicalCall(c) || c.name in st.ids
  {
    hide Devid2Str, Str2Devid;
    TransparentEntries(st);
    TransparentEntries(After(st, c));
    match c {
      case ToString(id) =>
        SerialRoundTrip(id);
      case ToId(name) =>
        if name !in st.ids {
          var names := After(st, c).names;
          assert names[Str2Devid(name)] == name;
        }
    }
  }

  // ----- Whole runs

  function Run(st: State, calls: seq<Call>): State
    decreases |calls|
  {
    if calls == [] then st else Run(After(st, calls[0]), calls[1..])
  }

  function Answers(st: State, calls: seq<Call>): seq<Answer>
    decreases |calls|
  {
    if calls == [] then [] else [Ask(st, calls[0])] + Answers(After(st, calls[0]), calls[1..])
  }

  function UncachedAnswers(calls: seq<Call>): seq<Answer> {
    if calls == [] then [] else [Uncached(calls[0])] + UncachedAnswers(calls[1..])
  }

  /** Every string the cache knows is canonical. */
  ghost predicate KnowsCanonical(st: State) {
    forall name :: name in st.ids ==> Canonical(name)
  }

  lemma KnowsCanonicalStep(st: State, c: Call)
    requires KnowsCanonical(st) && CanonicalCall(c)
    ensures KnowsCanonical(After(st, c))
  {
    hide Devid2Str, Str2Devid, Canonical;
    if c.ToString? {
      PrintedIsCanonical(c.id);
    }
  }

  /** Over any run of canonical calls every answer is the conversion's own. */
  lemma {:induction false} RunTransparent(st: State, calls: seq<Call>)
    requires Transparent(st)
    requires forall c :: c in calls ==> CanonicalCall(c)
    ensures Answers(st, calls) == UncachedAnswers(calls)
    ensures Transparent(Run(st, calls))
    decreases |calls|
  {
    hide Ask, After, Uncached, CanonicalCall, Transparent;
    if calls != [] {
      TransparentStep(st, calls[0]);
      TransparentAnswer(st, calls[0]);
      RunTransparent(After(st, calls[0]), calls[1..]);
    }
  }

  lemma TransparentAnswer(st: State, c: Call)
    requires Transparent(st)
    ensures Ask(st, c) == Uncached(c)
  {
  }

  ghost predicate AlwaysTransparent(st: State, calls: seq<Call>)
    decreases |calls|
  {
    Transparent(st) && (calls != [] ==> AlwaysTransparent(After(st, calls[0]), calls[1..]))
  }

  /** From the empty cache: transparent all along the run exactly when every call is canonical. */
  lemma {:induction false} TransparentExactly(st: State, calls: seq<Call>)
    requires Transparent(st) && KnowsCanonical(st)
    ensures AlwaysTransparent(st, calls) <==> forall c :: c in calls ==> CanonicalCall(c)
    decreases |calls|
  {
    hide After, Canonical, Transparent, KnowsCanonical;
    if calls != [] {
      var c := calls[0];
      TransparentStep(st, c);
      KnownIsCanonical(st, c);
      assert forall d :: d in calls <==> d == c || d in calls[1..];
      if CanonicalCall(c) {
        KnowsCanonicalStep(st, c);
        TransparentExactly(After(st, c), calls[1..]);
      } else {
        NotAlways(After(st, c), calls[1..]);
      }
    }
  }

  lemma NotAlways(st: State, calls: seq<Call>)
    requires !Transparent(st)
    ensures !AlwaysTransparent(st, calls)
  {
  }

  lemma KnownIsCanonical(st: State, c: Call)
    requires KnowsCanonical(st)
    ensures c.ToId? && c.name in st.ids ==> CanonicalCall(c)
  {
  }

  lemma EmptyIsTransparent()
    ensures Transparent(EMPTY) && KnowsCanonical(EMPTY)
  {
  }

  /** A process that starts with an empty cache never notices it exactly when all its strings are canonical. */
  lemma FromEmptyExactly(calls: seq<Call>)
    ensures AlwaysTransparent(EMPTY, calls) <==> forall c :: c in calls ==> CanonicalCall(c)
  {
    hide AlwaysTransparent, CanonicalCall;
    EmptyIsTransparent();
    TransparentExactly(EMPTY, calls);
  }

  /**
   Strings that break it exist: after one call with such a string, asking for the identifier it
   parses to gives that string back instead of the printed form.
   */
  lemma TwinStringAnswered(x: u64)
    requires x % 0x10000 == 0
    ensures var twin := TextWith(Unpack(x), "0000.");
            var st := After(EMPTY, ToId(twin));
            !Canonical(twin) && Ask(st, ToString(x)) == Name(twin) != Uncached(ToString(x))
  {
    hide TextWith, Devid2Str, Str2Devid, Unpack;
    TwinString(x);
  }

  // ----- A serial number from one process to another

  /** Sent as the identifier the sender's cache has for it, it is printed by the receiver's cache as it was. */
  predicate ComesBack(sn: text, sent: bool, sender: State, receiver: State) {
    var id := if sent then IdFor(sender, sn) else 0;
    if id == 0 then sn == "" else NameFor(receiver, id) == sn
  }

  /** Between transparent caches: the printed forms, when they are sent along, and nothing else but the empty text. */
  lemma ComesBackExactly(sn: text, sent: bool, sender: State, receiver: State)
    requires Transparent(sender) && Transparent(receiver)
    ensures ComesBack(sn, sent, sender, receiver) <==>
            if sent && Str2Devid(sn) != 0 then Canonical(sn) else sn == ""
  {
    hide Devid2Str, Str2Devid;
    TransparentEntries(sender);
    TransparentEntries(receiver);
  }

  /** From a transparent cache every printed serial number comes back exactly when the receiver's names are right. */
  lemma PrintedComeBackExactly(sender: State, receiver: State)
    requires Transparent(sender)
    ensures (forall x: u64 :: x != 0 ==> ComesBack(Devid2Str(x), true, sender, receiver)) <==>
            (forall x: u64 :: x in receiver.names && x != 0 ==> receiver.names[x] == Devid2Str(x))
  {
    hide Devid2Str, Str2Devid;
    TransparentEntries(sender);
    forall x: u64 | x != 0
      ensures ComesBack(Devid2Str(x), true, sender, receiver) <==> NameFor(receiver, x) == Devid2Str(x)
    {
      SerialRoundTrip(x);
    }
    if forall x: u64 :: x != 0 ==> ComesBack(Devid2Str(x), true, sender, receiver) {
      forall x: u64 | x in receiver.names && x != 0
        ensures receiver.names[x] == Devid2Str(x)
      {
        assert ComesBack(Devid2Str(x), true, sender, receiver);
      }
    }
  }

  /** A receiver that has once parsed the twin of a printed serial number prints the twin for it. */
  lemma TwinComesBackInstead(x: u64, sender: State)
    requires x != 0 && x % 0x10000 == 0 && Transparent(sender)
    ensures !ComesBack(Devid2Str(x), true, sender, After(EMPTY, ToId(TextWith(Unpack(x), "0000."))))
  {
    hide TextWith, Devid2Str, Str2Devid, Unpack;
    TransparentEntries(sender);
    SerialRoundTrip(x);
    TwinString(x);
  }

  /** In one process even a string that is no printed form comes back: its first use taught the cache. */
  lemma OneProcess(sn: text, st: State)
    requires sn !in st.ids && Str2Devid(sn) != 0
    ensures ComesBack(sn, true, st, After(st, ToId(sn)))
  {
    hide Devid2Str, Str2Devid;
  }

  // ----- The cache object

  class Cache {
    var names: map<u64, text>
    var ids: map<text, u64>
    var customers: map<nat, text>

    function View(): State
      reads this
    {
      State(names, ids)
    }

    /** The customer map is a plain memo and always right. */
    ghost predicate CustomersRight()
      reads this
    {
      forall id :: id in customers ==> id < 0x10000 && customers[id] == CustomerId2Str(id)
    }

    constructor ()
      ensures View() == EMPTY && CustomersRight()
    {
      names, ids, customers := map[], map[], map[];
    }

    method Devid2Str(devid: u64) returns (s: text)
      modifies this
      ensures Name(s) == Ask(old(View()), ToString(devid))
      ensures View() == After(old(View()), ToString(devid)) && customers == old(customers)
    {
      if devid in names {
        s := names[devid];
      } else {
        var buf := SerialNumber.Devid2Str(devid);
        names := names[devid := buf];
        ids := ids[buf := devid];
        s := names[devid];
      }
    }

    method Str2Devid(name: text) returns (id: u64)
      modifies this
      ensures Id(id) == Ask(old(View()), ToId(name))
      ensures View() == After(old(View()), ToId(name)) && customers == old(customers)
    {
      if name in ids {
        id := ids[name];
      } else {
        id := SerialNumber.Str2Devid(name);
        ids := ids[name := id];
        names := names[id := name];
      }
    }

    method CustomerNo(id: nat) returns (s: text)
      requires id < 0x10000 && CustomersRight()
      modifies this
      ensures s == CustomerId2Str(id)
      ensures CustomersRight() && View() == old(View())
    {
      if id !in customers {
        customers := customers[id := CustomerId2Str(id)];
      }
      s := customers[id];
    }
  }
}
