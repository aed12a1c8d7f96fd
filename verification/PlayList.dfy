/** The play list of a file stream: order of one cycle, cycles over a run, and jumps. */
module PlayList {
  import Octets

  datatype Mode = Sequential | Random

  /** How a stream is configured: 0 cycles means without end, duration 0 without a time limit. */
  datatype Config = Config(files: nat, mode: Mode, cycles: nat, duration: nat)

  // ----- The order of one cycle

  function Range(lo: int, hi: int): (s: seq<int>)
    ensures |s| == if lo < hi then hi - lo else 0
    ensures forall k :: 0 <= k < |s| ==> s[k] == lo + k
  {
    if lo < hi then seq(hi - lo, k => lo + k) else []
  }

  function Swap(s: seq<int>, i: nat, k: nat): (t: seq<int>)
    requires i < |s| && k < |s|
    ensures |t| == |s|
  {
    s[i := s[k]][k := s[i]]
  }

  /** What rand() returns, call by call. */
  type Rolls = nat -> nat

  /** The swaps for positions 0..i; each position is swapped with any position. */
  function Shuffled(s: seq<int>, rolls: Rolls, i: nat): (t: seq<int>)
    requires i <= |s|
    ensures |t| == |s|
  {
    if i == 0 then s else Swap(Shuffled(s, rolls, i - 1), i - 1, rolls(i - 1) % |s|)
  }

  function Order(c: Config, rolls: Rolls): (s: seq<int>)
    ensures |s| == c.files
  {
    if c.mode.Sequential? then Range(0, c.files) else Shuffled(Range(0, c.files), rolls, c.files)
  }

  /** Every file once; in sequential mode in their own order. */
  ghost predicate IsOrder(c: Config, s: seq<int>) {
    && multiset(s) == multiset(Range(0, c.files))
    && (c.mode.Sequential? ==> s == Range(0, c.files))
  }

  lemma SwapPermutes(s: seq<int>, i: nat, k: nat)
    requires i < |s| && k < |s|
    ensures multiset(Swap(s, i, k)) == multiset(s)
  {
  }

  lemma {:induction false} ShuffledPermutes(s: seq<int>, rolls: Rolls, i: nat)
    requires i <= |s|
    ensures multiset(Shuffled(s, rolls, i)) == multiset(s)
  {
    hide Swap;
    if i > 0 {
      ShuffledPermutes(s, rolls, i - 1);
      SwapPermutes(Shuffled(s, rolls, i - 1), i - 1, rolls(i - 1) % |s|);
    }
  }

  lemma OrderIsOrder(c: Config, rolls: Rolls)
    ensures IsOrder(c, Order(c, rolls))
  {
    if c.mode.Random? {
      ShuffledPermutes(Range(0, c.files), rolls, c.files);
    }
  }

  /** The partial result after i swaps is settled below i, so any target can be built up in place. */
  lemma {:induction false} ReachPrefix(s: seq<int>, target: seq<int>, i: nat) returns (rolls: Rolls)
    requires i <= |s| && multiset(s) == multiset(target)
    ensures |target| == |s| && Shuffled(s, rolls, i)[..i] == target[..i]
  {
    hide Shuffled, Swap;
    assert |target| == |s| by { assert |multiset(s)| == |s| && |multiset(target)| == |target|; }
    if i == 0 {
      rolls := _ => 0;
      assert Shuffled(s, rolls, 0)[..0] == [] == target[..0];
    } else {
      var before := ReachPrefix(s, target, i - 1);
      ShuffledPermutes(s, before, i - 1);
      var k := FindBehind(Shuffled(s, before, i - 1), target, i - 1);
      rolls := j => if j == i - 1 then k else before(j);
      SameRolls(s, before, rolls, i - 1);
      RollSmall(k, |s|);
      ShuffledStep(s, rolls, i);
      SwapSettles(Shuffled(s, before, i - 1), target, i - 1, k);
    }
  }

  lemma ShuffledStep(s: seq<int>, rolls: Rolls, i: nat)
    requires 0 < i <= |s|
    ensures Shuffled(s, rolls, i) == Swap(Shuffled(s, rolls, i - 1), i - 1, rolls(i - 1) % |s|)
  {
  }

  lemma RollSmall(k: nat, n: nat)
    requires k < n
    ensures k % n == k
  {
  }

  lemma SwapSettles(t: seq<int>, target: seq<int>, i: nat, k: nat)
    requires i <= k < |t| == |target| && t[..i] == target[..i] && t[k] == target[i]
    ensures Swap(t, i, k)[..i + 1] == target[..i + 1]
  {
    assert target[..i + 1] == target[..i] + [target[i]];
  }

  lemma {:induction false} SameRolls(s: seq<int>, a: Rolls, b: Rolls, i: nat)
    requires i <= |s| && forall j :: 0 <= j < i ==> a(j) == b(j)
    ensures Shuffled(s, a, i) == Shuffled(s, b, i)
  {
    if i > 0 {
      SameRolls(s, a, b, i - 1);
    }
  }

  /** What is wanted next has not been placed yet, so it stands somewhere behind. */
  lemma FindBehind(t: seq<int>, target: seq<int>, i: nat) returns (k: nat)
    requires multiset(t) == multiset(target) && |t| == |target| && i < |t| && t[..i] == target[..i]
    ensures i <= k < |t| && t[k] == target[i]
  {
    assert t == t[..i] + t[i..] && target == target[..i] + target[i..];
    assert multiset(t[i..]) == multiset(t) - multiset(t[..i]);
    assert multiset(target[i..]) == multiset(target) - multiset(target[..i]);
    assert multiset(t[i..]) == multiset(target[i..]);
    var rest := target[i..];
    assert rest[0] in rest && rest[0] in multiset(t[i..]);
    assert rest[0] in t[i..];
    var j :| 0 <= j < |t[i..]| && t[i..][j] == rest[0];
    k := i + j;
  }

  /** In random mode every permutation of the files can come up. */
  lemma EveryOrderOccurs(c: Config, target: seq<int>) returns (rolls: Rolls)
    requires c.mode.Random? && multiset(target) == multiset(Range(0, c.files))
    ensures Order(c, rolls) == target
  {
    rolls := ReachPrefix(Range(0, c.files), target, c.files);
    assert Order(c, rolls)[..c.files] == Order(c, rolls) && target[..c.files] == target;
  }

  // ----- A run of the play loop

  datatype Phase = AtCycle | InCycle | Ended | Aborted

  /** pushed: the files handed to the pusher so far. */
  datatype State = State(phase: Phase, cycle: nat, pending: seq<int>, pushed: seq<int>)

  /** One look at a loop condition: stop flag and time played; what rand() and pushing a file then give. */
  datatype Look = Look(stop: bool, elapsed: nat, rolls: Rolls, rc: int)

  /** The time limit counts only when there is no cycle count. */
  predicate InTime(c: Config, l: Look) { c.cycles != 0 || c.duration == 0 || l.elapsed < c.duration }

  predicate Halts(c: Config, l: Look) { l.stop || !InTime(c, l) }

  const START := State(AtCycle, 0, [], [])

  function Step(c: Config, s: State, l: Look): State {
    match s.phase
    case AtCycle =>
      if !Halts(c, l) && (c.cycles == 0 || s.cycle < c.cycles) then s.(phase := InCycle, pending := Order(c, l.rolls))
      else s.(phase := Ended)
    case InCycle =>
      if !Halts(c, l) && s.pending != [] then
        s.(phase := if l.rc != 0 then Aborted else InCycle, pending := s.pending[1..], pushed := s.pushed + [s.pending[0]])
      else s.(phase := AtCycle, cycle := s.cycle + 1)
    case _ => s
  }

  function Run(c: Config, looks: seq<Look>): State {
    if looks == [] then START else Step(c, Run(c, looks[..|looks| - 1]), looks[|looks| - 1])
  }

  function Concat(orders: seq<seq<int>>): seq<int> {
    if orders == [] then [] else Concat(orders[..|orders| - 1]) + orders[|orders| - 1]
  }

  ghost predicate Orders(c: Config, orders: seq<seq<int>>) {
    forall o :: o in orders ==> IsOrder(c, o)
  }

  /** The stop flag stays set, and time that has run out stays out. */
  predicate Lasting(c: Config, looks: seq<Look>) {
    forall i, j :: 0 <= i < j < |looks| && Halts(c, looks[i]) ==> Halts(c, looks[j])
  }

  ghost predicate OnSchedule(c: Config, s: State, orders: seq<seq<int>>, halted: bool) {
    && Orders(c, orders) && s.pushed <= Concat(orders)
    && (s.phase.InCycle? ==> s.pushed + s.pending == Concat(orders) && |orders| == s.cycle + 1 && !halted)
    && (!s.phase.InCycle? && !s.phase.Aborted? && !halted ==> s.pushed == Concat(orders) && |orders| == s.cycle)
    && (s.phase.Ended? && !halted ==> c.cycles != 0 && s.cycle >= c.cycles)
    && (c.cycles != 0 ==> s.cycle <= c.cycles && (s.phase.InCycle? ==> s.cycle < c.cycles))
  }

  lemma ConcatSnoc(orders: seq<seq<int>>, o: seq<int>)
    ensures Concat(orders + [o]) == Concat(orders) + o
  {
    assert (orders + [o])[..|orders|] == orders;
  }

  lemma ScheduleStep(c: Config, s: State, orders: seq<seq<int>>, halted: bool, l: Look) returns (more: seq<seq<int>>)
    requires OnSchedule(c, s, orders, halted) && (halted ==> Halts(c, l))
    ensures OnSchedule(c, Step(c, s, l), more, Halts(c, l))
  {
    hide Concat, IsOrder;
    more := orders;
    if s.phase.AtCycle? && !Halts(c, l) && (c.cycles == 0 || s.cycle < c.cycles) {
      more := orders + [Order(c, l.rolls)];
      ConcatSnoc(orders, Order(c, l.rolls));
      OrderIsOrder(c, l.rolls);
    } else if s.phase.InCycle? {
      if s.pending == [] {
        assert s.pushed + [] == s.pushed;
      } else {
        assert s.pushed + s.pending == (s.pushed + [s.pending[0]]) + s.pending[1..];
      }
    }
  }

  /**
   The files pushed over a run are a prefix of orders strung together, each a permutation of the
   files (the files in sequence in sequential mode).
   */
  lemma {:induction false} PushedOnSchedule(c: Config, looks: seq<Look>) returns (orders: seq<seq<int>>)
    requires Lasting(c, looks)
    ensures OnSchedule(c, Run(c, looks), orders, looks != [] && Halts(c, looks[|looks| - 1]))
  {
    hide OnSchedule, Step;
    if looks == [] {
      orders := [];
      NothingPushed(c);
    } else {
      var before := looks[..|looks| - 1];
      orders := PushedOnSchedule(c, before);
      orders := ScheduleStep(c, Run(c, before), orders, before != [] && Halts(c, before[|before| - 1]), looks[|looks| - 1]);
    }
  }

  lemma NothingPushed(c: Config)
    ensures OnSchedule(c, START, [], false)
  {
  }

  // ----- A run that is left alone

  predicate Undisturbed(looks: seq<Look>) {
    forall i :: 0 <= i < |looks| ==> !looks[i].stop && looks[i].rc == 0
  }

  /** How many looks n cycles take: one to start each, one per file, one to leave it. */
  function LooksFor(c: Config, n: nat): nat {
    if n == 0 then 0 else LooksFor(c, n - 1) + c.files + 2
  }

  function LooksLeft(c: Config, s: State): nat
    requires s.cycle <= c.cycles && (s.phase.InCycle? ==> s.cycle < c.cycles)
  {
    match s.phase
    case AtCycle => LooksFor(c, c.cycles - s.cycle) + 1
    case InCycle => |s.pending| + 1 + LooksFor(c, c.cycles - s.cycle - 1) + 1
    case _ => 0
  }

  /** An undisturbed run takes one look after the other off what is left, and nothing else. */
  lemma {:induction false} CountDown(c: Config, looks: seq<Look>)
    requires c.cycles > 0 && Undisturbed(looks)
    ensures var s := Run(c, looks);
            && s.cycle <= c.cycles && (s.phase.InCycle? ==> s.cycle < c.cycles) && !s.phase.Aborted?
            && LooksLeft(c, s) == if |looks| <= LooksFor(c, c.cycles) + 1 then LooksFor(c, c.cycles) + 1 - |looks| else 0
  {
    hide Order;
    if looks != [] {
      CountDown(c, looks[..|looks| - 1]);
    }
  }

  lemma {:induction false} EachFileOnce(c: Config, orders: seq<seq<int>>, f: int)
    requires Orders(c, orders) && 0 <= f < c.files
    ensures multiset(Concat(orders))[f] == |orders|
  {
    if orders != [] {
      var last := orders[|orders| - 1];
      EachFileOnce(c, orders[..|orders| - 1], f);
      assert last in orders && multiset(last) == multiset(Range(0, c.files));
      OnceInRange(f, c.files);
    }
  }

  lemma {:induction false} OnceInRange(f: int, n: nat)
    requires 0 <= f < n
    ensures multiset(Range(0, n))[f] == 1
  {
    assert Range(0, n) == Range(0, n - 1) + [n - 1];
    if f < n - 1 {
      OnceInRange(f, n - 1);
    } else {
      assert f !in Range(0, n - 1);
    }
  }

  /**
   With a cycle count, and neither a stop nor a failure, the run ends after just that many cycles,
   and has pushed every file exactly that often.
   */
  lemma AllCyclesPlayed(c: Config, looks: seq<Look>)
    requires c.cycles > 0 && Undisturbed(looks) && |looks| > LooksFor(c, c.cycles)
    ensures var s := Run(c, looks);
            && s.phase.Ended? && s.cycle == c.cycles
            && forall f :: 0 <= f < c.files ==> multiset(s.pushed)[f] == c.cycles
  {
    hide Step, Order, Concat, IsOrder, Orders;
    CountDown(c, looks);
    var orders := PushedOnSchedule(c, looks);
    forall f | 0 <= f < c.files
      ensures multiset(Run(c, looks).pushed)[f] == c.cycles
    {
      EachFileOnce(c, orders, f);
    }
  }

  /** A cycle takes a look to start, one for each file and one to leave it. */
  lemma {:induction false} LooksPerCycle(c: Config, n: nat)
    ensures LooksFor(c, n) == n * (c.files + 2)
  {
    if n > 0 {
      LooksPerCycle(c, n - 1);
    }
  }

  // ----- Runs without a cycle count

  /** Neither stopped nor failing, and within the time limit if there is one. */
  predicate GoingOn(c: Config, looks: seq<Look>) {
    Undisturbed(looks) && forall i :: 0 <= i < |looks| ==> c.duration == 0 || looks[i].elapsed < c.duration
  }

  /** Without a cycle count such a run never ends, and its looks are counted off cycle by cycle. */
  lemma {:induction false} NeverEnds(c: Config, looks: seq<Look>)
    requires c.cycles == 0 && GoingOn(c, looks)
    ensures var s := Run(c, looks);
            && (s.phase.AtCycle? || s.phase.InCycle?) && |s.pending| <= c.files
            && |looks| == s.cycle * (c.files + 2) + if s.phase.InCycle? then 1 + c.files - |s.pending| else 0
  {
    hide Order;
    if looks != [] {
      var before := looks[..|looks| - 1];
      NeverEnds(c, before);
      NextCycle(Run(c, before).cycle, c.files + 2);
    }
  }

  lemma NextCycle(n: nat, k: nat)
    ensures (n + 1) * k == n * k + k
  {
  }

  /** After n cycles' worth of looks it has pushed every file n times, and stands before the next cycle. */
  lemma EndlessCycles(c: Config, looks: seq<Look>, n: nat)
    requires c.cycles == 0 && GoingOn(c, looks) && |looks| == n * (c.files + 2)
    ensures var s := Run(c, looks);
            && s.phase.AtCycle? && s.cycle == n
            && forall f :: 0 <= f < c.files ==> multiset(s.pushed)[f] == n
  {
    hide Step, Order, Concat, IsOrder, Orders, Run;
    NeverEnds(c, looks);
    var s := Run(c, looks);
    WholeCycles(n, s.cycle, c.files + 2, if s.phase.InCycle? then 1 + c.files - |s.pending| else 0);
    var orders := PushedOnSchedule(c, looks);
    forall f | 0 <= f < c.files
      ensures multiset(s.pushed)[f] == n
    {
      EachFileOnce(c, orders, f);
    }
  }

  lemma WholeCycles(n: nat, m: nat, k: nat, r: nat)
    requires r < k && n * k == m * k + r
    ensures n == m && r == 0
  {
    Octets.DivModUnique(n * k, k, n, 0);
    Octets.DivModUnique(n * k, k, m, r);
  }

  /** The stop flag, or the time limit of a stream without a cycle count: nothing more is pushed, and the loops are left. */
  lemma HaltedStep(c: Config, s: State, l: Look)
    requires l.stop || (c.cycles == 0 && c.duration > 0 && l.elapsed >= c.duration)
    ensures Step(c, s, l).pushed == s.pushed
    ensures s.phase.AtCycle? ==> Step(c, s, l).phase.Ended?
    ensures s.phase.InCycle? ==> Step(c, s, l).phase.AtCycle?
  {
  }

  /** A run that is told to stop, or runs out of time, is over two looks later at most. */
  lemma {:induction false} HaltedRun(c: Config, looks: seq<Look>, i: nat)
    requires i + 2 <= |looks|
    requires forall j :: i <= j < |looks| ==> looks[j].stop || (c.cycles == 0 && c.duration > 0 && looks[j].elapsed >= c.duration)
    ensures var s := Run(c, looks);
            (s.phase.Ended? || s.phase.Aborted?) && s.pushed == Run(c, looks[..i]).pushed
    decreases |looks|
  {
    hide Step, Run;
    var n := |looks|;
    LastStep(c, looks, n - 1);
    HaltedStep(c, Run(c, looks[..n - 1]), looks[n - 1]);
    OverStays(c, Run(c, looks[..n - 1]), looks[n - 1]);
    if n > i + 2 {
      assert looks[..n - 1][..i] == looks[..i];
      HaltedRun(c, looks[..n - 1], i);
    } else {
      LastStep(c, looks[..i + 1], i);
      assert looks[..i + 1][..i] == looks[..i];
      HaltedStep(c, Run(c, looks[..i]), looks[i]);
      OverStays(c, Run(c, looks[..i]), looks[i]);
    }
  }

  lemma LastStep(c: Config, looks: seq<Look>, n: nat)
    requires |looks| == n + 1
    ensures Run(c, looks) == Step(c, Run(c, looks[..n]), looks[n])
  {
  }

  lemma OverStays(c: Config, s: State, l: Look)
    ensures s.phase.Ended? || s.phase.Aborted? ==> Step(c, s, l) == s
  {
  }

  /** A file that cannot be pushed is the last one. */
  lemma FailureIsLast(c: Config, looks: seq<Look>, i: nat)
    requires i < |looks| && looks[i].rc != 0 && !looks[i].stop
    requires c.cycles != 0 || c.duration == 0 || looks[i].elapsed < c.duration
    requires Run(c, looks[..i]).phase.InCycle? && Run(c, looks[..i]).pending != []
    ensures var s := Run(c, looks[..i]);
            Run(c, looks).phase.Aborted? && Run(c, looks).pushed == s.pushed + [s.pending[0]]
    decreases |looks|
  {
    hide Run;
    var n := |looks|;
    LastStep(c, looks, n - 1);
    if i < n - 1 {
      assert looks[..n - 1][..i] == looks[..i];
      FailureIsLast(c, looks[..n - 1], i);
    }
  }

  /** Three files and the draws 2, 5 and 0. */
  lemma ShuffleExample(c: Config, rolls: Rolls)
    requires c.files == 3 && c.mode.Random? && rolls(0) == 2 && rolls(1) == 5 && rolls(2) == 0
    ensures Order(c, rolls) == [1, 0, 2]
  {
    assert Range(0, 3) == [0, 1, 2];
    assert Shuffled([0, 1, 2], rolls, 1) == [2, 1, 0];
    assert Shuffled([0, 1, 2], rolls, 2) == [2, 0, 1];
    assert Shuffled([0, 1, 2], rolls, 3) == [1, 0, 2];
  }

  // ----- Jumps

  function Removed(s: seq<int>, x: int): seq<int> {
    if s == [] then [] else (if s[0] == x then [] else [s[0]]) + Removed(s[1..], x)
  }

  /** The queue as the jump leaves it before the file jumped to is taken off. */
  function Updated(c: Config, pending: seq<int>, first: int): seq<int> {
    if c.mode.Sequential? then (if first < 0 then [] else Range(first, c.files)) else [first] + Removed(pending, first)
  }

  /** Handler and player together: the file is taken off the queue and played. */
  function Jump(c: Config, s: State, i: nat): State
    requires i < c.files
  {
    s.(pending := Updated(c, s.pending, i)[1..], pushed := s.pushed + [i])
  }

  ghost predicate Distinct(s: seq<int>) {
    forall j, k :: 0 <= j < k < |s| ==> s[j] != s[k]
  }

  function IndexOf(s: seq<int>, x: int): (i: nat)
    requires x in s
    ensures i < |s| && s[i] == x
  {
    if s[0] == x then 0 else 1 + IndexOf(s[1..], x)
  }

  /** Removing a file keeps all others, each as often as before. */
  lemma {:induction false} RemovedKeeps(s: seq<int>, x: int)
    ensures multiset(Removed(s, x)) == multiset(s)[x := 0]
  {
    if s != [] {
      RemovedKeeps(s[1..], x);
      assert s == [s[0]] + s[1..];
      assert multiset(s) == multiset{s[0]} + multiset(s[1..]);
    }
  }

  lemma RemovedMembers(s: seq<int>, x: int, y: int)
    ensures y in Removed(s, x) <==> y in s && y != x
  {
    RemovedKeeps(s, x);
    assert y in multiset(Removed(s, x)) <==> y in multiset(s)[x := 0];
  }

  /** ... and in the same order. */
  lemma {:induction false} RemovedOrder(s: seq<int>, x: int, y: int, z: int)
    requires y in s && z in s && y != x && z != x
    ensures y in Removed(s, x) && z in Removed(s, x)
    ensures IndexOf(Removed(s, x), y) < IndexOf(Removed(s, x), z) <==> IndexOf(s, y) < IndexOf(s, z)
  {
    RemovedMembers(s, x, y);
    RemovedMembers(s, x, z);
    if s[0] == x {
      assert Removed(s, x) == Removed(s[1..], x);
      RemovedOrder(s[1..], x, y, z);
    } else {
      assert Removed(s, x)[1..] == Removed(s[1..], x);
      if s[0] != y && s[0] != z {
        RemovedOrder(s[1..], x, y, z);
      }
    }
  }

  lemma {:induction false} RemovedDistinct(s: seq<int>, x: int)
    requires Distinct(s)
    ensures Distinct(Removed(s, x))
  {
    if s != [] {
      assert Distinct(s[1..]);
      RemovedDistinct(s[1..], x);
      RemovedMembers(s[1..], x, s[0]);
      assert s[0] !in s[1..];
    }
  }

  /** A jump plays the file at once and changes nothing else but the queue. */
  lemma JumpPlays(c: Config, s: State, i: nat)
    requires i < c.files
    ensures var t := Jump(c, s, i); t.pushed == s.pushed + [i] && t.phase == s.phase && t.cycle == s.cycle
  {
  }

  /** An index no file has: in sequential mode the queue is emptied, in random mode it is put in front all the same. */
  lemma UpdatedOutside(c: Config, pending: seq<int>, first: int)
    requires first < 0 || first >= c.files
    ensures c.mode.Sequential? ==> Updated(c, pending, first) == []
    ensures c.mode.Random? ==> Updated(c, pending, first) != [] && Updated(c, pending, first)[0] == first
    ensures c.mode.Random? && first !in pending ==> Updated(c, pending, first) == [first] + pending
  {
    RemovedNothing(pending, first);
  }

  lemma {:induction false} RemovedNothing(s: seq<int>, x: int)
    ensures x !in s ==> Removed(s, x) == s
  {
    if s != [] {
      RemovedNothing(s[1..], x);
    }
  }

  /** In sequential mode exactly the files behind i are pending after a jump to i. */
  lemma JumpSequential(c: Config, s: State, i: nat)
    requires c.mode.Sequential? && i < c.files
    ensures Jump(c, s, i).pending == Range(i + 1, c.files)
  {
  }

  /** In random mode the other pending files stay, each once and in their order. */
  lemma JumpRandom(c: Config, s: State, i: nat)
    requires c.mode.Random? && i < c.files && Distinct(s.pending)
    ensures var after := Jump(c, s, i).pending;
            && Distinct(after)
            && (forall y :: y in after <==> y in s.pending && y != i)
            && (forall y, z :: y in after && z in after ==>
                  (IndexOf(after, y) < IndexOf(after, z) <==> IndexOf(s.pending, y) < IndexOf(s.pending, z)))
  {
    var after := Removed(s.pending, i);
    assert Jump(c, s, i).pending == after;
    RemovedDistinct(s.pending, i);
    forall y
      ensures y in after <==> y in s.pending && y != i
    {
      RemovedMembers(s.pending, i, y);
    }
    forall y, z | y in after && z in after
      ensures IndexOf(after, y) < IndexOf(after, z) <==> IndexOf(s.pending, y) < IndexOf(s.pending, z)
    {
      RemovedOrder(s.pending, i, y, z);
    }
  }

  // ----- Runs with jumps

  datatype Event = Looked(look: Look) | Jumped(index: nat)

  /** A jump reaches a stream that is playing. */
  function After(c: Config, s: State, e: Event): State {
    match e
    case Looked(l) => Step(c, s, l)
    case Jumped(i) => if i < c.files && s.phase.InCycle? then Jump(c, s, i) else s
  }

  function RunWithJumps(c: Config, es: seq<Event>): State {
    if es == [] then START else After(c, RunWithJumps(c, es[..|es| - 1]), es[|es| - 1])
  }

  /** No file is pending twice; in sequential mode the pending files are the last ones, in sequence. */
  ghost predicate Tidy(c: Config, s: State) {
    && Distinct(s.pending) && |s.pending| <= c.files
    && (forall f :: f in s.pending ==> 0 <= f < c.files)
    && (c.mode.Sequential? ==> s.pending == Range(c.files - |s.pending|, c.files))
  }

  lemma OrderTidy(c: Config, rolls: Rolls)
    ensures Distinct(Order(c, rolls)) && forall f :: f in Order(c, rolls) ==> 0 <= f < c.files
  {
    OrderIsOrder(c, rolls);
    var o := Order(c, rolls);
    forall f | f in o
      ensures 0 <= f < c.files
    {
      assert f in multiset(o) && f in multiset(Range(0, c.files));
    }
    forall j, k | 0 <= j < k < |o|
      ensures o[j] != o[k]
    {
      if o[j] == o[k] {
        assert o == o[..k] + o[k..];
        assert o[j] in o[..k] && o[k] in o[k..];
        assert multiset(o)[o[j]] >= 2;
        assert o[j] in o;
        OnceInRange(o[j], c.files);
      }
    }
  }

  lemma TidyTail(c: Config, s: State)
    requires Tidy(c, s) && s.pending != []
    ensures Tidy(c, s.(pending := s.pending[1..]))
  {
    assert forall f :: f in s.pending[1..] ==> f in s.pending;
    if c.mode.Sequential? {
      assert s.pending[1..] == Range(c.files - |s.pending| + 1, c.files);
    }
  }

  lemma EventTidy(c: Config, s: State, e: Event)
    requires Tidy(c, s)
    ensures Tidy(c, After(c, s, e))
  {
    hide Order, Removed;
    match e
    case Looked(l) =>
      LookTidy(c, s, l);
    case Jumped(i) =>
      if i < c.files && s.phase.InCycle? {
        if c.mode.Random? {
          JumpRandom(c, s, i);
          RemovedShorter(s.pending, i);
        } else {
          JumpSequential(c, s, i);
        }
      }
  }

  lemma LookTidy(c: Config, s: State, l: Look)
    requires Tidy(c, s)
    ensures Tidy(c, Step(c, s, l))
  {
    hide Order;
    if s.phase.AtCycle? {
      OrderTidy(c, l.rolls);
      SequentialOrder(c, l.rolls);
    } else if s.phase.InCycle? && s.pending != [] {
      TidyTail(c, s);
    }
  }

  lemma SequentialOrder(c: Config, rolls: Rolls)
    ensures c.mode.Sequential? ==> Order(c, rolls) == Range(0, c.files)
  {
  }

  lemma {:induction false} RemovedShorter(s: seq<int>, x: int)
    ensures |Removed(s, x)| <= |s|
  {
    if s != [] {
      RemovedShorter(s[1..], x);
    }
  }

  lemma {:induction false} RunTidy(c: Config, es: seq<Event>)
    ensures Tidy(c, RunWithJumps(c, es))
  {
    hide Tidy, After;
    if es == [] {
      StartTidy(c);
    } else {
      RunTidy(c, es[..|es| - 1]);
      EventTidy(c, RunWithJumps(c, es[..|es| - 1]), es[|es| - 1]);
    }
  }

  lemma StartTidy(c: Config)
    ensures Tidy(c, START)
  {
  }
}
