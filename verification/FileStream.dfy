/** The file stream's play loop over its queue of file numbers. */
module FileStream {
  import opened Octets
  import opened PlayList

  /** A queue under one lock; every method is one atomic step. */
  class MessageQueue<T> {
    var run: bool
    var msg: seq<T>

    constructor ()
      ensures run && msg == []
    {
      run, msg := true, [];
    }

    method Start()
      modifies this
      ensures run && msg == []
    {
      msg := [];
      run := true;
    }

    method Stop()
      modifies this
      ensures !run && msg == []
    {
      run := false;
      msg := [];
    }

    method Push(val: T)
      modifies this`msg
      ensures msg == old(msg) + [val]
    {
      msg := msg + [val];
    }

    /** Comes back once there is a message or the queue is stopped. */
    method Pop() returns (r: Option<T>)
      requires msg != [] || !run
      modifies this`msg
      ensures old(msg) == [] ==> r == None && msg == []
      ensures old(msg) != [] ==> r == Some(old(msg)[0]) && msg == old(msg)[1..]
    {
      if msg != [] {
        r := Some(msg[0]);
        msg := msg[1..];
      } else {
        r := None;
      }
    }

    function Size(): nat
      reads this
    {
      |msg|
    }
  }

  /** Each position is swapped with one drawn from all positions. */
  method Shuffle(a: array<int>, rolls: Rolls)
    modifies a
    ensures a[..] == Shuffled(old(a[..]), rolls, a.Length)
  {
    ghost var s := a[..];
    for i := 0 to a.Length
      invariant a[..] == Shuffled(s, rolls, i)
    {
      var k := rolls(i) % a.Length;
      if k != i {
        var tmp := a[i];
        a[i] := a[k];
        a[k] := tmp;
      }
    }
  }

  class Stream {
    const config: Config
    const playStack: MessageQueue<int>
    var phase: Phase
    var cycle: nat
    var curCycle: nat

    /** The files handed to pushFile. */
    var pushed: seq<int>

    constructor (config: Config)
      requires config.files > 0
      ensures this.config == config && fresh(playStack) && View() == START
    {
      this.config := config;
      playStack := new MessageQueue<int>();
      phase, cycle, curCycle, pushed := AtCycle, 0, 0, [];
    }

    function View(): State
      reads this, playStack
    {
      State(phase, cycle, playStack.msg, pushed)
    }

    method Drain()
      modifies playStack`msg
      ensures playStack.msg == []
    {
      while playStack.Size() > 0
        decreases |playStack.msg|
      {
        var _ := playStack.Pop();
      }
    }

    method PushRange(lo: nat)
      requires playStack.msg == []
      modifies playStack`msg
      ensures playStack.msg == Range(lo, config.files)
    {
      var i := lo;
      while i < config.files
        invariant lo <= i && (i <= config.files || i == lo)
        invariant playStack.msg == Range(lo, i)
      {
        assert Range(lo, i + 1) == Range(lo, i) + [i];
        playStack.Push(i);
        i := i + 1;
      }
    }

    method PushAll(a: array<int>)
      requires playStack.msg == []
      modifies playStack`msg
      ensures playStack.msg == a[..]
    {
      for i := 0 to a.Length
        invariant playStack.msg == a[..i]
      {
        playStack.Push(a[i]);
      }
      assert a[..a.Length] == a[..];
    }

    method CreatePlayStack(rolls: Rolls)
      modifies playStack`msg
      ensures playStack.msg == Order(config, rolls)
    {
      Drain();
      if config.mode == Sequential {
        PushRange(0);
      } else {
        var array' := new int[config.files](i => i);
        assert array'[..] == Range(0, config.files);
        Shuffle(array', rolls);
        PushAll(array');
      }
    }

    /**
     The two nested loops.  Each look at a loop condition takes one entry of `looks`; when they are
     used up the run has been followed as far as it was observed.
     */
    method Svr(looks: seq<Look>)
      requires View() == START
      modifies this, playStack`msg
      ensures View() == Run(config, looks)
    {
      hide Order, Range, Run, Shuffled;
      RunNone(config, looks);
      var i := 0;
      while i < |looks| && !Halts(config, looks[i]) && (config.cycles == 0 || cycle < config.cycles)
        invariant i <= |looks| && phase == AtCycle && View() == Run(config, looks[..i])
      {
        curCycle := cycle;
        CreatePlayStack(looks[i].rolls);
        phase := InCycle;
        RunSnoc(config, looks, i);
        i := i + 1;
        while i < |looks| && !Halts(config, looks[i]) && playStack.Size() > 0
          invariant i <= |looks| && phase == InCycle && View() == Run(config, looks[..i])
        {
          var index := playStack.Pop();
          pushed := pushed + [index.value];
          RunSnoc(config, looks, i);
          i := i + 1;
          if looks[i - 1].rc != 0 {
            phase := Aborted;
            RunOver(config, looks, i);
            return;
          }
        }
        if i == |looks| {
          assert looks[..i] == looks;
          return;
        }
        cycle := cycle + 1;
        phase := AtCycle;
        RunSnoc(config, looks, i);
        i := i + 1;
      }
      if i == |looks| {
        assert looks[..i] == looks;
        return;
      }
      phase := Ended;
      RunSnoc(config, looks, i);
      RunOver(config, looks, i + 1);
    }

    /** What the jump handler does to the queue first. */
    method UpdatePlayStack(firstIndex: int)
      modifies playStack`msg
      ensures playStack.msg == Updated(config, old(playStack.msg), firstIndex)
    {
      if config.mode == Sequential {
        Drain();
        if firstIndex >= 0 {
          PushRange(firstIndex);
        }
      } else {
        var array' := TakeAll();
        playStack.Push(firstIndex);
        ghost var s := array'[..];
        assert s[0..] == s;
        for i := 0 to array'.Length
          invariant playStack.msg + Removed(s[i..], firstIndex) == [firstIndex] + Removed(s, firstIndex)
          invariant array'[..] == s
        {
          assert s[i..][0] == array'[i] && s[i..][1..] == s[i + 1..];
          if array'[i] != firstIndex {
            playStack.Push(array'[i]);
          }
        }
        assert Removed(s[array'.Length..], firstIndex) == [];
      }
    }

    method TakeAll() returns (a: array<int>)
      modifies playStack`msg
      ensures fresh(a) && a[..] == old(playStack.msg) && playStack.msg == []
    {
      var count := playStack.Size();
      a := new int[count];
      for i := 0 to count
        invariant a[..i] + playStack.msg == old(playStack.msg)
      {
        var index := playStack.Pop();
        a[i] := index.value;
      }
    }

    /** The jump sequence as one step: reorder, take the file off, play it. */
    method Jump(i: nat) returns (index: Option<int>)
      requires i < config.files
      modifies this`pushed, playStack`msg
      ensures View() == PlayList.Jump(config, old(View()), i) && index == Some(i)
    {
      UpdatePlayStack(i);
      index := playStack.Pop();
      pushed := pushed + [index.value];
    }
  }

  lemma RunNone(c: Config, looks: seq<Look>)
    ensures Run(c, looks[..0]) == START
  {
  }

  lemma RunSnoc(c: Config, looks: seq<Look>, i: nat)
    requires i < |looks|
    ensures Run(c, looks[..i + 1]) == Step(c, Run(c, looks[..i]), looks[i])
  {
    assert looks[..i + 1][..i] == looks[..i];
  }

  /** A run that is over stays as it is. */
  lemma {:induction false} RunOver(c: Config, looks: seq<Look>, i: nat)
    requires i <= |looks|
    requires Run(c, looks[..i]).phase.Ended? || Run(c, looks[..i]).phase.Aborted?
    ensures Run(c, looks) == Run(c, looks[..i])
    decreases |looks| - i
  {
    if i == |looks| {
      assert looks[..i] == looks;
    } else {
      RunSnoc(c, looks, i);
      RunOver(c, looks, i + 1);
    }
  }
}
