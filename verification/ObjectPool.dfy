/** The intrusive doubly linked list, and the pool that keeps its spare objects in one. */
module ObjectPool {

  class Node {
    var pre: Node?
    var next: Node?

    constructor ()
      ensures pre == null && next == null
    {
      pre, next := null, null;
    }

    method InsertAsHead(head: Node?, ghost s: seq<Node>) returns (newHead: Node)
      requires Linked(s) && head == HeadOf(s) && this !in s
      modifies this, s
      ensures newHead == this && Linked([this] + s)
    {
      this.pre := null;
      this.next := head;
      if head != null {
        head.pre := this;
      }
      ghost var t := [this] + s;
      forall k | 0 <= k < |t|
        ensures t[k].pre == Left(t, k) && t[k].next == Right(t, k)
      {
        assert k > 0 ==> t[k] == s[k - 1];
      }
      return this;
    }

    /** Walks to the tail; a list that does not exist yet starts with this object. */
    method InsertAsTail(head: Node?, ghost s: seq<Node>) returns (newHead: Node)
      requires Linked(s) && head == HeadOf(s) && this !in s
      modifies this, s
      ensures Linked(s + [this]) && newHead == HeadOf(s + [this])
    {
      var tail := head;
      ghost var i := 0;
      while tail != null && tail.next != null
        invariant if s == [] then tail == null else i < |s| && tail == s[i]
        decreases |s| - i
      {
        assert s[i].next != null;
        tail := tail.next;
        i := i + 1;
      }
      if tail == null {
        this.pre := null;
        newHead := this;
      } else {
        tail.next := this;
        this.pre := tail;
        newHead := head;
      }
      this.next := null;
      ghost var t := s + [this];
      forall k | 0 <= k < |t|
        ensures t[k].pre == Left(t, k) && t[k].next == Right(t, k)
      {
        assert k < |s| ==> t[k] == s[k];
      }
    }

    /** Unlinks this object from wherever it stands and finds the head of what remains. */
    method RmSelf(ghost s: seq<Node>, ghost i: nat) returns (head: Node?)
      requires Linked(s) && i < |s| && s[i] == this
      modifies s
      ensures Linked(Without(s, i)) && head == HeadOf(Without(s, i))
      ensures pre == old(pre) && next == old(next)
    {
      hide Left, Right;
      Neighbours(s, i);
      head := this.pre;
      if this.pre != null {
        this.pre.next := this.next;
        head := FirstFrom(this.pre, s, i - 1);
      }
      if this.next != null {
        this.next.pre := this.pre;
        if head == null {
          head := this.next;
        }
      }
      WithoutLinked(s, i);
    }
  }

  /** Follows the pre pointers to the first node. */
  method FirstFrom(node: Node, ghost s: seq<Node>, ghost i: nat) returns (head: Node)
    requires i < |s| && node == s[i]
    requires forall k :: 0 <= k <= i ==> s[k].pre == Left(s, k)
    ensures head == s[0]
  {
    head := node;
    ghost var j := i;
    while head.pre != null
      invariant 0 <= j <= i && head == s[j]
      decreases j
    {
      head := head.pre;
      j := j - 1;
    }
  }

  function HeadOf(s: seq<Node>): Node? {
    if s == [] then null else s[0]
  }

  function Without(s: seq<Node>, i: nat): seq<Node>
    requires i < |s|
  {
    s[..i] + s[i + 1..]
  }

  function Left(s: seq<Node>, i: nat): Node?
    requires i < |s|
  {
    if i == 0 then null else s[i - 1]
  }

  function Right(s: seq<Node>, i: nat): Node?
    requires i < |s|
  {
    if i == |s| - 1 then null else s[i + 1]
  }

  /** The nodes of s, all different, hang together in this order and in no other. */
  ghost predicate Linked(s: seq<Node>)
    reads s
  {
    && (forall i, j :: 0 <= i < j < |s| ==> s[i] != s[j])
    && (forall i :: 0 <= i < |s| ==> s[i].pre == Left(s, i) && s[i].next == Right(s, i))
  }

  lemma LinkAt(s: seq<Node>, i: nat)
    requires Linked(s) && i < |s|
    ensures s[i].pre == Left(s, i) && s[i].next == Right(s, i)
  {
  }

  lemma Neighbours(s: seq<Node>, i: nat)
    requires Linked(s) && i < |s|
    ensures s[i].pre == (if i == 0 then null else s[i - 1])
    ensures s[i].next == (if i == |s| - 1 then null else s[i + 1])
  {
  }

  lemma HeadOnce(s: seq<Node>)
    requires Linked(s) && s != []
    ensures s[0] !in s[1..]
  {
  }

  /** The two neighbours of node i point past it; everything else is as in a linked list. */
  ghost predicate Bypassed(s: seq<Node>, i: nat)
    requires i < |s|
    reads s
  {
    && (forall j, k :: 0 <= j < k < |s| ==> s[j] != s[k])
    && (forall k :: 0 <= k < |s| ==> s[k].pre == if k == i + 1 then Left(s, i) else Left(s, k))
    && (forall k :: 0 <= k < |s| ==> s[k].next == if k + 1 == i then Right(s, i) else Right(s, k))
  }

  lemma WithoutLinked(s: seq<Node>, i: nat)
    requires i < |s| && Bypassed(s, i)
    ensures Linked(Without(s, i))
  {
    var t := Without(s, i);
    forall k | 0 <= k < |t|
      ensures t[k].pre == Left(t, k) && t[k].next == Right(t, k)
    {
      assert t[k] == s[if k < i then k else k + 1];
    }
  }

  /** The pointers alone decide the sequence: two readings from one head are the same. */
  lemma {:induction false} LinkedPrefix(s: seq<Node>, t: seq<Node>, n: nat)
    requires Linked(s) && Linked(t) && HeadOf(s) == HeadOf(t) && n < |s|
    ensures n < |t| && s[n] == t[n]
  {
    hide Linked;
    if n > 0 {
      LinkedPrefix(s, t, n - 1);
      LinkAt(s, n - 1);
      LinkAt(t, n - 1);
    }
  }

  lemma LinkedUnique(s: seq<Node>, t: seq<Node>)
    requires Linked(s) && Linked(t) && HeadOf(s) == HeadOf(t)
    ensures s == t
  {
    hide Linked;
    forall n | 0 <= n < |s|
      ensures n < |t| && s[n] == t[n]
    {
      LinkedPrefix(s, t, n);
    }
    if |t| > 0 {
      LinkedPrefix(t, s, |t| - 1);
    }
    if |s| > 0 {
      LinkedPrefix(s, t, |s| - 1);
    }
  }

  /** The nodes met by following the next pointers, n of them at most. */
  ghost function Walk(head: Node?, n: nat, s: seq<Node>): seq<Node>
    requires Linked(s) && (head == null || head in s)
    reads s
  {
    if head == null || n == 0 then [] else
      [head] + Walk(NextIn(head, s), n - 1, s)
  }

  ghost function NextIn(node: Node, s: seq<Node>): (r: Node?)
    requires Linked(s) && node in s
    ensures r == null || r in s
    reads s
  {
    var i :| 0 <= i < |s| && s[i] == node;
    LinkAt(s, i);
    node.next
  }

  /** A walk along a linked list ends, having met every node once, in order. */
  lemma {:induction false} WalkVisits(s: seq<Node>, i: nat, n: nat)
    requires Linked(s) && i <= |s| && n >= |s| - i
    ensures Walk(if i < |s| then s[i] else null, n, s) == s[i..]
    decreases |s| - i
  {
    hide Linked;
    if i < |s| {
      LinkAt(s, i);
      WalkVisits(s, i + 1, n - 1);
    }
  }

  class Pool {
    var objs: Node?
    var total: int
    var inpool: int

    /** The spare objects from the head on, and the objects handed out. */
    ghost var free: seq<Node>
    ghost var out: set<Node>

    /** No object is both in and out, and the counters count. */
    ghost predicate Valid()
      reads this, free
    {
      && Linked(free) && objs == HeadOf(free)
      && (forall n :: n in free ==> n !in out)
      && inpool == |free|
      && total == |free| + |out|
    }

    constructor ()
      ensures Valid() && free == [] && out == {}
    {
      objs, total, inpool := null, 0, 0;
      free, out := [], {};
    }

    /** Adds count new objects in front of the spare ones. */
    method Init(count: int) returns (ghost made: seq<Node>)
      requires Valid()
      modifies this, free
      ensures Valid() && out == old(out) && free == made + old(free)
      ensures |made| == (if count < 0 then 0 else count) && forall k :: 0 <= k < |made| ==> fresh(made[k])
      ensures total == old(total) + |made|
    {
      hide Linked;
      made := [];
      var i := 0;
      while i < count
        invariant Valid() && out == old(out) && free == made + old(free)
        invariant |made| == i && (i <= count || i == 0)
        invariant forall k :: 0 <= k < |made| ==> fresh(made[k])
        invariant forall k :: 0 <= k < |free| ==> fresh(free[k]) || free[k] in old(free)
        invariant total == old(total) + i
      {
        var obj := new Node();
        objs := obj.InsertAsHead(objs, free);
        free, made := [obj] + free, [obj] + made;
        total := total + 1;
        inpool := inpool + 1;
        i := i + 1;
      }
    }

    /** The object returned last, or a new one when none is spare. */
    method GetObj() returns (obj: Node)
      requires Valid()
      modifies this, free
      ensures Valid() && obj !in old(out) && out == old(out) + {obj}
      ensures old(free) == [] ==> fresh(obj) && free == [] && total == old(total) + 1
      ensures old(free) != [] ==> obj == old(free)[0] && free == old(free)[1..] && total == old(total)
    {
      hide Linked;
      if objs != null {
        HeadOnce(free);
        inpool := inpool - 1;
        obj := objs;
        objs := objs.RmSelf(free, 0);
        assert Without(free, 0) == free[1..];
        free, out := free[1..], out + {obj};
        return;
      }
      total := total + 1;
      obj := new Node();
      out := out + {obj};
    }

    method ReleaseObj(obj: Node)
      requires Valid() && obj in out
      modifies this, obj, free
      ensures Valid() && free == [obj] + old(free) && out == old(out) - {obj}
      ensures total == old(total)
    {
      objs := obj.InsertAsHead(objs, free);
      free, out := [obj] + free, out - {obj};
      inpool := inpool + 1;
    }

    /** Deletes the spare objects but not their counts: the counters stay right only if there were none. */
    method Clear()
      requires Valid()
      modifies this, free
      ensures objs == null && free == [] && out == old(out)
      ensures total == old(total) && inpool == old(inpool)
      ensures Valid() <==> old(free) == []
    {
      hide Linked;
      while objs != null
        invariant Linked(free) && objs == HeadOf(free)
        invariant forall k :: 0 <= k < |free| ==> free[k] in old(free)
        invariant out == old(out) && total == old(total) && inpool == old(inpool)
        decreases |free|
      {
        objs := objs.RmSelf(free, 0);
        assert Without(free, 0) == free[1..];
        free := free[1..];
      }
    }
  }
}
