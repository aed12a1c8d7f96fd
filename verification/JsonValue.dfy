/**
 JSON values as the protocol library sees them.  An object is a finite map; its members are
 always visited in ascending key order, the order of the std::map behind jsoncpp.
 */
module JsonValue {
  import opened Octets

  datatype Json =
    | Null
    | Bool(b: bool)
    | Int(n: int)
    | Str(s: text)
    | Arr(items: seq<Json>)
    | Obj(members: Members)
  {
    predicate IsUInt() { Int? && 0 <= n < 0x1_0000_0000 }

    predicate IsUInt64() { Int? && 0 <= n < 0x1_0000_0000_0000_0000 }
  }

  type Members = map<string, Json>

  /** jsonRoot[key] on a const object: null when the key is missing. */
  function Get(m: Members, key: string): Json {
    if key in m then m[key] else Null
  }

  /** jsonRoot[key].append(x) */
  function AppendTo(m: Members, key: string, x: Json): Members {
    m[key := Arr((if Get(m, key).Arr? then m[key].items else []) + [x])]
  }

  /** Lexicographic order on keys. */
  predicate Before(a: string, b: string)
    decreases |a|
  {
    if b == "" then false
    else if a == "" then true
    else a[0] < b[0] || (a[0] == b[0] && Before(a[1..], b[1..]))
  }

  /** Byte order, as in strcmp: a prefix comes first, and capitals come before small letters. */
  lemma BeforeExamples()
    ensures Before("", "a") && Before("a", "aa") && Before("aa", "b") && Before("Z", "a") && Before("10", "9")
    ensures !Before("b", "aa") && !Before("a", "")
  {
  }

  lemma {:induction false} BeforeTotal(a: string, b: string)
    ensures Before(a, b) || Before(b, a) || a == b
    ensures !(Before(a, b) && Before(b, a))
    ensures !Before(a, a)
    decreases |a|
  {
    if a != "" && b != "" {
      BeforeTotal(a[1..], b[1..]);
      if a[0] == b[0] && a[1..] == b[1..] {
        assert a == [a[0]] + a[1..];
        assert b == [b[0]] + b[1..];
      }
    }
    if a != "" {
      BeforeTotal(a[1..], a[1..]);
    }
  }

  lemma {:induction false} BeforeTransitive(a: string, b: string, c: string)
    requires Before(a, b) && Before(b, c)
    ensures Before(a, c)
    decreases |a|
  {
    if a != "" && a[0] == b[0] && b[0] == c[0] {
      BeforeTransitive(a[1..], b[1..], c[1..]);
    }
  }

  ghost predicate IsLeast(k: string, keys: set<string>) {
    k in keys && forall j :: j in keys && j != k ==> Before(k, j)
  }

  lemma {:induction false} LeastExists(keys: set<string>) returns (k: string)
    requires keys != {}
    ensures IsLeast(k, keys)
    decreases |keys|
  {
    k :| k in keys;
    var rest := keys - {k};
    if rest != {} {
      var l := LeastExists(rest);
      BeforeTotal(k, l);
      if Before(l, k) {
        k := l;
      } else {
        forall j | j in keys && j != k
          ensures Before(k, j)
        {
          if j != l {
            BeforeTransitive(k, l, j);
          }
        }
      }
    }
  }

  /** The key an ordered iteration over the set meets first. */
  ghost function Least(keys: set<string>): (k: string)
    requires keys != {}
    ensures IsLeast(k, keys)
  {
    assert exists k :: IsLeast(k, keys) by {
      var k := LeastExists(keys);
    }
    var k :| IsLeast(k, keys);
    k
  }

  lemma LeastUnique(j: string, k: string, keys: set<string>)
    requires IsLeast(j, keys) && IsLeast(k, keys)
    ensures j == k
  {
    BeforeTotal(j, k);
  }

  /** Json::Value::getMemberNames: the keys in ascending order. */
  ghost function MemberNames(keys: set<string>): (names: seq<string>)
    decreases |keys|
  {
    if keys == {} then [] else
      var k := Least(keys);
      assert |keys - {k}| < |keys|;
      [k] + MemberNames(keys - {k})
  }

  lemma {:induction false} MemberNamesCover(keys: set<string>)
    ensures forall k :: k in MemberNames(keys) <==> k in keys
    decreases |keys|
  {
    if keys != {} {
      var k := Least(keys);
      assert |keys - {k}| < |keys|;
      MemberNamesCover(keys - {k});
    }
  }

  /** Every key is listed once, in strictly ascending order. */
  lemma {:induction false} MemberNamesAscending(keys: set<string>, i: nat, j: nat)
    requires i < j < |MemberNames(keys)|
    ensures Before(MemberNames(keys)[i], MemberNames(keys)[j])
    decreases |keys|
  {
    var k := Least(keys);
    var rest := MemberNames(keys - {k});
    assert MemberNames(keys)[j] == rest[j - 1];
    if i == 0 {
      MemberNamesCover(keys - {k});
      assert rest[j - 1] in keys - {k};
    } else {
      assert |keys - {k}| < |keys|;
      MemberNamesAscending(keys - {k}, i - 1, j - 1);
    }
  }

  ghost predicate DistinctNames(names: seq<string>) {
    forall i, j :: 0 <= i < j < |names| ==> names[i] != names[j]
  }

  lemma MemberNamesDistinct(keys: set<string>)
    ensures DistinctNames(MemberNames(keys))
  {
    forall i, j | 0 <= i < j < |MemberNames(keys)|
      ensures MemberNames(keys)[i] != MemberNames(keys)[j]
    {
      MemberNamesAscending(keys, i, j);
      BeforeTotal(MemberNames(keys)[i], MemberNames(keys)[j]);
    }
  }

  /** The same listing computed by picking the least remaining key each time. */
  method ListMemberNames(m: Members) returns (names: seq<string>)
    ensures names == MemberNames(m.Keys)
  {
    names := [];
    var left := m.Keys;
    while left != {}
      invariant names + MemberNames(left) == MemberNames(m.Keys)
      decreases |left|
    {
      var k := PickLeast(left);
      ghost var rest := MemberNames(left - {k});
      assert names + ([k] + rest) == (names + [k]) + rest;
      names := names + [k];
      left := left - {k};
    }
  }

  method PickLeast(keys: set<string>) returns (k: string)
    requires keys != {}
    ensures k == Least(keys)
  {
    k :| k in keys;
    var seen := {k};
    while seen != keys
      invariant seen <= keys && IsLeast(k, seen)
      decreases |keys - seen|
    {
      var j :| j in keys - seen;
      BeforeTotal(j, k);
      if Before(j, k) {
        forall l | l in seen && l != j
          ensures Before(j, l)
        {
          if l != k {
            BeforeTransitive(j, k, l);
          }
        }
        k := j;
      }
      seen := seen + {j};
    }
    LeastUnique(k, Least(keys), keys);
  }
}
