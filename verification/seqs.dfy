/** Sequence helpers shared by the repositories: filtering, the
    descending sort behind every `OrderBy...Desc` finder, and listing the
    rows of a keyed table. */
module Seqs {

  /** The elements of `s` that satisfy `p`, each as often as in `s`, in
      their original order (`FilterAppend`). */
  function Filter<T(!new)>(s: seq<T>, p: T -> bool): (r: seq<T>)
    ensures |r| <= |s|
    ensures forall x :: x in r <==> x in s && p(x)
    ensures forall i :: 0 <= i < |r| ==> p(r[i])
    ensures forall x :: multiset(r)[x] == if p(x) then multiset(s)[x] else 0
    decreases |s|
  {
    if |s| == 0 then []
    else
      assert s == [s[0]] + s[1..];
      (if p(s[0]) then [s[0]] else []) + Filter(s[1..], p)
  }

  /** Filtering a concatenation filters each part and keeps them in order. */
  lemma {:induction false} FilterAppend<T(!new)>(a: seq<T>, b: seq<T>, p: T -> bool)
    ensures Filter(a + b, p) == Filter(a, p) + Filter(b, p)
    decreases |a|
  {
    if |a| == 0 {
      assert a + b == b;
    } else {
      FilterAppend(a[1..], b, p);
      DropAppend(a, b);
      AppendAssoc(if p(a[0]) then [a[0]] else [], Filter(a[1..], p), Filter(b, p));
    }
  }

  lemma DropAppend<T>(a: seq<T>, b: seq<T>)
    requires |a| > 0
    ensures (a + b)[0] == a[0] && (a + b)[1..] == a[1..] + b
  {
  }

  lemma AppendAssoc<T>(h: seq<T>, x: seq<T>, y: seq<T>)
    ensures h + (x + y) == (h + x) + y
  {
  }

  /** Keys never increase along `s`. */
  predicate SortedDesc<T>(s: seq<T>, key: T -> int)
  {
    forall i, j :: 0 <= i < j < |s| ==> key(s[i]) >= key(s[j])
  }

  /** Keys never decrease along `s`. */
  predicate SortedAsc<T>(s: seq<T>, key: T -> int)
  {
    forall i, j :: 0 <= i < j < |s| ==> key(s[i]) <= key(s[j])
  }

  /** Prepending a key no smaller than any other keeps `t` sorted. */
  lemma ConsSorted<T>(h: T, t: seq<T>, key: T -> int)
    requires SortedDesc(t, key)
    requires forall j :: 0 <= j < |t| ==> key(t[j]) <= key(h)
    ensures SortedDesc([h] + t, key)
  {
    var r := [h] + t;
    forall i, j | 0 <= i < j < |r| ensures key(r[i]) >= key(r[j]) {
      if i > 0 { assert r[i] == t[i-1] && r[j] == t[j-1]; }
      else { assert r[j] == t[j-1]; }
    }
  }

  /** Puts `x` in front of the first element whose key is not larger. */
  function InsertDesc<T(!new)>(x: T, s: seq<T>, key: T -> int): (r: seq<T>)
    requires SortedDesc(s, key)
    ensures SortedDesc(r, key)
    ensures multiset(r) == multiset(s) + multiset{x}
    ensures |r| == |s| + 1
    ensures forall y :: y in r ==> y == x || y in s
  {
    if |s| == 0 then [x]
    else if key(s[0]) <= key(x) then
      ConsSorted(x, s, key);
      [x] + s
    else
      var rest := InsertDesc(x, s[1..], key);
      assert s == [s[0]] + s[1..];
      assert SortedDesc(s[1..], key);
      assert forall j :: 0 <= j < |rest| ==> key(rest[j]) <= key(s[0]) by {
        forall j | 0 <= j < |rest| ensures key(rest[j]) <= key(s[0]) {
          assert rest[j] in rest;
        }
      }
      ConsSorted(s[0], rest, key);
      [s[0]] + rest
  }

  /** A permutation of `s` whose keys never increase. */
  function SortDesc<T(!new)>(s: seq<T>, key: T -> int): (r: seq<T>)
    ensures SortedDesc(r, key)
    ensures multiset(r) == multiset(s)
    ensures |r| == |s|
    ensures forall x :: x in r <==> x in s
  {
    if |s| == 0 then []
    else
      assert s == [s[0]] + s[1..];
      var r := InsertDesc(s[0], SortDesc(s[1..], key), key);
      assert forall x :: x in r <==> x in multiset(r);
      r
  }

  function Reverse<T>(s: seq<T>): (r: seq<T>)
    ensures |r| == |s|
    ensures forall i :: 0 <= i < |s| ==> r[i] == s[|s| - 1 - i]
    ensures multiset(r) == multiset(s)
  {
    if |s| == 0 then []
    else
      assert s == [s[0]] + s[1..];
      Reverse(s[1..]) + [s[0]]
  }

  lemma ReverseOfDescIsAsc<T(!new)>(s: seq<T>, key: T -> int)
    requires SortedDesc(s, key)
    ensures SortedAsc(Reverse(s), key)
    ensures forall x :: x in Reverse(s) <==> x in s
  {
    var r := Reverse(s);
    forall x | x in s ensures x in r {
      var i :| 0 <= i < |s| && s[i] == x;
      assert r[|s| - 1 - i] == x;
    }
  }

  /** The least key of a non-empty set. */
  function MinKey(keys: set<int>): (k: int)
    requires keys != {}
    ensures k in keys
    ensures forall j :: j in keys ==> k <= j
  {
    MinKeyExists(keys);
    var k :| k in keys && forall j :: j in keys ==> k <= j;
    k
  }

  lemma {:induction false} MinKeyExists(keys: set<int>)
    requires keys != {}
    ensures exists k :: k in keys && forall j :: j in keys ==> k <= j
    decreases |keys|
  {
    // A non-empty set has an element.
    if forall y :: y !in keys {
      assert false;
    }
    var x :| x in keys;
    var rest := keys - {x};
    if rest == {} {
      assert keys == {x};
    } else {
      MinKeyExists(rest);
      var m :| m in rest && forall j :: j in rest ==> m <= j;
      assert forall j :: j in keys ==> j == x || j in rest;
    }
  }

  /** How many keys of `m` hold `x`: the number of rows equal to `x`. */
  ghost function Occurrences<T>(m: map<int, T>, x: T): nat
  {
    |set k | k in m && m[k] == x|
  }

  /** Taking key `k` out of `m` removes one occurrence of its value. */
  lemma OccurrencesWithout<T>(m: map<int, T>, k: int, x: T)
    requires k in m
    ensures Occurrences(m, x) == Occurrences(m - {k}, x) + (if m[k] == x then 1 else 0)
  {
    var all := set j | j in m && m[j] == x;
    var rest := set j | j in m - {k} && (m - {k})[j] == x;
    if m[k] == x {
      assert all == rest + {k};
    } else {
      assert all == rest;
    }
  }

  /** Storing `v` under a fresh key adds one occurrence of `v`. */
  lemma OccurrencesWith<T>(m: map<int, T>, k: int, v: T, x: T)
    requires k !in m
    ensures Occurrences(m[k := v], x) == Occurrences(m, x) + (if v == x then 1 else 0)
  {
    OccurrencesWithout(m[k := v], k, x);
    assert m[k := v] - {k} == m;
  }

  /** A listing that counts the rows of `m` satisfying `p` gains `v` once,
      if `v` satisfies `p`, when `v` is stored under a fresh key. */
  lemma ListedOnceMore<T>(m: map<int, T>, k: int, v: T, p: T -> bool, before: seq<T>, after: seq<T>)
    requires k !in m
    requires forall x :: multiset(before)[x] == if p(x) then Occurrences(m, x) else 0
    requires forall x :: multiset(after)[x] == if p(x) then Occurrences(m[k := v], x) else 0
    ensures multiset(after) == multiset(before) + (if p(v) then multiset{v} else multiset{})
  {
    forall x
      ensures multiset(after)[x] == (multiset(before) + (if p(v) then multiset{v} else multiset{}))[x]
    {
      OccurrencesWith(m, k, v, x);
    }
  }

  /** The values of `m`, one per key, in ascending key order. */
  function Rows<T(==,!new)>(m: map<int, T>): (r: seq<T>)
    ensures |r| == |m|
    ensures forall x :: x in r <==> x in m.Values
    ensures forall x :: multiset(r)[x] == Occurrences(m, x)
    decreases |m|
  {
    if |m| == 0 then []
    else
      var k := MinKey(m.Keys);
      var rest := m - {k};
      assert |rest| == |m| - 1 by {
        assert rest.Keys == m.Keys - {k};
      }
      var r := [m[k]] + Rows(rest);
      assert forall x :: multiset(r)[x] == Occurrences(m, x) by {
        forall x ensures multiset(r)[x] == Occurrences(m, x) {
          OccurrencesWithout(m, k, x);
        }
      }
      assert forall x :: x in m.Values ==> x in r by {
        forall x | x in m.Values ensures x in r {
          var j :| j in m && m[j] == x;
          if j != k {
            assert j in rest && rest[j] == x;
            assert x in rest.Values;
          }
        }
      }
      assert forall x :: x in rest.Values ==> x in m.Values by {
        forall x | x in rest.Values ensures x in m.Values {
          var j :| j in rest && rest[j] == x;
          assert j in m && m[j] == x;
        }
      }
      r
  }

  /** A relation that holds pointwise on the tails and at the heads holds
      pointwise on the whole sequences. */
  lemma PointwiseCons<V, W>(vs: seq<V>, head: W, tail: seq<W>, rel: (V, W) -> bool)
    requires |vs| > 0 && |tail| == |vs| - 1
    requires rel(vs[0], head)
    requires forall k :: 0 <= k < |tail| ==> rel(vs[1..][k], tail[k])
    ensures forall k :: 0 <= k < |vs| ==> rel(vs[k], ([head] + tail)[k])
  {
    forall k | 0 <= k < |vs|
      ensures rel(vs[k], ([head] + tail)[k])
    {
      if k > 0 {
        assert vs[k] == vs[1..][k - 1];
      }
    }
  }

  /** Some element satisfies `bad` exactly when the head or some element of
      the tail does. */
  lemma SomeCons<V>(vs: seq<V>, bad: V -> bool)
    requires |vs| > 0
    ensures (exists k :: 0 <= k < |vs| && bad(vs[k])) <==>
            bad(vs[0]) || exists k :: 0 <= k < |vs[1..]| && bad(vs[1..][k])
  {
    if exists k :: 0 <= k < |vs| && bad(vs[k]) {
      var k :| 0 <= k < |vs| && bad(vs[k]);
      if k > 0 {
        assert vs[1..][k - 1] == vs[k];
      }
    }
    if exists k :: 0 <= k < |vs[1..]| && bad(vs[1..][k]) {
      var k :| 0 <= k < |vs[1..]| && bad(vs[1..][k]);
      assert vs[k + 1] == vs[1..][k];
    }
  }
}
