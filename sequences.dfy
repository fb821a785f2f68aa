/** Generic sequence operations behind the SQL clauses of the reports:
    DISTINCT keys of a GROUP BY, COUNT with a condition, WHERE, ORDER BY ... DESC and LIMIT. */
module Sequences {
  import opened Wrappers

  ghost predicate NoDup<T>(s: seq<T>) {
    forall i, j :: 0 <= i < j < |s| ==> s[i] != s[j]
  }

  /** `a` is `b` with some elements left out, the rest in their original order. */
  predicate IsSubsequence<T(==)>(a: seq<T>, b: seq<T>) {
    if a == [] then true
    else if b == [] then false
    else if a[0] == b[0] then IsSubsequence(a[1..], b[1..])
    else IsSubsequence(a, b[1..])
  }

  /** The distinct elements of `s`, each at its first appearance. */
  function Distinct<T(==,!new)>(s: seq<T>): (r: seq<T>)
    ensures forall x :: x in r <==> x in s
    ensures NoDup(r)
    decreases |s|
  {
    if s == [] then []
    else
      var rest := Distinct(s[..|s| - 1]);
      assert s == s[..|s| - 1] + [s[|s| - 1]];
      if s[|s| - 1] in rest then rest else rest + [s[|s| - 1]]
  }

  /** Number of elements satisfying `p` (COUNT(*) under a condition). */
  function CountIf<T>(s: seq<T>, p: T -> bool): (n: nat)
    ensures n <= |s|
    ensures n >= 1 <==> exists i :: 0 <= i < |s| && p(s[i])
  {
    if s == [] then 0
    else
      var rest := CountIf(s[1..], p);
      assert forall i :: 0 < i < |s| ==> s[i] == s[1..][i - 1];
      (if p(s[0]) then 1 else 0) + rest
  }

  /** A condition that holds less often is counted no more often. */
  lemma {:induction false} CountIfMono<T>(s: seq<T>, p: T -> bool, q: T -> bool)
    requires forall x :: p(x) ==> q(x)
    ensures CountIf(s, p) <= CountIf(s, q)
  {
    if s != [] {
      CountIfMono(s[1..], p, q);
    }
  }

  /** The elements satisfying `p`, in their original order (WHERE): a subsequence of `s` that
      holds one copy of each of its elements satisfying `p`, and nothing else. */
  function Filter<T(!new)>(s: seq<T>, p: T -> bool): (r: seq<T>)
    ensures |r| == CountIf(s, p)
    ensures IsSubsequence(r, s)
    ensures forall x :: x in r <==> x in s && p(x)
  {
    if s == [] then []
    else
      var rest := Filter(s[1..], p);
      assert forall i :: 0 < i < |s| ==> s[i] == s[1..][i - 1];
      if p(s[0]) then
        assert ([s[0]] + rest)[1..] == rest;
        [s[0]] + rest
      else
        assert rest != [] ==> rest[0] != s[0] by {
          if rest != [] {
            assert rest[0] in rest;
          }
        }
        rest
  }

  /** Non-increasing by `key` (ORDER BY key DESC). */
  ghost predicate SortedDesc<T>(s: seq<T>, key: T -> real) {
    forall i, j :: 0 <= i < j < |s| ==> key(s[i]) >= key(s[j])
  }

  function InsertDesc<T(!new)>(x: T, s: seq<T>, key: T -> real): (r: seq<T>)
    ensures multiset(r) == multiset(s) + multiset{x}
  {
    if s == [] || key(x) >= key(s[0]) then [x] + s
    else
      assert s == [s[0]] + s[1..];
      [s[0]] + InsertDesc(x, s[1..], key)
  }

  lemma {:induction false} InsertDescSorted<T(!new)>(x: T, s: seq<T>, key: T -> real)
    requires SortedDesc(s, key)
    ensures SortedDesc(InsertDesc(x, s, key), key)
  {
    var r := InsertDesc(x, s, key);
    if s == [] || key(x) >= key(s[0]) {
      assert r == [x] + s;
      forall i, j | 0 <= i < j < |r| ensures key(r[i]) >= key(r[j]) {
        if i == 0 && j > 1 {
          assert key(s[0]) >= key(s[j - 1]);
        }
      }
    } else {
      var rest := InsertDesc(x, s[1..], key);
      InsertDescSorted(x, s[1..], key);
      assert r == [s[0]] + rest;
      forall i, j | 0 <= i < j < |r| ensures key(r[i]) >= key(r[j]) {
        if i == 0 {
          var y := rest[j - 1];
          assert y in multiset(rest);
          if y != x {
            assert y in s[1..];
            var k :| 0 <= k < |s[1..]| && s[1..][k] == y;
            assert s[k + 1] == y;
          }
        } else {
          assert r[i] == rest[i - 1] && r[j] == rest[j - 1];
        }
      }
    }
  }

  /** An ordering of `s` by `key`, largest first; equal keys keep their original order. */
  function SortDesc<T(!new)>(s: seq<T>, key: T -> real): (r: seq<T>)
    ensures SortedDesc(r, key)
    ensures multiset(r) == multiset(s)
    ensures |r| == |s|
  {
    if s == [] then []
    else
      assert s == [s[0]] + s[1..];
      InsertDescSorted(s[0], SortDesc(s[1..], key), key);
      InsertDesc(s[0], SortDesc(s[1..], key), key)
  }

  /** The first `n` elements, or all of them when there are fewer (LIMIT n). */
  function Take<T>(s: seq<T>, n: nat): (r: seq<T>)
    ensures |r| <= n && |r| <= |s|
    ensures |s| >= n ==> |r| == n
    ensures |s| <= n ==> r == s
    ensures forall i :: 0 <= i < |r| ==> r[i] == s[i]
  {
    if |s| <= n then s else s[..n]
  }

  /** LIMIT n after ORDER BY DESC keeps the n largest: an element that is left out means the limit
      was reached, and every kept element ranks at least as high as it. */
  lemma TakeSortedOmits<T(!new)>(s: seq<T>, key: T -> real, n: nat, x: T)
    requires x in s && x !in Take(SortDesc(s, key), n)
    ensures |Take(SortDesc(s, key), n)| == n
    ensures forall y :: y in Take(SortDesc(s, key), n) ==> key(y) >= key(x)
  {
    var t := SortDesc(s, key);
    assert x in multiset(t);
    var k :| 0 <= k < |t| && t[k] == x;
    forall y | y in Take(t, n) ensures key(y) >= key(x) {
      var i :| 0 <= i < |Take(t, n)| && Take(t, n)[i] == y;
      assert t[i] == y;
    }
  }

  /** `t` occurs in `s` as a contiguous block. */
  function HasInfix<T(==)>(s: seq<T>, t: seq<T>): (b: bool)
    ensures b <==> exists i :: InfixAt(s, t, i)
  {
    if |t| > |s| then false
    else if s[..|t|] == t then assert InfixAt(s, t, 0); true
    else
      var rest := HasInfix(s[1..], t);
      assert !InfixAt(s, t, 0);
      assert forall i :: 0 < i ==> (InfixAt(s, t, i) <==> InfixAt(s[1..], t, i - 1)) by {
        forall i | 0 < i ensures InfixAt(s, t, i) <==> InfixAt(s[1..], t, i - 1) {
          if i <= |s| - |t| {
            var here, there := s[i..i + |t|], s[1..][i - 1..i - 1 + |t|];
            assert forall k :: 0 <= k < |t| ==> here[k] == there[k];
            assert here == there;
          }
        }
      }
      assert (exists i :: InfixAt(s[1..], t, i)) ==> exists i :: InfixAt(s, t, i) by {
        if exists i :: InfixAt(s[1..], t, i) {
          var i :| InfixAt(s[1..], t, i);
          assert InfixAt(s, t, i + 1);
        }
      }
      rest
  }

  /** `t` occurs in `s` starting at position `i`. */
  ghost predicate InfixAt<T>(s: seq<T>, t: seq<T>, i: int) {
    0 <= i <= |s| - |t| && s[i..i + |t|] == t
  }

  lemma NoDupMultiplicity<T>(s: seq<T>)
    ensures NoDup(s) <==> forall x :: multiset(s)[x] <= 1
  {
    if s != [] {
      NoDupMultiplicity(s[1..]);
      assert s == [s[0]] + s[1..];
      if NoDup(s) {
        assert NoDup(s[1..]);
        assert s[0] !in s[1..];
      } else {
        var i, j :| 0 <= i < j < |s| && s[i] == s[j];
        assert s == s[..j] + s[j..];
        assert s[i] in s[..j];
        assert s[j] in s[j..];
        assert multiset(s)[s[i]] == multiset(s[..j])[s[i]] + multiset(s[j..])[s[i]];
      }
    }
  }

  /** Reordering keeps a sequence free of duplicates. */
  lemma NoDupPermutation<T>(a: seq<T>, b: seq<T>)
    requires multiset(a) == multiset(b) && NoDup(a)
    ensures NoDup(b)
  {
    NoDupMultiplicity(a);
    NoDupMultiplicity(b);
  }

  /** A reordering keeps the elements' `id`s pairwise different. */
  lemma PermutationKeepsIds<T, K>(a: seq<T>, b: seq<T>, id: T -> K)
    requires multiset(a) == multiset(b)
    requires forall i, j :: 0 <= i < j < |a| ==> id(a[i]) != id(a[j])
    ensures forall i, j :: 0 <= i < j < |b| ==> id(b[i]) != id(b[j])
  {
    assert NoDup(a);
    NoDupPermutation(a, b);
    forall i, j | 0 <= i < j < |b| ensures id(b[i]) != id(b[j]) {
      assert b[i] in multiset(a) && b[j] in multiset(a);
      var x :| 0 <= x < |a| && a[x] == b[i];
      var y :| 0 <= y < |a| && a[y] == b[j];
      assert x != y;
    }
  }

  /** Taking some of the elements, each at most as often as it occurs, keeps the elements' `id`s
      pairwise different. */
  lemma SubMultisetKeepsIds<T, K>(a: seq<T>, b: seq<T>, id: T -> K)
    requires multiset(b) <= multiset(a)
    requires forall i, j :: 0 <= i < j < |a| ==> id(a[i]) != id(a[j])
    ensures forall i, j :: 0 <= i < j < |b| ==> id(b[i]) != id(b[j])
  {
    assert NoDup(a);
    NoDupMultiplicity(a);
    NoDupMultiplicity(b);
    forall i, j | 0 <= i < j < |b| ensures id(b[i]) != id(b[j]) {
      assert b[i] in multiset(a) && b[j] in multiset(a);
      var x :| 0 <= x < |a| && a[x] == b[i];
      var y :| 0 <= y < |a| && a[y] == b[j];
      assert x != y;
    }
  }

  /** A filter keeps each element at most as often as it occurs. */
  lemma {:induction false} FilterSubMultiset<T(!new)>(s: seq<T>, p: T -> bool)
    ensures multiset(Filter(s, p)) <= multiset(s)
  {
    if s != [] {
      FilterSubMultiset(s[1..], p);
      assert s == [s[0]] + s[1..];
    }
  }

  /** Reordering a sequence built from distinct keys, one element per key, keeps exactly those
      keys, each once. */
  lemma ReorderedKeys<T, K>(groups: seq<T>, r: seq<T>, id: T -> K, keys: seq<K>)
    requires |groups| == |keys| && forall i :: 0 <= i < |keys| ==> id(groups[i]) == keys[i]
    requires NoDup(keys) && multiset(groups) == multiset(r)
    ensures forall g :: (exists i :: 0 <= i < |r| && id(r[i]) == g) <==> g in keys
    ensures forall i, j :: 0 <= i < j < |r| ==> id(r[i]) != id(r[j])
  {
    PermutationKeepsIds(groups, r, id);
    forall g ensures (exists i :: 0 <= i < |r| && id(r[i]) == g) <==> g in keys {
      if exists i :: 0 <= i < |r| && id(r[i]) == g {
        var i :| 0 <= i < |r| && id(r[i]) == g;
        assert r[i] in multiset(groups);
        var k :| 0 <= k < |groups| && groups[k] == r[i];
        assert keys[k] == g;
      }
      if g in keys {
        var k :| 0 <= k < |keys| && keys[k] == g;
        assert groups[k] in multiset(r);
        var i :| 0 <= i < |r| && r[i] == groups[k];
        assert id(r[i]) == g;
      }
    }
  }

  /** The first element of `s` from index `k` on that holds a value. */
  function FirstSome<E>(s: seq<Option<E>>, k: nat): Option<E>
    requires k <= |s|
    decreases |s| - k
  {
    if k == |s| then None
    else if s[k].Some? then s[k]
    else FirstSome(s, k + 1)
  }

  /** `FirstSome` returns the element at the first index with a value, and every earlier one is `None`. */
  lemma {:induction false} FirstSomeIsFirst<E>(s: seq<Option<E>>, k: nat)
    requires k <= |s|
    ensures var r := FirstSome(s, k);
      r.Some? ==> exists j :: k <= j < |s| && s[j] == r && forall i :: k <= i < j ==> s[i].None?
    decreases |s| - k
  {
    if k < |s| && s[k].None? {
      FirstSomeIsFirst(s, k + 1);
      var r := FirstSome(s, k);
      if r.Some? {
        var j :| k + 1 <= j < |s| && s[j] == r && forall i :: k + 1 <= i < j ==> s[i].None?;
        assert forall i :: k <= i < j ==> s[i].None?;
      }
    }
  }

  /** Keeping every element is no filter at all. */
  lemma {:induction false} FilterAll<T(!new)>(s: seq<T>, p: T -> bool)
    requires forall x :: x in s ==> p(x)
    ensures Filter(s, p) == s
  {
    if s != [] {
      FilterAll(s[1..], p);
      assert p(s[0]);
    }
  }
}
