/** Ranking by a descending key and keeping the first N: the
    `OrderByDescending(key).Take(n)` pipeline both query services use.
    The sort is stable, but only the descending order of keys is promised:
    the order among equal keys is not part of any contract. */
module Ranking {
  import opened Collections

  /** Keys never increase along `s`. */
  predicate RankedBy<T>(s: seq<T>, key: T -> int) {
    forall i, j :: 0 <= i < j < |s| ==> key(s[i]) >= key(s[j])
  }

  /** Putting `y` in front of a ranked sequence whose head it outranks keeps it ranked. */
  lemma ConsRanked<T>(y: T, rest: seq<T>, key: T -> int)
    requires RankedBy(rest, key)
    requires rest != [] ==> key(y) >= key(rest[0])
    ensures RankedBy([y] + rest, key)
  {
    var r := [y] + rest;
    forall i, j | 0 <= i < j < |r| ensures key(r[i]) >= key(r[j]) {
      if i == 0 && j > 1 {
        assert r[1] == rest[0] && r[j] == rest[j - 1];
      }
    }
  }

  /** Places `x` into a ranked sequence after every element whose key is at least `key(x)`. */
  function Insert<T>(x: T, s: seq<T>, key: T -> int): (r: seq<T>)
    requires RankedBy(s, key)
    ensures RankedBy(r, key)
    ensures multiset(r) == multiset(s) + multiset{x}
    ensures |r| == |s| + 1
    ensures r[0] == x || (s != [] && r[0] == s[0])
  {
    if s == [] then [x]
    else if key(s[0]) >= key(x) then
      var rest := Insert(x, s[1..], key);
      assert s == [s[0]] + s[1..];
      assert s[1..] != [] ==> key(s[0]) >= key(s[1..][0]);
      ConsRanked(s[0], rest, key);
      [s[0]] + rest
    else
      ConsRanked(x, s, key);
      [x] + s
  }

  /** A ranked permutation of `s`. */
  function SortDescending<T>(s: seq<T>, key: T -> int): (r: seq<T>)
    ensures RankedBy(r, key)
    ensures multiset(r) == multiset(s)
    ensures |r| == |s|
  {
    if s == [] then []
    else
      var n := |s| - 1;
      assert s == s[..n] + [s[n]];
      Insert(s[n], SortDescending(s[..n], key), key)
  }

  function Min(a: int, b: int): int {
    if a <= b then a else b
  }

  /** The `n` elements of `s` with the largest keys, largest first. */
  function Top<T(!new)>(s: seq<T>, key: T -> int, n: nat): (r: seq<T>)
    ensures |r| == Min(n, |s|)
    ensures RankedBy(r, key)
    ensures multiset(r) <= multiset(s)
    ensures |s| <= n ==> multiset(r) == multiset(s)
    ensures forall y, i :: y in multiset(s) - multiset(r) && 0 <= i < |r| ==> key(y) <= key(r[i])
  {
    var t := SortDescending(s, key);
    var k := Min(n, |s|);
    assert multiset(t) == multiset(s) && |t| == |s|;
    TopIsPrefix(t, key, k);
    assert k == |t| ==> t[..k] == t;
    t[..k]
  }

  /** Whatever a prefix of a ranked sequence leaves out ranks no higher than what it keeps. */
  lemma TopIsPrefix<T>(t: seq<T>, key: T -> int, k: nat)
    requires RankedBy(t, key) && k <= |t|
    ensures multiset(t[..k]) <= multiset(t)
    ensures forall y, i :: y in multiset(t) - multiset(t[..k]) && 0 <= i < k ==> key(y) <= key(t[i])
  {
    assert t == t[..k] + t[k..];
    assert multiset(t) - multiset(t[..k]) == multiset(t[k..]);
    forall y, i | y in multiset(t) - multiset(t[..k]) && 0 <= i < k
      ensures key(y) <= key(t[i])
    {
      assert y in t[k..];
      var j :| k <= j < |t| && t[j] == y;
    }
  }

  /** No element of `s` that `Top` leaves out has a larger key than one it keeps. */
  lemma TopOutranksRest<T(!new)>(s: seq<T>, key: T -> int, n: nat)
    ensures forall y, i :: y in s && y !in Top(s, key, n) && 0 <= i < |Top(s, key, n)|
                           ==> key(y) <= key(Top(s, key, n)[i])
  {
    var r := Top(s, key, n);
    forall y, i | y in s && y !in r && 0 <= i < |r|
      ensures key(y) <= key(r[i])
    {
      assert y in multiset(s) - multiset(r);
    }
  }

  /** What is ranked after filtering by `p` is drawn from `s` and passes `p`. */
  lemma TopOfFilteredPasses<T(!new)>(s: seq<T>, p: T -> bool, key: T -> int, n: nat)
    ensures forall x :: x in Top(Filter(s, p), key, n) ==> x in s && p(x)
  {
    var r := Top(Filter(s, p), key, n);
    forall x | x in r ensures x in s && p(x) {
      assert x in multiset(r);
    }
  }

  /** Ranking only the elements that pass `p` keeps the largest keys of all of `s`
      when keys are non-negative and every element failing `p` has key zero. */
  lemma TopOfFilteredKeepsLargest<T(!new)>(s: seq<T>, p: T -> bool, key: T -> int, n: nat)
    requires forall x :: key(x) >= 0
    requires forall x :: !p(x) ==> key(x) == 0
    ensures forall y, i :: y in multiset(s) - multiset(Top(Filter(s, p), key, n)) && 0 <= i < |Top(Filter(s, p), key, n)|
                           ==> key(y) <= key(Top(Filter(s, p), key, n)[i])
  {
    var q := Filter(s, p);
    var r := Top(q, key, n);
    forall y, i | y in multiset(s) - multiset(r) && 0 <= i < |r|
      ensures key(y) <= key(r[i])
    {
      if p(y) {
        assert y in multiset(q) - multiset(r);
      }
    }
  }

  /** The same, for elements of `s` that the ranking does not contain. */
  lemma TopOfFilteredOutranksRest<T(!new)>(s: seq<T>, p: T -> bool, key: T -> int, n: nat)
    requires forall x :: key(x) >= 0
    requires forall x :: !p(x) ==> key(x) == 0
    ensures forall y, i :: y in s && y !in Top(Filter(s, p), key, n) && 0 <= i < |Top(Filter(s, p), key, n)|
                           ==> key(y) <= key(Top(Filter(s, p), key, n)[i])
  {
    var r := Top(Filter(s, p), key, n);
    TopOfFilteredKeepsLargest(s, p, key, n);
    forall y, i | y in s && y !in r && 0 <= i < |r|
      ensures key(y) <= key(r[i])
    {
      assert y in multiset(s) - multiset(r);
    }
  }

  /** Fewer than `n` ranked means every element passing `p` was ranked. */
  lemma TopOfFilteredComplete<T(!new)>(s: seq<T>, p: T -> bool, key: T -> int, n: nat)
    ensures |Top(Filter(s, p), key, n)| < n ==> forall x :: x in s && p(x) ==> x in Top(Filter(s, p), key, n)
  {
    var q := Filter(s, p);
    var r := Top(q, key, n);
    if |r| < n {
      assert multiset(r) == multiset(q);
      forall x | x in s && p(x) ensures x in r {
        assert x in multiset(q);
      }
    }
  }
}
