/** Sequence helpers shared by both query services: an optional value, counting,
    filtering, projection and first-occurrence de-duplication (the LINQ operators
    Count, Where, Select and Distinct over an in-memory snapshot). */
module Collections {

  datatype Option<T> = None | Some(value: T)

  /** No element occurs twice. */
  predicate NoDuplicates<T(==)>(s: seq<T>) {
    forall i, j :: 0 <= i < j < |s| ==> s[i] != s[j]
  }

  /** The indices of `s` whose element satisfies `p`: the reference meaning of a count. */
  ghost function Matching<T>(s: seq<T>, p: T -> bool): set<nat> {
    set i: nat | i < |s| && p(s[i])
  }

  /** Number of elements of `s` satisfying `p` (LINQ `Count(p)`). */
  function Count<T>(s: seq<T>, p: T -> bool): (n: nat)
    ensures n <= |s|
    ensures n == 0 <==> forall i :: 0 <= i < |s| ==> !p(s[i])
  {
    if s == [] then 0
    else Count(s[..|s| - 1], p) + (if p(s[|s| - 1]) then 1 else 0)
  }

  /** A count is the number of matching positions. */
  lemma {:induction false} CountIsMatchingSize<T>(s: seq<T>, p: T -> bool)
    ensures Count(s, p) == |Matching(s, p)|
  {
    if s != [] {
      var n := |s| - 1;
      CountIsMatchingSize(s[..n], p);
      var last := if p(s[n]) then {n} else {};
      assert Matching(s, p) == Matching(s[..n], p) + last;
      assert n !in Matching(s[..n], p);
    }
  }

  /** Counting over a concatenation adds up. */
  lemma {:induction false} CountAppend<T>(s: seq<T>, t: seq<T>, p: T -> bool)
    ensures Count(s + t, p) == Count(s, p) + Count(t, p)
  {
    if t == [] {
      assert s + t == s;
    } else {
      var n := |t| - 1;
      CountAppend(s, t[..n], p);
      assert (s + t)[..|s + t| - 1] == s + t[..n];
    }
  }

  /** Counting a stronger predicate gives no more. */
  lemma {:induction false} CountMonotone<T>(s: seq<T>, p: T -> bool, q: T -> bool)
    requires forall x :: p(x) ==> q(x)
    ensures Count(s, p) <= Count(s, q)
  {
    if s != [] {
      CountMonotone(s[..|s| - 1], p, q);
    }
  }

  /** A sequence without duplicates has as many elements as its set of elements. */
  lemma {:induction false} NoDuplicatesCardinality<T>(s: seq<T>)
    requires NoDuplicates(s)
    ensures |set x | x in s| == |s|
  {
    if s != [] {
      var n := |s| - 1;
      NoDuplicatesCardinality(s[..n]);
      assert (set x | x in s) == (set x | x in s[..n]) + {s[n]} by {
        assert s == s[..n] + [s[n]];
      }
      assert s[n] !in s[..n];
    }
  }

  /** The elements of `s` satisfying `p`, in order (LINQ `Where`). */
  function Filter<T(!new)>(s: seq<T>, p: T -> bool): (r: seq<T>)
    ensures |r| == Count(s, p)
    ensures forall x :: x in r <==> x in s && p(x)
    ensures multiset(r) <= multiset(s)
    ensures forall x :: multiset(r)[x] == if p(x) then multiset(s)[x] else 0
  {
    if s == [] then []
    else
      var n := |s| - 1;
      assert s == s[..n] + [s[n]];
      Filter(s[..n], p) + (if p(s[n]) then [s[n]] else [])
  }

  /** The first element of `s` satisfying `p`, if any (LINQ `FirstOrDefault(p)`). */
  function FirstWhere<T>(s: seq<T>, p: T -> bool): (r: Option<T>)
    ensures r.None? <==> forall i :: 0 <= i < |s| ==> !p(s[i])
    ensures r.Some? ==> exists i :: 0 <= i < |s| && s[i] == r.value && p(s[i]) && forall j :: 0 <= j < i ==> !p(s[j])
  {
    if s == [] then None
    else if p(s[0]) then Some(s[0])
    else
      var r := FirstWhere(s[1..], p);
      assert r.Some? ==> exists i :: 0 <= i < |s[1..]| && s[1..][i] == r.value && p(s[1..][i]) && forall j :: 0 <= j < i ==> !p(s[1..][j]);
      r
  }

  /** The image of `s` under `f`, in order (LINQ `Select`). */
  function Project<T, U>(s: seq<T>, f: T -> U): (r: seq<U>)
    ensures |r| == |s|
    ensures forall i :: 0 <= i < |s| ==> r[i] == f(s[i])
  {
    if s == [] then [] else Project(s[..|s| - 1], f) + [f(s[|s| - 1])]
  }

  /** Something is in the image exactly when some element maps to it. */
  lemma ProjectMembership<T, U>(s: seq<T>, f: T -> U)
    ensures forall u :: u in Project(s, f) <==> exists x :: x in s && f(x) == u
  {
    var r := Project(s, f);
    forall u | u in r ensures exists x :: x in s && f(x) == u {
      var i :| 0 <= i < |r| && r[i] == u;
      assert s[i] in s && f(s[i]) == u;
    }
    forall u | exists x :: x in s && f(x) == u ensures u in r {
      var x :| x in s && f(x) == u;
      var i :| 0 <= i < |s| && s[i] == x;
      assert r[i] == u;
    }
  }

  /** The first occurrence of each element, in order (LINQ `Distinct`). */
  function Distinct<T(==,!new)>(s: seq<T>): (r: seq<T>)
    ensures NoDuplicates(r)
    ensures forall x :: x in r <==> x in s
    ensures |r| <= |s|
  {
    if s == [] then []
    else
      var n := |s| - 1;
      var d := Distinct(s[..n]);
      assert forall x :: x in s <==> x in s[..n] || x == s[n] by {
        assert s == s[..n] + [s[n]];
      }
      if s[n] in d then d else d + [s[n]]
  }

  /** The conjunction of two tests. */
  function Both<T>(p: T -> bool, q: T -> bool): T -> bool {
    (x: T) => p(x) && q(x)
  }

  /** Counting what passes `q` among what passed `p` counts what passes both. */
  lemma {:induction false} CountFiltered<T(!new)>(s: seq<T>, p: T -> bool, q: T -> bool)
    ensures Count(Filter(s, p), q) == Count(s, Both(p, q))
  {
    if s != [] {
      var n := |s| - 1;
      var pq := Both(p, q);
      CountFiltered(s[..n], p, q);
      var f := Filter(s[..n], p);
      var last := if p(s[n]) then [s[n]] else [];
      assert Filter(s, p) == f + last;
      CountAppend(f, last, q);
      assert Count(last, q) == (if pq(s[n]) then 1 else 0) by {
        if p(s[n]) {
          assert last[..0] == [];
        }
      }
      assert Count(s, pq) == Count(s[..n], pq) + (if pq(s[n]) then 1 else 0);
    }
  }

  /** No two elements of `rows` share an id. */
  predicate UniqueIds<E>(rows: seq<E>, id: E -> int) {
    forall i, j :: 0 <= i < j < |rows| ==> id(rows[i]) != id(rows[j])
  }

  /** Among rows with unique ids, at most one has a given id. */
  lemma {:induction false} UniqueIdsCount<E>(rows: seq<E>, id: E -> int, k: int)
    requires UniqueIds(rows, id)
    ensures Count(rows, HasId(id, k)) <= 1
  {
    if rows != [] {
      var n := |rows| - 1;
      UniqueIdsCount(rows[..n], id, k);
      if id(rows[n]) == k {
        assert forall i :: 0 <= i < n ==> id(rows[..n][i]) != k;
      }
    }
  }

  /** The test `id(row) == k`. */
  function HasId<E>(id: E -> int, k: int): E -> bool {
    (e: E) => id(e) == k
  }

  /** A row paired with the key `k`. */
  function PairedWith<E>(k: int): E -> (int, E) {
    (e: E) => (k, e)
  }

  /** The rows whose id is `k`, each paired with `k`. */
  function Matches<E(!new)>(k: int, rows: seq<E>, id: E -> int): (r: seq<(int, E)>)
    ensures |r| == Count(rows, HasId(id, k))
    ensures forall m :: m in r <==> m.0 == k && m.1 in rows && id(m.1) == k
    ensures forall i :: 0 <= i < |r| ==> r[i].0 == k
  {
    var f := Filter(rows, HasId(id, k));
    var r := Project(f, PairedWith(k));
    ProjectMembership(f, PairedWith(k));
    r
  }

  /** Inner join of `keys` with `rows` on `id(row) == key`, in key order, then row
      order (LINQ `Join`). */
  function Join<E(!new)>(keys: seq<int>, rows: seq<E>, id: E -> int): (r: seq<(int, E)>)
    ensures forall m :: m in r <==> m.0 in keys && m.1 in rows && id(m.1) == m.0
  {
    if keys == [] then []
    else
      var n := |keys| - 1;
      assert keys == keys[..n] + [keys[n]];
      Join(keys[..n], rows, id) + Matches(keys[n], rows, id)
  }

  /** Each key contributes at most one row when ids are unique. */
  lemma {:induction false} JoinSize<E(!new)>(keys: seq<int>, rows: seq<E>, id: E -> int)
    requires UniqueIds(rows, id)
    ensures |Join(keys, rows, id)| <= |keys|
  {
    if keys != [] {
      var n := |keys| - 1;
      JoinSize(keys[..n], rows, id);
      UniqueIdsCount(rows, id, keys[n]);
    }
  }

  /** Joined pairs follow the order of the keys: a key order that never increases
      under `key` carries over to the pairs. */
  lemma {:induction false} JoinKeepsKeyOrder<E(!new)>(keys: seq<int>, rows: seq<E>, id: E -> int, key: int -> int)
    requires forall i, j :: 0 <= i < j < |keys| ==> key(keys[i]) >= key(keys[j])
    ensures forall i, j :: 0 <= i < j < |Join(keys, rows, id)|
                           ==> key(Join(keys, rows, id)[i].0) >= key(Join(keys, rows, id)[j].0)
  {
    if keys != [] {
      var n := |keys| - 1;
      var front := Join(keys[..n], rows, id);
      var back := Matches(keys[n], rows, id);
      JoinKeepsKeyOrder(keys[..n], rows, id, key);
      JoinedKeysRankAbove(keys[..n], rows, id, key, keys[n]);
      assert forall x, y :: x in front && y in back ==> key(x.0) >= key(y.0);
      ConcatNonIncreasing(front, back, key);
    }
  }

  /** Pairs joined on keys that all rank at least `k` rank at least `k`. */
  lemma JoinedKeysRankAbove<E(!new)>(keys: seq<int>, rows: seq<E>, id: E -> int, key: int -> int, k: int)
    requires forall i :: 0 <= i < |keys| ==> key(keys[i]) >= key(k)
    ensures forall m :: m in Join(keys, rows, id) ==> key(m.0) >= key(k)
  {
    forall m | m in Join(keys, rows, id) ensures key(m.0) >= key(k) {
      var i :| 0 <= i < |keys| && keys[i] == m.0;
    }
  }

  /** Two pair sequences whose keys never increase under `key`, where every key of
      the first ranks at least every key of the second, concatenate to one whose
      keys never increase. */
  lemma ConcatNonIncreasing<E>(a: seq<(int, E)>, b: seq<(int, E)>, key: int -> int)
    requires forall i, j :: 0 <= i < j < |a| ==> key(a[i].0) >= key(a[j].0)
    requires forall i, j :: 0 <= i < j < |b| ==> key(b[i].0) >= key(b[j].0)
    requires forall x, y :: x in a && y in b ==> key(x.0) >= key(y.0)
    ensures forall i, j :: 0 <= i < j < |a + b| ==> key((a + b)[i].0) >= key((a + b)[j].0)
  {
    var r := a + b;
    forall i, j | 0 <= i < j < |r| ensures key(r[i].0) >= key(r[j].0) {
      if i < |a| && j >= |a| {
        assert r[i] in a && r[j] in b;
      } else if j >= |a| {
        assert r[i] == b[i - |a|] && r[j] == b[j - |a|];
      }
    }
  }

  /** Sum of `f` over `s` (LINQ `Sum`): never negative when no term is, and at
      least one per term when every term is positive. */
  function Sum<T>(s: seq<T>, f: T -> int): (r: int)
    ensures (forall i :: 0 <= i < |s| ==> f(s[i]) >= 0) ==> r >= 0
    ensures (forall i :: 0 <= i < |s| ==> f(s[i]) > 0) ==> r >= |s|
  {
    if s == [] then 0
    else
      var n := |s| - 1;
      assert forall i :: 0 <= i < n ==> s[..n][i] == s[i];
      Sum(s[..n], f) + f(s[n])
  }

  /** Filtering keeps ids unique. */
  lemma {:induction false} FilterKeepsUniqueIds<E(!new)>(s: seq<E>, p: E -> bool, id: E -> int)
    requires UniqueIds(s, id)
    ensures UniqueIds(Filter(s, p), id)
  {
    if s != [] {
      var n := |s| - 1;
      assert UniqueIds(s[..n], id);
      FilterKeepsUniqueIds(s[..n], p, id);
      var f := Filter(s[..n], p);
      if p(s[n]) {
        assert forall x :: x in f ==> x in s[..n];
        assert forall x :: x in f ==> id(x) != id(s[n]);
        var r := f + [s[n]];
        forall i, j | 0 <= i < j < |r| ensures id(r[i]) != id(r[j]) {
          if j == |f| {
            assert r[i] in f;
          }
        }
      }
    }
  }

  /** Filters by predicates that agree everywhere agree. */
  lemma {:induction false} FilterExtensional<T(!new)>(s: seq<T>, p: T -> bool, q: T -> bool)
    requires forall x :: p(x) == q(x)
    ensures Filter(s, p) == Filter(s, q)
  {
    if s != [] {
      FilterExtensional(s[..|s| - 1], p, q);
    }
  }
}
