/** Generic sequence operations that stand for the relational shapes the
    application uses: filtering (`WHERE`), ordering (`ORDER BY`), bounding
    (`LIMIT`), key sets and primary-key uniqueness. */
module Seqs {
  import opened Wrappers

  /** The elements of `s` that satisfy `p`, in their original order. */
  function Filter<T>(s: seq<T>, p: T -> bool): (r: seq<T>)
    ensures |r| <= |s|
    ensures forall i :: 0 <= i < |r| ==> r[i] in s && p(r[i])
    ensures forall i :: 0 <= i < |s| && p(s[i]) ==> s[i] in r
    decreases |s|
  {
    if s == [] then []
    else
      assert s == [s[0]] + s[1..];
      if p(s[0]) then [s[0]] + Filter(s[1..], p) else Filter(s[1..], p)
  }

  /** Filtering keeps every occurrence of a selected value and none of the others. */
  lemma {:induction false} FilterCounts<T>(s: seq<T>, p: T -> bool, x: T)
    ensures multiset(Filter(s, p))[x] == if p(x) then multiset(s)[x] else 0
    decreases |s|
  {
    if s != [] {
      FilterCounts(s[1..], p, x);
      assert s == [s[0]] + s[1..];
      assert multiset(s)[x] == multiset([s[0]])[x] + multiset(s[1..])[x];
      if p(s[0]) {
        assert Filter(s, p) == [s[0]] + Filter(s[1..], p);
        assert multiset(Filter(s, p))[x] == multiset([s[0]])[x] + multiset(Filter(s[1..], p))[x];
      }
    }
  }

  lemma {:induction false} FilterNone<T>(s: seq<T>, p: T -> bool)
    requires forall i :: 0 <= i < |s| ==> !p(s[i])
    ensures Filter(s, p) == []
    decreases |s|
  {
    if s != [] {
      FilterNone(s[1..], p);
    }
  }

  /** The set of keys the elements of `s` carry. */
  function KeysOf<T, K>(s: seq<T>, key: T -> K): (ks: set<K>)
    ensures forall i :: 0 <= i < |s| ==> key(s[i]) in ks
    ensures forall k :: k in ks ==> exists i :: 0 <= i < |s| && key(s[i]) == k
  {
    set i | 0 <= i < |s| :: key(s[i])
  }

  /** No two positions of `s` carry the same key: a primary-key constraint. */
  predicate UniqueBy<T, K(==)>(s: seq<T>, key: T -> K) {
    forall i, j :: 0 <= i < j < |s| ==> key(s[i]) != key(s[j])
  }

  /** `le` is a total preorder: every pair is comparable and it is transitive. */
  ghost predicate TotalPreorder<T(!new)>(le: (T, T) -> bool) {
    && (forall a, b :: le(a, b) || le(b, a))
    && (forall a, b, c :: le(a, b) && le(b, c) ==> le(a, c))
  }

  predicate SortedBy<T>(s: seq<T>, le: (T, T) -> bool) {
    forall i, j :: 0 <= i < j < |s| ==> le(s[i], s[j])
  }

  /** Inserts `x` before the first element it does not come after. */
  function Insert<T(!new)>(x: T, s: seq<T>, le: (T, T) -> bool): (r: seq<T>)
    requires TotalPreorder(le)
    requires SortedBy(s, le)
    ensures SortedBy(r, le)
    ensures multiset(r) == multiset(s) + multiset{x}
    decreases |s|
  {
    if s == [] then [x]
    else if le(x, s[0]) then
      assert SortedBy([x] + s, le) by {
        forall i, j | 0 <= i < j < |[x] + s|
          ensures le(([x] + s)[i], ([x] + s)[j])
        {
          if i == 0 && j > 1 {
            assert le(s[0], s[j - 1]);
          }
        }
      }
      [x] + s
    else
      var t := Insert(x, s[1..], le);
      assert s == [s[0]] + s[1..];
      assert forall y :: y in t ==> le(s[0], y) by {
        forall y | y in t
          ensures le(s[0], y)
        {
          assert y in multiset(t);
          if y != x {
            assert y in multiset(s[1..]);
            var j :| 0 <= j < |s[1..]| && s[1..][j] == y;
            assert s[j + 1] == y;
          }
        }
      }
      assert SortedBy([s[0]] + t, le) by {
        forall i, j | 0 <= i < j < |[s[0]] + t|
          ensures le(([s[0]] + t)[i], ([s[0]] + t)[j])
        {
          if i == 0 {
            assert t[j - 1] in t;
          }
        }
      }
      [s[0]] + t
  }

  /** Insertion sort: a sorted permutation of `s`. */
  function Sort<T(!new)>(s: seq<T>, le: (T, T) -> bool): (r: seq<T>)
    requires TotalPreorder(le)
    ensures SortedBy(r, le)
    ensures multiset(r) == multiset(s)
    decreases |s|
  {
    if s == [] then []
    else
      assert s == [s[0]] + s[1..];
      Insert(s[0], Sort(s[1..], le), le)
  }

  function Min(a: int, b: int): int {
    if a <= b then a else b
  }

  /** The first `n` elements of `s` (all of them when there are fewer): `LIMIT n`. */
  function Take<T>(s: seq<T>, n: nat): (r: seq<T>)
    ensures |r| == Min(n, |s|)
    ensures r == s[..|r|]
  {
    if |s| <= n then s else s[..n]
  }

  /** Bounding a sorted sequence keeps a sorted prefix, and every element
      left out comes no earlier than any element kept. */
  lemma SortedTake<T>(s: seq<T>, n: nat, le: (T, T) -> bool)
    requires SortedBy(s, le)
    ensures SortedBy(Take(s, n), le)
    ensures multiset(s) - multiset(Take(s, n)) == multiset(s[|Take(s, n)|..])
    ensures forall x, y :: x in Take(s, n) && y in multiset(s) - multiset(Take(s, n)) ==> le(x, y)
  {
    var k := |Take(s, n)|;
    assert s == s[..k] + s[k..];
    assert multiset(s) == multiset(s[..k]) + multiset(s[k..]);
    forall x, y | x in Take(s, n) && y in multiset(s) - multiset(Take(s, n))
      ensures le(x, y)
    {
      var i :| 0 <= i < k && s[i] == x;
      assert y in multiset(s[k..]);
      var j :| 0 <= j < |s[k..]| && s[k..][j] == y;
      assert s[k + j] == y;
    }
  }

  /** The `n` least elements of `s` under `le`, in order: `ORDER BY ... LIMIT n`. */
  function SortTake<T(!new)>(s: seq<T>, n: nat, le: (T, T) -> bool): (r: seq<T>)
    requires TotalPreorder(le)
    ensures |r| == Min(n, |s|)
    ensures SortedBy(r, le)
    ensures multiset(r) <= multiset(s)
    ensures forall i :: 0 <= i < |r| ==> r[i] in s
    ensures forall x, y :: x in r && y in multiset(s) - multiset(r) ==> le(x, y)
  {
    var sorted := Sort(s, le);
    SortedTake(sorted, n, le);
    var r := Take(sorted, n);
    assert sorted == r + sorted[|r|..];
    assert multiset(sorted) == multiset(r) + multiset(sorted[|r|..]);
    assert forall i :: 0 <= i < |r| ==> r[i] in s by {
      forall i | 0 <= i < |r|
        ensures r[i] in s
      {
        assert r[i] in multiset(sorted);
      }
    }
    r
  }

  /** The position of the first element satisfying `p`: what `.first()`
      returns under a filter, reading the table in insertion order. */
  function FindFirst<T>(s: seq<T>, p: T -> bool): (r: Option<nat>)
    ensures r.Some? ==> r.value < |s| && p(s[r.value]) && forall j :: 0 <= j < r.value ==> !p(s[j])
    ensures r.None? ==> forall j :: 0 <= j < |s| ==> !p(s[j])
    decreases |s|
  {
    if s == [] then None
    else if p(s[0]) then Some(0)
    else
      match FindFirst(s[1..], p)
      case Some(i) => Some(i + 1)
      case None => None
  }

  /** The first position satisfying `p` is determined by what precedes it. */
  lemma FindFirstIs<T>(s: seq<T>, p: T -> bool, k: nat)
    requires k < |s| && p(s[k])
    requires forall j :: 0 <= j < k ==> !p(s[j])
    ensures FindFirst(s, p) == Some(k)
  {
  }

  /** Appending rows never changes an existing first match, and a lookup that
      failed finds the first appended row that satisfies `p`. */
  lemma FindFirstAppend<T>(a: seq<T>, b: seq<T>, p: T -> bool)
    ensures FindFirst(a, p).Some? ==> FindFirst(a + b, p) == FindFirst(a, p)
    ensures FindFirst(a, p).None? && FindFirst(b, p).Some? ==>
              FindFirst(a + b, p) == Some(|a| + FindFirst(b, p).value)
    ensures FindFirst(a, p).None? && FindFirst(b, p).None? ==> FindFirst(a + b, p).None?
  {
    var ab := a + b;
    match FindFirst(a, p)
    case Some(k) =>
      forall j | 0 <= j <= k
        ensures ab[j] == a[j]
      {
      }
      FindFirstIs(ab, p, k);
    case None =>
      var n := match FindFirst(b, p) case Some(k) => |a| + k case None => |ab|;
      forall j | 0 <= j < n
        ensures !p(ab[j])
      {
        if j < |a| {
          assert ab[j] == a[j];
        } else {
          assert ab[j] == b[j - |a|];
        }
      }
      if n < |ab| {
        assert ab[n] == b[n - |a|];
        FindFirstIs(ab, p, n);
      }
  }

  /** Appending a row whose key is not yet used keeps keys unique. */
  lemma UniqueSnoc<T, K>(s: seq<T>, x: T, key: T -> K)
    requires UniqueBy(s, key) && key(x) !in KeysOf(s, key)
    ensures UniqueBy(s + [x], key)
  {
    var t := s + [x];
    forall i, j | 0 <= i < j < |t|
      ensures key(t[i]) != key(t[j])
    {
      if j == |s| {
        assert t[i] == s[i];
      } else {
        assert t[i] == s[i] && t[j] == s[j];
      }
    }
  }
}
