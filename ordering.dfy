/** The LINQ query operators the core uses on tables: `Where`, `OrderBy`/`OrderByDescending`
    and `Take`.

    A database does not promise an order among rows with equal sort keys; the model settles
    ties by a stable insertion sort, and its contracts promise only what every order would
    satisfy: the result is sorted and is a permutation of the rows selected.
 */
module Ordering {

  /** `le` is total and transitive: it orders every pair of values consistently. */
  ghost predicate TotalPreorder<T(!new)>(le: (T, T) -> bool) {
    && (forall a, b :: le(a, b) || le(b, a))
    && (forall a, b, c :: le(a, b) && le(b, c) ==> le(a, c))
  }

  /** Every element comes, by `le`, at or before every later element. */
  predicate SortedBy<T>(s: seq<T>, le: (T, T) -> bool) {
    forall i, j :: 0 <= i < j < |s| ==> le(s[i], s[j])
  }

  /** `Where(p)`: the elements satisfying `p`, in their original order. */
  function Filter<T(!new)>(s: seq<T>, p: T -> bool): (r: seq<T>)
    ensures |r| <= |s|
    ensures forall x :: multiset(r)[x] == if p(x) then multiset(s)[x] else 0
    ensures forall i :: 0 <= i < |r| ==> p(r[i]) && r[i] in s
  {
    if s == [] then []
    else
      assert s == [s[0]] + s[1..];
      (if p(s[0]) then [s[0]] else []) + Filter(s[1..], p)
  }

  /** Insert `x` before the first element it may precede. */
  function Insert<T>(x: T, s: seq<T>, le: (T, T) -> bool): (r: seq<T>)
    ensures |r| == |s| + 1
    ensures multiset(r) == multiset(s) + multiset{x}
  {
    if s == [] then [x]
    else if le(x, s[0]) then [x] + s
    else
      assert s == [s[0]] + s[1..];
      [s[0]] + Insert(x, s[1..], le)
  }

  /** A stable sort by `le` (`OrderBy` with a comparer). */
  function Sort<T>(s: seq<T>, le: (T, T) -> bool): (r: seq<T>)
    ensures |r| == |s|
    ensures multiset(r) == multiset(s)
  {
    if s == [] then []
    else
      assert s == [s[0]] + s[1..];
      Insert(s[0], Sort(s[1..], le), le)
  }

  lemma {:induction false} InsertSorted<T(!new)>(x: T, s: seq<T>, le: (T, T) -> bool)
    requires TotalPreorder(le)
    requires SortedBy(s, le)
    ensures SortedBy(Insert(x, s, le), le)
  {
    if s != [] && !le(x, s[0]) {
      var tail := Insert(x, s[1..], le);
      assert SortedBy(s[1..], le);
      InsertSorted(x, s[1..], le);
      var r := [s[0]] + tail;
      forall j | 0 < j < |r| ensures le(r[0], r[j]) {
        var y := r[j];
        assert y in multiset(tail);
        assert y == x || y in multiset(s[1..]);
        if y != x {
          var k :| 0 <= k < |s[1..]| && s[1..][k] == y;
          assert s[k + 1] == y;
        }
      }
    }
  }

  /** `Sort` returns a sorted permutation of its input. */
  lemma {:induction false} SortSorted<T(!new)>(s: seq<T>, le: (T, T) -> bool)
    requires TotalPreorder(le)
    ensures SortedBy(Sort(s, le), le)
  {
    if s != [] {
      SortSorted(s[1..], le);
      InsertSorted(s[0], Sort(s[1..], le), le);
    }
  }

  /** `Take(n)`: the first `n` elements, or all of them when there are fewer. */
  function Take<T>(s: seq<T>, n: int): (r: seq<T>)
    ensures |r| == if n <= 0 then 0 else if n < |s| then n else |s|
    ensures r == s[..|r|]
    ensures multiset(r) <= multiset(s)
  {
    if n <= 0 then []
    else if n < |s| then
      assert s == s[..n] + s[n..];
      s[..n]
    else s
  }

  /** A prefix of a sorted sequence is sorted. */
  lemma TakeSorted<T>(s: seq<T>, n: int, le: (T, T) -> bool)
    requires SortedBy(s, le)
    ensures SortedBy(Take(s, n), le)
  {
  }

  /** A prefix of a sorted sequence is its front: an element the prefix leaves out comes,
      by `le`, at or after every element the prefix keeps. */
  lemma TakeIsFront<T>(s: seq<T>, n: int, le: (T, T) -> bool, x: T)
    requires SortedBy(s, le)
    requires x in s && x !in Take(s, n)
    ensures forall j :: 0 <= j < |Take(s, n)| ==> le(Take(s, n)[j], x)
  {
    var r := Take(s, n);
    var k :| 0 <= k < |s| && s[k] == x;
    forall j | 0 <= j < |r| ensures le(r[j], x) {
      assert r[j] == s[j];
    }
  }

  /** An order by an integer key, largest first (`OrderByDescending(key)`). */
  lemma DescendingIsTotalPreorder<T(!new)>(key: T -> int, le: (T, T) -> bool)
    requires forall a, b :: le(a, b) == (key(a) >= key(b))
    ensures TotalPreorder(le)
  {
  }
}
