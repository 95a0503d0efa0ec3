/**
 * A stable sort driven by a JavaScript-style comparator: `cmp(a, b) <= 0`
 * means `a` may stay in front of `b`. This is the behaviour that
 * `Array.prototype.sort` guarantees (stability is required since ES2019);
 * insertion sort is used as the reference implementation.
 */
module StableSort {
  import Seqs

  /** `cmp` orders its arguments as a total preorder: every pair is comparable and the order is transitive. */
  ghost predicate TotalPreorder<T(!new)>(cmp: (T, T) -> real) {
    && (forall a, b :: cmp(a, b) <= 0.0 || cmp(b, a) <= 0.0)
    && (forall a, b, c :: cmp(a, b) <= 0.0 && cmp(b, c) <= 0.0 ==> cmp(a, c) <= 0.0)
  }

  /** `a` and `b` tie: the comparator lets either precede the other. */
  predicate Tied<T>(cmp: (T, T) -> real, a: T, b: T) {
    cmp(a, b) <= 0.0 && cmp(b, a) <= 0.0
  }

  ghost predicate Sorted<T>(s: seq<T>, cmp: (T, T) -> real) {
    forall i, j :: 0 <= i < j < |s| ==> cmp(s[i], s[j]) <= 0.0
  }

  /** Places `x` in front of the first element it may precede. */
  function Insert<T>(x: T, r: seq<T>, cmp: (T, T) -> real): (out: seq<T>)
    ensures multiset(out) == multiset(r) + multiset{x}
    ensures |out| == |r| + 1
  {
    if r == [] then [x]
    else if cmp(x, r[0]) <= 0.0 then [x] + r
    else (assert r == [r[0]] + r[1..]; [r[0]] + Insert(x, r[1..], cmp))
  }

  /** The stably sorted copy of `s`. */
  function Sort<T>(s: seq<T>, cmp: (T, T) -> real): (r: seq<T>)
    ensures multiset(r) == multiset(s)
    ensures |r| == |s|
  {
    if s == [] then []
    else (assert s == [s[0]] + s[1..]; Insert(s[0], Sort(s[1..], cmp), cmp))
  }

  lemma {:induction false} InsertSorted<T(!new)>(x: T, r: seq<T>, cmp: (T, T) -> real)
    requires TotalPreorder(cmp) && Sorted(r, cmp)
    ensures Sorted(Insert(x, r, cmp), cmp)
  {
    if r != [] {
      if cmp(x, r[0]) <= 0.0 {
        forall j | 0 < j < |r|
          ensures cmp(x, r[j]) <= 0.0
        {
          assert cmp(r[0], r[j]) <= 0.0;
        }
        PrependSorted(x, r, cmp);
      } else {
        assert cmp(r[0], x) <= 0.0;
        SortedTail(r, cmp);
        InsertSorted(x, r[1..], cmp);
        HeadBeforeInsert(x, r, cmp);
        var tail := Insert(x, r[1..], cmp);
        PrependSorted(r[0], tail, cmp);
        assert Insert(x, r, cmp) == [r[0]] + tail;
      }
    }
  }

  lemma SortedTail<T>(r: seq<T>, cmp: (T, T) -> real)
    requires r != [] && Sorted(r, cmp)
    ensures Sorted(r[1..], cmp)
  {
    assert forall i :: 0 <= i < |r| - 1 ==> r[1..][i] == r[i + 1];
  }

  /** An element that may precede every element of a sorted sequence may go in front of it. */
  lemma PrependSorted<T>(x: T, r: seq<T>, cmp: (T, T) -> real)
    requires Sorted(r, cmp)
    requires forall j :: 0 <= j < |r| ==> cmp(x, r[j]) <= 0.0
    ensures Sorted([x] + r, cmp)
  {
    var out := [x] + r;
    assert forall i :: 0 < i < |out| ==> out[i] == r[i - 1];
  }

  /** The head of a sorted sequence may precede everything of the tail with `x` inserted, when it may precede `x`. */
  lemma HeadBeforeInsert<T>(x: T, r: seq<T>, cmp: (T, T) -> real)
    requires r != [] && Sorted(r, cmp) && cmp(r[0], x) <= 0.0
    ensures forall j :: 0 <= j < |Insert(x, r[1..], cmp)| ==> cmp(r[0], Insert(x, r[1..], cmp)[j]) <= 0.0
  {
    var tail := Insert(x, r[1..], cmp);
    forall j | 0 <= j < |tail|
      ensures cmp(r[0], tail[j]) <= 0.0
    {
      assert tail[j] in multiset(tail);
      if tail[j] != x {
        assert tail[j] in multiset(r[1..]);
        var k :| 0 <= k < |r[1..]| && r[1..][k] == tail[j];
        assert r[k + 1] == tail[j];
      }
    }
  }

  /** The output is ordered by the comparator, provided the comparator is a total preorder. */
  lemma {:induction false} SortSorted<T(!new)>(s: seq<T>, cmp: (T, T) -> real)
    requires TotalPreorder(cmp)
    ensures Sorted(Sort(s, cmp), cmp)
  {
    if s != [] {
      SortSorted(s[1..], cmp);
      InsertSorted(s[0], Sort(s[1..], cmp), cmp);
    }
  }

  /** `tie` picks out elements that all tie with each other. */
  ghost predicate TieClass<T(!new)>(cmp: (T, T) -> real, tie: T -> bool) {
    forall a, b :: tie(a) && tie(b) ==> cmp(a, b) <= 0.0
  }

  lemma {:induction false} InsertKeepsClass<T(!new)>(x: T, r: seq<T>, cmp: (T, T) -> real, tie: T -> bool)
    requires TieClass(cmp, tie)
    ensures Seqs.Filter(Insert(x, r, cmp), tie) == (if tie(x) then [x] else []) + Seqs.Filter(r, tie)
  {
    if r != [] && cmp(x, r[0]) > 0.0 {
      InsertKeepsClass(x, r[1..], cmp, tie);
    }
  }

  /**
   * Stability: within any class of mutually tied elements the output keeps
   * the input's relative order. No preorder property of `cmp` is needed.
   */
  lemma {:induction false} SortStable<T(!new)>(s: seq<T>, cmp: (T, T) -> real, tie: T -> bool)
    requires TieClass(cmp, tie)
    ensures Seqs.Filter(Sort(s, cmp), tie) == Seqs.Filter(s, tie)
  {
    if s != [] {
      SortStable(s[1..], cmp, tie);
      InsertKeepsClass(s[0], Sort(s[1..], cmp), cmp, tie);
    }
  }

  /** The elements tied with `x` form a tie class when `cmp` is a total preorder. */
  lemma TiedWithIsClass<T(!new)>(cmp: (T, T) -> real, x: T)
    requires TotalPreorder(cmp)
    ensures TieClass(cmp, e => Tied(cmp, e, x))
  {
  }

  /** A comparator that ties everything (it always returns 0) leaves the order unchanged. */
  lemma AllTiedIsIdentity<T(!new)>(s: seq<T>, cmp: (T, T) -> real)
    requires forall a, b :: cmp(a, b) == 0.0
    ensures Sort(s, cmp) == s
  {
    var all := (e: T) => true;
    SortStable(s, cmp, all);
    Seqs.FilterKeepsAll(s, all);
    Seqs.FilterKeepsAll(Sort(s, cmp), all);
  }
}
