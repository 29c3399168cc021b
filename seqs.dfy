/** The array helpers the routes and the client store rely on: `findIndex`,
    `find`, `filter` and an ordering (`orderBy`) with the facts proved about them. */
module Seqs {
  import opened Wrappers

  /** Index of the first element satisfying `p`, or -1 when there is none
      (the contract of `Array.prototype.findIndex`). */
  function FirstIndex<T>(s: seq<T>, p: T -> bool): (i: int)
    ensures -1 <= i < |s|
    ensures 0 <= i ==> p(s[i])
    ensures forall j :: 0 <= j < |s| && (i < 0 || j < i) ==> !p(s[j])
  {
    if |s| == 0 then -1
    else if p(s[0]) then 0
    else
      var k := FirstIndex(s[1..], p);
      if k < 0 then -1 else k + 1
  }

  /** First element satisfying `p` (`Array.prototype.find`, or a `findFirst` query). */
  function Find<T>(s: seq<T>, p: T -> bool): (r: Option<T>)
    ensures r.None? <==> forall k :: 0 <= k < |s| ==> !p(s[k])
    ensures r.Some? ==> p(r.value) && r.value in s
  {
    var i := FirstIndex(s, p);
    if i < 0 then None else Some(s[i])
  }

  /** A match at index `k` preceded by no other match is what `Find` returns. */
  lemma FindIsFirst<T>(s: seq<T>, p: T -> bool, k: int)
    requires 0 <= k < |s| && p(s[k])
    requires forall j :: 0 <= j < k ==> !p(s[j])
    ensures FirstIndex(s, p) == k
    ensures Find(s, p) == Some(s[k])
  {
  }

  /** Appending an element that fails `p` does not change whether `Find` succeeds. */
  lemma FindAppendMiss<T>(s: seq<T>, x: T, p: T -> bool)
    requires !p(x)
    ensures Find(s + [x], p).Some? <==> Find(s, p).Some?
  {
    if Find(s + [x], p).Some? {
      var k :| 0 <= k < |s| + 1 && p((s + [x])[k]);
      assert k < |s| && p(s[k]);
    }
    if Find(s, p).Some? {
      var k :| 0 <= k < |s| && p(s[k]);
      assert p((s + [x])[k]);
    }
  }

  /** The elements satisfying `p`, in their original order (`Array.prototype.filter`). */
  function Filter<T>(s: seq<T>, p: T -> bool): (r: seq<T>)
    ensures |r| <= |s|
    ensures forall k :: 0 <= k < |r| ==> r[k] in s && p(r[k])
    ensures forall k :: 0 <= k < |s| && p(s[k]) ==> s[k] in r
  {
    if |s| == 0 then []
    else (if p(s[0]) then [s[0]] else []) + Filter(s[1..], p)
  }

  /** Filtering commutes with concatenation: the kept elements stay in order. */
  lemma {:induction false} FilterConcat<T>(a: seq<T>, b: seq<T>, p: T -> bool)
    ensures Filter(a + b, p) == Filter(a, p) + Filter(b, p)
  {
    if |a| == 0 {
      assert a + b == b;
    } else {
      assert (a + b)[1..] == a[1..] + b;
      FilterConcat(a[1..], b, p);
    }
  }

  /** One step of `Filter`: the head is kept exactly when it satisfies `p`. */
  lemma FilterStep<T>(s: seq<T>, p: T -> bool)
    requires |s| > 0
    ensures Filter(s, p) == if p(s[0]) then [s[0]] + Filter(s[1..], p) else Filter(s[1..], p)
  {
  }

  /** `Filter` keeps every copy of a satisfying element and no copy of any
      other: it drops nothing it should keep and duplicates nothing. */
  lemma {:induction false} FilterMultiset<T>(s: seq<T>, p: T -> bool)
    ensures forall x :: multiset(Filter(s, p))[x] == if p(x) then multiset(s)[x] else 0
  {
    if |s| > 0 {
      var t := s[1..];
      FilterStep(s, p);
      FilterMultiset(t, p);
      assert s == [s[0]] + t;
      var kept := if p(s[0]) then [s[0]] else [];
      assert Filter(s, p) == kept + Filter(t, p);
      forall x ensures multiset(Filter(s, p))[x] == if p(x) then multiset(s)[x] else 0 {
        assert multiset(s)[x] == multiset([s[0]])[x] + multiset(t)[x];
        assert multiset(Filter(s, p))[x] == multiset(kept)[x] + multiset(Filter(t, p))[x];
      }
    }
  }

  /** Two kept elements come from two distinct positions `a < b`, in the same order. */
  lemma {:induction false} FilterIndices<T>(s: seq<T>, p: T -> bool, i: int, j: int) returns (a: int, b: int)
    requires 0 <= i < j < |Filter(s, p)|
    ensures 0 <= a < b < |s| && Filter(s, p)[i] == s[a] && Filter(s, p)[j] == s[b]
  {
    var t := s[1..];
    FilterStep(s, p);
    if p(s[0]) && i == 0 {
      var b' := FilterSource(t, p, j - 1);
      a, b := ShiftPair(s, Filter(s, p), Filter(t, p), i, j, -1, b');
    } else if p(s[0]) {
      var a', b' := FilterIndices(t, p, i - 1, j - 1);
      a, b := ShiftPair(s, Filter(s, p), Filter(t, p), i, j, a', b');
    } else {
      var a', b' := FilterIndices(t, p, i, j);
      a, b := ShiftPair(s, Filter(s, p), Filter(t, p), i, j, a', b');
    }
  }

  /** The indices into `s[1..]` found for `rest`, moved to `s`; `a' == -1`
      stands for the head of `s`, kept as `r[0]`. */
  lemma ShiftPair<T>(s: seq<T>, r: seq<T>, rest: seq<T>, i: int, j: int, a': int, b': int) returns (a: int, b: int)
    requires |s| > 0 && 0 <= i < j < |r|
    requires r == [s[0]] + rest || r == rest
    requires -1 <= a' < b' < |s| - 1
    requires r == rest ==> 0 <= a' && rest[i] == s[1..][a'] && rest[j] == s[1..][b']
    requires r != rest ==> (if a' == -1 then i == 0 else 0 < i && rest[i - 1] == s[1..][a']) &&
                           rest[j - 1] == s[1..][b'] && r[0] == s[0]
    ensures 0 <= a < b < |s| && r[i] == s[a] && r[j] == s[b]
  {
    a, b := a' + 1, b' + 1;
  }

  /** A kept element comes from some position of the input. */
  lemma FilterSource<T>(s: seq<T>, p: T -> bool, i: int) returns (a: int)
    requires 0 <= i < |Filter(s, p)|
    ensures 0 <= a < |s| && Filter(s, p)[i] == s[a]
  {
    assert Filter(s, p)[i] in s;
    a :| 0 <= a < |s| && s[a] == Filter(s, p)[i];
  }

  /** A sequence whose elements all satisfy `p` is its own filter. */
  lemma {:induction false} FilterKeepsAll<T>(s: seq<T>, p: T -> bool)
    requires forall k :: 0 <= k < |s| ==> p(s[k])
    ensures Filter(s, p) == s
  {
    if |s| > 0 {
      FilterKeepsAll(s[1..], p);
    }
  }

  /** Replacing one element changes the number of matches by the difference
      the old and new element make. */
  lemma {:induction false} FilterCountUpdate<T>(s: seq<T>, i: int, v: T, p: T -> bool)
    requires 0 <= i < |s|
    ensures |Filter(s[i := v], p)| ==
            |Filter(s, p)| - (if p(s[i]) then 1 else 0) + (if p(v) then 1 else 0)
  {
    if i == 0 {
      assert s[i := v][1..] == s[1..];
    } else {
      assert s[i := v][1..] == s[1..][i - 1 := v];
      FilterCountUpdate(s[1..], i - 1, v, p);
    }
  }

  /** Replacing a dropped element by another dropped one leaves the filter as it was. */
  lemma {:induction false} FilterUpdateDropped<T>(s: seq<T>, i: int, v: T, p: T -> bool)
    requires 0 <= i < |s| && !p(s[i]) && !p(v)
    ensures Filter(s[i := v], p) == Filter(s, p)
  {
    if i == 0 {
      assert s[i := v][1..] == s[1..];
    } else {
      assert s[i := v][1..] == s[1..][i - 1 := v];
      FilterUpdateDropped(s[1..], i - 1, v, p);
    }
  }

  /** Appending one element adds one match exactly when it satisfies `p`. */
  lemma FilterCountAppend<T>(s: seq<T>, x: T, p: T -> bool)
    ensures |Filter(s + [x], p)| == |Filter(s, p)| + (if p(x) then 1 else 0)
  {
    FilterConcat(s, [x], p);
  }

  // ---------------------------------------------------------------------
  // Ordering: the result of an `orderBy` query, up to the order of ties.

  ghost predicate TotalPreorder<T(!new)>(le: (T, T) -> bool)
  {
    && (forall a, b :: le(a, b) || le(b, a))
    && (forall a, b, c :: le(a, b) && le(b, c) ==> le(a, c))
  }

  predicate SortedBy<T>(s: seq<T>, le: (T, T) -> bool)
  {
    forall i, j :: 0 <= i < j < |s| ==> le(s[i], s[j])
  }

  function Insert<T>(x: T, s: seq<T>, le: (T, T) -> bool): (r: seq<T>)
    ensures |r| == |s| + 1
    ensures multiset(r) == multiset(s) + multiset{x}
  {
    if |s| == 0 then [x]
    else if le(x, s[0]) then [x] + s
    else
      assert s == [s[0]] + s[1..];
      [s[0]] + Insert(x, s[1..], le)
  }

  /** Insertion sort: a stable ordering of `s` by `le`. */
  function SortBy<T>(s: seq<T>, le: (T, T) -> bool): (r: seq<T>)
    ensures |r| == |s|
    ensures multiset(r) == multiset(s)
  {
    if |s| == 0 then []
    else
      assert s == [s[0]] + s[1..];
      Insert(s[0], SortBy(s[1..], le), le)
  }

  lemma {:induction false} InsertSorted<T(!new)>(x: T, s: seq<T>, le: (T, T) -> bool)
    requires TotalPreorder(le)
    requires SortedBy(s, le)
    ensures SortedBy(Insert(x, s, le), le)
  {
    if |s| == 0 {
    } else if le(x, s[0]) {
      var r := [x] + s;
      forall i, j | 0 <= i < j < |r| ensures le(r[i], r[j]) {
        if i == 0 && j > 1 {
          assert le(s[0], s[j - 1]);
        }
      }
    } else {
      assert le(s[0], x);
      InsertSorted(x, s[1..], le);
      var tail := Insert(x, s[1..], le);
      var r := [s[0]] + tail;
      assert forall k :: 0 <= k < |s[1..]| ==> le(s[0], s[1..][k]);
      InsertKeepsLowerBound(s[0], x, s[1..], le);
      assert forall i, j :: 0 < i < j < |r| ==> r[i] == tail[i - 1] && r[j] == tail[j - 1];
    }
  }

  /** A lower bound of `x` and of every element of `s` bounds every element
      of the insertion. */
  lemma InsertKeepsLowerBound<T(!new)>(b: T, x: T, s: seq<T>, le: (T, T) -> bool)
    requires le(b, x)
    requires forall k :: 0 <= k < |s| ==> le(b, s[k])
    ensures forall j :: 0 <= j < |Insert(x, s, le)| ==> le(b, Insert(x, s, le)[j])
  {
    var r := Insert(x, s, le);
    forall j | 0 <= j < |r| ensures le(b, r[j]) {
      assert r[j] in multiset(r);
      if r[j] != x {
        assert r[j] in multiset(s);
        var k :| 0 <= k < |s| && s[k] == r[j];
      }
    }
  }

  /** The ordering is a sorted permutation of its input. */
  lemma {:induction false} SortBySorted<T(!new)>(s: seq<T>, le: (T, T) -> bool)
    requires TotalPreorder(le)
    ensures SortedBy(SortBy(s, le), le)
  {
    if |s| > 0 {
      SortBySorted(s[1..], le);
      InsertSorted(s[0], SortBy(s[1..], le), le);
    }
  }
}
