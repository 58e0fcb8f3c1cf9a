/** Tables as sequences of rows in primary-key order, and the two query shapes
    the repositories use over them: the first row satisfying a condition, and
    every row satisfying a condition, in table order. */
module Rows {
  import opened Outcomes

  /** Position of the first row satisfying `p`. */
  function IndexWhere<T>(s: seq<T>, p: T -> bool): (r: Option<nat>)
    ensures r.Some? ==> r.value < |s| && p(s[r.value])
    ensures r.Some? ==> forall j :: 0 <= j < r.value ==> !p(s[j])
    ensures r.None? <==> forall j :: 0 <= j < |s| ==> !p(s[j])
  {
    if |s| == 0 then None
    else if p(s[0]) then Some(0)
    else match IndexWhere(s[1..], p)
      case None => None
      case Some(k) => Some(k + 1)
  }

  /** The first row satisfying `p`, if any. */
  function Find<T>(s: seq<T>, p: T -> bool): (r: Option<T>)
    ensures r.Some? ==> r.value in s && p(r.value)
    ensures r.None? <==> forall x :: x in s ==> !p(x)
  {
    match IndexWhere(s, p)
    case None => None
    case Some(i) => Some(s[i])
  }

  /** Every row satisfying `p`, in table order: each matching row as often as
      the table holds it, and no other row. */
  function Filter<T(==)>(s: seq<T>, p: T -> bool): (r: seq<T>)
    ensures |r| <= |s|
    ensures forall x :: x in r ==> x in s && p(x)
    ensures forall x :: x in s && p(x) ==> x in r
    ensures forall x | x in s :: multiset(r)[x] == (if p(x) then multiset(s)[x] else 0)
  {
    if |s| == 0 then []
    else
      assert s == [s[0]] + s[1..];
      (if p(s[0]) then [s[0]] else []) + Filter(s[1..], p)
  }

  /** The table with one row taken out. */
  function RemoveAt<T>(s: seq<T>, i: nat): (r: seq<T>)
    requires i < |s|
    ensures |r| == |s| - 1
    ensures forall j :: 0 <= j < i ==> r[j] == s[j]
    ensures forall j :: i <= j < |r| ==> r[j] == s[j + 1]
  {
    s[..i] + s[i + 1..]
  }

  /** Filtering by a condition and then by a stronger one is filtering by the
      stronger one alone: a narrower query returns the wider query's rows,
      further narrowed, in the same order. */
  lemma {:induction false} FilterNarrows<T>(s: seq<T>, p: T -> bool, q: T -> bool)
    requires forall x :: q(x) ==> p(x)
    ensures Filter(Filter(s, p), q) == Filter(s, q)
    decreases |s|
  {
    if |s| > 0 {
      FilterNarrows(s[1..], p, q);
      FilterAppend((if p(s[0]) then [s[0]] else []), Filter(s[1..], p), q);
    }
  }

  lemma {:induction false} FilterAppend<T>(a: seq<T>, b: seq<T>, q: T -> bool)
    ensures Filter(a + b, q) == Filter(a, q) + Filter(b, q)
    decreases |a|
  {
    if |a| == 0 {
      assert a + b == b;
    } else {
      assert (a + b)[0] == a[0];
      assert (a + b)[1..] == a[1..] + b;
      FilterAppend(a[1..], b, q);
    }
  }

  /** The answer keeps table order: the matches among the first `i` rows come
      before the matches among the rest. */
  lemma FilterKeepsOrder<T>(s: seq<T>, p: T -> bool, i: nat)
    requires i <= |s|
    ensures Filter(s, p) == Filter(s[..i], p) + Filter(s[i..], p)
  {
    assert s == s[..i] + s[i..];
    FilterAppend(s[..i], s[i..], p);
  }

  /** A position holding a match with no match before it is the first match. */
  lemma {:induction false} FirstMatch<T>(s: seq<T>, p: T -> bool, k: nat)
    requires k < |s| && p(s[k])
    requires forall j :: 0 <= j < k ==> !p(s[j])
    ensures IndexWhere(s, p) == Some(k)
    decreases k
  {
    if k > 0 {
      assert !p(s[0]);
      FirstMatch(s[1..], p, k - 1);
    }
  }

  /** At most one row satisfies `p`. */
  predicate AtMostOne<T>(s: seq<T>, p: T -> bool) {
    forall i, j :: 0 <= i < j < |s| && p(s[i]) ==> !p(s[j])
  }

  /** When at most one row can match, the row found is that row. */
  lemma FindOnly<T>(s: seq<T>, p: T -> bool, x: T)
    requires AtMostOne(s, p)
    requires x in s && p(x)
    ensures Find(s, p) == Some(x)
  {
    var i :| 0 <= i < |s| && s[i] == x;
    FirstMatch(s, p, i);
  }

  /** Replacing a row that does not match by one that does not match leaves the
      first match where it was. */
  lemma FindAfterReplace<T>(s: seq<T>, i: nat, x: T, p: T -> bool)
    requires i < |s|
    requires !p(s[i]) && !p(x)
    ensures Find(s[i := x], p) == Find(s, p)
  {
    var t := s[i := x];
    var b := IndexWhere(s, p);
    if b.Some? {
      FirstMatch(t, p, b.value);
    } else {
      assert forall j :: 0 <= j < |t| ==> !p(t[j]);
    }
  }

  /** Removing a row that does not match does not change which row is found. */
  lemma FindAfterRemove<T>(s: seq<T>, i: nat, p: T -> bool)
    requires i < |s|
    requires !p(s[i])
    ensures Find(RemoveAt(s, i), p) == Find(s, p)
  {
    var t := RemoveAt(s, i);
    var b := IndexWhere(s, p);
    if b.Some? {
      var k := if b.value < i then b.value else b.value - 1;
      assert t[k] == s[b.value];
      forall j | 0 <= j < k
        ensures !p(t[j])
      {
        if j < i { assert t[j] == s[j]; } else { assert t[j] == s[j + 1]; }
      }
      FirstMatch(t, p, k);
    } else {
      forall j | 0 <= j < |t|
        ensures !p(t[j])
      {
        if j < i { assert t[j] == s[j]; } else { assert t[j] == s[j + 1]; }
      }
    }
  }

  /** Appending a row: the old first match stays, otherwise the new row is it. */
  lemma FindAfterAppend<T>(s: seq<T>, x: T, p: T -> bool)
    ensures Find(s + [x], p) == (if Find(s, p).Some? then Find(s, p) else if p(x) then Some(x) else None)
  {
    var t := s + [x];
    var b := IndexWhere(s, p);
    if b.Some? {
      assert t[b.value] == s[b.value];
      FirstMatch(t, p, b.value);
    } else if p(x) {
      FirstMatch(t, p, |s|);
    } else {
      assert forall j :: 0 <= j < |t| ==> !p(t[j]);
    }
  }
}
