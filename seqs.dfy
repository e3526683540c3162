/** Sequence operations that the route handlers use the way JavaScript uses
    Array.prototype.findIndex, splice, filter and a sort-and-limit query. */
module Seqs {

  /** The index of the first element satisfying `p`, or -1 when there is none
      (JavaScript's findIndex, and the "first match in natural order" of a
      document-store findOne). */
  function FindIndex<T>(s: seq<T>, p: T -> bool): (k: int)
    ensures -1 <= k < |s|
    ensures k >= 0 ==> p(s[k]) && forall i :: 0 <= i < k ==> !p(s[i])
    ensures k == -1 <==> forall i :: 0 <= i < |s| ==> !p(s[i])
  {
    if s == [] then -1
    else if p(s[0]) then 0
    else
      var k := FindIndex(s[1..], p);
      if k == -1 then -1 else k + 1
  }

  /** `s.splice(k, 1)`: drops the element at index k and keeps the order of the rest. */
  function RemoveAt<T>(s: seq<T>, k: nat): (r: seq<T>)
    requires k < |s|
    ensures |r| == |s| - 1
    ensures forall i :: 0 <= i < k ==> r[i] == s[i]
    ensures forall i :: k <= i < |r| ==> r[i] == s[i + 1]
    ensures multiset(r) + multiset{s[k]} == multiset(s)
  {
    assert s == s[..k] + [s[k]] + s[k + 1..];
    s[..k] + s[k + 1..]
  }

  /** The elements of `s` that satisfy `p`, in their original order
      (JavaScript's filter, and a document-store find with a condition). */
  function Filter<T>(s: seq<T>, p: T -> bool): (r: seq<T>)
    ensures |r| <= |s|
    ensures forall i :: 0 <= i < |r| ==> p(r[i]) && r[i] in s
    ensures forall i :: 0 <= i < |s| && p(s[i]) ==> s[i] in r
  {
    if s == [] then []
    else (if p(s[0]) then [s[0]] else []) + Filter(s[1..], p)
  }

  /** A filter that every element passes keeps the whole sequence. */
  lemma {:induction false} FilterKeepsAll<T>(s: seq<T>, p: T -> bool)
    requires forall i :: 0 <= i < |s| ==> p(s[i])
    ensures Filter(s, p) == s
  {
    if s != [] {
      FilterKeepsAll(s[1..], p);
    }
  }

  /** Filtering distributes over concatenation. */
  lemma {:induction false} FilterAppend<T>(s: seq<T>, t: seq<T>, p: T -> bool)
    ensures Filter(s + t, p) == Filter(s, p) + Filter(t, p)
  {
    if s == [] {
      assert s + t == t;
    } else {
      assert (s + t)[1..] == s[1..] + t;
      FilterAppend(s[1..], t, p);
    }
  }

  /** The positions of `s` whose element passes the test. */
  function Positions<T>(s: seq<T>, p: T -> bool): set<nat>
  {
    set i: nat | i < |s| && p(s[i])
  }

  /** A filter keeps as many elements as there are positions whose element
      passes the test. */
  lemma FilterCounts<T>(s: seq<T>, p: T -> bool)
    ensures |Filter(s, p)| == |Positions(s, p)|
  {
    assert Positions(s, p) == set i | 0 <= i < |s| && p(s[i]);
    FilterCountsPrefix(s, p, |s|);
    assert s[..|s|] == s;
  }

  lemma {:induction false} FilterCountsPrefix<T>(s: seq<T>, p: T -> bool, n: nat)
    requires n <= |s|
    ensures |Filter(s[..n], p)| == |set i | 0 <= i < n && p(s[i])|
    decreases n
  {
    if n == 0 {
      assert s[..0] == [];
    } else {
      FilterCountsPrefix(s, p, n - 1);
      assert s[..n] == s[..n - 1] + [s[n - 1]];
      FilterAppend(s[..n - 1], [s[n - 1]], p);
      FilterOne(s[n - 1], p);
      PositionsStep(s, p, n);
    }
  }

  lemma FilterOne<T>(x: T, p: T -> bool)
    ensures Filter([x], p) == if p(x) then [x] else []
  {
    assert [x][1..] == [];
  }

  /** The passing positions below n are those below n - 1, plus n - 1 when
      its element passes. */
  lemma PositionsStep<T>(s: seq<T>, p: T -> bool, n: nat)
    requires 0 < n <= |s|
    ensures |set i | 0 <= i < n && p(s[i])|
            == |set i | 0 <= i < n - 1 && p(s[i])| + (if p(s[n - 1]) then 1 else 0)
  {
    var before := set i | 0 <= i < n - 1 && p(s[i]);
    var after := set i | 0 <= i < n && p(s[i]);
    if p(s[n - 1]) {
      assert after == before + {n - 1};
      assert n - 1 !in before;
    } else {
      assert after == before;
    }
  }

  /** The records of `s` newest first, at most `limit` of them: `s` holds the
      records in the order they were created, so this is a sort on the
      creation time, descending, followed by a limit. */
  function Newest<T>(s: seq<T>, limit: nat): (r: seq<T>)
    ensures |r| == if |s| < limit then |s| else limit
    ensures forall i :: 0 <= i < |r| ==> r[i] == s[|s| - 1 - i]
  {
    if limit == 0 || s == [] then []
    else [s[|s| - 1]] + Newest(s[..|s| - 1], limit - 1)
  }
}
