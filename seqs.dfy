/**
  Order-preserving operations on sequences: the boolean-mask selection of a
  table (`table[table[col] == x]`) and the first-appearance de-duplication of
  `Series.unique()` and of the keys of a dictionary filled by `append`.
 */
module Seqs {

  /** The elements of `s` that satisfy `p`, in their original order. */
  function Filter<T>(s: seq<T>, p: T -> bool): (r: seq<T>)
    ensures |r| <= |s|
    ensures forall k :: 0 <= k < |r| ==> r[k] in s && p(r[k])
  {
    if s == [] then []
    else Filter(s[..|s| - 1], p) + (if p(s[|s| - 1]) then [s[|s| - 1]] else [])
  }

  lemma FilterSnoc<T>(s: seq<T>, x: T, p: T -> bool)
    ensures Filter(s + [x], p) == Filter(s, p) + (if p(x) then [x] else [])
  {
    assert (s + [x])[..|s|] == s;
  }

  /** The selection is empty exactly when no element satisfies `p`. */
  lemma {:induction false} FilterEmpty<T>(s: seq<T>, p: T -> bool)
    ensures Filter(s, p) == [] <==> forall i :: 0 <= i < |s| ==> !p(s[i])
  {
    if s != [] {
      var n := |s| - 1;
      FilterEmpty(s[..n], p);
      if Filter(s, p) == [] {
        forall i | 0 <= i < |s| ensures !p(s[i]) {
          if i < n { assert s[i] == s[..n][i]; }
        }
      } else if forall i :: 0 <= i < |s| ==> !p(s[i]) {
        assert !p(s[n]);
        forall i | 0 <= i < n ensures !p(s[..n][i]) { assert s[..n][i] == s[i]; }
      }
    }
  }

  /** Nothing that satisfies `p` is dropped. */
  lemma {:induction false} FilterComplete<T>(s: seq<T>, p: T -> bool, i: nat)
    requires i < |s| && p(s[i])
    ensures s[i] in Filter(s, p)
  {
    var n := |s| - 1;
    if i < n {
      assert s[..n][i] == s[i];
      FilterComplete(s[..n], p, i);
    }
  }

  /** `selection.values[0]` is the first element of `s` that satisfies `p`. */
  lemma {:induction false} FilterHeadIsFirst<T>(s: seq<T>, p: T -> bool, i: nat)
    requires i < |s| && p(s[i])
    requires forall j :: 0 <= j < i ==> !p(s[j])
    ensures Filter(s, p) != [] && Filter(s, p)[0] == s[i]
  {
    var n := |s| - 1;
    if i < n {
      assert s[..n][i] == s[i];
      forall j | 0 <= j < i ensures !p(s[..n][j]) { assert s[..n][j] == s[j]; }
      FilterHeadIsFirst(s[..n], p, i);
    } else {
      forall j | 0 <= j < n ensures !p(s[..n][j]) { assert s[..n][j] == s[j]; }
      FilterEmpty(s[..n], p);
    }
  }

  /** Selecting by `p` and then by `q` is selecting by both at once. */
  lemma {:induction false} FilterFilter<T>(s: seq<T>, p: T -> bool, q: T -> bool, pq: T -> bool)
    requires forall x :: pq(x) == (p(x) && q(x))
    ensures Filter(Filter(s, p), q) == Filter(s, pq)
  {
    if s != [] {
      var n := |s| - 1;
      FilterFilter(s[..n], p, q, pq);
      if p(s[n]) {
        FilterSnoc(Filter(s[..n], p), s[n], q);
      } else {
        // the last element is in neither selection
        assert !pq(s[n]);
        assert Filter(s, p) == Filter(s[..n], p) + [] == Filter(s[..n], p);
        assert Filter(s, pq) == Filter(s[..n], pq) + [] == Filter(s[..n], pq);
      }
    }
  }

  predicate NoDuplicates<T(==)>(s: seq<T>) {
    forall i, j :: 0 <= i < j < |s| ==> s[i] != s[j]
  }

  /**
    The distinct elements of `s` in order of first appearance; the order in
    which `unique()` lists values and a dictionary lists its keys.
   */
  function Distinct<T(==)>(s: seq<T>): (r: seq<T>)
    ensures NoDuplicates(r)
    ensures forall i :: 0 <= i < |s| ==> s[i] in r
    ensures forall k :: 0 <= k < |r| ==> r[k] in s
  {
    if s == [] then []
    else
      var d := Distinct(s[..|s| - 1]);
      assert forall i :: 0 <= i < |s| - 1 ==> s[i] == s[..|s| - 1][i];
      if s[|s| - 1] in d then d else d + [s[|s| - 1]]
  }

  /** The index of the first occurrence of `x` in `s`. */
  function FirstIndex<T(==)>(s: seq<T>, x: T): (i: nat)
    requires x in s
    ensures i < |s| && s[i] == x
    ensures forall j :: 0 <= j < i ==> s[j] != x
  {
    if s[0] == x then 0
    else
      var i := 1 + FirstIndex(s[1..], x);
      assert forall j :: 1 <= j < i ==> s[j] == s[1..][j - 1];
      i
  }

  lemma FirstIndexUnique<T>(s: seq<T>, x: T, i: nat)
    requires i < |s| && s[i] == x
    requires forall j :: 0 <= j < i ==> s[j] != x
    ensures FirstIndex(s, x) == i
  {
  }

  lemma FirstIndexSnoc<T>(s: seq<T>, x: T, y: T)
    requires y in s
    ensures FirstIndex(s + [x], y) == FirstIndex(s, y)
  {
    var i := FirstIndex(s, y);
    assert forall j :: 0 <= j <= i ==> (s + [x])[j] == s[j];
    FirstIndexUnique(s + [x], y, i);
  }

  lemma FirstIndexNew<T>(s: seq<T>, x: T)
    requires x !in s
    ensures FirstIndex(s + [x], x) == |s|
  {
    assert forall j :: 0 <= j < |s| ==> (s + [x])[j] == s[j];
    FirstIndexUnique(s + [x], x, |s|);
  }

  /** The distinct values come out ordered by the index of their first occurrence. */
  lemma {:induction false} DistinctOrder<T>(s: seq<T>, a: nat, b: nat)
    requires a < b < |Distinct(s)|
    ensures FirstIndex(s, Distinct(s)[a]) < FirstIndex(s, Distinct(s)[b])
  {
    var front, x := s[..|s| - 1], s[|s| - 1];
    var d := Distinct(front);
    assert s == front + [x];
    assert Distinct(s)[a] == d[a] && d[a] in front;
    FirstIndexSnoc(front, x, d[a]);
    if b < |d| {
      assert Distinct(s)[b] == d[b] && d[b] in front;
      DistinctOrder(front, a, b);
      FirstIndexSnoc(front, x, d[b]);
    } else {
      assert Distinct(s)[b] == x && x !in d;
      forall j | 0 <= j < |front| ensures front[j] != x {
        assert front[j] in d;
      }
      FirstIndexNew(front, x);
    }
  }

  lemma DistinctSnoc<T>(s: seq<T>, x: T)
    ensures Distinct(s + [x]) == if x in Distinct(s) then Distinct(s) else Distinct(s) + [x]
  {
    assert (s + [x])[..|s|] == s;
  }
}
