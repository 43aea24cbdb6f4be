/**
 * The relabelling of event types in `read_mimic2`:
 * `m2mid = {m: mid for mid, m in enumerate(np.unique(sum(mark_seqs, [])))}`.
 * The marks of all sequences are pooled, de-duplicated and sorted, and the
 * k-th smallest mark gets id k.
 */
module MarkIds {

  /** `sum(seqs, [])`: the sequences laid end to end. */
  function Flatten(seqs: seq<seq<int>>): (r: seq<int>)
    ensures forall j, i :: 0 <= j < |seqs| && 0 <= i < |seqs[j]| ==> seqs[j][i] in r
  {
    if seqs == [] then [] else seqs[0] + Flatten(seqs[1..])
  }

  /** Every mark that occurs in some sequence. */
  ghost function MarksOf(seqs: seq<seq<int>>): set<int>
  {
    set j, i | 0 <= j < |seqs| && 0 <= i < |seqs[j]| :: seqs[j][i]
  }

  predicate StrictlySorted(u: seq<int>)
  {
    forall i, j :: 0 <= i < j < |u| ==> u[i] < u[j]
  }

  /** `u` with `x` put in its place, unless `x` is already there. */
  function InsertSorted(u: seq<int>, x: int): (r: seq<int>)
    requires StrictlySorted(u)
    ensures StrictlySorted(r)
    ensures forall y :: y in r <==> y in u || y == x
    ensures |r| > 0 && r[0] == if u != [] && u[0] < x then u[0] else x
  {
    if u == [] then [x]
    else if x < u[0] then [x] + u
    else if x == u[0] then u
    else
      var rest := InsertSorted(u[1..], x);
      assert u[0] < rest[0];
      [u[0]] + rest
  }

  /** `np.unique(xs)`: the distinct values of `xs` in ascending order. */
  function Unique(xs: seq<int>): (u: seq<int>)
    ensures StrictlySorted(u)
    ensures forall y :: y in u <==> y in xs
  {
    if xs == [] then []
    else InsertSorted(Unique(xs[..|xs| - 1]), xs[|xs| - 1])
  }

  /**
   * `{m: mid for mid, m in enumerate(u)}`: entries are added in order, and
   * a repeated key would keep its last position.
   */
  function Enumerate(u: seq<int>): (m: map<int, nat>)
    ensures forall x :: x in m <==> x in u
  {
    if u == [] then map[]
    else Enumerate(u[..|u| - 1])[u[|u| - 1] := |u| - 1]
  }

  /** `m2mid` for the marks of `markSeqs`. */
  function MarkMap(markSeqs: seq<seq<int>>): (ids: map<int, nat>)
    ensures forall j, i :: 0 <= j < |markSeqs| && 0 <= i < |markSeqs[j]| ==> markSeqs[j][i] in ids
    ensures forall m :: m in ids ==> m in Flatten(markSeqs)
  {
    Enumerate(Unique(Flatten(markSeqs)))
  }

  // ---------------------------------------------------------------------
  // Lemmas

  lemma {:induction false} FlattenMembers(seqs: seq<seq<int>>)
    ensures forall x :: x in Flatten(seqs) <==> x in MarksOf(seqs)
  {
    if seqs != [] {
      FlattenMembers(seqs[1..]);
      forall x
        ensures x in Flatten(seqs) <==> x in MarksOf(seqs)
      {
        if x in seqs[0] {
          var i :| 0 <= i < |seqs[0]| && seqs[0][i] == x;
          assert seqs[0][i] in MarksOf(seqs);
        }
        if x in MarksOf(seqs[1..]) {
          var j, i :| 0 <= j < |seqs| - 1 && 0 <= i < |seqs[1..][j]| && seqs[1..][j][i] == x;
          assert seqs[j + 1][i] in MarksOf(seqs);
        }
        if x in MarksOf(seqs) {
          var j, i :| 0 <= j < |seqs| && 0 <= i < |seqs[j]| && seqs[j][i] == x;
          if j > 0 {
            assert seqs[1..][j - 1][i] in MarksOf(seqs[1..]);
          }
        }
      }
    }
  }

  /** In a list without repeats, the position of an element is also its id. */
  lemma {:induction false} EnumerateAt(u: seq<int>, i: nat)
    requires StrictlySorted(u)
    requires i < |u|
    ensures Enumerate(u)[u[i]] == i
  {
    if i < |u| - 1 {
      EnumerateAt(u[..|u| - 1], i);
    }
  }

  /** A list without repeats has as many elements as distinct values. */
  lemma {:induction false} DistinctCount(u: seq<int>)
    requires StrictlySorted(u)
    ensures |set x | x in u| == |u|
  {
    if u != [] {
      var p := u[..|u| - 1];
      DistinctCount(p);
      assert (set x | x in u) == (set x | x in p) + {u[|u| - 1]};
      assert u[|u| - 1] !in p;
    }
  }

  /** Dropping the head of an ascending repeat-free list drops exactly that value. */
  lemma TailMembers(a: seq<int>)
    requires StrictlySorted(a) && a != []
    ensures forall x :: x in a[1..] <==> x in a && x != a[0]
  {
    forall x | x in a && x != a[0]
      ensures x in a[1..]
    {
      var k :| 0 <= k < |a| && a[k] == x;
      assert a[1..][k - 1] == x;
    }
  }

  lemma SameLength(a: seq<int>, b: seq<int>)
    requires StrictlySorted(a) && StrictlySorted(b)
    requires forall x :: x in a <==> x in b
    ensures |a| == |b|
  {
    DistinctCount(a);
    DistinctCount(b);
    assert (set x | x in a) == (set x | x in b);
  }

  /** The sorted distinct values of a set are unique: two such lists are equal. */
  lemma {:induction false} SortedDistinctUnique(a: seq<int>, b: seq<int>)
    requires StrictlySorted(a) && StrictlySorted(b)
    requires forall x :: x in a <==> x in b
    ensures a == b
  {
    SameLength(a, b);
    if a != [] {
      assert a[0] in a && b[0] in b;
      var k :| 0 <= k < |b| && b[k] == a[0];
      var m :| 0 <= m < |a| && a[m] == b[0];
      assert a[0] <= a[m] && b[0] <= b[k];
      TailMembers(a);
      TailMembers(b);
      SortedDistinctUnique(a[1..], b[1..]);
      assert a == [a[0]] + a[1..] && b == [b[0]] + b[1..];
    }
  }

  /** Every mark of every sequence, and nothing else, has an id: each lookup `m2mid[mark]` succeeds. */
  lemma MarkMapDomain(markSeqs: seq<seq<int>>)
    ensures MarkMap(markSeqs).Keys == MarksOf(markSeqs)
  {
    FlattenMembers(markSeqs);
    var u := Unique(Flatten(markSeqs));
    assert forall x :: x in MarkMap(markSeqs) <==> x in u;
  }

  /** `np.unique` lists each distinct mark once, so there are as many of them as distinct marks. */
  lemma UniqueCount(markSeqs: seq<seq<int>>)
    ensures |Unique(Flatten(markSeqs))| == |MarksOf(markSeqs)|
  {
    var u := Unique(Flatten(markSeqs));
    FlattenMembers(markSeqs);
    DistinctCount(u);
    assert (set x | x in u) == MarksOf(markSeqs);
  }

  /** In an ascending repeat-free list, exactly i values are smaller than the one at position i. */
  lemma RankInSorted(u: seq<int>, i: nat)
    requires StrictlySorted(u)
    requires i < |u|
    ensures |set x | x in u && x < u[i]| == i
  {
    var p := u[..i];
    assert StrictlySorted(p);
    DistinctCount(p);
    forall x | x in u && x < u[i]
      ensures x in p
    {
      var k :| 0 <= k < |u| && u[k] == x;
      assert k < i;
    }
    assert (set x | x in u && x < u[i]) == (set x | x in p);
  }

  /** The id of a mark is its rank: the number of distinct marks smaller than it. */
  lemma MarkMapIsRank(markSeqs: seq<seq<int>>, m: int)
    requires m in MarksOf(markSeqs)
    ensures m in MarkMap(markSeqs)
    ensures MarkMap(markSeqs)[m] == |set x | x in MarksOf(markSeqs) && x < m|
  {
    var u := Unique(Flatten(markSeqs));
    FlattenMembers(markSeqs);
    var i :| 0 <= i < |u| && u[i] == m;
    EnumerateAt(u, i);
    RankInSorted(u, i);
    assert (set x | x in MarksOf(markSeqs) && x < m) == (set x | x in u && x < m);
  }

  /** Ids preserve the order of marks, in both directions. */
  lemma MarkMapOrder(markSeqs: seq<seq<int>>, m1: int, m2: int)
    requires m1 in MarksOf(markSeqs) && m2 in MarksOf(markSeqs)
    ensures m1 in MarkMap(markSeqs) && m2 in MarkMap(markSeqs)
    ensures m1 < m2 <==> MarkMap(markSeqs)[m1] < MarkMap(markSeqs)[m2]
  {
    var u := Unique(Flatten(markSeqs));
    FlattenMembers(markSeqs);
    var i :| 0 <= i < |u| && u[i] == m1;
    var j :| 0 <= j < |u| && u[j] == m2;
    EnumerateAt(u, i);
    EnumerateAt(u, j);
  }

  /**
   * The relabelling is a bijection from the distinct marks onto `0..k-1`,
   * where k is the number of distinct marks.
   */
  lemma MarkMapBijective(markSeqs: seq<seq<int>>)
    ensures MarkMap(markSeqs).Keys == MarksOf(markSeqs)
    ensures forall k :: k in MarkMap(markSeqs).Values <==> 0 <= k < |MarksOf(markSeqs)|
    ensures forall m1, m2 :: m1 in MarkMap(markSeqs) && m2 in MarkMap(markSeqs) && m1 != m2 ==>
              MarkMap(markSeqs)[m1] != MarkMap(markSeqs)[m2]
  {
    MarkMapDomain(markSeqs);
    MarkMapOnto(markSeqs);
    MarkMapInjective(markSeqs);
  }

  lemma MarkMapOnto(markSeqs: seq<seq<int>>)
    ensures forall k :: k in MarkMap(markSeqs).Values <==> 0 <= k < |MarksOf(markSeqs)|
  {
    var ids := MarkMap(markSeqs);
    var u := Unique(Flatten(markSeqs));
    UniqueCount(markSeqs);
    forall k | k in ids.Values
      ensures k < |u|
    {
      var m :| m in ids && ids[m] == k;
      var i :| 0 <= i < |u| && u[i] == m;
      EnumerateAt(u, i);
    }
    forall k: nat | k < |u|
      ensures k in ids.Values
    {
      EnumerateAt(u, k);
      assert ids[u[k]] == k;
    }
  }

  lemma MarkMapInjective(markSeqs: seq<seq<int>>)
    ensures forall m1, m2 :: m1 in MarkMap(markSeqs) && m2 in MarkMap(markSeqs) && m1 != m2 ==>
              MarkMap(markSeqs)[m1] != MarkMap(markSeqs)[m2]
  {
    var ids := MarkMap(markSeqs);
    MarkMapDomain(markSeqs);
    forall m1, m2 | m1 in ids && m2 in ids && m1 != m2
      ensures ids[m1] != ids[m2]
    {
      MarkMapOrder(markSeqs, m1, m2);
      MarkMapOrder(markSeqs, m2, m1);
    }
  }

  /** `np.unique` is the one ascending, repeat-free listing of the marks. */
  lemma UniqueIsCanonical(xs: seq<int>, u: seq<int>)
    requires StrictlySorted(u)
    requires forall y :: y in u <==> y in xs
    ensures Unique(xs) == u
  {
    SortedDistinctUnique(Unique(xs), u);
  }
}
