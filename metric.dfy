/** `ef_score`: validate labels, scores and fractions, pair each label with
    its score, sort the pairs by score (stably, ascending by default) and
    hand the sorted list to the enrichment routine. */
module Metric {
  import opened Wrappers

  /** A `(label, score)` tuple from `zip(label_list, score_list)`. */
  type LabeledScore = (int, real)

  /** The three failed assertions, in the order they are checked. */
  datatype EfError = LengthMismatch | NoFractions | NonBinaryLabel

  /** rdkit's `CalcEnrichment(sorted_pairs, 0, fraction_list)`; what it
      computes is not part of this model. */
  type Enrichment = (seq<LabeledScore>, seq<real>) -> seq<real>

  /** `all([v in [0,1] for v in label_list])`. */
  predicate AllBinary(labels: seq<int>) {
    forall i :: 0 <= i < |labels| ==> labels[i] == 0 || labels[i] == 1
  }

  /** `list(zip(labels, scores))` for lists of equal length. */
  function Zip(labels: seq<int>, scores: seq<real>): (pairs: seq<LabeledScore>)
    requires |labels| == |scores|
    ensures |pairs| == |labels|
    ensures forall i :: 0 <= i < |pairs| ==> pairs[i].0 == labels[i] && pairs[i].1 == scores[i]
  {
    if labels == [] then [] else [(labels[0], scores[0])] + Zip(labels[1..], scores[1..])
  }

  /** Score `a` may stand before score `b` in `sorted(..., reverse=descending)`. */
  predicate InOrder(a: real, b: real, descending: bool) {
    if descending then a >= b else a <= b
  }

  /** Every pair stands in order with every later pair. */
  predicate Sorted(s: seq<LabeledScore>, descending: bool) {
    forall i, j :: 0 <= i < j < |s| ==> InOrder(s[i].1, s[j].1, descending)
  }

  /** Puts `x` before the first pair it may precede, so ahead of every pair
      with the same score. */
  function Insert(x: LabeledScore, s: seq<LabeledScore>, descending: bool): seq<LabeledScore> {
    if s == [] then [x]
    else if InOrder(x.1, s[0].1, descending) then [x] + s
    else [s[0]] + Insert(x, s[1..], descending)
  }

  /** `sorted(pairs, key=lambda pair: pair[1], reverse=descending)`: Python's
      sort is stable in both directions, which inserting each pair ahead of
      the equal-scored pairs that follow it in the input reproduces. */
  function SortByScore(s: seq<LabeledScore>, descending: bool): seq<LabeledScore> {
    if s == [] then [] else Insert(s[0], SortByScore(s[1..], descending), descending)
  }

  /** The pairs of `s` whose score is `v`, in their order in `s`. */
  function WithScore(s: seq<LabeledScore>, v: real): seq<LabeledScore> {
    if s == [] then []
    else (if s[0].1 == v then [s[0]] else []) + WithScore(s[1..], v)
  }

  /** Inserting adds exactly `x`. */
  lemma {:induction false} InsertPermutes(x: LabeledScore, s: seq<LabeledScore>, descending: bool)
    ensures multiset(Insert(x, s, descending)) == multiset(s) + multiset{x}
  {
    if s != [] && !InOrder(x.1, s[0].1, descending) {
      InsertPermutes(x, s[1..], descending);
      assert Insert(x, s, descending) == [s[0]] + Insert(x, s[1..], descending);
      assert s == [s[0]] + s[1..];
    }
  }

  /** Inserting into a sorted list keeps it sorted. */
  lemma {:induction false} InsertSorted(x: LabeledScore, s: seq<LabeledScore>, descending: bool)
    requires Sorted(s, descending)
    ensures Sorted(Insert(x, s, descending), descending)
  {
    if s != [] && !InOrder(x.1, s[0].1, descending) {
      var r := Insert(x, s[1..], descending);
      InsertSorted(x, s[1..], descending);
      InsertPermutes(x, s[1..], descending);
      forall k | 0 <= k < |r|
        ensures InOrder(s[0].1, r[k].1, descending)
      {
        assert r[k] in multiset(r);
        if r[k] != x {
          assert r[k] in multiset(s[1..]);
          var j :| 0 <= j < |s[1..]| && s[1..][j] == r[k];
          assert s[j + 1] == r[k];
        }
      }
      SortedCons(s[0], r, descending);
      assert Insert(x, s, descending) == [s[0]] + r;
    }
  }

  /** A pair in order with every pair of a sorted list may go in front of it. */
  lemma SortedCons(y: LabeledScore, r: seq<LabeledScore>, descending: bool)
    requires Sorted(r, descending)
    requires forall k :: 0 <= k < |r| ==> InOrder(y.1, r[k].1, descending)
    ensures Sorted([y] + r, descending)
  {
    var t := [y] + r;
    forall i, j | 0 <= i < j < |t|
      ensures InOrder(t[i].1, t[j].1, descending)
    {
      assert t[j] == r[j - 1];
      if i > 0 {
        assert t[i] == r[i - 1];
      }
    }
  }

  /** Inserting `x` puts it ahead of the pairs with its score and leaves the
      order among every other score's pairs alone. */
  lemma {:induction false} InsertWithScore(x: LabeledScore, s: seq<LabeledScore>, descending: bool, v: real)
    ensures WithScore(Insert(x, s, descending), v) == (if x.1 == v then [x] else []) + WithScore(s, v)
  {
    if s == [] {
    } else if InOrder(x.1, s[0].1, descending) {
      assert ([x] + s)[1..] == s;
    } else {
      InsertWithScore(x, s[1..], descending, v);
      var r := Insert(x, s[1..], descending);
      var head := if s[0].1 == v then [s[0]] else [];
      var mine := if x.1 == v then [x] else [];
      assert Insert(x, s, descending) == [s[0]] + r;
      assert ([s[0]] + r)[1..] == r;
      assert WithScore([s[0]] + r, v) == head + WithScore(r, v);
      assert WithScore(s, v) == head + WithScore(s[1..], v);
      assert x.1 != s[0].1;
      assert head == [] || mine == [];
      assert head + (mine + WithScore(s[1..], v)) == mine + (head + WithScore(s[1..], v));
    }
  }

  /** The sorted list is ordered by score in the requested direction and is a
      permutation of the input. */
  lemma {:induction false} SortSortsAndPermutes(s: seq<LabeledScore>, descending: bool)
    ensures Sorted(SortByScore(s, descending), descending)
    ensures multiset(SortByScore(s, descending)) == multiset(s)
  {
    if s != [] {
      SortSortsAndPermutes(s[1..], descending);
      InsertSorted(s[0], SortByScore(s[1..], descending), descending);
      InsertPermutes(s[0], SortByScore(s[1..], descending), descending);
      assert s == [s[0]] + s[1..];
    }
  }

  /** The sort is stable: for every score, the pairs with that score come
      out in the order they went in, ascending or descending alike. */
  lemma {:induction false} SortIsStable(s: seq<LabeledScore>, descending: bool, v: real)
    ensures WithScore(SortByScore(s, descending), v) == WithScore(s, v)
  {
    if s != [] {
      SortIsStable(s[1..], descending, v);
      InsertWithScore(s[0], SortByScore(s[1..], descending), descending, v);
    }
  }

  /** What the enrichment routine is handed: the zipped pairs, sorted by
      score in the direction `sort_flag` asks for, stably, with every label
      still paired with its own score. */
  lemma SortedPairs(labels: seq<int>, scores: seq<real>, sortFlag: bool)
    requires |labels| == |scores|
    ensures var p := SortByScore(Zip(labels, scores), sortFlag);
            && |p| == |labels|
            && Sorted(p, sortFlag)
            && multiset(p) == multiset(Zip(labels, scores))
            && (forall v :: WithScore(p, v) == WithScore(Zip(labels, scores), v))
            && (forall k :: 0 <= k < |p| ==>
                  exists i :: 0 <= i < |labels| && p[k].0 == labels[i] && p[k].1 == scores[i])
  {
    var z := Zip(labels, scores);
    var p := SortByScore(z, sortFlag);
    SortSortsAndPermutes(z, sortFlag);
    assert |p| == |multiset(p)| == |multiset(z)| == |z|;
    forall v
      ensures WithScore(p, v) == WithScore(z, v)
    {
      SortIsStable(z, sortFlag, v);
    }
    PairsFromInput(labels, scores, p);
  }

  /** A rearrangement of the zipped pairs pairs each label with its own score. */
  lemma PairsFromInput(labels: seq<int>, scores: seq<real>, p: seq<LabeledScore>)
    requires |labels| == |scores| && multiset(p) == multiset(Zip(labels, scores))
    ensures forall k :: 0 <= k < |p| ==>
              exists i :: 0 <= i < |labels| && p[k].0 == labels[i] && p[k].1 == scores[i]
  {
    var z := Zip(labels, scores);
    forall k | 0 <= k < |p|
      ensures exists i :: 0 <= i < |labels| && p[k].0 == labels[i] && p[k].1 == scores[i]
    {
      assert p[k] in multiset(z);
      var i :| 0 <= i < |z| && z[i] == p[k];
      assert p[k].0 == labels[i] && p[k].1 == scores[i];
    }
  }

  /** `ef_score(label_list, score_list, fraction_list, sort_flag=False)`. */
  function EfScore(labels: seq<int>, scores: seq<real>, fractions: seq<real>,
                   enrichment: Enrichment, sortFlag: bool := false): (r: Result<seq<real>, EfError>)
    ensures r.Ok? <==> |labels| == |scores| && |fractions| > 0 && AllBinary(labels)
    ensures r == Err(LengthMismatch) <==> |labels| != |scores|
    ensures r == Err(NoFractions) <==> |labels| == |scores| && |fractions| == 0
    ensures r == Err(NonBinaryLabel) <==> |labels| == |scores| && |fractions| > 0 && !AllBinary(labels)
  {
    if |labels| != |scores| then Err(LengthMismatch)
    else if |fractions| == 0 then Err(NoFractions)
    else if !AllBinary(labels) then Err(NonBinaryLabel)
    else Ok(enrichment(SortByScore(Zip(labels, scores), sortFlag), fractions))
  }

  /** Validation comes before any pairing, sorting or enrichment: a rejected
      input fails the same way whatever the enrichment routine would do, and
      an accepted one is handed the sorted pairs and the fractions unchanged. */
  lemma ValidationFirst(labels: seq<int>, scores: seq<real>, fractions: seq<real>,
                        sortFlag: bool, e1: Enrichment, e2: Enrichment)
    ensures EfScore(labels, scores, fractions, e1, sortFlag).Err? ==>
              EfScore(labels, scores, fractions, e1, sortFlag) == EfScore(labels, scores, fractions, e2, sortFlag)
    ensures EfScore(labels, scores, fractions, e1, sortFlag).Ok? ==>
              |labels| == |scores| &&
              EfScore(labels, scores, fractions, e1, sortFlag).value ==
                e1(SortByScore(Zip(labels, scores), sortFlag), fractions)
  {
  }

  /** Equal scores keep their input order also when sorting in descending
      order (`reverse=True` does not reverse ties). */
  lemma TiesKeepOrderDescending()
    ensures SortByScore([(1, 0.5), (0, 0.1), (0, 0.5)], true) == [(1, 0.5), (0, 0.5), (0, 0.1)]
    ensures SortByScore([(1, 0.5), (0, 0.1), (0, 0.5)], false) == [(0, 0.1), (1, 0.5), (0, 0.5)]
  {
  }
}
