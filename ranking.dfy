/** The ranking rule of `match_memories`: keep the rows whose similarity is
    strictly above the threshold, order them by similarity, highest first,
    and keep the first `count` of them (WHERE ... ORDER BY similarity DESC
    LIMIT count). Rows are paired with their similarity score; ties are left
    in an order the rule does not fix, so every property below holds for any
    tie order. */
module Ranking {

  datatype Scored<T> = Scored(item: T, similarity: real)

  /** `WHERE similarity > threshold`, keeping the rows' order. */
  function Above<T(==)>(s: seq<Scored<T>>, threshold: real): (r: seq<Scored<T>>)
    ensures forall i :: 0 <= i < |r| ==> r[i].similarity > threshold
    ensures |r| <= |s|
  {
    if s == [] then []
    else (if s[0].similarity > threshold then [s[0]] else []) + Above(s[1..], threshold)
  }

  /** Every row `Above` keeps comes from `s`. */
  lemma {:induction false} AboveSound<T>(s: seq<Scored<T>>, threshold: real, x: Scored<T>)
    requires x in Above(s, threshold)
    ensures x in s
  {
    if x != s[0] {
      AboveSound(s[1..], threshold, x);
    }
  }

  /** Every row of `s` strictly above the threshold is kept. */
  lemma {:induction false} AboveComplete<T>(s: seq<Scored<T>>, threshold: real, x: Scored<T>)
    requires x in s && x.similarity > threshold
    ensures x in Above(s, threshold)
  {
    if x != s[0] {
      AboveComplete(s[1..], threshold, x);
    }
  }

  /** Similarity never increases along `s`. */
  predicate SortedDescending<T>(s: seq<Scored<T>>) {
    forall i, j :: 0 <= i < j < |s| ==> s[i].similarity >= s[j].similarity
  }

  function Insert<T(==)>(x: Scored<T>, s: seq<Scored<T>>): (r: seq<Scored<T>>)
    requires SortedDescending(s)
    ensures SortedDescending(r)
    ensures multiset(r) == multiset(s) + multiset{x}
    ensures |r| == |s| + 1
    ensures r[0] == x || (|s| > 0 && r[0] == s[0])
  {
    if s == [] || x.similarity >= s[0].similarity then [x] + s
    else
      var rest := Insert(x, s[1..]);
      assert s == [s[0]] + s[1..];
      assert rest[0].similarity <= s[0].similarity;
      assert forall j :: 0 <= j < |rest| ==> rest[j].similarity <= rest[0].similarity;
      [s[0]] + rest
  }

  /** `ORDER BY similarity DESC`: a permutation of `s` in descending order. */
  function SortDescending<T(==)>(s: seq<Scored<T>>): (r: seq<Scored<T>>)
    ensures SortedDescending(r)
    ensures multiset(r) == multiset(s)
    ensures |r| == |s|
  {
    if s == [] then []
    else
      assert s == [s[0]] + s[1..];
      Insert(s[0], SortDescending(s[1..]))
  }

  /** `LIMIT count`. */
  function Take<T>(s: seq<T>, count: nat): (r: seq<T>)
    ensures |r| == if count < |s| then count else |s|
    ensures r == s[..|r|]
  {
    if count < |s| then s[..count] else s
  }

  /** The whole rule. */
  function Rank<T(==)>(s: seq<Scored<T>>, threshold: real, count: nat): (r: seq<Scored<T>>)
    ensures |r| <= count && |r| <= |s|
  {
    Take(SortDescending(Above(s, threshold)), count)
  }

  /** Every returned row is strictly above the threshold and comes from `s`. */
  lemma RankAboveThreshold<T>(s: seq<Scored<T>>, threshold: real, count: nat)
    ensures forall x :: x in Rank(s, threshold, count) ==> x in s && x.similarity > threshold
  {
    var sorted := SortDescending(Above(s, threshold));
    forall x | x in Rank(s, threshold, count) ensures x in s && x.similarity > threshold {
      assert x in multiset(sorted);
      AboveSound(s, threshold, x);
      var i :| 0 <= i < |Above(s, threshold)| && Above(s, threshold)[i] == x;
    }
  }

  /** Exactly `min(count, number of qualifying rows)` rows come back. */
  lemma RankLength<T>(s: seq<Scored<T>>, threshold: real, count: nat)
    ensures |Rank(s, threshold, count)| <= count
    ensures |Rank(s, threshold, count)| ==
              if count < |Above(s, threshold)| then count else |Above(s, threshold)|
  {
  }

  lemma RankSorted<T>(s: seq<Scored<T>>, threshold: real, count: nat)
    ensures SortedDescending(Rank(s, threshold, count))
  {
  }

  /** Top-K: the returned rows are some of the qualifying rows, and every
      qualifying row left out scores no higher than any returned row. */
  lemma RankTopK<T>(s: seq<Scored<T>>, threshold: real, count: nat)
    ensures multiset(Rank(s, threshold, count)) <= multiset(Above(s, threshold))
    ensures forall x: Scored<T>, y: Scored<T> ::
              (x in multiset(Above(s, threshold)) - multiset(Rank(s, threshold, count)) &&
               y in Rank(s, threshold, count)) ==> x.similarity <= y.similarity
  {
    var sorted := SortDescending(Above(s, threshold));
    var r := Rank(s, threshold, count);
    var dropped := sorted[|r|..];
    assert sorted == r + dropped;
    SplitMultiset(sorted, r, dropped);
    PrefixDominates(sorted, |r|);
  }

  lemma SplitMultiset<T>(whole: seq<T>, front: seq<T>, back: seq<T>)
    requires whole == front + back
    ensures multiset(front) <= multiset(whole)
    ensures multiset(whole) - multiset(front) == multiset(back)
  {
  }

  /** In a descending sequence every element of a prefix scores at least as
      high as every element after it. */
  lemma PrefixDominates<T>(sorted: seq<Scored<T>>, k: nat)
    requires SortedDescending(sorted) && k <= |sorted|
    ensures forall x: Scored<T>, y: Scored<T> ::
              (x in multiset(sorted[k..]) && y in sorted[..k]) ==> x.similarity <= y.similarity
  {
    forall x: Scored<T>, y: Scored<T> | x in multiset(sorted[k..]) && y in sorted[..k]
      ensures x.similarity <= y.similarity
    {
      assert x in sorted[k..];
      var j :| k <= j < |sorted| && sorted[j] == x;
      var i :| 0 <= i < k && sorted[i] == y;
    }
  }

  /** The top-K guarantee for one qualifying row left out and one returned row. */
  lemma LeftOutScoresNoHigher<T>(s: seq<Scored<T>>, threshold: real, count: nat, x: Scored<T>, y: Scored<T>)
    requires x in Above(s, threshold) && x !in Rank(s, threshold, count)
    requires y in Rank(s, threshold, count)
    ensures x.similarity <= y.similarity
  {
    RankTopK(s, threshold, count);
    assert x in multiset(Above(s, threshold)) - multiset(Rank(s, threshold, count));
  }

  /** When no more than `count` rows qualify, all of them are returned. */
  lemma RankAllWhenFew<T>(s: seq<Scored<T>>, threshold: real, count: nat)
    requires |Above(s, threshold)| <= count
    ensures multiset(Rank(s, threshold, count)) == multiset(Above(s, threshold))
  {
  }

  lemma {:induction false} AboveMonotone<T>(s: seq<Scored<T>>, low: real, high: real)
    requires low <= high
    ensures |Above(s, high)| <= |Above(s, low)|
  {
    if s != [] {
      AboveMonotone(s[1..], low, high);
    }
  }

  /** Raising the threshold never returns more rows. */
  lemma RankThresholdMonotone<T>(s: seq<Scored<T>>, low: real, high: real, count: nat)
    requires low <= high
    ensures |Rank(s, high, count)| <= |Rank(s, low, count)|
  {
    AboveMonotone(s, low, high);
    RankLength(s, low, count);
    RankLength(s, high, count);
  }
}
