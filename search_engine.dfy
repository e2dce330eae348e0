/**
 * The result assembly of `search_engine`: from one similarity score per
 * document, take the indices of the (at most) five highest scores, highest
 * first, as `np.argsort(similarities)[-5:][::-1]` does, and gather the
 * matching scores and documents into three parallel lists.
 *
 * The scores come from a pipeline outside this model (TF-IDF, truncated SVD,
 * cosine similarity) and are abstracted to `real`.  `np.argsort` is not
 * stable, so its output is a parameter `order`, constrained only by what
 * argsort promises (`IsArgsort`); the order of tied scores is left open.
 */
module SearchEngine {

  /** Number of results the search returns. */
  const TopN: nat := 5

  function Min(a: nat, b: nat): nat {
    if a <= b then a else b
  }

  /** The identity ordering 0, 1, ..., n - 1. */
  function Indices(n: nat): (r: seq<nat>)
    ensures |r| == n
    ensures forall i :: 0 <= i < n ==> r[i] == i
  {
    if n == 0 then [] else Indices(n - 1) + [n - 1]
  }

  /** Every element of `xs` is a document index. */
  predicate InRange(scores: seq<real>, xs: seq<nat>) {
    forall i :: 0 <= i < |xs| ==> xs[i] < |scores|
  }

  /** `xs` holds document indices and their scores do not decrease along it. */
  predicate SortedBy(scores: seq<real>, xs: seq<nat>) {
    && InRange(scores, xs)
    && forall i, j :: 0 <= i < j < |xs| ==> scores[xs[i]] <= scores[xs[j]]
  }

  /** The scores read off along an ordering of the documents. */
  function ScoresAlong(scores: seq<real>, order: seq<nat>): (r: seq<real>)
    requires InRange(scores, order)
  {
    seq(|order|, i requires 0 <= i < |order| => scores[order[i]])
  }

  predicate Ascending(s: seq<real>) {
    forall i, j :: 0 <= i < j < |s| ==> s[i] <= s[j]
  }

  /** Sortedness of the indices by score is ascending order of the scores read along them. */
  lemma SortedByAscending(scores: seq<real>, xs: seq<nat>)
    requires InRange(scores, xs)
    ensures SortedBy(scores, xs) <==> Ascending(ScoresAlong(scores, xs))
  {
    var r := ScoresAlong(scores, xs);
    assert forall i :: 0 <= i < |xs| ==> r[i] == scores[xs[i]];
  }

  /**
   * What `np.argsort(scores)` returns: a permutation of the document indices
   * along which the scores do not decrease.  Tied scores may come in any order.
   */
  predicate IsArgsort(scores: seq<real>, order: seq<nat>) {
    && |order| == |scores|
    && multiset(order) == multiset(Indices(|scores|))
    && SortedBy(scores, order)
  }

  // ---------------------------------------------------------------------
  // One admissible argsort: insertion sort of the indices by score.  Any
  // order satisfying IsArgsort is allowed; this one only shows that an
  // admissible order exists for every score sequence.

  /** Inserts index `x` into `sorted` before the first index with a greater score. */
  function Insert(scores: seq<real>, x: nat, sorted: seq<nat>): (r: seq<nat>)
    requires x < |scores|
    requires SortedBy(scores, sorted)
    ensures multiset(r) == multiset(sorted) + multiset{x}
    ensures |r| == |sorted| + 1
    ensures SortedBy(scores, r)
    ensures r[0] == x || (sorted != [] && r[0] == sorted[0])
  {
    if sorted == [] || scores[x] <= scores[sorted[0]] then
      ConsSorted(scores, x, sorted);
      [x] + sorted
    else
      var rest := Insert(scores, x, sorted[1..]);
      assert sorted == [sorted[0]] + sorted[1..];
      ConsSorted(scores, sorted[0], rest);
      [sorted[0]] + rest
  }

  /** Putting an index before a sorted run whose first score is no smaller keeps it sorted. */
  lemma ConsSorted(scores: seq<real>, h: nat, rest: seq<nat>)
    requires h < |scores|
    requires SortedBy(scores, rest)
    requires rest != [] ==> scores[h] <= scores[rest[0]]
    ensures SortedBy(scores, [h] + rest)
  {
    var r := [h] + rest;
    forall i, j | 0 <= i < j < |r| ensures scores[r[i]] <= scores[r[j]] {
      if i == 0 {
        assert scores[rest[0]] <= scores[rest[j - 1]];
      } else {
        assert r[i] == rest[i - 1] && r[j] == rest[j - 1];
      }
    }
  }

  function SortIndices(scores: seq<real>, xs: seq<nat>): (r: seq<nat>)
    requires InRange(scores, xs)
    ensures multiset(r) == multiset(xs)
    ensures |r| == |xs|
    ensures SortedBy(scores, r)
  {
    if xs == [] then []
    else
      assert xs == [xs[0]] + xs[1..];
      Insert(scores, xs[0], SortIndices(scores, xs[1..]))
  }

  /** An argsort of `scores`: every score sequence has one. */
  function Argsort(scores: seq<real>): (order: seq<nat>)
    ensures IsArgsort(scores, order)
  {
    SortIndices(scores, Indices(|scores|))
  }

  // ---------------------------------------------------------------------
  // The selection

  /** The last `k` elements of `s`, last first (`s[len(s)-k:][::-1]`). */
  function ReversedSuffix(s: seq<nat>, k: nat): (r: seq<nat>)
    requires k <= |s|
    ensures |r| == k
    ensures forall i :: 0 <= i < k ==> r[i] == s[|s| - 1 - i]
    ensures forall x :: x in r <==> x in s[|s| - k..]
  {
    var r := seq(k, i requires 0 <= i < k => s[|s| - 1 - i]);
    ReversedSuffixMembers(s, k, r);
    r
  }

  lemma ReversedSuffixMembers(s: seq<nat>, k: nat, r: seq<nat>)
    requires k <= |s| && |r| == k
    requires forall i :: 0 <= i < k ==> r[i] == s[|s| - 1 - i]
    ensures forall x :: x in r <==> x in s[|s| - k..]
  {
    var t := s[|s| - k..];
    forall x ensures x in r <==> x in t {
      if x in r {
        var i :| 0 <= i < k && r[i] == x;
        assert t[k - 1 - i] == x;
      }
      if x in t {
        var j :| 0 <= j < k && t[j] == x;
        assert r[k - 1 - j] == x;
      }
    }
  }

  lemma InReversedSuffix(s: seq<nat>, k: nat, p: nat)
    requires k <= |s| && p < |s|
    ensures p >= |s| - k ==> s[p] in ReversedSuffix(s, k)
  {
    if p >= |s| - k {
      assert ReversedSuffix(s, k)[|s| - 1 - p] == s[p];
    }
  }

  /** The indices of the (at most) five highest scores, highest first, taken from the end of an argsort. */
  function TopIndices(scores: seq<real>, order: seq<nat>): (top: seq<nat>)
    requires IsArgsort(scores, order)
    ensures |top| == Min(TopN, |scores|)
    ensures InRange(scores, top)
    ensures forall i, j :: 0 <= i < j < |top| ==> top[i] != top[j]
    ensures forall i, j :: 0 <= i < j < |top| ==> scores[top[i]] >= scores[top[j]]
    ensures forall i, j :: 0 <= i < |top| && 0 <= j < |scores| && j !in top ==> scores[top[i]] >= scores[j]
  {
    var k := Min(TopN, |order|);
    var top := ReversedSuffix(order, k);
    ArgsortDistinct(scores, order);
    forall i, j | 0 <= i < k && 0 <= j < |scores| && j !in top
      ensures scores[top[i]] >= scores[j]
    {
      var p := ArgsortPosition(scores, order, j);
      InReversedSuffix(order, k, p);
    }
    top
  }

  /** The three lists `search_engine` returns. */
  datatype SearchResult = SearchResult(documents: seq<string>, similarities: seq<real>, indices: seq<nat>)

  /** Lines 55-59 of `search_engine`: the ranked documents, scores and indices. */
  function TopResults(data: seq<string>, scores: seq<real>, order: seq<nat>): (r: SearchResult)
    requires |data| == |scores|
    requires IsArgsort(scores, order)
    ensures |r.documents| == |r.similarities| == |r.indices| == Min(TopN, |data|)
    ensures forall i :: 0 <= i < |r.indices| ==>
              && r.indices[i] < |data|
              && r.similarities[i] == scores[r.indices[i]]
              && r.documents[i] == data[r.indices[i]]
    ensures forall i, j :: 0 <= i < j < |r.indices| ==> r.indices[i] != r.indices[j]
    ensures forall i, j :: 0 <= i < j < |r.similarities| ==> r.similarities[i] >= r.similarities[j]
    ensures forall i, j :: 0 <= i < |r.indices| && 0 <= j < |data| && j !in r.indices ==>
              r.similarities[i] >= scores[j]
  {
    var top := TopIndices(scores, order);
    SearchResult(
      seq(|top|, i requires 0 <= i < |top| => data[top[i]]),
      seq(|top|, i requires 0 <= i < |top| => scores[top[i]]),
      top)
  }

  // ---------------------------------------------------------------------
  // Lemmas about argsort orders

  lemma {:induction false} IndicesOnce(n: nat, x: nat)
    ensures multiset(Indices(n))[x] == if x < n then 1 else 0
  {
    if n > 0 {
      var r := Indices(n - 1);
      assert multiset(Indices(n)) == multiset(r) + multiset{(n - 1) as nat};
      IndicesOnce(n - 1, x);
    }
  }

  lemma {:induction false} TwiceInSeq(s: seq<nat>, i: nat, j: nat)
    requires i < j < |s| && s[i] == s[j]
    ensures multiset(s)[s[i]] >= 2
  {
    assert s == s[..j] + [s[j]] + s[j + 1..];
    assert s[i] in s[..j];
  }

  /** An argsort lists every document index exactly once. */
  lemma ArgsortDistinct(scores: seq<real>, order: seq<nat>)
    requires IsArgsort(scores, order)
    ensures forall i, j :: 0 <= i < j < |order| ==> order[i] != order[j]
  {
    forall i, j | 0 <= i < j < |order| ensures order[i] != order[j] {
      if order[i] == order[j] {
        TwiceInSeq(order, i, j);
        IndicesOnce(|scores|, order[i]);
        assert false;
      }
    }
  }

  /** The position of document `x` in an argsort. */
  lemma ArgsortPosition(scores: seq<real>, order: seq<nat>, x: nat) returns (p: nat)
    requires IsArgsort(scores, order)
    requires x < |scores|
    ensures p < |order| && order[p] == x
  {
    IndicesOnce(|scores|, x);
    assert x in multiset(order);
    p :| 0 <= p < |order| && order[p] == x;
  }

  lemma MultisetCancel<T>(a: multiset<T>, b: multiset<T>, m: multiset<T>)
    requires a + m == b + m
    ensures a == b
  {
    forall v ensures a[v] == b[v] {
      assert (a + m)[v] == (b + m)[v];
    }
  }

  lemma {:induction false} ScoresAlongAppend(scores: seq<real>, a: seq<nat>, b: seq<nat>)
    requires InRange(scores, a)
    requires InRange(scores, b)
    ensures ScoresAlong(scores, a + b) == ScoresAlong(scores, a) + ScoresAlong(scores, b)
  {
  }

  /** Reading the scores along two orderings of the same indices gives the same multiset. */
  lemma {:induction false} ScoresAlongPermutation(scores: seq<real>, a: seq<nat>, b: seq<nat>)
    requires InRange(scores, a)
    requires InRange(scores, b)
    requires multiset(a) == multiset(b)
    ensures multiset(ScoresAlong(scores, a)) == multiset(ScoresAlong(scores, b))
    decreases |a|
  {
    if a == [] {
      assert |b| == |multiset(b)| == 0;
    } else {
      var x := a[0];
      assert x in multiset(b);
      var p :| 0 <= p < |b| && b[p] == x;
      var b' := b[..p] + b[p + 1..];
      ScoresAlongRemove(scores, a, 0);
      assert a[..0] + a[1..] == a[1..];
      ScoresAlongRemove(scores, b, p);
      MultisetCancel(multiset(a[1..]), multiset(b'), multiset{x});
      ScoresAlongPermutation(scores, a[1..], b');
    }
  }

  /** Taking the element at `p` out of an ordering takes its score out of the scores read along it. */
  lemma ScoresAlongRemove(scores: seq<real>, b: seq<nat>, p: nat)
    requires InRange(scores, b)
    requires p < |b|
    ensures multiset(b) == multiset(b[..p] + b[p + 1..]) + multiset{b[p]}
    ensures multiset(ScoresAlong(scores, b))
            == multiset(ScoresAlong(scores, b[..p] + b[p + 1..])) + multiset{scores[b[p]]}
  {
    var x, left, right := b[p], b[..p], b[p + 1..];
    assert b == (left + [x]) + right;
    ScoresAlongAppend(scores, left + [x], right);
    ScoresAlongAppend(scores, left, [x]);
    ScoresAlongAppend(scores, left, right);
    var sl, sr := ScoresAlong(scores, left), ScoresAlong(scores, right);
    assert ScoresAlong(scores, b) == (sl + [scores[x]]) + sr;
    assert ScoresAlong(scores, left + right) == sl + sr;
  }

  /** Two ascending sequences with the same elements are equal. */
  lemma {:induction false} AscendingUnique(a: seq<real>, b: seq<real>)
    requires Ascending(a) && Ascending(b)
    requires multiset(a) == multiset(b)
    ensures a == b
    decreases |a|
  {
    if a == [] {
      assert |b| == |multiset(b)| == 0;
    } else {
      assert |b| == |multiset(b)| == |a|;
      assert a[0] in multiset(b) && b[0] in multiset(a);
      assert a[0] == b[0];
      assert a == [a[0]] + a[1..] && b == [b[0]] + b[1..];
      assert multiset(a) == multiset(a[1..]) + multiset{a[0]};
      assert multiset(b) == multiset(b[1..]) + multiset{a[0]};
      MultisetCancel(multiset(a[1..]), multiset(b[1..]), multiset{a[0]});
      AscendingUnique(a[1..], b[1..]);
    }
  }

  /** All admissible argsorts read off the same ascending score sequence. */
  lemma ArgsortScoresUnique(scores: seq<real>, o1: seq<nat>, o2: seq<nat>)
    requires IsArgsort(scores, o1) && IsArgsort(scores, o2)
    ensures ScoresAlong(scores, o1) == ScoresAlong(scores, o2)
  {
    ScoresAlongPermutation(scores, o1, o2);
    SortedByAscending(scores, o1);
    SortedByAscending(scores, o2);
    AscendingUnique(ScoresAlong(scores, o1), ScoresAlong(scores, o2));
  }

  // ---------------------------------------------------------------------
  // Properties of the returned results

  /**
   * The reported similarities do not depend on how argsort orders ties: they
   * are the top min(5, n) scores, highest first, whatever order is used.
   */
  lemma SimilaritiesIndependentOfTies(data: seq<string>, scores: seq<real>, o1: seq<nat>, o2: seq<nat>)
    requires |data| == |scores|
    requires IsArgsort(scores, o1) && IsArgsort(scores, o2)
    ensures TopResults(data, scores, o1).similarities == TopResults(data, scores, o2).similarities
  {
    ArgsortScoresUnique(scores, o1, o2);
    var r1, r2 := TopResults(data, scores, o1), TopResults(data, scores, o2);
    forall i | 0 <= i < |r1.similarities| ensures r1.similarities[i] == r2.similarities[i] {
      TopSimilarityAt(data, scores, o1, i);
      TopSimilarityAt(data, scores, o2, i);
    }
  }

  /** The `i`-th similarity is the `i`-th score from the top along the argsort. */
  lemma TopSimilarityAt(data: seq<string>, scores: seq<real>, order: seq<nat>, i: nat)
    requires |data| == |scores|
    requires IsArgsort(scores, order)
    requires i < Min(TopN, |scores|)
    ensures TopResults(data, scores, order).similarities[i] == ScoresAlong(scores, order)[|scores| - 1 - i]
  {
    var top := TopIndices(scores, order);
    assert top == ReversedSuffix(order, Min(TopN, |order|));
    assert top[i] == order[|scores| - 1 - i];
  }

  /** When no two scores are equal, the whole result is determined by the scores. */
  lemma DistinctScoresDetermineResult(data: seq<string>, scores: seq<real>, o1: seq<nat>, o2: seq<nat>)
    requires |data| == |scores|
    requires forall i, j :: 0 <= i < j < |scores| ==> scores[i] != scores[j]
    requires IsArgsort(scores, o1) && IsArgsort(scores, o2)
    ensures TopResults(data, scores, o1) == TopResults(data, scores, o2)
  {
    SimilaritiesIndependentOfTies(data, scores, o1, o2);
    var r1, r2 := TopResults(data, scores, o1), TopResults(data, scores, o2);
    forall i | 0 <= i < |r1.indices| ensures r1.indices[i] == r2.indices[i] {
      assert scores[r1.indices[i]] == r1.similarities[i] == r2.similarities[i] == scores[r2.indices[i]];
    }
    assert r1.indices == r2.indices;
    assert r1.documents == r2.documents;
  }

  /** The order of tied scores is not fixed: two admissible argsorts give different indices. */
  lemma TiesMayComeInEitherOrder(data: seq<string>, scores: seq<real>)
    requires data == ["a", "b"] && scores == [0.5, 0.5]
    ensures IsArgsort(scores, [0, 1]) && IsArgsort(scores, [1, 0])
    ensures TopResults(data, scores, [0, 1]).indices == [1, 0]
    ensures TopResults(data, scores, [1, 0]).indices == [0, 1]
  {
    TiedPairOrders(scores);
    var up, down: seq<nat> := [0, 1], [1, 0];
    assert TopResults(data, scores, up).indices == ReversedSuffix(up, 2);
    assert TopResults(data, scores, down).indices == ReversedSuffix(down, 2);
  }

  lemma TiedPairOrders(scores: seq<real>)
    requires scores == [0.5, 0.5]
    ensures IsArgsort(scores, [0, 1]) && IsArgsort(scores, [1, 0])
  {
    assert Indices(2) == [0, 1] by {
      assert Indices(1) == [0];
    }
    assert multiset([1, 0]) == multiset([0, 1]);
  }

  /** With at most five documents, every document is returned. */
  lemma FewDocumentsAllReturned(data: seq<string>, scores: seq<real>, order: seq<nat>)
    requires |data| == |scores| <= TopN
    requires IsArgsort(scores, order)
    ensures forall j :: 0 <= j < |data| ==> j in TopResults(data, scores, order).indices
  {
    var r := TopResults(data, scores, order);
    var n := |scores|;
    forall j | 0 <= j < n ensures j in r.indices {
      var p := ArgsortPosition(scores, order, j);
      assert r.indices[n - 1 - p] == j;
    }
  }
}
