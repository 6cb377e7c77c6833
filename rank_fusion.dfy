/** Reciprocal rank fusion of the dense (FAISS) and sparse (BM25) rankings,
    `reciprocal_rank_fusion` in src/query_rag.py.

    The source accumulates float scores in a dict and sorts the dict's items
    by descending score with Python's stable `sorted(..., reverse=True)`.
    Scores are exact reals here, so two ids tie exactly when their sums of
    reciprocal ranks are equal; ties keep the dict's key order, which is the
    order in which ids first occur in the dense list followed by the sparse
    list. */
module RankFusion {
  import opened Common

  /** What one ranked list adds to the score of `d`: 1/(k+r+1) for every
      0-based rank `r` at which `d` occurs. */
  function Contribution(ranks: seq<int>, d: int, k: nat): (c: real)
    ensures c >= 0.0
    decreases |ranks|
  {
    if ranks == [] then 0.0
    else
      var last := |ranks| - 1;
      Contribution(ranks[..last], d, k) + (if ranks[last] == d then 1.0 / (k + last + 1) as real else 0.0)
  }

  /** A list contributes to the score of exactly the ids it contains. */
  lemma {:induction false} ContributionPositive(ranks: seq<int>, d: int, k: nat)
    ensures Contribution(ranks, d, k) > 0.0 <==> d in ranks
    decreases |ranks|
  {
    if ranks != [] {
      var last := |ranks| - 1;
      assert ranks == ranks[..last] + [ranks[last]];
      ContributionPositive(ranks[..last], d, k);
    }
  }

  /** The fused score of `d`: its contributions from both lists. */
  function Score(dense: seq<int>, sparse: seq<int>, d: int, k: nat): real
  {
    Contribution(dense, d, k) + Contribution(sparse, d, k)
  }

  /** `x` is ranked before `y` in the fused list: a higher score, or an equal
      score and an earlier first occurrence in `dense + sparse`. */
  predicate Precedes(dense: seq<int>, sparse: seq<int>, k: nat, x: int, y: int)
    requires x in dense + sparse && y in dense + sparse
  {
    var sx, sy := Score(dense, sparse, x, k), Score(dense, sparse, y, k);
    sx > sy || (sx == sy && IndexOf(dense + sparse, x) < IndexOf(dense + sparse, y))
  }

  /** `s` holds distinct ids of the two lists, in fused order. */
  predicate RankedIds(dense: seq<int>, sparse: seq<int>, k: nat, s: seq<int>)
  {
    && NoDuplicates(s)
    && (forall d :: d in s ==> d in dense + sparse)
    && (forall i, j :: 0 <= i < j < |s| ==> Precedes(dense, sparse, k, s[i], s[j]))
  }

  /** `fused` is a correct fusion of `dense` and `sparse`: every id of
      either list exactly once, in fused order. */
  predicate IsFusion(dense: seq<int>, sparse: seq<int>, k: nat, fused: seq<int>)
  {
    && RankedIds(dense, sparse, k, fused)
    && (forall d :: d in dense + sparse ==> d in fused)
  }

  // ---------------------------------------------------------------------
  // Python's stable descending sort of the dict's items by score,
  // as an insertion sort over the dict's key order.

  /** Every entry of `s` has a score in `scores`. */
  predicate Scored(s: seq<int>, scores: map<int, real>)
  {
    forall i :: 0 <= i < |s| ==> s[i] in scores
  }

  /** `r` is in descending score order, ties in the order of `keys`. */
  predicate StablyRanked(r: seq<int>, keys: seq<int>, scores: map<int, real>)
    requires Scored(r, scores)
    requires forall i :: 0 <= i < |r| ==> r[i] in keys
  {
    forall i, j :: 0 <= i < j < |r| ==>
      scores[r[i]] > scores[r[j]] ||
      (scores[r[i]] == scores[r[j]] && IndexOf(keys, r[i]) < IndexOf(keys, r[j]))
  }

  /** Where a key inserted after all of `s` goes: after every entry whose
      score is at least its own. */
  function InsertPos(x: int, s: seq<int>, scores: map<int, real>): (p: nat)
    requires x in scores && Scored(s, scores)
    ensures p <= |s|
    ensures forall i :: 0 <= i < p ==> scores[s[i]] >= scores[x]
    ensures p < |s| ==> scores[s[p]] < scores[x]
  {
    if s == [] || scores[s[0]] < scores[x] then 0 else 1 + InsertPos(x, s[1..], scores)
  }

  function Insert(x: int, s: seq<int>, scores: map<int, real>): (r: seq<int>)
    requires x in scores && Scored(s, scores)
    ensures multiset(r) == multiset(s) + multiset{x}
    ensures Scored(r, scores)
  {
    var p := InsertPos(x, s, scores);
    InsertAt(s, p, x, scores);
    s[..p] + [x] + s[p..]
  }

  lemma InsertAt(s: seq<int>, p: nat, x: int, scores: map<int, real>)
    requires p <= |s| && x in scores && Scored(s, scores)
    ensures multiset(s[..p] + [x] + s[p..]) == multiset(s) + multiset{x}
    ensures Scored(s[..p] + [x] + s[p..], scores)
  {
    var r := s[..p] + [x] + s[p..];
    calc {
      multiset(r);
      multiset(s[..p]) + multiset{x} + multiset(s[p..]);
      { assert s == s[..p] + s[p..]; }
      multiset(s) + multiset{x};
    }
    forall i | 0 <= i < |r| ensures r[i] in scores {
      if i < p {
        assert r[i] == s[i];
      } else if i > p {
        assert r[i] == s[i - 1];
      }
    }
  }

  function SortByScore(keys: seq<int>, scores: map<int, real>): (r: seq<int>)
    requires Scored(keys, scores)
    ensures multiset(r) == multiset(keys)
    ensures Scored(r, scores)
    decreases |keys|
  {
    if keys == [] then []
    else
      var n := |keys| - 1;
      assert keys == keys[..n] + [keys[n]];
      Insert(keys[n], SortByScore(keys[..n], scores), scores)
  }

  /** Ranking against a key order is unaffected by keys appended later. */
  lemma StablyRankedExtend(r: seq<int>, keys: seq<int>, more: seq<int>, scores: map<int, real>)
    requires Scored(r, scores) && forall i :: 0 <= i < |r| ==> r[i] in keys
    requires StablyRanked(r, keys, scores)
    ensures forall i :: 0 <= i < |r| ==> r[i] in keys + more
    ensures StablyRanked(r, keys + more, scores)
  {
    forall i | 0 <= i < |r| ensures IndexOf(keys + more, r[i]) == IndexOf(keys, r[i]) {
      IndexOfAppend(keys, more, r[i]);
    }
  }

  /** Inserting the newest key into a stably ranked sequence keeps it so. */
  lemma InsertRanked(s: seq<int>, keys: seq<int>, x: int, scores: map<int, real>)
    requires x in scores && Scored(s, scores)
    requires NoDuplicates(s) && forall i :: 0 <= i < |s| ==> s[i] in keys
    requires x !in keys
    requires StablyRanked(s, keys + [x], scores)
    ensures var r := Insert(x, s, scores);
      && NoDuplicates(r)
      && (forall i :: 0 <= i < |r| ==> r[i] in keys + [x])
      && StablyRanked(r, keys + [x], scores)
  {
    var all := keys + [x];
    var r := Insert(x, s, scores);
    var p := InsertPos(x, s, scores);
    assert r == s[..p] + [x] + s[p..];
    forall i | 0 <= i < |r| ensures r[i] in all {
      InsertedAt(s, p, x, i);
    }
    forall i, j | 0 <= i < j < |r|
      ensures r[i] != r[j]
      ensures scores[r[i]] > scores[r[j]] ||
        (scores[r[i]] == scores[r[j]] && IndexOf(all, r[i]) < IndexOf(all, r[j]))
    {
      InsertPair(s, keys, x, scores, p, i, j);
    }
  }

  /** Where the entries of `s` sit once `x` is inserted at `p`. */
  lemma InsertedAt(s: seq<int>, p: nat, x: int, i: nat)
    requires p <= |s| && i <= |s|
    ensures var r := s[..p] + [x] + s[p..];
      r[i] == if i < p then s[i] else if i == p then x else s[i - 1]
  {
  }

  lemma InsertPair(s: seq<int>, keys: seq<int>, x: int, scores: map<int, real>, p: nat, i: nat, j: nat)
    requires x in scores && Scored(s, scores)
    requires NoDuplicates(s) && forall i :: 0 <= i < |s| ==> s[i] in keys
    requires x !in keys
    requires StablyRanked(s, keys + [x], scores)
    requires p == InsertPos(x, s, scores)
    requires i < j <= |s|
    ensures var r := s[..p] + [x] + s[p..];
      && r[i] != r[j]
      && (scores[r[i]] > scores[r[j]] ||
          (scores[r[i]] == scores[r[j]] && IndexOf(keys + [x], r[i]) < IndexOf(keys + [x], r[j])))
  {
    var all := keys + [x];
    InsertedAt(s, p, x, i);
    InsertedAt(s, p, x, j);
    if j == p {
      var y := s[i];
      assert y in keys;
      IndexOfAppend(keys, [x], y);
      IndexOfUnique(all, x, |keys|);
    } else if i == p {
      var y := s[j - 1];
      assert y in keys;
      assert scores[s[p]] >= scores[y] by {
        if p < j - 1 {
          assert s[p] != y;
        }
      }
      IndexOfUnique(all, x, |keys|);
    }
  }

  /** The sort keeps every key once and orders by descending score, ties in
      key order: the stability Python guarantees for `reverse=True`. */
  lemma {:induction false} SortByScoreRanked(keys: seq<int>, scores: map<int, real>)
    requires Scored(keys, scores) && NoDuplicates(keys)
    ensures var r := SortByScore(keys, scores);
      && NoDuplicates(r)
      && (forall i :: 0 <= i < |r| ==> r[i] in keys)
      && StablyRanked(r, keys, scores)
    decreases |keys|
  {
    if keys != [] {
      var n := |keys| - 1;
      var prev, x := keys[..n], keys[n];
      assert keys == prev + [x];
      assert Scored(prev, scores);
      assert NoDuplicates(prev);
      SortByScoreRanked(prev, scores);
      var s := SortByScore(prev, scores);
      StablyRankedExtend(s, prev, [x], scores);
      assert x !in prev;
      InsertRanked(s, prev, x, scores);
    }
  }

  // ---------------------------------------------------------------------
  // The fusion itself.

  lemma ContributionSnoc(ranks: seq<int>, x: int, d: int, k: nat)
    ensures Contribution(ranks + [x], d, k) ==
      Contribution(ranks, d, k) + (if x == d then 1.0 / (k + |ranks| + 1) as real else 0.0)
  {
    assert (ranks + [x])[..|ranks|] == ranks;
  }

  lemma FirstSeenSnoc(s: seq<int>, x: int)
    ensures FirstSeen(s + [x]) == if x in FirstSeen(s) then FirstSeen(s) else FirstSeen(s) + [x]
  {
    assert (s + [x])[..|s|] == s;
  }

  /** The state of the dict after the ids of `seen` were scored. */
  ghost predicate ScoreTable(scores: map<int, real>, keys: seq<int>, seen: seq<int>, k: nat,
                             base: seq<int>, more: seq<int>)
  {
    && keys == FirstSeen(seen)
    && (forall d :: d in scores <==> d in keys)
    && (forall d :: d in scores ==> scores[d] == Contribution(base, d, k) + Contribution(more, d, k))
  }

  /** One iteration of either loop: the score of `d` grows by 1/(k+rank+1),
      `d` being at `rank` in `more + [d]`; a new key goes to the end of the
      key order. */
  lemma ScoreStep(scores: map<int, real>, keys: seq<int>, seen: seq<int>, k: nat,
                  base: seq<int>, more: seq<int>, d: int, scores': map<int, real>, keys': seq<int>,
                  seen': seq<int>, more': seq<int>)
    requires ScoreTable(scores, keys, seen, k, base, more)
    requires seen == base + more
    requires scores' == scores[d := (if d in scores then scores[d] else 0.0) + 1.0 / (k + |more| + 1) as real]
    requires keys' == if d in scores then keys else keys + [d]
    requires seen' == seen + [d] && more' == more + [d]
    ensures ScoreTable(scores', keys', seen', k, base, more')
  {
    FirstSeenSnoc(seen, d);
    if d !in scores {
      assert d !in keys;
      NewIdUnscored(base, more, d, k);
    }
    ValuesStep(scores, k, base, more, d, scores');
  }

  lemma NewIdUnscored(base: seq<int>, more: seq<int>, d: int, k: nat)
    requires d !in base + more
    ensures Contribution(base, d, k) == 0.0 && Contribution(more, d, k) == 0.0
  {
    ContributionPositive(base, d, k);
    ContributionPositive(more, d, k);
  }

  lemma ValuesStep(scores: map<int, real>, k: nat, base: seq<int>, more: seq<int>, d: int, scores': map<int, real>)
    requires forall x :: x in scores ==> scores[x] == Contribution(base, x, k) + Contribution(more, x, k)
    requires d !in scores ==> Contribution(base, d, k) == 0.0 && Contribution(more, d, k) == 0.0
    requires scores' == scores[d := (if d in scores then scores[d] else 0.0) + 1.0 / (k + |more| + 1) as real]
    ensures forall x :: x in scores' ==> scores'[x] == Contribution(base, x, k) + Contribution(more + [d], x, k)
  {
    forall x | x in scores'
      ensures scores'[x] == Contribution(base, x, k) + Contribution(more + [d], x, k)
    {
      ContributionSnoc(more, d, x, k);
    }
  }

  lemma PrefixFacts(base: seq<int>, ranks: seq<int>, n: nat)
    requires n <= |ranks|
    ensures |ranks[..n]| == n
    ensures n == 0 ==> ranks[..n] == [] && base + ranks[..n] == base
    ensures n == |ranks| ==> ranks[..n] == ranks
    ensures n < |ranks| ==> ranks[..n + 1] == ranks[..n] + [ranks[n]]
    ensures n < |ranks| ==> base + ranks[..n + 1] == (base + ranks[..n]) + [ranks[n]]
  {
    if n < |ranks| {
      assert ranks[..n + 1] == ranks[..n] + [ranks[n]];
    }
  }

  /** One of the two loops of the source: each id of `ranks`, at 0-based
      position `rank`, adds 1/(k + rank + 1) to its score (starting from
      0.0), run on a dict that already holds the scores of the ids of `base`. */
  method AddRanks(scores0: map<int, real>, keys0: seq<int>, ranks: seq<int>, k: nat, ghost base: seq<int>)
    returns (scores: map<int, real>, keys: seq<int>)
    requires ScoreTable(scores0, keys0, base, k, base, [])
    ensures ScoreTable(scores, keys, base + ranks, k, base, ranks)
  {
    scores, keys := scores0, keys0;
    ghost var done: seq<int> := [];
    assert base + done == base;
    for rank := 0 to |ranks|
      invariant done == ranks[..rank]
      invariant ScoreTable(scores, keys, base + done, k, base, done)
    {
      var d := ranks[rank];
      ghost var scoresBefore, keysBefore := scores, keys;
      var prev := if d in scores then scores[d] else 0.0;
      if d !in scores {
        keys := keys + [d];
      }
      scores := scores[d := prev + 1.0 / (k + rank + 1) as real];
      ScoreStep(scoresBefore, keysBefore, base + done, k, base, done, d, scores, keys,
                base + (done + [d]), done + [d]);
      PrefixFacts(base, ranks, rank);
      done := done + [d];
    }
    PrefixFacts(base, ranks, |ranks|);
  }

  /** `reciprocal_rank_fusion(faiss_ranks, bm25_ranks, k)`. The dict
      `scores` of the source is the pair (`scores`, `keys`): its values and
      its key order. */
  method ReciprocalRankFusion(dense: seq<int>, sparse: seq<int>, k: nat) returns (fused: seq<int>)
    ensures IsFusion(dense, sparse, k, fused)
  {
    var scores: map<int, real> := map[];
    var keys: seq<int> := [];
    scores, keys := AddRanks(scores, keys, dense, k, []);
    assert [] + dense == dense;
    assert ScoreTable(scores, keys, dense, k, dense, []);
    scores, keys := AddRanks(scores, keys, sparse, k, dense);
    ScoreTableScored(scores, keys, dense + sparse, k, dense, sparse);
    fused := SortByScore(keys, scores);
    SortedTableIsFusion(dense, sparse, k, keys, scores);
  }

  lemma ScoreTableScored(scores: map<int, real>, keys: seq<int>, seen: seq<int>, k: nat,
                         base: seq<int>, more: seq<int>)
    requires ScoreTable(scores, keys, seen, k, base, more)
    ensures Scored(keys, scores)
  {
    KeysScored(keys, scores);
  }

  lemma KeysScored(keys: seq<int>, scores: map<int, real>)
    requires forall d :: d in scores <==> d in keys
    ensures Scored(keys, scores)
  {
    forall i | 0 <= i < |keys| ensures keys[i] in scores {
      var x := keys[i];
      assert x in keys;
    }
  }

  /** Sorting the final score table yields the fusion. */
  lemma SortedTableIsFusion(dense: seq<int>, sparse: seq<int>, k: nat, keys: seq<int>, scores: map<int, real>)
    requires ScoreTable(scores, keys, dense + sparse, k, dense, sparse)
    ensures Scored(keys, scores)
    ensures IsFusion(dense, sparse, k, SortByScore(keys, scores))
  {
    ScoreTableScored(scores, keys, dense + sparse, k, dense, sparse);
    SortedTableCovers(dense, sparse, k, keys, scores);
    SortedTableOrdered(dense, sparse, k, keys, scores);
  }

  lemma SortedTableCovers(dense: seq<int>, sparse: seq<int>, k: nat, keys: seq<int>, scores: map<int, real>)
    requires ScoreTable(scores, keys, dense + sparse, k, dense, sparse) && Scored(keys, scores)
    ensures forall d :: d in SortByScore(keys, scores) <==> d in dense + sparse
  {
    var fused := SortByScore(keys, scores);
    forall d ensures d in fused <==> d in dense + sparse {
      assert d in fused <==> d in multiset(keys);
    }
  }

  lemma SortedTableOrdered(dense: seq<int>, sparse: seq<int>, k: nat, keys: seq<int>, scores: map<int, real>)
    requires ScoreTable(scores, keys, dense + sparse, k, dense, sparse) && Scored(keys, scores)
    ensures var fused := SortByScore(keys, scores);
      && NoDuplicates(fused)
      && (forall d :: d in fused ==> d in dense + sparse)
      && forall i, j :: 0 <= i < j < |fused| ==> Precedes(dense, sparse, k, fused[i], fused[j])
  {
    SortByScoreRanked(keys, scores);
    var fused := SortByScore(keys, scores);
    forall i, j | 0 <= i < j < |fused| ensures Precedes(dense, sparse, k, fused[i], fused[j]) {
      FirstSeenOrder(dense + sparse, fused[i], fused[j]);
    }
  }

  // ---------------------------------------------------------------------
  // What the contract determines.

  /** The head of a sequence in fused order precedes every other entry. */
  lemma HeadPrecedes(dense: seq<int>, sparse: seq<int>, k: nat, s: seq<int>, x: int)
    requires RankedIds(dense, sparse, k, s)
    requires x in s && x != s[0]
    ensures s[0] in dense + sparse && x in dense + sparse
    ensures Precedes(dense, sparse, k, s[0], x)
  {
    var i :| 0 <= i < |s| && s[i] == x;
    var h := s[0];
    assert h in s;
  }

  lemma InTail(s: seq<int>, d: int)
    requires d in s && d != s[0]
    ensures d in s[1..]
  {
    var j :| 0 <= j < |s| && s[j] == d;
    assert s[1..][j - 1] == d;
  }

  /** Two sequences of the same distinct ids, both in fused order, are equal:
      the fused order leaves nothing to chance. */
  lemma {:induction false} RankedIdsUnique(dense: seq<int>, sparse: seq<int>, k: nat, a: seq<int>, b: seq<int>)
    requires RankedIds(dense, sparse, k, a) && RankedIds(dense, sparse, k, b)
    requires forall d :: d in a <==> d in b
    ensures a == b
    decreases |a|
  {
    if a != [] && b != [] {
      assert a[0] in a && b[0] in b;
      if a[0] != b[0] {
        Member(b, a, b[0]);
        HeadPrecedes(dense, sparse, k, a, b[0]);
        Member(a, b, a[0]);
        HeadPrecedes(dense, sparse, k, b, a[0]);
        assert false;
      }
      forall d ensures d in a[1..] <==> d in b[1..] {
        if d in a[1..] {
          var i :| 0 <= i < |a| - 1 && a[1..][i] == d;
          assert a[i + 1] != a[0];
          InTail(b, d);
        }
        if d in b[1..] {
          var i :| 0 <= i < |b| - 1 && b[1..][i] == d;
          assert b[i + 1] != b[0];
          InTail(a, d);
        }
      }
      RankedIdsUnique(dense, sparse, k, a[1..], b[1..]);
      assert a == [a[0]] + a[1..] && b == [b[0]] + b[1..];
    } else {
      SameElementsEmpty(a, b);
    }
  }

  lemma SameElementsEmpty(a: seq<int>, b: seq<int>)
    requires forall d :: d in a <==> d in b
    requires a == [] || b == []
    ensures a == b
  {
    if a != [] {
      Member(a, b, a[0]);
      assert false;
    } else if b != [] {
      Member(b, a, b[0]);
      assert false;
    }
  }

  lemma Member(s: seq<int>, t: seq<int>, x: int)
    requires forall d :: d in s ==> d in t
    requires x in s
    ensures x in t
  {
  }

  /** Any two results of the fusion of the same lists agree. */
  lemma FusionDeterministic(dense: seq<int>, sparse: seq<int>, k: nat, a: seq<int>, b: seq<int>)
    requires IsFusion(dense, sparse, k, a) && IsFusion(dense, sparse, k, b)
    ensures a == b
  {
    RankedIdsUnique(dense, sparse, k, a, b);
  }

  /** The contribution of a three-entry list, written out. */
  lemma ContributionOfThree(x0: int, x1: int, x2: int, d: int, k: nat)
    ensures Contribution([x0, x1, x2], d, k) ==
      (if x0 == d then 1.0 / (k + 1) as real else 0.0) +
      (if x1 == d then 1.0 / (k + 2) as real else 0.0) +
      (if x2 == d then 1.0 / (k + 3) as real else 0.0)
  {
    ContributionSnoc([], x0, d, k);
    assert [] + [x0] == [x0];
    ContributionSnoc([x0], x1, d, k);
    assert [x0] + [x1] == [x0, x1];
    ContributionSnoc([x0, x1], x2, d, k);
    assert [x0, x1] + [x2] == [x0, x1, x2];
  }

  lemma ExampleScores()
    ensures Score([3, 1, 2], [1, 3, 4], 3, 60) == 1.0 / 61.0 + 1.0 / 62.0
    ensures Score([3, 1, 2], [1, 3, 4], 1, 60) == 1.0 / 62.0 + 1.0 / 61.0
    ensures Score([3, 1, 2], [1, 3, 4], 2, 60) == 1.0 / 63.0
    ensures Score([3, 1, 2], [1, 3, 4], 4, 60) == 1.0 / 63.0
  {
    assert Score([3, 1, 2], [1, 3, 4], 3, 60) == 1.0 / 61.0 + 1.0 / 62.0 by {
      ContributionOfThree(3, 1, 2, 3, 60);
      ContributionOfThree(1, 3, 4, 3, 60);
    }
    assert Score([3, 1, 2], [1, 3, 4], 1, 60) == 1.0 / 62.0 + 1.0 / 61.0 by {
      ContributionOfThree(3, 1, 2, 1, 60);
      ContributionOfThree(1, 3, 4, 1, 60);
    }
    assert Score([3, 1, 2], [1, 3, 4], 2, 60) == 1.0 / 63.0 by {
      ContributionOfThree(3, 1, 2, 2, 60);
      ContributionOfThree(1, 3, 4, 2, 60);
    }
    assert Score([3, 1, 2], [1, 3, 4], 4, 60) == 1.0 / 63.0 by {
      ContributionOfThree(3, 1, 2, 4, 60);
      ContributionOfThree(1, 3, 4, 4, 60);
    }
  }

  lemma ExampleFirstOccurrences()
    ensures [3, 1, 2] + [1, 3, 4] == [3, 1, 2, 1, 3, 4]
    ensures IndexOf([3, 1, 2] + [1, 3, 4], 3) == 0
    ensures IndexOf([3, 1, 2] + [1, 3, 4], 1) == 1
    ensures IndexOf([3, 1, 2] + [1, 3, 4], 2) == 2
    ensures IndexOf([3, 1, 2] + [1, 3, 4], 4) == 5
  {
    var all := [3, 1, 2] + [1, 3, 4];
    assert all == [3, 1, 2, 1, 3, 4];
    IndexOfUnique(all, 3, 0);
    IndexOfUnique(all, 1, 1);
    IndexOfUnique(all, 2, 2);
    assert all[..5] == [3, 1, 2, 1, 3];
    IndexOfUnique(all, 4, 5);
  }

  /** dense = [3, 1, 2], sparse = [1, 3, 4], k = 60: ids 3 and 1 tie at
      1/61 + 1/62 and ids 2 and 4 tie at 1/63; 3 entered the score dict
      before 1 and 2 before 4, so the fused list is [3, 1, 2, 4]. */
  lemma TieBreakExample(fused: seq<int>)
    requires IsFusion([3, 1, 2], [1, 3, 4], 60, fused)
    ensures fused == [3, 1, 2, 4]
  {
    var dense, sparse := [3, 1, 2], [1, 3, 4];
    ExampleScores();
    ExampleFirstOccurrences();
    var expected := [3, 1, 2, 4];
    assert RankedIds(dense, sparse, 60, expected);
    forall d ensures d in fused <==> d in expected {
      assert d in expected <==> d in dense + sparse;
    }
    RankedIdsUnique(dense, sparse, 60, fused, expected);
  }
}
