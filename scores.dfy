/**
 * End-of-game winner selection as values: the highest score, how many
 * players reach it, and the ids of those players in player order.
 */
module Scores {

  /** The highest of the scores, found left to right as announceWinners does. */
  function MaxScore(s: seq<int>): (m: int)
    requires |s| > 0
    ensures forall i :: 0 <= i < |s| ==> s[i] <= m
    ensures exists i :: 0 <= i < |s| && s[i] == m
  {
    if |s| == 1 then s[0]
    else
      var m := MaxScore(s[..|s| - 1]);
      assert forall i :: 0 <= i < |s| - 1 ==> s[..|s| - 1][i] == s[i];
      if m < s[|s| - 1] then s[|s| - 1] else m
  }

  /** Number of entries of `s` equal to `v`. */
  function CountOf(s: seq<int>, v: int): nat
  {
    if s == [] then 0 else CountOf(s[..|s| - 1], v) + (if s[|s| - 1] == v then 1 else 0)
  }

  /** The indices of the entries of `s` equal to `v`, in increasing order. */
  function IndicesOf(s: seq<int>, v: int): (r: seq<nat>)
    ensures forall a :: 0 <= a < |r| ==> r[a] < |s|
  {
    if s == [] then [] else IndicesOf(s[..|s| - 1], v) + (if s[|s| - 1] == v then [|s| - 1] else [])
  }

  /** The ids at the given player indices, in that order. */
  function Pick(ids: seq<int>, idx: seq<nat>): (r: seq<int>)
    requires forall j :: 0 <= j < |idx| ==> idx[j] < |ids|
    ensures |r| == |idx|
  {
    seq(|idx|, j requires 0 <= j < |idx| => ids[idx[j]])
  }

  /** The winners: the ids of the players holding the highest score, in player order. */
  function Winners(scores: seq<int>, ids: seq<int>): (w: seq<int>)
    requires |scores| > 0 && |ids| == |scores|
    ensures |w| == CountOf(scores, MaxScore(scores))
  {
    IndicesOfSpec(scores, MaxScore(scores));
    Pick(ids, IndicesOf(scores, MaxScore(scores)))
  }

  /**
   * IndicesOf lists exactly the positions holding `v`, each once and in
   * increasing order, and there are CountOf of them.
   */
  lemma {:induction false} IndicesOfSpec(s: seq<int>, v: int)
    ensures |IndicesOf(s, v)| == CountOf(s, v)
    ensures forall k :: k in IndicesOf(s, v) <==> 0 <= k < |s| && s[k] == v
    ensures forall a, b :: 0 <= a < b < |IndicesOf(s, v)| ==> IndicesOf(s, v)[a] < IndicesOf(s, v)[b]
  {
    if s != [] {
      var p := s[..|s| - 1];
      IndicesOfSpec(p, v);
      assert forall i :: 0 <= i < |p| ==> p[i] == s[i];
    }
  }

  /** A prefix holds no more copies of `v` than the whole sequence. */
  lemma {:induction false} CountOfPrefix(s: seq<int>, n: nat, v: int)
    requires n <= |s|
    ensures CountOf(s[..n], v) <= CountOf(s, v)
    decreases |s| - n
  {
    if n < |s| {
      CountOfPrefix(s, n + 1, v);
      assert s[..n + 1][..n] == s[..n];
    } else {
      assert s[..n] == s;
    }
  }

  /** A value above every entry does not occur. */
  lemma {:induction false} CountOfAbsent(s: seq<int>, v: int)
    requires forall i :: 0 <= i < |s| ==> s[i] < v
    ensures CountOf(s, v) == 0
  {
    if s != [] {
      CountOfAbsent(s[..|s| - 1], v);
    }
  }

  /**
   * One more score seen by the first loop of announceWinners: the running
   * maximum moves up to a larger score, whose count restarts at one, and an
   * equal score adds one to the count.
   */
  lemma TallyStep(s: seq<int>, i: nat)
    requires 0 < i < |s|
    ensures var m := MaxScore(s[..i]);
      && MaxScore(s[..i + 1]) == (if m < s[i] then s[i] else m)
      && CountOf(s[..i + 1], MaxScore(s[..i + 1])) ==
           if m < s[i] then 1 else if m == s[i] then CountOf(s[..i], m) + 1 else CountOf(s[..i], m)
  {
    assert s[..i + 1][..i] == s[..i];
    var m := MaxScore(s[..i]);
    if m < s[i] {
      CountOfAbsent(s[..i], s[i]);
    }
  }

  /**
   * One more player seen by the second loop of announceWinners: a player
   * holding `v` is appended to the list of winners, and to their count.
   */
  lemma ListStep(s: seq<int>, ids: seq<int>, i: nat, v: int)
    requires |ids| == |s| && i < |s|
    ensures CountOf(s[..i + 1], v) == CountOf(s[..i], v) + (if s[i] == v then 1 else 0)
    ensures Pick(ids, IndicesOf(s[..i + 1], v)) == Pick(ids, IndicesOf(s[..i], v)) + (if s[i] == v then [ids[i]] else [])
  {
    assert s[..i + 1][..i] == s[..i];
  }

  /**
   * The winners are exactly the players holding the highest score: there is
   * at least one, their number is the count of that score, and player `k`
   * is listed (by id, in player order) exactly when its score is the maximum.
   */
  lemma WinnersExact(scores: seq<int>, ids: seq<int>)
    requires |scores| > 0 && |ids| == |scores|
    ensures var w := Winners(scores, ids); var m := MaxScore(scores);
      && |w| == CountOf(scores, m) >= 1
      && (forall k :: 0 <= k < |scores| && scores[k] == m ==> ids[k] in w)
      && (forall x :: x in w ==> exists k :: 0 <= k < |scores| && scores[k] == m && ids[k] == x)
  {
    var m := MaxScore(scores);
    IndicesOfSpec(scores, m);
    var idx := IndicesOf(scores, m);
    var w := Winners(scores, ids);
    var k0 :| 0 <= k0 < |scores| && scores[k0] == m;
    assert k0 in idx;
    forall k | 0 <= k < |scores| && scores[k] == m ensures ids[k] in w {
      assert k in idx;
      var j :| 0 <= j < |idx| && idx[j] == k;
      assert w[j] == ids[k];
    }
    forall x | x in w ensures exists k :: 0 <= k < |scores| && scores[k] == m && ids[k] == x {
      var j :| 0 <= j < |w| && w[j] == x;
      assert idx[j] in idx;
    }
  }
}
