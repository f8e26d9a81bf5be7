/** src/gui/pageviewmode.cc: cycling through the operators under the mouse, from the top of the page down. */
module HitCycle {

  /** Greatest hit below n, or -1. */
  function LastHit(hits: seq<bool>, n: nat): (r: int)
    requires n <= |hits|
    ensures -1 <= r < n
    ensures r >= 0 ==> hits[r]
    ensures forall i :: r < i < n ==> !hits[i]
  {
    if n == 0 then -1 else if hits[n - 1] then n - 1 else LastHit(hits, n - 1)
  }

  /** The cyclically previous hit, or -1 if there is none at all. */
  function Prev(hits: seq<bool>, it: nat): (r: int)
    requires it <= |hits|
    ensures -1 <= r < |hits|
    ensures r >= 0 ==> hits[r]
    ensures r == -1 <==> forall i :: 0 <= i < |hits| ==> !hits[i]
  {
    if LastHit(hits, it) >= 0 then LastHit(hits, it) else LastHit(hits, |hits|)
  }

  /** Where a search leaves the iterator: at the hit, or where it gives up. */
  function SearchEnd(hits: seq<bool>, it: nat): (r: nat)
    requires it <= |hits|
    ensures r <= |hits|
  {
    if Prev(hits, it) >= 0 then Prev(hits, it) else if it < |hits| then it else 0
  }

  /** Searches backwards from an iterator, then once more from the end down to where it began. */
  method FindPrevOperator(it: nat, hits: seq<bool>) returns (found: bool, it': nat, fromEnd: bool)
    requires it <= |hits|
    ensures it' == SearchEnd(hits, it)
    ensures found <==> exists i :: 0 <= i < |hits| && hits[i]
    ensures found <==> Prev(hits, it) >= 0
    ensures found ==>
      && hits[it']
      && (it' < it ==> forall k :: it' < k < it ==> !hits[k])
      && (it' >= it ==> forall k :: 0 <= k < |hits| && (k < it || k > it') ==> !hits[k])
    ensures !found ==> it' == if it < |hits| then it else 0
    ensures fromEnd <==> forall i :: 0 <= i < it ==> !hits[i]
  {
    it' := it;
    fromEnd := false;
    if |hits| == 0 {
      return false, it', true;
    }
    while it' != 0
      invariant it' <= it
      invariant LastHit(hits, it) == LastHit(hits, it')
    {
      it' := it' - 1;
      if hits[it'] {
        return true, it', fromEnd;
      }
    }
    assert LastHit(hits, it) == -1;
    fromEnd := true;
    it' := |hits| - 1;
    while !hits[it'] && it' != it && it' != 0
      invariant 0 <= it' < |hits| && (it < |hits| ==> it <= it')
      invariant LastHit(hits, |hits|) == LastHit(hits, it' + 1)
      decreases it'
    {
      it' := it' - 1;
    }
    found := hits[it'];
  }

  /** Number of hits below n. */
  ghost function Rank(hits: seq<bool>, n: nat): (r: nat)
    requires n <= |hits|
    ensures r <= n
  {
    if n == 0 then 0 else Rank(hits, n - 1) + if hits[n - 1] then 1 else 0
  }

  lemma {:induction false} RankGrows(hits: seq<bool>, i: nat, j: nat)
    requires i <= j <= |hits|
    ensures Rank(hits, i) <= Rank(hits, j)
    ensures i < j && hits[i] ==> Rank(hits, i) < Rank(hits, j)
    decreases j
  {
    if i < j {
      RankGrows(hits, i, j - 1);
    }
  }

  /** The last hit below n has all the others below it. */
  lemma {:induction false} RankOfLast(hits: seq<bool>, n: nat)
    requires n <= |hits|
    ensures if LastHit(hits, n) >= 0 then Rank(hits, LastHit(hits, n)) == Rank(hits, n) - 1 else Rank(hits, n) == 0
  {
    if n > 0 && !hits[n - 1] {
      RankOfLast(hits, n - 1);
    }
  }

  /** Where k successive calls lead. */
  ghost function Steps(hits: seq<bool>, it: nat, k: nat): (r: nat)
    requires it <= |hits| && Rank(hits, |hits|) > 0
    ensures r <= |hits| && (k > 0 ==> r < |hits| && hits[r])
  {
    if k == 0 then it
    else
      RankOfLast(hits, |hits|);
      Prev(hits, Steps(hits, it, k - 1))
  }

  /** Ranks go down by one with every call, around a circle as long as there are hits. */
  lemma {:induction false} StepsRank(hits: seq<bool>, it: nat, k: nat)
    requires it <= |hits| && 1 <= k <= Rank(hits, |hits|)
    ensures Rank(hits, Steps(hits, it, k))
         == if k <= Rank(hits, it) then Rank(hits, it) - k else Rank(hits, it) - k + Rank(hits, |hits|)
  {
    hide Rank, LastHit;
    RankGrows(hits, it, |hits|);
    if k > 1 {
      StepsRank(hits, it, k - 1);
    }
    RankOfLast(hits, Steps(hits, it, k - 1));
    RankOfLast(hits, |hits|);
  }

  /** With m operators under the point, any m successive calls visit each of them, and no call repeats another. */
  lemma EachVisitedOnce(hits: seq<bool>, it: nat, target: nat) returns (k: nat)
    requires it <= |hits| && target < |hits| && hits[target]
    ensures Rank(hits, |hits|) > 0
    ensures 1 <= k <= Rank(hits, |hits|) && Steps(hits, it, k) == target
    ensures forall j :: 1 <= j <= Rank(hits, |hits|) && Steps(hits, it, j) == target ==> j == k
  {
    hide Rank, Steps;
    RankGrows(hits, target, |hits|);
    RankGrows(hits, it, |hits|);
    var m := Rank(hits, |hits|);
    var a, b := Rank(hits, it), Rank(hits, target);
    k := if a > b then a - b else a + m - b;
    StepsRank(hits, it, k);
    SameRankSameHit(hits, Steps(hits, it, k), target);
    forall j | 1 <= j <= m && Steps(hits, it, j) == target
      ensures j == k
    {
      StepsRank(hits, it, j);
    }
  }

  lemma SameRankSameHit(hits: seq<bool>, i: nat, j: nat)
    requires i < |hits| && j < |hits| && hits[i] && hits[j] && Rank(hits, i) == Rank(hits, j)
    ensures i == j
  {
    if i < j {
      RankGrows(hits, i, j);
    } else if j < i {
      RankGrows(hits, j, i);
    }
  }

  /** Begun at the end, the first call finds the topmost hit. */
  lemma FirstIsTopmost(hits: seq<bool>, target: nat)
    requires target < |hits| && hits[target]
    ensures Prev(hits, |hits|) >= target && hits[Prev(hits, |hits|)]
  {
  }
}
