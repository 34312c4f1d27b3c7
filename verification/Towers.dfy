/** The arithmetic of skip-list levels: towers of given heights stand in a row, and the pointer of a
    tower at a level leads to the next tower that reaches that level. */
module Towers {

  /** The first position from `from` on whose tower has the level; the row's length if there is none. */
  function NextTall(heights: seq<nat>, level: nat, from: nat): (m: nat)
    requires from <= |heights|
    ensures from <= m <= |heights|
    ensures m < |heights| ==> heights[m] > level
    ensures forall k :: from <= k < m ==> heights[k] <= level
    decreases |heights| - from
  {
    if from == |heights| || heights[from] > level then from else NextTall(heights, level, from + 1)
  }

  /** Where the pointer of the tower at j leads on a level it has. */
  function Link(heights: seq<nat>, level: nat, j: nat): (m: nat)
    requires j < |heights|
    ensures j < m <= |heights|
    ensures m < |heights| ==> heights[m] > level
    ensures forall k :: j < k < m ==> heights[k] <= level
  {
    NextTall(heights, level, j + 1)
  }

  lemma LinkIs(heights: seq<nat>, level: nat, j: nat, m: nat)
    requires j < m <= |heights|
    requires m < |heights| ==> heights[m] > level
    requires forall k :: j < k < m ==> heights[k] <= level
    ensures Link(heights, level, j) == m
  {
  }

  function InsertAt<T>(s: seq<T>, p: nat, x: T): (r: seq<T>)
    requires p <= |s|
    ensures |r| == |s| + 1
    ensures forall k :: 0 <= k < |r| ==> r[k] == if k < p then s[k] else if k == p then x else s[k - 1]
  {
    s[..p] + [x] + s[p..]
  }

  /** Where position k of a row is after an insertion at p. */
  function Moved(k: nat, p: nat): nat {
    if k < p then k else k + 1
  }

  /** A tower of height zero is invisible: every pointer leads to the same tower as before. */
  lemma InsertFlat(heights: seq<nat>, level: nat, j: nat, p: nat)
    requires j < |heights| && p <= |heights|
    ensures Link(InsertAt(heights, p, 0), level, Moved(j, p)) == Moved(Link(heights, level, j), p)
  {
    hide Link;
    var after := InsertAt(heights, p, 0);
    var m := Link(heights, level, j);
    forall k | Moved(j, p) < k < Moved(m, p) ensures after[k] <= level {
      if k < p {
        assert heights[k] <= level;
      } else if k > p {
        assert heights[k - 1] <= level;
      }
    }
    LinkIs(after, level, Moved(j, p), Moved(m, p));
  }

  /** An insertion of height zero keeps the place a search found for it. */
  lemma PlaceKept(heights: seq<nat>, p: nat, level: nat, at: nat)
    requires at < p <= |heights| && heights[at] > level && p <= Link(heights, level, at)
    ensures var after := InsertAt(heights, p, 0); after[at] > level && p < Link(after, level, at)
  {
    InsertFlat(heights, level, at, p);
  }

  /** Linking the tower at p on its next level, behind the tower at `at`, which is the last one before p
      on that level: only two pointers change. */
  lemma LinkLevel(heights: seq<nat>, p: nat, level: nat, at: nat)
    requires p < |heights| && heights[p] == level
    requires at < p < Link(heights, level, at) && heights[at] > level
    ensures var after := heights[p := level + 1];
      forall j, l {:trigger Link(after, l, j)} | 0 <= j < |after| && 0 <= l < after[j] ::
        Link(after, l, j) ==
          if l == level && j == at then p
          else if l == level && j == p then Link(heights, level, at)
          else Link(heights, l, j)
  {
    hide Link;
    var after := heights[p := level + 1];
    var beyond := Link(heights, level, at);
    forall j, l {:trigger Link(after, l, j)} | 0 <= j < |after| && 0 <= l < after[j]
      ensures Link(after, l, j) ==
        if l == level && j == at then p else if l == level && j == p then beyond else Link(heights, l, j)
    {
      if l == level && j != at && j < p {
        assert Link(heights, level, j) <= at;
      }
      LinkIs(after, l, j, if l == level && j == at then p else if l == level && j == p then beyond else Link(heights, l, j));
    }
  }
}
