/** How balance_nonroot decides which cells go on which sibling page. */
module BalancePack {

  /** Pages taking part in a balance: the page itself and one neighbour on either side. */
  const NB := 3

  datatype Rc = Ok | Corrupt

  /** Bytes needed by cells lo..hi-1 and their two-byte pointers. */
  function Weight(sz: seq<nat>, lo: nat, hi: nat): (w: nat)
    requires lo <= hi <= |sz|
    decreases hi - lo
  {
    if lo == hi then 0 else Weight(sz, lo, hi - 1) + sz[hi - 1] + 2
  }

  lemma {:induction false} WeightSplit(sz: seq<nat>, lo: nat, mid: nat, hi: nat)
    requires lo <= mid <= hi <= |sz|
    ensures Weight(sz, lo, hi) == Weight(sz, lo, mid) + Weight(sz, mid, hi)
    decreases hi - mid
  {
    if mid < hi {
      WeightSplit(sz, lo, mid, hi - 1);
    }
  }

  /** Three cells of at most a third of the capacity fit together. */
  lemma ThreeFit(sz: seq<nat>, lo: nat, hi: nat, cap: nat)
    requires lo <= hi <= |sz| && hi - lo <= 3
    requires forall j | lo <= j < hi :: 3 * (sz[j] + 2) <= cap
    ensures Weight(sz, lo, hi) <= cap
  {
    if lo < hi {
      assert Weight(sz, lo, hi) == Weight(sz, lo, hi - 1) + sz[hi - 1] + 2;
      if lo < hi - 1 {
        assert Weight(sz, lo, hi - 1) == Weight(sz, lo, hi - 2) + sz[hi - 2] + 2;
        if lo < hi - 2 {
          assert Weight(sz, lo, hi - 2) == Weight(sz, lo, lo) + sz[hi - 3] + 2;
        }
      }
    }
  }

  /** First cell of page `i` when page i-1 ends before cell cnt[i-1].  Unless the leaves hold the data,
      the cell between two pages moves up to the parent as their divider. */
  function Start(leafData: bool, cnt: seq<nat>, i: nat): (s: nat)
    requires i <= |cnt|
  {
    if i == 0 then 0 else cnt[i - 1] + if leafData then 0 else 1
  }

  /** Page `i` holds cells Start(i)..cnt[i]-1 and they fit. */
  ghost predicate PageFits(sz: seq<nat>, leafData: bool, cap: nat, cnt: seq<nat>, i: nat)
    requires i < |cnt|
  {
    Start(leafData, cnt, i) <= cnt[i] <= |sz| && Weight(sz, Start(leafData, cnt, i), cnt[i]) <= cap
  }

  /** A distribution of all cells over |cnt| consecutive pages, none overfull. */
  ghost predicate Feasible(sz: seq<nat>, leafData: bool, cap: nat, cnt: seq<nat>)
  {
    |cnt| > 0 && cnt[|cnt| - 1] == |sz| && forall i | 0 <= i < |cnt| :: PageFits(sz, leafData, cap, cnt, i)
  }

  ghost predicate NoEmptyPage(leafData: bool, cnt: seq<nat>)
  {
    forall i {:trigger Start(leafData, cnt, i)} | 0 <= i < |cnt| :: Start(leafData, cnt, i) < cnt[i]
  }

  /** szNew[i] is the weight of page `i` plus `over`. */
  ghost predicate Tally(sz: seq<nat>, leafData: bool, cnt: seq<nat>, szNew: seq<int>, i: nat, over: int)
    requires i < |cnt| == |szNew|
  {
    Start(leafData, cnt, i) <= cnt[i] <= |sz| && szNew[i] == Weight(sz, Start(leafData, cnt, i), cnt[i]) + over
  }

  /** The pages in `cnt` are full: the next cell would not have fitted on any of them. */
  ghost predicate Full(sz: seq<nat>, leafData: bool, cap: nat, cnt: seq<nat>)
  {
    forall i | 0 <= i < |cnt| :: PageFull(sz, leafData, cap, cnt, i)
  }

  ghost predicate PageFull(sz: seq<nat>, leafData: bool, cap: nat, cnt: seq<nat>, i: nat)
    requires i < |cnt|
  {
    PageFits(sz, leafData, cap, cnt, i) && cnt[i] < |sz| && Weight(sz, Start(leafData, cnt, i), cnt[i] + 1) > cap
  }

  /** No distribution gets further with its first i+1 pages than full pages do. */
  lemma {:induction false} StaysAhead(sz: seq<nat>, leafData: bool, cap: nat, full: seq<nat>, other: seq<nat>, i: nat)
    requires Full(sz, leafData, cap, full) && Feasible(sz, leafData, cap, other)
    requires i < |full| && i < |other|
    ensures other[i] <= full[i]
  {
    if i > 0 {
      StaysAhead(sz, leafData, cap, full, other, i - 1);
    }
    var s, s' := Start(leafData, full, i), Start(leafData, other, i);
    assert PageFull(sz, leafData, cap, full, i) && PageFits(sz, leafData, cap, other, i);
    if other[i] > full[i] {
      WeightSplit(sz, s', s, other[i]);
      WeightSplit(sz, s, full[i] + 1, other[i]);
    }
  }

  /** Greedy packing is optimal: whoever needs |full| full pages and more cannot do with fewer. */
  lemma GreedyMinimal(sz: seq<nat>, leafData: bool, cap: nat, full: seq<nat>, other: seq<nat>)
    requires Full(sz, leafData, cap, full) && Feasible(sz, leafData, cap, other)
    ensures |other| > |full|
  {
    if |other| <= |full| {
      assert PageFull(sz, leafData, cap, full, |other| - 1);
      StaysAhead(sz, leafData, cap, full, other, |other| - 1);
    }
  }

  /** The first packing loop of balance_nonroot.  szNew[i] of a full page is two too large, as in the code. */
  method Greedy(sz: seq<nat>, leafData: bool, cap: nat) returns (rc: Rc, cnt: seq<nat>, szNew: seq<int>)
    ensures rc == Ok ==>
      && |cnt| == |szNew| <= NB + 2 && Feasible(sz, leafData, cap, cnt)
      && Full(sz, leafData, cap, cnt[..|cnt| - 1])
      && (forall i | 0 <= i < |cnt| - 1 :: Tally(sz, leafData, cnt, szNew, i, 2))
      && Tally(sz, leafData, cnt, szNew, |cnt| - 1, 0)
      && (forall other | Feasible(sz, leafData, cap, other) :: |cnt| <= |other|)
    ensures rc == Corrupt ==> forall other | Feasible(sz, leafData, cap, other) :: |other| > NB + 2
  {
    cnt, szNew := [], [];
    var subtotal, i := 0, 0;
    while i < |sz|
      invariant |cnt| == |szNew| <= NB + 1 && Full(sz, leafData, cap, cnt)
      invariant Start(leafData, cnt, |cnt|) <= i <= |sz|
      invariant subtotal == Weight(sz, Start(leafData, cnt, |cnt|), i) <= cap
      invariant forall j | 0 <= j < |cnt| :: Tally(sz, leafData, cnt, szNew, j, 2)
      decreases NB + 1 - |cnt|, |sz| - i
    {
      subtotal := subtotal + sz[i] + 2;
      if subtotal > cap {
        FullAppend(sz, leafData, cap, cnt, i);
        TallyAppend(sz, leafData, cnt, szNew, i, subtotal - sz[i], 2);
        cnt, szNew := cnt + [i], szNew + [subtotal - sz[i]];
        if leafData {
          i := i - 1;
        }
        subtotal := 0;
        if |cnt| > NB + 1 {
          forall other | Feasible(sz, leafData, cap, other) ensures |other| > NB + 2 {
            GreedyMinimal(sz, leafData, cap, cnt, other);
          }
          return Corrupt, cnt, szNew;
        }
      }
      i := i + 1;
    }
    ghost var full := cnt;
    FeasibleAppend(sz, leafData, cap, cnt);
    TallyAppend(sz, leafData, cnt, szNew, |sz|, subtotal, 0);
    cnt, szNew := cnt + [|sz|], szNew + [subtotal];
    forall other | Feasible(sz, leafData, cap, other) ensures |cnt| <= |other| {
      GreedyMinimal(sz, leafData, cap, full, other);
    }
    assert cnt[..|cnt| - 1] == full;
    rc := Ok;
  }

  lemma StartAppend(leafData: bool, cnt: seq<nat>, c: nat, i: nat)
    requires i <= |cnt|
    ensures Start(leafData, cnt + [c], i) == Start(leafData, cnt, i)
  {
  }

  lemma TallyAppend(sz: seq<nat>, leafData: bool, cnt: seq<nat>, szNew: seq<int>, c: nat, w: int, over: int)
    requires |cnt| == |szNew| && forall j | 0 <= j < |cnt| :: Tally(sz, leafData, cnt, szNew, j, 2)
    requires Start(leafData, cnt, |cnt|) <= c <= |sz| && w == Weight(sz, Start(leafData, cnt, |cnt|), c) + over
    ensures forall j | 0 <= j < |cnt| :: Tally(sz, leafData, cnt + [c], szNew + [w], j, 2)
    ensures Tally(sz, leafData, cnt + [c], szNew + [w], |cnt|, over)
  {
    forall j | 0 <= j < |cnt| ensures Tally(sz, leafData, cnt + [c], szNew + [w], j, 2) {
      assert Tally(sz, leafData, cnt, szNew, j, 2);
      StartAppend(leafData, cnt, c, j);
    }
    StartAppend(leafData, cnt, c, |cnt|);
  }

  lemma FullAppend(sz: seq<nat>, leafData: bool, cap: nat, cnt: seq<nat>, c: nat)
    requires Full(sz, leafData, cap, cnt) && Start(leafData, cnt, |cnt|) <= c < |sz|
    requires Weight(sz, Start(leafData, cnt, |cnt|), c) <= cap < Weight(sz, Start(leafData, cnt, |cnt|), c + 1)
    ensures Full(sz, leafData, cap, cnt + [c])
  {
    var cnt' := cnt + [c];
    forall i | 0 <= i < |cnt'| ensures PageFull(sz, leafData, cap, cnt', i) {
      StartAppend(leafData, cnt, c, i);
      if i < |cnt| {
        assert PageFull(sz, leafData, cap, cnt, i);
      }
    }
  }

  lemma FeasibleAppend(sz: seq<nat>, leafData: bool, cap: nat, full: seq<nat>)
    requires Full(sz, leafData, cap, full) && Start(leafData, full, |full|) <= |sz|
    requires Weight(sz, Start(leafData, full, |full|), |sz|) <= cap
    ensures Feasible(sz, leafData, cap, full + [|sz|])
  {
    var cnt := full + [|sz|];
    forall i | 0 <= i < |cnt| ensures PageFits(sz, leafData, cap, cnt, i) {
      StartAppend(leafData, full, |sz|, i);
      if i < |full| {
        assert PageFull(sz, leafData, cap, full, i);
      }
    }
  }

  // ---------------------------------------------------------------- evening out

  /** Cell sizes that the page format guarantees: a cell has at least four bytes; leaf-data cells fit on a
      page by themselves, and three of any other kind fit together. */
  ghost predicate SizesOk(sz: seq<nat>, leafData: bool, cap: nat)
  {
    forall j | 0 <= j < |sz| :: 4 <= sz[j] && if leafData then sz[j] + 2 <= cap else 3 * (sz[j] + 2) <= cap
  }

  /** While the right-to-left pass is at page `i`: pages behind `i` are final; pages before it are still full. */
  ghost predicate Evening(sz: seq<nat>, leafData: bool, cap: nat, cnt: seq<nat>, szNew: seq<int>, i: nat)
  {
    && i < |cnt| == |szNew| && Feasible(sz, leafData, cap, cnt)
    && (forall j | 0 <= j < i :: PageFull(sz, leafData, cap, cnt, j) && Tally(sz, leafData, cnt, szNew, j, 2))
    && (forall j {:trigger Start(leafData, cnt, j)} | i < j < |cnt| :: Start(leafData, cnt, j) < cnt[j])
    && Tally(sz, leafData, cnt, szNew, i, if i == |cnt| - 1 then 0 else 2)
    && (i < |cnt| - 1 ==> Start(leafData, cnt, i) < cnt[i])
  }

  /** A full page holds at least one cell, and at least three unless the leaves hold the data. */
  lemma FullPageCells(sz: seq<nat>, leafData: bool, cap: nat, cnt: seq<nat>, i: nat)
    requires SizesOk(sz, leafData, cap) && i < |cnt| && PageFull(sz, leafData, cap, cnt, i)
    ensures Start(leafData, cnt, i) + (if leafData then 1 else 3) <= cnt[i]
  {
    var s := Start(leafData, cnt, i);
    if !leafData && cnt[i] < s + 3 {
      ThreeFit(sz, s, cnt[i] + 1, cap);
    }
  }

  /** The inner loop of the adjustment: shift the boundary between pages i-1 and i to the left, as long as the right
      page is empty or, unless in bulk, does not become heavier than the left one; one more cell would make it heavier.
      */
  method EvenPair(sz: seq<nat>, leafData: bool, cap: nat, bBulk: bool, s: nat, c0: nat, e: nat, left0: int, right0: int)
    returns (c: nat, szLeft: int, szRight: int)
    requires SizesOk(sz, leafData, cap)
    requires var delta := if leafData then 0 else 1;
      && s + (if leafData then 1 else 3) <= c0 < |sz| && c0 + delta <= e <= |sz|
      && Weight(sz, s, c0) <= cap && Weight(sz, c0 + delta, e) <= cap
      && left0 == Weight(sz, s, c0) + 2
      && (right0 == Weight(sz, c0 + delta, e) || right0 == Weight(sz, c0 + delta, e) + 2)
      && (c0 + delta == e ==> right0 == 0 && !leafData)
    ensures var delta := if leafData then 0 else 1;
      && s < c <= c0 && c + delta < e
      && Weight(sz, s, c) <= cap && Weight(sz, c + delta, e) <= cap
      && szLeft == Weight(sz, s, c) + 2
      && szRight - Weight(sz, c + delta, e) == right0 - Weight(sz, c0 + delta, e)
    ensures Evened(sz, leafData, bBulk, s, c0, c, e, right0 - Weight(sz, c0 + if leafData then 0 else 1, e))
  {
    var delta := if leafData then 0 else 1;
    c, szLeft, szRight := c0, left0, right0;
    var r, d := c - 1, c - 1 + delta;
    while szRight == 0 || (!bBulk && szRight + sz[d] + 2 <= szLeft - (sz[r] + 2))
      invariant s < c <= c0 && r == c - 1 && d == r + delta && c + delta <= e
      invariant Weight(sz, s, c) <= cap && Weight(sz, c + delta, e) <= cap
      invariant szLeft == Weight(sz, s, c) + 2
      invariant szRight - Weight(sz, c + delta, e) == right0 - Weight(sz, c0 + delta, e)
      invariant c + delta == e ==> c == c0 && szRight == 0
      invariant Moving(bBulk, c0, c, right0, szLeft, szRight)
      decreases c
    {
      ShiftWeights(sz, s, c, delta, e);
      szRight := szRight + sz[d] + 2;
      szLeft := szLeft - (sz[r] + 2);
      c := c - 1;
      r := c - 1;
      d := r + delta;
    }
    MovedEnough(sz, leafData, bBulk, s, c0, c, e, right0 - Weight(sz, c0 + delta, e), right0, szLeft, szRight);
  }

  /** How far the boundary has come, with the weights counted on both sides. */
  ghost predicate Moving(bBulk: bool, c0: nat, c: nat, right0: int, szLeft: int, szRight: int) {
    && c <= c0 && (szRight == 0 ==> c == c0 && right0 == 0) && (c == c0 ==> szRight == right0)
    && (bBulk ==> c == c0 || (c == c0 - 1 && right0 == 0))
    && (c < c0 - 1 || (c < c0 && right0 != 0) ==> szRight <= szLeft)
  }

  lemma MovedEnough(sz: seq<nat>, leafData: bool, bBulk: bool, s: nat, c0: nat, c: nat, e: nat, over: int, right0: int,
                    szLeft: int, szRight: int)
    requires Moving(bBulk, c0, c, right0, szLeft, szRight) && szRight != 0
    requires var delta := if leafData then 0 else 1;
      && s < c <= c0 < |sz| && c0 + delta <= e <= |sz| && c + delta < e
      && szLeft == Weight(sz, s, c) + 2 && szRight == Weight(sz, c + delta, e) + over
      && right0 == Weight(sz, c0 + delta, e) + over
      && (bBulk || szRight + sz[c - 1 + delta] + 2 > szLeft - (sz[c - 1] + 2))
    ensures Evened(sz, leafData, bBulk, s, c0, c, e, over)
  {
  }

  /** The boundary between two pages that hold cells from s up to e has moved from c0 to c: in bulk only so far that
      the right page is not empty; otherwise until one more cell would make the right page heavier than the left one,
      and not further, unless it was empty.  `over` is what the greedy pass has counted too much for the right page. */
  ghost predicate Evened(sz: seq<nat>, leafData: bool, bBulk: bool, s: nat, c0: nat, c: nat, e: nat, over: int) {
    var delta := if leafData then 0 else 1;
    && s < c <= c0 < |sz| && c0 + delta <= e <= |sz| && c + delta < e
    && var empty := Weight(sz, c0 + delta, e) + over == 0;
       var left, right := Weight(sz, s, c) + 2, Weight(sz, c + delta, e) + over;
    && (bBulk ==> c == if empty then c0 - 1 else c0)
    && (!bBulk ==> right + sz[c - 1 + delta] + 2 > left - (sz[c - 1] + 2))
    && (c < c0 - 1 || (c < c0 && !empty) ==> right <= left)
  }

  ghost predicate EvenedAt(sz: seq<nat>, leafData: bool, bBulk: bool, cnt0: seq<nat>, cnt: seq<nat>, i: nat)
    requires 1 <= i < |cnt| == |cnt0|
  {
    Evened(sz, leafData, bBulk, Start(leafData, cnt0, i - 1), cnt0[i - 1], cnt[i - 1], cnt[i],
      if i == |cnt| - 1 then 0 else 2)
  }

  /** The distribution that the two loops arrive at: pages filled one after the other, then evened out from right to
      left. */
  ghost predicate Packed(sz: seq<nat>, leafData: bool, cap: nat, bBulk: bool, cnt: seq<nat>) {
    exists cnt0 :: PackedFrom(sz, leafData, cap, bBulk, cnt0, cnt)
  }

  ghost predicate PackedFrom(sz: seq<nat>, leafData: bool, cap: nat, bBulk: bool, cnt0: seq<nat>, cnt: seq<nat>) {
    && |cnt| == |cnt0| && Feasible(sz, leafData, cap, cnt0) && Full(sz, leafData, cap, cnt0[..|cnt0| - 1])
    && cnt[|cnt| - 1] == cnt0[|cnt0| - 1]
    && forall i | 1 <= i < |cnt| :: EvenedAt(sz, leafData, bBulk, cnt0, cnt, i)
  }

  lemma ShiftWeights(sz: seq<nat>, s: nat, c: nat, delta: nat, e: nat)
    requires s < c && c + delta <= e <= |sz| && delta <= 1
    ensures Weight(sz, s, c) == Weight(sz, s, c - 1) + sz[c - 1] + 2
    ensures Weight(sz, c - 1 + delta, e) == Weight(sz, c + delta, e) + sz[c - 1 + delta] + 2
  {
    WeightSplit(sz, c - 1 + delta, c + delta, e);
    assert Weight(sz, c - 1 + delta, c + delta) == Weight(sz, c - 1 + delta, c - 1 + delta) + sz[c - 1 + delta] + 2;
  }

  /** Moving the boundary between pages i-1 and i to `c` keeps the distribution feasible. */
  lemma MoveBoundary(sz: seq<nat>, leafData: bool, cap: nat, cnt: seq<nat>, i: nat, c: nat)
    requires Feasible(sz, leafData, cap, cnt) && 1 <= i < |cnt| && PageFits(sz, leafData, cap, cnt, i)
    requires var delta := if leafData then 0 else 1;
      && Start(leafData, cnt, i - 1) <= c && c + delta <= cnt[i]
      && Weight(sz, Start(leafData, cnt, i - 1), c) <= cap && Weight(sz, c + delta, cnt[i]) <= cap
    ensures Feasible(sz, leafData, cap, cnt[i - 1 := c])
  {
    var cnt' := cnt[i - 1 := c];
    forall j | 0 <= j < |cnt'| ensures PageFits(sz, leafData, cap, cnt', j) {
      assert PageFits(sz, leafData, cap, cnt, j);
      if j == i {
        assert cnt'[i] == cnt[i] && cnt'[i - 1] == c;
      } else {
        assert Start(leafData, cnt', j) == Start(leafData, cnt, j);
        assert j == i - 1 || cnt'[j] == cnt[j];
      }
    }
  }

  lemma EveningStep(sz: seq<nat>, leafData: bool, cap: nat, cnt: seq<nat>, szNew: seq<int>, i: nat, c: nat, left: int,
                    right: int)
    requires Evening(sz, leafData, cap, cnt, szNew, i) && 1 <= i && PageFits(sz, leafData, cap, cnt, i)
    requires var delta := if leafData then 0 else 1;
      && Start(leafData, cnt, i - 1) < c && c + delta < cnt[i]
      && Weight(sz, Start(leafData, cnt, i - 1), c) <= cap && Weight(sz, c + delta, cnt[i]) <= cap
      && left == Weight(sz, Start(leafData, cnt, i - 1), c) + 2
    ensures i < |szNew|
    ensures Evening(sz, leafData, cap, cnt[i - 1 := c], szNew[i := right][i - 1 := left], i - 1)
  {
    var cnt', szNew' := cnt[i - 1 := c], szNew[i := right][i - 1 := left];
    MoveBoundary(sz, leafData, cap, cnt, i, c);
    forall j | 0 <= j < i - 1 ensures PageFull(sz, leafData, cap, cnt', j) && Tally(sz, leafData, cnt', szNew', j, 2) {
      SamePage(sz, leafData, cap, cnt, szNew, cnt', szNew', j);
    }
    forall j | i - 1 < j < |cnt'| ensures Start(leafData, cnt', j) < cnt'[j] {
      StartsBehind(leafData, cnt, i, c, j);
    }
    LeftTally(sz, leafData, cnt, szNew, i, c, left, right);
  }

  lemma LeftTally(sz: seq<nat>, leafData: bool, cnt: seq<nat>, szNew: seq<int>, i: nat, c: nat, left: int, right: int)
    requires 1 <= i < |cnt| == |szNew| && Start(leafData, cnt, i - 1) <= c <= |sz|
    requires left == Weight(sz, Start(leafData, cnt, i - 1), c) + 2
    ensures Start(leafData, cnt[i - 1 := c], i - 1) == Start(leafData, cnt, i - 1)
    ensures Tally(sz, leafData, cnt[i - 1 := c], szNew[i := right][i - 1 := left], i - 1, 2)
  {
  }

  lemma SamePage(sz: seq<nat>, leafData: bool, cap: nat, cnt: seq<nat>, szNew: seq<int>, cnt': seq<nat>,
                 szNew': seq<int>, j: nat)
    requires j < |cnt| == |cnt'| == |szNew| == |szNew'|
    requires PageFull(sz, leafData, cap, cnt, j) && Tally(sz, leafData, cnt, szNew, j, 2)
    requires cnt'[j] == cnt[j] && szNew'[j] == szNew[j] && (j > 0 ==> cnt'[j - 1] == cnt[j - 1])
    ensures PageFull(sz, leafData, cap, cnt', j) && Tally(sz, leafData, cnt', szNew', j, 2)
  {
    assert Start(leafData, cnt', j) == Start(leafData, cnt, j);
  }

  lemma StartsBehind(leafData: bool, cnt: seq<nat>, i: nat, c: nat, j: nat)
    requires 1 <= i <= j < |cnt|
    requires c + (if leafData then 0 else 1) < cnt[i]
    requires j > i ==> Start(leafData, cnt, j) < cnt[j]
    ensures Start(leafData, cnt[i - 1 := c], j) < cnt[i - 1 := c][j]
  {
  }

  lemma EveningInit(sz: seq<nat>, leafData: bool, cap: nat, cnt: seq<nat>, szNew: seq<int>)
    requires |cnt| == |szNew| && Feasible(sz, leafData, cap, cnt) && Full(sz, leafData, cap, cnt[..|cnt| - 1])
    requires forall i | 0 <= i < |cnt| - 1 :: Tally(sz, leafData, cnt, szNew, i, 2)
    requires Tally(sz, leafData, cnt, szNew, |cnt| - 1, 0)
    ensures Evening(sz, leafData, cap, cnt, szNew, |cnt| - 1)
  {
    forall j | 0 <= j < |cnt| - 1 ensures PageFull(sz, leafData, cap, cnt, j) {
      assert PageFull(sz, leafData, cap, cnt[..|cnt| - 1], j);
      assert Start(leafData, cnt[..|cnt| - 1], j) == Start(leafData, cnt, j);
    }
  }

  /** What the inner loop needs to know about pages i-1 and i. */
  lemma EveningPair(sz: seq<nat>, leafData: bool, cap: nat, cnt: seq<nat>, szNew: seq<int>, i: nat)
    requires SizesOk(sz, leafData, cap) && Evening(sz, leafData, cap, cnt, szNew, i) && 1 <= i
    ensures PageFits(sz, leafData, cap, cnt, i) && PageFits(sz, leafData, cap, cnt, i - 1)
    ensures Start(leafData, cnt, i - 1) + (if leafData then 1 else 3) <= cnt[i - 1] < |sz|
    ensures szNew[i - 1] == Weight(sz, Start(leafData, cnt, i - 1), cnt[i - 1]) + 2
    ensures szNew[i] == Weight(sz, Start(leafData, cnt, i), cnt[i]) + if i == |cnt| - 1 then 0 else 2
    ensures Start(leafData, cnt, i) == cnt[i] ==> szNew[i] == 0 && !leafData
  {
    assert PageFull(sz, leafData, cap, cnt, i - 1) && PageFits(sz, leafData, cap, cnt, i)
      && Tally(sz, leafData, cnt, szNew, i - 1, 2);
    FullPageCells(sz, leafData, cap, cnt, i - 1);
  }

  /** The boundaries in front of page i are those of the greedy pass, the others have been evened out. */
  ghost predicate EvenedFrom(sz: seq<nat>, leafData: bool, bBulk: bool, cnt0: seq<nat>, cnt: seq<nat>, i: nat) {
    && |cnt| == |cnt0| > i && cnt[|cnt| - 1] == cnt0[|cnt0| - 1]
    && (forall j | 0 <= j < i :: cnt[j] == cnt0[j])
    && forall j | i < j < |cnt| :: EvenedAt(sz, leafData, bBulk, cnt0, cnt, j)
  }

  lemma EvenedNext(sz: seq<nat>, leafData: bool, bBulk: bool, cnt0: seq<nat>, cnt: seq<nat>, i: nat, c: nat,
                   cnt': seq<nat>)
    requires 1 <= i && EvenedFrom(sz, leafData, bBulk, cnt0, cnt, i) && cnt' == cnt[i - 1 := c]
    requires Evened(sz, leafData, bBulk, Start(leafData, cnt, i - 1), cnt[i - 1], c, cnt[i],
               if i == |cnt| - 1 then 0 else 2)
    ensures EvenedFrom(sz, leafData, bBulk, cnt0, cnt', i - 1)
  {
    forall j | i - 1 < j < |cnt'| ensures EvenedAt(sz, leafData, bBulk, cnt0, cnt', j) {
      if j > i {
        assert EvenedAt(sz, leafData, bBulk, cnt0, cnt, j);
      } else {
        assert Start(leafData, cnt0, i - 1) == Start(leafData, cnt, i - 1);
      }
    }
  }

  /** The second packing loop of balance_nonroot: from right to left, move cells from each page to its right
      neighbour.  Afterwards no page is empty and none is overfull. */
  method EvenOut(sz: seq<nat>, leafData: bool, cap: nat, bBulk: bool, cnt0: seq<nat>, szNew0: seq<int>)
    returns (cnt: seq<nat>)
    requires SizesOk(sz, leafData, cap)
    requires |cnt0| == |szNew0| && Feasible(sz, leafData, cap, cnt0) && Full(sz, leafData, cap, cnt0[..|cnt0| - 1])
    requires forall i | 0 <= i < |cnt0| - 1 :: Tally(sz, leafData, cnt0, szNew0, i, 2)
    requires Tally(sz, leafData, cnt0, szNew0, |cnt0| - 1, 0)
    ensures |cnt| == |cnt0| && Feasible(sz, leafData, cap, cnt)
    ensures |sz| > 0 ==> NoEmptyPage(leafData, cnt)
    ensures PackedFrom(sz, leafData, cap, bBulk, cnt0, cnt)
  {
    cnt := cnt0;
    var szNew := szNew0;
    var i := |cnt| - 1;
    EveningInit(sz, leafData, cap, cnt, szNew);
    while i > 0
      invariant 0 <= i < |cnt| == |cnt0| && Evening(sz, leafData, cap, cnt, szNew, i)
      invariant EvenedFrom(sz, leafData, bBulk, cnt0, cnt, i)
    {
      EveningPair(sz, leafData, cap, cnt, szNew, i);
      var s, c0, e := Start(leafData, cnt, i - 1), cnt[i - 1], cnt[i];
      var c, left, right := EvenPair(sz, leafData, cap, bBulk, s, c0, e, szNew[i - 1], szNew[i]);
      EveningStep(sz, leafData, cap, cnt, szNew, i, c, left, right);
      EvenedNext(sz, leafData, bBulk, cnt0, cnt, i, c, cnt[i - 1 := c]);
      cnt, szNew := cnt[i - 1 := c], szNew[i := right][i - 1 := left];
      i := i - 1;
    }
  }

  // ---------------------------------------------------------------- the branch that reports corruption

  /** Leaf-data siblings that each fit on a page, with one extra cell at position p of the j-th of at most three:
      five pages always suffice, so the corruption test of the packing loop cannot fire. */
  lemma OneExtraLeafCell(sz: seq<nat>, cap: nat, ends: seq<nat>, j: nat, p: nat) returns (cnt: seq<nat>)
    requires 1 <= |ends| <= NB && j < |ends| && ends[|ends| - 1] == |sz|
    requires forall i | 0 <= i < |ends| :: Start(true, ends, i) <= ends[i] <= |sz|
    requires Start(true, ends, j) <= p < ends[j] && sz[p] + 2 <= cap
    requires forall i | 0 <= i < |ends| && i != j :: Weight(sz, Start(true, ends, i), ends[i]) <= cap
    requires Weight(sz, Start(true, ends, j), p) + Weight(sz, p + 1, ends[j]) <= cap
    ensures |cnt| == |ends| + 2 <= NB + 2 && Feasible(sz, true, cap, cnt)
  {
    cnt := ends[..j] + [p, p + 1] + ends[j..];
    assert Weight(sz, p, p + 1) == Weight(sz, p, p) + sz[p] + 2;
    forall i | 0 <= i < |cnt| ensures PageFits(sz, true, cap, cnt, i) {
      if i < j {
        assert cnt[i] == ends[i] && Start(true, cnt, i) == Start(true, ends, i);
      } else if i == j {
        assert cnt[i] == p && Start(true, cnt, i) == Start(true, ends, j);
      } else if i == j + 1 {
        assert cnt[i] == p + 1 && cnt[i - 1] == p;
      } else if i == j + 2 {
        assert cnt[i] == ends[j] && cnt[i - 1] == p + 1;
      } else {
        assert cnt[i] == ends[i - 2] && cnt[i - 1] == ends[i - 3];
      }
    }
  }

  /** The same for siblings that keep entries in the parent: the extra cell can serve as a divider, so one page
      more than before is enough. */
  lemma OneExtraCell(sz: seq<nat>, cap: nat, ends: seq<nat>, j: nat, p: nat) returns (cnt: seq<nat>)
    requires 1 <= |ends| <= NB && j < |ends| && ends[|ends| - 1] == |sz|
    requires forall i | 0 <= i < |ends| :: Start(false, ends, i) <= ends[i] <= |sz|
    requires Start(false, ends, j) <= p < ends[j]
    requires forall i | 0 <= i < |ends| && i != j :: Weight(sz, Start(false, ends, i), ends[i]) <= cap
    requires Weight(sz, Start(false, ends, j), p) + Weight(sz, p + 1, ends[j]) <= cap
    ensures |cnt| == |ends| + 1 <= NB + 2 && Feasible(sz, false, cap, cnt)
  {
    cnt := ends[..j] + [p] + ends[j..];
    forall i | 0 <= i < |cnt| ensures PageFits(sz, false, cap, cnt, i) {
      if i < j {
        assert cnt[i] == ends[i] && Start(false, cnt, i) == Start(false, ends, i);
      } else if i == j {
        assert cnt[i] == p && Start(false, cnt, i) == Start(false, ends, j);
      } else if i == j + 1 {
        assert cnt[i] == ends[j] && cnt[i - 1] == p;
      } else {
        assert cnt[i] == ends[i - 1] && cnt[i - 1] == ends[i - 2];
      }
    }
  }

  /** Cells that weigh no more than m full pages fit on m pages behind those of cnt0 when entries between pages move up:
      each page takes what fits, and with the entry behind it accounts for more than one page of weight. */
  lemma {:induction false} FitsByWeight(sz: seq<nat>, cap: nat, cnt0: seq<nat>, m: nat) returns (cnt: seq<nat>)
    requires m >= 1 && (forall i | 0 <= i < |cnt0| :: PageFits(sz, false, cap, cnt0, i))
    requires Start(false, cnt0, |cnt0|) <= |sz| && Weight(sz, Start(false, cnt0, |cnt0|), |sz|) <= m * cap
    ensures |cnt| <= |cnt0| + m && Feasible(sz, false, cap, cnt)
    decreases m
  {
    var lo := Start(false, cnt0, |cnt0|);
    if Weight(sz, lo, |sz|) <= cap {
      cnt := cnt0 + [|sz|];
      PageAppended(sz, cap, cnt0, |sz|);
    } else {
      assert m >= 2;
      var e := FullPage(sz, cap, lo);
      WeightSplit(sz, lo, e + 1, |sz|);
      assert m * cap == (m - 1) * cap + cap;
      PageAppended(sz, cap, cnt0, e);
      cnt := FitsByWeight(sz, cap, cnt0 + [e], m - 1);
    }
  }

  lemma PageAppended(sz: seq<nat>, cap: nat, cnt0: seq<nat>, e: nat)
    requires forall i | 0 <= i < |cnt0| :: PageFits(sz, false, cap, cnt0, i)
    requires Start(false, cnt0, |cnt0|) <= e <= |sz| && Weight(sz, Start(false, cnt0, |cnt0|), e) <= cap
    ensures forall i | 0 <= i < |cnt0| + 1 :: PageFits(sz, false, cap, cnt0 + [e], i)
  {
    forall i | 0 <= i < |cnt0| + 1 ensures PageFits(sz, false, cap, cnt0 + [e], i) {
      assert i < |cnt0| ==> PageFits(sz, false, cap, cnt0, i);
    }
  }

  /** The cell that no longer fits on a page that starts with cell lo. */
  lemma FullPage(sz: seq<nat>, cap: nat, lo: nat) returns (e: nat)
    requires lo <= |sz| && Weight(sz, lo, |sz|) > cap
    ensures lo <= e < |sz| && Weight(sz, lo, e) <= cap < Weight(sz, lo, e + 1)
  {
    e := lo;
    while Weight(sz, lo, e + 1) <= cap
      invariant lo <= e < |sz| && Weight(sz, lo, e) <= cap
      decreases |sz| - e
    {
      e := e + 1;
    }
  }
}
