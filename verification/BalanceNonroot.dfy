/** balance_nonroot as a whole: siblings chosen, dividers pulled down, cells packed, pages and parent rewritten. */
module BalanceNonroot {
  import opened Balance
  import opened BalancePack

  // ---------------------------------------------------------------- choosing the siblings

  /** Children a..a+n-1 of nDiv + 1 take part in a balance around number idx: all if they are no more than NB; else
      NB of them, or two in bulk, with number idx in the middle unless it is the first or the last. */
  predicate Window(nDiv: nat, idx: nat, bBulk: bool, a: nat, n: nat) {
    && n == (if nDiv < 2 then nDiv + 1 else if bBulk then 2 else NB)
    && a <= idx < a + n <= nDiv + 1 && (!bBulk && 0 < idx < nDiv ==> nDiv < 2 || a == idx - 1)
  }

  /** Which children of a parent with nDiv cells take part. */
  method SelectSiblings(nDiv: nat, iParentIdx: nat, bBulk: bool) returns (nxDiv: nat, nOld: nat)
    requires iParentIdx <= nDiv && (bBulk ==> iParentIdx == 0 || iParentIdx == nDiv)
    ensures 1 <= nOld <= NB && Window(nDiv, iParentIdx, bBulk, nxDiv, nOld)
    ensures iParentIdx < nDiv ==> iParentIdx < nxDiv + nOld - 1
  {
    var i, bulk := nDiv, if bBulk then 1 else 0;
    if i < 2 {
      nxDiv := 0;
    } else {
      if iParentIdx == 0 {
        nxDiv := 0;
      } else if iParentIdx == i {
        nxDiv := i - 2 + bulk;
      } else {
        nxDiv := iParentIdx - 1;
      }
      i := 2 - bulk;
    }
    nOld := i + 1;
  }

  // ---------------------------------------------------------------- the parent's dividers

  /** Child number i of a page with cells cs. */
  ghost function KidAt(cs: seq<Cell>, right: Pgno, i: nat): (pg: Pgno)
    requires i <= |cs|
  {
    if i < |cs| then cs[i].left else right
  }

  lemma OneOverflow(p: Page)
    requires p.Valid() && |p.ovfl| == 1
    ensures p.Cells() == p.stored[..p.ovfl[0].0] + [p.ovfl[0].1] + p.stored[p.ovfl[0].0..]
  {
    assert Combined(p.stored, p.ovfl, 0) == p.stored;
  }

  /** The stored cells while the dividers are being removed from the right: those from `hi` on and those before
      `lo` remain; the overflow cell at `x`, if still there, was never stored. */
  ghost function Remaining(cs: seq<Cell>, lo: nat, hi: nat, nOvfl: nat, x: nat): (s: seq<Cell>)
    requires lo <= hi <= |cs| && (nOvfl > 0 ==> x < lo)
  {
    (if nOvfl > 0 then cs[..x] + cs[x + 1..lo] else cs[..lo]) + cs[hi..]
  }

  lemma OneOut<T>(s: seq<T>, x: nat, o: T, cs: seq<T>, hi: nat)
    requires x <= |s| && cs == s[..x] + [o] + s[x..] && x < hi <= |cs|
    ensures s == cs[..x] + cs[x + 1..hi] + cs[hi..]
  {
  }

  lemma InitRemaining(p: Page, hi: nat, x: nat)
    requires p.Valid() && |p.ovfl| <= 1 && hi <= |p.Cells()| && (|p.ovfl| == 1 ==> p.ovfl[0].0 == x < hi)
    ensures p.stored == Remaining(p.Cells(), hi, hi, |p.ovfl|, x)
    ensures hi - |p.ovfl| <= |p.stored|
    ensures KidAt(p.Cells(), p.right, hi) == if hi - |p.ovfl| == |p.stored| then p.right
      else p.stored[hi - |p.ovfl|].left
  {
    if |p.ovfl| == 1 {
      OneOverflow(p);
      OneOut(p.stored, x, p.ovfl[0].1, p.Cells(), hi);
    } else {
      assert p.Cells() == p.stored;
    }
  }

  lemma DropRemaining(cs: seq<Cell>, lo: nat, hi: nat, nOvfl: nat, x: nat, s: seq<Cell>)
    requires 0 < lo <= hi <= |cs| && nOvfl <= 1 && (nOvfl > 0 ==> x < lo - 1) && s == Remaining(cs, lo, hi, nOvfl, x)
    ensures var k := lo - 1 - nOvfl;
      k < |s| && s[k] == cs[lo - 1] && s[..k] + s[k + 1..] == Remaining(cs, lo - 1, hi, nOvfl, x)
  {
    var a := if nOvfl > 0 then cs[..x] + cs[x + 1..lo] else cs[..lo];
    var a' := if nOvfl > 0 then cs[..x] + cs[x + 1..lo - 1] else cs[..lo - 1];
    assert a == a' + [cs[lo - 1]];
    assert s == a + cs[hi..];
  }

  lemma OverflowRemaining(cs: seq<Cell>, hi: nat, x: nat)
    requires x < hi <= |cs|
    ensures Remaining(cs, x + 1, hi, 1, x) == Remaining(cs, x, hi, 0, x)
  {
  }

  /** Take out the divider just before `lo`: the overflow cell, or a stored one. */
  method PullOne(p: Page, iParentIdx: nat, lo: nat, ghost hi: nat, nOvfl: nat, stored: seq<Cell>)
    returns (d: Cell, nOvfl': nat, stored': seq<Cell>)
    requires p.Valid() && 0 < lo <= hi <= |p.Cells()| && nOvfl <= |p.ovfl| <= 1
    requires |p.ovfl| == 1 ==> p.ovfl[0].0 == iParentIdx
    requires nOvfl > 0 ==> iParentIdx < lo
    requires stored == Remaining(p.Cells(), lo, hi, nOvfl, iParentIdx)
    ensures d == p.Cells()[lo - 1] && nOvfl' <= nOvfl && (nOvfl' > 0 ==> iParentIdx < lo - 1)
    ensures stored' == Remaining(p.Cells(), lo - 1, hi, nOvfl', iParentIdx)
  {
    if nOvfl > 0 && lo - 1 == p.ovfl[0].0 {
      OverflowRemaining(p.Cells(), hi, iParentIdx);
      OneOverflow(p);
      return p.ovfl[0].1, 0, stored;
    }
    var k := lo - 1 - nOvfl;
    DropRemaining(p.Cells(), lo, hi, nOvfl, iParentIdx, stored);
    return stored[k], nOvfl, stored[..k] + stored[k + 1..];
  }

  /** The dividers from lo on have been taken out. */
  ghost predicate Pulled(cs: seq<Cell>, lo: nat, hi: nat, nOvfl: nat, x: nat, divs: seq<Cell>, stored: seq<Cell>)
    requires lo <= hi <= |cs|
  {
    (nOvfl > 0 ==> x < lo) && divs == cs[lo..hi] && stored == Remaining(cs, lo, hi, nOvfl, x)
  }

  method PullNext(p: Page, iParentIdx: nat, lo: nat, ghost hi: nat, nOvfl: nat, divs: seq<Cell>, stored: seq<Cell>)
    returns (divs': seq<Cell>, nOvfl': nat, stored': seq<Cell>)
    requires p.Valid() && 0 < lo <= hi <= |p.Cells()| && nOvfl <= |p.ovfl| <= 1
    requires |p.ovfl| == 1 ==> p.ovfl[0].0 == iParentIdx
    requires Pulled(p.Cells(), lo, hi, nOvfl, iParentIdx, divs, stored)
    ensures nOvfl' <= nOvfl && Pulled(p.Cells(), lo - 1, hi, nOvfl', iParentIdx, divs', stored')
  {
    var d;
    d, nOvfl', stored' := PullOne(p, iParentIdx, lo, hi, nOvfl, stored);
    divs' := [d] + divs;
    OneMoreInFront(p.Cells(), lo, hi, divs, divs');
  }

  lemma OneMoreInFront(cs: seq<Cell>, lo: nat, hi: nat, divs: seq<Cell>, divs': seq<Cell>)
    requires 0 < lo <= hi <= |cs| && divs == cs[lo..hi] && divs' == [cs[lo - 1]] + divs
    ensures divs' == cs[lo - 1..hi]
  {
  }

  /** Take the nOld-1 divider cells from nxDiv on out of the parent, from right to left.  The parent has at most one
      overflow cell, at iParentIdx, and it is among them. */
  method PullDividers(p: Page, iParentIdx: nat, nxDiv: nat, nOld: nat)
    returns (divs: seq<Cell>, last: Pgno, stored: seq<Cell>)
    requires p.Valid() && |p.ovfl| <= 1 && nOld >= 1 && nxDiv + nOld - 1 <= |p.Cells()|
    requires |p.ovfl| == 1 ==> p.ovfl[0].0 == iParentIdx && nxDiv <= iParentIdx < nxDiv + nOld - 1
    ensures divs == p.Cells()[nxDiv..nxDiv + nOld - 1] && last == KidAt(p.Cells(), p.right, nxDiv + nOld - 1)
    ensures stored == p.Cells()[..nxDiv] + p.Cells()[nxDiv + nOld - 1..]
  {
    var nOvfl: nat, hi: nat := |p.ovfl|, nxDiv + nOld - 1;
    InitRemaining(p, hi, iParentIdx);
    divs, stored := [], p.stored;
    last := if hi - nOvfl == |stored| then p.right else stored[hi - nOvfl].left;
    var lo: nat := hi;
    ghost var cs := p.Cells();
    while lo > nxDiv
      invariant nxDiv <= lo <= hi && nOvfl <= |p.ovfl|
      invariant Pulled(cs, lo, hi, nOvfl, iParentIdx, divs, stored)
    {
      divs, nOvfl, stored := PullNext(p, iParentIdx, lo, hi, nOvfl, divs, stored);
      lo := lo - 1;
    }
  }

  // ---------------------------------------------------------------- page numbers in order

  ghost predicate Ascending(s: seq<Pgno>)
  {
    forall i, j | 0 <= i < j < |s| :: s[i] <= s[j]
  }

  lemma SwapKeeps(s: seq<Pgno>, i: nat, j: nat)
    requires i < |s| && j < |s|
    ensures multiset(s[i := s[j]][j := s[i]]) == multiset(s)
  {
  }

  /** The selection sort that puts the new pages in ascending order. */
  method SortPages(pgnos: seq<Pgno>) returns (s: seq<Pgno>)
    ensures |s| == |pgnos| && multiset(s) == multiset(pgnos) && Ascending(s)
  {
    s := pgnos;
    var i := 0;
    while i < |s| - 1
      invariant 0 <= i <= |s| == |pgnos| && multiset(s) == multiset(pgnos)
      invariant forall a, b | 0 <= a < i && a < b < |s| :: s[a] <= s[b]
    {
      var minI := i;
      for j := i + 1 to |s|
        invariant i <= minI < j
        invariant forall b | i <= b < j :: s[minI] <= s[b]
      {
        if s[j] < s[minI] {
          minI := j;
        }
      }
      if minI > i {
        SwapKeeps(s, i, minI);
        s := s[i := s[minI]][minI := s[i]];
      }
      i := i + 1;
    }
  }

  // ---------------------------------------------------------------- packing the cells of the siblings

  /** Cell sizes that the page format guarantees for the cells taking part. */
  ghost predicate CellOk(lv: Level, usable: nat, c: Cell)
    requires usable >= 12
  {
    && (lv.leaf ==> c.left == 0)
    && if lv.leafData then lv.Size(c) + 2 <= lv.Capacity(usable) else 3 * (lv.Size(c) + 2) <= lv.Capacity(usable)
  }

  ghost predicate RowOk(lv: Level, usable: nat, r: Row)
    requires usable >= 12
  {
    && r.Valid()
    && (forall i, j | 0 <= i < |r.cells| && 0 <= j < |r.cells[i]| :: CellOk(lv, usable, r.cells[i][j]))
    && (forall i | 0 <= i < |r.divs| ::
      lv.leafData || CellOk(lv, usable, Cell(if lv.leaf then 0 else r.rights[i], r.divs[i])))
  }

  lemma {:induction false} FlatOk(lv: Level, usable: nat, r: Row, lo: nat)
    requires usable >= 12 && RowOk(lv, usable, r) && lo <= |r.cells|
    ensures forall c | c in Flat(lv, r, lo, |r.cells|) :: CellOk(lv, usable, c)
    decreases |r.cells| - lo
  {
    if lo < |r.cells| {
      FlatOk(lv, usable, r, lo + 1);
    }
  }

  /** New pages are non-empty and fit. */
  ghost predicate PagesFit(lv: Level, usable: nat, sz: seq<nat>, cnt: seq<nat>)
    requires usable >= 12
  {
    Feasible(sz, lv.leafData, lv.Capacity(usable), cnt)
      && if |sz| == 0 then |cnt| == 1 else NoEmptyPage(lv.leafData, cnt)
  }

  ghost predicate SizesOf(lv: Level, ap: seq<Cell>, sz: seq<nat>)
  {
    |sz| == |ap| && forall j | 0 <= j < |ap| :: sz[j] == lv.Size(ap[j])
  }

  /** Load all cells and decide where to cut. */
  method Pack(lv: Level, usable: nat, bBulk: bool, olds: seq<Page>, divs: seq<Rec>, ghost row: Row)
    returns (rc: Rc, ap: seq<Cell>, sz: seq<nat>, cnt: seq<nat>)
    requires lv.Valid() && usable >= 12 && |olds| == |divs| + 1 && forall i | 0 <= i < |olds| :: olds[i].Valid()
    requires row.divs == divs && |row.cells| == |olds| && RowOk(lv, usable, row)
    requires forall i | 0 <= i < |olds| :: row.cells[i] == olds[i].Cells() && row.rights[i] == olds[i].right
    ensures ap == Flat(lv, row, 0, |olds|) && SizesOf(lv, ap, sz)
    ensures forall j | 0 <= j < |ap| :: CellOk(lv, usable, ap[j])
    ensures rc == Ok ==> |cnt| <= NB + 2 && PagesFit(lv, usable, sz, cnt)
    ensures rc == Ok ==> Packed(sz, lv.leafData, lv.Capacity(usable), bBulk, cnt)
    ensures rc == Ok ==> forall other | Feasible(sz, lv.leafData, lv.Capacity(usable), other) :: |cnt| <= |other|
    ensures rc == Corrupt ==> forall other | Feasible(sz, lv.leafData, lv.Capacity(usable), other) :: |other| > NB + 2
  {
    ap, sz := LoadCells(lv, olds, divs, row);
    FlatOk(lv, usable, row, 0);
    var cap := lv.Capacity(usable);
    var szNew;
    rc, cnt, szNew := Greedy(sz, lv.leafData, cap);
    if rc == Ok {
      forall j | 0 <= j < |sz| ensures 4 <= sz[j] && if lv.leafData then sz[j] + 2 <= cap else 3 * (sz[j] + 2) <= cap {
        assert CellOk(lv, usable, ap[j]);
      }
      if |sz| == 0 {
        assert PageFits(sz, lv.leafData, cap, [0], 0);
        assert Feasible(sz, lv.leafData, cap, [0]);
      }
      ghost var cnt0 := cnt;
      cnt := EvenOut(sz, lv.leafData, cap, bBulk, cnt, szNew);
      assert PackedFrom(sz, lv.leafData, cap, bBulk, cnt0, cnt);
    }
  }

  /** The first n pages are cut off, with what stands behind each. */
  ghost predicate CutUpTo(lv: Level, ap: seq<Cell>, cnt: seq<nat>, n: nat, cells: seq<seq<Cell>>, rights: seq<Pgno>,
                          divs: seq<Rec>)
  {
    && n < |cnt| && |cells| == |rights| == |divs| == n
    && (forall k | 0 <= k < n :: CutPage(lv, ap, cnt, k, cells[k]))
    && (forall k | 0 <= k < n :: CutAt(lv, ap, cnt[k], divs[k], rights[k]))
  }

  lemma CutAppend(lv: Level, ap: seq<Cell>, cnt: seq<nat>, n: nat, cells: seq<seq<Cell>>, rights: seq<Pgno>,
                  divs: seq<Rec>, page: seq<Cell>, right: Pgno, div: Rec)
    requires CutUpTo(lv, ap, cnt, n, cells, rights, divs) && n + 1 < |cnt|
    requires CutPage(lv, ap, cnt, n, page) && CutAt(lv, ap, cnt[n], div, right)
    ensures CutUpTo(lv, ap, cnt, n + 1, cells + [page], rights + [right], divs + [div])
  {
  }

  lemma CutLast(lv: Level, ap: seq<Cell>, cnt: seq<nat>, cells: seq<seq<Cell>>, rights: seq<Pgno>, divs: seq<Rec>,
                page: seq<Cell>, right: Pgno)
    requires |cnt| > 0 && CutUpTo(lv, ap, cnt, |cnt| - 1, cells, rights, divs) && cnt[|cnt| - 1] == |ap|
    requires CutPage(lv, ap, cnt, |cnt| - 1, page)
    ensures IsCut(lv, ap, cnt, right, Row(cells + [page], rights + [right], divs))
  {
    var r := Row(cells + [page], rights + [right], divs);
    forall i | 0 <= i < |cnt| ensures CutPage(lv, ap, cnt, i, r.cells[i]) {
      assert i == |cnt| - 1 || r.cells[i] == cells[i];
    }
    forall i | 0 <= i < |cnt| - 1 ensures CutAt(lv, ap, cnt[i], r.divs[i], r.rights[i]) {
      assert CutAt(lv, ap, cnt[i], divs[i], rights[i]);
    }
  }

  /** One new page other than the last: its cells, its right child and the divider behind it. */
  method CutOne(lv: Level, ap: seq<Cell>, cnt: seq<nat>, i: nat, j: nat)
    returns (page: seq<Cell>, right: Pgno, div: Rec)
    requires lv.Valid() && i < |cnt| && j == Start(lv.leafData, cnt, i) <= cnt[i] && 0 < cnt[i] < |ap|
    ensures CutPage(lv, ap, cnt, i, page) && CutAt(lv, ap, cnt[i], div, right)
  {
    page := ap[j..cnt[i]];
    var c := ap[cnt[i]];
    if !lv.leaf {
      right, div := c.left, c.rec;
    } else if lv.leafData {
      right, div := 0, KeyRec(ap[cnt[i] - 1].rec.key);
    } else {
      right, div := 0, c.rec;
    }
  }

  /** Distribute the cells: the new pages' cells, their right children, and the dividers between them. */
  method CutPages(lv: Level, ap: seq<Cell>, sz: seq<nat>, cnt: seq<nat>, ghost usable: nat, lastRight: Pgno)
    returns (r: Row)
    requires lv.Valid() && usable >= 12 && |sz| == |ap| && PagesFit(lv, usable, sz, cnt)
    ensures IsCut(lv, ap, cnt, lastRight, r)
  {
    r := Row([], [], []);
    var j := 0;
    for i := 0 to |cnt| - 1
      invariant j == Start(lv.leafData, cnt, i)
      invariant CutUpTo(lv, ap, cnt, i, r.cells, r.rights, r.divs)
    {
      BoundaryInside(lv, usable, sz, cnt, i);
      var page, right, div := CutOne(lv, ap, cnt, i, j);
      CutAppend(lv, ap, cnt, i, r.cells, r.rights, r.divs, page, right, div);
      r := Row(r.cells + [page], r.rights + [right], r.divs + [div]);
      j := cnt[i] + if lv.leafData then 0 else 1;
    }
    BoundaryInside(lv, usable, sz, cnt, |cnt| - 1);
    CutLast(lv, ap, cnt, r.cells, r.rights, r.divs, ap[j..|ap|], lastRight);
    r := Row(r.cells + [ap[j..|ap|]], r.rights + [lastRight], r.divs);
  }

  /** There are cells behind every page but the last. */
  lemma BoundaryInside(lv: Level, usable: nat, sz: seq<nat>, cnt: seq<nat>, i: nat)
    requires usable >= 12 && PagesFit(lv, usable, sz, cnt) && i < |cnt|
    ensures i == |cnt| - 1 <==> cnt[i] == |sz|
    ensures Start(lv.leafData, cnt, i) <= cnt[i] && (i < |cnt| - 1 ==> 0 < cnt[i] < |sz|)
  {
    assert PageFits(sz, lv.leafData, lv.Capacity(usable), cnt, i);
    if i < |cnt| - 1 {
      assert PageFits(sz, lv.leafData, lv.Capacity(usable), cnt, i + 1);
      if |sz| > 0 {
        assert Start(lv.leafData, cnt, i + 1) < cnt[i + 1];
        assert Start(lv.leafData, cnt, i) < cnt[i];
      }
    }
  }

  // ---------------------------------------------------------------- the new dividers

  /** insertCell on the parent: the cell is stored when it fits and nothing has overflowed before; otherwise it is
      remembered with its index.  Either way it becomes cell idx. */
  method InsertDivider(p: Page, nFree: nat, idx: nat, c: Cell) returns (p': Page, nFree': nat)
    requires p.Valid() && idx <= |p.Cells()|
    ensures p'.Valid() && p'.right == p.right && p'.Cells() == p.Cells()[..idx] + [c] + p.Cells()[idx..]
    ensures p'.ovfl == [] <==> p.ovfl == [] && 4 + |c.rec.image| + 2 <= nFree
    ensures |p'.ovfl| <= |p.ovfl| + 1
    ensures PageBytes(Interior(), p'.stored) + nFree' == PageBytes(Interior(), p.stored) + nFree
  {
    if |p.ovfl| > 0 || 4 + |c.rec.image| + 2 > nFree {
      OverflowAppend(p.stored, p.ovfl, (idx, c), |p.ovfl|);
      return Page(p.stored, p.ovfl + [(idx, c)], p.right), nFree;
    }
    assert p.stored == p.stored[..idx] + p.stored[idx..];
    OneMore(Interior(), p.stored[..idx], c, p.stored[idx..]);
    return Page(p.stored[..idx] + [c] + p.stored[idx..], [], p.right), nFree - (4 + |c.rec.image| + 2);
  }

  lemma {:induction false} OverflowAppend(stored: seq<Cell>, ovfl: seq<(nat, Cell)>, o: (nat, Cell), n: nat)
    requires n <= |ovfl| && o.0 <= |stored| + |ovfl| && forall i | 0 <= i < |ovfl| :: ovfl[i].0 <= |stored| + i
    ensures Combined(stored, ovfl + [o], n) == Combined(stored, ovfl, n)
  {
    if n > 0 {
      OverflowAppend(stored, ovfl, o, n - 1);
    }
  }

  /** The parent's cells and right child afterwards: m-1 new dividers take the place of nOld-1 old ones, and the
      child behind the last of them is the last new page. */
  ghost predicate ParentSpliced(cs: seq<Cell>, right: Pgno, nxDiv: nat, nOld: nat, pgs: seq<Pgno>, divs: seq<Rec>,
                                cs': seq<Cell>, right': Pgno)
    requires 1 <= nOld && nxDiv + nOld <= |cs| + 1 && |pgs| == |divs| + 1
  {
    var m, k := |pgs|, |pgs| - nOld;
    && |cs'| == |cs| + k
    && (forall i {:trigger cs[i]} | 0 <= i < nxDiv :: cs'[i] == cs[i])
    && (forall i | 0 <= i < |divs| :: cs'[nxDiv + i] == Cell(pgs[i], divs[i]))
    && (if nxDiv + m - 1 == |cs'| then right' == pgs[m - 1]
        else right' == right && cs'[nxDiv + m - 1] == Cell(pgs[m - 1], cs[nxDiv + nOld - 1].rec))
    && (forall i | nxDiv + nOld <= i < |cs| :: cs[i] == cs'[i + k])
  }

  /** `cs` is `cs0` with the first n new dividers inserted at x. */
  ghost predicate Inserted(cs0: seq<Cell>, x: nat, pgs: seq<Pgno>, divs: seq<Rec>, n: nat, cs: seq<Cell>)
    requires n <= |divs| < |pgs| && x <= |cs0|
  {
    && |cs| == |cs0| + n
    && (forall j {:trigger cs[j]} | 0 <= j < x :: cs[j] == cs0[j])
    && (forall j | 0 <= j < n :: cs[x + j] == Cell(pgs[j], divs[j]))
    && (forall j | x + n <= j < |cs| :: cs[j] == cs0[j - n])
  }

  lemma InsertedStep(cs0: seq<Cell>, x: nat, pgs: seq<Pgno>, divs: seq<Rec>, n: nat, cs: seq<Cell>, cs': seq<Cell>)
    requires n < |divs| < |pgs| && x <= |cs0| && Inserted(cs0, x, pgs, divs, n, cs)
    requires cs' == cs[..x + n] + [Cell(pgs[n], divs[n])] + cs[x + n..]
    ensures Inserted(cs0, x, pgs, divs, n + 1, cs')
  {
  }

  lemma InsertedAll(cs: seq<Cell>, right: Pgno, nxDiv: nat, nOld: nat, pgs: seq<Pgno>, divs: seq<Rec>,
                    stored: seq<Cell>, cs0: seq<Cell>, cs': seq<Cell>)
    requires 1 <= nOld && nxDiv + nOld <= |cs| + 1 && |pgs| == |divs| + 1
    requires stored == cs[..nxDiv] + cs[nxDiv + nOld - 1..]
    requires cs0 == if nxDiv == |stored| then stored else stored[nxDiv := Cell(pgs[|divs|], stored[nxDiv].rec)]
    requires Inserted(cs0, nxDiv, pgs, divs, |divs|, cs')
    ensures ParentSpliced(cs, right, nxDiv, nOld, pgs, divs, cs', if nxDiv == |stored| then pgs[|divs|] else right)
  {
    var k := |pgs| - nOld;
    assert forall i | 0 <= i < nxDiv :: stored[i] == cs[i];
    forall i | nxDiv + nOld <= i < |cs| ensures cs[i] == cs'[i + k] {
      assert stored[i - nOld + 1] == cs[i];
      assert cs'[i + k] == cs0[i + k - |divs|];
    }
    if nxDiv < |stored| {
      assert cs'[nxDiv + |divs|] == cs0[nxDiv];
    }
  }

  /** i dividers have been inserted; the stored cells and the free bytes make up the limit. */
  ghost predicate Pushed(cs0: seq<Cell>, right: Pgno, limit: nat, x: nat, pgs: seq<Pgno>, divs: seq<Rec>, i: nat,
                         p: Page, free: nat)
    requires i <= |divs| < |pgs| && x <= |cs0|
  {
    && p.Valid() && |p.ovfl| <= i && p.right == right && Inserted(cs0, x, pgs, divs, i, p.Cells())
    && PageBytes(Interior(), p.stored) + free == limit
    && (p.ovfl == [] <==> PageBytes(Interior(), p.Cells()) <= limit)
  }

  method PushOne(ghost cs0: seq<Cell>, ghost right: Pgno, ghost limit: nat, x: nat, pgs: seq<Pgno>, divs: seq<Rec>,
                 i: nat, p: Page, free: nat)
    returns (p': Page, free': nat)
    requires i < |divs| < |pgs| && x <= |cs0| && Pushed(cs0, right, limit, x, pgs, divs, i, p, free)
    ensures Pushed(cs0, right, limit, x, pgs, divs, i + 1, p', free')
  {
    p', free' := InsertDivider(p, free, x + i, Cell(pgs[i], divs[i]));
    NoneOver(p);
    MoreBytes(p.Cells(), x + i, Cell(pgs[i], divs[i]), p'.Cells());
    InsertedStep(cs0, x, pgs, divs, i, p.Cells(), p'.Cells());
  }

  lemma NoneOver(p: Page)
    requires p.Valid()
    ensures p.ovfl == [] ==> p.Cells() == p.stored
  {
  }

  lemma MoreBytes(cs: seq<Cell>, x: nat, c: Cell, cs': seq<Cell>)
    requires x <= |cs| && cs' == cs[..x] + [c] + cs[x..]
    ensures PageBytes(Interior(), cs') == PageBytes(Interior(), cs) + 4 + |c.rec.image| + 2
  {
    OneMore(Interior(), cs[..x], c, cs[x..]);
    assert cs[..x] + cs[x..] == cs;
  }

  /** Store the last new page number in the slot behind the dividers, then insert the new dividers. */
  method PushDividers(ghost p: Page, ghost nOld: nat, stored: seq<Cell>, right: Pgno, nFree: nat, nxDiv: nat,
                      pgs: seq<Pgno>, divs: seq<Rec>)
    returns (p': Page)
    requires p.Valid() && 1 <= nOld && nxDiv + nOld <= |p.Cells()| + 1 && |pgs| == |divs| + 1
    requires stored == p.Cells()[..nxDiv] + p.Cells()[nxDiv + nOld - 1..] && right == p.right
    ensures p'.Valid() && |p'.ovfl| <= |divs| && PageBytes(Interior(), p'.stored) <= PageBytes(Interior(), stored)
      + nFree
    ensures p'.ovfl == [] <==> PageBytes(Interior(), p'.Cells()) <= PageBytes(Interior(), stored) + nFree
    ensures ParentSpliced(p.Cells(), p.right, nxDiv, nOld, pgs, divs, p'.Cells(), p'.right)
  {
    var last := pgs[|divs|];
    if nxDiv == |stored| {
      p' := Page(stored, [], last);
    } else {
      BytesOfOther(Interior(), stored, nxDiv, last);
      p' := Page(stored[nxDiv := Cell(last, stored[nxDiv].rec)], [], right);
    }
    NoneOver(p');
    ghost var cs0, limit := p'.Cells(), PageBytes(Interior(), stored) + nFree;
    ghost var right' := p'.right;
    var free := nFree;
    for i := 0 to |divs|
      invariant Pushed(cs0, right', limit, nxDiv, pgs, divs, i, p', free)
    {
      p', free := PushOne(cs0, right', limit, nxDiv, pgs, divs, i, p', free);
    }
    InsertedAll(p.Cells(), p.right, nxDiv, nOld, pgs, divs, stored, cs0, p'.Cells());
  }
}
