/** A cascade of balances: one level after the other from the leaves up, as long as the parent overflows. */
module BalanceCascade {
  import opened CellFormat
  import opened Balance
  import opened BalancePack
  import opened BalanceNonroot
  import opened BalanceBound
  import opened BalanceCells
  import opened BalanceTree

  // ---------------------------------------------------------------- cells stay cells of the file format

  /** A cell on page i of a row is among the cells of the row. */
  lemma {:induction false} InFlat(lv: Level, r: Row, lo: nat, i: nat, j: nat)
    requires r.Valid() && lo <= i < |r.cells| && j < |r.cells[i]|
    ensures r.cells[i][j] in Flat(lv, r, lo, |r.cells|)
    decreases i - lo
  {
    if lo < i {
      InFlat(lv, r, lo + 1, i, j);
    }
  }

  /** So is the joint behind page i. */
  lemma {:induction false} JointInFlat(lv: Level, r: Row, lo: nat, i: nat)
    requires r.Valid() && lo <= i < |r.divs| && !lv.leafData
    ensures Cell(if lv.leaf then 0 else r.rights[i], r.divs[i]) in Flat(lv, r, lo, |r.cells|)
    decreases i - lo
  {
    if lo < i {
      JointInFlat(lv, r, lo + 1, i);
    } else {
      assert Joint(lv, r.rights[i], r.divs[i])[0] == Cell(if lv.leaf then 0 else r.rights[i], r.divs[i]);
    }
  }

  /** All cells of a row are among its cells read from left to right. */
  lemma ReadingStored(k: Kind, r: Row, r': Row)
    requires RowStored(k, r) && r'.Valid()
    requires Flat(LevelOf(k), r', 0, |r'.cells|) == Flat(LevelOf(k), r, 0, |r.cells|)
    ensures forall i, j | 0 <= i < |r'.cells| && 0 <= j < |r'.cells[i]| :: CellStored(k, r'.cells[i][j])
    ensures !k.HasData() ==> forall i | 0 <= i < |r'.divs| :: IsStored(ParentOf(k), r'.divs[i])
  {
    FlatStored(k, r, 0);
    forall i, j | 0 <= i < |r'.cells| && 0 <= j < |r'.cells[i]| ensures CellStored(k, r'.cells[i][j]) {
      InFlat(LevelOf(k), r', 0, i, j);
    }
    if !k.HasData() {
      forall i | 0 <= i < |r'.divs| ensures IsStored(ParentOf(k), r'.divs[i]) {
        JointInFlat(LevelOf(k), r', 0, i);
        NewDivider(k, Cell(if k.leaf then 0 else r'.rights[i], r'.divs[i]));
      }
    }
  }

  /** A record in the parent is one of the old ones or belongs to a divider in front of a new page. */
  lemma OldOrNew(cs: seq<Cell>, right: Pgno, a: nat, n: nat, pgs: seq<Pgno>, cs': seq<Cell>, right': Pgno, i: nat)
    returns (j: nat)
    requires DividersKept(cs, right, a, n, pgs, cs', right') && i < |cs'|
    ensures if a <= i < a + |pgs| - 1 then cs'[i].left == pgs[i - a] else j < |cs| && cs'[i].rec == cs[j].rec
  {
    var m := |pgs|;
    j := 0;
    if i < a {
      assert cs'[i] == cs[i];
      j := i;
    } else if i < a + m - 1 {
      assert cs'[a + (i - a)] == Cell(pgs[i - a], RecsAt(cs', a, m - 1)[i - a]);
    } else if i == a + m - 1 {
      assert cs'[i].rec == cs[a + n - 1].rec;
      j := a + n - 1;
    } else {
      j := i - (m - n);
      assert cs[j] == cs'[i];
    }
  }

  lemma NewKeyStored(k: Kind, c: Cell, rec: Rec)
    requires k.HasData() && CellStored(k, c) && rec == KeyRec(c.rec.key)
    ensures IsStored(ParentOf(k), rec)
  {
    NewDivider(k, c);
  }

  /** All cells stored on the new pages are cells of kind k. */
  ghost predicate PagesStored(k: Kind, pages: Pages, pgs: seq<Pgno>) {
    forall x, j | x in pgs && x in pages && 0 <= j < |pages[x].stored| :: CellStored(k, pages[x].stored[j])
  }

  /** All records of the cells can be dividers above pages of kind k. */
  ghost predicate RecsStored(k: Kind, cs: seq<Cell>) {
    forall j | 0 <= j < |cs| :: IsStored(ParentOf(k), cs[j].rec)
  }

  /** A divider of a leaf-data parent is one of the old ones or the key of a cell below. */
  lemma KeyedStored(k: Kind, cs: seq<Cell>, right: Pgno, a: nat, n: nat, pgs: seq<Pgno>, pages': Pages,
                    cs': seq<Cell>, right': Pgno, i: nat)
    requires k.HasData() && DividersKept(cs, right, a, n, pgs, cs', right') && i < |cs'|
    requires AllKeyed(pages', cs', a, a + |pgs| - 1)
    requires RecsStored(k, cs) && PagesStored(k, pages', pgs)
    ensures IsStored(ParentOf(k), cs'[i].rec)
  {
    var j := OldOrNew(cs, right, a, n, pgs, cs', right', i);
    if a <= i < a + |pgs| - 1 {
      assert KeyedByLeft(pages', cs', i);
      KeyedNew(k, pgs, pages', cs', i);
    } else {
      OldStored(k, cs, j, cs'[i].rec);
    }
  }

  lemma KeyedNew(k: Kind, pgs: seq<Pgno>, pages: Pages, cs: seq<Cell>, i: nat)
    requires k.HasData() && KeyedByLeft(pages, cs, i) && cs[i].left in pgs && PagesStored(k, pages, pgs)
    ensures IsStored(ParentOf(k), cs[i].rec)
  {
    var x, j := LastCell(pages, cs, i);
    PageCellStored(k, pages, pgs, x, j);
    NewKeyStored(k, pages[x].stored[j], cs[i].rec);
  }

  lemma LastCell(pages: Pages, cs: seq<Cell>, i: nat) returns (x: Pgno, j: nat)
    requires KeyedByLeft(pages, cs, i)
    ensures x == cs[i].left && x in pages && j < |pages[x].stored| && cs[i].rec == KeyRec(pages[x].stored[j].rec.key)
  {
    x := cs[i].left;
    j := |pages[x].stored| - 1;
  }

  lemma PageCellStored(k: Kind, pages: Pages, pgs: seq<Pgno>, x: Pgno, j: nat)
    requires PagesStored(k, pages, pgs) && x in pgs && x in pages && j < |pages[x].stored|
    ensures CellStored(k, pages[x].stored[j])
  {
  }

  lemma OldStored(k: Kind, cs: seq<Cell>, j: nat, rec: Rec)
    requires RecsStored(k, cs) && j < |cs| && rec == cs[j].rec
    ensures IsStored(ParentOf(k), rec)
  {
  }

  /** After a balance the children of the parent and their dividers are cells of the file format again. */
  lemma StoredKept(k: Kind, pages: Pages, pg: Pgno, a: nat, n: nat, pgs: seq<Pgno>, pages': Pages)
    requires k.Valid() && Rebalanced(LevelOf(k), k.usable, pages, pg, a, n, pgs, pages')
    requires RowStored(k, RowUnder(pages, pg))
    ensures RowStored(k, RowUnder(pages', pg))
  {
    var r, r' := RowUnder(pages, pg), RowUnder(pages', pg);
    ReadingStored(k, r, r');
    if k.HasData() {
      NewPagesStored(k, pages', pg, a, pgs);
      DividersStored(k, pages, pg);
      forall i | 0 <= i < |r'.divs| ensures IsStored(ParentOf(k), r'.divs[i]) {
        KeyedStored(k, pages[pg].Cells(), pages[pg].right, a, n, pgs, pages', pages'[pg].Cells(), pages'[pg].right, i);
      }
    }
  }

  lemma DividersStored(k: Kind, pages: Pages, pg: Pgno)
    requires pg in pages && pages[pg].Valid() && RowStored(k, RowUnder(pages, pg))
    ensures RecsStored(k, pages[pg].Cells())
  {
    forall j | 0 <= j < |pages[pg].Cells()| ensures IsStored(ParentOf(k), pages[pg].Cells()[j].rec) {
      assert RowUnder(pages, pg).divs[j] == pages[pg].Cells()[j].rec;
    }
  }

  lemma NewPagesStored(k: Kind, pages: Pages, pg: Pgno, a: nat, pgs: seq<Pgno>)
    requires k.Valid() && pg in pages && pages[pg].Valid() && AllSettled(LevelOf(k), k.usable, pages, pgs)
    requires a + |pgs| <= |KidsOf(pages, pg)|
    requires forall i {:trigger pgs[i]} | 0 <= i < |pgs| :: KidsOf(pages, pg)[a + i] == pgs[i]
    requires forall i, j | 0 <= i < |RowUnder(pages, pg).cells| && 0 <= j < |RowUnder(pages, pg).cells[i]| ::
      CellStored(k, RowUnder(pages, pg).cells[i][j])
    ensures PagesStored(k, pages, pgs)
  {
    forall x, j | x in pgs && x in pages && 0 <= j < |pages[x].stored| ensures CellStored(k, pages[x].stored[j]) {
      var i :| 0 <= i < |pgs| && pgs[i] == x;
      assert Settled(LevelOf(k), k.usable, pages, pgs[i]);
      assert RowUnder(pages, pg).cells[a + i] == pages[x].Cells() == pages[x].stored;
    }
  }

  // ---------------------------------------------------------------- the path of a cursor

  /** The header of page 1 begins behind the file header. */
  function HdrOffset(pg: Pgno): (n: nat) {
    if pg == 1 then 100 else 0
  }

  /** A child of kind k: its stored cells fit, it has at most m overflow cells. */
  ghost predicate ChildOk(k: Kind, p: Page, m: nat)
    requires k.Valid()
  {
    && p.Valid() && PageBytes(LevelOf(k), p.stored) <= LevelOf(k).Capacity(k.usable) && |p.ovfl| <= m
    && (k.leaf ==> p.right == 0)
  }

  /** Page pg with children of kind k, of which only number idx may have overflow cells, and no more than the insertion
      of a cell into a leaf or a balance one level below leaves. */
  ghost predicate NodeOk(k: Kind, pages: Pages, pg: Pgno, idx: nat)
    requires k.Valid()
  {
    && pg in pages && pages[pg].Valid() && pages[pg].ovfl == [] && ParentFits(k.usable, pages[pg], HdrOffset(pg))
    && idx < |KidsOf(pages, pg)| && Distinct(KidsOf(pages, pg)) && pg !in KidsOf(pages, pg)
    && (forall i | 0 <= i < |KidsOf(pages, pg)| :: KidOk(k, pages, KidsOf(pages, pg)[i], i == idx))
    && RowStored(k, RowUnder(pages, pg))
  }

  ghost predicate KidOk(k: Kind, pages: Pages, x: Pgno, over: bool)
    requires k.Valid()
  {
    x >= 2 && x in pages && ChildOk(k, pages[x], if !over then 0 else if k.leaf then 1 else 4)
  }

  lemma NodeReady(k: Kind, pages: Pages, pg: Pgno, idx: nat)
    requires k.Valid() && NodeOk(k, pages, pg, idx)
    ensures Ready(LevelOf(k), k.usable, pages, pg, idx, false)
  {
    RowStoredOk(k, RowUnder(pages, pg));
    assert pages[pg].Cells() == pages[pg].stored;
    forall x | x in KidsOf(pages, pg) ensures x in pages && pages[x].Valid() && (k.leaf ==> pages[x].right == 0) {
      var i :| 0 <= i < |KidsOf(pages, pg)| && KidsOf(pages, pg)[i] == x;
      assert KidOk(k, pages, KidsOf(pages, pg)[i], i == idx);
    }
  }

  /** The siblings around the page have few overflow cells. */
  lemma NodeFew(k: Kind, pages: Pages, pg: Pgno, idx: nat, a: nat, n: nat)
    requires k.Valid() && NodeOk(k, pages, pg, idx) && a <= idx < a + n <= |KidsOf(pages, pg)|
    ensures forall i | a <= i < a + n :: KidsOf(pages, pg)[i] in pages
    ensures KidsOf(pages, pg)[a] >= 2
    ensures FewOverflows(LevelOf(k), LevelOf(k).Capacity(k.usable), Siblings(pages, pg, a, n))
  {
    var ks := KidsOf(pages, pg);
    forall i | a <= i < a + n ensures ks[i] in pages {
      assert KidOk(k, pages, ks[i], i == idx);
    }
    assert KidOk(k, pages, ks[a], a == idx);
    var olds := Siblings(pages, pg, a, n);
    forall i | 0 <= i < n
      ensures PageBytes(LevelOf(k), olds[i].stored) <= LevelOf(k).Capacity(k.usable)
      ensures |olds[i].ovfl| <= if i != idx - a then 0 else if k.leaf then 1 else 4
    {
      assert KidOk(k, pages, ks[a + i], a + i == idx);
    }
    OverflowingOne(olds, 0, idx - a);
  }

  /** The kind of the children of page j of a path. */
  function KindAt(k: Kind, j: nat): (k': Kind)
    ensures k'.usable == k.usable
  {
    if j == 0 then k else ParentOf(k)
  }

  /** The pages from `from` on of a path from above a leaf to the root: each is sound, and the one before it is the
      child that may overflow. */
  ghost predicate PathOk(k: Kind, pages: Pages, path: seq<Pgno>, idxs: seq<nat>, from: nat)
    requires k.Valid()
  {
    && |idxs| == |path|
    && (forall j | from <= j < |path| :: NodeOk(KindAt(k, j), pages, path[j], idxs[j]))
    && (forall j | from <= j < |path| && j > 0 :: KidsOf(pages, path[j])[idxs[j]] == path[j - 1])
    && (forall i, j | from <= i < j < |path| :: Apart(pages, path[i], path[j]))
  }

  /** Two pages of a path share no child, and the upper one is not below the lower one. */
  ghost predicate Apart(pages: Pages, p: Pgno, q: Pgno) {
    && p in pages && pages[p].Valid() && q in pages && pages[q].Valid() && p != q && q !in KidsOf(pages, p)
    && forall x | x in KidsOf(pages, p) :: x !in KidsOf(pages, q)
  }

  /** What a balance below page p leaves alone: pages other than p, the children replaced and the new ones. */
  ghost predicate Untouched(pages: Pages, p: Pgno, gone: seq<Pgno>, pages': Pages) {
    forall x | x in pages && x != p && x !in gone :: x in pages' && pages'[x] == pages[x]
  }

  /** A page further up is as before. */
  lemma NodeKept(k: Kind, pages: Pages, p: Pgno, gone: seq<Pgno>, pages': Pages, q: Pgno, idx: nat)
    requires k.Valid() && NodeOk(k, pages, q, idx) && Untouched(pages, p, gone, pages')
    requires q != p && q !in gone && forall x | x in KidsOf(pages, q) :: x !in gone
    requires p in KidsOf(pages, q) ==> KidsOf(pages, q)[idx] == p && RaisedOk(k, pages', p)
    ensures pages'[q] == pages[q] && NodeOk(k, pages', q, idx)
  {
    var ks := KidsOf(pages, q);
    forall i | 0 <= i < |ks| ensures KidOk(k, pages', ks[i], i == idx) && (ks[i] == p || SameAt(pages, pages', ks[i])) {
      assert KidOk(k, pages, ks[i], i == idx) && ks[i] in ks;
    }
    RowKept(k, pages, p, pages', q, idx);
  }

  /** The page above the balanced ones: its cells fit or are among at most four overflow cells. */
  ghost predicate RaisedOk(k: Kind, pages: Pages, p: Pgno)
    requires k.Valid()
  {
    && !k.leaf && p in pages && ChildOk(k, pages[p], 4)
    && forall j | 0 <= j < |pages[p].Cells()| :: CellStored(k, pages[p].Cells()[j])
  }

  lemma RowKept(k: Kind, pages: Pages, p: Pgno, pages': Pages, q: Pgno, idx: nat)
    requires k.Valid() && q in pages && pages[q].Valid() && q in pages' && pages'[q] == pages[q]
    requires RowStored(k, RowUnder(pages, q)) && (p in KidsOf(pages, q) ==> RaisedOk(k, pages', p))
    requires forall i | 0 <= i < |KidsOf(pages, q)| ::
      KidsOf(pages, q)[i] == p || SameAt(pages, pages', KidsOf(pages, q)[i])
    ensures RowStored(k, RowUnder(pages', q))
  {
    var r, r', ks := RowUnder(pages, q), RowUnder(pages', q), KidsOf(pages, q);
    assert r'.divs == r.divs;
    forall i, j | 0 <= i < |r'.cells| && 0 <= j < |r'.cells[i]| ensures CellStored(k, r'.cells[i][j]) {
      assert ks[i] == p || SameAt(pages, pages', ks[i]);
      if ks[i] == p {
        assert p in ks && r'.cells[i] == pages'[p].Cells();
      } else {
        assert r'.cells[i] == r.cells[i];
      }
    }
  }

  /** The parent of balanced pages as a child of the next level. */
  lemma Raised(k: Kind, pages: Pages, p: Pgno)
    requires k.Valid() && p in pages && pages[p].Valid() && RowStored(k, RowUnder(pages, p))
    requires ParentFits(k.usable, pages[p], HdrOffset(p)) && |pages[p].ovfl| <= 4
    ensures RaisedOk(ParentOf(k), pages, p)
  {
    forall j | 0 <= j < |pages[p].Cells()| ensures CellStored(ParentOf(k), pages[p].Cells()[j]) {
      assert RowUnder(pages, p).divs[j] == pages[p].Cells()[j].rec;
    }
  }

  /** One level of the cascade leaves the rest of the path in order. */
  lemma PathStep(k: Kind, pages: Pages, path: seq<Pgno>, idxs: seq<nat>, i: nat, gone: seq<Pgno>, pages': Pages)
    requires k.Valid() && PathOk(k, pages, path, idxs, i) && i < |path|
    requires Untouched(pages, path[i], gone, pages') && forall x | x in gone :: x in KidsOf(pages, path[i])
    requires RaisedOk(ParentOf(k), pages', path[i])
    ensures PathOk(k, pages', path, idxs, i + 1)
  {
    forall j | i < j < |path|
      ensures NodeOk(KindAt(k, j), pages', path[j], idxs[j]) && pages'[path[j]] == pages[path[j]]
    {
      NodeAbove(k, pages, path, idxs, i, gone, pages', j);
    }
    forall j, l | i < j < l < |path| ensures Apart(pages', path[j], path[l]) {
      assert Apart(pages, path[j], path[l]);
    }
  }

  lemma NodeAbove(k: Kind, pages: Pages, path: seq<Pgno>, idxs: seq<nat>, i: nat, gone: seq<Pgno>, pages': Pages,
                  j: nat)
    requires k.Valid() && PathOk(k, pages, path, idxs, i) && i < j < |path|
    requires Untouched(pages, path[i], gone, pages') && forall x | x in gone :: x in KidsOf(pages, path[i])
    requires RaisedOk(ParentOf(k), pages', path[i])
    ensures NodeOk(KindAt(k, j), pages', path[j], idxs[j]) && pages'[path[j]] == pages[path[j]]
  {
    assert NodeOk(KindAt(k, j), pages, path[j], idxs[j]) && Apart(pages, path[i], path[j]);
    if j > i + 1 {
      assert Apart(pages, path[i + 1], path[j]) && NodeOk(KindAt(k, i + 1), pages, path[i + 1], idxs[i + 1]);
      assert KidsOf(pages, path[i + 1])[idxs[i + 1]] in KidsOf(pages, path[i + 1]);
    }
    NodeKept(KindAt(k, j), pages, path[i], gone, pages', path[j], idxs[j]);
  }

  // ---------------------------------------------------------------- the loop of balance

  /** Page numbers for all levels: different, and not in use. */
  ghost predicate Supplied(pages: Pages, supply: seq<seq<Pgno>>, from: nat) {
    && (forall i | from <= i < |supply| :: |supply[i]| >= NB + 1 && Distinct(supply[i]))
    && (forall i, x | from <= i < |supply| && x in supply[i] :: x !in pages)
    && (forall i, j, x | from <= i < j < |supply| && x in supply[i] :: x !in supply[j])
  }

  /** What a balance below path[i] gives, for the levels above. */
  lemma LevelDone(k: Kind, pages: Pages, path: seq<Pgno>, idxs: seq<nat>, i: nat, a: nat, n: nat, pgs: seq<Pgno>,
                  pages': Pages)
    requires k.Valid() && i < |path| && PathOk(k, pages, path, idxs, i)
    requires Rebalanced(LevelOf(KindAt(k, i)), k.usable, pages, path[i], a, n, pgs, pages')
    requires ParentFits(k.usable, pages'[path[i]], HdrOffset(path[i])) && |pages'[path[i]].ovfl| <= 4
    ensures PathOk(k, pages', path, idxs, i + 1) && path[i] in pages' && ChildOk(ParentOf(k), pages'[path[i]], 4)
  {
    var pg, kind := path[i], KindAt(k, i);
    assert NodeOk(kind, pages, pg, idxs[i]);
    StoredKept(kind, pages, pg, a, n, pgs, pages');
    Raised(kind, pages', pg);
    var gone := KidsOf(pages, pg)[a..a + n];
    GoneOnly(pages, pg, a, n, pgs, pages');
    PathStep(k, pages, path, idxs, i, gone, pages');
  }

  lemma GoneOnly(pages: Pages, pg: Pgno, a: nat, n: nat, pgs: seq<Pgno>, pages': Pages)
    requires KidsReplaced(pages, pg, a, n, pgs, pages')
    ensures Untouched(pages, pg, KidsOf(pages, pg)[a..a + n], pages')
    ensures forall x | x in KidsOf(pages, pg)[a..a + n] :: x in KidsOf(pages, pg)
  {
  }

  lemma StillSupplied(pages: Pages, supply: seq<seq<Pgno>>, i: nat, gone: seq<Pgno>, pgs: seq<Pgno>, pages': Pages)
    requires i < |supply| && Supplied(pages, supply, i) && forall x | x in gone :: x in pages
    requires forall x | x in pages' :: x in pages || x in pgs
    requires forall x | x in pgs :: x in gone || x in supply[i]
    ensures Supplied(pages', supply, i + 1)
  {
  }

  /** The siblings around child idx of page pg are balanced: their cells stand as the packing distributes them on as few
      pages as possible, which are siblings or were not in use. */
  ghost predicate Levelled(lv: Level, usable: nat, pages: Pages, pg: Pgno, idx: nat, a: nat, n: nat, pgs: seq<Pgno>,
                           pages': Pages)
    requires usable >= 12
  {
    && a <= idx < a + n && Rebalanced(lv, usable, pages, pg, a, n, pgs, pages')
    && Window(|pages[pg].Cells()|, idx, false, a, n)
    && PackedOver(lv, usable, false, CellsOver(lv, pages, pg, a, n), pages', pgs)
    && MinimalFor(lv, usable, Part(RowUnder(pages, pg), a, n), |pgs|)
    && OldOrUnused(pages, KidsOf(pages, pg)[a..a + n], pgs)
  }

  ghost predicate OldOrUnused(pages: Pages, gone: seq<Pgno>, pgs: seq<Pgno>) {
    forall x | x in pgs :: x in gone || x !in pages
  }

  /** One level of a run of balance. */
  ghost predicate LevelStep(k: Kind, path: seq<Pgno>, idxs: seq<nat>, i: nat, pages: Pages, pages': Pages)
    requires k.Valid() && i < |path| == |idxs|
  {
    exists a: nat, n: nat, pgs ::
      Levelled(LevelOf(KindAt(k, i)), k.usable, pages, path[i], idxs[i], a, n, pgs, pages')
  }

  /** Step i of a run of balance: it was called for, the path was in order, and one level is balanced. */
  ghost predicate RunStep(k: Kind, path: seq<Pgno>, idxs: seq<nat>, i: nat, pages: Pages, pages': Pages)
    requires k.Valid() && i < |path| == |idxs|
  {
    && PathOk(k, pages, path, idxs, i)
    && (i > 0 ==> path[i - 1] in pages && NeedsBalance(k.usable, pages[path[i - 1]]))
    && LevelStep(k, path, idxs, i, pages, pages')
  }

  /** A sequence of states whose neighbours are related by rel, which depends on the place. */
  ghost predicate Chain(rel: (nat, Pages, Pages) -> bool, trace: seq<Pages>) {
    |trace| >= 1 && forall i | 0 <= i < |trace| - 1 :: LinkAt(rel, trace, i)
  }

  ghost predicate LinkAt(rel: (nat, Pages, Pages) -> bool, trace: seq<Pages>, i: nat)
    requires i + 1 < |trace|
  {
    rel(i, trace[i], trace[i + 1])
  }

  lemma ChainGrows(rel: (nat, Pages, Pages) -> bool, trace: seq<Pages>, pages: Pages)
    requires Chain(rel, trace) && rel(|trace| - 1, trace[|trace| - 1], pages)
    ensures Chain(rel, trace + [pages])
  {
    forall i | 0 <= i < |trace| ensures LinkAt(rel, trace + [pages], i) {
      if i < |trace| - 1 {
        assert LinkAt(rel, trace, i);
      }
    }
  }

  /** The steps of a run of balance. */
  ghost function RunSteps(k: Kind, path: seq<Pgno>, idxs: seq<nat>): (rel: (nat, Pages, Pages) -> bool)
    requires k.Valid() && |idxs| == |path|
  {
    (i: nat, pages: Pages, pages': Pages) => i < |path| && RunStep(k, path, idxs, i, pages, pages')
  }

  /** A run of balance: trace[i] are the pages before the level of path[i] is balanced. */
  ghost predicate Runs(k: Kind, path: seq<Pgno>, idxs: seq<nat>, trace: seq<Pages>)
    requires k.Valid() && |idxs| == |path|
  {
    |trace| <= |path| + 1 && Chain(RunSteps(k, path, idxs), trace)
  }

  lemma RunGrows(k: Kind, path: seq<Pgno>, idxs: seq<nat>, trace: seq<Pages>, m: nat, pages: Pages, pages': Pages)
    requires k.Valid() && |idxs| == |path| && Runs(k, path, idxs, trace) && |trace| == m + 1 <= |path|
    requires trace[m] == pages && RunStep(k, path, idxs, m, pages, pages')
    ensures Runs(k, path, idxs, trace + [pages'])
  {
    ChainGrows(RunSteps(k, path, idxs), trace, pages');
  }

  lemma RunAt(k: Kind, path: seq<Pgno>, idxs: seq<nat>, trace: seq<Pages>, i: nat)
    requires k.Valid() && |idxs| == |path| && Runs(k, path, idxs, trace) && i + 1 < |trace|
    ensures RunStep(k, path, idxs, i, trace[i], trace[i + 1])
  {
    assert LinkAt(RunSteps(k, path, idxs), trace, i);
  }

  /** The pages with overflow cells. */
  ghost function Overflowing(pages: Pages): (s: set<Pgno>) {
    set x | x in pages && pages[x].ovfl != []
  }

  /** Replaced children leave the overflowing pages, and only the parent can have joined them. */
  lemma OverflowLeaves(lv: Level, usable: nat, pages: Pages, pg: Pgno, idx: nat, a: nat, n: nat, pgs: seq<Pgno>,
                       pages': Pages)
    requires usable >= 12 && a <= idx < a + n && KidsReplaced(pages, pg, a, n, pgs, pages')
    requires AllSettled(lv, usable, pages', pgs)
    ensures Overflowing(pages') <= Overflowing(pages) - {KidsOf(pages, pg)[idx]} + {pg}
  {
    var gone := KidsOf(pages, pg)[a..a + n];
    assert gone[idx - a] == KidsOf(pages, pg)[idx];
    forall x | x in Overflowing(pages') && x != pg ensures x in Overflowing(pages) && x != gone[idx - a] {
      assert x !in pgs;
    }
  }

  /** A balanced level takes the child from the overflowing pages, and may add the parent. */
  lemma OverflowStep(k: Kind, path: seq<Pgno>, idxs: seq<nat>, i: nat, pages: Pages, pages': Pages)
    requires k.Valid() && i < |path| && PathOk(k, pages, path, idxs, i) && LevelStep(k, path, idxs, i, pages, pages')
    ensures NodeOk(KindAt(k, i), pages, path[i], idxs[i])
    ensures Overflowing(pages') <= Overflowing(pages) - {KidsOf(pages, path[i])[idxs[i]]} + {path[i]}
  {
    assert NodeOk(KindAt(k, i), pages, path[i], idxs[i]);
    var a: nat, n: nat, pgs :|
      Levelled(LevelOf(KindAt(k, i)), k.usable, pages, path[i], idxs[i], a, n, pgs, pages');
    OverflowLeaves(LevelOf(KindAt(k, i)), k.usable, pages, path[i], idxs[i], a, n, pgs, pages');
  }

  /** The child of the lowest page of the path, which the cursor pointed to. */
  ghost function StartOf(k: Kind, pages: Pages, path: seq<Pgno>, idxs: seq<nat>): (x: Pgno)
    requires k.Valid() && |path| > 0 && PathOk(k, pages, path, idxs, 0)
  {
    assert NodeOk(KindAt(k, 0), pages, path[0], idxs[0]);
    KidsOf(pages, path[0])[idxs[0]]
  }

  /** In a run only the page above the level balanced last can have come to overflow, and the page it began with does
      not any more. */
  lemma {:induction false} OverflowRises(k: Kind, path: seq<Pgno>, idxs: seq<nat>, trace: seq<Pages>, m: nat)
    requires k.Valid() && |path| > 0 && |idxs| == |path| && Runs(k, path, idxs, trace)
    requires PathOk(k, trace[0], path, idxs, 0) && 1 <= m < |trace|
    ensures Overflowing(trace[m]) <= Overflowing(trace[0]) - {StartOf(k, trace[0], path, idxs)} + {path[m - 1]}
  {
    OverflowAt(k, path, idxs, trace, m - 1);
    if m > 1 {
      OverflowRises(k, path, idxs, trace, m - 1);
      Risen(Overflowing(trace[0]), StartOf(k, trace[0], path, idxs), path[m - 2], path[m - 1],
        Overflowing(trace[m - 1]), Overflowing(trace[m]));
    }
  }

  /** The child that a level of a run takes from the overflowing pages. */
  ghost function TakenAt(k: Kind, path: seq<Pgno>, idxs: seq<nat>, trace: seq<Pages>, i: nat): (x: Pgno)
    requires k.Valid() && |path| > 0 && |idxs| == |path| && Runs(k, path, idxs, trace) && i + 1 < |trace|
    requires PathOk(k, trace[0], path, idxs, 0)
  {
    if i == 0 then StartOf(k, trace[0], path, idxs) else path[i - 1]
  }

  lemma OverflowAt(k: Kind, path: seq<Pgno>, idxs: seq<nat>, trace: seq<Pages>, i: nat)
    requires k.Valid() && |path| > 0 && |idxs| == |path| && Runs(k, path, idxs, trace) && i + 1 < |trace|
    requires PathOk(k, trace[0], path, idxs, 0)
    ensures Overflowing(trace[i + 1]) <= Overflowing(trace[i]) - {TakenAt(k, path, idxs, trace, i)} + {path[i]}
  {
    RunAt(k, path, idxs, trace, i);
    OverflowStep(k, path, idxs, i, trace[i], trace[i + 1]);
    if i > 0 {
      ChildBefore(k, trace[i], path, idxs, i);
    }
  }

  lemma ChildBefore(k: Kind, pages: Pages, path: seq<Pgno>, idxs: seq<nat>, i: nat)
    requires k.Valid() && 0 < i < |path| && PathOk(k, pages, path, idxs, i)
    ensures NodeOk(KindAt(k, i), pages, path[i], idxs[i]) && KidsOf(pages, path[i])[idxs[i]] == path[i - 1]
  {
  }

  lemma Risen(o: set<Pgno>, start: Pgno, p: Pgno, q: Pgno, o': set<Pgno>, o'': set<Pgno>)
    requires o' <= o - {start} + {p} && o'' <= o' - {p} + {q}
    ensures o'' <= o - {start} + {q}
  {
  }

  /** So of the path and the page it began with, only the page reached can have overflow cells. */
  lemma PathClean(k: Kind, pages: Pages, path: seq<Pgno>, idxs: seq<nat>, done: nat, pages': Pages)
    requires k.Valid() && 1 <= done <= |path| && PathOk(k, pages, path, idxs, 0)
    requires Overflowing(pages') <= Overflowing(pages) - {StartOf(k, pages, path, idxs)} + {path[done - 1]}
    ensures StartOf(k, pages, path, idxs) !in Overflowing(pages')
    ensures forall j | 0 <= j < |path| && j != done - 1 :: path[j] !in Overflowing(pages')
  {
    var x := StartOf(k, pages, path, idxs);
    assert NodeOk(KindAt(k, 0), pages, path[0], idxs[0]) && x in KidsOf(pages, path[0]);
    assert done > 1 ==> Apart(pages, path[0], path[done - 1]);
    forall j | 0 <= j < |path| && j != done - 1 ensures path[j] !in Overflowing(pages') {
      assert NodeOk(KindAt(k, j), pages, path[j], idxs[j]);
      assert if j < done - 1 then Apart(pages, path[j], path[done - 1]) else Apart(pages, path[done - 1], path[j]);
    }
  }

  /** balance_nonroot on the children of page path[i]: never corrupt. */
  method BalanceLevel(t: Tree, k: Kind, path: seq<Pgno>, idxs: seq<nat>, i: nat, supply: seq<seq<Pgno>>)
    returns (rc: Rc)
    requires k.Valid() && t.usable == k.usable && i < |path| == |supply|
    requires PathOk(k, t.pages, path, idxs, i) && Supplied(t.pages, supply, i)
    modifies t`pages
    ensures rc == Ok && PathOk(k, t.pages, path, idxs, i + 1) && Supplied(t.pages, supply, i + 1)
    ensures path[i] in t.pages && ChildOk(ParentOf(k), t.pages[path[i]], 4)
    ensures |idxs| == |path| && LevelStep(k, path, idxs, i, old(t.pages), t.pages)
  {
    ghost var before := t.pages;
    SupplyAt(t.pages, supply, i);
    assert NodeOk(KindAt(k, i), t.pages, path[i], idxs[i]);
    ghost var a, n, pgs;
    rc, a, n, pgs := BalanceNode(t, KindAt(k, i), path[i], idxs[i], supply[i]);
    LevelAll(k, before, path, idxs, i, a, n, pgs, supply, t.pages);
  }

  lemma SupplyAt(pages: Pages, supply: seq<seq<Pgno>>, i: nat)
    requires i < |supply| && Supplied(pages, supply, i)
    ensures Distinct(supply[i]) && |supply[i]| >= NB + 1 && forall x | x in supply[i] :: x !in pages
  {
  }

  lemma LevelAll(k: Kind, pages: Pages, path: seq<Pgno>, idxs: seq<nat>, i: nat, a: nat, n: nat, pgs: seq<Pgno>,
                 supply: seq<seq<Pgno>>, pages': Pages)
    requires k.Valid() && i < |path| == |supply| == |idxs|
    requires PathOk(k, pages, path, idxs, i) && Supplied(pages, supply, i)
    requires BalancedNode(KindAt(k, i), pages, path[i], idxs[i], a, n, pgs, supply[i], pages')
    ensures PathOk(k, pages', path, idxs, i + 1) && path[i] in pages' && ChildOk(ParentOf(k), pages'[path[i]], 4)
    ensures Supplied(pages', supply, i + 1) && LevelStep(k, path, idxs, i, pages, pages')
  {
    LevelDone(k, pages, path, idxs, i, a, n, pgs, pages');
    assert NodeOk(KindAt(k, i), pages, path[i], idxs[i]);
    GoneInPages(KindAt(k, i), pages, path[i], idxs[i], a, n);
    StillSupplied(pages, supply, i, KidsOf(pages, path[i])[a..a + n], pgs, pages');
  }

  lemma GoneInPages(k: Kind, pages: Pages, pg: Pgno, idx: nat, a: nat, n: nat)
    requires k.Valid() && NodeOk(k, pages, pg, idx) && a + n <= |KidsOf(pages, pg)|
    ensures forall x | x in KidsOf(pages, pg)[a..a + n] :: x in pages
  {
    forall x | x in KidsOf(pages, pg)[a..a + n] ensures x in pages {
      var i :| a <= i < a + n && KidsOf(pages, pg)[i] == x;
      assert KidOk(k, pages, KidsOf(pages, pg)[i], i == idx);
    }
  }

  /** The result of a balance of the children of pg around number idx. */
  ghost predicate BalancedNode(k: Kind, pages: Pages, pg: Pgno, idx: nat, a: nat, n: nat, pgs: seq<Pgno>,
                               supply: seq<Pgno>, pages': Pages)
    requires k.Valid()
  {
    && Levelled(LevelOf(k), k.usable, pages, pg, idx, a, n, pgs, pages')
    && ParentFits(k.usable, pages'[pg], HdrOffset(pg)) && |pages'[pg].ovfl| <= 4
    && forall x | x in pgs :: x in KidsOf(pages, pg)[a..a + n] || x in supply
  }

  method BalanceNode(t: Tree, k: Kind, pg: Pgno, idx: nat, supply: seq<Pgno>)
    returns (rc: Rc, ghost a: nat, ghost n: nat, ghost pgs: seq<Pgno>)
    requires k.Valid() && t.usable == k.usable && NodeOk(k, t.pages, pg, idx)
    requires Distinct(supply) && |supply| >= NB + 1 && forall x | x in supply :: x !in t.pages
    modifies t`pages
    ensures rc == Ok && BalancedNode(k, old(t.pages), pg, idx, a, n, pgs, supply, t.pages)
  {
    ghost var before := t.pages;
    NodeReady(k, t.pages, pg, idx);
    rc, a, n, pgs := t.BalanceNonroot(LevelOf(k), pg, idx, false, HdrOffset(pg), supply);
    NodeFew(k, before, pg, idx, a, n);
  }

  /** The loop of balance from page path[0] up: as long as a page overflows or has too much free space, the children of
      the page above it are balanced.  trace holds the pages before each level and after the last.  No level reports
      corruption.  The loop ends below the root with a page that needs no balance, or at the root, whose stored cells
      fit and which may have overflow cells for balance_deeper; no other page has come to overflow, and the page the
      loop began with has no overflow cells any more. */
  method Cascade(t: Tree, k: Kind, path: seq<Pgno>, idxs: seq<nat>, supply: seq<seq<Pgno>>)
    returns (rc: Rc, done: nat, ghost trace: seq<Pages>)
    requires k.Valid() && t.usable == k.usable && 1 <= |path| == |supply|
    requires PathOk(k, t.pages, path, idxs, 0) && Supplied(t.pages, supply, 0)
    modifies t`pages
    ensures rc == Ok && 1 <= done <= |path| && PathOk(k, t.pages, path, idxs, done)
    ensures path[done - 1] in t.pages && ChildOk(ParentOf(k), t.pages[path[done - 1]], 4)
    ensures |trace| == done + 1 && trace[0] == old(t.pages) && trace[done] == t.pages && Runs(k, path, idxs, trace)
    ensures done < |path| ==> !NeedsBalance(k.usable, t.pages[path[done - 1]])
    ensures Overflowing(t.pages)
            <= Overflowing(old(t.pages)) - {StartOf(k, old(t.pages), path, idxs)} + {path[done - 1]}
    ensures StartOf(k, old(t.pages), path, idxs) !in Overflowing(t.pages)
    ensures forall j | 0 <= j < |path| && j != done - 1 :: path[j] !in Overflowing(t.pages)
  {
    trace := [t.pages];
    rc, trace := CascadeLevel(t, k, path, idxs, 0, supply, trace);
    done := 1;
    while done < |path| && NeedsBalance(k.usable, t.pages[path[done - 1]])
      invariant rc == Ok && 1 <= done <= |path| && Reached(k, t.pages, path, idxs, supply, done, trace)
      invariant trace[0] == old(t.pages)
    {
      rc, trace := CascadeLevel(t, k, path, idxs, done, supply, trace);
      done := done + 1;
    }
    OverflowRises(k, path, idxs, trace, done);
    PathClean(k, trace[0], path, idxs, done, t.pages);
  }

  /** Before level `done` of the cascade. */
  ghost predicate Reached(k: Kind, pages: Pages, path: seq<Pgno>, idxs: seq<nat>, supply: seq<seq<Pgno>>, done: nat,
                          trace: seq<Pages>)
    requires k.Valid() && done <= |path|
  {
    && PathOk(k, pages, path, idxs, done) && Supplied(pages, supply, done)
    && |trace| == done + 1 && trace[done] == pages && Runs(k, path, idxs, trace)
    && (done > 0 ==> path[done - 1] in pages && ChildOk(ParentOf(k), pages[path[done - 1]], 4))
  }

  method CascadeLevel(t: Tree, k: Kind, path: seq<Pgno>, idxs: seq<nat>, done: nat, supply: seq<seq<Pgno>>,
                      ghost trace: seq<Pages>)
    returns (rc: Rc, ghost trace': seq<Pages>)
    requires k.Valid() && t.usable == k.usable && done < |path| == |supply|
    requires Reached(k, t.pages, path, idxs, supply, done, trace)
    requires done > 0 ==> NeedsBalance(k.usable, t.pages[path[done - 1]])
    modifies t`pages
    ensures rc == Ok && Reached(k, t.pages, path, idxs, supply, done + 1, trace') && trace'[0] == trace[0]
  {
    ghost var before := t.pages;
    rc := BalanceLevel(t, k, path, idxs, done, supply);
    ReachedNext(k, before, path, idxs, supply, done, trace, t.pages);
    trace' := trace + [t.pages];
  }

  lemma ReachedNext(k: Kind, pages: Pages, path: seq<Pgno>, idxs: seq<nat>, supply: seq<seq<Pgno>>, done: nat,
                    trace: seq<Pages>, pages': Pages)
    requires k.Valid() && done < |path| == |supply| == |idxs| && Reached(k, pages, path, idxs, supply, done, trace)
    requires done > 0 ==> NeedsBalance(k.usable, pages[path[done - 1]])
    requires PathOk(k, pages', path, idxs, done + 1) && Supplied(pages', supply, done + 1)
    requires path[done] in pages' && ChildOk(ParentOf(k), pages'[path[done]], 4)
    requires LevelStep(k, path, idxs, done, pages, pages')
    ensures Reached(k, pages', path, idxs, supply, done + 1, trace + [pages'])
  {
    RunGrows(k, path, idxs, trace, done, pages, pages');
  }

  /** The test in balance: overflow cells, or more than two thirds of the page free. */
  predicate NeedsBalance(usable: nat, p: Page)
    requires usable >= 12
  {
    |p.ovfl| > 0 || Interior().Capacity(usable) - PageBytes(Interior(), p.stored) > usable * 2 / 3
  }
}
