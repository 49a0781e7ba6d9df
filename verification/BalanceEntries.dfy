/** What a run of balance keeps: the entries below every page at or above the level it reached, in order. */
module BalanceEntries {
  import opened CellFormat
  import opened Balance
  import opened BalanceNonroot
  import opened BalanceCells
  import opened BalanceTree
  import opened BalanceCascade

  // ---------------------------------------------------------------- the entries of a subtree

  /** A divider is an entry in an index; in a table it only repeats a key. */
  ghost function Separator(intKey: bool, d: Rec): (s: seq<Rec>) {
    if intKey then [] else [d]
  }

  /** The entries on and below page pg, h levels above the leaves, from left to right. */
  ghost function Entries(intKey: bool, pages: Pages, pg: Pgno, h: nat): (s: seq<Rec>)
    decreases h, 2, 0
  {
    TextEntries(intKey, pages, CellsAt(pages, pg), RightAt(pages, pg), h)
  }

  /** The same for cells with a right child behind them. */
  ghost function TextEntries(intKey: bool, pages: Pages, cs: seq<Cell>, last: Pgno, h: nat): (s: seq<Rec>)
    decreases h, 1, 0
  {
    CellEntries(intKey, pages, cs, h) + if h == 0 then [] else Entries(intKey, pages, last, h - 1)
  }

  ghost function CellEntries(intKey: bool, pages: Pages, cs: seq<Cell>, h: nat): (s: seq<Rec>)
    decreases h, 0, |cs|
  {
    if cs == [] then [] else CellEntry(intKey, pages, cs[0], h) + CellEntries(intKey, pages, cs[1..], h)
  }

  ghost function CellEntry(intKey: bool, pages: Pages, c: Cell, h: nat): (s: seq<Rec>)
    decreases h, 0, 0
  {
    if h == 0 then [c.rec] else Entries(intKey, pages, c.left, h - 1) + Separator(intKey, c.rec)
  }

  lemma {:induction false} CellEntriesSplit(intKey: bool, pages: Pages, cs: seq<Cell>, ds: seq<Cell>, h: nat)
    ensures CellEntries(intKey, pages, cs + ds, h)
         == CellEntries(intKey, pages, cs, h) + CellEntries(intKey, pages, ds, h)
    decreases |cs|
  {
    if cs == [] {
      assert cs + ds == ds;
    } else {
      assert (cs + ds)[1..] == cs[1..] + ds;
      CellEntriesSplit(intKey, pages, cs[1..], ds, h);
      Regroup(CellEntry(intKey, pages, cs[0], h), CellEntries(intKey, pages, cs[1..], h),
        CellEntries(intKey, pages, ds, h));
    }
  }

  /** Pages h levels above the leaves. */
  function LevelAt(intKey: bool, h: nat): (lv: Level)
    ensures lv.Valid()
  {
    Level(h == 0, h == 0 && intKey)
  }

  /** A child and the divider behind it have the entries of its cells and of the joint. */
  lemma ChildEntries(intKey: bool, pages: Pages, c: Cell, h: nat)
    ensures Entries(intKey, pages, c.left, h) + Separator(intKey, c.rec)
         == CellEntries(intKey, pages, CellsAt(pages, c.left), h)
            + CellEntries(intKey, pages, Joint(LevelAt(intKey, h), RightAt(pages, c.left), c.rec), h)
  {
    var joint := Joint(LevelAt(intKey, h), RightAt(pages, c.left), c.rec);
    if joint != [] {
      assert joint[1..] == [];
      assert CellEntries(intKey, pages, joint, h)
          == (if h == 0 then [] else Entries(intKey, pages, RightAt(pages, c.left), h - 1)) + Separator(intKey, c.rec);
    }
  }

  lemma TextSplit(intKey: bool, pages: Pages, cs: seq<Cell>, joint: seq<Cell>, rest: seq<Cell>, last: Pgno, h: nat)
    ensures TextEntries(intKey, pages, cs + joint + rest, last, h)
         == CellEntries(intKey, pages, cs, h) + CellEntries(intKey, pages, joint, h)
            + TextEntries(intKey, pages, rest, last, h)
  {
    CellEntriesSplit(intKey, pages, cs + joint, rest, h);
    CellEntriesSplit(intKey, pages, cs, joint, h);
    Regroup(CellEntries(intKey, pages, cs, h) + CellEntries(intKey, pages, joint, h),
      CellEntries(intKey, pages, rest, h), if h == 0 then [] else Entries(intKey, pages, last, h - 1));
  }

  /** Reading the children from left to right loses no entry. */
  lemma {:induction false} FlatEntries(intKey: bool, pages: Pages, cs: seq<Cell>, right: Pgno, h: nat, r: Row, lo: nat)
    requires r == Children(pages, cs, right) && lo <= |cs|
    ensures CellEntries(intKey, pages, cs[lo..], h + 1) + Entries(intKey, pages, right, h)
         == TextEntries(intKey, pages, Flat(LevelAt(intKey, h), r, lo, |cs| + 1), r.rights[|cs|], h)
    decreases |cs| - lo
  {
    if lo == |cs| {
      LastEntries(intKey, pages, cs, right, h, r);
    } else {
      FlatEntries(intKey, pages, cs, right, h, r, lo + 1);
      FirstEntries(intKey, pages, cs, h, lo);
      ChildEntries(intKey, pages, cs[lo], h);
      FlatFirst(intKey, pages, cs, right, h, r, lo);
      Regroup(Entries(intKey, pages, cs[lo].left, h) + Separator(intKey, cs[lo].rec),
        CellEntries(intKey, pages, cs[lo + 1..], h + 1), Entries(intKey, pages, right, h));
    }
  }

  lemma Regroup(a: seq<Rec>, b: seq<Rec>, c: seq<Rec>)
    ensures (a + b) + c == a + (b + c)
  {
  }

  lemma LastEntries(intKey: bool, pages: Pages, cs: seq<Cell>, right: Pgno, h: nat, r: Row)
    requires r == Children(pages, cs, right)
    ensures CellEntries(intKey, pages, cs[|cs|..], h + 1) == []
    ensures Entries(intKey, pages, right, h)
         == TextEntries(intKey, pages, Flat(LevelAt(intKey, h), r, |cs|, |cs| + 1), r.rights[|cs|], h)
  {
    assert r.cells[|cs|] == CellsAt(pages, right) && r.rights[|cs|] == RightAt(pages, right);
    assert Flat(LevelAt(intKey, h), r, |cs|, |cs| + 1) == r.cells[|cs|];
  }

  lemma FlatFirst(intKey: bool, pages: Pages, cs: seq<Cell>, right: Pgno, h: nat, r: Row, lo: nat)
    requires r == Children(pages, cs, right) && lo < |cs|
    ensures TextEntries(intKey, pages, Flat(LevelAt(intKey, h), r, lo, |cs| + 1), r.rights[|cs|], h)
         == CellEntries(intKey, pages, CellsAt(pages, cs[lo].left), h)
            + CellEntries(intKey, pages, Joint(LevelAt(intKey, h), RightAt(pages, cs[lo].left), cs[lo].rec), h)
            + TextEntries(intKey, pages, Flat(LevelAt(intKey, h), r, lo + 1, |cs| + 1), r.rights[|cs|], h)
  {
    var joint := Joint(LevelAt(intKey, h), RightAt(pages, cs[lo].left), cs[lo].rec);
    assert r.cells[lo] == CellsAt(pages, cs[lo].left) && r.rights[lo] == RightAt(pages, cs[lo].left)
      && r.divs[lo] == cs[lo].rec;
    TextSplit(intKey, pages, CellsAt(pages, cs[lo].left), joint, Flat(LevelAt(intKey, h), r, lo + 1, |cs| + 1),
      r.rights[|cs|], h);
  }

  lemma FirstEntries(intKey: bool, pages: Pages, cs: seq<Cell>, h: nat, lo: nat)
    requires lo < |cs|
    ensures CellEntries(intKey, pages, cs[lo..], h + 1)
         == Entries(intKey, pages, cs[lo].left, h) + Separator(intKey, cs[lo].rec)
            + CellEntries(intKey, pages, cs[lo + 1..], h + 1)
  {
    assert cs[lo..][1..] == cs[lo + 1..];
  }

  /** So the entries below a page are those of the text at the level of its children. */
  lemma BelowEntries(intKey: bool, pages: Pages, pg: Pgno, h: nat)
    requires pg in pages && pages[pg].Valid()
    ensures Entries(intKey, pages, pg, h + 1)
         == TextEntries(intKey, pages, Below(LevelAt(intKey, h), pages, pg).cells,
                        Below(LevelAt(intKey, h), pages, pg).last, h)
  {
    var cs, right := pages[pg].Cells(), pages[pg].right;
    FlatEntries(intKey, pages, cs, right, h, Children(pages, cs, right), 0);
    assert cs[0..] == cs;
  }

  // ---------------------------------------------------------------- pages in layers

  /** The height of every page above the leaves. */
  type Heights = map<Pgno, nat>

  ghost predicate OnHeight(pages: Pages, ht: Heights, x: Pgno, h: nat) {
    x in pages && x in ht && ht[x] == h
  }

  ghost predicate PageLayered(pages: Pages, ht: Heights, x: Pgno) {
    && x in pages && x in ht && pages[x].Valid()
    && (ht[x] > 0 ==> forall y | y in KidsOf(pages, x) :: OnHeight(pages, ht, y, ht[x] - 1))
  }

  /** The children of a page are one level below it. */
  ghost predicate Layered(pages: Pages, ht: Heights) {
    forall x {:trigger PageLayered(pages, ht, x)} | x in pages :: PageLayered(pages, ht, x)
  }

  ghost predicate DisjointKids(pages: Pages, x: Pgno, y: Pgno)
    requires x in pages && pages[x].Valid() && y in pages && pages[y].Valid()
  {
    forall z | z in KidsOf(pages, x) :: z !in KidsOf(pages, y)
  }

  /** From height lo on two pages of the same height have no child in common. */
  ghost predicate Unshared(pages: Pages, ht: Heights, lo: nat)
    requires Layered(pages, ht)
  {
    forall x, y {:trigger Unrelated(pages, ht, x, y)} |
      x in pages && y in pages && x in ht && y in ht && x != y && ht[x] == ht[y] >= lo :: Unrelated(pages, ht, x, y)
  }

  ghost predicate Unrelated(pages: Pages, ht: Heights, x: Pgno, y: Pgno) {
    x in pages && y in pages && pages[x].Valid() && pages[y].Valid() && DisjointKids(pages, x, y)
  }

  // ---------------------------------------------------------------- unchanged entries

  /** The children of the cells have the same entries before and after. */
  ghost predicate KidsSame(intKey: bool, pages: Pages, pages': Pages, cs: seq<Cell>, h: nat) {
    forall i | 0 <= i < |cs| :: Entries(intKey, pages', cs[i].left, h) == Entries(intKey, pages, cs[i].left, h)
  }

  lemma {:induction false} CellEntriesSame(intKey: bool, pages: Pages, pages': Pages, cs: seq<Cell>, h: nat)
    requires h > 0 ==> KidsSame(intKey, pages, pages', cs, h - 1)
    ensures CellEntries(intKey, pages', cs, h) == CellEntries(intKey, pages, cs, h)
    decreases |cs|
  {
    if cs != [] {
      CellEntriesSame(intKey, pages, pages', cs[1..], h);
    }
  }

  lemma TextSame(intKey: bool, pages: Pages, pages': Pages, cs: seq<Cell>, last: Pgno, h: nat)
    requires h > 0 ==> KidsSame(intKey, pages, pages', cs, h - 1)
    requires h > 0 ==> Entries(intKey, pages', last, h - 1) == Entries(intKey, pages, last, h - 1)
    ensures TextEntries(intKey, pages', cs, last, h) == TextEntries(intKey, pages, cs, last, h)
  {
    CellEntriesSame(intKey, pages, pages', cs, h);
  }

  /** The children of page x have the same entries before and after. */
  ghost predicate KidsKept(intKey: bool, pages: Pages, pages': Pages, x: Pgno, h: nat)
    requires x in pages && pages[x].Valid()
  {
    forall y | y in KidsOf(pages, x) :: Entries(intKey, pages', y, h) == Entries(intKey, pages, y, h)
  }

  /** A page that stays, above children with the same entries. */
  lemma PageSame(intKey: bool, pages: Pages, pages': Pages, x: Pgno, h: nat)
    requires x in pages && x in pages' && pages'[x] == pages[x] && pages[x].Valid()
    requires h > 0 ==> KidsKept(intKey, pages, pages', x, h - 1)
    ensures Entries(intKey, pages', x, h) == Entries(intKey, pages, x, h)
  {
    var cs, ks := pages[x].Cells(), KidsOf(pages, x);
    if h > 0 {
      forall i | 0 <= i < |cs| ensures Entries(intKey, pages', cs[i].left, h - 1)
                                    == Entries(intKey, pages, cs[i].left, h - 1) {
        assert ks[i] == cs[i].left && ks[i] in ks;
      }
      assert ks[|cs|] == pages[x].right && ks[|cs|] in ks;
    }
    TextSame(intKey, pages, pages', cs, pages[x].right, h);
  }

  /** All pages below height h stay. */
  ghost predicate LowerStay(pages: Pages, ht: Heights, pages': Pages, h: nat) {
    forall x | x in pages && x in ht && ht[x] < h :: x in pages' && pages'[x] == pages[x]
  }

  lemma {:induction false} LowerSame(intKey: bool, pages: Pages, ht: Heights, pages': Pages, x: Pgno, h: nat)
    requires Layered(pages, ht) && OnHeight(pages, ht, x, h) && x in pages' && pages'[x] == pages[x]
    requires LowerStay(pages, ht, pages', h)
    ensures Entries(intKey, pages', x, h) == Entries(intKey, pages, x, h)
    decreases h
  {
    assert PageLayered(pages, ht, x);
    if h > 0 {
      forall y | y in KidsOf(pages, x)
        ensures Entries(intKey, pages', y, h - 1) == Entries(intKey, pages, y, h - 1) {
        assert OnHeight(pages, ht, y, h - 1);
        LowerSame(intKey, pages, ht, pages', y, h - 1);
      }
    }
    PageSame(intKey, pages, pages', x, h);
  }

  // ---------------------------------------------------------------- one level

  /** The left children of the cells are at height h. */
  ghost predicate LeftsAt(pages: Pages, ht: Heights, cs: seq<Cell>, h: nat) {
    forall c | c in cs :: OnHeight(pages, ht, c.left, h)
  }

  /** The children of the children of a page, seen in the text, are two levels below it. */
  lemma {:induction false} TextPoints(intKey: bool, pages: Pages, ht: Heights, pg: Pgno, h: nat, lo: nat)
    requires Layered(pages, ht) && OnHeight(pages, ht, pg, h + 2) && pages[pg].Valid() && lo <= |KidsOf(pages, pg)|
    ensures LeftsAt(pages, ht, Flat(LevelAt(intKey, h + 1), RowUnder(pages, pg), lo, |KidsOf(pages, pg)|), h)
    decreases |KidsOf(pages, pg)| - lo
  {
    var ks, r := KidsOf(pages, pg), RowUnder(pages, pg);
    if lo < |ks| {
      TextPoints(intKey, pages, ht, pg, h, lo + 1);
      assert PageLayered(pages, ht, pg) && ks[lo] in ks;
      KidPoints(pages, ht, ks[lo], h);
      assert r.cells[lo] == pages[ks[lo]].Cells() && r.rights[lo] == pages[ks[lo]].right;
    }
  }

  /** The pointers of a page two levels up. */
  lemma KidPoints(pages: Pages, ht: Heights, x: Pgno, h: nat)
    requires Layered(pages, ht) && OnHeight(pages, ht, x, h + 1)
    ensures pages[x].Valid() && LeftsAt(pages, ht, pages[x].Cells(), h) && OnHeight(pages, ht, pages[x].right, h)
  {
    assert PageLayered(pages, ht, x);
    var cs, ks := pages[x].Cells(), KidsOf(pages, x);
    forall c | c in cs ensures OnHeight(pages, ht, c.left, h) {
      var i :| 0 <= i < |cs| && cs[i] == c;
      assert ks[i] == c.left && ks[i] in ks;
    }
    assert ks[|cs|] == pages[x].right && ks[|cs|] in ks;
  }

  lemma BelowPoints(intKey: bool, pages: Pages, ht: Heights, pg: Pgno, h: nat)
    requires Layered(pages, ht) && OnHeight(pages, ht, pg, h + 2) && pages[pg].Valid()
    ensures LeftsAt(pages, ht, Below(LevelAt(intKey, h + 1), pages, pg).cells, h)
    ensures OnHeight(pages, ht, Below(LevelAt(intKey, h + 1), pages, pg).last, h)
  {
    TextPoints(intKey, pages, ht, pg, h, 0);
    var ks := KidsOf(pages, pg);
    assert PageLayered(pages, ht, pg) && ks[|ks| - 1] in ks;
    KidPoints(pages, ht, ks[|ks| - 1], h);
  }

  /** A level h balanced below pg: the children `gone` gave way to the pages `come`. */
  ghost predicate Exchanged(pages: Pages, ht: Heights, pg: Pgno, h: nat, gone: set<Pgno>, come: set<Pgno>,
                            pages': Pages) {
    && OnHeight(pages, ht, pg, h + 1) && pg in pages' && pages[pg].Valid() && pages'[pg].Valid()
    && (forall x | x in gone :: OnHeight(pages, ht, x, h) && x in KidsOf(pages, pg))
    && (forall x | x in come :: x in pages' && pages'[x].Valid() && (x in gone || x !in pages))
    && (forall x | x in pages && x != pg && x !in gone :: x in pages' && pages'[x] == pages[x])
    && (forall x | x in pages' && x !in come :: x in pages && x !in gone)
  }

  /** In addition the text below pg, read at the level of its children, is as before. */
  ghost predicate Moved(intKey: bool, pages: Pages, ht: Heights, pg: Pgno, h: nat, gone: set<Pgno>, come: set<Pgno>,
                        pages': Pages) {
    && Exchanged(pages, ht, pg, h, gone, come, pages')
    && Below(LevelAt(intKey, h), pages', pg) == Below(LevelAt(intKey, h), pages, pg)
  }

  lemma LowerStays(pages: Pages, ht: Heights, pg: Pgno, h: nat, gone: set<Pgno>, come: set<Pgno>, pages': Pages)
    requires Exchanged(pages, ht, pg, h, gone, come, pages')
    ensures LowerStay(pages, ht, pages', h)
  {
  }

  /** The entries below the parent are as before. */
  lemma ParentKept(intKey: bool, pages: Pages, ht: Heights, pg: Pgno, h: nat, gone: set<Pgno>, come: set<Pgno>,
                   pages': Pages)
    requires Layered(pages, ht) && Moved(intKey, pages, ht, pg, h, gone, come, pages')
    ensures Entries(intKey, pages', pg, h + 1) == Entries(intKey, pages, pg, h + 1)
  {
    var text := Below(LevelAt(intKey, h), pages, pg);
    BelowEntries(intKey, pages, pg, h);
    BelowEntries(intKey, pages', pg, h);
    LowerStays(pages, ht, pg, h, gone, come, pages');
    if h > 0 {
      BelowPoints(intKey, pages, ht, pg, h - 1);
    }
    GrandKidsSame(intKey, pages, ht, pages', text.cells, text.last, h);
  }

  lemma GrandKidsSame(intKey: bool, pages: Pages, ht: Heights, pages': Pages, cs: seq<Cell>, last: Pgno, h: nat)
    requires Layered(pages, ht) && LowerStay(pages, ht, pages', h)
    requires h > 0 ==> LeftsAt(pages, ht, cs, h - 1) && OnHeight(pages, ht, last, h - 1)
    ensures TextEntries(intKey, pages', cs, last, h) == TextEntries(intKey, pages, cs, last, h)
  {
    if h > 0 {
      forall i | 0 <= i < |cs|
        ensures Entries(intKey, pages', cs[i].left, h - 1) == Entries(intKey, pages, cs[i].left, h - 1) {
        assert cs[i] in cs;
        LowerSame(intKey, pages, ht, pages', cs[i].left, h - 1);
      }
      LowerSame(intKey, pages, ht, pages', last, h - 1);
    }
    TextSame(intKey, pages, pages', cs, last, h);
  }

  /** A balanced level that keeps the entries below the parent. */
  ghost predicate ParentDone(intKey: bool, pages: Pages, ht: Heights, pg: Pgno, h: nat, gone: set<Pgno>,
                             come: set<Pgno>, pages': Pages) {
    && Layered(pages, ht) && Unshared(pages, ht, h + 1) && Exchanged(pages, ht, pg, h, gone, come, pages')
    && Entries(intKey, pages', pg, h + 1) == Entries(intKey, pages, pg, h + 1)
  }

  /** All pages at height l are still there with the same entries below them. */
  ghost predicate LayerKept(intKey: bool, pages: Pages, ht: Heights, pages': Pages, l: nat) {
    forall x | OnHeight(pages, ht, x, l) :: SameEntries(intKey, pages, pages', x, l)
  }

  ghost predicate SameEntries(intKey: bool, pages: Pages, pages': Pages, x: Pgno, l: nat) {
    x in pages' && Entries(intKey, pages', x, l) == Entries(intKey, pages, x, l)
  }

  /** So are those below every page from the height of the parent on. */
  lemma {:induction false} UpperKept(intKey: bool, pages: Pages, ht: Heights, pg: Pgno, h: nat, gone: set<Pgno>,
                                     come: set<Pgno>, pages': Pages, l: nat)
    requires ParentDone(intKey, pages, ht, pg, h, gone, come, pages') && l >= h + 1
    ensures LayerKept(intKey, pages, ht, pages', l)
    decreases l
  {
    if l == h + 1 {
      forall x | OnHeight(pages, ht, x, l) ensures SameEntries(intKey, pages, pages', x, l) {
        ParentLayer(intKey, pages, ht, pg, h, gone, come, pages', x);
      }
    } else {
      var m: nat := l - 1;
      UpperKept(intKey, pages, ht, pg, h, gone, come, pages', m);
      forall x | OnHeight(pages, ht, x, l) ensures SameEntries(intKey, pages, pages', x, l) {
        NextLayer(intKey, pages, ht, pg, h, gone, come, pages', x, m);
      }
    }
  }

  lemma NextLayer(intKey: bool, pages: Pages, ht: Heights, pg: Pgno, h: nat, gone: set<Pgno>, come: set<Pgno>,
                  pages': Pages, x: Pgno, m: nat)
    requires ParentDone(intKey, pages, ht, pg, h, gone, come, pages') && OnHeight(pages, ht, x, m + 1) && m >= h + 1
    requires LayerKept(intKey, pages, ht, pages', m)
    ensures SameEntries(intKey, pages, pages', x, m + 1)
  {
    UpperStays(pages, ht, pg, h, gone, come, pages', x, m + 1);
    UpperSame(intKey, pages, ht, pages', x, m);
  }

  lemma ParentLayer(intKey: bool, pages: Pages, ht: Heights, pg: Pgno, h: nat, gone: set<Pgno>, come: set<Pgno>,
                    pages': Pages, x: Pgno)
    requires ParentDone(intKey, pages, ht, pg, h, gone, come, pages') && OnHeight(pages, ht, x, h + 1)
    ensures SameEntries(intKey, pages, pages', x, h + 1)
  {
    if x != pg {
      UpperStays(pages, ht, pg, h, gone, come, pages', x, h + 1);
      CousinsKept(intKey, pages, ht, pg, h, gone, come, pages', x);
    }
  }

  lemma UpperSame(intKey: bool, pages: Pages, ht: Heights, pages': Pages, x: Pgno, m: nat)
    requires x in pages && x in pages' && pages'[x] == pages[x] && pages[x].Valid()
    requires KidsOn(pages, ht, x, m) && LayerKept(intKey, pages, ht, pages', m)
    ensures SameEntries(intKey, pages, pages', x, m + 1)
  {
    forall y | y in KidsOf(pages, x) ensures Entries(intKey, pages', y, m) == Entries(intKey, pages, y, m) {
      assert OnHeight(pages, ht, y, m);
      assert SameEntries(intKey, pages, pages', y, m);
    }
    PageSame(intKey, pages, pages', x, m + 1);
  }

  lemma CousinsKept(intKey: bool, pages: Pages, ht: Heights, pg: Pgno, h: nat, gone: set<Pgno>, come: set<Pgno>,
                    pages': Pages, x: Pgno)
    requires ParentDone(intKey, pages, ht, pg, h, gone, come, pages')
    requires OnHeight(pages, ht, x, h + 1) && x != pg && x in pages' && pages'[x] == pages[x] && pages[x].Valid()
    requires KidsOn(pages, ht, x, h)
    ensures SameEntries(intKey, pages, pages', x, h + 1)
  {
    forall y | y in KidsOf(pages, x) ensures Entries(intKey, pages', y, h) == Entries(intKey, pages, y, h) {
      assert OnHeight(pages, ht, y, h);
      CousinKept(intKey, pages, ht, pg, h, gone, come, pages', x, y);
    }
    PageSame(intKey, pages, pages', x, h + 1);
  }

  lemma UpperStays(pages: Pages, ht: Heights, pg: Pgno, h: nat, gone: set<Pgno>, come: set<Pgno>, pages': Pages,
                   x: Pgno, l: nat)
    requires Layered(pages, ht) && Exchanged(pages, ht, pg, h, gone, come, pages')
    requires OnHeight(pages, ht, x, l) && l >= h + 1 && x != pg
    ensures x in pages' && pages'[x] == pages[x] && pages[x].Valid()
    ensures KidsOn(pages, ht, x, l - 1)
  {
    assert PageLayered(pages, ht, x);
  }

  ghost predicate KidsOn(pages: Pages, ht: Heights, x: Pgno, h: nat)
    requires x in pages && pages[x].Valid()
  {
    forall y | y in KidsOf(pages, x) :: OnHeight(pages, ht, y, h)
  }

  /** A child of another page as high as the parent. */
  lemma CousinKept(intKey: bool, pages: Pages, ht: Heights, pg: Pgno, h: nat, gone: set<Pgno>, come: set<Pgno>,
                   pages': Pages, x: Pgno, y: Pgno)
    requires Layered(pages, ht) && Unshared(pages, ht, h + 1) && Exchanged(pages, ht, pg, h, gone, come, pages')
    requires OnHeight(pages, ht, x, h + 1) && x != pg && pages[x].Valid() && y in KidsOf(pages, x)
    requires OnHeight(pages, ht, y, h)
    ensures Entries(intKey, pages', y, h) == Entries(intKey, pages, y, h)
  {
    assert Unrelated(pages, ht, x, pg);
    LowerStays(pages, ht, pg, h, gone, come, pages');
    LowerSame(intKey, pages, ht, pages', y, h);
  }

  // ---------------------------------------------------------------- the layers stay

  /** The heights after a level is balanced. */
  ghost function NewHeights(ht: Heights, h: nat, come: set<Pgno>): (ht': Heights) {
    map x | x in ht.Keys + come :: if x in come then h else ht[x]
  }

  /** A page that is not replaced, or replaced by itself, keeps its height. */
  lemma StillOn(pages: Pages, ht: Heights, pg: Pgno, h: nat, gone: set<Pgno>, come: set<Pgno>, pages': Pages, y: Pgno,
                l: nat)
    requires Exchanged(pages, ht, pg, h, gone, come, pages') && OnHeight(pages, ht, y, l) && (y in gone ==> y in come)
    ensures OnHeight(pages', NewHeights(ht, h, come), y, l)
  {
  }

  lemma ParentLayered(pages: Pages, ht: Heights, pg: Pgno, h: nat, gone: set<Pgno>, come: set<Pgno>, pages': Pages)
    requires Layered(pages, ht) && Exchanged(pages, ht, pg, h, gone, come, pages')
    requires forall y | y in KidsOf(pages', pg) :: y in come || (y in KidsOf(pages, pg) && y !in gone)
    ensures PageLayered(pages', NewHeights(ht, h, come), pg)
  {
    assert PageLayered(pages, ht, pg);
    forall y | y in KidsOf(pages', pg) ensures OnHeight(pages', NewHeights(ht, h, come), y, h) {
      if y !in come {
        StillOn(pages, ht, pg, h, gone, come, pages', y, h);
      }
    }
    StillOn(pages, ht, pg, h, gone, come, pages', pg, h + 1);
  }

  /** The new pages point to pages that the replaced ones pointed to. */
  lemma NewLayered(pages: Pages, ht: Heights, pg: Pgno, h: nat, gone: set<Pgno>, come: set<Pgno>, pages': Pages,
                   x: Pgno)
    requires Layered(pages, ht) && Exchanged(pages, ht, pg, h, gone, come, pages') && x in come
    requires h > 0 ==> Points(pages, ht, pages'[x], h - 1)
    ensures PageLayered(pages', NewHeights(ht, h, come), x)
  {
    if h > 0 {
      var cs, ks := pages'[x].Cells(), KidsOf(pages', x);
      forall y | y in ks ensures OnHeight(pages', NewHeights(ht, h, come), y, h - 1) {
        var j :| 0 <= j < |ks| && ks[j] == y;
        assert j < |cs| ==> cs[j] in cs;
        StillOn(pages, ht, pg, h, gone, come, pages', y, h - 1);
      }
    }
  }

  /** All pointers of a page go to pages at height h. */
  ghost predicate Points(pages: Pages, ht: Heights, p: Page, h: nat) {
    p.Valid() && LeftsAt(pages, ht, p.Cells(), h) && OnHeight(pages, ht, p.right, h)
  }

  lemma NewPoints(intKey: bool, pages: Pages, ht: Heights, pg: Pgno, h: nat, gone: set<Pgno>, come: set<Pgno>,
                  pages': Pages, i: nat)
    requires Layered(pages, ht) && Moved(intKey, pages, ht, pg, h, gone, come, pages') && h > 0
    requires i < |KidsOf(pages', pg)| && KidsOf(pages', pg)[i] in come
    ensures Points(pages, ht, pages'[KidsOf(pages', pg)[i]], h - 1)
  {
    var x, r := KidsOf(pages', pg)[i], RowUnder(pages', pg);
    BelowPoints(intKey, pages, ht, pg, h - 1);
    assert Below(LevelAt(intKey, h), pages', pg) == Below(LevelAt(intKey, h), pages, pg);
    assert r.cells[i] == pages'[x].Cells() && r.rights[i] == pages'[x].right;
    RowPoints(LevelAt(intKey, h), pages, ht, r, i, h - 1);
  }

  /** The pointers of a page are among those of the text. */
  lemma RowPoints(lv: Level, pages: Pages, ht: Heights, r: Row, i: nat, h: nat)
    requires r.Valid() && i < |r.cells| && !lv.leafData && !lv.leaf
    requires LeftsAt(pages, ht, Flat(lv, r, 0, |r.cells|), h) && OnHeight(pages, ht, r.rights[|r.cells| - 1], h)
    ensures LeftsAt(pages, ht, r.cells[i], h) && OnHeight(pages, ht, r.rights[i], h)
  {
    forall c | c in r.cells[i] ensures OnHeight(pages, ht, c.left, h) {
      var j :| 0 <= j < |r.cells[i]| && r.cells[i][j] == c;
      InFlat(lv, r, 0, i, j);
    }
    if i < |r.divs| {
      JointInFlat(lv, r, 0, i);
      assert OnHeight(pages, ht, Cell(r.rights[i], r.divs[i]).left, h);
    }
  }

  /** The children of any other page are not replaced, unless by themselves. */
  lemma OtherLayered(pages: Pages, ht: Heights, pg: Pgno, h: nat, gone: set<Pgno>, come: set<Pgno>, pages': Pages,
                     x: Pgno)
    requires Layered(pages, ht) && Unshared(pages, ht, h + 1) && Exchanged(pages, ht, pg, h, gone, come, pages')
    requires x in pages' && x != pg && x !in come
    ensures PageLayered(pages', NewHeights(ht, h, come), x)
  {
    StillPage(pages, ht, pg, h, gone, come, pages', x);
    StillOn(pages, ht, pg, h, gone, come, pages', x, ht[x]);
    if ht[x] > 0 {
      forall y | y in KidsOf(pages', x) ensures OnHeight(pages', NewHeights(ht, h, come), y, ht[x] - 1) {
        assert OnHeight(pages, ht, y, ht[x] - 1);
        assert ht[x] == h + 1 ==> Unrelated(pages, ht, x, pg);
        StillOn(pages, ht, pg, h, gone, come, pages', y, ht[x] - 1);
      }
    }
  }

  /** Above the parent nothing moved. */
  lemma UnsharedKept(pages: Pages, ht: Heights, pg: Pgno, h: nat, gone: set<Pgno>, come: set<Pgno>, pages': Pages)
    requires Layered(pages, ht) && Unshared(pages, ht, h + 1) && Exchanged(pages, ht, pg, h, gone, come, pages')
    requires Layered(pages', NewHeights(ht, h, come))
    ensures Unshared(pages', NewHeights(ht, h, come), h + 2)
  {
    var ht' := NewHeights(ht, h, come);
    forall x, y | x in pages' && y in pages' && x in ht' && y in ht' && x != y && ht'[x] == ht'[y] >= h + 2
      ensures Unrelated(pages', ht', x, y) {
      UpperUnrelated(pages, ht, pg, h, gone, come, pages', x, y);
    }
  }

  lemma UpperUnrelated(pages: Pages, ht: Heights, pg: Pgno, h: nat, gone: set<Pgno>, come: set<Pgno>, pages': Pages,
                       x: Pgno, y: Pgno)
    requires Layered(pages, ht) && Unshared(pages, ht, h + 1) && Exchanged(pages, ht, pg, h, gone, come, pages')
    requires x in pages' && y in pages' && x != y && x !in come && y !in come
    requires x in ht && y in ht && ht[x] == ht[y] >= h + 2 && x != pg && y != pg
    ensures Unrelated(pages', NewHeights(ht, h, come), x, y)
  {
    assert Unrelated(pages, ht, x, y);
    StillPage(pages, ht, pg, h, gone, come, pages', x);
    StillPage(pages, ht, pg, h, gone, come, pages', y);
  }

  /** A page that is neither the parent nor a child that came is as before. */
  lemma StillPage(pages: Pages, ht: Heights, pg: Pgno, h: nat, gone: set<Pgno>, come: set<Pgno>, pages': Pages,
                  x: Pgno)
    requires Layered(pages, ht) && Exchanged(pages, ht, pg, h, gone, come, pages')
    requires x in pages' && x != pg && x !in come
    ensures x in pages && pages'[x] == pages[x] && PageLayered(pages, ht, x) && x !in gone
    ensures KidsOf(pages', x) == KidsOf(pages, x)
  {
  }

  // ---------------------------------------------------------------- a run

  ghost predicate KeptAt(intKey: bool, pages: Pages, ht: Heights, pages': Pages, ht': Heights, x: Pgno)
    requires x in ht
  {
    && x in pages' && x in ht' && ht'[x] == ht[x]
    && Entries(intKey, pages', x, ht[x]) == Entries(intKey, pages, x, ht[x])
  }

  /** Every page from height lo on is still there, at its height, with the same entries below it. */
  ghost predicate EntriesKept(intKey: bool, pages: Pages, ht: Heights, pages': Pages, ht': Heights, lo: nat) {
    forall x | x in pages && x in ht && ht[x] >= lo :: KeptAt(intKey, pages, ht, pages', ht', x)
  }

  /** The children a..a+n-1 of pg gave way to the pages pgs, and what is written of them holds. */
  ghost predicate Replaces(intKey: bool, pages: Pages, pg: Pgno, h: nat, a: nat, n: nat, pgs: seq<Pgno>,
                           pages': Pages) {
    && KidsReplaced(pages, pg, a, n, pgs, pages')
    && OldOrUnused(pages, KidsOf(pages, pg)[a..a + n], pgs)
    && (forall x | x in pgs :: x in pages' && pages'[x].Valid())
    && Below(LevelAt(intKey, h), pages', pg) == Below(LevelAt(intKey, h), pages, pg)
  }

  lemma ReplacesMoved(intKey: bool, pages: Pages, ht: Heights, pg: Pgno, h: nat, a: nat, n: nat, pgs: seq<Pgno>,
                      pages': Pages, gone: seq<Pgno>)
    requires Layered(pages, ht) && OnHeight(pages, ht, pg, h + 1) && Replaces(intKey, pages, pg, h, a, n, pgs, pages')
    requires gone == KidsOf(pages, pg)[a..a + n] && pg !in KidsOf(pages, pg)
    ensures Moved(intKey, pages, ht, pg, h, Elems(gone), Elems(pgs), pages')
  {
    assert PageLayered(pages, ht, pg);
    forall x | x in gone ensures OnHeight(pages, ht, x, h) && x in KidsOf(pages, pg) {
      assert x in KidsOf(pages, pg);
    }
  }

  /** A child of the parent afterwards is a new one or one of the others. */
  lemma NewKid(ks: seq<Pgno>, a: nat, n: nat, pgs: seq<Pgno>, ks': seq<Pgno>, k: int, i: nat)
    requires Spliced(ks, a, n, pgs, ks', k) && i < |ks'| && Distinct(ks)
    ensures ks'[i] in pgs || (ks'[i] in ks && ks'[i] !in ks[a..a + n])
  {
    if a <= i < a + |pgs| {
      assert pgs[i - a] == ks'[a + (i - a)];
    } else if i < a {
      assert ks[i] == ks'[i];
      NotInPart(ks, a, a + n, i);
    } else {
      assert ks[i - k] == ks'[i - k + k];
      NotInPart(ks, a, a + n, i - k);
    }
  }

  lemma NotInPart(s: seq<Pgno>, lo: nat, hi: nat, j: nat)
    requires Distinct(s) && lo <= hi <= |s| && j < |s| && !(lo <= j < hi)
    ensures s[j] in s && s[j] !in s[lo..hi]
  {
  }

  lemma LayersKept(intKey: bool, pages: Pages, ht: Heights, pg: Pgno, h: nat, a: nat, n: nat, pgs: seq<Pgno>,
                   pages': Pages, gone: seq<Pgno>)
    requires Layered(pages, ht) && Unshared(pages, ht, h + 1) && KidsReplaced(pages, pg, a, n, pgs, pages')
    requires gone == KidsOf(pages, pg)[a..a + n] && Distinct(KidsOf(pages, pg))
    requires Moved(intKey, pages, ht, pg, h, Elems(gone), Elems(pgs), pages')
    ensures Layered(pages', NewHeights(ht, h, Elems(pgs)))
  {
    var o, c := Elems(gone), Elems(pgs);
    forall x | x in pages' ensures PageLayered(pages', NewHeights(ht, h, c), x) {
      if x == pg {
        NewKids(pages, pg, a, n, pgs, pages');
        ParentLayered(pages, ht, pg, h, o, c, pages');
      } else if x in c {
        ComeLayered(intKey, pages, ht, pg, h, a, n, pgs, pages', o, x);
      } else {
        OtherLayered(pages, ht, pg, h, o, c, pages', x);
      }
    }
  }

  lemma NewKids(pages: Pages, pg: Pgno, a: nat, n: nat, pgs: seq<Pgno>, pages': Pages)
    requires KidsReplaced(pages, pg, a, n, pgs, pages') && Distinct(KidsOf(pages, pg))
    ensures forall y | y in KidsOf(pages', pg) ::
      y in Elems(pgs) || (y in KidsOf(pages, pg) && y !in Elems(KidsOf(pages, pg)[a..a + n]))
  {
    forall y | y in KidsOf(pages', pg)
      ensures y in pgs || (y in KidsOf(pages, pg) && y !in KidsOf(pages, pg)[a..a + n]) {
      var i :| 0 <= i < |KidsOf(pages', pg)| && KidsOf(pages', pg)[i] == y;
      NewKid(KidsOf(pages, pg), a, n, pgs, KidsOf(pages', pg), |pgs| - n, i);
    }
  }

  lemma PlaceOf(pages: Pages, pg: Pgno, a: nat, n: nat, pgs: seq<Pgno>, pages': Pages, x: Pgno) returns (i: nat)
    requires KidsReplaced(pages, pg, a, n, pgs, pages') && x in pgs
    ensures i < |KidsOf(pages', pg)| && KidsOf(pages', pg)[i] == x
  {
    var j :| 0 <= j < |pgs| && pgs[j] == x;
    i := a + j;
  }

  lemma ComeLayered(intKey: bool, pages: Pages, ht: Heights, pg: Pgno, h: nat, a: nat, n: nat, pgs: seq<Pgno>,
                    pages': Pages, gone: set<Pgno>, x: Pgno)
    requires Layered(pages, ht) && KidsReplaced(pages, pg, a, n, pgs, pages') && x in pgs
    requires Moved(intKey, pages, ht, pg, h, gone, Elems(pgs), pages')
    ensures PageLayered(pages', NewHeights(ht, h, Elems(pgs)), x)
  {
    if h > 0 {
      var i := PlaceOf(pages, pg, a, n, pgs, pages', x);
      NewPoints(intKey, pages, ht, pg, h, gone, Elems(pgs), pages', i);
    }
    NewLayered(pages, ht, pg, h, gone, Elems(pgs), pages', x);
  }

  lemma UpperKeptAt(intKey: bool, pages: Pages, ht: Heights, pg: Pgno, h: nat, gone: set<Pgno>, come: set<Pgno>,
                    pages': Pages)
    requires Layered(pages, ht) && Unshared(pages, ht, h + 1) && Moved(intKey, pages, ht, pg, h, gone, come, pages')
    ensures EntriesKept(intKey, pages, ht, pages', NewHeights(ht, h, come), h + 1)
  {
    ParentKept(intKey, pages, ht, pg, h, gone, come, pages');
    forall x | x in pages && x in ht && ht[x] >= h + 1
      ensures KeptAt(intKey, pages, ht, pages', NewHeights(ht, h, come), x) {
      UpperPage(intKey, pages, ht, pg, h, gone, come, pages', x);
    }
  }

  lemma UpperPage(intKey: bool, pages: Pages, ht: Heights, pg: Pgno, h: nat, gone: set<Pgno>, come: set<Pgno>,
                  pages': Pages, x: Pgno)
    requires ParentDone(intKey, pages, ht, pg, h, gone, come, pages')
    requires x in pages && x in ht && ht[x] >= h + 1
    ensures KeptAt(intKey, pages, ht, pages', NewHeights(ht, h, come), x)
  {
    UpperKept(intKey, pages, ht, pg, h, gone, come, pages', ht[x]);
    assert OnHeight(pages, ht, x, ht[x]);
    assert SameEntries(intKey, pages, pages', x, ht[x]);
    StillOn(pages, ht, pg, h, gone, come, pages', x, ht[x]);
  }

  lemma LevelKept(intKey: bool, pages: Pages, ht: Heights, pg: Pgno, h: nat, a: nat, n: nat, pgs: seq<Pgno>,
                  pages': Pages)
    returns (ht': Heights)
    requires Layered(pages, ht) && Unshared(pages, ht, h + 1) && OnHeight(pages, ht, pg, h + 1)
    requires Replaces(intKey, pages, pg, h, a, n, pgs, pages')
    requires Distinct(KidsOf(pages, pg)) && pg !in KidsOf(pages, pg)
    ensures Layered(pages', ht') && Unshared(pages', ht', h + 2)
    ensures EntriesKept(intKey, pages, ht, pages', ht', h + 1)
  {
    var gone := KidsOf(pages, pg)[a..a + n];
    ht' := NewHeights(ht, h, Elems(pgs));
    ReplacesMoved(intKey, pages, ht, pg, h, a, n, pgs, pages', gone);
    LayersKept(intKey, pages, ht, pg, h, a, n, pgs, pages', gone);
    UnsharedKept(pages, ht, pg, h, Elems(gone), Elems(pgs), pages');
    UpperKeptAt(intKey, pages, ht, pg, h, Elems(gone), Elems(pgs), pages');
  }

  /** A balanced level of a run. */
  lemma StepKept(k: Kind, path: seq<Pgno>, idxs: seq<nat>, i: nat, pages: Pages, ht: Heights, pages': Pages)
    returns (ht': Heights)
    requires k.Valid() && k.leaf && i < |path| == |idxs| && RunStep(k, path, idxs, i, pages, pages')
    requires Layered(pages, ht) && Unshared(pages, ht, i + 1) && OnHeight(pages, ht, path[i], i + 1)
    ensures Layered(pages', ht') && Unshared(pages', ht', i + 2)
    ensures EntriesKept(k.intKey, pages, ht, pages', ht', i + 1)
  {
    assert NodeOk(KindAt(k, i), pages, path[i], idxs[i]);
    var a: nat, n: nat, pgs :|
      Levelled(LevelOf(KindAt(k, i)), k.usable, pages, path[i], idxs[i], a, n, pgs, pages');
    assert LevelOf(KindAt(k, i)) == LevelAt(k.intKey, i);
    RebalancedReplaces(k.intKey, k.usable, pages, path[i], i, a, n, pgs, pages');
    ht' := LevelKept(k.intKey, pages, ht, path[i], i, a, n, pgs, pages');
  }

  lemma RebalancedReplaces(intKey: bool, usable: nat, pages: Pages, pg: Pgno, h: nat, a: nat, n: nat, pgs: seq<Pgno>,
                        pages': Pages)
    requires usable >= 12 && Rebalanced(LevelAt(intKey, h), usable, pages, pg, a, n, pgs, pages')
    requires OldOrUnused(pages, KidsOf(pages, pg)[a..a + n], pgs)
    ensures Replaces(intKey, pages, pg, h, a, n, pgs, pages')
  {
    forall x | x in pgs ensures x in pages' && pages'[x].Valid() {
      var i :| 0 <= i < |pgs| && pgs[i] == x;
      assert Settled(LevelAt(intKey, h), usable, pages', pgs[i]);
    }
  }

  /** The path climbs from the pages above the leaves. */
  ghost predicate Climbs(pages: Pages, ht: Heights, path: seq<Pgno>, lo: nat) {
    forall j | lo <= j < |path| :: OnHeight(pages, ht, path[j], j + 1)
  }

  lemma KeptTwice(intKey: bool, pages: Pages, ht: Heights, pages1: Pages, ht1: Heights, pages2: Pages, ht2: Heights,
                  lo: nat)
    requires EntriesKept(intKey, pages, ht, pages1, ht1, lo) && EntriesKept(intKey, pages1, ht1, pages2, ht2, lo + 1)
    ensures EntriesKept(intKey, pages, ht, pages2, ht2, lo + 1)
  {
    forall x | x in pages && x in ht && ht[x] >= lo + 1 ensures KeptAt(intKey, pages, ht, pages2, ht2, x) {
      assert KeptAt(intKey, pages, ht, pages1, ht1, x) && KeptAt(intKey, pages1, ht1, pages2, ht2, x);
    }
  }

  lemma StillClimbs(intKey: bool, pages: Pages, ht: Heights, pages': Pages, ht': Heights, path: seq<Pgno>, lo: nat)
    requires Climbs(pages, ht, path, lo) && EntriesKept(intKey, pages, ht, pages', ht', lo + 1)
    ensures Climbs(pages', ht', path, lo)
  {
    forall j | lo <= j < |path| ensures OnHeight(pages', ht', path[j], j + 1) {
      assert OnHeight(pages, ht, path[j], j + 1) && KeptAt(intKey, pages, ht, pages', ht', path[j]);
    }
  }

  /** A run of balance over m levels changes no entry of any subtree whose root is at height m or above: in particular
      that of the page it reached and of the root, in tables and in indexes. */
  lemma {:induction false} RunKeepsEntries(k: Kind, path: seq<Pgno>, idxs: seq<nat>, trace: seq<Pages>, ht: Heights,
                                           m: nat)
    returns (ht': Heights)
    requires k.Valid() && k.leaf && |path| == |idxs| && Runs(k, path, idxs, trace) && m < |trace|
    requires Layered(trace[0], ht) && Unshared(trace[0], ht, 1) && Climbs(trace[0], ht, path, 0)
    ensures Layered(trace[m], ht') && Unshared(trace[m], ht', m + 1) && Climbs(trace[m], ht', path, m)
    ensures EntriesKept(k.intKey, trace[0], ht, trace[m], ht', m)
  {
    if m == 0 {
      ht' := ht;
      KeptNow(k.intKey, trace[0], ht);
    } else {
      var ht1 := RunKeepsEntries(k, path, idxs, trace, ht, m - 1);
      ht' := NextInRun(k, path, idxs, trace, m - 1, m, ht, ht1);
    }
  }

  lemma KeptNow(intKey: bool, pages: Pages, ht: Heights)
    ensures EntriesKept(intKey, pages, ht, pages, ht, 0)
  {
  }

  lemma NextInRun(k: Kind, path: seq<Pgno>, idxs: seq<nat>, trace: seq<Pages>, i: nat, m: nat,
                  ht0: Heights, ht: Heights)
    returns (ht': Heights)
    requires k.Valid() && k.leaf && |path| == |idxs| && Runs(k, path, idxs, trace) && m == i + 1 < |trace|
    requires Layered(trace[i], ht) && Unshared(trace[i], ht, i + 1) && Climbs(trace[i], ht, path, i)
    requires EntriesKept(k.intKey, trace[0], ht0, trace[i], ht, i)
    ensures Layered(trace[m], ht') && Unshared(trace[m], ht', m + 1) && Climbs(trace[m], ht', path, m)
    ensures EntriesKept(k.intKey, trace[0], ht0, trace[m], ht', m)
  {
    RunAt(k, path, idxs, trace, i);
    ht' := NextKept(k, path, idxs, i, trace[0], ht0, trace[i], ht, trace[m]);
  }

  /** One level more. */
  lemma NextKept(k: Kind, path: seq<Pgno>, idxs: seq<nat>, i: nat, pages0: Pages, ht0: Heights, pages: Pages,
                 ht: Heights, pages': Pages)
    returns (ht': Heights)
    requires k.Valid() && k.leaf && i < |path| == |idxs| && RunStep(k, path, idxs, i, pages, pages')
    requires Layered(pages, ht) && Unshared(pages, ht, i + 1) && Climbs(pages, ht, path, i)
    requires EntriesKept(k.intKey, pages0, ht0, pages, ht, i)
    ensures Layered(pages', ht') && Unshared(pages', ht', i + 2) && Climbs(pages', ht', path, i + 1)
    ensures EntriesKept(k.intKey, pages0, ht0, pages', ht', i + 1)
  {
    assert OnHeight(pages, ht, path[i], i + 1);
    ht' := StepKept(k, path, idxs, i, pages, ht, pages');
    KeptTwice(k.intKey, pages0, ht0, pages, ht, pages', ht', i);
    StillClimbs(k.intKey, pages, ht, pages', ht', path, i);
  }
}
