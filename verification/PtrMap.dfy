/** The pointer map as a reverse index of the page graph, and moving a page. */
module PageGraph {

  datatype PtrType = RootPage | FreePage | Overflow1 | Overflow2 | Btree
  datatype Entry = Entry(t: PtrType, parent: nat)

  /** The page numbers stored in a cell: child (absent on a leaf) and first overflow page, 0 for none. */
  datatype Cell = Cell(child: nat, ovfl: nat)
  datatype Node = BtreePage(leaf: bool, cells: seq<Cell>, right: nat) | OverflowPage(next: nat)

  /** The places on a page that can hold a page number. */
  datatype Slot = Ovfl(i: nat) | Child(i: nat) | Right | Next

  function TypeOf(s: Slot): (t: PtrType) {
    match s
    case Ovfl(_) => Overflow1
    case Child(_) => Btree
    case Right => Btree
    case Next => Overflow2
  }

  /** The page number in slot s, or 0. */
  function Ref(n: Node, s: Slot): (q: nat) {
    match n
    case BtreePage(leaf, cells, right) =>
      (match s
       case Ovfl(i) => if i < |cells| then cells[i].ovfl else 0
       case Child(i) => if i < |cells| && !leaf then cells[i].child else 0
       case Right => if leaf then 0 else right
       case Next => 0)
    case OverflowPage(next) => if s == Next then next else 0
  }

  type Pages = map<nat, Node>
  type PtrMap = map<nat, Entry>

  /** The page number q in slot s of page p is recorded correctly. */
  ghost predicate Recorded(pages: Pages, roots: set<nat>, pm: PtrMap, p: nat, s: Slot, q: nat) {
    && q in pages && q !in roots && q != p && q in pm && pm[q] == Entry(TypeOf(s), p)
    && (pages[q].BtreePage? <==> TypeOf(s) == Btree)
  }

  /** Some slot of page p of the given type holds q. */
  ghost predicate RefersTo(n: Node, t: PtrType, q: nat) {
    exists s :: Ref(n, s) == q && TypeOf(s) == t
  }

  /** No page number stands twice on a page. */
  ghost predicate OnceEach(n: Node) {
    forall s, s' | Ref(n, s) != 0 && Ref(n, s) == Ref(n, s') :: s == s'
  }

  /** The pointer map gives the correct type and the one parent of every live page that is not a root. */
  ghost predicate Correct(pages: Pages, roots: set<nat>, pm: PtrMap) {
    && 0 !in pages
      && (forall r | r in roots :: r in pages && pages[r].BtreePage? && (r == 1 || (r in pm && pm[r].t == RootPage)))
    && (forall p | p in pages :: OnceEach(pages[p]))
    && (forall p, s | p in pages && Ref(pages[p], s) != 0 :: Recorded(pages, roots, pm, p, s, Ref(pages[p], s)))
    && (forall q {:trigger HasParent(pages, pm, q)} | q in pages && q !in roots :: HasParent(pages, pm, q))
  }

  ghost predicate HasParent(pages: Pages, pm: PtrMap, q: nat) {
    q in pm && pm[q].parent in pages && RefersTo(pages[pm[q].parent], pm[q].t, q)
  }

  // ---------------------------------------------------------------- renaming

  function Name(q: nat, from: nat, to: nat): (r: nat) {
    if q == from then to else q
  }

  function RenameNode(n: Node, from: nat, to: nat): (r: Node) {
    match n
    case BtreePage(leaf, cells, right) =>
      BtreePage(leaf, seq(|cells|, i requires 0 <= i < |cells| =>
                  Cell(if leaf then cells[i].child else Name(cells[i].child, from, to), Name(cells[i].ovfl, from, to))),
                if leaf then right else Name(right, from, to))
    case OverflowPage(next) => OverflowPage(Name(next, from, to))
  }

  lemma RenameRef(n: Node, from: nat, to: nat, s: Slot)
    requires from != 0
    ensures Ref(RenameNode(n, from, to), s) == Name(Ref(n, s), from, to)
  {
  }

  /** The page graph with page `from` called `to`. */
  ghost function Renamed(pages: Pages, from: nat, to: nat): (r: Pages)
    requires from in pages
  {
    map p | p in pages.Keys - {from} + {to} :: RenameNode(pages[if p == to then from else p], from, to)
  }

  /** The roots when page `from` is called `to`. */
  ghost function NewRoots(roots: set<nat>, from: nat, to: nat): (r: set<nat>) {
    if from in roots then roots - {from} + {to} else roots
  }

  /** What relocatePage has to write into the map when page `from` becomes `to`. */
  ghost predicate MapUpdated(pages: Pages, pm: PtrMap, from: nat, to: nat, pm': PtrMap)
    requires from in pages && from in pm
  {
    && to in pm' && (if pm[from].t == RootPage then pm'[to].t == RootPage else pm'[to] == pm[from])
    && (forall s | Ref(pages[from], s) != 0 :: EntryIs(pm', Ref(pages[from], s), TypeOf(s), to))
    && (forall q | q in pm && q != to && !Mentions(pages[from], q) :: q in pm' && pm'[q] == pm[q])
  }

  ghost predicate EntryIs(pm: PtrMap, q: nat, t: PtrType, parent: nat) {
    q in pm && pm[q] == Entry(t, parent)
  }

  ghost predicate Mentions(n: Node, q: nat) {
    q != 0 && exists s :: Ref(n, s) == q
  }

  lemma MovedRef(pages: Pages, roots: set<nat>, pm: PtrMap, from: nat, to: nat, pm': PtrMap, p: nat, s: Slot)
    requires Correct(pages, roots, pm) && from in pages && from != 1 && from in pm && to !in pages && to != 0
    requires MapUpdated(pages, pm, from, to, pm') && p in pages && Ref(pages[p], s) != 0
    ensures Recorded(Renamed(pages, from, to), NewRoots(roots, from, to), pm', Name(p, from, to), s,
      Name(Ref(pages[p], s), from, to))
  {
    var q := Ref(pages[p], s);
    assert Recorded(pages, roots, pm, p, s, q);
    if q != from {
      if p == from {
        assert EntryIs(pm', q, TypeOf(s), to);
      } else {
        assert forall s' :: Ref(pages[from], s') == q ==> Recorded(pages, roots, pm, from, s', q);
      }
    }
  }

  lemma RenamedOnce(pages: Pages, roots: set<nat>, pm: PtrMap, from: nat, to: nat, p: nat)
    requires Correct(pages, roots, pm) && from in pages && to !in pages && to != 0 && p in pages
    ensures OnceEach(RenameNode(pages[p], from, to))
  {
    var n := pages[p];
    var n' := RenameNode(n, from, to);
    forall s, s' | Ref(n', s) != 0 && Ref(n', s) == Ref(n', s') ensures s == s' {
      RenameRef(n, from, to, s);
      RenameRef(n, from, to, s');
      assert Ref(n, s) != 0 ==> Recorded(pages, roots, pm, p, s, Ref(n, s));
      assert Ref(n, s') != 0 ==> Recorded(pages, roots, pm, p, s', Ref(n, s'));
    }
  }

  lemma MovedParent(pages: Pages, roots: set<nat>, pm: PtrMap, from: nat, to: nat, pm': PtrMap, q: nat, pages': Pages)
    requires Correct(pages, roots, pm) && from in pages && from != 1 && from in pm && to !in pages && to != 0
    requires MapUpdated(pages, pm, from, to, pm') && q in pages && q !in roots && pages' == Renamed(pages, from, to)
    ensures HasParent(pages', pm', Name(q, from, to))
  {
    assert HasParent(pages, pm, q);
    var p := pm[q].parent;
    var s :| Ref(pages[p], s) == q && TypeOf(s) == pm[q].t;
    MovedRef(pages, roots, pm, from, to, pm', p, s);
    RenameRef(pages[p], from, to, s);
    assert pages'[Name(p, from, to)] == RenameNode(pages[p], from, to);
  }

  /** If the map was correct, and the entries of the moved page and of the pages it refers to are rewritten, it is
      correct for the renamed graph. */
  lemma RenamedCorrect(pages: Pages, roots: set<nat>, pm: PtrMap, from: nat, to: nat, pm': PtrMap)
    requires Correct(pages, roots, pm) && from in pages && from != 1 && from in pm && to !in pages && to != 0
    requires MapUpdated(pages, pm, from, to, pm')
    ensures Correct(Renamed(pages, from, to), NewRoots(roots, from, to), pm')
  {
    RenamedAll(pages, roots, pm, from, to, pm', Renamed(pages, from, to));
  }

  lemma RenamedAll(pages: Pages, roots: set<nat>, pm: PtrMap, from: nat, to: nat, pm': PtrMap, pages': Pages)
    requires Correct(pages, roots, pm) && from in pages && from != 1 && from in pm && to !in pages && to != 0
    requires MapUpdated(pages, pm, from, to, pm') && pages' == Renamed(pages, from, to)
    ensures Correct(pages', NewRoots(roots, from, to), pm')
  {
    forall p' | p' in pages' ensures OnceEach(pages'[p']) {
      RenamedOnce(pages, roots, pm, from, to, if p' == to then from else p');
    }
    RenamedRecorded(pages, roots, pm, from, to, pm', pages');
    RenamedParents(pages, roots, pm, from, to, pm', pages');
    forall r | r in NewRoots(roots, from, to)
      ensures r in pages' && pages'[r].BtreePage? && (r == 1 || (r in pm' && pm'[r].t == RootPage)) {
      if r != to {
        RootKept(pages, roots, pm, from, to, pm', r);
      }
    }
  }

  lemma RenamedRecorded(pages: Pages, roots: set<nat>, pm: PtrMap, from: nat, to: nat, pm': PtrMap, pages': Pages)
    requires Correct(pages, roots, pm) && from in pages && from != 1 && from in pm && to !in pages && to != 0
    requires MapUpdated(pages, pm, from, to, pm') && pages' == Renamed(pages, from, to)
    ensures forall p', s | p' in pages' && Ref(pages'[p'], s) != 0 ::
      Recorded(pages', NewRoots(roots, from, to), pm', p', s, Ref(pages'[p'], s))
  {
    forall p', s | p' in pages' && Ref(pages'[p'], s) != 0
      ensures Recorded(pages', NewRoots(roots, from, to), pm', p', s, Ref(pages'[p'], s)) {
      MovedSlot(pages, roots, pm, from, to, pm', p', s, pages');
    }
  }

  lemma RenamedParents(pages: Pages, roots: set<nat>, pm: PtrMap, from: nat, to: nat, pm': PtrMap, pages': Pages)
    requires Correct(pages, roots, pm) && from in pages && from != 1 && from in pm && to !in pages && to != 0
    requires MapUpdated(pages, pm, from, to, pm') && pages' == Renamed(pages, from, to)
    ensures forall q' {:trigger HasParent(pages', pm', q')} | q' in pages' && q' !in NewRoots(roots, from, to) ::
      HasParent(pages', pm', q')
  {
    forall q' | q' in pages' && q' !in NewRoots(roots, from, to) ensures HasParent(pages', pm', q') {
      MovedParent(pages, roots, pm, from, to, pm', if q' == to then from else q', pages');
    }
  }

  /** Nothing refers to a root, so its entry stays. */
  lemma RootKept(pages: Pages, roots: set<nat>, pm: PtrMap, from: nat, to: nat, pm': PtrMap, r: nat)
    requires Correct(pages, roots, pm) && from in pages && from in pm && to !in pages
      && MapUpdated(pages, pm, from, to, pm') && r in roots
    ensures r == 1 || (r in pm' && pm'[r].t == RootPage)
  {
    forall s | Ref(pages[from], s) == r ensures r == 0 {
      assert r != 0 ==> Recorded(pages, roots, pm, from, s, r);
    }
  }

  lemma MovedSlot(pages: Pages, roots: set<nat>, pm: PtrMap, from: nat, to: nat, pm': PtrMap, p': nat, s: Slot,
                  pages': Pages)
    requires Correct(pages, roots, pm) && from in pages && from != 1 && from in pm && to !in pages && to != 0
    requires MapUpdated(pages, pm, from, to, pm') && pages' == Renamed(pages, from, to)
    requires p' in pages' && Ref(pages'[p'], s) != 0
    ensures Recorded(pages', NewRoots(roots, from, to), pm', p', s, Ref(pages'[p'], s))
  {
    var p := if p' == to then from else p';
    RenameRef(pages[p], from, to, s);
    MovedRef(pages, roots, pm, from, to, pm', p, s);
  }
}

module Relocate {
  import opened PageGraph
  import opened PtrmapPages

  datatype Rc = Ok | Corrupt | Done

  /** setChildPtrmaps: the entries of all pages that the b-tree page n, now number pgno, refers to. */
  method SetChildPtrmaps(pm0: PtrMap, n: Node, pgno: nat) returns (pm: PtrMap)
    requires n.BtreePage? && OnceEach(n)
    ensures forall s | Ref(n, s) != 0 :: EntryIs(pm, Ref(n, s), TypeOf(s), pgno)
    ensures forall q | q in pm0 && !Mentions(n, q) :: q in pm && pm[q] == pm0[q]
  {
    pm := pm0;
    for i := 0 to |n.cells|
      invariant forall s | Ref(n, s) != 0 && Before(s, i) :: EntryIs(pm, Ref(n, s), TypeOf(s), pgno)
      invariant forall q | q in pm0 && !Mentions(n, q) :: q in pm && pm[q] == pm0[q]
    {
      var c := n.cells[i];
      assert Ref(n, Ovfl(i)) == c.ovfl;
      if c.ovfl != 0 {
        pm := pm[c.ovfl := Entry(Overflow1, pgno)];
      }
      if !n.leaf {
        assert Ref(n, Child(i)) == c.child;
        if c.child != 0 {
          pm := pm[c.child := Entry(Btree, pgno)];
        }
      }
    }
    if !n.leaf && n.right != 0 {
      assert Ref(n, Right) == n.right;
      pm := pm[n.right := Entry(Btree, pgno)];
    }
  }

  /** The entries of the pages that the moved page n, of the type given, refers to. */
  method MoveEntries(pm: PtrMap, n: Node, eType: PtrType, to: nat) returns (pm1: PtrMap)
    requires OnceEach(n) && (n.BtreePage? <==> eType == Btree || eType == RootPage)
    ensures forall s | Ref(n, s) != 0 :: EntryIs(pm1, Ref(n, s), TypeOf(s), to)
    ensures forall q | q in pm && !Mentions(n, q) :: q in pm1 && pm1[q] == pm[q]
  {
    pm1 := pm;
    if eType == Btree || eType == RootPage {
      pm1 := SetChildPtrmaps(pm, n, to);
    } else {
      assert forall s :: Ref(n, s) != 0 ==> s == Next;
      if n.next != 0 {
        assert Ref(n, Next) == n.next;
        pm1 := pm[n.next := Entry(Overflow2, to)];
      }
    }
  }

  /** Slots of the first i cells. */
  ghost predicate Before(s: Slot, i: nat) {
    (s.Ovfl? || s.Child?) && s.i < i
  }

  /** modifyPagePointer: the one pointer to iFrom becomes iTo. */
  method ModifyPagePointer(n: Node, iFrom: nat, iTo: nat, eType: PtrType) returns (rc: Rc, n': Node)
    requires iFrom != 0 && OnceEach(n) && RefersTo(n, eType, iFrom)
      && (eType == Overflow1 || eType == Overflow2 || eType == Btree)
    ensures rc == Ok && n' == RenameNode(n, iFrom, iTo)
  {
    ghost var s :| Ref(n, s) == iFrom && TypeOf(s) == eType;
    n' := n;
    if eType == Overflow2 {
      if n.next != iFrom {
        return Corrupt, n;
      }
      return Ok, OverflowPage(iTo);
    }
    var i := 0;
    while i < |n.cells|
      invariant 0 <= i <= |n.cells| && !Before(s, i)
    {
      var c := n.cells[i];
      if eType == Overflow1 {
        if c.ovfl != 0 && c.ovfl == iFrom {
          Replaced(n, iFrom, iTo, Ovfl(i), n.(cells := n.cells[i := c.(ovfl := iTo)]));
          return Ok, n.(cells := n.cells[i := c.(ovfl := iTo)]);
        }
      } else if c.child == iFrom {
        assert !n.leaf;
        Replaced(n, iFrom, iTo, Child(i), n.(cells := n.cells[i := c.(child := iTo)]));
        return Ok, n.(cells := n.cells[i := c.(child := iTo)]);
      }
      i := i + 1;
    }
    if eType != Btree || n.right != iFrom {
      return Corrupt, n;
    }
    Replaced(n, iFrom, iTo, Right, n.(right := iTo));
    return Ok, n.(right := iTo);
  }

  /** Changing the one slot that holds a page number renames it on the whole page. */
  lemma Replaced(n: Node, iFrom: nat, iTo: nat, s: Slot, n': Node)
    requires n.BtreePage? && OnceEach(n) && iFrom != 0 && Ref(n, s) == iFrom && !s.Next?
    requires n' == match s
                   case Ovfl(i) => n.(cells := n.cells[i := n.cells[i].(ovfl := iTo)])
                   case Child(i) => n.(cells := n.cells[i := n.cells[i].(child := iTo)])
                   case Right => n.(right := iTo)
                   case Next => n
    ensures n' == RenameNode(n, iFrom, iTo)
  {
    var r := RenameNode(n, iFrom, iTo);
    forall i | 0 <= i < |n.cells| ensures n'.cells[i] == r.cells[i] {
      assert Ref(n, Ovfl(i)) == n.cells[i].ovfl;
      assert !n.leaf ==> Ref(n, Child(i)) == n.cells[i].child;
    }
    assert !n.leaf ==> Ref(n, Right) == n.right;
  }

  /** Every ordinary page of the file has an entry, and that of a page not in use says so, except for the pages `out`.
      */
  ghost predicate Marked(geom: MapGeom, pages: Pages, pm: PtrMap, nPage: nat, out: set<nat>)
    requires geom.Valid()
  {
    forall p | 2 <= p <= nPage && geom.Ordinary(p) :: p in pm && (p !in pages && p !in out ==> pm[p].t == FreePage)
  }

  ghost predicate InFile(geom: MapGeom, pages: Pages, nPage: nat)
    requires geom.Valid()
  {
    forall p | p in pages :: 1 <= p <= nPage && geom.Ordinary(p)
  }

  /** No page up to nPage that can be used is free. */
  ghost predicate AllUsed(geom: MapGeom, pages: Pages, nPage: int)
    requires geom.Valid()
  {
    forall p | 2 <= p <= nPage && geom.Ordinary(p) :: p in pages
  }

  /** The pages up to nPage that can be used and are not. */
  function FreePages(geom: MapGeom, pages: Pages, nPage: nat): (free: set<nat>)
    requires geom.Valid()
  {
    set p: nat | 2 <= p <= nPage && geom.Ordinary(p) && p !in pages
  }

  /** The page graph after a sequence of moves. */
  ghost function MovedAll(pages: Pages, moves: seq<(nat, nat)>): (r: Pages) {
    if moves == [] then pages
    else
      var before, last := MovedAll(pages, moves[..|moves| - 1]), moves[|moves| - 1];
      if last.0 in before then Renamed(before, last.0, last.1) else before
  }

  /** r is the page graph after the moves, with as many pages. */
  ghost predicate IsMoved(pages: Pages, moves: seq<(nat, nat)>, r: Pages) {
    r == MovedAll(pages, moves) && |r| == |pages|
  }

  /** Map, marks and page numbers of the file are right. */
  ghost predicate InOrder(geom: MapGeom, pages: Pages, pm: PtrMap, nPage: nat, roots: set<nat>)
    requires geom.Valid()
  {
    Correct(pages, roots, pm) && Marked(geom, pages, pm, nPage, {}) && InFile(geom, pages, nPage) && nPage >= 1
  }

  /** A root is in the way of a vacuum. */
  ghost predicate LastIsRoot(geom: MapGeom, pages: Pages, pm: PtrMap, nPage: nat)
    requires geom.Valid()
  {
    nPage in pm && pm[nPage].t == RootPage && !AllUsed(geom, pages, nPage)
  }

  lemma MovedOne(pages: Pages, moves: seq<(nat, nat)>, r: Pages, from: nat, to: nat)
    requires IsMoved(pages, moves, r) && from in r && to !in r
    ensures IsMoved(pages, moves + [(from, to)], Renamed(r, from, to))
  {
    assert (moves + [(from, to)])[..|moves|] == moves;
    RenamedSize(r, from, to);
  }

  /** No page is lost. */
  lemma RenamedSize(pages: Pages, from: nat, to: nat)
    requires from in pages && to !in pages
    ensures |Renamed(pages, from, to)| == |pages|
  {
    var r := Renamed(pages, from, to);
    assert r.Keys == pages.Keys - {from} + {to};
    assert |pages.Keys - {from}| == |pages.Keys| - 1;
    assert |r.Keys| == |r| && |pages.Keys| == |pages|;
  }

  function EmptyRoot(): (n: Node) {
    BtreePage(true, [], 0)
  }

  /** After a page has moved, the place it left is the only one more whose entry is out of date. */
  lemma RenamedMarked(geom: MapGeom, pages: Pages, roots: set<nat>, pm: PtrMap, from: nat, to: nat, pm': PtrMap,
                      nPage: nat, out: set<nat>)
    requires geom.Valid() && Correct(pages, roots, pm) && from in pages && from in pm && to !in pages
    requires MapUpdated(pages, pm, from, to, pm') && Marked(geom, pages, pm, nPage, out)
    ensures Marked(geom, Renamed(pages, from, to), pm', nPage, out - {to} + {from})
  {
    NotSelf(pages, roots, pm, from);
    forall p | 2 <= p <= nPage && geom.Ordinary(p) && p != to
      ensures p in pm' && (p !in pages && p !in out ==> pm'[p].t == FreePage)
    {
      if Mentions(pages[from], p) {
        var s :| Ref(pages[from], s) == p;
        assert EntryIs(pm', Ref(pages[from], s), TypeOf(s), to) && Recorded(pages, roots, pm, from, s, p);
      }
    }
  }

  /** What the entry of a page says of its use. */
  lemma EntryTells(pages: Pages, roots: set<nat>, pm: PtrMap, p: nat)
    requires Correct(pages, roots, pm) && p in pm && p != 1
    ensures p in pages ==> pm[p].t != FreePage && (pm[p].t == RootPage <==> p in roots)
  {
    if p in pages && p !in roots {
      ParentFacts(pages, roots, pm, p);
    }
  }

  lemma TypeFacts(pages: Pages, roots: set<nat>, pm: PtrMap, pg: nat)
    requires Correct(pages, roots, pm) && pg in pages && pg in pm && pg != 1
    ensures OnceEach(pages[pg]) && (pm[pg].t == RootPage <==> pg in roots)
    ensures pg !in roots ==> (pages[pg].BtreePage? <==> pm[pg].t == Btree)
    ensures pm[pg].t == RootPage ==> pages[pg].BtreePage?
  {
    if pg !in roots {
      ParentFacts(pages, roots, pm, pg);
    }
  }

  /** The entry of a page not in use does not matter. */
  lemma EntryCorrect(pages: Pages, roots: set<nat>, pm: PtrMap, pg: nat, e: Entry)
    requires Correct(pages, roots, pm) && pg !in pages
    ensures Correct(pages, roots, pm[pg := e])
  {
    var pm' := pm[pg := e];
    forall p, s | p in pages && Ref(pages[p], s) != 0 ensures Recorded(pages, roots, pm', p, s, Ref(pages[p], s)) {
      assert Recorded(pages, roots, pm, p, s, Ref(pages[p], s));
    }
    forall q | q in pages && q !in roots ensures HasParent(pages, pm', q) {
      assert HasParent(pages, pm, q);
    }
  }

  lemma RootAdded(pages: Pages, roots: set<nat>, pm: PtrMap, r: nat)
    requires Correct(pages, roots, pm) && r !in pages && r != 0
    ensures Correct(pages[r := EmptyRoot()], roots + {r}, pm[r := Entry(RootPage, 0)])
  {
    var pages', roots', pm' := pages[r := EmptyRoot()], roots + {r}, pm[r := Entry(RootPage, 0)];
    forall p, s | p in pages' && Ref(pages'[p], s) != 0 ensures Recorded(pages', roots', pm', p, s, Ref(pages'[p], s)) {
      assert p != r && Recorded(pages, roots, pm, p, s, Ref(pages[p], s));
    }
    forall q | q in pages' && q !in roots' ensures HasParent(pages', pm', q) {
      assert HasParent(pages, pm, q);
    }
  }

  lemma RootRemoved(pages: Pages, roots: set<nat>, pm: PtrMap, r: nat)
    requires Correct(pages, roots, pm) && r in roots && pages[r] == EmptyRoot()
    ensures Correct(pages - {r}, roots - {r}, pm)
  {
    var pages', roots' := pages - {r}, roots - {r};
    forall p, s | p in pages' && Ref(pages'[p], s) != 0 ensures Recorded(pages', roots', pm, p, s, Ref(pages'[p], s)) {
      assert Recorded(pages, roots, pm, p, s, Ref(pages[p], s));
    }
    forall q | q in pages' && q !in roots' ensures HasParent(pages', pm, q) {
      assert HasParent(pages, pm, q);
    }
  }

  /** Nothing refers to a page that is not in use. */
  lemma NotReferred(pages: Pages, roots: set<nat>, pm: PtrMap, pg: nat, to: nat)
    requires Correct(pages, roots, pm) && pg in pages && to !in pages
    ensures !Mentions(pages[pg], to)
  {
    forall s | Ref(pages[pg], s) != 0 ensures Ref(pages[pg], s) != to {
      assert Recorded(pages, roots, pm, pg, s, Ref(pages[pg], s));
    }
  }

  /** Nothing refers to a root, so moving it is the renaming. */
  lemma MovedRoot(pages: Pages, roots: set<nat>, pm: PtrMap, pg: nat, to: nat)
    requires Correct(pages, roots, pm) && pg in pages && pg in roots && to !in pages && to != 0
    ensures (pages - {pg})[to := pages[pg]] == Renamed(pages, pg, to)
  {
    var pages', r := (pages - {pg})[to := pages[pg]], Renamed(pages, pg, to);
    forall p | p in r ensures p in pages' && pages'[p] == r[p] {
      var p0 := if p == to then pg else p;
      forall s | Ref(pages[p0], s) != 0 ensures Ref(pages[p0], s) != pg {
        assert Recorded(pages, roots, pm, p0, s, Ref(pages[p0], s));
      }
      Unrenamed(pages[p0], pg, to);
    }
    assert pages'.Keys == r.Keys;
  }

  /** The pages of an auto-vacuum database and its pointer map. */
  class Store {
    var pages: Pages
    var pm: PtrMap
    var nPage: nat

    constructor (pages: Pages, pm: PtrMap, nPage: nat)
      ensures this.pages == pages && this.pm == pm && this.nPage == nPage
    {
      this.pages, this.pm, this.nPage := pages, pm, nPage;
    }

    /** relocatePage: move page pg, which the map says is of type eType with parent ptrPage, to the page `to`, which is
        not in use.  A root keeps the map entry of the root whose place it takes. */
    method RelocatePage(pg: nat, eType: PtrType, ptrPage: nat, to: nat, ghost roots: set<nat>) returns (rc: Rc)
      requires Correct(pages, roots, pm) && pg in pages && pg != 1 && to !in pages && to != 0
      requires pg in pm && pm[pg] == Entry(eType, ptrPage) && (eType == RootPage ==> to in pm && pm[to].t == RootPage)
      modifies this`pages, this`pm
      ensures rc == Ok && pages == Renamed(old(pages), pg, to) && Correct(pages, NewRoots(roots, pg, to), pm)
      ensures MapUpdated(old(pages), old(pm), pg, to, pm)
      ensures pg in pm && pm[pg] == Entry(eType, ptrPage)
    {
      ghost var before, pm0 := pages, pm;
      var n := pages[pg];
      TypeFacts(pages, roots, pm, pg);
      var pm1 := MoveEntries(pm, n, eType, to);
      NotSelf(before, roots, pm0, pg);
      NotReferred(before, roots, pm0, pg, to);
      rc := Ok;
      pages := (pages - {pg})[to := n];
      if eType != RootPage {
        ParentFacts(before, roots, pm0, pg);
        var parent;
        rc, parent := ModifyPagePointer(pages[ptrPage], pg, to, eType);
        if rc == Ok {
          pm1 := pm1[to := Entry(eType, ptrPage)];
        }
        MovedPages(before, roots, pm0, pg, ptrPage, to, parent);
        pages := pages[ptrPage := parent];
      } else {
        MovedRoot(before, roots, pm0, pg, to);
      }
      MapDone(before, roots, pm0, pg, to, pm1);
      RenamedCorrect(before, roots, pm0, pg, to, pm1);
      pm := pm1;
    }

    /** freePage2 on a page no longer in use: its entry says so. */
    method MarkFree(pg: nat, ghost geom: MapGeom, ghost roots: set<nat>, ghost out: set<nat>)
      requires geom.Valid() && Correct(pages, roots, pm) && Marked(geom, pages, pm, nPage, out) && pg !in pages
      modifies this`pm
      ensures pm == old(pm)[pg := Entry(FreePage, 0)]
      ensures Correct(pages, roots, pm) && Marked(geom, pages, pm, nPage, out - {pg})
    {
      EntryCorrect(pages, roots, pm, pg, Entry(FreePage, 0));
      pm := pm[pg := Entry(FreePage, 0)];
    }

    /** The first half of incrVacuumStep: the last page moves to the free page `to` unless it is free itself. */
    method MoveLast(geom: MapGeom, to: nat, ghost roots: set<nat>) returns (rc: Rc)
      requires geom.Valid() && Correct(pages, roots, pm) && Marked(geom, pages, pm, nPage, {})
        && InFile(geom, pages, nPage)
      requires nPage >= 2 && (nPage in pages ==> 1 <= to < nPage && to !in pages && geom.Ordinary(to))
      modifies this`pages, this`pm
      ensures rc == (if geom.Ordinary(nPage) && old(nPage in pm && pm[nPage].t == RootPage) then Corrupt else Ok)
      ensures Correct(pages, roots, pm) && Marked(geom, pages, pm, nPage, if rc == Ok then {nPage} else {})
      ensures pages == if rc == Ok && nPage in old(pages) then Renamed(old(pages), nPage, to) else old(pages)
      ensures if rc == Ok then InFile(geom, pages, nPage - 1) else pm == old(pm)
    {
      rc := Ok;
      if geom.Ordinary(nPage) {
        var e := pm[nPage];
        if e.t == RootPage {
          return Corrupt;
        }
        EntryTells(pages, roots, pm, nPage);
        if e.t != FreePage {
          ghost var pages0, pm0 := pages, pm;
          rc := RelocatePage(nPage, e.t, e.parent, to, roots);
          RenamedMarked(geom, pages0, roots, pm0, nPage, to, pm, nPage, {});
          assert {} - {to} + {nPage} == {nPage};
          return;
        }
      }
      assert nPage !in pages;
    }

    /** incrVacuumStep with nFin == 0: the last page moves to the free page `to`, or was free, and is cut off together
        with map pages and the pending-byte page before it.  anyFree: the free list is not empty. */
    method VacuumStep(geom: MapGeom, to: nat, anyFree: bool, ghost roots: set<nat>) returns (rc: Rc)
      requires geom.Valid() && Correct(pages, roots, pm) && Marked(geom, pages, pm, nPage, {})
        && InFile(geom, pages, nPage) && nPage >= 1 && (anyFree <==> !AllUsed(geom, pages, nPage))
      requires anyFree && nPage in pages ==> 1 <= to < nPage && to !in pages && geom.Ordinary(to)
      modifies this`pages, this`pm, this`nPage
      ensures rc == if !geom.Ordinary(old(nPage)) then Ok else if !anyFree then Done
                    else if old(nPage in pm && pm[nPage].t == RootPage) then Corrupt else Ok
      ensures Correct(pages, roots, pm) && Marked(geom, pages, pm, nPage, {}) && InFile(geom, pages, nPage)
      ensures pages == if rc == Ok && old(nPage) in old(pages) then Renamed(old(pages), old(nPage), to) else old(pages)
      ensures rc == Ok ==>
        1 <= nPage < old(nPage) && geom.Ordinary(nPage) && forall p | nPage < p < old(nPage) :: !geom.Ordinary(p)
      ensures rc != Ok ==> nPage == old(nPage) && pm == old(pm)
    {
      if geom.Ordinary(nPage) && !anyFree {
        return Done;
      }
      rc := MoveLast(geom, to, roots);
      if rc != Ok {
        return;
      }
      CutOff(geom);
    }

    /** A page not in use, if there is one: the allocator may return any. */
    method AnyFree(geom: MapGeom) returns (found: bool, to: nat)
      requires geom.Valid()
      ensures found <==> !AllUsed(geom, pages, nPage)
      ensures found ==> to in FreePages(geom, pages, nPage)
    {
      var free := FreePages(geom, pages, nPage);
      found, to := free != {}, 0;
      if found {
        to :| to in free;
      } else {
        assert forall p | 2 <= p <= nPage && geom.Ordinary(p) :: p !in free;
      }
    }

    /** Steps of an incremental vacuum, each with any free page, until there is nothing to do: every page left is in
        use, and the page graph is the old one with pages renamed. */
    method VacuumAll(geom: MapGeom, ghost roots: set<nat>) returns (rc: Rc, ghost moves: seq<(nat, nat)>)
      requires geom.Valid() && InOrder(geom, pages, pm, nPage, roots)
      modifies this`pages, this`pm, this`nPage
      ensures InOrder(geom, pages, pm, nPage, roots) && IsMoved(old(pages), moves, pages) && nPage <= old(nPage)
      ensures rc == Done || rc == Corrupt
      ensures rc == Done ==> AllUsed(geom, pages, nPage) && geom.Ordinary(nPage)
      ensures rc == Corrupt ==> LastIsRoot(geom, pages, pm, nPage)
    {
      rc, moves := Ok, [];
      ghost var pages0 := pages;
      while rc == Ok
        invariant InOrder(geom, pages, pm, nPage, roots) && IsMoved(pages0, moves, pages) && nPage <= old(nPage)
        invariant rc == Done ==> AllUsed(geom, pages, nPage) && geom.Ordinary(nPage)
        invariant rc == Corrupt ==> LastIsRoot(geom, pages, pm, nPage)
        decreases rc == Ok, nPage
      {
        rc, moves := VacuumRound(geom, roots, pages0, moves);
      }
    }

    method VacuumRound(geom: MapGeom, ghost roots: set<nat>, ghost pages0: Pages, ghost moves: seq<(nat, nat)>)
      returns (rc: Rc, ghost moves': seq<(nat, nat)>)
      requires geom.Valid() && InOrder(geom, pages, pm, nPage, roots) && IsMoved(pages0, moves, pages)
      modifies this`pages, this`pm, this`nPage
      ensures InOrder(geom, pages, pm, nPage, roots) && IsMoved(pages0, moves', pages)
      ensures if rc == Ok then nPage < old(nPage) else nPage == old(nPage)
      ensures rc == Done ==> AllUsed(geom, pages, nPage) && geom.Ordinary(nPage)
      ensures rc == Corrupt ==> LastIsRoot(geom, pages, pm, nPage)
    {
      var found, to := AnyFree(geom);
      ghost var before, pm0, last := pages, pm, nPage;
      rc := VacuumStep(geom, to, found, roots);
      moves' := moves;
      if rc == Ok && last in before {
        MovedOne(pages0, moves, before, last, to);
        moves' := moves + [(last, to)];
      }
    }

    /** The end of incrVacuumStep: the last page goes, and so do map pages and the pending-byte page before it. */
    method CutOff(geom: MapGeom)
      requires geom.Valid() && nPage >= 2 && Marked(geom, pages, pm, nPage, {nPage}) && InFile(geom, pages, nPage - 1)
      modifies this`nPage
      ensures 1 <= nPage < old(nPage) && geom.Ordinary(nPage) && forall p | nPage < p < old(nPage) :: !geom.Ordinary(p)
      ensures Marked(geom, pages, pm, nPage, {}) && InFile(geom, pages, nPage)
    {
      nPage := nPage - 1;
      while nPage == geom.pending || geom.IsMap(nPage)
        invariant 1 <= nPage < old(nPage) && forall p | nPage < p < old(nPage) :: !geom.Ordinary(p)
        decreases nPage
      {
        nPage := nPage - 1;
      }
    }

    /** The part of btreeCreateTable that makes page pgnoRoot a root: its present contents move to pgnoMove, the page
        that the allocator returned. */
    method CreateRoot(geom: MapGeom, pgnoRoot: nat, pgnoMove: nat, ghost roots: set<nat>) returns (rc: Rc)
      requires geom.Valid() && Correct(pages, roots, pm) && Marked(geom, pages, pm, nPage, {pgnoMove})
      requires 2 <= pgnoRoot <= nPage && geom.Ordinary(pgnoRoot) && pgnoMove !in pages && pgnoMove != 0
      modifies this`pages, this`pm
      ensures rc == (if pgnoMove != pgnoRoot
        && (old(pm)[pgnoRoot].t == RootPage || old(pm)[pgnoRoot].t == FreePage) then Corrupt else Ok)
      ensures rc == Ok ==> Correct(pages, roots + {pgnoRoot}, pm) && Marked(geom, pages, pm, nPage, {})
      ensures rc == Ok && pgnoMove == pgnoRoot ==> pages == old(pages)[pgnoRoot := EmptyRoot()]
      ensures rc == Ok && pgnoMove != pgnoRoot ==>
        pgnoRoot in old(pages) && pages == Renamed(old(pages), pgnoRoot, pgnoMove)[pgnoRoot := EmptyRoot()]
    {
      ghost var pages0, pm0 := pages, pm;
      ghost var out := {pgnoMove};
      if pgnoMove != pgnoRoot {
        var e := pm[pgnoRoot];
        if e.t == RootPage || e.t == FreePage {
          return Corrupt;
        }
        EntryTells(pages, roots, pm, pgnoRoot);
        rc := RelocatePage(pgnoRoot, e.t, e.parent, pgnoMove, roots);
        RenamedMarked(geom, pages0, roots, pm0, pgnoRoot, pgnoMove, pm, nPage, {pgnoMove});
        out := {pgnoRoot};
        assert {pgnoMove} - {pgnoMove} + {pgnoRoot} == out;
      }
      RootAdded(pages, roots, pm, pgnoRoot);
      pages := pages[pgnoRoot := EmptyRoot()];
      pm := pm[pgnoRoot := Entry(RootPage, 0)];
      rc := Ok;
    }

    /** The part of btreeDropTable for a table that has been cleared: the largest root takes the place of its root, and
        the page left is freed. */
    method DropRoot(geom: MapGeom, iTable: nat, maxRoot: nat, ghost roots: set<nat>)
      requires geom.Valid() && Correct(pages, roots, pm) && Marked(geom, pages, pm, nPage, {})
      requires iTable in roots && iTable != 1 && maxRoot in roots && maxRoot != 1 && pages[iTable] == EmptyRoot()
      modifies this`pages, this`pm
      ensures Correct(pages, roots - {maxRoot}, pm) && Marked(geom, pages, pm, nPage, {})
      ensures pages == if iTable == maxRoot then old(pages) - {iTable}
        else Renamed(old(pages) - {iTable}, maxRoot, iTable)
    {
      RootRemoved(pages, roots, pm, iTable);
      pages := pages - {iTable};
      assert Marked(geom, pages, pm, nPage, {iTable});
      ghost var out := {iTable};
      if iTable != maxRoot {
        ghost var pages0, pm0 := pages, pm;
        var e := pm[maxRoot];
        var rc := RelocatePage(maxRoot, RootPage, e.parent, iTable, roots - {iTable});
        RenamedMarked(geom, pages0, roots - {iTable}, pm0, maxRoot, iTable, pm, nPage, {iTable});
        out := {maxRoot};
        assert {iTable} - {iTable} + {maxRoot} == out;
        assert NewRoots(roots - {iTable}, maxRoot, iTable) == roots - {maxRoot};
      }
      MarkFree(maxRoot, geom, roots - {maxRoot}, out);
      assert out - {maxRoot} == {};
    }

    /** getOverflowPage: guess that the next page of the chain is the page behind, and trust the pointer map about it;
        read the link only when the guess fails.  The answer is the link if and only if the page guessed is live or its
        map entry does not name `ovfl`. */
    method GetOverflowPage(geom: MapGeom, ovfl: nat, ghost roots: set<nat>) returns (rc: Rc, next: nat, guess: nat)
      requires geom.Valid() && geom.per >= 4 && Correct(pages, roots, pm) && ovfl in pages && pages[ovfl].OverflowPage?
      requires forall p | 2 <= p <= nPage && geom.Ordinary(p) :: p in pm
      ensures guess > ovfl && geom.Ordinary(guess) && forall p | ovfl < p < guess :: !geom.Ordinary(p)
      ensures next == if guess <= nPage && pm[guess] == Entry(Overflow2, ovfl) then guess else pages[ovfl].next
      ensures rc == Ok
        && (next == pages[ovfl].next <==> !(guess <= nPage && guess !in pages && pm[guess] == Entry(Overflow2, ovfl)))
      ensures Marked(geom, pages, pm, nPage, {}) ==> next == pages[ovfl].next
    {
      guess := ovfl + 1;
      while geom.IsMap(guess) || guess == geom.pending
        invariant ovfl < guess <= ovfl + 3 && forall p | ovfl < p < guess :: !geom.Ordinary(p)
        decreases ovfl + 3 - guess
      {
        if guess == ovfl + 3 {
          NotThreeSkipped(geom, ovfl + 1);
        }
        guess := guess + 1;
      }
      GuessedPage(pages, roots, pm, ovfl, guess);
      if guess <= nPage {
        if guess !in pm {
          rc := Corrupt;
          return;
        }
        if pm[guess] == Entry(Overflow2, ovfl) {
          return Ok, guess, guess;
        }
      }
      return Ok, pages[ovfl].next, guess;
    }
  }

  /** What the map says about a live page is true; and a chain never points to a page that is not live. */
  lemma GuessedPage(pages: Pages, roots: set<nat>, pm: PtrMap, ovfl: nat, g: nat)
    requires Correct(pages, roots, pm) && ovfl in pages && pages[ovfl].OverflowPage? && g > 1
    ensures g in pages && g in pm && pm[g] == Entry(Overflow2, ovfl) ==> pages[ovfl].next == g
    ensures g !in pages ==> pages[ovfl].next != g
  {
    assert Ref(pages[ovfl], Next) == pages[ovfl].next;
    if pages[ovfl].next != 0 {
      assert Recorded(pages, roots, pm, ovfl, Next, pages[ovfl].next);
    }
    if g in pages && g !in roots {
      assert HasParent(pages, pm, g);
    }
  }

  /** Of three pages in a row one is ordinary. */
  lemma NotThreeSkipped(m: MapGeom, n: nat)
    requires m.Valid() && m.per >= 4 && n >= 1
    ensures m.Ordinary(n) || m.Ordinary(n + 1) || m.Ordinary(n + 2)
  {
    if n >= 2 && m.IsMap(n) {
      BehindMap(m, n);
    }
    if m.IsMap(n + 1) {
      BehindMap(m, n + 1);
    }
  }

  /** Between moving a page and cutting it off or marking it the guess is misled: after page 6 of the chain 5, 6 of a
      database with 1024-byte pages has moved to page 4, its old entry still says that it follows page 5. */
  method StaleEntryMisleads() returns (next: nat, link: nat)
    ensures next == 6 && link == 4
  {
    var st := new Store(ExamplePages(), ExampleMap(), 6);
    ExampleCorrect();
    var rc := st.RelocatePage(6, Overflow2, 5, 4, {3});
    ExampleMoved(st.pm, st.pages);
    var geom := MapGeom(205, 0x10_0001);
    link := st.pages[5].next;
    ExampleGuess(geom);
    var guess;
    rc, next, guess := st.GetOverflowPage(geom, 5, {3});
  }

  function ExamplePages(): (pages: Pages) {
    map[3 := BtreePage(true, [Cell(0, 5)], 0), 5 := OverflowPage(6), 6 := OverflowPage(0)]
  }

  function ExampleMap(): (pm: PtrMap) {
    map[3 := Entry(RootPage, 0), 4 := Entry(FreePage, 0), 5 := Entry(Overflow1, 3), 6 := Entry(Overflow2, 5)]
  }

  lemma ExampleGuess(geom: MapGeom)
    requires geom == MapGeom(205, 0x10_0001)
    ensures geom.Valid() && geom.per >= 4 && geom.Ordinary(6) && !geom.Ordinary(2)
  {
    assert geom.PtrmapPageno(6) == 2;
  }

  lemma ExampleMoved(pm: PtrMap, pages: Pages)
    requires MapUpdated(ExamplePages(), ExampleMap(), 6, 4, pm) && pages == Renamed(ExamplePages(), 6, 4)
    ensures 3 in pm && 4 in pm && 5 in pm && 6 in pm && pm[6] == Entry(Overflow2, 5)
    ensures 5 in pages && pages[5] == OverflowPage(4) && 6 !in pages
    ensures NewRoots({3}, 6, 4) == {3}
  {
    assert forall s :: Ref(ExamplePages()[6], s) == 0;
  }

  lemma ExampleCorrect()
    ensures Correct(ExamplePages(), {3}, ExampleMap())
  {
    var pages := ExamplePages();
    assert Ref(pages[3], Ovfl(0)) == 5 && Ref(pages[5], Next) == 6;
    forall p | p in pages ensures OnceEach(pages[p]) {
    }
  }

  /** The parent that the map gives for a page really refers to it, by a pointer of the type given. */
  lemma ParentFacts(pages: Pages, roots: set<nat>, pm: PtrMap, pg: nat)
    requires Correct(pages, roots, pm) && pg in pages && pg !in roots
    ensures HasParent(pages, pm, pg) && pm[pg].parent != pg && OnceEach(pages[pm[pg].parent]) && OnceEach(pages[pg])
    ensures pm[pg].t == Overflow1 || pm[pg].t == Overflow2 || pm[pg].t == Btree
    ensures pages[pg].BtreePage? <==> pm[pg].t == Btree
  {
    assert HasParent(pages, pm, pg);
    var p := pm[pg].parent;
    var s :| Ref(pages[p], s) == pg && TypeOf(s) == pm[pg].t;
    assert Recorded(pages, roots, pm, p, s, pg);
  }

  /** A page does not refer to itself. */
  lemma NotSelf(pages: Pages, roots: set<nat>, pm: PtrMap, pg: nat)
    requires Correct(pages, roots, pm) && pg in pages
    ensures !Mentions(pages[pg], pg)
  {
    forall s | Ref(pages[pg], s) != 0 ensures Ref(pages[pg], s) != pg {
      assert Recorded(pages, roots, pm, pg, s, Ref(pages[pg], s));
    }
  }

  lemma MapDone(pages: Pages, roots: set<nat>, pm: PtrMap, pg: nat, to: nat, pm1: PtrMap)
    requires Correct(pages, roots, pm) && pg in pages && pg in pm && to !in pages
    requires to in pm1 && if pm[pg].t == RootPage then pm1[to].t == RootPage else pm1[to] == pm[pg]
    requires forall s | Ref(pages[pg], s) != 0 && Ref(pages[pg], s) != to ::
      EntryIs(pm1, Ref(pages[pg], s), TypeOf(s), to)
    requires forall q | q in pm && q != to && !Mentions(pages[pg], q) :: q in pm1 && pm1[q] == pm[q]
    ensures MapUpdated(pages, pm, pg, to, pm1)
  {
    forall s | Ref(pages[pg], s) != 0 ensures EntryIs(pm1, Ref(pages[pg], s), TypeOf(s), to) {
      assert Recorded(pages, roots, pm, pg, s, Ref(pages[pg], s));
    }
  }

  /** Moving the page and rewriting its parent is the renaming: nobody else refers to it. */
  lemma MovedPages(pages: Pages, roots: set<nat>, pm: PtrMap, pg: nat, ptrPage: nat, to: nat, parent: Node)
    requires Correct(pages, roots, pm) && pg in pages && pg !in roots && to !in pages && to != 0
    requires pg in pm && pm[pg].parent == ptrPage && ptrPage in pages && ptrPage != pg
      && parent == RenameNode(pages[ptrPage], pg, to)
    ensures (pages - {pg})[to := pages[pg]][ptrPage := parent] == Renamed(pages, pg, to)
  {
    var pages', r := (pages - {pg})[to := pages[pg]][ptrPage := parent], Renamed(pages, pg, to);
    forall p | p in r ensures p in pages' && pages'[p] == r[p] {
      var p0 := if p == to then pg else p;
      if p != ptrPage {
        NotMentioned(pages, roots, pm, pg, p0);
        Unrenamed(pages[p0], pg, to);
      }
    }
    assert pages'.Keys == r.Keys;
  }

  lemma NotMentioned(pages: Pages, roots: set<nat>, pm: PtrMap, pg: nat, p: nat)
    requires Correct(pages, roots, pm) && pg in pages && pg in pm && p in pages && p != pm[pg].parent
    ensures !Mentions(pages[p], pg)
  {
    forall s | Ref(pages[p], s) != 0 ensures Ref(pages[p], s) != pg {
      assert Recorded(pages, roots, pm, p, s, Ref(pages[p], s));
    }
  }

  lemma Unrenamed(n: Node, from: nat, to: nat)
    requires from != 0 && !Mentions(n, from)
    ensures RenameNode(n, from, to) == n
  {
    match n
    case BtreePage(leaf, cells, right) =>
      forall i | 0 <= i < |cells| ensures RenameNode(n, from, to).cells[i] == cells[i] {
        assert Ref(n, Ovfl(i)) == cells[i].ovfl;
        assert !leaf ==> Ref(n, Child(i)) == cells[i].child;
      }
      assert !leaf ==> Ref(n, Right) == right;
    case OverflowPage(next) =>
      assert Ref(n, Next) == next;
  }

  /** PTRMAP_PTROFFSET: where the five bytes for page p lie on its map page. */
  function PtrOffset(m: MapGeom, p: nat): (o: int)
    requires m.Valid()
  {
    5 * (p - m.PtrmapPageno(p) - 1)
  }

  /** Entries fit on their map page, and entries of different pages do not overlap. */
  lemma EntrySlots(m: MapGeom, usable: nat, p: nat, q: nat)
    requires m.Valid() && m.per == usable / 5 + 1 && p >= 2 && q >= 2 && m.Ordinary(p) && m.Ordinary(q)
    ensures 0 <= PtrOffset(m, p) && PtrOffset(m, p) + 5 <= usable
    ensures p < q && m.PtrmapPageno(p) == m.PtrmapPageno(q) ==> PtrOffset(m, p) + 5 <= PtrOffset(m, q)
  {
    var g, off := Locate(m, p);
  }
}
