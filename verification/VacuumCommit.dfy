/** The loop of a full auto-vacuum at commit: all pages behind the final size move in front of it. */
module VacuumCommit {
  import opened PtrmapPages
  import opened PageGraph
  import opened Relocate
  import AutoVacuum

  // ---------------------------------------------------------------- counting pages

  /** The pages up to n that can hold part of the database. */
  ghost function Usable(geom: MapGeom, n: nat): (s: set<nat>)
    requires geom.Valid()
  {
    set p: nat | 1 <= p <= n && geom.Ordinary(p)
  }

  lemma {:induction false} UsableCount(geom: MapGeom, n: nat)
    requires geom.Valid()
    ensures |Usable(geom, n)| == geom.Count(n)
  {
    if n > 0 {
      UsableCount(geom, n - 1);
      assert Usable(geom, n) == Usable(geom, n - 1) + if geom.Ordinary(n) then {n} else {};
    }
  }

  lemma {:induction false} CountMono(geom: MapGeom, a: nat, b: nat)
    requires geom.Valid() && a <= b
    ensures geom.Count(a) <= geom.Count(b)
    decreases b
  {
    if a < b {
      CountMono(geom, a, b - 1);
    }
  }

  /** Live and free pages make up the file. */
  lemma LiveAndFree(geom: MapGeom, pages: Pages, nPage: nat)
    requires geom.Valid() && InFile(geom, pages, nPage) && 1 in pages
    ensures |pages| + |FreePages(geom, pages, nPage)| == geom.Count(nPage)
  {
    var free := FreePages(geom, pages, nPage);
    assert Usable(geom, nPage) == pages.Keys + free;
    UsableCount(geom, nPage);
    assert |pages.Keys| == |pages|;
  }

  lemma SubsetFull(a: set<nat>, b: set<nat>)
    requires a <= b && |a| == |b|
    ensures a == b
  {
    if a != b {
      var x :| x in b && x !in a;
      assert a <= b - {x};
      SubsetSize(a, b - {x});
    }
  }

  lemma {:induction false} SubsetSize(a: set<nat>, b: set<nat>)
    requires a <= b
    ensures |a| <= |b|
    decreases |a|
  {
    if a != {} {
      var x :| x in a;
      SubsetSize(a - {x}, b - {x});
    }
  }

  // ---------------------------------------------------------------- what the loop keeps

  /** The free list during the loop: it holds pages that are not live, and all of those up to nFin. */
  ghost predicate Left(geom: MapGeom, pages: Pages, nFin: nat, free: set<nat>)
    requires geom.Valid()
  {
    && (forall p | p in free :: p >= 2 && geom.Ordinary(p) && p !in pages)
    && (forall p | 2 <= p <= nFin && geom.Ordinary(p) && p !in pages :: p in free)
  }

  /** As many live pages as there is room for up to nFin. */
  ghost predicate Fits(geom: MapGeom, pages: Pages, nFin: nat)
    requires geom.Valid()
  {
    1 <= nFin && 1 in pages && |pages| == geom.Count(nFin)
  }

  /** While a live page lies behind nFin, the free list holds a page up to nFin. */
  lemma RoomLeft(geom: MapGeom, pages: Pages, nFin: nat, free: set<nat>, last: nat)
    requires geom.Valid() && Left(geom, pages, nFin, free) && Fits(geom, pages, nFin) && last in pages && last > nFin
    ensures exists p :: p in free && p <= nFin
  {
    if forall p | p in free :: p > nFin {
      forall p | p in Usable(geom, nFin) ensures p in pages.Keys {
      }
      UsableCount(geom, nFin);
      assert |pages.Keys| == |pages|;
      SubsetFull(Usable(geom, nFin), pages.Keys);
    }
  }

  /** When no page is behind nFin, all pages up to it are in use. */
  lemma AllInFront(geom: MapGeom, pages: Pages, nFin: nat)
    requires geom.Valid() && Fits(geom, pages, nFin) && InFile(geom, pages, nFin)
    ensures pages.Keys == Usable(geom, nFin) && AllUsed(geom, pages, nFin)
  {
    UsableCount(geom, nFin);
    assert |pages.Keys| == |pages|;
    SubsetFull(pages.Keys, Usable(geom, nFin));
  }

  /** When the free list is empty, no page is behind nFin. */
  lemma NoneBehind(geom: MapGeom, pages: Pages, nFin: nat, nPage: nat)
    requires geom.Valid() && Left(geom, pages, nFin, {}) && Fits(geom, pages, nFin) && InFile(geom, pages, nPage)
    ensures InFile(geom, pages, nFin)
  {
    forall p | p in pages ensures p <= nFin {
      if p > nFin {
        RoomLeft(geom, pages, nFin, {}, p);
      }
    }
  }

  // ---------------------------------------------------------------- one step

  /** The pages before iFree is looked at. */
  ghost predicate Before(geom: MapGeom, pages: Pages, pm: PtrMap, roots: set<nat>, nFin: nat, iFree: nat,
                         free: set<nat>)
    requires geom.Valid()
  {
    && Correct(pages, roots, pm) && Marked(geom, pages, pm, iFree, {}) && InFile(geom, pages, iFree)
    && Left(geom, pages, nFin, free) && Fits(geom, pages, nFin) && 1 in roots
  }

  /** The allocations of a step: pages behind nFin are taken from the free list and forgotten. */
  method TakeBelow(geom: MapGeom, ghost pages: Pages, nFin: nat, free0: set<nat>, ghost last: nat)
    returns (to: nat, free: set<nat>)
    requires geom.Valid() && Left(geom, pages, nFin, free0) && Fits(geom, pages, nFin) && last in pages && last > nFin
    ensures to in free0 && to <= nFin && to !in free && free <= free0
    ensures forall p | p in free0 && p <= nFin && p != to :: p in free
  {
    RoomLeft(geom, pages, nFin, free0, last);
    to :| to in free0;
    free := free0 - {to};
    while to > nFin
      invariant to in free0 && to !in free && free <= free0
      invariant forall p | p in free0 && p <= nFin && p != to :: p in free
      decreases |free|
    {
      RoomLeft(geom, pages, nFin, free0, last);
      to :| to in free;
      free := free - {to};
    }
  }

  /** incrVacuumStep with nFin > 0: page iFree moves to a free page up to nFin unless it is free itself. */
  method Step(s: Store, geom: MapGeom, nFin: nat, iFree: nat, free0: set<nat>, ghost roots: set<nat>)
    returns (rc: Rc, free: set<nat>, ghost to: nat)
    requires geom.Valid() && iFree > nFin && Before(geom, s.pages, s.pm, roots, nFin, iFree, free0)
    modifies s`pages, s`pm
    ensures rc == if !geom.Ordinary(iFree) then Ok else if free0 == {} then Done
                  else if iFree in roots then Corrupt else Ok
    ensures rc == Ok ==> Before(geom, s.pages, s.pm, roots, nFin, iFree - 1, free)
    ensures rc == Ok && iFree in old(s.pages) ==>
      to in free0 && to <= nFin && s.pages == Renamed(old(s.pages), iFree, to)
    ensures rc != Ok || iFree !in old(s.pages) ==> s.pages == old(s.pages)
    ensures rc != Ok ==> s.pm == old(s.pm) && free == free0
  {
    rc, free, to := Ok, free0, 0;
    if geom.Ordinary(iFree) {
      if free0 == {} {
        return Done, free, to;
      }
      var e := s.pm[iFree];
      EntryTells(s.pages, roots, s.pm, iFree);
      if e.t == RootPage {
        return Corrupt, free, to;
      }
      if e.t != FreePage {
        ghost var pages0, pm0 := s.pages, s.pm;
        var dest;
        dest, free := TakeBelow(geom, s.pages, nFin, free0, iFree);
        to := dest;
        rc := s.RelocatePage(iFree, e.t, e.parent, dest, roots);
        StepDone(geom, pages0, pm0, roots, nFin, iFree, free0, dest, free, s.pages, s.pm);
      }
    }
  }

  lemma StepDone(geom: MapGeom, pages: Pages, pm: PtrMap, roots: set<nat>, nFin: nat, iFree: nat, free: set<nat>,
                 to: nat, free': set<nat>, pages': Pages, pm': PtrMap)
    requires geom.Valid() && iFree > nFin && Before(geom, pages, pm, roots, nFin, iFree, free)
    requires iFree in pages && iFree in pm && iFree !in roots && MapUpdated(pages, pm, iFree, to, pm')
    requires pages' == Renamed(pages, iFree, to) && Correct(pages', roots, pm')
    requires to in free && to <= nFin && to !in free' && free' <= free
    requires forall p | p in free && p <= nFin && p != to :: p in free'
    ensures Before(geom, pages', pm', roots, nFin, iFree - 1, free')
  {
    RenamedMarked(geom, pages, roots, pm, iFree, to, pm', iFree, {});
    assert {} - {to} + {iFree} == {iFree};
    StillMarked(geom, pages', pm', iFree);
    RenamedSize(pages, iFree, to);
    RenamedLeft(geom, pages, nFin, iFree, free, to, free', pages');
  }

  lemma StillMarked(geom: MapGeom, pages: Pages, pm: PtrMap, iFree: nat)
    requires geom.Valid() && iFree >= 1 && Marked(geom, pages, pm, iFree, {iFree})
    ensures Marked(geom, pages, pm, iFree - 1, {})
  {
  }

  lemma RenamedLeft(geom: MapGeom, pages: Pages, nFin: nat, iFree: nat, free: set<nat>, to: nat, free': set<nat>,
                    pages': Pages)
    requires geom.Valid() && iFree > nFin && InFile(geom, pages, iFree) && Left(geom, pages, nFin, free)
    requires iFree in pages && pages' == Renamed(pages, iFree, to) && to in free && to <= nFin
    requires to !in free' && free' <= free && forall p | p in free && p <= nFin && p != to :: p in free'
    ensures Left(geom, pages', nFin, free') && InFile(geom, pages', iFree - 1)
  {
    assert pages'.Keys == pages.Keys - {iFree} + {to};
  }

  // ---------------------------------------------------------------- the commit

  ghost predicate MovesDown(moves: seq<(nat, nat)>, nFin: nat) {
    forall i | 0 <= i < |moves| :: moves[i].0 > nFin >= moves[i].1
  }

  /** autoVacuumCommit: work out the final size and move every page behind it to a free page in front of it.  The free
      list never runs out of such pages, whichever of them the allocator returns; the database comes out with all pages
      in use and the graph of pages as it was up to the numbers of pages that lay behind the final size.  It is found
      corrupt exactly when its last page cannot hold data or a root lies behind the final size. */
  method AutoVacuumCommit(s: Store, usable: nat, pending: nat, free0: set<nat>, ghost roots: set<nat>)
    returns (rc: Rc, ghost nFin: nat, ghost moves: seq<(nat, nat)>)
    requires 5 <= usable <= 65536 && pending >= 2 && s.nPage < 0x8000_0000 && 1 in roots
    requires InOrder(MapGeom(usable / 5 + 1, pending), s.pages, s.pm, s.nPage, roots)
    requires free0 == FreePages(MapGeom(usable / 5 + 1, pending), s.pages, s.nPage)
    modifies s`pages, s`pm, s`nPage
    ensures rc == Ok || rc == Corrupt
    ensures var geom := MapGeom(usable / 5 + 1, pending);
      && (geom.Ordinary(old(s.nPage)) ==>
            nFin <= old(s.nPage) && geom.Ordinary(nFin) && geom.Count(nFin) == |old(s.pages)|)
      && (rc == Corrupt <==> !geom.Ordinary(old(s.nPage)) || exists r :: r in roots && r > nFin)
      && (rc == Ok ==> InOrder(geom, s.pages, s.pm, s.nPage, roots) && s.nPage == nFin
                       && s.pages.Keys == Usable(geom, nFin))
    ensures IsMoved(old(s.pages), moves, s.pages) && MovesDown(moves, nFin)
    ensures rc == Corrupt ==> s.nPage == old(s.nPage)
  {
    var geom := MapGeom(usable / 5 + 1, pending);
    rc, nFin, moves := Ok, 0, [];
    ghost var pages0 := s.pages;
    LiveAndFree(geom, s.pages, s.nPage);
    assert MovedAll(pages0, []) == pages0;
    var r := AutoVacuum.FinalSize(usable, pending, s.nPage, |free0|);
    if r.Corrupt? {
      return Corrupt, nFin, moves;
    }
    nFin := r.pages;
    Begun(geom, s.pages, s.pm, roots, s.nPage, nFin, free0);
    rc, moves := MoveAll(s, geom, r.pages, free0, roots);
    if rc == Corrupt {
      return;
    }
    AllInFront(geom, s.pages, nFin);
    if |free0| > 0 {
      s.nPage := r.pages;
    } else {
      SameSize(geom, nFin, s.nPage);
    }
    rc := Ok;
  }

  lemma Begun(geom: MapGeom, pages: Pages, pm: PtrMap, roots: set<nat>, nPage: nat, nFin: nat, free: set<nat>)
    requires geom.Valid() && InOrder(geom, pages, pm, nPage, roots) && 1 in roots && 1 <= nFin <= nPage
    requires free == FreePages(geom, pages, nPage) && geom.Count(nFin) == |pages|
    ensures Before(geom, pages, pm, roots, nFin, nPage, free)
  {
  }

  /** No other page that can hold data has as many of them up to it. */
  lemma SameSize(geom: MapGeom, a: nat, b: nat)
    requires geom.Valid() && a <= b && geom.Ordinary(b) && geom.Count(a) == geom.Count(b)
    ensures a == b
  {
    if a < b {
      CountMono(geom, a, b - 1);
    }
  }

  method MoveAll(s: Store, geom: MapGeom, nFin: nat, free0: set<nat>, ghost roots: set<nat>)
    returns (rc: Rc, ghost moves: seq<(nat, nat)>)
    requires geom.Valid() && nFin <= s.nPage && Before(geom, s.pages, s.pm, roots, nFin, s.nPage, free0)
    modifies s`pages, s`pm
    ensures rc != Corrupt ==> InOrder(geom, s.pages, s.pm, nFin, roots) && Fits(geom, s.pages, nFin)
    ensures rc == Corrupt <==> exists r :: r in roots && r > nFin
    ensures IsMoved(old(s.pages), moves, s.pages) && MovesDown(moves, nFin)
  {
    rc, moves := Ok, [];
    ghost var pages0 := s.pages;
    var free, iFree := free0, s.nPage;
    while iFree > nFin && rc == Ok
      invariant nFin <= iFree && Before(geom, s.pages, s.pm, roots, nFin, iFree, free)
      invariant rc == Done ==> free == {}
      invariant rc == Corrupt ==> iFree > nFin && iFree in roots
      invariant IsMoved(pages0, moves, s.pages) && MovesDown(moves, nFin)
      decreases rc == Ok, iFree
    {
      rc, free, moves := MoveNext(s, geom, nFin, iFree, free, roots, pages0, moves);
      iFree := if rc == Ok then iFree - 1 else iFree;
    }
    if rc != Corrupt {
      LoopDone(geom, s.pages, s.pm, roots, nFin, iFree, free);
    }
  }

  method MoveNext(s: Store, geom: MapGeom, nFin: nat, iFree: nat, free0: set<nat>, ghost roots: set<nat>,
                  ghost pages0: Pages, ghost moves: seq<(nat, nat)>)
    returns (rc: Rc, free: set<nat>, ghost moves': seq<(nat, nat)>)
    requires geom.Valid() && iFree > nFin && Before(geom, s.pages, s.pm, roots, nFin, iFree, free0)
    requires IsMoved(pages0, moves, s.pages) && MovesDown(moves, nFin)
    modifies s`pages, s`pm
    ensures Before(geom, s.pages, s.pm, roots, nFin, if rc == Ok then iFree - 1 else iFree, free)
    ensures rc == Done ==> free == {}
    ensures rc == Corrupt ==> iFree in roots
    ensures IsMoved(pages0, moves', s.pages) && MovesDown(moves', nFin)
  {
    ghost var before := s.pages;
    ghost var to;
    rc, free, to := Step(s, geom, nFin, iFree, free0, roots);
    moves' := moves;
    if rc == Ok && iFree in before {
      MovedOne(pages0, moves, before, iFree, to);
      moves' := moves + [(iFree, to)];
    }
  }

  /** At the end of the loop nothing is behind nFin, roots included. */
  lemma LoopDone(geom: MapGeom, pages: Pages, pm: PtrMap, roots: set<nat>, nFin: nat, iFree: nat, free: set<nat>)
    requires geom.Valid() && nFin <= iFree && Before(geom, pages, pm, roots, nFin, iFree, free)
    requires iFree == nFin || free == {}
    ensures InOrder(geom, pages, pm, nFin, roots) && Fits(geom, pages, nFin)
    ensures forall r | r in roots :: r <= nFin
  {
    if free == {} {
      NoneBehind(geom, pages, nFin, iFree);
    }
  }
}
