/** The effect of balance_nonroot on the pages of a tree. */
module BalanceTree {
  import opened Balance
  import opened BalancePack
  import opened BalanceNonroot
  import opened BalanceBound

  type Pages = map<Pgno, Page>

  ghost function CellsAt(pages: Pages, pg: Pgno): (cs: seq<Cell>) {
    if pg in pages && pages[pg].Valid() then pages[pg].Cells() else []
  }

  ghost function RightAt(pages: Pages, pg: Pgno): (right: Pgno) {
    if pg in pages then pages[pg].right else 0
  }

  /** The children of a page with cells cs, in order, and the dividers between them. */
  ghost function Children(pages: Pages, cs: seq<Cell>, right: Pgno): (r: Row)
    ensures r.Valid() && |r.cells| == |cs| + 1
  {
    Row(seq(|cs| + 1, i requires 0 <= i <= |cs| => CellsAt(pages, KidAt(cs, right, i))),
        seq(|cs| + 1, i requires 0 <= i <= |cs| => RightAt(pages, KidAt(cs, right, i))),
        seq(|cs|, i requires 0 <= i < |cs| => cs[i].rec))
  }

  /** What stands below a page at the level of its children: entries and child pointers from left to right, and the
      right child of the last page. */
  datatype Text = Text(cells: seq<Cell>, last: Pgno)

  /** The children of a page with cells cs, read from left to right. */
  ghost function Reading(lv: Level, pages: Pages, cs: seq<Cell>, right: Pgno): (all: Text) {
    Text(Flat(lv, Children(pages, cs, right), 0, |cs| + 1), Children(pages, cs, right).rights[|cs|])
  }

  /** Everything below the page `pg` at the level of its children. */
  ghost function Below(lv: Level, pages: Pages, pg: Pgno): (all: Text)
    requires pg in pages && pages[pg].Valid()
  {
    Reading(lv, pages, pages[pg].Cells(), pages[pg].right)
  }

  /** The pages pgs hold the row q. */
  ghost predicate HoldsRow(pages: Pages, pgs: seq<Pgno>, q: Row)
    requires q.Valid() && |q.cells| == |pgs|
  {
    forall i | 0 <= i < |pgs| :: CellsAt(pages, pgs[i]) == q.cells[i] && RightAt(pages, pgs[i]) == q.rights[i]
  }

  /** Children other than a..a+n-1 read the same. */
  ghost predicate SameOutside(pages: Pages, cs: seq<Cell>, right: Pgno, a: nat, n: nat, pages': Pages)
  {
    forall i | 0 <= i <= |cs| && !(a <= i < a + n) :: SameAt(pages, pages', KidAt(cs, right, i))
  }

  lemma ChildrenReplaced(pages: Pages, cs: seq<Cell>, right: Pgno, a: nat, n: nat, pgs: seq<Pgno>, q: Row,
                         pages': Pages, cs': seq<Cell>, right': Pgno, r: Row, r': Row, k: int)
    requires 1 <= n && a + n <= |cs| + 1 && q.Valid() && |q.cells| == |pgs| && k == |pgs| - n
    requires ParentSpliced(cs, right, a, n, pgs, q.divs, cs', right')
    requires r == Children(pages, cs, right) && r' == Children(pages', cs', right')
    requires HoldsRow(pages', pgs, q) && SameOutside(pages, cs, right, a, n, pages')
    ensures Replaced(r, a, a + n, q, r', k)
  {
    forall i | 0 <= i < a ensures SamePlace(r, i, r', 0) {
      assert SameAt(pages, pages', KidAt(cs, right, i));
      assert cs'[i] == cs[i];
    }
    forall i | a + n <= i < |r.cells| ensures SamePlace(r, i, r', k) {
      PlaceBehind(pages, cs, right, i, pages', cs', right', k);
    }
    forall i | 0 <= i < |pgs| ensures q.cells[i] == r'.cells[a + i] && q.rights[i] == r'.rights[a + i] {
      assert KidAt(cs', right', a + i) == pgs[i];
    }
  }

  /** A child behind the window moves by k. */
  lemma PlaceBehind(pages: Pages, cs: seq<Cell>, right: Pgno, i: nat, pages': Pages, cs': seq<Cell>, right': Pgno,
                    k: int)
    requires i <= |cs| && 0 <= i + k && |cs'| == |cs| + k && SameAt(pages, pages', KidAt(cs, right, i))
    requires if i < |cs| then cs[i] == cs'[i + k] else right' == right
    ensures SamePlace(Children(pages, cs, right), i, Children(pages', cs', right'), k)
  {
  }

  ghost predicate SameAt(pages: Pages, pages': Pages, pg: Pgno) {
    CellsAt(pages, pg) == CellsAt(pages', pg) && RightAt(pages, pg) == RightAt(pages', pg)
  }

  // ---------------------------------------------------------------- page numbers

  ghost predicate Distinct(s: seq<Pgno>)
  {
    forall i, j | 0 <= i < j < |s| :: s[i] != s[j]
  }

  lemma {:induction false} DistinctOnce(s: seq<Pgno>, x: Pgno)
    requires Distinct(s)
    ensures multiset(s)[x] <= 1
  {
    if s != [] {
      var t := s[..|s| - 1];
      assert s == t + [s[|s| - 1]];
      DistinctOnce(t, x);
      assert s[|s| - 1] !in t;
    }
  }

  lemma TwiceCounted(s: seq<Pgno>, i: nat, j: nat)
    requires i < j < |s| && s[i] == s[j]
    ensures multiset(s)[s[i]] >= 2
  {
    assert s == s[..i] + [s[i]] + s[i + 1..j] + [s[j]] + s[j + 1..];
  }

  lemma StillDistinct(u: seq<Pgno>, s: seq<Pgno>)
    requires Distinct(u) && multiset(s) == multiset(u)
    ensures Distinct(s) && forall x :: x in s <==> x in u
  {
    forall i, j | 0 <= i < j < |s| ensures s[i] != s[j] {
      DistinctOnce(u, s[i]);
      if s[i] == s[j] {
        TwiceCounted(s, i, j);
      }
    }
    forall x ensures x in s <==> x in u {
      assert x in s <==> multiset(s)[x] > 0;
      assert x in u <==> multiset(u)[x] > 0;
    }
  }

  /** Reuse the old pages, add fresh ones where more are needed, and put them in order. */
  method NewPageNumbers(olds: seq<Pgno>, supply: seq<Pgno>, n: nat) returns (pgs: seq<Pgno>)
    requires Distinct(olds + supply) && n <= |olds| + |supply|
    ensures |pgs| == n && Distinct(pgs) && Ascending(pgs)
    ensures forall x | x in pgs :: x in olds || x in supply
    ensures forall x | x in pgs && n <= |olds| :: x in olds
    ensures forall x | x in olds && n >= |olds| :: x in pgs
  {
    var u := if n <= |olds| then olds[..n] else olds + supply[..n - |olds|];
    assert u == (olds + supply)[..n];
    pgs := SortPages(u);
    StillDistinct(u, pgs);
  }

  /** Write the assembled pages. */
  method StorePages(pages: Pages, pgs: seq<Pgno>, q: Row) returns (pages': Pages)
    requires Distinct(pgs) && q.Valid() && |q.cells| == |pgs|
    ensures pages'.Keys == pages.Keys + Elems(pgs)
    ensures forall i | 0 <= i < |pgs| :: pages'[pgs[i]] == Page(q.cells[i], [], q.rights[i])
    ensures forall x | x in pages && x !in pgs :: pages'[x] == pages[x]
  {
    pages' := pages;
    for i := 0 to |pgs|
      invariant forall x :: x in pages' <==> x in pages || x in pgs[..i]
      invariant forall j | 0 <= j < i :: pages'[pgs[j]] == Page(q.cells[j], [], q.rights[j])
      invariant forall x | x in pages && x !in pgs[..i] :: pages'[x] == pages[x]
    {
      assert pgs[..i + 1] == pgs[..i] + [pgs[i]];
      pages' := pages'[pgs[i] := Page(q.cells[i], [], q.rights[i])];
    }
    assert pgs[..|pgs|] == pgs;
  }

  // ---------------------------------------------------------------- the whole operation

  ghost function KidSeq(cs: seq<Cell>, right: Pgno): (ks: seq<Pgno>)
    ensures |ks| == |cs| + 1
  {
    seq(|cs| + 1, i requires 0 <= i <= |cs| => KidAt(cs, right, i))
  }

  /** Pages a..a+n-1 of a row with the dividers between them. */
  ghost function Part(r: Row, a: nat, n: nat): (q: Row)
    requires r.Valid() && 1 <= n && a + n <= |r.cells|
    ensures q.Valid() && |q.cells| == n
  {
    Row(r.cells[a..a + n], r.rights[a..a + n], r.divs[a..a + n - 1])
  }

  function Elems(s: seq<Pgno>): (e: set<Pgno>)
    ensures forall x :: x in e <==> x in s
  {
    set x | x in s
  }

  /** What the caller guarantees about the parent `pg` and its children. */
  ghost predicate Ready(lv: Level, usable: nat, pages: Pages, pg: Pgno, iParentIdx: nat, bBulk: bool)
  {
    && usable >= 12 && lv.Valid() && pg in pages && pages[pg].Valid()
    && var p := pages[pg]; var cs := p.Cells();
    && |p.ovfl| <= 1 && (|p.ovfl| == 1 ==> p.ovfl[0].0 == iParentIdx)
    && iParentIdx <= |cs| && (bBulk ==> iParentIdx == 0 || iParentIdx == |cs|)
    && Distinct(KidSeq(cs, p.right)) && pg !in KidSeq(cs, p.right)
    && (forall x | x in KidSeq(cs, p.right) :: x in pages && pages[x].Valid() && (lv.leaf ==> pages[x].right == 0))
    && RowOk(lv, usable, Children(pages, cs, p.right))
  }

  /** ks' is ks[..a] + pgs + ks[a + n..], elements behind moving by k. */
  ghost predicate Spliced(ks: seq<Pgno>, a: nat, n: nat, pgs: seq<Pgno>, ks': seq<Pgno>, k: int)
  {
    && a + n <= |ks| && k == |pgs| - n && |ks'| == |ks| + k
    && (forall i {:trigger ks[i]} | 0 <= i < a :: ks'[i] == ks[i])
    && (forall i {:trigger pgs[i]} | 0 <= i < |pgs| :: ks'[a + i] == pgs[i])
    && (forall i {:trigger ks[i]} | a + n <= i < |ks| :: ks'[i + k] == ks[i])
  }

  /** The children a..a+n-1 of the parent were replaced by the pages pgs. */
  ghost predicate KidsReplaced(pages: Pages, pg: Pgno, a: nat, n: nat, pgs: seq<Pgno>, pages': Pages)
  {
    && pg in pages && pg in pages' && pages[pg].Valid() && pages'[pg].Valid()
    && var ks := KidSeq(pages[pg].Cells(), pages[pg].right);
    && a + n <= |ks|
    && Spliced(ks, a, n, pgs, KidSeq(pages'[pg].Cells(), pages'[pg].right), |pgs| - n)
    && pages'.Keys == pages.Keys - Elems(ks[a..a + n]) + Elems(pgs)
    && (forall x | x in pages && x != pg && x !in ks[a..a + n] :: pages'[x] == pages[x])
  }

  /** A page written by the balancer: no overflow, within capacity, no right child on a leaf. */
  ghost predicate Settled(lv: Level, usable: nat, pages: Pages, pg: Pgno)
    requires usable >= 12
  {
    && pg in pages && pages[pg].Valid() && pages[pg].ovfl == []
      && PageBytes(lv, pages[pg].stored) <= lv.Capacity(usable)
    && (lv.leaf ==> pages[pg].right == 0)
  }

  lemma KidsSpliced(cs: seq<Cell>, right: Pgno, a: nat, n: nat, pgs: seq<Pgno>, divs: seq<Rec>, cs': seq<Cell>,
                    right': Pgno)
    requires 1 <= n && a + n <= |cs| + 1 && |pgs| == |divs| + 1
      && ParentSpliced(cs, right, a, n, pgs, divs, cs', right')
    ensures Spliced(KidSeq(cs, right), a, n, pgs, KidSeq(cs', right'), |pgs| - n)
  {
    var ks, ks', k := KidSeq(cs, right), KidSeq(cs', right'), |pgs| - n;
    forall i | 0 <= i < a ensures ks'[i] == ks[i] {
      assert cs'[i] == cs[i];
    }
    forall i | 0 <= i < |pgs| ensures ks'[a + i] == pgs[i] {
      assert i < |divs| ==> cs'[a + i] == Cell(pgs[i], divs[i]);
    }
    forall i | a + n <= i < |ks| ensures ks'[i + k] == ks[i] {
      assert i < |cs| ==> cs'[i + k] == cs[i];
    }
  }

  lemma PartAt(r: Row, a: nat, n: nat, q: Row)
    requires r.Valid() && 1 <= n && a + n <= |r.cells| && q == Part(r, a, n)
    ensures forall i | 0 <= i < n :: q.cells[i] == r.cells[a + i] && q.rights[i] == r.rights[a + i]
    ensures forall i | 0 <= i < n - 1 :: q.divs[i] == r.divs[a + i]
  {
  }

  lemma FlatCutAll(lv: Level, ap: seq<Cell>, cnt: seq<nat>, lastRight: Pgno, q: Row)
    requires lv.Valid() && IsCut(lv, ap, cnt, lastRight, q)
    requires lv.leaf ==> forall j | 0 <= j < |ap| :: ap[j].left == 0
    ensures Flat(lv, q, 0, |q.cells|) == ap && q.rights[|q.cells| - 1] == lastRight
  {
    FlatCut(lv, ap, cnt, lastRight, q, 0);
  }

  lemma FlatRecut(lv: Level, r: Row, a: nat, n: nat, q: Row, r': Row, k: int)
    requires r.Valid() && q.Valid() && 1 <= n && a + n <= |r.cells| && Replaced(r, a, a + n, q, r', k)
    requires Flat(lv, q, 0, |q.cells|) == Flat(lv, Part(r, a, n), 0, n)
    requires q.rights[|q.cells| - 1] == r.rights[a + n - 1]
    ensures Flat(lv, r', 0, |r'.cells|) == Flat(lv, r, 0, |r.cells|)
    ensures r'.rights[|r'.cells| - 1] == r.rights[|r.cells| - 1]
  {
    var part := Part(r, a, n);
    PartAt(r, a, n, part);
    FlatReplaced(lv, r, a, a + n, part, q, r', k);
    LastKept(r, a, a + n, q, r', k);
  }

  /** The last page of the row keeps its right child. */
  lemma LastKept(r: Row, a: nat, b: nat, q: Row, r': Row, k: int)
    requires r.Valid() && q.Valid() && a < b <= |r.cells| && Replaced(r, a, b, q, r', k)
    requires q.rights[|q.cells| - 1] == r.rights[b - 1]
    ensures r'.rights[|r'.cells| - 1] == r.rights[|r.cells| - 1]
  {
    if b < |r.cells| {
      assert SamePlace(r, |r.cells| - 1, r', k);
    } else {
      assert q.rights[|q.cells| - 1] == r'.rights[a + (|q.cells| - 1)];
    }
  }

  /** Reading all children gives the same as before. */
  lemma BelowKept(lv: Level, pages: Pages, cs: seq<Cell>, right: Pgno, a: nat, n: nat, pgs: seq<Pgno>, q: Row,
                  pages': Pages, cs': seq<Cell>, right': Pgno)
    requires 1 <= n && a + n <= |cs| + 1 && q.Valid() && |q.cells| == |pgs|
    requires ParentSpliced(cs, right, a, n, pgs, q.divs, cs', right')
    requires HoldsRow(pages', pgs, q) && SameOutside(pages, cs, right, a, n, pages')
    requires Flat(lv, q, 0, |q.cells|) == Flat(lv, Part(Children(pages, cs, right), a, n), 0, n)
    requires q.rights[|q.cells| - 1] == Children(pages, cs, right).rights[a + n - 1]
    ensures Reading(lv, pages', cs', right') == Reading(lv, pages, cs, right)
  {
    var r, r', k := Children(pages, cs, right), Children(pages', cs', right'), |pgs| - n;
    ChildrenReplaced(pages, cs, right, a, n, pgs, q, pages', cs', right', r, r', k);
    FlatRecut(lv, r, a, n, q, r', k);
  }

  /** The new pages fit and are not empty. */
  lemma PagesSettled(lv: Level, usable: nat, ap: seq<Cell>, sz: seq<nat>, cnt: seq<nat>, q: Row, lastRight: Pgno,
                     i: nat)
    requires usable >= 12 && SizesOf(lv, ap, sz) && PagesFit(lv, usable, sz, cnt) && IsCut(lv, ap, cnt, lastRight, q)
      && i < |cnt|
    requires lv.leaf ==> lastRight == 0
    ensures PageBytes(lv, q.cells[i]) <= lv.Capacity(usable) && (ap != [] ==> q.cells[i] != [])
      && (lv.leaf ==> q.rights[i] == 0)
  {
    assert i < |cnt| - 1 ==> CutAt(lv, ap, cnt[i], q.divs[i], q.rights[i]);
    assert CutPage(lv, ap, cnt, i, q.cells[i]) && PageFits(sz, lv.leafData, lv.Capacity(usable), cnt, i);
    BytesOfPart(lv, ap, sz, Start(lv.leafData, cnt, i), cnt[i]);
  }

  lemma LastOf(ap: seq<Cell>, s: nat, e: nat, cs: seq<Cell>)
    requires s < e <= |ap| && cs == ap[s..e]
    ensures cs != [] && cs[|cs| - 1] == ap[e - 1]
  {
  }

  /** On leaf-data pages the divider is the last key of the page to its left. */
  lemma DividerIsLastKey(lv: Level, usable: nat, ap: seq<Cell>, sz: seq<nat>, cnt: seq<nat>, q: Row, lastRight: Pgno,
                         i: nat)
    requires usable >= 12 && SizesOf(lv, ap, sz) && PagesFit(lv, usable, sz, cnt) && IsCut(lv, ap, cnt, lastRight, q)
    requires lv.leafData && i < |cnt| - 1
    ensures q.cells[i] != [] && q.divs[i] == KeyRec(q.cells[i][|q.cells[i]| - 1].rec.key)
  {
    assert CutPage(lv, ap, cnt, i, q.cells[i]) && CutAt(lv, ap, cnt[i], q.divs[i], q.rights[i]);
    BoundaryInside(lv, usable, sz, cnt, i);
    LastOf(ap, Start(lv.leafData, cnt, i), cnt[i], q.cells[i]);
  }

  /** What balancing has written: the parent p', the new pages q, nothing else. */
  ghost predicate Written(pages: Pages, pg: Pgno, gone: seq<Pgno>, pgs: seq<Pgno>, q: Row, p': Page, pages': Pages)
  {
    && q.Valid() && |q.cells| == |pgs| && pg !in gone && pg !in pgs
    && pages'.Keys == pages.Keys - Elems(gone) + Elems(pgs) && pg in pages && pg in pages'
    && pages'[pg] == p'
    && (forall i | 0 <= i < |pgs| :: pages'[pgs[i]] == Page(q.cells[i], [], q.rights[i]))
    && (forall x | x in pages && x != pg && x !in gone && x !in pgs :: pages'[x] == pages[x])
  }

  /** The outcome: the siblings are replaced by the pages pgs; reading all children from left to right gives the same
      entries and child pointers; the parent's other dividers are as before; the new pages fit and are non-empty unless
      there are no cells at all; leaf-data dividers are the largest keys on their left. */
  ghost predicate Rebalanced(lv: Level, usable: nat, pages: Pages, pg: Pgno, a: nat, n: nat, pgs: seq<Pgno>,
                             pages': Pages)
    requires usable >= 12
  {
    && KidsReplaced(pages, pg, a, n, pgs, pages')
    && Below(lv, pages', pg) == Below(lv, pages, pg)
    && DividersKept(pages[pg].Cells(), pages[pg].right, a, n, pgs, pages'[pg].Cells(), pages'[pg].right)
    && AllSettled(lv, usable, pages', pgs)
    && (lv.leafData ==> AllKeyed(pages', pages'[pg].Cells(), a, a + |pgs| - 1))
  }

  /** The parent's cells: new dividers in front of all new pages but the last, all other dividers as before. */
  ghost predicate DividersKept(cs: seq<Cell>, right: Pgno, a: nat, n: nat, pgs: seq<Pgno>, cs': seq<Cell>, right': Pgno)
  {
    && 1 <= n && a + n <= |cs| + 1 && |pgs| >= 1 && a + |pgs| - 1 <= |cs'|
    && ParentSpliced(cs, right, a, n, pgs, RecsAt(cs', a, |pgs| - 1), cs', right')
  }

  ghost function RecsAt(cs: seq<Cell>, a: nat, m: nat): (recs: seq<Rec>)
    requires a + m <= |cs|
    ensures |recs| == m
  {
    seq(m, i requires 0 <= i < m => cs[a + i].rec)
  }

  lemma ConcludeDividers(cs: seq<Cell>, right: Pgno, a: nat, n: nat, pgs: seq<Pgno>, divs: seq<Rec>, cs': seq<Cell>,
                         right': Pgno)
    requires 1 <= n && a + n <= |cs| + 1 && |pgs| == |divs| + 1
      && ParentSpliced(cs, right, a, n, pgs, divs, cs', right')
    ensures DividersKept(cs, right, a, n, pgs, cs', right')
  {
    assert RecsAt(cs', a, |divs|) == divs;
  }

  ghost predicate AllSettled(lv: Level, usable: nat, pages: Pages, pgs: seq<Pgno>)
    requires usable >= 12
  {
    && (forall i | 0 <= i < |pgs| :: Settled(lv, usable, pages, pgs[i]))
    && (forall i | 0 <= i < |pgs| && pages[pgs[i]].stored == [] :: |pgs| == 1)
  }

  ghost predicate AllKeyed(pages: Pages, cs: seq<Cell>, lo: nat, hi: int)
  {
    forall i | lo <= i < hi :: KeyedByLeft(pages, cs, i)
  }

  /** The divider at `i` is the key of the last cell on the page to its left. */
  ghost predicate KeyedByLeft(pages: Pages, cs: seq<Cell>, i: nat)
  {
    && i < |cs| && cs[i].left in pages
    && var left := pages[cs[i].left].stored; left != [] && cs[i].rec == KeyRec(left[|left| - 1].rec.key)
  }

  lemma WrittenRow(pages: Pages, pg: Pgno, gone: seq<Pgno>, pgs: seq<Pgno>, q: Row, p': Page, pages': Pages)
    requires Written(pages, pg, gone, pgs, q, p', pages')
    ensures HoldsRow(pages', pgs, q)
  {
    forall i | 0 <= i < |pgs| ensures CellsAt(pages', pgs[i]) == q.cells[i] && RightAt(pages', pgs[i]) == q.rights[i] {
      assert pgs[i] in pages';
      assert pages'[pgs[i]] == Page(q.cells[i], [], q.rights[i]);
    }
  }

  /** Children outside the window are untouched. */
  lemma WrittenOutside(pages: Pages, pg: Pgno, cs: seq<Cell>, right: Pgno, a: nat, n: nat, pgs: seq<Pgno>, q: Row,
                       p': Page, pages': Pages)
    requires a + n <= |cs| + 1 && Distinct(KidSeq(cs, right)) && pg !in KidSeq(cs, right)
    requires forall x | x in KidSeq(cs, right) :: x in pages
    requires Written(pages, pg, KidSeq(cs, right)[a..a + n], pgs, q, p', pages')
    requires forall x | x in pgs :: x in KidSeq(cs, right)[a..a + n] || x !in pages
    ensures SameOutside(pages, cs, right, a, n, pages')
  {
    var ks := KidSeq(cs, right);
    forall i | 0 <= i <= |cs| && !(a <= i < a + n) ensures SameAt(pages, pages', KidAt(cs, right, i)) {
      assert ks[i] == KidAt(cs, right, i) && ks[i] in ks;
      assert ks[i] !in ks[a..a + n];
    }
  }

  /** All children of `pg` as one row. */
  ghost function RowUnder(pages: Pages, pg: Pgno): (r: Row)
    requires pg in pages && pages[pg].Valid()
    ensures r.Valid() && |r.cells| == |pages[pg].Cells()| + 1
  {
    Children(pages, pages[pg].Cells(), pages[pg].right)
  }

  ghost function KidsOf(pages: Pages, pg: Pgno): (ks: seq<Pgno>)
    requires pg in pages && pages[pg].Valid()
    ensures |ks| == |pages[pg].Cells()| + 1
  {
    KidSeq(pages[pg].Cells(), pages[pg].right)
  }

  /** The cells `ap`, with sizes sz, are those of children a..a+n-1 and the dividers between them. */
  ghost predicate Gathered(lv: Level, usable: nat, pages: Pages, pg: Pgno, a: nat, n: nat, ap: seq<Cell>, sz: seq<nat>)
    requires pg in pages && pages[pg].Valid() && usable >= 12
  {
    && 1 <= n <= NB && a + n <= |pages[pg].Cells()| + 1
    && ap == Flat(lv, Part(RowUnder(pages, pg), a, n), 0, n) && SizesOf(lv, ap, sz)
    && forall j | 0 <= j < |ap| :: CellOk(lv, usable, ap[j])
  }

  lemma ConcludeKids(pages: Pages, pg: Pgno, a: nat, n: nat, pgs: seq<Pgno>, q: Row, p': Page, pages': Pages)
    requires pg in pages && pages[pg].Valid() && 1 <= n && a + n <= |KidsOf(pages, pg)|
    requires Written(pages, pg, KidsOf(pages, pg)[a..a + n], pgs, q, p', pages')
    requires forall x | x in pgs :: x in KidsOf(pages, pg)[a..a + n] || x !in pages
    requires p'.Valid() && ParentSpliced(pages[pg].Cells(), pages[pg].right, a, n, pgs, q.divs, p'.Cells(), p'.right)
    ensures KidsReplaced(pages, pg, a, n, pgs, pages')
  {
    KidsSpliced(pages[pg].Cells(), pages[pg].right, a, n, pgs, q.divs, p'.Cells(), p'.right);
  }

  lemma ConcludeBelow(lv: Level, pages: Pages, pg: Pgno, cs: seq<Cell>, right: Pgno, a: nat, n: nat, gone: seq<Pgno>,
                      pgs: seq<Pgno>, q: Row, p': Page, cs': seq<Cell>, pages': Pages)
    requires 1 <= n && a + n <= |cs| + 1 && gone == KidSeq(cs, right)[a..a + n]
    requires Distinct(KidSeq(cs, right)) && pg !in KidSeq(cs, right) && forall x | x in KidSeq(cs, right) :: x in pages
    requires Written(pages, pg, gone, pgs, q, p', pages') && forall x | x in pgs :: x in gone || x !in pages
    requires ParentSpliced(cs, right, a, n, pgs, q.divs, cs', p'.right)
    requires Flat(lv, q, 0, |q.cells|) == Flat(lv, Part(Children(pages, cs, right), a, n), 0, n)
    requires q.rights[|q.cells| - 1] == Children(pages, cs, right).rights[a + n - 1]
    ensures Reading(lv, pages', cs', p'.right) == Reading(lv, pages, cs, right)
  {
    WrittenRow(pages, pg, gone, pgs, q, p', pages');
    WrittenOutside(pages, pg, cs, right, a, n, pgs, q, p', pages');
    BelowKept(lv, pages, cs, right, a, n, pgs, q, pages', cs', p'.right);
  }

  lemma ConcludeFit(lv: Level, usable: nat, pages: Pages, pg: Pgno, gone: seq<Pgno>, pgs: seq<Pgno>,
                    ap: seq<Cell>, sz: seq<nat>, cnt: seq<nat>, lastRight: Pgno, q: Row, p': Page, pages': Pages)
    requires usable >= 12 && SizesOf(lv, ap, sz) && PagesFit(lv, usable, sz, cnt) && IsCut(lv, ap, cnt, lastRight, q)
    requires Written(pages, pg, gone, pgs, q, p', pages') && (lv.leaf ==> lastRight == 0)
    ensures AllSettled(lv, usable, pages', pgs)
  {
    forall i | 0 <= i < |pgs|
      ensures Settled(lv, usable, pages', pgs[i]) && (pages'[pgs[i]].stored == [] ==> |pgs| == 1) {
      assert pgs[i] in pages';
      assert pages'[pgs[i]] == Page(q.cells[i], [], q.rights[i]);
      PagesSettled(lv, usable, ap, sz, cnt, q, lastRight, i);
    }
  }

  /** In the row q each divider is the last key of the page before it. */
  ghost predicate LastKeys(q: Row)
  {
    q.Valid() && forall i | 0 <= i < |q.divs| :: LastKeyAt(q, i)
  }

  ghost predicate LastKeyAt(q: Row, i: nat)
    requires q.Valid() && i < |q.divs|
  {
    q.cells[i] != [] && q.divs[i] == KeyRec(q.cells[i][|q.cells[i]| - 1].rec.key)
  }

  lemma CutLastKeys(lv: Level, usable: nat, ap: seq<Cell>, sz: seq<nat>, cnt: seq<nat>, lastRight: Pgno, q: Row)
    requires usable >= 12 && SizesOf(lv, ap, sz) && PagesFit(lv, usable, sz, cnt) && IsCut(lv, ap, cnt, lastRight, q)
      && lv.leafData
    ensures LastKeys(q)
  {
    forall i | 0 <= i < |q.divs| ensures LastKeyAt(q, i) {
      DividerIsLastKey(lv, usable, ap, sz, cnt, q, lastRight, i);
    }
  }

  lemma ConcludeKeys(pages: Pages, pg: Pgno, cs: seq<Cell>, right: Pgno, a: nat, n: nat, gone: seq<Pgno>,
                     pgs: seq<Pgno>, q: Row, p': Page, cs': seq<Cell>, pages': Pages)
    requires 1 <= n && a + n <= |cs| + 1 && LastKeys(q)
    requires Written(pages, pg, gone, pgs, q, p', pages') && ParentSpliced(cs, right, a, n, pgs, q.divs, cs', p'.right)
    ensures AllKeyed(pages', cs', a, a + |pgs| - 1)
  {
    forall i | a <= i < a + |pgs| - 1 ensures KeyedByLeft(pages', cs', i) {
      assert LastKeyAt(q, i - a);
      KeyWritten(pages, pg, cs, right, a, n, gone, pgs, q, p', cs', pages', i - a);
    }
  }

  lemma KeyWritten(pages: Pages, pg: Pgno, cs: seq<Cell>, right: Pgno, a: nat, n: nat, gone: seq<Pgno>, pgs: seq<Pgno>,
                   q: Row, p': Page, cs': seq<Cell>, pages': Pages, i: nat)
    requires 1 <= n && a + n <= |cs| + 1 && i < |pgs| - 1
    requires Written(pages, pg, gone, pgs, q, p', pages') && ParentSpliced(cs, right, a, n, pgs, q.divs, cs', p'.right)
    requires q.cells[i] != [] && q.divs[i] == KeyRec(q.cells[i][|q.cells[i]| - 1].rec.key)
    ensures KeyedByLeft(pages', cs', a + i)
  {
    assert cs'[a + i] == Cell(pgs[i], q.divs[i]);
    assert pgs[i] in pages';
    assert pages'[pgs[i]] == Page(q.cells[i], [], q.rights[i]);
  }

  lemma ConcludeReading(lv: Level, usable: nat, pages: Pages, pg: Pgno, cs: seq<Cell>, right: Pgno, a: nat, n: nat,
                        gone: seq<Pgno>, pgs: seq<Pgno>, ap: seq<Cell>, cnt: seq<nat>, q: Row, p': Page,
                        cs': seq<Cell>, pages': Pages)
    requires lv.Valid() && usable >= 12 && 1 <= n && a + n <= |cs| + 1 && gone == KidSeq(cs, right)[a..a + n]
    requires Distinct(KidSeq(cs, right)) && pg !in KidSeq(cs, right) && forall x | x in KidSeq(cs, right) :: x in pages
    requires Written(pages, pg, gone, pgs, q, p', pages') && forall x | x in pgs :: x in gone || x !in pages
    requires ParentSpliced(cs, right, a, n, pgs, q.divs, cs', p'.right)
    requires ap == Flat(lv, Part(Children(pages, cs, right), a, n), 0, n) && forall j | 0 <= j < |ap| ::
      CellOk(lv, usable, ap[j])
    requires IsCut(lv, ap, cnt, Children(pages, cs, right).rights[a + n - 1], q)
    ensures Reading(lv, pages', cs', p'.right) == Reading(lv, pages, cs, right)
  {
    forall j | 0 <= j < |ap| ensures lv.leaf ==> ap[j].left == 0 {
      assert CellOk(lv, usable, ap[j]);
    }
    FlatCutAll(lv, ap, cnt, Children(pages, cs, right).rights[a + n - 1], q);
    ConcludeBelow(lv, pages, pg, cs, right, a, n, gone, pgs, q, p', cs', pages');
  }

  lemma Concluded(lv: Level, usable: nat, pages: Pages, pg: Pgno, a: nat, n: nat, gone: seq<Pgno>, pgs: seq<Pgno>,
                  ap: seq<Cell>, sz: seq<nat>, cnt: seq<nat>, lastRight: Pgno, q: Row, p': Page, pages': Pages)
    requires lv.Valid() && usable >= 12 && pg in pages && pages[pg].Valid()
      && Gathered(lv, usable, pages, pg, a, n, ap, sz)
    requires Distinct(KidsOf(pages, pg)) && pg !in KidsOf(pages, pg) && forall x | x in KidsOf(pages, pg) :: x in pages
    requires gone == KidsOf(pages, pg)[a..a + n]
    requires Written(pages, pg, gone, pgs, q, p', pages') && forall x | x in pgs :: x in gone || x !in pages
    requires p'.Valid() && ParentSpliced(pages[pg].Cells(), pages[pg].right, a, n, pgs, q.divs, p'.Cells(), p'.right)
    requires PagesFit(lv, usable, sz, cnt) && IsCut(lv, ap, cnt, lastRight, q)
      && lastRight == RowUnder(pages, pg).rights[a + n - 1]
    requires lv.leaf ==> lastRight == 0
    ensures Rebalanced(lv, usable, pages, pg, a, n, pgs, pages')
  {
    ConcludeReading(lv, usable, pages, pg, pages[pg].Cells(), pages[pg].right, a, n, gone, pgs, ap, cnt, q, p',
      p'.Cells(), pages');
    ConcludeKids(pages, pg, a, n, pgs, q, p', pages');
    ConcludeDividers(pages[pg].Cells(), pages[pg].right, a, n, pgs, q.divs, p'.Cells(), p'.right);
    ConcludeFit(lv, usable, pages, pg, gone, pgs, ap, sz, cnt, lastRight, q, p', pages');
    if lv.leafData {
      CutLastKeys(lv, usable, ap, sz, cnt, lastRight, q);
      ConcludeKeys(pages, pg, pages[pg].Cells(), pages[pg].right, a, n, gone, pgs, q, p', p'.Cells(), pages');
    }
  }

  /** The pages and dividers of children a..a+n-1 of a page with cells cs. */
  ghost predicate SiblingsAre(pages: Pages, cs: seq<Cell>, right: Pgno, a: nat, n: nat, olds: seq<Page>,
                              recs: seq<Rec>) {
    && 1 <= n && a + n <= |cs| + 1 && |olds| == n && recs == Part(Children(pages, cs, right), a, n).divs
    && forall i | 0 <= i < n :: SiblingAt(pages, KidAt(cs, right, a + i), olds[i])
  }

  ghost predicate SiblingAt(pages: Pages, kid: Pgno, old': Page) {
    kid in pages && old' == pages[kid] && old'.Valid()
  }

  /** What this says of the row of the siblings. */
  lemma SiblingRow(pages: Pages, pg: Pgno, a: nat, n: nat, olds: seq<Page>, recs: seq<Rec>)
    requires pg in pages && pages[pg].Valid()
      && SiblingsAre(pages, pages[pg].Cells(), pages[pg].right, a, n, olds, recs)
    ensures recs == Part(RowUnder(pages, pg), a, n).divs
    ensures forall j | a <= j < a + n :: KidsOf(pages, pg)[j] in pages && olds[j - a] == pages[KidsOf(pages, pg)[j]]
    ensures forall i | 0 <= i < n :: olds[i].Valid() && Part(RowUnder(pages, pg), a, n).cells[i] == olds[i].Cells()
    ensures forall i | 0 <= i < n :: Part(RowUnder(pages, pg), a, n).rights[i] == olds[i].right
  {
    var cs, right := pages[pg].Cells(), pages[pg].right;
    PartAt(RowUnder(pages, pg), a, n, Part(RowUnder(pages, pg), a, n));
    forall j | a <= j < a + n ensures KidsOf(pages, pg)[j] in pages && olds[j - a] == pages[KidsOf(pages, pg)[j]] {
      assert SiblingAt(pages, KidAt(cs, right, a + (j - a)), olds[j - a]);
    }
    forall i | 0 <= i < n
      ensures olds[i].Valid() && Part(RowUnder(pages, pg), a, n).cells[i] == olds[i].Cells()
      ensures Part(RowUnder(pages, pg), a, n).rights[i] == olds[i].right
    {
      assert SiblingAt(pages, KidAt(cs, right, a + i), olds[i]);
    }
  }

  /** The pages to the left of the dividers, and the one behind them. */
  method OldSiblings(pages: Pages, divs: seq<Cell>, last: Pgno, ghost cs: seq<Cell>, ghost right: Pgno, ghost a: nat,
                     ghost n: nat)
    returns (pgs: seq<Pgno>, olds: seq<Page>, recs: seq<Rec>)
    requires 1 <= n && a + n <= |cs| + 1 && divs == cs[a..a + n - 1] && last == KidAt(cs, right, a + n - 1)
    requires forall x | x in KidSeq(cs, right) :: x in pages && pages[x].Valid()
    ensures pgs == KidSeq(cs, right)[a..a + n] && SiblingsAre(pages, cs, right, a, n, olds, recs)
  {
    pgs := seq(|divs| + 1, i requires 0 <= i <= |divs| => if i < |divs| then divs[i].left else last);
    recs := seq(|divs|, i requires 0 <= i < |divs| => divs[i].rec);
    ghost var ks := KidSeq(cs, right);
    forall i | 0 <= i < n ensures pgs[i] == ks[a + i] && pgs[i] in pages && pages[pgs[i]].Valid() {
      assert ks[a + i] in ks;
    }
    assert pgs == ks[a..a + n];
    olds := seq(|pgs|, i requires 0 <= i < |pgs| => pages[pgs[i]]);
    forall i | 0 <= i < n ensures SiblingAt(pages, KidAt(cs, right, a + i), olds[i]) {
      assert pgs[i] == ks[a + i];
    }
  }

  lemma PartOk(lv: Level, usable: nat, r: Row, a: nat, n: nat)
    requires usable >= 12 && RowOk(lv, usable, r) && 1 <= n && a + n <= |r.cells|
    ensures RowOk(lv, usable, Part(r, a, n))
  {
    var q := Part(r, a, n);
    PartAt(r, a, n, q);
    forall i | 0 <= i < |q.divs|
      ensures lv.leafData || CellOk(lv, usable, Cell(if lv.leaf then 0 else q.rights[i], q.divs[i])) {
      assert q.divs[i] == r.divs[a + i] && q.rights[i] == r.rights[a + i];
    }
    forall i, j | 0 <= i < |q.cells| && 0 <= j < |q.cells[i]| ensures CellOk(lv, usable, q.cells[i][j]) {
      assert q.cells[i] == r.cells[a + i];
    }
  }

  /** Without the dividers the stored cells of the parent take no more bytes: an overflow cell was one of them. */
  lemma PulledBytes(p: Page, a: nat, b: nat, stored: seq<Cell>)
    requires p.Valid() && |p.ovfl| <= 1 && a <= b <= |p.Cells()| && stored == p.Cells()[..a] + p.Cells()[b..]
    requires |p.ovfl| == 1 ==> a <= p.ovfl[0].0 < b
    ensures PageBytes(Interior(), stored) <= PageBytes(Interior(), p.stored)
  {
    if |p.ovfl| == 1 {
      OneOverflow(p);
      assert stored == p.stored[..a] + p.stored[b - 1..];
      BytesLess(Interior(), p.stored, a, b - 1);
    } else {
      assert p.Cells() == p.stored;
      BytesLess(Interior(), p.stored, a, b);
    }
  }

  /** The cells of children a..a+n-1 and of the dividers between them. */
  ghost function CellsOver(lv: Level, pages: Pages, pg: Pgno, a: nat, n: nat): (ap: seq<Cell>)
    requires pg in pages && pages[pg].Valid() && 1 <= n && a + n <= |KidsOf(pages, pg)|
  {
    Flat(lv, Part(RowUnder(pages, pg), a, n), 0, n)
  }

  /** The cells stand on the pages pgs as the two packing loops distribute them. */
  ghost predicate PackedOver(lv: Level, usable: nat, bBulk: bool, ap: seq<Cell>, pages: Pages, pgs: seq<Pgno>)
    requires usable >= 12
  {
    exists sz, cnt :: SizesOf(lv, ap, sz) && PackedAs(lv, usable, bBulk, ap, sz, cnt, pages, pgs)
  }

  ghost predicate PackedAs(lv: Level, usable: nat, bBulk: bool, ap: seq<Cell>, sz: seq<nat>, cnt: seq<nat>,
                           pages: Pages, pgs: seq<Pgno>)
    requires usable >= 12
  {
    && Packed(sz, lv.leafData, lv.Capacity(usable), bBulk, cnt) && |cnt| == |pgs|
    && forall i | 0 <= i < |pgs| :: pgs[i] in pages && CutPage(lv, ap, cnt, i, pages[pgs[i]].stored)
  }

  lemma PackedWritten(lv: Level, usable: nat, bBulk: bool, pages: Pages, pg: Pgno, gone: seq<Pgno>, pgs: seq<Pgno>,
                      ap: seq<Cell>, sz: seq<nat>, cnt: seq<nat>, lastRight: Pgno, q: Row, p': Page, pages': Pages)
    requires usable >= 12 && SizesOf(lv, ap, sz) && Packed(sz, lv.leafData, lv.Capacity(usable), bBulk, cnt)
    requires IsCut(lv, ap, cnt, lastRight, q) && Written(pages, pg, gone, pgs, q, p', pages')
    ensures PackedOver(lv, usable, bBulk, ap, pages', pgs)
  {
    forall i | 0 <= i < |pgs| ensures pgs[i] in pages' && CutPage(lv, ap, cnt, i, pages'[pgs[i]].stored) {
      assert pgs[i] in pages' && pages'[pgs[i]] == Page(q.cells[i], [], q.rights[i]);
      assert CutPage(lv, ap, cnt, i, q.cells[i]);
    }
    assert PackedAs(lv, usable, bBulk, ap, sz, cnt, pages', pgs);
  }

  /** Choose the siblings and take the dividers out of the parent. */
  method TakeSiblings(pages: Pages, pg: Pgno, iParentIdx: nat, bBulk: bool, ghost lv: Level, ghost usable: nat)
    returns (a: nat, n: nat, oldPgs: seq<Pgno>, stored: seq<Cell>, olds: seq<Page>, recs: seq<Rec>)
    requires Ready(lv, usable, pages, pg, iParentIdx, bBulk)
    ensures 1 <= n <= NB && a <= iParentIdx < a + n <= |KidsOf(pages, pg)|
    ensures Window(|pages[pg].Cells()|, iParentIdx, bBulk, a, n)
    ensures oldPgs == KidsOf(pages, pg)[a..a + n] && stored == pages[pg].Cells()[..a] + pages[pg].Cells()[a + n - 1..]
    ensures SiblingsAre(pages, pages[pg].Cells(), pages[pg].right, a, n, olds, recs)
    ensures PageBytes(Interior(), stored) <= PageBytes(Interior(), pages[pg].stored)
  {
    var p := pages[pg];
    a, n := SelectSiblings(|p.stored| + |p.ovfl|, iParentIdx, bBulk);
    var divs, last;
    divs, last, stored := PullDividers(p, iParentIdx, a, n);
    PulledBytes(p, a, a + n - 1, stored);
    oldPgs, olds, recs := OldSiblings(pages, divs, last, p.Cells(), p.right, a, n);
  }

  /** Take out the siblings and decide where to cut. */
  method Gather(lv: Level, usable: nat, pages: Pages, pg: Pgno, iParentIdx: nat, bBulk: bool)
    returns (rc: Rc, a: nat, n: nat, oldPgs: seq<Pgno>, stored: seq<Cell>, lastRight: Pgno, ap: seq<Cell>,
      sz: seq<nat>, cnt: seq<nat>)
    requires Ready(lv, usable, pages, pg, iParentIdx, bBulk)
    ensures a <= iParentIdx < a + n && Gathered(lv, usable, pages, pg, a, n, ap, sz)
    ensures Window(|pages[pg].Cells()|, iParentIdx, bBulk, a, n)
    ensures oldPgs == KidsOf(pages, pg)[a..a + n] && stored == pages[pg].Cells()[..a] + pages[pg].Cells()[a + n - 1..]
    ensures lastRight == RowUnder(pages, pg).rights[a + n - 1] && (lv.leaf ==> lastRight == 0)
    ensures rc == Ok ==> |cnt| <= NB + 2 && PagesFit(lv, usable, sz, cnt)
    ensures rc == Ok ==> Packed(sz, lv.leafData, lv.Capacity(usable), bBulk, cnt)
    ensures MinimalFor(lv, usable, Part(RowUnder(pages, pg), a, n), if rc == Ok then |cnt| else NB + 3)
    ensures rc == Corrupt ==> TooMuch(lv, usable, pages, pg, a, n)
    ensures PageBytes(Interior(), stored) <= PageBytes(Interior(), pages[pg].stored)
  {
    var olds, recs;
    a, n, oldPgs, stored, olds, recs := TakeSiblings(pages, pg, iParentIdx, bBulk, lv, usable);
    rc, ap, sz, cnt := PackSiblings(lv, usable, pages, pg, iParentIdx, bBulk, a, n, olds, recs);
    lastRight := olds[n - 1].right;
    SiblingRow(pages, pg, a, n, olds, recs);
    assert Part(RowUnder(pages, pg), a, n).rights[n - 1] == lastRight;
    LastOfLeaf(lv, usable, pages, pg, iParentIdx, bBulk, a + n - 1);
  }

  /** The packing of the siblings. */
  method PackSiblings(lv: Level, usable: nat, ghost pages: Pages, ghost pg: Pgno, ghost iParentIdx: nat, bBulk: bool,
                      ghost a: nat, ghost n: nat, olds: seq<Page>, recs: seq<Rec>)
    returns (rc: Rc, ap: seq<Cell>, sz: seq<nat>, cnt: seq<nat>)
    requires Ready(lv, usable, pages, pg, iParentIdx, bBulk) && 1 <= n <= NB && a + n <= |KidsOf(pages, pg)|
    requires SiblingsAre(pages, pages[pg].Cells(), pages[pg].right, a, n, olds, recs)
    ensures Gathered(lv, usable, pages, pg, a, n, ap, sz)
    ensures rc == Ok ==> |cnt| <= NB + 2 && PagesFit(lv, usable, sz, cnt)
    ensures rc == Ok ==> Packed(sz, lv.leafData, lv.Capacity(usable), bBulk, cnt)
    ensures MinimalFor(lv, usable, Part(RowUnder(pages, pg), a, n), if rc == Ok then |cnt| else NB + 3)
    ensures rc == Corrupt ==> TooMuch(lv, usable, pages, pg, a, n)
  {
    ghost var part := Part(RowUnder(pages, pg), a, n);
    SiblingRow(pages, pg, a, n, olds, recs);
    PartOk(lv, usable, RowUnder(pages, pg), a, n);
    rc, ap, sz, cnt := Pack(lv, usable, bBulk, olds, recs, part);
    SizesMinimal(lv, usable, part, ap, sz, if rc == Ok then |cnt| else NB + 3);
    if rc == Corrupt {
      Reported(lv, usable, pages, pg, a, n, olds);
    }
  }

  /** The children a..a+n-1. */
  ghost function Siblings(pages: Pages, pg: Pgno, a: nat, n: nat): (olds: seq<Page>)
    requires pg in pages && pages[pg].Valid() && a + n <= |KidsOf(pages, pg)|
    requires forall i | a <= i < a + n :: KidsOf(pages, pg)[i] in pages
  {
    seq(n, i requires 0 <= i < n => pages[KidsOf(pages, pg)[a + i]])
  }

  /** The siblings have more cells too many than an insertion or a balance below leaves. */
  ghost predicate TooMuch(lv: Level, usable: nat, pages: Pages, pg: Pgno, a: nat, n: nat)
    requires usable >= 12 && pg in pages && pages[pg].Valid() && 1 <= n && a + n <= |KidsOf(pages, pg)|
    requires forall i | a <= i < a + n :: KidsOf(pages, pg)[i] in pages
  {
    && MoreThanOneTooMany(lv, usable, Part(RowUnder(pages, pg), a, n))
    && !FewOverflows(lv, lv.Capacity(usable), Siblings(pages, pg, a, n))
  }

  lemma Reported(lv: Level, usable: nat, pages: Pages, pg: Pgno, a: nat, n: nat, olds: seq<Page>)
    requires usable >= 12 && pg in pages && pages[pg].Valid() && 1 <= n <= NB && a + n <= |KidsOf(pages, pg)|
      && |olds| == n
    requires forall i | 0 <= i < n ::
      KidsOf(pages, pg)[a + i] in pages && olds[i] == pages[KidsOf(pages, pg)[a + i]] && olds[i].Valid()
    requires forall i | 0 <= i < n :: Part(RowUnder(pages, pg), a, n).cells[i] == olds[i].Cells()
    requires RowOk(lv, usable, Part(RowUnder(pages, pg), a, n))
      && MinimalFor(lv, usable, Part(RowUnder(pages, pg), a, n), NB + 3)
    ensures forall i | a <= i < a + n :: KidsOf(pages, pg)[i] in pages
    ensures TooMuch(lv, usable, pages, pg, a, n)
  {
    forall i | a <= i < a + n ensures KidsOf(pages, pg)[i] in pages {
      assert olds[i - a].Valid();
    }
    assert olds == Siblings(pages, pg, a, n);
    CorruptMeans(lv, usable, olds, Part(RowUnder(pages, pg), a, n));
  }

  /** Leaves have no right child. */
  lemma LastOfLeaf(lv: Level, usable: nat, pages: Pages, pg: Pgno, iParentIdx: nat, bBulk: bool, i: nat)
    requires Ready(lv, usable, pages, pg, iParentIdx, bBulk) && i < |KidsOf(pages, pg)|
    ensures lv.leaf ==> RowUnder(pages, pg).rights[i] == 0
  {
    assert KidsOf(pages, pg)[i] in KidsOf(pages, pg);
  }

  /** The stored cells of a page with children fit behind its header. */
  ghost predicate ParentFits(usable: nat, p: Page, hdrOffset: nat)
    requires usable >= 12
  {
    PageBytes(Interior(), p.stored) + hdrOffset <= Interior().Capacity(usable)
  }

  /** The page has overflow cells only when its cells do not all fit. */
  ghost predicate OverflowsOnlyIf(usable: nat, p: Page, hdrOffset: nat)
    requires usable >= 12
  {
    p.Valid() && (p.ovfl == [] <==> PageBytes(Interior(), p.Cells()) + hdrOffset <= Interior().Capacity(usable))
  }

  /** The pages of a database, by number. */
  class Tree {
    const usable: nat
    var pages: Pages

    constructor (usable: nat, pages: Pages)
      ensures this.usable == usable && this.pages == pages
    {
      this.usable := usable;
      this.pages := pages;
    }

    /** balance_nonroot on the children of `pg` around number iParentIdx.  `supply` are the pages that the allocator
        would return; hdrOffset is that of the parent, not zero on page 1. */
    method BalanceNonroot(lv: Level, pg: Pgno, iParentIdx: nat, bBulk: bool, hdrOffset: nat, supply: seq<Pgno>)
      returns (rc: Rc, a: nat, n: nat, pgs: seq<Pgno>)
      requires Ready(lv, usable, pages, pg, iParentIdx, bBulk) && ParentFits(usable, pages[pg], hdrOffset)
      requires Distinct(supply) && |supply| >= NB + 1 && forall x | x in supply :: x !in pages
      modifies this`pages
      ensures a <= iParentIdx < a + n <= |old(pages)[pg].Cells()| + 1 && 1 <= n <= NB
      ensures Window(|old(pages)[pg].Cells()|, iParentIdx, bBulk, a, n)
      ensures rc == Ok ==> PackedOver(lv, usable, bBulk, CellsOver(lv, old(pages), pg, a, n), pages, pgs)
      ensures rc == Ok ==> Rebalanced(lv, usable, old(pages), pg, a, n, pgs, pages)
      ensures rc == Ok ==> 1 <= |pgs| <= NB + 2 && Distinct(pgs) && Ascending(pgs) && |pages[pg].ovfl| < |pgs|
      ensures rc == Ok ==> MinimalFor(lv, usable, Part(RowUnder(old(pages), pg), a, n), |pgs|)
      ensures rc == Ok ==> ParentFits(usable, pages[pg], hdrOffset)
      ensures rc == Ok ==> OverflowsOnlyIf(usable, pages[pg], hdrOffset)
      ensures rc == Ok ==> forall x | x in pgs :: x in KidsOf(old(pages), pg)[a..a + n] || x in supply
      ensures rc == Corrupt ==> KidsOf(old(pages), pg)[a] <= 1 || TooMuch(lv, usable, old(pages), pg, a, n)
    {
      ghost var before := pages;
      var pages';
      rc, a, n, pgs, pages' := Balanced(lv, usable, pages, pg, iParentIdx, bBulk, hdrOffset, supply);
      pages := pages';
    }

    /** The last step: a root without cells takes over the contents of its only child when they fit behind its
        header, and the tree becomes one level lower. */
    method CopyUp(lv: Level, pg: Pgno, isRoot: bool, hdrOffset: nat) returns (shrunk: bool)
      requires usable >= 12 && pg in pages && pages[pg].Valid() && pages[pg].right in pages && pages[pg].right != pg
      requires Settled(lv, usable, pages, pages[pg].right)
      modifies this`pages
      ensures shrunk <==> isRoot && |old(pages)[pg].Cells()| == 0
                          && PageBytes(lv, old(pages)[old(pages)[pg].right].stored) + hdrOffset <= lv.Capacity(usable)
      ensures !shrunk ==> pages == old(pages)
      ensures shrunk ==>
        pages.Keys == old(pages).Keys - {old(pages)[pg].right} && pages[pg] == old(pages)[old(pages)[pg].right]
      ensures shrunk ==> forall x | x in pages && x != pg :: pages[x] == old(pages)[x]
      ensures shrunk ==> pages[pg].Valid() && Text(pages[pg].Cells(), pages[pg].right) == Below(lv, old(pages), pg)
    {
      var p := pages[pg];
      var child := pages[p.right];
      ghost var cs := p.Cells();
      var nFree := lv.Capacity(usable) - PageBytes(lv, child.stored);
      shrunk := isRoot && |p.stored| + |p.ovfl| == 0 && hdrOffset <= nFree;
      if shrunk {
        assert Reading(lv, pages, [], p.right) == Text(child.Cells(), child.right) by {
          assert Flat(lv, Children(pages, [], p.right), 1, 1) == [];
        }
        assert cs == [];
        pages := (pages - {p.right})[pg := child];
      }
    }
  }

  /** The pages after balance_nonroot. */
  method Balanced(lv: Level, usable: nat, pages: Pages, pg: Pgno, iParentIdx: nat, bBulk: bool, hdrOffset: nat,
                  supply: seq<Pgno>)
    returns (rc: Rc, a: nat, n: nat, pgs: seq<Pgno>, pages': Pages)
    requires Ready(lv, usable, pages, pg, iParentIdx, bBulk) && ParentFits(usable, pages[pg], hdrOffset)
    requires Distinct(supply) && |supply| >= NB + 1 && forall x | x in supply :: x !in pages
    ensures a <= iParentIdx < a + n <= |KidsOf(pages, pg)| && 1 <= n <= NB
    ensures Window(|pages[pg].Cells()|, iParentIdx, bBulk, a, n)
    ensures rc == Ok ==> PackedOver(lv, usable, bBulk, CellsOver(lv, pages, pg, a, n), pages', pgs)
    ensures rc == Ok ==> Rebalanced(lv, usable, pages, pg, a, n, pgs, pages')
    ensures rc == Ok ==> 1 <= |pgs| <= NB + 2 && Distinct(pgs) && Ascending(pgs) && |pages'[pg].ovfl| < |pgs|
    ensures rc == Ok ==> MinimalFor(lv, usable, Part(RowUnder(pages, pg), a, n), |pgs|)
    ensures rc == Ok ==> ParentFits(usable, pages'[pg], hdrOffset)
    ensures rc == Ok ==> OverflowsOnlyIf(usable, pages'[pg], hdrOffset)
    ensures rc == Ok ==> forall x | x in pgs :: x in KidsOf(pages, pg)[a..a + n] || x in supply
    ensures rc == Corrupt ==> KidsOf(pages, pg)[a] <= 1 || TooMuch(lv, usable, pages, pg, a, n)
  {
    var p := pages[pg];
    var oldPgs, stored, lastRight, ap, sz, cnt;
    rc, a, n, oldPgs, stored, lastRight, ap, sz, cnt := Gather(lv, usable, pages, pg, iParentIdx, bBulk);
    pgs, pages' := [], pages[pg := Page(stored, [], p.right)];
    if rc == Corrupt {
      return;
    }
    if oldPgs[0] <= 1 {
      rc := Corrupt;
      return;
    }
    var q := CutPages(lv, ap, sz, cnt, usable, lastRight);
    var nFree := Interior().Capacity(usable) - hdrOffset - PageBytes(Interior(), stored);
    pgs, pages' := WritePages(pages, pages', pg, stored, p.right, nFree, a, n, oldPgs, supply, q);
    Concluded(lv, usable, pages, pg, a, n, oldPgs, pgs, ap, sz, cnt, lastRight, q, pages'[pg], pages');
    PackedWritten(lv, usable, bBulk, pages, pg, oldPgs, pgs, ap, sz, cnt, lastRight, q, pages'[pg], pages');
  }

  /** Number the new pages, write them, and write the parent. */
  method WritePages(ghost before: Pages, pages: Pages, pg: Pgno, stored: seq<Cell>, right: Pgno, nFree: nat, a: nat,
                    ghost n: nat, oldPgs: seq<Pgno>, supply: seq<Pgno>, q: Row)
    returns (pgs: seq<Pgno>, pages': Pages)
    requires pg in before && before[pg].Valid() && 1 <= n <= NB && a + n <= |KidsOf(before, pg)|
      && oldPgs == KidsOf(before, pg)[a..a + n]
    requires Distinct(KidsOf(before, pg)) && pg !in KidsOf(before, pg) && forall x | x in KidsOf(before, pg) ::
      x in before
    requires pages == before[pg := Page(stored, [], right)] && right == before[pg].right
    requires stored == before[pg].Cells()[..a] + before[pg].Cells()[a + n - 1..]
    requires Distinct(supply) && |supply| >= NB + 1 && forall x | x in supply :: x !in before
    requires q.Valid() && 1 <= |q.cells| <= NB + 2
    ensures |pgs| == |q.cells| && Distinct(pgs) && Ascending(pgs) && pg in pages' && |pages'[pg].ovfl| < |pgs|
    ensures PageBytes(Interior(), pages'[pg].stored) <= PageBytes(Interior(), stored) + nFree
    ensures Written(before, pg, oldPgs, pgs, q, pages'[pg], pages') && forall x | x in pgs ::
      x in oldPgs || x !in before
    ensures forall x | x in pgs :: x in oldPgs || x in supply
    ensures pages'[pg].Valid()
      && (pages'[pg].ovfl == [] <==>
            PageBytes(Interior(), pages'[pg].Cells()) <= PageBytes(Interior(), stored) + nFree)
      && ParentSpliced(before[pg].Cells(), before[pg].right, a, n, pgs, q.divs, pages'[pg].Cells(), pages'[pg].right)
  {
    forall i, j | 0 <= i < j < |oldPgs + supply| ensures (oldPgs + supply)[i] != (oldPgs + supply)[j] {
      if i < n <= j {
        assert oldPgs[i] == KidsOf(before, pg)[a + i] && oldPgs[i] in KidsOf(before, pg);
        assert supply[j - n] in supply;
      }
    }
    pgs := NewPageNumbers(oldPgs, supply, |q.cells|);
    pages' := StorePages(pages - Elems(oldPgs), pgs, q);
    var p' := PushDividers(before[pg], n, stored, right, nFree, a, pgs, q.divs);
    forall x | x in oldPgs ensures x != pg {
      assert x in KidsOf(before, pg);
    }
    assert forall i | 0 <= i < |pgs| :: pgs[i] in pgs;
    pages' := pages'[pg := p'];
  }
}
