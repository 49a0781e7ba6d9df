/** How many pages the cells of siblings need: the packing loop of balance_nonroot reports corruption only for siblings
    with more cells too many than an insertion or a balance below can leave. */
module BalanceBound {
  import opened Balance
  import opened BalancePack
  import opened BalanceNonroot
  import Arith

  lemma {:induction false} BytesOfPart(lv: Level, ap: seq<Cell>, sz: seq<nat>, s: nat, e: nat)
    requires SizesOf(lv, ap, sz) && s <= e <= |ap|
    ensures Weight(sz, s, e) == PageBytes(lv, ap[s..e])
    decreases e - s
  {
    if s < e {
      BytesOfPart(lv, ap, sz, s, e - 1);
      assert ap[s..e][..e - s - 1] == ap[s..e - 1];
    }
  }

  /** A row in which every page fits once cell x of page j is taken away. */
  ghost predicate OneTooMany(lv: Level, cap: nat, r: Row, j: nat, x: nat)
  {
    && r.Valid() && j < |r.cells| && x < |r.cells[j]|
    && (forall i | 0 <= i < |r.cells| && i != j :: PageBytes(lv, r.cells[i]) <= cap)
    && PageBytes(lv, r.cells[j][..x] + r.cells[j][x + 1..]) <= cap
  }

  ghost function Offset(lv: Level, r: Row, i: nat): (n: nat)
    requires r.Valid() && i <= |r.cells|
  {
    |Flat(lv, r, 0, i)|
  }

  lemma Middle<T>(a: seq<T>, b: seq<T>, c: seq<T>, d: seq<T>)
    ensures (a + (b + c + d))[|a|..|a| + |b|] == b
  {
  }

  /** Where page `i` of a row lies among its cells. */
  lemma PageInFlat(lv: Level, r: Row, i: nat, ap: seq<Cell>)
    requires r.Valid() && i < |r.cells| && ap == Flat(lv, r, 0, |r.cells|)
    ensures Offset(lv, r, i) + |r.cells[i]| <= |ap|
    ensures ap[Offset(lv, r, i)..Offset(lv, r, i) + |r.cells[i]|] == r.cells[i]
    ensures i + 1 < |r.cells| ==> Offset(lv, r, i + 1) == Offset(lv, r, i) + |r.cells[i]| + if lv.leafData then 0 else 1
    ensures i + 1 == |r.cells| ==> Offset(lv, r, i) + |r.cells[i]| == |ap|
  {
    FlatSplit(lv, r, 0, i, |r.cells|);
    FlatSplit(lv, r, 0, i, i + 1);
    assert Flat(lv, r, i + 1, i + 1) == [];
    var before, behind := Flat(lv, r, 0, i), if i + 1 < |r.cells| then Joint(lv, r.rights[i], r.divs[i]) else [];
    assert ap == before + (r.cells[i] + behind + Flat(lv, r, i + 1, |r.cells|));
    Middle(before, r.cells[i], behind, Flat(lv, r, i + 1, |r.cells|));
    assert Flat(lv, r, i, i + 1) == r.cells[i] + behind;
  }

  ghost function Ends(lv: Level, r: Row): (ends: seq<nat>)
    requires r.Valid()
    ensures |ends| == |r.cells|
  {
    seq(|r.cells|, i requires 0 <= i < |r.cells| => Offset(lv, r, i) + |r.cells[i]|)
  }

  lemma StartOfPage(lv: Level, r: Row, i: nat, ap: seq<Cell>)
    requires r.Valid() && i < |r.cells| && ap == Flat(lv, r, 0, |r.cells|)
    ensures Start(lv.leafData, Ends(lv, r), i) == Offset(lv, r, i)
  {
    if i > 0 {
      PageInFlat(lv, r, i - 1, ap);
    }
  }

  /** Page `i` ends at ends[i] in the list of all cells. */
  ghost predicate InPlace(leafData: bool, r: Row, ap: seq<Cell>, ends: seq<nat>, i: nat)
    requires i < |ends| == |r.cells|
  {
    && Start(leafData, ends, i) <= ends[i] <= |ap| && (i == |ends| - 1 ==> ends[i] == |ap|)
    && ap[Start(leafData, ends, i)..ends[i]] == r.cells[i]
  }

  /** The pages of a row are a distribution of its cells. */
  lemma RowEnds(lv: Level, r: Row, ap: seq<Cell>) returns (ends: seq<nat>)
    requires r.Valid() && ap == Flat(lv, r, 0, |r.cells|)
    ensures |ends| == |r.cells| && forall i | 0 <= i < |ends| :: InPlace(lv.leafData, r, ap, ends, i)
  {
    ends := Ends(lv, r);
    forall i | 0 <= i < |ends| ensures InPlace(lv.leafData, r, ap, ends, i) {
      PageInFlat(lv, r, i, ap);
      StartOfPage(lv, r, i, ap);
    }
  }

  lemma InPlaceFits(lv: Level, cap: nat, r: Row, ap: seq<Cell>, sz: seq<nat>, ends: seq<nat>, i: nat)
    requires i < |ends| == |r.cells| && InPlace(lv.leafData, r, ap, ends, i) && SizesOf(lv, ap, sz)
      && PageBytes(lv, r.cells[i]) <= cap
    ensures PageFits(sz, lv.leafData, cap, ends, i)
  {
    BytesOfPart(lv, ap, sz, Start(lv.leafData, ends, i), ends[i]);
  }

  /** The corruption branch of the packing loop cannot be taken when at most three pages that fit hold one cell
      more than they can. */
  lemma FivePagesSuffice(lv: Level, cap: nat, r: Row, j: nat, x: nat, ap: seq<Cell>, sz: seq<nat>)
    returns (cnt: seq<nat>)
    requires OneTooMany(lv, cap, r, j, x) && |r.cells| <= NB
    requires ap == Flat(lv, r, 0, |r.cells|) && SizesOf(lv, ap, sz) && lv.Size(r.cells[j][x]) + 2 <= cap
    ensures |cnt| <= NB + 2 && Feasible(sz, lv.leafData, cap, cnt)
  {
    var ends := RowEnds(lv, r, ap);
    Spread(lv, cap, r, j, x, ap, sz, ends);
    cnt := Supplied(sz, lv.leafData, cap, ends, j, Start(lv.leafData, ends, j) + x);
  }

  /** In the distribution `ends` every page fits but for cell p of page j. */
  ghost predicate ExtraAt(sz: seq<nat>, leafData: bool, cap: nat, ends: seq<nat>, j: nat, p: nat) {
    && j < |ends| && ends[|ends| - 1] == |sz|
    && (forall i | 0 <= i < |ends| && i != j :: PageFits(sz, leafData, cap, ends, i))
    && FitsWithout(sz, cap, Start(leafData, ends, j), p, ends[j])
  }

  ghost predicate FitsWithout(sz: seq<nat>, cap: nat, s: nat, p: nat, e: nat) {
    s <= p < e <= |sz| && sz[p] + 2 <= cap && Weight(sz, s, p) + Weight(sz, p + 1, e) <= cap
  }

  lemma Spread(lv: Level, cap: nat, r: Row, j: nat, x: nat, ap: seq<Cell>, sz: seq<nat>, ends: seq<nat>)
    requires OneTooMany(lv, cap, r, j, x) && SizesOf(lv, ap, sz) && lv.Size(r.cells[j][x]) + 2 <= cap
    requires |ends| == |r.cells| && forall i | 0 <= i < |ends| :: InPlace(lv.leafData, r, ap, ends, i)
    ensures ExtraAt(sz, lv.leafData, cap, ends, j, Start(lv.leafData, ends, j) + x)
  {
    assert InPlace(lv.leafData, r, ap, ends, |ends| - 1);
    forall i | 0 <= i < |ends| && i != j ensures PageFits(sz, lv.leafData, cap, ends, i) {
      InPlaceFits(lv, cap, r, ap, sz, ends, i);
    }
    assert InPlace(lv.leafData, r, ap, ends, j);
    SpreadAt(lv, cap, r.cells[j], x, ap, sz, Start(lv.leafData, ends, j), ends[j]);
  }

  lemma SpreadAt(lv: Level, cap: nat, cs: seq<Cell>, x: nat, ap: seq<Cell>, sz: seq<nat>, o: nat, e: nat)
    requires x < |cs| && PageBytes(lv, cs[..x] + cs[x + 1..]) <= cap && lv.Size(cs[x]) + 2 <= cap
    requires o <= e <= |ap| && ap[o..e] == cs && SizesOf(lv, ap, sz)
    ensures FitsWithout(sz, cap, o, o + x, e)
  {
    WithoutOne(lv, ap, sz, o, o + x, e, cs, cs[..x] + cs[x + 1..]);
  }

  lemma Supplied(sz: seq<nat>, leafData: bool, cap: nat, ends: seq<nat>, j: nat, p: nat) returns (cnt: seq<nat>)
    requires ExtraAt(sz, leafData, cap, ends, j, p) && |ends| <= NB
    ensures |cnt| <= NB + 2 && Feasible(sz, leafData, cap, cnt)
  {
    forall i | 0 <= i < |ends| ensures Start(leafData, ends, i) <= ends[i] <= |sz| {
      assert i != j ==> PageFits(sz, leafData, cap, ends, i);
    }
    forall i | 0 <= i < |ends| && i != j ensures Weight(sz, Start(leafData, ends, i), ends[i]) <= cap {
      assert PageFits(sz, leafData, cap, ends, i);
    }
    if leafData {
      cnt := OneExtraLeafCell(sz, cap, ends, j, p);
    } else {
      cnt := OneExtraCell(sz, cap, ends, j, p);
    }
  }

  lemma WithoutOne(lv: Level, ap: seq<Cell>, sz: seq<nat>, o: nat, p: nat, e: nat, cs: seq<Cell>, w: seq<Cell>)
    requires SizesOf(lv, ap, sz) && o <= p < e <= |ap| && cs == ap[o..e] && w == cs[..p - o] + cs[p - o + 1..]
    ensures Weight(sz, o, p) + Weight(sz, p + 1, e) == PageBytes(lv, w)
    ensures sz[p] == lv.Size(cs[p - o])
  {
    BytesOfPart(lv, ap, sz, o, p);
    BytesOfPart(lv, ap, sz, p + 1, e);
    BytesSplit(lv, cs[..p - o], cs[p - o + 1..]);
    assert cs[..p - o] == ap[o..p] && cs[p - o + 1..] == ap[p + 1..e];
  }

  /** No distribution of the row's cells uses fewer than k pages. */
  ghost predicate MinimalFor(lv: Level, usable: nat, r: Row, k: nat)
    requires usable >= 12 && r.Valid()
  {
    forall sz, other | SizesOf(lv, Flat(lv, r, 0, |r.cells|), sz)
      && Feasible(sz, lv.leafData, lv.Capacity(usable), other) :: k <= |other|
  }

  lemma SizesMinimal(lv: Level, usable: nat, r: Row, ap: seq<Cell>, sz: seq<nat>, k: nat)
    requires usable >= 12 && r.Valid() && ap == Flat(lv, r, 0, |r.cells|) && SizesOf(lv, ap, sz)
    requires forall other | Feasible(sz, lv.leafData, lv.Capacity(usable), other) :: k <= |other|
    ensures MinimalFor(lv, usable, r, k)
  {
    forall sz', other | SizesOf(lv, ap, sz') && Feasible(sz', lv.leafData, lv.Capacity(usable), other)
      ensures k <= |other| {
      assert sz' == sz;
    }
  }

  /** Some page would still be overfull without any one of the cells. */
  ghost predicate MoreThanOneTooMany(lv: Level, usable: nat, r: Row)
    requires usable >= 12
  {
    forall j: nat, x: nat :: !OneTooMany(lv, lv.Capacity(usable), r, j, x)
  }

  /** Only siblings with more than one cell too many can be reported as corrupt. */
  lemma NotCorrupt(lv: Level, usable: nat, r: Row)
    requires usable >= 12 && RowOk(lv, usable, r) && |r.cells| <= NB && MinimalFor(lv, usable, r, NB + 3)
    ensures MoreThanOneTooMany(lv, usable, r)
  {
    forall j: nat, x: nat ensures !OneTooMany(lv, lv.Capacity(usable), r, j, x) {
      if OneTooMany(lv, lv.Capacity(usable), r, j, x) {
        assert CellOk(lv, usable, r.cells[j][x]);
        TooManyFits(lv, usable, r, j, x);
      }
    }
  }

  /** Valid siblings with one cell too many fit on five pages. */
  lemma TooManyFits(lv: Level, usable: nat, r: Row, j: nat, x: nat)
    requires usable >= 12 && |r.cells| <= NB && OneTooMany(lv, lv.Capacity(usable), r, j, x)
    requires lv.Size(r.cells[j][x]) + 2 <= lv.Capacity(usable)
    ensures !MinimalFor(lv, usable, r, NB + 3)
  {
    var ap := Flat(lv, r, 0, |r.cells|);
    var sz: seq<nat> := seq(|ap|, i requires 0 <= i < |ap| => lv.Size(ap[i]));
    assert SizesOf(lv, ap, sz);
    var cnt := FivePagesSuffice(lv, lv.Capacity(usable), r, j, x, ap, sz);
  }

  // ---------------------------------------------------------------- several cells too many

  /** Overflow cells put among the stored ones add at most a third of the capacity each. */
  lemma {:induction false} CombinedBytes(lv: Level, cap: nat, stored: seq<Cell>, ovfl: seq<(nat, Cell)>, n: nat)
    requires n <= |ovfl| && forall i | 0 <= i < |ovfl| :: ovfl[i].0 <= |stored| + i
    requires forall c | c in Combined(stored, ovfl, n) :: 3 * (lv.Size(c) + 2) <= cap
    ensures 3 * PageBytes(lv, Combined(stored, ovfl, n)) <= 3 * PageBytes(lv, stored) + n * cap
  {
    if n > 0 {
      var cs, k, c := Combined(stored, ovfl, n - 1), ovfl[n - 1].0, ovfl[n - 1].1;
      var cs' := Combined(stored, ovfl, n);
      assert cs' == cs[..k] + [c] + cs[k..] && cs == cs[..k] + cs[k..];
      assert c in cs';
      CombinedBytes(lv, cap, stored, ovfl, n - 1);
      OneMore(lv, cs[..k], c, cs[k..]);
      assert n * cap == (n - 1) * cap + cap;
    }
  }

  /** Overflow cells on the pages from lo on. */
  ghost function Overflowing(olds: seq<Page>, lo: nat): (n: nat)
    requires lo <= |olds|
    decreases |olds| - lo
  {
    if lo == |olds| then 0 else |olds[lo].ovfl| + Overflowing(olds, lo + 1)
  }

  /** Siblings whose stored cells fit and that have no more overflow cells than one insertion leaves on leaves that hold
      the data, and elsewhere a balance below, which puts up to four new dividers into the parent. */
  ghost predicate FewOverflows(lv: Level, cap: nat, olds: seq<Page>) {
    && (forall i | 0 <= i < |olds| :: PageBytes(lv, olds[i].stored) <= cap)
    && Overflowing(olds, 0) <= if lv.leafData then 1 else 4
  }

  lemma {:induction false} OverflowingTwo(olds: seq<Page>, lo: nat, i: nat, j: nat)
    requires lo <= i < |olds| && lo <= j < |olds|
    ensures |olds[i].ovfl| + (if i == j then 0 else |olds[j].ovfl|) <= Overflowing(olds, lo)
    decreases |olds| - lo
  {
    if i > lo && j > lo {
      OverflowingTwo(olds, lo + 1, i, j);
    } else if i > lo || j > lo {
      OverflowingTwo(olds, lo + 1, if i > lo then i else j, if i > lo then i else j);
    }
  }

  /** Only page t has overflow cells. */
  lemma {:induction false} OverflowingOne(olds: seq<Page>, lo: nat, t: nat)
    requires lo <= |olds| && t < |olds| && forall i | 0 <= i < |olds| && i != t :: olds[i].ovfl == []
    ensures Overflowing(olds, lo) == if lo <= t then |olds[t].ovfl| else 0
    decreases |olds| - lo
  {
    if lo < |olds| {
      OverflowingOne(olds, lo + 1, t);
    }
  }

  /** The row is that of the pages. */
  ghost predicate RowOf(olds: seq<Page>, r: Row) {
    r.Valid() && |r.cells| == |olds| && forall i | 0 <= i < |olds| :: olds[i].Valid() && r.cells[i] == olds[i].Cells()
  }

  /** Three times the bytes of cells, to be compared with thirds of the capacity. */
  ghost function Thirds(lv: Level, cs: seq<Cell>): (n: nat) {
    3 * PageBytes(lv, cs)
  }

  lemma ThirdsOfPage(lv: Level, cap: nat, page: Page)
    requires page.Valid() && PageBytes(lv, page.stored) <= cap && forall c | c in page.Cells() ::
      3 * (lv.Size(c) + 2) <= cap
    ensures Thirds(lv, page.Cells()) <= 3 * cap + |page.ovfl| * cap
  {
    CombinedBytes(lv, cap, page.stored, page.ovfl, |page.ovfl|);
  }

  lemma ThirdsJoin(lv: Level, cs: seq<Cell>, d: Cell, ds: seq<Cell>)
    ensures Thirds(lv, cs + [d] + ds) == Thirds(lv, cs) + 3 * (lv.Size(d) + 2) + Thirds(lv, ds)
  {
    OneMore(lv, cs, d, ds);
    BytesSplit(lv, cs, ds);
  }

  /** The cells from page lo of a row on. */
  ghost function RowFrom(lv: Level, r: Row, lo: nat): (cs: seq<Cell>)
    requires r.Valid() && lo <= |r.cells|
  {
    Flat(lv, r, lo, |r.cells|)
  }

  lemma RowFromStep(lv: Level, r: Row, lo: nat)
    requires r.Valid() && lo < |r.cells| && !lv.leafData
    ensures lo + 1 == |r.cells| ==> RowFrom(lv, r, lo) == r.cells[lo]
    ensures lo + 1 < |r.cells| ==>
      RowFrom(lv, r, lo) == r.cells[lo] + [Cell(if lv.leaf then 0 else r.rights[lo], r.divs[lo])]
        + RowFrom(lv, r, lo + 1)
  {
    if lo + 1 == |r.cells| {
      assert Flat(lv, r, lo + 1, lo + 1) == [];
    }
  }

  /** Thirds of the capacity for the pages from lo on: three for each page, one for each overflow cell and divider. */
  ghost function Share(olds: seq<Page>, lo: nat): (n: int)
    requires lo < |olds|
  {
    3 * (|olds| - lo) + Overflowing(olds, lo) + (|olds| - 1 - lo)
  }

  lemma ShareStep(olds: seq<Page>, lo: nat, cap: nat)
    requires lo < |olds|
    ensures lo + 1 == |olds| ==> Share(olds, lo) * cap == 3 * cap + |olds[lo].ovfl| * cap
    ensures lo + 1 < |olds| ==>
      Share(olds, lo) * cap == 3 * cap + |olds[lo].ovfl| * cap + cap + Share(olds, lo + 1) * cap
  {
    var k := |olds[lo].ovfl|;
    if lo + 1 == |olds| {
      assert Overflowing(olds, lo + 1) == 0;
      assert Share(olds, lo) == 3 + k;
      assert (3 + k) * cap == 3 * cap + k * cap;
    } else {
      var more := Share(olds, lo + 1);
      assert Share(olds, lo) == 3 + k + 1 + more;
      assert (3 + k + 1 + more) * cap == 3 * cap + k * cap + cap + more * cap;
    }
  }

  ghost predicate Thirded(lv: Level, cap: nat, r: Row) {
    && r.Valid()
    && (forall i, j | 0 <= i < |r.cells| && 0 <= j < |r.cells[i]| :: 3 * (lv.Size(r.cells[i][j]) + 2) <= cap)
    && (forall i | 0 <= i < |r.divs| :: 3 * (lv.Size(Cell(if lv.leaf then 0 else r.rights[i], r.divs[i])) + 2) <= cap)
  }

  lemma {:induction false} RowThirds(lv: Level, cap: nat, olds: seq<Page>, r: Row, lo: nat)
    requires !lv.leafData && Thirded(lv, cap, r) && RowOf(olds, r) && lo < |olds|
    requires forall i | 0 <= i < |olds| :: PageBytes(lv, olds[i].stored) <= cap
    ensures Thirds(lv, RowFrom(lv, r, lo)) <= Share(olds, lo) * cap
    decreases |olds| - lo
  {
    assert r.cells[lo] == olds[lo].Cells();
    ThirdsOfPage(lv, cap, olds[lo]);
    RowFromStep(lv, r, lo);
    ShareStep(olds, lo, cap);
    if lo + 1 < |olds| {
      RowThirds(lv, cap, olds, r, lo + 1);
      ThirdsJoin(lv, r.cells[lo], Cell(if lv.leaf then 0 else r.rights[lo], r.divs[lo]), RowFrom(lv, r, lo + 1));
    }
  }

  lemma RowWeight(lv: Level, cap: nat, olds: seq<Page>, r: Row, ap: seq<Cell>, sz: seq<nat>)
    requires !lv.leafData && Thirded(lv, cap, r) && RowOf(olds, r) && 1 <= |olds| <= NB && FewOverflows(lv, cap, olds)
    requires ap == RowFrom(lv, r, 0) && SizesOf(lv, ap, sz)
    ensures Weight(sz, 0, |sz|) <= (NB + 2) * cap
  {
    RowThirds(lv, cap, olds, r, 0);
    Arith.MulMono(Share(olds, 0), 15, cap);
    BytesOfPart(lv, ap, sz, 0, |ap|);
    assert ap[0..|ap|] == ap;
  }

  lemma RowThirded(lv: Level, usable: nat, r: Row)
    requires usable >= 12 && !lv.leafData && RowOk(lv, usable, r)
    ensures Thirded(lv, lv.Capacity(usable), r)
  {
    forall i, j | 0 <= i < |r.cells| && 0 <= j < |r.cells[i]|
      ensures 3 * (lv.Size(r.cells[i][j]) + 2) <= lv.Capacity(usable) {
      assert CellOk(lv, usable, r.cells[i][j]);
    }
  }

  /** Siblings that keep entries in the parent and have at most four overflow cells fit on five pages. */
  lemma FourFit(lv: Level, usable: nat, olds: seq<Page>, r: Row)
    requires usable >= 12 && !lv.leafData && RowOk(lv, usable, r) && RowOf(olds, r) && 1 <= |olds| <= NB
    requires FewOverflows(lv, lv.Capacity(usable), olds)
    ensures !MinimalFor(lv, usable, r, NB + 3)
  {
    var ap := RowFrom(lv, r, 0);
    var sz: seq<nat> := seq(|ap|, i requires 0 <= i < |ap| => lv.Size(ap[i]));
    RowThirded(lv, usable, r);
    RowWeight(lv, lv.Capacity(usable), olds, r, ap, sz);
    var cnt := FitsByWeight(sz, lv.Capacity(usable), [], NB + 2);
  }

  /** Pages that fit are a distribution of their cells. */
  lemma FittingRow(lv: Level, usable: nat, r: Row)
    requires usable >= 12 && r.Valid() && |r.cells| <= NB
    requires forall i | 0 <= i < |r.cells| :: PageBytes(lv, r.cells[i]) <= lv.Capacity(usable)
    ensures !MinimalFor(lv, usable, r, NB + 3)
  {
    var ap := Flat(lv, r, 0, |r.cells|);
    var sz: seq<nat> := seq(|ap|, i requires 0 <= i < |ap| => lv.Size(ap[i]));
    assert SizesOf(lv, ap, sz);
    var ends := RowEnds(lv, r, ap);
    assert InPlace(lv.leafData, r, ap, ends, |ends| - 1);
    forall i | 0 <= i < |ends| ensures PageFits(sz, lv.leafData, lv.Capacity(usable), ends, i) {
      InPlaceFits(lv, lv.Capacity(usable), r, ap, sz, ends, i);
    }
    assert Feasible(sz, lv.leafData, lv.Capacity(usable), ends);
  }

  /** A page with one overflow cell fits without it. */
  lemma OneOverflowFits(lv: Level, cap: nat, olds: seq<Page>, r: Row, j: nat)
    requires RowOf(olds, r) && j < |olds| && |olds[j].ovfl| == 1
    requires forall i | 0 <= i < |olds| :: PageBytes(lv, olds[i].stored) <= cap
    requires forall i | 0 <= i < |olds| && i != j :: olds[i].ovfl == []
    ensures OneTooMany(lv, cap, r, j, olds[j].ovfl[0].0)
  {
    var x := olds[j].ovfl[0].0;
    OneOverflow(olds[j]);
    assert r.cells[j][..x] + r.cells[j][x + 1..] == olds[j].stored;
    forall i | 0 <= i < |r.cells| && i != j ensures PageBytes(lv, r.cells[i]) <= cap {
      assert r.cells[i] == olds[i].Cells() == olds[i].stored;
    }
  }

  /** Leaf-data siblings with at most one overflow cell fit on five pages. */
  lemma LeafFit(lv: Level, usable: nat, olds: seq<Page>, r: Row)
    requires usable >= 12 && lv.leafData && RowOk(lv, usable, r) && RowOf(olds, r) && 1 <= |olds| <= NB
    requires FewOverflows(lv, lv.Capacity(usable), olds)
    ensures !MinimalFor(lv, usable, r, NB + 3)
  {
    if j :| 0 <= j < |olds| && olds[j].ovfl != [] {
      forall i | 0 <= i < |olds| ensures |olds[i].ovfl| == if i == j then 1 else 0 {
        OverflowingTwo(olds, 0, i, j);
      }
      OneOverflowFits(lv, lv.Capacity(usable), olds, r, j);
      assert CellOk(lv, usable, r.cells[j][olds[j].ovfl[0].0]);
      TooManyFits(lv, usable, r, j, olds[j].ovfl[0].0);
    } else {
      forall i | 0 <= i < |r.cells| ensures PageBytes(lv, r.cells[i]) <= lv.Capacity(usable) {
        assert r.cells[i] == olds[i].Cells() == olds[i].stored;
      }
      FittingRow(lv, usable, r);
    }
  }

  /** What a report of corruption says about the siblings: there is more than one cell too many, and more than an
      insertion or a balance below leaves. */
  lemma CorruptMeans(lv: Level, usable: nat, olds: seq<Page>, r: Row)
    requires usable >= 12 && RowOk(lv, usable, r) && RowOf(olds, r) && 1 <= |olds| <= NB
      && MinimalFor(lv, usable, r, NB + 3)
    ensures MoreThanOneTooMany(lv, usable, r) && !FewOverflows(lv, lv.Capacity(usable), olds)
  {
    NotCorrupt(lv, usable, r);
    if FewOverflows(lv, lv.Capacity(usable), olds) {
      if lv.leafData {
        LeafFit(lv, usable, olds, r);
      } else {
        FourFit(lv, usable, olds, r);
      }
    }
  }
}
