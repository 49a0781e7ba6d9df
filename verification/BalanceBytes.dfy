/** The pages of the balancing as pages of bytes: what it takes for full is full on a real page. */
module BalanceBytes {
  import opened Bytes
  import opened CellFormat
  import opened Balance
  import opened BalancePack
  import opened BalanceNonroot
  import opened BalanceBound
  import opened BalanceCells
  import opened BalanceTree
  import opened BalanceCascade
  import opened PageLayout
  import PageSpace

  const U32 := 0x1_0000_0000

  /** The bytes of a cell on a page of kind k: a leaf cell of fewer than four bytes is padded, other pages have the
      child pointer in front. */
  function CellBytes(k: Kind, c: Cell): (b: seq<Byte>)
    requires c.left < U32
  {
    if !k.leaf then Enc4(c.left) + c.rec.image
    else if |c.rec.image| < 4 then c.rec.image + Zeros(4 - |c.rec.image|) else c.rec.image
  }

  /** b is a cell of the file format that holds the record and the child pointer of c. */
  ghost predicate ImageOf(k: Kind, c: Cell, b: seq<Byte>) {
    IsRec(k, c.rec, b) && (!k.leaf ==> Get4(b, 0) == c.left)
  }

  ghost predicate Images(k: Kind, cells: seq<Cell>, cs: seq<seq<Byte>>) {
    |cs| == |cells| && forall i | 0 <= i < |cs| :: ImageOf(k, cells[i], cs[i])
  }

  lemma BytesStored(k: Kind, c: Cell)
    requires CellStored(k, c) && c.left < U32
    ensures ImageOf(k, c, CellBytes(k, c))
  {
    var b :| IsRec(k, c.rec, b);
    var b' := CellBytes(k, c);
    TrueSizeFits(k, b);
    if k.leaf {
      assert b'[..|c.rec.image|] == c.rec.image;
    } else {
      assert b'[0..4] == Enc4(c.left) && b'[4..] == c.rec.image;
      assert forall i | 0 <= i < 4 :: b'[i] == Enc4(c.left)[i];
    }
    Rewritten(k, c.rec, b, b');
  }

  /** A cell whose image stands behind another child pointer. */
  lemma Rewritten(k: Kind, rec: Rec, b: seq<Byte>, b': seq<Byte>)
    requires IsRec(k, rec, b) && |b'| == |b| && k.ChildPtrSize() + |rec.image| <= |b'|
    requires b'[k.ChildPtrSize()..k.ChildPtrSize() + |rec.image|] == rec.image
    ensures IsRec(k, rec, b')
  {
    TrueSizeFits(k, b);
    var n := k.ChildPtrSize();
    forall i | n <= i < Parse(k, b).nHeader ensures b'[i] == b[i] {
      assert rec.image[i - n] == b'[n..n + |rec.image|][i - n];
    }
    ParseLocal(k, b, b');
  }

  /** The bytes counted by the balancing are the bytes on the page. */
  lemma {:induction false} UsedIsCounted(k: Kind, cells: seq<Cell>, cs: seq<seq<Byte>>)
    requires Images(k, cells, cs)
    ensures PageSpace.Used(cs) == PageBytes(LevelOf(k), cells)
    decreases |cs|
  {
    if cs != [] {
      ImagesPart(k, cells, cs, 1, |cs|);
      assert cells[1..|cs|] == cells[1..] && cs[1..|cs|] == cs[1..];
      UsedIsCounted(k, cells[1..], cs[1..]);
      assert ImageOf(k, cells[0], cs[0]);
      StoredOk(k, 0, cells[0].rec, cs[0]);
      FrontBytes(LevelOf(k), cells);
    }
  }

  lemma FrontBytes(lv: Level, cells: seq<Cell>)
    requires cells != []
    ensures PageBytes(lv, cells) == lv.Size(cells[0]) + 2 + PageBytes(lv, cells[1..])
  {
    assert cells == [cells[0]] + cells[1..];
    BytesSplit(lv, [cells[0]], cells[1..]);
    assert PageBytes(lv, [cells[0]]) == PageBytes(lv, []) + lv.Size(cells[0]) + 2;
  }

  /** Cells are within the capacity exactly when header, cell pointers and cells fit on the page, and what is left of
      the capacity is what is free on the page. */
  lemma CapacityIsRoom(k: Kind, hdr: nat, cells: seq<Cell>, cs: seq<seq<Byte>>)
    requires k.Valid() && Images(k, cells, cs)
    ensures LevelOf(k).Capacity(k.usable) - hdr - PageBytes(LevelOf(k), cells)
         == k.usable - Geom(k, hdr).CellOffset() - PageSpace.Used(cs)
    ensures PageBytes(LevelOf(k), cells) + hdr <= LevelOf(k).Capacity(k.usable) <==>
            Geom(k, hdr).CellOffset() + PageSpace.Used(cs) <= k.usable
  {
    UsedIsCounted(k, cells, cs);
  }

  /** All pages that a balance writes fit on real pages. */
  lemma WrittenFits(k: Kind, pages: Pages, pg: Pgno, a: nat, n: nat, pgs: seq<Pgno>, pages': Pages, i: nat,
                    cs: seq<seq<Byte>>)
    requires k.Valid() && Rebalanced(LevelOf(k), k.usable, pages, pg, a, n, pgs, pages') && i < |pgs|
    requires pgs[i] in pages' && Images(k, pages'[pgs[i]].stored, cs)
    ensures forall j | 0 <= j < |cs| :: IsCell(k, cs[j])
    ensures Geom(k, 0).CellOffset() + PageSpace.Used(cs) <= k.usable
  {
    assert Settled(LevelOf(k), k.usable, pages', pgs[i]);
    CapacityIsRoom(k, 0, pages'[pgs[i]].stored, cs);
    forall j | 0 <= j < |cs| ensures IsCell(k, cs[j]) {
      assert ImageOf(k, pages'[pgs[i]].stored[j], cs[j]);
    }
  }

  /** The same for the parent, whose header stands behind the file header on page 1. */
  lemma ParentOnPage(k: Kind, pg: Pgno, p: Page, cs: seq<seq<Byte>>)
    requires k.Valid() && !k.leaf && Images(k, p.stored, cs)
    ensures ParentFits(k.usable, p, HdrOffset(pg)) <==>
            Geom(k, if pg == 1 then 100 else 0).CellOffset() + PageSpace.Used(cs) <= k.usable
  {
    CapacityIsRoom(k, HdrOffset(pg), p.stored, cs);
  }

  /** assemblePage on a page without cells: the cells of p are then stored on it, byte for byte. */
  method StorePage(m: PageSpace.MemPage, k: Kind, p: Page)
    requires m.Valid() && m.g == Geom(k, 0) && m.nCell == 0 && m.free == [] && Frag(m.g, m.data[..]) == 0
    requires k.Valid() && PageBytes(LevelOf(k), p.stored) <= LevelOf(k).Capacity(k.usable) && AllStored(k, p.stored)
    requires forall i | 0 <= i < |p.stored| :: p.stored[i].left < U32
    modifies m`cells, m`contents, m`nCell, m`nFree, m.data
    ensures m.Valid() && Images(k, p.stored, m.contents)
    ensures m.nFree == LevelOf(k).Capacity(k.usable) - PageBytes(LevelOf(k), p.stored)
  {
    var cs := seq(|p.stored|, i requires 0 <= i < |p.stored| && p.stored[i].left < U32 => CellBytes(k, p.stored[i]));
    forall i | 0 <= i < |cs| ensures ImageOf(k, p.stored[i], cs[i]) {
      assert p.stored[i] in p.stored;
      BytesStored(k, p.stored[i]);
    }
    CapacityIsRoom(k, 0, p.stored, cs);
    m.Assemble(cs);
    m.FreeBytes();
  }

  // ---------------------------------------------------------------- real distributions

  /** Page i of a distribution of the cells cs fits as bytes; between pages that are not of leaf data one cell goes to
      the parent. */
  ghost predicate RealPage(k: Kind, cs: seq<seq<Byte>>, cnt: seq<nat>, i: nat)
    requires i < |cnt|
  {
    var s := if i == 0 then 0 else cnt[i - 1] + if k.HasData() then 0 else 1;
    s <= cnt[i] <= |cs| && Geom(k, 0).CellOffset() + PageSpace.Used(cs[s..cnt[i]]) <= k.usable
  }

  ghost predicate RealDistribution(k: Kind, cs: seq<seq<Byte>>, cnt: seq<nat>) {
    cnt != [] && cnt[|cnt| - 1] == |cs| && forall i | 0 <= i < |cnt| :: RealPage(k, cs, cnt, i)
  }

  lemma ImagesPart(k: Kind, cells: seq<Cell>, cs: seq<seq<Byte>>, s: nat, e: nat)
    requires Images(k, cells, cs) && s <= e <= |cs|
    ensures Images(k, cells[s..e], cs[s..e])
  {
    forall i | 0 <= i < e - s ensures ImageOf(k, cells[s..e][i], cs[s..e][i]) {
      assert ImageOf(k, cells[s + i], cs[s + i]);
    }
  }

  /** The distributions that the packing considers are those that fit on real pages. */
  lemma FeasibleIsReal(k: Kind, ap: seq<Cell>, cs: seq<seq<Byte>>, sz: seq<nat>, cnt: seq<nat>)
    requires k.Valid() && Images(k, ap, cs) && SizesOf(LevelOf(k), ap, sz)
    ensures Feasible(sz, k.HasData(), LevelOf(k).Capacity(k.usable), cnt) <==> RealDistribution(k, cs, cnt)
  {
    forall i | 0 <= i < |cnt|
      ensures PageFits(sz, k.HasData(), LevelOf(k).Capacity(k.usable), cnt, i) <==> RealPage(k, cs, cnt, i) {
      PageIsReal(k, ap, cs, sz, cnt, i);
    }
  }

  lemma PageIsReal(k: Kind, ap: seq<Cell>, cs: seq<seq<Byte>>, sz: seq<nat>, cnt: seq<nat>, i: nat)
    requires k.Valid() && Images(k, ap, cs) && SizesOf(LevelOf(k), ap, sz) && i < |cnt|
    ensures PageFits(sz, k.HasData(), LevelOf(k).Capacity(k.usable), cnt, i) <==> RealPage(k, cs, cnt, i)
  {
    var s := Start(k.HasData(), cnt, i);
    if s <= cnt[i] <= |ap| {
      BytesOfPart(LevelOf(k), ap, sz, s, cnt[i]);
      ImagesPart(k, ap, cs, s, cnt[i]);
      CapacityIsRoom(k, 0, ap[s..cnt[i]], cs[s..cnt[i]]);
    }
  }

  /** No distribution over fewer real pages exists. */
  lemma FewestRealPages(k: Kind, r: Row, m: nat, cs: seq<seq<Byte>>, cnt: seq<nat>)
    requires k.Valid() && r.Valid() && MinimalFor(LevelOf(k), k.usable, r, m)
    requires Images(k, Flat(LevelOf(k), r, 0, |r.cells|), cs) && RealDistribution(k, cs, cnt)
    ensures m <= |cnt|
  {
    var ap := Flat(LevelOf(k), r, 0, |r.cells|);
    var sz := seq(|ap|, j requires 0 <= j < |ap| => LevelOf(k).Size(ap[j]));
    assert SizesOf(LevelOf(k), ap, sz);
    FeasibleIsReal(k, ap, cs, sz, cnt);
  }

  // ---------------------------------------------------------------- the test of balance

  /** balance leaves a page alone exactly when it has no overflow cells and at most two thirds of the page are free,
      so that what it passes over is at least a third full. */
  lemma AThirdFull(k: Kind, p: Page, cs: seq<seq<Byte>>)
    requires k.Valid() && !k.leaf && Images(k, p.stored, cs)
    requires Geom(k, 0).CellOffset() + PageSpace.Used(cs) <= k.usable
    ensures NeedsBalance(k.usable, p) <==>
            p.ovfl != [] || 3 * (k.usable - Geom(k, 0).CellOffset() - PageSpace.Used(cs)) > 2 * k.usable
    ensures !NeedsBalance(k.usable, p) ==> 3 * (Geom(k, 0).CellOffset() + PageSpace.Used(cs)) >= k.usable
  {
    CapacityIsRoom(k, 0, p.stored, cs);
  }
}
