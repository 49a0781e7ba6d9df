/** The cells that balance_nonroot moves are cells of the file format: their sizes obey the bounds that the balancing
    relies on, also when a divider comes down to a leaf or a leaf cell goes up to the parent. */
module BalanceCells {
  import opened Bytes
  import opened CellFormat
  import opened Balance
  import opened BalanceNonroot
  import opened BalancePack
  import Varint
  import Payload

  function LevelOf(k: Kind): (lv: Level)
    ensures lv.Valid()
  {
    Level(k.leaf, k.HasData())
  }

  /** The pages above, which hold the dividers. */
  function ParentOf(k: Kind): (p: Kind) {
    k.(leaf := false)
  }

  /** Bytes of a cell that carry information: a leaf cell of fewer than four bytes is stored with padding. */
  function TrueSize(info: CellInfo): (n: nat) {
    info.nHeader + info.nLocal + if info.iOverflow == 0 then 0 else 4
  }

  lemma TrueSizeFits(k: Kind, c: seq<Byte>)
    requires IsCell(k, c)
    ensures k.ChildPtrSize() < TrueSize(Parse(k, c)) <= |c| && Parse(k, c).nHeader <= TrueSize(Parse(k, c))
    ensures |c| == if TrueSize(Parse(k, c)) < 4 then 4 else TrueSize(Parse(k, c))
  {
  }

  /** The bytes `c` are a cell of kind k for the record: its image is the cell without child pointer and padding. */
  ghost predicate IsRec(k: Kind, rec: Rec, c: seq<Byte>) {
    && IsCell(k, c) && k.ChildPtrSize() <= TrueSize(Parse(k, c)) <= |c|
    && rec.image == c[k.ChildPtrSize()..TrueSize(Parse(k, c))]
    && (k.intKey ==> rec.key == Parse(k, c).nKey)
  }

  ghost predicate IsStored(k: Kind, rec: Rec) {
    exists c :: IsRec(k, rec, c)
  }

  /** The size that balancing computes is cellSizePtr of the bytes, and it is within the bounds. */
  lemma StoredOk(k: Kind, left: Pgno, rec: Rec, c: seq<Byte>)
    requires IsRec(k, rec, c) && (k.leaf ==> left == 0)
    ensures LevelOf(k).Size(Cell(left, rec)) == CellSize(k, c) && CellOk(LevelOf(k), k.usable, Cell(left, rec))
  {
    TrueSizeFits(k, c);
    SizeBounds(k, c);
  }

  /** The two kinds of index page read the same record behind the child pointer. */
  lemma Reread(u: nat, a: seq<Byte>, b: seq<Byte>)
    requires Kind(u, true, false).Valid() && |a| >= 4 && a[4..] == b
    ensures var up, down := Parse(Kind(u, false, false), a), Parse(Kind(u, true, false), b);
      && up.nPayload == down.nPayload && up.nHeader == down.nHeader + 4 && up.nLocal == down.nLocal
      && (up.iOverflow == 0 <==> down.iOverflow == 0)
      && TrueSize(up) == TrueSize(down) + 4
  {
    assert From(a, 4) == b && From(b, 0) == b;
  }

  function Zeros(n: nat): (z: seq<Byte>)
    ensures |z| == n
  {
    seq(n, _ => 0)
  }

  /** A divider of an index, moved down to a leaf, is a leaf cell. */
  lemma MovedDown(u: nat, rec: Rec, c: seq<Byte>)
    requires IsRec(Kind(u, false, false), rec, c)
    ensures IsStored(Kind(u, true, false), rec)
  {
    var k := Kind(u, true, false);
    var img := c[4..];
    TrueSizeFits(Kind(u, false, false), c);
    Reread(u, c, img);
    var c' := if |img| < 4 then img + Zeros(4 - |img|) else img;
    assert TrueSize(Parse(k, img)) == |img|;
    ParseLocal(k, img, c');
    assert c'[..|img|] == img;
    assert IsRec(k, rec, c');
  }

  /** A leaf cell of an index, moved up as a divider, is an interior cell. */
  lemma MovedUp(u: nat, rec: Rec, c: seq<Byte>)
    requires IsRec(Kind(u, true, false), rec, c)
    ensures IsStored(Kind(u, false, false), rec)
  {
    var k := Kind(u, true, false);
    TrueSizeFits(k, c);
    ParseLocal(k, c, rec.image);
    var c' := Zeros(4) + rec.image;
    assert c'[4..] == rec.image;
    Reread(u, c', rec.image);
    assert IsRec(Kind(u, false, false), rec, c');
  }

  /** The key alone, left in the parent by a leaf-data page, is an interior cell of a table. */
  lemma KeyUp(u: nat, rec: Rec, c: seq<Byte>)
    requires IsRec(Kind(u, true, true), rec, c)
    ensures IsStored(Kind(u, false, true), KeyRec(rec.key))
  {
    var k, v := Kind(u, false, true), rec.key % 0x1_0000_0000_0000_0000;
    var c' := Zeros(4) + Varint.Encode(v);
    assert c' == Zeros(4) + Varint.Encode(v) + [];
    Payload.DecodeAt(Zeros(4), v, []);
    Payload.SignedBack(rec.key);
    assert Parse(k, c').nHeader == |c'| && Parse(k, c').nPayload == 0;
    assert c'[4..] == Varint.Encode(v);
    assert IsRec(k, KeyRec(rec.key), c');
  }

  /** A row of pages of kind k whose cells and dividers are cells of the file format. */
  ghost predicate RowStored(k: Kind, r: Row) {
    && r.Valid()
    && (forall i, j | 0 <= i < |r.cells| && 0 <= j < |r.cells[i]| :: CellStored(k, r.cells[i][j]))
    && (forall i | 0 <= i < |r.divs| :: IsStored(ParentOf(k), r.divs[i]))
  }

  ghost predicate CellStored(k: Kind, c: Cell) {
    IsStored(k, c.rec) && (k.leaf ==> c.left == 0)
  }

  lemma CellStoredOk(k: Kind, c: Cell)
    requires CellStored(k, c)
    ensures k.Valid() && CellOk(LevelOf(k), k.usable, c)
  {
    var b :| IsRec(k, c.rec, b);
    StoredOk(k, c.left, c.rec, b);
  }

  /** A divider between pages that keep entries in the parent, as a cell of the level below. */
  lemma DividerStored(k: Kind, right: Pgno, d: Rec)
    requires IsStored(ParentOf(k), d) && !k.HasData()
    ensures CellStored(k, Cell(if k.leaf then 0 else right, d))
  {
    if k.leaf {
      var c :| IsRec(ParentOf(k), d, c);
      MovedDown(k.usable, d, c);
    }
  }

  /** The record left in the parent behind a page. */
  lemma NewDivider(k: Kind, c: Cell)
    requires CellStored(k, c)
    ensures IsStored(ParentOf(k), if k.HasData() then KeyRec(c.rec.key) else c.rec)
  {
    var b :| IsRec(k, c.rec, b);
    if k.HasData() {
      KeyUp(k.usable, c.rec, b);
    } else if k.leaf {
      MovedUp(k.usable, c.rec, b);
    }
  }

  /** What the balancing requires of cell sizes holds of every row of pages of the file format. */
  lemma RowStoredOk(k: Kind, r: Row)
    requires k.Valid() && RowStored(k, r)
    ensures RowOk(LevelOf(k), k.usable, r)
  {
    forall i, j | 0 <= i < |r.cells| && 0 <= j < |r.cells[i]| ensures CellOk(LevelOf(k), k.usable, r.cells[i][j]) {
      CellStoredOk(k, r.cells[i][j]);
    }
    forall i | 0 <= i < |r.divs| && !k.HasData()
      ensures CellOk(LevelOf(k), k.usable, Cell(if k.leaf then 0 else r.rights[i], r.divs[i]))
    {
      DividerStored(k, r.rights[i], r.divs[i]);
      CellStoredOk(k, Cell(if k.leaf then 0 else r.rights[i], r.divs[i]));
    }
  }

  ghost predicate AllStored(k: Kind, cs: seq<Cell>) {
    forall c | c in cs :: CellStored(k, c)
  }

  lemma AllStoredJoin(k: Kind, a: seq<Cell>, b: seq<Cell>, c: seq<Cell>)
    requires AllStored(k, a) && AllStored(k, b) && AllStored(k, c)
    ensures AllStored(k, a + b + c)
  {
  }

  lemma PageStored(k: Kind, r: Row, i: nat)
    requires RowStored(k, r) && i < |r.cells|
    ensures AllStored(k, r.cells[i])
  {
    forall c | c in r.cells[i] ensures CellStored(k, c) {
      var j :| 0 <= j < |r.cells[i]| && r.cells[i][j] == c;
      assert CellStored(k, r.cells[i][j]);
    }
  }

  lemma JointStored(k: Kind, r: Row, i: nat)
    requires RowStored(k, r) && i < |r.divs|
    ensures AllStored(k, Joint(LevelOf(k), r.rights[i], r.divs[i]))
  {
    if !k.HasData() {
      DividerStored(k, r.rights[i], r.divs[i]);
    }
  }

  lemma {:induction false} FlatStored(k: Kind, r: Row, lo: nat)
    requires RowStored(k, r) && lo <= |r.cells|
    ensures AllStored(k, Flat(LevelOf(k), r, lo, |r.cells|))
    decreases |r.cells| - lo
  {
    if lo < |r.cells| {
      FlatStored(k, r, lo + 1);
      PageStored(k, r, lo);
      var joint := if lo + 1 < |r.cells| then Joint(LevelOf(k), r.rights[lo], r.divs[lo]) else [];
      if lo + 1 < |r.cells| {
        JointStored(k, r, lo);
      }
      AllStoredJoin(k, r.cells[lo], joint, Flat(LevelOf(k), r, lo + 1, |r.cells|));
    }
  }

  /** Cutting the cells of such a row anew gives such a row again. */
  lemma CutStored(k: Kind, ap: seq<Cell>, cnt: seq<nat>, lastRight: Pgno, q: Row)
    requires AllStored(k, ap) && IsCut(LevelOf(k), ap, cnt, lastRight, q)
    ensures RowStored(k, q)
  {
    forall i, j | 0 <= i < |q.cells| && 0 <= j < |q.cells[i]| ensures CellStored(k, q.cells[i][j]) {
      assert CutPage(LevelOf(k), ap, cnt, i, q.cells[i]);
    }
    forall i | 0 <= i < |q.divs| ensures IsStored(ParentOf(k), q.divs[i]) {
      assert CutAt(LevelOf(k), ap, cnt[i], q.divs[i], q.rights[i]);
      NewDivider(k, if k.HasData() then ap[cnt[i] - 1] else ap[cnt[i]]);
    }
  }

  /** So one balance after the other meets its bounds. */
  lemma BalancedStored(k: Kind, r: Row, cnt: seq<nat>, lastRight: Pgno, q: Row)
    requires k.Valid() && RowStored(k, r) && IsCut(LevelOf(k), Flat(LevelOf(k), r, 0, |r.cells|), cnt, lastRight, q)
    ensures RowOk(LevelOf(k), k.usable, r) && RowStored(k, q) && RowOk(LevelOf(k), k.usable, q)
  {
    RowStoredOk(k, r);
    FlatStored(k, r, 0);
    CutStored(k, Flat(LevelOf(k), r, 0, |r.cells|), cnt, lastRight, q);
    RowStoredOk(k, q);
  }
}
