/** balance_nonroot: redistribute the cells of up to three sibling pages. */
module Balance {
  import opened Bytes
  import opened BalancePack
  import Varint

  type Pgno = nat

  /** A cell without its child pointer: its key and its byte image. */
  datatype Rec = Rec(key: int, image: seq<Byte>)

  /** A cell; `left` is the left child, 0 on a leaf. */
  datatype Cell = Cell(left: Pgno, rec: Rec)

  /** A page: stored cells, overflow cells with the index each had when it was inserted, right child. */
  datatype Page = Page(stored: seq<Cell>, ovfl: seq<(nat, Cell)>, right: Pgno)
  {
    ghost predicate Valid() {
      forall i | 0 <= i < |ovfl| :: ovfl[i].0 <= |stored| + i
    }
    /** All cells in order, the overflow cells in their places. */
    ghost function Cells(): (cs: seq<Cell>)
      requires Valid()
      ensures |cs| == |stored| + |ovfl|
    {
      Combined(stored, ovfl, |ovfl|)
    }
  }

  /** The stored cells with the first n overflow cells inserted one after the other. */
  ghost function Combined(stored: seq<Cell>, ovfl: seq<(nat, Cell)>, n: nat): (cs: seq<Cell>)
    requires n <= |ovfl| && forall i | 0 <= i < |ovfl| :: ovfl[i].0 <= |stored| + i
    ensures |cs| == |stored| + n
  {
    if n == 0 then stored
    else
      var cs := Combined(stored, ovfl, n - 1);
      var k := ovfl[n - 1].0;
      cs[..k] + [ovfl[n - 1].1] + cs[k..]
  }

  /** findOverflowCell: cell number iCell of a page that has overflow cells. */
  method FindOverflowCell(p: Page, iCell: nat) returns (c: Cell)
    requires p.Valid() && iCell < |p.stored| + |p.ovfl|
    ensures c == p.Cells()[iCell]
  {
    var i, j := |p.ovfl|, iCell;
    while i > 0
      invariant 0 <= i <= |p.ovfl| && 0 <= j < |p.stored| + i
      invariant Combined(p.stored, p.ovfl, i)[j] == p.Cells()[iCell]
    {
      var k := p.ovfl[i - 1].0;
      if k <= j {
        if k == j {
          return p.ovfl[i - 1].1;
        }
        j := j - 1;
      }
      i := i - 1;
    }
    return p.stored[j];
  }

  /** Which kind of siblings is being balanced. */
  datatype Level = Level(leaf: bool, leafData: bool)
  {
    predicate Valid() {
      leafData ==> leaf
    }
    /** Bytes a cell takes on such a page: at least four on a leaf, plus a child pointer elsewhere. */
    function Size(c: Cell): (n: nat) {
      if !leaf then 4 + |c.rec.image| else if |c.rec.image| < 4 then 4 else |c.rec.image|
    }
    /** usableSpace of balance_nonroot. */
    function Capacity(usable: nat): (n: nat)
      requires usable >= 12
    {
      usable - 12 + if leaf then 4 else 0
    }
  }

  /** What lies between two neighbouring pages: nothing when the leaves hold the data; otherwise the divider
      entry, whose left child is the right child of the page before it. */
  ghost function Joint(lv: Level, right: Pgno, d: Rec): (cs: seq<Cell>) {
    if lv.leafData then [] else [Cell(if lv.leaf then 0 else right, d)]
  }

  /** A run of neighbouring pages, seen as their cells and right children, with the dividers between them. */
  datatype Row = Row(cells: seq<seq<Cell>>, rights: seq<Pgno>, divs: seq<Rec>)
  {
    ghost predicate Valid() {
      |cells| == |rights| == |divs| + 1
    }
  }

  /** The left-to-right sequence of entries and child pointers on pages lo..hi-1, including the joint behind each
      page that is not the last of the row. */
  ghost function Flat(lv: Level, r: Row, lo: nat, hi: nat): (cs: seq<Cell>)
    requires r.Valid() && lo <= hi <= |r.cells|
    decreases hi - lo
  {
    if lo == hi then []
    else
      r.cells[lo] + (if lo + 1 < |r.cells| then Joint(lv, r.rights[lo], r.divs[lo]) else [])
      + Flat(lv, r, lo + 1, hi)
  }

  lemma {:induction false} FlatSplit(lv: Level, r: Row, lo: nat, mid: nat, hi: nat)
    requires r.Valid() && lo <= mid <= hi <= |r.cells|
    ensures Flat(lv, r, lo, hi) == Flat(lv, r, lo, mid) + Flat(lv, r, mid, hi)
    decreases mid - lo
  {
    if lo < mid {
      FlatSplit(lv, r, lo + 1, mid, hi);
    }
  }

  /** Page `i` of one row is page i+k of the other, and a joint follows both or neither. */
  ghost predicate SamePlace(r: Row, i: nat, r': Row, k: int)
    requires r.Valid() && r'.Valid() && i < |r.cells| && 0 <= i + k < |r'.cells|
  {
    && r.cells[i] == r'.cells[i + k] && r.rights[i] == r'.rights[i + k]
    && (i + 1 < |r.cells| <==> i + k + 1 < |r'.cells|)
    && (i + 1 < |r.cells| ==> r.divs[i] == r'.divs[i + k])
  }

  /** Two rows that agree on a range of pages read the same there. */
  lemma {:induction false} FlatShift(lv: Level, r: Row, lo: nat, hi: nat, r': Row, k: int)
    requires r.Valid() && r'.Valid() && lo <= hi <= |r.cells| && 0 <= lo + k && hi + k <= |r'.cells|
    requires forall i | lo <= i < hi :: SamePlace(r, i, r', k)
    ensures Flat(lv, r, lo, hi) == Flat(lv, r', lo + k, hi + k)
    decreases hi - lo
  {
    if lo < hi {
      assert SamePlace(r, lo, r', k);
      FlatShift(lv, r, lo + 1, hi, r', k);
    }
  }

  // ---------------------------------------------------------------- loading the cells

  /** The loading loop of balance_nonroot: all cells of the siblings, with the dividers between them where the
      parent keeps entries, and the size of each. */
  method LoadCells(lv: Level, olds: seq<Page>, divs: seq<Rec>, ghost row: Row) returns (ap: seq<Cell>, sz: seq<nat>)
    requires lv.Valid() && |olds| == |divs| + 1 && forall i | 0 <= i < |olds| :: olds[i].Valid()
    requires row.Valid() && row.divs == divs && |row.cells| == |olds|
    requires forall i | 0 <= i < |olds| :: row.cells[i] == olds[i].Cells() && row.rights[i] == olds[i].right
    ensures ap == Flat(lv, row, 0, |olds|)
    ensures |sz| == |ap| && forall j | 0 <= j < |ap| :: sz[j] == lv.Size(ap[j])
  {
    ap, sz := [], [];
    for i := 0 to |olds|
      invariant ap == Flat(lv, row, 0, i)
      invariant |sz| == |ap| && forall j | 0 <= j < |ap| :: sz[j] == lv.Size(ap[j])
    {
      FlatSplit(lv, row, 0, i, i + 1);
      ghost var before := ap;
      var limit := |olds[i].stored| + |olds[i].ovfl|;
      for j := 0 to limit
        invariant ap == before + olds[i].Cells()[..j]
        invariant |sz| == |ap| && forall j | 0 <= j < |ap| :: sz[j] == lv.Size(ap[j])
      {
        var c := FindOverflowCell(olds[i], j);
        ap, sz := ap + [c], sz + [lv.Size(c)];
      }
      assert ap == before + row.cells[i];
      if i < |olds| - 1 && !lv.leafData {
        var d := Cell(if lv.leaf then 0 else olds[i].right, divs[i]);
        ap, sz := ap + [d], sz + [lv.Size(d)];
      }
      assert Flat(lv, row, i, i + 1) == row.cells[i]
        + (if i + 1 < |olds| then Joint(lv, olds[i].right, divs[i]) else []) + Flat(lv, row, i + 1, i + 1);
    }
  }

  // ---------------------------------------------------------------- replacing part of a row

  /** A part of a row read on its own lacks only the joint behind its last page. */
  lemma FlatPart(lv: Level, r: Row, a: nat, b: nat, q: Row)
    requires r.Valid() && q.Valid() && a < b <= |r.cells| && |q.cells| == b - a
    requires forall i | 0 <= i < b - a :: q.cells[i] == r.cells[a + i] && q.rights[i] == r.rights[a + i]
    requires forall i | 0 <= i < b - a - 1 :: q.divs[i] == r.divs[a + i]
    ensures Flat(lv, r, a, b) == Flat(lv, q, 0, b - a)
      + if b < |r.cells| then Joint(lv, r.rights[b - 1], r.divs[b - 1]) else []
  {
    FlatSplit(lv, r, a, b - 1, b);
    FlatSplit(lv, q, 0, b - a - 1, b - a);
    forall i | 0 <= i < b - a - 1 ensures SamePlace(q, i, r, a) {
    }
    FlatShift(lv, q, 0, b - a - 1, r, a);
    assert Flat(lv, r, b, b) == [] && Flat(lv, q, b - a, b - a) == [];
    assert q.cells[b - a - 1] == r.cells[b - 1];
  }

  /** `r'` is `r` with pages a..b-1 and the dividers between them replaced by the row q; pages behind move by k. */
  ghost predicate Replaced(r: Row, a: nat, b: nat, q: Row, r': Row, k: int)
    requires r.Valid() && q.Valid() && a < b <= |r.cells|
  {
    var m := |q.cells|;
    && r'.Valid() && k == a + m - b && |r'.cells| == |r.cells| + k
    && (forall i | 0 <= i < a :: SamePlace(r, i, r', 0))
    && (forall i | b <= i < |r.cells| :: SamePlace(r, i, r', k))
    && (forall i | 0 <= i < m :: q.cells[i] == r'.cells[a + i] && q.rights[i] == r'.rights[a + i])
    && (forall i | 0 <= i < m - 1 :: q.divs[i] == r'.divs[a + i])
    && (b < |r.cells| ==> r'.divs[a + m - 1] == r.divs[b - 1])
  }

  ghost function Behind(lv: Level, r: Row, b: nat): (cs: seq<Cell>)
    requires r.Valid() && 0 < b <= |r.cells|
  {
    if b < |r.cells| then Joint(lv, r.rights[b - 1], r.divs[b - 1]) else []
  }

  lemma FlatThree(lv: Level, r: Row, a: nat, b: nat, q: Row)
    requires r.Valid() && q.Valid() && a < b <= |r.cells| && |q.cells| == b - a
    requires forall i | 0 <= i < b - a :: q.cells[i] == r.cells[a + i] && q.rights[i] == r.rights[a + i]
    requires forall i | 0 <= i < b - a - 1 :: q.divs[i] == r.divs[a + i]
    ensures Flat(lv, r, 0, |r.cells|) == Flat(lv, r, 0, a)
      + ((Flat(lv, q, 0, b - a) + Behind(lv, r, b)) + Flat(lv, r, b, |r.cells|))
  {
    FlatSplit(lv, r, 0, a, |r.cells|);
    FlatSplit(lv, r, a, b, |r.cells|);
    FlatPart(lv, r, a, b, q);
  }

  /** Replacing pages a..b-1 by pages that read the same and end with the same right child changes nothing. */
  lemma FlatReplaced(lv: Level, r: Row, a: nat, b: nat, old': Row, q: Row, r': Row, k: int)
    requires r.Valid() && q.Valid() && old'.Valid() && a < b <= |r.cells| && Replaced(r, a, b, q, r', k)
    requires |old'.cells| == b - a
    requires forall i | 0 <= i < b - a :: old'.cells[i] == r.cells[a + i] && old'.rights[i] == r.rights[a + i]
    requires forall i | 0 <= i < b - a - 1 :: old'.divs[i] == r.divs[a + i]
    requires Flat(lv, q, 0, |q.cells|) == Flat(lv, old', 0, b - a)
    requires q.rights[|q.cells| - 1] == r.rights[b - 1]
    ensures Flat(lv, r', 0, |r'.cells|) == Flat(lv, r, 0, |r.cells|)
  {
    FlatThree(lv, r, a, b, old');
    FlatThree(lv, r', a, a + |q.cells|, q);
    FlatShift(lv, r, 0, a, r', 0);
    FlatShift(lv, r, b, |r.cells|, r', k);
    assert r'.rights[a + (|q.cells| - 1)] == q.rights[|q.cells| - 1];
    assert Behind(lv, r', a + |q.cells|) == Behind(lv, r, b);
  }

  // ---------------------------------------------------------------- distributing the cells

  /** The divider that a leaf-data page leaves in the parent: the key alone. */
  function KeyRec(key: int): (r: Rec) {
    Rec(key, Varint.Encode(key % 0x1_0000_0000_0000_0000))
  }

  /** Page `i` holds the cells between its two boundaries. */
  ghost predicate CutPage(lv: Level, ap: seq<Cell>, cnt: seq<nat>, i: nat, cells: seq<Cell>)
    requires i < |cnt|
  {
    var s := Start(lv.leafData, cnt, i);
    s <= cnt[i] <= |ap| && cells == ap[s..cnt[i]]
  }

  /** Behind a page that ends before cell c: the divider and, on interior pages, the right child taken from it. */
  ghost predicate CutAt(lv: Level, ap: seq<Cell>, c: nat, div: Rec, right: Pgno)
  {
    && (lv.leaf ==> right == 0)
    && if lv.leafData then 0 < c <= |ap| && div == KeyRec(ap[c - 1].rec.key)
       else c < |ap| && div == ap[c].rec && (!lv.leaf ==> right == ap[c].left)
  }

  /** The cells cut into pages at the boundaries `cnt`. */
  ghost predicate IsCut(lv: Level, ap: seq<Cell>, cnt: seq<nat>, lastRight: Pgno, r: Row)
  {
    && r.Valid() && |r.cells| == |cnt| > 0 && cnt[|cnt| - 1] == |ap|
    && (forall i {:trigger r.cells[i]} | 0 <= i < |cnt| :: CutPage(lv, ap, cnt, i, r.cells[i]))
    && (forall i {:trigger r.divs[i]} | 0 <= i < |cnt| - 1 :: CutAt(lv, ap, cnt[i], r.divs[i], r.rights[i]))
    && r.rights[|cnt| - 1] == lastRight
  }

  lemma Rejoin<T>(s: seq<T>, lo: nat, mid: nat, joint: seq<T>, hi: nat)
    requires lo <= mid <= hi <= |s|
    requires joint == s[mid..hi]
    ensures s[lo..mid] + joint + s[hi..] == s[lo..]
  {
  }

  /** Behind a page comes exactly what separates it from the next one. */
  lemma CutJoint(lv: Level, ap: seq<Cell>, cnt: seq<nat>, r: Row, i: nat)
    requires lv.Valid() && r.Valid() && |r.cells| == |cnt| && i < |cnt| - 1
    requires lv.leaf ==> forall j | 0 <= j < |ap| :: ap[j].left == 0
    requires CutAt(lv, ap, cnt[i], r.divs[i], r.rights[i])
    ensures cnt[i] <= Start(lv.leafData, cnt, i + 1) <= |ap|
    ensures Joint(lv, r.rights[i], r.divs[i]) == ap[cnt[i]..Start(lv.leafData, cnt, i + 1)]
  {
    if !lv.leafData {
      assert ap[cnt[i]].left == 0 || !lv.leaf;
    }
  }

  /** Reading the new pages from left to right gives back the cells. */
  lemma {:induction false} FlatCut(lv: Level, ap: seq<Cell>, cnt: seq<nat>, lastRight: Pgno, r: Row, i: nat)
    requires lv.Valid() && IsCut(lv, ap, cnt, lastRight, r) && i < |cnt|
    requires lv.leaf ==> forall j | 0 <= j < |ap| :: ap[j].left == 0
    ensures Start(lv.leafData, cnt, i) <= |ap| && Flat(lv, r, i, |cnt|) == ap[Start(lv.leafData, cnt, i)..]
    decreases |cnt| - i
  {
    assert CutPage(lv, ap, cnt, i, r.cells[i]);
    var s, e := Start(lv.leafData, cnt, i), cnt[i];
    if i == |cnt| - 1 {
      assert Flat(lv, r, i + 1, |cnt|) == [];
    } else {
      assert CutAt(lv, ap, cnt[i], r.divs[i], r.rights[i]);
      FlatCut(lv, ap, cnt, lastRight, r, i + 1);
      CutJoint(lv, ap, cnt, r, i);
      Rejoin(ap, s, e, Joint(lv, r.rights[i], r.divs[i]), Start(lv.leafData, cnt, i + 1));
    }
  }

  // ---------------------------------------------------------------- how full pages are

  /** Bytes that cells and their pointers take. */
  function PageBytes(lv: Level, cs: seq<Cell>): (n: nat) {
    if cs == [] then 0 else PageBytes(lv, cs[..|cs| - 1]) + lv.Size(cs[|cs| - 1]) + 2
  }

  lemma {:induction false} BytesSplit(lv: Level, cs: seq<Cell>, ds: seq<Cell>)
    ensures PageBytes(lv, cs + ds) == PageBytes(lv, cs) + PageBytes(lv, ds)
    decreases |ds|
  {
    if ds == [] {
      assert cs + ds == cs;
    } else {
      BytesSplit(lv, cs, ds[..|ds| - 1]);
      assert (cs + ds)[..|cs + ds| - 1] == cs + ds[..|ds| - 1];
    }
  }

  lemma OneMore(lv: Level, cs: seq<Cell>, c: Cell, ds: seq<Cell>)
    ensures PageBytes(lv, cs + [c] + ds) == PageBytes(lv, cs + ds) + lv.Size(c) + 2
  {
    BytesSplit(lv, cs + [c], ds);
    BytesSplit(lv, cs, [c]);
    BytesSplit(lv, cs, ds);
    assert PageBytes(lv, [c]) == PageBytes(lv, []) + lv.Size(c) + 2;
  }

  /** The level of pages that have children. */
  function Interior(): (lv: Level) {
    Level(false, false)
  }

  /** Another child pointer does not change the size. */
  lemma BytesOfOther(lv: Level, cs: seq<Cell>, i: nat, left: Pgno)
    requires i < |cs|
    ensures PageBytes(lv, cs[i := Cell(left, cs[i].rec)]) == PageBytes(lv, cs)
  {
    var c := Cell(left, cs[i].rec);
    assert cs == cs[..i] + [cs[i]] + cs[i + 1..] && cs[i := c] == cs[..i] + [c] + cs[i + 1..];
    OneMore(lv, cs[..i], cs[i], cs[i + 1..]);
    OneMore(lv, cs[..i], c, cs[i + 1..]);
  }

  /** Cells taken out of the middle. */
  lemma BytesLess(lv: Level, cs: seq<Cell>, a: nat, b: nat)
    requires a <= b <= |cs|
    ensures PageBytes(lv, cs[..a] + cs[b..]) <= PageBytes(lv, cs)
  {
    assert cs == cs[..a] + cs[a..b] + cs[b..];
    BytesSplit(lv, cs[..a] + cs[a..b], cs[b..]);
    BytesSplit(lv, cs[..a], cs[a..b]);
    BytesSplit(lv, cs[..a], cs[b..]);
  }
}
