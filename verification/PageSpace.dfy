/** The page-space allocator of btree.c: a b-tree page as a byte array whose pointer array, cells,
    freeblock chain and fragment counter are edited in place. */
module PageSpace {
  import opened Bytes
  import opened CellFormat
  import opened PageLayout

  datatype Rc = Ok | Corrupt

  /** Entry `i` of the cell pointer array. */
  function Ptr(g: Geom, d: seq<Byte>, i: nat): (p: nat)
    requires g.CellOffset() + 2 * i + 1 < |d|
  {
    Get2(d, g.CellOffset() + 2 * i)
  }

  /** The pointer array lists the live extents, and each holds exactly the bytes of one cell. */
  ghost predicate Slots(g: Geom, d: seq<Byte>, cells: seq<Ext>, contents: seq<seq<Byte>>)
  {
    && |contents| == |cells|
    && g.CellOffset() + 2 * |cells| <= |d| && Within(cells, 0, |d|)
    && forall i | 0 <= i < |cells| :: Slot(g, d, cells, contents, i)
  }

  ghost predicate Slot(g: Geom, d: seq<Byte>, cells: seq<Ext>, contents: seq<seq<Byte>>, i: nat)
    requires i < |cells| == |contents|
    requires g.CellOffset() + 2 * |cells| <= |d| && Within(cells, 0, |d|)
  {
    && Ptr(g, d, i) == cells[i].at
    && d[cells[i].at..cells[i].End()] == contents[i]
    && IsCell(g.kind, contents[i])
  }

  lemma SlotsKept(g: Geom, d: seq<Byte>, d': seq<Byte>, limit: nat, cells: seq<Ext>, contents: seq<seq<Byte>>)
    requires Slots(g, d, cells, contents) && Keeps(g, d, d', limit, cells)
    requires g.CellOffset() + 2 * |cells| <= limit
    ensures Slots(g, d', cells, contents)
  {
    forall i | 0 <= i < |cells| ensures Slot(g, d', cells, contents, i) {
      assert Slot(g, d, cells, contents, i);
      assert d'[cells[i].at..cells[i].End()] == d[cells[i].at..cells[i].End()];
    }
  }

  ghost function Without<T>(s: seq<T>, k: nat): (r: seq<T>)
    requires k < |s|
  {
    s[..k] + s[k + 1..]
  }

  /** What cellSizePtr reads at a live cell is the length of that cell. */
  lemma SlotSize(g: Geom, d: seq<Byte>, cells: seq<Ext>, contents: seq<seq<Byte>>, i: nat, hi: nat)
    requires g.Valid() && Slots(g, d, cells, contents) && i < |cells|
    requires cells[i].End() <= hi <= |d|
    ensures CellSize(g.kind, d[cells[i].at..hi]) == cells[i].len == |contents[i]|
  {
    assert Slot(g, d, cells, contents, i);
    var c := d[cells[i].at..hi];
    assert forall x | 0 <= x < |contents[i]| :: contents[i][x] == c[x];
    CellSizeInContext(g.kind, contents[i], c);
  }

  /** Bytes that a sequence of cells and their pointers need. */
  function Used(contents: seq<seq<Byte>>): (n: nat)
  {
    if contents == [] then 0 else |contents[0]| + 2 + Used(contents[1..])
  }

  lemma {:induction false} UsedIsSum(cells: seq<Ext>, contents: seq<seq<Byte>>, k: nat)
    requires |cells| == |contents| && k <= |cells| && forall i | 0 <= i < |cells| :: cells[i].len == |contents[i]|
    ensures Used(contents[k..]) == SumOf(cells, k, |cells|) + 2 * (|cells| - k)
    decreases |cells| - k
  {
    if k < |cells| {
      assert contents[k..][1..] == contents[k + 1..];
      UsedIsSum(cells, contents, k + 1);
    }
  }

  lemma {:induction false} UsedSuffix(cs: seq<seq<Byte>>, i: nat)
    requires i < |cs|
    ensures Used(cs[i..]) == |cs[i]| + 2 + Used(cs[i + 1..])
    ensures Used(cs[i..]) - 2 * (|cs| - i) <= Used(cs) - 2 * |cs|
  {
    assert cs[i..][1..] == cs[i + 1..];
    if i > 0 {
      UsedSuffix(cs, i - 1);
    } else {
      assert cs[0..] == cs;
    }
  }

  lemma {:induction false} UsedAtLeast(cs: seq<seq<Byte>>)
    ensures 2 * |cs| <= Used(cs)
  {
    if cs != [] {
      UsedAtLeast(cs[1..]);
    }
  }

  // ---------------------------------------------------------------- defragmentation

  /** The first `i` cells have been moved to the end of the page; the other pointers are untouched. */
  ghost predicate Defragged(g: Geom, d: seq<Byte>, cells: seq<Ext>, contents: seq<seq<Byte>>, moved: seq<Ext>,
                            cbrk: nat)
  {
    && |moved| <= |cells| == |contents|
    && g.CellOffset() + 2 * |cells| <= cbrk <= g.Usable() <= |d|
    && Layout(cbrk, g.Usable(), [], moved) && Sum(moved) == g.Usable() - cbrk
    && Slots(g, d, moved, contents[..|moved|])
    && forall j | |moved| <= j < |cells| :: Ptr(g, d, j) == cells[j].at
  }

  /** Store cell number i at `at` and point slot i there. */
  ghost function PlacedBytes(g: Geom, d: seq<Byte>, i: nat, at: nat, c: seq<Byte>): (d': seq<Byte>)
    requires at + |c| <= |d| && g.CellOffset() + 2 * i + 1 < |d|
  {
    Set2(Splice(d, at, c), g.CellOffset() + 2 * i, at)
  }

  lemma PlacedBytesRead(g: Geom, d: seq<Byte>, i: nat, at: nat, c: seq<Byte>)
    requires g.CellOffset() + 2 * i + 2 <= at < 0x1_0000 && at + |c| <= |d|
    ensures var d' := PlacedBytes(g, d, i, at, c);
      && SameExcept(d, d', Ext(at, |c|), Ext(g.CellOffset() + 2 * i, 2))
      && d'[at..at + |c|] == c && Ptr(g, d', i) == at
  {
    var d1 := Splice(d, at, c);
    var d' := PlacedBytes(g, d, i, at, c);
    assert forall x | at <= x < at + |c| :: d'[x] == d1[x];
    assert d'[at..at + |c|] == d1[at..at + |c|];
  }

  /** A slot whose pointer and cell bytes read the same is still a correct slot. */
  lemma SlotMoved(g: Geom, d: seq<Byte>, d': seq<Byte>, cells: seq<Ext>, contents: seq<seq<Byte>>, i: nat,
                  cells': seq<Ext>, contents': seq<seq<Byte>>, i': nat)
    requires Slots(g, d, cells, contents) && i < |cells|
    requires |contents'| == |cells'| && i' < |cells'| && |d'| == |d|
    requires g.CellOffset() + 2 * |cells'| <= |d'| && Within(cells', 0, |d'|)
    requires cells'[i'] == cells[i] && contents'[i'] == contents[i]
    requires Ptr(g, d', i') == Ptr(g, d, i)
    requires forall x | cells[i].at <= x < cells[i].End() :: d'[x] == d[x]
    ensures Slot(g, d', cells', contents', i')
  {
    assert Slot(g, d, cells, contents, i);
    assert d'[cells[i].at..cells[i].End()] == d[cells[i].at..cells[i].End()];
  }

  lemma DefragSlots(g: Geom, d: seq<Byte>, d': seq<Byte>, cells: seq<Ext>, contents: seq<seq<Byte>>, moved: seq<Ext>,
                    cbrk: nat, at: nat)
    requires Defragged(g, d, cells, contents, moved, cbrk) && |moved| < |cells|
    requires var c := contents[|moved|];
      && IsCell(g.kind, c) && |c| >= 4
      && g.CellOffset() + 2 * |cells| <= at && at + |c| == cbrk
      && SameExcept(d, d', Ext(at, |c|), Ext(g.CellOffset() + 2 * |moved|, 2))
      && d'[at..at + |c|] == c && Ptr(g, d', |moved|) == at
    ensures Slots(g, d', moved + [Ext(at, |contents[|moved|]|)], contents[..|moved| + 1])
  {
    var i := |moved|;
    var moved', contents' := moved + [Ext(at, |contents[i]|)], contents[..i + 1];
    assert Within(moved', 0, |d'|);
    NewSlot(g, d', moved', contents', i, at, contents[i]);
    forall j | 0 <= j < i ensures Slot(g, d', moved', contents', j) {
      assert cbrk <= moved[j].at;
      SlotStays(g, d, d', moved, contents[..i], j, moved', contents', cbrk, at, |contents[i]|, i);
    }
  }

  /** A slot before those moved, whose cell lies behind. */
  lemma SlotStays(g: Geom, d: seq<Byte>, d': seq<Byte>, cells: seq<Ext>, contents: seq<seq<Byte>>, j: nat,
                  cells': seq<Ext>, contents': seq<seq<Byte>>, cbrk: nat, at: nat, n: nat, i: nat)
    requires Slots(g, d, cells, contents) && j < |cells| == i && cbrk <= cells[j].at && at + n == cbrk
    requires |contents'| == |cells'| == i + 1 && cells'[j] == cells[j] && contents'[j] == contents[j]
    requires SameExcept(d, d', Ext(at, n), Ext(g.CellOffset() + 2 * i, 2)) && g.CellOffset() + 2 * i + 2 <= at
    requires Within(cells', 0, |d'|)
    ensures Slot(g, d', cells', contents', j)
  {
    SlotMoved(g, d, d', cells, contents, j, cells', contents', j);
  }

  lemma DefragTail(g: Geom, d: seq<Byte>, d': seq<Byte>, cells: seq<Ext>, i: nat, at: nat, n: nat)
    requires i < |cells| && g.CellOffset() + 2 * |cells| <= at && at + n <= |d|
    requires SameExcept(d, d', Ext(at, n), Ext(g.CellOffset() + 2 * i, 2))
    requires forall j | i <= j < |cells| :: Ptr(g, d, j) == cells[j].at
    ensures forall j | i < j < |cells| :: Ptr(g, d', j) == cells[j].at
    ensures forall x | 0 <= x < g.CellOffset() :: d'[x] == d[x]
  {
    forall j | i < j < |cells| ensures Ptr(g, d', j) == cells[j].at {
      assert Ptr(g, d, j) == cells[j].at;
    }
  }

  lemma DefragStep(g: Geom, d: seq<Byte>, cells: seq<Ext>, contents: seq<seq<Byte>>, moved: seq<Ext>, cbrk: nat,
                   at: nat)
    requires Defragged(g, d, cells, contents, moved, cbrk) && |moved| < |cells|
    requires var c := contents[|moved|];
      && IsCell(g.kind, c) && |c| >= 4
      && g.CellOffset() + 2 * |cells| <= at < 0x1_0000 && at + |c| == cbrk
    ensures var c := contents[|moved|];
      var d' := PlacedBytes(g, d, |moved|, at, c);
      && Defragged(g, d', cells, contents, moved + [Ext(at, |c|)], at)
      && forall x | 0 <= x < g.CellOffset() :: d'[x] == d[x]
  {
    var c := contents[|moved|];
    PlacedBytesRead(g, d, |moved|, at, c);
    var d' := PlacedBytes(g, d, |moved|, at, c);
    DefragSlots(g, d, d', cells, contents, moved, cbrk, at);
    DefragTail(g, d, d', cells, |moved|, at, |c|);
    GapLayout(cbrk, g.Usable(), [], moved, |c|);
    SumAppend(moved, Ext(at, |c|));
  }

  /** The header stores that end defragmentation: no freeblocks, no fragments, a cleared gap. */
  ghost function ClearedBytes(g: Geom, d: seq<Byte>, first: nat, cbrk: nat): (d': seq<Byte>)
    requires g.hdr + 8 <= first <= cbrk <= |d|
  {
    Splice(Set2(d, g.hdr + 5, cbrk)[g.hdr + 1 := 0][g.hdr + 2 := 0][g.hdr + 7 := 0], first, seq(cbrk - first, _ => 0))
  }

  lemma ClearedBytesRead(g: Geom, d: seq<Byte>, first: nat, cbrk: nat)
    requires g.hdr + 8 <= first <= cbrk <= |d| && cbrk <= 0x1_0000
    ensures var d' := ClearedBytes(g, d, first, cbrk);
      && |d'| == |d|
      && Get2(d', g.hdr + 5) == cbrk % 0x1_0000 && Get2(d', g.hdr + 1) == 0 && d'[g.hdr + 7] == 0
      && (forall x | 0 <= x < |d| && !(g.hdr + 1 <= x < g.hdr + 3) && !(g.hdr + 5 <= x < g.hdr + 8)
        && !(first <= x < cbrk) :: d'[x] == d[x])
  {
  }

  lemma DefragSpace(g: Geom, d: seq<Byte>, first: nat, moved: seq<Ext>, cbrk: nat)
    requires g.Valid() && g.hdr + 8 <= first <= cbrk <= g.Usable() <= |d|
    requires Layout(cbrk, g.Usable(), [], moved) && Sum(moved) == g.Usable() - cbrk
    requires Get2(d, g.hdr + 5) == cbrk % 0x1_0000 && Get2(d, g.hdr + 1) == 0 && d[g.hdr + 7] == 0
    ensures Space(g, d, first, [], moved) && Top(g, d) == cbrk && Frag(g, d) == 0
  {
    assert Linked(g, d, [], 0);
  }

  lemma DefragDone(g: Geom, d: seq<Byte>, cells: seq<Ext>, contents: seq<seq<Byte>>, moved: seq<Ext>, cbrk: nat,
                   first: nat)
    requires g.Valid() && Defragged(g, d, cells, contents, moved, cbrk) && |moved| == |cells|
    requires first == g.CellOffset() + 2 * |cells|
    ensures Space(g, ClearedBytes(g, d, first, cbrk), first, [], moved)
    ensures Slots(g, ClearedBytes(g, d, first, cbrk), moved, contents)
    ensures Top(g, ClearedBytes(g, d, first, cbrk)) == cbrk && Frag(g, ClearedBytes(g, d, first, cbrk)) == 0
    ensures Get2(ClearedBytes(g, d, first, cbrk), g.hdr + 3) == Get2(d, g.hdr + 3)
  {
    var d' := ClearedBytes(g, d, first, cbrk);
    ClearedBytesRead(g, d, first, cbrk);
    DefragSpace(g, d', first, moved, cbrk);
    assert contents[..|moved|] == contents;
    forall j | 0 <= j < |moved| ensures Slot(g, d', moved, contents, j) {
      assert cbrk <= moved[j].at;
      SlotMoved(g, d, d', moved, contents, j, moved, contents, j);
    }
  }

  /** Everything the page bytes show about live cell `i`. */
  lemma CellFacts(g: Geom, d: seq<Byte>, limit: nat, fs: seq<Ext>, cells: seq<Ext>, contents: seq<seq<Byte>>, i: nat)
    requires Space(g, d, limit, fs, cells) && Slots(g, d, cells, contents) && i < |cells|
    ensures Ptr(g, d, i) == cells[i].at
    ensures limit <= Top(g, d) <= cells[i].at <= g.Usable() - 4 && cells[i].End() <= g.Usable()
    ensures cells[i].len == |contents[i]| >= 4 && IsCell(g.kind, contents[i])
    ensures d[cells[i].at..cells[i].End()] == contents[i]
    ensures CellSize(g.kind, d[cells[i].at..g.Usable()]) == |contents[i]|
  {
    SlotSize(g, d, cells, contents, i, g.Usable());
    assert Slot(g, d, cells, contents, i);
  }

  lemma DefragStart(g: Geom, d: seq<Byte>, limit: nat, fs: seq<Ext>, cells: seq<Ext>, contents: seq<seq<Byte>>)
    requires Space(g, d, limit, fs, cells) && Slots(g, d, cells, contents) && limit == g.CellOffset() + 2 * |cells|
    ensures Defragged(g, d, cells, contents, [], g.Usable())
  {
    forall j | 0 <= j < |cells| ensures Ptr(g, d, j) == cells[j].at {
      assert Slot(g, d, cells, contents, j);
    }
  }

  /** The cells of a page fit behind its pointer array. */
  lemma CellsFit(g: Geom, d: seq<Byte>, limit: nat, fs: seq<Ext>, cells: seq<Ext>)
    requires Space(g, d, limit, fs, cells)
    ensures Sum(cells) <= g.Usable() - limit
  {
  }

  lemma SumPrefix(es: seq<Ext>, i: nat)
    requires i < |es|
    ensures SumOf(es, 0, i + 1) == SumOf(es, 0, i) + es[i].len
    ensures SumOf(es, 0, i + 1) <= Sum(es)
  {
    SumSplit(es, 0, i, i + 1);
    SumSplit(es, 0, i + 1, |es|);
    assert SumOf(es, i, i + 1) == es[i].len + SumOf(es, i + 1, i + 1);
  }

  // ---------------------------------------------------------------- inserting and removing a slot

  ghost function Insert<T>(s: seq<T>, i: nat, x: T): (r: seq<T>)
    requires i <= |s|
  {
    s[..i] + [x] + s[i..]
  }

  /** `d'` is `d` with slot i inserted into an n-entry pointer array, pointing to cell `c` stored at idx. */
  ghost predicate InsertedAt(g: Geom, d: seq<Byte>, d': seq<Byte>, n: nat, i: nat, idx: nat, c: seq<Byte>)
    requires i <= n && g.CellOffset() + 2 * n + 2 <= idx && idx + |c| <= |d|
  {
    var lo, hi := g.CellOffset() + 2 * i, g.CellOffset() + 2 * n;
    && |d'| == |d|
    && Get2(d', lo) == idx && d'[idx..idx + |c|] == c && Get2(d', g.hdr + 3) == n + 1
    && (forall x | lo + 2 <= x < hi + 2 :: d'[x] == d[x - 2])
    && (forall x | 0 <= x < |d| && !(lo <= x < hi + 2) && !(idx <= x < idx + |c|) && !(g.hdr + 3 <= x < g.hdr + 5) ::
      d'[x] == d[x])
  }

  lemma InsertStores(g: Geom, d: seq<Byte>, d1: seq<Byte>, d2: seq<Byte>, d': seq<Byte>, n: nat, i: nat, idx: nat,
                     c: seq<Byte>)
    requires i <= n && g.CellOffset() + 2 * n + 2 <= idx < 0x1_0000 && idx + |c| <= |d| && n + 1 < 0x1_0000
    requires d1 == Splice(d, idx, c) && |d2| == |d|
    requires forall x | g.CellOffset() + 2 * i + 2 <= x < g.CellOffset() + 2 * n + 2 :: d2[x] == d1[x - 2]
    requires forall x | 0 <= x < |d| && !(g.CellOffset() + 2 * i + 2 <= x < g.CellOffset() + 2 * n + 2) ::
      d2[x] == d1[x]
    requires d' == Set2(Set2(d2, g.CellOffset() + 2 * i, idx), g.hdr + 3, n + 1)
    ensures InsertedAt(g, d, d', n, i, idx, c)
  {
    assert d'[idx..idx + |c|] == d1[idx..idx + |c|];
  }

  lemma InsertedPtr(g: Geom, d: seq<Byte>, d': seq<Byte>, n: nat, i: nat, idx: nat, c: seq<Byte>, j: nat)
    requires i <= n && g.CellOffset() + 2 * n + 2 <= idx && idx + |c| <= |d| && j < n
    requires InsertedAt(g, d, d', n, i, idx, c)
    ensures Ptr(g, d', if j < i then j else j + 1) == Ptr(g, d, j)
  {
    var x := g.CellOffset() + 2 * j;
    if j >= i {
      assert d'[x + 2] == d[x] && d'[x + 3] == d[x + 1];
    }
  }

  lemma InsertKeepsSlot(g: Geom, d: seq<Byte>, d': seq<Byte>, cells: seq<Ext>, contents: seq<seq<Byte>>, i: nat,
                        idx: nat, c: seq<Byte>, j: nat, j': nat, cells': seq<Ext>, contents': seq<seq<Byte>>)
    requires Slots(g, d, cells, contents) && i <= |cells| && IsCell(g.kind, c) && |c| >= 4
    requires g.CellOffset() + 2 * |cells| + 2 <= idx && idx + |c| <= |d|
    requires InsertedAt(g, d, d', |cells|, i, idx, c)
    requires forall j | 0 <= j < |cells| ::
      Apart(cells[j], Ext(idx, |c|)) && g.CellOffset() + 2 * |cells| + 2 <= cells[j].at
    requires cells' == Insert(cells, i, Ext(idx, |c|)) && contents' == Insert(contents, i, c) && Within(cells', 0, |d'|)
    requires j < |cells| && j' == if j < i then j else j + 1
    ensures Slot(g, d', cells', contents', j')
  {
    assert cells'[j'] == cells[j] && contents'[j'] == contents[j];
    assert Apart(cells[j], Ext(idx, |c|));
    InsertedPtr(g, d, d', |cells|, i, idx, c, j);
    SlotMoved(g, d, d', cells, contents, j, cells', contents', j');
  }

  lemma InsertWithin(es: seq<Ext>, i: nat, e: Ext, lo: nat, hi: nat)
    requires Within(es, lo, hi) && i <= |es| && lo <= e.at && e.End() <= hi && e.len >= 4
    ensures Within(Insert(es, i, e), lo, hi)
  {
  }

  lemma NewSlot(g: Geom, d: seq<Byte>, cells: seq<Ext>, contents: seq<seq<Byte>>, i: nat, idx: nat, c: seq<Byte>)
    requires i < |cells| == |contents| && g.CellOffset() + 2 * |cells| <= |d| && Within(cells, 0, |d|)
    requires cells[i] == Ext(idx, |c|) && contents[i] == c && IsCell(g.kind, c)
    requires idx + |c| <= |d| && d[idx..idx + |c|] == c && Get2(d, g.CellOffset() + 2 * i) == idx
    ensures Slot(g, d, cells, contents, i)
  {
  }

  lemma InsertSlots(g: Geom, d: seq<Byte>, d': seq<Byte>, cells: seq<Ext>, contents: seq<seq<Byte>>, i: nat, idx: nat,
                    c: seq<Byte>)
    requires Slots(g, d, cells, contents) && i <= |cells| && IsCell(g.kind, c) && |c| >= 4
    requires g.CellOffset() + 2 * |cells| + 2 <= idx && idx + |c| <= |d|
    requires InsertedAt(g, d, d', |cells|, i, idx, c)
    requires forall j | 0 <= j < |cells| ::
      Apart(cells[j], Ext(idx, |c|)) && g.CellOffset() + 2 * |cells| + 2 <= cells[j].at
    ensures Slots(g, d', Insert(cells, i, Ext(idx, |c|)), Insert(contents, i, c))
  {
    var cells', contents' := Insert(cells, i, Ext(idx, |c|)), Insert(contents, i, c);
    InsertWithin(cells, i, Ext(idx, |c|), 0, |d'|);
    forall j | 0 <= j < |cells'| ensures Slot(g, d', cells', contents', j) {
      InsertSlotAt(g, d, d', cells, contents, i, idx, c, j, cells', contents');
    }
  }

  lemma InsertSlotAt(g: Geom, d: seq<Byte>, d': seq<Byte>, cells: seq<Ext>, contents: seq<seq<Byte>>, i: nat, idx: nat,
                     c: seq<Byte>, j: nat, cells': seq<Ext>, contents': seq<seq<Byte>>)
    requires Slots(g, d, cells, contents) && i <= |cells| && IsCell(g.kind, c) && |c| >= 4
    requires g.CellOffset() + 2 * |cells| + 2 <= idx && idx + |c| <= |d|
    requires InsertedAt(g, d, d', |cells|, i, idx, c)
    requires forall j | 0 <= j < |cells| ::
      Apart(cells[j], Ext(idx, |c|)) && g.CellOffset() + 2 * |cells| + 2 <= cells[j].at
    requires cells' == Insert(cells, i, Ext(idx, |c|)) && contents' == Insert(contents, i, c)
      && Within(cells', 0, |d'|) && j < |cells'|
    ensures Slot(g, d', cells', contents', j)
  {
    if j == i {
      NewSlot(g, d', cells', contents', i, idx, c);
    } else {
      InsertKeepsSlot(g, d, d', cells, contents, i, idx, c, if j < i then j else j - 1, j, cells', contents');
    }
  }

  lemma InsertApart(fs: seq<Ext>, es: seq<Ext>, i: nat, e: Ext)
    requires PairwiseApart(es) && AllApart(es, fs) && i <= |es|
    requires forall j | 0 <= j < |es| :: Apart(es[j], e)
    requires forall j | 0 <= j < |fs| :: Apart(e, fs[j])
    ensures PairwiseApart(Insert(es, i, e)) && AllApart(Insert(es, i, e), fs)
  {
    var es' := Insert(es, i, e);
    assert forall j | 0 <= j < i :: es'[j] == es[j];
    assert forall j | i < j < |es'| :: es'[j] == es[j - 1];
    forall a, b | 0 <= a < b < |es'| ensures Apart(es'[a], es'[b]) {
      if a != i && b != i {
        assert Apart(es[if a < i then a else a - 1], es[if b < i then b else b - 1]);
      } else {
        assert Apart(es[if a == i then b - 1 else a], e);
      }
    }
    forall a, b | 0 <= a < |es'| && 0 <= b < |fs| ensures Apart(es'[a], fs[b]) {
      if a != i {
        assert Apart(es[if a < i then a else a - 1], fs[b]);
      }
    }
  }

  lemma LastApart(fs: seq<Ext>, es: seq<Ext>, e: Ext)
    requires PairwiseApart(es + [e]) && AllApart(es + [e], fs)
    ensures PairwiseApart(es) && AllApart(es, fs)
    ensures forall j | 0 <= j < |es| :: Apart(es[j], e)
    ensures forall j | 0 <= j < |fs| :: Apart(e, fs[j])
  {
    var es0 := es + [e];
    assert es0[|es|] == e && forall j | 0 <= j < |es| :: es0[j] == es[j];
    forall j | 0 <= j < |es| ensures Apart(es[j], e) {
      assert Apart(es0[j], es0[|es|]);
    }
    forall j | 0 <= j < |fs| ensures Apart(e, fs[j]) {
      assert Apart(es0[|es|], fs[j]);
    }
    forall a, b | 0 <= a < |es| && 0 <= b < |fs| ensures Apart(es[a], fs[b]) {
      assert Apart(es0[a], fs[b]);
    }
    forall a, b | 0 <= a < b < |es| ensures Apart(es[a], es[b]) {
      assert Apart(es0[a], es0[b]);
    }
  }

  lemma InsertLayout(lo: nat, hi: nat, fs: seq<Ext>, es: seq<Ext>, i: nat, e: Ext)
    requires Layout(lo, hi, fs, es + [e]) && i <= |es|
    ensures Layout(lo, hi, fs, Insert(es, i, e))
    ensures Sum(Insert(es, i, e)) == Sum(es + [e]) == Sum(es) + e.len
  {
    SumInsert(es, i, e);
    SumAppend(es, e);
    LastApart(fs, es, e);
    InsertApart(fs, es, i, e);
    LastWithin(es, e, lo, hi);
    InsertWithin(es, i, e, lo, hi);
  }

  lemma LastWithin(es: seq<Ext>, e: Ext, lo: nat, hi: nat)
    requires Within(es + [e], lo, hi)
    ensures Within(es, lo, hi) && lo <= e.at && e.End() <= hi && e.len >= 4
  {
    assert (es + [e])[|es|] == e;
    forall j | 0 <= j < |es| ensures lo <= es[j].at && es[j].End() <= hi && es[j].len >= 4 {
      assert (es + [e])[j] == es[j];
    }
  }

  /** Stores into the pointer array, the cell count and an extent `e` without freeblocks leave the content area intact.
      */
  lemma SpaceKept(g: Geom, d: seq<Byte>, d': seq<Byte>, limit: nat, limit': nat, fs: seq<Ext>, es: seq<Ext>, e: Ext)
    requires Space(g, d, limit, fs, es) && |d'| == |d| && g.hdr + 8 <= limit' <= limit <= e.at
    requires AllApart([e], fs)
    requires forall x | 0 <= x < |d| && !(g.hdr + 3 <= x < g.hdr + 5) && !(g.hdr + 8 <= x < limit)
      && !(e.at <= x < e.End()) :: d'[x] == d[x]
    ensures Space(g, d', limit', fs, es) && Frag(g, d') == Frag(g, d)
  {
    forall j | 0 <= j <= |fs| ensures Linked(g, d', fs, j) {
      assert Linked(g, d, fs, j);
      assert j < |fs| ==> Apart([e][0], fs[j]);
      assert j > 0 ==> Apart([e][0], fs[j - 1]);
    }
  }

  /** `d'` is `d` with slot i removed from an n-entry pointer array. */
  ghost predicate RemovedAt(g: Geom, d: seq<Byte>, d': seq<Byte>, n: nat, i: nat)
    requires i < n && g.CellOffset() + 2 * n <= |d|
  {
    var lo, hi := g.CellOffset() + 2 * i, g.CellOffset() + 2 * n;
    && |d'| == |d|
    && Get2(d', g.hdr + 3) == n - 1
    && (forall x | lo <= x < hi - 2 :: d'[x] == d[x + 2])
    && (forall x | 0 <= x < |d| && !(lo <= x < hi) && !(g.hdr + 3 <= x < g.hdr + 5) :: d'[x] == d[x])
  }

  lemma WithoutWithin(cells: seq<Ext>, i: nat, hi: nat)
    requires Within(cells, 0, hi) && i < |cells|
    ensures Within(Without(cells, i), 0, hi)
  {
    var cells' := Without(cells, i);
    forall j | 0 <= j < |cells'| ensures 0 <= cells'[j].at && cells'[j].End() <= hi && cells'[j].len >= 4 {
      assert cells'[j] == cells[if j < i then j else j + 1];
    }
  }

  /** The slots other than `i` survive the removal of slot `i`. */
  lemma RemoveSlots(g: Geom, d: seq<Byte>, d': seq<Byte>, cells: seq<Ext>, contents: seq<seq<Byte>>, i: nat)
    requires |cells| == |contents| && i < |cells| && g.CellOffset() + 2 * |cells| <= |d| && Within(cells, 0, |d|)
    requires forall j | 0 <= j < |cells| && j != i ::
      Slot(g, d, cells, contents, j) && g.CellOffset() + 2 * |cells| <= cells[j].at
    requires RemovedAt(g, d, d', |cells|, i)
    ensures Slots(g, d', Without(cells, i), Without(contents, i))
  {
    var cells', contents' := Without(cells, i), Without(contents, i);
    WithoutWithin(cells, i, |d|);
    forall j | 0 <= j < |cells'| ensures Slot(g, d', cells', contents', j) {
      RemoveKeepsSlot(g, d, d', cells, contents, i, cells', contents', j);
    }
  }

  lemma RemoveKeepsSlot(g: Geom, d: seq<Byte>, d': seq<Byte>, cells: seq<Ext>, contents: seq<seq<Byte>>, i: nat,
                        cells': seq<Ext>, contents': seq<seq<Byte>>, j: nat)
    requires |cells| == |contents| && i < |cells| && g.CellOffset() + 2 * |cells| <= |d| && Within(cells, 0, |d|)
    requires forall j | 0 <= j < |cells| && j != i ::
      Slot(g, d, cells, contents, j) && g.CellOffset() + 2 * |cells| <= cells[j].at
    requires RemovedAt(g, d, d', |cells|, i)
    requires cells' == Without(cells, i) && contents' == Without(contents, i) && Within(cells', 0, |d'|) && j < |cells'|
    ensures Slot(g, d', cells', contents', j)
  {
    var j0 := if j < i then j else j + 1;
    assert Slot(g, d, cells, contents, j0);
    RemovedPtr(g, d, d', |cells|, i, j);
    RemovedBytes(g, d, d', |cells|, i, cells[j0]);
    OneSlotMoved(g, d, d', cells, contents, j0, cells', contents', j);
  }

  lemma OneSlotMoved(g: Geom, d: seq<Byte>, d': seq<Byte>, cells: seq<Ext>, contents: seq<seq<Byte>>, i: nat,
                     cells': seq<Ext>, contents': seq<seq<Byte>>, i': nat)
    requires i < |cells| == |contents| && g.CellOffset() + 2 * |cells| <= |d| && Within(cells, 0, |d|)
      && Slot(g, d, cells, contents, i)
    requires |contents'| == |cells'| && i' < |cells'| && |d'| == |d|
    requires g.CellOffset() + 2 * |cells'| <= |d'| && Within(cells', 0, |d'|)
    requires cells'[i'] == cells[i] && contents'[i'] == contents[i]
    requires Ptr(g, d', i') == Ptr(g, d, i)
    requires d'[cells[i].at..cells[i].End()] == d[cells[i].at..cells[i].End()]
    ensures Slot(g, d', cells', contents', i')
  {
  }

  lemma RemovedPtr(g: Geom, d: seq<Byte>, d': seq<Byte>, n: nat, i: nat, j: nat)
    requires i < n && g.CellOffset() + 2 * n <= |d| && RemovedAt(g, d, d', n, i) && j < n - 1
    ensures Ptr(g, d', j) == Ptr(g, d, if j < i then j else j + 1)
  {
    var x := g.CellOffset() + 2 * j;
    if j >= i {
      assert d'[x] == d[x + 2] && d'[x + 1] == d[x + 3];
    }
  }

  lemma RemovedBytes(g: Geom, d: seq<Byte>, d': seq<Byte>, n: nat, i: nat, e: Ext)
    requires i < n && g.CellOffset() + 2 * n <= e.at && e.End() <= |d| && RemovedAt(g, d, d', n, i)
    ensures d'[e.at..e.End()] == d[e.at..e.End()]
  {
  }

  /** Cells of at least four bytes, each with a two-byte pointer, bound the number of cells. */
  lemma {:induction false} CellCount(es: seq<Ext>, k: nat, lo: nat, hi: nat)
    requires Within(es, lo, hi) && k <= |es|
    ensures 4 * (|es| - k) <= SumOf(es, k, |es|)
    decreases |es| - k
  {
    if k < |es| {
      CellCount(es, k + 1, lo, hi);
    }
  }

  lemma InsertRoom(g: Geom, d: seq<Byte>, limit: nat, fs: seq<Ext>, cells: seq<Ext>, e: Ext)
    requires Space(g, d, limit, fs, cells + [e])
    ensures limit <= e.at && e.End() <= g.Usable()
    ensures forall j | 0 <= j < |cells| :: Apart(cells[j], e) && limit <= cells[j].at
  {
    var es := cells + [e];
    assert es[|cells|] == e;
    forall j | 0 <= j < |cells| ensures Apart(cells[j], e) && limit <= cells[j].at {
      assert es[j] == cells[j] && Apart(es[j], es[|cells|]);
    }
  }

  lemma InsertDone(g: Geom, d: seq<Byte>, d': seq<Byte>, limit: nat, fs: seq<Ext>, cells: seq<Ext>,
                   contents: seq<seq<Byte>>, i: nat, c: seq<Byte>, e: Ext)
    requires Space(g, d, limit, fs, cells + [e]) && Slots(g, d, cells, contents)
    requires limit == g.CellOffset() + 2 * |cells| + 2 && i <= |cells| && IsCell(g.kind, c) && e.len == |c| >= 4
    requires limit <= e.at && e.End() <= g.Usable() && InsertedAt(g, d, d', |cells|, i, e.at, c)
    ensures Space(g, d', limit, fs, Insert(cells, i, e)) && Slots(g, d', Insert(cells, i, e), Insert(contents, i, c))
    ensures Sum(Insert(cells, i, e)) == Sum(cells) + |c|
    ensures Get2(d', g.hdr + 3) == |cells| + 1 && Frag(g, d') == Frag(g, d)
  {
    InsertRoom(g, d, limit, fs, cells, e);
    InsertSlots(g, d, d', cells, contents, i, e.at, c);
    assert AllApart([e], fs) by {
      assert forall j | 0 <= j < |fs| :: Apart((cells + [e])[|cells|], fs[j]);
    }
    SpaceKept(g, d, d', limit, limit, fs, cells + [e], e);
    InsertLayout(Top(g, d'), g.Usable(), fs, cells, i, e);
  }

  lemma RemoveDone(g: Geom, d: seq<Byte>, d1: seq<Byte>, d': seq<Byte>, limit: nat, fs: seq<Ext>, cells: seq<Ext>,
                   contents: seq<seq<Byte>>, i: nat)
    requires Slots(g, d, cells, contents) && i < |cells| && limit == g.CellOffset() + 2 * |cells|
    requires forall j | 0 <= j < |cells| :: limit <= cells[j].at
    requires Space(g, d1, limit, fs, Without(cells, i)) && Keeps(g, d, d1, limit, Without(cells, i))
    requires RemovedAt(g, d1, d', |cells|, i)
    ensures Space(g, d', limit - 2, fs, Without(cells, i)) && Slots(g, d', Without(cells, i), Without(contents, i))
    ensures Sum(Without(cells, i)) == Sum(cells) - cells[i].len
    ensures Frag(g, d') == Frag(g, d1)
  {
    SumRemove(cells, i);
    SpaceKept(g, d1, d', limit, limit - 2, fs, Without(cells, i), Ext(limit, 0));
    forall j | 0 <= j < |cells| && j != i ensures Slot(g, d1, cells, contents, j) {
      var j' := if j < i then j else j - 1;
      assert Without(cells, i)[j'] == cells[j];
      SlotMoved(g, d, d1, cells, contents, j, cells, contents, j);
    }
    RemoveSlots(g, d1, d', cells, contents, i);
  }

  // ---------------------------------------------------------------- assembling a page

  /** Cells i.. of `cs` have been stored at the end of the page and their slots point to them. */
  ghost predicate Assembled(g: Geom, d: seq<Byte>, cs: seq<seq<Byte>>, i: nat, tail: seq<Ext>, body: nat)
  {
    && i <= |cs| && |tail| == |cs| - i
    && g.CellOffset() + 2 * |cs| <= body <= g.Usable() <= |d|
    && Layout(body, g.Usable(), [], tail) && Sum(tail) == g.Usable() - body
    && AllPlaced(g, d, cs, i, tail)
  }

  ghost predicate AllPlaced(g: Geom, d: seq<Byte>, cs: seq<seq<Byte>>, i: nat, tail: seq<Ext>)
    requires |cs| == |tail| + i && g.CellOffset() + 2 * |cs| <= |d| && Within(tail, 0, |d|)
  {
    forall j | i <= j < |cs| :: PlacedCell(g, d, cs, i, tail, j)
  }

  /** Cell j is stored, and slot j points to it. */
  ghost predicate PlacedCell(g: Geom, d: seq<Byte>, cs: seq<seq<Byte>>, i: nat, tail: seq<Ext>, j: nat)
    requires i <= j < |cs| == |tail| + i && g.CellOffset() + 2 * |cs| <= |d| && Within(tail, 0, |d|)
  {
    tail[j - i].len == |cs[j]| && Ptr(g, d, j) == tail[j - i].at && d[tail[j - i].at..tail[j - i].End()] == cs[j]
  }

  lemma StillPlaced(g: Geom, d: seq<Byte>, d': seq<Byte>, cs: seq<seq<Byte>>, i: nat, tail: seq<Ext>, tail': seq<Ext>,
                    j: nat, at: nat)
    requires i < j < |cs| == |tail| + i + 1 && g.CellOffset() + 2 * |cs| <= at && at + |cs[i]| <= |d|
    requires Within(tail, at + |cs[i]|, |d|) && tail' == [Ext(at, |cs[i]|)] + tail && Within(tail', 0, |d'|)
    requires SameExcept(d, d', Ext(at, |cs[i]|), Ext(g.CellOffset() + 2 * i, 2))
    requires PlacedCell(g, d, cs, i + 1, tail, j)
    ensures PlacedCell(g, d', cs, i, tail', j)
  {
    var e := tail[j - (i + 1)];
    assert tail'[j - i] == e;
    assert Ptr(g, d', j) == Ptr(g, d, j);
    assert d'[e.at..e.End()] == d[e.at..e.End()];
  }

  lemma AssembleStep(g: Geom, d: seq<Byte>, cs: seq<seq<Byte>>, i: nat, tail: seq<Ext>, body: nat, at: nat)
    requires Assembled(g, d, cs, i + 1, tail, body) && |cs[i]| >= 4
    requires g.CellOffset() + 2 * |cs| <= at < 0x1_0000 && at + |cs[i]| == body
    ensures var d' := PlacedBytes(g, d, i, at, cs[i]);
      && Assembled(g, d', cs, i, [Ext(at, |cs[i]|)] + tail, at)
      && forall x | 0 <= x < g.CellOffset() :: d'[x] == d[x]
  {
    PlacedBytesRead(g, d, i, at, cs[i]);
    var d', tail' := PlacedBytes(g, d, i, at, cs[i]), [Ext(at, |cs[i]|)] + tail;
    SumConcat([Ext(at, |cs[i]|)], tail);
    SumOne(Ext(at, |cs[i]|));
    assert forall j | 0 < j < |tail'| :: tail'[j] == tail[j - 1];
    forall j | i <= j < |cs| ensures PlacedCell(g, d', cs, i, tail', j) {
      if j > i {
        StillPlaced(g, d, d', cs, i, tail, tail', j, at);
      }
    }
  }

  lemma AssembleDone(g: Geom, d: seq<Byte>, d': seq<Byte>, cs: seq<seq<Byte>>, tail: seq<Ext>, body: nat, limit: nat)
    requires g.Valid() && Assembled(g, d, cs, 0, tail, body) && limit == g.CellOffset() + 2 * |cs|
    requires AllCells(g.kind, cs)
    requires Get2(d, g.hdr + 1) == 0 && d[g.hdr + 7] == 0
    requires SameExcept(d, d', Ext(g.hdr + 3, 4), Ext(0, 0)) && Get2(d', g.hdr + 5) == body % 0x1_0000
    ensures Space(g, d', limit, [], tail) && Slots(g, d', tail, cs)
    ensures Sum(tail) == g.Usable() - body
  {
    HeaderKept(g, d, d');
    DefragSpace(g, d', limit, tail, body);
    WithinWider(tail, body, g.Usable(), g.CellOffset(), |d|);
    AssembledSlots(g, d, d', cs, tail);
  }

  lemma HeaderKept(g: Geom, d: seq<Byte>, d': seq<Byte>)
    requires g.hdr + 8 <= |d| && SameExcept(d, d', Ext(g.hdr + 3, 4), Ext(0, 0))
    ensures Get2(d', g.hdr + 1) == Get2(d, g.hdr + 1) && d'[g.hdr + 7] == d[g.hdr + 7]
  {
  }

  lemma WithinWider(es: seq<Ext>, lo: nat, hi: nat, lo': nat, hi': nat)
    requires Within(es, lo, hi) && lo' <= lo && hi <= hi'
    ensures Within(es, lo', hi')
  {
  }

  ghost predicate AllCells(k: Kind, cs: seq<seq<Byte>>) {
    forall j | 0 <= j < |cs| :: IsCell(k, cs[j])
  }

  lemma AssembledSlots(g: Geom, d: seq<Byte>, d': seq<Byte>, cs: seq<seq<Byte>>, tail: seq<Ext>)
    requires g.Valid() && |cs| == |tail| && g.CellOffset() + 2 * |cs| <= |d| && Within(tail, g.CellOffset(), |d|)
    requires AllPlaced(g, d, cs, 0, tail) && AllCells(g.kind, cs)
    requires SameExcept(d, d', Ext(g.hdr + 3, 4), Ext(0, 0))
    ensures Slots(g, d', tail, cs)
  {
    forall j | 0 <= j < |tail| ensures Slot(g, d', tail, cs, j) {
      assert PlacedCell(g, d, cs, 0, tail, j);
      AssembledSlot(g, d, d', cs, tail, j);
    }
  }

  lemma AssembledSlot(g: Geom, d: seq<Byte>, d': seq<Byte>, cs: seq<seq<Byte>>, tail: seq<Ext>, j: nat)
    requires g.Valid() && j < |cs| == |tail| && g.CellOffset() + 2 * |cs| <= |d| && Within(tail, g.CellOffset(), |d|)
    requires PlacedCell(g, d, cs, 0, tail, j) && IsCell(g.kind, cs[j])
    requires SameExcept(d, d', Ext(g.hdr + 3, 4), Ext(0, 0))
    ensures Slot(g, d', tail, cs, j)
  {
    var e := tail[j];
    assert tail[j - 0] == e;
    SlotPtr(g, d, d', j);
    SlotBytes(g, d, d', e);
    NewSlot(g, d', tail, cs, j, e.at, cs[j]);
  }

  /** Bytes behind the page header are as before. */
  lemma SlotPtr(g: Geom, d: seq<Byte>, d': seq<Byte>, j: nat)
    requires g.Valid() && g.CellOffset() + 2 * j + 1 < |d| && SameExcept(d, d', Ext(g.hdr + 3, 4), Ext(0, 0))
    ensures Ptr(g, d', j) == Ptr(g, d, j)
  {
  }

  lemma SlotBytes(g: Geom, d: seq<Byte>, d': seq<Byte>, e: Ext)
    requires g.Valid() && g.CellOffset() <= e.at && e.End() <= |d| && SameExcept(d, d', Ext(g.hdr + 3, 4), Ext(0, 0))
    ensures d'[e.at..e.End()] == d[e.at..e.End()]
  {
    SameSlice(d, d', e.at, e.End());
  }

  lemma SameSlice(d: seq<Byte>, d': seq<Byte>, lo: nat, hi: nat)
    requires lo <= hi <= |d| == |d'| && forall x | lo <= x < hi :: d'[x] == d[x]
    ensures d'[lo..hi] == d[lo..hi]
  {
  }

  lemma CountsRead(g: Geom, d: seq<Byte>, n: nat, body: nat)
    requires g.hdr + 8 <= |d| && n < 0x1_0000
    ensures var d' := Set2(Set2(d, g.hdr + 3, n), g.hdr + 5, body);
      && SameExcept(d, d', Ext(g.hdr + 3, 4), Ext(0, 0))
      && Get2(d', g.hdr + 3) == n && Get2(d', g.hdr + 5) == body % 0x1_0000
  {
    var d1 := Set2(d, g.hdr + 3, n);
    var d' := Set2(d1, g.hdr + 5, body);
    assert Get2(d1, g.hdr + 3) == n;
  }

  // ---------------------------------------------------------------- runs of operations

  datatype PageOp = OpInsert(i: nat, c: seq<Byte>) | OpDrop(i: nat) | OpDefragment

  /** What an operation does to the cells of a page, as far as it is applicable. */
  ghost function Step(g: Geom, contents: seq<seq<Byte>>, op: PageOp): (r: seq<seq<Byte>>)
  {
    match op
    case OpInsert(i, c) =>
      if i <= |contents| && IsCell(g.kind, c) && g.CellOffset() + Used(contents) + |c|
        + 2 <= g.Usable() then Insert(contents, i, c)
      else contents
    case OpDrop(i) => if i < |contents| then Without(contents, i) else contents
    case OpDefragment => contents
  }

  ghost function Replay(g: Geom, contents: seq<seq<Byte>>, ops: seq<PageOp>): (r: seq<seq<Byte>>)
  {
    if ops == [] then contents else Step(g, Replay(g, contents, ops[..|ops| - 1]), ops[|ops| - 1])
  }

  /** The state of the merging loop: freeblocks before j are far enough apart, addr holds the link to freeblock j. */
  ghost predicate Merging(g: Geom, d0: seq<Byte>, d: seq<Byte>, limit: nat, free: seq<Ext>, es: seq<Ext>, j: nat,
                          addr: nat, pbegin: nat) {
    && LooseSpace(g, d, limit, free, es) && |free| > 0 && j <= |free| && addr == LinkAt(g, free, j) && addr + 1 < |d|
    && pbegin == Get2(d, addr) && (pbegin > 0 <==> j < |free|) && Spaced(free, j)
    && |d0| == |d| && Keeps(g, d0, d, limit, es) && Frag(g, d) <= Frag(g, d0) && Top(g, d) == Top(g, d0)
  }

  /** The bytes of the first j freeblocks have been added; pc is the next one. */
  ghost predicate Summing(g: Geom, d: seq<Byte>, free: seq<Ext>, j: nat, pc: nat, nf: nat)
    requires g.Valid() && g.hdr + 8 <= |d|
  {
    && j <= |free| && (pc > 0 <==> j < |free|) && (j < |free| ==> pc == free[j].at)
    && nf == Frag(g, d) + Top(g, d) + SumOf(free, 0, j)
  }

  /** What merging freeblocks j and j + 1 gives. */
  ghost predicate MergedAt(g: Geom, d: seq<Byte>, limit: nat, fs: seq<Ext>, es: seq<Ext>, j: nat, d': seq<Byte>,
                           fs': seq<Ext>)
    requires g.Valid() && g.hdr + 8 <= |d|
  {
    && LooseSpace(g, d', limit, fs', es) && Spaced(fs', j) && j < |fs'| == |fs| - 1
      && LinkAt(g, fs', j) == LinkAt(g, fs, j)
    && |d'| == |d| && Keeps(g, d, d', limit, es) && Frag(g, d') <= Frag(g, d) && Top(g, d') == Top(g, d)
  }

  lemma MergeFacts(g: Geom, d: seq<Byte>, limit: nat, fs: seq<Ext>, es: seq<Ext>, j: nat)
    requires LooseSpace(g, d, limit, fs, es) && Spaced(fs, j) && j + 1 < |fs| && fs[j].End() + 3 >= fs[j + 1].at
    ensures g.hdr + 8 <= fs[j].at && fs[j].End() <= fs[j + 1].at && fs[j].len >= 4 && fs[j + 1].at + 3 < |d|
    ensures fs[j + 1].at - fs[j].End() <= d[g.hdr + 7] && Get2(d, fs[j + 1].at + 2) == fs[j + 1].len
    ensures MergedAt(g, d, limit, fs, es, j, MergedBytes(g, d, fs[j], fs[j + 1]), Merged(fs, j))
  {
    MergeStep(g, d, limit, fs, es, j);
    ReadLink(g, d, limit, fs, es, j);
    ReadLink(g, d, limit, fs, es, j + 1);
    MergeSpaced(fs, j);
  }

  lemma KeepsTwice(g: Geom, d0: seq<Byte>, d1: seq<Byte>, d2: seq<Byte>, limit: nat, es: seq<Ext>)
    requires Keeps(g, d0, d1, limit, es) && Keeps(g, d1, d2, limit, es)
    ensures Keeps(g, d0, d2, limit, es)
  {
  }

  /** The first freeblock begins the content area when the two header fields have the same bytes. */
  lemma AtTop(g: Geom, d: seq<Byte>, p: Ext)
    requires g.Valid() && g.hdr + 8 <= |d| && Get2(d, g.hdr + 1) == p.at > 0 && d[g.hdr + 1] == d[g.hdr + 5]
      && d[g.hdr + 2] == d[g.hdr + 6]
    ensures Get2(d, g.hdr + 5) == p.at == Top(g, d)
  {
  }

  class MemPage {
    const g: Geom
    const data: array<Byte>
    var nCell: nat
    var nFree: nat
    var ovfl: seq<(nat, seq<Byte>)>
    ghost var free: seq<Ext>
    ghost var cells: seq<Ext>
    ghost var contents: seq<seq<Byte>>

    /** First byte after the cell pointer array. */
    function Gap(): (a: nat)
      reads this
    {
      g.CellOffset() + 2 * nCell
    }

    /** Walk the freeblock chain to the link that a block starting at `start` belongs behind. */
    method FindLink(start: nat, ghost limit: nat, ghost es: seq<Ext>)
      returns (rc: Rc, addr: nat, pbegin: nat, ghost i: nat)
      requires LooseSpace(g, data[..], limit, free, es)
      ensures rc == Ok
      ensures i <= |free| && addr == LinkAt(g, free, i) && addr + 1 < data.Length && pbegin == Get2(data[..], addr)
      ensures forall j | 0 <= j < i :: free[j].at < start
      ensures forall j | i <= j < |free| :: start <= free[j].at
    {
      addr, pbegin, i := g.hdr + 1, Get2(data[..], g.hdr + 1), 0;
      while pbegin < start && pbegin > 0
        invariant 0 <= i <= |free| && addr == LinkAt(g, free, i) && pbegin == Get2(data[..], addr)
        invariant forall j | 0 <= j < i :: free[j].at < start
        decreases |free| - i
      {
        assert Linked(g, data[..], free, i);
        if pbegin < addr + 4 {
          return Corrupt, addr, pbegin, i;
        }
        addr, i := pbegin, i + 1;
        pbegin := Get2(data[..], addr);
      }
      assert Linked(g, data[..], free, i);
      if pbegin > g.Usable() - 4 {
        return Corrupt, addr, pbegin, i;
      }
      rc := Ok;
    }

    method LinkBlock(start: nat, size: nat, ghost limit: nat, ghost es: seq<Ext>, ghost k: nat) returns (rc: Rc)
      requires LooseSpace(g, data[..], limit, free, es) && data.Length <= 0x1_0000
      requires k < |es| && es[k] == Ext(start, size)
      modifies data, this`free
      ensures rc == Ok
      ensures LooseSpace(g, data[..], limit, free, Without(es, k)) && |free| > 0
      ensures Keeps(g, old(data[..]), data[..], limit, Without(es, k))
      ensures Frag(g, data[..]) == Frag(g, old(data[..])) && Top(g, data[..]) == Top(g, old(data[..]))
    {
      var addr, pbegin;
      ghost var i;
      rc, addr, pbegin, i := FindLink(start, limit, es);
      ghost var d := data[..];
      Put2(data, addr, start);
      Put2(data, start, pbegin);
      Put2(data, start + 2, size);
      FreeStep(g, d, data[..], limit, free, es, k, i);
      free := free[..i] + [es[k]] + free[i..];
    }

    /** The stores that merge the freeblock p with the next one, q. */
    method StoreMerge(p: Ext, q: Ext)
      requires g.hdr + 8 <= p.at && p.End() <= q.at && p.len >= 4 && q.at + 3 < data.Length
      requires q.at - p.End() <= data[g.hdr + 7] && q.len == Get2(data[..], q.at + 2)
      modifies data
      ensures data[..] == MergedBytes(g, old(data[..]), p, q)
    {
      data[g.hdr + 7] := data[g.hdr + 7] - (q.at - p.End());
      var x := Get2(data[..], q.at);
      var size := q.at + Get2(data[..], q.at + 2) - p.at;
      Put2(data, p.at, x);
      Put2(data, p.at + 2, size);
    }

    /** Merge freeblock `j` with its successor, which starts at most three bytes behind it. */
    method MergeNext(p: Ext, pnext: nat, ghost limit: nat, ghost es: seq<Ext>, ghost j: nat) returns (rc: Rc)
      requires LooseSpace(g, data[..], limit, free, es) && Spaced(free, j) && data.Length <= 0x1_0000
      requires j + 1 < |free| && p == free[j] && pnext == free[j + 1].at
      requires p.End() + 3 >= pnext
      modifies data, this`free
      ensures rc == Ok && MergedAt(g, old(data[..]), limit, old(free), es, j, data[..], free)
    {
      ghost var d, fs := data[..], free;
      MergeFacts(g, d, limit, fs, es, j);
      var frag := pnext - p.End();
      if frag < 0 || frag > data[g.hdr + 7] {
        return Corrupt;
      }
      var q := Ext(pnext, Get2(data[..], pnext + 2));
      assert q == fs[j + 1];
      free := Merged(fs, j);
      StoreMerge(p, q);
      rc := Ok;
    }

    /** Merge every pair of freeblocks that are at most three bytes apart. */
    method Coalesce(ghost limit: nat, ghost es: seq<Ext>) returns (rc: Rc)
      requires LooseSpace(g, data[..], limit, free, es) && |free| > 0 && data.Length <= 0x1_0000
      modifies data, this`free
      ensures rc == Ok
      ensures Space(g, data[..], limit, free, es) && |free| > 0
      ensures Keeps(g, old(data[..]), data[..], limit, es)
      ensures Frag(g, data[..]) <= Frag(g, old(data[..])) && Top(g, data[..]) == Top(g, old(data[..]))
    {
      ghost var d0 := data[..];
      var addr: nat, pbegin: nat := g.hdr + 1, Get2(data[..], g.hdr + 1);
      ghost var j: nat := 0;
      ReadLink(g, data[..], limit, free, es, 0);
      while pbegin > 0
        invariant Merging(g, d0, data[..], limit, free, es, j, addr, pbegin)
        decreases |free| - j
      {
        addr, pbegin, j := CoalesceAt(addr, pbegin, limit, es, j, d0);
      }
      rc := Ok;
    }

    /** One round of that loop. */
    method CoalesceAt(addr: nat, pbegin: nat, ghost limit: nat, ghost es: seq<Ext>, ghost j: nat, ghost d0: seq<Byte>)
      returns (addr': nat, pbegin': nat, ghost j': nat)
      requires Merging(g, d0, data[..], limit, free, es, j, addr, pbegin) && pbegin > 0 && data.Length <= 0x1_0000
      modifies data, this`free
      ensures Merging(g, d0, data[..], limit, free, es, j', addr', pbegin') && |free| - j' < |old(free)| - j
    {
      ReadLink(g, data[..], limit, free, es, j);
      addr', j' := addr, j;
      var pnext, psize := Get2(data[..], pbegin), Get2(data[..], pbegin + 2);
      if pbegin + psize + 3 >= pnext && pnext > 0 {
        ghost var d := data[..];
        var rc := MergeNext(Ext(pbegin, psize), pnext, limit, es, j);
        KeepsTwice(g, d0, d, data[..], limit, es);
      } else {
        addr', j' := pbegin, j + 1;
      }
      ReadLink(g, data[..], limit, free, es, j');
      pbegin' := Get2(data[..], addr');
    }

    method StoreTrim(p: Ext)
      requires g.hdr + 8 <= p.at && p.at + 3 < data.Length
      requires Get2(data[..], g.hdr + 5) == p.at && Get2(data[..], p.at + 2) == p.len
      modifies data
      ensures data[..] == TrimmedBytes(g, old(data[..]), p)
    {
      data[g.hdr + 1], data[g.hdr + 2] := data[p.at], data[p.at + 1];
      var top := Get2(data[..], g.hdr + 5) + Get2(data[..], p.at + 2);
      Put2(data, g.hdr + 5, top);
    }

    /** If the content area begins with a freeblock, give that block to the gap. */
    method TrimTop(ghost limit: nat, ghost es: seq<Ext>)
      requires Space(g, data[..], limit, free, es) && |free| > 0
      modifies data, this`free
      ensures Space(g, data[..], limit, free, es)
      ensures Keeps(g, old(data[..]), data[..], limit, es)
      ensures Frag(g, data[..]) == Frag(g, old(data[..]))
    {
      ghost var d := data[..];
      ReadLink(g, d, limit, free, es, 0);
      if data[g.hdr + 1] == data[g.hdr + 5] && data[g.hdr + 2] == data[g.hdr + 6] {
        AtTop(g, d, free[0]);
        TrimStep(g, d, limit, free, es);
        var pbegin := Get2(data[..], g.hdr + 1);
        ghost var p := free[0];
        free := free[1..];
        StoreTrim(Ext(pbegin, Get2(data[..], pbegin + 2)));
        assert data[..] == TrimmedBytes(g, d, p);
      }
    }

    /** freeSpace: return live extent `k` to the freeblock chain. */
    method FreeSpace(start: nat, size: nat, ghost limit: nat, ghost es: seq<Ext>, ghost k: nat) returns (rc: Rc)
      requires Space(g, data[..], limit, free, es) && data.Length <= 0x1_0000
      requires k < |es| && es[k] == Ext(start, size)
      modifies data, this`free, this`nFree
      ensures rc == Ok
      ensures Space(g, data[..], limit, free, Without(es, k))
      ensures Keeps(g, old(data[..]), data[..], limit, Without(es, k))
      ensures Frag(g, data[..]) <= Frag(g, old(data[..]))
      ensures nFree == old(nFree) + size
    {
      ghost var es' := Without(es, k);
      rc := LinkBlock(start, size, limit, es, k);
      if rc == Corrupt {
        return;
      }
      nFree := nFree + size;
      rc := Coalesce(limit, es');
      if rc == Corrupt {
        return;
      }
      TrimTop(limit, es');
    }

    /** The page is well formed: its bytes partition into header, pointer array, gap, live cells,
        freeblocks and counted fragment bytes, and nFree is the number of free bytes. */
    ghost predicate Valid()
      reads this, data
    {
      && g.Valid() && g.Usable() <= data.Length <= 0x1_0000
      && |cells| == nCell && Get2(data[..], g.hdr + 3) == nCell
      && Space(g, data[..], Gap(), free, cells)
      && Slots(g, data[..], cells, contents)
      && nFree == g.Usable() - Gap() - Sum(cells)
    }

    method StorePlaced(i: nat, at: nat, c: seq<Byte>)
      requires at + |c| <= data.Length && g.CellOffset() + 2 * i + 1 < data.Length
      modifies data
      ensures data[..] == PlacedBytes(g, old(data[..]), i, at, c)
    {
      CopyIn(data, at, c);
      Put2(data, g.CellOffset() + 2 * i, at);
    }

    method StoreCleared(first: nat, cbrk: nat)
      requires g.hdr + 8 <= first <= cbrk <= data.Length
      modifies data
      ensures data[..] == ClearedBytes(g, old(data[..]), first, cbrk)
    {
      Put2(data, g.hdr + 5, cbrk);
      data[g.hdr + 1] := 0;
      data[g.hdr + 2] := 0;
      data[g.hdr + 7] := 0;
      CopyIn(data, first, seq(cbrk - first, _ => 0));
    }

    /** Offset and size of the cell that slot `i` points to, with defragmentPage's corruption tests. */
    method LocateCell(i: nat, temp: seq<Byte>, top: nat) returns (rc: Rc, pc: nat, size: nat)
      requires Space(g, temp, Gap(), free, cells) && Slots(g, temp, cells, contents)
      requires i < nCell == |cells| && Gap() <= data.Length && Ptr(g, data[..], i) == cells[i].at
      requires Gap() + cells[i].len <= top
      ensures rc == Ok && pc + size <= g.Usable() && Ext(pc, size) == cells[i] && temp[pc..pc + size] == contents[i]
    {
      CellFacts(g, temp, Gap(), free, cells, contents, i);
      rc, pc, size := Ok, Ptr(g, data[..], i), 0;
      if pc < Gap() || pc > g.Usable() - 4 {
        rc := Corrupt;
        return;
      }
      size := CellSize(g.kind, temp[pc..g.Usable()]);
      if top - size < Gap() || pc + size > g.Usable() {
        rc := Corrupt;
      }
    }

    /** One round of defragmentPage: cell `i` goes directly below the cells moved so far. */
    method MoveCell(i: nat, temp: seq<Byte>, top: nat, ghost moved: seq<Ext>) returns (rc: Rc, cbrk: nat)
      requires Space(g, temp, Gap(), free, cells) && Slots(g, temp, cells, contents)
      requires i == |moved| < nCell == |cells| && Defragged(g, data[..], cells, contents, moved, top)
      requires Gap() + cells[i].len <= top
      modifies data
      ensures rc == Ok && cbrk == top - cells[i].len
      ensures Defragged(g, data[..], cells, contents, moved + [Ext(cbrk, cells[i].len)], cbrk)
      ensures forall x | 0 <= x < g.CellOffset() :: data[x] == old(data[x])
    {
      var pc, size;
      rc, pc, size := LocateCell(i, temp, top);
      CellFacts(g, temp, Gap(), free, cells, contents, i);
      cbrk := top - size;
      DefragStep(g, data[..], cells, contents, moved, top, cbrk);
      StorePlaced(i, cbrk, temp[pc..pc + size]);
    }

    /** The loop of defragmentPage: move every cell to the end of the page, in pointer order. */
    method MoveCells() returns (rc: Rc, cbrk: nat, ghost moved: seq<Ext>)
      requires Space(g, data[..], Gap(), free, cells) && Slots(g, data[..], cells, contents) && nCell == |cells|
      modifies data
      ensures rc == Ok
      ensures |moved| == nCell && Defragged(g, data[..], cells, contents, moved, cbrk)
      ensures cbrk == g.Usable() - Sum(cells) && Sum(moved) == Sum(cells)
      ensures Get2(data[..], g.hdr + 3) == Get2(old(data[..]), g.hdr + 3)
    {
      var temp := data[..];
      cbrk, moved := g.Usable(), [];
      DefragStart(g, temp, Gap(), free, cells, contents);
      CellsFit(g, temp, Gap(), free, cells);
      for i := 0 to nCell
        invariant |moved| == i && Defragged(g, data[..], cells, contents, moved, cbrk)
        invariant cbrk == g.Usable() - SumOf(cells, 0, i)
        invariant forall x | 0 <= x < g.CellOffset() :: data[x] == old(data[x])
      {
        SumPrefix(cells, i);
        rc, cbrk := MoveCell(i, temp, cbrk, moved);
        if rc == Corrupt {
          return;
        }
        moved := moved + [Ext(cbrk, cells[i].len)];
      }
      rc := Ok;
    }

    /** The end of defragmentPage: all free space becomes one gap. */
    method ClearGap(cbrk: nat, ghost moved: seq<Ext>)
      requires g.Valid() && |cells| == |moved| == nCell && Defragged(g, data[..], cells, contents, moved, cbrk)
      modifies data, this`free, this`cells
      ensures free == [] && cells == moved
      ensures Space(g, data[..], Gap(), free, cells) && Slots(g, data[..], cells, contents)
      ensures Get2(data[..], g.hdr + 3) == Get2(old(data[..]), g.hdr + 3)
      ensures Top(g, data[..]) == cbrk && Frag(g, data[..]) == 0
    {
      var first := Gap();
      DefragDone(g, data[..], cells, contents, moved, cbrk, first);
      StoreCleared(first, cbrk);
      ghost var d' := data[..];
      free, cells := [], moved;
      assert data[..] == d' && Gap() == first;
    }

    /** defragmentPage. */
    method Defragment() returns (rc: Rc)
      requires Valid()
      modifies data, this`free, this`cells
      ensures rc == Ok && Valid()
      ensures free == [] && Top(g, data[..]) - Gap() == nFree && Frag(g, data[..]) == 0
    {
      var cbrk;
      ghost var moved;
      rc, cbrk, moved := MoveCells();
      if rc == Corrupt {
        return;
      }
      ClearGap(cbrk, moved);
      if cbrk - Gap() != nFree {
        rc := Corrupt;
      }
    }

    method StoreUnlink(addr: nat, pc: nat, frag: Byte)
      requires g.hdr + 8 <= data.Length && addr + 1 < data.Length && pc + 1 < data.Length
      requires addr + 1 < pc
      modifies data
      ensures data[..] == UnlinkedBytes(g, old(data[..]), addr, pc, frag)
    {
      data[addr], data[addr + 1] := data[pc], data[pc + 1];
      data[g.hdr + 7] := frag;
    }

    /** Take nByte bytes from the end of freeblock `i`; at most three bytes are left over and become fragments. */
    method TakeWhole(addr: nat, p: Ext, nByte: nat, idx: nat, ghost limit: nat, ghost i: nat)
      requires Space(g, data[..], limit, free, cells) && Frag(g, data[..]) < 60 && data.Length <= 0x1_0000
      requires i < |free| && p == free[i] && addr == LinkAt(g, free, i)
      requires 4 <= nByte <= p.len < nByte + 4 && idx == p.End() - nByte
      modifies data, this`free
      ensures Space(g, data[..], limit, free, cells + [Ext(idx, nByte)])
      ensures Keeps(g, old(data[..]), data[..], limit, cells)
      ensures Frag(g, data[..]) <= 62
    {
      ghost var d, fs := data[..], free;
      ReadLink(g, d, limit, fs, cells, i);
      var frag := data[g.hdr + 7] + p.len - nByte;
      TakeStep(g, d, limit, fs, cells, i, p, nByte, addr, frag, idx);
      StoreUnlink(addr, p.at, frag);
      ghost var d' := data[..];
      free := fs[..i] + fs[i + 1..];
      assert data[..] == d';
    }

    /** Take nByte bytes from the end of freeblock `i`, which stays in the chain. */
    method TakePart(p: Ext, nByte: nat, idx: nat, ghost limit: nat, ghost i: nat)
      requires Space(g, data[..], limit, free, cells) && Frag(g, data[..]) < 60 && data.Length <= 0x1_0000
      requires i < |free| && p == free[i]
      requires 4 <= nByte && nByte + 4 <= p.len && idx == p.End() - nByte
      modifies data, this`free
      ensures Space(g, data[..], limit, free, cells + [Ext(idx, nByte)])
      ensures Keeps(g, old(data[..]), data[..], limit, cells)
      ensures Frag(g, data[..]) <= 62
    {
      ghost var d, fs := data[..], free;
      ReadLink(g, d, limit, fs, cells, i);
      var x := p.len - nByte;
      ShrinkStep(g, d, limit, fs, cells, i, p, nByte, x, idx);
      free := fs[i := Ext(p.at, x)];
      Put2(data, p.at + 2, x);
      assert data[..] == Set2(d, p.at + 2, x);
    }

    /** First-fit search of the freeblock chain. */
    method FindSlot(nByte: nat, ghost limit: nat) returns (rc: Rc, found: bool, addr: nat, p: Ext, ghost i: nat)
      requires Space(g, data[..], limit, free, cells)
      ensures rc == Ok
      ensures found ==> i < |free| && p == free[i] && addr == LinkAt(g, free, i) && p.len >= nByte
      ensures forall j | 0 <= j < if found then i else |free| :: free[j].len < nByte
    {
      rc, found, addr, p, i := Ok, false, g.hdr + 1, Ext(0, 0), 0;
      ReadLink(g, data[..], limit, free, cells, 0);
      var pc := Get2(data[..], addr);
      while pc > 0
        invariant 0 <= i <= |free| && addr == LinkAt(g, free, i) && addr + 1 < data.Length
        invariant pc == Get2(data[..], addr) && (pc > 0 <==> i < |free|)
        invariant forall j | 0 <= j < i :: free[j].len < nByte
        decreases |free| - i
      {
        ReadLink(g, data[..], limit, free, cells, i);
        if pc > g.Usable() - 4 || pc < addr + 4 {
          rc := Corrupt;
          return;
        }
        p := Ext(pc, Get2(data[..], pc + 2));
        if p.len >= nByte {
          found := true;
          return;
        }
        addr, i := pc, i + 1;
        ReadLink(g, data[..], limit, free, cells, i);
        pc := Get2(data[..], addr);
      }
    }

    /** Take nByte bytes from the end of the gap, which is large enough. */
    method TakeGap(nByte: nat, idx: nat, ghost limit: nat)
      requires Space(g, data[..], limit, free, cells) && idx + nByte == Top(g, data[..])
      requires 4 <= nByte && limit <= idx
      modifies data
      ensures Space(g, data[..], limit, free, cells + [Ext(idx, nByte)])
      ensures Keeps(g, old(data[..]), data[..], limit, cells)
      ensures Frag(g, data[..]) == Frag(g, old(data[..]))
    {
      ghost var d := data[..];
      Put2(data, g.hdr + 5, idx);
      Set2Read(d, g.hdr + 5, idx);
      GapStep(g, d, data[..], limit, free, cells, nByte, idx);
    }

    /** A page from which nByte bytes at idx have been set aside for a new cell. */
    ghost predicate Reserved(idx: nat, nByte: nat)
      reads this, data
    {
      && g.Valid() && g.Usable() <= data.Length <= 0x1_0000
      && |cells| == nCell && Get2(data[..], g.hdr + 3) == nCell
      && Space(g, data[..], Gap() + 2, free, cells + [Ext(idx, nByte)])
      && Slots(g, data[..], cells, contents)
      && nFree == g.Usable() - Gap() - Sum(cells)
    }

    /** On a page with frag < 60 and room for another pointer, look for a freeblock first. */
    method AllocateFromFree(nByte: nat) returns (rc: Rc, found: bool, idx: nat)
      requires Valid() && 4 <= nByte && Frag(g, data[..]) < 60 && Gap() + 2 <= Top(g, data[..])
      modifies data, this`free
      ensures rc == Ok
      ensures found ==> Reserved(idx, nByte)
      ensures !found ==> Valid() && data[..] == old(data[..])
      ensures Frag(g, data[..]) <= 62
    {
      ghost var d := data[..];
      ghost var limit := Gap() + 2;
      ghost var i;
      var addr, p;
      rc, found, addr, p, i := FindSlot(nByte, limit);
      idx := 0;
      if found {
        idx := p.End() - nByte;
        if p.len - nByte < 4 {
          TakeWhole(addr, p, nByte, idx, limit, i);
        } else if p.End() > g.Usable() {
          rc := Corrupt;
        } else {
          TakePart(p, nByte, idx, limit, i);
        }
        SlotsKept(g, d, data[..], limit, cells, contents);
      }
    }

    /** The gap has room for the cell and for its pointer. */
    method AllocateFromGap(nByte: nat, top: nat) returns (idx: nat)
      requires Valid() && 4 <= nByte && top == Top(g, data[..]) && Gap() + 2 + nByte <= top
      modifies data
      ensures Reserved(idx, nByte)
      ensures Frag(g, data[..]) == Frag(g, old(data[..]))
    {
      ghost var d := data[..];
      idx := top - nByte;
      TakeGap(nByte, idx, Gap() + 2);
      SlotsKept(g, d, data[..], Gap() + 2, cells, contents);
    }

    /** allocateSpace: success is guaranteed as soon as nByte + 2 <= nFree. */
    method AllocateSpace(nByte: nat) returns (rc: Rc, idx: nat)
      requires Valid() && 4 <= nByte && nByte + 2 <= nFree
      modifies data, this`free, this`cells
      ensures rc == Ok && Reserved(idx, nByte)
      ensures old(Frag(g, data[..])) <= 62 ==> Frag(g, data[..]) <= 62
    {
      var nFrag, gap, top := data[g.hdr + 7], Gap(), Top(g, data[..]);
      rc, idx := Ok, 0;
      if gap > top {
        rc := Corrupt;
        return;
      }
      if nFrag >= 60 {
        rc := Defragment();
        top := Top(g, data[..]);
      } else if gap + 2 <= top {
        var found;
        rc, found, idx := AllocateFromFree(nByte);
        if found {
          return;
        }
      }
      if gap + 2 + nByte > top {
        rc := Defragment();
        top := Top(g, data[..]);
      }
      idx := AllocateFromGap(nByte, top);
    }

    /** Open slot `i` of the n-entry pointer array by moving the later entries up by one. */
    method ShiftUp(i: nat, n: nat)
      requires i <= n && g.CellOffset() + 2 * n + 2 <= data.Length
      modifies data
      ensures forall x | g.CellOffset() + 2 * i + 2 <= x < g.CellOffset() + 2 * n + 2 :: data[x] == old(data[x - 2])
      ensures forall x | 0 <= x < data.Length && !(g.CellOffset() + 2 * i + 2 <= x < g.CellOffset() + 2 * n + 2) ::
        data[x] == old(data[x])
    {
      var ptr, endPtr := g.CellOffset() + 2 * n, g.CellOffset() + 2 * i;
      ghost var k := n;
      while ptr > endPtr
        invariant i <= k <= n && ptr == g.CellOffset() + 2 * k
        invariant forall x | ptr + 2 <= x < g.CellOffset() + 2 * n + 2 :: data[x] == old(data[x - 2])
        invariant forall x | 0 <= x < data.Length && !(ptr + 2 <= x < g.CellOffset() + 2 * n + 2) ::
          data[x] == old(data[x])
      {
        data[ptr], data[ptr + 1] := data[ptr - 2], data[ptr - 1];
        ptr, k := ptr - 2, k - 1;
      }
    }

    /** Close slot `i` of the n-entry pointer array by moving the later entries down by one. */
    method ShiftDown(i: nat, n: nat)
      requires i < n && g.CellOffset() + 2 * n <= data.Length
      modifies data
      ensures forall x | g.CellOffset() + 2 * i <= x < g.CellOffset() + 2 * n - 2 :: data[x] == old(data[x + 2])
      ensures forall x | 0 <= x < data.Length && !(g.CellOffset() + 2 * i <= x < g.CellOffset() + 2 * n - 2) ::
        data[x] == old(data[x])
    {
      var ptr, endPtr := g.CellOffset() + 2 * i, g.CellOffset() + 2 * n - 2;
      ghost var k := i;
      while ptr < endPtr
        invariant i <= k <= n - 1 && ptr == g.CellOffset() + 2 * k
        invariant forall x | g.CellOffset() + 2 * i <= x < ptr :: data[x] == old(data[x + 2])
        invariant forall x | 0 <= x < data.Length && !(g.CellOffset() + 2 * i <= x < ptr) :: data[x] == old(data[x])
      {
        data[ptr], data[ptr + 1] := data[ptr + 2], data[ptr + 3];
        ptr, k := ptr + 2, k + 1;
      }
    }

    /** The stores of insertCell once space has been found. */
    method StoreInsert(i: nat, n: nat, idx: nat, c: seq<Byte>)
      requires i <= n && g.CellOffset() + 2 * n + 2 <= idx < 0x1_0000 && idx + |c| <= data.Length && n + 1 < 0x1_0000
      modifies data
      ensures InsertedAt(g, old(data[..]), data[..], n, i, idx, c)
    {
      ghost var d := data[..];
      CopyIn(data, idx, c);
      ghost var d1 := data[..];
      ShiftUp(i, n);
      ghost var d2 := data[..];
      Put2(data, g.CellOffset() + 2 * i, idx);
      Put2(data, g.hdr + 3, n + 1);
      InsertStores(g, d, d1, d2, data[..], n, i, idx, c);
    }

    /** The second half of insertCell: fill the reserved bytes and open slot `i`. */
    method FillReserved(i: nat, c: seq<Byte>, idx: nat)
      requires Reserved(idx, |c|) && i <= nCell && IsCell(g.kind, c) && |c| >= 4
      modifies this`cells, this`contents, this`nCell, this`nFree, data
      ensures Valid()
      ensures contents == Insert(old(contents), i, c)
      ensures nFree == old(nFree) - |c| - 2
      ensures Frag(g, data[..]) == Frag(g, old(data[..]))
    {
      ghost var d, limit, e := data[..], Gap() + 2, Ext(idx, |c|);
      InsertRoom(g, d, limit, free, cells, e);
      StoreInsert(i, nCell, idx, c);
      InsertDone(g, d, data[..], limit, free, cells, contents, i, c, e);
      ghost var d' := data[..];
      cells, contents := Insert(cells, i, e), Insert(contents, i, c);
      nCell, nFree := nCell + 1, nFree - (2 + |c|);
      assert data[..] == d' && Gap() == limit;
    }

    /** insertCell on a page with room: the new cell becomes cell `i`. */
    method PlaceCell(i: nat, c: seq<Byte>) returns (rc: Rc)
      requires Valid() && i <= nCell && IsCell(g.kind, c) && |c| + 2 <= nFree
      modifies this`cells, this`contents, this`free, this`nCell, this`nFree, data
      ensures rc == Ok && Valid()
      ensures contents == Insert(old(contents), i, c)
      ensures nFree == old(nFree) - |c| - 2
      ensures old(Frag(g, data[..])) <= 62 ==> Frag(g, data[..]) <= 62
    {
      var idx;
      rc, idx := AllocateSpace(|c|);
      if rc == Ok {
        FillReserved(i, c, idx);
      }
    }

    method StoreRemove(i: nat, n: nat)
      requires i < n < 0x1_0000 && g.CellOffset() + 2 * n <= data.Length
      modifies data
      ensures RemovedAt(g, old(data[..]), data[..], n, i)
    {
      ShiftDown(i, n);
      Put2(data, g.hdr + 3, n - 1);
    }

    /** The second half of dropCell: the bytes of cell `idx` are already free; close its slot. */
    method CloseSlot(idx: nat, ghost d: seq<Byte>, ghost limit: nat)
      requires g.Valid() && g.Usable() <= data.Length <= 0x1_0000 && |cells| == nCell && idx < nCell
      requires Slots(g, d, cells, contents) && limit == Gap() && forall j | 0 <= j < |cells| :: limit <= cells[j].at
      requires Space(g, data[..], limit, free, Without(cells, idx)) && Keeps(g, d, data[..], limit, Without(cells, idx))
      requires nFree == g.Usable() - Gap() - Sum(cells) + cells[idx].len
      modifies this`cells, this`contents, this`nCell, this`nFree, data
      ensures Valid()
      ensures contents == Without(old(contents), idx)
      ensures nFree == old(nFree) + 2
      ensures Frag(g, data[..]) == Frag(g, old(data[..]))
    {
      ghost var d1 := data[..];
      StoreRemove(idx, nCell);
      RemoveDone(g, d, d1, data[..], limit, free, cells, contents, idx);
      ghost var d' := data[..];
      cells, contents := Without(cells, idx), Without(contents, idx);
      nCell, nFree := nCell - 1, nFree + 2;
      assert data[..] == d' && Gap() == limit - 2;
    }

    /** dropCell: cell `idx` disappears and its bytes become free space. */
    method DropCell(idx: nat, sz: nat) returns (rc: Rc)
      requires Valid() && idx < nCell && sz == |contents[idx]|
      modifies this`cells, this`contents, this`free, this`nCell, this`nFree, data
      ensures rc == Ok && Valid()
      ensures contents == Without(old(contents), idx)
      ensures nFree == old(nFree) + sz + 2
      ensures Frag(g, data[..]) <= Frag(g, old(data[..]))
    {
      CellFacts(g, data[..], Gap(), free, cells, contents, idx);
      var pc := Ptr(g, data[..], idx);
      if pc < Get2(data[..], g.hdr + 5) || pc + sz > g.Usable() {
        return Corrupt;
      }
      ghost var d, limit := data[..], Gap();
      rc := FreeSpace(pc, sz, limit, cells, idx);
      if rc == Ok {
        CloseSlot(idx, d, limit);
      }
    }

    /** The free byte count is a function of the cells alone: fragmentation never costs usable space. */
    lemma FreeBytes()
      requires Valid()
      ensures nFree == g.Usable() - g.CellOffset() - Used(contents)
    {
      forall i | 0 <= i < |cells| ensures cells[i].len == |contents[i]| {
        CellFacts(g, data[..], Gap(), free, cells, contents, i);
      }
      UsedIsSum(cells, contents, 0);
      assert contents[0..] == contents;
    }

    /** The bytes of the content area that belong to no cell and no freeblock are exactly as many as the
        fragment counter says. */
    lemma FragmentBytes()
      requires Valid()
      ensures var top := Top(g, data[..]);
        && PairwiseApart(cells + free)
        && Covered(cells + free) <= Span(top, g.Usable())
        && |Span(top, g.Usable()) - Covered(cells + free)| == Frag(g, data[..])
    {
      var top := Top(g, data[..]);
      var es := cells + free;
      ConcatApart(cells, free);
      CoveredSize(es, 0);
      SumConcat(cells, free);
      forall x | x in Covered(es) ensures x in Span(top, g.Usable()) {
        var i := CoveredBy(es, 0, x);
        assert top <= es[i].at && es[i].End() <= g.Usable();
      }
      SubsetSize(Covered(es), Span(top, g.Usable()));
    }

    /** insertCell: the cell, with its child pointer replaced when iChild is not 0, becomes cell `i`
        if the page has room, and otherwise joins the overflow list. */
    method InsertCell(i: nat, pCell: seq<Byte>, iChild: nat) returns (rc: Rc, ghost c: seq<Byte>)
      requires Valid() && i <= nCell + |ovfl| && |ovfl| < 5
      requires IsCell(g.kind, pCell) && iChild < 0x1_0000_0000 && (iChild != 0 ==> !g.kind.leaf)
      modifies this`cells, this`contents, this`free, this`nCell, this`nFree, this`ovfl, data
      ensures rc == Ok && Valid()
      ensures IsCell(g.kind, c) && |c| == |pCell| && c == if iChild == 0 then pCell else Enc4(iChild) + pCell[4..]
      ensures old(ovfl) == [] && |c| + 2 <= old(nFree) ==> contents == Insert(old(contents), i, c) && ovfl == []
      ensures !(old(ovfl) == [] && |c| + 2 <= old(nFree)) ==> contents == old(contents) && ovfl == old(ovfl) + [(i, c)]
      ensures old(Frag(g, data[..])) <= 62 ==> Frag(g, data[..]) <= 62
    {
      var cell := if iChild == 0 then pCell else Enc4(iChild) + pCell[4..];
      CellSizeInContext(g.kind, pCell, cell);
      c := cell;
      if |ovfl| > 0 || |cell| + 2 > nFree {
        ghost var d := data[..];
        ovfl := ovfl + [(i, cell)];
        assert data[..] == d;
        rc := Ok;
      } else {
        rc := PlaceCell(i, cell);
      }
    }

    /** btreeInitPage's walk over the freeblock chain: fragments, content offset and freeblock sizes. */
    method SumFree(ghost limit: nat) returns (rc: Rc, nf: nat)
      requires Space(g, data[..], limit, free, cells) && limit == Gap()
      ensures rc == Ok && nf == Frag(g, data[..]) + Top(g, data[..]) + Sum(free)
    {
      ReadLink(g, data[..], limit, free, cells, 0);
      rc, nf := Ok, data[g.hdr + 7] as int + Top(g, data[..]);
      var pc := Get2(data[..], g.hdr + 1);
      ghost var j := 0;
      while pc > 0
        invariant rc == Ok && Summing(g, data[..], free, j, pc, nf)
        decreases |free| - j
      {
        rc, nf, pc := SumNext(limit, j, pc, nf);
        j := j + 1;
      }
    }

    /** One round of that loop. */
    method SumNext(ghost limit: nat, ghost j: nat, pc: nat, nf: nat) returns (rc: Rc, nf': nat, pc': nat)
      requires Space(g, data[..], limit, free, cells) && limit == Gap() && pc > 0
        && Summing(g, data[..], free, j, pc, nf)
      ensures rc == Ok && Summing(g, data[..], free, j + 1, pc', nf')
    {
      ReadLink(g, data[..], limit, free, cells, j);
      nf', pc' := nf, pc;
      if pc < Gap() || pc > g.Usable() - 4 {
        rc := Corrupt;
        return;
      }
      var next, size := Get2(data[..], pc), Get2(data[..], pc + 2);
      if (next > 0 && next <= pc + size + 3) || pc + size > g.Usable() {
        rc := Corrupt;
        return;
      }
      SumPrefix(free, j);
      rc, nf', pc' := Ok, nf + size, next;
    }

    /** The free-space computation of btreeInitPage. */
    method InitFree() returns (rc: Rc, total: nat)
      requires Valid()
      ensures rc == Ok && total == nFree
    {
      CellCount(cells, 0, Top(g, data[..]), g.Usable());
      rc, total := Ok, 0;
      if nCell > (data.Length - 8) / 6 {
        rc := Corrupt;
        return;
      }
      var nf;
      rc, nf := SumFree(Gap());
      if nf > g.Usable() {
        rc := Corrupt;
        return;
      }
      total := nf - Gap();
    }

    /** zeroPage: the buffer becomes a page without cells. */
    constructor Zero(geom: Geom, buffer: array<Byte>, flags: Byte)
      requires geom.Valid() && geom.Usable() <= buffer.Length <= 0x1_0000
      requires DecodeFlags(geom.Usable(), flags) == Some(geom.kind)
      modifies buffer
      ensures Valid() && contents == [] && ovfl == [] && g == geom && data == buffer
      ensures Frag(g, data[..]) == 0 && free == []
      ensures data[g.hdr] == flags && forall x | 0 <= x < g.hdr :: data[x] == old(buffer[x])
    {
      g, data, nCell, ovfl, free, cells, contents := geom, buffer, 0, [], [], [], [];
      nFree := geom.Usable() - geom.CellOffset();
      new;
      data[g.hdr] := flags;
      data[g.hdr + 1], data[g.hdr + 2], data[g.hdr + 3], data[g.hdr + 4] := 0, 0, 0, 0;
      data[g.hdr + 7] := 0;
      Put2(data, g.hdr + 5, g.Usable());
      DefragSpace(g, data[..], Gap(), [], g.Usable());
    }

    method StoreCounts(n: nat, body: nat)
      requires g.hdr + 8 <= data.Length && n < 0x1_0000
      modifies data
      ensures SameExcept(old(data[..]), data[..], Ext(g.hdr + 3, 4), Ext(0, 0))
      ensures Get2(data[..], g.hdr + 3) == n && Get2(data[..], g.hdr + 5) == body % 0x1_0000
    {
      CountsRead(g, data[..], n, body);
      Put2(data, g.hdr + 3, n);
      Put2(data, g.hdr + 5, body);
    }

    /** The loop of assemblePage, which stores the cells back to front. */
    method StoreCells(cs: seq<seq<Byte>>) returns (body: nat, ghost tail: seq<Ext>)
      requires g.Valid() && g.Usable() <= data.Length <= 0x1_0000
      requires forall j | 0 <= j < |cs| :: IsCell(g.kind, cs[j])
      requires g.CellOffset() + Used(cs) <= g.Usable()
      modifies data
      ensures Assembled(g, data[..], cs, 0, tail, body) && body == g.Usable() - (Used(cs) - 2 * |cs|)
      ensures forall x | 0 <= x < g.CellOffset() :: data[x] == old(data[x])
    {
      UsedAtLeast(cs);
      body, tail := g.Usable(), [];
      var i := |cs|;
      while i > 0
        invariant 0 <= i <= |cs| && Assembled(g, data[..], cs, i, tail, body)
        invariant body == g.Usable() - (Used(cs[i..]) - 2 * (|cs| - i))
        invariant forall x | 0 <= x < g.CellOffset() :: data[x] == old(data[x])
      {
        i := i - 1;
        UsedSuffix(cs, i);
        var at := body - |cs[i]|;
        AssembleStep(g, data[..], cs, i, tail, body, at);
        StorePlaced(i, at, cs[i]);
        body, tail := at, [Ext(at, |cs[i]|)] + tail;
      }
      assert cs[0..] == cs;
    }

    /** assemblePage: a page without cells receives the given cells, which fit on it. */
    method Assemble(cs: seq<seq<Byte>>)
      requires Valid() && nCell == 0 && free == [] && Frag(g, data[..]) == 0
      requires forall j | 0 <= j < |cs| :: IsCell(g.kind, cs[j])
      requires g.CellOffset() + Used(cs) <= g.Usable()
      modifies this`cells, this`contents, this`nCell, this`nFree, data
      ensures Valid() && contents == cs && free == [] && Frag(g, data[..]) == 0
    {
      ReadLink(g, data[..], Gap(), free, cells, 0);
      var body;
      ghost var tail;
      body, tail := StoreCells(cs);
      UsedAtLeast(cs);
      ghost var d, limit := data[..], g.CellOffset() + 2 * |cs|;
      StoreCounts(|cs|, body);
      AssembleDone(g, d, data[..], cs, tail, body, limit);
      ghost var d' := data[..];
      cells, contents := tail, cs;
      nFree := nFree - (2 * |cs| + g.Usable() - body);
      nCell := |cs|;
      assert data[..] == d' && Gap() == limit;
    }

    method Perform(op: PageOp) returns (rc: Rc)
      requires Valid()
      modifies this`cells, this`contents, this`free, this`nCell, this`nFree, data
      ensures rc == Ok && Valid()
      ensures contents == Step(g, old(contents), op)
      ensures old(Frag(g, data[..])) <= 62 ==> Frag(g, data[..]) <= 62
    {
      FreeBytes();
      rc := Ok;
      match op
      case OpInsert(i, c) =>
        if i <= nCell && IsCell(g.kind, c) && |c| + 2 <= nFree {
          rc := PlaceCell(i, c);
        }
      case OpDrop(i) =>
        if i < nCell {
          CellFacts(g, data[..], Gap(), free, cells, contents, i);
          rc := DropCell(i, CellSize(g.kind, data[..][Ptr(g, data[..], i)..g.Usable()]));
        }
      case OpDefragment =>
        rc := Defragment();
    }

    /** Every run of insertions, deletions and defragmentations on a well-formed page keeps it well
        formed, keeps at most 62 fragment bytes, and gives the cells that the run describes. */
    method Execute(ops: seq<PageOp>) returns (rc: Rc)
      requires Valid() && Frag(g, data[..]) <= 62
      modifies this`cells, this`contents, this`free, this`nCell, this`nFree, data
      ensures rc == Ok && Valid() && Frag(g, data[..]) <= 62
      ensures contents == Replay(g, old(contents), ops)
    {
      rc := Ok;
      for k := 0 to |ops|
        invariant rc == Ok && Valid() && Frag(g, data[..]) <= 62
        invariant contents == Replay(g, old(contents), ops[..k])
      {
        assert ops[..k + 1][..k] == ops[..k];
        rc := Perform(ops[k]);
      }
      assert ops[..|ops|] == ops;
    }
  }
}
