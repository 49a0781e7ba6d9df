/** Extents of a page and the arithmetic of packing them: the specification level of the page-space
    allocator in btree.c. */
module PageLayout {
  import opened Bytes
  import opened CellFormat

  /** The bytes at .. at+len-1 of a page. */
  datatype Ext = Ext(at: nat, len: nat)
  {
    function End(): (e: nat) {
      at + len
    }
  }

  /** Page geometry: the kind of page, and the header offset (100 on page 1). */
  datatype Geom = Geom(kind: Kind, hdr: nat)
  {
    predicate Valid() {
      kind.Valid() && (hdr == 0 || hdr == 100)
    }
    function CellOffset(): (o: nat) {
      hdr + 8 + kind.ChildPtrSize()
    }
    function Usable(): (u: nat) {
      kind.usable
    }
  }

  /** The fields of a page header follow one another up to the cell pointers: flags, first freeblock, number of cells,
      start of the content, fragment bytes, and the right child of a page that has children. */
  lemma HeaderFields(g: Geom)
    ensures var fields := [Ext(g.hdr, 1), Ext(g.hdr + 1, 2), Ext(g.hdr + 3, 2), Ext(g.hdr + 5, 2), Ext(g.hdr + 7, 1),
                           Ext(g.hdr + 8, if g.kind.leaf then 0 else 4)];
      && (forall i | 0 <= i < 5 :: fields[i].End() == fields[i + 1].at)
      && fields[5].End() == g.CellOffset()
  {
  }

  /** Total length of the extents lo..hi-1 of `es`. */
  function SumOf(es: seq<Ext>, lo: nat, hi: nat): (n: nat)
    requires lo <= hi <= |es|
    decreases hi - lo
  {
    if lo == hi then 0 else es[lo].len + SumOf(es, lo + 1, hi)
  }

  function Sum(es: seq<Ext>): (n: nat) {
    SumOf(es, 0, |es|)
  }

  lemma {:induction false} SumSplit(es: seq<Ext>, lo: nat, mid: nat, hi: nat)
    requires lo <= mid <= hi <= |es|
    ensures SumOf(es, lo, hi) == SumOf(es, lo, mid) + SumOf(es, mid, hi)
    decreases mid - lo
  {
    if lo < mid {
      SumSplit(es, lo + 1, mid, hi);
    }
  }

  /** The same extents k places further on. */
  lemma {:induction false} SumShift(es: seq<Ext>, lo: nat, hi: nat, es': seq<Ext>, lo': nat)
    requires lo <= hi <= |es| && lo' + (hi - lo) <= |es'|
    requires forall i | lo <= i < hi :: es'[lo' + (i - lo)] == es[i]
    ensures SumOf(es', lo', lo' + (hi - lo)) == SumOf(es, lo, hi)
    decreases hi - lo
  {
    if lo < hi {
      assert es'[lo' + (lo - lo)] == es[lo];
      assert forall i | lo + 1 <= i < hi :: es'[lo' + 1 + (i - (lo + 1))] == es[i] by {
        forall i | lo + 1 <= i < hi ensures es'[lo' + 1 + (i - (lo + 1))] == es[i] {
          assert es'[lo' + (i - lo)] == es[i];
        }
      }
      SumShift(es, lo + 1, hi, es', lo' + 1);
    }
  }

  lemma SumConcat(a: seq<Ext>, b: seq<Ext>)
    ensures Sum(a + b) == Sum(a) + Sum(b)
  {
    SumSplit(a + b, 0, |a|, |a + b|);
    SumShift(a, 0, |a|, a + b, 0);
    SumShift(b, 0, |b|, a + b, |a|);
  }

  lemma SumOne(e: Ext)
    ensures Sum([e]) == e.len
  {
    assert SumOf([e], 0, 1) == [e][0].len + SumOf([e], 1, 1);
  }

  lemma SumAppend(es: seq<Ext>, e: Ext)
    ensures Sum(es + [e]) == Sum(es) + e.len
  {
    SumConcat(es, [e]);
    SumOne(e);
  }

  lemma SumTail(es: seq<Ext>)
    requires |es| > 0
    ensures Sum(es[1..]) == Sum(es) - es[0].len
  {
    SumShift(es, 1, |es|, es[1..], 0);
  }

  lemma SumInsert(es: seq<Ext>, i: nat, e: Ext)
    requires i <= |es|
    ensures Sum(es[..i] + [e] + es[i..]) == Sum(es) + e.len
  {
    var es' := es[..i] + [e] + es[i..];
    SumSplit(es, 0, i, |es|);
    SumSplit(es', 0, i, |es'|);
    SumShift(es, 0, i, es', 0);
    SumShift(es, i, |es|, es', i + 1);
  }

  lemma SumRemove(es: seq<Ext>, i: nat)
    requires i < |es|
    ensures Sum(es[..i] + es[i + 1..]) == Sum(es) - es[i].len
  {
    var es' := es[..i] + es[i + 1..];
    SumSplit(es, 0, i, |es|);
    SumSplit(es', 0, i, |es'|);
    SumShift(es, 0, i, es', 0);
    SumShift(es, i + 1, |es|, es', i);
  }

  lemma SumUpdate(es: seq<Ext>, i: nat, e: Ext)
    requires i < |es|
    ensures Sum(es[i := e]) == Sum(es) - es[i].len + e.len
  {
    var es' := es[i := e];
    SumSplit(es, 0, i, |es|);
    SumSplit(es', 0, i, |es'|);
    SumShift(es, 0, i, es', 0);
    SumShift(es, i + 1, |es|, es', i + 1);
  }

  ghost predicate Apart(a: Ext, b: Ext) {
    a.End() <= b.at || b.End() <= a.at
  }

  ghost predicate Within(es: seq<Ext>, lo: nat, hi: nat) {
    forall i | 0 <= i < |es| :: lo <= es[i].at && es[i].End() <= hi && es[i].len >= 4
  }

  ghost predicate PairwiseApart(es: seq<Ext>) {
    forall i, j | 0 <= i < j < |es| :: Apart(es[i], es[j])
  }

  ghost predicate AllApart(es: seq<Ext>, fs: seq<Ext>) {
    forall i, j | 0 <= i < |es| && 0 <= j < |fs| :: Apart(es[i], fs[j])
  }

  ghost predicate Ordered(fs: seq<Ext>) {
    forall i, j | 0 <= i < j < |fs| :: fs[i].End() <= fs[j].at
  }

  /** The first `n` freeblocks are each more than three bytes before their successor. */
  ghost predicate Spaced(fs: seq<Ext>, n: nat) {
    forall i | 0 <= i < n && i + 1 < |fs| :: fs[i].End() + 3 < fs[i + 1].at
  }

  ghost function Span(lo: int, hi: int): (s: set<int>)
    ensures forall x :: x in s <==> lo <= x < hi
    ensures lo <= hi ==> |s| == hi - lo
    decreases hi - lo
  {
    if lo >= hi then {} else {lo} + Span(lo + 1, hi)
  }

  /** The bytes that the extents lo.. of `es` cover. */
  ghost function CoveredFrom(es: seq<Ext>, lo: nat): (s: set<int>)
    requires lo <= |es|
    decreases |es| - lo
  {
    if lo == |es| then {} else Span(es[lo].at, es[lo].End()) + CoveredFrom(es, lo + 1)
  }

  ghost function Covered(es: seq<Ext>): (s: set<int>) {
    CoveredFrom(es, 0)
  }

  lemma {:induction false} CoveredBy(es: seq<Ext>, lo: nat, x: int) returns (i: nat)
    requires lo <= |es| && x in CoveredFrom(es, lo)
    ensures lo <= i < |es| && es[i].at <= x < es[i].End()
    decreases |es| - lo
  {
    if x in Span(es[lo].at, es[lo].End()) {
      i := lo;
    } else {
      i := CoveredBy(es, lo + 1, x);
    }
  }

  /** Extents that do not overlap cover exactly as many bytes as their lengths add up to. */
  lemma {:induction false} CoveredSize(es: seq<Ext>, lo: nat)
    requires lo <= |es| && PairwiseApart(es)
    ensures |CoveredFrom(es, lo)| == SumOf(es, lo, |es|)
    decreases |es| - lo
  {
    if lo < |es| {
      var head, rest := Span(es[lo].at, es[lo].End()), CoveredFrom(es, lo + 1);
      CoveredSize(es, lo + 1);
      forall x | x in rest ensures x !in head {
        var i := CoveredBy(es, lo + 1, x);
        assert Apart(es[lo], es[i]);
      }
      assert head !! rest;
    }
  }

  lemma SubsetSize<T>(a: set<T>, b: set<T>)
    requires a <= b
    ensures |a| <= |b|
    ensures |b - a| == |b| - |a|
  {
    assert b == a + (b - a);
  }

  /** Extents that do not overlap cannot add up to more than the range they lie in. */
  lemma Packing(es: seq<Ext>, lo: nat, hi: nat)
    requires lo <= hi && PairwiseApart(es)
    requires forall i | 0 <= i < |es| :: lo <= es[i].at && es[i].End() <= hi
    ensures Sum(es) <= hi - lo
  {
    CoveredSize(es, 0);
    forall x | x in Covered(es) ensures x in Span(lo, hi) {
      var i := CoveredBy(es, 0, x);
    }
    SubsetSize(Covered(es), Span(lo, hi));
  }

  lemma ConcatApart(es: seq<Ext>, fs: seq<Ext>)
    requires PairwiseApart(es) && PairwiseApart(fs) && AllApart(es, fs)
    ensures PairwiseApart(es + fs)
  {
  }

  // ---------------------------------------------------------------- the content area in page bytes

  /** Start of the cell content area; a stored 0 stands for 65536. */
  function Top(g: Geom, d: seq<Byte>): (t: nat)
    requires g.Valid() && g.hdr + 8 <= |d|
  {
    var t := Get2(d, g.hdr + 5);
    if t == 0 then 65536 else t
  }

  function Frag(g: Geom, d: seq<Byte>): (n: nat)
    requires g.hdr + 8 <= |d|
  {
    d[g.hdr + 7]
  }

  /** Where the chain stores the offset of freeblock `i`. */
  function LinkAt(g: Geom, fs: seq<Ext>, i: nat): (a: nat)
    requires i <= |fs|
  {
    if i == 0 then g.hdr + 1 else fs[i - 1].at
  }

  /** Link `j` of the chain: it names freeblock `j` and that block's size, or 0 at the end. */
  ghost predicate Linked(g: Geom, d: seq<Byte>, fs: seq<Ext>, j: nat)
    requires g.hdr + 8 <= |d| && Within(fs, 0, |d|) && j <= |fs|
  {
    if j == |fs| then Get2(d, LinkAt(g, fs, j)) == 0
    else Get2(d, LinkAt(g, fs, j)) == fs[j].at && Get2(d, fs[j].at + 2) == fs[j].len
  }

  /** The freeblock chain found in the page bytes is `fs`. */
  ghost predicate Chain(g: Geom, d: seq<Byte>, fs: seq<Ext>)
  {
    && g.hdr + 8 <= |d| && Within(fs, g.hdr + 8, |d|)
    && forall j | 0 <= j <= |fs| :: Linked(g, d, fs, j)
  }

  /** Live extents and freeblocks lie in lo..hi-1 and do not overlap; the freeblocks are in ascending order. */
  ghost predicate Layout(lo: nat, hi: nat, fs: seq<Ext>, es: seq<Ext>)
  {
    Within(fs, lo, hi) && Ordered(fs) && Within(es, lo, hi) && PairwiseApart(es) && AllApart(es, fs)
  }

  /** The content area: live extents, freeblocks and fragment bytes fill it exactly.  `limit` is the
      first byte the content area may occupy.  Neighbouring freeblocks may be close together. */
  ghost predicate LooseSpace(g: Geom, d: seq<Byte>, limit: nat, fs: seq<Ext>, es: seq<Ext>)
  {
    && g.Valid() && g.Usable() <= |d|
    && g.hdr + 8 <= limit <= Top(g, d) <= g.Usable()
    && Layout(Top(g, d), g.Usable(), fs, es)
    && Chain(g, d, fs)
    && Sum(es) + Sum(fs) + Frag(g, d) == g.Usable() - Top(g, d)
  }

  ghost predicate Space(g: Geom, d: seq<Byte>, limit: nat, fs: seq<Ext>, es: seq<Ext>)
  {
    LooseSpace(g, d, limit, fs, es) && Spaced(fs, |fs|)
  }

  /** `d'` differs from `d` at most in a and b. */
  ghost predicate SameExcept(d: seq<Byte>, d': seq<Byte>, a: Ext, b: Ext)
  {
    |d'| == |d| && forall x | 0 <= x < |d| && !(a.at <= x < a.End()) && !(b.at <= x < b.End()) :: d'[x] == d[x]
  }

  /** Bytes no page-space operation may touch: live extents, page flags, cell count, pointer array. */
  ghost predicate Keeps(g: Geom, d: seq<Byte>, d': seq<Byte>, limit: nat, es: seq<Ext>)
  {
    && |d'| == |d|
    && (forall x | 0 <= x < |d| && (x <= g.hdr || x == g.hdr + 3 || x == g.hdr + 4 || g.hdr + 8 <= x < limit) ::
      d'[x] == d[x])
    && (forall i, x | 0 <= i < |es| && es[i].at <= x < es[i].End() && x < |d| :: d'[x] == d[x])
  }

  /** Bytes of the page header that page-space operations rewrite: first freeblock, content start, fragments. */
  ghost predicate SpaceHeader(g: Geom, e: Ext) {
    (g.hdr + 1 <= e.at && e.End() <= g.hdr + 3) || (g.hdr + 5 <= e.at && e.End() <= g.hdr + 8)
  }

  /** Stores into the header and into freeblock `i` leave everything else alone. */
  lemma KeepsRest(g: Geom, d: seq<Byte>, d': seq<Byte>, limit: nat, fs: seq<Ext>, es: seq<Ext>, i: nat, a: Ext, b: Ext)
    requires LooseSpace(g, d, limit, fs, es) && i <= |fs|
    requires SameExcept(d, d', a, b)
    requires SpaceHeader(g, a)
    requires SpaceHeader(g, b) || b.len == 0 || (i < |fs| && fs[i].at <= b.at && b.End() <= fs[i].End())
    ensures Keeps(g, d, d', limit, es)
  {
    forall k, x | 0 <= k < |es| && es[k].at <= x < es[k].End() && x < |d| ensures d'[x] == d[x] {
      assert i < |fs| ==> Apart(es[k], fs[i]);
    }
  }

  // ---------------------------------------------------------------- freeing an extent

  lemma FreeLayout(lo: nat, hi: nat, fs: seq<Ext>, es: seq<Ext>, k: nat, i: nat)
    requires Layout(lo, hi, fs, es) && k < |es| && i <= |fs|
    requires forall j | 0 <= j < i :: fs[j].at < es[k].at
    requires forall j | i <= j < |fs| :: es[k].at <= fs[j].at
    ensures forall j | 0 <= j < i :: fs[j].End() <= es[k].at
    ensures forall j | i <= j < |fs| :: es[k].End() <= fs[j].at
    ensures Layout(lo, hi, fs[..i] + [es[k]] + fs[i..], es[..k] + es[k + 1..])
  {
    var es', fs' := es[..k] + es[k + 1..], fs[..i] + [es[k]] + fs[i..];
    forall j | 0 <= j < |fs| ensures Apart(es[k], fs[j]) {
    }
    FreeOrdered(lo, hi, fs, es[k], i, fs');
    FreeApart(es, fs, k, i, es', fs');
    assert forall a | 0 <= a < |es'| :: es'[a] == es[if a < k then a else a + 1];
  }

  lemma FreeOrdered(lo: nat, hi: nat, fs: seq<Ext>, e: Ext, i: nat, fs': seq<Ext>)
    requires Within(fs, lo, hi) && Ordered(fs) && i <= |fs| && fs' == fs[..i] + [e] + fs[i..] && lo <= e.at
      && e.End() <= hi && e.len >= 4
    requires forall j | 0 <= j < i :: fs[j].End() <= e.at
    requires forall j | i <= j < |fs| :: e.End() <= fs[j].at
    ensures Within(fs', lo, hi) && Ordered(fs')
  {
  }

  lemma FreeApart(es: seq<Ext>, fs: seq<Ext>, k: nat, i: nat, es': seq<Ext>, fs': seq<Ext>)
    requires AllApart(es, fs) && PairwiseApart(es) && k < |es| && i <= |fs|
    requires es' == es[..k] + es[k + 1..] && fs' == fs[..i] + [es[k]] + fs[i..]
    ensures AllApart(es', fs')
  {
    forall a, b | 0 <= a < |es'| && 0 <= b < |fs'| ensures Apart(es'[a], fs'[b]) {
      var a0 := if a < k then a else a + 1;
      assert es'[a] == es[a0];
      if b == i {
        assert Apart(es[if a0 < k then a0 else k], es[if a0 < k then k else a0]);
      } else {
        assert fs'[b] == fs[if b < i then b else b - 1];
      }
    }
  }

  /** A link that reads the same value and names the same block is still a correct link. */
  lemma LinkMoved(g: Geom, d: seq<Byte>, d': seq<Byte>, fs: seq<Ext>, b: nat, fs': seq<Ext>, b': nat)
    requires Chain(g, d, fs) && b <= |fs|
    requires |d'| == |d| && Within(fs', g.hdr + 8, |d'|) && b' <= |fs'|
    requires b == |fs| <==> b' == |fs'|
    requires Get2(d', LinkAt(g, fs', b')) == Get2(d, LinkAt(g, fs, b))
    requires b < |fs| ==> fs'[b'] == fs[b] && Get2(d', fs[b].at + 2) == Get2(d, fs[b].at + 2)
    ensures Linked(g, d', fs', b')
  {
    assert Linked(g, d, fs, b);
  }

  /** A new block `e` is linked in before block `i`. */
  lemma LinkChain(g: Geom, d: seq<Byte>, d': seq<Byte>, fs: seq<Ext>, e: Ext, i: nat)
    requires Ordered(fs) && Chain(g, d, fs) && i <= |fs|
    requires e.len >= 4 && e.at >= g.hdr + 8 && e.End() <= |d|
    requires forall j | 0 <= j < i :: fs[j].End() <= e.at
    requires forall j | i <= j < |fs| :: e.End() <= fs[j].at
    requires SameExcept(d, d', Ext(LinkAt(g, fs, i), 2), Ext(e.at, 4))
    requires Get2(d', LinkAt(g, fs, i)) == e.at
    requires Get2(d', e.at) == Get2(d, LinkAt(g, fs, i)) && Get2(d', e.at + 2) == e.len
    ensures Chain(g, d', fs[..i] + [e] + fs[i..])
  {
    var fs' := fs[..i] + [e] + fs[i..];
    assert Within(fs', g.hdr + 8, |d'|);
    forall j | 0 <= j <= |fs'| ensures Linked(g, d', fs', j) {
      if j < i {
        LinkFront(g, d, d', fs, e, i, j);
      } else if j > i {
        LinkTail(g, d, d', fs, e, i, j);
      }
    }
  }

  lemma LinkFront(g: Geom, d: seq<Byte>, d': seq<Byte>, fs: seq<Ext>, e: Ext, i: nat, j: nat)
    requires Ordered(fs) && Chain(g, d, fs) && j < i <= |fs|
    requires e.len >= 4 && e.at >= g.hdr + 8 && e.End() <= |d|
    requires forall j | 0 <= j < i :: fs[j].End() <= e.at
    requires SameExcept(d, d', Ext(LinkAt(g, fs, i), 2), Ext(e.at, 4))
    requires Within(fs[..i] + [e] + fs[i..], 0, |d'|)
    ensures Linked(g, d', fs[..i] + [e] + fs[i..], j)
  {
    var fs' := fs[..i] + [e] + fs[i..];
    assert Linked(g, d, fs, j);
    assert fs'[j] == fs[j] && LinkAt(g, fs', j) == LinkAt(g, fs, j);
  }

  lemma LinkTail(g: Geom, d: seq<Byte>, d': seq<Byte>, fs: seq<Ext>, e: Ext, i: nat, j: nat)
    requires Ordered(fs) && Chain(g, d, fs) && i < j <= |fs| + 1
    requires e.len >= 4 && e.at >= g.hdr + 8 && e.End() <= |d|
    requires forall j | 0 <= j < i :: fs[j].End() <= e.at
    requires forall j | i <= j < |fs| :: e.End() <= fs[j].at
    requires SameExcept(d, d', Ext(LinkAt(g, fs, i), 2), Ext(e.at, 4))
    requires Get2(d', e.at) == Get2(d, LinkAt(g, fs, i))
    requires Within(fs[..i] + [e] + fs[i..], 0, |d'|)
    ensures Linked(g, d', fs[..i] + [e] + fs[i..], j)
  {
    var fs' := fs[..i] + [e] + fs[i..];
    assert Linked(g, d, fs, j - 1);
    if j <= |fs| {
      assert fs'[j] == fs[j - 1];
    }
    if j == i + 1 {
      assert fs'[j - 1] == e;
    } else {
      assert fs'[j - 1] == fs[j - 2];
    }
  }

  /** The three stores that link extent `e` into the chain. */
  ghost function LinkedBytes(d: seq<Byte>, addr: nat, e: Ext): (d': seq<Byte>)
    requires addr + 1 < |d| && e.at + 3 < |d|
  {
    Set2(Set2(Set2(d, addr, e.at), e.at, Get2(d, addr)), e.at + 2, e.len)
  }

  lemma LinkedBytesRead(d: seq<Byte>, addr: nat, e: Ext)
    requires addr + 1 < e.at && e.at + 3 < |d| <= 0x1_0000 && e.len < 0x1_0000
    ensures var d' := LinkedBytes(d, addr, e);
      && SameExcept(d, d', Ext(addr, 2), Ext(e.at, 4))
      && Get2(d', addr) == e.at && Get2(d', e.at) == Get2(d, addr) && Get2(d', e.at + 2) == e.len
  {
    var v := Get2(d, addr);
    var d1 := Set2(d, addr, e.at);
    var d2 := Set2(d1, e.at, v);
    var d3 := Set2(d2, e.at + 2, e.len);
    assert Get2(d1, addr) == e.at && Get2(d2, e.at) == v && Get2(d3, e.at + 2) == e.len;
    assert Get2(d2, addr) == Get2(d1, addr) && Get2(d3, addr) == Get2(d2, addr) && Get2(d3, e.at) == Get2(d2, e.at);
  }

  /** freeSpace before coalescing: live extent `k` becomes freeblock `i`. */
  lemma FreeStep(g: Geom, d: seq<Byte>, d': seq<Byte>, limit: nat, fs: seq<Ext>, es: seq<Ext>, k: nat, i: nat)
    requires LooseSpace(g, d, limit, fs, es) && |d| <= 0x1_0000 && k < |es| && i <= |fs|
    requires forall j | 0 <= j < i :: fs[j].at < es[k].at
    requires forall j | i <= j < |fs| :: es[k].at <= fs[j].at
    requires d' == LinkedBytes(d, LinkAt(g, fs, i), es[k])
    ensures LooseSpace(g, d', limit, fs[..i] + [es[k]] + fs[i..], es[..k] + es[k + 1..])
    ensures Frag(g, d') == Frag(g, d) && Top(g, d') == Top(g, d)
    ensures Keeps(g, d, d', limit, es[..k] + es[k + 1..])
  {
    FreeLayout(Top(g, d), g.Usable(), fs, es, k, i);
    LinkedBytesRead(d, LinkAt(g, fs, i), es[k]);
    LinkChain(g, d, d', fs, es[k], i);
    SumRemove(es, k);
    SumInsert(fs, i, es[k]);
    FreeKeeps(g, d, d', limit, fs, es, k, i);
  }

  lemma FreeKeeps(g: Geom, d: seq<Byte>, d': seq<Byte>, limit: nat, fs: seq<Ext>, es: seq<Ext>, k: nat, i: nat)
    requires LooseSpace(g, d, limit, fs, es) && k < |es| && i <= |fs|
    requires SameExcept(d, d', Ext(LinkAt(g, fs, i), 2), Ext(es[k].at, 4))
    ensures Keeps(g, d, d', limit, es[..k] + es[k + 1..])
  {
    var es' := es[..k] + es[k + 1..];
    forall a, x | 0 <= a < |es'| && es'[a].at <= x < es'[a].End() && x < |d| ensures d'[x] == d[x] {
      var a0 := if a < k then a else a + 1;
      assert es'[a] == es[a0] && Apart(es[a0], es[k]);
      if i > 0 {
        assert Apart(es[a0], fs[i - 1]);
      }
    }
  }

  // ---------------------------------------------------------------- coalescing neighbouring blocks

  /** The at most three bytes between two close freeblocks hold no live extent, so they are counted as fragments. */
  lemma GapIsFragments(g: Geom, d: seq<Byte>, limit: nat, fs: seq<Ext>, es: seq<Ext>, j: nat)
    requires LooseSpace(g, d, limit, fs, es) && j + 1 < |fs|
    requires fs[j].End() + 3 >= fs[j + 1].at
    ensures 0 <= fs[j + 1].at - fs[j].End() <= Frag(g, d)
  {
    var gap := Ext(fs[j].End(), fs[j + 1].at - fs[j].End());
    assert PairwiseApart(fs);
    ConcatApart(es, fs);
    assert AllApart(es + fs, [gap]) by {
      forall a | 0 <= a < |es + fs| ensures Apart((es + fs)[a], gap) {
        if a < |es| {
          assert Apart(es[a], fs[j]) && Apart(es[a], fs[j + 1]);
        } else {
          assert (es + fs)[a] == fs[a - |es|];
        }
      }
    }
    ConcatApart(es + fs, [gap]);
    Packing(es + fs + [gap], Top(g, d), g.Usable());
    SumAppend(es + fs, gap);
    SumConcat(es, fs);
  }

  ghost function Merged(fs: seq<Ext>, j: nat): (m: seq<Ext>)
    requires j + 1 < |fs| && fs[j].at <= fs[j + 1].at
  {
    fs[..j] + [Ext(fs[j].at, fs[j + 1].End() - fs[j].at)] + fs[j + 2..]
  }

  lemma MergeSum(fs: seq<Ext>, j: nat)
    requires j + 1 < |fs| && fs[j].at <= fs[j + 1].at
    ensures Sum(Merged(fs, j)) == Sum(fs) + fs[j + 1].at - fs[j].End()
  {
    var fs' := Merged(fs, j);
    SumSplit(fs, 0, j, |fs|);
    SumSplit(fs', 0, j, |fs'|);
    SumShift(fs, 0, j, fs', 0);
    SumShift(fs, j + 2, |fs|, fs', j + 1);
    assert SumOf(fs, j, |fs|) == fs[j].len + SumOf(fs, j + 1, |fs|);
  }

  lemma MergeSpaced(fs: seq<Ext>, j: nat)
    requires j + 1 < |fs| && fs[j].at <= fs[j + 1].at && Spaced(fs, j)
    ensures Spaced(Merged(fs, j), j) && Merged(fs, j)[j].at == fs[j].at
  {
    var fs' := Merged(fs, j);
    forall i | 0 <= i < j && i + 1 < |fs'| ensures fs'[i].End() + 3 < fs'[i + 1].at {
      assert fs'[i] == fs[i];
      assert i + 1 < j ==> fs'[i + 1] == fs[i + 1];
    }
  }

  lemma MergeLayout(lo: nat, hi: nat, fs: seq<Ext>, es: seq<Ext>, j: nat)
    requires Layout(lo, hi, fs, es) && j + 1 < |fs|
    requires fs[j].End() + 3 >= fs[j + 1].at
    ensures Layout(lo, hi, Merged(fs, j), es)
  {
    var fs' := Merged(fs, j);
    assert fs'[j] == Ext(fs[j].at, fs[j + 1].End() - fs[j].at);
    assert forall b | 0 <= b < |fs'| && b != j :: fs'[b] == fs[if b < j then b else b + 1];
    assert AllApart(es, fs') by {
      forall a, b | 0 <= a < |es| && 0 <= b < |fs'| ensures Apart(es[a], fs'[b]) {
        if b == j {
          assert Apart(es[a], fs[j]) && Apart(es[a], fs[j + 1]);
        }
      }
    }
  }

  lemma MergeHead(g: Geom, d: seq<Byte>, d': seq<Byte>, fs: seq<Ext>, j: nat, fs': seq<Ext>, b: nat)
    requires Ordered(fs) && Chain(g, d, fs) && j + 1 < |fs| && fs' == Merged(fs, j)
    requires SameExcept(d, d', Ext(g.hdr + 7, 1), Ext(fs[j].at, 4))
    requires Get2(d', fs[j].at + 2) == fs[j + 1].End() - fs[j].at
    requires Within(fs', g.hdr + 8, |d'|) && b <= j
    ensures Linked(g, d', fs', b)
  {
    assert LinkAt(g, fs', b) == LinkAt(g, fs, b);
    assert b > 0 ==> fs[b - 1].End() <= fs[j].at;
    if b < j {
      assert fs'[b] == fs[b] && fs[b].End() <= fs[j].at;
      LinkMoved(g, d, d', fs, b, fs', b);
    } else {
      assert fs'[j] == Ext(fs[j].at, fs[j + 1].End() - fs[j].at);
      assert Linked(g, d, fs, j);
    }
  }

  lemma MergeTail(g: Geom, d: seq<Byte>, d': seq<Byte>, fs: seq<Ext>, j: nat, fs': seq<Ext>, b: nat)
    requires Ordered(fs) && Chain(g, d, fs) && j + 1 < |fs| && fs' == Merged(fs, j)
    requires SameExcept(d, d', Ext(g.hdr + 7, 1), Ext(fs[j].at, 4))
    requires Get2(d', fs[j].at) == Get2(d, fs[j + 1].at)
    requires Within(fs', g.hdr + 8, |d'|) && j < b <= |fs'|
    ensures Linked(g, d', fs', b)
  {
    if b == j + 1 {
      assert LinkAt(g, fs', b) == fs[j].at;
    } else {
      assert LinkAt(g, fs', b) == fs[b].at && fs[j].End() <= fs[b].at;
    }
    if b < |fs'| {
      assert fs'[b] == fs[b + 1] && fs[j].End() <= fs[b + 1].at;
    }
    LinkMoved(g, d, d', fs, b + 1, fs', b);
  }

  lemma MergeChain(g: Geom, d: seq<Byte>, d': seq<Byte>, fs: seq<Ext>, j: nat)
    requires Ordered(fs) && Chain(g, d, fs) && j + 1 < |fs|
    requires SameExcept(d, d', Ext(g.hdr + 7, 1), Ext(fs[j].at, 4))
    requires Get2(d', fs[j].at) == Get2(d, fs[j + 1].at)
    requires Get2(d', fs[j].at + 2) == fs[j + 1].End() - fs[j].at
    ensures Chain(g, d', Merged(fs, j))
  {
    var fs' := Merged(fs, j);
    assert fs'[j] == Ext(fs[j].at, fs[j + 1].End() - fs[j].at);
    assert forall b | 0 <= b < j :: fs'[b] == fs[b];
    assert forall b | j < b < |fs'| :: fs'[b] == fs[b + 1];
    assert Within(fs', g.hdr + 8, |d'|);
    forall b | 0 <= b <= |fs'| ensures Linked(g, d', fs', b) {
      if b <= j {
        MergeHead(g, d, d', fs, j, fs', b);
      } else {
        MergeTail(g, d, d', fs, j, fs', b);
      }
    }
  }

  /** The stores that merge freeblock `j` with the one behind it. */
  ghost function MergedBytes(g: Geom, d: seq<Byte>, p: Ext, q: Ext): (d': seq<Byte>)
    requires g.hdr + 8 <= p.at && p.End() <= q.at && q.at + 3 < |d| && p.at + 3 < |d|
    requires q.at - p.End() <= d[g.hdr + 7]
  {
    Set2(Set2(d[g.hdr + 7 := d[g.hdr + 7] - (q.at - p.End())], p.at, Get2(d, q.at)), p.at + 2, q.End() - p.at)
  }

  lemma MergedBytesRead(g: Geom, d: seq<Byte>, p: Ext, q: Ext)
    requires g.hdr + 8 <= p.at && p.End() <= q.at && p.len >= 4 && q.at + 3 < |d| && q.End() - p.at < 0x1_0000
    requires q.at - p.End() <= d[g.hdr + 7]
    ensures var d' := MergedBytes(g, d, p, q);
      && SameExcept(d, d', Ext(g.hdr + 7, 1), Ext(p.at, 4))
      && Get2(d', p.at) == Get2(d, q.at) && Get2(d', p.at + 2) == q.End() - p.at
      && d'[g.hdr + 7] == d[g.hdr + 7] - (q.at - p.End())
  {
  }

  /** What the bytes show at link `j` of the chain. */
  lemma ReadLink(g: Geom, d: seq<Byte>, limit: nat, fs: seq<Ext>, es: seq<Ext>, j: nat)
    requires LooseSpace(g, d, limit, fs, es) && j <= |fs|
    ensures LinkAt(g, fs, j) + 1 < |d| && (Get2(d, LinkAt(g, fs, j)) > 0 <==> j < |fs|)
    ensures j < |fs| ==>
      && Get2(d, LinkAt(g, fs, j)) == fs[j].at && LinkAt(g, fs, j) + 4 <= fs[j].at && g.hdr + 8 <= fs[j].at
      && fs[j].End() <= g.Usable() <= |d| && fs[j].len >= 4
      && Get2(d, fs[j].at + 2) == fs[j].len
      && (Get2(d, fs[j].at) > 0 <==> j + 1 < |fs|)
    ensures j + 1 < |fs| ==> Get2(d, fs[j].at) == fs[j + 1].at
  {
    assert Linked(g, d, fs, j);
    if j < |fs| {
      assert Linked(g, d, fs, j + 1);
      assert LinkAt(g, fs, j + 1) == fs[j].at;
      assert j > 0 ==> fs[j - 1].End() <= fs[j].at;
    }
  }

  /** One round of coalescing: two close freeblocks become one and swallow the fragment between them. */
  lemma MergeStep(g: Geom, d: seq<Byte>, limit: nat, fs: seq<Ext>, es: seq<Ext>, j: nat)
    requires LooseSpace(g, d, limit, fs, es) && j + 1 < |fs|
    requires fs[j].End() + 3 >= fs[j + 1].at
    ensures fs[j].End() <= fs[j + 1].at && fs[j + 1].at - fs[j].End() <= d[g.hdr + 7]
    ensures var d' := MergedBytes(g, d, fs[j], fs[j + 1]);
      && LooseSpace(g, d', limit, Merged(fs, j), es)
      && Keeps(g, d, d', limit, es)
      && Frag(g, d') <= Frag(g, d) && Top(g, d') == Top(g, d)
  {
    GapIsFragments(g, d, limit, fs, es, j);
    MergedBytesRead(g, d, fs[j], fs[j + 1]);
    MergeSum(fs, j);
    MergeLayout(Top(g, d), g.Usable(), fs, es, j);
    var d' := MergedBytes(g, d, fs[j], fs[j + 1]);
    MergeChain(g, d, d', fs, j);
    KeepsRest(g, d, d', limit, fs, es, j, Ext(g.hdr + 7, 1), Ext(fs[j].at, 4));
  }

  // ---------------------------------------------------------------- a freeblock at the start of the content area

  lemma TrimLayout(hi: nat, fs: seq<Ext>, es: seq<Ext>)
    requires |fs| > 0 && Layout(fs[0].at, hi, fs, es)
    ensures Layout(fs[0].End(), hi, fs[1..], es)
  {
    var fs' := fs[1..];
    assert forall b | 0 <= b < |fs'| :: fs'[b] == fs[b + 1];
    forall a | 0 <= a < |es| ensures fs[0].End() <= es[a].at {
      assert Apart(es[a], fs[0]);
    }
    assert AllApart(es, fs');
  }

  lemma TrimChain(g: Geom, d: seq<Byte>, d': seq<Byte>, fs: seq<Ext>)
    requires Ordered(fs) && Chain(g, d, fs) && |fs| > 0
    requires SameExcept(d, d', Ext(g.hdr + 1, 2), Ext(g.hdr + 5, 2))
    requires Get2(d', g.hdr + 1) == Get2(d, fs[0].at)
    ensures Chain(g, d', fs[1..])
  {
    var fs' := fs[1..];
    assert Within(fs', g.hdr + 8, |d'|);
    forall b | 0 <= b <= |fs'| ensures Linked(g, d', fs', b) {
      assert Linked(g, d, fs, b + 1);
    }
  }

  ghost function TrimmedBytes(g: Geom, d: seq<Byte>, p: Ext): (d': seq<Byte>)
    requires g.hdr + 8 <= |d| && p.at + 1 < |d|
  {
    Set2(d[g.hdr + 1 := d[p.at]][g.hdr + 2 := d[p.at + 1]], g.hdr + 5, p.End())
  }

  lemma TrimmedBytesRead(g: Geom, d: seq<Byte>, p: Ext)
    requires g.hdr + 8 <= p.at && p.at + 1 < |d| && p.End() <= 0x1_0000
    ensures var d' := TrimmedBytes(g, d, p);
      && SameExcept(d, d', Ext(g.hdr + 1, 2), Ext(g.hdr + 5, 2))
      && Get2(d', g.hdr + 1) == Get2(d, p.at) && Get2(d', g.hdr + 5) == p.End() % 0x1_0000
  {
  }

  lemma TailSpaced(fs: seq<Ext>)
    requires |fs| > 0 && Spaced(fs, |fs|)
    ensures Spaced(fs[1..], |fs| - 1)
  {
    forall b | 0 <= b && b + 1 < |fs[1..]| ensures fs[1..][b].End() + 3 < fs[1..][b + 1].at {
      assert fs[1..][b] == fs[b + 1] && fs[1..][b + 1] == fs[b + 2];
    }
  }

  lemma TrimLoose(g: Geom, d: seq<Byte>, d': seq<Byte>, limit: nat, fs: seq<Ext>, es: seq<Ext>)
    requires LooseSpace(g, d, limit, fs, es) && |fs| > 0 && fs[0].at == Top(g, d)
    requires SameExcept(d, d', Ext(g.hdr + 1, 2), Ext(g.hdr + 5, 2))
    requires Get2(d', g.hdr + 1) == Get2(d, fs[0].at) && Get2(d', g.hdr + 5) == fs[0].End() % 0x1_0000
    ensures LooseSpace(g, d', limit, fs[1..], es)
  {
    TrimLayout(g.Usable(), fs, es);
    TrimChain(g, d, d', fs);
    SumTail(fs);
    TrimHeader(g, d, d', fs[0]);
  }

  lemma TrimHeader(g: Geom, d: seq<Byte>, d': seq<Byte>, p: Ext)
    requires g.Valid() && g.hdr + 8 <= p.at && p.at < p.End() <= 0x1_0000 && g.hdr + 8 <= |d|
    requires SameExcept(d, d', Ext(g.hdr + 1, 2), Ext(g.hdr + 5, 2)) && Get2(d', g.hdr + 5) == p.End() % 0x1_0000
    ensures Top(g, d') == p.End() && Frag(g, d') == Frag(g, d)
  {
  }

  /** The freeblock at the start of the content area joins the gap. */
  lemma TrimStep(g: Geom, d: seq<Byte>, limit: nat, fs: seq<Ext>, es: seq<Ext>)
    requires Space(g, d, limit, fs, es) && |fs| > 0 && fs[0].at == Top(g, d)
    ensures var d' := TrimmedBytes(g, d, fs[0]);
      && Space(g, d', limit, fs[1..], es)
      && Keeps(g, d, d', limit, es)
      && Frag(g, d') == Frag(g, d)
  {
    var d' := TrimmedBytes(g, d, fs[0]);
    TrimmedBytesRead(g, d, fs[0]);
    TrimLoose(g, d, d', limit, fs, es);
    KeepsRest(g, d, d', limit, fs, es, 0, Ext(g.hdr + 1, 2), Ext(g.hdr + 5, 2));
    TailSpaced(fs);
  }

  // ---------------------------------------------------------------- allocating from a freeblock

  /** The last n bytes of freeblock `i` become live; the rest of the block stops being free. */
  lemma TakeLayout(lo: nat, hi: nat, fs: seq<Ext>, es: seq<Ext>, i: nat, n: nat)
    requires Layout(lo, hi, fs, es) && i < |fs| && 4 <= n <= fs[i].len
    ensures Layout(lo, hi, fs[..i] + fs[i + 1..], es + [Ext(fs[i].End() - n, n)])
    ensures n + 4 <= fs[i].len ==> Layout(lo, hi, fs[i := Ext(fs[i].at, fs[i].len - n)], es + [Ext(fs[i].End() - n, n)])
  {
    var e := Ext(fs[i].End() - n, n);
    var fs1, fs2, es' := fs[..i] + fs[i + 1..], fs[i := Ext(fs[i].at, fs[i].len - n)], es + [e];
    forall a | 0 <= a < |es| ensures Apart(es[a], e) {
      assert Apart(es[a], fs[i]);
    }
    assert forall b | 0 <= b < |fs1| :: fs1[b] == fs[if b < i then b else b + 1];
    assert AllApart(es', fs1) by {
      forall a, b | 0 <= a < |es'| && 0 <= b < |fs1| ensures Apart(es'[a], fs1[b]) {
        if a < |es| {
          assert Apart(es[a], fs[if b < i then b else b + 1]);
        }
      }
    }
    assert n + 4 <= fs[i].len ==> AllApart(es', fs2) by {
      forall a, b | 0 <= a < |es'| && 0 <= b < |fs2| ensures Apart(es'[a], fs2[b]) {
        if a < |es| {
          assert Apart(es[a], fs[b]);
        }
      }
    }
  }

  lemma UnlinkBefore(g: Geom, d: seq<Byte>, d': seq<Byte>, fs: seq<Ext>, i: nat, fs': seq<Ext>, b: nat)
    requires Ordered(fs) && Chain(g, d, fs) && b < i < |fs| && fs' == fs[..i] + fs[i + 1..]
    requires SameExcept(d, d', Ext(g.hdr + 7, 1), Ext(fs[i - 1].at, 2)) && Within(fs', g.hdr + 8, |d'|)
    ensures Linked(g, d', fs', b)
  {
    var at := LinkAt(g, fs, b);
    assert LinkAt(g, fs', b) == at && fs'[b] == fs[b];
    assert b < i - 1 ==> fs[b].End() <= fs[i - 1].at;
    assert 0 < b ==> fs[b - 1].End() <= fs[i - 1].at;
    BytesSame(g, d, d', fs[i - 1].at, at);
    BytesSame(g, d, d', fs[i - 1].at, fs[b].at + 2);
    LinkMoved(g, d, d', fs, b, fs', b);
  }

  lemma BytesSame(g: Geom, d: seq<Byte>, d': seq<Byte>, link: nat, at: nat)
    requires SameExcept(d, d', Ext(g.hdr + 7, 1), Ext(link, 2)) && at + 1 < |d|
    requires (at + 2 <= link || link + 2 <= at) && (at + 2 <= g.hdr + 7 || g.hdr + 8 <= at)
    ensures Get2(d', at) == Get2(d, at)
  {
  }

  lemma UnlinkBehind(g: Geom, d: seq<Byte>, d': seq<Byte>, fs: seq<Ext>, i: nat, fs': seq<Ext>, b: nat)
    requires Ordered(fs) && Chain(g, d, fs) && i < |fs| && fs' == fs[..i] + fs[i + 1..]
    requires SameExcept(d, d', Ext(g.hdr + 7, 1), Ext(LinkAt(g, fs, i), 2))
    requires Get2(d', LinkAt(g, fs, i)) == Get2(d, fs[i].at)
    requires Within(fs', g.hdr + 8, |d'|) && i <= b <= |fs'|
    ensures Linked(g, d', fs', b)
  {
    var link := LinkAt(g, fs, i);
    if b == i {
      assert LinkAt(g, fs', b) == link && LinkAt(g, fs, b + 1) == fs[i].at;
    } else {
      assert LinkAt(g, fs', b) == fs[b].at && LinkAt(g, fs, b + 1) == fs[b].at
        && (i > 0 ==> fs[i - 1].End() <= fs[b].at);
      BytesSame(g, d, d', link, fs[b].at);
    }
    if b < |fs'| {
      assert fs'[b] == fs[b + 1] && (i > 0 ==> fs[i - 1].End() <= fs[b + 1].at);
      BytesSame(g, d, d', link, fs[b + 1].at + 2);
    }
    LinkMoved(g, d, d', fs, b + 1, fs', b);
  }

  lemma UnlinkLink(g: Geom, d: seq<Byte>, d': seq<Byte>, fs: seq<Ext>, i: nat, fs': seq<Ext>, b: nat)
    requires Ordered(fs) && Chain(g, d, fs) && i < |fs| && fs' == fs[..i] + fs[i + 1..]
    requires SameExcept(d, d', Ext(g.hdr + 7, 1), Ext(LinkAt(g, fs, i), 2))
    requires Get2(d', LinkAt(g, fs, i)) == Get2(d, fs[i].at)
    requires Within(fs', g.hdr + 8, |d'|) && b <= |fs'|
    ensures Linked(g, d', fs', b)
  {
    if b < i {
      UnlinkBefore(g, d, d', fs, i, fs', b);
    } else {
      UnlinkBehind(g, d, d', fs, i, fs', b);
    }
  }

  lemma UnlinkChain(g: Geom, d: seq<Byte>, d': seq<Byte>, fs: seq<Ext>, i: nat)
    requires Ordered(fs) && Chain(g, d, fs) && i < |fs|
    requires SameExcept(d, d', Ext(g.hdr + 7, 1), Ext(LinkAt(g, fs, i), 2))
    requires Get2(d', LinkAt(g, fs, i)) == Get2(d, fs[i].at)
    ensures Chain(g, d', fs[..i] + fs[i + 1..])
  {
    var fs' := fs[..i] + fs[i + 1..];
    assert forall b | 0 <= b < i :: fs'[b] == fs[b];
    assert forall b | i <= b < |fs'| :: fs'[b] == fs[b + 1];
    assert Within(fs', g.hdr + 8, |d'|);
    forall b | 0 <= b <= |fs'| ensures Linked(g, d', fs', b) {
      UnlinkLink(g, d, d', fs, i, fs', b);
    }
  }

  lemma ShrinkChain(g: Geom, d: seq<Byte>, d': seq<Byte>, fs: seq<Ext>, i: nat, x: nat)
    requires Ordered(fs) && Chain(g, d, fs) && i < |fs| && 4 <= x <= fs[i].len
    requires SameExcept(d, d', Ext(fs[i].at + 2, 2), Ext(0, 0))
    requires Get2(d', fs[i].at + 2) == x
    ensures Chain(g, d', fs[i := Ext(fs[i].at, x)])
  {
    var fs' := fs[i := Ext(fs[i].at, x)];
    assert Within(fs', g.hdr + 8, |d'|);
    forall b | 0 <= b <= |fs'| ensures Linked(g, d', fs', b) {
      assert Linked(g, d, fs, b);
      assert LinkAt(g, fs', b) == LinkAt(g, fs, b);
    }
  }

  // ---------------------------------------------------------------- allocating from the gap

  lemma GapLayout(lo: nat, hi: nat, fs: seq<Ext>, es: seq<Ext>, n: nat)
    requires Layout(lo, hi, fs, es) && 4 <= n <= lo <= hi
    ensures Layout(lo - n, hi, fs, es + [Ext(lo - n, n)])
  {
    var es' := es + [Ext(lo - n, n)];
    assert AllApart(es', fs) by {
      forall a, b | 0 <= a < |es'| && 0 <= b < |fs| ensures Apart(es'[a], fs[b]) {
        if a < |es| {
          assert Apart(es[a], fs[b]);
        }
      }
    }
  }

  /** The chain depends on the first-freeblock field and on bytes behind the page header only. */
  ghost predicate SameChainBytes(g: Geom, d: seq<Byte>, d': seq<Byte>)
    requires g.hdr + 8 <= |d| == |d'|
  {
    && d'[g.hdr + 1] == d[g.hdr + 1] && d'[g.hdr + 2] == d[g.hdr + 2]
    && forall x | g.hdr + 8 <= x < |d| :: d'[x] == d[x]
  }

  lemma SameChain(g: Geom, d: seq<Byte>, d': seq<Byte>, fs: seq<Ext>)
    requires Chain(g, d, fs) && |d'| == |d| && SameChainBytes(g, d, d')
    ensures Chain(g, d', fs)
  {
    forall b | 0 <= b <= |fs| ensures Linked(g, d', fs, b) {
      assert Linked(g, d, fs, b);
    }
  }

  // ---------------------------------------------------------------- the three ways to allocate

  ghost function UnlinkedBytes(g: Geom, d: seq<Byte>, addr: nat, pc: nat, frag: Byte): (d': seq<Byte>)
    requires g.hdr + 8 <= |d| && addr + 1 < |d| && pc + 1 < |d|
  {
    d[addr := d[pc]][addr + 1 := d[pc + 1]][g.hdr + 7 := frag]
  }

  lemma UnlinkedBytesRead(g: Geom, d: seq<Byte>, addr: nat, pc: nat, frag: Byte)
    requires g.hdr + 8 <= pc && pc + 1 < |d| && addr + 1 < pc && (addr == g.hdr + 1 || g.hdr + 8 <= addr)
    ensures var d' := UnlinkedBytes(g, d, addr, pc, frag);
      && SameExcept(d, d', Ext(g.hdr + 7, 1), Ext(addr, 2))
      && Get2(d', addr) == Get2(d, pc) && d'[g.hdr + 7] == frag
  {
  }

  /** A slot at most three bytes too big: it leaves the chain and the excess becomes fragment bytes. */
  lemma TakeStep(g: Geom, d: seq<Byte>, limit: nat, fs: seq<Ext>, es: seq<Ext>, i: nat, p: Ext, n: nat, addr: nat,
                 frag: Byte, idx: nat)
    requires Space(g, d, limit, fs, es) && i < |fs| && p == fs[i] && 4 <= n <= p.len < n + 4
    requires Frag(g, d) < 60 && addr == LinkAt(g, fs, i) && frag == d[g.hdr + 7] + p.len - n && idx == p.End() - n
    ensures addr + 1 < |d|
    ensures Space(g, UnlinkedBytes(g, d, addr, p.at, frag), limit, fs[..i] + fs[i + 1..], es + [Ext(idx, n)])
    ensures Keeps(g, d, UnlinkedBytes(g, d, addr, p.at, frag), limit, es)
    ensures Frag(g, UnlinkedBytes(g, d, addr, p.at, frag)) <= 62
  {
    assert i > 0 ==> fs[i - 1].End() <= fs[i].at;
    UnlinkedBytesRead(g, d, addr, p.at, frag);
    var d' := UnlinkedBytes(g, d, addr, p.at, frag);
    if i == 0 {
      KeepsRest(g, d, d', limit, fs, es, i, Ext(g.hdr + 7, 1), Ext(g.hdr + 1, 2));
    } else {
      KeepsRest(g, d, d', limit, fs, es, i - 1, Ext(g.hdr + 7, 1), Ext(fs[i - 1].at, 2));
    }
    RemoveSpaced(fs, i);
    TakeLoose(g, d, d', limit, fs, es, i, n);
  }

  lemma TakeLoose(g: Geom, d: seq<Byte>, d': seq<Byte>, limit: nat, fs: seq<Ext>, es: seq<Ext>, i: nat, n: nat)
    requires LooseSpace(g, d, limit, fs, es) && i < |fs| && 4 <= n <= fs[i].len
    requires SameExcept(d, d', Ext(g.hdr + 7, 1), Ext(LinkAt(g, fs, i), 2))
    requires Get2(d', LinkAt(g, fs, i)) == Get2(d, fs[i].at) && d'[g.hdr + 7] == d[g.hdr + 7] + fs[i].len - n
    ensures LooseSpace(g, d', limit, fs[..i] + fs[i + 1..], es + [Ext(fs[i].End() - n, n)])
    ensures Top(g, d') == Top(g, d)
  {
    UnlinkChain(g, d, d', fs, i);
    TakeLayout(Top(g, d), g.Usable(), fs, es, i, n);
    SumRemove(fs, i);
    SumAppend(es, Ext(fs[i].End() - n, n));
  }

  lemma RemoveSpaced(fs: seq<Ext>, i: nat)
    requires Ordered(fs) && Spaced(fs, |fs|) && i < |fs|
    ensures Spaced(fs[..i] + fs[i + 1..], |fs| - 1)
  {
    var fs' := fs[..i] + fs[i + 1..];
    forall b | 0 <= b && b + 1 < |fs'| ensures fs'[b].End() + 3 < fs'[b + 1].at {
      if b + 1 == i {
        assert fs[b].End() + 3 < fs[b + 1].at <= fs[i].End() <= fs[i + 1].at;
      } else if b + 1 < i {
        assert fs'[b] == fs[b] && fs'[b + 1] == fs[b + 1];
      } else {
        assert fs'[b] == fs[b + 1] && fs'[b + 1] == fs[b + 2];
      }
    }
  }

  lemma ShrinkSpaced(fs: seq<Ext>, i: nat, x: nat)
    requires Spaced(fs, |fs|) && i < |fs| && x <= fs[i].len
    ensures Spaced(fs[i := Ext(fs[i].at, x)], |fs|)
  {
    var fs' := fs[i := Ext(fs[i].at, x)];
    forall b | 0 <= b && b + 1 < |fs'| ensures fs'[b].End() + 3 < fs'[b + 1].at {
      assert fs'[b].End() <= fs[b].End() && fs'[b + 1].at == fs[b + 1].at;
    }
  }

  lemma ShrinkLoose(g: Geom, d: seq<Byte>, d': seq<Byte>, limit: nat, fs: seq<Ext>, es: seq<Ext>, i: nat, n: nat)
    requires LooseSpace(g, d, limit, fs, es) && i < |fs| && 4 <= n && n + 4 <= fs[i].len
    requires SameExcept(d, d', Ext(fs[i].at + 2, 2), Ext(0, 0)) && Get2(d', fs[i].at + 2) == fs[i].len - n
    ensures LooseSpace(g, d', limit, fs[i := Ext(fs[i].at, fs[i].len - n)], es + [Ext(fs[i].End() - n, n)])
    ensures Frag(g, d') == Frag(g, d) && Top(g, d') == Top(g, d)
  {
    var fs', es' := fs[i := Ext(fs[i].at, fs[i].len - n)], es + [Ext(fs[i].End() - n, n)];
    ShrinkHeader(g, d, d', fs, i);
    ShrinkChain(g, d, d', fs, i, fs[i].len - n);
    TakeLayout(Top(g, d), g.Usable(), fs, es, i, n);
    ShrinkSums(fs, es, i, n, fs', es');
    MakeLoose(g, d', limit, fs', es', Top(g, d));
  }

  lemma ShrinkHeader(g: Geom, d: seq<Byte>, d': seq<Byte>, fs: seq<Ext>, i: nat)
    requires g.Valid() && g.hdr + 8 <= |d| && i < |fs| && g.hdr + 8 <= fs[i].at
    requires SameExcept(d, d', Ext(fs[i].at + 2, 2), Ext(0, 0))
    ensures Top(g, d') == Top(g, d) && Frag(g, d') == Frag(g, d)
  {
  }

  lemma ShrinkSums(fs: seq<Ext>, es: seq<Ext>, i: nat, n: nat, fs': seq<Ext>, es': seq<Ext>)
    requires i < |fs| && n <= fs[i].len
    requires fs' == fs[i := Ext(fs[i].at, fs[i].len - n)] && es' == es + [Ext(fs[i].End() - n, n)]
    ensures Sum(es') + Sum(fs') == Sum(es) + Sum(fs)
  {
    SumUpdate(fs, i, Ext(fs[i].at, fs[i].len - n));
    SumAppend(es, Ext(fs[i].End() - n, n));
  }

  lemma MakeLoose(g: Geom, d: seq<Byte>, limit: nat, fs: seq<Ext>, es: seq<Ext>, top: nat)
    requires g.Valid() && g.Usable() <= |d| && g.hdr + 8 <= |d| && top == Top(g, d)
    requires g.hdr + 8 <= limit <= top <= g.Usable() && Layout(top, g.Usable(), fs, es) && Chain(g, d, fs)
    requires Sum(es) + Sum(fs) + Frag(g, d) == g.Usable() - top
    ensures LooseSpace(g, d, limit, fs, es)
  {
  }

  /** A bigger slot: it stays in the chain, shortened by the allocation at its end. */
  lemma ShrinkStep(g: Geom, d: seq<Byte>, limit: nat, fs: seq<Ext>, es: seq<Ext>, i: nat, p: Ext, n: nat, x: nat,
                   idx: nat)
    requires Space(g, d, limit, fs, es) && i < |fs| && p == fs[i] && 4 <= n && n + 4 <= p.len < 0x1_0000
    requires x == p.len - n && idx == p.End() - n
    ensures Space(g, Set2(d, p.at + 2, x), limit, fs[i := Ext(p.at, x)], es + [Ext(idx, n)])
    ensures Keeps(g, d, Set2(d, p.at + 2, x), limit, es)
    ensures Frag(g, Set2(d, p.at + 2, x)) == Frag(g, d)
  {
    var d' := Set2(d, p.at + 2, x);
    ReadLink(g, d, limit, fs, es, i);
    SizeStored(d, p.at + 2, x, d');
    ShrinkSpaced(fs, i, x);
    ShrinkLoose(g, d, d', limit, fs, es, i, n);
    ShrinkKeeps(g, d, d', limit, fs, es, i);
  }

  lemma SizeStored(d: seq<Byte>, at: nat, x: nat, d': seq<Byte>)
    requires at + 1 < |d| && x < 0x1_0000 && d' == Set2(d, at, x)
    ensures SameExcept(d, d', Ext(at, 2), Ext(0, 0)) && Get2(d', at) == x
  {
  }

  lemma ShrinkKeeps(g: Geom, d: seq<Byte>, d': seq<Byte>, limit: nat, fs: seq<Ext>, es: seq<Ext>, i: nat)
    requires LooseSpace(g, d, limit, fs, es) && i < |fs| && fs[i].len >= 4
      && SameExcept(d, d', Ext(fs[i].at + 2, 2), Ext(0, 0))
    ensures Keeps(g, d, d', limit, es)
  {
    KeepsRest(g, d, d', limit, fs, es, i, Ext(g.hdr + 1, 0), Ext(fs[i].at + 2, 2));
  }

  lemma Set2Read(d: seq<Byte>, i: nat, v: nat)
    requires i + 1 < |d| && v < 0x1_0000
    ensures SameExcept(d, Set2(d, i, v), Ext(i, 2), Ext(i, 0)) && Get2(Set2(d, i, v), i) == v
  {
  }

  /** The allocation comes off the top of the gap. */
  lemma GapStep(g: Geom, d: seq<Byte>, d': seq<Byte>, limit: nat, fs: seq<Ext>, es: seq<Ext>, n: nat, idx: nat)
    requires Space(g, d, limit, fs, es) && 4 <= n && limit <= idx && idx + n == Top(g, d)
    requires SameExcept(d, d', Ext(g.hdr + 5, 2), Ext(g.hdr + 5, 0)) && Get2(d', g.hdr + 5) == idx
    ensures Space(g, d', limit, fs, es + [Ext(idx, n)])
    ensures Keeps(g, d, d', limit, es)
    ensures Frag(g, d') == Frag(g, d)
  {
    SameChain(g, d, d', fs);
    GapLayout(Top(g, d), g.Usable(), fs, es, n);
    SumAppend(es, Ext(idx, n));
  }
}
