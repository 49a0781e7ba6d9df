/** Where pointer-map pages lie, and the final database size that autoVacuumCommit computes. */
module PtrmapPages {
  import opened Arith

  /** Position of the pointer-map pages: `per` pages make up a group, the first of them maps the others, and the page
      of the pending byte is never used. */
  datatype MapGeom = MapGeom(per: nat, pending: nat)
  {
    ghost predicate Valid() {
      per >= 2 && pending >= 2
    }

    /** ptrmapPageno: the map page responsible for page p. */
    function PtrmapPageno(p: nat): (m: nat)
      requires Valid()
    {
      if p < 2 then 0
      else
        var m := (p - 2) / per * per + 2;
        if m == pending then m + 1 else m
    }

    predicate IsMap(p: nat)
      requires Valid()
    {
      PtrmapPageno(p) == p
    }

    /** A page that can hold part of the database. */
    predicate Ordinary(p: nat)
      requires Valid()
    {
      p >= 1 && !IsMap(p) && p != pending
    }

    /** Ordinary pages among 1..n. */
    ghost function Count(n: nat): (c: nat)
      requires Valid()
    {
      if n == 0 then 0 else Count(n - 1) + if Ordinary(n) then 1 else 0
    }

    /** Map pages among 1..n. */
    ghost function Maps(n: nat): (c: nat)
      requires Valid()
    {
      if n < 2 then 0
      else (n - 2) / per + if PtrmapPageno(n) <= n then 1 else 0
    }
  }

  const U32 := 0x1_0000_0000

  lemma GroupOf(per: nat, g: nat, off: nat)
    requires per >= 2 && off < per
    ensures (g * per + off) / per == g
  {
    DivUnique(g * per + off, per, g, off);
  }

  /** Every page from 2 on is at some offset of some group. */
  lemma Locate(m: MapGeom, p: nat) returns (g: nat, off: nat)
    requires m.Valid() && p >= 2
    ensures p == 2 + g * m.per + off && off < m.per && (p - 2) / m.per == g
    ensures m.PtrmapPageno(p) == if p - off == m.pending then p - off + 1 else p - off
  {
    g, off := (p - 2) / m.per, (p - 2) % m.per;
  }

  /** Count and Maps agree: every page up to n is a map page, the pending page, or ordinary. */
  lemma {:induction false} ClosedForm(m: MapGeom, n: nat)
    requires m.Valid()
    ensures m.Count(n) == n - m.Maps(n) - if m.pending <= n then 1 else 0
  {
    if n >= 2 {
      ClosedForm(m, n - 1);
      MapsStep(m, n);
    } else if n == 1 {
      assert m.Count(0) == 0;
    }
  }

  lemma MapsStep(m: MapGeom, n: nat)
    requires m.Valid() && n >= 2
    ensures m.Maps(n) == m.Maps(n - 1) + if m.IsMap(n) then 1 else 0
  {
    var g, off := Locate(m, n);
    if off > 0 {
      GroupOf(m.per, g, off - 1);
    } else if g > 0 {
      assert n - 3 == (g - 1) * m.per + (m.per - 1);
      GroupOf(m.per, g - 1, m.per - 1);
    }
  }

  /** Number of map pages up to a page given by group and offset. */
  lemma MapsAt(m: MapGeom, g: nat, off: nat, p: nat)
    requires m.Valid() && off < m.per && p == 2 + g * m.per + off
    ensures m.Maps(p) == if p == m.pending && off == 0 then g else g + 1
  {
    GroupOf(m.per, g, off);
  }

  /** Neither of the two pages behind a map page is a map page. */
  lemma BehindMap(m: MapGeom, n: nat)
    requires m.Valid() && m.per >= 4 && n >= 2 && m.IsMap(n)
    ensures !m.IsMap(n + 1) && !m.IsMap(n + 2)
  {
    var g, off := Locate(m, n);
    assert off <= 1;
    GroupOf(m.per, g, off + 1);
    GroupOf(m.per, g, off + 2);
  }
}

module AutoVacuum {
  import opened Arith
  import opened PtrmapPages

  datatype Outcome = Fin(pages: nat) | Corrupt

  /** How many map pages are passed when f ordinary pages are taken off a group whose last page is number r. */
  lemma Crossed(nEntry: nat, f: nat, r: nat, k: nat) returns (t: nat)
    requires nEntry >= 1 && r <= nEntry && k == (f - r + nEntry) / nEntry
    ensures if f < r then k == 0 && t == 0 else k >= 1 && t < nEntry && f == r + (k - 1) * nEntry + t
  {
    t := 0;
    if f >= r {
      var d := f - r;
      t := d % nEntry;
      DivStep(d, nEntry);
      WholeAndRest(d, nEntry);
    } else {
      DivUnique(f - r + nEntry, nEntry, 0, f - r + nEntry);
    }
  }

  lemma WholeAndRest(d: nat, n: nat)
    requires n >= 1
    ensures d == (d / n) * n + d % n && d % n < n
  {
  }

  /** The page reached from offset r of group gr by removing f ordinary pages and the k map pages passed on the way,
      as if there were no pending page. */
  lemma StepDown(m: MapGeom, nEntry: nat, gr: nat, r: nat, f: nat, k: nat, x: int) returns (g: int, off: nat)
    requires m.Valid() && m.per == nEntry + 1 && 1 <= r <= nEntry && k == (f - r + nEntry) / nEntry
    requires x == 2 + gr * m.per + r - f - k
    ensures g == gr - k && x == 2 + g * m.per + off && 1 <= off <= nEntry
  {
    var t := Crossed(nEntry, f, r, k);
    g := gr - k;
    if f < r {
      off := r - f;
    } else {
      off := nEntry - t;
      assert (k - 1) * nEntry + k == (k - 1) * m.per + 1;
      assert g * m.per == gr * m.per - k * m.per;
    }
  }

  /** A page number in front of group 0 can only be page 1. */
  lemma InFrontOfGroups(per: nat, g: int, off: nat, x: int, c: int)
    requires per >= 2 && g < 0 && 1 <= off < per && x == 2 + g * per + off && 1 <= c <= x - g - 1
    ensures x == 1 && g == -1
  {
    if g < -1 {
      assert g * per == g * (per - 1) + g && g * (per - 1) == -((-g) * (per - 1));
      MulMono(2, -g, per - 1);
    }
  }

  /** The closed formula lands on a page with exactly the right number of ordinary pages up to it. */
  lemma Exact(m: MapGeom, nEntry: nat, no: nat, f: nat, k: nat, x': int, x: int)
    requires m.Valid() && m.per == nEntry + 1 && m.Ordinary(no) && f < m.Count(no)
    requires no - m.PtrmapPageno(no) <= nEntry && k == (f - no + m.PtrmapPageno(no) + nEntry) / nEntry
    requires x' == no - f - k && x == if no > m.pending && x' < m.pending then x' - 1 else x'
    ensures 1 <= x <= no && m.Count(x) == m.Count(no) - f
  {
    ClosedForm(m, no);
    if no >= 2 {
      var gr, r := Locate(m, no);
      MapsAt(m, gr, r, no);
      if no - r == m.pending {
        ExactDisplaced(m, nEntry, no, gr, r, f, k, x', x);
      } else {
        ExactNormal(m, nEntry, no, gr, r, f, k, x', x);
      }
    } else {
      assert m.Count(1) == 1;
      assert k == 0 by {
        DivUnique(nEntry - 1, nEntry, 0, nEntry - 1);
      }
    }
  }

  /** The group of the last page has its map page in the usual place. */
  lemma ExactNormal(m: MapGeom, nEntry: nat, no: nat, gr: nat, r: nat, f: nat, k: nat, x': int, x: int)
    requires m.Valid() && m.per == nEntry + 1 && 1 <= r <= nEntry && no == 2 + gr * m.per + r && no != m.pending
      && no - r != m.pending
    requires m.Count(no) == no - (gr + 1) - (if m.pending <= no then 1 else 0) && f < m.Count(no)
    requires k == (f - r + nEntry) / nEntry && x' == no - f - k
    requires x == if no > m.pending && x' < m.pending then x' - 1 else x'
    ensures 1 <= x <= no && m.Count(x) == m.Count(no) - f
  {
    var g, off := StepDown(m, nEntry, gr, r, f, k, x');
    if g < 0 {
      InFrontOfGroups(m.per, g, off, x', m.Count(no) - f);
      ClosedForm(m, 1);
    } else {
      if x == x' {
        MapsAt(m, g, off, x);
      } else {
        MapsAt(m, g, off - 1, x);
      }
      ClosedForm(m, x);
    }
  }

  /** The pending page is the first of that group, and the map page the second. */
  lemma ExactDisplaced(m: MapGeom, nEntry: nat, no: nat, gr: nat, r: nat, f: nat, k: nat, x': int, x: int)
    requires m.Valid() && m.per == nEntry + 1 && 2 <= r <= nEntry && no == 2 + gr * m.per + r && no - r == m.pending
    requires m.Count(no) == no - (gr + 1) - 1 && f < m.Count(no)
    requires k == (f - (r - 1) + nEntry) / nEntry && x' == no - f - k
    requires x == if no > m.pending && x' < m.pending then x' - 1 else x'
    ensures 1 <= x <= no && m.Count(x) == m.Count(no) - f
  {
    var g, off := StepDown(m, nEntry, gr, r - 1, f, k, x' - 1);
    Distribute(gr, k, m.per);
    if k > 0 {
      MulMono(1, k, m.per);
    }
    if g < 0 {
      InFrontOfGroups(m.per, g, off, x' - 1, m.Count(no) - f);
    }
    DisplacedMaps(m, gr, k, x', x, g, off);
    ClosedForm(m, x);
  }

  lemma DisplacedMaps(m: MapGeom, gr: nat, k: nat, x': int, x: int, g: int, off: nat)
    requires m.Valid() && m.pending == 2 + gr * m.per && g == gr - k && 1 <= off < m.per
    requires x' - 1 == 2 + g * m.per + off && x == if x' < m.pending then x' - 1 else x'
    requires if k == 0 then off + 1 < m.per else g * m.per + m.per <= gr * m.per
    requires g < 0 ==> x' == 2 && g == -1
    ensures x >= 1 && x <= x'
    ensures m.Maps(x) == if x < m.pending then g + 1 else if k == 0 then gr + 1 else gr
    ensures k == 0 ==> x == x' > m.pending
    ensures k > 0 && x >= m.pending ==> k == 1
  {
    if g < 0 {
      if x == 2 {
        FirstIsPending(m);
      }
    } else if k == 0 {
      MapsAt(m, g, off + 1, x');
    } else if x == x' {
      assert x' == m.pending;
      MapsAt(m, gr, 0, x');
    } else {
      MapsAt(m, g, off, x);
    }
  }

  lemma Distribute(x: nat, y: nat, b: nat)
    ensures (x - y) * b == x * b - y * b
  {
  }

  lemma FirstIsPending(m: MapGeom)
    requires m.Valid() && m.pending == 2
    ensures m.Maps(2) == 0
  {
    MapsAt(m, 0, 0, 2);
  }

  /** Arithmetic on page numbers. */
  function Wrap(v: int): (w: nat)
    ensures w < U32 && (0 <= v < U32 ==> w == v)
  {
    v % U32
  }

  /** nFin before map pages and the pending page are skipped; mapNo is the map page of nOrig. */
  function RawFin(nEntry: nat, pending: nat, nOrig: nat, nFree: nat, mapNo: nat): (x: nat)
    requires nEntry >= 1
  {
    var nPtrmap := Wrap(nFree - nOrig + mapNo + nEntry) / nEntry;
    var nFin := Wrap(nOrig - nFree - nPtrmap);
    if nOrig > pending && nFin < pending then Wrap(nFin - 1) else nFin
  }

  lemma QuotientNat(a: nat, b: nat)
    requires b >= 1
    ensures a / b >= 0
  {
  }

  lemma RawIs(nEntry: nat, pending: nat, nOrig: nat, nFree: nat, mapNo: nat, k: nat, x: nat)
    requires nEntry >= 1 && 0 <= nFree - nOrig + mapNo + nEntry < U32 && k == (nFree - nOrig + mapNo + nEntry) / nEntry
    requires nOrig < U32
      && x == if nOrig > pending && nOrig - nFree - k < pending then nOrig - nFree - k - 1 else nOrig - nFree - k
    ensures RawFin(nEntry, pending, nOrig, nFree, mapNo) == x
  {
  }

  lemma RawExact(m: MapGeom, nEntry: nat, nOrig: nat, nFree: nat)
    requires m.Valid() && m.per == nEntry + 1 && nEntry < 65536 && m.Ordinary(nOrig) && nFree < m.Count(nOrig)
      && nOrig < 0x8000_0000
    ensures var x := RawFin(nEntry, m.pending, nOrig, nFree, m.PtrmapPageno(nOrig));
      1 <= x <= nOrig && m.Count(x) == m.Count(nOrig) - nFree
  {
    MapDistance(m, nOrig);
    CountBound(m, nOrig);
    var mapNo := m.PtrmapPageno(nOrig);
    assert 0 <= nFree - nOrig + mapNo + nEntry < U32;
    QuotientNat(nFree - nOrig + mapNo + nEntry, nEntry);
    var k: nat := (nFree - nOrig + mapNo + nEntry) / nEntry;
    var x' := nOrig - nFree - k;
    var x := if nOrig > m.pending && x' < m.pending then x' - 1 else x';
    Exact(m, nEntry, nOrig, nFree, k, x', x);
    RawIs(nEntry, m.pending, nOrig, nFree, mapNo, k, x);
  }

  /** The size computation of autoVacuumCommit for a database of nOrig pages of which nFree are on the freelist.
      Page numbers are 32-bit unsigned. */
  method FinalSize(usable: nat, pending: nat, nOrig: nat, nFree: nat) returns (r: Outcome)
    requires 5 <= usable <= 65536 && pending >= 2 && 1 <= nOrig < 0x8000_0000
    requires nFree < MapGeom(usable / 5 + 1, pending).Count(nOrig)
    ensures r == Corrupt <==> !MapGeom(usable / 5 + 1, pending).Ordinary(nOrig)
    ensures r.Fin? ==>
      var m := MapGeom(usable / 5 + 1, pending);
      r.pages <= nOrig && m.Ordinary(r.pages) && m.Count(r.pages) == m.Count(nOrig) - nFree
  {
    var nEntry := usable / 5;
    var m := MapGeom(nEntry + 1, pending);
    if m.IsMap(nOrig) || nOrig == pending {
      return Corrupt;
    }
    RawExact(m, nEntry, nOrig, nFree);
    var nFin := RawFin(nEntry, pending, nOrig, nFree, m.PtrmapPageno(nOrig));
    nFin := SkipBack(m, nFin);
    if nFin > nOrig {
      return Corrupt;
    }
    return Fin(nFin);
  }

  /** Step over map pages and the pending page. */
  method SkipBack(m: MapGeom, start: nat) returns (p: nat)
    requires m.Valid() && start < U32 && m.Count(start) >= 1
    ensures p <= start && m.Ordinary(p) && m.Count(p) == m.Count(start)
  {
    p := start;
    while m.IsMap(p) || p == m.pending
      invariant 1 <= p <= start && m.Count(p) == m.Count(start)
      decreases p
    {
      p := Wrap(p - 1);
    }
  }

  lemma MapDistance(m: MapGeom, no: nat)
    requires m.Valid() && m.Ordinary(no)
    ensures no == 1 || m.PtrmapPageno(no) < no
    ensures no - m.PtrmapPageno(no) <= m.per - 1
  {
    if no >= 2 {
      var g, off := Locate(m, no);
    }
  }

  lemma {:induction false} CountBound(m: MapGeom, n: nat)
    requires m.Valid()
    ensures m.Count(n) <= n && (n >= 1 ==> m.Count(n) >= 1)
  {
    if n > 0 {
      CountBound(m, n - 1);
    }
  }
}
