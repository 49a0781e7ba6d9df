/** Byte positions of the pages of source and destination. */
module BackupGeometry {
  import opened Arith

  const PENDING_BYTE := 0x4000_0000

  /** The two page sizes: powers of two, so that one divides the other and both divide the pending byte. */
  datatype Geom = Geom(src: nat, dest: nat)
  {
    ghost predicate Valid() {
      && src >= 512 && dest >= 512
      && Divides(src, PENDING_BYTE) && Divides(dest, PENDING_BYTE)
      && (Divides(src, dest) || Divides(dest, src))
    }
    /** First byte of source page p. */
    function Base(p: nat): (o: int) {
      (p - 1) * src
    }
    /** PENDING_BYTE_PAGE of the destination, and of the source. */
    function PendingDest(): (p: nat)
      requires dest > 0
    {
      PENDING_BYTE / dest + 1
    }
    function PendingSrc(): (p: nat)
      requires src > 0
    {
      PENDING_BYTE / src + 1
    }
    function Larger(): (n: nat) {
      if src > dest then src else dest
    }
    /** Bytes of a pending-byte page of either file. */
    predicate Hole(o: int) {
      PENDING_BYTE <= o < PENDING_BYTE + Larger()
    }
  }

  ghost predicate Divides(a: nat, b: nat) {
    a > 0 && exists k: nat :: b == k * a
  }

  lemma {:induction false} PowerDivides(i: nat, j: nat)
    requires i <= j
    ensures Pow2(i) > 0 && exists k: nat :: Pow2(j) == k * Pow2(i)
    decreases j
  {
    if i == j {
      assert Pow2(j) == 1 * Pow2(i);
    } else {
      PowerDivides(i, j - 1);
      var k: nat :| Pow2(j - 1) == k * Pow2(i);
      assert Pow2(j) == (2 * k) * Pow2(i);
    }
  }

  function Pow2(n: nat): (p: nat)
    ensures p > 0
  {
    if n == 0 then 1 else 2 * Pow2(n - 1)
  }

  /** Any two page sizes between 512 and 65536 that are powers of two are a valid pair. */
  lemma PageSizes(i: nat, j: nat)
    requires 9 <= i <= 16 && 9 <= j <= 16
    ensures Geom(Pow2(i), Pow2(j)).Valid()
  {
    PowerDivides(9, i);
    PowerDivides(9, j);
    assert Pow2(9) == 512;
    assert Pow2(30) == PENDING_BYTE by {
      assert Pow2(20) == 0x10_0000;
    }
    PowerDivides(i, 30);
    PowerDivides(j, 30);
    if i <= j {
      PowerDivides(i, j);
    } else {
      PowerDivides(j, i);
    }
  }

  lemma BaseNext(g: Geom, p: nat)
    ensures g.Base(p + 1) == g.Base(p) + g.src
  {
  }

  lemma BaseMono(g: Geom, p: nat, q: nat)
    requires p <= q
    ensures g.Base(p) <= g.Base(q)
  {
    assert (q - 1) * g.src == (p - 1) * g.src + (q - p) * g.src;
  }

  /** The destination page that contains byte o is the pending one exactly when o is among its bytes. */
  lemma OnPendingDest(g: Geom, o: nat)
    requires g.Valid()
    ensures o / g.dest + 1 == g.PendingDest() <==> PENDING_BYTE <= o < PENDING_BYTE + g.dest
  {
    var m: nat :| PENDING_BYTE == m * g.dest;
    DivUnique(PENDING_BYTE, g.dest, m, 0);
    var q, t := o / g.dest, o % g.dest;
    assert o == q * g.dest + t;
    if PENDING_BYTE <= o < PENDING_BYTE + g.dest {
      DivUnique(o, g.dest, m, o - PENDING_BYTE);
    }
  }

  /** The offset of a byte within its source page. */
  lemma WithinPage(g: Geom, p: nat, d: nat)
    requires g.src > 0 && p >= 1 && d < g.src
    ensures (g.Base(p) + d) % g.src == d && g.Base(p) >= 0
  {
    var o := g.Base(p) + d;
    assert g.Base(p) >= 0 by {
      BaseMono(g, 1, p);
    }
    DivUnique(o, g.src, p - 1, d);
    assert o == (o / g.src) * g.src + o % g.src;
  }

  /** A byte of the source pending page. */
  lemma OnPendingSrc(g: Geom)
    requires g.Valid()
    ensures g.PendingSrc() >= 1 && g.Base(g.PendingSrc()) == PENDING_BYTE
  {
    var m: nat :| PENDING_BYTE == m * g.src;
    DivUnique(PENDING_BYTE, g.src, m, 0);
  }

  /** The number of bytes copied at a time. */
  function Chunk(g: Geom): (n: nat) {
    if g.src < g.dest then g.src else g.dest
  }

  /** Chunk boundaries are multiples of the chunk size. */
  lemma Aligned(g: Geom, p: nat, j: nat) returns (k: int)
    requires g.Valid() && p >= 1 && (j > 0 ==> g.dest <= g.src)
    ensures g.Base(p) + j * g.dest == k * Chunk(g)
  {
    if g.src < g.dest {
      k := p - 1;
    } else {
      var r := Multiple(g);
      k := (p - 1) * r + j;
      assert (p - 1) * (r * g.dest) == ((p - 1) * r) * g.dest;
      assert k * g.dest == ((p - 1) * r) * g.dest + j * g.dest;
    }
  }

  lemma Multiple(g: Geom) returns (r: nat)
    requires g.Valid() && g.dest <= g.src
    ensures g.src == r * g.dest
  {
    if Divides(g.dest, g.src) {
      r :| g.src == r * g.dest;
    } else {
      var q: nat :| g.dest == q * g.src;
      if q >= 2 {
        MulMono(2, q, g.src);
      }
      r := 1;
    }
  }

  /** A chunk that is skipped because its destination page is the pending one lies in the hole. */
  lemma SkippedInHole(g: Geom, o: int, k: int)
    requires g.Valid() && o == k * Chunk(g) && PENDING_BYTE <= o < PENDING_BYTE + g.dest
    ensures o + Chunk(g) <= PENDING_BYTE + g.Larger()
  {
    var n := Chunk(g);
    var m: nat :| PENDING_BYTE == m * n;
    var r := 1;
    if g.src < g.dest {
      r := DestMultiple(g);
    }
    SumTimes(m, r, n);
    NextMultiple(k, m + r, n);
  }

  lemma DestMultiple(g: Geom) returns (r: nat)
    requires g.Valid() && g.src < g.dest
    ensures g.dest == r * g.src
  {
    if Divides(g.src, g.dest) {
      r :| g.dest == r * g.src;
    } else {
      var q: nat :| g.src == q * g.dest;
      if q >= 1 {
        MulMono(1, q, g.dest);
      }
      assert false;
    }
  }

  lemma SumTimes(x: nat, y: nat, n: nat)
    ensures (x + y) * n == x * n + y * n
  {
  }

  lemma NextMultiple(k: int, l: int, n: nat)
    requires n > 0 && k * n < l * n
    ensures k * n + n <= l * n
  {
    if l <= k {
      MulMonoInt(l, k, n);
    } else {
      assert (k + 1) * n == k * n + n;
      MulMonoInt(k + 1, l, n);
    }
  }
}

/** Online backup: a step machine interleaved with writes to the source. */
module Backup {
  import opened Arith
  import opened BackupGeometry
  import opened Bytes

  type Image = map<int, Byte>

  const U32 := 0x1_0000_0000

  datatype Rc = Ok | Busy | Locked | Done | ReadOnly | Failed

  /** isFatalError. */
  predicate Fatal(rc: Rc) {
    rc != Ok && rc != Busy && rc != Locked
  }

  /** Bytes `lo`..hi-1 of the source outside the pending-byte pages, except those in `stale`, are the same in the
      destination. */
  ghost predicate Agree(g: Geom, src: seq<Byte>, dst: Image, stale: set<int>, lo: int, hi: int) {
    forall o | 0 <= o < |src| && lo <= o < hi && !g.Hole(o) && o !in stale :: o in dst && dst[o] == src[o]
  }

  /** Bytes that keep their value while the backup goes on: those copied, without pending-byte pages and header fields
      that a commit changes. */
  ghost predicate KeptBelow(g: Geom, dst: Image, dst': Image, hi: int) {
    forall o {:trigger dst'[o]} {:trigger o in dst'} | o in dst && o < hi && !g.Hole(o) && !Rewritten(o) ::
      o in dst' && dst'[o] == dst[o]
  }

  /** dst' is dst with `b` stored at offset `at`. */
  ghost predicate Stored(dst: Image, at: int, b: seq<Byte>, dst': Image) {
    && (forall o {:trigger dst'[o]} {:trigger o in dst'} | at <= o < at + |b| :: o in dst' && dst'[o] == b[o - at])
    && (forall o {:trigger dst'[o]} {:trigger o in dst'} | o in dst && !(at <= o < at + |b|) ::
      o in dst' && dst'[o] == dst[o])
  }

  /** memcpy into the destination. */
  method Store(dst: Image, at: int, b: seq<Byte>) returns (dst': Image)
    ensures Stored(dst, at, b, dst')
  {
    dst' := dst;
    for i := 0 to |b|
      invariant Stored(dst, at, b[..i], dst')
    {
      dst' := dst'[at + i := b[i]];
    }
    assert b[..|b|] == b;
  }

  /** Bytes at..upto-1 of the destination are those of `data`, which begins at `at`, except in the hole. */
  ghost predicate Copied(g: Geom, dst: Image, at: int, data: seq<Byte>, upto: int) {
    forall o {:trigger dst[o]} {:trigger o in dst} | at <= o < upto && o < at + |data| && !g.Hole(o) ::
      o in dst && dst[o] == data[o - at]
  }

  /** Nothing outside lo..hi-1 has changed. */
  ghost predicate SameOutside(dst: Image, dst': Image, lo: int, hi: int) {
    forall o {:trigger dst'[o]} {:trigger o in dst'} | o in dst && !(lo <= o < hi) :: o in dst' && dst'[o] == dst[o]
  }

  /** One destination page of the loop in backupOnePage. */
  method CopyChunk(g: Geom, dst: Image, p: nat, data: seq<Byte>, iOff: nat, ghost k: int, faults: bool)
    returns (rc: Rc, dst': Image)
    requires g.Valid() && p >= 1 && |data| == g.src && iOff == k * Chunk(g)
    requires g.Base(p) <= iOff && iOff + Chunk(g) <= g.Base(p) + g.src && Copied(g, dst, g.Base(p), data, iOff)
    ensures rc == Ok || (rc == Failed && faults)
    ensures rc == Ok ==> Copied(g, dst', g.Base(p), data, iOff + Chunk(g))
    ensures SameOutside(dst, dst', g.Base(p), g.Base(p) + g.src)
  {
    OnPendingDest(g, iOff);
    if iOff / g.dest + 1 == g.PendingDest() {
      SkippedInHole(g, iOff, k);
      return Ok, dst;
    }
    var fail: bool := *;
    if fail && faults {
      return Failed, dst;
    }
    WithinPage(g, p, iOff - g.Base(p));
    var at := iOff % g.src;
    var b := data[at..at + Chunk(g)];
    dst' := Store(dst, iOff, b);
    StoredCopied(g, dst, g.Base(p), data, iOff, b, dst');
    rc := Ok;
  }

  lemma StoredCopied(g: Geom, dst: Image, start: int, data: seq<Byte>, at: int, b: seq<Byte>, dst': Image)
    requires Copied(g, dst, start, data, at) && start <= at && at - start + |b| <= |data|
      && b == data[at - start..at - start + |b|]
    requires Stored(dst, at, b, dst')
    ensures Copied(g, dst', start, data, at + |b|) && SameOutside(dst, dst', start, start + |data|)
  {
    forall o | start <= o < at + |b| && !g.Hole(o) ensures o in dst' && dst'[o] == data[o - start] {
      if o >= at {
        assert b[o - at] == data[o - start];
      } else {
        assert o in dst && dst[o] == data[o - start];
      }
    }
  }

  /** The last chunk ends with the page. */
  lemma ChunkFits(g: Geom, p: nat, j: nat)
    requires g.Valid() && p >= 1 && (j > 0 ==> g.dest <= g.src) && g.Base(p) + j * g.dest < g.Base(p) + g.src
    ensures g.Base(p) + j * g.dest + Chunk(g) <= g.Base(p) + g.src
  {
    if g.dest <= g.src {
      var r := Multiple(g);
      NextMultiple(j, r, g.dest);
    }
  }

  /** backupOnePage: copy source page p into the destination pages it overlaps, except the pending one.  With
      `faults` the pager may fail at any page. */
  method BackupOnePage(g: Geom, dst0: Image, p: nat, data: seq<Byte>, memDest: bool, faults: bool)
    returns (rc: Rc, dst: Image)
    requires g.Valid() && p >= 1 && |data| == g.src
    ensures rc == ReadOnly <==> g.src != g.dest && memDest
    ensures rc == Ok || rc == ReadOnly || (rc == Failed && faults)
    ensures rc == Ok ==> Copied(g, dst, g.Base(p), data, g.Base(p) + g.src)
    ensures SameOutside(dst0, dst, g.Base(p), g.Base(p) + g.src)
  {
    dst := dst0;
    if g.src != g.dest && memDest {
      return ReadOnly, dst;
    }
    WithinPage(g, p, 0);
    var start: nat := g.Base(p);
    var iEnd, iOff: nat := start + g.src, start;
    ghost var j: nat := 0;
    while iOff < iEnd
      invariant start <= iOff && iOff == start + j * g.dest && (j > 0 && iOff < iEnd ==> g.dest <= g.src)
      invariant Copied(g, dst, start, data, iOff) && SameOutside(dst0, dst, start, iEnd)
      decreases iEnd - iOff
    {
      ghost var k := Aligned(g, p, j);
      ChunkFits(g, p, j);
      ghost var before := dst;
      rc, dst := CopyChunk(g, dst, p, data, iOff, k, faults);
      OutsideTwice(dst0, before, dst, start, iEnd);
      if rc != Ok {
        return Failed, dst;
      }
      assert (j + 1) * g.dest == j * g.dest + g.dest;
      if g.dest > g.src {
        assert Copied(g, dst, start, data, start + g.src);
      }
      iOff := iOff + g.dest;
      j := j + 1;
    }
    rc := Ok;
  }

  lemma OutsideTwice(a: Image, b: Image, c: Image, lo: int, hi: int)
    requires SameOutside(a, b, lo, hi) && SameOutside(b, c, lo, hi)
    ensures SameOutside(a, c, lo, hi)
  {
  }

  lemma KeptCopying(g: Geom, a: Image, b: Image, lo: int, hi: int)
    requires SameOutside(a, b, lo, hi)
    ensures KeptBelow(g, a, b, Min(lo, PENDING_BYTE))
  {
  }

  lemma KeptTwice(g: Geom, a: Image, b: Image, c: Image, hi: int)
    requires KeptBelow(g, a, b, hi) && KeptBelow(g, b, c, PENDING_BYTE) && hi <= PENDING_BYTE
    ensures KeptBelow(g, a, c, hi)
  {
  }

  lemma OutsideOnce(a: Image, b: Image, c: Image, lo: int, hi: int, lo': int, hi': int)
    requires SameOutside(a, b, lo', hi') && SameOutside(b, c, lo, hi) && lo' <= lo && hi <= hi'
    ensures SameOutside(a, c, lo', hi')
  {
  }

  // ---------------------------------------------------------------- what copying and writing keep

  /** The bytes of source page p. */
  function PageOf(g: Geom, src: seq<Byte>, p: nat): (data: seq<Byte>)
    requires 0 <= g.Base(p) && g.Base(p) + g.src <= |src|
    ensures |data| == g.src
  {
    src[g.Base(p)..g.Base(p) + g.src]
  }

  /** Copying the next page extends the part that agrees. */
  lemma AgreeCopied(g: Geom, src: seq<Byte>, dst: Image, stale: set<int>, lo: int, data: seq<Byte>, dst': Image)
    requires 0 <= lo && lo + |data| <= |src| && data == src[lo..lo + |data|] && Agree(g, src, dst, stale, 0, lo)
    requires Copied(g, dst', lo, data, lo + |data|) && SameOutside(dst, dst', lo, lo + |data|)
    ensures Agree(g, src, dst', stale, 0, lo + |data|)
  {
    forall o | 0 <= o < lo + |data| && !g.Hole(o) && o !in stale ensures o in dst' && dst'[o] == src[o] {
      if o >= lo {
        assert data[o - lo] == src[o];
      } else {
        assert o in dst && dst[o] == src[o];
      }
    }
  }

  /** The source with `data` written at lo, possibly extending it. */
  ghost predicate Written(src: seq<Byte>, lo: int, data: seq<Byte>, src': seq<Byte>) {
    && 0 <= lo && |src'| >= |src| && lo + |data| <= |src'|
    && src'[lo..lo + |data|] == data
    && forall o {:trigger src'[o]} | 0 <= o < |src| && !(lo <= o < lo + |data|) :: src'[o] == src[o]
  }

  /** A reported write to a page that has been copied: copying it again restores the agreement; bytes between the old
      end of the source and the page, if any, are in the hole. */
  lemma AgreeRewritten(g: Geom, src: seq<Byte>, lo: int, data: seq<Byte>, src': seq<Byte>, dst: Image, dst': Image,
                       stale: set<int>, hi: int)
    requires Agree(g, src, dst, stale, 0, hi) && Written(src, lo, data, src')
    requires |src'| == if lo + |data| > |src| then lo + |data| else |src|
    requires forall o | |src| <= o < lo :: g.Hole(o)
    requires Copied(g, dst', lo, data, lo + |data|) && SameOutside(dst, dst', lo, lo + |data|)
    ensures Agree(g, src', dst', Outside(stale, lo, lo + |data|), 0, hi)
  {
    forall o | 0 <= o < |src'| && o < hi && !g.Hole(o) && o !in Outside(stale, lo, lo + |data|)
      ensures o in dst' && dst'[o] == src'[o]
    {
      if lo <= o < lo + |data| {
        assert src'[lo..lo + |data|][o - lo] == data[o - lo];
      } else {
        assert o in dst && dst[o] == src[o];
      }
    }
  }

  /** The offsets that are not among lo..hi-1. */
  ghost function Outside(offsets: set<int>, lo: int, hi: int): (r: set<int>) {
    set o | o in offsets && !(lo <= o < hi)
  }

  // ---------------------------------------------------------------- the end of a backup

  /** Header bytes that the final commit may change: file format versions, change counter, schema cookie, version. */
  predicate Rewritten(o: int) {
    18 <= o < 20 || 24 <= o < 28 || 40 <= o < 44 || 92 <= o < 100
  }

  /** nDestTruncate: the number of destination pages. */
  method DestPages(g: Geom, nSrc: nat) returns (n: nat)
    requires g.Valid()
    ensures g.src >= g.dest ==> n * g.dest == g.Base(nSrc + 1)
    ensures g.src < g.dest && !(PENDING_BYTE < g.Base(nSrc + 1) <= PENDING_BYTE + g.dest) ==>
      n * g.dest >= g.Base(nSrc + 1)
    ensures g.src < g.dest && PENDING_BYTE < g.Base(nSrc + 1) <= PENDING_BYTE + g.dest ==> n * g.dest == PENDING_BYTE
    ensures n == g.PendingDest() <==> g.src == g.dest && nSrc == g.PendingSrc()
  {
    if g.src < g.dest {
      var ratio := g.dest / g.src;
      ghost var r := DestMultiple(g);
      DivUnique(g.dest, g.src, r, 0);
      n := (nSrc + ratio - 1) / ratio;
      RoundUp(nSrc, ratio, n);
      PagesUp(g, nSrc, ratio, n);
      if n == g.PendingDest() {
        n := n - 1;
        assert n * g.dest == PENDING_BYTE;
      }
    } else {
      ghost var r := Multiple(g);
      DivUnique(g.src, g.dest, r, 0);
      n := nSrc * (g.src / g.dest);
      assert (nSrc * r) * g.dest == nSrc * (r * g.dest);
      NoPartialPage(g, nSrc, n);
    }
  }

  /** A copy onto smaller pages does not end with their pending page. */
  lemma NoPartialPage(g: Geom, nSrc: nat, n: nat)
    requires g.Valid() && g.src >= g.dest && n * g.dest == nSrc * g.src
    ensures n == g.PendingDest() <==> g.src == g.dest && nSrc == g.PendingSrc()
  {
    OnPendingSrc(g);
    OnPendingDestPage(g);
    if n == g.PendingDest() {
      BaseNext(g, g.PendingSrc());
      BaseNext(g, nSrc);
      assert nSrc * g.src == PENDING_BYTE + g.dest;
      if nSrc < g.PendingSrc() {
        BaseMono(g, nSrc + 1, g.PendingSrc());
      } else {
        BaseMono(g, g.PendingSrc(), nSrc);
        if nSrc > g.PendingSrc() {
          BaseMono(g, g.PendingSrc() + 1, nSrc);
        }
      }
    } else if g.src == g.dest {
      MulCancel(n, nSrc, g.src);
    }
  }

  lemma OnPendingDestPage(g: Geom)
    requires g.Valid()
    ensures g.PendingDest() * g.dest == PENDING_BYTE + g.dest
  {
    var m: nat :| PENDING_BYTE == m * g.dest;
    DivUnique(PENDING_BYTE, g.dest, m, 0);
    assert (m + 1) * g.dest == m * g.dest + g.dest;
  }

  lemma MulCancel(a: nat, b: nat, d: nat)
    requires d > 0 && a * d == b * d
    ensures a == b
  {
    if a < b {
      MulMonoInt(a + 1, b, d);
    } else if b < a {
      MulMonoInt(b + 1, a, d);
    }
  }

  lemma RoundUp(a: nat, r: nat, n: int)
    requires r >= 1 && n == (a + r - 1) / r
    ensures n >= 0 && ((n - 1) * r < a <= n * r || (a == 0 && n == 0))
  {
    var b := a + r - 1;
    assert b == n * r + b % r;
    assert (n - 1) * r == n * r - r;
    if a == 0 {
      DivUnique(r - 1, r, 0, r - 1);
    }
  }

  /** The rounded number of destination pages in bytes, and when it is the pending page. */
  lemma PagesUp(g: Geom, nSrc: nat, r: nat, n: nat)
    requires g.Valid() && g.dest == r * g.src && r >= 1
    requires ((n - 1) * r < nSrc <= n * r) || (nSrc == 0 && n == 0)
    ensures n * g.dest >= g.Base(nSrc + 1)
    ensures n == g.PendingDest() <==> PENDING_BYTE < g.Base(nSrc + 1) <= PENDING_BYTE + g.dest
    ensures g.PendingDest() >= 1 && (g.PendingDest() - 1) * g.dest == PENDING_BYTE
  {
    var m: nat :| PENDING_BYTE == m * g.dest;
    DivUnique(PENDING_BYTE, g.dest, m, 0);
    if nSrc > 0 {
      PagesBytes(nSrc, n, r, g.src, g.dest);
      PageOfByte(m, n, nSrc * g.src, g.dest);
    }
  }

  lemma PagesBytes(a: nat, n: nat, r: nat, src: nat, dest: nat)
    requires dest == r * src && src > 0 && (n - 1) * r < a <= n * r
    ensures (n - 1) * dest < a * src <= n * dest
  {
    MulMonoInt(a, n * r, src);
    assert (n * r) * src == n * (r * src);
    assert ((n - 1) * r) * src == (n - 1) * (r * src);
    MulMonoInt((n - 1) * r + 1, a, src);
    assert ((n - 1) * r + 1) * src == ((n - 1) * r) * src + src;
  }

  /** The last of n pages is page m + 1 exactly when the end of the data is on it. */
  lemma PageOfByte(m: nat, n: nat, bytes: int, d: nat)
    requires d > 0 && (n - 1) * d < bytes <= n * d
    ensures n == m + 1 <==> m * d < bytes <= m * d + d
  {
    assert (n - 1) * d == n * d - d;
    if n < m + 1 {
      MulMonoInt(n, m, d);
    } else if n > m + 1 {
      MulMonoInt(m + 1, n - 1, d);
      assert (m + 1) * d == m * d + d;
    }
  }

  /** The extra loop for a larger destination page: source pages behind the pending one that lie on the pending page of
      the destination go directly into the file. */
  method WriteExtra(g: Geom, src: seq<Byte>, nSrc: nat, dst0: Image, len0: nat, faults: bool)
    returns (rc: Rc, dst: Image, len: nat)
    requires g.Valid() && g.src < g.dest && |src| == g.Base(nSrc + 1)
    ensures rc == Ok || (rc == Failed && faults)
    ensures SameOutside(dst0, dst, PENDING_BYTE + g.src, PENDING_BYTE + g.dest)
    ensures rc == Ok ==>
      forall o | PENDING_BYTE + g.src <= o < PENDING_BYTE + g.dest && o < |src| :: o in dst && dst[o] == src[o]
    ensures rc == Ok ==>
      len == if |src| <= PENDING_BYTE + g.src then len0 else Max(len0, Min(PENDING_BYTE + g.dest, |src|))
  {
    var iSize := g.src * nSrc;
    var iEnd := Min(PENDING_BYTE + g.dest, iSize);
    var iOff := PENDING_BYTE + g.src;
    dst, len := dst0, len0;
    ghost var m: nat :| PENDING_BYTE == m * g.src;
    ghost var r := DestMultiple(g);
    ghost var k, last: nat := m + 1, if iSize < PENDING_BYTE + g.dest then nSrc else m + r;
    SumTimes(m, r, g.src);
    SumTimes(m, 1, g.src);
    assert iEnd == last * g.src && iOff == k * g.src;
    while iOff < iEnd
      invariant iOff == k * g.src && PENDING_BYTE + g.src <= iOff && k >= 1
      invariant iOff <= iEnd || (iOff == PENDING_BYTE + g.src && len == len0)
      invariant SameOutside(dst0, dst, PENDING_BYTE + g.src, PENDING_BYTE + g.dest)
      invariant forall o | PENDING_BYTE + g.src <= o < iOff && o < |src| :: o in dst && dst[o] == src[o]
      invariant len == if iOff == PENDING_BYTE + g.src then len0 else Max(len0, iOff)
      decreases iEnd - iOff
    {
      NextMultiple(k, last, g.src);
      DivUnique(iOff, g.src, k, 0);
      var iSrcPg := iOff / g.src + 1;
      var fail: bool := *;
      if fail && faults {
        return Failed, dst, len;
      }
      ghost var before := dst;
      assert g.Base(iSrcPg) == iOff;
      var data := PageOf(g, src, iSrcPg);
      dst := Store(dst, iOff, data);
      ExtraStored(g, src, before, iOff, data, dst);
      OutsideTwice(dst0, before, dst, PENDING_BYTE + g.src, PENDING_BYTE + g.dest);
      len := Max(len, iOff + g.src);
      assert (k + 1) * g.src == k * g.src + g.src;
      iOff := iOff + g.src;
      k := k + 1;
    }
    rc := Ok;
  }

  lemma ExtraStored(g: Geom, src: seq<Byte>, dst: Image, at: nat, data: seq<Byte>, dst': Image)
    requires PENDING_BYTE + g.src <= at && at + |data| <= PENDING_BYTE + g.dest && at + |data| <= |src|
      && data == src[at..at + |data|]
    requires Stored(dst, at, data, dst')
    requires forall o | PENDING_BYTE + g.src <= o < at && o < |src| :: o in dst && dst[o] == src[o]
    ensures SameOutside(dst, dst', PENDING_BYTE + g.src, PENDING_BYTE + g.dest)
    ensures forall o | PENDING_BYTE + g.src <= o < at + |data| && o < |src| :: o in dst' && dst'[o] == src[o]
  {
    forall o | PENDING_BYTE + g.src <= o < at + |data| && o < |src| ensures o in dst' && dst'[o] == src[o] {
      if o >= at {
        assert data[o - at] == src[o];
      } else {
        assert o in dst && dst[o] == src[o];
      }
    }
  }

  function Min(a: int, b: int): (m: int) {
    if a < b then a else b
  }

  function Max(a: int, b: int): (m: int) {
    if a < b then b else a
  }

  /** What is fixed about a destination: whether it is in memory, whether it has a write-ahead log, and the change
      counter that its pager writes. */
  datatype Target = Target(mem: bool, wal: bool, counter: nat)
  {
    /** The commit writes the change counter and the version number into page 1. */
    predicate Counts(nSrc: nat) {
      !mem && nSrc > 0
    }
    /** Header bytes that the end of a backup of nSrc pages writes. */
    predicate Writes(nSrc: nat, o: int) {
      || 40 <= o < 44 || (wal && 18 <= o < 20)
      || (Counts(nSrc) && (24 <= o < 28 || 92 <= o < 100))
    }
  }

  const VERSION_NUMBER := 3007014

  /** A byte of a file, 0 where the file has none. */
  function ByteAt(d: Image, o: int): (b: Byte) {
    if o in d then d[o] else 0
  }

  function Word(d: Image, o: int): (w: nat)
    ensures w < U32
  {
    Get4([ByteAt(d, o), ByteAt(d, o + 1), ByteAt(d, o + 2), ByteAt(d, o + 3)], 0)
  }

  /** The word w stands at offset o. */
  ghost predicate Holds(d: Image, o: int, w: nat) {
    o in d && o + 1 in d && o + 2 in d && o + 3 in d && Word(d, o) == w
  }

  /** The schema version of a database. */
  function SchemaOf(d: Image): (w: nat)
    ensures w < U32
  {
    Word(d, 40)
  }

  /** The fields of the destination header that a backup does not copy: the schema version follows the one that the
      destination had, the format versions are those of a write-ahead log, the change counter is that of the pager,
      and it is the one for which the version number is valid. */
  ghost predicate Header(dst: Image, t: Target, nSrc: nat, schema: nat) {
    && Holds(dst, 40, (schema + 1) % U32)
    && (t.wal ==> 18 in dst && 19 in dst && dst[18] == 2 && dst[19] == 2)
    && (t.Counts(nSrc) ==>
          Holds(dst, 24, t.counter) && Holds(dst, 92, t.counter) && Holds(dst, 96, VERSION_NUMBER))
  }

  /** Finished: outside the pending-byte page of the source, the header fields written and the bytes in `stale` the two
      files agree, and the header fields are right. */
  ghost predicate Complete(g: Geom, t: Target, src: seq<Byte>, nSrc: nat, dst: Image, stale: set<int>, schema: nat) {
    && Header(dst, t, nSrc, schema)
    && forall o | 0 <= o < |src| && !(PENDING_BYTE <= o < PENDING_BYTE + g.src) && !t.Writes(nSrc, o) && o !in stale ::
      o in dst && dst[o] == src[o]
  }

  lemma StoredWord(dst: Image, at: int, v: nat, dst': Image)
    requires v < U32 && Stored(dst, at, Enc4(v), dst')
    ensures Holds(dst', at, v)
    ensures forall o | !(at <= o < at + 4) :: o in dst ==> o in dst' && dst'[o] == dst[o]
  {
    var b := Enc4(v);
    assert [ByteAt(dst', at), ByteAt(dst', at + 1), ByteAt(dst', at + 2), ByteAt(dst', at + 3)] == b by {
      assert at + 0 in dst' && at + 1 in dst' && at + 2 in dst' && at + 3 in dst';
    }
  }

  /** The header fields written at the end: sqlite3BtreeUpdateMeta stores the new schema version, sqlite3BtreeSetVersion
      the format versions of a WAL destination, and pager_write_changecounter the rest. */
  method WriteHeader(dst0: Image, t: Target, nSrc: nat, schema: nat) returns (dst: Image)
    requires t.counter < U32
    ensures Header(dst, t, nSrc, schema)
    ensures OnlyHeader(dst0, dst, t, nSrc)
  {
    var cookie := (schema + 1) % U32;
    dst := Store(dst0, 40, Enc4(cookie));
    StoredWord(dst0, 40, cookie, dst);
    if t.wal {
      dst := Store(dst, 18, [2, 2]);
      assert 18 + 0 in dst && 18 + 1 in dst;
    }
    if t.Counts(nSrc) {
      dst := WriteCounter(dst, t.counter);
    }
  }

  /** pager_write_changecounter. */
  method WriteCounter(dst0: Image, counter: nat) returns (dst: Image)
    requires counter < U32
    ensures Holds(dst, 24, counter) && Holds(dst, 92, counter) && Holds(dst, 96, VERSION_NUMBER)
    ensures forall o {:trigger dst[o]} {:trigger o in dst} | o in dst0 && !(24 <= o < 28 || 92 <= o < 100) ::
      o in dst && dst[o] == dst0[o]
  {
    var d1 := Store(dst0, 24, Enc4(counter));
    StoredWord(dst0, 24, counter, d1);
    var d2 := Store(d1, 92, Enc4(counter));
    StoredWord(d1, 92, counter, d2);
    dst := Store(d2, 96, Enc4(VERSION_NUMBER));
    StoredWord(d2, 96, VERSION_NUMBER, dst);
  }

  ghost predicate OnlyHeader(dst: Image, dst': Image, t: Target, nSrc: nat) {
    forall o {:trigger dst'[o]} {:trigger o in dst'} | o in dst && !t.Writes(nSrc, o) :: o in dst' && dst'[o] == dst[o]
  }

  /** The extra pages at offsets lo..hi-1 have been written. */
  ghost predicate ExtraWritten(src: seq<Byte>, dst: Image, dst': Image, lo: nat, hi: int) {
    && SameOutside(dst, dst', lo, hi)
    && forall o {:trigger dst'[o]} {:trigger o in dst'} | lo <= o < hi && o < |src| :: o in dst' && dst'[o] == src[o]
  }

  /** What has been copied, with the header written and the extra pages, is complete. */
  lemma Completed(g: Geom, t: Target, src: seq<Byte>, nSrc: nat, dst: Image, dst1: Image, dst2: Image, stale: set<int>,
                  schema: nat)
    requires g.Valid() && Agree(g, src, dst, stale, 0, |src|) && OnlyHeader(dst, dst1, t, nSrc)
    requires Header(dst1, t, nSrc, schema)
    requires if g.src < g.dest then ExtraWritten(src, dst1, dst2, PENDING_BYTE + g.src, PENDING_BYTE + g.dest)
             else dst2 == dst1
    ensures Complete(g, t, src, nSrc, dst2, stale, schema) && KeptBelow(g, dst, dst2, PENDING_BYTE)
  {
    if g.src < g.dest {
      HeaderKept(dst1, dst2, PENDING_BYTE + g.src, PENDING_BYTE + g.dest, t, nSrc, schema);
    }
    forall o | 0 <= o < |src| && !(PENDING_BYTE <= o < PENDING_BYTE + g.src) && !t.Writes(nSrc, o) && o !in stale
      ensures o in dst2 && dst2[o] == src[o] {
      if !g.Hole(o) {
        assert o in dst && dst[o] == src[o];
        assert o in dst1 && dst1[o] == dst[o];
      }
    }
  }

  lemma HeaderKept(dst: Image, dst': Image, lo: int, hi: int, t: Target, nSrc: nat, schema: nat)
    requires SameOutside(dst, dst', lo, hi) && 100 <= lo && Header(dst, t, nSrc, schema)
    ensures Header(dst', t, nSrc, schema)
  {
  }

  /** A source that ends with its pending page gives a copy that ends before it: the last destination page is then not
      counted (larger destination pages), or the commit cuts it off a file that has another number of pages (equal
      page sizes). */
  predicate CutShort(g: Geom, nSrc: nat, nFile: nat, plainFile: bool)
    requires g.src > 0
  {
    nSrc == g.PendingSrc() && (g.src < g.dest || (g.src == g.dest && plainFile && nFile != nSrc))
  }

  /** The file length that the commit of the destination leaves: n pages, except that a file of another size is not
      made to end with the pending page.  In memory or in a write-ahead log the size is the page count. */
  method CommitSize(g: Geom, n: nat, nFile: nat, plainFile: bool) returns (len: nat)
    requires g.Valid()
    ensures !(n == g.PendingDest() && plainFile && nFile != n) ==> len == n * g.dest
    ensures n == g.PendingDest() && plainFile && nFile != n ==> len == PENDING_BYTE
  {
    OnPendingDestPage(g);
    var nNew := if n == g.PendingDest() && plainFile && nFile != n then n - 1 else n;
    assert (n - 1) * g.dest == n * g.dest - g.dest;
    len := nNew * g.dest;
  }

  /** The DONE branch of sqlite3_backup_step: header fields, truncation, the extra pages, commit.  nFile is the number
      of pages of the destination file at the commit. */
  method Finish(g: Geom, t: Target, src: seq<Byte>, nSrc: nat, dst0: Image, nFile: nat, schema: nat, faults: bool,
                ghost stale: set<int>)
    returns (rc: Rc, dst: Image, len: nat)
    requires g.Valid() && |src| == g.Base(nSrc + 1) && Agree(g, src, dst0, stale, 0, |src|) && t.counter < U32
    ensures rc == Done || (rc == Failed && faults)
    ensures rc == Done ==> Complete(g, t, src, nSrc, dst, stale, schema) && KeptBelow(g, dst0, dst, PENDING_BYTE)
    ensures rc == Done ==> (len == |src| <==> !CutShort(g, nSrc, nFile, !t.mem && !t.wal))
    ensures rc == Done && CutShort(g, nSrc, nFile, !t.mem && !t.wal) ==>
      len == PENDING_BYTE && |src| == PENDING_BYTE + g.src
    ensures rc == Done && nSrc != g.PendingSrc() ==> len == |src|
  {
    var fail: bool := *;
    dst, len := dst0, 0;
    if fail && faults {
      return Failed, dst, len;
    }
    dst := WriteHeader(dst, t, nSrc, schema);
    ghost var before := dst;
    rc, dst, len := CommitPages(g, src, nSrc, dst, nFile, !t.mem && !t.wal, faults);
    if rc == Ok {
      Completed(g, t, src, nSrc, dst0, before, dst, stale, schema);
      fail := *;
      rc := if fail && faults then Failed else Done;
    }
  }

  /** The truncation, the extra pages and the commit. */
  method CommitPages(g: Geom, src: seq<Byte>, nSrc: nat, dst0: Image, nFile: nat, plainFile: bool, faults: bool)
    returns (rc: Rc, dst: Image, len: nat)
    requires g.Valid() && |src| == g.Base(nSrc + 1)
    ensures rc == Ok || (rc == Failed && faults)
    ensures rc == Ok ==>
      if g.src < g.dest then ExtraWritten(src, dst0, dst, PENDING_BYTE + g.src, PENDING_BYTE + g.dest)
                         else dst == dst0
    ensures rc == Ok ==> (len == |src| <==> !CutShort(g, nSrc, nFile, plainFile))
    ensures rc == Ok && CutShort(g, nSrc, nFile, plainFile) ==> len == PENDING_BYTE && |src| == PENDING_BYTE + g.src
    ensures rc == Ok && nSrc != g.PendingSrc() ==> len == |src|
  {
    rc, dst := Ok, dst0;
    var n := DestPages(g, nSrc);
    len := CommitSize(g, n, nFile, plainFile);
    OnPendingSrc(g);
    if g.src < g.dest {
      rc, dst, len := WriteExtra(g, src, nSrc, dst, len, faults);
      if rc == Ok && len > g.src * nSrc {
        len := g.src * nSrc;
      }
    }
    PendingSize(g, nSrc);
  }

  /** The source ends with its pending page exactly when it is that long. */
  lemma PendingSize(g: Geom, nSrc: nat)
    requires g.Valid()
    ensures nSrc == g.PendingSrc() <==> g.Base(nSrc + 1) == PENDING_BYTE + g.src
    ensures g.Base(nSrc + 1) <= PENDING_BYTE || PENDING_BYTE + g.src <= g.Base(nSrc + 1)
  {
    OnPendingSrc(g);
    var q := g.PendingSrc();
    BaseNext(g, nSrc);
    if nSrc < q {
      BaseMono(g, nSrc + 1, q);
    } else if nSrc > q {
      BaseMono(g, q + 2, nSrc + 1);
      BaseNext(g, q);
      BaseNext(g, q + 1);
    } else {
      BaseNext(g, q);
    }
  }

  /** nRemaining: the difference in 32 bits. */
  function PagesLeft(nSrc: nat, iNext: nat): (n: nat)
    ensures n < U32 && (0 <= nSrc + 1 - iNext < U32 ==> n == nSrc + 1 - iNext)
  {
    (nSrc + 1 - iNext) % U32
  }

  /** No page from i up to position j has been copied: there is none, or only the pending-byte page. */
  predicate NoneCopied(g: Geom, nSrc: nat, i: nat, j: nat) {
    g.src == 0 || j <= i || nSrc < i || (i == g.PendingSrc() && (j == i + 1 || nSrc == i))
  }

  /** Where a step of nPage pages, all pages if negative, takes a backup that is at page i of n. */
  function Advanced(i: nat, nPage: int, n: nat): (j: nat)
    ensures j >= i
  {
    if i > n then i else if nPage < 0 || i + nPage > n + 1 then n + 1 else i + nPage
  }

  /** It is determined by going one page at a time. */
  lemma StepsAdd(i: nat, a: nat, b: nat, n: nat)
    ensures Advanced(Advanced(i, a, n), b, n) == Advanced(i, a + b, n)
    ensures Advanced(i, 0, n) == i && (i <= n ==> Advanced(i, 1, n) == i + 1 && Advanced(i, -1, n) == n + 1)
  {
  }

  /** A backup at one moment: the source, the destination, which of the bytes copied may be out of date, progress, and
      the schema version that the destination had when it was locked. */
  datatype Moment = Moment(
    src: seq<Byte>, nSrc: nat, dst: Image, stale: set<int>, iNext: nat, rc: Rc, attached: bool, locked: bool,
    schema: nat)

  /** While no fatal error has occurred, everything copied so far agrees with the source, except bytes of pages whose
      growth was not reported, and the source pager knows of the backup unless nothing has been copied. */
  ghost predicate Sound(g: Geom, m: Moment)
  {
    && g.Valid() && |m.src| == g.Base(m.nSrc + 1) && m.iNext >= 1
    && (forall o | o in m.stale :: 0 <= o < |m.src| && o < g.Base(m.iNext))
    && (!Fatal(m.rc) ==>
      Agree(g, m.src, m.dst, m.stale, 0, g.Base(m.iNext)) && (m.attached || m.iNext == 1) && (m.iNext > 1 ==> m.locked))
  }

  /** The code with which a step is refused, or Ok.  A lock does not report DONE. */
  function Refusal(writing: bool, locked: bool, destLock: Rc, srcLock: Rc, unsuited: bool): (r: Rc)
    ensures r != Done
  {
    if writing then Busy
    else if !locked && destLock != Ok then NotDone(destLock)
    else if srcLock != Ok then NotDone(srcLock)
    else if unsuited then ReadOnly
    else Ok
  }

  function NotDone(r: Rc): (r': Rc) {
    if r == Done then Failed else r
  }

  /** A busy source is reported first, then the code of the destination lock, that of the source lock, and page sizes
      that a write-ahead log does not allow; a step refused for the time being can be made again. */
  lemma RefusalIs(writing: bool, locked: bool, destLock: Rc, srcLock: Rc, unsuited: bool)
    requires destLock != Done && srcLock != Done
    ensures var r := Refusal(writing, locked, destLock, srcLock, unsuited);
      && (writing ==> r == Busy)
      && (!writing && !locked && destLock != Ok ==> r == destLock)
      && (!writing && (locked || destLock == Ok) && srcLock != Ok ==> r == srcLock)
      && (!writing && (locked || destLock == Ok) && srcLock == Ok ==> r == if unsuited then ReadOnly else Ok)
    ensures !Fatal(Ok) && !Fatal(Busy) && !Fatal(Locked) && Fatal(Done) && Fatal(ReadOnly) && Fatal(Failed)
  {
  }

  /** sqlite3_backup with the two databases it works on. */
  class BackupObject {
    const g: Geom
    const memDest: bool
    const wal: bool
    var src: seq<Byte>
    var nSrc: nat
    var dst: Image
    var destLen: nat
    var iNext: nat
    var rc: Rc
    var bDestLocked: bool
    var iDestSchema: nat
    var isAttached: bool
    var nRemaining: nat
    var nPagecount: nat
    ghost var stale: set<int>

    function To(counter: nat): (t: Target) {
      Target(memDest, wal, counter)
    }

    ghost function Now(): (m: Moment)
      reads this
    {
      Moment(src, nSrc, dst, stale, iNext, rc, isAttached, bDestLocked, iDestSchema)
    }

    ghost predicate Valid()
      reads this
    {
      Sound(g, Now())
    }

    constructor (g: Geom, memDest: bool, wal: bool, src: seq<Byte>, nSrc: nat, dst: Image)
      requires g.Valid() && |src| == g.Base(nSrc + 1)
      ensures Valid() && Now() == Moment(src, nSrc, dst, {}, 1, Ok, false, false, 0)
      ensures this.g == g && this.memDest == memDest && this.wal == wal
    {
      this.g, this.memDest, this.wal, this.src, this.nSrc, this.dst := g, memDest, wal, src, nSrc, dst;
      destLen, iNext, rc, bDestLocked, isAttached, nRemaining, nPagecount := 0, 1, Ok, false, false, 0, 0;
      iDestSchema := 0;
      stale := {};
    }

    /** One round of the copy loop. */
    method CopyNext(faults: bool) returns (rc: Rc)
      requires g.Valid() && |src| == g.Base(nSrc + 1) && 1 <= iNext <= nSrc
        && Agree(g, src, dst, stale, 0, g.Base(iNext))
      modifies this`dst, this`iNext
      ensures rc == Ok || (rc == Failed && faults) || (rc == ReadOnly && memDest && g.src != g.dest)
      ensures iNext == old(iNext) + 1 && 0 <= g.Base(old(iNext)) && g.Base(old(iNext)) + g.src <= |src|
      ensures rc == Ok ==> Agree(g, src, dst, stale, 0, g.Base(iNext))
      ensures SameOutside(old(dst), dst, g.Base(old(iNext)), g.Base(old(iNext)) + g.src)
      ensures rc == Ok && memDest && g.src != g.dest ==> old(iNext) == g.PendingSrc()
    {
      rc := Ok;
      BaseNext(g, iNext);
      BaseMono(g, 1, iNext);
      BaseMono(g, iNext + 1, nSrc + 1);
      if iNext != g.PendingSrc() {
        var fail: bool := *;
        if fail && faults {
          rc := Failed;
        } else {
          ghost var before := dst;
          var data := PageOf(g, src, iNext);
          rc, dst := BackupOnePage(g, dst, iNext, data, memDest, faults);
          if rc == Ok {
            AgreeCopied(g, src, before, stale, g.Base(iNext), data, dst);
          }
        }
      } else {
        OnPendingSrc(g);
      }
      iNext := iNext + 1;
    }

    /** The copy loop of sqlite3_backup_step; page operations fail only fatally. */
    method CopyPages(nPage: int, faults: bool) returns (rc: Rc)
      requires Valid() && !Fatal(this.rc) && bDestLocked
      modifies this`dst, this`iNext
      ensures rc == Ok || (rc == Failed && faults) || (rc == ReadOnly && memDest && g.src != g.dest)
      ensures iNext >= old(iNext) && (rc == Ok ==> Agree(g, src, dst, stale, 0, g.Base(iNext)))
      ensures KeptBelow(g, old(dst), dst, Min(g.Base(old(iNext)), PENDING_BYTE))
      ensures rc == Ok ==> iNext == Advanced(old(iNext), nPage, nSrc)
      ensures rc == Ok && memDest && g.src != g.dest ==> NoneCopied(g, nSrc, old(iNext), iNext)
    {
      rc := Ok;
      var ii: nat := 0;
      while (nPage < 0 || ii < nPage) && iNext <= nSrc && rc == Ok
        invariant rc == Ok || (rc == Failed && faults) || (rc == ReadOnly && memDest && g.src != g.dest)
        invariant iNext >= 1 && (rc == Ok ==> Agree(g, src, dst, stale, 0, g.Base(iNext)))
        invariant SameOutside(old(dst), dst, g.Base(old(iNext)), |src|)
        invariant rc == Ok && memDest && g.src != g.dest ==> NoneCopied(g, nSrc, old(iNext), iNext)
        invariant iNext == old(iNext) + ii && (ii > 0 ==> iNext <= nSrc + 1 && (nPage < 0 || ii <= nPage))
        decreases nSrc + 1 - iNext
      {
        ghost var before, i0 := dst, iNext;
        rc := CopyNext(faults);
        BaseMono(g, old(iNext), i0);
        OutsideOnce(old(dst), before, dst, g.Base(i0), g.Base(i0) + g.src, g.Base(old(iNext)), |src|);
        ii := ii + 1;
      }
      KeptCopying(g, old(dst), dst, g.Base(old(iNext)), |src|);
    }

    /** The first part of sqlite3_backup_step: the locks, and the test for a WAL destination. */
    method Prepare(writing: bool, destLock: Rc, srcLock: Rc) returns (r: Rc)
      requires !Fatal(rc)
      modifies this`bDestLocked, this`iDestSchema
      ensures r == Refusal(writing, old(bDestLocked), destLock, srcLock, wal && g.src != g.dest)
      ensures bDestLocked == (old(bDestLocked) || (!writing && destLock == Ok))
      ensures iDestSchema == if bDestLocked && !old(bDestLocked) then SchemaOf(dst) else old(iDestSchema)
    {
      r := if writing then Busy else Ok;
      if r == Ok && !bDestLocked {
        r := NotDone(destLock);
        if r == Ok {
          bDestLocked, iDestSchema := true, SchemaOf(dst);
        }
      }
      if r == Ok {
        r := NotDone(srcLock);
      }
      if r == Ok && wal && g.src != g.dest {
        r := ReadOnly;
      }
    }

    /** The second part: copying, and the end of the backup. */
    method Transfer(nPage: int, nFile: nat, counter: nat, faults: bool)
      returns (r: Rc)
      requires Valid() && !Fatal(rc) && bDestLocked && counter < U32
      modifies this`dst, this`destLen, this`iNext, this`rc, this`isAttached, this`nRemaining, this`nPagecount
      ensures Valid() && r == rc
      ensures Goes(r, old(iNext), nPage, faults)
      ensures r == Ok || r == Done ==> isAttached == (old(isAttached) || r == Ok)
      ensures r == Done ==> Finished(nFile, counter)
      ensures r == Ok || r == Done ==> nPagecount == nSrc && nRemaining == PagesLeft(nSrc, iNext)
      ensures r == Ok || r == Done ==> KeptBelow(g, old(dst), dst, Min(g.Base(old(iNext)), PENDING_BYTE))
    {
      ghost var dst0, i0 := dst, iNext;
      r := CopyPages(nPage, faults);
      BaseMono(g, i0, iNext);
      if r == Ok {
        r := AfterCopy(nFile, counter, faults, dst0, Min(g.Base(i0), PENDING_BYTE));
      }
      rc := r;
    }

    /** What follows the copy loop: the counters, and the end of the backup or its registration with the source. */
    method AfterCopy(nFile: nat, counter: nat, faults: bool,
                     ghost dst0: Image, ghost hi: int)
      returns (r: Rc)
      requires g.Valid() && |src| == g.Base(nSrc + 1) && Agree(g, src, dst, stale, 0, g.Base(iNext))
      requires counter < U32 && KeptBelow(g, dst0, dst, hi) && hi <= PENDING_BYTE
      modifies this`dst, this`destLen, this`isAttached, this`nRemaining, this`nPagecount
      ensures nPagecount == nSrc && nRemaining == PagesLeft(nSrc, iNext)
      ensures if iNext <= nSrc then r == Ok && dst == old(dst) else r == Done || (r == Failed && faults)
      ensures isAttached == (old(isAttached) || r == Ok)
      ensures r == Done ==> Finished(nFile, counter)
      ensures r == Ok || r == Done ==> KeptBelow(g, dst0, dst, hi)
    {
      nPagecount, nRemaining, r := nSrc, (nSrc + 1 - iNext) % U32, Ok;
      if iNext > nSrc {
        r := Conclude(nFile, counter, faults, dst0, hi);
      } else if !isAttached {
        isAttached := true;
      }
    }

    /** The end of a step that has reached the last page. */
    method Conclude(nFile: nat, counter: nat, faults: bool,
                    ghost dst0: Image, ghost hi: int)
      returns (r: Rc)
      requires g.Valid() && |src| == g.Base(nSrc + 1) && iNext > nSrc && Agree(g, src, dst, stale, 0, g.Base(iNext))
      requires counter < U32 && KeptBelow(g, dst0, dst, hi) && hi <= PENDING_BYTE
      modifies this`dst, this`destLen
      ensures r == Done || (r == Failed && faults)
      ensures r == Done ==> Finished(nFile, counter) && KeptBelow(g, dst0, dst, hi)
    {
      BaseMono(g, nSrc + 1, iNext);
      ghost var dst1 := dst;
      r, dst, destLen := Finish(g, To(counter), src, nSrc, dst, nFile, iDestSchema, faults, stale);
      if r == Done {
        KeptTwice(g, dst0, dst1, dst, hi);
      }
    }

    /** How far a step that is not refused goes, and what it reports. */
    ghost predicate Goes(r: Rc, i: nat, nPage: int, faults: bool)
      reads this
    {
      || (iNext == Advanced(i, nPage, nSrc) && (r == if iNext > nSrc then Done else Ok)
          && (memDest && g.src != g.dest ==> NoneCopied(g, nSrc, i, iNext)))
      || (r == Failed && faults)
      || (r == ReadOnly && memDest && g.src != g.dest)
    }

    /** The copy is complete, but for stale bytes, and of the right length. */
    ghost predicate Finished(nFile: nat, counter: nat)
      reads this
    {
      && g.Valid() && Complete(g, To(counter), src, nSrc, dst, stale, iDestSchema)
      && (destLen == |src| <==> !CutShort(g, nSrc, nFile, !memDest && !wal))
    }

    /** sqlite3_backup_step.  writing: the source is in a write transaction; destLock, srcLock: outcomes of locking;
        nFile: pages of the destination file at a commit; faults: page operations may fail. */
    method Step(nPage: int, writing: bool, destLock: Rc, srcLock: Rc, nFile: nat, counter: nat,
                faults: bool) returns (r: Rc)
      requires Valid() && counter < U32
      modifies this`dst, this`destLen, this`iNext, this`rc, this`bDestLocked, this`iDestSchema, this`isAttached,
        this`nRemaining, this`nPagecount
      ensures Valid() && r == rc
      ensures Fatal(old(rc)) ==> Now() == old(Now()) && destLen == old(destLen)
      ensures !Fatal(old(rc)) ==> bDestLocked == (old(bDestLocked) || (!writing && destLock == Ok))
      ensures iDestSchema == if bDestLocked && !old(bDestLocked) then SchemaOf(old(dst)) else old(iDestSchema)
      ensures var refused := Refusal(writing, old(bDestLocked), destLock, srcLock, wal && g.src != g.dest);
        !Fatal(old(rc)) ==>
          if refused != Ok then Now() == old(Now()).(rc := refused, locked := bDestLocked, schema := iDestSchema)
                               && destLen == old(destLen)
          else Goes(r, old(iNext), nPage, faults)
      ensures !Fatal(old(rc)) && (r == Ok || r == Done) ==> isAttached == (old(isAttached) || r == Ok)
      ensures !Fatal(old(rc)) && r == Done ==> Finished(nFile, counter)
      ensures !Fatal(old(rc)) && r == Done && nSrc != g.PendingSrc() ==> destLen == |src|
      ensures !Fatal(old(rc)) && (r == Ok || r == Done) ==> nPagecount == nSrc && nRemaining == PagesLeft(nSrc, iNext)
      ensures !Fatal(old(rc)) && (r == Ok || r == Done) ==>
        KeptBelow(g, old(dst), dst, Min(g.Base(old(iNext)), PENDING_BYTE))
    {
      if Fatal(rc) {
        return rc;
      }
      r := Prepare(writing, destLock, srcLock);
      if r == Ok {
        r := Transfer(nPage, nFile, counter, faults);
      } else {
        rc := r;
      }
    }

    /** The write itself. */
    method StorePage(p: nat, data: seq<Byte>)
      requires g.Valid() && |src| == g.Base(nSrc + 1) && 1 <= p && |data| == g.src
      modifies this`src, this`nSrc
      ensures nSrc == (if p > old(nSrc) then p else old(nSrc)) && |src| == g.Base(nSrc + 1)
      ensures g.Base(p) >= 0 && src == WithPage(old(src), g.Base(p), data)
    {
      BaseNext(g, p);
      BaseMono(g, 1, p);
      if p > nSrc {
        BaseMono(g, nSrc + 1, p + 1);
      } else {
        BaseMono(g, p + 1, nSrc + 1);
      }
      src := WithPage(src, g.Base(p), data);
      if p > nSrc {
        nSrc := p;
      }
    }

    /** A page of the source is written.  The pager of the source reports it to every backup attached
        (sqlite3BackupUpdate). */
    method SourceWrite(p: nat, data: seq<Byte>, faults: bool)
      requires Valid() && Writable(g, nSrc, p, data)
      modifies this`src, this`nSrc, this`dst, this`rc, this`stale
      ensures Valid() && iNext == old(iNext) && g.Base(p) >= 0
      ensures nSrc == (if p > old(nSrc) then p else old(nSrc)) && src == WithPage(old(src), g.Base(p), data)
      ensures stale == Outside(old(stale), g.Base(p), g.Base(p) + g.src)
      ensures !faults && !(memDest && g.src != g.dest) ==> rc == old(rc)
      ensures Fatal(old(rc)) || !isAttached || iNext <= p ==> dst == old(dst) && rc == old(rc)
      ensures !Fatal(old(rc)) && isAttached && p < iNext ==> SameOutside(old(dst), dst, g.Base(p), g.Base(p) + g.src)
    {
      ghost var src0 := src;
      ExtendTo(g, nSrc, p);
      StorePage(p, data);
      if isAttached {
        Update(p, data, src0, faults);
      } else if !Fatal(rc) {
        BaseMono(g, iNext, p);
        AgreeWritten(g, src0, g.Base(p), data, src, dst, stale, g.Base(iNext));
      }
      stale := Outside(stale, g.Base(p), g.Base(p) + g.src);
    }

    /** sqlite3BackupUpdate: page p of the source has been written; copy it again if it was copied before. */
    method Update(p: nat, data: seq<Byte>, ghost src0: seq<Byte>, faults: bool)
      requires g.Valid() && |src| == g.Base(nSrc + 1) && iNext >= 1 && isAttached && 1 <= p && |data| == g.src
      requires !Fatal(rc) ==> Agree(g, src0, dst, stale, 0, g.Base(iNext)) && (iNext > 1 ==> bDestLocked)
      requires Written(src0, g.Base(p), data, src) && |src| == Max(|src0|, g.Base(p) + |data|)
      requires forall o | |src0| <= o < g.Base(p) :: g.Hole(o)
      modifies this`dst, this`rc
      ensures !Fatal(rc) ==> Agree(g, src, dst, Outside(stale, g.Base(p), g.Base(p) + g.src), 0, g.Base(iNext))
      ensures Fatal(old(rc)) || iNext <= p ==> dst == old(dst) && rc == old(rc)
      ensures !Fatal(old(rc)) && p < iNext ==> SameOutside(old(dst), dst, g.Base(p), g.Base(p) + g.src)
      ensures !Fatal(old(rc)) && p < iNext && !Fatal(rc) ==> Copied(g, dst, g.Base(p), data, g.Base(p) + g.src)
      ensures rc == old(rc) || Fatal(rc)
      ensures !faults && !(memDest && g.src != g.dest) ==> rc == old(rc)
    {
      if !Fatal(rc) && p < iNext {
        ghost var before := dst;
        var r, dst' := BackupOnePage(g, dst, p, data, memDest, faults);
        dst := dst';
        if r != Ok {
          rc := r;
        } else {
          AgreeRewritten(g, src0, g.Base(p), data, src, before, dst, stale, g.Base(iNext));
        }
      } else if !Fatal(rc) {
        BaseMono(g, iNext, p);
        AgreeWritten(g, src0, g.Base(p), data, src, dst, stale, g.Base(iNext));
      }
    }

    /** The source becomes shorter. */
    method SourceTruncate(n: nat)
      requires Valid() && n <= nSrc
      modifies this`src, this`nSrc, this`stale
      ensures Valid() && 0 <= g.Base(n + 1) <= |old(src)|
      ensures Now() == old(Now()).(src := old(src)[..g.Base(n + 1)], nSrc := n, stale := stale)
      ensures stale == Outside(old(stale), g.Base(n + 1), |old(src)|)
    {
      BaseMono(g, 1, n + 1);
      BaseMono(g, n + 1, nSrc + 1);
      ghost var src0 := src;
      src := src[..g.Base(n + 1)];
      nSrc := n;
      stale := Outside(stale, g.Base(n + 1), |src0|);
    }

    /** The source becomes longer by pages that the pager does not write and therefore does not report: leaves of the
        free list, whose contents do not matter.  Those that come to lie among the pages copied are stale, unless they
        happen to hold what the copy holds. */
    method SourceGrow(more: seq<Byte>, n: nat)
      requires Valid() && n >= nSrc && |src| + |more| == g.Base(n + 1)
      modifies this`src, this`nSrc, this`stale
      ensures Valid() && Now() == old(Now()).(src := old(src) + more, nSrc := n, stale := stale)
      ensures stale == old(stale) + Unreported(g, |old(src)|, |src|, iNext)
      ensures GrowSafe(g, old(nSrc), n, iNext) ==> stale == old(stale)
      ensures !Fatal(rc) ==> (Agree(g, src, dst, old(stale), 0, g.Base(iNext)) <==>
                              Agree(g, src, dst, old(stale), |old(src)|, g.Base(iNext)))
    {
      ghost var src0, n0 := src, nSrc;
      src, nSrc := src + more, n;
      BaseMono(g, n0 + 1, n + 1);
      GrowAgrees(g, src0, n0, src, n, dst, stale, iNext);
      UnreportedSafe(g, n0, n, iNext);
      stale := stale + Unreported(g, |src0|, |src|, iNext);
    }

    /** sqlite3BackupRestart, after a change of the source by somebody else. */
    method Restart(src': seq<Byte>, n: nat)
      requires Valid() && |src'| == g.Base(n + 1)
      modifies this`src, this`nSrc, this`iNext, this`stale
      ensures Valid() && (isAttached || !Fatal(rc) ==> iNext == 1)
      ensures Now() == old(Now()).(src := src', nSrc := n, stale := {}, iNext := iNext)
    {
      src, nSrc, stale := src', n, {};
      if isAttached {
        iNext := 1;
      }
    }
  }

  /** Page p can be written next: it is one of the source, or the next one, the pending page being passed over. */
  predicate Writable(g: Geom, nSrc: nat, p: nat, data: seq<Byte>)
    requires g.src > 0
  {
    && 1 <= p && p != g.PendingSrc() && |data| == g.src
    && (p <= nSrc + 1 || (p == nSrc + 2 && nSrc + 1 == g.PendingSrc()))
  }

  /** New bytes that lie among the pages copied. */
  ghost function Unreported(g: Geom, lo: nat, hi: nat, iNext: nat): (r: set<int>)
    ensures forall o :: o in r <==> lo <= o < hi && o < g.Base(iNext) && !g.Hole(o)
  {
    set o: int | lo <= o < hi && o < g.Base(iNext) && !g.Hole(o)
  }

  lemma UnreportedSafe(g: Geom, nSrc: nat, n: nat, iNext: nat)
    requires g.Valid() && nSrc <= n && 0 <= g.Base(nSrc + 1) <= g.Base(n + 1)
    ensures GrowSafe(g, nSrc, n, iNext) ==> Unreported(g, g.Base(nSrc + 1), g.Base(n + 1), iNext) == {}
  {
    if GrowSafe(g, nSrc, n, iNext) {
      var hi := if n + 1 < iNext then n + 1 else iNext;
      if hi <= nSrc + 1 {
        BaseMono(g, hi, nSrc + 1);
      }
    }
  }

  /** Unreported pages do not come to lie among the pages copied, or only in the hole. */
  predicate GrowSafe(g: Geom, nSrc: nat, n: nat, iNext: nat) {
    var hi := if n + 1 < iNext then n + 1 else iNext;
    hi <= nSrc + 1 || (PENDING_BYTE <= g.Base(nSrc + 1) && g.Base(hi) <= PENDING_BYTE + g.Larger())
  }

  lemma GrowAgrees(g: Geom, src: seq<Byte>, nSrc: nat, src': seq<Byte>, n: nat, dst: Image, stale: set<int>, iNext: nat)
    requires g.Valid() && |src| == g.Base(nSrc + 1) && |src'| == g.Base(n + 1) && nSrc <= n
    requires |src| <= |src'| && src'[..|src|] == src
    ensures Agree(g, src, dst, stale, 0, g.Base(iNext)) ==>
      (Agree(g, src', dst, stale, 0, g.Base(iNext)) <==> Agree(g, src', dst, stale, |src|, g.Base(iNext)))
    ensures Agree(g, src, dst, stale, 0, g.Base(iNext)) ==>
      Agree(g, src', dst, stale + Unreported(g, |src|, |src'|, iNext), 0, g.Base(iNext))
  {
    forall o | 0 <= o < |src| ensures src'[o] == src[o] {
      assert src'[..|src|][o] == src'[o];
    }
  }

  /** The agreement survives every unreported growth from nSrc to n pages if and only if GrowSafe. */
  lemma GrowthSurvives(g: Geom, src: seq<Byte>, nSrc: nat, n: nat, dst: Image, iNext: nat)
    requires g.Valid() && |src| == g.Base(nSrc + 1) && nSrc <= n && Agree(g, src, dst, {}, 0, g.Base(iNext))
    ensures GrowSafe(g, nSrc, n, iNext) <==>
      forall src' | Extends(src, src', g.Base(n + 1)) :: Agree(g, src', dst, {}, 0, g.Base(iNext))
  {
    BaseMono(g, nSrc + 1, n + 1);
    if GrowSafe(g, nSrc, n, iNext) {
      forall src' | Extends(src, src', g.Base(n + 1)) ensures Agree(g, src', dst, {}, 0, g.Base(iNext)) {
        GrowAgrees(g, src, nSrc, src', n, dst, {}, iNext);
        UnreportedSafe(g, nSrc, n, iNext);
        assert {} + Unreported(g, |src|, |src'|, iNext) == {};
      }
    } else {
      var hi := if n + 1 < iNext then n + 1 else iNext;
      BaseNext(g, nSrc + 1);
      BaseMono(g, nSrc + 2, hi);
      BaseMono(g, hi, n + 1);
      BaseMono(g, hi, iNext);
      var o := if PENDING_BYTE <= g.Base(nSrc + 1) then g.Base(hi) - 1 else g.Base(nSrc + 1);
      assert !g.Hole(o) && |src| <= o < g.Base(hi);
      var wrong: Byte := if o in dst && dst[o] == 0 then 1 else 0;
      var src' := src + seq(g.Base(n + 1) - |src|, _ => wrong);
      assert Extends(src, src', g.Base(n + 1)) && src'[o] == wrong;
      assert !Agree(g, src', dst, {}, 0, g.Base(iNext));
    }
  }

  ghost predicate Extends(src: seq<Byte>, src': seq<Byte>, len: int) {
    |src'| == len && |src| <= len && src'[..|src|] == src
  }

  /** A backup of 1024-byte pages in progress whose copy of page 2 begins with 1. */
  ghost predicate HasOldPage(b: BackupObject, n: nat)
    reads b
  {
    && b.g == Geom(1024, 1024) && !b.memDest && !b.wal && b.Valid() && b.rc == Ok && b.iNext == 4 && b.isAttached
    && b.nSrc == n && 1024 in b.dst && b.dst[1024] == 1
  }

  /** Three of four pages have been copied. */
  method ThreeCopied() returns (b: BackupObject)
    ensures fresh(b) && HasOldPage(b, 4)
  {
    PageSizes(10, 10);
    assert Pow2(10) == 1024;
    var ones: seq<Byte> := seq(4096, _ => 1);
    b := new BackupObject(Geom(1024, 1024), false, false, ones, 4, map[]);
    var r := b.Step(3, false, Ok, Ok, 0, 0, false);
    assert 1024 in b.dst && b.dst[1024] == b.src[1024];
  }

  /** The source is cut to one page and grows again by a leaf and a trunk of the free list: page 1 and the trunk, page
      3, are written and reported, the leaf, page 2, is not. */
  method CutAndGrown(b: BackupObject)
    requires HasOldPage(b, 4)
    modifies b
    ensures HasOldPage(b, 3) && b.src[1024] == 0 && 1024 in b.stale
  {
    var page: seq<Byte> := seq(1024, _ => 0);
    b.SourceTruncate(1);
    assert HasOldPage(b, 1);
    b.SourceWrite(1, page, false);
    assert HasOldPage(b, 1);
    b.SourceGrow(page, 2);
    assert HasOldPage(b, 2) && b.src[1024] == 0 && 1024 in b.stale;
    b.SourceWrite(3, page, false);
  }

  /** The backup of such a source reports DONE with the former contents of page 2. */
  method UnreportedGrowth() returns (b: BackupObject, r: Rc)
    ensures r == Done && b.nSrc == 3 && |b.src| == 3072
    ensures 1024 in b.dst && b.dst[1024] == 1 && b.src[1024] == 0 && 1024 in b.stale
  {
    b := ThreeCopied();
    CutAndGrown(b);
    r := b.Step(-1, false, Ok, Ok, 3, 0, false);
  }

  // ---------------------------------------------------------------- whole runs

  /** What can happen: a reported write, a truncation, growth that is not reported, a change by somebody else, a step,
      which may find the source busy or a lock refused. */
  datatype Event =
    | Write(p: nat, data: seq<Byte>)
    | Truncate(n: nat)
    | Grow(more: seq<Byte>, n: nat)
    | Foreign(src: seq<Byte>, n: nat)
    | Take(nPage: int, writing: bool, destLock: Rc, srcLock: Rc)

  /** Other events happen to no effect. */
  predicate Possible(g: Geom, m: Moment, e: Event)
    requires g.src > 0
  {
    match e
    case Write(p, data) => Writable(g, m.nSrc, p, data)
    case Truncate(n) => n <= m.nSrc
    case Grow(more, n) => n >= m.nSrc && |m.src| + |more| == g.Base(n + 1)
    case Foreign(src, n) => |src| == g.Base(n + 1)
    case Take(_, _, _, _) => true
  }

  /** What an event does to everything but the destination, when no page operation fails. */
  ghost function After(g: Geom, m: Moment, e: Event): (m': Moment)
    requires Sound(g, m)
  {
    if !Possible(g, m, e) then m
    else
      match e
      case Write(p, data) =>
        BaseMono(g, 1, p);
        m.(src := WithPage(m.src, g.Base(p), data), nSrc := if p > m.nSrc then p else m.nSrc,
           stale := Outside(m.stale, g.Base(p), g.Base(p) + g.src))
      case Truncate(n) =>
        BaseMono(g, 1, n + 1);
        BaseMono(g, n + 1, m.nSrc + 1);
        m.(src := m.src[..g.Base(n + 1)], nSrc := n, stale := Outside(m.stale, g.Base(n + 1), |m.src|))
      case Grow(more, n) =>
        m.(src := m.src + more, nSrc := n, stale := m.stale + Unreported(g, |m.src|, |m.src + more|, m.iNext))
      case Foreign(src, n) =>
        m.(src := src, nSrc := n, stale := {}, iNext := if m.attached then 1 else m.iNext)
      case Take(nPage, writing, destLock, srcLock) =>
        Stepped(Locking(m, m.locked || (!writing && destLock == Ok)), nPage,
          Refusal(writing, m.locked, destLock, srcLock, false))
  }

  /** When the destination is locked, its schema version is read. */
  ghost function Locking(m: Moment, locked: bool): (m': Moment) {
    if locked && !m.locked then m.(locked := true, schema := SchemaOf(m.dst)) else m
  }

  /** What a step does after the locks: nothing but to report why it was refused, or to go nPage pages further, and then
      it is done or the source knows of the backup. */
  ghost function Stepped(m: Moment, nPage: int, refused: Rc): (m': Moment) {
    if refused != Ok then m.(rc := refused)
    else
      var i := Advanced(m.iNext, nPage, m.nSrc);
      if i > m.nSrc then m.(iNext := i, rc := Done) else m.(iNext := i, rc := Ok, attached := true)
  }

  /** What an event leaves alone in the destination. */
  ghost predicate DestinationKept(g: Geom, m: Moment, e: Event, dst: Image)
    requires g.Valid()
  {
    match e
    case Write(p, data) =>
      if Possible(g, m, e) && m.attached && p < m.iNext then SameOutside(m.dst, dst, g.Base(p), g.Base(p) + g.src)
      else dst == m.dst
    case Take(_, writing, destLock, srcLock) =>
      if Refusal(writing, m.locked, destLock, srcLock, false) != Ok then dst == m.dst
      else KeptBelow(g, m.dst, dst, Min(g.Base(m.iNext), PENDING_BYTE))
    case _ => dst == m.dst
  }

  /** The event e leads from one moment to the next: the source, the stale bytes and the progress are determined, what
      has been copied agrees with the source, and DONE means a complete copy. */
  ghost predicate Leads(g: Geom, t: Target, m: Moment, e: Event, m': Moment) {
    && Sound(g, m) && Sound(g, m') && m'.(dst := m.dst) == After(g, m, e) && DestinationKept(g, m, e, m'.dst)
    && (m'.rc == Done && m.rc != Done ==> Complete(g, t, m'.src, m'.nSrc, m'.dst, m'.stale, m'.schema))
  }

  /** One event. */
  method Happen(b: BackupObject, e: Event, nFile: nat, counter: nat)
    requires b.Valid() && !Fatal(b.rc) && (b.wal || b.memDest ==> b.g.src == b.g.dest)
    requires counter < U32
    modifies b
    ensures b.Valid() && Leads(b.g, b.To(counter), old(b.Now()), e, b.Now())
      && (b.rc == Done ==> b.Finished(nFile, counter))
  {
    ghost var m := b.Now();
    match e
    case Write(p, data) =>
      if Writable(b.g, b.nSrc, p, data) {
        b.SourceWrite(p, data, false);
      }
    case Truncate(n) =>
      if n <= b.nSrc {
        b.SourceTruncate(n);
      }
    case Grow(more, n) =>
      if n >= b.nSrc && |b.src| + |more| == b.g.Base(n + 1) {
        b.SourceGrow(more, n);
      }
    case Foreign(src, n) =>
      if |src| == b.g.Base(n + 1) {
        b.Restart(src, n);
      }
    case Take(nPage, writing, destLock, srcLock) =>
      var r := b.Step(nPage, writing, destLock, srcLock, nFile, counter, false);
  }

  /** From moment m0 on: the destination is as it was until it is locked, and its schema version is the one that it had
      then. */
  ghost predicate SchemaSince(m0: Moment, m: Moment) {
    if m0.locked then m.locked && m.schema == m0.schema
    else if m.locked then m.schema == SchemaOf(m0.dst)
    else m.dst == m0.dst && m.rc != Done
  }

  lemma SchemaStep(g: Geom, t: Target, m0: Moment, m: Moment, e: Event, m': Moment)
    requires Leads(g, t, m, e, m') && !Fatal(m.rc) && SchemaSince(m0, m)
    ensures SchemaSince(m0, m')
  {
  }

  /** So a finished destination has the schema version that follows the one it had. */
  lemma SchemaChanged(g: Geom, t: Target, m0: Moment, m: Moment)
    requires SchemaSince(m0, m) && m.rc == Done && !m0.locked
    requires Complete(g, t, m.src, m.nSrc, m.dst, m.stale, m.schema)
    ensures SchemaOf(m.dst) == (SchemaOf(m0.dst) + 1) % U32 && SchemaOf(m.dst) != SchemaOf(m0.dst)
  {
  }

  /** Only a step ends a backup. */
  lemma StepEnds(g: Geom, t: Target, m: Moment, e: Event, m': Moment)
    requires Leads(g, t, m, e, m') && !Fatal(m.rc) && Fatal(m'.rc)
    ensures e.Take? && (m'.rc == Done || m'.rc == NotDone(e.destLock) || m'.rc == NotDone(e.srcLock))
  {
  }

  /** The locks are granted or refused for the time being. */
  predicate Mild(e: Event) {
    e.Take? ==> !Fatal(e.destLock) && !Fatal(e.srcLock)
  }

  const LastStep := Take(-1, false, Ok, Ok)

  function EventAt(events: seq<Event>, i: nat): (e: Event) {
    if i < |events| then events[i] else LastStep
  }

  /** The moments of a run: it goes on until a step has ended the backup. */
  ghost predicate Trace(g: Geom, t: Target, events: seq<Event>, trace: seq<Moment>) {
    |trace| >= 1 && forall i | 0 <= i < |trace| - 1 :: !Fatal(trace[i].rc) && LeadsAt(g, t, events, trace, i)
  }

  ghost predicate LeadsAt(g: Geom, t: Target, events: seq<Event>, trace: seq<Moment>, i: nat)
    requires i + 1 < |trace|
  {
    Leads(g, t, trace[i], EventAt(events, i), trace[i + 1])
  }

  lemma TraceGrows(g: Geom, t: Target, events: seq<Event>, trace: seq<Moment>, m: Moment)
    requires Trace(g, t, events, trace) && !Fatal(trace[|trace| - 1].rc)
    requires Leads(g, t, trace[|trace| - 1], EventAt(events, |trace| - 1), m)
    ensures Trace(g, t, events, trace + [m])
  {
    var trace' := trace + [m];
    forall i | 0 <= i < |trace'| - 1 ensures !Fatal(trace'[i].rc) && LeadsAt(g, t, events, trace', i) {
      assert i < |trace| - 1 ==> LeadsAt(g, t, events, trace, i);
    }
  }

  /** A backup from whatever state it is in, Ok, Busy or Locked, through all events and then one step over all pages: at
      every moment the source is what the events have made of it and what has been copied agrees with it; the run ends
      with the first step that reports DONE, with a complete copy of the source of that moment, or a fatal error of a
      lock.  With locks that are refused only for the time being it ends with DONE. */
  method Interleave(b: BackupObject, events: seq<Event>, nFile: nat, counter: nat)
    returns (ghost trace: seq<Moment>)
    requires b.Valid() && !Fatal(b.rc) && (b.wal || b.memDest ==> b.g.src == b.g.dest)
    requires counter < U32
    modifies b
    ensures 2 <= |trace| <= |events| + 2 && trace[0] == old(b.Now()) && trace[|trace| - 1] == b.Now()
    ensures Trace(b.g, b.To(counter), events, trace) && Fatal(b.rc) && EventAt(events, |trace| - 2).Take?
    ensures b.rc == Done ==> b.Finished(nFile, counter)
    ensures b.rc == Done && !old(b.bDestLocked) ==> SchemaOf(b.dst) == (SchemaOf(old(b.dst)) + 1) % U32
    ensures (forall e | e in events :: Mild(e)) ==> b.rc == Done
  {
    var n;
    n, trace := RunEvents(b, events, nFile, counter);
    RunEnds(b.g, b.To(counter), events, n, trace, b.Now());
  }

  /** One event after the other, until the backup has ended. */
  method RunEvents(b: BackupObject, events: seq<Event>, nFile: nat, counter: nat)
    returns (i: nat, ghost trace: seq<Moment>)
    requires b.Valid() && !Fatal(b.rc) && (b.wal || b.memDest ==> b.g.src == b.g.dest)
    requires counter < U32
    modifies b
    ensures AtEvent(b.g, b.To(counter), events, i, trace, b.Now()) && trace[0] == old(b.Now())
    ensures Fatal(b.rc) && i <= |events| + 1 && (b.rc == Done ==> b.Finished(nFile, counter))
  {
    trace, i := [b.Now()], 0;
    while !Fatal(b.rc)
      invariant 0 <= i <= |events| + 1 && b.Valid() && (b.rc == Done ==> b.Finished(nFile, counter))
      invariant AtEvent(b.g, b.To(counter), events, i, trace, b.Now()) && trace[0] == old(b.Now())
      decreases |events| + 1 - i
    {
      trace := NextEvent(b, events, i, nFile, counter, trace);
      i := i + 1;
    }
  }

  lemma RunEnds(g: Geom, t: Target, events: seq<Event>, i: nat, trace: seq<Moment>, m: Moment)
    requires AtEvent(g, t, events, i, trace, m) && Fatal(m.rc) && i <= |events| + 1
    ensures 2 <= |trace| <= |events| + 2 && EventAt(events, |trace| - 2).Take? && trace[|trace| - 1] == m
    ensures (forall e | e in events :: Mild(e)) ==> m.rc == Done
    ensures m.rc == Done && !trace[0].locked && Complete(g, t, m.src, m.nSrc, m.dst, m.stale, m.schema) ==>
      SchemaOf(m.dst) == (SchemaOf(trace[0].dst) + 1) % U32
  {
    if m.rc == Done && !trace[0].locked && Complete(g, t, m.src, m.nSrc, m.dst, m.stale, m.schema) {
      SchemaChanged(g, t, trace[0], m);
    }
    MildEnd(events, i - 1, m.rc);
  }

  lemma MildEnd(events: seq<Event>, i: nat, rc: Rc)
    requires EndsAt(events, i, rc) && Fatal(rc)
    ensures (forall e | e in events :: Mild(e)) ==> rc == Done
  {
    if i < |events| {
      assert EventAt(events, i) in events;
    }
  }

  /** A run before event i, at moment m. */
  ghost predicate AtEvent(g: Geom, t: Target, events: seq<Event>, i: nat, trace: seq<Moment>, m: Moment) {
    && |trace| == i + 1 && trace[i] == m && Trace(g, t, events, trace) && SchemaSince(trace[0], m)
    && (if i == 0 then !Fatal(m.rc) else EndsAt(events, i - 1, m.rc))
  }

  method NextEvent(b: BackupObject, events: seq<Event>, i: nat, nFile: nat, counter: nat, ghost trace: seq<Moment>)
    returns (ghost trace': seq<Moment>)
    requires b.Valid() && !Fatal(b.rc) && (b.wal || b.memDest ==> b.g.src == b.g.dest) && counter < U32
    requires AtEvent(b.g, b.To(counter), events, i, trace, b.Now())
    modifies b
    ensures b.Valid() && (b.rc == Done ==> b.Finished(nFile, counter)) && i <= |events|
    ensures AtEvent(b.g, b.To(counter), events, i + 1, trace', b.Now()) && trace'[0] == trace[0]
  {
    ghost var m, e := b.Now(), EventAt(events, i);
    Happen(b, if i < |events| then events[i] else LastStep, nFile, counter);
    NextMoment(b.g, b.To(counter), events, i, trace, m, b.Now());
    trace' := trace + [b.Now()];
  }

  lemma NextMoment(g: Geom, t: Target, events: seq<Event>, i: nat, trace: seq<Moment>, m: Moment, m': Moment)
    requires AtEvent(g, t, events, i, trace, m) && !Fatal(m.rc) && Leads(g, t, m, EventAt(events, i), m')
    ensures AtEvent(g, t, events, i + 1, trace + [m'], m') && i <= |events|
  {
    TraceGrows(g, t, events, trace, m');
    SchemaStep(g, t, trace[0], m, EventAt(events, i), m');
    EventEnds(g, t, events, i, m, m');
  }

  /** The state in which event i may leave a backup. */
  ghost predicate EndsAt(events: seq<Event>, i: nat, rc: Rc) {
    && (Fatal(rc) ==> EventAt(events, i).Take? && (Mild(EventAt(events, i)) ==> rc == Done))
    && (i >= |events| ==> rc == Done)
  }

  lemma EventEnds(g: Geom, t: Target, events: seq<Event>, i: nat, m: Moment, m': Moment)
    requires Leads(g, t, m, EventAt(events, i), m') && !Fatal(m.rc)
    ensures EndsAt(events, i, m'.rc)
  {
    if Fatal(m'.rc) {
      StepEnds(g, t, m, EventAt(events, i), m');
    }
  }

  /** Writing a page, possibly behind the end of the file. */
  function WithPage(src: seq<Byte>, lo: nat, data: seq<Byte>): (src': seq<Byte>)
    ensures Written(src, lo, data, src') && |src'| == Max(|src|, lo + |data|)
  {
    var filled := if lo > |src| then src + seq(lo - |src|, _ => 0) else src;
    filled[..lo] + data + if lo + |data| < |filled| then filled[lo + |data|..] else []
  }

  /** A write to a page that has not been copied yet. */
  lemma AgreeWritten(g: Geom, src: seq<Byte>, lo: int, data: seq<Byte>, src': seq<Byte>, dst: Image,
                    stale: set<int>, hi: int)
    requires Agree(g, src, dst, stale, 0, hi) && Written(src, lo, data, src') && hi <= lo
    requires forall o | |src| <= o < lo :: g.Hole(o)
    ensures Agree(g, src', dst, Outside(stale, lo, lo + |data|), 0, hi)
  {
    forall o | 0 <= o < |src'| && o < hi && !g.Hole(o) && o !in Outside(stale, lo, lo + |data|)
      ensures o in dst && dst[o] == src'[o] {
      assert src'[o] == src[o];
    }
  }

  /** A new page begins at the end of the file or behind the pending page. */
  lemma ExtendTo(g: Geom, nSrc: nat, p: nat)
    requires g.Valid() && (p <= nSrc + 1 || (p == nSrc + 2 && nSrc + 1 == g.PendingSrc()))
    ensures forall o | g.Base(nSrc + 1) <= o < g.Base(p) :: g.Hole(o)
  {
    if p <= nSrc + 1 {
      BaseMono(g, p, nSrc + 1);
    } else {
      OnPendingSrc(g);
      BaseNext(g, nSrc + 1);
    }
  }

  function Zero(o: int): (b: Byte) {
    0
  }

  /** A source that ends with its pending-byte page, copied to pages of its own size or to larger ones, has a copy that
      is one page shorter. */
  method EndsAtPendingPage(g: Geom, nFile: nat) returns (rc: Rc, len: nat, srcLen: nat)
    requires g.Valid() && g.src <= g.dest && nFile != g.PendingSrc()
    ensures rc == Done && srcLen == PENDING_BYTE + g.src && len == PENDING_BYTE
  {
    var nSrc := g.PendingSrc();
    OnPendingSrc(g);
    BaseNext(g, nSrc);
    srcLen := g.Base(nSrc + 1);
    var src: seq<Byte> := seq(srcLen, o => Zero(o));
    var dst: Image := map o: int | 0 <= o < srcLen :: Zero(o);
    var image;
    rc, image, len := Finish(g, Target(false, false, 0), src, nSrc, dst, nFile, 0, false, {});
  }
}
