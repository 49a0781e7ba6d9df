/** Big-endian integers stored in a page image. */
module Bytes {

  type Byte = x: int | 0 <= x < 256

  function Get2(d: seq<Byte>, a: nat): (v: nat)
    requires a + 1 < |d|
    ensures v < 0x1_0000
  {
    256 * (d[a] as int) + d[a + 1] as int
  }

  function Get4(d: seq<Byte>, a: nat): (v: nat)
    requires a + 3 < |d|
    ensures v < 0x1_0000_0000
  {
    0x1_0000 * Get2(d, a) + Get2(d, a + 2)
  }

  function Enc2(v: nat): (b: seq<Byte>)
    requires v < 0x1_0000
    ensures |b| == 2 && Get2(b, 0) == v
  {
    [v / 256, v % 256]
  }

  /** The four bytes written by put4byte. */
  function Enc4(v: nat): (b: seq<Byte>)
    requires v < 0x1_0000_0000
    ensures |b| == 4 && Get4(b, 0) == v
  {
    Enc2(v / 0x1_0000) + Enc2(v % 0x1_0000)
  }

  /** The most significant byte comes first. */
  lemma BigEndian(b0: Byte, b1: Byte, b2: Byte, b3: Byte)
    ensures Enc4(0x100_0000 * b0 + 0x1_0000 * b1 + 0x100 * b2 + b3) == [b0, b1, b2, b3]
  {
    var v := 0x100_0000 * b0 + 0x1_0000 * b1 + 0x100 * b2 + b3;
    assert v == 0x1_0000 * (0x100 * b0 + b1) + (0x100 * b2 + b3);
    assert v / 0x1_0000 == 0x100 * b0 + b1 && v % 0x1_0000 == 0x100 * b2 + b3;
  }

  /** `d` with the low 16 bits of `v` stored at `i`. */
  function Set2(d: seq<Byte>, i: nat, v: nat): (r: seq<Byte>)
    requires i + 1 < |d|
    ensures |r| == |d| && Get2(r, i) == v % 0x1_0000
    ensures forall x | 0 <= x < |d| && x != i && x != i + 1 :: r[x] == d[x]
  {
    d[i := v / 256 % 256][i + 1 := v % 256]
  }

  method Put2(a: array<Byte>, i: nat, v: nat)
    requires i + 1 < a.Length
    modifies a
    ensures a[..] == Set2(old(a[..]), i, v)
  {
    a[i] := v / 256 % 256;
    a[i + 1] := v % 256;
  }

  /** `d` with the bytes `b` stored from `at` on. */
  function Splice(d: seq<Byte>, at: nat, b: seq<Byte>): (r: seq<Byte>)
    requires at + |b| <= |d|
    ensures |r| == |d| && r[at..at + |b|] == b
    ensures forall x | 0 <= x < |d| && !(at <= x < at + |b|) :: r[x] == d[x]
  {
    d[..at] + b + d[at + |b|..]
  }

  /** memcpy into a page. */
  method CopyIn(a: array<Byte>, at: nat, b: seq<Byte>)
    requires at + |b| <= a.Length
    modifies a
    ensures a[..] == Splice(old(a[..]), at, b)
  {
    for i := 0 to |b|
      invariant a[..] == Splice(old(a[..]), at, b[..i])
    {
      a[at + i] := b[i];
    }
    assert b[..|b|] == b;
  }
}

/** Variable-length integers, most significant group first (btreeInt.h). */
module Varint {
  import opened Bytes

  /** Value and length of the varint at the start of `c`.  When `c` ends before the varint does,
      the reported length exceeds `|c|`. */
  function Decode(c: seq<Byte>): (r: (nat, nat))
    ensures 1 <= r.1 <= 9
  {
    DecodeFrom(c, 0, 0)
  }

  function DecodeFrom(c: seq<Byte>, n: nat, acc: nat): (r: (nat, nat))
    requires n <= 8
    ensures n < r.1 <= 9
    decreases 9 - n
  {
    if |c| <= n then (acc, n + 1)
    else if n == 8 then (256 * acc + c[8], 9)
    else if c[n] < 128 then (128 * acc + c[n], n + 1)
    else DecodeFrom(c, n + 1, 128 * acc + c[n] - 128)
  }

  /** All groups of `v` with the continuation bit set. */
  function High(v: nat): (b: seq<Byte>)
  {
    if v < 128 then [v + 128] else High(v / 128) + [v % 128 + 128]
  }

  /** Exactly `n` groups of `v` with the continuation bit set. */
  function HighN(v: nat, n: nat): (b: seq<Byte>)
    ensures |b| == n
  {
    if n == 0 then [] else HighN(v / 128, n - 1) + [v % 128 + 128]
  }

  /** The encoding written by putVarint for an unsigned 64-bit value. */
  function Encode(v: nat): (b: seq<Byte>)
  {
    if v >= 0x100_0000_0000_0000 then HighN(v / 256, 8) + [v % 256]
    else if v < 128 then [v]
    else High(v / 128) + [v % 128]
  }

  /** The groups with a continuation bit: the most significant ones first, and no more of them than needed. */
  lemma {:induction false} HighFormat(v: nat, n: nat)
    requires n >= 1
    ensures |High(v)| <= n <==> v < Pow128(n)
    ensures forall i | 0 <= i < |High(v)| :: High(v)[i] >= 128
    decreases v
  {
    if v >= 128 {
      HighFormat(v / 128, if n == 1 then 1 else n - 1);
      assert n == 1 ==> Pow128(1) == 128 * Pow128(0);
    } else {
      PowAtLeast(n);
    }
  }

  lemma {:induction false} PowAtLeast(n: nat)
    requires n >= 1
    ensures Pow128(n) >= 128
  {
    if n > 1 {
      PowAtLeast(n - 1);
    } else {
      assert Pow128(1) == 128 * Pow128(0);
    }
  }

  /** The format: the least number of seven-bit groups, or nine bytes; every byte but the last has the high bit, and the
      last of fewer than nine has not; the last group is the least significant. */
  lemma Format(v: nat, n: nat)
    requires v < 0x1_0000_0000_0000_0000 && 1 <= n <= 8
    ensures |Encode(v)| <= n <==> v < Pow128(n)
    ensures forall i | 0 <= i < |Encode(v)| - 1 :: Encode(v)[i] >= 128
    ensures |Encode(v)| < 9 ==> Encode(v)[|Encode(v)| - 1] == v % 128
    ensures |Encode(v)| == 9 ==> Encode(v)[8] == v % 256
    ensures 128 <= v < Pow128(8) ==>
      var front := Encode(v / 128);
      Encode(v)[..|Encode(v)| - 1] == front[|front| - 1 := front[|front| - 1] + 128]
  {
    assert Pow128(8) == 0x100_0000_0000_0000;
    RoundTrip(v, []);
    if v >= 0x100_0000_0000_0000 {
      PowGrows(n, 8);
      HighNBits(v / 256, 8);
    } else if v < 128 {
      PowAtLeast(n);
    } else {
      FormatMedium(v, n);
    }
  }

  lemma FormatMedium(v: nat, n: nat)
    requires 128 <= v < Pow128(8) && 1 <= n <= 8 && Pow128(8) == 0x100_0000_0000_0000
    ensures |Encode(v)| <= n <==> v < Pow128(n)
    ensures forall i | 0 <= i < |Encode(v)| - 1 :: Encode(v)[i] >= 128
    ensures |Encode(v)| <= 8 && Encode(v)[|Encode(v)| - 1] == v % 128
    ensures var front := Encode(v / 128);
      Encode(v)[..|Encode(v)| - 1] == front[|front| - 1 := front[|front| - 1] + 128]
  {
    HighFormat(v / 128, if n == 1 then 1 else n - 1);
    HighFormat(v / 128, 7);
    assert n == 1 ==> Pow128(1) == 128 * Pow128(0);
    assert Encode(v)[..|Encode(v)| - 1] == High(v / 128);
  }

  lemma {:induction false} PowGrows(a: nat, b: nat)
    requires a <= b
    ensures Pow128(a) <= Pow128(b)
    decreases b
  {
    if a < b {
      PowGrows(a, b - 1);
    }
  }

  lemma {:induction false} HighNBits(v: nat, n: nat)
    ensures forall i | 0 <= i < n :: HighN(v, n)[i] >= 128
  {
    if n > 0 {
      HighNBits(v / 128, n - 1);
    }
  }

  /** The decoder looks only at the bytes it reports as consumed. */
  lemma {:induction false} DecodeLocal(c: seq<Byte>, c': seq<Byte>, n: nat, acc: nat)
    requires n <= 8
    requires DecodeFrom(c, n, acc).1 <= |c| && DecodeFrom(c, n, acc).1 <= |c'|
    requires forall i | n <= i < DecodeFrom(c, n, acc).1 :: c[i] == c'[i]
    ensures DecodeFrom(c', n, acc) == DecodeFrom(c, n, acc)
    decreases 9 - n
  {
    var len := DecodeFrom(c, n, acc).1;
    assert n < |c| && n < |c'| && c[n] == c'[n];
    if n < 8 && c[n] >= 128 {
      var acc' := 128 * acc + c[n] - 128;
      assert DecodeFrom(c, n, acc) == DecodeFrom(c, n + 1, acc');
      assert DecodeFrom(c', n, acc) == DecodeFrom(c', n + 1, acc');
      DecodeLocal(c, c', n + 1, acc');
    }
  }

  function Pow128(n: nat): (p: nat)
    ensures p >= 1
  {
    if n == 0 then 1 else 128 * Pow128(n - 1)
  }

  lemma {:induction false} HighLength(v: nat, k: nat)
    requires v < Pow128(k) && k >= 1
    ensures 1 <= |High(v)| <= k
  {
    if v >= 128 {
      assert k > 1 by { assert Pow128(1) == 128 * Pow128(0); }
      HighLength(v / 128, k - 1);
    }
  }

  /** Decoding runs through a block of continuation groups, accumulating the groups' value. */
  lemma {:induction false} DecodeHigh(v: nat, post: seq<Byte>)
    requires |High(v)| <= 8
    ensures DecodeFrom(High(v) + post, 0, 0) == DecodeFrom(High(v) + post, |High(v)|, v)
  {
    if v >= 128 {
      var c := High(v) + post;
      assert c == High(v / 128) + ([v % 128 + 128] + post);
      DecodeHigh(v / 128, [v % 128 + 128] + post);
      assert c[|High(v / 128)|] == v % 128 + 128;
      assert 128 * (v / 128) + v % 128 == v;
    } else {
      var c := High(v) + post;
      assert c[0] == v + 128;
    }
  }

  lemma {:induction false} DecodeHighN(v: nat, n: nat, post: seq<Byte>)
    requires n <= 8 && v < Pow128(n)
    ensures DecodeFrom(HighN(v, n) + post, 0, 0) == DecodeFrom(HighN(v, n) + post, n, v)
  {
    if n > 0 {
      HighNSplit(v, n, post);
      DecodeHighN(v / 128, n - 1, [v % 128 + 128] + post);
      DecodeStep(HighN(v, n) + post, n - 1, v / 128);
    }
  }

  lemma HighNSplit(v: nat, n: nat, post: seq<Byte>)
    requires n > 0
    ensures HighN(v, n) + post == HighN(v / 128, n - 1) + ([v % 128 + 128] + post)
    ensures (HighN(v, n) + post)[n - 1] == v % 128 + 128 && 128 * (v / 128) + v % 128 == v
  {
  }

  lemma DecodeStep(c: seq<Byte>, n: nat, acc: nat)
    requires n < 8 && n < |c| && c[n] >= 128
    ensures DecodeFrom(c, n, acc) == DecodeFrom(c, n + 1, 128 * acc + c[n] - 128)
  {
  }

  lemma RoundTripLong(v: nat, post: seq<Byte>)
    requires 0x100_0000_0000_0000 <= v < 0x1_0000_0000_0000_0000
    ensures Decode(Encode(v) + post) == (v, |Encode(v)|) && |Encode(v)| == 9
  {
    var c := Encode(v) + post;
    assert Pow128(8) == 0x100_0000_0000_0000;
    assert c == HighN(v / 256, 8) + ([v % 256] + post);
    DecodeHighN(v / 256, 8, [v % 256] + post);
    assert c[8] == v % 256;
  }

  lemma RoundTripMedium(v: nat, post: seq<Byte>)
    requires 128 <= v < 0x100_0000_0000_0000
    ensures 1 <= |Encode(v)| <= 9
    ensures Decode(Encode(v) + post) == (v, |Encode(v)|)
  {
    var c := Encode(v) + post;
    assert Pow128(7) == 0x2_0000_0000_0000;
    HighLength(v / 128, 7);
    assert c == High(v / 128) + ([v % 128] + post);
    DecodeHigh(v / 128, [v % 128] + post);
    assert c[|High(v / 128)|] == v % 128;
  }

  /** Reading back what putVarint wrote returns the value and the number of bytes written. */
  lemma RoundTrip(v: nat, post: seq<Byte>)
    requires v < 0x1_0000_0000_0000_0000
    ensures 1 <= |Encode(v)| <= 9
    ensures Decode(Encode(v) + post) == (v, |Encode(v)|)
  {
    if v >= 0x100_0000_0000_0000 {
      RoundTripLong(v, post);
    } else if v >= 128 {
      RoundTripMedium(v, post);
    } else {
      assert (Encode(v) + post)[0] == v;
    }
  }
}

/** Layout of a cell: child pointer, header varints, local payload, overflow page number. */
module CellFormat {
  import opened Bytes
  import Varint

  /** What the page header flags say about the cells of a page, with the usable page size. */
  datatype Kind = Kind(usable: nat, leaf: bool, intKey: bool)
  {
    predicate Valid() {
      480 <= usable <= 65536
    }
    predicate HasData() {
      leaf && intKey
    }
    function ChildPtrSize(): (n: nat) {
      if leaf then 0 else 4
    }
    function MaxLocal(): (n: nat)
      requires Valid()
    {
      if intKey then usable - 35 else (usable - 12) * 64 / 255 - 23
    }
    function MinLocal(): (n: nat)
      requires Valid()
    {
      (usable - 12) * 32 / 255 - 23
    }
  }

  datatype Option<T> = None | Some(value: T)

  /** decodeFlags: what the flags byte of a page header says, unless it is not one of the four that occur. */
  function DecodeFlags(usable: nat, flags: Byte): (k: Option<Kind>) {
    var leaf := flags / 8 % 2 == 1;
    var rest := if leaf then flags - 8 else flags;
    if rest == 5 then Some(Kind(usable, leaf, true)) else if rest == 2 then Some(Kind(usable, leaf, false)) else None
  }

  /** The flags byte of a page: PTF_INTKEY and PTF_LEAFDATA, or PTF_ZERODATA, with PTF_LEAF on leaves. */
  function FlagsOf(k: Kind): (flags: Byte) {
    (if k.intKey then 1 + 4 else 2) + if k.leaf then 8 else 0
  }

  /** Every kind of page has exactly one flags byte. */
  lemma FlagsRoundTrip(usable: nat, k: Kind, flags: Byte)
    ensures DecodeFlags(usable, flags) == Some(k) <==> k.usable == usable && flags == FlagsOf(k)
  {
  }

  datatype CellInfo = CellInfo(nKey: int, nPayload: nat, nHeader: nat, nLocal: nat, iOverflow: nat, nSize: nat)

  function From(c: seq<Byte>, n: nat): (s: seq<Byte>) {
    if n <= |c| then c[n..] else []
  }

  /** getVarint32 saturates at the largest 32-bit value. */
  function Saturate32(v: nat): (r: nat) {
    if v > 0xffff_ffff then 0xffff_ffff else v
  }

  /** The 64-bit pattern of a rowid read as a signed integer. */
  function Signed64(v: nat): (r: int) {
    var w := v % 0x1_0000_0000_0000_0000;
    if w < 0x8000_0000_0000_0000 then w else w - 0x1_0000_0000_0000_0000
  }

  /** The amount of a payload kept on the b-tree page. */
  function LocalAmount(k: Kind, nPayload: nat): (n: nat)
    requires k.Valid()
  {
    if nPayload <= k.MaxLocal() then nPayload
    else
      var surplus := k.MinLocal() + (nPayload - k.MinLocal()) % (k.usable - 4);
      if surplus <= k.MaxLocal() then surplus else k.MinLocal()
  }

  function Finish(k: Kind, nKey: int, nPayload: nat, nHeader: nat): (info: CellInfo)
    requires k.Valid()
  {
    var nLocal := LocalAmount(k, nPayload);
    if nPayload <= k.MaxLocal() then
      CellInfo(nKey, nPayload, nHeader, nLocal, 0, if nHeader + nPayload < 4 then 4 else nHeader + nPayload)
    else
      CellInfo(nKey, nPayload, nHeader, nLocal, nLocal + nHeader, nLocal + nHeader + 4)
  }

  /** btreeParseCellPtr. */
  function Parse(k: Kind, c: seq<Byte>): (info: CellInfo)
    requires k.Valid()
    ensures 4 <= info.nSize && info.nHeader <= info.nSize && k.ChildPtrSize() < info.nHeader
  {
    var n0 := k.ChildPtrSize();
    if k.intKey then
      var size := if k.HasData() then Varint.Decode(From(c, n0)) else (0, 0);
      var key := Varint.Decode(From(c, n0 + size.1));
      Finish(k, Signed64(key.0), Saturate32(size.0), n0 + size.1 + key.1)
    else
      var size := Varint.Decode(From(c, n0));
      Finish(k, Saturate32(size.0), Saturate32(size.0), n0 + size.1)
  }

  function CellSize(k: Kind, c: seq<Byte>): (n: nat)
    requires k.Valid()
  {
    Parse(k, c).nSize
  }

  /** A byte string that is exactly one cell. */
  predicate IsCell(k: Kind, c: seq<Byte>)
  {
    k.Valid() && CellSize(k, c) == |c|
  }

  lemma DecodeAtLocal(c: seq<Byte>, c': seq<Byte>, n: nat)
    requires n + Varint.Decode(From(c, n)).1 <= |c| && n + Varint.Decode(From(c, n)).1 <= |c'|
    requires forall i | n <= i < n + Varint.Decode(From(c, n)).1 :: c[i] == c'[i]
    ensures Varint.Decode(From(c', n)) == Varint.Decode(From(c, n))
  {
    Varint.DecodeLocal(From(c, n), From(c', n), 0, 0);
  }

  /** Parsing depends only on the header bytes after the child pointer. */
  lemma ParseLocal(k: Kind, c: seq<Byte>, c': seq<Byte>)
    requires k.Valid()
    requires Parse(k, c).nHeader <= |c| && Parse(k, c).nHeader <= |c'|
    requires forall i | k.ChildPtrSize() <= i < Parse(k, c).nHeader :: c[i] == c'[i]
    ensures Parse(k, c') == Parse(k, c)
  {
    var n0 := k.ChildPtrSize();
    if k.intKey {
      if k.HasData() {
        DecodeAtLocal(c, c', n0);
      }
      DecodeAtLocal(c, c', n0 + if k.HasData() then Varint.Decode(From(c, n0)).1 else 0);
    } else {
      DecodeAtLocal(c, c', n0);
    }
  }

  /** A cell keeps its size when it is followed by other bytes and when its child pointer changes. */
  lemma CellSizeInContext(k: Kind, c: seq<Byte>, c': seq<Byte>)
    requires IsCell(k, c) && |c| <= |c'|
    requires forall i | k.ChildPtrSize() <= i < |c| :: c[i] == c'[i]
    ensures CellSize(k, c') == |c|
  {
    ParseLocal(k, c, c');
  }

  /** A payload size that does not fit in 32 bits is read as the largest that does. */
  lemma PayloadSize(k: Kind, c: seq<Byte>)
    requires k.Valid()
    ensures Parse(k, c).nPayload < 0x1_0000_0000
    ensures !k.intKey || k.HasData() ==>
      var size := Varint.Decode(From(c, k.ChildPtrSize())).0;
      Parse(k, c).nPayload == if size < 0x1_0000_0000 then size else 0xffff_ffff
  {
  }

  /** When a payload is spilled, the local part lies between the two limits. */
  lemma LocalBounds(k: Kind, nPayload: nat)
    requires k.Valid()
    ensures k.MinLocal() < k.MaxLocal() < k.usable - 4
    ensures LocalAmount(k, nPayload) <= k.MaxLocal()
    ensures nPayload > k.MaxLocal() ==> k.MinLocal() <= LocalAmount(k, nPayload) < nPayload
  {
  }

  /** The limits as fractions of the page behind the larger header: with the 23 bytes that a cell can need besides its
      payload, 64 of 255 parts on an index page and all of a table leaf at most, 32 of 255 parts at least. */
  lemma LocalFractions(k: Kind)
    requires k.Valid()
    ensures !k.intKey ==> 255 * (k.MaxLocal() + 23) <= 64 * (k.usable - 12) < 255 * (k.MaxLocal() + 24)
    ensures k.intKey ==> k.MaxLocal() + 23 == k.usable - 12
    ensures 255 * (k.MinLocal() + 23) <= 32 * (k.usable - 12) < 255 * (k.MinLocal() + 24)
  {
  }

  lemma FinishBound(k: Kind, nKey: int, nPayload: nat, nHeader: nat)
    requires k.Valid()
    ensures Finish(k, nKey, nPayload, nHeader).nSize <= nHeader + k.MaxLocal() + 4
  {
    LocalBounds(k, nPayload);
  }

  lemma IndexLocalBound(usable: nat)
    requires usable >= 480
    ensures 3 * ((usable - 12) * 64 / 255 - 4) <= usable - 12
  {
  }

  /** Size bounds derived from the local payload limits: three index cells with their pointers fit on
      a page, and a leaf-data cell always fits on an empty page. */
  lemma SizeBounds(k: Kind, c: seq<Byte>)
    requires k.Valid()
    ensures !k.intKey ==> 3 * (CellSize(k, c) + 2) <= k.usable - 12
    ensures k.intKey && !k.leaf ==> CellSize(k, c) <= 13
    ensures CellSize(k, c) + 2 <= k.usable - 12 + 4 - k.ChildPtrSize()
  {
    var n0 := k.ChildPtrSize();
    if k.intKey {
      var size := if k.HasData() then Varint.Decode(From(c, n0)) else (0, 0);
      var key := Varint.Decode(From(c, n0 + size.1));
      FinishBound(k, Signed64(key.0), Saturate32(size.0), n0 + size.1 + key.1);
    } else {
      var size := Varint.Decode(From(c, n0));
      FinishBound(k, Saturate32(size.0), Saturate32(size.0), n0 + size.1);
      IndexLocalBound(k.usable);
    }
  }
}
