/** The hash-table form of a bit vector: open addressing with linear probing over a fixed number of slots. */
module ProbeTable {

  const NINT := 124
  const MXHASH := 62

  function Slot(v: nat): (h: nat)
    requires v > 0
    ensures h < NINT
  {
    (v - 1) % NINT
  }

  function Next(h: nat): (h': nat)
    requires h < NINT
    ensures h' < NINT
  {
    if h + 1 >= NINT then 0 else h + 1
  }

  /** Steps of probing from h to h'. */
  ghost function Dist(h: nat, h': nat): (d: nat)
    requires h < NINT && h' < NINT
    ensures d < NINT
  {
    if h <= h' then h' - h else h' + NINT - h
  }

  /** Number of slots in use among the first n. */
  ghost function Used(t: seq<nat>, n: nat): (c: nat)
    requires n <= |t|
    ensures c <= n
  {
    if n == 0 then 0 else Used(t, n - 1) + if t[n - 1] != 0 then 1 else 0
  }

  /** Every slot that probing for v passes before h is in use. */
  ghost predicate Reached(t: seq<nat>, v: nat, h: nat)
    requires |t| == NINT && v > 0 && h < NINT
  {
    forall x {:trigger t[x]} | 0 <= x < NINT && Dist(Slot(v), x) < Dist(Slot(v), h) :: t[x] != 0
  }

  /** A probing table: no value twice, every value found by probing, and at least one slot empty. */
  ghost predicate Table(t: seq<nat>, nSet: nat)
  {
    && |t| == NINT && nSet == Used(t, NINT) <= NINT - 1
    && (forall h | 0 <= h < NINT && t[h] != 0 :: Reached(t, t[h], h))
    && (forall h, h' | 0 <= h < h' < NINT && t[h] != 0 :: t[h] != t[h'])
  }

  lemma {:induction false} SomeEmpty(t: seq<nat>, n: nat) returns (z: nat)
    requires n <= |t| && Used(t, n) < n
    ensures z < n && t[z] == 0
  {
    if t[n - 1] == 0 {
      z := n - 1;
    } else {
      z := SomeEmpty(t, n - 1);
    }
  }

  lemma {:induction false} UsedUpdate(t: seq<nat>, h: nat, v: nat, n: nat)
    requires h < |t| && t[h] == 0 && v > 0 && n <= |t|
    ensures Used(t[h := v], n) == Used(t, n) + if h < n then 1 else 0
  {
    if n > 0 {
      UsedUpdate(t, h, v, n - 1);
    }
  }

  lemma {:induction false} UsedZero(t: seq<nat>, n: nat)
    requires n <= |t| && forall x | 0 <= x < n :: t[x] == 0
    ensures Used(t, n) == 0
  {
    if n > 0 {
      UsedZero(t, n - 1);
    }
  }

  /** Probe for v: the slot that holds it, or else the first empty one. */
  method Probe(t: seq<nat>, v: nat, ghost nSet: nat) returns (h: nat)
    requires Table(t, nSet) && v > 0
    ensures h < NINT && Reached(t, v, h)
    ensures if v in t then t[h] == v else t[h] == 0
  {
    ghost var z := SomeEmpty(t, NINT);
    h := Slot(v);
    while t[h] != 0 && t[h] != v
      invariant h < NINT && Reached(t, v, h)
      invariant forall x | 0 <= x < NINT && Dist(Slot(v), x) < Dist(Slot(v), h) :: t[x] != v
      decreases Dist(h, z)
    {
      h := Next(h);
    }
    if t[h] == 0 {
      Absent(t, nSet, v, h);
    }
  }

  /** An empty slot on the probe sequence ends the search. */
  lemma Absent(t: seq<nat>, nSet: nat, v: nat, h: nat)
    requires Table(t, nSet) && v > 0 && h < NINT && t[h] == 0
    requires forall x | 0 <= x < NINT && Dist(Slot(v), x) < Dist(Slot(v), h) :: t[x] != v
    ensures v !in t
  {
    forall x | 0 <= x < NINT ensures t[x] != v {
      assert t[x] != 0 ==> Reached(t, t[x], x);
    }
  }

  /** Putting a new value into the first empty slot of its probe sequence keeps the table. */
  lemma Inserted(t: seq<nat>, nSet: nat, v: nat, h: nat)
    requires Table(t, nSet) && v > 0 && v !in t && h < NINT && t[h] == 0 && Reached(t, v, h) && nSet < NINT - 1
    ensures Table(t[h := v], nSet + 1)
    ensures forall x | x > 0 :: x in t[h := v] <==> x in t || x == v
  {
    var t' := t[h := v];
    UsedUpdate(t, h, v, NINT);
    forall g | 0 <= g < NINT && t'[g] != 0 ensures Reached(t', t'[g], g) {
      if g != h {
        assert Reached(t, t[g], g);
      }
    }
    forall x | x > 0 ensures x in t' <==> x in t || x == v {
      if x in t {
        var g :| 0 <= g < NINT && t[g] == x;
        assert t'[g] == x;
      }
      assert t'[h] == v;
    }
  }

  /** The rebuilding loop of sqlite3BitvecClear: all values but one are hashed into an empty table. */
  method Rebuild(old': seq<nat>, ghost nOld: nat, v: nat) returns (t: seq<nat>, nSet: nat)
    requires Table(old', nOld) && v > 0
    ensures Table(t, nSet) && nSet <= nOld
    ensures forall x | x > 0 :: x in t <==> x in old' && x != v
  {
    t, nSet := seq(NINT, _ => 0), 0;
    UsedZero(t, NINT);
    assert forall h | 0 <= h < NINT :: t[h] == 0;
    for j := 0 to NINT
      invariant Table(t, nSet) && nSet <= Used(old', j)
      invariant forall x | x > 0 :: x in t <==> x in old'[..j] && x != v
    {
      ghost var t0 := t;
      UsedMono(old', j + 1, NINT);
      var x := old'[j];
      if x != 0 && x != v {
        NotBefore(old', nOld, j);
        assert x !in t;
        var h := Probe(t, x, nSet);
        Inserted(t, nSet, x, h);
        t, nSet := t[h := x], nSet + 1;
        assert forall y | y > 0 :: y in t <==> y in t0 || y == x;
      }
      CopiedOne(old', j, v, t0, t);
    }
    assert old'[..NINT] == old';
  }

  /** A value stands in one slot only. */
  lemma NotBefore(t: seq<nat>, n: nat, j: nat)
    requires Table(t, n) && j < NINT && t[j] != 0
    ensures t[j] !in t[..j]
  {
  }

  /** The values of the first slots without v, after one more slot. */
  lemma CopiedOne(s: seq<nat>, j: nat, v: nat, t: seq<nat>, t': seq<nat>)
    requires j < |s| && v > 0 && forall x | x > 0 :: x in t <==> x in s[..j] && x != v
    requires if s[j] != 0 && s[j] != v then forall y | y > 0 :: y in t' <==> y in t || y == s[j] else t' == t
    ensures forall x | x > 0 :: x in t' <==> x in s[..j + 1] && x != v
  {
    assert s[..j + 1] == s[..j] + [s[j]];
  }

  lemma {:induction false} UsedMono(t: seq<nat>, m: nat, n: nat)
    requires m <= n <= |t|
    ensures Used(t, m) <= Used(t, n)
    decreases n - m
  {
    if m < n {
      UsedMono(t, m, n - 1);
    }
  }
}

/** The bitmap form: eight bits to a byte. */
module BitArray {

  /** 1 << k. */
  function Bit(k: nat): (b: bv8)
    requires k < 8
  {
    match k
    case 0 => 0x01
    case 1 => 0x02
    case 2 => 0x04
    case 3 => 0x08
    case 4 => 0x10
    case 5 => 0x20
    case 6 => 0x40
    case _ => 0x80
  }

  predicate TestBit(bits: seq<bv8>, i: nat)
    requires i < 8 * |bits|
  {
    bits[i / 8] & Bit(i % 8) != 0
  }

  function SetBit(bits: seq<bv8>, i: nat): (r: seq<bv8>)
    requires i < 8 * |bits|
    ensures |r| == |bits|
  {
    bits[i / 8 := bits[i / 8] | Bit(i % 8)]
  }

  function ClearBit(bits: seq<bv8>, i: nat): (r: seq<bv8>)
    requires i < 8 * |bits|
    ensures |r| == |bits|
  {
    bits[i / 8 := bits[i / 8] & !Bit(i % 8)]
  }

  lemma OrBit(x: bv8, a: nat, b: nat)
    requires a < 8 && b < 8
    ensures (x | Bit(a)) & Bit(b) != 0 <==> a == b || x & Bit(b) != 0
  {
  }

  lemma AndNotBit(x: bv8, a: nat, b: nat)
    requires a < 8 && b < 8
    ensures (x & !Bit(a)) & Bit(b) != 0 <==> a != b && x & Bit(b) != 0
  {
  }

  lemma SetOne(bits: seq<bv8>, i: nat, j: nat)
    requires i < 8 * |bits| && j < 8 * |bits|
    ensures TestBit(SetBit(bits, i), j) <==> i == j || TestBit(bits, j)
  {
    OrBit(bits[i / 8], i % 8, j % 8);
  }

  lemma ClearOne(bits: seq<bv8>, i: nat, j: nat)
    requires i < 8 * |bits| && j < 8 * |bits|
    ensures TestBit(ClearBit(bits, i), j) <==> i != j && TestBit(bits, j)
  {
    if i / 8 == j / 8 {
      AndNotBit(bits[i / 8], i % 8, j % 8);
    }
  }
}

/** A set of integers in 1..iSize as a bitmap, a probing table, or an array of smaller bit vectors. */
module BitvecModule {
  import opened ProbeTable
  import opened BitArray

  /** Sizes for a 512-byte structure with eight-byte pointers. */
  const NELEM := 496
  const NBIT := 3968
  const NPTR := 62
  const U32 := 0x1_0000_0000

  datatype Rc = Ok | NoMem

  /** What the shared memory of a node holds at present. */
  datatype Union = Bitmap(bits: seq<bv8>) | Hash(slots: seq<nat>) | Subs(sub: seq<Bitvec?>)

  class Bitvec {
    const iSize: nat
    var nSet: nat
    var iDivisor: nat
    var u: Union
    ghost var Repr: set<Bitvec>

    /** Sub-vector k, if present, is valid, of the right size, and apart from this node and its other sub-vectors. */
    ghost predicate SubOk(sub: seq<Bitvec?>, k: nat)
      requires k < |sub|
      reads this, Repr
      decreases Repr, 0
    {
      sub[k] != null ==>
        && sub[k] in Repr && sub[k] in sub[k].Repr && sub[k].Repr < Repr && this !in sub[k].Repr
        && sub[k].iSize == iDivisor && sub[k].Valid()
    }

    ghost predicate Valid()
      reads this, Repr
      decreases Repr, 1
    {
      && this in Repr && iSize + NPTR - 1 < U32
      && (iDivisor == 0 ==>
            if iSize <= NBIT then u.Bitmap? && |u.bits| == NELEM
            else u.Hash? && Table(u.slots, nSet) && forall h | 0 <= h < NINT :: u.slots[h] <= iSize)
      && (iDivisor > 0 ==>
            && iSize > NBIT && iDivisor == (iSize + NPTR - 1) / NPTR && u.Subs? && |u.sub| == NPTR
            && (forall k | 0 <= k < NPTR :: SubOk(u.sub, k))
            && (forall k, l | 0 <= k < l < NPTR && u.sub[k] in Repr && u.sub[l] in Repr ::
              u.sub[k].Repr !! u.sub[l].Repr))
    }

    /** Whether i+1 is in the set. */
    ghost predicate Has(i: nat)
      requires Valid() && i < iSize
      reads this, Repr
      decreases Repr
    {
      if iDivisor > 0 then
        Bin(iSize, iDivisor, i);
        var sub := u.sub[BinOf(i, iDivisor)];
        assert SubOk(u.sub, BinOf(i, iDivisor));
        sub != null && sub.Has(Inside(i, iDivisor))
      else if u.Bitmap? then TestBit(u.bits, i)
      else i + 1 in u.slots
    }

    /** Setting i+1 takes no memory: the value is in a bitmap, or in a table that holds it or has room for it, all the
        way down. */
    ghost predicate Roomy(i: nat)
      requires Valid() && i < iSize
      reads this, Repr
      decreases Repr
    {
      if iDivisor > 0 then
        Bin(iSize, iDivisor, i);
        var sub := u.sub[BinOf(i, iDivisor)];
        assert SubOk(u.sub, BinOf(i, iDivisor));
        sub != null && sub.Roomy(Inside(i, iDivisor))
      else if u.Bitmap? then true
      else i + 1 in u.slots || nSet < if u.slots[Slot(i + 1)] == 0 then NINT - 1 else MXHASH
    }

    /** The set that this vector represents. */
    ghost function Contents(): (s: set<nat>)
      requires Valid()
      reads this, Repr
    {
      set i | 0 <= i < iSize && Has(i) :: i + 1
    }

    constructor (size: nat)
      requires size + NPTR - 1 < U32
      ensures Valid() && fresh(Repr) && iSize == size
      ensures forall i | 0 <= i < iSize :: !Has(i)
      ensures iDivisor == 0
    {
      iSize := size;
      nSet := 0;
      iDivisor := 0;
      if size <= NBIT {
        u := Bitmap(seq(NELEM, _ => 0));
      } else {
        u := Hash(seq(NINT, _ => 0));
        UsedZero(seq(NINT, _ => 0), NINT);
      }
      Repr := {this};
    }

    /** sqlite3BitvecSet for number i+1.  With `faults` memory may run out at any allocation. */
    method SetBit(i: nat, faults: bool) returns (rc: Rc)
      requires Valid() && i < iSize
      modifies Repr
      ensures Valid() && fresh(Repr - old(Repr)) && (old(iDivisor) > 0 ==> iDivisor > 0)
      ensures forall j | 0 <= j < iSize :: Has(j) ==> old(Has(j)) || j == i
      ensures rc == Ok ==> forall j | 0 <= j < iSize :: Has(j) <==> old(Has(j)) || j == i
      ensures !faults || old(Roomy(i)) ==> rc == Ok
      decreases iSize, if iDivisor == 0 then 4 else 2
    {
      if iSize > NBIT && iDivisor > 0 {
        rc := SetInSub(i, faults);
        return;
      }
      if iSize <= NBIT {
        forall j | 0 <= j < iSize ensures TestBit(BitArray.SetBit(u.bits, i), j) <==> i == j || TestBit(u.bits, j) {
          SetOne(u.bits, i, j);
        }
        u := Bitmap(BitArray.SetBit(u.bits, i));
        return Ok;
      }
      var h := Probe(u.slots, i + 1, nSet);
      if u.slots[h] == i + 1 {
        return Ok;
      }
      var first := h == Slot(i + 1);
      if nSet >= (if first then NINT - 1 else MXHASH) {
        rc := Split(i, faults);
        return;
      }
      Inserted(u.slots, nSet, i + 1, h);
      nSet := nSet + 1;
      u := Hash(u.slots[h := i + 1]);
      return Ok;
    }

    /** Make sure that sub-vector `bin` exists. */
    method EnsureSub(bin: nat, faults: bool) returns (rc: Rc)
      requires Valid() && iDivisor > 0 && bin < NPTR
      modifies this
      ensures Valid() && fresh(Repr - old(Repr)) && iDivisor == old(iDivisor)
      ensures rc == Ok ==> u.sub[bin] != null
      ensures !faults || old(u.sub[bin]) != null ==> rc == Ok
      ensures old(u.sub[bin]) != null ==> u == old(u) && Repr == old(Repr)
      ensures forall j | 0 <= j < iSize :: Has(j) == old(Has(j))
    {
      assert SubOk(u.sub, bin);
      if u.sub[bin] != null {
        return Ok;
      }
      var oom: bool := *;
      if oom && faults {
        return NoMem;
      }
      var sub := new Bitvec(iDivisor);
      u := Subs(u.sub[bin := sub]);
      Repr := Repr + sub.Repr;
      forall k | 0 <= k < NPTR ensures SubOk(u.sub, k) {
        assert old(SubOk(u.sub, k));
      }
      forall k, l | 0 <= k < l < NPTR && u.sub[k] in Repr && u.sub[l] in Repr ensures u.sub[k].Repr !! u.sub[l].Repr {
        assert old(SubOk(u.sub, k)) && old(SubOk(u.sub, l));
      }
      forall j | 0 <= j < iSize ensures Has(j) == old(Has(j)) {
        Bin(iSize, iDivisor, j);
        var b := BinOf(j, iDivisor);
        assert old(SubOk(u.sub, b)) && SubOk(u.sub, b);
        assert b != bin ==> u.sub[b] == old(u.sub[b]);
      }
      return Ok;
    }

    /** The value belongs to a sub-vector, which is created when it is missing. */
    method SetInSub(i: nat, faults: bool) returns (rc: Rc)
      requires Valid() && i < iSize && iDivisor > 0
      modifies Repr
      ensures Valid() && fresh(Repr - old(Repr)) && iDivisor > 0
      ensures forall j | 0 <= j < iSize :: Has(j) ==> old(Has(j)) || j == i
      ensures rc == Ok ==> forall j | 0 <= j < iSize :: Has(j) <==> old(Has(j)) || j == i
      ensures !faults || old(Roomy(i)) ==> rc == Ok
      decreases iSize, 1
    {
      Bin(iSize, iDivisor, i);
      assert SubOk(u.sub, BinOf(i, iDivisor));
      rc := EnsureSub(BinOf(i, iDivisor), faults);
      if rc == Ok {
        assert old(Roomy(i)) ==> Roomy(i);
        rc := SetInExisting(i, faults);
      }
    }

    method SetInExisting(i: nat, faults: bool) returns (rc: Rc)
      requires Valid() && i < iSize && iDivisor > 0 && BinOf(i, iDivisor) < NPTR && u.sub[BinOf(i, iDivisor)] != null
      modifies Repr
      ensures Valid() && fresh(Repr - old(Repr)) && iDivisor > 0
      ensures forall j | 0 <= j < iSize :: Has(j) ==> old(Has(j)) || j == i
      ensures rc == Ok ==> forall j | 0 <= j < iSize :: Has(j) <==> old(Has(j)) || j == i
      ensures !faults || old(Roomy(i)) ==> rc == Ok
      decreases iSize, 0
    {
      Bin(iSize, iDivisor, i);
      var bin := BinOf(i, iDivisor);
      assert SubOk(u.sub, bin);
      var p := u.sub[bin];
      forall k | 0 <= k < NPTR && k != bin && u.sub[k] != null
        ensures u.sub[k].Repr !! p.Repr && u.sub[k] in u.sub[k].Repr && u.sub[k].Valid()
      {
        assert SubOk(u.sub, k);
      }
      rc := p.SetBit(Inside(i, iDivisor), faults);
      assert this !in p.Repr;
      forall k | 0 <= k < NPTR && k != bin && u.sub[k] != null
        ensures u.sub[k] in Repr && u.sub[k].Repr == old(u.sub[k].Repr) && u.sub[k].Valid()
          && u.sub[k].iSize == iDivisor
        ensures u.sub[k].Repr !! p.Repr && u.sub[k].Repr < Repr && this !in u.sub[k].Repr
      {
        assert old(SubOk(u.sub, k));
      }
      Repr := Repr + p.Repr;
      forall k | 0 <= k < NPTR ensures SubOk(u.sub, k) {
      }
      forall k, l | 0 <= k < l < NPTR && u.sub[k] in Repr && u.sub[l] in Repr ensures u.sub[k].Repr !! u.sub[l].Repr {
        assert old(SubOk(u.sub, k)) && old(SubOk(u.sub, l));
      }
      forall j | 0 <= j < iSize
        ensures Has(j) ==> old(Has(j)) || j == i
        ensures rc == Ok ==> (Has(j) <==> old(Has(j)) || j == i)
      {
        Bin(iSize, iDivisor, j);
        var b := BinOf(j, iDivisor);
        assert old(SubOk(u.sub, b)) && SubOk(u.sub, b);
        if b == bin && Inside(j, iDivisor) == Inside(i, iDivisor) {
          SameBin(i, j, iDivisor);
        }
      }
    }

    /** Turn the table into sub-vectors and insert i+1 and all former values again. */
    method Split(i: nat, faults: bool) returns (rc: Rc)
      requires Valid() && i < iSize && iDivisor == 0 && u.Hash?
      modifies Repr
      ensures Valid() && fresh(Repr - old(Repr))
      ensures forall j | 0 <= j < iSize :: Has(j) ==> old(Has(j)) || j == i
      ensures rc == Ok ==> forall j | 0 <= j < iSize :: Has(j) <==> old(Has(j)) || j == i
      ensures !faults ==> rc == Ok
      decreases iSize, 3
    {
      var oom: bool := *;
      if oom && faults {
        return NoMem;
      }
      var values := u.slots;
      Bin(iSize, (iSize + NPTR - 1) / NPTR, i);
      u, iDivisor := Subs(seq(NPTR, _ => null)), (iSize + NPTR - 1) / NPTR;
      forall j | 0 <= j < iSize ensures !Has(j) {
        Bin(iSize, iDivisor, j);
      }
      rc := SetBit(i, faults);
      for k := 0 to NINT
        invariant Valid() && fresh(Repr - old(Repr)) && iDivisor > 0 && (!faults ==> rc == Ok)
        invariant forall j | 0 <= j < iSize :: Has(j) ==> j + 1 in values[..k] || j == i
        invariant rc == Ok ==> forall j | 0 <= j < iSize :: Has(j) <==> j + 1 in values[..k] || j == i
      {
        assert values[..k + 1] == values[..k] + [values[k]];
        if values[k] != 0 {
          var rc' := SetBit(values[k] - 1, faults);
          if rc' != Ok {
            rc := NoMem;
          }
        }
      }
      assert values[..NINT] == values;
    }

    /** sqlite3BitvecClear for number i+1. */
    method ClearBit(i: nat)
      requires Valid() && i < iSize
      modifies Repr
      ensures Valid() && Repr == old(Repr)
      ensures forall j | 0 <= j < iSize :: Has(j) <==> old(Has(j)) && j != i
      decreases iSize, 1
    {
      if iDivisor > 0 {
        ClearInSub(i);
      } else if iSize <= NBIT {
        forall j | 0 <= j < iSize ensures TestBit(BitArray.ClearBit(u.bits, i), j) <==> i != j && TestBit(u.bits, j) {
          ClearOne(u.bits, i, j);
        }
        u := Bitmap(BitArray.ClearBit(u.bits, i));
      } else {
        var t, n := Rebuild(u.slots, nSet, i + 1);
        forall h | 0 <= h < NINT ensures t[h] <= iSize {
          assert t[h] in t;
        }
        u, nSet := Hash(t), n;
      }
    }

    method ClearInSub(i: nat)
      requires Valid() && i < iSize && iDivisor > 0
      modifies Repr
      ensures Valid() && Repr == old(Repr)
      ensures forall j | 0 <= j < iSize :: Has(j) <==> old(Has(j)) && j != i
      decreases iSize, 0
    {
      Bin(iSize, iDivisor, i);
      var bin := BinOf(i, iDivisor);
      assert SubOk(u.sub, bin);
      var p := u.sub[bin];
      if p == null {
        return;
      }
      forall k | 0 <= k < NPTR && k != bin && u.sub[k] != null
        ensures u.sub[k].Repr !! p.Repr && u.sub[k] in u.sub[k].Repr && u.sub[k].Valid()
      {
        assert SubOk(u.sub, k);
      }
      p.ClearBit(Inside(i, iDivisor));
      forall k | 0 <= k < NPTR ensures SubOk(u.sub, k) {
        assert old(SubOk(u.sub, k));
      }
      forall k, l | 0 <= k < l < NPTR && u.sub[k] in Repr && u.sub[l] in Repr ensures u.sub[k].Repr !! u.sub[l].Repr {
        assert old(SubOk(u.sub, k)) && old(SubOk(u.sub, l));
      }
      forall j | 0 <= j < iSize ensures Has(j) <==> old(Has(j)) && j != i {
        Bin(iSize, iDivisor, j);
        var b := BinOf(j, iDivisor);
        assert old(SubOk(u.sub, b)) && SubOk(u.sub, b);
        if b == bin && Inside(j, iDivisor) == Inside(i, iDivisor) {
          SameBin(i, j, iDivisor);
        }
      }
    }
  }

  /** The sub-vector responsible for i, and the number that i has there. */
  function BinOf(i: nat, d: nat): (b: nat)
    requires d > 0
  {
    i / d
  }

  function Inside(i: nat, d: nat): (j: nat)
    requires d > 0
    ensures j < d
  {
    i % d
  }

  lemma SameBin(i: nat, j: nat, d: nat)
    requires d > 0 && BinOf(i, d) == BinOf(j, d) && Inside(i, d) == Inside(j, d)
    ensures i == j
  {
  }

  /** Sub-vector numbers are in range, and each sub-vector is smaller than the whole. */
  lemma Bin(iSize: nat, iDivisor: nat, i: nat)
    requires iSize > NBIT && iDivisor == (iSize + NPTR - 1) / NPTR && i < iSize
    ensures 0 < iDivisor < iSize && BinOf(i, iDivisor) < NPTR
  {
  }

  /** sqlite3BitvecTest. */
  method Test(p0: Bitvec?, i0: nat) returns (r: bool)
    requires p0 != null ==> p0.Valid()
    ensures r <==> p0 != null && i0 in p0.Contents()
  {
    if p0 == null {
      return false;
    }
    var p: Bitvec := p0;
    if i0 > p.iSize || i0 == 0 {
      return false;
    }
    var i: nat := i0 - 1;
    while p.iDivisor > 0
      invariant p.Valid() && i < p.iSize && p.Has(i) == p0.Has(i0 - 1)
      decreases p.Repr
    {
      var q, j := Descend(p, i);
      if q == null {
        return false;
      }
      p, i := q, j;
    }
    r := TestLeaf(p, i);
  }

  /** One step down: the sub-vector responsible for i, and the number that i has there. */
  method Descend(p: Bitvec, i: nat) returns (q: Bitvec?, j: nat)
    requires p.Valid() && i < p.iSize && p.iDivisor > 0
    ensures if q == null then !p.Has(i) else q.Repr < p.Repr && q.Valid() && j < q.iSize && q.Has(j) == p.Has(i)
  {
    Bin(p.iSize, p.iDivisor, i);
    var bin := BinOf(i, p.iDivisor);
    assert p.SubOk(p.u.sub, bin);
    return p.u.sub[bin], Inside(i, p.iDivisor);
  }

  method TestLeaf(p: Bitvec, i: nat) returns (r: bool)
    requires p.Valid() && i < p.iSize && p.iDivisor == 0
    ensures r == p.Has(i)
  {
    if p.iSize <= NBIT {
      return TestBit(p.u.bits, i);
    }
    var h := Probe(p.u.slots, i + 1, p.nSet);
    return p.u.slots[h] != 0;
  }

  /** sqlite3BitvecSet: on success exactly i is added; when memory runs out, which it can only where some is needed,
      nothing but i can have been added. */
  method Set(p: Bitvec?, i: nat, faults: bool) returns (rc: Rc)
    requires p != null ==> p.Valid() && 0 < i <= p.iSize
    modifies if p == null then {} else p.Repr
    ensures p == null ==> rc == Ok
    ensures p != null ==> p.Valid() && fresh(p.Repr - old(p.Repr)) && p.Contents() <= old(p.Contents()) + {i}
    ensures p != null && rc == Ok ==> p.Contents() == old(p.Contents()) + {i}
    ensures !faults || (p != null && old(p.Roomy(i - 1))) ==> rc == Ok
  {
    if p == null {
      return Ok;
    }
    rc := p.SetBit(i - 1, faults);
    forall x: nat ensures rc == Ok ==> (x in p.Contents() <==> x in old(p.Contents()) || x == i) {
      assert 0 < x <= p.iSize && rc == Ok ==> (p.Has(x - 1) <==> old(p.Has(x - 1)) || x - 1 == i - 1);
    }
  }

  /** sqlite3BitvecClear. */
  method Clear(p: Bitvec?, i: nat)
    requires p != null ==> p.Valid() && 0 < i <= p.iSize
    modifies if p == null then {} else p.Repr
    ensures p != null ==> p.Valid() && p.Repr == old(p.Repr) && p.Contents() == old(p.Contents()) - {i}
  {
    if p != null {
      p.ClearBit(i - 1);
      forall x: nat ensures x in p.Contents() <==> x in old(p.Contents()) && x != i {
        assert 0 < x <= p.iSize ==> (p.Has(x - 1) <==> old(p.Has(x - 1)) && x - 1 != i - 1);
      }
    }
  }

  datatype Op = OpSet(i: nat) | OpClear(i: nat)

  /** What a sequence of operations does to a set. */
  ghost function Replay(s: set<nat>, ops: seq<Op>): (r: set<nat>)
    decreases |ops|
  {
    if ops == [] then s
    else
      var before := Replay(s, ops[..|ops| - 1]);
      match ops[|ops| - 1]
      case OpSet(i) => before + {i}
      case OpClear(i) => before - {i}
  }

  /** Any sequence of operations on a new vector: the vector is the set, or smaller if memory ran out on the way. */
  method Run(size: nat, ops: seq<Op>, probe: nat, faults: bool) returns (rc: Rc, found: bool)
    requires size + NPTR - 1 < U32 && forall k | 0 <= k < |ops| :: 0 < ops[k].i <= size
    ensures rc == Ok ==> (found <==> probe in Replay({}, ops))
    ensures found ==> OpSet(probe) in ops
    ensures !faults || size <= NBIT ==> rc == Ok
  {
    var p := new Bitvec(size);
    rc := Ok;
    for k := 0 to |ops|
      invariant p.Valid() && fresh(p.Repr) && p.iSize == size
      invariant rc == Ok ==> p.Contents() == Replay({}, ops[..k])
      invariant !faults || size <= NBIT ==> rc == Ok
      invariant forall x | x in p.Contents() :: OpSet(x) in ops[..k]
    {
      assert ops[..k + 1][..k] == ops[..k];
      match ops[k]
      case OpSet(i) =>
        var rc' := Set(p, i, faults);
        if rc' != Ok {
          rc := NoMem;
        }
      case OpClear(i) =>
        Clear(p, i);
    }
    assert ops[..|ops|] == ops;
    found := Test(p, probe);
  }
}
