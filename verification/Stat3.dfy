/** The sampler behind ANALYZE: keep at most mxSample keys, among them every periodic sample. */
module Stat3 {
  import opened Arith

  datatype Sample = Sample(rowid: int, nEq: nat, nLt: nat, nDLt: nat, isP: bool, hash: nat)

  /** Order of preference: more rows first, then the larger hash. */
  ghost predicate AtMost(s: Sample, t: Sample) {
    s.nEq < t.nEq || (s.nEq == t.nEq && s.hash <= t.hash)
  }

  /** Number of periodic samples. */
  ghost function Periodic(s: seq<Sample>): (n: nat)
    ensures n <= |s|
  {
    if s == [] then 0 else Periodic(s[..|s| - 1]) + if s[|s| - 1].isP then 1 else 0
  }

  /** Samples stand in the order of the index. */
  ghost predicate Ordered(s: seq<Sample>) {
    forall i, j | 0 <= i < j < |s| :: s[i].nLt + s[i].nEq <= s[j].nLt
  }

  /** A key is a periodic sample when its rows cross a multiple of the period. */
  predicate Crosses(nLt: nat, nEq: nat, period: nat)
    requires period > 0
  {
    Quot(nLt, period) != Quot(nEq + nLt, period)
  }

  /** Written with the divisions of the source. */
  lemma Divisions(nLt: nat, nEq: nat, period: nat, nRow: nat, mx: nat)
    requires period > 0
    ensures Crosses(nLt, nEq, period) <==> nLt / period != (nEq + nLt) / period
    ensures Period(nRow, mx) == nRow / (mx / 3 + 1) + 1
  {
    QuotIsDiv(nLt, period);
    QuotIsDiv(nEq + nLt, period);
    QuotIsDiv(nRow, mx / 3 + 1);
  }

  /** Position `i` holds the least preferred of the samples that are not periodic. */
  ghost predicate LeastAt(s: seq<Sample>, i: nat) {
    i < |s| && !s[i].isP && forall j | 0 <= j < |s| && !s[j].isP :: AtMost(s[i], s[j])
  }

  /** No dropped sample was periodic or preferable to one that was kept. */
  ghost predicate Fair(s: seq<Sample>, drops: multiset<Sample>) {
    forall d | d in drops :: !d.isP && forall j | 0 <= j < |s| && !s[j].isP :: AtMost(d, s[j])
  }

  ghost function Without(s: seq<Sample>, i: nat): (r: seq<Sample>)
    requires i < |s|
    ensures |r| == |s| - 1
  {
    seq(|s| - 1, j requires 0 <= j < |s| - 1 => if j < i then s[j] else s[j + 1])
  }

  lemma {:induction false} PeriodicSplit(s: seq<Sample>, t: seq<Sample>)
    ensures Periodic(s + t) == Periodic(s) + Periodic(t)
    decreases |t|
  {
    if t == [] {
      assert s + t == s;
    } else {
      assert (s + t)[..|s + t| - 1] == s + t[..|t| - 1];
      PeriodicSplit(s, t[..|t| - 1]);
    }
  }

  lemma PeriodicWithout(s: seq<Sample>, i: nat)
    requires i < |s| && !s[i].isP
    ensures Periodic(Without(s, i)) == Periodic(s)
  {
    assert s == s[..i] + ([s[i]] + s[i + 1..]) && Without(s, i) == s[..i] + s[i + 1..];
    PeriodicSplit(s[..i], [s[i]] + s[i + 1..]);
    PeriodicSplit([s[i]], s[i + 1..]);
    PeriodicSplit(s[..i], s[i + 1..]);
    assert Periodic([s[i]]) == Periodic([]) + 0;
  }

  lemma PeriodicAppend(s: seq<Sample>, x: Sample)
    ensures Periodic(s + [x]) == Periodic(s) + if x.isP then 1 else 0
  {
    assert (s + [x])[..|s|] == s;
  }

  lemma {:induction false} AllPeriodic(s: seq<Sample>)
    requires forall j | 0 <= j < |s| :: s[j].isP
    ensures Periodic(s) == |s|
  {
    if s != [] {
      AllPeriodic(s[..|s| - 1]);
    }
  }

  /** The period is chosen so that at most a third of the samples are periodic. */
  lemma PeriodBound(nRow: nat, mx: nat, period: nat, total: nat)
    requires period == Period(nRow, mx) && total <= nRow
    ensures Quot(total, period) <= mx / 3
  {
    var k := mx / 3 + 1;
    QuotMul(nRow, k);
    assert Quot(nRow, k) * k + k == k * period;
    QuotBelow(total, period, k);
  }

  /** Dropping the least preferred sample and appending a better or a periodic one is fair. */
  lemma StillFair(s: seq<Sample>, drops: multiset<Sample>, i: nat, x: Sample)
    requires Fair(s, drops) && LeastAt(s, i) && (x.isP || AtMost(s[i], x))
    ensures Fair(Without(s, i) + [x], drops + multiset{s[i]})
  {
    var s' := Without(s, i) + [x];
    forall d | d in drops + multiset{s[i]}
      ensures !d.isP && forall j | 0 <= j < |s'| && !s'[j].isP :: AtMost(d, s'[j])
    {
      assert AtMost(d, s[i]);
      forall j | 0 <= j < |s'| && !s'[j].isP ensures AtMost(d, s'[j]) {
        if j < |s| - 1 {
          assert s'[j] == s[if j < i then j else j + 1];
        }
      }
    }
  }

  lemma WithoutKeeps(s: seq<Sample>, i: nat, total: nat)
    requires i < |s| && Ordered(s) && forall j | 0 <= j < |s| :: s[j].nLt + s[j].nEq <= total && s[j].nEq > 0
    ensures var r := Without(s, i);
      Ordered(r) && forall j | 0 <= j < |r| :: r[j].nLt + r[j].nEq <= total && r[j].nEq > 0
  {
  }

  lemma WithoutMultiset(s: seq<Sample>, i: nat)
    requires i < |s|
    ensures multiset(s) == multiset(Without(s, i)) + multiset{s[i]}
  {
    assert s == s[..i] + [s[i]] + s[i + 1..] && Without(s, i) == s[..i] + s[i + 1..];
  }

  const U32 := 0x1_0000_0000

  /** What holds of the kept samples s, the dropped ones, and the number of rows seen. */
  ghost predicate Sound(s: seq<Sample>, drops: multiset<Sample>, mx: nat, period: nat, total: nat) {
    && period > 0 && |s| <= mx && Ordered(s) && Fair(s, drops)
    && (forall i | 0 <= i < |s| :: s[i].nLt + s[i].nEq <= total && s[i].nEq > 0)
    && Periodic(s) <= Quot(total, period)
    && (|s| < mx ==> drops == multiset{})
  }

  /** A crossing takes the row count over another multiple of the period. */
  lemma NewTotal(total: nat, nLt: nat, nEq: nat, period: nat)
    requires period > 0 && total <= nLt
    ensures Quot(total, period) + (if Crosses(nLt, nEq, period) then 1 else 0) <= Quot(nLt + nEq, period)
  {
    QuotMono(total, nLt, period);
    QuotMono(nLt, nLt + nEq, period);
  }

  lemma SoundAppend(s: seq<Sample>, drops: multiset<Sample>, mx: nat, period: nat, total: nat, x: Sample)
    requires Sound(s, drops, mx, period, total) && |s| < mx && total <= x.nLt && x.nEq > 0
      && x.isP == Crosses(x.nLt, x.nEq, period)
    ensures Sound(s + [x], drops, mx, period, x.nLt + x.nEq)
  {
    NewTotal(total, x.nLt, x.nEq, period);
    PeriodicAppend(s, x);
    FairAppend(s, drops, x);
    OrderedAppend(s, x, total);
  }

  lemma OrderedAppend(s: seq<Sample>, x: Sample, total: nat)
    requires Ordered(s) && total <= x.nLt && x.nEq > 0 && forall i | 0 <= i < |s| ::
      s[i].nLt + s[i].nEq <= total && s[i].nEq > 0
    ensures Ordered(s + [x])
    ensures forall i | 0 <= i < |s + [x]| ::
      (s + [x])[i].nLt + (s + [x])[i].nEq <= x.nLt + x.nEq && (s + [x])[i].nEq > 0
  {
  }

  lemma FairAppend(s: seq<Sample>, drops: multiset<Sample>, x: Sample)
    requires drops == multiset{}
    ensures Fair(s + [x], drops)
  {
  }

  lemma SoundReplace(s: seq<Sample>, drops: multiset<Sample>, mx: nat, period: nat, total: nat, i: nat, x: Sample)
    requires Sound(s, drops, mx, period, total) && |s| == mx && total <= x.nLt && x.nEq > 0
      && x.isP == Crosses(x.nLt, x.nEq, period)
    requires LeastAt(s, i) && (x.isP || AtMost(s[i], x))
    ensures Sound(Without(s, i) + [x], drops + multiset{s[i]}, mx, period, x.nLt + x.nEq)
  {
    var r := Without(s, i);
    WithoutKeeps(s, i, total);
    PeriodicWithout(s, i);
    PeriodicAppend(r, x);
    OrderedAppend(r, x, total);
    NewTotal(total, x.nLt, x.nEq, period);
    StillFair(s, drops, i, x);
  }

  lemma SoundDrop(s: seq<Sample>, drops: multiset<Sample>, mx: nat, period: nat, total: nat, i: nat, x: Sample)
    requires Sound(s, drops, mx, period, total) && |s| == mx && total <= x.nLt && x.isP == Crosses(x.nLt, x.nEq, period)
    requires LeastAt(s, i) && !x.isP && AtMost(x, s[i])
    ensures Sound(s, drops + multiset{x}, mx, period, x.nLt + x.nEq)
  {
    NewTotal(total, x.nLt, x.nEq, period);
  }

  /** The period of periodic samples. */
  function Period(nRow: nat, mx: nat): (p: nat)
    ensures p > 0
  {
    Quot(nRow, mx / 3 + 1) + 1
  }

  /** The history: samples kept in order, samples dropped, all samples in the order of arrival, rows seen. */
  datatype History = History(kept: seq<Sample>, drops: multiset<Sample>, log: seq<Sample>, total: nat)

  ghost function Empty(): (c: History) {
    History([], multiset{}, [], 0)
  }

  /** The next random number. */
  function NextPrn(n: nat): (m: nat) {
    (n * 1103515245 + 12345) % U32
  }

  /** Different states have different successors, so the sequence repeats nothing before it comes back to its start. */
  lemma PrnInjective(a: nat, b: nat)
    requires a < U32 && b < U32 && NextPrn(a) == NextPrn(b)
    ensures a == b
  {
    var x, y, d: int := a * 1103515245 + 12345, b * 1103515245 + 12345, a - b;
    var t := x / U32 - y / U32;
    assert d * 1103515245 == t * U32;
    var w := t * 4005161829 - 1029054899 * d;
    assert d == U32 * w;
  }

  ghost predicate Good(c: History, nRow: nat, mx: nat, period: nat)
  {
    && c.total <= nRow && Sound(c.kept, c.drops, mx, period, c.total)
    && multiset(c.log) == multiset(c.kept) + c.drops
  }

  /** `x` describes the next key of the index. */
  ghost predicate Next(c: History, nRow: nat, period: nat, x: Sample)
  {
    period > 0 && c.total <= x.nLt && x.nLt + x.nEq <= nRow && x.nEq > 0 && x.isP == Crosses(x.nLt, x.nEq, period)
  }

  ghost function Appended(c: History, x: Sample): (c': History) {
    History(c.kept + [x], c.drops, c.log + [x], x.nLt + x.nEq)
  }

  ghost function Evicted(c: History, i: nat, x: Sample): (c': History)
    requires i < |c.kept|
  {
    History(Without(c.kept, i) + [x], c.drops + multiset{c.kept[i]}, c.log + [x], x.nLt + x.nEq)
  }

  ghost function Dropped(c: History, x: Sample): (c': History) {
    History(c.kept, c.drops + multiset{x}, c.log + [x], x.nLt + x.nEq)
  }

  lemma GoodAppend(c: History, nRow: nat, mx: nat, period: nat, x: Sample)
    requires Good(c, nRow, mx, period) && Next(c, nRow, period, x) && |c.kept| < mx
    ensures Good(Appended(c, x), nRow, mx, period)
  {
    SoundAppend(c.kept, c.drops, mx, period, c.total, x);
    AppendMultiset(c.kept, c.drops, c.log, x);
  }

  lemma AppendMultiset(kept: seq<Sample>, drops: multiset<Sample>, log: seq<Sample>, x: Sample)
    requires multiset(log) == multiset(kept) + drops
    ensures multiset(log + [x]) == multiset(kept + [x]) + drops
  {
  }

  lemma GoodEvict(c: History, nRow: nat, mx: nat, period: nat, i: nat, x: Sample)
    requires Good(c, nRow, mx, period) && Next(c, nRow, period, x) && |c.kept| == mx
    requires LeastAt(c.kept, i) && (x.isP || AtMost(c.kept[i], x))
    ensures Good(Evicted(c, i, x), nRow, mx, period)
  {
    SoundReplace(c.kept, c.drops, mx, period, c.total, i, x);
    EvictMultiset(c.kept, c.drops, c.log, i, x);
  }

  /** No sample is lost from the account. */
  lemma EvictMultiset(kept: seq<Sample>, drops: multiset<Sample>, log: seq<Sample>, i: nat, x: Sample)
    requires multiset(log) == multiset(kept) + drops && i < |kept|
    ensures multiset(log + [x]) == multiset(Without(kept, i) + [x]) + (drops + multiset{kept[i]})
  {
    WithoutMultiset(kept, i);
  }

  lemma GoodDrop(c: History, nRow: nat, mx: nat, period: nat, i: nat, x: Sample)
    requires Good(c, nRow, mx, period) && Next(c, nRow, period, x) && |c.kept| == mx
    requires LeastAt(c.kept, i) && !x.isP && AtMost(x, c.kept[i])
    ensures Good(Dropped(c, x), nRow, mx, period)
  {
    SoundDrop(c.kept, c.drops, mx, period, c.total, i, x);
  }

  /** Not all kept samples are periodic. */
  lemma SomeCommon(c: History, nRow: nat, mx: nat)
    requires mx >= 1 && Good(c, nRow, mx, Period(nRow, mx)) && |c.kept| == mx
    ensures Periodic(c.kept) <= mx / 3 && exists j :: 0 <= j < mx && !c.kept[j].isP
  {
    PeriodBound(nRow, mx, Period(nRow, mx), c.total);
    if forall j | 0 <= j < mx :: c.kept[j].isP {
      AllPeriodic(c.kept);
    }
  }

  class Stat3Accum {
    const nRow: nat
    const nPSample: nat
    const mxSample: nat
    var iMin: nat
    var nSample: nat
    var iPrn: nat
    const a: array<Sample>
    ghost var c: History

    /** Sizes, and the tie between the array and the samples kept. */
    ghost predicate Framed()
      reads this, a
    {
      && mxSample >= 1 && a.Length == mxSample && nSample <= mxSample && c.kept == a[..nSample]
      && nPSample == Period(nRow, mxSample)
    }

    ghost predicate Valid()
      reads this, a
    {
      Framed() && Good(c, nRow, mxSample, nPSample) && (nSample == mxSample ==> LeastAt(c.kept, iMin))
    }

    /** stat3Init. */
    constructor (nRow: nat, mxSample: nat, seed: nat)
      requires mxSample >= 1 && seed < U32
      ensures Valid() && fresh(a) && c == Empty() && this.nRow == nRow && this.mxSample == mxSample && iPrn == seed
    {
      this.nRow, this.mxSample := nRow, mxSample;
      nPSample := Period(nRow, mxSample);
      iMin, nSample, iPrn, c := 0, 0, seed, Empty();
      a := new Sample[mxSample](_ => Sample(0, 0, 0, 0, false, 0));
    }

    /** When the array is full, find the least preferred sample that is not periodic; there always is one. */
    method FindMin()
      requires Framed() && Good(c, nRow, mxSample, nPSample)
      modifies this`iMin
      ensures Valid()
    {
      if nSample == mxSample {
        SomeCommon(c, nRow, mxSample);
        iMin := MinIndex(a);
        assert c.kept == a[..];
      }
    }

    /** stat3Push for a key with nEq rows behind nLt smaller ones. */
    method Push(nEq: nat, nLt: nat, nDLt: nat, rowid: int)
      requires Valid() && c.total <= nLt && nLt + nEq <= nRow
      modifies this, a
      ensures Valid()
      ensures nEq == 0 ==> c == old(c) && iPrn == old(iPrn) && nSample == old(nSample)
      ensures nEq > 0 ==> iPrn == NextPrn(old(iPrn))
      ensures nEq > 0 ==>
        c.total == nLt + nEq && c.log == old(c.log) + [Sample(rowid, nEq, nLt, nDLt, Crosses(nLt, nEq, nPSample), iPrn)]
      ensures nEq > 0 ==> nSample == if old(nSample) < mxSample then old(nSample) + 1 else mxSample
    {
      if nEq == 0 {
        return;
      }
      iPrn := NextPrn(iPrn);
      var x := Sample(rowid, nEq, nLt, nDLt, Crosses(nLt, nEq, nPSample), iPrn);
      assert nSample == mxSample ==> a[iMin] == c.kept[iMin];
      if nSample < mxSample {
        Append(x);
      } else if x.isP || nEq > a[iMin].nEq || (nEq == a[iMin].nEq && iPrn > a[iMin].hash) {
        Evict(x);
      } else {
        GoodDrop(c, nRow, mxSample, nPSample, iMin, x);
        c := Dropped(c, x);
      }
    }

    method Append(x: Sample)
      requires Valid() && Next(c, nRow, nPSample, x) && nSample < mxSample
      modifies this`nSample, this`c, this`iMin, a
      ensures Valid() && c == Appended(old(c), x) && nSample == old(nSample) + 1
    {
      GoodAppend(c, nRow, mxSample, nPSample, x);
      ghost var c' := Appended(c, x);
      StoreAt(a, nSample, x, c.kept);
      nSample, c := nSample + 1, c';
      FindMin();
    }

    method Evict(x: Sample)
      requires Valid() && Next(c, nRow, nPSample, x) && nSample == mxSample && (x.isP || AtMost(c.kept[iMin], x))
      modifies this`c, this`iMin, a
      ensures Valid() && c == Evicted(old(c), old(iMin), x)
    {
      GoodEvict(c, nRow, mxSample, nPSample, iMin, x);
      assert c.kept == a[..];
      CloseGap(a, iMin, x);
      c := Evicted(c, iMin, x);
      FindMin();
    }
  }

  method StoreAt(a: array<Sample>, n: nat, x: Sample, ghost kept: seq<Sample>)
    requires n < a.Length && a[..n] == kept
    modifies a
    ensures a[..n + 1] == kept + [x]
  {
    a[n] := x;
  }

  /** The memmove that closes the gap at i, and the new last sample. */
  method CloseGap(a: array<Sample>, i: nat, x: Sample)
    requires i < a.Length
    modifies a
    ensures a[..] == Without(old(a[..]), i) + [x]
  {
    ghost var s := a[..];
    for k := i to a.Length - 1
      invariant forall j | 0 <= j < i :: a[j] == s[j]
      invariant forall j | i <= j < k :: a[j] == s[j + 1]
      invariant forall j | k <= j < a.Length :: a[j] == s[j]
    {
      a[k] := a[k + 1];
    }
    a[a.Length - 1] := x;
  }

  /** The rescanning loops of stat3Push. */
  method MinIndex(a: array<Sample>) returns (m: nat)
    requires exists j :: 0 <= j < a.Length && !a[j].isP
    ensures LeastAt(a[..], m)
  {
    var i := 0;
    while a[i].isP
      invariant 0 <= i < a.Length && forall j | 0 <= j < i :: a[j].isP
      decreases a.Length - i
    {
      i := i + 1;
    }
    m := i;
    for k := i + 1 to a.Length
      invariant m < k && !a[m].isP
      invariant forall j | 0 <= j < k && !a[j].isP :: AtMost(a[m], a[j])
    {
      if !a[k].isP && (a[k].nEq < a[m].nEq || (a[k].nEq == a[m].nEq && a[k].hash < a[m].hash)) {
        m := k;
      }
    }
  }

  /** A distinct key of the index: its rowid and the number of its rows. */
  datatype Key = Key(rowid: int, nEq: nat)

  /** Rows of the first n keys. */
  ghost function Rows(keys: seq<Key>, n: nat): (r: nat)
    requires n <= |keys|
  {
    if n == 0 then 0 else Rows(keys, n - 1) + keys[n - 1].nEq
  }

  lemma {:induction false} RowsMono(keys: seq<Key>, m: nat, n: nat)
    requires m <= n <= |keys|
    ensures Rows(keys, m) <= Rows(keys, n)
    decreases n - m
  {
    if m < n {
      RowsMono(keys, m, n - 1);
    }
  }

  /** The n-th random number after the seed. */
  ghost function Prn(seed: nat, n: nat): (h: nat) {
    if n == 0 then seed else NextPrn(Prn(seed, n - 1))
  }

  /** The samples that the first n keys give, in order. */
  ghost function Samples(keys: seq<Key>, n: nat, seed: nat, period: nat): (s: seq<Sample>)
    requires n <= |keys| && period > 0
  {
    if n == 0 then []
    else
      var before, nLt, key := Samples(keys, n - 1, seed, period), Rows(keys, n - 1), keys[n - 1];
      if key.nEq == 0 then before
      else before + [Sample(key.rowid, key.nEq, nLt, n - 1, Crosses(nLt, key.nEq, period), Prn(seed, |before| + 1))]
  }

  /** What has been logged after n keys. */
  ghost predicate AfterKeys(c: History, prn: nat, keys: seq<Key>, n: nat, seed: nat, period: nat)
    requires n <= |keys| && period > 0
  {
    c.total == Rows(keys, n) && c.log == Samples(keys, n, seed, period) && prn == Prn(seed, |c.log|)
  }

  lemma AfterNext(c: History, prn: nat, keys: seq<Key>, n: nat, seed: nat, period: nat, c': History, prn': nat)
    requires n < |keys| && period > 0 && AfterKeys(c, prn, keys, n, seed, period)
    requires keys[n].nEq == 0 ==> c' == c && prn' == prn
    requires keys[n].nEq > 0 ==> prn' == NextPrn(prn) && c'.total == c.total + keys[n].nEq
    requires keys[n].nEq > 0 ==>
      c'.log == c.log + [Sample(keys[n].rowid, keys[n].nEq, c.total, n, Crosses(c.total, keys[n].nEq, period), prn')]
    ensures AfterKeys(c', prn', keys, n + 1, seed, period)
  {
    if keys[n].nEq > 0 {
      assert prn' == Prn(seed, |c.log| + 1);
    }
  }

  lemma RowsLeft(keys: seq<Key>, n: nat, nRow: nat)
    requires n < |keys| && Rows(keys, |keys|) <= nRow
    ensures Rows(keys, n) + keys[n].nEq <= nRow
  {
    RowsMono(keys, n + 1, |keys|);
  }

  /** `kept` is the right choice of at most mx of the samples: in order, among the samples, with every periodic one, at
      most a third of them periodic, as many as there is room for, and none left out that is better than a kept one
      that is not periodic. */
  ghost predicate Chosen(samples: seq<Sample>, kept: seq<Sample>, mx: nat) {
    && |kept| == (if |samples| < mx then |samples| else mx)
    && multiset(kept) <= multiset(samples)
    && Ordered(kept)
    && Periodic(kept) <= mx / 3
    && (forall x | x in samples && x.isP :: multiset(kept)[x] == multiset(samples)[x])
    && (forall x, i | x in samples && multiset(kept)[x] < multiset(samples)[x] && 0 <= i < |kept| && !kept[i].isP ::
        AtMost(x, kept[i]))
  }

  lemma GoodChosen(c: History, nRow: nat, mx: nat)
    requires Good(c, nRow, mx, Period(nRow, mx))
    ensures Chosen(c.log, c.kept, mx)
  {
    PeriodBound(nRow, mx, Period(nRow, mx), c.total);
    assert |c.log| == |multiset(c.log)| && |c.kept| == |multiset(c.kept)|;
    assert |multiset(c.log)| == |multiset(c.kept)| + |c.drops|;
  }

  /** A whole run over the keys of an index: the samples kept are the right choice of the samples of all its keys. */
  method PushAll(p: Stat3Accum, keys: seq<Key>)
    requires p.Valid() && p.c == Empty() && Rows(keys, |keys|) <= p.nRow
    modifies p, p.a
    ensures p.Valid() && p.c.total == Rows(keys, |keys|)
    ensures p.c.log == Samples(keys, |keys|, old(p.iPrn), p.nPSample)
    ensures Chosen(Samples(keys, |keys|, old(p.iPrn), p.nPSample), p.a[..p.nSample], p.mxSample)
  {
    var nLt := 0;
    ghost var seed := p.iPrn;
    for i := 0 to |keys|
      invariant p.Valid() && nLt == p.c.total && AfterKeys(p.c, p.iPrn, keys, i, seed, p.nPSample)
    {
      RowsLeft(keys, i, p.nRow);
      ghost var c, prn := p.c, p.iPrn;
      p.Push(keys[i].nEq, nLt, i, keys[i].rowid);
      AfterNext(c, prn, keys, i, seed, p.nPSample, p.c, p.iPrn);
      nLt := nLt + keys[i].nEq;
    }
    GoodChosen(p.c, p.nRow, p.mxSample);
  }

  /** stat3Init and a run over an index of nRow rows. */
  method Analyze(nRow: nat, mxSample: nat, seed: nat, keys: seq<Key>) returns (kept: seq<Sample>)
    requires mxSample >= 1 && seed < U32 && Rows(keys, |keys|) <= nRow
    ensures Chosen(Samples(keys, |keys|, seed, Period(nRow, mxSample)), kept, mxSample)
  {
    var p := new Stat3Accum(nRow, mxSample, seed);
    PushAll(p, keys);
    kept := p.a[..p.nSample];
  }

  /** In every reachable state at most a third of the samples are periodic. */
  lemma ThirdPeriodic(p: Stat3Accum)
    requires p.Valid()
    ensures Periodic(p.a[..p.nSample]) <= p.mxSample / 3
  {
    PeriodBound(p.nRow, p.mxSample, p.nPSample, p.c.total);
  }

  /** In every reachable state every periodic sample seen so far is still there. */
  lemma PeriodicKept(p: Stat3Accum, x: Sample)
    requires p.Valid() && x in p.c.log && x.isP
    ensures x in p.a[..p.nSample]
  {
    assert x in multiset(p.c.log);
  }

  /** In every reachable state a full array holds the best of the samples that are not periodic: any sample seen and
      not kept is at most as good as each that was kept. */
  lemma BestKept(p: Stat3Accum, x: Sample, i: nat)
    requires p.Valid() && x in p.c.log && x !in p.a[..p.nSample] && i < p.nSample && !p.a[i].isP
    ensures !x.isP && p.nSample == p.mxSample && AtMost(x, p.a[i])
  {
    assert x in multiset(p.c.log) && x in p.c.drops;
    assert p.c.kept[i] == p.a[i];
  }
}
