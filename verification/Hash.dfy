/** How the elements of a bucket sit in the single list of all elements. */
module BucketRuns {

  /** A byte of a key; keys are C strings. */
  type KeyByte = b: int | 0 < b < 256 witness 1
  type Key = seq<KeyByte>

  /** sqlite3UpperToLower. */
  function Lower(b: KeyByte): (r: KeyByte) {
    if 65 <= b <= 90 then b + 32 else b
  }

  function Fold(k: Key): (r: Key)
    ensures |r| == |k|
  {
    seq(|k|, i requires 0 <= i < |k| => Lower(k[i]))
  }

  /** Two keys that differ at most in the case of letters. */
  predicate SameLetters(k: Key, k': Key) {
    |k| == |k'| && forall i | 0 <= i < |k| :: SameLetter(k[i], k'[i])
  }

  predicate SameLetter(a: KeyByte, b: KeyByte) {
    a == b || (65 <= a <= 90 && b - a == 32) || (65 <= b <= 90 && a - b == 32)
  }

  /** Folding makes exactly those keys equal, so the table does not distinguish them, and no others. */
  lemma FoldIgnoresCase(k: Key, k': Key)
    ensures Fold(k) == Fold(k') <==> SameLetters(k, k')
  {
    if Fold(k) == Fold(k') {
      forall i | 0 <= i < |k| ensures SameLetter(k[i], k'[i]) {
        assert Fold(k)[i] == Fold(k')[i];
      }
    }
  }

  function Mix(h: bv32, b: KeyByte): (r: bv32) {
    (h << 3) ^ h ^ (b as bv32)
  }

  /** The hash value of a folded key. */
  function HashOf(k: Key): (h: bv32) {
    if k == [] then 0
    else Mix(HashOf(k[..|k| - 1]), k[|k| - 1])
  }

  function Bucket(k: Key, n: nat): (b: nat)
    requires n > 0
    ensures b < n
  {
    HashOf(k) as int % n
  }

  /** strHash. */
  method StrHash(z: Key) returns (h: bv32)
    ensures h == HashOf(Fold(z))
  {
    h := 0;
    for i := 0 to |z|
      invariant h == HashOf(Fold(z)[..i])
    {
      assert Fold(z)[..i + 1][..i] == Fold(z)[..i];
      h := Mix(h, Lower(z[i]));
    }
    assert Fold(z)[..|z|] == Fold(z);
  }

  /** The positions of the folded keys ks that belong to bucket b are start[b] .. start[b] + cnt[b] - 1. */
  ghost predicate Runs(ks: seq<Key>, n: nat, cnt: seq<nat>, start: seq<nat>)
  {
    && n > 0 && |cnt| == |start| == n
    && (forall b | 0 <= b < n :: start[b] + cnt[b] <= |ks|)
    && (forall i | 0 <= i < |ks| :: InRun(cnt, start, Bucket(ks[i], n), i))
    && (forall b, i | 0 <= b < n && 0 <= i < |ks| && InRun(cnt, start, b, i) :: Bucket(ks[i], n) == b)
  }

  ghost predicate InRun(cnt: seq<nat>, start: seq<nat>, b: nat, i: nat)
    requires b < |cnt| == |start|
  {
    start[b] <= i < start[b] + cnt[b]
  }

  /** Where a new element of bucket b goes: in front of the bucket's run, or in front of everything. */
  ghost function Place(cnt: seq<nat>, start: seq<nat>, b: nat): (p: nat)
    requires b < |cnt| == |start|
  {
    if cnt[b] > 0 then start[b] else 0
  }

  ghost function StartsAfterInsert(cnt: seq<nat>, start: seq<nat>, b: nat, p: nat): (s: seq<nat>)
    requires b < |cnt| == |start|
    ensures |s| == |start|
  {
    seq(|start|,
      x requires 0 <= x < |start| => if x == b then p
      else if cnt[x] == 0 then 0 else if start[x] >= p then start[x] + 1 else start[x])
  }

  ghost function StartsAfterRemove(cnt: seq<nat>, start: seq<nat>, b: nat, p: nat): (s: seq<nat>)
    requires b < |cnt| == |start|
    ensures |s| == |start|
  {
    seq(|start|,
      x requires 0 <= x < |start| => if cnt[x] == 0 || (x == b && cnt[x] == 1) then 0
      else if start[x] > p then start[x] - 1 else start[x])
  }

  /** A position with an inserted element, in terms of the sequence before. */
  function Before(i: nat, p: nat): (j: nat)
    requires i != p
  {
    if i < p then i else i - 1
  }

  /** s' is s with x inserted at position p. */
  ghost predicate Inserted<T>(s: seq<T>, p: nat, x: T, s': seq<T>) {
    && p <= |s| && |s'| == |s| + 1 && s'[p] == x
    && forall i {:trigger s'[i]} | 0 <= i < |s'| && i != p :: s'[i] == s[Before(i, p)]
  }

  lemma InsertAt<T>(s: seq<T>, p: nat, x: T) returns (s': seq<T>)
    requires p <= |s|
    ensures Inserted(s, p, x, s')
  {
    s' := s[..p] + [x] + s[p..];
  }

  lemma InsertedMembers<T>(s: seq<T>, p: nat, x: T, s': seq<T>, y: T)
    requires Inserted(s, p, x, s')
    ensures y in s' <==> y in s || y == x
  {
    if y in s {
      var i :| 0 <= i < |s| && s[i] == y;
      assert s'[if i < p then i else i + 1] == y;
    }
  }

  lemma RunsInsert(ks: seq<Key>, n: nat, cnt: seq<nat>, start: seq<nat>, b: nat, p: nat, k: Key, ks': seq<Key>,
                   start': seq<nat>)
    requires Runs(ks, n, cnt, start) && b == Bucket(k, n) && p == Place(cnt, start, b)
    requires Inserted(ks, p, k, ks') && start' == StartsAfterInsert(cnt, start, b, p)
    ensures Runs(ks', n, cnt[b := cnt[b] + 1], start')
  {
    var cnt' := cnt[b := cnt[b] + 1];
    forall i | 0 <= i < |ks'| ensures InRun(cnt', start', Bucket(ks'[i], n), i) {
      if i != p {
        assert ks'[i] == ks[Before(i, p)];
        assert InRun(cnt, start, Bucket(ks[Before(i, p)], n), Before(i, p));
        RunMoves(ks, n, cnt, start, b, p, Bucket(ks'[i], n), i, cnt', start');
      }
    }
    forall x, i | 0 <= x < n && 0 <= i < |ks'| && InRun(cnt', start', x, i) ensures Bucket(ks'[i], n) == x {
      if i != p {
        assert ks'[i] == ks[Before(i, p)];
        RunMoves(ks, n, cnt, start, b, p, x, i, cnt', start');
      } else {
        RunMoves(ks, n, cnt, start, b, p, x, p + 1, cnt', start');
      }
    }
    forall x | 0 <= x < n ensures start'[x] + cnt'[x] <= |ks'| {
    }
  }

  /** Positions other than p are in the same runs as before. */
  lemma RunMoves(ks: seq<Key>, n: nat, cnt: seq<nat>, start: seq<nat>, b: nat, p: nat, x: nat, i: nat, cnt': seq<nat>,
                 start': seq<nat>)
    requires Runs(ks, n, cnt, start) && b < n && x < n && p == Place(cnt, start, b) && i != p
    requires cnt' == cnt[b := cnt[b] + 1] && start' == StartsAfterInsert(cnt, start, b, p)
    ensures InRun(cnt', start', x, i) <==> InRun(cnt, start, x, Before(i, p))
    ensures InRun(cnt', start', x, p) <==> x == b
  {
    if cnt[x] > 0 {
      RunAside(ks, n, cnt, start, b, p, x, start[x]);
    }
  }

  /** The run of another bucket lies entirely before or entirely behind the place of insertion. */
  lemma RunAside(ks: seq<Key>, n: nat, cnt: seq<nat>, start: seq<nat>, b: nat, p: nat, x: nat, i: nat)
    requires Runs(ks, n, cnt, start) && b < n && x < n && p == Place(cnt, start, b) && i < |ks|
      && InRun(cnt, start, x, i)
    ensures x != b ==> start[x] >= p || start[x] + cnt[x] <= p
  {
    if p < |ks| {
      assert InRun(cnt, start, x, p) ==> Bucket(ks[p], n) == x;
      assert InRun(cnt, start, b, p) ==> Bucket(ks[p], n) == b;
    }
  }

  /** A position after removal of position p, in terms of the sequence before. */
  function Skip(i: nat, p: nat): (j: nat) {
    if i < p then i else i + 1
  }

  /** s' is s without position p. */
  ghost predicate Removed<T>(s: seq<T>, p: nat, s': seq<T>) {
    p < |s| && |s'| == |s| - 1 && forall i {:trigger s'[i]} | 0 <= i < |s'| :: s'[i] == s[Skip(i, p)]
  }

  lemma RemoveAt<T>(s: seq<T>, p: nat) returns (s': seq<T>)
    requires p < |s|
    ensures Removed(s, p, s')
  {
    s' := s[..p] + s[p + 1..];
  }

  lemma RunsRemove(ks: seq<Key>, n: nat, cnt: seq<nat>, start: seq<nat>, p: nat, b: nat, ks': seq<Key>,
                   start': seq<nat>)
    requires Runs(ks, n, cnt, start) && p < |ks| && b == Bucket(ks[p], n)
    requires Removed(ks, p, ks') && start' == StartsAfterRemove(cnt, start, b, p)
    ensures cnt[b] > 0 && Runs(ks', n, cnt[b := cnt[b] - 1], start')
  {
    assert InRun(cnt, start, b, p);
    var cnt' := cnt[b := cnt[b] - 1];
    forall i | 0 <= i < |ks'| ensures InRun(cnt', start', Bucket(ks'[i], n), i) {
      var j := Skip(i, p);
      assert ks'[i] == ks[j] && InRun(cnt, start, Bucket(ks[j], n), j);
      NotInside(ks, n, cnt, start, p, b, Bucket(ks[j], n));
    }
    forall x, i | 0 <= x < n && 0 <= i < |ks'| && InRun(cnt', start', x, i) ensures Bucket(ks'[i], n) == x {
      var j := Skip(i, p);
      assert ks'[i] == ks[j];
      NotInside(ks, n, cnt, start, p, b, x);
      assert InRun(cnt, start, x, j);
    }
    forall x | 0 <= x < n ensures start'[x] + cnt'[x] <= |ks'| {
      NotInside(ks, n, cnt, start, p, b, x);
    }
  }

  /** A key can only be found in the run of its bucket. */
  lemma OnlyInRun(ks: seq<Key>, n: nat, cnt: seq<nat>, start: seq<nat>, k: Key)
    requires Runs(ks, n, cnt, start)
    ensures var b := Bucket(k, n);
      start[b] + cnt[b] <= |ks| && forall i | 0 <= i < |ks| && ks[i] == k :: start[b] <= i < start[b] + cnt[b]
  {
    forall i | 0 <= i < |ks| && ks[i] == k ensures InRun(cnt, start, Bucket(k, n), i) {
    }
  }

  /** Position p of bucket b is in no other bucket's run. */
  lemma NotInside(ks: seq<Key>, n: nat, cnt: seq<nat>, start: seq<nat>, p: nat, b: nat, x: nat)
    requires Runs(ks, n, cnt, start) && p < |ks| && b == Bucket(ks[p], n) && x < n
    ensures x != b ==> start[x] > p || start[x] + cnt[x] <= p
    ensures start[b] <= p < start[b] + cnt[b]
  {
    assert InRun(cnt, start, b, p);
    assert InRun(cnt, start, x, p) ==> x == b;
  }

  /** The map that keys ks with data ds describe. */
  ghost predicate IsMap(ks: seq<Key>, ds: seq<nat>, m: map<Key, nat>)
  {
    && |ks| == |ds|
    && (forall i | 0 <= i < |ks| :: ks[i] in m && m[ks[i]] == ds[i])
    && (forall k | k in m :: k in ks)
    && (forall i, j | 0 <= i < j < |ks| :: ks[i] != ks[j])
  }

  lemma MapInsert(ks: seq<Key>, ds: seq<nat>, m: map<Key, nat>, p: nat, k: Key, d: nat, ks': seq<Key>, ds': seq<nat>)
    requires IsMap(ks, ds, m) && k !in m && Inserted(ks, p, k, ks') && Inserted(ds, p, d, ds')
    ensures IsMap(ks', ds', m[k := d])
  {
    forall x | x in m[k := d] ensures x in ks' {
      InsertedMembers(ks, p, k, ks', x);
    }
  }

  lemma MapRemove(ks: seq<Key>, ds: seq<nat>, m: map<Key, nat>, p: nat, ks': seq<Key>, ds': seq<nat>)
    requires IsMap(ks, ds, m) && Removed(ks, p, ks') && Removed(ds, p, ds')
    ensures IsMap(ks', ds', m - {ks[p]})
  {
    forall i | 0 <= i < |ks'| ensures ks'[i] == ks[Skip(i, p)] != ks[p] && ds'[i] == ds[Skip(i, p)] {
    }
    forall x | x in m - {ks[p]} ensures x in ks' {
      assert x in ks;
      var j :| 0 <= j < |ks| && ks[j] == x;
      assert ks'[if j < p then j else j - 1] == x;
    }
  }

  lemma EmptyMap(ks: seq<Key>, ds: seq<nat>, m: map<Key, nat>)
    requires IsMap(ks, ds, m) && |ks| == 0
    ensures m == map[]
  {
    assert forall k | k in m :: k in ks;
  }

  lemma MapReplace(ks: seq<Key>, ds: seq<nat>, m: map<Key, nat>, p: nat, d: nat)
    requires IsMap(ks, ds, m) && p < |ks|
    ensures IsMap(ks, ds[p := d], m[ks[p] := d])
  {
  }
}

/** The hash table used for the schema: one doubly linked list of all elements and an optional bucket array. */
module HashTable {
  import opened BucketRuns

  class HashElem {
    var next: HashElem?
    var prev: HashElem?
    var data: nat
    var key: Key

    constructor (key: Key, data: nat)
      ensures this.key == key && this.data == data
    {
      this.key, this.data := key, data;
      next, prev := null, null;
    }
  }

  /** One bucket: how many elements, and the first of them in the list. */
  datatype Ht = Ht(count: nat, chain: HashElem?)

  ghost function Counts(ht: seq<Ht>): (c: seq<nat>)
    ensures |c| == |ht|
  {
    seq(|ht|, b requires 0 <= b < |ht| => ht[b].count)
  }

  function Nth(s: seq<HashElem>, i: int): (e: HashElem?) {
    if 0 <= i < |s| then s[i] else null
  }

  ghost function Members(s: seq<HashElem>): (r: set<HashElem>)
    ensures (forall x | x in s :: x in r) && (forall x | x in r :: x in s)
  {
    set x | x in s
  }

  ghost predicate Unique(s: seq<HashElem>) {
    forall i, j | 0 <= i < j < |s| :: s[i] != s[j]
  }

  /** `s` is a doubly linked list. */
  ghost predicate Linked(s: seq<HashElem>)
    reads s`next, s`prev
  {
    && (forall i {:trigger s[i].next} | 0 <= i < |s| :: s[i].next == Nth(s, i + 1))
    && (forall i {:trigger s[i].prev} | 0 <= i < |s| :: s[i].prev == Nth(s, i - 1))
  }

  /** Keys and data of the elements. */
  ghost predicate Holds(s: seq<HashElem>, ks: seq<Key>, ds: seq<nat>)
    reads s`key, s`data
  {
    && |s| == |ks| == |ds|
    && (forall i {:trigger s[i].key} | 0 <= i < |s| :: Fold(s[i].key) == ks[i])
    && (forall i {:trigger s[i].data} | 0 <= i < |s| :: s[i].data == ds[i] > 0)
  }

  /** Each non-empty bucket points to the first element of its run. */
  ghost predicate Chains(ht: seq<Ht>, start: seq<nat>, s: seq<HashElem>)
  {
    forall b | 0 <= b < |ht| && ht[b].count > 0 :: b < |start| && ht[b].chain == Nth(s, start[b])
  }

  class Hash {
    var htsize: nat
    var count: nat
    var first: HashElem?
    var ht: seq<Ht>
    ghost var elems: seq<HashElem>
    ghost var ks: seq<Key>
    ghost var ds: seq<nat>
    ghost var start: seq<nat>
    ghost var m: map<Key, nat>

    /** The list and the buckets fit together. */
    ghost predicate Shape()
      reads this, elems
    {
      && Unique(elems) && Linked(elems) && Holds(elems, ks, ds) && first == Nth(elems, 0)
      && |ht| == htsize
      && (htsize > 0 ==> Runs(ks, htsize, Counts(ht), start))
      && Chains(ht, start, elems)
    }

    ghost predicate Valid()
      reads this, elems
    {
      Shape() && count == |elems| && IsMap(ks, ds, m)
    }

    /** sqlite3HashInit. */
    constructor ()
      ensures Valid() && m == map[] && elems == []
    {
      first, count, htsize, ht := null, 0, 0, [];
      elems, ks, ds, start, m := [], [], [], [], map[];
    }

    /** findElementGivenHash: the element with this key, if there is one, looking only at one bucket. */
    method FindElement(key: Key, h: nat) returns (e: HashElem?, ghost p: nat)
      requires Valid() && (htsize > 0 ==> h == Bucket(Fold(key), htsize))
      ensures if Fold(key) in m then p < |elems| && e == elems[p] && ks[p] == Fold(key) else e == null
    {
      ghost var lo := 0;
      var n;
      if htsize > 0 {
        e, n := ht[h].chain, ht[h].count;
        lo := start[h];
        assert Counts(ht)[h] == n;
        OnlyInRun(ks, htsize, Counts(ht), start, Fold(key));
      } else {
        e, n := first, count;
      }
      p := lo;
      ghost var hi := lo + n;
      assert |ks| == |elems|;
      while n > 0
        invariant lo <= p && 0 <= n && p + n == hi <= |elems| == |ks|
        invariant n > 0 ==> e == Nth(elems, p)
        invariant forall i | lo <= i < p :: ks[i] != Fold(key)
      {
        n := n - 1;
        if Fold(e.key) == Fold(key) {
          return;
        }
        e := e.next;
        p := p + 1;
      }
      e := null;
    }

    /** sqlite3HashFind. */
    method Find(key: Key) returns (data: nat)
      requires Valid()
      ensures data == if Fold(key) in m then m[Fold(key)] else 0
    {
      var h := 0;
      if htsize > 0 {
        var hash := StrHash(key);
        h := hash as int % htsize;
      }
      var e, p := FindElement(key, h);
      return if e != null then e.data else 0;
    }

    /** The pointer updates of insertElement: `e` goes in front of `head`, or in front of everything. */
    method Link(ghost es: seq<HashElem>, ghost p: nat, head: HashElem?, e: HashElem, ghost es': seq<HashElem>)
      requires Unique(es) && Linked(es) && first == Nth(es, 0) && e !in es && p <= |es|
      requires if head == null then p == 0 else Nth(es, p) == head
      requires Inserted(es, p, e, es')
      modifies this`first, Members(es)`next, Members(es)`prev, e`next, e`prev
      ensures Linked(es') && first == Nth(es', 0)
    {
      ghost var before := Nth(es, p - 1);
      if head != null {
        assert es[p].prev == before;
        e.next := head;
        e.prev := head.prev;
        if head.prev != null {
          head.prev.next := e;
        } else {
          first := e;
        }
        head.prev := e;
      } else {
        e.next := first;
        if first != null {
          first.prev := e;
        }
        e.prev := null;
        first := e;
      }
      forall i | 0 <= i < |es'| ensures es'[i].next == Nth(es', i + 1) && es'[i].prev == Nth(es', i - 1) {
        if i != p {
          var j: int := Before(i, p);
          assert es'[i] == es[j];
          assert old(es[j].next) == Nth(es, j + 1) && old(es[j].prev) == Nth(es, j - 1);
        }
      }
    }

    /** insertElement: link a new element in front of its bucket, or in front of everything. */
    method InsertElement(h: nat, e: HashElem) returns (ghost p: nat)
      requires Shape() && e !in elems && e.data > 0 && (htsize > 0 ==> h == Bucket(Fold(e.key), htsize))
      modifies this`first, this`ht, this`elems, this`ks, this`ds, this`start, Members(elems)`next, Members(elems)`prev,
        e`next, e`prev
      ensures Shape() && Inserted(old(elems), p, e, elems) && Inserted(old(ks), p, Fold(e.key), ks)
        && Inserted(old(ds), p, e.data, ds)
    {
      ghost var es, k, d := elems, Fold(e.key), e.data;
      var head: HashElem? := null;
      p := 0;
      if htsize > 0 {
        assert Counts(ht)[h] == ht[h].count;
        head := if ht[h].count > 0 then ht[h].chain else null;
        p := Place(Counts(ht), start, h);
      }
      ghost var es' := InsertAt(es, p, e);
      ghost var ks' := InsertAt(ks, p, k);
      ghost var ds' := InsertAt(ds, p, d);
      HoldsInsert(es, ks, ds, p, e, k, d, es', ks', ds');
      if htsize > 0 {
        var ht' := ht[h := Ht(ht[h].count + 1, e)];
        ghost var start' := StartsAfterInsert(Counts(ht), start, h, p);
        ChainsInsert(ks, ht, start, es, h, p, k, e, es', ks', ht', start');
        start, ht := start', ht';
      }
      elems, ks, ds := es', ks', ds';
      Link(es, p, head, e, es');
    }

    /** The pointer updates of removeElementGivenHash. */
    method Unlink(ghost es: seq<HashElem>, ghost p: nat, e: HashElem, ghost es': seq<HashElem>)
      requires Unique(es) && Linked(es) && first == Nth(es, 0) && p < |es| && e == es[p] && Removed(es, p, es')
      modifies this`first, Members(es)`next, Members(es)`prev
      ensures Linked(es') && first == Nth(es', 0)
    {
      assert e.prev == Nth(es, p - 1) && e.next == Nth(es, p + 1);
      if e.prev != null {
        e.prev.next := e.next;
      } else {
        first := e.next;
      }
      if e.next != null {
        e.next.prev := e.prev;
      }
      forall i | 0 <= i < |es'| ensures es'[i].next == Nth(es', i + 1) && es'[i].prev == Nth(es', i - 1) {
        var j: int := Skip(i, p);
        assert es'[i] == es[j];
        assert old(es[j].next) == Nth(es, j + 1) && old(es[j].prev) == Nth(es, j - 1);
      }
    }

    /** The bucket's part of removeElementGivenHash. */
    method DropFromBucket(e: HashElem, h: nat, ghost p: nat, ghost es': seq<HashElem>, ghost ks': seq<Key>)
      requires Shape() && htsize > 0 && p < |elems| && e == elems[p] && h == Bucket(ks[p], htsize)
      requires Removed(elems, p, es') && Removed(ks, p, ks')
      modifies this`ht, this`start
      ensures |ht| == htsize && Chains(ht, start, es') && Runs(ks', htsize, Counts(ht), start)
    {
      assert InRun(Counts(ht), start, h, p) && Counts(ht)[h] == ht[h].count;
      var chain := if ht[h].chain == e then e.next else ht[h].chain;
      var ht' := ht[h := Ht(ht[h].count - 1, chain)];
      ghost var start' := StartsAfterRemove(Counts(ht), start, h, p);
      assert e.next == Nth(elems, p + 1);
      ChainsRemove(ks, ht, start, elems, h, p, chain, es', ks', ht', start');
      start, ht := start', ht';
    }

    method Detach(e: HashElem, h: nat, ghost p: nat)
      requires Shape() && p < |elems| && e == elems[p] && (htsize > 0 ==> h == Bucket(ks[p], htsize))
      modifies this`first, this`ht, this`elems, this`ks, this`ds, this`start, Members(elems)`next, Members(elems)`prev
      ensures Shape() && Removed(old(elems), p, elems) && Removed(old(ks), p, ks) && Removed(old(ds), p, ds)
    {
      ghost var es := elems;
      ghost var es' := RemoveAt(es, p);
      ghost var ks' := RemoveAt(ks, p);
      ghost var ds' := RemoveAt(ds, p);
      HoldsRemove(es, ks, ds, p, es', ks', ds');
      if htsize > 0 {
        DropFromBucket(e, h, p, es', ks');
      } else {
        assert Chains(ht, start, es');
      }
      elems, ks, ds := es', ks', ds';
      Unlink(es, p, e, es');
    }

    method Forget(e: HashElem, h: nat, ghost p: nat)
      requires Shape() && IsMap(ks, ds, m) && p < |elems| && e == elems[p]
        && (htsize > 0 ==> h == Bucket(ks[p], htsize))
      modifies this`first, this`ht, this`elems, this`ks, this`ds, this`m, this`start, Members(elems)`next,
        Members(elems)`prev
      ensures Shape() && IsMap(ks, ds, m) && m == old(m) - {old(ks[p])} && Removed(old(elems), p, elems)
    {
      ghost var ks0, ds0 := ks, ds;
      Detach(e, h, p);
      MapRemove(ks0, ds0, m, p, ks, ds);
      m := m - {ks0[p]};
    }

    /** removeElementGivenHash; a table that becomes empty gives up its buckets. */
    method RemoveElement(e: HashElem, h: nat, ghost p: nat)
      requires Valid() && p < |elems| && e == elems[p] && (htsize > 0 ==> h == Bucket(ks[p], htsize))
      modifies this, Members(elems)`next, Members(elems)`prev
      ensures Valid() && m == old(m) - {old(ks)[p]} && (forall x | x in elems :: x in old(elems))
      ensures htsize == (if elems == [] then 0 else old(htsize)) && |elems| == |old(elems)| - 1
    {
      Forget(e, h, p);
      count := count - 1;
      if count == 0 {
        EmptyMap(ks, ds, m);
        Clear();
      }
    }

    /** sqlite3HashClear. */
    method Clear()
      requires Valid()
      modifies this
      ensures Valid() && elems == [] && m == map[] && htsize == 0
    {
      first, ht, htsize, count := null, [], 0, 0;
      elems, ks, ds, start, m := [], [], [], [], map[];
    }

    /** While rehash moves the elements `rest`: the first i of them are in the table, the others still form the
        tail of the old list. */
    ghost predicate Moving(rest: seq<HashElem>, ks0: seq<Key>, ds0: seq<nat>, i: nat, m': map<Key, nat>)
      reads this, elems, rest
    {
      && Shape() && Holds(rest, ks0, ds0) && |elems| == i <= |rest|
      && (forall j {:trigger rest[j].next} | i <= j < |rest| :: rest[j].next == Nth(rest, j + 1))
      && (forall j | i <= j < |rest| :: rest[j] !in elems)
      && (forall e | e in elems :: e in rest)
      && IsMap(ks, ds, m') && Partial(ks0, ds0, i, m')
    }

    method MoveOne(ghost rest: seq<HashElem>, ghost ks0: seq<Key>, ghost ds0: seq<nat>, ghost i: nat,
                   ghost m': map<Key, nat>, elem: HashElem)
      requires Unique(rest) && htsize > 0 && i < |rest| && elem == rest[i] && Moving(rest, ks0, ds0, i, m')
        && IsMap(ks0, ds0, m)
      modifies this`first, this`ht, this`elems, this`ks, this`ds, this`start, Members(elems)`next, Members(elems)`prev,
        elem`next, elem`prev
      ensures Moving(rest, ks0, ds0, i + 1, m'[ks0[i] := ds0[i]])
    {
      var hash := StrHash(elem.key);
      ghost var es, ks1, ds1 := elems, ks, ds;
      ghost var p := InsertElement(hash as int % htsize, elem);
      PartialStep(ks0, ds0, m, i, m');
      MapInsert(ks1, ds1, m', p, ks0[i], ds0[i], ks, ds);
      forall x: HashElem ensures x in elems <==> x in es || x == elem {
        InsertedMembers(es, p, elem, elems, x);
      }
    }

    /** One round of the loop of rehash. */
    method MoveNext(ghost rest: seq<HashElem>, ghost ks0: seq<Key>, ghost ds0: seq<nat>, ghost i: nat,
                    ghost m': map<Key, nat>, elem: HashElem)
      returns (next: HashElem?)
      requires Unique(rest) && htsize > 0 && i < |rest| && elem == rest[i] && Moving(rest, ks0, ds0, i, m')
        && IsMap(ks0, ds0, m)
      modifies this`first, this`ht, this`elems, this`ks, this`ds, this`start, Members(rest)`next, Members(rest)`prev
      ensures Moving(rest, ks0, ds0, i + 1, m'[ks0[i] := ds0[i]]) && next == Nth(rest, i + 1)
    {
      next := elem.next;
      assert elem in rest && Members(elems) <= Members(rest);
      MoveOne(rest, ks0, ds0, i, m', elem);
    }

    /** The loop of rehash. */
    method MoveAll(ghost rest: seq<HashElem>, ghost ks0: seq<Key>, ghost ds0: seq<nat>, start0: HashElem?)
      requires Unique(rest) && htsize > 0 && start0 == Nth(rest, 0) && Moving(rest, ks0, ds0, 0, map[])
        && IsMap(ks0, ds0, m)
      modifies this`first, this`ht, this`elems, this`ks, this`ds, this`start, Members(rest)`next, Members(rest)`prev
      ensures Moving(rest, ks0, ds0, |rest|, m)
    {
      ghost var m': map<Key, nat> := map[];
      var elem := start0;
      ghost var i := 0;
      while elem != null
        invariant i <= |rest| && elem == Nth(rest, i)
        invariant Moving(rest, ks0, ds0, i, m')
        decreases |rest| - i
      {
        elem := MoveNext(rest, ks0, ds0, i, m', elem);
        m' := m'[ks0[i] := ds0[i]];
        i := i + 1;
      }
      PartialAll(ks0, ds0, m, m');
    }

    /** rehash: distribute all elements over a new bucket array.  The allocation fails with noRoom, and otherwise yields
        room for `extra` buckets more than asked. */
    method Rehash(wanted: nat, noRoom: bool, extra: nat) returns (done: bool)
      requires Shape() && IsMap(ks, ds, m) && wanted > 0
      modifies this`htsize, this`first, this`ht, this`elems, this`ks, this`ds, this`start, Members(elems)`next,
        Members(elems)`prev
      ensures Shape() && IsMap(ks, ds, m) && |elems| == old(|elems|) && (forall e | e in elems :: e in old(elems))
      ensures done <==> Buckets(wanted) != old(htsize) && !noRoom
      ensures htsize == if done then Buckets(wanted) + extra else old(htsize)
    {
      var size := Buckets(wanted);
      if size == htsize || noRoom {
        return false;
      }
      size := size + extra;
      ghost var rest, ks0, ds0 := elems, ks, ds;
      var elem := first;
      EmptyRuns(size);
      htsize, ht, start := size, seq(size, _ => Ht(0, null)), seq(size, _ => 0);
      assert Counts(ht) == seq(size, _ => 0);
      elems, ks, ds, first := [], [], [], null;
      MoveAll(rest, ks0, ds0, elem);
      done := true;
    }

    /** Give an existing element new data and the new spelling of its key. */
    method Replace(e: HashElem, ghost p: nat, key: Key, data: nat)
      requires Valid() && p < |elems| && e == elems[p] && ks[p] == Fold(key) && data > 0
      modifies this`ds, this`m, e`data, e`key
      ensures Valid() && m == old(m)[Fold(key) := data]
    {
      MapReplace(ks, ds, m, p, data);
      ds, m := ds[p := data], m[Fold(key) := data];
      e.data, e.key := data, key;
    }

    /** Count one more element, and enlarge the bucket array when there are more than two elements to a bucket. */
    method Grow(key: Key, h0: nat, noRoom: bool, extra: nat) returns (h: nat)
      requires Valid() && (htsize > 0 ==> h0 == Bucket(Fold(key), htsize))
      modifies this`count, this`htsize, this`first, this`ht, this`elems, this`ks, this`ds, this`start,
        Members(elems)`next, Members(elems)`prev
      ensures Shape() && IsMap(ks, ds, m) && count == |elems| + 1 && (forall e | e in elems :: e in old(elems))
      ensures htsize > 0 ==> h == Bucket(Fold(key), htsize)
    {
      h := h0;
      count := count + 1;
      if count >= 10 && count > 2 * htsize {
        var done := Rehash(count * 2, noRoom, extra);
        if done {
          var hash := StrHash(key);
          h := hash as int % htsize;
        }
      }
    }

    /** Add an element for a key that is not in the table. */
    method Add(e: HashElem, h0: nat, noRoom: bool, extra: nat)
      requires Valid() && e !in elems && e.data > 0 && Fold(e.key) !in m
        && (htsize > 0 ==> h0 == Bucket(Fold(e.key), htsize))
      modifies this, Members(elems)`next, Members(elems)`prev, e`next, e`prev
      ensures Valid() && m == old(m)[Fold(e.key) := e.data] && (forall x | x in elems :: x in old(elems) || x == e)
    {
      var h := Grow(e.key, h0, noRoom, extra);
      ghost var es, ks0, ds0 := elems, ks, ds;
      ghost var p := InsertElement(h, e);
      MapInsert(ks0, ds0, m, p, Fold(e.key), e.data, ks, ds);
      m := m[Fold(e.key) := e.data];
      forall x | x in elems ensures x in es || x == e {
        InsertedMembers(es, p, e, elems, x);
      }
    }

    /** sqlite3HashInsert: with data 0 the key is removed; the former data is returned; when there is no memory for
        a new element (oom) the new data comes back and nothing has changed. */
    method Insert(key: Key, data: nat, oom: bool, noRoom: bool, extra: nat) returns (r: nat)
      requires Valid()
      modifies this, Members(elems)
      ensures Valid() && forall x | x in elems :: x in old(elems) || fresh(x)
      ensures Fold(key) in old(m) ==>
        r == old(m)[Fold(key)] && m == if data == 0 then old(m) - {Fold(key)} else old(m)[Fold(key) := data]
      ensures Fold(key) !in old(m) ==>
        r == (if oom then data else 0) && m == if oom || data == 0 then old(m) else old(m)[Fold(key) := data]
    {
      var h := 0;
      if htsize > 0 {
        var hash := StrHash(key);
        h := hash as int % htsize;
      }
      var e, p := FindElement(key, h);
      if e != null {
        r := e.data;
        if data == 0 {
          RemoveElement(e, h, p);
        } else {
          Replace(e, p, key, data);
        }
        return;
      }
      if data == 0 {
        return 0;
      }
      if oom {
        return data;
      }
      var new' := new HashElem(key, data);
      Add(new', h, noRoom, extra);
      return 0;
    }
  }

  /** The number of buckets asked for: an allocation of at most 1024 bytes. */
  function Buckets(wanted: nat): (n: nat)
    ensures wanted > 0 ==> 0 < n <= 64
  {
    if wanted * 16 > 1024 then 64 else wanted
  }

  /** A call of sqlite3HashInsert with the outcomes of its allocations. */
  datatype Op = Op(key: Key, data: nat, oom: bool, noRoom: bool, extra: nat)

  /** What a sequence of calls does to a map from folded keys to data. */
  ghost function Replay(ops: seq<Op>): (m: map<Key, nat>) {
    if ops == [] then map[]
    else
      var before, op := Replay(ops[..|ops| - 1]), ops[|ops| - 1];
      if op.data == 0 then before - {Fold(op.key)}
      else if op.oom && Fold(op.key) !in before then before
      else before[Fold(op.key) := op.data]
  }

  /** Any sequence of calls on a new table, and a look for a key. */
  method Run(ops: seq<Op>, probe: Key) returns (data: nat)
    ensures data == if Fold(probe) in Replay(ops) then Replay(ops)[Fold(probe)] else 0
  {
    var h := new Hash();
    for i := 0 to |ops|
      invariant h.Valid() && fresh(h) && (forall x | x in h.elems :: fresh(x)) && h.m == Replay(ops[..i])
    {
      assert ops[..i + 1][..i] == ops[..i];
      var op := ops[i];
      var r := h.Insert(op.key, op.data, op.oom, op.noRoom, op.extra);
    }
    assert ops[..|ops|] == ops;
    data := h.Find(probe);
  }

  lemma EmptyRuns(n: nat)
    requires n > 0
    ensures Runs([], n, seq(n, _ => 0), seq(n, _ => 0))
  {
  }

  /** m' maps the first i of the keys ks. */
  ghost predicate Partial(ks: seq<Key>, ds: seq<nat>, i: nat, m': map<Key, nat>)
  {
    && i <= |ks| == |ds|
    && (forall j | 0 <= j < i :: ks[j] in m' && m'[ks[j]] == ds[j])
    && (forall k | k in m' :: k in ks[..i])
  }

  lemma PartialStep(ks: seq<Key>, ds: seq<nat>, m: map<Key, nat>, i: nat, m': map<Key, nat>)
    requires IsMap(ks, ds, m) && i < |ks| && Partial(ks, ds, i, m')
    ensures ks[i] !in m' && Partial(ks, ds, i + 1, m'[ks[i] := ds[i]])
  {
    assert ks[..i + 1] == ks[..i] + [ks[i]];
    forall j | 0 <= j < i ensures ks[j] != ks[i] {
    }
  }

  lemma PartialAll(ks: seq<Key>, ds: seq<nat>, m: map<Key, nat>, m': map<Key, nat>)
    requires IsMap(ks, ds, m) && Partial(ks, ds, |ks|, m')
    ensures m' == m
  {
    assert ks[..|ks|] == ks;
    forall k | k in m ensures k in m' && m'[k] == m[k] {
      assert k in ks;
    }
    forall k | k in m' ensures k in m {
      assert k in ks;
    }
  }

  lemma HoldsRemove(es: seq<HashElem>, ks: seq<Key>, ds: seq<nat>, p: nat, es': seq<HashElem>, ks': seq<Key>,
                    ds': seq<nat>)
    requires Unique(es) && Holds(es, ks, ds) && p < |es|
    requires Removed(es, p, es') && Removed(ks, p, ks') && Removed(ds, p, ds')
    ensures Unique(es') && Holds(es', ks', ds')
  {
  }

  lemma ChainsRemove(ks: seq<Key>, ht: seq<Ht>, start: seq<nat>, es: seq<HashElem>, h: nat, p: nat, chain: HashElem?,
                     es': seq<HashElem>, ks': seq<Key>, ht': seq<Ht>, start': seq<nat>)
    requires |ht| > 0 && Runs(ks, |ht|, Counts(ht), start) && Chains(ht, start, es) && |ks| == |es| && Unique(es)
    requires p < |ks| && h == Bucket(ks[p], |ht|) && Removed(es, p, es') && Removed(ks, p, ks')
    requires chain == (if ht[h].chain == es[p] then Nth(es, p + 1) else ht[h].chain) && ht[h].count > 0
    requires ht' == ht[h := Ht(ht[h].count - 1, chain)] && start' == StartsAfterRemove(Counts(ht), start, h, p)
    ensures Chains(ht', start', es') && Runs(ks', |ht'|, Counts(ht'), start')
  {
    var cnt := Counts(ht);
    RunsRemove(ks, |ht|, cnt, start, p, h, ks', start');
    assert Counts(ht') == cnt[h := cnt[h] - 1];
    forall b | 0 <= b < |ht| && ht'[b].count > 0 ensures b < |start'| && ht'[b].chain == Nth(es', start'[b]) {
      NotInside(ks, |ht|, cnt, start, p, h, b);
      assert ht[b].chain == Nth(es, start[b]) && cnt[b] == ht[b].count && start[b] + cnt[b] <= |ks|;
    }
  }

  lemma ChainsInsert(ks: seq<Key>, ht: seq<Ht>, start: seq<nat>, es: seq<HashElem>, h: nat, p: nat, k: Key, e: HashElem,
                     es': seq<HashElem>, ks': seq<Key>, ht': seq<Ht>, start': seq<nat>)
    requires |ht| > 0 && Runs(ks, |ht|, Counts(ht), start) && Chains(ht, start, es) && |ks| == |es|
    requires h == Bucket(k, |ht|) && p == Place(Counts(ht), start, h) && Inserted(es, p, e, es')
      && Inserted(ks, p, k, ks')
    requires ht' == ht[h := Ht(ht[h].count + 1, e)] && start' == StartsAfterInsert(Counts(ht), start, h, p)
    ensures Chains(ht', start', es') && Runs(ks', |ht'|, Counts(ht'), start')
  {
    var cnt := Counts(ht);
    RunsInsert(ks, |ht|, cnt, start, h, p, k, ks', start');
    assert Counts(ht') == cnt[h := cnt[h] + 1];
    forall b | 0 <= b < |ht| && ht'[b].count > 0 ensures b < |start'| && ht'[b].chain == Nth(es', start'[b]) {
      assert b != h ==> ht[b].chain == Nth(es, start[b]) && cnt[b] == ht[b].count && start[b] + cnt[b] <= |ks|;
    }
  }

  lemma HoldsInsert(es: seq<HashElem>, ks: seq<Key>, ds: seq<nat>, p: nat, e: HashElem, k: Key, d: nat,
                    es': seq<HashElem>, ks': seq<Key>, ds': seq<nat>)
    requires Unique(es) && Holds(es, ks, ds) && p <= |es| && e !in es && Fold(e.key) == k && e.data == d > 0
    requires Inserted(es, p, e, es') && Inserted(ks, p, k, ks') && Inserted(ds, p, d, ds')
    ensures Unique(es') && Holds(es', ks', ds')
  {
  }
}
