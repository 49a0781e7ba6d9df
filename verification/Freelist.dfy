/** The list of unused pages: trunk pages that point to leaf pages. */
module FreeTrunks {

  /** A trunk page with the leaf pages it lists. */
  datatype Trunk = Trunk(pg: nat, leaves: seq<nat>)

  /** How often page x occurs on a trunk. */
  ghost function On(t: Trunk, x: nat): (n: nat) {
    (if t.pg == x then 1 else 0) + multiset(t.leaves)[x]
  }

  /** How often page x occurs on the first n trunks. */
  ghost function Occurs(fl: seq<Trunk>, n: nat, x: nat): (c: nat)
    requires n <= |fl|
  {
    if n == 0 then 0 else Occurs(fl, n - 1, x) + On(fl[n - 1], x)
  }

  /** Number of pages on the first n trunks: the trunks and their leaves. */
  ghost function Total(fl: seq<Trunk>, n: nat): (c: nat)
    requires n <= |fl|
  {
    if n == 0 then 0 else Total(fl, n - 1) + 1 + |fl[n - 1].leaves|
  }

  lemma {:induction false} OccursUpdate(fl: seq<Trunk>, i: nat, t: Trunk, n: nat, x: nat)
    requires i < |fl| && n <= |fl|
    ensures Occurs(fl[i := t], n, x) == Occurs(fl, n, x) + if i < n then On(t, x) - On(fl[i], x) else 0
    ensures Total(fl[i := t], n) == Total(fl, n) + if i < n then |t.leaves| - |fl[i].leaves| else 0
  {
    if n > 0 {
      OccursUpdate(fl, i, t, n - 1, x);
    }
  }

  /** The list without trunk i. */
  ghost function Without(fl: seq<Trunk>, i: nat): (r: seq<Trunk>)
    requires i < |fl|
    ensures |r| == |fl| - 1
  {
    seq(|fl| - 1, j requires 0 <= j < |fl| - 1 => if j < i then fl[j] else fl[j + 1])
  }

  lemma {:induction false} OccursWithout(fl: seq<Trunk>, i: nat, n: nat, x: nat)
    requires i < |fl| && n <= |fl| - 1
    ensures n <= i ==> Occurs(Without(fl, i), n, x) == Occurs(fl, n, x) && Total(Without(fl, i), n) == Total(fl, n)
    ensures i <= n ==> Occurs(Without(fl, i), n, x) == Occurs(fl, n + 1, x) - On(fl[i], x)
    ensures i <= n ==> Total(Without(fl, i), n) == Total(fl, n + 1) - 1 - |fl[i].leaves|
  {
    if n > 0 {
      OccursWithout(fl, i, n - 1, x);
    }
  }

  lemma {:induction false} OccursFront(t: Trunk, fl: seq<Trunk>, n: nat, x: nat)
    requires n <= |fl|
    ensures Occurs([t] + fl, n + 1, x) == On(t, x) + Occurs(fl, n, x)
    ensures Total([t] + fl, n + 1) == 1 + |t.leaves| + Total(fl, n)
  {
    if n > 0 {
      OccursFront(t, fl, n - 1, x);
    } else {
      assert Occurs([t] + fl, 0, x) == 0 && Total([t] + fl, 0) == 0;
    }
  }

  /** Every occurrence on a trunk is counted. */
  lemma {:induction false} OccursAtLeast(fl: seq<Trunk>, i: nat, n: nat, x: nat)
    requires i < n <= |fl|
    ensures Occurs(fl, n, x) >= On(fl[i], x)
  {
    if i < n - 1 {
      OccursAtLeast(fl, i, n - 1, x);
    }
  }

  lemma {:induction false} OccursTwice(fl: seq<Trunk>, i: nat, j: nat, n: nat, x: nat)
    requires i < j < n <= |fl|
    ensures Occurs(fl, n, x) >= On(fl[i], x) + On(fl[j], x)
  {
    if j < n - 1 {
      OccursTwice(fl, i, j, n - 1, x);
    } else {
      OccursAtLeast(fl, i, n - 1, x);
    }
  }

  /** The list holds exactly the pages `free`, none twice. */
  ghost predicate Lists(fl: seq<Trunk>, free: set<nat>) {
    && |free| == Total(fl, |fl|)
    && forall x :: Occurs(fl, |fl|, x) == if x in free then 1 else 0
  }

  lemma {:induction false} FewerThan(free: set<nat>, n: nat)
    requires n >= 1 && forall x | x in free :: 2 <= x <= n
    ensures |free| < n
  {
    if n == 1 {
      assert free == {};
    } else {
      FewerThan(free - {n}, n - 1);
    }
  }

  function Head(fl: seq<Trunk>): (p: nat) {
    if fl == [] then 0 else fl[0].pg
  }

  function NextOf(fl: seq<Trunk>, i: nat): (p: nat) {
    if i + 1 < |fl| then fl[i + 1].pg else 0
  }
}

module Freelist {
  import opened FreeTrunks
  import opened PtrmapPages

  datatype Rc = Ok | Corrupt

  /** A page as big-endian four-byte words. */
  type Words = seq<nat>

  /** Entry j of a trunk page. */
  function Leaf(page: Words, j: nat): (p: nat)
    requires 2 + j < |page|
  {
    page[2 + j]
  }

  /** Trunk t is written on its page: next trunk, number of leaves, leaves. */
  ghost predicate Written(data: map<nat, Words>, words: nat, t: Trunk, next: nat) {
    && t.pg in data && |data[t.pg]| == words && words >= 2 && |t.leaves| <= words - 2
    && data[t.pg][0] == next && data[t.pg][1] == |t.leaves|
    && forall j | 0 <= j < |t.leaves| :: Leaf(data[t.pg], j) == t.leaves[j]
  }

  ghost predicate Chained(data: map<nat, Words>, words: nat, fl: seq<Trunk>) {
    forall i | 0 <= i < |fl| :: Written(data, words, fl[i], NextOf(fl, i))
  }

  const U32_HALF := 0x8000_0000

  /** sqlite3AbsInt32 of a difference of page numbers computed in 32 bits. */
  function Distance(a: nat, b: nat): (d: nat) {
    var u := (a - b) % 0x1_0000_0000;
    if u < U32_HALF then u else if u == U32_HALF then U32_HALF - 1 else 0x1_0000_0000 - u
  }

  /** Up to half the range of page numbers this is the distance. */
  lemma DistanceIs(a: nat, b: nat)
    requires a < 0x1_0000_0000 && b < 0x1_0000_0000 && -U32_HALF < a - b < U32_HALF
    ensures Distance(a, b) == if a < b then b - a else a - b
  {
  }

  lemma DistanceZero(a: nat, b: nat)
    requires a < 0x1_0000_0000 && b < 0x1_0000_0000
    ensures Distance(a, b) == 0 <==> a == b
  {
  }

  /** The leaf of a trunk page that is closest to `nearby`. */
  method Closest(page: Words, k: nat, nearby: nat) returns (c: nat)
    requires 0 < k && 2 + k <= |page|
    ensures c < k
    ensures if nearby == 0 then c == 0 else forall j | 0 <= j < k ::
      Distance(Leaf(page, c), nearby) <= Distance(Leaf(page, j), nearby)
  {
    c := 0;
    if nearby > 0 {
      var dist := Distance(Leaf(page, 0), nearby);
      for i := 1 to k
        invariant c < i && dist == Distance(Leaf(page, c), nearby)
        invariant forall j | 0 <= j < i :: dist <= Distance(Leaf(page, j), nearby)
      {
        var d2 := Distance(Leaf(page, i), nearby);
        if d2 < dist {
          c, dist := i, d2;
        }
      }
    }
  }

  // ---------------------------------------------------------------- what each change of the list does

  lemma OnLeaf(t: Trunk, j: nat)
    requires j < |t.leaves|
    ensures On(t, t.leaves[j]) >= 1
  {
    assert t.leaves[j] in multiset(t.leaves);
  }

  /** Trunk pages are pairwise different, and no leaf is a trunk. */
  lemma TrunksApart(fl: seq<Trunk>, free: set<nat>, i: nat, j: nat, x: nat)
    requires Lists(fl, free) && i < |fl| && j < |fl| && i != j && On(fl[i], x) > 0
    ensures On(fl[j], x) == 0 && x in free
  {
    assert Occurs(fl, |fl|, x) <= 1;
    if i < j {
      OccursTwice(fl, i, j, |fl|, x);
    } else {
      OccursTwice(fl, j, i, |fl|, x);
    }
  }

  lemma OnOnce(fl: seq<Trunk>, free: set<nat>, i: nat, x: nat)
    requires Lists(fl, free) && i < |fl|
    ensures On(fl[i], x) <= 1 && (On(fl[i], x) > 0 ==> x in free)
  {
    assert Occurs(fl, |fl|, x) <= 1;
    OccursAtLeast(fl, i, |fl|, x);
  }

  /** Replacing trunk i by one with page x more or less. */
  lemma ListsUpdate(fl: seq<Trunk>, free: set<nat>, i: nat, t: Trunk, free': set<nat>)
    requires Lists(fl, free) && i < |fl| && |free'| - |free| == |t.leaves| - |fl[i].leaves|
    requires forall x :: On(t, x) - On(fl[i], x) == (if x in free' then 1 else 0) - (if x in free then 1 else 0)
    ensures Lists(fl[i := t], free')
  {
    forall x ensures Occurs(fl[i := t], |fl|, x) == if x in free' then 1 else 0 {
      OccursUpdate(fl, i, t, |fl|, x);
      assert On(t, x) - On(fl[i], x) == (if x in free' then 1 else 0) - (if x in free then 1 else 0);
      assert Occurs(fl, |fl|, x) == if x in free then 1 else 0;
    }
    OccursUpdate(fl, i, t, |fl|, 0);
  }

  lemma ListsFront(fl: seq<Trunk>, free: set<nat>, x: nat)
    requires Lists(fl, free) && x !in free
    ensures Lists([Trunk(x, [])] + fl, free + {x})
  {
    var t := Trunk(x, []);
    forall y ensures Occurs([t] + fl, |fl| + 1, y) == if y in free + {x} then 1 else 0 {
      OccursFront(t, fl, |fl|, y);
      assert Occurs(fl, |fl|, y) == if y in free then 1 else 0;
    }
    OccursFront(t, fl, |fl|, 0);
  }

  lemma ListsWithout(fl: seq<Trunk>, free: set<nat>, i: nat)
    requires Lists(fl, free) && i < |fl| && fl[i].leaves == []
    ensures fl[i].pg in free && Lists(Without(fl, i), free - {fl[i].pg})
  {
    OnOnce(fl, free, i, fl[i].pg);
    forall y ensures Occurs(Without(fl, i), |fl| - 1, y) == if y in free - {fl[i].pg} then 1 else 0 {
      OccursWithout(fl, i, |fl| - 1, y);
      assert Occurs(fl, |fl|, y) == if y in free then 1 else 0;
    }
    OccursWithout(fl, i, |fl| - 1, 0);
  }

  /** Leaf c taken off: the last leaf moves to its place. */
  ghost function LeafTaken(t: Trunk, c: nat): (t': Trunk)
    requires c < |t.leaves|
  {
    Trunk(t.pg, t.leaves[c := t.leaves[|t.leaves| - 1]][..|t.leaves| - 1])
  }

  lemma LeafTakenOn(t: Trunk, c: nat, x: nat)
    requires c < |t.leaves|
    ensures On(LeafTaken(t, c), x) == On(t, x) - if x == t.leaves[c] then 1 else 0
  {
    var ls, last := t.leaves, |t.leaves| - 1;
    var moved := ls[c := ls[last]];
    assert moved == moved[..last] + [moved[last]];
    assert multiset(moved)[x] == multiset(moved[..last])[x] + if x == ls[last] then 1 else 0;
  }

  lemma ListsLeafTaken(fl: seq<Trunk>, free: set<nat>, i: nat, c: nat)
    requires Lists(fl, free) && i < |fl| && c < |fl[i].leaves|
    ensures fl[i].leaves[c] in free && Lists(fl[i := LeafTaken(fl[i], c)], free - {fl[i].leaves[c]})
  {
    var x := fl[i].leaves[c];
    OnLeaf(fl[i], c);
    OnOnce(fl, free, i, x);
    forall y ensures On(LeafTaken(fl[i], c), y) - On(fl[i],
      y) == (if y in free - {x} then 1 else 0) - (if y in free then 1 else 0) {
      LeafTakenOn(fl[i], c, y);
    }
    ListsUpdate(fl, free, i, LeafTaken(fl[i], c), free - {x});
  }

  /** Trunk page taken: its first leaf becomes the trunk. */
  ghost function Promoted(t: Trunk): (t': Trunk)
    requires t.leaves != []
  {
    Trunk(t.leaves[0], t.leaves[1..])
  }

  lemma ListsPromoted(fl: seq<Trunk>, free: set<nat>, i: nat)
    requires Lists(fl, free) && i < |fl| && fl[i].leaves != []
    ensures fl[i].pg in free && Lists(fl[i := Promoted(fl[i])], free - {fl[i].pg})
  {
    var t := fl[i];
    OnOnce(fl, free, i, t.pg);
    forall y ensures On(Promoted(t), y) - On(t,
      y) == (if y in free - {t.pg} then 1 else 0) - (if y in free then 1 else 0) {
      assert t.leaves == [t.leaves[0]] + t.leaves[1..];
      OnOnce(fl, free, i, y);
    }
    ListsUpdate(fl, free, i, Promoted(t), free - {t.pg});
  }

  lemma ListsLeafAdded(fl: seq<Trunk>, free: set<nat>, x: nat)
    requires Lists(fl, free) && fl != [] && x !in free
    ensures Lists(fl[0 := Trunk(fl[0].pg, fl[0].leaves + [x])], free + {x})
  {
    ListsUpdate(fl, free, 0, Trunk(fl[0].pg, fl[0].leaves + [x]), free + {x});
  }

  // ---------------------------------------------------------------- what each write does to the chain

  ghost predicate DistinctTrunks(fl: seq<Trunk>) {
    forall i, j | 0 <= i < j < |fl| :: fl[i].pg != fl[j].pg
  }

  lemma ListsDistinct(fl: seq<Trunk>, free: set<nat>)
    requires Lists(fl, free)
    ensures DistinctTrunks(fl)
  {
    forall i, j | 0 <= i < j < |fl| ensures fl[i].pg != fl[j].pg {
      TrunksApart(fl, free, i, j, fl[i].pg);
    }
  }

  /** Rewriting trunk i in place. */
  lemma ChainedSet(data: map<nat, Words>, words: nat, fl: seq<Trunk>, i: nat, t: Trunk, page: Words, data': map<nat,
                   Words>)
    requires Chained(data, words, fl) && DistinctTrunks(fl) && i < |fl| && t.pg == fl[i].pg
      && data' == data[t.pg := page]
    requires Written(data', words, t, NextOf(fl, i))
    ensures Chained(data', words, fl[i := t]) && Head(fl[i := t]) == Head(fl)
  {
    var fl' := fl[i := t];
    forall j | 0 <= j < |fl'| ensures Written(data', words, fl'[j], NextOf(fl', j)) {
      assert NextOf(fl', j) == NextOf(fl, j);
      assert Written(data, words, fl[j], NextOf(fl, j));
    }
  }

  /** A new first trunk. */
  lemma ChainedFront(data: map<nat, Words>, words: nat, fl: seq<Trunk>, x: nat, page: Words, data': map<nat, Words>)
    requires Chained(data, words, fl) && (forall i | 0 <= i < |fl| :: fl[i].pg != x) && data' == data[x := page]
    requires words >= 2 && |page| == words && page[0] == Head(fl) && page[1] == 0
    ensures Chained(data', words, [Trunk(x, [])] + fl)
  {
    var fl' := [Trunk(x, [])] + fl;
    forall j | 0 <= j < |fl'| ensures Written(data', words, fl'[j], NextOf(fl', j)) {
      if j > 0 {
        assert fl'[j] == fl[j - 1] && NextOf(fl', j) == NextOf(fl, j - 1);
        assert Written(data, words, fl[j - 1], NextOf(fl, j - 1));
      }
    }
  }

  /** Pointing the predecessor of trunk i, if any, somewhere else. */
  function Relinked(data: map<nat, Words>, prev: nat, next: nat): (r: map<nat, Words>)
    requires prev > 0 ==> prev in data && |data[prev]| > 0
  {
    if prev == 0 then data
    else
      var page: Words := data[prev][0 := next];
      data[prev := page]
  }

  ghost predicate IsPrev(fl: seq<Trunk>, i: nat, prev: nat)
    requires i < |fl|
  {
    if i == 0 then prev == 0 else prev == fl[i - 1].pg > 0
  }

  /** Trunk i cut out of the chain. */
  lemma ChainedWithout(data: map<nat, Words>, words: nat, fl: seq<Trunk>, i: nat, prev: nat)
    requires Chained(data, words, fl) && DistinctTrunks(fl) && i < |fl| && IsPrev(fl, i, prev) && words >= 2
    ensures prev > 0 ==> prev in data && |data[prev]| > 0
    ensures Chained(Relinked(data, prev, NextOf(fl, i)), words, Without(fl, i))
    ensures Head(Without(fl, i)) == if i == 0 then NextOf(fl, 0) else Head(fl)
  {
    if i > 0 {
      assert Written(data, words, fl[i - 1], NextOf(fl, i - 1));
    }
    var fl', nx := Without(fl, i), NextOf(fl, i);
    forall j | 0 <= j < |fl'| ensures Written(Relinked(data, prev, nx), words, fl'[j], NextOf(fl', j)) {
      var k := if j < i then j else j + 1;
      WithoutNext(fl, i, j);
      assert Written(data, words, fl[k], NextOf(fl, k));
      RelinkedWritten(data, words, fl[k], NextOf(fl, k), prev, nx);
      assert prev > 0 && j + 1 != i ==> fl[k].pg != prev;
    }
  }

  lemma WithoutNext(fl: seq<Trunk>, i: nat, j: nat)
    requires i < |fl| && j < |fl| - 1
    ensures Without(fl, i)[j] == fl[if j < i then j else j + 1]
    ensures NextOf(Without(fl, i), j) == if j + 1 == i then NextOf(fl, i) else NextOf(fl, if j < i then j else j + 1)
  {
  }

  lemma RelinkedWritten(data: map<nat, Words>, words: nat, t: Trunk, next: nat, prev: nat, nx: nat)
    requires Written(data, words, t, next) && (prev > 0 ==> prev in data && |data[prev]| > 0)
    ensures prev == 0 || t.pg != prev ==> Written(Relinked(data, prev, nx), words, t, next)
    ensures prev > 0 && t.pg == prev ==> Written(Relinked(data, prev, nx), words, t, nx)
  {
  }

  /** Trunk i replaced by the trunk t on another page. */
  lemma ChainedReplace(data: map<nat, Words>, words: nat, fl: seq<Trunk>, i: nat, prev: nat, t: Trunk, page: Words)
    requires Chained(data, words, fl) && DistinctTrunks(fl) && i < |fl| && IsPrev(fl, i, prev) && words >= 2
    requires (forall j | 0 <= j < |fl| :: fl[j].pg != t.pg) && Written(data[t.pg := page], words, t, NextOf(fl, i))
    ensures prev > 0 ==> prev in data && |data[prev]| > 0
    ensures Chained(Relinked(data[t.pg := page], prev, t.pg), words, fl[i := t])
  {
    if i > 0 {
      assert Written(data, words, fl[i - 1], NextOf(fl, i - 1));
    }
    var data', fl' := Relinked(data[t.pg := page], prev, t.pg), fl[i := t];
    forall j | 0 <= j < |fl'| ensures Written(data', words, fl'[j], NextOf(fl', j)) {
      assert Written(data, words, fl[j], NextOf(fl, j));
      if j == i {
        assert NextOf(fl', j) == NextOf(fl, j);
      } else if j + 1 == i {
        assert NextOf(fl', j) == t.pg && fl[j].pg == prev;
      } else {
        assert NextOf(fl', j) == NextOf(fl, j) && (prev > 0 ==> fl[j].pg != prev);
      }
    }
  }

  lemma WrittenLeafAdded(data: map<nat, Words>, words: nat, t: Trunk, next: nat, p: nat, page: Words)
    requires Written(data, words, t, next) && |t.leaves| < words - 2
      && page == data[t.pg][1 := |t.leaves| + 1][2 + |t.leaves| := p]
    ensures Written(data[t.pg := page], words, Trunk(t.pg, t.leaves + [p]), next)
  {
    forall j | 0 <= j < |t.leaves| ensures Leaf(page, j) == t.leaves[j] {
      assert Leaf(data[t.pg], j) == t.leaves[j];
    }
  }

  lemma WrittenLeafTaken(data: map<nat, Words>, words: nat, t: Trunk, next: nat, c: nat, old': Words, page: Words,
                         k: nat)
    requires Written(data, words, t, next) && c < |t.leaves| == k && old' == data[t.pg]
    requires page == old'[2 + c := Leaf(old', k - 1)][1 := k - 1]
    ensures Written(data[t.pg := page], words, LeafTaken(t, c), next)
  {
    var t' := LeafTaken(t, c);
    forall j | 0 <= j < |t'.leaves| ensures Leaf(page, j) == t'.leaves[j] {
      assert Leaf(data[t.pg], j) == t.leaves[j] && Leaf(data[t.pg], |t.leaves| - 1) == t.leaves[|t.leaves| - 1];
    }
  }

  /** The page written for a promoted leaf: the link, one leaf less, the remaining leaves. */
  lemma WrittenPromoted(data: map<nat, Words>, words: nat, t: Trunk, next: nat, page: Words)
    requires Written(data, words, t, next) && t.leaves != [] && |page| == words
    requires page[0] == data[t.pg][0] && page[1] == |t.leaves| - 1
    requires forall j | 0 <= j < |t.leaves| - 1 :: Leaf(page, j) == Leaf(data[t.pg], j + 1)
    ensures Written(data[t.leaves[0] := page], words, Promoted(t), next)
  {
    var t' := Promoted(t);
    forall j | 0 <= j < |t'.leaves| ensures Leaf(page, j) == t'.leaves[j] {
      assert Leaf(data[t.pg], j + 1) == t.leaves[j + 1];
    }
  }

  /** Pages that were not free keep their contents. */
  ghost predicate SameLive(data: map<nat, Words>, free: set<nat>, data': map<nat, Words>) {
    forall p | p in data && p !in free :: p in data' && data'[p] == data[p]
  }

  lemma RelinkedLive(data: map<nat, Words>, free: set<nat>, prev: nat, next: nat)
    requires prev > 0 ==> prev in free && prev in data && |data[prev]| > 0
    ensures SameLive(data, free, Relinked(data, prev, next))
  {
  }

  // ---------------------------------------------------------------- the operations

  /** The page is on none of the first i trunks. */
  ghost predicate NotBefore(fl: seq<Trunk>, i: nat, x: nat)
    requires i <= |fl|
  {
    Occurs(fl, i, x) == 0
  }

  ghost predicate PagesOk(words: nat, nPage: nat, data: map<nat, Words>) {
    forall p | 1 <= p <= nPage :: p in data && |data[p]| == words
  }

  ghost predicate InFile(free: set<nat>, nPage: nat) {
    forall x | x in free :: 2 <= x <= nPage
  }

  /** The list fl that starts at page `first` is in the pages, and its pages are the free ones. */
  ghost predicate Sound(words: nat, nPage: nat, data: map<nat, Words>, fl: seq<Trunk>, free: set<nat>, first: nat) {
    PagesOk(words, nPage, data) && Lists(fl, free) && Chained(data, words, fl) && first == Head(fl)
      && InFile(free, nPage)
  }

  lemma PagesOkSet(words: nat, nPage: nat, data: map<nat, Words>, p: nat, page: Words)
    requires PagesOk(words, nPage, data) && |page| == words
    ensures PagesOk(words, nPage, data[p := page])
  {
  }

  lemma PagesOkRelinked(words: nat, nPage: nat, data: map<nat, Words>, prev: nat, next: nat)
    requires PagesOk(words, nPage, data) && (prev > 0 ==> prev in data && |data[prev]| > 0)
    ensures PagesOk(words, nPage, Relinked(data, prev, next))
  {
  }

  lemma SoundLeafAdded(words: nat, nPage: nat, data: map<nat, Words>, fl: seq<Trunk>, free: set<nat>, first: nat,
                       p: nat, t: Trunk, page: Words, data': map<nat, Words>, fl': seq<Trunk>, free': set<nat>)
    requires Sound(words, nPage, data, fl, free, first) && fl != [] && p !in free && 2 <= p <= nPage
    requires first in data && |data[first]| == words && 8 < words && |fl[0].leaves| < words - 8
    requires Written(data, words, fl[0], NextOf(fl, 0)) && t == Trunk(fl[0].pg, fl[0].leaves + [p])
    requires page == data[first][1 := |fl[0].leaves| + 1][2 + |fl[0].leaves| := p]
    requires data' == data[first := page] && fl' == fl[0 := t] && free' == free + {p}
    ensures Sound(words, nPage, data', fl', free', first)
  {
    ListsDistinct(fl, free);
    WrittenLeafAdded(data, words, fl[0], NextOf(fl, 0), p, page);
    ChainedSet(data, words, fl, 0, t, page, data[first := page]);
    ListsLeafAdded(fl, free, p);
    PagesOkSet(words, nPage, data, first, page);
  }

  lemma SoundTrunkAdded(words: nat, nPage: nat, data: map<nat, Words>, fl: seq<Trunk>, free: set<nat>, first: nat,
                        p: nat, page: Words, data': map<nat, Words>, fl': seq<Trunk>, free': set<nat>)
    requires Sound(words, nPage, data, fl, free, first) && p !in free && 2 <= p <= nPage && words >= 2
    requires |page| == words && page[0] == Head(fl) && page[1] == 0
    requires data' == data[p := page] && fl' == [Trunk(p, [])] + fl && free' == free + {p}
    ensures Sound(words, nPage, data', fl', free', p)
  {
    forall i | 0 <= i < |fl| ensures fl[i].pg != p {
      OnOnce(fl, free, i, p);
    }
    ChainedFront(data, words, fl, p, page, data[p := page]);
    ListsFront(fl, free, p);
    PagesOkSet(words, nPage, data, p, page);
  }

  lemma SoundLeafTaken(words: nat, nPage: nat, data: map<nat, Words>, fl: seq<Trunk>, free: set<nat>, first: nat,
                       i: nat, c: nat, page: Words, data': map<nat, Words>, fl': seq<Trunk>, free': set<nat>)
    requires Sound(words, nPage, data, fl, free, first) && i < |fl| && c < |fl[i].leaves| && |page| == words
    requires Written(data', words, LeafTaken(fl[i], c), NextOf(fl, i))
    requires data' == data[fl[i].pg := page] && fl' == fl[i := LeafTaken(fl[i], c)] && free' == free - {fl[i].leaves[c]}
    ensures Sound(words, nPage, data', fl', free', first) && SameLive(data, free, data') && fl[i].leaves[c] in free
  {
    OnOnce(fl, free, i, fl[i].pg);
    ListsDistinct(fl, free);
    ChainedSet(data, words, fl, i, LeafTaken(fl[i], c), page, data');
    ListsLeafTaken(fl, free, i, c);
    PagesOkSet(words, nPage, data, fl[i].pg, page);
  }

  lemma SoundTrunkTaken(words: nat, nPage: nat, data: map<nat, Words>, fl: seq<Trunk>, free: set<nat>, first: nat,
                        i: nat, prev: nat, data': map<nat, Words>, fl': seq<Trunk>, free': set<nat>, first': nat)
    requires Sound(words, nPage, data, fl, free, first) && i < |fl| && fl[i].leaves == [] && IsPrev(fl, i, prev)
      && words >= 2
    requires Written(data, words, fl[i], NextOf(fl, i))
      && (prev > 0 ==> prev in free && prev in data && |data[prev]| > 0)
    requires data' == Relinked(data, prev, NextOf(fl, i)) && first' == if prev == 0 then NextOf(fl, i) else first
    requires fl' == Without(fl, i) && free' == free - {fl[i].pg}
    ensures Sound(words, nPage, data', fl', free', first') && SameLive(data, free, data') && fl[i].pg in free
  {
    ListsDistinct(fl, free);
    ChainedWithout(data, words, fl, i, prev);
    ListsWithout(fl, free, i);
    RelinkedLive(data, free, prev, NextOf(fl, i));
    PagesOkRelinked(words, nPage, data, prev, NextOf(fl, i));
  }

  function Elements(s: seq<nat>): (e: set<nat>)
    ensures forall x :: x in e <==> x in s
  {
    set x | x in s
  }

  /** A chain of live pages, each with the number of the next in its first word. */
  ghost predicate Overflow(data: map<nat, Words>, nPage: nat, free: set<nat>, first: nat, chain: seq<nat>) {
    && (chain != [] ==> first == chain[0])
    && (forall i | 0 <= i < |chain| :: 2 <= chain[i] <= nPage && chain[i] !in free)
    && (forall i, j | 0 <= i < j < |chain| :: chain[i] != chain[j])
    && (forall i | 0 <= i < |chain| - 1 :: LinkedAt(data, chain, i))
  }

  ghost predicate LinkedAt(data: map<nat, Words>, chain: seq<nat>, i: nat)
    requires i + 1 < |chain|
  {
    chain[i] in data && |data[chain[i]]| > 0 && data[chain[i]][0] == chain[i + 1]
  }

  /** The first i pages of a chain have been freed, and no other page in use has changed. */
  ghost predicate Clearing(data0: map<nat, Words>, free0: set<nat>, data: map<nat, Words>, free: set<nat>,
                           chain: seq<nat>, i: nat) {
    && i <= |chain| && free == free0 + Elements(chain[..i])
    && forall x | x > 0 && x in data0 && x !in chain[..i] && x !in free0 :: x in data && data[x] == data0[x]
  }

  /** Pages in use that are not on the chain are as before. */
  ghost predicate LiveKept(data0: map<nat, Words>, free0: set<nat>, data: map<nat, Words>, chain: seq<nat>,
                           nPage: nat) {
    forall x | 1 <= x <= nPage && x in data0 && x !in chain && x !in free0 :: x in data && data[x] == data0[x]
  }

  /** ovfl is page i of the chain, and the pages before it have been freed. */
  ghost predicate AtLink(data0: map<nat, Words>, free0: set<nat>, nPage: nat, first0: nat, chain: seq<nat>, i: nat,
                         ovfl: nat, data: map<nat, Words>, free: set<nat>) {
    && Overflow(data0, nPage, free0, first0, chain) && Clearing(data0, free0, data, free, chain, i)
    && (i < |chain| ==> ovfl == chain[i])
  }

  lemma ClearingBegun(data: map<nat, Words>, free: set<nat>, nPage: nat, first0: nat, chain: seq<nat>)
    requires Overflow(data, nPage, free, first0, chain)
    ensures AtLink(data, free, nPage, first0, chain, 0, first0, data, free)
  {
  }

  lemma ClearingDone(data0: map<nat, Words>, free0: set<nat>, nPage: nat, first0: nat, chain: seq<nat>, ovfl: nat,
                     data: map<nat, Words>, free: set<nat>)
    requires AtLink(data0, free0, nPage, first0, chain, |chain|, ovfl, data, free)
    ensures free == free0 + Elements(chain) && LiveKept(data0, free0, data, chain, nPage)
  {
    assert chain[..|chain|] == chain;
  }

  lemma ClearingStep(data0: map<nat, Words>, free0: set<nat>, data: map<nat, Words>, free: set<nat>, first: nat,
                     chain: seq<nat>, i: nat, data': map<nat, Words>, free': set<nat>)
    requires i < |chain| && Clearing(data0, free0, data, free, chain, i) && free' == free + {chain[i]}
    requires first != 0 ==> first in free
    requires forall x | x in data && x != chain[i] && x != first :: x in data' && data'[x] == data[x]
    ensures Clearing(data0, free0, data', free', chain, i + 1)
  {
    assert chain[..i + 1] == chain[..i] + [chain[i]];
  }

  /** The next page of a chain whose first i pages have been freed is not free. */
  lemma NotYetFreed(free0: set<nat>, free: set<nat>, chain: seq<nat>, i: nat)
    requires i < |chain| && free == free0 + Elements(chain[..i]) && chain[i] !in free0
    requires forall i, j | 0 <= i < j < |chain| :: chain[i] != chain[j]
    ensures chain[i] !in free && chain[i] !in chain[..i]
  {
  }

  /** The part of a BtShared that concerns page allocation.  `data` are the pages as words; first, count and nPage are
      the header fields at 32, 36 and 28 of page 1. */
  class PageStore {
    const usable: nat
    const autoVacuum: bool
    const geom: MapGeom
    var data: map<nat, Words>
    var nPage: nat
    var first: nat
    var count: nat
    ghost var fl: seq<Trunk>
    ghost var free: set<nat>

    /** A database without free pages. */
    constructor (usable: nat, autoVacuum: bool, pending: nat, nPage: nat, data: map<nat, Words>)
      requires usable >= 480 && pending >= 2 && 1 <= nPage < 0x1_0000_0000
      requires forall p | 1 <= p <= nPage :: p in data && |data[p]| == usable / 4
      ensures Valid() && free == {} && this.nPage == nPage && this.usable == usable && this.autoVacuum == autoVacuum
    {
      this.usable, this.autoVacuum, this.geom := usable, autoVacuum, MapGeom(usable / 5 + 1, pending);
      this.data, this.nPage, first, count, fl, free := data, nPage, 0, 0, [], {};
    }

    function Size(): (n: nat) {
      usable / 4
    }

    ghost predicate Shape()
      reads this
    {
      && usable >= 480 && geom.Valid() && geom.per == usable / 5 + 1 && 1 <= nPage < 0x1_0000_0000
      && Sound(Size(), nPage, data, fl, free, first)
    }

    /** The trunks and leaves in the file are the free pages; the header counts them. */
    ghost predicate Valid()
      reads this
    {
      Shape() && count == |free|
    }

    lemma TrunkInRange(i: nat)
      requires Shape() && i < |fl|
      ensures fl[i].pg in free && 2 <= fl[i].pg <= nPage && Written(data, Size(), fl[i], NextOf(fl, i))
      ensures forall j | 0 <= j < |fl[i].leaves| :: fl[i].leaves[j] in free
    {
      OnOnce(fl, free, i, fl[i].pg);
      forall j | 0 <= j < |fl[i].leaves| ensures fl[i].leaves[j] in free {
        OnLeaf(fl[i], j);
        OnOnce(fl, free, i, fl[i].leaves[j]);
      }
    }

    lemma PrevFree(i: nat, prev: nat)
      requires Shape() && i < |fl| && IsPrev(fl, i, prev)
      ensures prev > 0 ==> prev in free && prev in data && |data[prev]| > 0
    {
      if i > 0 {
        TrunkInRange(i - 1);
      }
    }

    /** Store the new pages and the new head of the list. */
    method Commit(data': map<nat, Words>, first': nat, ghost fl': seq<Trunk>, ghost free': set<nat>)
      requires Shape() && Sound(Size(), nPage, data', fl', free', first')
      modifies this`data, this`first, this`fl, this`free
      ensures Shape() && data == data' && first == first' && fl == fl' && free == free'
    {
      data, first, fl, free := data', first', fl', free';
    }

    /** freePage2: page p becomes a leaf of the first trunk, or the new first trunk. */
    method FreePage(p: nat) returns (rc: Rc)
      requires Valid() && 2 <= p <= nPage && p !in free
      modifies this`data, this`first, this`count, this`fl, this`free
      ensures Valid() && rc == Ok && free == old(free) + {p}
      ensures fl == if old(fl) != []
        && |old(fl)[0].leaves| < Size() - 8 then old(fl)[0 := Trunk(old(fl)[0].pg, old(fl)[0].leaves + [p])]
                    else [Trunk(p, [])] + old(fl)
      ensures forall x | x in old(data) && x != p && x != old(first) :: x in data && data[x] == old(data)[x]
    {
      var nFree := count;
      FirstTrunk();
      if nFree != 0 {
        var nLeaf := data[first][1];
        if nLeaf > Size() - 2 {
          return Corrupt;
        }
        if nLeaf < Size() - 8 {
          FreeAsLeaf(p, nLeaf);
          return Ok;
        }
      }
      FreeAsTrunk(p, if nFree != 0 then first else 0);
      return Ok;
    }

    method FreeAsLeaf(p: nat, nLeaf: nat)
      requires Valid() && 2 <= p <= nPage && p !in free && fl != [] && nLeaf == |fl[0].leaves| < Size() - 8
      requires first in data && |data[first]| == Size()
      modifies this`data, this`first, this`count, this`fl, this`free
      ensures Valid() && free == old(free) + {p}
      ensures fl == old(fl)[0 := Trunk(old(fl)[0].pg, old(fl)[0].leaves + [p])]
      ensures forall x | x in old(data) && x != old(first) :: x in data && data[x] == old(data)[x]
    {
      var page: Words := data[first][1 := nLeaf + 1][2 + nLeaf := p];
      count := count + 1;
      AddLeaf(p, page);
    }

    method FreeAsTrunk(p: nat, iTrunk: nat)
      requires Valid() && 2 <= p <= nPage && p !in free && iTrunk == Head(fl)
      modifies this`data, this`first, this`count, this`fl, this`free
      ensures Valid() && free == old(free) + {p} && fl == [Trunk(p, [])] + old(fl)
      ensures forall x | x in old(data) && x != p :: x in data && data[x] == old(data)[x]
    {
      var page: Words := data[p][0 := iTrunk][1 := 0];
      count := count + 1;
      AddTrunk(p, page);
    }

    /** The loop of clearCell: the n pages of an overflow chain go to the free list, each link being read before its
        page is given away. */
    method ClearChain(first0: nat, n: nat, ghost chain: seq<nat>) returns (rc: Rc)
      requires Valid() && |chain| == n && Overflow(data, nPage, free, first0, chain)
      modifies this`data, this`first, this`count, this`fl, this`free
      ensures Valid() && rc == Ok && free == old(free) + Elements(chain)
      ensures LiveKept(old(data), old(free), data, chain, nPage)
    {
      ghost var data0, free0 := data, free;
      ClearingBegun(data, free, nPage, first0, chain);
      var last;
      rc, last := ClearLoop(first0, n, chain, data0, free0);
      ClearingDone(data0, free0, nPage, first0, chain, last, data, free);
    }

    method ClearLoop(first0: nat, n: nat, ghost chain: seq<nat>, ghost data0: map<nat, Words>, ghost free0: set<nat>)
      returns (rc: Rc, ovfl: nat)
      requires Valid() && |chain| == n && AtLink(data0, free0, nPage, first0, chain, 0, first0, data, free)
      modifies this`data, this`first, this`count, this`fl, this`free
      ensures rc == Ok && Valid() && AtLink(data0, free0, nPage, first0, chain, n, ovfl, data, free)
    {
      rc, ovfl := Ok, first0;
      for i := 0 to n
        invariant rc == Ok && Valid() && AtLink(data0, free0, nPage, first0, chain, i, ovfl, data, free)
      {
        rc, ovfl := ClearOne(ovfl, i + 1 < n, chain, i, data0, free0, first0);
        if rc != Ok {
          return;
        }
      }
    }

    /** One round of that loop. */
    method ClearOne(ovfl: nat, more: bool, ghost chain: seq<nat>, ghost i: nat, ghost data0: map<nat, Words>,
                    ghost free0: set<nat>, ghost first0: nat)
      returns (rc: Rc, next: nat)
      requires Valid() && i < |chain| && AtLink(data0, free0, nPage, first0, chain, i, ovfl, data, free)
      requires more <==> i + 1 < |chain|
      modifies this`data, this`first, this`count, this`fl, this`free
      ensures rc == Ok && Valid() && AtLink(data0, free0, nPage, first0, chain, i + 1, next, data, free)
    {
      next := 0;
      if ovfl < 2 || ovfl > nPage {
        rc := Corrupt;
        return;
      }
      NotYetFreed(free0, free, chain, i);
      FirstIsFree();
      if more {
        assert LinkedAt(data0, chain, i);
        next := data[ovfl][0];
      }
      ghost var data1, free1, first1 := data, free, first;
      rc := FreePage(ovfl);
      ClearingStep(data0, free0, data1, free1, first1, chain, i, data, free);
    }

    lemma FirstIsFree()
      requires Shape()
      ensures first != 0 ==> first in free
    {
      if fl != [] {
        TrunkInRange(0);
      }
    }

    lemma NoneFree()
      requires Shape()
      ensures |free| == 0 <==> fl == []
    {
      if fl != [] {
        TrunkInRange(0);
      }
    }

    /** What the header says of the first trunk. */
    lemma FirstTrunk()
      requires Shape()
      ensures first == Head(fl) && (|free| == 0 <==> fl == [])
      ensures fl != [] ==> first in data && |data[first]| == Size() && data[first][1] == |fl[0].leaves| <= Size() - 2
    {
      NoneFree();
      if fl != [] {
        TrunkInRange(0);
      }
    }

    /** Write the enlarged first trunk. */
    method AddLeaf(p: nat, page: Words)
      requires Shape() && fl != [] && p !in free && 2 <= p <= nPage && first in data && |data[first]| == Size()
        && |fl[0].leaves| < Size() - 8
      requires page == data[first][1 := |fl[0].leaves| + 1][2 + |fl[0].leaves| := p]
      modifies this`data, this`first, this`fl, this`free
      ensures Shape() && free == old(free) + {p} && data == old(data)[old(first) := page]
      ensures fl == old(fl)[0 := Trunk(old(fl)[0].pg, old(fl)[0].leaves + [p])]
    {
      TrunkInRange(0);
      ghost var t := Trunk(fl[0].pg, fl[0].leaves + [p]);
      var data' := data[first := page];
      ghost var fl', free' := fl[0 := t], free + {p};
      SoundLeafAdded(Size(), nPage, data, fl, free, first, p, t, page, data', fl', free');
      Commit(data', first, fl', free');
    }

    method AddTrunk(p: nat, page: Words)
      requires Shape() && p !in free && 2 <= p <= nPage && |page| == Size() && page[0] == Head(fl) && page[1] == 0
      modifies this`data, this`first, this`fl, this`free
      ensures Shape() && free == old(free) + {p} && data == old(data)[p := page] && fl == [Trunk(p, [])] + old(fl)
    {
      var data' := data[p := page];
      ghost var fl', free' := [Trunk(p, [])] + fl, free + {p};
      SoundTrunkAdded(Size(), nPage, data, fl, free, first, p, page, data', fl', free');
      Commit(data', p, fl', free');
    }

    /** Leaf c of trunk i leaves the list. */
    method TakeLeaf(ghost i: nat, iTrunk: nat, c: nat) returns (pg: nat)
      requires Shape() && i < |fl| && iTrunk == fl[i].pg && c < |fl[i].leaves|
      modifies this`data, this`first, this`fl, this`free
      ensures Shape() && pg in old(free) && free == old(free) - {pg} && pg == old(fl)[i].leaves[c]
      ensures SameLive(old(data), old(free), data)
    {
      TrunkInRange(i);
      var old' := data[iTrunk];
      var k := old'[1];
      pg := Leaf(old', c);
      var page: Words := old'[2 + c := Leaf(old', k - 1)][1 := k - 1];
      var data' := data[iTrunk := page];
      ghost var fl' := fl[i := LeafTaken(fl[i], c)];
      ghost var free' := free - {pg};
      WrittenLeafTaken(data, Size(), fl[i], NextOf(fl, i), c, old', page, k);
      SoundLeafTaken(Size(), nPage, data, fl, free, first, i, c, page, data', fl', free');
      Commit(data', first, fl', free');
    }

    /** A trunk without leaves leaves the list. */
    method TakeTrunk(ghost i: nat, prev: nat, iTrunk: nat)
      requires Shape() && i < |fl| && iTrunk == fl[i].pg && fl[i].leaves == [] && IsPrev(fl, i, prev)
      modifies this`data, this`first, this`fl, this`free
      ensures Shape() && iTrunk in old(free) && free == old(free) - {iTrunk}
      ensures SameLive(old(data), old(free), data)
    {
      TrunkInRange(i);
      PrevFree(i, prev);
      var next := data[iTrunk][0];
      var data', first' := Relinked(data, prev, next), if prev == 0 then next else first;
      ghost var fl', free' := Without(fl, i), free - {iTrunk};
      SoundTrunkTaken(Size(), nPage, data, fl, free, first, i, prev, data', fl', free', first');
      Commit(data', first', fl', free');
    }

    /** A trunk with leaves leaves the list; its first leaf takes its place. */
    method PromoteLeaf(ghost i: nat, prev: nat, iTrunk: nat) returns (rc: Rc)
      requires Shape() && i < |fl| && iTrunk == fl[i].pg && fl[i].leaves != [] && IsPrev(fl, i, prev)
      modifies this`data, this`first, this`fl, this`free
      ensures Shape() && rc == Ok && iTrunk in old(free) && free == old(free) - {iTrunk}
      ensures fl == old(fl)[i := Promoted(old(fl)[i])]
      ensures SameLive(old(data), old(free), data)
    {
      TrunkInRange(i);
      var k := data[iTrunk][1];
      var iNew := Leaf(data[iTrunk], 0);
      assert iNew == fl[i].leaves[0];
      if iNew > nPage {
        return Corrupt;
      }
      var page := PromotedPage(data[iTrunk], k, data[iNew]);
      PrevFree(i, prev);
      var data': map<nat, Words> := data[iNew := page];
      var data'' := Relinked(data', prev, iNew);
      var first' := if prev == 0 then iNew else first;
      ghost var fl', free' := fl[i := Promoted(fl[i])], free - {iTrunk};
      SoundPromoted(Size(), nPage, data, fl, free, first, i, prev, page, data'', fl', free', first');
      Commit(data'', first', fl', free');
      return Ok;
    }

    /** Exactly page pg has left the free pages free0, the one searched for in a search; live pages are as before. */
    ghost predicate Took(data0: map<nat, Words>, free0: set<nat>, pg: nat, nearby: nat, search: bool)
      reads this
    {
      Shape() && pg in free0 && free == free0 - {pg} && (search ==> pg == nearby) && SameLive(data0, free0, data)
    }

    /** What an allocation takes that does not search: the first trunk when it lists no leaves, else the first leaf, or
        the one closest to `nearby` when that is given. */
    ghost predicate Chosen(t: Trunk, nearby: nat, pg: nat) {
      if t.leaves == [] then pg == t.pg
      else exists c | 0 <= c < |t.leaves| ::
        && pg == t.leaves[c]
        && if nearby == 0 then c == 0
           else forall j | 0 <= j < |t.leaves| :: Distance(pg, nearby) <= Distance(t.leaves[j], nearby)
    }

    /** What happens at one trunk: the page taken, or 0 when the search goes on. */
    method VisitTrunk(ghost i: nat, prev: nat, iTrunk: nat, nearby: nat, search: bool) returns (rc: Rc, pg: nat)
      requires Shape() && i < |fl| && iTrunk == fl[i].pg && IsPrev(fl, i, prev) && nearby < 0x1_0000_0000
      requires !search ==> i == 0
      requires search ==> nearby > 0
      modifies this`data, this`first, this`fl, this`free
      ensures rc == Ok && (pg != 0 ==> Took(old(data), old(free), pg, nearby, search))
      ensures !search ==> Chosen(old(fl)[i], nearby, pg)
      ensures pg == 0 ==>
        Shape() && search && data == old(data) && first == old(first) && fl == old(fl) && free == old(free)
        && On(fl[i], nearby) == 0
    {
      TrunkInRange(i);
      var k := data[iTrunk][1];
      if k == 0 && !search {
        TakeTrunk(i, prev, iTrunk);
        return Ok, iTrunk;
      } else if k > Size() - 2 {
        rc := Corrupt;
        return;
      } else if search && nearby == iTrunk {
        if k == 0 {
          TakeTrunk(i, prev, iTrunk);
          return Ok, iTrunk;
        }
        rc := PromoteLeaf(i, prev, iTrunk);
        return rc, iTrunk;
      } else if k > 0 {
        rc, pg := VisitLeaves(i, iTrunk, k, nearby, search);
        return;
      }
      return Ok, 0;
    }

    lemma ChosenLeaf(t: Trunk, page: Words, c: nat, nearby: nat)
      requires c < |t.leaves| && |t.leaves| + 2 <= |page|
      requires forall j | 0 <= j < |t.leaves| :: Leaf(page, j) == t.leaves[j]
      requires if nearby == 0 then c == 0
               else forall j | 0 <= j < |t.leaves| :: Distance(Leaf(page, c), nearby) <= Distance(Leaf(page, j), nearby)
      ensures Chosen(t, nearby, t.leaves[c])
    {
      forall j | 0 <= j < |t.leaves| && nearby != 0
        ensures Distance(t.leaves[c], nearby) <= Distance(t.leaves[j], nearby) {
        assert Leaf(page, j) == t.leaves[j];
      }
    }

    /** A leaf of this trunk is taken, unless a search is on and the page searched for is not among them. */
    method VisitLeaves(ghost i: nat, iTrunk: nat, k: nat, nearby: nat, search: bool) returns (rc: Rc, pg: nat)
      requires Shape() && i < |fl| && iTrunk == fl[i].pg && k == |fl[i].leaves| > 0 && nearby < 0x1_0000_0000
      requires search ==> nearby > 0 && nearby != iTrunk
      modifies this`data, this`first, this`fl, this`free
      ensures rc == Ok && (pg != 0 ==> Took(old(data), old(free), pg, nearby, search))
      ensures !search ==> Chosen(old(fl)[i], nearby, pg)
      ensures pg == 0 ==>
        Shape() && search && data == old(data) && first == old(first) && fl == old(fl) && free == old(free)
        && On(fl[i], nearby) == 0
    {
      TrunkInRange(i);
      var c := Closest(data[iTrunk], k, nearby);
      var iPage := Leaf(data[iTrunk], c);
      assert iPage == fl[i].leaves[c] && iPage in free;
      if iPage > nPage {
        rc := Corrupt;
        return;
      }
      ChosenLeaf(fl[i], data[iTrunk], c, nearby);
      if !search || iPage == nearby {
        pg := TakeLeaf(i, iTrunk, c);
        return Ok, pg;
      }
      NotAmong(data[iTrunk], fl[i], c, nearby, nPage);
      return Ok, 0;
    }

    /** The search has reached trunk i without meeting the page searched for. */
    ghost predicate Reached(i: nat, prev: nat, iTrunk: nat, nearby: nat, search: bool)
      reads this
    {
      && Shape() && i < |fl| && iTrunk == fl[i].pg && IsPrev(fl, i, prev)
      && (if search then nearby in free && NotBefore(fl, i, nearby) else i == 0)
    }

    /** A page on the list that is on none of the first i+1 trunks is on a later one. */
    lemma NextTrunk(i: nat, prev: nat, iTrunk: nat, nearby: nat)
      requires Reached(i, prev, iTrunk, nearby, true) && On(fl[i], nearby) == 0
      ensures iTrunk in data && |data[iTrunk]| > 0 && Reached(i + 1, iTrunk, data[iTrunk][0], nearby, true)
    {
      TrunkInRange(i);
      assert Occurs(fl, |fl|, nearby) == 1;
    }

    /** The loop of allocateBtreePage through the trunks. */
    method SearchTrunks(nearby: nat, search: bool) returns (rc: Rc, pg: nat)
      requires Shape() && fl != [] && nearby < 0x1_0000_0000 && (search ==> nearby in free)
      modifies this`data, this`first, this`fl, this`free
      ensures rc == Ok && Took(old(data), old(free), pg, nearby, search)
      ensures !search ==> Chosen(old(fl)[0], nearby, pg)
    {
      var prev: nat, iTrunk: nat := 0, first;
      ghost var i := 0;
      rc, pg := Ok, 0;
      while pg == 0
        invariant rc == Ok
        invariant pg == 0 ==> Reached(i, prev, iTrunk, nearby, search) && data == old(data) && free == old(free)
        invariant pg == 0 ==> fl == old(fl)
        invariant pg != 0 && !search ==> Chosen(old(fl)[0], nearby, pg)
        invariant pg != 0 ==> Took(old(data), old(free), pg, nearby, search)
        decreases pg == 0, |fl| - i
      {
        TrunkInRange(i);
        if iTrunk > nPage {
          rc := Corrupt;
          return;
        }
        rc, pg := VisitTrunk(i, prev, iTrunk, nearby, search);
        if pg == 0 {
          NextTrunk(i, prev, iTrunk, nearby);
          prev, iTrunk := iTrunk, data[iTrunk][0];
          i := i + 1;
        }
      }
    }

    /** allocateBtreePage when there are free pages. */
    method TakeFree(nearby: nat, search: bool) returns (rc: Rc, pg: nat)
      requires Valid() && count > 0 && nearby < 0x1_0000_0000 && (search ==> nearby in free)
      modifies this`data, this`first, this`count, this`fl, this`free
      ensures Valid() && rc == Ok && pg in old(free) && free == old(free) - {pg} && (search ==> pg == nearby)
      ensures SameLive(old(data), old(free), data)
      ensures old(fl) != [] && (!search ==> Chosen(old(fl)[0], nearby, pg))
    {
      NoneFree();
      count := count - 1;
      rc, pg := SearchTrunks(nearby, search);
    }

    /** allocateBtreePage.  isFree is what the pointer map says about `nearby` in an exact search. */
    method Allocate(nearby: nat, exact: bool, isFree: bool) returns (rc: Rc, pg: nat)
      requires Valid() && nearby < 0x1_0000_0000 && nPage + 4 < 0x1_0000_0000
      requires exact ==> nearby > 0 && (nearby <= nPage ==> (isFree <==> nearby in free))
      modifies this
      ensures Valid() && rc == Ok
      ensures old(free) != {} ==> pg in old(free) && free == old(free) - {pg} && nPage == old(nPage)
      ensures exact && nearby in old(free) ==> pg == nearby
      ensures old(free) != {} && !(exact && nearby in old(free)) ==> old(fl) != [] && Chosen(old(fl)[0], nearby, pg)
      ensures old(free) == {} ==>
        free == {} && pg == nPage > old(nPage) && pg != geom.pending && (autoVacuum ==> !geom.IsMap(pg))
      ensures old(free) == {} ==> forall p | old(nPage) < p < pg :: Skipped(geom, autoVacuum, p)
      ensures forall p | 1 <= p <= old(nPage) && p !in old(free) :: p in data && data[p] == old(data)[p]
    {
      FewerThan(free, nPage);
      if count >= nPage {
        rc := Corrupt;
        return;
      }
      if count > 0 {
        var search := exact && nearby <= nPage && isFree;
        rc, pg := TakeFree(nearby, search);
      } else {
        assert free == {};
        pg := Extend();
        rc := Ok;
      }
    }

    /** A new page at the end of the file. */
    method Extend() returns (pg: nat)
      requires Valid() && free == {} && nPage + 4 < 0x1_0000_0000
      modifies this`nPage, this`data
      ensures Valid() && pg == nPage > old(nPage) && pg != geom.pending && (autoVacuum ==> !geom.IsMap(pg))
      ensures forall p | old(nPage) < p < pg :: Skipped(geom, autoVacuum, p)
      ensures forall p | 1 <= p <= old(nPage) :: p in data && data[p] == old(data)[p]
    {
      NoneFree();
      var n := NextPage(geom, autoVacuum, nPage);
      data := Blank(data, nPage + 1, n, Size());
      nPage := n;
      pg := n;
    }
  }

  /** A page that allocation passes over. */
  ghost predicate Skipped(geom: MapGeom, autoVacuum: bool, p: nat)
    requires geom.Valid()
  {
    p == geom.pending || (autoVacuum && geom.IsMap(p))
  }

  /** The next page number that can hold data. */
  method NextPage(geom: MapGeom, autoVacuum: bool, nPage: nat) returns (n: nat)
    requires geom.Valid() && geom.per >= 4 && nPage >= 1
    ensures nPage < n <= nPage + 4 && n != geom.pending && (autoVacuum ==> !geom.IsMap(n))
    ensures forall p | nPage < p < n :: Skipped(geom, autoVacuum, p)
  {
    n := nPage + 1;
    if n == geom.pending {
      n := n + 1;
    }
    if autoVacuum && geom.IsMap(n) {
      BehindMap(geom, n);
      n := n + 1;
      if n == geom.pending {
        n := n + 1;
      }
    }
  }

  /** Pages from..to are there, with the right number of words. */
  method Blank(data: map<nat, Words>, from: nat, to: nat, words: nat) returns (r: map<nat, Words>)
    requires from <= to + 1
    ensures forall x | x in data && x < from :: x in r && r[x] == data[x]
    ensures forall x | from <= x <= to :: x in r && |r[x]| == words
  {
    r := data;
    var blank: Words := seq(words, _ => 0);
    for p := from to to + 1
      invariant forall x | x in data && x < from :: x in r && r[x] == data[x]
      invariant forall x | from <= x < p :: x in r && |r[x]| == words
    {
      r := r[p := blank];
    }
  }

  /** When the closest leaf is not the page searched for, that page is not on the trunk. */
  lemma NotAmong(page: Words, t: Trunk, c: nat, nearby: nat, nPage: nat)
    requires 2 + |t.leaves| <= |page| && c < |t.leaves| && t.pg != nearby && t.leaves[c] != nearby
    requires 0 < nearby < 0x1_0000_0000 && nPage < 0x1_0000_0000
    requires forall j | 0 <= j < |t.leaves| :: Leaf(page, j) == t.leaves[j] <= nPage
    requires forall j | 0 <= j < |t.leaves| :: Distance(Leaf(page, c), nearby) <= Distance(Leaf(page, j), nearby)
    ensures On(t, nearby) == 0
  {
    forall j | 0 <= j < |t.leaves| ensures t.leaves[j] != nearby {
      DistanceZero(Leaf(page, j), nearby);
      DistanceZero(Leaf(page, c), nearby);
    }
  }

  lemma NewTrunkApart(fl: seq<Trunk>, free: set<nat>, i: nat)
    requires Lists(fl, free) && i < |fl| && fl[i].leaves != []
    ensures forall j | 0 <= j < |fl| :: fl[j].pg != fl[i].leaves[0]
  {
    var x := fl[i].leaves[0];
    OnLeaf(fl[i], 0);
    OnOnce(fl, free, i, x);
    forall j | 0 <= j < |fl| ensures fl[j].pg != x {
      if j != i {
        TrunksApart(fl, free, i, j, x);
      }
    }
  }

  /** List, pages and free pages after the first leaf of trunk i has taken its place. */
  lemma SoundPromoted(words: nat, nPage: nat, data: map<nat, Words>, fl: seq<Trunk>, free: set<nat>, first: nat,
                      i: nat, prev: nat, page: Words, data': map<nat, Words>, fl': seq<Trunk>, free': set<nat>,
                      first': nat)
    requires Sound(words, nPage, data, fl, free, first) && i < |fl| && fl[i].leaves != [] && IsPrev(fl, i, prev)
      && words >= 2
    requires prev > 0 ==> prev in free && prev in data && |data[prev]| > 0
    requires Written(data, words, fl[i], NextOf(fl, i)) && fl[i].leaves[0] in free && |page| == words
    requires page[0] == data[fl[i].pg][0] && page[1] == |fl[i].leaves| - 1
    requires forall j | 0 <= j < |fl[i].leaves| - 1 :: Leaf(page, j) == Leaf(data[fl[i].pg], j + 1)
    requires var x := fl[i].leaves[0];
      data' == Relinked(data[x := page], prev, x) && first' == if prev == 0 then x else first
    requires fl' == fl[i := Promoted(fl[i])] && free' == free - {fl[i].pg}
    ensures Sound(words, nPage, data', fl', free', first') && SameLive(data, free, data') && fl[i].pg in free
  {
    var x := fl[i].leaves[0];
    WrittenPromoted(data, words, fl[i], NextOf(fl, i), page);
    NewTrunkApart(fl, free, i);
    ListsDistinct(fl, free);
    ChainedReplace(data, words, fl, i, prev, Promoted(fl[i]), page);
    ListsPromoted(fl, free, i);
    PagesOkSet(words, nPage, data, x, page);
    PagesOkRelinked(words, nPage, data[x := page], prev, x);
  }

  /** The copies made when a leaf becomes a trunk. */
  method PromotedPage(trunk: Words, k: nat, leafPage: Words) returns (page: Words)
    requires 1 <= k && 2 + k <= |trunk| == |leafPage|
    ensures |page| == |trunk| && page[0] == trunk[0] && page[1] == k - 1
    ensures forall j | 0 <= j < k - 1 :: Leaf(page, j) == Leaf(trunk, j + 1)
  {
    page := leafPage[0 := trunk[0]][1 := k - 1];
    for j := 0 to k - 1
      invariant |page| == |trunk| && page[0] == trunk[0] && page[1] == k - 1
      invariant forall m | 0 <= m < j :: Leaf(page, m) == Leaf(trunk, m + 1)
    {
      var page' := page[2 + j := trunk[3 + j]];
      forall m | 0 <= m < j + 1 ensures Leaf(page', m) == Leaf(trunk, m + 1) {
        assert m < j ==> Leaf(page, m) == Leaf(trunk, m + 1);
      }
      page := page';
    }
  }
}
