/** B-trees as seen by a cursor: pages with keys in order. */
module BtreeOrder {

  /** A page: keys of a leaf, or the keys and children of an interior page.  Keys stand for rowids or index records. */
  datatype Tree = Leaf(keys: seq<int>) | Inner(seps: seq<int>, kids: seq<Tree>)

  /** The entry that an interior cell adds: none in a table, where only leaves hold entries. */
  ghost function Entry(intKey: bool, k: int): (s: seq<int>) {
    if intKey then [] else [k]
  }

  /** The entries of a tree in order. */
  ghost function InOrder(intKey: bool, t: Tree): (s: seq<int>)
    decreases t, 1, 0
  {
    match t
    case Leaf(keys) => keys
    case Inner(seps, kids) => if |kids| == 0 then [] else FromKid(intKey, t, 0)
  }

  /** The entries from child j of an interior page on. */
  ghost function FromKid(intKey: bool, t: Tree, j: nat): (s: seq<int>)
    requires t.Inner? && j < |t.kids|
    decreases t, 0, 2 * (|t.kids| - j)
  {
    InOrder(intKey, t.kids[j]) + After(intKey, t, j)
  }

  /** The entries of a page behind child j, or of a leaf from index j on. */
  ghost function After(intKey: bool, t: Tree, j: nat): (s: seq<int>)
    decreases t, 0, if t.Inner? && j < |t.kids| then 2 * (|t.kids| - j) - 1 else 0
  {
    match t
    case Leaf(keys) => if j <= |keys| then keys[j..] else []
    case Inner(seps, kids) =>
      if j + 1 < |kids| && j < |seps| then Entry(intKey, seps[j]) + FromKid(intKey, t, j + 1) else []
  }

  /** The entries of a page before child j, or of a leaf before index j. */
  ghost function Before(intKey: bool, t: Tree, j: nat): (s: seq<int>)
    decreases j
  {
    match t
    case Leaf(keys) => if j <= |keys| then keys[..j] else keys
    case Inner(seps, kids) =>
      if j == 0 || j > |kids| || j > |seps| then []
      else Before(intKey, t, j - 1) + InOrder(intKey, kids[j - 1]) + Entry(intKey, seps[j - 1])
  }

  ghost predicate Ascending(s: seq<int>) {
    forall i, j | 0 <= i < j < |s| :: s[i] < s[j]
  }

  ghost predicate Below(s: seq<int>, k: int) {
    forall x | x in s :: x < k
  }

  ghost predicate AtMost(s: seq<int>, k: int) {
    forall x | x in s :: x <= k
  }

  ghost predicate Above(s: seq<int>, k: int) {
    forall x | x in s :: x > k
  }

  /** Pages are not empty; a table keeps in its interior cells upper bounds of the child to the left. */
  ghost predicate WF(intKey: bool, t: Tree)
    decreases t
  {
    match t
    case Leaf(keys) => keys != [] && Ascending(keys)
    case Inner(seps, kids) =>
      && |seps| >= 1 && |kids| == |seps| + 1 && Ascending(seps)
      && (forall j | 0 <= j < |kids| :: WF(intKey, kids[j]))
      && (forall j | 0 <= j < |seps| :: Bounded(intKey, t, j))
  }

  ghost predicate Bounded(intKey: bool, t: Tree, j: nat)
    requires t.Inner? && j < |t.seps| && |t.kids| == |t.seps| + 1
  {
    && (if intKey then AtMost(InOrder(intKey, t.kids[j]), t.seps[j]) else Below(InOrder(intKey, t.kids[j]), t.seps[j]))
    && Above(InOrder(intKey, t.kids[j + 1]), t.seps[j])
  }

  /** The root may be an empty leaf, or an interior page without cells above the only child. */
  ghost predicate WFRoot(intKey: bool, t: Tree) {
    WF(intKey, t) || t == Leaf([]) || (t.Inner? && t.seps == [] && |t.kids| == 1 && WF(intKey, t.kids[0]))
  }

  /** A page is what comes before a child, the child, and what comes after. */
  lemma {:induction false} SplitAt(intKey: bool, t: Tree, j: nat)
    requires t.Inner? && |t.kids| == |t.seps| + 1 && j < |t.kids|
    ensures InOrder(intKey, t) == Before(intKey, t, j) + (InOrder(intKey, t.kids[j]) + After(intKey, t, j))
  {
    if j == 0 {
      assert FromKid(intKey, t, 0) == InOrder(intKey, t.kids[0]) + After(intKey, t, 0);
    } else {
      SplitAt(intKey, t, j - 1);
      Regroup(Before(intKey, t, j - 1), InOrder(intKey, t.kids[j - 1]), Entry(intKey, t.seps[j - 1]),
        FromKid(intKey, t, j));
      assert FromKid(intKey, t, j) == InOrder(intKey, t.kids[j]) + After(intKey, t, j);
    }
  }

  lemma Regroup(a: seq<int>, b: seq<int>, c: seq<int>, d: seq<int>)
    ensures a + (b + (c + d)) == (a + b + c) + d
  {
  }

  lemma {:induction false} NonEmpty(intKey: bool, t: Tree)
    requires WF(intKey, t)
    ensures InOrder(intKey, t) != []
    decreases t
  {
    if t.Inner? {
      NonEmpty(intKey, t.kids[0]);
      assert FromKid(intKey, t, 0) == InOrder(intKey, t.kids[0]) + After(intKey, t, 0);
    }
  }

  /** Everything in children before cell j is bounded by its key, everything behind is above it. */
  lemma {:induction false} BeforeBound(intKey: bool, t: Tree, j: nat)
    requires WF(intKey, t) && t.Inner? && 1 <= j <= |t.seps|
    ensures AtMost(Before(intKey, t, j), t.seps[j - 1])
  {
    assert Bounded(intKey, t, j - 1);
    if j > 1 {
      BeforeBound(intKey, t, j - 1);
      assert t.seps[j - 2] < t.seps[j - 1];
    }
  }

  lemma {:induction false} AfterBound(intKey: bool, t: Tree, j: nat)
    requires WF(intKey, t) && t.Inner? && j < |t.seps|
    ensures Above(FromKid(intKey, t, j + 1), t.seps[j])
    ensures intKey ==> Above(After(intKey, t, j), t.seps[j])
    decreases |t.seps| - j
  {
    assert Bounded(intKey, t, j);
    if j + 1 < |t.seps| {
      AfterBound(intKey, t, j + 1);
      assert t.seps[j] < t.seps[j + 1];
      assert After(intKey, t, j + 1) == Entry(intKey, t.seps[j + 1]) + FromKid(intKey, t, j + 2);
    } else {
      assert After(intKey, t, j + 1) == [];
    }
    assert FromKid(intKey, t, j + 1) == InOrder(intKey, t.kids[j + 1]) + After(intKey, t, j + 1);
  }

  lemma JoinAscending(a: seq<int>, b: seq<int>)
    requires Ascending(a) && Ascending(b) && forall x, y | x in a && y in b :: x < y
    ensures Ascending(a + b)
  {
    forall i, j | 0 <= i < j < |a + b| ensures (a + b)[i] < (a + b)[j] {
      if i < |a| && j >= |a| {
        assert a[i] in a && b[j - |a|] in b;
      }
    }
  }

  /** The entries of a well-formed tree are in strictly ascending order. */
  lemma {:induction false} Sorted(intKey: bool, t: Tree)
    requires WF(intKey, t)
    ensures Ascending(InOrder(intKey, t))
    decreases t, 1, 0
  {
    if t.Inner? {
      SortedFrom(intKey, t, 0);
    }
  }

  lemma {:induction false} SortedFrom(intKey: bool, t: Tree, j: nat)
    requires WF(intKey, t) && t.Inner? && j < |t.kids|
    ensures Ascending(FromKid(intKey, t, j))
    decreases t, 0, |t.kids| - j
  {
    Sorted(intKey, t.kids[j]);
    if j < |t.seps| {
      SortedFrom(intKey, t, j + 1);
      AfterBound(intKey, t, j);
      assert Bounded(intKey, t, j);
      JoinAscending(Entry(intKey, t.seps[j]), FromKid(intKey, t, j + 1));
      assert After(intKey, t, j) == Entry(intKey, t.seps[j]) + FromKid(intKey, t, j + 1);
      JoinAscending(InOrder(intKey, t.kids[j]), After(intKey, t, j));
    }
  }

  lemma RootSorted(intKey: bool, t: Tree)
    requires WFRoot(intKey, t)
    ensures Ascending(InOrder(intKey, t))
  {
    if WF(intKey, t) {
      Sorted(intKey, t);
    } else if t.Inner? {
      Sorted(intKey, t.kids[0]);
      assert FromKid(intKey, t, 0) == InOrder(intKey, t.kids[0]) + After(intKey, t, 0);
    }
  }
}

/** A cursor as the stack of pages from the root down and the index on each. */
module CursorStack {
  import opened BtreeOrder

  /** Each page is the child of the page above that the index selects. */
  ghost predicate Linked(pages: seq<Tree>, idx: seq<nat>) {
    && |pages| == |idx| >= 1
    && forall d | 0 <= d < |pages| - 1 :: Child(pages, idx, d)
  }

  ghost predicate Child(pages: seq<Tree>, idx: seq<nat>, d: nat)
    requires d + 1 < |pages| && d < |idx|
  {
    && pages[d].Inner? && |pages[d].kids| == |pages[d].seps| + 1 && idx[d] < |pages[d].kids|
    && pages[d + 1] == pages[d].kids[idx[d]]
  }

  /** Child i is the one in which the separators of t place the key k. */
  ghost predicate Selects(intKey: bool, t: Tree, i: nat, k: int) {
    && t.Inner? && i <= |t.seps| && (i > 0 ==> t.seps[i - 1] < k)
    && (i < |t.seps| ==> t.seps[i] >= k && (!intKey ==> t.seps[i] > k))
  }

  /** On the way down the separators select k on every page above the deepest. */
  ghost predicate Enclosed(intKey: bool, pages: seq<Tree>, idx: seq<nat>, k: int) {
    |pages| == |idx| && forall d | 0 <= d < |pages| - 1 :: Selects(intKey, pages[d], idx[d], k)
  }

  /** Entries before the page at depth d. */
  ghost function Pre(intKey: bool, pages: seq<Tree>, idx: seq<nat>, d: nat): (s: seq<int>)
    requires d <= |pages| == |idx|
  {
    PreRec(intKey, pages, idx, d)
  }

  ghost function PreRec(intKey: bool, pages: seq<Tree>, idx: seq<nat>, d: nat): (s: seq<int>)
    requires d <= |pages| == |idx|
  {
    if d == 0 then [] else PreRec(intKey, pages, idx, d - 1) + Before(intKey, pages[d - 1], idx[d - 1])
  }

  /** Entries behind the positions of the first d pages, the deepest first. */
  ghost function Post(intKey: bool, pages: seq<Tree>, idx: seq<nat>, d: nat): (s: seq<int>)
    requires d <= |pages| == |idx|
  {
    PostRec(intKey, pages, idx, d)
  }

  ghost function PostRec(intKey: bool, pages: seq<Tree>, idx: seq<nat>, d: nat): (s: seq<int>)
    requires d <= |pages| == |idx|
  {
    if d == 0 then [] else After(intKey, pages[d - 1], idx[d - 1]) + PostRec(intKey, pages, idx, d - 1)
  }

  /** The whole tree is what lies before a page of the stack, the page, and what lies behind it. */
  lemma {:induction false} Around(intKey: bool, pages: seq<Tree>, idx: seq<nat>, d: nat)
    requires Linked(pages, idx) && d < |pages|
    ensures InOrder(intKey, pages[0]) == Pre(intKey, pages, idx, d)
      + (InOrder(intKey, pages[d]) + Post(intKey, pages, idx, d))
  {
    if d > 0 {
      Around(intKey, pages, idx, d - 1);
      assert Child(pages, idx, d - 1);
      SplitAt(intKey, pages[d - 1], idx[d - 1]);
      Nest(Pre(intKey, pages, idx, d - 1), Before(intKey, pages[d - 1], idx[d - 1]), InOrder(intKey, pages[d]),
           After(intKey, pages[d - 1], idx[d - 1]), Post(intKey, pages, idx, d - 1));
    }
  }

  lemma Nest(a: seq<int>, b: seq<int>, c: seq<int>, d: seq<int>, e: seq<int>)
    ensures a + ((b + (c + d)) + e) == (a + b) + (c + (d + e))
  {
  }

  /** Only the frames below d matter. */
  lemma {:induction false} PrePostSame(intKey: bool, pages: seq<Tree>, idx: seq<nat>, pages': seq<Tree>,
                                       idx': seq<nat>, d: nat)
    requires d <= |pages| == |idx| && d <= |pages'| == |idx'|
    requires forall i | 0 <= i < d :: pages[i] == pages'[i] && idx[i] == idx'[i]
    ensures Pre(intKey, pages', idx', d) == Pre(intKey, pages, idx, d)
      && Post(intKey, pages', idx', d) == Post(intKey, pages, idx, d)
  {
    if d > 0 {
      PrePostSame(intKey, pages, idx, pages', idx', d - 1);
    }
  }

  /** Every page of a stack that starts at a well-formed root is well formed. */
  lemma {:induction false} PagesWF(intKey: bool, pages: seq<Tree>, idx: seq<nat>, d: nat)
    requires Linked(pages, idx) && WFRoot(intKey, pages[0]) && d < |pages|
    ensures d > 0 ==> WF(intKey, pages[d])
  {
    if d > 0 {
      PagesWF(intKey, pages, idx, d - 1);
      assert Child(pages, idx, d - 1);
    }
  }

  /** The entries from the position (page, j) on: from index j of a leaf, or from child j. */
  ghost function FromHere(intKey: bool, t: Tree, j: nat): (s: seq<int>)
    requires t.Inner? ==> j < |t.kids|
  {
    if t.Leaf? then After(intKey, t, j) else FromKid(intKey, t, j)
  }

  /** Going down to child j. */
  lemma Descend(intKey: bool, pages: seq<Tree>, idx: seq<nat>, kid: Tree)
    requires Linked(pages, idx) && pages[|pages| - 1].Inner? && |pages[|pages| - 1].kids| == |pages[|pages| - 1].seps|
      + 1
    requires idx[|pages| - 1] < |pages[|pages| - 1].kids| && kid == pages[|pages| - 1].kids[idx[|pages| - 1]]
    ensures var n := |pages|; var pages', idx' := pages + [kid], idx + [0];
      && Linked(pages', idx')
      && Pre(intKey, pages', idx', n) == Pre(intKey, pages, idx, n)
      && Post(intKey, pages', idx', n) == Post(intKey, pages, idx, n)
      && FromKid(intKey, pages[n - 1], idx[n - 1]) + Post(intKey, pages, idx, n - 1) == InOrder(intKey, kid)
        + Post(intKey, pages', idx', n)
  {
    var n := |pages|;
    var pages', idx' := pages + [kid], idx + [0];
    forall d | 0 <= d < n ensures Child(pages', idx', d) {
      assert d < n - 1 ==> Child(pages, idx, d);
    }
    PrePostSame(intKey, pages, idx, pages', idx', n);
    var t, j := pages[n - 1], idx[n - 1];
    assert Post(intKey, pages, idx, n) == After(intKey, t, j) + Post(intKey, pages, idx, n - 1);
    assert FromKid(intKey, t, j) == InOrder(intKey, kid) + After(intKey, t, j);
    Assoc(InOrder(intKey, kid), After(intKey, t, j), Post(intKey, pages, idx, n - 1));
  }

  lemma Assoc(a: seq<int>, b: seq<int>, c: seq<int>)
    ensures (a + b) + c == a + (b + c)
  {
  }

  lemma InOrderHere(intKey: bool, t: Tree)
    requires WF(intKey, t)
    ensures InOrder(intKey, t) == FromHere(intKey, t, 0)
  {
  }
}

module Cursor {
  import opened BtreeOrder
  import opened CursorStack

  datatype State = Invalid | AtEntry | RequireSeek

  ghost predicate StackOf(intKey: bool, root: Tree, pages: seq<Tree>, idx: seq<nat>) {
    Linked(pages, idx) && pages[0] == root && WFRoot(intKey, root)
  }

  /** The deepest page has an entry at its index. */
  ghost predicate EntryAt(intKey: bool, root: Tree, pages: seq<Tree>, idx: seq<nat>) {
    && StackOf(intKey, root, pages, idx)
    && var t, j := pages[|pages| - 1], idx[|pages| - 1];
    if t.Leaf? then j < |t.keys| else !intKey && |t.kids| == |t.seps| + 1 && j < |t.seps|
  }

  /** During a search for k: everything before the deepest page is below k, everything behind it above. */
  ghost predicate SearchAt(intKey: bool, root: Tree, pages: seq<Tree>, idx: seq<nat>, k: int) {
    && StackOf(intKey, root, pages, idx) && WF(intKey, pages[|pages| - 1]) && Enclosed(intKey, pages, idx, k)
    && var n := |pages| - 1;
    && Below(Pre(intKey, pages, idx, n), k) && Above(Post(intKey, pages, idx, n), k)
  }

  /** The search for k has ended with result c: on the key, or on its immediate predecessor or successor on the leaf
      that the separators select. */
  ghost predicate FoundAt(intKey: bool, root: Tree, pages: seq<Tree>, idx: seq<nat>, k: int, c: int) {
    && EntryAt(intKey, root, pages, idx)
    && Landed(InOrder(intKey, root), Post(intKey, pages, idx, |pages|), k, c)
    && (c != 0 ==> pages[|pages| - 1].Leaf?)
    && Enclosed(intKey, pages, idx, k)
  }

  class BtCursor {
    const intKey: bool
    var root: Tree
    var pages: seq<Tree>
    var idx: seq<nat>
    var eState: State
    var skipNext: int
    var nKey: int

    /** The entries from the cursor position on. */
    ghost function Rest(): (s: seq<int>)
      requires |pages| == |idx|
      reads this
    {
      Post(intKey, pages, idx, |pages|)
    }

    /** The entries of the tree in order. */
    ghost function Entries(): (s: seq<int>)
      reads this`root
    {
      InOrder(intKey, root)
    }

    ghost predicate Stack()
      reads this
    {
      StackOf(intKey, root, pages, idx)
    }

    /** The cursor is on an entry. */
    ghost predicate OnEntry()
      reads this
    {
      EntryAt(intKey, root, pages, idx)
    }

    ghost predicate Valid()
      reads this
    {
      WFRoot(intKey, root) && (eState == AtEntry ==> OnEntry())
    }

    constructor (intKey: bool, root: Tree)
      requires WFRoot(intKey, root)
      ensures Valid() && this.root == root && this.intKey == intKey && eState == Invalid && skipNext == 0
    {
      this.intKey, this.root := intKey, root;
      pages, idx, eState, skipNext, nKey := [], [], Invalid, 0, 0;
    }

    /** The key of the current entry is the first of the rest. */
    lemma CurrentKey()
      requires OnEntry()
      ensures Rest() != []
        && Rest()[0] == if pages[|pages| - 1].Leaf? then pages[|pages| - 1].keys[idx[|pages| - 1]]
        else pages[|pages| - 1].seps[idx[|pages| - 1]]
    {
      var t, j := pages[|pages| - 1], idx[|pages| - 1];
      assert Rest() == After(intKey, t, j) + Post(intKey, pages, idx, |pages| - 1);
    }

    /** moveToChild for the child at the current index. */
    method MoveToChild(kid: Tree)
      requires Stack() && pages[|pages| - 1].Inner? && |pages[|pages| - 1].kids| == |pages[|pages| - 1].seps| + 1
      requires idx[|pages| - 1] < |pages[|pages| - 1].kids| && kid == pages[|pages| - 1].kids[idx[|pages| - 1]]
      modifies this`pages, this`idx
      ensures Stack() && pages == old(pages) + [kid] && idx == old(idx) + [0] && WF(intKey, kid)
      ensures var n := |old(pages)|;
        FromHere(intKey, old(pages)[n - 1], old(idx)[n - 1])
          + Post(intKey, old(pages), old(idx), n - 1) == FromHere(intKey, kid, 0) + Post(intKey, pages, idx, n)
    {
      Descend(intKey, pages, idx, kid);
      pages, idx := pages + [kid], idx + [0];
      PagesWF(intKey, pages, idx, |pages| - 1);
      InOrderHere(intKey, kid);
    }

    /** moveToLeftmost: down to the first leaf entry at or below the current index. */
    method MoveToLeftmost()
      requires Stack()
      requires var t, j := pages[|pages| - 1], idx[|pages| - 1];
        if t.Leaf? then j < |t.keys| else |t.kids| == |t.seps| + 1 && j < |t.kids|
      modifies this`pages, this`idx
      ensures OnEntry() && pages[|pages| - 1].Leaf?
      ensures var n := |old(pages)|;
        Rest() == FromHere(intKey, old(pages)[n - 1], old(idx)[n - 1]) + Post(intKey, old(pages), old(idx), n - 1)
    {
      ghost var n0 := |pages|;
      ghost var all := FromHere(intKey, pages[n0 - 1], idx[n0 - 1]) + Post(intKey, pages, idx, n0 - 1);
      while pages[|pages| - 1].Inner?
        invariant Stack()
        invariant var t, j := pages[|pages| - 1], idx[|pages| - 1];
          if t.Leaf? then j < |t.keys| else |t.kids| == |t.seps| + 1 && j < |t.kids|
        invariant FromHere(intKey, pages[|pages| - 1], idx[|pages| - 1]) + Post(intKey, pages, idx, |pages| - 1) == all
        decreases pages[|pages| - 1]
      {
        var t := pages[|pages| - 1];
        MoveToChild(t.kids[idx[|pages| - 1]]);
      }
    }

    /** moveToRoot. */
    method MoveToRoot()
      requires WFRoot(intKey, root)
      modifies this`pages, this`idx, this`eState
      ensures Stack() && (eState == Invalid <==> Entries() == []) && (eState == Invalid || eState == AtEntry)
      ensures eState == AtEntry ==> WF(intKey, pages[|pages| - 1]) && idx[|pages| - 1] == 0
      ensures Pre(intKey, pages, idx, |pages| - 1) == [] && Post(intKey, pages, idx, |pages| - 1) == []
      ensures eState == AtEntry ==> InOrder(intKey, pages[|pages| - 1]) == Entries()
      ensures |pages| == 1 || (|pages| == 2 && idx[0] == 0 && pages[0].Inner? && pages[0].seps == [])
    {
      pages, idx := [root], [0];
      if root.Inner? && root.seps == [] {
        eState := AtEntry;
        ghost var kid := root.kids[0];
        MoveToChild(root.kids[0]);
        OnlyChild(intKey, root);
        NonEmpty(intKey, kid);
        RootFrame(intKey, pages, idx);
      } else {
        eState := if root.Inner? || root.keys != [] then AtEntry else Invalid;
        if eState == AtEntry {
          NonEmpty(intKey, root);
        }
      }
    }

    /** sqlite3BtreeFirst: the first entry, or none. */
    method First() returns (empty: bool)
      requires WFRoot(intKey, root)
      modifies this`pages, this`idx, this`eState
      ensures Valid() && (eState == Invalid || eState == AtEntry) && empty == (eState == Invalid)
        && (empty <==> Entries() == [])
      ensures !empty ==> Rest() == Entries()
    {
      MoveToRoot();
      empty := eState == Invalid;
      if !empty {
        InOrderHere(intKey, pages[|pages| - 1]);
        MoveToLeftmost();
      }
    }

    /** The page at the top of the stack has a cell at the current index. */
    ghost predicate OnCell()
      reads this
    {
      && Stack()
      && var t, j := pages[|pages| - 1], idx[|pages| - 1];
      if t.Leaf? then j < |t.keys| else |t.kids| == |t.seps| + 1 && j < |t.seps|
    }

    /** What remains when the cell at the current index is left behind; an interior cell of a table is not an entry. */
    ghost function Remaining(): (s: seq<int>)
      requires OnCell()
      reads this
    {
      if (pages[|pages| - 1].Inner? && intKey) || Rest() == [] then Rest() else Rest()[1..]
    }

    /** The climbing loop of sqlite3BtreeNext: leave pages whose index is at the end. */
    method Climb() returns (eof: bool)
      requires Stack() && Post(intKey, pages, idx, |pages|) == Post(intKey, pages, idx, |pages| - 1)
      modifies this`pages, this`idx, this`eState
      ensures if eof then eState == Invalid && old(Rest()) == []
              else OnCell() && pages[|pages| - 1].Inner? && Rest() == old(Rest()) && eState == old(eState)
      ensures !eof ==> |pages| < |old(pages)|
    {
      while true
        invariant Stack() && Rest() == old(Rest()) && Rest() == Post(intKey, pages, idx, |pages| - 1)
          && |pages| <= |old(pages)| && eState == old(eState)
        decreases |pages|
      {
        if |pages| == 1 {
          eState := Invalid;
          return true;
        }
        var n := |pages| - 1;
        Pop(intKey, pages, idx);
        pages, idx := pages[..n], idx[..n];
        var t := pages[n - 1];
        if idx[n - 1] < |t.seps| {
          return false;
        }
        assert After(intKey, t, idx[n - 1]) == [];
      }
    }

    /** From a cell of an interior page: the first entry below the next child. */
    method AdvanceInner()
      requires OnCell() && pages[|pages| - 1].Inner?
      modifies this`pages, this`idx
      ensures OnEntry() && Rest() == old(Remaining())
    {
      var n := |pages|;
      var t, j := pages[n - 1], idx[n - 1] + 1;
      LeaveInner(intKey, pages, idx);
      idx := idx[n - 1 := j];
      MoveToLeftmost();
    }

    /** From a leaf: the next cell, or up to the next cell of a page above. */
    method AdvanceLeaf() returns (eof: bool)
      requires OnCell() && pages[|pages| - 1].Leaf?
      modifies this`pages, this`idx, this`eState
      ensures if eof then eState == Invalid && old(Remaining()) == []
              else eState == old(eState) && OnCell() && Rest() == old(Remaining())
    {
      var n := |pages|;
      var t, j := pages[n - 1], idx[n - 1] + 1;
      LeaveLeaf(intKey, pages, idx);
      idx := idx[n - 1 := j];
      if j < |t.keys| {
        return false;
      }
      eof := Climb();
    }

    /** sqlite3BtreeNext without a pending seek. */
    method Advance() returns (eof: bool)
      requires OnEntry() && eState == AtEntry
      modifies this`pages, this`idx, this`eState
      ensures if eof then eState == Invalid && old(Rest())[1..] == []
              else eState == AtEntry && OnEntry() && Rest() == old(Rest())[1..]
      ensures old(Rest()) != []
    {
      CurrentKey();
      if pages[|pages| - 1].Inner? {
        AdvanceInner();
        return false;
      }
      eof := AdvanceLeaf();
      if !eof && intKey && pages[|pages| - 1].Inner? {
        AdvanceInner();
      }
    }

    ghost predicate Searching(k: int)
      reads this
    {
      SearchAt(intKey, root, pages, idx, k) && eState == AtEntry
    }

    /** The search goes on in child lwr. */
    method SearchDown(k: int, lwr: nat)
      requires Searching(k) && pages[|pages| - 1].Inner? && lwr <= |pages[|pages| - 1].seps|
      requires lwr > 0 ==> pages[|pages| - 1].seps[lwr - 1] < k
      requires lwr < |pages[|pages| - 1].seps| ==>
        pages[|pages| - 1].seps[lwr] >= k && (!intKey ==> pages[|pages| - 1].seps[lwr] > k)
      modifies this`pages, this`idx
      ensures Searching(k) && |pages| == |old(pages)| + 1
        && pages[|pages| - 1] == old(pages)[|old(pages)| - 1].kids[lwr]
    {
      var n := |pages|;
      var t := pages[n - 1];
      SearchKid(intKey, root, pages, idx, k, lwr, idx[n - 1 := lwr], t.kids[lwr]);
      pages, idx := pages + [t.kids[lwr]], idx[n - 1 := lwr] + [0];
    }

    ghost predicate Found(k: int, c: int)
      reads this
    {
      FoundAt(intKey, root, pages, idx, k, c) && eState == AtEntry
    }

    /** The search ends on cell i of the page at the top. */
    method EndHere(k: int, i: nat, ghost lwr: nat, c: int)
      requires Searching(k)
      requires var t := pages[|pages| - 1];
        if t.Leaf? then Searched(t.keys, k, i, lwr, c) else c == 0 && !intKey && i < |t.seps| && t.seps[i] == k
      modifies this`idx
      ensures Found(k, c)
    {
      var idx' := idx[|pages| - 1 := i];
      if pages[|pages| - 1].Leaf? {
        LandLeaf(intKey, root, pages, idx, k, i, lwr, c, idx');
      } else {
        LandInner(intKey, root, pages, idx, k, i, idx');
      }
      idx := idx';
    }

    /** One page of the search: it ends here, or goes on in a child. */
    method SearchTop(k: int, bias: bool) returns (ended: bool, c: int)
      requires Searching(k)
      modifies this`pages, this`idx
      ensures ended ==> Found(k, c)
      ensures !ended ==>
        Searching(k) && old(pages)[|old(pages)| - 1].Inner? && pages[|pages| - 1] in old(pages)[|old(pages)| - 1].kids
    {
      var t := pages[|pages| - 1];
      var i, lwr;
      i, lwr, c := SearchPage(if t.Leaf? then t.keys else t.seps, k, bias);
      if t.Leaf? {
        EndHere(k, i, lwr, c);
        return true, c;
      }
      if c == 0 && !intKey {
        EndHere(k, i, lwr, 0);
        return true, 0;
      }
      SearchDown(k, lwr);
      return false, c;
    }

    /** The descent from the page at the top. */
    method SearchLoop(k: int, bias: bool) returns (res: int)
      requires Searching(k)
      modifies this`pages, this`idx
      ensures Found(k, res)
    {
      var ended := false;
      res := 0;
      while !ended
        invariant if ended then Found(k, res) else Searching(k)
        decreases !ended, if |pages| > 0 then pages[|pages| - 1] else root
      {
        ended, res := SearchTop(k, bias);
      }
    }

    /** sqlite3BtreeMovetoUnpacked. */
    method Moveto(k: int, bias: bool) returns (res: int)
      requires WFRoot(intKey, root)
      modifies this`pages, this`idx, this`eState
      ensures Valid() && (eState == Invalid <==> Entries() == []) && (eState == Invalid || eState == AtEntry)
      ensures if eState == Invalid then res < 0 else Found(k, res)
    {
      MoveToRoot();
      if eState == Invalid {
        return -1;
      }
      assert Searching(k);
      res := SearchLoop(k, bias);
    }

    /** The key of the entry that the cursor is on, or was on when its position was saved. */
    ghost function LastKey(): (k: int)
      requires Valid() && eState != Invalid
      reads this
    {
      if eState == RequireSeek then nKey else KeyAt(intKey, root, pages, idx)
    }

    /** Between two calls of a scan over the tree t. */
    ghost predicate Ready(ik: bool, t: Tree)
      reads this
    {
      Valid() && intKey == ik && root == t && eState == AtEntry && skipNext == 0
    }

    /** saveCursorPosition. */
    method SavePosition()
      requires Valid() && eState == AtEntry
      modifies this`pages, this`idx, this`eState, this`nKey
      ensures Valid() && eState == RequireSeek && nKey == old(LastKey())
    {
      nKey := Key();
      pages, idx, eState := [], [], RequireSeek;
    }

    /** The key of the current entry. */
    method Key() returns (k: int)
      requires Valid() && eState == AtEntry
      ensures k == LastKey()
    {
      var t, j := pages[|pages| - 1], idx[|pages| - 1];
      return if t.Leaf? then t.keys[j] else t.seps[j];
    }

    /** Somebody changes the tree while the position is saved. */
    method Modify(t: Tree)
      requires Valid() && eState != AtEntry && WFRoot(intKey, t)
      modifies this`root
      ensures Valid() && root == t
    {
      root := t;
    }

    /** btreeRestoreCursorPosition. */
    method Restore()
      requires Valid() && eState == RequireSeek
      modifies this`pages, this`idx, this`eState, this`skipNext
      ensures Valid() && (eState == Invalid <==> Entries() == []) && (eState == AtEntry ==> Found(nKey, skipNext))
        && eState != RequireSeek
    {
      eState := Invalid;
      skipNext := Moveto(nKey, false);
    }

    /** sqlite3BtreeNext: the least key of the present tree above the last one, or none. */
    method Next() returns (eof: bool)
      requires Valid() && eState != Invalid && (eState == AtEntry ==> skipNext == 0)
      modifies this`pages, this`idx, this`eState, this`skipNext
      ensures Valid() && eof == (eState == Invalid) && (!eof ==> eState == AtEntry && skipNext == 0)
      ensures eof ==> AtMost(Entries(), old(LastKey()))
      ensures !eof ==>
        LastKey() in Entries() && LastKey() > old(LastKey()) && forall x | x in Entries() && x > old(LastKey()) ::
        x >= LastKey()
    {
      ghost var last := LastKey();
      if eState == RequireSeek {
        Restore();
        if eState == Invalid {
          return true;
        }
        if skipNext > 0 {
          StayAt(intKey, root, pages, idx, last, skipNext);
          skipNext := 0;
          return false;
        }
      }
      StepBase(intKey, root, pages, idx, last, skipNext);
      skipNext := 0;
      ghost var rest := Rest();
      eof := Advance();
      if !eof {
        SuffixAt(intKey, root, pages, idx);
        assert LastKey() == rest[1];
      } else {
        assert |rest[1..]| == 0;
        assert AtMost(InOrder(intKey, root), last);
      }
    }
  }

  /** A search that ended behind the key ended on the least key above. */
  lemma StayAt(intKey: bool, root: Tree, pages: seq<Tree>, idx: seq<nat>, last: int, c: int)
    requires FoundAt(intKey, root, pages, idx, last, c) && c > 0
    ensures var all, k := InOrder(intKey, root), KeyAt(intKey, root, pages, idx);
      k in all && k > last && forall x | x in all && x > last :: x >= k
  {
    SuffixAt(intKey, root, pages, idx);
    RootSorted(intKey, root);
    var all, rest := InOrder(intKey, root), Post(intKey, pages, idx, |pages|);
    var p := |all| - |rest|;
    assert all[p] == rest[0];
    forall x | x in all && x > last ensures x >= all[p] {
      var i :| 0 <= i < |all| && all[i] == x;
    }
  }

  /** Before a step the cursor is on the last key, or, after a seek, on its predecessor: the least key above follows. */
  lemma StepBase(intKey: bool, root: Tree, pages: seq<Tree>, idx: seq<nat>, last: int, c: int)
    requires EntryAt(intKey, root, pages, idx)
      && (KeyAt(intKey, root, pages, idx) == last || FoundAt(intKey, root, pages, idx, last, c)) && c <= 0
    ensures var all, rest := InOrder(intKey, root), Post(intKey, pages, idx, |pages|);
      && |rest| > 0 && (|rest| > 1 ==> rest[1] in all && rest[1] > last)
      && (forall x | x in all && x > last :: |rest| > 1 && x >= rest[1])
  {
    SuffixAt(intKey, root, pages, idx);
    RootSorted(intKey, root);
    var all, rest := InOrder(intKey, root), Post(intKey, pages, idx, |pages|);
    var p := |all| - |rest|;
    assert all[p] == rest[0] && (|rest| > 1 ==> rest[1] == all[p + 1]);
    StepFrom(all, rest, last);
  }

  /** The key of the entry at the top of the stack. */
  ghost function KeyAt(intKey: bool, root: Tree, pages: seq<Tree>, idx: seq<nat>): (k: int)
    requires EntryAt(intKey, root, pages, idx)
  {
    var t, j := pages[|pages| - 1], idx[|pages| - 1];
    if t.Leaf? then t.keys[j] else t.seps[j]
  }

  /** What lies from an entry on is a suffix of the tree that begins with its key. */
  lemma SuffixAt(intKey: bool, root: Tree, pages: seq<Tree>, idx: seq<nat>)
    requires EntryAt(intKey, root, pages, idx)
    ensures var all, rest := InOrder(intKey, root), Post(intKey, pages, idx, |pages|);
      0 < |rest| <= |all| && rest == all[|all| - |rest|..] && rest[0] == KeyAt(intKey, root, pages, idx)
  {
    var n := |pages|;
    var t, j := pages[n - 1], idx[n - 1];
    var pre, post := Pre(intKey, pages, idx, n - 1), Post(intKey, pages, idx, n - 1);
    Around(intKey, pages, idx, n - 1);
    SetTop(intKey, pages, idx, j);
    assert idx[n - 1 := j] == idx;
    var front := PageFront(intKey, t, j);
    EndPart(pre, front, After(intKey, t, j), post, InOrder(intKey, root));
  }

  /** A page ends with what comes from one of its entries on. */
  lemma PageFront(intKey: bool, t: Tree, j: nat) returns (front: seq<int>)
    requires if t.Leaf? then j < |t.keys| else !intKey && |t.kids| == |t.seps| + 1 && j < |t.seps|
    ensures InOrder(intKey, t) == front + After(intKey, t, j)
    ensures After(intKey, t, j) != [] && After(intKey, t, j)[0] == if t.Leaf? then t.keys[j] else t.seps[j]
  {
    if t.Leaf? {
      front := t.keys[..j];
    } else {
      SplitAt(intKey, t, j);
      front := Before(intKey, t, j) + InOrder(intKey, t.kids[j]);
      FrontBack(Before(intKey, t, j), InOrder(intKey, t.kids[j]), After(intKey, t, j));
      assert After(intKey, t, j) == [t.seps[j]] + FromKid(intKey, t, j + 1);
    }
  }

  lemma EndPart(a: seq<int>, b: seq<int>, c: seq<int>, d: seq<int>, all: seq<int>)
    requires all == a + ((b + c) + d)
    ensures |c + d| <= |all| && all[|all| - |c + d|..] == c + d
  {
  }

  /** The first entry of what remains behind the key or its predecessor is the least key above. */
  lemma StepFrom(all: seq<int>, rest: seq<int>, last: int)
    requires Ascending(all) && 0 < |rest| <= |all| && rest == all[|all| - |rest|..] && rest[0] <= last
      && (|rest| > 1 ==> rest[1] > last)
    ensures forall x | x in all && x > last :: |rest| > 1 && x >= rest[1]
  {
    var p := |all| - |rest|;
    forall x | x in all && x > last ensures |rest| > 1 && x >= rest[1] {
      var i :| 0 <= i < |all| && all[i] == x;
      assert i > p by {
        assert all[p] == rest[0];
      }
      assert all[p + 1] == rest[1];
    }
  }

  /** Where a search ends: on the key, or on its immediate predecessor or successor. */
  ghost predicate Landed(all: seq<int>, rest: seq<int>, k: int, res: int) {
    && 0 < |rest| <= |all| && rest == all[|all| - |rest|..]
    && var p := |all| - |rest|;
    if res == 0 then all[p] == k
    else if res < 0 then all[p] < k && (p + 1 < |all| ==> all[p + 1] > k)
    else all[p] > k && (p > 0 ==> all[p - 1] < k)
  }

  /** The position p of a sequence, given its three parts. */
  lemma Position(pre: seq<int>, mid: seq<int>, post: seq<int>, all: seq<int>, i: nat, rest: seq<int>, k: int, c: int)
    requires all == pre + (mid + post) && i < |mid| && rest == mid[i..] + post && Below(pre, k) && Above(post, k)
    requires c == 0 ==> mid[i] == k
    requires c < 0 ==> mid[i] < k && (i + 1 < |mid| ==> mid[i + 1] > k)
    requires c > 0 ==> mid[i] > k && (i > 0 ==> mid[i - 1] < k)
    ensures Landed(all, rest, k, c)
  {
    var p := |pre| + i;
    assert rest == all[p..];
    assert all[p] == mid[i];
    if p + 1 < |all| && i + 1 == |mid| {
      assert all[p + 1] == post[0] && post[0] in post;
    }
    if i == 0 && p > 0 {
      assert all[p - 1] == pre[|pre| - 1] && pre[|pre| - 1] in pre;
    }
  }

  lemma LandLeaf(intKey: bool, root: Tree, pages: seq<Tree>, idx: seq<nat>, k: int, i: nat, lwr: nat, c: int,
                 idx': seq<nat>)
    requires SearchAt(intKey, root, pages, idx, k) && pages[|pages| - 1].Leaf?
      && Searched(pages[|pages| - 1].keys, k, i, lwr, c)
    requires idx' == idx[|pages| - 1 := i]
    ensures FoundAt(intKey, root, pages, idx', k, c)
  {
    var n := |pages|;
    var keys, pre, post := pages[n - 1].keys, Pre(intKey, pages, idx, n - 1), Post(intKey, pages, idx, n - 1);
    Around(intKey, pages, idx, n - 1);
    SetTop(intKey, pages, idx, i);
    Position(pre, keys, post, InOrder(intKey, root), i, keys[i..] + post, k, c);
  }

  lemma LandInner(intKey: bool, root: Tree, pages: seq<Tree>, idx: seq<nat>, k: int, i: nat, idx': seq<nat>)
    requires SearchAt(intKey, root, pages, idx, k) && pages[|pages| - 1].Inner? && !intKey
    requires i < |pages[|pages| - 1].seps| && pages[|pages| - 1].seps[i] == k && idx' == idx[|pages| - 1 := i]
    ensures FoundAt(intKey, root, pages, idx', k, 0)
  {
    var n := |pages|;
    var t, pre, post := pages[n - 1], Pre(intKey, pages, idx, n - 1), Post(intKey, pages, idx, n - 1);
    Around(intKey, pages, idx, n - 1);
    SetTop(intKey, pages, idx, i);
    SplitAt(intKey, t, i);
    var mid := InOrder(intKey, t);
    var front, back := Before(intKey, t, i) + InOrder(intKey, t.kids[i]), After(intKey, t, i);
    FrontBack(Before(intKey, t, i), InOrder(intKey, t.kids[i]), back);
    assert back == [k] + FromKid(intKey, t, i + 1);
    Position(pre, front + back, post, InOrder(intKey, root), |front|, back + post, k, 0);
  }

  lemma FrontBack(a: seq<int>, b: seq<int>, c: seq<int>)
    ensures a + (b + c) == (a + b) + c && ((a + b) + c)[|a + b|..] == c
  {
  }

  /** Going down to child lwr keeps everything before below k and everything behind above k. */
  lemma GoDown(intKey: bool, pages: seq<Tree>, idx: seq<nat>, k: int, lwr: nat)
    requires Linked(pages, idx) && pages[|pages| - 1].Inner? && WF(intKey, pages[|pages| - 1])
      && lwr <= |pages[|pages| - 1].seps|
    requires Below(Pre(intKey, pages, idx, |pages| - 1), k) && Above(Post(intKey, pages, idx, |pages| - 1), k)
    requires lwr > 0 ==> pages[|pages| - 1].seps[lwr - 1] < k
    requires lwr < |pages[|pages| - 1].seps| ==>
      pages[|pages| - 1].seps[lwr] >= k && (!intKey ==> pages[|pages| - 1].seps[lwr] > k)
    ensures var n := |pages|; var idx' := idx[n - 1 := lwr];
      Linked(pages, idx') && Below(Pre(intKey, pages, idx', n), k) && Above(Post(intKey, pages, idx', n), k)
  {
    var n := |pages|;
    var t := pages[n - 1];
    SetTop(intKey, pages, idx, lwr);
    assert Pre(intKey, pages, idx[n - 1 := lwr], n) == Pre(intKey, pages, idx, n - 1) + Before(intKey, t, lwr);
    if lwr > 0 {
      BeforeBound(intKey, t, lwr);
    }
    if lwr < |t.seps| {
      AfterBound(intKey, t, lwr);
      assert After(intKey, t, lwr) == Entry(intKey, t.seps[lwr]) + FromKid(intKey, t, lwr + 1);
    }
  }

  lemma SearchKid(intKey: bool, root: Tree, pages: seq<Tree>, idx: seq<nat>, k: int, lwr: nat, idx': seq<nat>,
                  kid: Tree)
    requires SearchAt(intKey, root, pages, idx, k) && pages[|pages| - 1].Inner? && lwr <= |pages[|pages| - 1].seps|
    requires lwr > 0 ==> pages[|pages| - 1].seps[lwr - 1] < k
    requires lwr < |pages[|pages| - 1].seps| ==>
      pages[|pages| - 1].seps[lwr] >= k && (!intKey ==> pages[|pages| - 1].seps[lwr] > k)
    requires idx' == idx[|pages| - 1 := lwr] && kid == pages[|pages| - 1].kids[lwr]
    ensures SearchAt(intKey, root, pages + [kid], idx' + [0], k)
  {
    GoDown(intKey, pages, idx, k, lwr);
    Descend(intKey, pages, idx', kid);
  }

  /** The result of searching one page: i is the cell compared last, c the outcome; lwr is the first cell not below k.
      */
  ghost predicate Searched(keys: seq<int>, k: int, i: nat, lwr: nat, c: int) {
    && i < |keys| && lwr <= |keys| && (c == 0 <==> keys[i] == k) && (c < 0 <==> keys[i] < k)
    && lwr == (if c < 0 then i + 1 else i)
    && (forall x | 0 <= x < lwr :: keys[x] < k)
    && (forall x | lwr <= x < |keys| :: keys[x] >= k && (c != 0 ==> keys[x] > k))
  }

  /** The binary search on one page. */
  method SearchPage(keys: seq<int>, k: int, bias: bool) returns (i: nat, lwr: nat, c: int)
    requires keys != [] && Ascending(keys)
    ensures Searched(keys, k, i, lwr, c)
  {
    lwr := 0;
    var upr := |keys| - 1;
    i := if bias then upr else (upr + lwr) / 2;
    while true
      invariant 0 <= lwr <= i <= upr < |keys|
      invariant forall x | 0 <= x < lwr :: keys[x] < k
      invariant forall x | upr < x < |keys| :: keys[x] > k
      decreases upr - lwr
    {
      c := if keys[i] == k then 0 else if keys[i] < k then -1 else 1;
      if c == 0 {
        lwr := i;
        return;
      }
      if c < 0 {
        lwr := i + 1;
      } else {
        upr := i - 1;
      }
      if lwr > upr {
        return;
      }
      i := (lwr + upr) / 2;
    }
  }

  /** Dropping the top page of the stack. */
  lemma Pop(intKey: bool, pages: seq<Tree>, idx: seq<nat>)
    requires Linked(pages, idx) && |pages| >= 2
    ensures var n := |pages| - 1;
      Linked(pages[..n], idx[..n]) && Post(intKey, pages[..n], idx[..n], n) == Post(intKey, pages, idx, n)
    ensures var n := |pages| - 1;
      Child(pages, idx, n - 1) && Post(intKey, pages[..n], idx[..n], n - 1) == Post(intKey, pages, idx, n - 1)
  {
    var n := |pages| - 1;
    forall d | 0 <= d < n - 1 ensures Child(pages[..n], idx[..n], d) {
      assert Child(pages, idx, d);
    }
    assert Child(pages, idx, n - 1);
    PrePostSame(intKey, pages, idx, pages[..n], idx[..n], n);
    PrePostSame(intKey, pages, idx, pages[..n], idx[..n], n - 1);
  }

  lemma SetTop(intKey: bool, pages: seq<Tree>, idx: seq<nat>, j: nat)
    requires Linked(pages, idx)
    ensures var n := |pages|; var idx' := idx[n - 1 := j];
      && Linked(pages, idx') && Post(intKey, pages, idx', n - 1) == Post(intKey, pages, idx, n - 1)
      && Pre(intKey, pages, idx', n - 1) == Pre(intKey, pages, idx, n - 1)
      && Post(intKey, pages, idx', n) == After(intKey, pages[n - 1], j) + Post(intKey, pages, idx, n - 1)
  {
    var n := |pages|;
    var idx' := idx[n - 1 := j];
    forall d | 0 <= d < n - 1 ensures Child(pages, idx', d) {
      assert Child(pages, idx, d);
    }
    PrePostSame(intKey, pages, idx, pages, idx', n - 1);
  }

  /** Moving the index of a leaf past the current cell. */
  lemma LeaveLeaf(intKey: bool, pages: seq<Tree>, idx: seq<nat>)
    requires Linked(pages, idx) && pages[|pages| - 1].Leaf? && idx[|pages| - 1] < |pages[|pages| - 1].keys|
    ensures var n := |pages|; var idx' := idx[n - 1 := idx[n - 1] + 1];
      && Linked(pages, idx') && Post(intKey, pages, idx, n) != []
      && Post(intKey, pages, idx', n) == Post(intKey, pages, idx, n)[1..]
      && (idx[n - 1] + 1 == |pages[n - 1].keys| ==> Post(intKey, pages, idx', n) == Post(intKey, pages, idx', n - 1))
  {
    var n := |pages|;
    var t, j := pages[n - 1], idx[n - 1];
    SetTop(intKey, pages, idx, j + 1);
    assert Post(intKey, pages, idx, n) == After(intKey, t, j) + Post(intKey, pages, idx, n - 1);
    assert After(intKey, t, j) == [t.keys[j]] + After(intKey, t, j + 1);
  }

  /** Moving the index of an interior page past the current cell. */
  lemma LeaveInner(intKey: bool, pages: seq<Tree>, idx: seq<nat>)
    requires Linked(pages, idx)
    requires var t, j := pages[|pages| - 1], idx[|pages| - 1]; t.Inner? && |t.kids| == |t.seps| + 1 && j < |t.seps|
    ensures var n := |pages|; var t, j := pages[n - 1], idx[n - 1]; var idx' := idx[n - 1 := j + 1];
      && Linked(pages, idx')
      && var rest := Post(intKey, pages, idx, n);
         (if intKey || rest == [] then rest else rest[1..]) == FromHere(intKey, t, j + 1)
           + Post(intKey, pages, idx', n - 1)
  {
    var n := |pages|;
    var t, j := pages[n - 1], idx[n - 1];
    SetTop(intKey, pages, idx, j + 1);
    TopIs(intKey, pages, idx);
    var post := Post(intKey, pages, idx, n - 1);
    assert After(intKey, t, j) == Entry(intKey, t.seps[j]) + FromKid(intKey, t, j + 1);
    assert !intKey ==>
      (Entry(intKey, t.seps[j]) + FromKid(intKey, t, j + 1) + post)[1..] == FromKid(intKey, t, j + 1) + post;
  }

  /** A root without cells holds the entries of its only child. */
  lemma OnlyChild(intKey: bool, t: Tree)
    requires t.Inner? && t.seps == [] && |t.kids| == 1
    ensures InOrder(intKey, t) == InOrder(intKey, t.kids[0])
  {
    assert FromKid(intKey, t, 0) == InOrder(intKey, t.kids[0]) + After(intKey, t, 0);
  }

  lemma RootFrame(intKey: bool, pages: seq<Tree>, idx: seq<nat>)
    requires |pages| == |idx| == 2 && pages[0].Inner? && pages[0].seps == [] && idx[0] == 0
    ensures Pre(intKey, pages, idx, 1) == [] && Post(intKey, pages, idx, 1) == []
  {
    assert Pre(intKey, pages, idx, 0) == [] && Post(intKey, pages, idx, 0) == [];
  }

  // ---------------------------------------------------------------- whole scans

  datatype Change = Keep | Replace(t: Tree)

  /** The trees that a scan meets: the first, and one for each replacement. */
  ghost predicate SeenIn(intKey: bool, x: int, t0: Tree, changes: seq<Change>, n: nat)
    requires n <= |changes|
  {
    x in InOrder(intKey, t0) && forall i | 0 <= i < n && changes[i].Replace? :: x in InOrder(intKey, changes[i].t)
  }

  /** The tree after the first n changes. */
  ghost function TreeAt(t0: Tree, changes: seq<Change>, n: nat): (t: Tree)
    requires n <= |changes|
  {
    if n == 0 then t0 else if changes[n - 1].Replace? then changes[n - 1].t else TreeAt(t0, changes, n - 1)
  }

  /** Key i returned is the least key of the tree present at that call that is above the key before. */
  ghost predicate Follows(intKey: bool, t0: Tree, changes: seq<Change>, keys: seq<int>)
    requires |keys| <= |changes| + 1
  {
    forall i | 0 <= i < |keys| :: LeastAbove(InOrder(intKey, TreeAt(t0, changes, i)), keys, i)
  }

  ghost predicate LeastAbove(all: seq<int>, keys: seq<int>, i: nat)
    requires i < |keys|
  {
    && keys[i] in all && (i > 0 ==> keys[i - 1] < keys[i])
    && forall x | x in all && (i > 0 ==> x > keys[i - 1]) :: x >= keys[i]
  }

  lemma FollowsNext(intKey: bool, t0: Tree, changes: seq<Change>, keys: seq<int>, k: int)
    requires 0 < |keys| <= |changes| && Follows(intKey, t0, changes, keys) && k > keys[|keys| - 1]
    requires var all := InOrder(intKey, TreeAt(t0, changes, |keys|));
      k in all && forall x | x in all && x > keys[|keys| - 1] :: x >= k
    ensures Follows(intKey, t0, changes, keys + [k])
  {
    forall i | 0 <= i <= |keys| ensures LeastAbove(InOrder(intKey, TreeAt(t0, changes, i)), keys + [k], i) {
      if i < |keys| {
        assert LeastAbove(InOrder(intKey, TreeAt(t0, changes, i)), keys, i);
      }
    }
  }

  /** A scan by First and then Next, the tree being replaced at will between the calls, with the position of the cursor
      saved before each replacement.  Each key returned is the least one of the tree then present above the key before;
      the scan ends when there is none; every key that was there all the time has come by the end. */
  method Scan(intKey: bool, t0: Tree, changes: seq<Change>) returns (keys: seq<int>, eof: bool)
    requires WFRoot(intKey, t0) && forall i | 0 <= i < |changes| && changes[i].Replace? :: WFRoot(intKey, changes[i].t)
    ensures Ascending(keys) && |keys| <= |changes| + 1 && Follows(intKey, t0, changes, keys)
    ensures eof && keys == [] ==> InOrder(intKey, t0) == []
    ensures eof && keys != [] ==>
      |keys| <= |changes| && AtMost(InOrder(intKey, TreeAt(t0, changes, |keys|)), keys[|keys| - 1])
    ensures eof ==> forall x | SeenIn(intKey, x, t0, changes, |changes|) :: x in keys
    ensures !eof ==> |keys| == |changes| + 1
    ensures !eof ==> forall x | SeenIn(intKey, x, t0, changes, |changes|) && x < keys[|keys| - 1] :: x in keys
  {
    var c := new BtCursor(intKey, t0);
    eof := c.First();
    keys := [];
    if eof {
      return;
    }
    var k := c.Key();
    keys := [k];
    ScanBegun(intKey, t0, changes, c.pages, c.idx, k);
    for i := 0 to |changes|
      invariant fresh(c) && c.Ready(intKey, TreeAt(t0, changes, i)) && |keys| == i + 1 && c.LastKey() == keys[i]
      invariant Scanned(intKey, t0, changes, i, keys)
    {
      eof, k := ScanStep(c, changes[i], intKey, TreeAt(t0, changes, i + 1));
      if eof {
        ScanEnds(intKey, t0, changes, i, keys);
        return;
      }
      ScanGoesOn(intKey, t0, changes, i, keys, k);
      keys := keys + [k];
    }
  }

  /** After i + 1 keys of a scan. */
  ghost predicate Scanned(intKey: bool, t0: Tree, changes: seq<Change>, i: nat, keys: seq<int>)
    requires i <= |changes|
  {
    |keys| == i + 1 && Ascending(keys) && Follows(intKey, t0, changes, keys)
      && Covers(intKey, t0, changes, i, TreeAt(t0, changes, i), keys)
  }

  lemma ScanBegun(intKey: bool, t0: Tree, changes: seq<Change>, pages: seq<Tree>, idx: seq<nat>, k: int)
    requires EntryAt(intKey, t0, pages, idx) && Post(intKey, pages, idx, |pages|) == InOrder(intKey, t0)
      && k == KeyAt(intKey, t0, pages, idx)
    ensures Scanned(intKey, t0, changes, 0, [k])
  {
    SuffixAt(intKey, t0, pages, idx);
    RootSorted(intKey, t0);
    FirstLeast(InOrder(intKey, t0));
  }

  lemma ScanGoesOn(intKey: bool, t0: Tree, changes: seq<Change>, i: nat, keys: seq<int>, k: int)
    requires i < |changes| && Scanned(intKey, t0, changes, i, keys) && k > keys[i]
      && k in InOrder(intKey, TreeAt(t0, changes, i + 1))
    requires NoneBetween(InOrder(intKey, TreeAt(t0, changes, i + 1)), keys[i], k)
    ensures Scanned(intKey, t0, changes, i + 1, keys + [k])
  {
    CoversStep(intKey, t0, changes, i, TreeAt(t0, changes, i + 1), keys, k);
    FollowsNext(intKey, t0, changes, keys, k);
    LastAscending(keys, k);
  }

  lemma LastAscending(keys: seq<int>, k: int)
    requires Ascending(keys) && keys != [] && k > keys[|keys| - 1]
    ensures Ascending(keys + [k])
  {
  }

  lemma ScanEnds(intKey: bool, t0: Tree, changes: seq<Change>, i: nat, keys: seq<int>)
    requires i < |changes| && Scanned(intKey, t0, changes, i, keys)
      && AtMost(InOrder(intKey, TreeAt(t0, changes, i + 1)), keys[i])
    ensures forall x | SeenIn(intKey, x, t0, changes, |changes|) :: x in keys
  {
    CoversEnd(intKey, t0, changes, i, TreeAt(t0, changes, i + 1), keys);
  }

  ghost predicate NoneBetween(all: seq<int>, last: int, k: int) {
    forall x | x in all && x > last :: x >= k
  }

  /** One call of Next, after a possible replacement of the tree by t. */
  method ScanStep(c: BtCursor, change: Change, ghost intKey: bool, ghost t: Tree) returns (eof: bool, k: int)
    requires c.Ready(intKey, c.root) && (change.Replace? ==> WFRoot(intKey, change.t))
      && t == (if change.Replace? then change.t else c.root)
    modifies c
    ensures eof ==> AtMost(InOrder(intKey, t), old(c.LastKey()))
    ensures !eof ==> c.Ready(intKey, t) && k == c.LastKey() > old(c.LastKey()) && k in InOrder(intKey, t)
    ensures !eof ==> NoneBetween(InOrder(intKey, t), old(c.LastKey()), k)
  {
    if change.Replace? {
      c.SavePosition();
      c.Modify(change.t);
    }
    eof := c.Next();
    k := 0;
    if !eof {
      k := c.Key();
    }
  }

  /** Keys seen in all trees so far are in the present tree t, and those up to the last key returned have been returned.
      */
  ghost predicate Covers(intKey: bool, t0: Tree, changes: seq<Change>, i: nat, t: Tree, keys: seq<int>)
    requires i <= |changes|
  {
    && keys != []
    && (forall x | SeenIn(intKey, x, t0, changes, i) :: x in InOrder(intKey, t))
    && (forall x | SeenIn(intKey, x, t0, changes, i) && x <= keys[|keys| - 1] :: x in keys)
  }

  lemma CoversStep(intKey: bool, t0: Tree, changes: seq<Change>, i: nat, t: Tree, keys: seq<int>, k: int)
    requires i < |changes| && keys != [] && (changes[i].Replace? ==> t == changes[i].t)
    requires forall x | SeenIn(intKey, x, t0, changes, i) && x <= keys[|keys| - 1] :: x in keys
    requires changes[i].Keep? ==> forall x | SeenIn(intKey, x, t0, changes, i) :: x in InOrder(intKey, t)
    requires forall x | x in InOrder(intKey, t) && x > keys[|keys| - 1] :: x >= k
    ensures Covers(intKey, t0, changes, i + 1, t, keys + [k])
  {
    forall x | SeenIn(intKey, x, t0, changes, i + 1) ensures x in InOrder(intKey, t) && (x <= k ==> x in keys + [k]) {
      assert SeenIn(intKey, x, t0, changes, i);
      assert x in InOrder(intKey, t);
    }
  }

  lemma CoversEnd(intKey: bool, t0: Tree, changes: seq<Change>, i: nat, t: Tree, keys: seq<int>)
    requires i < |changes| && keys != [] && (changes[i].Replace? ==> t == changes[i].t)
    requires forall x | SeenIn(intKey, x, t0, changes, i) && x <= keys[|keys| - 1] :: x in keys
    requires changes[i].Keep? ==> forall x | SeenIn(intKey, x, t0, changes, i) :: x in InOrder(intKey, t)
    requires AtMost(InOrder(intKey, t), keys[|keys| - 1])
    ensures forall x | SeenIn(intKey, x, t0, changes, |changes|) :: x in keys
  {
    forall x | SeenIn(intKey, x, t0, changes, |changes|) ensures x in keys {
      assert SeenIn(intKey, x, t0, changes, i);
      assert x in InOrder(intKey, t);
    }
  }

  lemma FirstLeast(all: seq<int>)
    requires Ascending(all) && all != []
    ensures forall x | x in all :: x >= all[0]
  {
  }

  // ---------------------------------------------------------------- inserting

  /** The tree in which the page at depth d of the stack is replaced by t. */
  function Rebuilt(pages: seq<Tree>, idx: seq<nat>, d: nat, t: Tree): (r: Tree)
    requires Linked(pages, idx) && d < |pages|
  {
    if d == 0 then t
    else
      assert Child(pages, idx, d - 1);
      Rebuilt(pages, idx, d - 1, Inner(pages[d - 1].seps, pages[d - 1].kids[idx[d - 1] := t]))
  }

  lemma {:induction false} KidReplaced(intKey: bool, t: Tree, i: nat, kid: Tree, j: nat)
    requires t.Inner? && |t.kids| == |t.seps| + 1 && i < |t.kids|
    ensures var t' := Inner(t.seps, t.kids[i := kid]);
      && (j <= i ==> Before(intKey, t', j) == Before(intKey, t, j))
      && (j < |t.kids| && j >= i ==> After(intKey, t', j) == After(intKey, t, j))
    decreases if j <= i then j else |t.kids| - j
  {
    var t' := Inner(t.seps, t.kids[i := kid]);
    if 0 < j <= i {
      KidReplaced(intKey, t, i, kid, j - 1);
    }
    if i <= j < |t.kids| {
      AfterReplaced(intKey, t, i, kid, j);
    }
  }

  lemma {:induction false} AfterReplaced(intKey: bool, t: Tree, i: nat, kid: Tree, j: nat)
    requires t.Inner? && |t.kids| == |t.seps| + 1 && i <= j < |t.kids|
    ensures After(intKey, Inner(t.seps, t.kids[i := kid]), j) == After(intKey, t, j)
    decreases |t.kids| - j
  {
    var t' := Inner(t.seps, t.kids[i := kid]);
    if j + 1 < |t.kids| {
      AfterReplaced(intKey, t, i, kid, j + 1);
      FromSame(intKey, t, t', j + 1);
      AfterIs(intKey, t, j);
      AfterIs(intKey, t', j);
    }
  }

  lemma FromSame(intKey: bool, t: Tree, t': Tree, j: nat)
    requires t.Inner? && t'.Inner? && j < |t.kids| == |t'.kids| && t'.kids[j] == t.kids[j]
    requires After(intKey, t', j) == After(intKey, t, j)
    ensures FromKid(intKey, t', j) == FromKid(intKey, t, j)
  {
  }

  lemma AfterIs(intKey: bool, t: Tree, j: nat)
    requires t.Inner? && j + 1 < |t.kids| == |t.seps| + 1
    ensures After(intKey, t, j) == Entry(intKey, t.seps[j]) + FromKid(intKey, t, j + 1)
  {
  }

  /** Replacing a page of the stack replaces exactly its entries. */
  lemma {:induction false} RebuiltOrder(intKey: bool, pages: seq<Tree>, idx: seq<nat>, d: nat, t: Tree)
    requires Linked(pages, idx) && d < |pages|
    ensures InOrder(intKey, Rebuilt(pages, idx, d, t)) == Pre(intKey, pages, idx, d)
      + (InOrder(intKey, t) + Post(intKey, pages, idx, d))
  {
    if d > 0 {
      assert Child(pages, idx, d - 1);
      var p, i := pages[d - 1], idx[d - 1];
      var p' := Inner(p.seps, p.kids[i := t]);
      RebuiltOrder(intKey, pages, idx, d - 1, p');
      SplitAt(intKey, p', i);
      KidReplaced(intKey, p, i, t, i);
      Nest(Pre(intKey, pages, idx, d - 1), Before(intKey, p, i), InOrder(intKey, t), After(intKey, p, i),
        Post(intKey, pages, idx, d - 1));
    }
  }

  /** The index computed by sqlite3BtreeInsert after a search that did not find the key. */
  function InsertIndex(i: nat, loc: int, nCell: nat): (j: nat)
  {
    if loc < 0 && nCell > 0 then i + 1 else i
  }

  /** Putting the new key at that index of the leaf keeps the entries of the tree strictly ascending, adds the key and
      nothing else. */
  lemma InsertKeepsOrder(intKey: bool, root: Tree, pages: seq<Tree>, idx: seq<nat>, k: int, c: int)
    requires FoundAt(intKey, root, pages, idx, k, c) && c != 0
    ensures var n := |pages| - 1; var keys := pages[n].keys; var j := InsertIndex(idx[n], c, |keys|);
      && j <= |keys|
      && var all' := InOrder(intKey, Rebuilt(pages, idx, n, Leaf(keys[..j] + [k] + keys[j..])));
      Ascending(all') && forall x :: x in all' <==> x in InOrder(intKey, root) || x == k
  {
    var n := |pages| - 1;
    var keys, all := pages[n].keys, InOrder(intKey, root);
    var i, j := idx[n], InsertIndex(idx[n], c, |keys|);
    var leaf := Leaf(keys[..j] + [k] + keys[j..]);
    var pre, post := Pre(intKey, pages, idx, n), Post(intKey, pages, idx, n);
    Around(intKey, pages, idx, n);
    RebuiltOrder(intKey, pages, idx, n, leaf);
    RootSorted(intKey, root);
    TopIs(intKey, pages, idx);
    InsertPosition(pre, keys, post, all, i, k, c, j);
  }

  lemma TopIs(intKey: bool, pages: seq<Tree>, idx: seq<nat>)
    requires Linked(pages, idx)
    ensures var n := |pages|;
      Post(intKey, pages, idx, n) == After(intKey, pages[n - 1], idx[n - 1]) + Post(intKey, pages, idx, n - 1)
  {
  }

  lemma InsertPosition(pre: seq<int>, keys: seq<int>, post: seq<int>, all: seq<int>, i: nat, k: int, c: int, j: nat)
    requires all == pre + (keys + post) && Ascending(all) && i < |keys| && Landed(all, keys[i..] + post, k, c) && c != 0
    requires j == if c < 0 then i + 1 else i
    ensures var all' := pre + ((keys[..j] + [k] + keys[j..]) + post);
      Ascending(all') && forall x :: x in all' <==> x in all || x == k
  {
    var p, q := |pre| + i, |pre| + j;
    var all' := pre + ((keys[..j] + [k] + keys[j..]) + post);
    assert |keys[i..] + post| == |all| - p;
    assert all' == all[..q] + [k] + all[q..];
    InsertAscending(all, q, k);
  }

  lemma InsertAscending(all: seq<int>, q: nat, k: int)
    requires Ascending(all) && q <= |all| && (q > 0 ==> all[q - 1] < k) && (q < |all| ==> k < all[q])
    ensures Ascending(all[..q] + [k] + all[q..]) && forall x :: x in all[..q] + [k] + all[q..] <==> x in all || x == k
  {
    JoinAscending(all[..q], [k]);
    JoinAscending(all[..q] + [k], all[q..]);
    assert all == all[..q] + all[q..];
  }

  /** A child that gains the key k, where the separators select it, leaves the page well formed. */
  lemma KidGains(intKey: bool, p: Tree, i: nat, t: Tree, k: int)
    requires WF(intKey, p) && Selects(intKey, p, i, k) && WF(intKey, t)
      && Gains(InOrder(intKey, p.kids[i]), InOrder(intKey, t), k)
    ensures WF(intKey, Inner(p.seps, p.kids[i := t]))
      && Gains(InOrder(intKey, p), InOrder(intKey, Inner(p.seps, p.kids[i := t])), k)
  {
    var p' := Inner(p.seps, p.kids[i := t]);
    forall j | 0 <= j < |p'.seps| ensures Bounded(intKey, p', j) {
      assert Bounded(intKey, p, j);
      assert j < i ==> p.seps[j] <= p.seps[i - 1];
    }
    SplitAt(intKey, p, i);
    SplitAt(intKey, p', i);
    KidReplaced(intKey, p, i, t, i);
  }

  /** s' has no entries but those of s and k. */
  ghost predicate Gains(s: seq<int>, s': seq<int>, k: int) {
    forall x | x in s' :: x in s || x == k
  }

  /** Replacing the leaf that the separators select by one that also holds k keeps the tree well formed. */
  lemma {:induction false} RebuiltWF(intKey: bool, pages: seq<Tree>, idx: seq<nat>, d: nat, t: Tree, k: int)
    requires Linked(pages, idx) && WFRoot(intKey, pages[0]) && Enclosed(intKey, pages, idx, k) && d < |pages|
    requires WF(intKey, t) && Gains(InOrder(intKey, pages[d]), InOrder(intKey, t), k)
    ensures WFRoot(intKey, Rebuilt(pages, idx, d, t))
  {
    if d > 0 {
      var p, i := pages[d - 1], idx[d - 1];
      assert Child(pages, idx, d - 1) && Selects(intKey, p, i, k);
      PagesWF(intKey, pages, idx, d - 1);
      if WF(intKey, p) {
        KidGains(intKey, p, i, t, k);
        RebuiltWF(intKey, pages, idx, d - 1, Inner(p.seps, p.kids[i := t]), k);
      }
    }
  }

  /** The tree with the new key is again a b-tree that can be searched. */
  lemma InsertWF(intKey: bool, root: Tree, pages: seq<Tree>, idx: seq<nat>, k: int, c: int)
    requires FoundAt(intKey, root, pages, idx, k, c) && c != 0
    ensures var n := |pages| - 1; var keys := pages[n].keys; var j := InsertIndex(idx[n], c, |keys|);
      j <= |keys| && WFRoot(intKey, Rebuilt(pages, idx, n, Leaf(keys[..j] + [k] + keys[j..])))
  {
    var n := |pages| - 1;
    var keys := pages[n].keys;
    var j := InsertIndex(idx[n], c, |keys|);
    var keys' := keys[..j] + [k] + keys[j..];
    InsertKeepsOrder(intKey, root, pages, idx, k, c);
    LeafGains(intKey, pages, idx, n, keys, j, k, keys');
    RebuiltWF(intKey, pages, idx, n, Leaf(keys'), k);
  }

  lemma LeafGains(intKey: bool, pages: seq<Tree>, idx: seq<nat>, n: nat, keys: seq<int>, j: nat, k: int,
                  keys': seq<int>)
    requires Linked(pages, idx) && n < |pages| && j <= |keys| && keys' == keys[..j] + [k] + keys[j..]
    requires Ascending(InOrder(intKey, Rebuilt(pages, idx, n, Leaf(keys'))))
    ensures WF(intKey, Leaf(keys')) && Gains(keys, keys', k)
  {
    RebuiltOrder(intKey, pages, idx, n, Leaf(keys'));
    MiddleAscending(Pre(intKey, pages, idx, n), keys', Post(intKey, pages, idx, n));
  }

  lemma MiddleAscending(a: seq<int>, b: seq<int>, c: seq<int>)
    requires Ascending(a + (b + c))
    ensures Ascending(b)
  {
    forall i, j | 0 <= i < j < |b| ensures b[i] < b[j] {
      assert (a + (b + c))[|a| + i] == b[i] && (a + (b + c))[|a| + j] == b[j];
    }
  }

  /** A search finds every key of the tree. */
  lemma FoundPresent(intKey: bool, root: Tree, pages: seq<Tree>, idx: seq<nat>, k: int, c: int)
    requires FoundAt(intKey, root, pages, idx, k, c)
    ensures c == 0 <==> k in InOrder(intKey, root)
    ensures c == 0 ==> KeyAt(intKey, root, pages, idx) == k
  {
    SuffixAt(intKey, root, pages, idx);
    RootSorted(intKey, root);
    var all := InOrder(intKey, root);
    var p := |all| - |Post(intKey, pages, idx, |pages|)|;
    assert all[p] in all;
    forall i | 0 <= i < |all| ensures c != 0 ==> all[i] != k {
    }
  }

  /** sqlite3BtreeInsert of a key, when the leaf has room for the cell: search, then put the key at its index. */
  method Insert(intKey: bool, t: Tree, k: int, bias: bool) returns (t': Tree)
    requires WFRoot(intKey, t)
    ensures WFRoot(intKey, t') && forall x :: x in InOrder(intKey, t') <==> x in InOrder(intKey, t) || x == k
    ensures k in InOrder(intKey, t) ==> t' == t
  {
    var c := new BtCursor(intKey, t);
    var loc := c.Moveto(k, bias);
    if c.eState == Invalid {
      EmptyRoot(intKey, t);
      return Leaf([k]);
    }
    FoundPresent(intKey, t, c.pages, c.idx, k, loc);
    if loc == 0 {
      return t;
    }
    InsertKeepsOrder(intKey, t, c.pages, c.idx, k, loc);
    InsertWF(intKey, t, c.pages, c.idx, k, loc);
    var n := |c.pages| - 1;
    var keys := c.pages[n].keys;
    var j := InsertIndex(c.idx[n], loc, |keys|);
    t' := Rebuilt(c.pages, c.idx, n, Leaf(keys[..j] + [k] + keys[j..]));
  }

  lemma EmptyRoot(intKey: bool, t: Tree)
    requires WFRoot(intKey, t) && InOrder(intKey, t) == []
    ensures t == Leaf([])
  {
    if WF(intKey, t) {
      NonEmpty(intKey, t);
    } else if t.Inner? {
      NonEmpty(intKey, t.kids[0]);
      OnlyChild(intKey, t);
    }
  }

  /** After inserting k a search finds it, and finds every other key exactly when it was there before. */
  method InsertThenSearch(intKey: bool, t: Tree, k: int, x: int, bias: bool) returns (res: int)
    requires WFRoot(intKey, t)
    ensures res == 0 <==> x == k || x in InOrder(intKey, t)
  {
    var t' := Insert(intKey, t, k, bias);
    assert k in InOrder(intKey, t');
    var c := new BtCursor(intKey, t');
    res := c.Moveto(x, bias);
    if c.eState == AtEntry {
      FoundPresent(intKey, t', c.pages, c.idx, x, res);
    }
  }
}
