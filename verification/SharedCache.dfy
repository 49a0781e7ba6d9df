/** Table locks and transactions of the Btrees that share one BtShared. */
module SharedLocks {

  datatype Trans = NoTrans | ReadTrans | WriteTrans
  datatype Mode = ReadLock | WriteLock
  datatype Lock = Lock(b: nat, table: nat, mode: Mode)
  datatype Option<T> = None | Some(value: T)

  const MASTER_ROOT := 1

  /** The fields of a BtShared that concern locking, and inTrans of each of its Btrees. */
  datatype Shared = Shared(
    trans: seq<Trans>, locks: seq<Lock>, writer: Option<nat>, exclusive: bool, pending: bool,
    inTransaction: Trans, nTransaction: nat)

  /** Number of Btrees in a transaction. */
  ghost function Active(trans: seq<Trans>): (n: nat) {
    if trans == [] then 0 else Active(trans[..|trans| - 1]) + if trans[|trans| - 1] != NoTrans then 1 else 0
  }

  /** A read or a write lock of b on the table is in the list. */
  ghost predicate Holds(locks: seq<Lock>, b: nat, table: nat) {
    Lock(b, table, ReadLock) in locks || Lock(b, table, WriteLock) in locks
  }

  /** Locks belong to Btrees in a transaction, write locks only to the writer. */
  ghost predicate LocksOwned(s: Shared) {
    forall l | l in s.locks ::
      l.b < |s.trans| && s.trans[l.b] != NoTrans && (l.mode == WriteLock ==> s.writer == Some(l.b))
  }

  /** Every Btree in a transaction has a lock on the schema table. */
  ghost predicate MasterHeld(s: Shared) {
    forall b | 0 <= b < |s.trans| && s.trans[b] != NoTrans :: Holds(s.locks, b, MASTER_ROOT)
  }

  /** pWriter is the one Btree in a write transaction. */
  ghost predicate OneWriter(s: Shared) {
    && (forall b | 0 <= b < |s.trans| :: s.trans[b] == WriteTrans <==> s.writer == Some(b))
    && (s.writer.Some? ==> s.writer.value < |s.trans|)
  }

  /** A write lock on a table excludes every lock of another Btree on it. */
  ghost predicate WriteExcludes(locks: seq<Lock>) {
    forall l, x | l in locks && x in locks && l.mode == WriteLock && x.table == l.table :: x.b == l.b
  }

  ghost predicate Counted(s: Shared) {
    && s.nTransaction == Active(s.trans)
    && s.inTransaction == if s.writer.Some? then WriteTrans else if s.nTransaction > 0 then ReadTrans else NoTrans
  }

  /** The flags: EXCLUSIVE means that all locks are the writer's; PENDING means that there is a writer and somebody
      else in a transaction. */
  ghost predicate FlagsOk(s: Shared) {
    && (s.exclusive ==> s.writer.Some? && forall l | l in s.locks :: l.b == s.writer.value)
    && (s.pending ==> s.writer.Some? && s.nTransaction >= 2)
  }

  ghost predicate Inv(s: Shared) {
    LocksOwned(s) && MasterHeld(s) && OneWriter(s) && WriteExcludes(s.locks) && Counted(s) && FlagsOk(s)
  }

  // ---------------------------------------------------------------- counting

  lemma {:induction false} ActiveUpdate(trans: seq<Trans>, b: nat, t: Trans)
    requires b < |trans|
    ensures Active(trans[b := t]) == Active(trans) - (if trans[b] != NoTrans then 1 else 0)
      + if t != NoTrans then 1 else 0
  {
    var last := |trans| - 1;
    if b == last {
      assert trans[b := t][..last] == trans[..last];
    } else {
      assert trans[b := t][..last] == trans[..last][b := t];
      ActiveUpdate(trans[..last], b, t);
    }
  }

  /** Two Btrees in a transaction are counted twice. */
  lemma {:induction false} ActiveTwo(trans: seq<Trans>, a: nat, b: nat)
    requires a < b < |trans| && trans[a] != NoTrans && trans[b] != NoTrans
    ensures Active(trans) >= 2
  {
    var last := |trans| - 1;
    if b < last {
      ActiveTwo(trans[..last], a, b);
    } else {
      ActiveOne(trans[..last], a);
    }
  }

  lemma {:induction false} ActiveOne(trans: seq<Trans>, a: nat)
    requires a < |trans| && trans[a] != NoTrans
    ensures Active(trans) >= 1
  {
    if a < |trans| - 1 {
      ActiveOne(trans[..|trans| - 1], a);
    }
  }

  // ---------------------------------------------------------------- the operations as functions

  /** A lock that another Btree holds on the table conflicts with the request. */
  predicate Conflicts(l: Lock, b: nat, table: nat, mode: Mode) {
    l.b != b && l.table == table && (mode == WriteLock || l.mode == WriteLock)
  }

  ghost predicate Blocked(s: Shared, b: nat, table: nat, mode: Mode) {
    (s.writer != Some(b) && s.exclusive) || exists l :: l in s.locks && Conflicts(l, b, table, mode)
  }

  /** BeginTrans after all checks have passed. */
  function Begun(s: Shared, b: nat, wrflag: nat): (s': Shared)
    requires b < |s.trans|
  {
    var first := s.trans[b] == NoTrans;
    var t := if wrflag > 0 then WriteTrans else ReadTrans;
    Shared(
      s.trans[b := t],
      if first then [Lock(b, MASTER_ROOT, ReadLock)] + s.locks else s.locks,
      if wrflag > 0 then Some(b) else s.writer,
      if wrflag > 0 then wrflag > 1 else s.exclusive,
      s.pending,
      if t == WriteTrans || s.inTransaction == NoTrans then t else s.inTransaction,
      if first then s.nTransaction + 1 else s.nTransaction)
  }

  ghost predicate MayBegin(s: Shared, b: nat, wrflag: nat)
    requires b < |s.trans|
  {
    && s.trans[b] != WriteTrans && (s.trans[b] == ReadTrans ==> wrflag > 0)
    && !(wrflag > 0 && s.inTransaction == WriteTrans) && !s.pending
    && (wrflag > 1 ==> forall l | l in s.locks :: l.b == b)
    && !Blocked(s, b, MASTER_ROOT, ReadLock)
  }

  lemma BeginInv(s: Shared, b: nat, wrflag: nat)
    requires Inv(s) && b < |s.trans| && MayBegin(s, b, wrflag)
    ensures Inv(Begun(s, b, wrflag))
  {
    var s' := Begun(s, b, wrflag);
    ActiveUpdate(s.trans, b, s'.trans[b]);
    if s.trans[b] == NoTrans {
      forall l | l in s.locks ensures l.b != b && !(l.table == MASTER_ROOT && l.mode == WriteLock) {
        assert !Conflicts(l, b, MASTER_ROOT, ReadLock);
      }
    }
    forall x | 0 <= x < |s'.trans| && s'.trans[x] != NoTrans ensures Holds(s'.locks, x, MASTER_ROOT) {
      if x != b || s.trans[b] != NoTrans {
        assert Holds(s.locks, x, MASTER_ROOT);
      }
    }
  }

  /** setSharedCacheTableLock with the list entry found at `i`, or none at i == |locks|. */
  function LockAdded(s: Shared, b: nat, table: nat, mode: Mode, i: nat): (s': Shared)
    requires i <= |s.locks|
  {
    s.(locks :=
      if i == |s.locks| then [Lock(b, table, mode)] + s.locks
      else if mode == WriteLock then s.locks[i := s.locks[i].(mode := WriteLock)] else s.locks)
  }

  /** The lock is then in the list. */
  lemma LockHeld(s: Shared, b: nat, table: nat, mode: Mode, i: nat)
    requires i <= |s.locks| && (i < |s.locks| ==> s.locks[i].b == b && s.locks[i].table == table)
    ensures var locks := LockAdded(s, b, table, mode, i).locks;
      Lock(b, table, WriteLock) in locks || (mode == ReadLock && Lock(b, table, ReadLock) in locks)
  {
    var locks := LockAdded(s, b, table, mode, i).locks;
    var at := if i == |s.locks| then 0 else i;
    assert locks[at] == Lock(b, table, locks[at].mode) && (mode == WriteLock ==> locks[at].mode == WriteLock);
    assert locks[at] in locks;
    match locks[at].mode
    case ReadLock =>
    case WriteLock =>
  }

  lemma LockInv(s: Shared, b: nat, table: nat, mode: Mode, i: nat)
    requires Inv(s) && b < |s.trans| && s.trans[b] != NoTrans && (mode == WriteLock ==> s.writer == Some(b))
    requires !Blocked(s, b, table, mode) && i <= |s.locks|
      && (i < |s.locks| ==> s.locks[i].b == b && s.locks[i].table == table)
    ensures Inv(LockAdded(s, b, table, mode, i))
  {
    var s' := LockAdded(s, b, table, mode, i);
    forall l | l in s'.locks
      ensures l in s.locks || (l.b == b && l.table == table && (l.mode == mode || l.mode == WriteLock == mode)) {
    }
    forall l | l in s.locks ensures !Conflicts(l, b, table, mode) {
    }
    forall x | 0 <= x < |s.trans| && s.trans[x] != NoTrans ensures Holds(s'.locks, x, MASTER_ROOT) {
      assert Holds(s.locks, x, MASTER_ROOT);
      StillHolds(s.locks, s'.locks, i, x, MASTER_ROOT);
    }
  }

  /** Raising a lock or adding one takes no table away from anybody. */
  lemma StillHolds(locks: seq<Lock>, locks': seq<Lock>, i: nat, x: nat, table: nat)
    requires Holds(locks, x, table)
    requires (|locks'| == |locks| + 1 && locks'[1..] == locks)
      || locks' == locks || (i < |locks| && locks' == locks[i := locks[i].(mode := WriteLock)])
    ensures Holds(locks', x, table)
    ensures Lock(x, table, WriteLock) in locks ==> Lock(x, table, WriteLock) in locks'
  {
    if Lock(x, table, WriteLock) in locks {
      var w :| 0 <= w < |locks| && locks[w] == Lock(x, table, WriteLock);
      assert locks'[if |locks'| == |locks| + 1 then w + 1 else w] == Lock(x, table, WriteLock);
    }
    var l :| l in locks && l.b == x && l.table == table;
    var k :| 0 <= k < |locks| && locks[k] == l;
    var k' := if |locks'| == |locks| + 1 then k + 1 else k;
    assert locks'[k'] == Lock(x, table, locks'[k'].mode) && locks'[k'] in locks';
    match locks'[k'].mode
    case ReadLock =>
    case WriteLock =>
  }

  /** The list without the locks of b. */
  ghost function Without(locks: seq<Lock>, b: nat): (r: seq<Lock>)
    ensures forall l :: l in r <==> l in locks && l.b != b
  {
    if locks == [] then []
    else if locks[|locks| - 1].b == b then Without(locks[..|locks| - 1], b)
    else Without(locks[..|locks| - 1], b) + [locks[|locks| - 1]]
  }

  /** All locks turned into read locks. */
  function Downgraded(locks: seq<Lock>): (r: seq<Lock>)
    ensures |r| == |locks|
  {
    seq(|locks|, i requires 0 <= i < |locks| => locks[i].(mode := ReadLock))
  }

  /** The end of a transaction of b: downgraded when other statements of the connection are active, else closed. */
  ghost function Ended(s: Shared, b: nat, others: bool): (s': Shared)
    requires b < |s.trans| && s.trans[b] != NoTrans
  {
    var mine := s.writer == Some(b);
    var inTransaction := if s.trans[b] == WriteTrans then ReadTrans else s.inTransaction;
    if others then
      Shared(s.trans[b := ReadTrans], if mine then Downgraded(s.locks) else s.locks, if mine then None else s.writer,
             s.exclusive && !mine, s.pending && !mine, inTransaction, s.nTransaction)
    else
      Shared(s.trans[b := NoTrans], Without(s.locks, b), if mine then None else s.writer,
             s.exclusive && !mine, s.pending && !mine && s.nTransaction != 2,
             if s.nTransaction <= 1 then NoTrans
               else inTransaction, if s.nTransaction > 0 then s.nTransaction - 1 else 0)
  }

  lemma EndedInv(s: Shared, b: nat, others: bool)
    requires Inv(s) && b < |s.trans| && s.trans[b] != NoTrans
    ensures s.nTransaction > 0 && Inv(Ended(s, b, others))
  {
    ActiveOne(s.trans, b);
    if others {
      DowngradedInv(s, b);
    } else {
      ClosedInv(s, b);
    }
  }

  lemma DowngradedInv(s: Shared, b: nat)
    requires Inv(s) && b < |s.trans| && s.trans[b] != NoTrans && s.nTransaction > 0
    ensures Inv(Ended(s, b, true))
  {
    var s' := Ended(s, b, true);
    ActiveUpdate(s.trans, b, ReadTrans);
    if s.writer == Some(b) {
      forall l | l in s'.locks ensures l.mode == ReadLock && l.b < |s.trans| && s.trans[l.b] != NoTrans {
        var i :| 0 <= i < |s'.locks| && s'.locks[i] == l;
        assert s.locks[i] in s.locks;
      }
    }
    forall x | 0 <= x < |s'.trans| && s'.trans[x] != NoTrans ensures Holds(s'.locks, x, MASTER_ROOT) {
      assert Holds(s.locks, x, MASTER_ROOT);
      if s.writer == Some(b) {
        var l :| l in s.locks && l.b == x && l.table == MASTER_ROOT;
        var i :| 0 <= i < |s.locks| && s.locks[i] == l;
        assert s'.locks[i] == Lock(x, MASTER_ROOT, ReadLock);
      }
    }
  }

  lemma ClosedInv(s: Shared, b: nat)
    requires Inv(s) && b < |s.trans| && s.trans[b] != NoTrans && s.nTransaction > 0
    ensures Inv(Ended(s, b, false))
  {
    var s' := Ended(s, b, false);
    ActiveUpdate(s.trans, b, NoTrans);
    forall x | 0 <= x < |s'.trans| && s'.trans[x] != NoTrans ensures Holds(s'.locks, x, MASTER_ROOT) {
      assert Holds(s.locks, x, MASTER_ROOT);
    }
    if s.writer.Some? && s.writer != Some(b) {
      var w := s.writer.value;
      assert s.trans[w] == WriteTrans;
      if w < b {
        ActiveTwo(s.trans, w, b);
      } else {
        ActiveTwo(s.trans, b, w);
      }
    }
  }

  /** A conflicting request of the writer finds another Btree in a transaction. */
  lemma ConflictMeansOther(s: Shared, b: nat, l: Lock)
    requires Inv(s) && s.writer == Some(b) && l in s.locks && l.b != b
    ensures s.nTransaction >= 2
  {
    if l.b < b {
      ActiveTwo(s.trans, l.b, b);
    } else {
      ActiveTwo(s.trans, b, l.b);
    }
  }

  /** The shortcut in querySharedCacheTableLock: comparing the two modes decides the conflict, because a write lock is
      requested only by the writer and no other Btree can then hold one. */
  lemma Shortcut(s: Shared, b: nat, table: nat, mode: Mode, l: Lock)
    requires Inv(s) && l in s.locks && (mode == WriteLock ==> s.writer == Some(b))
    ensures Conflicts(l, b, table, mode) <==> l.b != b && l.table == table && l.mode != mode
  {
  }
}

/** Whole runs of operations on a shared cache. */
module SharedRuns {
  import opened SharedLocks

  /** The changes that the operations make: a Btree is opened, a transaction begins, a table lock is granted, a lock
      is refused to the writer, a transaction ends. */
  datatype Step =
    | Open
    | Begin(b: nat, wrflag: nat)
    | Grant(b: nat, table: nat, mode: Mode, i: nat)
    | Refuse(b: nat, table: nat)
    | End(b: nat, others: bool)

  ghost predicate Enabled(s: Shared, step: Step) {
    match step
    case Open => true
    case Begin(b, wrflag) => b < |s.trans| && MayBegin(s, b, wrflag)
    case Grant(b, table, mode, i) =>
      && b < |s.trans| && s.trans[b] != NoTrans && (mode == WriteLock ==> s.writer == Some(b))
      && !Blocked(s, b, table, mode) && i <= |s.locks|
      && (i < |s.locks| ==> s.locks[i].b == b && s.locks[i].table == table)
    case Refuse(b, table) => b < |s.trans| && s.writer == Some(b) && Blocked(s, b, table, WriteLock)
    case End(b, _) => b < |s.trans| && s.trans[b] != NoTrans
  }

  ghost function After(s: Shared, step: Step): (s': Shared)
    requires Enabled(s, step)
  {
    match step
    case Open => s.(trans := s.trans + [NoTrans])
    case Begin(b, wrflag) => Begun(s, b, wrflag)
    case Grant(b, table, mode, i) => LockAdded(s, b, table, mode, i)
    case Refuse(b, table) => s.(pending := true)
    case End(b, others) => Ended(s, b, others)
  }

  ghost function Initial(): (s: Shared) {
    Shared([], [], None, false, false, NoTrans, 0)
  }

  /** The states met by a run: step i leads from state i to state i + 1. */
  ghost predicate Run(states: seq<Shared>, steps: seq<Step>) {
    && |states| == |steps| + 1
    && forall i | 0 <= i < |steps| :: StepAt(states, steps, i)
  }

  ghost predicate StepAt(states: seq<Shared>, steps: seq<Step>, i: nat)
    requires i < |steps| == |states| - 1
  {
    Enabled(states[i], steps[i]) && states[i + 1] == After(states[i], steps[i])
  }

  ghost predicate Reachable(s: Shared) {
    exists states, steps :: Run(states, steps) && states[0] == Initial() && states[|steps|] == s
  }

  /** One operation: nothing changes or one step is made. */
  ghost predicate Moved(s: Shared, s': Shared) {
    s' == s || exists step :: Enabled(s, step) && s' == After(s, step)
  }

  lemma MovedReachable(s: Shared, s': Shared)
    requires Reachable(s) && Moved(s, s')
    ensures Reachable(s')
  {
    if s' != s {
      var states, steps :| Run(states, steps) && states[0] == Initial() && states[|steps|] == s;
      var step :| Enabled(s, step) && s' == After(s, step);
      RunLonger(states, steps, step, s');
    }
  }

  lemma RunLonger(states: seq<Shared>, steps: seq<Step>, step: Step, s': Shared)
    requires Run(states, steps) && Enabled(states[|steps|], step) && s' == After(states[|steps|], step)
    ensures Run(states + [s'], steps + [step])
  {
    forall i | 0 <= i <= |steps| ensures StepAt(states + [s'], steps + [step], i) {
      assert i < |steps| ==> StepAt(states, steps, i);
    }
  }

  lemma RefuseInv(s: Shared, b: nat, table: nat)
    requires Inv(s) && Enabled(s, Refuse(b, table))
    ensures Inv(s.(pending := true))
  {
    var l :| l in s.locks && Conflicts(l, b, table, WriteLock);
    ConflictMeansOther(s, b, l);
  }

  lemma OpenInv(s: Shared)
    requires Inv(s)
    ensures Inv(s.(trans := s.trans + [NoTrans]))
  {
    assert (s.trans + [NoTrans])[..|s.trans|] == s.trans;
  }

  lemma StepInv(s: Shared, step: Step)
    requires Inv(s) && Enabled(s, step)
    ensures Inv(After(s, step))
  {
    match step
    case Open => OpenInv(s);
    case Begin(b, wrflag) => BeginInv(s, b, wrflag);
    case Grant(b, table, mode, i) => LockInv(s, b, table, mode, i);
    case Refuse(b, table) => RefuseInv(s, b, table);
    case End(b, others) => EndedInv(s, b, others);
  }

  lemma {:induction false} RunInv(states: seq<Shared>, steps: seq<Step>, i: nat)
    requires Run(states, steps) && states[0] == Initial() && i <= |steps|
    ensures Inv(states[i])
  {
    if i > 0 {
      RunInv(states, steps, i - 1);
      assert StepAt(states, steps, i - 1);
      StepInv(states[i - 1], steps[i - 1]);
    }
  }

  lemma ReachableInv(s: Shared)
    requires Reachable(s)
    ensures Inv(s)
  {
    var states, steps :| Run(states, steps) && states[0] == Initial() && states[|steps|] == s;
    RunInv(states, steps, |steps|);
  }

  /** Two Btrees of a shared cache are never both writing, nor does one lock a table that another one writes. */
  lemma WriterAlone(s: Shared, a: nat, b: nat)
    requires Reachable(s) && a < |s.trans| && b < |s.trans| && a != b
    ensures !(s.trans[a] == WriteTrans && s.trans[b] == WriteTrans)
    ensures forall l, x | l in s.locks && x in s.locks && l.b == a && x.b == b && l.table == x.table ::
      l.mode == ReadLock && x.mode == ReadLock
  {
    ReachableInv(s);
  }

  /** While a writer is exclusive no other Btree is in a transaction. */
  lemma ExclusiveAlone(s: Shared, b: nat)
    requires Reachable(s) && s.exclusive && b < |s.trans|
    ensures s.trans[b] == if s.writer == Some(b) then WriteTrans else NoTrans
  {
    ReachableInv(s);
    if s.trans[b] != NoTrans {
      assert Holds(s.locks, b, MASTER_ROOT);
    }
  }

  // ---------------------------------------------------------------- transactions as the steps tell them

  /** The transaction of Btree b after n steps: its last step says. */
  function TransOf(steps: seq<Step>, b: nat, n: nat): (t: Trans)
    requires n <= |steps|
  {
    if n == 0 then NoTrans
    else
      match steps[n - 1]
      case Begin(x, wrflag) => if x != b then TransOf(steps, b, n - 1) else if wrflag > 0 then WriteTrans else ReadTrans
      case End(x, others) => if x != b then TransOf(steps, b, n - 1) else if others then ReadTrans else NoTrans
      case _ => TransOf(steps, b, n - 1)
  }

  lemma {:induction false} TransHistory(states: seq<Shared>, steps: seq<Step>, n: nat)
    requires Run(states, steps) && states[0] == Initial() && n <= |steps|
    ensures forall b | 0 <= b :: TransOf(steps, b, n) == if b < |states[n].trans| then states[n].trans[b] else NoTrans
  {
    if n > 0 {
      TransHistory(states, steps, n - 1);
      assert StepAt(states, steps, n - 1);
      TransStep(states[n - 1], steps[n - 1]);
    }
  }

  lemma TransStep(s: Shared, step: Step)
    requires Enabled(s, step)
    ensures var s' := After(s, step);
      match step
      case Open => s'.trans == s.trans + [NoTrans]
      case Begin(b, wrflag) => b < |s.trans| && s'.trans == s.trans[b := if wrflag > 0 then WriteTrans else ReadTrans]
      case End(b, others) => b < |s.trans| && s'.trans == s.trans[b := if others then ReadTrans else NoTrans]
      case _ => s'.trans == s.trans
  {
  }

  /** Step i begins an exclusive transaction of b that no step before state j ends. */
  predicate ExclusiveSince(steps: seq<Step>, i: nat, j: nat, b: nat) {
    && i < j <= |steps| && steps[i].Begin? && steps[i].b == b && steps[i].wrflag > 1
    && forall k | i < k < j :: !(steps[k].End? && steps[k].b == b)
  }

  /** A Btree whose requests are all refused. */
  ghost predicate ShutOut(s: Shared, x: nat) {
    && (x < |s.trans| ==> s.trans[x] == NoTrans)
    && (forall wrflag :: !Enabled(s, Begin(x, wrflag)))
    && (forall table, mode, i :: !Enabled(s, Grant(x, table, mode, i)))
    && (forall table, mode :: Blocked(s, x, table, mode))
  }

  lemma {:induction false} StillExclusive(states: seq<Shared>, steps: seq<Step>, i: nat, j: nat, b: nat)
    requires Run(states, steps) && states[0] == Initial() && ExclusiveSince(steps, i, j, b)
    ensures Inv(states[j]) && states[j].exclusive && states[j].writer == Some(b) && b < |states[j].trans|
    decreases j
  {
    RunInv(states, steps, j);
    RunInv(states, steps, j - 1);
    assert StepAt(states, steps, j - 1);
    if j > i + 1 {
      StillExclusive(states, steps, i, j - 1, b);
      ExclusiveStep(states[j - 1], steps[j - 1], b);
    }
  }

  lemma ExclusiveStep(s: Shared, step: Step, b: nat)
    requires Inv(s) && Enabled(s, step) && s.exclusive && s.writer == Some(b) && !(step.End? && step.b == b)
    ensures After(s, step).exclusive && After(s, step).writer == Some(b)
  {
    if step.Begin? {
      assert OneWriter(s);
    }
  }

  /** From the step that begins an exclusive transaction until it is ended, its Btree is writing and every other Btree
      is without a transaction and refused whatever it asks for. */
  lemma ExclusiveShutsOut(states: seq<Shared>, steps: seq<Step>, i: nat, j: nat, b: nat, x: nat)
    requires Run(states, steps) && states[0] == Initial() && ExclusiveSince(steps, i, j, b) && x != b
    ensures b < |states[j].trans| && states[j].trans[b] == WriteTrans && ShutOut(states[j], x)
  {
    StillExclusive(states, steps, i, j, b);
    assert !Holds(states[j].locks, x, MASTER_ROOT);
  }

  /** Conversely the flag tells that such a transaction is open. */
  lemma {:induction false} ExclusiveBegan(states: seq<Shared>, steps: seq<Step>, j: nat) returns (i: nat, b: nat)
    requires Run(states, steps) && states[0] == Initial() && j <= |steps| && states[j].exclusive
    ensures ExclusiveSince(steps, i, j, b)
  {
    var s, step := states[j - 1], steps[j - 1];
    assert StepAt(states, steps, j - 1);
    RunInv(states, steps, j - 1);
    i, b := j - 1, 0;
    if step.Begin? && step.wrflag > 1 {
      b := step.b;
    } else {
      i, b := ExclusiveBegan(states, steps, j - 1);
      StillExclusive(states, steps, i, j - 1, b);
    }
  }

  /** Step i grants b a lock on the table, and no step before state j closes the transaction of b, or, for a lock as
      granted, none downgrades it either. */
  predicate GrantedSince(steps: seq<Step>, i: nat, j: nat, b: nat, table: nat, asGranted: bool) {
    && i < j <= |steps| && steps[i].Grant? && steps[i].b == b && steps[i].table == table
    && forall k | i < k < j :: !(steps[k].End? && steps[k].b == b && (asGranted || !steps[k].others))
  }

  lemma GrantGives(s: Shared, step: Step)
    requires step.Grant? && Enabled(s, step)
    ensures Holds(After(s, step).locks, step.b, step.table)
    ensures step.mode == WriteLock ==> Lock(step.b, step.table, WriteLock) in After(s, step).locks
  {
    LockHeld(s, step.b, step.table, step.mode, step.i);
  }

  /** A step takes no lock away but by closing the transaction, and lowers none but by a downgrade. */
  lemma StepHolds(s: Shared, step: Step, b: nat, table: nat)
    requires Enabled(s, step) && Holds(s.locks, b, table) && !(step.End? && step.b == b && !step.others)
    ensures Holds(After(s, step).locks, b, table)
    ensures Lock(b, table, WriteLock) in s.locks && !(step.End? && step.b == b) && Inv(s) ==>
      Lock(b, table, WriteLock) in After(s, step).locks
  {
    match step
    case Begin(x, wrflag) => StillHolds(s.locks, After(s, step).locks, 0, b, table);
    case Grant(x, t, mode, i) => StillHolds(s.locks, After(s, step).locks, i, b, table);
    case End(x, others) =>
      if others && s.writer == Some(x) {
        var l :| l in s.locks && l.b == b && l.table == table;
        var i :| 0 <= i < |s.locks| && s.locks[i] == l;
        assert Downgraded(s.locks)[i] == Lock(b, table, ReadLock);
      }
    case _ =>
  }

  lemma {:induction false} TableLockKept(states: seq<Shared>, steps: seq<Step>, i: nat, j: nat, b: nat, table: nat,
                                         asGranted: bool)
    requires Run(states, steps) && states[0] == Initial() && GrantedSince(steps, i, j, b, table, asGranted)
    ensures Holds(states[j].locks, b, table)
    ensures asGranted && steps[i].mode == WriteLock ==> Lock(b, table, WriteLock) in states[j].locks
    decreases j
  {
    assert StepAt(states, steps, j - 1);
    RunInv(states, steps, j - 1);
    if j == i + 1 {
      GrantGives(states[i], steps[i]);
    } else {
      TableLockKept(states, steps, i, j - 1, b, table, asGranted);
      StepHolds(states[j - 1], steps[j - 1], b, table);
    }
  }

  /** A table lock is kept until the transaction is closed, and a write lock until it is ended; as long, no other Btree
      gets a conflicting lock on the table. */
  lemma TableLockExcludes(states: seq<Shared>, steps: seq<Step>, i: nat, j: nat, b: nat, table: nat, asGranted: bool)
    requires Run(states, steps) && states[0] == Initial() && GrantedSince(steps, i, j, b, table, asGranted)
    ensures Holds(states[j].locks, b, table)
    ensures forall x, mode | x != b && (mode == WriteLock || (asGranted && steps[i].mode == WriteLock)) ::
      Blocked(states[j], x, table, mode)
    ensures forall x, mode, at | x != b && (mode == WriteLock || (asGranted && steps[i].mode == WriteLock)) ::
      !Enabled(states[j], Grant(x, table, mode, at))
  {
    TableLockKept(states, steps, i, j, b, table, asGranted);
    Excludes(states[j], b, table, asGranted && steps[i].mode == WriteLock);
  }

  lemma Excludes(s: Shared, b: nat, table: nat, writing: bool)
    requires Holds(s.locks, b, table) && (writing ==> Lock(b, table, WriteLock) in s.locks)
    ensures forall x, mode | x != b && (mode == WriteLock || writing) :: Blocked(s, x, table, mode)
  {
    forall x, mode | x != b && (mode == WriteLock || writing) ensures Blocked(s, x, table, mode) {
      var l := if Lock(b, table, WriteLock) in s.locks then Lock(b, table, WriteLock) else Lock(b, table, ReadLock);
      assert l in s.locks && Conflicts(l, x, table, mode);
    }
  }

  /** Every lock in the list was granted, or is that on the schema table which comes with a transaction. */
  lemma {:induction false} LockHasReason(states: seq<Shared>, steps: seq<Step>, j: nat, l: Lock) returns (i: nat)
    requires Run(states, steps) && states[0] == Initial() && j <= |steps| && l in states[j].locks
    ensures i < j && if steps[i].Grant? then steps[i].b == l.b && steps[i].table == l.table
                     else steps[i].Begin? && steps[i].b == l.b && l.table == MASTER_ROOT
    ensures forall k | i < k < j :: !(steps[k].End? && steps[k].b == l.b && !steps[k].others)
    decreases j
  {
    assert StepAt(states, steps, j - 1);
    var s, step := states[j - 1], steps[j - 1];
    var before := LockBefore(s, step, l);
    if before.Some? {
      i := LockHasReason(states, steps, j - 1, before.value);
    } else {
      i := j - 1;
    }
  }

  /** A lock after a step stood in the list before, perhaps in another mode, or is what the step gives. */
  lemma LockBefore(s: Shared, step: Step, l: Lock) returns (before: Option<Lock>)
    requires Enabled(s, step) && l in After(s, step).locks
    ensures before.Some? ==> before.value in s.locks && before.value.b == l.b && before.value.table == l.table
    ensures before.Some? ==> !(step.End? && step.b == l.b && !step.others)
    ensures before.None? ==> if step.Grant? then step.b == l.b && step.table == l.table
                             else step.Begin? && step.b == l.b && l.table == MASTER_ROOT
  {
    before := if l in s.locks then Some(l) else None;
    if step.End? && step.others && s.writer == Some(step.b) {
      var i :| 0 <= i < |s.locks| && Downgraded(s.locks)[i] == l;
      assert s.locks[i] in s.locks;
      before := Some(s.locks[i]);
    }
  }

  /** Nobody is refused without a reason: without a writer any Btree may begin to read, and when no Btree is in a
      transaction any may begin to write, also exclusively. */
  lemma Admitted(s: Shared, b: nat, wrflag: nat)
    requires Reachable(s) && b < |s.trans| && s.trans[b] == NoTrans
    requires if wrflag == 0 then forall x | 0 <= x < |s.trans| :: s.trans[x] != WriteTrans
             else forall x | 0 <= x < |s.trans| :: s.trans[x] == NoTrans
    ensures Enabled(s, Begin(b, wrflag))
  {
    ReachableInv(s);
    assert s.writer == None;
  }

  // ---------------------------------------------------------------- the pending flag

  /** The flag is set in all states from i up to j. */
  ghost predicate PendingDuring(states: seq<Shared>, i: nat, j: nat) {
    i <= j < |states| && forall k | i <= k <= j :: states[k].pending
  }

  /** Number of transactions closed by the steps from i up to j. */
  ghost function Closed(steps: seq<Step>, i: nat, j: nat): (n: nat)
    requires i <= j <= |steps|
  {
    if i == j then 0
    else Closed(steps, i, j - 1) + if steps[j - 1].End? && !steps[j - 1].others then 1 else 0
  }

  /** What a step made under the flag leaves alone: nobody new is in a transaction. */
  ghost predicate NoneEntered(s: Shared, s': Shared) {
    && |s.trans| <= |s'.trans|
    && forall b | 0 <= b < |s'.trans| && s'.trans[b] != NoTrans ::
      b < |s.trans| && s.trans[b] != NoTrans && (s'.trans[b] == WriteTrans ==> s.trans[b] == WriteTrans)
  }

  lemma PendingStep(s: Shared, step: Step)
    requires Inv(s) && Enabled(s, step) && s.pending
    ensures NoneEntered(s, After(s, step))
    ensures After(s, step).pending ==> After(s, step).writer == s.writer
    ensures After(s, step).pending ==>
      After(s, step).nTransaction + (if step.End? && !step.others then 1 else 0) == s.nTransaction
    ensures !After(s, step).pending ==> step.End? && (s.writer == Some(step.b) || After(s, step).nTransaction == 1)
  {
  }

  /** From a refused writer on, until the flag is cleared: no Btree begins a transaction, the writer stays the writer,
      and at most nTransaction - 2 transactions are closed. */
  lemma {:induction false} NoneEntersWhilePending(states: seq<Shared>, steps: seq<Step>, i: nat, j: nat)
    requires Run(states, steps) && states[0] == Initial() && PendingDuring(states, i, j)
    ensures NoneEntered(states[i], states[j]) && states[j].writer == states[i].writer && states[i].writer.Some?
    ensures states[j].nTransaction + Closed(steps, i, j) == states[i].nTransaction
    ensures Closed(steps, i, j) <= states[i].nTransaction - 2
  {
    RunInv(states, steps, j);
    if i < j {
      NoneEntersWhilePending(states, steps, i, j - 1);
      RunInv(states, steps, j - 1);
      assert StepAt(states, steps, j - 1);
      PendingStep(states[j - 1], steps[j - 1]);
      NoneEnteredTwice(states[i], states[j - 1], states[j]);
    }
  }

  lemma NoneEnteredTwice(a: Shared, b: Shared, c: Shared)
    requires NoneEntered(a, b) && NoneEntered(b, c)
    ensures NoneEntered(a, c)
  {
  }

  /** So a writer that has been refused a lock is not starved: as long as its transaction goes on and another Btree is
      in one, no transaction begins. */
  lemma {:induction false} NotStarved(states: seq<Shared>, steps: seq<Step>, i: nat, j: nat, b: nat)
    requires Run(states, steps) && states[0] == Initial() && i < j <= |steps| && steps[i].Refuse? && steps[i].b == b
    requires forall k | i < k < j :: !(steps[k].End? && steps[k].b == b)
    requires forall k | i < k <= j :: states[k].nTransaction >= 2
    ensures states[j].pending && states[j].writer == Some(b)
    ensures forall x, wrflag :: !Enabled(states[j], Begin(x, wrflag))
    decreases j
  {
    assert StepAt(states, steps, j - 1);
    RunInv(states, steps, j - 1);
    if j > i + 1 {
      NotStarved(states, steps, i, j - 1, b);
      PendingStep(states[j - 1], steps[j - 1]);
    }
  }

  /** The step that clears the flag is the end of the writer's transaction, or it leaves the writer as the one Btree in
      a transaction. */
  lemma FlagCleared(states: seq<Shared>, steps: seq<Step>, k: nat)
    requires Run(states, steps) && states[0] == Initial() && k < |steps|
    requires states[k].pending && !states[k + 1].pending
    ensures steps[k].End? && states[k].writer.Some?
    ensures steps[k].b != states[k].writer.value ==>
      forall b | 0 <= b < |states[k + 1].trans| :: states[k + 1].trans[b] != NoTrans <==> states[k].writer == Some(b)
  {
    RunInv(states, steps, k);
    RunInv(states, steps, k + 1);
    assert StepAt(states, steps, k);
    PendingStep(states[k], steps[k]);
    var s, s' := states[k], states[k + 1];
    var w := s.writer.value;
    if steps[k].b != w {
      assert s'.trans[w] == WriteTrans;
      forall b | 0 <= b < |s'.trans| && s'.trans[b] != NoTrans ensures b == w {
        if b < w {
          ActiveTwo(s'.trans, b, w);
        } else if w < b {
          ActiveTwo(s'.trans, w, b);
        }
      }
    }
  }
}

module SharedCache {
  import opened SharedLocks
  import opened SharedRuns

  datatype Rc = Ok | Locked | ReadOnly | NoMem | Failed

  class BtShared {
    var trans: seq<Trans>
    var pLock: seq<Lock>
    var pWriter: Option<nat>
    var exclusive: bool
    var pending: bool
    var inTransaction: Trans
    var nTransaction: nat

    ghost function Value(): (s: Shared)
      reads this
    {
      Shared(trans, pLock, pWriter, exclusive, pending, inTransaction, nTransaction)
    }

    ghost predicate Valid()
      reads this
    {
      Inv(Value())
    }

    constructor ()
      ensures Valid() && Value() == Initial() && Reachable(Value())
    {
      trans, pLock, pWriter, exclusive, pending, inTransaction, nTransaction := [], [], None, false, false, NoTrans, 0;
      new;
      assert Run([Initial()], []) && [Initial()][0] == Initial();
    }

    /** sqlite3BtreeOpen attaches another Btree. */
    method Attach() returns (b: nat)
      requires Valid()
      modifies this`trans
      ensures Valid() && b == |old(trans)| && Value() == After(old(Value()), Open)
      ensures Moved(old(Value()), Value())
    {
      OpenInv(Value());
      assert Enabled(Value(), Open);
      b := |trans|;
      trans := trans + [NoTrans];
    }

    /** querySharedCacheTableLock: may b take this lock?  A refused writer raises the pending flag. */
    method Query(b: nat, table: nat, mode: Mode) returns (rc: Rc)
      requires Valid() && b < |trans| && (mode == WriteLock ==> pWriter == Some(b))
      modifies this`pending
      ensures rc == (if Blocked(old(Value()), b, table, mode) then Locked else Ok)
      ensures pending == (old(pending) || (mode == WriteLock && rc == Locked))
      ensures Valid() && Moved(old(Value()), Value())
    {
      if pWriter != Some(b) && exclusive {
        return Locked;
      }
      for i := 0 to |pLock|
        invariant Value() == old(Value())
        invariant forall j | 0 <= j < i :: !Conflicts(pLock[j], b, table, mode)
      {
        Shortcut(Value(), b, table, mode, pLock[i]);
        if pLock[i].b != b && pLock[i].table == table && pLock[i].mode != mode {
          assert pLock[i] in pLock && Conflicts(pLock[i], b, table, mode);
          if mode == WriteLock {
            ConflictMeansOther(Value(), b, pLock[i]);
            assert Enabled(Value(), Refuse(b, table));
            pending := true;
          }
          return Locked;
        }
      }
      return Ok;
    }

    /** b has an entry for the table. */
    ghost predicate HasEntry(b: nat, table: nat)
      reads this
    {
      exists l :: l in pLock && l.b == b && l.table == table
    }

    /** setSharedCacheTableLock; with `oom` the allocation of a new entry fails. */
    method SetLock(b: nat, table: nat, mode: Mode, oom: bool) returns (rc: Rc)
      requires Valid() && b < |trans| && trans[b] != NoTrans && (mode == WriteLock ==> pWriter == Some(b))
      requires !Blocked(Value(), b, table, mode)
      modifies this`pLock
      ensures Valid() && Moved(old(Value()), Value())
      ensures rc == if oom && !old(HasEntry(b, table)) then NoMem else Ok
      ensures rc == NoMem ==> pLock == old(pLock)
      ensures rc == Ok ==> Lock(b, table, WriteLock) in pLock || (mode == ReadLock && Lock(b, table, ReadLock) in pLock)
      ensures rc == Ok ==> exists i | 0 <= i <= old(|pLock|) ::
        (forall j | 0 <= j < i :: !(old(pLock)[j].b == b && old(pLock)[j].table == table))
        && (i < old(|pLock|) ==> old(pLock)[i].b == b && old(pLock)[i].table == table)
        && Value() == LockAdded(old(Value()), b, table, mode, i)
    {
      var i := 0;
      while i < |pLock| && !(pLock[i].b == b && pLock[i].table == table)
        invariant 0 <= i <= |pLock|
        invariant forall j | 0 <= j < i :: !(pLock[j].b == b && pLock[j].table == table)
      {
        i := i + 1;
      }
      LockInv(Value(), b, table, mode, i);
      ghost var s := Value();
      assert Enabled(s, Grant(b, table, mode, i));
      if i == |pLock| {
        assert forall l | l in pLock :: !(l.b == b && l.table == table);
        if oom {
          return NoMem;
        }
        pLock := [Lock(b, table, mode)] + pLock;
      } else if mode == WriteLock {
        assert pLock[i] in pLock;
        pLock := pLock[i := pLock[i].(mode := WriteLock)];
      }
      assert Value() == LockAdded(s, b, table, mode, i);
      LockHeld(s, b, table, mode, i);
      return Ok;
    }

    /** sqlite3BtreeLockTable. */
    method LockTable(b: nat, table: nat, mode: Mode, oom: bool) returns (rc: Rc)
      requires Valid() && b < |trans| && trans[b] != NoTrans && (mode == WriteLock ==> pWriter == Some(b))
      modifies this`pLock, this`pending
      ensures Valid() && Moved(old(Value()), Value())
      ensures rc == Ok ==> Lock(b, table, WriteLock) in pLock || (mode == ReadLock && Lock(b, table, ReadLock) in pLock)
      ensures rc == if Blocked(old(Value()), b, table, mode) then Locked
                    else if oom && !old(HasEntry(b, table)) then NoMem else Ok
      ensures pending == (old(pending) || (mode == WriteLock && rc == Locked))
      ensures rc != Ok ==> pLock == old(pLock)
      ensures rc == Ok ==> exists i | 0 <= i <= |old(pLock)| :: Value() == LockAdded(old(Value()), b, table, mode, i)
    {
      rc := Query(b, table, mode);
      if rc == Ok {
        rc := SetLock(b, table, mode, oom);
      }
    }

    /** The stores of BeginTrans once all checks have passed. */
    method Enter(b: nat, wrflag: nat)
      requires Valid() && b < |trans| && MayBegin(Value(), b, wrflag)
      modifies this
      ensures Valid() && Value() == Begun(old(Value()), b, wrflag) && Moved(old(Value()), Value())
    {
      BeginInv(Value(), b, wrflag);
      ghost var s := Value();
      assert Enabled(s, Begin(b, wrflag));
      if trans[b] == NoTrans {
        nTransaction := nTransaction + 1;
        pLock := [Lock(b, MASTER_ROOT, ReadLock)] + pLock;
      }
      var t := if wrflag > 0 then WriteTrans else ReadTrans;
      trans := trans[b := t];
      if t == WriteTrans || inTransaction == NoTrans {
        inTransaction := t;
      }
      if wrflag > 0 {
        pWriter := Some(b);
        exclusive := wrflag > 1;
      }
      assert Value() == Begun(s, b, wrflag);
    }

    /** The request is met by the transaction that b already has. */
    ghost predicate Already(b: nat, wrflag: nat)
      requires b < |trans|
      reads this
    {
      trans[b] == WriteTrans || (trans[b] == ReadTrans && wrflag == 0)
    }

    /** No check and no pager operation stands against the request. */
    ghost predicate Proceeds(b: nat, wrflag: nat, readOnly: bool, pager: Rc)
      requires b < |trans|
      reads this
    {
      !Already(b, wrflag) && MayBegin(Value(), b, wrflag) && !(readOnly && wrflag > 0) && pager == Ok
    }

    /** sqlite3BtreeBeginTrans; `pager` is the outcome of locking and reading the file, `late` that of writing page 1
        and opening the savepoints of a write transaction, by which time the transaction has begun. */
    method BeginTrans(b: nat, wrflag: nat, readOnly: bool, pager: Rc, late: Rc) returns (rc: Rc)
      requires Valid() && b < |trans|
      modifies this
      ensures Valid() && Moved(old(Value()), Value())
      ensures old(Already(b, wrflag)) ==> Value() == old(Value()) && rc == if wrflag > 0 then late else Ok
      ensures old(Proceeds(b, wrflag, readOnly, pager)) ==>
        Value() == Begun(old(Value()), b, wrflag) && rc == if wrflag > 0 then late else Ok
      ensures !old(Already(b, wrflag)) && !old(Proceeds(b, wrflag, readOnly, pager)) ==>
        Value() == old(Value()) && rc != Ok
      ensures old(pending) ==> Value() == old(Value())
    {
      if trans[b] == WriteTrans || (trans[b] == ReadTrans && wrflag == 0) {
        return if wrflag > 0 then late else Ok;
      }
      if readOnly && wrflag > 0 {
        return ReadOnly;
      }
      if (wrflag > 0 && inTransaction == WriteTrans) || pending {
        return Locked;
      }
      if wrflag > 1 {
        for i := 0 to |pLock|
          invariant forall j | 0 <= j < i :: pLock[j].b == b
        {
          if pLock[i].b != b {
            return Locked;
          }
        }
      }
      rc := Query(b, MASTER_ROOT, ReadLock);
      if rc != Ok {
        return;
      }
      if pager != Ok {
        return pager;
      }
      Enter(b, wrflag);
      return if wrflag > 0 then late else Ok;
    }

    /** clearAllSharedCacheTableLocks. */
    method ClearLocks(b: nat)
      modifies this`pLock, this`pWriter, this`exclusive, this`pending
      ensures pLock == Without(old(pLock), b)
      ensures pWriter == if old(pWriter) == Some(b) then None else old(pWriter)
      ensures exclusive == (old(exclusive) && old(pWriter) != Some(b))
      ensures pending == (old(pending) && old(pWriter) != Some(b) && nTransaction != 2)
    {
      var kept := [];
      for i := 0 to |pLock|
        invariant kept == Without(pLock[..i], b)
      {
        assert pLock[..i + 1][..i] == pLock[..i];
        if pLock[i].b != b {
          kept := kept + [pLock[i]];
        }
      }
      assert pLock[..|pLock|] == pLock;
      pLock := kept;
      if pWriter == Some(b) {
        pWriter, exclusive, pending := None, false, false;
      } else if nTransaction == 2 {
        pending := false;
      }
    }

    /** downgradeAllSharedCacheTableLocks. */
    method Downgrade(b: nat)
      modifies this`pLock, this`pWriter, this`exclusive, this`pending
      ensures pLock == if old(pWriter) == Some(b) then Downgraded(old(pLock)) else old(pLock)
      ensures pWriter == if old(pWriter) == Some(b) then None else old(pWriter)
      ensures exclusive == (old(exclusive) && old(pWriter) != Some(b))
      ensures pending == (old(pending) && old(pWriter) != Some(b))
    {
      if pWriter == Some(b) {
        pWriter, exclusive, pending := None, false, false;
        ghost var locks := pLock;
        for i := 0 to |pLock|
          invariant pWriter == None && !exclusive && !pending
          invariant |pLock| == |locks| && pLock[i..] == locks[i..] && pLock[..i] == Downgraded(locks)[..i]
        {
          assert pLock[i] == locks[i];
          pLock := pLock[i := pLock[i].(mode := ReadLock)];
        }
      }
    }

    /** The end of a transaction, after the pager has committed or rolled back. */
    method EndTransaction(b: nat, others: bool)
      requires Valid() && b < |trans|
      modifies this
      ensures Valid() && Moved(old(Value()), Value())
      ensures Value() == if old(trans[b]) == NoTrans then old(Value()) else Ended(old(Value()), b, others)
      ensures old(pending) && !pending ==> old(pWriter) == Some(b) || nTransaction == 1
    {
      if trans[b] == NoTrans {
        return;
      }
      EndedInv(Value(), b, others);
      ghost var s := Value();
      assert Enabled(s, End(b, others));
      if trans[b] == WriteTrans {
        inTransaction := ReadTrans;
      }
      if others {
        Downgrade(b);
        trans := trans[b := ReadTrans];
      } else {
        ClearLocks(b);
        nTransaction := nTransaction - 1;
        if nTransaction == 0 {
          inTransaction := NoTrans;
        }
        trans := trans[b := NoTrans];
      }
      assert Value() == Ended(s, b, others);
    }
  }
}
