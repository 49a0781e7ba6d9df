/** The mutexes of shared Btrees: any number of connections, each with a list of sharable Btrees. */
module BtMutex {

  /** A sharable Btree: its BtShared, identified by the address of the mutex, and the two lock fields. */
  datatype Bt = Bt(mutex: nat, want: nat, locked: bool)

  /** Where a connection is inside sqlite3BtreeEnter for its Btree k. */
  datatype Pc =
    | Idle
    | Trying(k: nat)               // wantToLock incremented, about to try the mutex
    | Releasing(k: nat, j: nat)    // giving up later Btrees, next is j
    | Acquiring(k: nat)            // waiting for the mutex of k
    | Relocking(k: nat, j: nat)    // taking later Btrees again, next is j

  /** A connection: its Btrees in list order. */
  datatype Conn = Conn(bts: seq<Bt>, pc: Pc)

  /** All connections, who holds each mutex, and BtShared.db. */
  datatype State = State(conns: seq<Conn>, owner: map<nat, nat>, db: map<nat, nat>)

  /** One indivisible action of connection c. */
  datatype Step =
    | Enter(c: nat, k: nat)
    | TryOk(c: nat)
    | TryFail(c: nat)
    | Release(c: nat)
    | Acquire(c: nat)
    | Relock(c: nat)
    | Leave(c: nat, k: nat)

  // ---------------------------------------------------------------- the steps

  function Lock(s: State, c: nat, k: nat, pc: Pc): (s': State)
    requires c < |s.conns| && k < |s.conns[c].bts|
  {
    var conn := s.conns[c];
    var b := conn.bts[k];
    State(s.conns[c := Conn(conn.bts[k := b.(locked := true)], pc)], s.owner[b.mutex := c], s.db[b.mutex := c])
  }

  function Unlock(s: State, c: nat, k: nat, pc: Pc): (s': State)
    requires c < |s.conns| && k < |s.conns[c].bts|
  {
    var conn := s.conns[c];
    var b := conn.bts[k];
    State(s.conns[c := Conn(conn.bts[k := b.(locked := false)], pc)], s.owner - {b.mutex}, s.db)
  }

  function Goto(s: State, c: nat, pc: Pc): (s': State)
    requires c < |s.conns|
  {
    s.(conns := s.conns[c := s.conns[c].(pc := pc)])
  }

  function SetWant(s: State, c: nat, k: nat, want: nat): (s': State)
    requires c < |s.conns| && k < |s.conns[c].bts|
  {
    var conn := s.conns[c];
    s.(conns := s.conns[c := conn.(bts := conn.bts[k := conn.bts[k].(want := want)])])
  }

  /** The mutex of Btree k of connection c is free. */
  predicate Free(s: State, c: nat, k: nat)
    requires c < |s.conns| && k < |s.conns[c].bts|
  {
    s.conns[c].bts[k].mutex !in s.owner
  }

  /** When a step can happen: a mutex can be taken only while it is free. */
  ghost predicate Enabled(s: State, a: Step)
  {
    && a.c < |s.conns|
    && var conn := s.conns[a.c]; var pc := conn.pc;
    match a
    case Enter(_, k) => pc.Idle? && k < |conn.bts|
    case TryOk(_) => pc.Trying? && pc.k < |conn.bts| && Free(s, a.c, pc.k)
    case TryFail(_) => pc.Trying? && pc.k < |conn.bts|
    case Release(_) => pc.Releasing? && pc.k < pc.j <= |conn.bts|
    case Acquire(_) => pc.Acquiring? && pc.k < |conn.bts| && Free(s, a.c, pc.k)
    case Relock(_) => pc.Relocking? && pc.j <= |conn.bts| && (pc.j < |conn.bts| && conn.bts[pc.j].want > 0 ==>
      Free(s, a.c, pc.j))
    case Leave(_, k) => pc.Idle? && k < |conn.bts| && conn.bts[k].want > 0
  }

  function After(s: State, a: Step): (s': State)
    requires Enabled(s, a)
  {
    var conn := s.conns[a.c];
    var pc := conn.pc;
    match a
    case Enter(c, k) =>
      var s' := SetWant(s, c, k, conn.bts[k].want + 1);
      if conn.bts[k].locked then s' else Goto(s', c, Trying(k))
    case TryOk(c) => Lock(s, c, pc.k, Idle)
    case TryFail(c) => Goto(s, c, Releasing(pc.k, pc.k + 1))
    case Release(c) =>
      if pc.j == |conn.bts| then Goto(s, c, Acquiring(pc.k))
      else if conn.bts[pc.j].locked then Unlock(s, c, pc.j, Releasing(pc.k, pc.j + 1))
      else Goto(s, c, Releasing(pc.k, pc.j + 1))
    case Acquire(c) => Lock(s, c, pc.k, Relocking(pc.k, pc.k + 1))
    case Relock(c) =>
      if pc.j == |conn.bts| then Goto(s, c, Idle)
      else if conn.bts[pc.j].want > 0 then Lock(s, c, pc.j, Relocking(pc.k, pc.j + 1))
      else Goto(s, c, Relocking(pc.k, pc.j + 1))
    case Leave(c, k) =>
      var s' := SetWant(s, c, k, conn.bts[k].want - 1);
      if conn.bts[k].want == 1 then Unlock(s', c, k, Idle) else s'
  }

  // ---------------------------------------------------------------- what every step keeps

  /** A Btree is locked exactly when somebody wants it. */
  ghost predicate Settled(b: Bt) {
    b.locked <==> b.want > 0
  }

  /** Which Btrees are locked, depending on the progress of sqlite3BtreeEnter; before position k everything is settled.
      */
  ghost predicate Progress(conn: Conn)
  {
    var bts := conn.bts;
    match conn.pc
    case Idle => forall i | 0 <= i < |bts| :: Settled(bts[i])
    case Trying(k) => k < |bts| && bts[k].want > 0 && !bts[k].locked && forall i | 0 <= i < |bts| && i != k ::
      Settled(bts[i])
    case Releasing(k, j) =>
      && k < j <= |bts| && bts[k].want > 0
      && (forall i | 0 <= i < |bts| && !(k <= i < j) :: Settled(bts[i]))
      && (forall i | k <= i < j :: !bts[i].locked)
    case Acquiring(k) =>
      && k < |bts| && bts[k].want > 0
      && (forall i | 0 <= i < k :: Settled(bts[i]))
      && (forall i | k <= i < |bts| :: !bts[i].locked)
    case Relocking(k, j) =>
      && k < j <= |bts| && bts[k].want > 0
      && (forall i | 0 <= i < j :: Settled(bts[i]))
      && (forall i | j <= i < |bts| :: !bts[i].locked)
  }

  /** The list is in ascending order of the mutexes. */
  ghost predicate Sorted(bts: seq<Bt>) {
    forall i, j | 0 <= i < j < |bts| :: bts[i].mutex < bts[j].mutex
  }

  /** Locked Btrees are exactly those whose mutex the connection holds, and BtShared.db names the holder. */
  ghost predicate Holding(conn: Conn, c: nat, owner: map<nat, nat>, db: map<nat, nat>)
  {
    forall i | 0 <= i < |conn.bts| :: conn.bts[i].locked <==> OwnedBy(conn.bts[i].mutex, c, owner, db)
  }

  ghost predicate OwnedBy(m: nat, c: nat, owner: map<nat, nat>, db: map<nat, nat>)
  {
    m in owner && owner[m] == c && m in db && db[m] == c
  }

  /** Connection c has a locked Btree for mutex m. */
  ghost predicate Has(s: State, c: nat, m: nat) {
    c < |s.conns| && exists i :: 0 <= i < |s.conns[c].bts| && s.conns[c].bts[i].mutex == m && s.conns[c].bts[i].locked
  }

  ghost predicate LocksOk(s: State, c: nat)
    requires c < |s.conns|
  {
    Sorted(s.conns[c].bts) && Holding(s.conns[c], c, s.owner, s.db)
  }

  /** Lists are sorted, and the lock fields agree with the mutexes. */
  ghost predicate Locks(s: State)
  {
    && (forall c | 0 <= c < |s.conns| :: LocksOk(s, c))
    && (forall m | m in s.owner :: Has(s, s.owner[m], m))
  }

  ghost predicate Inv(s: State)
  {
    Locks(s) && forall c | 0 <= c < |s.conns| :: Progress(s.conns[c])
  }

  /** Nobody holds anything: the state before any call. */
  ghost predicate Init(s: State)
  {
    && s.owner == map[]
    && forall c | 0 <= c < |s.conns| :: Unused(s.conns[c])
  }

  ghost predicate Unused(conn: Conn) {
    conn.pc == Idle && Sorted(conn.bts) && forall i | 0 <= i < |conn.bts| ::
      conn.bts[i].want == 0 && !conn.bts[i].locked
  }

  lemma InitInv(s: State)
    requires Init(s)
    ensures Inv(s)
  {
    forall c | 0 <= c < |s.conns| ensures LocksOk(s, c) && Progress(s.conns[c]) {
      assert Unused(s.conns[c]);
    }
  }

  /** Only connection c changed, and of its Btrees only the lock field of k. */
  ghost predicate OnlyAt(s: State, s': State, c: nat, k: nat)
  {
    && c < |s.conns| == |s'.conns| && |s'.conns[c].bts| == |s.conns[c].bts|
    && (forall d | 0 <= d < |s.conns| && d != c :: s'.conns[d] == s.conns[d])
    && (forall i | 0 <= i < |s.conns[c].bts| :: s'.conns[c].bts[i].mutex == s.conns[c].bts[i].mutex)
    && (forall i | 0 <= i < |s.conns[c].bts| && i != k :: s'.conns[c].bts[i].locked == s.conns[c].bts[i].locked)
  }

  /** A mutex other than that of c's k-th Btree stays with its holder. */
  lemma StillHas(s: State, s': State, c: nat, k: nat, x: nat)
    requires Locks(s) && OnlyAt(s, s', c, k) && x in s.owner && (k < |s.conns[c].bts| ==> x != s.conns[c].bts[k].mutex)
    ensures Has(s', s.owner[x], x)
  {
    var d := s.owner[x];
    assert Has(s, d, x);
    var i :| 0 <= i < |s.conns[d].bts| && s.conns[d].bts[i].mutex == x && s.conns[d].bts[i].locked;
    assert s'.conns[d].bts[i].mutex == x && s'.conns[d].bts[i].locked;
  }

  /** Taking a free mutex. */
  lemma LockKeeps(s: State, c: nat, k: nat, pc: Pc)
    requires Locks(s) && c < |s.conns| && k < |s.conns[c].bts| && Free(s, c, k)
    ensures Locks(Lock(s, c, k, pc))
  {
    var s' := Lock(s, c, k, pc);
    forall d | 0 <= d < |s'.conns| ensures LocksOk(s', d) {
      assert LocksOk(s, d);
    }
    forall x | x in s'.owner ensures Has(s', s'.owner[x], x) {
      if x == s.conns[c].bts[k].mutex {
        assert s'.conns[c].bts[k].locked;
      } else {
        StillHas(s, s', c, k, x);
      }
    }
  }

  /** Giving up a mutex. */
  lemma UnlockKeeps(s: State, c: nat, k: nat, pc: Pc)
    requires Locks(s) && c < |s.conns| && k < |s.conns[c].bts| && s.conns[c].bts[k].locked
    ensures Locks(Unlock(s, c, k, pc))
  {
    var s' := Unlock(s, c, k, pc);
    assert LocksOk(s, c);
    forall d | 0 <= d < |s'.conns| ensures LocksOk(s', d) {
      assert LocksOk(s, d);
    }
    forall x | x in s'.owner ensures Has(s', s'.owner[x], x) {
      StillHas(s, s', c, k, x);
    }
  }

  /** Moving the program counter or a wish counter of one connection. */
  lemma SameLocks(s: State, s': State, c: nat)
    requires Locks(s) && c < |s.conns| && OnlyAt(s, s', c, |s.conns[c].bts|) && s'.owner == s.owner && s'.db == s.db
    ensures Locks(s')
  {
    forall d | 0 <= d < |s'.conns| ensures LocksOk(s', d) {
      assert LocksOk(s, d);
    }
    forall x | x in s'.owner ensures Has(s', s'.owner[x], x) {
      StillHas(s, s', c, |s.conns[c].bts|, x);
    }
  }

  /** Every step keeps the lock fields and the mutexes in agreement. */
  lemma StepLocks(s: State, a: Step)
    requires Inv(s) && Enabled(s, a)
    ensures Locks(After(s, a))
  {
    var c, conn := a.c, s.conns[a.c];
    assert Progress(conn);
    match a
    case Enter(_, k) =>
      SameLocks(s, After(s, a), c);
    case TryOk(_) =>
      LockKeeps(s, c, conn.pc.k, Idle);
    case TryFail(_) =>
      SameLocks(s, After(s, a), c);
    case Release(_) =>
      if conn.pc.j < |conn.bts| && conn.bts[conn.pc.j].locked {
        UnlockKeeps(s, c, conn.pc.j, Releasing(conn.pc.k, conn.pc.j + 1));
      } else {
        SameLocks(s, After(s, a), c);
      }
    case Acquire(_) =>
      LockKeeps(s, c, conn.pc.k, Relocking(conn.pc.k, conn.pc.k + 1));
    case Relock(_) =>
      if conn.pc.j < |conn.bts| && conn.bts[conn.pc.j].want > 0 {
        LockKeeps(s, c, conn.pc.j, Relocking(conn.pc.k, conn.pc.j + 1));
      } else {
        SameLocks(s, After(s, a), c);
      }
    case Leave(_, k) =>
      LeaveLocks(s, c, k);
  }

  lemma LeaveLocks(s: State, c: nat, k: nat)
    requires Inv(s) && Enabled(s, Leave(c, k))
    ensures Locks(After(s, Leave(c, k)))
  {
    var b := s.conns[c].bts[k];
    assert Progress(s.conns[c]) && Settled(b);
    var s' := SetWant(s, c, k, b.want - 1);
    SameLocks(s, s', c);
    if b.want == 1 {
      UnlockKeeps(s', c, k, Idle);
    }
  }

  /** Every step leaves the stepping connection at a consistent place. */
  lemma StepProgress(s: State, a: Step)
    requires Inv(s) && Enabled(s, a)
    ensures Progress(After(s, a).conns[a.c])
  {
    if a.Leave? || a.Enter? {
      CallProgress(s, a);
    } else {
      WalkProgress(s, a);
    }
  }

  lemma CallProgress(s: State, a: Step)
    requires Inv(s) && Enabled(s, a) && (a.Leave? || a.Enter?)
    ensures Progress(After(s, a).conns[a.c])
  {
    assert Progress(s.conns[a.c]) && Settled(s.conns[a.c].bts[a.k]);
  }

  lemma WalkProgress(s: State, a: Step)
    requires Inv(s) && Enabled(s, a) && !a.Leave? && !a.Enter?
    ensures Progress(After(s, a).conns[a.c])
  {
    assert Progress(s.conns[a.c]);
  }

  lemma StepInv(s: State, a: Step)
    requires Inv(s) && Enabled(s, a)
    ensures Inv(After(s, a))
  {
    StepLocks(s, a);
    StepProgress(s, a);
    forall d | 0 <= d < |s.conns| && d != a.c ensures After(s, a).conns[d] == s.conns[d] {
    }
  }

  // ---------------------------------------------------------------- every run

  /** The states passed by the steps `run` from `s`, as far as each is enabled. */
  ghost predicate Run(s: State, run: seq<Step>, s': State)
    decreases |run|
  {
    if run == [] then s' == s
    else Enabled(s, run[0]) && Run(After(s, run[0]), run[1..], s')
  }

  ghost predicate Reachable(s: State) {
    exists s0, run :: Init(s0) && Run(s0, run, s)
  }

  lemma {:induction false} RunInv(s: State, run: seq<Step>, s': State)
    requires Inv(s) && Run(s, run, s')
    ensures Inv(s')
    decreases |run|
  {
    if run != [] {
      StepInv(s, run[0]);
      RunInv(After(s, run[0]), run[1..], s');
    }
  }

  lemma ReachableInv(s: State)
    requires Reachable(s)
    ensures Inv(s)
  {
    var s0, run :| Init(s0) && Run(s0, run, s);
    InitInv(s0);
    RunInv(s0, run, s);
  }

  // ---------------------------------------------------------------- calls of a run

  /** How often connection c has entered its Btree k in a run, less how often it has left it. */
  function Entered(run: seq<Step>, c: nat, k: nat): (n: int) {
    if run == [] then 0
    else (if run[0] == Enter(c, k) then 1 else if run[0] == Leave(c, k) then -1 else 0) + Entered(run[1..], c, k)
  }

  lemma StepCounts(s: State, a: Step, c: nat, k: nat)
    requires Enabled(s, a) && c < |s.conns| && k < |s.conns[c].bts|
    ensures |After(s, a).conns| == |s.conns| && |After(s, a).conns[c].bts| == |s.conns[c].bts|
    ensures After(s, a).conns[c].bts[k].want
         == s.conns[c].bts[k].want + if a == Enter(c, k) then 1 else if a == Leave(c, k) then -1 else 0
  {
  }

  /** wantToLock counts the calls, nested ones and those of other connections' runs in between included. */
  lemma {:induction false} WantCounts(s: State, run: seq<Step>, s': State, c: nat, k: nat)
    requires Run(s, run, s') && c < |s.conns| && k < |s.conns[c].bts|
    ensures |s'.conns| == |s.conns| && |s'.conns[c].bts| == |s.conns[c].bts|
    ensures s'.conns[c].bts[k].want == s.conns[c].bts[k].want + Entered(run, c, k)
    decreases |run|
  {
    if run != [] {
      StepCounts(s, run[0], c, k);
      WantCounts(After(s, run[0]), run[1..], s', c, k);
    }
  }

  /** After any run from the state before any call, a connection that is not in a call has a Btree locked, and holds its
      mutex, if and only if it has entered it more often than it has left it. */
  lemma LockedWhileEntered(s: State, run: seq<Step>, s': State, c: nat, k: nat)
    requires Init(s) && Run(s, run, s') && c < |s.conns| && k < |s.conns[c].bts|
    ensures |s'.conns| == |s.conns| && |s'.conns[c].bts| == |s.conns[c].bts|
    ensures s'.conns[c].bts[k].want == Entered(run, c, k) >= 0
    ensures s'.conns[c].pc == Idle ==> (s'.conns[c].bts[k].locked <==> Entered(run, c, k) > 0)
    ensures s'.conns[c].pc == Idle ==>
      (Entered(run, c, k) > 0 <==> OwnedBy(s'.conns[c].bts[k].mutex, c, s'.owner, s'.db))
  {
    assert Unused(s.conns[c]);
    WantCounts(s, run, s', c, k);
    InitInv(s);
    RunInv(s, run, s');
    assert Progress(s'.conns[c]) && LocksOk(s', c);
    assert s'.conns[c].pc == Idle ==> Settled(s'.conns[c].bts[k]);
  }

  // ---------------------------------------------------------------- the theorems

  /** Connection c is in a blocking call for mutex m. */
  ghost predicate Wants(s: State, c: nat, m: nat)
  {
    && c < |s.conns|
    && var conn := s.conns[c];
    || (conn.pc.Acquiring? && conn.pc.k < |conn.bts| && m == conn.bts[conn.pc.k].mutex)
    || (conn.pc.Relocking? && conn.pc.j < |conn.bts| && conn.bts[conn.pc.j].want > 0 && m == conn.bts[conn.pc.j].mutex)
  }

  /** Connection c waits for mutex m, which connection d holds. */
  ghost predicate WaitsFor(s: State, c: nat, m: nat, d: nat)
  {
    Wants(s, c, m) && m in s.owner && s.owner[m] == d
  }

  /** A connection that may block on a mutex holds only mutexes below it. */
  lemma HoldsLower(s: State, c: nat, m: nat, h: nat)
    requires Reachable(s) && Wants(s, c, m) && h in s.owner && s.owner[h] == c
    ensures h < m
  {
    ReachableInv(s);
    assert LocksOk(s, c) && Progress(s.conns[c]) && Has(s, c, h);
  }

  /** A connection never waits for a mutex that it holds itself. */
  lemma NoSelfWait(s: State, c: nat, m: nat)
    requires Reachable(s) && Wants(s, c, m)
    ensures !WaitsFor(s, c, m, c)
  {
    if WaitsFor(s, c, m, c) {
      HoldsLower(s, c, m, m);
    }
  }

  ghost function NextIn(cs: seq<nat>, i: nat): (c: nat)
    requires i < |cs|
  {
    if i + 1 < |cs| then cs[i + 1] else cs[0]
  }

  /** cs[i] waits for ms[i], held by the next in the cycle. */
  ghost predicate WaitCycle(s: State, cs: seq<nat>, ms: seq<nat>)
  {
    && |cs| == |ms| > 0
    && forall i {:trigger ms[i]} | 0 <= i < |cs| :: WaitsFor(s, cs[i], ms[i], NextIn(cs, i))
  }

  lemma {:induction false} Ascending(s: State, cs: seq<nat>, ms: seq<nat>, i: nat)
    requires Reachable(s) && WaitCycle(s, cs, ms) && i < |cs|
    ensures ms[0] <= ms[i]
  {
    if i > 0 {
      Ascending(s, cs, ms, i - 1);
      assert WaitsFor(s, cs[i - 1], ms[i - 1], NextIn(cs, i - 1)) && WaitsFor(s, cs[i], ms[i], NextIn(cs, i));
      HoldsLower(s, cs[i], ms[i], ms[i - 1]);
    }
  }

  /** No reachable state has a cycle of waiting connections, of any length. */
  lemma NoDeadlock(s: State, cs: seq<nat>, ms: seq<nat>)
    requires Reachable(s)
    ensures !WaitCycle(s, cs, ms)
  {
    if WaitCycle(s, cs, ms) {
      var last := |cs| - 1;
      Ascending(s, cs, ms, last);
      assert WaitsFor(s, cs[last], ms[last], NextIn(cs, last)) && WaitsFor(s, cs[0], ms[0], NextIn(cs, 0));
      HoldsLower(s, cs[0], ms[0], ms[last]);
    }
  }

  /** A connection inside sqlite3BtreeEnter can go on unless it waits for a mutex that somebody holds; outside it can
      enter any of its Btrees, and leave those that it wants. */
  lemma CanStep(s: State, c: nat, k: nat) returns (a: Step)
    requires Reachable(s) && c < |s.conns| && k < |s.conns[c].bts|
    ensures s.conns[c].pc == Idle ==>
      Enabled(s, Enter(c, k)) && (s.conns[c].bts[k].want > 0 ==> Enabled(s, Leave(c, k)))
    ensures s.conns[c].pc != Idle ==>
      (a.c == c && Enabled(s, a)) || (exists m :: m in s.owner && WaitsFor(s, c, m, s.owner[m]))
  {
    ReachableInv(s);
    assert Progress(s.conns[c]);
    match s.conns[c].pc
    case Idle => a := Enter(c, k);
    case Trying(_) => a := TryFail(c);
    case Releasing(_, _) => a := Release(c);
    case Acquiring(i) =>
      a := Acquire(c);
      assert !Free(s, c, i) ==> WaitsFor(s, c, s.conns[c].bts[i].mutex, s.owner[s.conns[c].bts[i].mutex]);
    case Relocking(_, j) =>
      a := Relock(c);
      assert j < |s.conns[c].bts| && !Free(s, c, j) && s.conns[c].bts[j].want > 0 ==>
          WaitsFor(s, c, s.conns[c].bts[j].mutex, s.owner[s.conns[c].bts[j].mutex]);
  }

  /** Steps that are left of the call of sqlite3BtreeEnter that a connection is in, at most. */
  function Remaining(conn: Conn): (n: int) {
    match conn.pc
    case Idle => 0
    case Trying(_) => 2 * |conn.bts| + 2
    case Releasing(_, j) => 2 * |conn.bts| + 2 - j
    case Acquiring(_) => |conn.bts| + 1
    case Relocking(_, j) => |conn.bts| + 1 - j
  }

  /** So a call returns after at most 2n + 2 steps of its own for n Btrees, and others do not prolong it. */
  lemma CallEnds(s: State, a: Step, c: nat)
    requires Reachable(s) && Enabled(s, a) && c < |s.conns|
    ensures 0 <= Remaining(s.conns[c]) <= 2 * |s.conns[c].bts| + 2
      && (Remaining(s.conns[c]) == 0 <==> s.conns[c].pc.Idle?)
    ensures c == a.c && !s.conns[c].pc.Idle? ==> Remaining(After(s, a).conns[c]) < Remaining(s.conns[c])
    ensures c != a.c ==> After(s, a).conns[c] == s.conns[c]
  {
    ReachableInv(s);
    assert Progress(s.conns[c]);
  }

  /** Following the holders from a waiting connection leads to one that is not waiting. */
  lemma {:induction false} SomeoneMoves(s: State, c: nat, m: nat, bound: nat) returns (d: nat)
    requires Reachable(s) && Wants(s, c, m) && m in s.owner
    requires forall x, i | 0 <= x < |s.conns| && 0 <= i < |s.conns[x].bts| :: s.conns[x].bts[i].mutex < bound
    ensures d < |s.conns| && forall x, y | x in s.owner :: !WaitsFor(s, d, x, y)
    decreases bound - m
  {
    ReachableInv(s);
    d := s.owner[m];
    assert Has(s, d, m);
    if x, y :| x in s.owner && WaitsFor(s, d, x, y) {
      HoldsLower(s, d, x, m);
      d := SomeoneMoves(s, d, x, bound);
    }
  }

  /** When sqlite3BtreeEnter has returned, exactly the Btrees with wantToLock > 0 are locked; so after EnterAll, in
      whatever order it visits them, all are. */
  lemma ReturnedLocked(s: State, c: nat, i: nat)
    requires Reachable(s) && c < |s.conns| && s.conns[c].pc == Idle && i < |s.conns[c].bts|
    ensures s.conns[c].bts[i].locked <==> s.conns[c].bts[i].want > 0
    ensures s.conns[c].bts[i].locked ==> OwnedBy(s.conns[c].bts[i].mutex, c, s.owner, s.db)
  {
    ReachableInv(s);
    assert Progress(s.conns[c]) && LocksOk(s, c);
    assert Settled(s.conns[c].bts[i]);
  }

  /** Mutual exclusion: two connections never have the same BtShared locked. */
  lemma MutualExclusion(s: State, c: nat, i: nat, d: nat, j: nat)
    requires Reachable(s) && c < |s.conns| && d < |s.conns| && i < |s.conns[c].bts| && j < |s.conns[d].bts|
    requires s.conns[c].bts[i].locked && s.conns[d].bts[j].locked && s.conns[c].bts[i].mutex == s.conns[d].bts[j].mutex
    ensures c == d && i == j
  {
    ReachableInv(s);
    assert LocksOk(s, c) && LocksOk(s, d);
  }

  // ---------------------------------------------------------------- where a new Btree goes in the list

  /** The list with b at position p. */
  function InsertAt(bts: seq<Bt>, b: Bt, p: nat): (r: seq<Bt>)
    requires p <= |bts|
  {
    seq(|bts| + 1, i requires 0 <= i <= |bts| => if i < p then bts[i] else if i == p then b else bts[i - 1])
  }

  lemma InsertSorted(bts: seq<Bt>, b: Bt, p: nat)
    requires Sorted(bts) && p <= |bts| && (p > 0 ==> bts[p - 1].mutex < b.mutex)
      && (p < |bts| ==> b.mutex < bts[p].mutex)
    ensures Sorted(InsertAt(bts, b, p))
  {
  }

  lemma InsertMultiset(bts: seq<Bt>, b: Bt, p: nat)
    requires p <= |bts|
    ensures multiset(InsertAt(bts, b, p)) == multiset(bts) + multiset{b}
  {
    assert bts == bts[..p] + bts[p..] && InsertAt(bts, b, p) == bts[..p] + [b] + bts[p..];
  }

  /** The linking loop of sqlite3BtreeOpen: from any Btree of the connection back to the front, then forward to the
      place that keeps the list sorted.  A connection never opens the same BtShared twice. */
  method LinkSharable(bts: seq<Bt>, from: nat, b: Bt) returns (r: seq<Bt>)
    requires Sorted(bts) && (bts != [] ==> from < |bts|) && forall i | 0 <= i < |bts| :: bts[i].mutex != b.mutex
    ensures Sorted(r) && multiset(r) == multiset(bts) + multiset{b}
  {
    if bts == [] {
      return [b];
    }
    var i := from;
    while i > 0
      invariant 0 <= i <= from
    {
      i := i - 1;
    }
    if b.mutex < bts[i].mutex {
      InsertSorted(bts, b, 0);
      InsertMultiset(bts, b, 0);
      return InsertAt(bts, b, 0);
    }
    while i + 1 < |bts| && bts[i + 1].mutex < b.mutex
      invariant 0 <= i < |bts| && bts[i].mutex < b.mutex
    {
      i := i + 1;
    }
    InsertSorted(bts, b, i + 1);
    InsertMultiset(bts, b, i + 1);
    r := InsertAt(bts, b, i + 1);
  }
}
