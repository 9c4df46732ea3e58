/**
  The lock manager of src/transaction/transaction.c as a transition system over values.

  Every lock is recorded twice, once in its transaction's own list and once in the global list.
  A transaction is named by its position in the manager's list; its id is that position plus one.
*/
module TransactionSpec {

  datatype LockKind = Shared | Exclusive | IntentShared | IntentExclusive

  datatype Lock = Lock(resource: nat, kind: LockKind, owner: nat, acquired: nat)

  datatype State = Active | Committed | RolledBack | Prepared | Failed

  datatype Isolation = ReadUncommitted | ReadCommitted | RepeatableRead | Serializable

  datatype Txn = Txn(id: nat, state: State, isolation: Isolation, startTime: nat, commitTime: nat, locks: seq<Lock>)

  datatype Manager = Manager(txns: seq<Txn>, locks: seq<Lock>, nextId: nat, active: int, max: nat)

  datatype Op =
    | Begin(isolation: Isolation, now: nat)
    | Acquire(tx: nat, resource: nat, kind: LockKind, now: nat)
    | Release(tx: nat, resource: nat)
    | Commit(tx: nat, now: nat)
    | Rollback(tx: nat, now: nat)
    | CleanupTimeout(now: nat)
    | HandleDeadlock(now: nat)

  const TIMEOUT_SECONDS: nat := 300000 / 1000

  // ---------- Lock lists ----------

  /** Removes the first record of `owner` on `resource`, as the pointer loops over the global list do. */
  function RemoveFirst(locks: seq<Lock>, owner: nat, resource: nat): seq<Lock> {
    if locks == [] then []
    else if locks[0].owner == owner && locks[0].resource == resource then locks[1..]
    else [locks[0]] + RemoveFirst(locks[1..], owner, resource)
  }

  /** The removal loops of commit and rollback: for each own record, the first matching global one. */
  function RemoveEach(locks: seq<Lock>, own: seq<Lock>, owner: nat): seq<Lock>
    decreases |own|
  {
    if own == [] then locks
    else RemoveEach(RemoveFirst(locks, owner, own[0].resource), own[1..], owner)
  }

  function OwnedBy(locks: seq<Lock>, owner: nat): seq<Lock> {
    if locks == [] then []
    else if locks[0].owner == owner then [locks[0]] + OwnedBy(locks[1..], owner)
    else OwnedBy(locks[1..], owner)
  }

  function NotOwnedBy(locks: seq<Lock>, owner: nat): seq<Lock> {
    if locks == [] then []
    else if locks[0].owner == owner then NotOwnedBy(locks[1..], owner)
    else [locks[0]] + NotOwnedBy(locks[1..], owner)
  }

  lemma {:induction false} OwnedByAppend(a: seq<Lock>, b: seq<Lock>, owner: nat)
    ensures OwnedBy(a + b, owner) == OwnedBy(a, owner) + OwnedBy(b, owner)
  {
    if a == [] {
      assert a + b == b;
    } else {
      assert (a + b)[1..] == a[1..] + b;
      OwnedByAppend(a[1..], b, owner);
    }
  }

  lemma {:induction false} OwnedByMembers(locks: seq<Lock>, owner: nat)
    ensures forall l :: l in OwnedBy(locks, owner) <==> l in locks && l.owner == owner
    ensures forall l :: l in NotOwnedBy(locks, owner) <==> l in locks && l.owner != owner
  {
    if locks != [] {
      OwnedByMembers(locks[1..], owner);
      assert forall l :: l in locks <==> l == locks[0] || l in locks[1..];
    }
  }

  /** A removal takes the same record out of the owner's view, and nothing out of any other. */
  lemma {:induction false} RemoveFirstOwned(locks: seq<Lock>, owner: nat, resource: nat, other: nat)
    ensures OwnedBy(RemoveFirst(locks, owner, resource), owner) == RemoveFirst(OwnedBy(locks, owner), owner, resource)
    ensures other != owner ==> OwnedBy(RemoveFirst(locks, owner, resource), other) == OwnedBy(locks, other)
    ensures NotOwnedBy(RemoveFirst(locks, owner, resource), owner) == NotOwnedBy(locks, owner)
  {
    if locks != [] {
      RemoveFirstOwned(locks[1..], owner, resource, other);
      if locks[0].owner == owner {
        assert ([locks[0]] + OwnedBy(locks[1..], owner))[1..] == OwnedBy(locks[1..], owner);
      }
      if !(locks[0].owner == owner && locks[0].resource == resource) {
        assert ([locks[0]] + RemoveFirst(locks[1..], owner, resource))[1..] == RemoveFirst(locks[1..], owner, resource);
      }
    }
  }

  /**
    When a transaction's list is the global list filtered by its id, in order, the first-match loops
    remove exactly its records, repeated ones included, and keep everybody else's in order.
  */
  lemma {:induction false} RemoveEachRemovesAll(locks: seq<Lock>, own: seq<Lock>, owner: nat)
    requires own == OwnedBy(locks, owner)
    ensures RemoveEach(locks, own, owner) == NotOwnedBy(locks, owner)
    decreases |own|
  {
    OwnedByMembers(locks, owner);
    if own == [] {
      NothingOwned(locks, owner);
    } else {
      assert own[0] in own;
      assert RemoveFirst(own, owner, own[0].resource) == own[1..];
      RemoveFirstOwned(locks, owner, own[0].resource, owner);
      RemoveEachRemovesAll(RemoveFirst(locks, owner, own[0].resource), own[1..], owner);
    }
  }

  lemma {:induction false} NothingOwned(locks: seq<Lock>, owner: nat)
    requires OwnedBy(locks, owner) == []
    ensures NotOwnedBy(locks, owner) == locks
  {
    if locks != [] {
      NothingOwned(locks[1..], owner);
    }
  }

  lemma {:induction false} NotOwnedByOthers(locks: seq<Lock>, owner: nat, other: nat)
    ensures OwnedBy(NotOwnedBy(locks, owner), other) == if other == owner then [] else OwnedBy(locks, other)
  {
    if locks != [] {
      NotOwnedByOthers(locks[1..], owner, other);
      if locks[0].owner != owner {
        assert ([locks[0]] + NotOwnedBy(locks[1..], owner))[1..] == NotOwnedBy(locks[1..], owner);
      }
    }
  }

  // ---------- Conflicts ----------

  /** Whether a held lock refuses a request by somebody else, as `check_lock_conflict` tests it. */
  predicate Blocks(held: LockKind, requested: LockKind) {
    requested == Exclusive || (requested == Shared && held == Exclusive)
  }

  predicate HasConflict(locks: seq<Lock>, resource: nat, owner: nat, kind: LockKind) {
    exists i :: 0 <= i < |locks| && locks[i].resource == resource && locks[i].owner != owner
                && Blocks(locks[i].kind, kind)
  }

  /** No lock was granted against an earlier one of another transaction that blocks it. */
  ghost predicate Compatible(locks: seq<Lock>) {
    forall i, j :: 0 <= i < j < |locks| && locks[i].resource == locks[j].resource && locks[i].owner != locks[j].owner
      ==> !Blocks(locks[i].kind, locks[j].kind)
  }

  lemma CompatibleAppend(locks: seq<Lock>, l: Lock)
    requires Compatible(locks) && !HasConflict(locks, l.resource, l.owner, l.kind)
    ensures Compatible(locks + [l])
  {
  }

  lemma CompatibleTail(locks: seq<Lock>)
    requires Compatible(locks) && locks != []
    ensures Compatible(locks[1..])
  {
  }

  lemma CompatiblePrepend(part: seq<Lock>, whole: seq<Lock>)
    requires part != [] && whole != [] && part[0] == whole[0] && Compatible(whole) && Compatible(part[1..])
    requires forall l :: l in part[1..] ==> l in whole[1..]
    ensures Compatible(part)
  {
    forall j | 0 < j < |part| && part[0].resource == part[j].resource && part[0].owner != part[j].owner
      ensures !Blocks(part[0].kind, part[j].kind)
    {
      assert part[1..][j - 1] == part[j] && part[j] in part[1..];
      var k :| 0 <= k < |whole[1..]| && whole[1..][k] == part[j];
      assert whole[k + 1] == part[j];
    }
    assert forall j :: 0 < j < |part| ==> part[j] == part[1..][j - 1];
  }

  /** Releasing locks never makes the rest incompatible. */
  lemma {:induction false} RemovalsStayCompatible(locks: seq<Lock>, owner: nat, resource: nat)
    requires Compatible(locks)
    ensures Compatible(RemoveFirst(locks, owner, resource)) && Compatible(NotOwnedBy(locks, owner))
    ensures forall l :: l in RemoveFirst(locks, owner, resource) ==> l in locks
    ensures forall l :: l in NotOwnedBy(locks, owner) ==> l in locks
  {
    if locks != [] {
      CompatibleTail(locks);
      RemovalsStayCompatible(locks[1..], owner, resource);
      assert forall l :: l in locks <==> l == locks[0] || l in locks[1..];
      var kept := [locks[0]] + RemoveFirst(locks[1..], owner, resource);
      assert kept[1..] == RemoveFirst(locks[1..], owner, resource);
      CompatiblePrepend(kept, locks);
      var others := [locks[0]] + NotOwnedBy(locks[1..], owner);
      assert others[1..] == NotOwnedBy(locks[1..], owner);
      CompatiblePrepend(others, locks);
    }
  }

  // ---------- Steps ----------

  function BeginStep(m: Manager, isolation: Isolation, now: nat): (Manager, bool) {
    if m.active >= m.max then (m, false)
    else
      // READ UNCOMMITTED is the enumeration's zero, which the code takes for "use the default".
      var chosen := if isolation == ReadUncommitted then RepeatableRead else isolation;
      (m.(txns := m.txns + [Txn(m.nextId, Active, chosen, now, 0, [])], nextId := m.nextId + 1, active := m.active + 1),
       true)
  }

  function AcquireStep(m: Manager, tx: nat, resource: nat, kind: LockKind, now: nat): (Manager, bool) {
    if tx >= |m.txns| || m.txns[tx].state != Active then (m, false)
    else if HasConflict(m.locks, resource, m.txns[tx].id, kind) then (m, false)
    else
      var l := Lock(resource, kind, m.txns[tx].id, now);
      (m.(txns := m.txns[tx := m.txns[tx].(locks := m.txns[tx].locks + [l])], locks := m.locks + [l]), true)
  }

  /** Removes the first record on `resource` from a transaction's own list, which does not look at owners. */
  function RemoveOwn(own: seq<Lock>, resource: nat): seq<Lock> {
    if own == [] then []
    else if own[0].resource == resource then own[1..]
    else [own[0]] + RemoveOwn(own[1..], resource)
  }

  predicate Holds(own: seq<Lock>, resource: nat) {
    exists i :: 0 <= i < |own| && own[i].resource == resource
  }

  function ReleaseStep(m: Manager, tx: nat, resource: nat): (Manager, bool) {
    if tx >= |m.txns| || !Holds(m.txns[tx].locks, resource) then (m, false)
    else
      (m.(txns := m.txns[tx := m.txns[tx].(locks := RemoveOwn(m.txns[tx].locks, resource))],
          locks := RemoveFirst(m.locks, m.txns[tx].id, resource)), true)
  }

  /** The common part of commit and rollback. */
  function End(m: Manager, tx: nat, state: State, now: nat): Manager
    requires tx < |m.txns|
  {
    m.(txns := m.txns[tx := m.txns[tx].(state := state, commitTime := now, locks := [])],
       locks := RemoveEach(m.locks, m.txns[tx].locks, m.txns[tx].id),
       active := m.active - 1)
  }

  function CommitStep(m: Manager, tx: nat, now: nat): (Manager, bool) {
    if tx >= |m.txns| || m.txns[tx].state != Active then (m, false)
    else (End(m, tx, Committed, now), true)
  }

  predicate Open(state: State) {
    state == Active || state == Prepared
  }

  function RollbackStep(m: Manager, tx: nat, now: nat): (Manager, bool) {
    if tx >= |m.txns| || !Open(m.txns[tx].state) then (m, false)
    else (End(m, tx, RolledBack, now), true)
  }

  /** The age test on unsigned 64-bit seconds, which wraps when the clock went back. */
  predicate Expired(t: Txn, now: nat) {
    t.state == Active && (now - t.startTime) % 0x1_0000_0000_0000_0000 > TIMEOUT_SECONDS
  }

  /** The scan of `transaction_cleanup_timeout` over the first `n` transactions. */
  function CleanupFirst(m: Manager, n: nat, now: nat): (r: (Manager, bool))
    requires n <= |m.txns|
    ensures |r.0.txns| == |m.txns|
  {
    if n == 0 then (m, false)
    else
      var (before, cleaned) := CleanupFirst(m, n - 1, now);
      if Expired(before.txns[n - 1], now) then (RollbackStep(before, n - 1, now).0, true) else (before, cleaned)
  }

  /** The scan of `transaction_handle_deadlock`: the oldest active transaction so far, or the count if none. */
  function OldestOf(txns: seq<Txn>, n: nat, now: nat): (nat, nat)
    requires n <= |txns|
  {
    if n == 0 then (|txns|, now + 1)
    else
      var best := OldestOf(txns, n - 1, now);
      if txns[n - 1].state == Active && txns[n - 1].startTime < best.1 then (n - 1, txns[n - 1].startTime) else best
  }

  function DeadlockStep(m: Manager, now: nat): (Manager, bool) {
    var victim := OldestOf(m.txns, |m.txns|, now).0;
    if victim < |m.txns| then RollbackStep(m, victim, now) else (m, false)
  }

  function Step(m: Manager, op: Op): (Manager, bool) {
    match op
    case Begin(isolation, now) => BeginStep(m, isolation, now)
    case Acquire(tx, resource, kind, now) => AcquireStep(m, tx, resource, kind, now)
    case Release(tx, resource) => ReleaseStep(m, tx, resource)
    case Commit(tx, now) => CommitStep(m, tx, now)
    case Rollback(tx, now) => RollbackStep(m, tx, now)
    case CleanupTimeout(now) => CleanupFirst(m, |m.txns|, now)
    case HandleDeadlock(now) => DeadlockStep(m, now)
  }

  // ---------- What every step keeps ----------

  function OpenCount(txns: seq<Txn>): nat {
    if txns == [] then 0
    else OpenCount(txns[..|txns| - 1]) + if Open(txns[|txns| - 1].state) then 1 else 0
  }

  /**
    The two records of every lock agree, only open transactions hold locks, the counter counts the
    open ones, and no lock was granted against a blocking earlier one.
  */
  ghost predicate Inv(m: Manager) {
    && m.nextId == |m.txns| + 1
    && (forall i :: 0 <= i < |m.txns| ==> m.txns[i].id == i + 1)
    && (forall i :: 0 <= i < |m.txns| ==> m.txns[i].locks == OwnedBy(m.locks, i + 1))
    && (forall i :: 0 <= i < |m.txns| && !Open(m.txns[i].state) ==> m.txns[i].locks == [])
    && (forall l :: l in m.locks ==> 1 <= l.owner <= |m.txns|)
    && m.active == OpenCount(m.txns) <= m.max
    && Compatible(m.locks)
  }

  lemma {:induction false} OpenCountUpdate(txns: seq<Txn>, tx: nat, t: Txn)
    requires tx < |txns|
    ensures OpenCount(txns[tx := t]) + (if Open(txns[tx].state) then 1 else 0)
         == OpenCount(txns) + if Open(t.state) then 1 else 0
  {
    var updated := txns[tx := t];
    if tx == |txns| - 1 {
      assert updated[..tx] == txns[..tx];
    } else {
      OpenCountUpdate(txns[..|txns| - 1], tx, t);
      assert updated[..|txns| - 1] == txns[..|txns| - 1][tx := t];
    }
  }

  lemma NothingIn(locks: seq<Lock>)
    ensures locks == [] || locks[0] in locks
  {
  }

  lemma BeginKeepsInv(m: Manager, isolation: Isolation, now: nat)
    requires Inv(m)
    ensures Inv(BeginStep(m, isolation, now).0)
  {
    var m' := BeginStep(m, isolation, now).0;
    if m' != m {
      assert m'.txns[..|m.txns|] == m.txns;
      OwnedByMembers(m.locks, m.nextId);
      NothingIn(OwnedBy(m.locks, m.nextId));
    }
  }

  lemma AcquireKeepsInv(m: Manager, tx: nat, resource: nat, kind: LockKind, now: nat)
    requires Inv(m)
    ensures Inv(AcquireStep(m, tx, resource, kind, now).0)
  {
    var m' := AcquireStep(m, tx, resource, kind, now).0;
    if m' != m {
      var l := Lock(resource, kind, m.txns[tx].id, now);
      CompatibleAppend(m.locks, l);
      OpenCountUpdate(m.txns, tx, m'.txns[tx]);
      forall i | 0 <= i < |m.txns| ensures m'.txns[i].locks == OwnedBy(m'.locks, i + 1) {
        OwnedByAppend(m.locks, [l], i + 1);
        assert OwnedBy([l], i + 1) == if i == tx then [l] else [];
      }
    }
  }

  lemma {:induction false} RemoveOwnIsRemoveFirst(own: seq<Lock>, owner: nat, resource: nat)
    requires forall l :: l in own ==> l.owner == owner
    ensures RemoveOwn(own, resource) == RemoveFirst(own, owner, resource)
  {
    if own != [] {
      assert own[0] in own;
      assert forall l :: l in own[1..] ==> l in own;
      RemoveOwnIsRemoveFirst(own[1..], owner, resource);
    }
  }

  lemma {:induction false} NoneToRemove(own: seq<Lock>, resource: nat)
    requires !Holds(own, resource)
    ensures RemoveOwn(own, resource) == own
  {
    if own != [] {
      assert forall i :: 0 <= i < |own[1..]| ==> own[1..][i] == own[i + 1];
      NoneToRemove(own[1..], resource);
    }
  }

  lemma ReleaseKeepsInv(m: Manager, tx: nat, resource: nat)
    requires Inv(m)
    ensures Inv(ReleaseStep(m, tx, resource).0)
  {
    var m' := ReleaseStep(m, tx, resource).0;
    hide RemoveFirst, OwnedBy, OpenCount, Compatible, RemoveOwn;
    if m' != m {
      var id := m.txns[tx].id;
      RemovalsStayCompatible(m.locks, id, resource);
      OpenCountUpdate(m.txns, tx, m'.txns[tx]);
      OwnedByMembers(m.locks, id);
      RemoveOwnIsRemoveFirst(m.txns[tx].locks, id, resource);
      forall i | 0 <= i < |m.txns| ensures m'.txns[i].locks == OwnedBy(m'.locks, i + 1) {
        RemoveFirstOwned(m.locks, id, resource, i + 1);
      }
    }
  }

  lemma EndKeepsInv(m: Manager, tx: nat, state: State, now: nat)
    requires Inv(m) && tx < |m.txns| && Open(m.txns[tx].state) && !Open(state)
    ensures Inv(End(m, tx, state, now))
    ensures End(m, tx, state, now).locks == NotOwnedBy(m.locks, tx + 1)
  {
    hide RemoveEach, RemoveFirst, OwnedBy, NotOwnedBy, OpenCount, Compatible;
    var m' := End(m, tx, state, now);
    assert OwnedBy(m.locks, tx + 1) == m.txns[tx].locks;
    RemoveEachRemovesAll(m.locks, m.txns[tx].locks, tx + 1);
    OwnedByMembers(m.locks, tx + 1);
    RemovalsStayCompatible(m.locks, tx + 1, 0);
    OpenCountUpdate(m.txns, tx, m'.txns[tx]);
    forall i | 0 <= i < |m.txns| ensures m'.txns[i].locks == OwnedBy(m'.locks, i + 1) {
      NotOwnedByOthers(m.locks, tx + 1, i + 1);
    }
  }

  lemma {:induction false} CleanupKeepsInv(m: Manager, n: nat, now: nat)
    requires Inv(m) && n <= |m.txns|
    ensures Inv(CleanupFirst(m, n, now).0)
  {
    if n > 0 {
      CleanupKeepsInv(m, n - 1, now);
      var before := CleanupFirst(m, n - 1, now).0;
      if Expired(before.txns[n - 1], now) {
        EndKeepsInv(before, n - 1, RolledBack, now);
      }
    }
  }

  lemma StepKeepsInv(m: Manager, op: Op)
    requires Inv(m)
    ensures Inv(Step(m, op).0)
  {
    match op
    case Begin(isolation, now) => BeginKeepsInv(m, isolation, now);
    case Acquire(tx, resource, kind, now) => AcquireKeepsInv(m, tx, resource, kind, now);
    case Release(tx, resource) => ReleaseKeepsInv(m, tx, resource);
    case Commit(tx, now) =>
      if CommitStep(m, tx, now).1 { EndKeepsInv(m, tx, Committed, now); }
    case Rollback(tx, now) =>
      if RollbackStep(m, tx, now).1 { EndKeepsInv(m, tx, RolledBack, now); }
    case CleanupTimeout(now) => CleanupKeepsInv(m, |m.txns|, now);
    case HandleDeadlock(now) =>
      var victim := OldestOf(m.txns, |m.txns|, now).0;
      if DeadlockStep(m, now).1 { EndKeepsInv(m, victim, RolledBack, now); }
  }

  // ---------- Runs ----------

  function Init(max: nat): Manager {
    Manager([], [], 1, 0, max)
  }

  /** The state after the first `n` operations of a run. */
  function After(max: nat, ops: seq<Op>, n: nat): Manager
    requires n <= |ops|
  {
    if n == 0 then Init(max) else Step(After(max, ops, n - 1), ops[n - 1]).0
  }

  /** Every reachable state keeps the records in step and free of conflicts. */
  lemma {:induction false} RunKeepsInv(max: nat, ops: seq<Op>, n: nat)
    requires n <= |ops|
    ensures Inv(After(max, ops, n)) && After(max, ops, n).max == max
  {
    if n > 0 {
      RunKeepsInv(max, ops, n - 1);
      StepKeepsInv(After(max, ops, n - 1), ops[n - 1]);
      StepKeepsMax(After(max, ops, n - 1), ops[n - 1]);
    }
  }

  lemma {:induction false} CleanupKeepsMax(m: Manager, n: nat, now: nat)
    requires n <= |m.txns|
    ensures CleanupFirst(m, n, now).0.max == m.max
  {
    if n > 0 {
      CleanupKeepsMax(m, n - 1, now);
    }
  }

  lemma StepKeepsMax(m: Manager, op: Op)
    ensures Step(m, op).0.max == m.max
  {
    if op.CleanupTimeout? {
      CleanupKeepsMax(m, |m.txns|, op.now);
    }
  }

  /** In no reachable state do two transactions hold exclusive/exclusive or shared/exclusive locks on one resource. */
  lemma RunIsConflictFree(max: nat, ops: seq<Op>, n: nat, a: Lock, b: Lock)
    requires n <= |ops| && a in After(max, ops, n).locks && b in After(max, ops, n).locks
    requires a.resource == b.resource && a.owner != b.owner && a.kind == Exclusive
    ensures b.kind != Exclusive && b.kind != Shared
  {
    RunKeepsInv(max, ops, n);
    var locks := After(max, ops, n).locks;
    var i :| 0 <= i < |locks| && locks[i] == a;
    var j :| 0 <= j < |locks| && locks[j] == b;
  }

  /** Intention locks are outside that promise: one is granted beside somebody else's exclusive lock. */
  lemma IntentBesideExclusive()
    ensures var ops := [Begin(Serializable, 0), Begin(Serializable, 0), Acquire(0, 7, Exclusive, 0),
                        Acquire(1, 7, IntentExclusive, 0)];
            After(2, ops, 4).locks == [Lock(7, Exclusive, 1, 0), Lock(7, IntentExclusive, 2, 0)]
  {
    var ops := [Begin(Serializable, 0), Begin(Serializable, 0), Acquire(0, 7, Exclusive, 0),
                Acquire(1, 7, IntentExclusive, 0)];
    var m1 := After(2, ops, 1);
    var m2 := After(2, ops, 2);
    assert m2.txns[0].id == 1 && m2.txns[1].id == 2 && m2.locks == [];
    var m3 := After(2, ops, 3);
    assert m3.locks == [Lock(7, Exclusive, 1, 0)];
  }

  ghost predicate Grants(max: nat, ops: seq<Op>, i: nat, tx: nat, resource: nat, kind: LockKind)
    ensures Grants(max, ops, i, tx, resource, kind) ==> i < |ops|
  {
    && i < |ops| && ops[i].Acquire? && ops[i].tx == tx && ops[i].resource == resource && ops[i].kind == kind
    && Step(After(max, ops, i), ops[i]).1
  }

  /** Transaction `tx` exists and is over after `n` operations. */
  ghost predicate Over(max: nat, ops: seq<Op>, n: nat, tx: nat)
    requires n <= |ops|
  {
    tx < |After(max, ops, n).txns| && !Open(After(max, ops, n).txns[tx].state)
  }

  /** `tx` gives up no lock early between operations `i` and `j`. */
  ghost predicate Keeps(ops: seq<Op>, i: nat, j: nat, tx: nat)
    requires j <= |ops|
  {
    forall k :: i < k < j && ops[k].Release? ==> ops[k].tx != tx
  }

  lemma EndElsewhere(m: Manager, tx: nat, victim: nat, state: State, now: nat, l: Lock)
    requires Inv(m) && victim < |m.txns| && Open(m.txns[victim].state) && !Open(state)
    requires tx < |m.txns| && l in m.locks && l.owner == tx + 1
    ensures var m' := End(m, victim, state, now);
            |m'.txns| == |m.txns| && (if victim == tx then !Open(m'.txns[tx].state) else l in m'.locks)
    ensures !Open(m.txns[tx].state) ==> !Open(End(m, victim, state, now).txns[tx].state)
  {
    EndKeepsInv(m, victim, state, now);
    OwnedByMembers(m.locks, victim + 1);
  }

  lemma {:induction false} CleanupElsewhere(m: Manager, n: nat, now: nat, tx: nat, l: Lock)
    requires Inv(m) && n <= |m.txns| && tx < |m.txns| && l in m.locks && l.owner == tx + 1
    ensures var m' := CleanupFirst(m, n, now).0; !Open(m'.txns[tx].state) || l in m'.locks
  {
    hide RemoveEach, Inv;
    if n > 0 {
      CleanupElsewhere(m, n - 1, now, tx, l);
      CleanupKeepsInv(m, n - 1, now);
      var before := CleanupFirst(m, n - 1, now).0;
      if Expired(before.txns[n - 1], now) && l in before.locks {
        EndElsewhere(before, tx, n - 1, RolledBack, now, l);
      }
    }
  }

  lemma ReleaseElsewhere(m: Manager, victim: nat, resource: nat, l: Lock)
    requires Inv(m) && l in m.locks && l.owner != victim + 1
    ensures l in ReleaseStep(m, victim, resource).0.locks
  {
    hide RemoveFirst, OwnedBy, RemoveOwn, OpenCount, Compatible;
    RemoveFirstOwned(m.locks, victim + 1, resource, l.owner);
    OwnedByMembers(m.locks, l.owner);
    OwnedByMembers(RemoveFirst(m.locks, victim + 1, resource), l.owner);
  }

  /** A step other than a release by its transaction leaves a lock in place unless that transaction ends. */
  lemma StepKeepsLock(m: Manager, op: Op, tx: nat, l: Lock)
    requires Inv(m) && (op.Release? ==> op.tx != tx) && tx < |m.txns| && l in m.locks && l.owner == tx + 1
    ensures var m' := Step(m, op).0; tx < |m'.txns| && (!Open(m'.txns[tx].state) || l in m'.locks)
  {
    match op
    case Begin(_, _) =>
    case Acquire(_, _, _, _) =>
    case Release(victim, resource) => ReleaseElsewhere(m, victim, resource, l);
    case Commit(victim, now) =>
      if Step(m, op).1 { EndElsewhere(m, tx, victim, Committed, now, l); }
    case Rollback(victim, now) =>
      if Step(m, op).1 { EndElsewhere(m, tx, victim, RolledBack, now, l); }
    case CleanupTimeout(now) => CleanupElsewhere(m, |m.txns|, now, tx, l);
    case HandleDeadlock(now) =>
      var victim := OldestOf(m.txns, |m.txns|, now).0;
      if Step(m, op).1 { EndElsewhere(m, tx, victim, RolledBack, now, l); }
  }

  lemma {:induction false} CleanupKeepsOver(m: Manager, n: nat, now: nat, tx: nat)
    requires n <= |m.txns| && tx < |m.txns| && !Open(m.txns[tx].state)
    ensures !Open(CleanupFirst(m, n, now).0.txns[tx].state)
  {
    if n > 0 {
      CleanupKeepsOver(m, n - 1, now, tx);
    }
  }

  lemma {:induction false} OverStaysOver(max: nat, ops: seq<Op>, n: nat, n': nat, tx: nat)
    requires n <= n' <= |ops| && Over(max, ops, n, tx)
    ensures Over(max, ops, n', tx)
  {
    hide HasConflict, Holds, RemoveEach, RemoveFirst, RemoveOwn, OldestOf;
    if n < n' {
      OverStaysOver(max, ops, n, n' - 1, tx);
      var m := After(max, ops, n' - 1);
      if ops[n' - 1].CleanupTimeout? {
        CleanupKeepsOver(m, |m.txns|, ops[n' - 1].now, tx);
      }
    }
  }

  lemma {:induction false} HeldUntilOver(max: nat, ops: seq<Op>, i: nat, j: nat, tx: nat, resource: nat, kind: LockKind)
    requires Grants(max, ops, i, tx, resource, kind) && i < j <= |ops| && Keeps(ops, i, j, tx)
    ensures tx < |After(max, ops, j).txns|
    ensures Over(max, ops, j, tx) || Lock(resource, kind, tx + 1, ops[i].now) in After(max, ops, j).locks
  {
    hide Grants, Inv, Step;
    GrantAddsLock(max, ops, i, tx, resource, kind);
    if i + 1 < j {
      HeldUntilOver(max, ops, i, j - 1, tx, resource, kind);
      RunKeepsInv(max, ops, j - 1);
      if Over(max, ops, j - 1, tx) {
        OverStaysOver(max, ops, j - 1, j, tx);
      } else {
        StepKeepsLock(After(max, ops, j - 1), ops[j - 1], tx, Lock(resource, kind, tx + 1, ops[i].now));
      }
    }
  }

  lemma GrantAddsLock(max: nat, ops: seq<Op>, i: nat, tx: nat, resource: nat, kind: LockKind)
    requires Grants(max, ops, i, tx, resource, kind)
    ensures ops[i].Acquire? && tx < |After(max, ops, i + 1).txns|
    ensures Lock(resource, kind, tx + 1, ops[i].now) in After(max, ops, i + 1).locks
  {
    RunKeepsInv(max, ops, i);
  }

  /** A blocked request can only be granted later, after the transaction in the way has ended. */
  lemma ConflictOrder(max: nat, ops: seq<Op>, i: nat, j: nat, a: nat, b: nat, resource: nat, ka: LockKind, kb: LockKind)
    requires Grants(max, ops, i, a, resource, ka) && Grants(max, ops, j, b, resource, kb)
    requires i < j && a != b && Blocks(ka, kb) && Keeps(ops, i, j, a)
    ensures Over(max, ops, j, a) && !Over(max, ops, j, b)
  {
    HeldUntilOver(max, ops, i, j, a, resource, ka);
    RunKeepsInv(max, ops, j);
    var locks, l := After(max, ops, j).locks, Lock(resource, ka, a + 1, ops[i].now);
    HeldConflicts(locks, l, b + 1, kb);
  }

  lemma HeldConflicts(locks: seq<Lock>, l: Lock, requester: nat, kind: LockKind)
    requires l.owner != requester && Blocks(l.kind, kind)
    ensures l in locks ==> HasConflict(locks, l.resource, requester, kind)
  {
  }

  // ---------- Grants, clean-up and deadlock victims ----------

  /** A lock is granted exactly to an active transaction that nobody else's lock blocks. */
  lemma AcquireExactly(m: Manager, tx: nat, resource: nat, kind: LockKind, now: nat)
    requires Inv(m) && tx < |m.txns|
    ensures var (m', ok) := AcquireStep(m, tx, resource, kind, now);
            && (ok <==> m.txns[tx].state == Active
                        && forall l :: l in m.locks && l.resource == resource && Blocks(l.kind, kind) ==> l.owner == tx + 1)
            && (!ok ==> m' == m)
            && (ok ==> m'.txns[tx].locks == OwnedBy(m.locks, tx + 1) + [Lock(resource, kind, tx + 1, now)])
  {
    if HasConflict(m.locks, resource, tx + 1, kind) {
      var i :| 0 <= i < |m.locks| && m.locks[i].resource == resource && m.locks[i].owner != tx + 1
               && Blocks(m.locks[i].kind, kind);
      assert m.locks[i] in m.locks;
    }
  }

  lemma {:induction false} CleanupLeavesRest(m: Manager, n: nat, now: nat, tx: nat)
    requires n <= tx < |m.txns|
    ensures CleanupFirst(m, n, now).0.txns[tx] == m.txns[tx]
  {
    if n > 0 {
      CleanupLeavesRest(m, n - 1, now, tx);
    }
  }

  /** Clean-up ends exactly the active transactions past the time-out, and takes no lock from anybody else. */
  lemma {:induction false} CleanupExactly(m: Manager, n: nat, now: nat, tx: nat)
    requires Inv(m) && n <= |m.txns| && tx < |m.txns|
    ensures var m' := CleanupFirst(m, n, now).0;
            && m'.txns[tx] == (if tx < n && Expired(m.txns[tx], now)
                               then m.txns[tx].(state := RolledBack, commitTime := now, locks := []) else m.txns[tx])
            && OwnedBy(m'.locks, tx + 1) == (if tx < n && Expired(m.txns[tx], now) then [] else OwnedBy(m.locks, tx + 1))
  {
    hide OwnedBy, NotOwnedBy, RemoveEach, OpenCount, Compatible, Inv, HasConflict;
    if n > 0 {
      CleanupExactly(m, n - 1, now, tx);
      CleanupLeavesRest(m, n - 1, now, n - 1);
      CleanupKeepsInv(m, n - 1, now);
      var before := CleanupFirst(m, n - 1, now).0;
      if Expired(before.txns[n - 1], now) {
        EndKeepsInv(before, n - 1, RolledBack, now);
        NotOwnedByOthers(before.locks, n, tx + 1);
      }
    }
  }

  lemma {:induction false} CleanupReports(m: Manager, n: nat, now: nat)
    requires n <= |m.txns|
    ensures CleanupFirst(m, n, now).1 <==> exists i :: 0 <= i < n && Expired(m.txns[i], now)
  {
    if n > 0 {
      CleanupReports(m, n - 1, now);
      CleanupLeavesRest(m, n - 1, now, n - 1);
    }
  }

  /** The victim is the first active transaction with the least start time, among those not started in the future. */
  lemma {:induction false} VictimIsOldest(txns: seq<Txn>, n: nat, now: nat)
    requires n <= |txns|
    ensures var (victim, time) := OldestOf(txns, n, now);
            && (victim < |txns| ==> victim < n && txns[victim].state == Active && txns[victim].startTime == time <= now)
            && (victim == |txns| ==> time == now + 1) && victim <= |txns|
            && (forall i :: 0 <= i < n && txns[i].state == Active ==> time <= txns[i].startTime || txns[i].startTime > now)
            && (victim < |txns| ==> forall i :: 0 <= i < victim && txns[i].state == Active ==> time < txns[i].startTime)
  {
    if n > 0 {
      VictimIsOldest(txns, n - 1, now);
    }
  }
}
