/**
  The order in which the lock manager of src/transaction/transaction.c makes transactions follow each
  other. One precedes another when it was granted a lock that blocks one granted to the other later.
*/
module Serializability {

  import opened TransactionSpec

  // ---------- Precedence ----------

  ghost predicate PrecedesAt(max: nat, ops: seq<Op>, a: nat, b: nat, i: nat, j: nat, resource: nat, ka: LockKind, kb: LockKind) {
    i < j && Blocks(ka, kb) && Grants(max, ops, i, a, resource, ka) && Grants(max, ops, j, b, resource, kb)
  }

  /** `a` was granted a lock on some resource before `b` was granted one there that it blocks. */
  ghost predicate Precedes(max: nat, ops: seq<Op>, a: nat, b: nat) {
    a != b && exists i, j, resource, ka, kb :: PrecedesAt(max, ops, a, b, i, j, resource, ka, kb)
  }

  /** Locks are only given up by ending. */
  ghost predicate HeldToEnd(ops: seq<Op>) {
    forall k :: 0 <= k < |ops| ==> !ops[k].Release?
  }

  /** The number of operations after which `tx` is over, looking at the first `n`; `n + 1` if it is not. */
  ghost function EndStep(max: nat, ops: seq<Op>, n: nat, tx: nat): nat
    requires n <= |ops|
  {
    if !Over(max, ops, n, tx) then n + 1 else if n == 0 then 0 else EndStep(max, ops, n - 1, tx)
  }

  lemma {:induction false} EndStepBounds(max: nat, ops: seq<Op>, n: nat, tx: nat, k: nat)
    requires k <= n <= |ops|
    ensures EndStep(max, ops, n, tx) <= n + 1
    ensures Over(max, ops, k, tx) ==> EndStep(max, ops, n, tx) <= k
    ensures !Over(max, ops, k, tx) ==> EndStep(max, ops, n, tx) > k
  {
    hide Over;
    if Over(max, ops, k, tx) {
      OverStaysOver(max, ops, k, n, tx);
    }
    if Over(max, ops, n, tx) && n > 0 {
      EndStepBounds(max, ops, n - 1, tx, if k < n then k else n - 1);
    }
  }

  /** In runs without early release, precedence between transactions follows the order in which they end. */
  lemma PrecedenceFollowsEnds(max: nat, ops: seq<Op>, a: nat, b: nat)
    requires HeldToEnd(ops) && Precedes(max, ops, a, b)
    ensures EndStep(max, ops, |ops|, a) < EndStep(max, ops, |ops|, b)
  {
    hide Over, EndStep, Grants, HeldToEnd, After, Step;
    var i, j, resource, ka, kb :| PrecedesAt(max, ops, a, b, i, j, resource, ka, kb);
    GrantsFollowEnds(max, ops, i, j, a, b, resource, ka, kb);
  }

  lemma GrantsFollowEnds(max: nat, ops: seq<Op>, i: nat, j: nat, a: nat, b: nat, resource: nat, ka: LockKind, kb: LockKind)
    requires HeldToEnd(ops) && i < j && a != b && Blocks(ka, kb)
    requires Grants(max, ops, i, a, resource, ka) && Grants(max, ops, j, b, resource, kb)
    ensures EndStep(max, ops, |ops|, a) < EndStep(max, ops, |ops|, b)
  {
    hide Over, EndStep, Grants;
    ConflictOrder(max, ops, i, j, a, b, resource, ka, kb);
    EndStepBounds(max, ops, |ops|, a, j);
    EndStepBounds(max, ops, |ops|, b, j);
  }

  // ---------- Gaps ----------

  /** The locks `tx` holds after `n` operations. */
  ghost function Own(max: nat, ops: seq<Op>, n: nat, tx: nat): seq<Lock>
    requires n <= |ops|
  {
    if tx < |After(max, ops, n).txns| then After(max, ops, n).txns[tx].locks else []
  }

  /** Some of these locks stands in the way of somebody else's request. */
  predicate Refuses(own: seq<Lock>, resource: nat, kind: LockKind) {
    exists i :: 0 <= i < |own| && own[i].resource == resource && Blocks(own[i].kind, kind)
  }

  /** After `n` operations `tx` no longer refuses a request that a lock it was granted before blocks. */
  ghost predicate ExposedBy(max: nat, ops: seq<Op>, n: nat, tx: nat, i: nat, resource: nat, held: LockKind, kind: LockKind)
    requires n <= |ops|
  {
    i < n && Grants(max, ops, i, tx, resource, held) && Blocks(held, kind) && !Refuses(Own(max, ops, n, tx), resource, kind)
  }

  ghost predicate Exposed(max: nat, ops: seq<Op>, n: nat, tx: nat)
    requires n <= |ops|
  {
    exists i, resource, held, kind :: ExposedBy(max, ops, n, tx, i, resource, held, kind)
  }

  /**
    From operation `p` on, and up to `n`, somebody else could be granted and keep a lock of this kind:
    `tx` does not refuse it at `p` and is granted nothing that it blocks before `n`.
  */
  ghost predicate LeavesRoom(max: nat, ops: seq<Op>, tx: nat, p: nat, n: nat, resource: nat, kind: LockKind)
    requires p <= n <= |ops|
  {
    && !Refuses(Own(max, ops, p, tx), resource, kind)
    && forall q, granted :: p <= q < n && Grants(max, ops, q, tx, resource, granted) ==> !Blocks(kind, granted)
  }

  /**
    A gap of `tx`: it is exposed after `n` operations, and then granted a lock, by operation `j`, that a
    lock of somebody else would block for which it has left room since `p`.
  */
  ghost predicate Gap(max: nat, ops: seq<Op>, tx: nat, p: nat, n: nat, j: nat, resource: nat, kind: LockKind, granted: LockKind)
  {
    && p <= n <= j < |ops| && Exposed(max, ops, n, tx) && LeavesRoom(max, ops, tx, p, n, resource, kind)
    && Grants(max, ops, j, tx, resource, granted) && Blocks(kind, granted)
  }

  ghost predicate Gapless(max: nat, ops: seq<Op>, tx: nat) {
    forall p, n, j, resource, kind, granted :: !Gap(max, ops, tx, p, n, j, resource, kind, granted)
  }

  /** The first number of operations, from `n` on, after which `tx` is exposed; `|ops| + 1` if there is none. */
  ghost function FirstExposed(max: nat, ops: seq<Op>, tx: nat, n: nat): (r: nat)
    requires n <= |ops| + 1
    ensures n <= r <= |ops| + 1
    ensures r <= |ops| ==> Exposed(max, ops, r, tx)
    ensures forall k :: n <= k < r ==> !Exposed(max, ops, k, tx)
    decreases |ops| + 1 - n
  {
    if n == |ops| + 1 || Exposed(max, ops, n, tx) then n else FirstExposed(max, ops, tx, n + 1)
  }

  lemma RefusedIsConflict(m: Manager, a: nat, b: nat, resource: nat, kind: LockKind)
    requires Inv(m) && a < |m.txns| && a != b && Refuses(m.txns[a].locks, resource, kind)
    ensures HasConflict(m.locks, resource, b + 1, kind)
  {
    hide OpenCount, Compatible;
    var own := m.txns[a].locks;
    var i :| 0 <= i < |own| && own[i].resource == resource && Blocks(own[i].kind, kind);
    OwnedByMembers(m.locks, a + 1);
    assert own[i] in own;
    HeldConflicts(m.locks, own[i], b + 1, kind);
  }

  /** Whoever is granted a lock was refused by nobody. */
  lemma GrantedIsUnrefused(max: nat, ops: seq<Op>, j: nat, a: nat, b: nat, resource: nat, kind: LockKind)
    requires Grants(max, ops, j, b, resource, kind) && a != b
    ensures !Refuses(Own(max, ops, j, a), resource, kind)
  {
    hide Refuses, HasConflict;
    RunKeepsInv(max, ops, j);
    if Refuses(Own(max, ops, j, a), resource, kind) && a < |After(max, ops, j).txns| {
      RefusedIsConflict(After(max, ops, j), a, b, resource, kind);
    }
    NobodyRefuses(resource, kind);
  }

  lemma NobodyRefuses(resource: nat, kind: LockKind)
    ensures !Refuses([], resource, kind)
  {
  }

  lemma {:induction false} RemoveOwnKeeps(own: seq<Lock>, resource: nat, l: Lock)
    requires l in RemoveOwn(own, resource)
    ensures l in own
  {
    if own[0].resource != resource && l != own[0] {
      RemoveOwnKeeps(own[1..], resource, l);
    }
  }

  lemma {:induction false} CleanupTakesOnly(m: Manager, n: nat, now: nat, tx: nat, l: Lock)
    requires n <= |m.txns| && tx < |m.txns| && l in CleanupFirst(m, n, now).0.txns[tx].locks
    ensures l in m.txns[tx].locks
  {
    if n > 0 {
      CleanupTakesOnly(m, n - 1, now, tx, l);
    }
  }

  /** A step adds no lock to a transaction but one it grants. */
  lemma StepAddsOnlyGrants(m: Manager, op: Op, tx: nat, l: Lock)
    requires tx < |Step(m, op).0.txns| && l in Step(m, op).0.txns[tx].locks
    ensures || (tx < |m.txns| && l in m.txns[tx].locks)
            || (op.Acquire? && op.tx == tx && op.resource == l.resource && op.kind == l.kind && Step(m, op).1)
  {
    hide RemoveEach, RemoveFirst, OldestOf, HasConflict, Holds;
    match op
    case Release(victim, resource) =>
      if victim == tx && ReleaseStep(m, tx, resource).1 { RemoveOwnKeeps(m.txns[tx].locks, resource, l); }
    case CleanupTimeout(now) => CleanupTakesOnly(m, |m.txns|, now, tx, l);
    case _ =>
  }

  /** A lock that is held was granted, and has been held since. */
  lemma {:induction false} HeldWasGranted(max: nat, ops: seq<Op>, n: nat, tx: nat, l: Lock) returns (q: nat)
    requires n <= |ops| && l in Own(max, ops, n, tx)
    ensures q < n && Grants(max, ops, q, tx, l.resource, l.kind)
    ensures forall k :: q < k <= n ==> l in Own(max, ops, k, tx)
  {
    hide Step, CleanupFirst;
    q := n - 1;
    StepAddsOnlyGrants(After(max, ops, n - 1), ops[n - 1], tx, l);
    if l in Own(max, ops, n - 1, tx) {
      q := HeldWasGranted(max, ops, n - 1, tx, l);
    }
  }

  /**
    If `a` precedes `b` and `b` has no gap, `a` is exposed before `b` is: when `b` gets its lock, `a` no
    longer refuses it; and if `b` had been exposed by then, it would have a gap there, unless it had been
    granted a lock that follows the one of `a` before.
  */
  lemma PrecedenceFollowsExposure(max: nat, ops: seq<Op>, a: nat, b: nat)
    requires Precedes(max, ops, a, b) && Gapless(max, ops, b)
    ensures FirstExposed(max, ops, a, 0) < FirstExposed(max, ops, b, 0)
  {
    hide Grants, Gapless, FirstExposed, Own, Exposed, Gap, After, Step;
    var i, j, resource, ka, kb :| PrecedesAt(max, ops, a, b, i, j, resource, ka, kb);
    GrantsFollowExposure(max, ops, i, j, a, b, resource, ka, kb);
  }

  lemma GrantsFollowExposure(max: nat, ops: seq<Op>, i: nat, j: nat, a: nat, b: nat, resource: nat, ka: LockKind, kb: LockKind)
    requires i < j && a != b && Blocks(ka, kb) && Gapless(max, ops, b)
    requires Grants(max, ops, i, a, resource, ka) && Grants(max, ops, j, b, resource, kb)
    ensures FirstExposed(max, ops, a, 0) < FirstExposed(max, ops, b, 0)
  {
    hide Own, Exposed, LeavesRoom, Refuses, Gapless;
    GrantExposes(max, ops, i, j, a, b, resource, ka, kb);
    var n := FirstExposed(max, ops, b, 0);
    if n <= j {
      GrantedIsUnrefused(max, ops, i, b, a, resource, ka);
      if i <= n {
        NoRoom(max, ops, b, i, n, j, resource, ka, kb);
        var q, kq := GrantInTheWay(max, ops, b, i, n, resource, ka);
        assert q != i by { GrantOf(max, ops, i, a, resource, ka); GrantOf(max, ops, q, b, resource, kq); }
        GrantExposes(max, ops, i, q, a, b, resource, ka, kq);
      } else {
        NoRoom(max, ops, b, n, n, j, resource, ka, kb);
        NoRoom(max, ops, b, i, i, j, resource, ka, kb);
        GivenUpExposes(max, ops, b, n, i, resource, ka);
        assert false;
      }
    }
  }

  lemma GrantOf(max: nat, ops: seq<Op>, i: nat, tx: nat, resource: nat, kind: LockKind)
    requires Grants(max, ops, i, tx, resource, kind)
    ensures ops[i].Acquire? && ops[i].tx == tx
  {
  }

  lemma GrantExposes(max: nat, ops: seq<Op>, i: nat, j: nat, a: nat, b: nat, resource: nat, ka: LockKind, kb: LockKind)
    requires i < j && a != b && Blocks(ka, kb)
    requires Grants(max, ops, i, a, resource, ka) && Grants(max, ops, j, b, resource, kb)
    ensures Exposed(max, ops, j, a)
  {
    hide Grants, Own;
    GrantedIsUnrefused(max, ops, j, a, b, resource, kb);
    assert ExposedBy(max, ops, j, a, i, resource, ka, kb);
  }

  lemma NoRoom(max: nat, ops: seq<Op>, tx: nat, p: nat, n: nat, j: nat, resource: nat, kind: LockKind, granted: LockKind)
    requires Gapless(max, ops, tx) && p <= n <= j && Grants(max, ops, j, tx, resource, granted) && Blocks(kind, granted)
    ensures !Exposed(max, ops, n, tx) || !LeavesRoom(max, ops, tx, p, n, resource, kind)
  {
    hide Grants, Exposed, LeavesRoom;
    assert !Gap(max, ops, tx, p, n, j, resource, kind, granted);
  }

  lemma GrantInTheWay(max: nat, ops: seq<Op>, tx: nat, p: nat, n: nat, resource: nat, kind: LockKind)
    returns (q: nat, granted: LockKind)
    requires p <= n <= |ops| && !LeavesRoom(max, ops, tx, p, n, resource, kind)
    requires !Refuses(Own(max, ops, p, tx), resource, kind)
    ensures p <= q < n && Grants(max, ops, q, tx, resource, granted) && Blocks(kind, granted)
  {
    hide Grants, Own;
    q, granted :| p <= q < n && Grants(max, ops, q, tx, resource, granted) && Blocks(kind, granted);
  }

  /** Who refused a request at `n` and does not at `i` has given up a lock it was granted, and is exposed. */
  lemma GivenUpExposes(max: nat, ops: seq<Op>, tx: nat, n: nat, i: nat, resource: nat, kind: LockKind)
    requires n < i <= |ops| && Exposed(max, ops, n, tx)
    requires !Refuses(Own(max, ops, i, tx), resource, kind)
    ensures LeavesRoom(max, ops, tx, n, n, resource, kind) || Exposed(max, ops, i, tx)
    ensures LeavesRoom(max, ops, tx, i, i, resource, kind)
  {
    hide Grants, Own;
    var own := Own(max, ops, n, tx);
    if Refuses(own, resource, kind) {
      var k :| 0 <= k < |own| && own[k].resource == resource && Blocks(own[k].kind, kind);
      var q := HeldWasGranted(max, ops, n, tx, own[k]);
      assert ExposedBy(max, ops, i, tx, q, resource, own[k].kind, kind);
    }
  }

  ghost predicate PrecedencePath(max: nat, ops: seq<Op>, path: seq<nat>) {
    forall k :: 0 <= k < |path| - 1 ==> Precedes(max, ops, path[k], path[k + 1])
  }

  lemma {:induction false} PathFollowsExposure(max: nat, ops: seq<Op>, path: seq<nat>)
    requires |path| >= 2 && PrecedencePath(max, ops, path) && forall tx <- path :: Gapless(max, ops, tx)
    ensures FirstExposed(max, ops, path[0], 0) < FirstExposed(max, ops, path[|path| - 1], 0)
  {
    hide Precedes, Gapless;
    var k := |path| - 1;
    if k > 1 {
      PathFollowsExposure(max, ops, path[..k]);
    }
    PrecedenceFollowsExposure(max, ops, path[k - 1], path[k]);
  }

  /** Transactions without gaps never form a cycle: the run is equivalent to running them one after another. */
  lemma GaplessIsAcyclic(max: nat, ops: seq<Op>, path: seq<nat>)
    requires |path| >= 2 && PrecedencePath(max, ops, path) && forall tx <- path :: Gapless(max, ops, tx)
    ensures path[0] != path[|path| - 1]
  {
    PathFollowsExposure(max, ops, path);
  }

  // ---------- Two-phase locking ----------

  /** `tx` requests no lock after it has released one. */
  ghost predicate TwoPhase(ops: seq<Op>, tx: nat) {
    forall k, j :: 0 <= k < j < |ops| && ops[k].Release? && ops[j].Acquire? && ops[k].tx == tx ==> ops[j].tx != tx
  }

  /** A transaction that locks in two phases has no gap: until its last grant it refuses what it ever refused. */
  lemma TwoPhaseIsGapless(max: nat, ops: seq<Op>, tx: nat)
    requires TwoPhase(ops, tx)
    ensures Gapless(max, ops, tx)
  {
    hide Grants, Own, LeavesRoom, Exposed;
    forall p: nat, n: nat, j: nat, resource: nat, kind, granted
      ensures !Gap(max, ops, tx, p, n, j, resource, kind, granted)
    {
      if p <= n <= j < |ops| && Grants(max, ops, j, tx, resource, granted) {
        TwoPhaseUnexposed(max, ops, tx, n, j, resource, granted);
      }
    }
  }

  lemma TwoPhaseUnexposed(max: nat, ops: seq<Op>, tx: nat, n: nat, j: nat, resource: nat, kind: LockKind)
    requires TwoPhase(ops, tx) && n <= j && Grants(max, ops, j, tx, resource, kind)
    ensures !Exposed(max, ops, n, tx)
  {
    hide Own, Grants, Over, Refuses;
    forall i: nat, r: nat, held, k
      ensures !ExposedBy(max, ops, n, tx, i, r, held, k)
    {
      if i < n && Grants(max, ops, i, tx, r, held) && Blocks(held, k) {
        StillHeld(max, ops, tx, i, n, j, r, held, resource, kind);
        HeldRefuses(Own(max, ops, n, tx), Lock(r, held, tx + 1, ops[i].now), k);
      }
    }
  }

  lemma HeldRefuses(own: seq<Lock>, l: Lock, kind: LockKind)
    requires l in own && Blocks(l.kind, kind)
    ensures Refuses(own, l.resource, kind)
  {
  }

  lemma StillHeld(max: nat, ops: seq<Op>, tx: nat, i: nat, n: nat, j: nat, r: nat, held: LockKind, resource: nat, kind: LockKind)
    requires TwoPhase(ops, tx) && i < n <= j && Grants(max, ops, i, tx, r, held) && Grants(max, ops, j, tx, resource, kind)
    ensures ops[i].Acquire? && Lock(r, held, tx + 1, ops[i].now) in Own(max, ops, n, tx)
  {
    HeldUntilOver(max, ops, i, n, tx, r, held);
    if Over(max, ops, n, tx) {
      OverStaysOver(max, ops, n, j, tx);
      assert false;
    }
    RunKeepsInv(max, ops, n);
    OwnedByMembers(After(max, ops, n).locks, tx + 1);
  }

  /** So under two-phase locking the precedence relation has no cycle. */
  lemma PrecedenceIsAcyclic(max: nat, ops: seq<Op>, path: seq<nat>)
    requires (forall tx :: TwoPhase(ops, tx)) && |path| >= 2 && PrecedencePath(max, ops, path)
    ensures path[0] != path[|path| - 1]
  {
    hide Gapless, TwoPhase, Precedes;
    forall tx <- path
      ensures Gapless(max, ops, tx)
    {
      TwoPhaseIsGapless(max, ops, tx);
    }
    GaplessIsAcyclic(max, ops, path);
  }

  /** With early release it can have one: two transactions, each before the other. */
  lemma EarlyReleaseMakesACycle(max: nat, now: nat)
    requires max >= 2
    ensures exists ops: seq<Op> :: Precedes(max, ops, 0, 1) && Precedes(max, ops, 1, 0)
  {
    hide After, Step, Precedes;
    var begin := Begin(Serializable, now);
    var ops := [begin, begin, Acquire(0, 1, Exclusive, now), Release(0, 1), Acquire(1, 1, Exclusive, now),
                Acquire(1, 2, Exclusive, now), Release(1, 2), Acquire(0, 2, Exclusive, now)];
    EarlyReleaseGrants(max, now, ops);
    GrantsPrecede(max, ops, 2, 4, 0, 1, 1);
    GrantsPrecede(max, ops, 5, 7, 1, 0, 2);
  }

  lemma GrantsPrecede(max: nat, ops: seq<Op>, i: nat, j: nat, a: nat, b: nat, resource: nat)
    requires i < j && a != b
    requires Grants(max, ops, i, a, resource, Exclusive) && Grants(max, ops, j, b, resource, Exclusive)
    ensures Precedes(max, ops, a, b)
  {
    hide Grants;
    assert PrecedesAt(max, ops, a, b, i, j, resource, Exclusive, Exclusive);
  }

  /** The states of such a run: `k` and `l` are on the first resource, `m` on the second. */
  lemma EarlyReleaseGrants(max: nat, now: nat, ops: seq<Op>)
    requires max >= 2 && |ops| == 8
    requires ops[0] == ops[1] == Begin(Serializable, now)
    requires ops[2] == Acquire(0, 1, Exclusive, now) && ops[3] == Release(0, 1) && ops[4] == Acquire(1, 1, Exclusive, now)
    requires ops[5] == Acquire(1, 2, Exclusive, now) && ops[6] == Release(1, 2) && ops[7] == Acquire(0, 2, Exclusive, now)
    ensures Grants(max, ops, 2, 0, 1, Exclusive) && Grants(max, ops, 4, 1, 1, Exclusive)
    ensures Grants(max, ops, 5, 1, 2, Exclusive) && Grants(max, ops, 7, 0, 2, Exclusive)
  {
    hide After, AcquireStep, ReleaseStep;
    var t, u := Txn(1, Active, Serializable, now, 0, []), Txn(2, Active, Serializable, now, 0, []);
    var k, l, m := Lock(1, Exclusive, 1, now), Lock(1, Exclusive, 2, now), Lock(2, Exclusive, 2, now);
    AfterStep(max, ops, 0);
    AfterStep(max, ops, 1);
    var s2 := Manager([t, u], [], 3, 2, max);
    assert After(max, ops, 2) == s2;
    assert [] + [k] == [k] && [] + [l] == [l] && [l] + [m] == [l, m];
    AfterStep(max, ops, 2);
    FreeIsGranted(s2, 0, 1, now);
    assert [t, u][0 := t.(locks := [k])] == [t.(locks := [k]), u];
    AfterStep(max, ops, 3);
    LastIsReleased(Manager([t.(locks := [k]), u], [k], 3, 2, max), 0, 1, [], [], k);
    assert [t.(locks := [k]), u][0 := t] == [t, u];
    assert After(max, ops, 4) == s2;
    AfterStep(max, ops, 4);
    FreeIsGranted(s2, 1, 1, now);
    assert [t, u][1 := u.(locks := [l])] == [t, u.(locks := [l])];
    var s5 := Manager([t, u.(locks := [l])], [l], 3, 2, max);
    assert After(max, ops, 5) == s5;
    AfterStep(max, ops, 5);
    FreeIsGranted(s5, 1, 2, now);
    assert [t, u.(locks := [l])][1 := u.(locks := [l, m])] == [t, u.(locks := [l, m])];
    AfterStep(max, ops, 6);
    LastIsReleased(Manager([t, u.(locks := [l, m])], [l, m], 3, 2, max), 1, 2, [l], [l], m);
    assert [t, u.(locks := [l, m])][1 := u.(locks := [l])] == [t, u.(locks := [l])];
    assert After(max, ops, 7) == s5;
    FreeIsGranted(s5, 0, 2, now);
  }

  /** A resource on which nobody holds a lock is granted. */
  lemma FreeIsGranted(m: Manager, tx: nat, resource: nat, now: nat)
    requires tx < |m.txns| && m.txns[tx].state == Active && forall l <- m.locks :: l.resource != resource
    ensures var l := Lock(resource, Exclusive, m.txns[tx].id, now);
            AcquireStep(m, tx, resource, Exclusive, now) ==
            (m.(txns := m.txns[tx := m.txns[tx].(locks := m.txns[tx].locks + [l])], locks := m.locks + [l]), true)
  {
  }

  /** A release takes back the lock granted last, when it is the only one on its resource. */
  lemma {:induction false} LastIsReleased(m: Manager, tx: nat, resource: nat, own: seq<Lock>, rest: seq<Lock>, l: Lock)
    requires tx < |m.txns| && m.txns[tx].locks == own + [l] && m.locks == rest + [l]
    requires l.resource == resource && l.owner == m.txns[tx].id
    requires (forall o <- own :: o.resource != resource) && (forall o <- rest :: o.resource != resource)
    ensures ReleaseStep(m, tx, resource) == (m.(txns := m.txns[tx := m.txns[tx].(locks := own)], locks := rest), true)
  {
    RemovesLast(own, l);
    RemovesLast(rest, l);
    assert (own + [l])[|own|].resource == resource;
  }

  lemma {:induction false} RemovesLast(locks: seq<Lock>, l: Lock)
    requires forall o <- locks :: o.resource != l.resource
    ensures RemoveOwn(locks + [l], l.resource) == locks == RemoveFirst(locks + [l], l.owner, l.resource)
  {
    if locks == [] {
      assert locks + [l] == [l] && [l][1..] == [];
    } else {
      assert locks[0] in locks && (locks + [l])[1..] == locks[1..] + [l];
      assert forall o <- locks[1..] :: o in locks;
      RemovesLast(locks[1..], l);
    }
  }

  lemma AfterStep(max: nat, ops: seq<Op>, n: nat)
    requires n < |ops|
    ensures After(max, ops, n + 1) == Step(After(max, ops, n), ops[n]).0
    ensures After(max, ops, 0) == Init(max)
  {
  }
}
