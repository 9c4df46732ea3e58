/**
  What each operation of the lock manager of src/transaction/transaction.c does to the transactions and
  their locks, in plain terms: kinds of locks, clocks and seconds are written out.
*/
module TransactionEffects {

  import opened TransactionSpec

  // ---------- Beginning ----------

  /**
    Beginning appends an active transaction without locks that carries the clock of its beginning and the
    isolation asked for - the weakest stands for the default - unless as many are open as are allowed.
  */
  lemma BeginEffect(max: nat, ops: seq<Op>, n: nat, isolation: Isolation, now: nat)
    requires n < |ops| && ops[n] == Begin(isolation, now)
    ensures var m, m', ok := After(max, ops, n), After(max, ops, n + 1), Step(After(max, ops, n), ops[n]).1;
            && (ok <==> OpenCount(m.txns) < max) && m'.locks == m.locks
            && m'.txns == if !ok then m.txns
                          else m.txns + [Txn(|m.txns| + 1, Active, if isolation == ReadUncommitted then RepeatableRead else isolation,
                                             now, 0, [])]
  {
    RunKeepsInv(max, ops, n);
  }

  /** What a transaction is given at its beginning stays. */
  ghost predicate SameOrigin(t: Txn, t': Txn) {
    t.id == t'.id && t.isolation == t'.isolation && t.startTime == t'.startTime
  }

  lemma {:induction false} CleanupKeepsOrigin(m: Manager, n: nat, now: nat, tx: nat)
    requires n <= |m.txns| && tx < |m.txns|
    ensures SameOrigin(m.txns[tx], CleanupFirst(m, n, now).0.txns[tx])
  {
    if n > 0 {
      CleanupKeepsOrigin(m, n - 1, now, tx);
    }
  }

  lemma StepKeepsOrigin(m: Manager, op: Op, tx: nat)
    requires tx < |m.txns|
    ensures tx < |Step(m, op).0.txns| && SameOrigin(m.txns[tx], Step(m, op).0.txns[tx])
  {
    hide HasConflict, Holds, RemoveEach, RemoveFirst, RemoveOwn, OldestOf;
    if op.CleanupTimeout? {
      CleanupKeepsOrigin(m, |m.txns|, op.now, tx);
    }
  }

  lemma {:induction false} OriginStays(max: nat, ops: seq<Op>, k: nat, n: nat, tx: nat)
    requires k <= n <= |ops| && tx < |After(max, ops, k).txns|
    ensures tx < |After(max, ops, n).txns| && SameOrigin(After(max, ops, k).txns[tx], After(max, ops, n).txns[tx])
  {
    hide Step;
    if k < n {
      OriginStays(max, ops, k, n - 1, tx);
      StepKeepsOrigin(After(max, ops, n - 1), ops[n - 1], tx);
    }
  }

  // ---------- Time-outs ----------

  /**
    A clean-up rolls a transaction back, and takes its locks, exactly if it is active and began more than
    300 seconds before; otherwise the transaction stays as it is. Clocks are numbers of 64 bits.
  */
  lemma CleanupEffect(max: nat, ops: seq<Op>, k: nat, n: nat, isolation: Isolation, start: nat, now: nat)
    requires k < n < |ops| && ops[k] == Begin(isolation, start) && Step(After(max, ops, k), ops[k]).1
    requires ops[n] == CleanupTimeout(now) && start <= now < 0x1_0000_0000_0000_0000
    ensures var m, m', tx := After(max, ops, n), After(max, ops, n + 1), |After(max, ops, k).txns|;
            && tx < |m.txns| == |m'.txns|
            && m'.txns[tx] == (if m.txns[tx].state == Active && now - start > 300
                               then m.txns[tx].(state := RolledBack, commitTime := now, locks := []) else m.txns[tx])
            && OwnedBy(m'.locks, tx + 1) == m'.txns[tx].locks
  {
    hide Step, After, Expired, OwnedBy, OpenCount, Compatible;
    var tx := |After(max, ops, k).txns|;
    BeginEffect(max, ops, k, isolation, start);
    OriginStays(max, ops, k + 1, n, tx);
    AfterIs(max, ops, n);
    RunKeepsInv(max, ops, n);
    RunKeepsInv(max, ops, n + 1);
    ElapsedExactly(After(max, ops, n).txns[tx], start, now);
    CleanedUp(After(max, ops, n), now, tx);
  }

  lemma AfterIs(max: nat, ops: seq<Op>, n: nat)
    requires n < |ops|
    ensures After(max, ops, n + 1) == Step(After(max, ops, n), ops[n]).0
  {
  }

  lemma ElapsedExactly(t: Txn, start: nat, now: nat)
    requires t.startTime == start <= now < 0x1_0000_0000_0000_0000
    ensures Expired(t, now) <==> t.state == Active && now - start > 300
  {
  }

  lemma CleanedUp(m: Manager, now: nat, tx: nat)
    requires Inv(m) && tx < |m.txns|
    ensures var m' := Step(m, CleanupTimeout(now)).0;
            && |m'.txns| == |m.txns|
            && m'.txns[tx] == if Expired(m.txns[tx], now) then m.txns[tx].(state := RolledBack, commitTime := now, locks := [])
                              else m.txns[tx]
  {
    CleanupExactly(m, |m.txns|, now, tx);
  }

  // ---------- Deadlocks ----------

  /** `v` is the first of the active transactions that began earliest, none of them after `now`. */
  ghost predicate FirstOldest(txns: seq<Txn>, v: nat, now: nat) {
    && v < |txns| && txns[v].state == Active && txns[v].startTime <= now
    && (forall i :: 0 <= i < |txns| && txns[i].state == Active ==> txns[v].startTime <= txns[i].startTime)
    && (forall i :: 0 <= i < v && txns[i].state == Active ==> txns[v].startTime < txns[i].startTime)
  }

  /** Only transaction `v` has changed: it is in `state` since `now` and holds nothing. */
  ghost predicate OnlyEnded(m: Manager, m': Manager, v: nat, state: State, now: nat) {
    && v < |m.txns|
    && m'.txns == m.txns[v := m.txns[v].(state := state, commitTime := now, locks := [])]
    && (forall l :: l in m'.locks <==> l in m.locks && l.owner != v + 1)
    && (forall owner :: OwnedBy(m'.locks, owner) == if owner == v + 1 then [] else OwnedBy(m.locks, owner))
  }

  lemma EndEffect(m: Manager, v: nat, state: State, now: nat)
    requires Inv(m) && v < |m.txns| && Open(m.txns[v].state) && !Open(state)
    ensures OnlyEnded(m, End(m, v, state, now), v, state, now)
  {
    hide RemoveEach, OwnedBy, NotOwnedBy, OpenCount, Compatible;
    EndKeepsInv(m, v, state, now);
    OwnedByMembers(m.locks, v + 1);
    forall owner: nat
      ensures OwnedBy(NotOwnedBy(m.locks, v + 1), owner) == if owner == v + 1 then [] else OwnedBy(m.locks, owner)
    {
      NotOwnedByOthers(m.locks, v + 1, owner);
    }
  }

  /**
    Deadlock handling succeeds exactly if some active transaction began by now, and rolls back exactly the
    first of those that began earliest; all others keep their state and locks.
  */
  lemma DeadlockEffect(m: Manager, now: nat)
    requires Inv(m)
    ensures var (m', ok) := Step(m, HandleDeadlock(now));
            && (ok <==> exists i :: 0 <= i < |m.txns| && m.txns[i].state == Active && m.txns[i].startTime <= now)
            && (!ok ==> m' == m)
            && (ok ==> exists v :: FirstOldest(m.txns, v, now) && OnlyEnded(m, m', v, RolledBack, now))
  {
    hide Inv, End;
    VictimIsOldest(m.txns, |m.txns|, now);
    var v := OldestOf(m.txns, |m.txns|, now).0;
    if v < |m.txns| {
      EndEffect(m, v, RolledBack, now);
      assert FirstOldest(m.txns, v, now);
    }
  }

  // ---------- Ending ----------

  /** Committing ends an active transaction and nothing else; rolling back also one that is prepared. */
  lemma EndingEffect(m: Manager, tx: nat, now: nat)
    requires Inv(m) && tx < |m.txns|
    ensures var (m', ok) := Step(m, Commit(tx, now));
            && (ok <==> m.txns[tx].state == Active)
            && (if ok then OnlyEnded(m, m', tx, Committed, now) else m' == m)
    ensures var (m', ok) := Step(m, Rollback(tx, now));
            && (ok <==> m.txns[tx].state == Active || m.txns[tx].state == Prepared)
            && (if ok then OnlyEnded(m, m', tx, RolledBack, now) else m' == m)
  {
    hide Inv, End, OnlyEnded;
    if m.txns[tx].state == Active {
      EndEffect(m, tx, Committed, now);
    }
    if Open(m.txns[tx].state) {
      EndEffect(m, tx, RolledBack, now);
    }
  }

  // ---------- Locks ----------

  /**
    An active transaction is refused an exclusive lock exactly if another one holds any lock on the
    resource, a shared lock exactly if another one holds an exclusive lock there, and an intention lock
    never. A lock granted is stamped with the clock and recorded last, in both lists.
  */
  lemma AcquireEffect(m: Manager, tx: nat, resource: nat, kind: LockKind, now: nat)
    requires Inv(m) && tx < |m.txns|
    ensures var (m', ok) := Step(m, Acquire(tx, resource, kind, now));
            var others := exists l <- m.locks :: l.resource == resource && l.owner != tx + 1;
            var exclusive := exists l <- m.locks :: l.resource == resource && l.owner != tx + 1 && l.kind == Exclusive;
            && (ok <==> m.txns[tx].state == Active && (kind == Exclusive ==> !others) && (kind == Shared ==> !exclusive))
            && (!ok ==> m' == m)
            && (ok ==> && m'.locks == m.locks + [Lock(resource, kind, tx + 1, now)]
                       && m'.txns == m.txns[tx := m.txns[tx].(locks := m.txns[tx].locks + [Lock(resource, kind, tx + 1, now)])])
  {
    hide OpenCount, Compatible, OwnedBy;
    var conflict := HasConflict(m.locks, resource, tx + 1, kind);
    if conflict {
      var i :| 0 <= i < |m.locks| && m.locks[i].resource == resource && m.locks[i].owner != tx + 1
               && Blocks(m.locks[i].kind, kind);
      assert m.locks[i] in m.locks;
    }
  }

  /** Only the first record on the resource is gone. */
  ghost predicate FirstGone(own: seq<Lock>, own': seq<Lock>, resource: nat) {
    exists i :: 0 <= i < |own| && FirstOn(own, resource, i) && own' == own[..i] + own[i + 1..]
  }

  ghost predicate FirstOn(own: seq<Lock>, resource: nat, i: nat)
    requires i < |own|
  {
    own[i].resource == resource && forall j :: 0 <= j < i ==> own[j].resource != resource
  }

  lemma {:induction false} RemoveOwnAt(own: seq<Lock>, resource: nat, i: nat)
    requires i < |own| && FirstOn(own, resource, i)
    ensures RemoveOwn(own, resource) == own[..i] + own[i + 1..]
  {
    if i > 0 {
      assert own[0].resource != resource;
      assert forall j :: 0 <= j < |own[1..]| ==> own[1..][j] == own[j + 1];
      RemoveOwnAt(own[1..], resource, i - 1);
      assert [own[0]] + (own[1..][..i - 1] + own[1..][i..]) == own[..i] + own[i + 1..];
    }
  }

  lemma {:induction false} SomeFirst(own: seq<Lock>, resource: nat, n: nat)
    requires n < |own| && own[n].resource == resource
    ensures exists i :: 0 <= i < |own| && FirstOn(own, resource, i)
  {
    if k :| 0 <= k < n && own[k].resource == resource {
      SomeFirst(own, resource, k);
    } else {
      assert FirstOn(own, resource, n);
    }
  }

  lemma RemoveOwnIsFirstGone(own: seq<Lock>, resource: nat)
    requires Holds(own, resource)
    ensures FirstGone(own, RemoveOwn(own, resource), resource)
  {
    hide RemoveOwn, FirstOn;
    var n :| 0 <= n < |own| && own[n].resource == resource;
    SomeFirst(own, resource, n);
    var i :| 0 <= i < |own| && FirstOn(own, resource, i);
    RemoveOwnAt(own, resource, i);
  }

  /** Releasing succeeds exactly if the transaction holds a lock on the resource, and gives up the one it was granted first. */
  lemma ReleaseEffect(m: Manager, tx: nat, resource: nat)
    requires Inv(m) && tx < |m.txns|
    ensures var (m', ok) := Step(m, Release(tx, resource));
            && (ok <==> exists i :: 0 <= i < |m.txns[tx].locks| && m.txns[tx].locks[i].resource == resource)
            && (!ok ==> m' == m)
            && (ok ==> && FirstGone(m.txns[tx].locks, m'.txns[tx].locks, resource)
                       && m'.txns == m.txns[tx := m.txns[tx].(locks := m'.txns[tx].locks)]
                       && OwnedBy(m'.locks, tx + 1) == m'.txns[tx].locks)
    ensures forall i :: 0 <= i < |m.txns| && i != tx ==> m.txns[i].locks == OwnedBy(Step(m, Release(tx, resource)).0.locks, i + 1)
  {
    hide OpenCount, Compatible, OwnedBy, FirstGone, RemoveFirst, RemoveOwn;
    ReleaseKeepsInv(m, tx, resource);
    if Holds(m.txns[tx].locks, resource) {
      RemoveOwnIsFirstGone(m.txns[tx].locks, resource);
      var m' := Step(m, Release(tx, resource)).0;
      forall i | 0 <= i < |m.txns| && i != tx
        ensures m.txns[i].locks == OwnedBy(m'.locks, i + 1)
      {
        assert m'.txns[i] == m.txns[i];
      }
    }
  }
}
