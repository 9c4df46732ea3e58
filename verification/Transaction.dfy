/**
  src/transaction/transaction.c as it runs: transaction objects and a manager whose lists are
  changed by loops. Every method is proved to make exactly the step of `TransactionSpec`.

  The linked lists are sequence fields. Clock readings are parameters. A handle a caller passes is
  one that `Begin` returned; the ghost parameter `t` is its place in the manager's list.
*/
module Transaction {
  import opened TransactionSpec

  class TransactionRecord {
    const id: nat
    var state: State
    const isolation: Isolation
    const startTime: nat
    var commitTime: nat
    var locks: seq<Lock>

    constructor (id: nat, isolation: Isolation, startTime: nat)
      ensures Value() == Txn(id, Active, isolation, startTime, 0, [])
    {
      this.id, this.state, this.isolation := id, Active, isolation;
      this.startTime, commitTime, locks := startTime, 0, [];
    }

    ghost function Value(): Txn
      reads this
    {
      Txn(id, state, isolation, startTime, commitTime, locks)
    }
  }

  class TransactionManager {
    var transactions: seq<TransactionRecord>
    var locks: seq<Lock>
    var nextTransactionId: nat
    var activeTransactions: int
    const maxTransactions: nat

    ghost function Value(): Manager
      reads this, transactions
    {
      Manager(seq(|transactions|, i requires 0 <= i < |transactions| reads this, transactions => transactions[i].Value()),
              locks, nextTransactionId, activeTransactions, maxTransactions)
    }

    ghost predicate Valid()
      reads this, transactions
    {
      && (forall i, j :: 0 <= i < j < |transactions| ==> transactions[i] != transactions[j])
      && Inv(Value())
    }

    /** `transaction_manager_init`. */
    constructor (maxTransactions: nat)
      ensures Valid() && Value() == Init(maxTransactions) && transactions == []
    {
      transactions, locks := [], [];
      nextTransactionId, activeTransactions, this.maxTransactions := 1, 0, maxTransactions;
    }

    /** `transaction_begin`: null when the manager is full. */
    method Begin(isolation: Isolation, now: nat) returns (tx: TransactionRecord?)
      requires Valid()
      modifies this
      ensures Valid()
      ensures (Value(), tx != null) == BeginStep(old(Value()), isolation, now)
      ensures transactions == old(transactions) + if tx == null then [] else [tx]
      ensures tx != null ==> fresh(tx)
    {
      BeginKeepsInv(Value(), isolation, now);
      if activeTransactions >= maxTransactions {
        return null;
      }
      tx := new TransactionRecord(nextTransactionId, if isolation == ReadUncommitted then RepeatableRead else isolation, now);
      nextTransactionId := nextTransactionId + 1;
      transactions := transactions + [tx];
      activeTransactions := activeTransactions + 1;
      assert Value() == BeginStep(old(Value()), isolation, now).0;
    }

    /** `check_lock_conflict`. */
    method CheckLockConflict(resource: nat, owner: nat, kind: LockKind) returns (conflict: bool)
      ensures conflict <==> HasConflict(locks, resource, owner, kind)
    {
      for i := 0 to |locks|
        invariant forall k :: 0 <= k < i ==>
                    !(locks[k].resource == resource && locks[k].owner != owner && Blocks(locks[k].kind, kind))
      {
        if locks[i].resource == resource && locks[i].owner != owner {
          if Blocks(locks[i].kind, kind) {
            return true;
          }
        }
      }
      return false;
    }

    /** `transaction_lock`. */
    method AcquireLock(tx: TransactionRecord, resource: nat, kind: LockKind, now: nat, ghost t: nat) returns (ok: bool)
      requires Valid() && t < |transactions| && transactions[t] == tx
      modifies this`locks, tx`locks
      ensures Valid()
      ensures (Value(), ok) == AcquireStep(old(Value()), t, resource, kind, now)
    {
      AcquireKeepsInv(Value(), t, resource, kind, now);
      if tx.state != Active {
        return false;
      }
      var conflict := CheckLockConflict(resource, tx.id, kind);
      if conflict {
        return false;
      }
      var l := Lock(resource, kind, tx.id, now);
      tx.locks := tx.locks + [l];
      locks := locks + [l];
      ok := true;
      assert Value() == AcquireStep(old(Value()), t, resource, kind, now).0;
    }

    /** The inner loop that unlinks the first matching record from the global list. */
    method RemoveGlobal(owner: nat, resource: nat)
      modifies this`locks
      ensures locks == RemoveFirst(old(locks), owner, resource)
    {
      hide RemoveFirst;
      var i := 0;
      while i < |locks|
        invariant 0 <= i <= |locks| && locks == old(locks)
        invariant forall k :: 0 <= k < i ==> !(locks[k].owner == owner && locks[k].resource == resource)
      {
        if locks[i].owner == owner && locks[i].resource == resource {
          RemovesAt(locks, owner, resource, i);
          locks := locks[..i] + locks[i + 1..];
          return;
        }
        i := i + 1;
      }
      RemovesAt(locks, owner, resource, i);
    }

    /** The outer loop of `transaction_unlock`: unlinks the first own record on the resource. */
    method RemoveFromOwn(tx: TransactionRecord, resource: nat) returns (found: bool)
      modifies tx`locks
      ensures found <==> Holds(old(tx.locks), resource)
      ensures tx.locks == RemoveOwn(old(tx.locks), resource)
    {
      var own := tx.locks;
      var i := 0;
      while i < |own|
        invariant 0 <= i <= |own| && tx.locks == own
        invariant forall k :: 0 <= k < i ==> own[k].resource != resource
        invariant RemoveOwn(own, resource) == own[..i] + RemoveOwn(own[i..], resource)
      {
        assert own[i..][1..] == own[i + 1..];
        if own[i].resource == resource {
          tx.locks := own[..i] + own[i + 1..];
          return true;
        }
        i := i + 1;
      }
      return false;
    }

    /** `transaction_unlock`. */
    method ReleaseLock(tx: TransactionRecord, resource: nat, ghost t: nat) returns (ok: bool)
      requires Valid() && t < |transactions| && transactions[t] == tx
      modifies this`locks, tx`locks
      ensures Valid()
      ensures (Value(), ok) == ReleaseStep(old(Value()), t, resource)
    {
      hide Inv, RemoveFirst, RemoveOwn, Holds;
      ReleaseKeepsInv(Value(), t, resource);
      ok := RemoveFromOwn(tx, resource);
      if ok {
        RemoveGlobal(tx.id, resource);
        assert Value() == ReleaseStep(old(Value()), t, resource).0;
      } else {
        assert Value() == old(Value()) by { NoneToRemove(old(tx.locks), resource); }
      }
    }

    /** The release loop shared by commit and rollback. */
    method ReleaseAll(tx: TransactionRecord)
      modifies this`locks, tx`locks
      ensures locks == RemoveEach(old(locks), old(tx.locks), tx.id) && tx.locks == []
    {
      var rest := tx.locks;
      while rest != []
        invariant RemoveEach(locks, rest, tx.id) == RemoveEach(old(locks), old(tx.locks), tx.id)
      {
        RemoveGlobal(tx.id, rest[0].resource);
        rest := rest[1..];
      }
      tx.locks := [];
    }

    /** `transaction_commit`. */
    method CommitTransaction(tx: TransactionRecord, now: nat, ghost t: nat) returns (ok: bool)
      requires Valid() && t < |transactions| && transactions[t] == tx
      modifies this`locks, this`activeTransactions, tx
      ensures Valid()
      ensures (Value(), ok) == CommitStep(old(Value()), t, now)
    {
      hide Inv, RemoveEach;
      if tx.state != Active {
        return false;
      }
      EndKeepsInv(Value(), t, Committed, now);
      ReleaseAll(tx);
      tx.state := Committed;
      tx.commitTime := now;
      activeTransactions := activeTransactions - 1;
      ok := true;
      assert Value() == End(old(Value()), t, Committed, now);
    }

    /** `transaction_rollback`. */
    method RollbackTransaction(tx: TransactionRecord, now: nat, ghost t: nat) returns (ok: bool)
      requires Valid() && t < |transactions| && transactions[t] == tx
      modifies this`locks, this`activeTransactions, tx
      ensures Valid()
      ensures (Value(), ok) == RollbackStep(old(Value()), t, now)
    {
      hide Inv, RemoveEach;
      if tx.state != Active && tx.state != Prepared {
        return false;
      }
      EndKeepsInv(Value(), t, RolledBack, now);
      ReleaseAll(tx);
      tx.state := RolledBack;
      tx.commitTime := now;
      activeTransactions := activeTransactions - 1;
      ok := true;
      assert Value() == End(old(Value()), t, RolledBack, now);
    }

    /** `transaction_cleanup_timeout`. */
    method CleanupTimedOut(now: nat) returns (cleaned: bool)
      requires Valid()
      modifies this`locks, this`activeTransactions, transactions
      ensures Valid()
      ensures (Value(), cleaned) == CleanupFirst(old(Value()), |old(transactions)|, now)
    {
      hide Inv, RollbackStep;
      cleaned := false;
      for i := 0 to |transactions|
        invariant Valid() && transactions == old(transactions)
        invariant (Value(), cleaned) == CleanupFirst(old(Value()), i, now)
      {
        if transactions[i].state == Active
           && (now - transactions[i].startTime) % 0x1_0000_0000_0000_0000 > TIMEOUT_SECONDS {
          var _ := RollbackTransaction(transactions[i], now, i);
          cleaned := true;
        }
      }
    }

    /** `transaction_handle_deadlock`. */
    method BreakDeadlock(now: nat) returns (ok: bool)
      requires Valid()
      modifies this`locks, this`activeTransactions, transactions
      ensures Valid()
      ensures (Value(), ok) == DeadlockStep(old(Value()), now)
    {
      var oldest, oldestTime := |transactions|, now + 1;
      for i := 0 to |transactions|
        invariant (oldest, oldestTime) == OldestOf(Value().txns, i, now)
      {
        if transactions[i].state == Active && transactions[i].startTime < oldestTime {
          oldestTime := transactions[i].startTime;
          oldest := i;
        }
      }
      if oldest < |transactions| {
        ok := RollbackTransaction(transactions[oldest], now, oldest);
      } else {
        ok := false;
      }
    }
  }

  /** What removing the first matching record means, position by position; `i` is its position, or the length. */
  lemma {:induction false} RemovesAt(locks: seq<Lock>, owner: nat, resource: nat, i: nat)
    requires i <= |locks| && (i < |locks| ==> locks[i].owner == owner && locks[i].resource == resource)
    requires forall k :: 0 <= k < i ==> !(locks[k].owner == owner && locks[k].resource == resource)
    ensures RemoveFirst(locks, owner, resource) == if i < |locks| then locks[..i] + locks[i + 1..] else locks
  {
    if i > 0 {
      RemovesAt(locks[1..], owner, resource, i - 1);
      if i < |locks| {
        assert [locks[0]] + (locks[1..][..i - 1] + locks[1..][i..]) == locks[..i] + locks[i + 1..];
      }
    }
  }
}
