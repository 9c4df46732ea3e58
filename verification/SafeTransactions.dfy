/**
  Which transactions are safe in any company. A transaction is judged by its operations alone: it can be
  part of a cycle with others that have no gaps if and only if it has a gap when it runs by itself.
*/
module SafeTransactions {

  import opened TransactionSpec
  import opened Serializability

  /** An operation of one transaction, other than beginning it. */
  predicate OpOf(op: Op, tx: nat) {
    (op.Acquire? || op.Release? || op.Commit? || op.Rollback?) && op.tx == tx
  }

  predicate OpOfAnother(op: Op, tx: nat) {
    op.Begin? || ((op.Acquire? || op.Release? || op.Commit? || op.Rollback?) && op.tx != tx)
  }

  /** The run of a single transaction. */
  ghost predicate Alone(own: seq<Op>) {
    own != [] && own[0].Begin? && forall k :: 0 < k < |own| ==> OpOf(own[k], 0)
  }

  /** Operation `n` belongs to the transaction that begins first. */
  predicate OfFirst(ops: seq<Op>, n: nat)
    requires n < |ops|
  {
    n == 0 || OpOf(ops[n], 0)
  }

  /** How many of the first `n` operations belong to the transaction that begins first. */
  function OwnSteps(ops: seq<Op>, n: nat): (c: nat)
    requires n <= |ops|
    ensures c <= n
  {
    if n == 0 then 0 else OwnSteps(ops, n - 1) + if OfFirst(ops, n - 1) then 1 else 0
  }

  ghost predicate Answered(max: nat, ops: seq<Op>, n: nat) {
    n < |ops| && Step(After(max, ops, n), ops[n]).1
  }

  /**
    `ops` interleaves the run `own` of a transaction with operations of others, and every operation of
    `own` is answered in it as it is without the others.
  */
  ghost predicate Carries(max: nat, ops: seq<Op>, own: seq<Op>) {
    && ops != [] && OwnSteps(ops, |ops|) == |own|
    && (forall n :: 0 <= n < |ops| && OfFirst(ops, n) ==>
          OwnSteps(ops, n) < |own| && ops[n] == own[OwnSteps(ops, n)]
          && Answered(max, ops, n) == Answered(max, own, OwnSteps(ops, n)))
    && (forall n :: 0 <= n < |ops| && !OfFirst(ops, n) ==> OpOfAnother(ops[n], 0))
  }

  // ---------- A transaction without gaps has none in company ----------

  lemma {:induction false} OwnStepsGrow(ops: seq<Op>, m: nat, n: nat)
    requires m <= n <= |ops|
    ensures OwnSteps(ops, m) <= OwnSteps(ops, n)
    ensures m < n && OfFirst(ops, m) ==> OwnSteps(ops, m) < OwnSteps(ops, n)
  {
    if m < n {
      OwnStepsGrow(ops, m, n - 1);
    }
  }

  /** Every own operation between two points is one of the operations between them. */
  lemma {:induction false} OwnStepIn(ops: seq<Op>, m: nat, n: nat, c: nat) returns (q: nat)
    requires m <= n <= |ops| && OwnSteps(ops, m) <= c < OwnSteps(ops, n)
    ensures m <= q < n && OfFirst(ops, q) && OwnSteps(ops, q) == c
  {
    q := n - 1;
    if !(OfFirst(ops, q) && OwnSteps(ops, q) == c) {
      q := OwnStepIn(ops, m, n - 1, c);
    }
  }

  lemma AnotherLeaves(m: Manager, op: Op)
    requires OpOfAnother(op, 0) && m.txns != []
    ensures Step(m, op).0.txns != [] && Step(m, op).0.txns[0] == m.txns[0]
  {
    hide HasConflict, RemoveEach, RemoveFirst, RemoveOwn, Holds;
  }

  lemma OwnLeavesAlike(m: Manager, m': Manager, op: Op)
    requires OpOf(op, 0) && m.txns != [] && m'.txns != [] && m.txns[0] == m'.txns[0] && Step(m, op).1 == Step(m', op).1
    ensures Step(m, op).0.txns != [] && Step(m', op).0.txns != [] && Step(m, op).0.txns[0] == Step(m', op).0.txns[0]
  {
    hide HasConflict, RemoveEach, RemoveFirst, RemoveOwn, Holds;
  }

  /** In company, the transaction is after every operation what it is alone after its own operations so far. */
  lemma {:induction false} SameTransaction(max: nat, ops: seq<Op>, own: seq<Op>, n: nat)
    requires max > 0 && Alone(own) && Carries(max, ops, own) && n <= |ops|
    ensures OwnSteps(ops, n) <= |own|
    ensures var m, m' := After(max, ops, n), After(max, own, OwnSteps(ops, n));
            if n == 0 then m.txns == m'.txns == [] else m.txns != [] && m'.txns != [] && m.txns[0] == m'.txns[0]
  {
    hide Step;
    OwnStepsGrow(ops, n, |ops|);
    if n > 0 {
      SameTransaction(max, ops, own, n - 1);
      var m := After(max, ops, n - 1);
      if n == 1 {
        assert ops[0] == own[0];
        FirstBegins(max, own[0]);
      } else if OfFirst(ops, n - 1) {
        OwnLeavesAlike(m, After(max, own, OwnSteps(ops, n - 1)), ops[n - 1]);
      } else {
        AnotherLeaves(m, ops[n - 1]);
      }
    }
  }

  lemma FirstBegins(max: nat, op: Op)
    requires max > 0 && op.Begin?
    ensures Step(Init(max), op).0.txns != []
  {
  }

  lemma SameGrants(max: nat, ops: seq<Op>, own: seq<Op>, n: nat, resource: nat, kind: LockKind)
    requires Alone(own) && Carries(max, ops, own) && n < |ops| && OfFirst(ops, n)
    ensures Grants(max, ops, n, 0, resource, kind) <==> Grants(max, own, OwnSteps(ops, n), 0, resource, kind)
  {
  }

  lemma GrantIsOwn(max: nat, ops: seq<Op>, n: nat, resource: nat, kind: LockKind)
    requires Grants(max, ops, n, 0, resource, kind)
    ensures OfFirst(ops, n)
  {
  }

  lemma SameOwn(max: nat, ops: seq<Op>, own: seq<Op>, n: nat)
    requires max > 0 && Alone(own) && Carries(max, ops, own) && n <= |ops|
    ensures OwnSteps(ops, n) <= |own| && Own(max, ops, n, 0) == Own(max, own, OwnSteps(ops, n), 0)
  {
    SameTransaction(max, ops, own, n);
  }

  lemma SameExposure(max: nat, ops: seq<Op>, own: seq<Op>, n: nat)
    requires max > 0 && Alone(own) && Carries(max, ops, own) && n <= |ops| && Exposed(max, ops, n, 0)
    ensures OwnSteps(ops, n) <= |own| && Exposed(max, own, OwnSteps(ops, n), 0)
  {
    hide Grants, Own, Carries, Alone;
    SameOwn(max, ops, own, n);
    var i, resource, held, kind :| ExposedBy(max, ops, n, 0, i, resource, held, kind);
    GrantIsOwn(max, ops, i, resource, held);
    SameGrants(max, ops, own, i, resource, held);
    OwnStepsGrow(ops, i, n);
    assert ExposedBy(max, own, OwnSteps(ops, n), 0, OwnSteps(ops, i), resource, held, kind);
  }

  lemma SameRoom(max: nat, ops: seq<Op>, own: seq<Op>, p: nat, n: nat, resource: nat, kind: LockKind)
    requires max > 0 && Alone(own) && Carries(max, ops, own) && p <= n <= |ops| && LeavesRoom(max, ops, 0, p, n, resource, kind)
    ensures OwnSteps(ops, p) <= OwnSteps(ops, n) <= |own|
    ensures LeavesRoom(max, own, 0, OwnSteps(ops, p), OwnSteps(ops, n), resource, kind)
  {
    hide Grants, Own, Carries, Alone;
    SameOwn(max, ops, own, p);
    SameOwn(max, ops, own, n);
    OwnStepsGrow(ops, p, n);
    forall c: nat, granted | OwnSteps(ops, p) <= c < OwnSteps(ops, n) && Grants(max, own, c, 0, resource, granted)
      ensures !Blocks(kind, granted)
    {
      var q := OwnStepIn(ops, p, n, c);
      SameGrants(max, ops, own, q, resource, granted);
    }
  }

  lemma SameGap(max: nat, ops: seq<Op>, own: seq<Op>, p: nat, n: nat, j: nat, resource: nat, kind: LockKind, granted: LockKind)
    requires max > 0 && Alone(own) && Carries(max, ops, own) && Gap(max, ops, 0, p, n, j, resource, kind, granted)
    ensures Gap(max, own, 0, OwnSteps(ops, p), OwnSteps(ops, n), OwnSteps(ops, j), resource, kind, granted)
  {
    hide Grants, Own, Carries, Alone, Exposed, LeavesRoom;
    SameExposure(max, ops, own, n);
    SameRoom(max, ops, own, p, n, resource, kind);
    GrantIsOwn(max, ops, j, resource, granted);
    SameGrants(max, ops, own, j, resource, granted);
    OwnStepsGrow(ops, n, j);
    SameOwn(max, ops, own, j);
  }

  lemma GaplessInCompany(max: nat, ops: seq<Op>, own: seq<Op>)
    requires max > 0 && Alone(own) && Carries(max, ops, own) && Gapless(max, own, 0)
    ensures Gapless(max, ops, 0)
  {
    hide Carries, Alone, Gap;
    forall p: nat, n: nat, j: nat, resource: nat, kind, granted
      ensures !Gap(max, ops, 0, p, n, j, resource, kind, granted)
    {
      if Gap(max, ops, 0, p, n, j, resource, kind, granted) {
        SameGap(max, ops, own, p, n, j, resource, kind, granted);
      }
    }
  }

  // ---------- A gap lets another transaction in ----------

  /**
    `own` with a second transaction, which takes a lock on `later` before own operation `p`, and takes a
    lock on `first` and commits before own operation `n`.
  */
  function Woven(own: seq<Op>, p: nat, n: nat, later: nat, kind: LockKind, first: nat, kind': LockKind, now: nat): (ops: seq<Op>)
    requires 0 < p <= n <= |own|
    ensures |ops| == |own| + 4
  {
    own[..1] + [Begin(Serializable, now)] + own[1..p] + [Acquire(1, later, kind, now)] + own[p..n]
    + [Acquire(1, first, kind', now), Commit(1, now)] + own[n..]
  }

  /** Where own operation `k` is in the woven run. */
  function WovenAt(p: nat, n: nat, k: nat): nat {
    if k == 0 then 0 else if k < p then k + 1 else if k < n then k + 2 else k + 4
  }

  lemma WovenParts(own: seq<Op>, p: nat, n: nat, later: nat, kind: LockKind, first: nat, kind': LockKind, now: nat)
    requires 0 < p <= n <= |own|
    ensures var ops := Woven(own, p, n, later, kind, first, kind', now);
            && (forall k :: 0 <= k < |own| ==> ops[WovenAt(p, n, k)] == own[k])
            && ops[0] == own[0] && ops[1] == Begin(Serializable, now) && ops[p + 1] == Acquire(1, later, kind, now)
            && ops[n + 2] == Acquire(1, first, kind', now) && ops[n + 3] == Commit(1, now)
  {
    var a := own[..1] + [Begin(Serializable, now)];
    var b := a + own[1..p];
    var c := b + [Acquire(1, later, kind, now)];
    var d := c + own[p..n];
    var e := d + [Acquire(1, first, kind', now), Commit(1, now)];
    var ops := Woven(own, p, n, later, kind, first, kind', now);
    assert ops == e + own[n..] && |a| == 2 && |b| == p + 1 && |c| == p + 2 && |d| == n + 2 && |e| == n + 4;
    forall k | 0 <= k < |own|
      ensures ops[WovenAt(p, n, k)] == own[k]
    {
      if k == 0 {
        assert ops[0] == e[0] == d[0] == c[0] == b[0] == a[0];
      } else if k < p {
        assert ops[k + 1] == e[k + 1] == d[k + 1] == c[k + 1] == b[k + 1] == own[1..p][k - 1];
      } else if k < n {
        assert ops[k + 2] == e[k + 2] == d[k + 2] == own[p..n][k - p];
      } else {
        assert ops[k + 4] == own[n..][k - n];
      }
    }
    assert ops[1] == e[1] == d[1] == c[1] == b[1] == a[1];
    assert ops[p + 1] == e[p + 1] == d[p + 1] == c[p + 1];
    assert ops[n + 2] == e[n + 2];
    assert ops[n + 3] == e[n + 3];
  }

  lemma WovenShifts(own: seq<Op>, p: nat, n: nat, later: nat, kind: LockKind, first: nat, kind': LockKind, now: nat)
    requires Alone(own) && 0 < p <= n <= |own|
    ensures var ops := Woven(own, p, n, later, kind, first, kind', now);
            Shifted(own, ops, 1, p, 1) && Shifted(own, ops, p, n, 2) && Shifted(own, ops, n, |own|, 4)
  {
    hide Woven;
    var ops := Woven(own, p, n, later, kind, first, kind', now);
    WovenParts(own, p, n, later, kind, first, kind', now);
    forall k | 0 < k < |own|
      ensures ops[if k < p then k + 1 else if k < n then k + 2 else k + 4] == own[k] && OpOf(own[k], 0)
    {
      assert ops[WovenAt(p, n, k)] == own[k];
    }
  }

  lemma {:induction false} WovenSteps(own: seq<Op>, p: nat, n: nat, later: nat, kind: LockKind, first: nat, kind': LockKind, now: nat, i: nat)
    requires Alone(own) && 0 < p <= n <= |own| && i <= |own| + 4
    ensures OwnSteps(Woven(own, p, n, later, kind, first, kind', now), i)
            == if i <= 1 then i else if i <= p + 1 then i - 1 else if i <= n + 2 then i - 2 else if i == n + 3 then n else i - 4
    ensures i < |own| + 4 ==> (OfFirst(Woven(own, p, n, later, kind, first, kind', now), i) <==> i !in [1, p + 1, n + 2, n + 3])
  {
    hide Woven;
    var ops := Woven(own, p, n, later, kind, first, kind', now);
    WovenParts(own, p, n, later, kind, first, kind', now);
    if i < |own| + 4 && i !in [1, p + 1, n + 2, n + 3] {
      var k := if i == 0 then 0 else if i <= p then i - 1 else if i <= n + 1 then i - 2 else i - 4;
      assert WovenAt(p, n, k) == i && ops[i] == own[k];
    }
    if i > 0 {
      WovenSteps(own, p, n, later, kind, first, kind', now, i - 1);
    }
  }

  /** Two transactions: a request is refused by the locks of the other one alone. */
  lemma ConflictOfTwo(m: Manager, tx: nat, resource: nat, kind: LockKind)
    requires Inv(m) && |m.txns| == 2 && tx < 2
    ensures HasConflict(m.locks, resource, tx + 1, kind) <==> Refuses(m.txns[1 - tx].locks, resource, kind)
  {
    hide OpenCount, Compatible;
    if Refuses(m.txns[1 - tx].locks, resource, kind) {
      RefusedIsConflict(m, 1 - tx, tx, resource, kind);
    }
    if HasConflict(m.locks, resource, tx + 1, kind) {
      var i :| 0 <= i < |m.locks| && m.locks[i].resource == resource && m.locks[i].owner != tx + 1
               && Blocks(m.locks[i].kind, kind);
      assert m.locks[i] in m.locks;
      OwnedByMembers(m.locks, 2 - tx);
      HeldRefuses(m.txns[1 - tx].locks, m.locks[i], kind);
    }
  }

  lemma ConflictOfOne(m: Manager, resource: nat, kind: LockKind)
    requires Inv(m) && |m.txns| == 1
    ensures !HasConflict(m.locks, resource, 1, kind)
  {
    hide OpenCount, Compatible;
    forall i | 0 <= i < |m.locks|
      ensures m.locks[i].owner == 1
    {
      assert m.locks[i] in m.locks;
    }
  }

  /** `m'` has the one transaction of `m` and beside it `u`. */
  ghost predicate Beside(m: Manager, m': Manager, u: Txn) {
    |m.txns| == 1 && m'.txns == [m.txns[0], u]
  }

  /** An operation of the first transaction is answered as it is alone, unless `u` refuses what would be granted. */
  lemma OwnBeside(m: Manager, m': Manager, op: Op, u: Txn)
    requires Inv(m) && Inv(m') && Beside(m, m', u) && OpOf(op, 0)
    requires op.Acquire? && Step(m, op).1 ==> !Refuses(u.locks, op.resource, op.kind)
    ensures Beside(Step(m, op).0, Step(m', op).0, u) && Step(m', op).1 == Step(m, op).1
  {
    hide HasConflict, RemoveEach, RemoveFirst, RemoveOwn, Holds, OwnedBy, OpenCount, Compatible, Refuses;
    if op.Acquire? {
      ConflictOfOne(m, op.resource, op.kind);
      ConflictOfTwo(m', 0, op.resource, op.kind);
    }
  }

  /** Own operations from `lo` to `hi` occur `shift` places later in `ops`. */
  ghost predicate Shifted(own: seq<Op>, ops: seq<Op>, lo: nat, hi: nat, shift: nat) {
    hi <= |own| && hi + shift <= |ops| && forall k :: lo <= k < hi ==> ops[k + shift] == own[k] && OpOf(own[k], 0)
  }

  ghost predicate AnsweredAlike(max: nat, own: seq<Op>, ops: seq<Op>, lo: nat, hi: nat, shift: nat) {
    forall k :: lo <= k < hi ==> Answered(max, ops, k + shift) == Answered(max, own, k)
  }

  lemma {:induction false} OwnRunBeside(max: nat, own: seq<Op>, ops: seq<Op>, lo: nat, hi: nat, shift: nat, u: Txn)
    requires lo <= hi && Shifted(own, ops, lo, hi, shift) && Beside(After(max, own, lo), After(max, ops, lo + shift), u)
    requires forall k, resource, kind :: lo <= k < hi && Grants(max, own, k, 0, resource, kind) ==> !Refuses(u.locks, resource, kind)
    ensures Beside(After(max, own, hi), After(max, ops, hi + shift), u)
    ensures AnsweredAlike(max, own, ops, lo, hi, shift)
  {
    hide Step, Refuses, Beside;
    if lo < hi {
      OwnRunBeside(max, own, ops, lo, hi - 1, shift, u);
      var k := hi - 1;
      RunKeepsInv(max, own, k);
      RunKeepsInv(max, ops, k + shift);
      if own[k].Acquire? && Step(After(max, own, k), own[k]).1 {
        assert Grants(max, own, k, 0, own[k].resource, own[k].kind);
      }
      OwnBeside(After(max, own, k), After(max, ops, k + shift), own[k], u);
    }
  }

  /** The second transaction is granted what the first does not refuse. */
  lemma OtherIsGranted(m: Manager, m': Manager, u: Txn, resource: nat, kind: LockKind, now: nat)
    requires Inv(m') && Beside(m, m', u) && u.state == Active && !Refuses(m.txns[0].locks, resource, kind)
    ensures var (next, ok) := AcquireStep(m', 1, resource, kind, now);
            ok && Beside(m, next, u.(locks := u.locks + [Lock(resource, kind, 2, now)]))
  {
    hide HasConflict, OwnedBy, OpenCount, Compatible, Refuses;
    ConflictOfTwo(m', 1, resource, kind);
  }

  lemma OtherCommits(m: Manager, m': Manager, u: Txn, now: nat)
    requires Beside(m, m', u) && u.state == Active
    ensures Beside(m, CommitStep(m', 1, now).0, u.(state := Committed, commitTime := now, locks := []))
  {
    hide RemoveEach;
  }

  lemma WovenBegins(max: nat, own: seq<Op>, ops: seq<Op>, now: nat)
    requires max >= 2 && Alone(own) && |ops| >= 2 && ops[0] == own[0] && ops[1] == Begin(Serializable, now)
    ensures Beside(After(max, own, 1), After(max, ops, 2), Txn(2, Active, Serializable, now, 0, []))
    ensures Answered(max, ops, 0) && Answered(max, own, 0)
  {
    AfterStep(max, own, 0);
    AfterStep(max, ops, 0);
    AfterStep(max, ops, 1);
    assert Step(Init(max), own[0]).1 && |Step(Init(max), own[0]).0.txns| == 1;
  }

  /** What a gap says about the first transaction alone, for a partner that leaves out its beginning. */
  lemma GapStarts(max: nat, own: seq<Op>, p: nat, n: nat, j: nat, later: nat, kind: LockKind, granted: LockKind)
    requires Alone(own) && Gap(max, own, 0, p, n, j, later, kind, granted)
    ensures var p' := if p == 0 then 1 else p; p' <= n && Gap(max, own, 0, p', n, j, later, kind, granted)
  {
    hide After, Step, Refuses;
    if p == 0 {
      var i, resource, held, k :| ExposedBy(max, own, n, 0, i, resource, held, k);
      OnlyBegun(max, own);
    }
  }

  lemma OnlyBegun(max: nat, own: seq<Op>)
    requires Alone(own)
    ensures Own(max, own, 1, 0) == Own(max, own, 0, 0) == []
  {
    AfterStep(max, own, 0);
  }

  lemma RefusedByNone(resource: nat, kind: LockKind)
    ensures !Refuses([], resource, kind)
  {
  }

  lemma RefusedByOne(l: Lock, resource: nat, kind: LockKind)
    ensures Refuses([l], resource, kind) <==> l.resource == resource && Blocks(l.kind, kind)
  {
    if l.resource == resource && Blocks(l.kind, kind) {
      assert [l][0].resource == resource;
    }
  }

  /** The other transaction gets a lock at operation `b`, where the first one alone is after `a` operations. */
  lemma OtherStep(max: nat, own: seq<Op>, ops: seq<Op>, a: nat, b: nat, u: Txn, resource: nat, kind: LockKind, now: nat)
    requires a <= |own| && b < |ops| && Beside(After(max, own, a), After(max, ops, b), u) && u.state == Active
    requires ops[b] == Acquire(1, resource, kind, now) && !Refuses(Own(max, own, a, 0), resource, kind)
    ensures Grants(max, ops, b, 1, resource, kind)
    ensures Beside(After(max, own, a), After(max, ops, b + 1), u.(locks := u.locks + [Lock(resource, kind, 2, now)]))
  {
    hide AcquireStep, Refuses;
    RunKeepsInv(max, ops, b);
    OtherIsGranted(After(max, own, a), After(max, ops, b), u, resource, kind, now);
  }

  lemma OtherEnds(max: nat, own: seq<Op>, ops: seq<Op>, a: nat, b: nat, u: Txn, now: nat)
    requires a <= |own| && b < |ops| && Beside(After(max, own, a), After(max, ops, b), u) && u.state == Active
    requires ops[b] == Commit(1, now)
    ensures Beside(After(max, own, a), After(max, ops, b + 1), u.(state := Committed, commitTime := now, locks := []))
  {
    hide CommitStep;
    OtherCommits(After(max, own, a), After(max, ops, b), u, now);
  }

  /** The woven run up to the commit of the other transaction. */
  lemma WovenGoes(max: nat, own: seq<Op>, p: nat, n: nat, later: nat, kind: LockKind, first: nat, kind': LockKind, now: nat)
    returns (u: Txn)
    requires max >= 2 && Alone(own) && 0 < p <= n <= |own|
    requires LeavesRoom(max, own, 0, p, n, later, kind) && !Refuses(Own(max, own, n, 0), first, kind')
    ensures var ops := Woven(own, p, n, later, kind, first, kind', now);
            && Grants(max, ops, p + 1, 1, later, kind) && Grants(max, ops, n + 2, 1, first, kind')
            && Beside(After(max, own, n), After(max, ops, n + 4), u) && u.locks == []
            && Answered(max, ops, 0) && Answered(max, own, 0)
            && AnsweredAlike(max, own, ops, 1, p, 1) && AnsweredAlike(max, own, ops, p, n, 2)
  {
    hide Woven, After, Refuses, Beside, Answered, Grants, Own, Alone, Shifted, AnsweredAlike;
    var ops := Woven(own, p, n, later, kind, first, kind', now);
    WovenParts(own, p, n, later, kind, first, kind', now);
    WovenShifts(own, p, n, later, kind, first, kind', now);
    u := Txn(2, Active, Serializable, now, 0, []);
    WovenBegins(max, own, ops, now);
    forall resource: nat, granted
      ensures !Refuses([], resource, granted)
    {
      RefusedByNone(resource, granted);
    }
    OwnRunBeside(max, own, ops, 1, p, 1, u);
    OtherStep(max, own, ops, p, p + 1, u, later, kind, now);
    u := u.(locks := [] + [Lock(later, kind, 2, now)]);
    assert u.locks == [Lock(later, kind, 2, now)];
    forall k: nat, resource: nat, granted | p <= k < n && Grants(max, own, k, 0, resource, granted)
      ensures !Refuses(u.locks, resource, granted)
    {
      RefusedByOne(Lock(later, kind, 2, now), resource, granted);
    }
    OwnRunBeside(max, own, ops, p, n, 2, u);
    OtherStep(max, own, ops, n, n + 2, u, first, kind', now);
    u := u.(locks := u.locks + [Lock(first, kind', 2, now)]);
    OtherEnds(max, own, ops, n, n + 3, u, now);
    u := u.(state := Committed, commitTime := now, locks := []);
  }

  /** In the woven run the other transaction gets both its locks, and every own operation is answered as alone. */
  lemma WovenAnswers(max: nat, own: seq<Op>, p: nat, n: nat, later: nat, kind: LockKind, first: nat, kind': LockKind, now: nat)
    requires max >= 2 && Alone(own) && 0 < p <= n <= |own|
    requires LeavesRoom(max, own, 0, p, n, later, kind) && !Refuses(Own(max, own, n, 0), first, kind')
    ensures var ops := Woven(own, p, n, later, kind, first, kind', now);
            && Grants(max, ops, p + 1, 1, later, kind) && Grants(max, ops, n + 2, 1, first, kind')
            && forall k :: 0 <= k < |own| ==> Answered(max, ops, WovenAt(p, n, k)) == Answered(max, own, k)
  {
    hide Woven, After, Refuses, Beside, Answered, Grants, Own, Alone, Shifted;
    var ops := Woven(own, p, n, later, kind, first, kind', now);
    WovenShifts(own, p, n, later, kind, first, kind', now);
    var u := WovenGoes(max, own, p, n, later, kind, first, kind', now);
    forall resource: nat, granted
      ensures !Refuses([], resource, granted)
    {
      RefusedByNone(resource, granted);
    }
    OwnRunBeside(max, own, ops, n, |own|, 4, u);
    forall k | 0 <= k < |own|
      ensures Answered(max, ops, WovenAt(p, n, k)) == Answered(max, own, k)
    {
      var shift := if k < p then 1 else if k < n then 2 else 4;
      assert k > 0 ==> WovenAt(p, n, k) == k + shift;
    }
  }

  lemma WovenIsOwn(own: seq<Op>, p: nat, n: nat, later: nat, kind: LockKind, first: nat, kind': LockKind, now: nat, i: nat)
    requires Alone(own) && 0 < p <= n <= |own| && i < |own| + 4
    ensures var ops := Woven(own, p, n, later, kind, first, kind', now);
            if OfFirst(ops, i)
            then OwnSteps(ops, i) < |own| && WovenAt(p, n, OwnSteps(ops, i)) == i && ops[i] == own[OwnSteps(ops, i)]
            else OpOfAnother(ops[i], 0)
  {
    hide Woven, OwnSteps, OfFirst, Alone;
    WovenSteps(own, p, n, later, kind, first, kind', now, i);
    WovenParts(own, p, n, later, kind, first, kind', now);
  }

  lemma WovenCarries(max: nat, own: seq<Op>, p: nat, n: nat, later: nat, kind: LockKind, first: nat, kind': LockKind, now: nat)
    requires max >= 2 && Alone(own) && 0 < p <= n <= |own|
    requires LeavesRoom(max, own, 0, p, n, later, kind) && !Refuses(Own(max, own, n, 0), first, kind')
    ensures Carries(max, Woven(own, p, n, later, kind, first, kind', now), own)
  {
    hide Woven, WovenAt, OfFirst, LeavesRoom, Refuses, Own, Answered, OwnSteps, After, Step, Grants, Alone, OpOfAnother;
    var ops := Woven(own, p, n, later, kind, first, kind', now);
    WovenAnswers(max, own, p, n, later, kind, first, kind', now);
    WovenSteps(own, p, n, later, kind, first, kind', now, |ops|);
    forall i | 0 <= i < |ops|
      ensures OfFirst(ops, i) ==> OwnSteps(ops, i) < |own| && ops[i] == own[OwnSteps(ops, i)]
                                  && Answered(max, ops, i) == Answered(max, own, OwnSteps(ops, i))
      ensures !OfFirst(ops, i) ==> OpOfAnother(ops[i], 0)
    {
      WovenIsOwn(own, p, n, later, kind, first, kind', now, i);
    }
  }

  lemma WovenIsTwoPhase(own: seq<Op>, p: nat, n: nat, later: nat, kind: LockKind, first: nat, kind': LockKind, now: nat)
    requires Alone(own) && 0 < p <= n <= |own|
    ensures TwoPhase(Woven(own, p, n, later, kind, first, kind', now), 1)
  {
    hide Woven, OwnSteps;
    var ops := Woven(own, p, n, later, kind, first, kind', now);
    WovenParts(own, p, n, later, kind, first, kind', now);
    forall i | 0 <= i < |ops|
      ensures ops[i].Release? ==> ops[i].tx != 1
    {
      WovenSteps(own, p, n, later, kind, first, kind', now, i);
    }
  }

  // ---------- Safe exactly without gaps ----------

  /** A gap of a transaction alone lets a second one, which locks in two phases, be before and after it. */
  lemma GapMakesACycle(max: nat, own: seq<Op>, p: nat, n: nat, j: nat, later: nat, kind: LockKind, granted: LockKind)
    returns (ops: seq<Op>)
    requires max >= 2 && Alone(own) && Gap(max, own, 0, p, n, j, later, kind, granted)
    ensures Carries(max, ops, own) && TwoPhase(ops, 1)
    ensures Precedes(max, ops, 0, 1) && Precedes(max, ops, 1, 0)
  {
    hide Woven, After, Refuses, Carries, TwoPhase, Own, Step, Grants;
    GapStarts(max, own, p, n, j, later, kind, granted);
    var p' := if p == 0 then 1 else p;
    var i, first, held, kind' :| ExposedBy(max, own, n, 0, i, first, held, kind');
    ops := Woven(own, p', n, later, kind, first, kind', 0);
    WovenCarries(max, own, p', n, later, kind, first, kind', 0);
    WovenIsTwoPhase(own, p', n, later, kind, first, kind', 0);
    WovenAnswers(max, own, p', n, later, kind, first, kind', 0);
    WovenParts(own, p', n, later, kind, first, kind', 0);
    WovenGrants(max, own, ops, p', n, i, first, held);
    WovenGrants(max, own, ops, p', n, j, later, granted);
    GrantsMakePrecede(max, ops, WovenAt(p', n, i), n + 2, 0, 1, first, held, kind');
    GrantsMakePrecede(max, ops, p' + 1, WovenAt(p', n, j), 1, 0, later, kind, granted);
  }

  lemma WovenGrants(max: nat, own: seq<Op>, ops: seq<Op>, p: nat, n: nat, k: nat, resource: nat, kind: LockKind)
    requires Grants(max, own, k, 0, resource, kind) && WovenAt(p, n, k) < |ops| && ops[WovenAt(p, n, k)] == own[k]
    requires Answered(max, ops, WovenAt(p, n, k)) == Answered(max, own, k)
    ensures Grants(max, ops, WovenAt(p, n, k), 0, resource, kind)
  {
    hide Step, After;
  }

  lemma GrantsMakePrecede(max: nat, ops: seq<Op>, i: nat, j: nat, a: nat, b: nat, resource: nat, ka: LockKind, kb: LockKind)
    requires i < j && a != b && Blocks(ka, kb)
    requires Grants(max, ops, i, a, resource, ka) && Grants(max, ops, j, b, resource, kb)
    ensures Precedes(max, ops, a, b)
  {
    hide Grants;
    assert PrecedesAt(max, ops, a, b, i, j, resource, ka, kb);
  }

  ghost predicate OthersGapless(max: nat, ops: seq<Op>, path: seq<nat>) {
    forall tx <- path :: tx != 0 ==> Gapless(max, ops, tx)
  }

  /** In every run that carries `own`, no cycle goes through transactions of which the others have no gaps. */
  ghost predicate Safe(max: nat, own: seq<Op>) {
    forall ops: seq<Op>, path: seq<nat> ::
      Carries(max, ops, own) && |path| >= 2 && PrecedencePath(max, ops, path) && OthersGapless(max, ops, path)
      ==> path[0] != path[|path| - 1]
  }

  /** A transaction is safe in all company without gaps if and only if it has no gap when it runs alone. */
  lemma SafeExactly(max: nat, own: seq<Op>)
    requires max >= 2 && Alone(own)
    ensures Safe(max, own) <==> Gapless(max, own, 0)
  {
    hide Gapless, Safe, Alone;
    if Gapless(max, own, 0) {
      GaplessIsSafe(max, own);
    } else {
      GapIsUnsafe(max, own);
    }
  }

  lemma GaplessIsSafe(max: nat, own: seq<Op>)
    requires max > 0 && Alone(own) && Gapless(max, own, 0)
    ensures Safe(max, own)
  {
    hide Gapless, Carries, Alone, PrecedencePath, OthersGapless;
    forall ops: seq<Op>, path: seq<nat> | Carries(max, ops, own) && |path| >= 2 && PrecedencePath(max, ops, path)
                                          && OthersGapless(max, ops, path)
      ensures path[0] != path[|path| - 1]
    {
      GaplessInCompany(max, ops, own);
      AllGapless(max, ops, path);
      GaplessIsAcyclic(max, ops, path);
    }
  }

  lemma GapIsUnsafe(max: nat, own: seq<Op>)
    requires max >= 2 && Alone(own) && !Gapless(max, own, 0)
    ensures !Safe(max, own)
  {
    hide Gap, Alone, Safe;
    forall p: nat, n: nat, j: nat, later: nat, kind, granted
      ensures Gap(max, own, 0, p, n, j, later, kind, granted) ==> !Safe(max, own)
    {
      if Gap(max, own, 0, p, n, j, later, kind, granted) {
        var ops := GapMakesACycle(max, own, p, n, j, later, kind, granted);
        CycleIsUnsafe(max, ops, own);
      }
    }
  }

  lemma CycleIsUnsafe(max: nat, ops: seq<Op>, own: seq<Op>)
    requires Carries(max, ops, own) && TwoPhase(ops, 1) && Precedes(max, ops, 0, 1) && Precedes(max, ops, 1, 0)
    ensures !Safe(max, own)
  {
    hide Carries, TwoPhase, PrecedencePath, Precedes, OthersGapless;
    BackAndForth(max, ops);
    var path: seq<nat> := [0, 1, 0];
    assert path[0] == path[|path| - 1];
  }

  lemma AllGapless(max: nat, ops: seq<Op>, path: seq<nat>)
    requires Gapless(max, ops, 0) && OthersGapless(max, ops, path)
    ensures forall tx <- path :: Gapless(max, ops, tx)
  {
    hide Gapless;
  }

  lemma BackAndForth(max: nat, ops: seq<Op>)
    requires Precedes(max, ops, 0, 1) && Precedes(max, ops, 1, 0) && TwoPhase(ops, 1)
    ensures PrecedencePath(max, ops, [0, 1, 0]) && OthersGapless(max, ops, [0, 1, 0])
  {
    hide Precedes, Gapless;
    TwoPhaseIsGapless(max, ops, 1);
  }
}
