/**
 Transactions and table locks of handles that share a cache (misc/sqlite/btree.c:90-243, 1746-1762,
 1867-1957, 2413-2458, 2532-2593; the invariant is btreeIntegrity, btreeInt.h:585-592, and more).
 Whether the pager can go along is a parameter of each step.
 */
module Transactions {
  datatype Trans = TransNone | TransRead | TransWrite
  datatype LockKind = ReadLock | WriteLock
  datatype Lock = Lock(owner: nat, table: nat, kind: LockKind)
  datatype Handle = Handle(trans: Trans, sharable: bool, readUncommitted: bool)
  datatype Owner = Nobody | Is(handle: nat)
  datatype Rc = Ok | Busy | Locked | ReadOnly | PagerError

  const MasterRoot: nat := 1

  /** BtShared with all its handles. */
  datatype State = State(handles: map<nat, Handle>, inTransaction: Trans, nTransaction: int, locks: seq<Lock>,
                         exclusive: Owner, readOnly: bool)

  // ---------- Steps ----------

  /** queryTableLock's test of one lock of the list. */
  predicate InTheWay(l: Lock, p: nat, table: nat, kind: LockKind) {
    l.owner != p && l.table == table && (l.kind != kind || kind != ReadLock)
  }

  /** Whether a read lock is neither respected nor recorded. */
  predicate Uncommitted(h: Handle, table: nat, kind: LockKind) {
    h.readUncommitted && kind == ReadLock && table != MasterRoot
  }

  predicate MayLock(s: State, p: nat, table: nat, kind: LockKind)
    requires p in s.handles
  {
    || !s.handles[p].sharable
    || ((s.exclusive == Nobody || s.exclusive == Is(p))
        && (Uncommitted(s.handles[p], table, kind) ||
            forall i :: 0 <= i < |s.locks| ==> !InTheWay(s.locks[i], p, table, kind)))
  }

  function Stronger(a: LockKind, b: LockKind): LockKind {
    if a == WriteLock then a else b
  }

  /** The place of a handle's lock on a table, or the length of the list. */
  function FindLock(locks: seq<Lock>, p: nat, table: nat): (i: nat)
    ensures i <= |locks| && (i < |locks| ==> locks[i].owner == p && locks[i].table == table)
    ensures forall j :: 0 <= j < i ==> locks[j].owner != p || locks[j].table != table
  {
    if locks == [] || (locks[0].owner == p && locks[0].table == table) then 0 else 1 + FindLock(locks[1..], p, table)
  }

  /** A lock strengthened, or a new one put in front. */
  function WithLock(locks: seq<Lock>, p: nat, table: nat, kind: LockKind): seq<Lock> {
    var i := FindLock(locks, p, table);
    if i < |locks| then locks[i := locks[i].(kind := Stronger(locks[i].kind, kind))] else [Lock(p, table, kind)] + locks
  }

  /** sqlite3BtreeLockTable: queryTableLock, then lockTable. */
  function LockTable(s: State, p: nat, table: nat, kind: LockKind): (State, Rc)
    requires p in s.handles
  {
    if !MayLock(s, p, table, kind) then (s, Locked)
    else if !s.handles[p].sharable || Uncommitted(s.handles[p], table, kind) then (s, Ok)
    else (s.(locks := WithLock(s.locks, p, table, kind)), Ok)
  }

  function LocksOfOthers(locks: seq<Lock>, p: nat): seq<Lock> {
    if locks == [] then [] else (if locks[0].owner == p then [] else [locks[0]]) + LocksOfOthers(locks[1..], p)
  }

  function SetTrans(s: State, p: nat, t: Trans): State
    requires p in s.handles
  {
    s.(handles := s.handles[p := s.handles[p].(trans := t)])
  }

  function MaxTrans(a: Trans, b: Trans): Trans {
    if a == TransWrite || b == TransWrite then TransWrite
    else if a == TransRead || b == TransRead then TransRead
    else TransNone
  }

  /** sqlite3BtreeBeginTrans: wrflag is 0 for read, 1 for write, 2 for exclusive. */
  function Begin(s: State, p: nat, wrflag: nat, pagerOk: bool): (State, Rc)
    requires p in s.handles
  {
    var t := s.handles[p].trans;
    if t == TransWrite || (t == TransRead && wrflag == 0) then (s, Ok)
    else if s.readOnly && wrflag > 0 then (s, ReadOnly)
    else if s.inTransaction == TransWrite && wrflag > 0 then (s, Busy)
    else if wrflag > 1 && exists i :: 0 <= i < |s.locks| && s.locks[i].owner != p then (s, Busy)
    else if !pagerOk then (s, PagerError)
    else
      var t' := if wrflag > 0 then TransWrite else TransRead;
      var s1 := if t == TransNone then s.(nTransaction := s.nTransaction + 1) else s;
      var s2 := SetTrans(s1, p, t').(inTransaction := MaxTrans(t', s1.inTransaction));
      (if wrflag > 1 then s2.(exclusive := Is(p)) else s2, Ok)
  }

  /** lockBtreeWithRetry: a read transaction begun and taken back at once. */
  function Touch(s: State, p: nat, pagerOk: bool): (State, Rc)
    requires p in s.handles
  {
    if s.handles[p].trans != TransNone then (s, Ok)
    else
      var (s1, rc) := Begin(s, p, 0, pagerOk);
      var s2 := SetTrans(s1.(inTransaction := s.inTransaction), p, TransNone);
      (if rc == Ok then s2.(nTransaction := s2.nTransaction - 1) else s2, rc)
  }

  /** unlockAllTables */
  function UnlockAll(s: State, p: nat): State {
    s.(locks := LocksOfOthers(s.locks, p), exclusive := if s.exclusive == Is(p) then Nobody else s.exclusive)
  }

  /** The end of a commit or rollback: one transaction less. */
  function EndTrans(s: State, p: nat): State
    requires p in s.handles
  {
    var s1 := if s.handles[p].trans == TransNone then s
              else if s.nTransaction == 1 then s.(nTransaction := 0, inTransaction := TransNone)
              else s.(nTransaction := s.nTransaction - 1);
    SetTrans(s1, p, TransNone)
  }

  /** sqlite3BtreeCommitPhaseTwo */
  function Commit(s: State, p: nat, pagerOk: bool): (State, Rc)
    requires p in s.handles
  {
    if s.handles[p].trans == TransWrite && !pagerOk then (s, PagerError)
    else
      var s1 := if s.handles[p].trans == TransWrite then s.(inTransaction := TransRead) else s;
      (EndTrans(UnlockAll(s1, p), p), Ok)
  }

  /** sqlite3BtreeRollback; it goes through whatever the pager says. */
  function Rollback(s: State, p: nat): State
    requires p in s.handles
  {
    var s1 := UnlockAll(s, p);
    var s2 := if s.handles[p].trans == TransWrite then s1.(inTransaction := TransRead) else s1;
    EndTrans(s2, p)
  }

  /** sqlite3BtreeClose: a rollback, and the handle is gone. */
  function Close(s: State, p: nat): State
    requires p in s.handles
  {
    var s1 := Rollback(s, p);
    s1.(handles := s1.handles - {p})
  }

  // ---------- The invariant ----------

  ghost function Active(handles: map<nat, Handle>): set<nat> {
    set p | p in handles && handles[p].trans != TransNone
  }

  /** nTransaction counts the handles in a transaction; inTransaction is the highest of their states;
      at most one handle writes. */
  ghost predicate Counted(s: State) {
    && s.nTransaction == |Active(s.handles)|
    && (s.inTransaction == TransNone <==> Active(s.handles) == {})
    && (s.inTransaction == TransWrite <==> exists p :: p in s.handles && s.handles[p].trans == TransWrite)
    && (forall p, q ::
          p in s.handles && q in s.handles && s.handles[p].trans == TransWrite && s.handles[q].trans == TransWrite ==>
          p == q)
  }

  predicate Conflict(a: Lock, b: Lock) {
    a.table == b.table && a.owner != b.owner && (a.kind == WriteLock || b.kind == WriteLock)
  }

  /** No two handles hold conflicting locks on a table, and no handle holds two on one. */
  predicate Compatible(locks: seq<Lock>) {
    forall i, j :: 0 <= i < j < |locks| ==>
      !Conflict(locks[i], locks[j]) && (locks[i].owner != locks[j].owner || locks[i].table != locks[j].table)
  }

  /** An exclusive holder is writing, and every lock is its own. */
  predicate ExclusiveOk(s: State) {
    s.exclusive.Is? ==>
      && s.exclusive.handle in s.handles && s.handles[s.exclusive.handle].trans == TransWrite
      && forall i :: 0 <= i < |s.locks| ==> s.locks[i].owner == s.exclusive.handle
  }

  ghost predicate Inv(s: State) {
    Counted(s) && Compatible(s.locks) && ExclusiveOk(s) &&
      forall i :: 0 <= i < |s.locks| ==> s.locks[i].owner in s.handles
  }

  // ---------- Lock lists ----------

  lemma WithLockCompatible(locks: seq<Lock>, p: nat, table: nat, kind: LockKind)
    requires Compatible(locks) && forall i :: 0 <= i < |locks| ==> !InTheWay(locks[i], p, table, kind)
    ensures Compatible(WithLock(locks, p, table, kind))
  {
    hide FindLock;
    var n, locks' := FindLock(locks, p, table), WithLock(locks, p, table, kind);
    forall i, j | 0 <= i < j < |locks'|
      ensures !Conflict(locks'[i], locks'[j]) &&
              (locks'[i].owner != locks'[j].owner || locks'[i].table != locks'[j].table)
    {
      if n < |locks| {
        assert !Conflict(locks[i], locks[j]) && !InTheWay(locks[i], p, table, kind) &&
               !InTheWay(locks[j], p, table, kind);
      } else {
        assert locks'[j] == locks[j - 1] && !InTheWay(locks[j - 1], p, table, kind);
        if i > 0 {
          assert locks'[i] == locks[i - 1] && !Conflict(locks[i - 1], locks[j - 1]);
        }
      }
    }
  }

  /** Every lock is an old one, perhaps stronger, or the new one. */
  lemma WithLockOwner(locks: seq<Lock>, p: nat, table: nat, kind: LockKind, i: nat)
    requires i < |WithLock(locks, p, table, kind)|
    ensures WithLock(locks, p, table, kind)[i].owner == p ||
            exists j :: 0 <= j < |locks| && locks[j].owner == WithLock(locks, p, table, kind)[i].owner
  {
    hide FindLock;
    var n := FindLock(locks, p, table);
    var k := if n < |locks| then i else i - 1;
    if k >= 0 && k < |locks| {
      assert locks[k].owner == WithLock(locks, p, table, kind)[i].owner;
    }
  }

  lemma {:induction false} OthersIs(locks: seq<Lock>, p: nat, l: Lock)
    ensures l in LocksOfOthers(locks, p) <==> l in locks && l.owner != p
    decreases |locks|
  {
    if locks != [] {
      OthersIs(locks[1..], p, l);
      assert locks == [locks[0]] + locks[1..];
    }
  }

  lemma {:induction false} OthersCompatible(locks: seq<Lock>, p: nat)
    requires Compatible(locks)
    ensures Compatible(LocksOfOthers(locks, p))
    decreases |locks|
  {
    if locks != [] {
      OthersCompatible(locks[1..], p);
      forall l | l in LocksOfOthers(locks[1..], p)
        ensures !Conflict(locks[0], l) && (locks[0].owner != l.owner || locks[0].table != l.table)
      {
        OthersIs(locks[1..], p, l);
        var j :| 1 <= j < |locks| && locks[j] == l;
        assert !Conflict(locks[0], locks[j]);
      }
    }
  }

  // ---------- Every step keeps the invariant ----------

  lemma ActiveSet(handles: map<nat, Handle>, p: nat, t: Trans)
    requires p in handles
    ensures Active(handles[p := handles[p].(trans := t)]) == if t == TransNone then Active(handles) - {p}
            else Active(handles) + {p}
  {
  }

  lemma LockTableKeeps(s: State, p: nat, table: nat, kind: LockKind)
    requires Inv(s) && p in s.handles
    ensures Inv(LockTable(s, p, table, kind).0)
  {
    var s' := LockTable(s, p, table, kind).0;
    if s' != s {
      WithLockCompatible(s.locks, p, table, kind);
      forall i | 0 <= i < |s'.locks|
        ensures s'.locks[i].owner in s.handles && (s.exclusive.Is? ==> s'.locks[i].owner == s.exclusive.handle)
      {
        WithLockOwner(s.locks, p, table, kind, i);
      }
    }
  }

  /** A write transaction is only begun when nobody else writes, an exclusive one only when nobody
      else holds a lock. */
  lemma BeginKeeps(s: State, p: nat, wrflag: nat, pagerOk: bool)
    requires Inv(s) && p in s.handles
    ensures Inv(Begin(s, p, wrflag, pagerOk).0)
  {
    var (s', rc) := Begin(s, p, wrflag, pagerOk);
    var t' := if wrflag > 0 then TransWrite else TransRead;
    ActiveSet(s.handles, p, t');
    if s' != s {
      assert s'.handles == s.handles[p := s.handles[p].(trans := t')];
      assert Active(s'.handles) == Active(s.handles) + {p};
      assert p in Active(s.handles) <==> s.handles[p].trans != TransNone;
      BeginCounts(s, s', p, t');
    }
  }

  lemma OneMore(a: set<nat>, p: nat)
    ensures |a + {p}| == if p in a then |a| else |a| + 1
  {
    assert p in a ==> a + {p} == a;
  }

  lemma BeginCounts(s: State, s': State, p: nat, t': Trans)
    requires Counted(s) && p in s.handles && t' != TransNone && s.handles[p].trans != TransWrite
    requires s'.handles == s.handles[p := s.handles[p].(trans := t')] && Active(s'.handles) == Active(s.handles) + {p}
    requires s'.nTransaction == s.nTransaction + (if s.handles[p].trans == TransNone then 1 else 0)
    requires s'.inTransaction == MaxTrans(t', s.inTransaction) && (t' == TransWrite ==> s.inTransaction != TransWrite)
    ensures Counted(s')
  {
    assert p in Active(s.handles) <==> s.handles[p].trans != TransNone;
    OneMore(Active(s.handles), p);
    if t' == TransWrite {
      assert s'.handles[p].trans == TransWrite;
    } else {
      assert forall q :: q in s.handles ==> (s'.handles[q].trans == TransWrite <==> s.handles[q].trans == TransWrite);
    }
  }

  /** lockBtreeWithRetry leaves everything as it was. */
  lemma TouchChangesNothing(s: State, p: nat, pagerOk: bool)
    requires Inv(s) && p in s.handles
    ensures Touch(s, p, pagerOk).0 == s
  {
    if s.handles[p].trans == TransNone {
      assert SetTrans(s, p, TransNone).handles == s.handles;
    }
  }

  /** Ending a transaction: the state of the others is what counts. */
  lemma EndCounts(s: State, s1: State, p: nat)
    requires Counted(s) && p in s.handles && s1.handles == s.handles && s1.nTransaction == s.nTransaction
    requires s1.inTransaction == if s.handles[p].trans == TransWrite then TransRead else s.inTransaction
    ensures Counted(EndTrans(s1, p))
  {
    var s' := EndTrans(s1, p);
    var before, after := Active(s.handles), Active(s'.handles);
    ActiveSet(s.handles, p, TransNone);
    assert after == before - {p};
    assert p in before <==> s.handles[p].trans != TransNone;
    EndWriters(s, s', p);
    NoOthers(before, p);
  }

  lemma NoOthers(a: set<nat>, p: nat)
    ensures p in a ==> |a| > 0 && |a - {p}| == |a| - 1
    ensures p !in a ==> a - {p} == a
    ensures |a - {p}| == 0 <==> a - {p} == {}
  {
  }

  lemma EndWriters(s: State, s': State, p: nat)
    requires Counted(s) && p in s.handles && s'.handles == s.handles[p := s.handles[p].(trans := TransNone)]
    ensures (exists q :: q in s'.handles && s'.handles[q].trans == TransWrite) <==>
            s.inTransaction == TransWrite && s.handles[p].trans != TransWrite
    ensures forall q, r ::
              q in s'.handles && r in s'.handles &&
              s'.handles[q].trans == TransWrite && s'.handles[r].trans == TransWrite ==>
              q == r
    ensures s.handles[p].trans != TransNone && (exists q :: q in s'.handles && s'.handles[q].trans == TransWrite) ==>
            Active(s'.handles) != {}
  {
    if s.inTransaction == TransWrite && s.handles[p].trans != TransWrite {
      var q :| q in s.handles && s.handles[q].trans == TransWrite;
      assert s'.handles[q].trans == TransWrite && q in Active(s'.handles);
    }
  }

  lemma EndKeeps(s: State, p: nat)
    requires Inv(s) && p in s.handles
    ensures var s1 := if s.handles[p].trans == TransWrite then s.(inTransaction := TransRead) else s;
            Inv(EndTrans(UnlockAll(s1, p), p))
  {
    hide Counted, Compatible;
    var s1 := if s.handles[p].trans == TransWrite then s.(inTransaction := TransRead) else s;
    EndExclusive(s, UnlockAll(s1, p), p);
    EndCounts(s, UnlockAll(s1, p), p);
    OthersCompatible(s.locks, p);
  }

  lemma EndExclusive(s: State, s1: State, p: nat)
    requires Inv(s) && p in s.handles && s1.handles == s.handles && s1.locks == LocksOfOthers(s.locks, p)
    requires s1.exclusive == if s.exclusive == Is(p) then Nobody else s.exclusive
    ensures var s' := EndTrans(s1, p);
            ExclusiveOk(s') && forall i :: 0 <= i < |s'.locks| ==> s'.locks[i].owner in s'.handles
  {
    hide Counted, Compatible;
    var s' := EndTrans(s1, p);
    forall i | 0 <= i < |s'.locks|
      ensures s'.locks[i].owner in s.handles && (s'.exclusive.Is? ==> s'.locks[i].owner == s'.exclusive.handle)
    {
      OthersIs(s.locks, p, s'.locks[i]);
      var j :| 0 <= j < |s.locks| && s.locks[j] == s'.locks[i];
    }
  }

  lemma CommitKeeps(s: State, p: nat, pagerOk: bool)
    requires Inv(s) && p in s.handles
    ensures Inv(Commit(s, p, pagerOk).0)
  {
    EndKeeps(s, p);
  }

  lemma RollbackKeeps(s: State, p: nat)
    requires Inv(s) && p in s.handles
    ensures Inv(Rollback(s, p))
  {
    EndKeeps(s, p);
  }

  /** A handle that is closed leaves no lock, no exclusivity and no transaction behind. */
  lemma CloseKeeps(s: State, p: nat)
    requires Inv(s) && p in s.handles
    ensures Inv(Close(s, p))
    ensures forall i :: 0 <= i < |Close(s, p).locks| ==> Close(s, p).locks[i].owner != p
    ensures Close(s, p).exclusive != Is(p) && p !in Active(Close(s, p).handles)
  {
    RollbackKeeps(s, p);
    var s1, s' := Rollback(s, p), Close(s, p);
    assert Active(s'.handles) == Active(s1.handles);
    forall i | 0 <= i < |s'.locks|
      ensures s'.locks[i].owner != p
    {
      OthersIs(s.locks, p, s'.locks[i]);
    }
    assert forall q :: q in s'.handles <==> q in s1.handles && q != p;
    assert forall q :: q in s'.handles ==> s'.handles[q] == s1.handles[q];
  }

  // ---------- What the steps do ----------

  /** Handle p is in no transaction and has no lock and no exclusivity; all else is as before. */
  ghost predicate Ended(s: State, s': State, p: nat)
    requires p in s.handles
  {
    && s'.handles == s.handles[p := s.handles[p].(trans := TransNone)]
    && (forall l :: l in s'.locks <==> l in s.locks && l.owner != p)
    && s'.exclusive == (if s.exclusive == Is(p) then Nobody else s.exclusive)
    && s'.readOnly == s.readOnly
  }

  lemma EndTransIs(s: State, p: nat)
    requires p in s.handles
    ensures EndTrans(s, p).handles == s.handles[p := s.handles[p].(trans := TransNone)]
    ensures EndTrans(s, p).locks == s.locks && EndTrans(s, p).exclusive == s.exclusive
    ensures EndTrans(s, p).readOnly == s.readOnly
  {
  }

  lemma OthersAre(locks: seq<Lock>, p: nat)
    ensures forall l :: l in LocksOfOthers(locks, p) <==> l in locks && l.owner != p
  {
    forall l
      ensures l in LocksOfOthers(locks, p) <==> l in locks && l.owner != p
    {
      OthersIs(locks, p, l);
    }
  }

  /** A commit fails only for a writer whose pager fails, and then changes nothing. */
  lemma CommitEnds(s: State, p: nat, pagerOk: bool)
    requires p in s.handles
    ensures var (s', rc) := Commit(s, p, pagerOk);
            && (rc == Ok <==> pagerOk || s.handles[p].trans != TransWrite)
            && (rc == Ok ==> Ended(s, s', p)) && (rc != Ok ==> s' == s)
  {
    hide EndTrans, LocksOfOthers;
    var s1 := if s.handles[p].trans == TransWrite then s.(inTransaction := TransRead) else s;
    OthersAre(s.locks, p);
    EndTransIs(UnlockAll(s1, p), p);
  }

  lemma RollbackEnds(s: State, p: nat)
    requires p in s.handles
    ensures Ended(s, Rollback(s, p), p)
  {
    hide EndTrans, LocksOfOthers;
    var s1 := UnlockAll(s, p);
    var s2 := if s.handles[p].trans == TransWrite then s1.(inTransaction := TransRead) else s1;
    OthersAre(s.locks, p);
    EndTransIs(s2, p);
  }

  /** A handle that may go on as it is, or nobody else writes and, for an exclusive transaction, nobody
      else has a lock. */
  ghost predicate MayBegin(s: State, p: nat, wrflag: nat)
    requires p in s.handles
  {
    || s.handles[p].trans == TransWrite || (s.handles[p].trans == TransRead && wrflag == 0)
    || ((wrflag > 0 ==> !s.readOnly && forall q :: q in s.handles && q != p ==> s.handles[q].trans != TransWrite)
        && (wrflag > 1 ==> forall l :: l in s.locks ==> l.owner == p))
  }

  /** A transaction begins exactly then, the pager going along; only the handle's own state changes, and for
      an exclusive transaction the handle becomes the exclusive one. */
  lemma BeginGrants(s: State, p: nat, wrflag: nat, pagerOk: bool)
    requires Inv(s) && p in s.handles
    ensures var (s', rc) := Begin(s, p, wrflag, pagerOk);
            var t := s.handles[p].trans;
            var already := t == TransWrite || (t == TransRead && wrflag == 0);
            && (rc == Ok <==> MayBegin(s, p, wrflag) && (already || pagerOk))
            && (rc == PagerError <==> MayBegin(s, p, wrflag) && !already && !pagerOk)
            && (rc == ReadOnly <==> !already && wrflag > 0 && s.readOnly) && rc != Locked
            && (rc != Ok || already ==> s' == s)
            && (rc == Ok && !already ==>
                  && s'.handles == s.handles[p := s.handles[p].(trans := if wrflag > 0 then TransWrite else TransRead)]
                  && s'.locks == s.locks && s'.readOnly == s.readOnly
                  && s'.exclusive == if wrflag > 1 then Is(p) else s.exclusive)
  {
    if s.handles[p].trans != TransWrite {
      assert s.inTransaction == TransWrite <==>
             exists q :: q in s.handles && q != p && s.handles[q].trans == TransWrite;
      assert (exists i :: 0 <= i < |s.locks| && s.locks[i].owner != p) <==> exists l :: l in s.locks && l.owner != p;
    }
  }

  /** A read lock on a table other than sqlite_master, for a handle in read-uncommitted mode. */
  predicate ReadsUncommitted(s: State, p: nat, table: nat, kind: LockKind)
    requires p in s.handles
  {
    s.handles[p].readUncommitted && kind == ReadLock && table != 1
  }

  /** No other handle is exclusive, and none has a lock on the table unless all are read locks. */
  ghost predicate Grantable(s: State, p: nat, table: nat, kind: LockKind)
    requires p in s.handles
  {
    || !s.handles[p].sharable
    || ((s.exclusive.Is? ==> s.exclusive.handle == p)
        && (ReadsUncommitted(s, p, table, kind)
            || forall l :: l in s.locks && l.table == table && l.owner != p ==> kind == ReadLock && l.kind == ReadLock))
  }

  /** The lock the handle then has on the table; a write lock it had is not weakened. */
  function HeldLock(s: State, p: nat, table: nat, kind: LockKind): Lock {
    Lock(p, table, if kind == WriteLock || Lock(p, table, WriteLock) in s.locks then WriteLock else ReadLock)
  }

  /** A lock is granted exactly then, and is then held; every other lock stays. Handles without a shared
      cache, and reads that need not be committed, record none. */
  lemma LockTableGrants(s: State, p: nat, table: nat, kind: LockKind)
    requires Inv(s) && p in s.handles
    ensures var (s', rc) := LockTable(s, p, table, kind);
            && (rc == Ok <==> Grantable(s, p, table, kind))
            && s' == s.(locks := s'.locks)
            && (rc != Ok || !s.handles[p].sharable || ReadsUncommitted(s, p, table, kind) ==> s' == s)
            && (rc == Ok && s.handles[p].sharable && !ReadsUncommitted(s, p, table, kind) ==>
                  forall l :: l in s'.locks <==>
                    l == HeldLock(s, p, table, kind) || (l in s.locks && !(l.owner == p && l.table == table)))
  {
    hide WithLock;
    assert (forall i :: 0 <= i < |s.locks| ==> !InTheWay(s.locks[i], p, table, kind)) <==>
           forall l :: l in s.locks && l.table == table && l.owner != p ==> kind == ReadLock && l.kind == ReadLock;
    WithLockHolds(s.locks, p, table, kind);
  }

  lemma WithLockHolds(locks: seq<Lock>, p: nat, table: nat, kind: LockKind)
    requires Compatible(locks)
    ensures var k := if kind == WriteLock || Lock(p, table, WriteLock) in locks then WriteLock else ReadLock;
            forall l :: l in WithLock(locks, p, table, kind) <==>
              l == Lock(p, table, k) || (l in locks && !(l.owner == p && l.table == table))
  {
    var i := FindLock(locks, p, table);
    var locks' := WithLock(locks, p, table, kind);
    var k := if kind == WriteLock || Lock(p, table, WriteLock) in locks then WriteLock else ReadLock;
    forall l
      ensures l in locks' <==> l == Lock(p, table, k) || (l in locks && !(l.owner == p && l.table == table))
    {
      if i < |locks| {
        assert locks'[i] == Lock(p, table, k);
        if l in locks && !(l.owner == p && l.table == table) {
          var j :| 0 <= j < |locks| && locks[j] == l;
          assert locks'[j] == l;
        }
      } else {
        assert locks' == [Lock(p, table, kind)] + locks;
      }
    }
  }

  // ---------- Runs ----------

  datatype Op =
    | OpenHandle(p: nat, sharable: bool, readUncommitted: bool)
    | BeginOp(p: nat, wrflag: nat, pagerOk: bool)
    | TouchOp(p: nat, pagerOk: bool)
    | CommitOp(p: nat, pagerOk: bool)
    | RollbackOp(p: nat)
    | CloseOp(p: nat)
    | UncommittedOp(p: nat, readUncommitted: bool)
    | LockOp(p: nat, table: nat, kind: LockKind)

  /** One call, by a handle that is open; a new handle gets a number of its own. */
  function Apply(s: State, op: Op): State {
    if op.OpenHandle? then
      if op.p in s.handles then s
      else s.(handles := s.handles[op.p := Handle(TransNone, op.sharable, op.readUncommitted)])
    else if op.p !in s.handles then s
    else
      match op
      case BeginOp(p, wrflag, pagerOk) => Begin(s, p, wrflag, pagerOk).0
      case TouchOp(p, pagerOk) => Touch(s, p, pagerOk).0
      case CommitOp(p, pagerOk) => Commit(s, p, pagerOk).0
      case RollbackOp(p) => Rollback(s, p)
      case CloseOp(p) => Close(s, p)
      case UncommittedOp(p, on) => s.(handles := s.handles[p := s.handles[p].(readUncommitted := on)])
      case LockOp(p, table, kind) => LockTable(s, p, table, kind).0
  }

  function Start(readOnly: bool): State {
    State(map[], TransNone, 0, [], Nobody, readOnly)
  }

  function Run(s: State, ops: seq<Op>): State
    decreases |ops|
  {
    if ops == [] then s else Run(Apply(s, ops[0]), ops[1..])
  }

  /** PRAGMA read_uncommitted may change between calls. */
  lemma UncommittedKeeps(s: State, p: nat, on: bool)
    requires Inv(s) && p in s.handles
    ensures Inv(s.(handles := s.handles[p := s.handles[p].(readUncommitted := on)]))
  {
    var s' := s.(handles := s.handles[p := s.handles[p].(readUncommitted := on)]);
    assert forall q :: q in s.handles ==> s'.handles[q].trans == s.handles[q].trans;
    assert Active(s'.handles) == Active(s.handles);
  }

  lemma ApplyKeeps(s: State, op: Op)
    requires Inv(s)
    ensures Inv(Apply(s, op))
  {
    if op.OpenHandle? {
      if op.p !in s.handles {
        var s' := Apply(s, op);
        assert Active(s'.handles) == Active(s.handles);
        assert forall q :: q in s.handles ==> s'.handles[q] == s.handles[q];
      }
    } else if op.p in s.handles {
      match op
      case BeginOp(p, wrflag, pagerOk) => BeginKeeps(s, p, wrflag, pagerOk);
      case TouchOp(p, pagerOk) => TouchChangesNothing(s, p, pagerOk);
      case CommitOp(p, pagerOk) => CommitKeeps(s, p, pagerOk);
      case RollbackOp(p) => RollbackKeeps(s, p);
      case CloseOp(p) => CloseKeeps(s, p);
      case UncommittedOp(p, on) => UncommittedKeeps(s, p, on);
      case LockOp(p, table, kind) => LockTableKeeps(s, p, table, kind);
    }
  }

  lemma {:induction false} RunKeeps(s: State, ops: seq<Op>)
    requires Inv(s)
    ensures Inv(Run(s, ops))
    decreases |ops|
  {
    if ops != [] {
      ApplyKeeps(s, ops[0]);
      RunKeeps(Apply(s, ops[0]), ops[1..]);
    }
  }

  /** In every reachable state the counters are right, at most one handle writes, no two locks
      conflict, and an exclusive holder holds every lock. */
  lemma Reachable(readOnly: bool, ops: seq<Op>)
    ensures Inv(Run(Start(readOnly), ops))
  {
    assert Active(map[]) == {};
    RunKeeps(Start(readOnly), ops);
  }

  // ---------- The code ----------

  class Shared {
    var handles: map<nat, Handle>
    var inTransaction: Trans
    var nTransaction: int
    var locks: seq<Lock>
    var exclusive: Owner
    var readOnly: bool

    ghost function Value(): State
      reads this
    {
      State(handles, inTransaction, nTransaction, locks, exclusive, readOnly)
    }

    constructor (readOnly: bool)
      ensures Value() == Start(readOnly) && Inv(Value())
    {
      handles, inTransaction, nTransaction := map[], TransNone, 0;
      locks, exclusive, this.readOnly := [], Nobody, readOnly;
      new;
      Reachable(readOnly, []);
    }

    method QueryTableLock(p: nat, table: nat, kind: LockKind) returns (rc: Rc)
      requires p in handles
      ensures rc == if MayLock(Value(), p, table, kind) then Ok else Locked
    {
      if !handles[p].sharable {
        return Ok;
      }
      if exclusive != Nobody && exclusive != Is(p) {
        return Locked;
      }
      if !handles[p].readUncommitted || kind == WriteLock || table == MasterRoot {
        for i := 0 to |locks|
          invariant forall j :: 0 <= j < i ==> !InTheWay(locks[j], p, table, kind)
        {
          if locks[i].owner != p && locks[i].table == table && (locks[i].kind != kind || kind != ReadLock) {
            return Locked;
          }
        }
      }
      return Ok;
    }

    method LockTableFor(p: nat, table: nat, kind: LockKind) returns (rc: Rc)
      requires Inv(Value()) && p in handles
      modifies this`locks
      ensures (Value(), rc) == LockTable(old(Value()), p, table, kind) && Inv(Value())
    {
      hide Inv;
      LockTableKeeps(Value(), p, table, kind);
      rc := QueryTableLock(p, table, kind);
      if rc != Ok || !handles[p].sharable || (handles[p].readUncommitted && kind == ReadLock && table != MasterRoot) {
        return;
      }
      var i := 0;
      while i < |locks| && !(locks[i].table == table && locks[i].owner == p)
        invariant i <= |locks| && forall j :: 0 <= j < i ==> !(locks[j].table == table && locks[j].owner == p)
      {
        i := i + 1;
      }
      FoundAt(locks, p, table, i);
      assert i < |locks| ==> locks[i := locks[i]] == locks;
      if i == |locks| {
        locks := [Lock(p, table, kind)] + locks;
      } else if kind == WriteLock {
        locks := locks[i := locks[i].(kind := WriteLock)];
      }
    }

    method BeginTrans(p: nat, wrflag: nat, pagerOk: bool) returns (rc: Rc)
      requires Inv(Value()) && p in handles
      modifies this
      ensures (Value(), rc) == Begin(old(Value()), p, wrflag, pagerOk) && Inv(Value())
    {
      BeginKeeps(Value(), p, wrflag, pagerOk);
      var h := handles[p];
      if h.trans == TransWrite || (h.trans == TransRead && wrflag == 0) {
        return Ok;
      }
      if readOnly && wrflag > 0 {
        return ReadOnly;
      }
      if inTransaction == TransWrite && wrflag > 0 {
        return Busy;
      }
      if wrflag > 1 {
        for i := 0 to |locks|
          invariant forall j :: 0 <= j < i ==> locks[j].owner == p
          invariant Value() == old(Value())
        {
          if locks[i].owner != p {
            return Busy;
          }
        }
      }
      if !pagerOk {
        return PagerError;
      }
      if h.trans == TransNone {
        nTransaction := nTransaction + 1;
      }
      var t := if wrflag > 0 then TransWrite else TransRead;
      handles := handles[p := h.(trans := t)];
      if t == TransWrite || inTransaction == TransNone {
        inTransaction := t;
      }
      if wrflag > 1 {
        exclusive := Is(p);
      }
      return Ok;
    }

    method UnlockAllTables(p: nat)
      modifies this`locks, this`exclusive
      ensures Value() == UnlockAll(old(Value()), p)
    {
      var rest: seq<Lock> := [];
      var i := |locks|;
      assert LocksOfOthers(locks[i..], p) == [];
      while i > 0
        invariant 0 <= i <= |locks| && rest == LocksOfOthers(locks[i..], p) && locks == old(locks) &&
                  exclusive == old(exclusive)
      {
        i := i - 1;
        assert locks[i..][1..] == locks[i + 1..];
        if locks[i].owner != p {
          rest := [locks[i]] + rest;
        }
      }
      assert locks[0..] == locks;
      locks := rest;
      if exclusive == Is(p) {
        exclusive := Nobody;
      }
    }

    method CommitPhaseTwo(p: nat, pagerOk: bool) returns (rc: Rc)
      requires Inv(Value()) && p in handles
      modifies this
      ensures (Value(), rc) == Commit(old(Value()), p, pagerOk) && Inv(Value())
    {
      CommitKeeps(Value(), p, pagerOk);
      var t := handles[p].trans;
      if t == TransWrite {
        if !pagerOk {
          return PagerError;
        }
        inTransaction := TransRead;
      }
      UnlockAllTables(p);
      if t != TransNone {
        nTransaction := nTransaction - 1;
        if nTransaction == 0 {
          inTransaction := TransNone;
        }
      }
      handles := handles[p := handles[p].(trans := TransNone)];
      return Ok;
    }

    method RollbackTrans(p: nat)
      requires Inv(Value()) && p in handles
      modifies this
      ensures Value() == Rollback(old(Value()), p) && Inv(Value())
    {
      RollbackKeeps(Value(), p);
      UnlockAllTables(p);
      var t := handles[p].trans;
      if t == TransWrite {
        inTransaction := TransRead;
      }
      if t != TransNone {
        nTransaction := nTransaction - 1;
        if nTransaction == 0 {
          inTransaction := TransNone;
        }
      }
      handles := handles[p := handles[p].(trans := TransNone)];
    }

    method CloseHandle(p: nat)
      requires Inv(Value()) && p in handles
      modifies this
      ensures Value() == Close(old(Value()), p) && Inv(Value())
    {
      CloseKeeps(Value(), p);
      RollbackTrans(p);
      handles := handles - {p};
    }
  }

  lemma {:induction false} FoundAt(locks: seq<Lock>, p: nat, table: nat, i: nat)
    requires i <= |locks| && (forall j :: 0 <= j < i ==> !(locks[j].table == table && locks[j].owner == p))
    requires i < |locks| ==> locks[i].table == table && locks[i].owner == p
    ensures FindLock(locks, p, table) == i
  {
    hide FindLock;
  }
}
