/**
 The mutex protocol of misc/sqlite/btmutex.c as interleaved steps of any number of connections.

 Every connection owns a list of sharable Btree handles sorted by the address of their BtShared
 (lines 46-49), and `order`, the order in which those handles appear in db->aDb. The connection's own
 fields change only under its own db->mutex, so a step is one mutex operation of one connection
 together with the local work around it.
 */
module BtMutex {
  import opened Arithmetic

  type Conn = nat
  type Addr = nat

  /** Where a connection is. `base` is wantToLock of every handle when EnterAll or LeaveAll was called. */
  datatype Pc =
    | Idle
    | Try(p: nat)                                             // sqlite3BtreeEnter: about to call sqlite3_mutex_try
    | Release(p: nat, q: nat)                                 // releasing handles q.. of larger address
    | Relock(q: nat)                                          // taking p, then retaking wanted handles, from q on
    | All(i: nat, base: seq<nat>)                             // sqlite3BtreeEnterAll: about to treat aDb[i]
    | AllRelease(i: nat, f: nat, q: nat, base: seq<nat>)      // releasing q.. before taking everything from f on
    | AllLock(i: nat, q: nat, base: seq<nat>)                 // taking q..
    | Leaving(i: nat, base: seq<nat>)                         // sqlite3BtreeLeaveAll: about to treat aDb[i]

  datatype Local = Local(list: seq<Addr>, order: seq<nat>, want: seq<nat>, locked: seq<bool>, pc: Pc)

  datatype Effect = Nothing | Take(a: Addr) | Give(a: Addr)

  datatype World = World(conns: map<Conn, Local>, owner: map<Addr, Conn>)

  predicate WellFormed(l: Local) {
    && |l.want| == |l.locked| == |l.order| == |l.list|
    && (forall i, j :: 0 <= i < j < |l.list| ==> l.list[i] < l.list[j])
    && (forall i :: 0 <= i < |l.order| ==> l.order[i] < |l.list|)
    && (forall i, j :: 0 <= i < j < |l.order| ==> l.order[i] != l.order[j])
    && (forall q :: 0 <= q < |l.list| ==> q in l.order)
  }

  // ---------- Steps ----------

  /** sqlite3BtreeEnter up to the mutex (btmutex.c:61-63). */
  predicate StartEnter(l: Local, l': Local, p: nat)
    requires WellFormed(l)
  {
    && p < |l.list|
    && l' == l.(want := l.want[p := l.want[p] + 1], pc := if l.locked[p] then Idle else Try(p))
  }

  /** sqlite3BtreeLeave (btmutex.c:101-111). */
  predicate Leave(l: Local, l': Local, eff: Effect, p: nat, pc: Pc)
    requires WellFormed(l)
  {
    && p < |l.list| && l.want[p] > 0
    && if l.want[p] > 1 then l' == l.(want := l.want[p := l.want[p] - 1], pc := pc) && eff == Nothing
       else l' == l.(want := l.want[p := 0], locked := l.locked[p := false], pc := pc) && eff == Give(l.list[p])
  }

  /** The mutex of handle q is taken, and the connection goes on at `pc`. */
  predicate TakeAt(l: Local, l': Local, eff: Effect, q: nat, pc: Pc)
    requires WellFormed(l) && q < |l.list|
  {
    l' == l.(locked := l.locked[q := true], pc := pc) && eff == Take(l.list[q])
  }

  /** Handle q is released if it is locked, and the connection goes on at `pc`. */
  predicate GiveAt(l: Local, l': Local, eff: Effect, q: nat, pc: Pc)
    requires WellFormed(l) && q < |l.list|
  {
    if l.locked[q] then l' == l.(locked := l.locked[q := false], pc := pc) && eff == Give(l.list[q])
    else l' == l.(pc := pc) && eff == Nothing
  }

  /** EnterAll walks to the head of the list and past its locked handles (btmutex.c:168-169). */
  function FirstUnlocked(locked: seq<bool>, k: nat): (f: nat)
    requires k < |locked|
    ensures k <= f < |locked| && (locked[f] ==> f == |locked| - 1)
    ensures forall r :: k <= r < f ==> locked[r]
    decreases |locked| - k
  {
    if locked[k] && k + 1 < |locked| then FirstUnlocked(locked, k + 1) else k
  }

  /** One pass of the loop of EnterAll up to its first mutex operation (btmutex.c:161-169). */
  predicate StepAll(l: Local, l': Local, i: nat, base: seq<nat>)
    requires WellFormed(l) && i < |l.order|
  {
    var p := l.order[i];
    var f := FirstUnlocked(l.locked, 0);
    l' == l.(want := l.want[p := l.want[p] + 1],
             pc := if l.locked[p] then All(i + 1, base) else AllRelease(i, f, f + 1, base))
  }

  predicate LocalStep(l: Local, l': Local, eff: Effect)
    requires WellFormed(l)
  {
    var n := |l.list|;
    match l.pc
    case Idle =>
      || (eff == Nothing && exists p :: 0 <= p < n && StartEnter(l, l', p))
      || (exists p :: 0 <= p < n && Leave(l, l', eff, p, Idle))
      || (eff == Nothing && l' == l.(pc := All(0, l.want)))
      || (eff == Nothing && (forall q :: 0 <= q < n ==> l.want[q] > 0) && l' == l.(pc := Leaving(0, l.want)))
    case Try(p) =>
      p < n && (TakeAt(l, l', eff, p, Idle) || (eff == Nothing && l' == l.(pc := Release(p, p + 1))))
    case Release(p, q) =>
      if q < n then GiveAt(l, l', eff, q, Release(p, q + 1)) else eff == Nothing && l' == l.(pc := Relock(p))
    case Relock(q) =>
      if q >= n then eff == Nothing && l' == l.(pc := Idle)
      else if l.want[q] == 0 then eff == Nothing && l' == l.(pc := Relock(q + 1))
      else TakeAt(l, l', eff, q, Relock(q + 1))
    case All(i, base) =>
      eff == Nothing && if i < n then StepAll(l, l', i, base) else l' == l.(pc := Idle)
    case AllRelease(i, f, q, base) =>
      if q < n then GiveAt(l, l', eff, q, AllRelease(i, f, q + 1, base))
      else eff == Nothing && l' == l.(pc := AllLock(i, f, base))
    case AllLock(i, q, base) =>
      if q < n then TakeAt(l, l', eff, q, AllLock(i, q + 1, base))
      else eff == Nothing && l' == l.(pc := All(i + 1, base))
    case Leaving(i, base) =>
      if i < n then Leave(l, l', eff, l.order[i], Leaving(i + 1, base))
      else eff == Nothing && l' == l.(pc := Idle)
  }

  /** A mutex can be taken only when it is free and given back only by its owner. */
  predicate OwnerStep(owner: map<Addr, Conn>, owner': map<Addr, Conn>, c: Conn, eff: Effect) {
    match eff
    case Nothing => owner' == owner
    case Take(a) => a !in owner && owner' == owner[a := c]
    case Give(a) => owner' == owner - {a}
  }

  ghost predicate StepOf(w: World, w': World, c: Conn, l': Local, eff: Effect) {
    && c in w.conns && WellFormed(w.conns[c])
    && LocalStep(w.conns[c], l', eff)
    && OwnerStep(w.owner, w'.owner, c, eff)
    && w'.conns == w.conns[c := l']
  }

  ghost predicate Next(w: World, w': World) {
    exists c, l', eff :: StepOf(w, w', c, l', eff)
  }

  ghost predicate Init(w: World) {
    && w.owner == map[]
    && forall c :: c in w.conns ==>
         var l := w.conns[c];
         && WellFormed(l) && l.pc == Idle
         && (forall q :: 0 <= q < |l.list| ==> l.want[q] == 0 && !l.locked[q])
  }

  // ---------- The local invariant ----------

  /** Handles lo..hi-1 are locked exactly when wanted. */
  predicate Settled(l: Local, lo: nat, hi: nat)
    requires WellFormed(l) && hi <= |l.list|
  {
    forall r :: lo <= r < hi ==> (l.locked[r] <==> l.want[r] > 0)
  }

  predicate Unlocked(l: Local, lo: nat, hi: nat)
    requires WellFormed(l) && hi <= |l.list|
  {
    forall r :: lo <= r < hi ==> !l.locked[r]
  }

  predicate AllLocked(l: Local, hi: nat)
    requires WellFormed(l) && hi <= |l.list|
  {
    forall r :: 0 <= r < hi ==> l.locked[r]
  }

  /** The handles aDb[0..i-1] count `delta` more than when the call began. */
  predicate Counted(l: Local, i: nat, base: seq<nat>, delta: int)
    requires WellFormed(l) && i <= |l.order|
  {
    && |base| == |l.want|
    && forall r :: 0 <= r < |l.want| ==> l.want[r] == base[r] + if r in l.order[..i] then delta else 0
  }

  predicate LocalInv(l: Local) {
    && WellFormed(l)
    && var n := |l.list|;
       match l.pc
       case Idle => Settled(l, 0, n)
       case Try(p) => p < n && Settled(l, 0, p) && Settled(l, p + 1, n) && !l.locked[p] && l.want[p] > 0
       case Release(p, q) =>
         p < q <= n && Settled(l, 0, p) && Unlocked(l, p, q) && Settled(l, q, n) && l.want[p] > 0
       case Relock(q) => q <= n && Settled(l, 0, q) && Unlocked(l, q, n)
       case All(i, base) =>
         && i <= n && Counted(l, i, base, 1)
         && (Settled(l, 0, n) || AllLocked(l, n))
       case AllRelease(i, f, q, base) =>
         && i < n && Counted(l, i + 1, base, 1)
         && f < q <= n && AllLocked(l, f) && Unlocked(l, f, q)
       case AllLock(i, q, base) =>
         && i < n && Counted(l, i + 1, base, 1)
         && q <= n && AllLocked(l, q) && Unlocked(l, q, n)
       case Leaving(i, base) =>
         && i <= n && Counted(l, i, base, -1)
         && Settled(l, 0, n) && (forall r :: 0 <= r < n && r !in l.order[..i] ==> l.want[r] > 0)
  }

  /** What a step does to the locked flags is exactly its mutex operation. */
  ghost predicate FlagsFollow(l: Local, l': Local, eff: Effect)
    requires WellFormed(l)
  {
    && l'.list == l.list
    && match eff
       case Nothing => l'.locked == l.locked
       case Take(a) =>
         exists q :: 0 <= q < |l.list| && l.list[q] == a && !l.locked[q] && l'.locked == l.locked[q := true]
       case Give(a) =>
         exists q :: 0 <= q < |l.list| && l.list[q] == a && l.locked[q] && l'.locked == l.locked[q := false]
  }

  lemma CountStep(l: Local, i: nat)
    requires WellFormed(l) && i < |l.order|
    ensures l.order[i] !in l.order[..i]
    ensures forall r :: r in l.order[..i + 1] <==> r in l.order[..i] || r == l.order[i]
  {
    assert l.order[..i + 1] == l.order[..i] + [l.order[i]];
  }

  lemma TakeFollows(l: Local, l': Local, eff: Effect, q: nat, pc: Pc)
    requires WellFormed(l) && q < |l.list| && !l.locked[q] && TakeAt(l, l', eff, q, pc)
    ensures FlagsFollow(l, l', eff)
  {
  }

  lemma KeptIdle(l: Local, l': Local, eff: Effect)
    requires LocalInv(l) && l.pc.Idle? && LocalStep(l, l', eff)
    ensures LocalInv(l') && FlagsFollow(l, l', eff)
  {
    if p :| 0 <= p < |l.list| && Leave(l, l', eff, p, Idle) {
      assert l.locked[p];
    }
  }

  lemma KeptEnter(l: Local, l': Local, eff: Effect)
    requires LocalInv(l) && (l.pc.Try? || l.pc.Relock?) && LocalStep(l, l', eff)
    ensures LocalInv(l') && FlagsFollow(l, l', eff)
  {
    match l.pc
    case Try(p) =>
      if eff.Take? {
        TakeFollows(l, l', eff, p, Idle);
      }
    case Relock(q) =>
      if eff.Take? {
        TakeFollows(l, l', eff, q, Relock(q + 1));
      }
  }

  lemma GiveFollows(l: Local, l': Local, eff: Effect, q: nat, pc: Pc)
    requires WellFormed(l) && q < |l.list| && GiveAt(l, l', eff, q, pc)
    ensures FlagsFollow(l, l', eff)
  {
  }

  lemma KeptRelease(l: Local, l': Local, eff: Effect)
    requires LocalInv(l) && l.pc.Release? && LocalStep(l, l', eff)
    ensures LocalInv(l') && FlagsFollow(l, l', eff)
  {
    if l.pc.q < |l.list| {
      GiveFollows(l, l', eff, l.pc.q, l'.pc);
    }
  }

  lemma KeptAllRelease(l: Local, l': Local, eff: Effect)
    requires LocalInv(l) && l.pc.AllRelease? && LocalStep(l, l', eff)
    ensures LocalInv(l') && FlagsFollow(l, l', eff)
  {
    if l.pc.q < |l.list| {
      GiveFollows(l, l', eff, l.pc.q, l'.pc);
    }
  }

  lemma KeptAll(l: Local, l': Local, eff: Effect)
    requires LocalInv(l) && l.pc.All? && l.pc.i < |l.list| && LocalStep(l, l', eff)
    ensures LocalInv(l') && FlagsFollow(l, l', eff)
  {
    CountStep(l, l.pc.i);
    hide FirstUnlocked;
    assert Counted(l', l.pc.i + 1, l.pc.base, 1);
  }

  /** When EnterAll returns every handle is locked and counts one more. */
  lemma EnterAllReturns(l: Local, l': Local, eff: Effect)
    requires LocalInv(l) && l.pc.All? && LocalStep(l, l', eff) && l'.pc.Idle?
    ensures forall q :: 0 <= q < |l.list| ==> l'.locked[q] && l'.want[q] == l.pc.base[q] + 1
    ensures LocalInv(l') && FlagsFollow(l, l', eff)
  {
    assert l.order[..|l.list|] == l.order;
  }

  lemma KeptAllLock(l: Local, l': Local, eff: Effect)
    requires LocalInv(l) && l.pc.AllLock? && LocalStep(l, l', eff)
    ensures LocalInv(l') && FlagsFollow(l, l', eff)
  {
    if eff.Take? {
      TakeFollows(l, l', eff, l.pc.q, l'.pc);
    }
  }

  lemma KeptLeaving(l: Local, l': Local, eff: Effect)
    requires LocalInv(l) && l.pc.Leaving? && LocalStep(l, l', eff)
    ensures LocalInv(l') && FlagsFollow(l, l', eff)
  {
    if l.pc.i < |l.list| {
      CountStep(l, l.pc.i);
      assert l.locked[l.order[l.pc.i]];
    }
  }

  /** Every step of a connection keeps its invariant, and changes its locked flags by its mutex
      operation and by nothing else. */
  lemma LocalInvKept(l: Local, l': Local, eff: Effect)
    requires LocalInv(l) && LocalStep(l, l', eff)
    ensures LocalInv(l') && FlagsFollow(l, l', eff)
  {
    match l.pc
    case Idle => KeptIdle(l, l', eff);
    case Try(_) => KeptEnter(l, l', eff);
    case Relock(_) => KeptEnter(l, l', eff);
    case Release(_, _) => KeptRelease(l, l', eff);
    case AllRelease(_, _, _, _) => KeptAllRelease(l, l', eff);
    case All(i, _) =>
      if i < |l.list| {
        KeptAll(l, l', eff);
      } else {
        EnterAllReturns(l, l', eff);
      }
    case AllLock(_, _, _) => KeptAllLock(l, l', eff);
    case Leaving(_, _) => KeptLeaving(l, l', eff);
  }

  // ---------- The invariant of all connections together ----------

  /** Handle q is locked exactly when its mutex belongs to connection c. */
  ghost predicate LockIsOwner(owner: map<Addr, Conn>, c: Conn, l: Local, q: nat) {
    q < |l.list| == |l.locked| ==> (l.locked[q] <==> l.list[q] in owner && owner[l.list[q]] == c)
  }

  /** A mutex is owned by the connection that has a locked handle on it, and by no other. */
  ghost predicate Owned(w: World) {
    && (forall c, q: nat :: c in w.conns ==> LockIsOwner(w.owner, c, w.conns[c], q))
    && (forall a :: a in w.owner ==> w.owner[a] in w.conns && a in w.conns[w.owner[a]].list)
  }

  ghost predicate Inv(w: World) {
    && (forall c :: c in w.conns ==> LocalInv(w.conns[c]))
    && Owned(w)
  }

  lemma InitInv(w: World)
    requires Init(w)
    ensures Inv(w)
  {
    forall c | c in w.conns
      ensures LocalInv(w.conns[c])
    {
      assert WellFormed(w.conns[c]);
    }
  }

  lemma NextInv(w: World, w': World)
    requires Inv(w) && Next(w, w')
    ensures Inv(w')
  {
    var c, l', eff :| StepOf(w, w', c, l', eff);
    var l := w.conns[c];
    LocalInvKept(l, l', eff);
    OwnedKept(w, w', c, l', eff);
  }

  lemma OwnedKept(w: World, w': World, c: Conn, l': Local, eff: Effect)
    requires Inv(w) && StepOf(w, w', c, l', eff) && LocalInv(l') && FlagsFollow(w.conns[c], l', eff)
    ensures Owned(w')
  {
    if eff.Give? {
      var l := w.conns[c];
      var r :| 0 <= r < |l.list| && l.list[r] == eff.a && l.locked[r] && l'.locked == l.locked[r := false];
      assert LockIsOwner(w.owner, c, l, r);
    }
    forall d, q: nat | d in w'.conns
      ensures LockIsOwner(w'.owner, d, w'.conns[d], q)
    {
      assert LockIsOwner(w.owner, d, w.conns[d], q);
      LockStaysOwner(w, w', c, l', eff, d, q);
    }
    assert forall a :: a in w'.owner ==> a in w.owner || (eff.Take? && a == eff.a);
  }

  lemma LockStaysOwner(w: World, w': World, c: Conn, l': Local, eff: Effect, d: Conn, q: nat)
    requires c in w.conns && d in w.conns && WellFormed(w.conns[c]) && WellFormed(w.conns[d]) && WellFormed(l')
    requires OwnerStep(w.owner, w'.owner, c, eff) && w'.conns == w.conns[c := l']
    requires FlagsFollow(w.conns[c], l', eff)
    requires LockIsOwner(w.owner, d, w.conns[d], q)
    requires eff.Give? ==> eff.a in w.owner && w.owner[eff.a] == c
    ensures LockIsOwner(w'.owner, d, w'.conns[d], q)
  {
    var l := w.conns[c];
    match eff
    case Nothing =>
    case Take(a) =>
      var r :| 0 <= r < |l.list| && l.list[r] == a && !l.locked[r] && l'.locked == l.locked[r := true];
    case Give(a) =>
      var r :| 0 <= r < |l.list| && l.list[r] == a && l.locked[r] && l'.locked == l.locked[r := false];
  }

  /** A run: a sequence of states from an initial one, each by one step from the one before. */
  ghost predicate Run(t: seq<World>) {
    && |t| > 0 && Init(t[0])
    && forall i :: 0 < i < |t| ==> Next(t[i - 1], t[i])
  }

  /** Whatever the connections do, in whatever order, the invariant holds. */
  lemma {:induction false} RunInv(t: seq<World>, i: nat)
    requires Run(t) && i < |t|
    ensures Inv(t[i])
    decreases i
  {
    if i == 0 {
      InitInv(t[0]);
    } else {
      RunInv(t, i - 1);
      NextInv(t[i - 1], t[i]);
    }
  }

  // ---------- Deadlock freedom ----------

  /** The connection's next step is a blocking sqlite3_mutex_enter on handle q. */
  predicate Entering(l: Local, q: nat) {
    && q < |l.list| && q < |l.want|
    && match l.pc
       case Relock(r) => r == q && l.want[q] > 0
       case AllLock(_, r, _) => r == q
       case _ => false
  }

  /** Connection c waits for the mutex at address a, which somebody owns. */
  ghost predicate WaitsFor(w: World, c: Conn, a: Addr) {
    && c in w.conns && a in w.owner
    && exists q: nat :: Entering(w.conns[c], q) && w.conns[c].list[q] == a
  }

  /** A connection about to block on a mutex owns only mutexes of smaller address: in particular not
      the one it waits for. */
  lemma HoldsOnlySmaller(w: World, c: Conn, a: Addr, b: Addr)
    requires Inv(w) && WaitsFor(w, c, a)
    requires b in w.owner && w.owner[b] == c
    ensures b < a
  {
    var l := w.conns[c];
    assert LocalInv(l);
    var q: nat :| Entering(l, q) && l.list[q] == a;
    var r: nat :| r < |l.list| && l.list[r] == b;
    assert LockIsOwner(w.owner, c, l, r);
  }

  /** Each connection of the sequence waits for a mutex that the next one owns. */
  ghost predicate WaitChain(w: World, cs: seq<Conn>, wanted: seq<Addr>) {
    && |wanted| == |cs|
    && (forall i :: 0 <= i < |cs| ==> WaitsFor(w, cs[i], wanted[i]))
    && (forall i :: 0 < i < |cs| ==> w.owner[wanted[i - 1]] == cs[i])
  }

  lemma {:induction false} ChainAscends(w: World, cs: seq<Conn>, wanted: seq<Addr>, i: nat, j: nat)
    requires Inv(w) && WaitChain(w, cs, wanted)
    requires i < j < |cs|
    ensures wanted[i] < wanted[j]
    decreases j
  {
    assert WaitsFor(w, cs[j - 1], wanted[j - 1]);
    HoldsOnlySmaller(w, cs[j], wanted[j], wanted[j - 1]);
    if i < j - 1 {
      ChainAscends(w, cs, wanted, i, j - 1);
    }
  }

  /** In no reachable state do connections wait for each other in a circle. */
  lemma NoWaitCycle(t: seq<World>, k: nat, cs: seq<Conn>, wanted: seq<Addr>)
    requires Run(t) && k < |t| && |cs| > 0
    requires WaitChain(t[k], cs, wanted)
    ensures t[k].owner[wanted[|wanted| - 1]] != cs[0]
  {
    var w, last := t[k], |cs| - 1;
    RunInv(t, k);
    assert WaitsFor(w, cs[0], wanted[0]) && WaitsFor(w, cs[last], wanted[last]);
    if w.owner[wanted[last]] == cs[0] {
      HoldsOnlySmaller(w, cs[0], wanted[0], wanted[last]);
      if last > 0 {
        ChainAscends(w, cs, wanted, 0, last);
      }
    }
  }

  /** If a connection waits, then following the owners leads to a connection that owns a mutex and
      waits for nobody. */
  lemma {:induction false} SomeOwnerRuns(w: World, c: Conn, a: Addr) returns (d: Conn, b: Addr)
    requires Inv(w) && WaitsFor(w, c, a)
    ensures b >= a && b in w.owner && w.owner[b] == d && d in w.conns
    ensures !exists x: Addr :: WaitsFor(w, d, x)
    decreases |set x | x in w.owner && x > a|
  {
    d, b := w.owner[a], a;
    if x: Addr :| WaitsFor(w, d, x) {
      HoldsOnlySmaller(w, d, x, a);
      var larger, fewer := set y | y in w.owner && y > a, set y | y in w.owner && y > x;
      assert x in larger && x !in fewer && fewer <= larger;
      SmallerSet(fewer, larger);
      d, b := SomeOwnerRuns(w, d, x);
    }
  }

  lemma SmallerSet(s: set<Addr>, t: set<Addr>)
    requires s < t
    ensures |s| < |t|
  {
    var x :| x in t && x !in s;
    assert s <= t - {x};
    SubsetSize(s, t - {x});
  }

  // ---------- What the calls do ----------

  /** Between calls a handle is locked exactly when it is wanted, and then its mutex is the
      connection's own. */
  lemma BetweenCalls(t: seq<World>, k: nat, c: Conn, q: nat)
    requires Run(t) && k < |t| && c in t[k].conns && t[k].conns[c].pc.Idle?
    requires q < |t[k].conns[c].list|
    ensures var l := t[k].conns[c];
            && q < |l.want| == |l.locked|
            && (l.locked[q] <==> l.want[q] > 0)
            && (l.locked[q] <==> l.list[q] in t[k].owner && t[k].owner[l.list[q]] == c)
  {
    RunInv(t, k);
    assert LocalInv(t[k].conns[c]);
    assert LockIsOwner(t[k].owner, c, t[k].conns[c], q);
  }

  /** LeaveAll takes back what EnterAll did: if it starts from one more than `before`, it ends with
      the counts `before` and every handle locked exactly when `before` wanted it. */
  lemma LeaveAllReturns(l: Local, l': Local, eff: Effect, before: seq<nat>)
    requires LocalInv(l) && l.pc.Leaving? && LocalStep(l, l', eff) && l'.pc.Idle?
    requires |before| == |l.list| && forall q :: 0 <= q < |before| ==> l.pc.base[q] == before[q] + 1
    ensures l'.want == before
    ensures forall q :: 0 <= q < |before| ==> (l'.locked[q] <==> before[q] > 0)
  {
    assert l.order[..|l.list|] == l.order;
  }

  // ---------- Calls within a run ----------

  /** Between states i and j connection c makes one call that begins at `start` and then returns; the
      other connections do what they like. */
  ghost predicate Call(t: seq<World>, c: Conn, i: nat, j: nat, start: Pc) {
    && Run(t) && i < j < |t|
    && IdleAt(t, c, i) && t[i + 1].conns == t[i].conns[c := t[i].conns[c].(pc := start)]
    && (forall m :: i < m < j ==> !IdleAt(t, c, m))
    && IdleAt(t, c, j)
  }

  ghost predicate IdleAt(t: seq<World>, c: Conn, m: nat)
    requires m < |t|
  {
    c in t[m].conns && t[m].conns[c].pc.Idle?
  }

  ghost predicate EnterAllCall(t: seq<World>, c: Conn, i: nat, j: nat) {
    i < |t| && c in t[i].conns && Call(t, c, i, j, All(0, t[i].conns[c].want))
  }

  ghost predicate LeaveAllCall(t: seq<World>, c: Conn, i: nat, j: nat) {
    i < |t| && c in t[i].conns && Call(t, c, i, j, Leaving(0, t[i].conns[c].want))
  }

  /** A step of the run is a step of the connection, or leaves it alone. */
  lemma StepOrStay(t: seq<World>, m: nat, c: Conn) returns (eff: Effect)
    requires Run(t) && 0 < m < |t| && c in t[m - 1].conns
    ensures c in t[m].conns && LocalInv(t[m - 1].conns[c]) && LocalInv(t[m].conns[c])
    ensures t[m].conns[c] == t[m - 1].conns[c] || LocalStep(t[m - 1].conns[c], t[m].conns[c], eff)
    ensures t[m].conns[c].list == t[m - 1].conns[c].list
  {
    hide LocalStep, LocalInv;
    RunInv(t, m - 1);
    RunInv(t, m);
    assert Next(t[m - 1], t[m]);
    var d, l', e :| StepOf(t[m - 1], t[m], d, l', e);
    eff := e;
    LocalInvKept(t[m - 1].conns[d], l', e);
  }

  /** Inside EnterAll or LeaveAll, with these counts at the time of the call. */
  predicate Inside(pc: Pc, leaving: bool, base: seq<nat>) {
    !pc.Idle? && !pc.Try? && !pc.Release? && !pc.Relock? && pc.Leaving? == leaving && pc.base == base
  }

  lemma StaysInside(l: Local, l': Local, eff: Effect, leaving: bool, base: seq<nat>)
    requires WellFormed(l) && LocalStep(l, l', eff) && Inside(l.pc, leaving, base)
    ensures l'.pc.Idle? || Inside(l'.pc, leaving, base)
  {
  }

  lemma {:induction false} DuringCall(t: seq<World>, c: Conn, i: nat, j: nat, leaving: bool, base: seq<nat>, m: nat)
    requires Call(t, c, i, j, if leaving then Leaving(0, base) else All(0, base)) && i < m < j
    ensures c in t[m].conns && Inside(t[m].conns[c].pc, leaving, base) && t[m].conns[c].list == t[i].conns[c].list
    decreases m
  {
    hide LocalStep, LocalInv;
    if m > i + 1 {
      DuringCall(t, c, i, j, leaving, base, m - 1);
      var eff := StepOrStay(t, m, c);
      assert !IdleAt(t, c, m);
      if t[m].conns[c] != t[m - 1].conns[c] {
        InvWellFormed(t[m - 1].conns[c]);
        StaysInside(t[m - 1].conns[c], t[m].conns[c], eff, leaving, base);
      }
    }
  }

  lemma InvWellFormed(l: Local)
    requires LocalInv(l)
    ensures WellFormed(l)
  {
  }

  /** The step with which a call returns. */
  lemma LastStep(t: seq<World>, c: Conn, i: nat, j: nat, leaving: bool, base: seq<nat>) returns (l: Local, eff: Effect)
    requires Call(t, c, i, j, if leaving then Leaving(0, base) else All(0, base))
    ensures LocalInv(l) && Inside(l.pc, leaving, base) && LocalStep(l, t[j].conns[c], eff)
    ensures l.list == t[i].conns[c].list == t[j].conns[c].list
  {
    hide LocalStep, LocalInv;
    assert j > i + 1;
    DuringCall(t, c, i, j, leaving, base, j - 1);
    eff := StepOrStay(t, j, c);
    l := t[j - 1].conns[c];
  }

  lemma {:induction false} ListStays(t: seq<World>, c: Conn, i: nat, j: nat)
    requires Run(t) && i <= j < |t| && c in t[i].conns
    ensures c in t[j].conns && t[j].conns[c].list == t[i].conns[c].list
    decreases j
  {
    hide LocalStep, LocalInv;
    if i < j {
      ListStays(t, c, i, j - 1);
      var eff := StepOrStay(t, j, c);
    }
  }

  /** EnterAll returns with every handle of the connection locked and counted once more. */
  lemma EnterAllLocks(t: seq<World>, c: Conn, i: nat, j: nat)
    requires EnterAllCall(t, c, i, j)
    ensures var l, l' := t[i].conns[c], t[j].conns[c];
            && |l.want| == |l'.want| == |l'.locked| == |l.list|
            && forall q :: 0 <= q < |l.list| ==> l'.locked[q] && l'.want[q] == l.want[q] + 1
  {
    hide LocalInv;
    var base := t[i].conns[c].want;
    var l, eff := LastStep(t, c, i, j, false, base);
    assert l.pc.All?;
    RunInv(t, i);
    InvWellFormed(t[i].conns[c]);
    EnterAllReturns(l, t[j].conns[c], eff);
    InvWellFormed(t[j].conns[c]);
  }

  /** EnterAll and a later LeaveAll, before which the connection has given back whatever else it took in
      between, restore wantToLock and locked of every handle, whatever other connections do meanwhile. */
  lemma EnterAllLeaveAll(t: seq<World>, c: Conn, i: nat, j: nat, k: nat, m: nat)
    requires EnterAllCall(t, c, i, j) && j <= k && LeaveAllCall(t, c, k, m)
    requires t[k].conns[c].want == t[j].conns[c].want
    ensures t[m].conns[c].want == t[i].conns[c].want && t[m].conns[c].locked == t[i].conns[c].locked
  {
    hide LocalStep;
    EnterAllLocks(t, c, i, j);
    var before, base := t[i].conns[c].want, t[k].conns[c].want;
    ListStays(t, c, i, k);
    var l, eff := LastStep(t, c, k, m, true, base);
    LeaveAllReturns(l, t[m].conns[c], eff, before);
    RunInv(t, i);
    RunInv(t, m);
    assert LocalInv(t[i].conns[c]) && LocalInv(t[m].conns[c]);
    assert Settled(t[i].conns[c], 0, |before|);
  }

  /** Between states i and j connection c calls sqlite3BtreeEnter on handle p and returns. */
  ghost predicate EnterCall(t: seq<World>, c: Conn, p: nat, i: nat, j: nat) {
    && Run(t) && i < j < |t| && IdleAt(t, c, i) && WellFormed(t[i].conns[c])
    && c in t[i + 1].conns && t[i + 1].conns == t[i].conns[c := t[i + 1].conns[c]]
    && StartEnter(t[i].conns[c], t[i + 1].conns[c], p)
    && (forall m :: i < m < j ==> !IdleAt(t, c, m))
    && IdleAt(t, c, j)
  }

  /** In the step after state i connection c calls sqlite3BtreeLeave on handle p. */
  ghost predicate LeaveCall(t: seq<World>, c: Conn, p: nat, i: nat) {
    && Run(t) && i + 1 < |t| && IdleAt(t, c, i) && WellFormed(t[i].conns[c])
    && c in t[i + 1].conns && t[i + 1].conns == t[i].conns[c := t[i + 1].conns[c]]
    && Leaves(t[i], t[i + 1], c, p)
  }

  ghost predicate Leaves(w: World, w': World, c: Conn, p: nat)
    requires c in w.conns && WellFormed(w.conns[c]) && c in w'.conns
  {
    exists eff :: LeaveBy(w, w', c, p, eff)
  }

  ghost predicate LeaveBy(w: World, w': World, c: Conn, p: nat, eff: Effect)
    requires c in w.conns && WellFormed(w.conns[c]) && c in w'.conns
  {
    Leave(w.conns[c], w'.conns[c], eff, p, Idle) && OwnerStep(w.owner, w'.owner, c, eff)
  }

  /** Inside sqlite3BtreeEnter the counts do not change any more. */
  lemma EnterKeepsWant(l: Local, l': Local, eff: Effect)
    requires WellFormed(l) && LocalStep(l, l', eff) && (l.pc.Try? || l.pc.Release? || l.pc.Relock?)
    ensures l'.want == l.want && (l'.pc.Idle? || l'.pc.Try? || l'.pc.Release? || l'.pc.Relock?)
  {
  }

  lemma {:induction false} DuringEnter(t: seq<World>, c: Conn, p: nat, i: nat, j: nat, m: nat)
    requires EnterCall(t, c, p, i, j) && i < m <= j
    ensures c in t[m].conns && t[m].conns[c].want == t[i + 1].conns[c].want && t[m].conns[c].list == t[i].conns[c].list
    ensures m < j ==> t[m].conns[c].pc.Try? || t[m].conns[c].pc.Release? || t[m].conns[c].pc.Relock?
    decreases m
  {
    hide LocalStep, LocalInv;
    if m == i + 1 {
      assert m < j ==> !IdleAt(t, c, m);
    } else {
      DuringEnter(t, c, p, i, j, m - 1);
      var eff := StepOrStay(t, m, c);
      assert m < j ==> !IdleAt(t, c, m);
      if t[m].conns[c] != t[m - 1].conns[c] {
        InvWellFormed(t[m - 1].conns[c]);
        EnterKeepsWant(t[m - 1].conns[c], t[m].conns[c], eff);
      }
    }
  }

  /** sqlite3BtreeEnter returns with its handle locked and counted once more, every other handle as it
      was, and the mutex the connection's own, whatever other connections do meanwhile. */
  lemma EnterLocks(t: seq<World>, c: Conn, p: nat, i: nat, j: nat)
    requires EnterCall(t, c, p, i, j)
    ensures var l, l' := t[i].conns[c], t[j].conns[c];
            && p < |l.want| == |l.locked| == |l.list| && l'.list == l.list
            && l'.want == l.want[p := l.want[p] + 1] && l'.locked == l.locked[p := true]
            && l.list[p] in t[j].owner && t[j].owner[l.list[p]] == c
  {
    DuringEnter(t, c, p, i, j, j);
    RunInv(t, i);
    RunInv(t, j);
    var l, l' := t[i].conns[c], t[j].conns[c];
    assert LocalInv(l) && LocalInv(l');
    assert Settled(l, 0, |l.list|) && Settled(l', 0, |l.list|);
    assert LockIsOwner(t[j].owner, c, l', p);
  }

  /** sqlite3BtreeLeave counts its handle once less and unlocks it, giving its mutex back, exactly if that
      was the last time; every other handle stays as it was. */
  lemma LeaveUnlocks(t: seq<World>, c: Conn, p: nat, i: nat)
    requires LeaveCall(t, c, p, i)
    ensures var l, l' := t[i].conns[c], t[i + 1].conns[c];
            && p < |l.want| == |l.locked| == |l.list| && l'.list == l.list && l.want[p] > 0
            && l'.want == l.want[p := l.want[p] - 1] && l'.locked == l.locked[p := l.want[p] > 1]
            && (l.want[p] == 1 ==> l.list[p] !in t[i + 1].owner)
  {
    RunInv(t, i);
    var l := t[i].conns[c];
    assert LocalInv(l) && Settled(l, 0, |l.list|);
  }

  /** Enter and a later Leave of the same handle, with nothing else kept in between, restore wantToLock and
      locked of every handle. */
  lemma EnterLeave(t: seq<World>, c: Conn, p: nat, i: nat, j: nat, k: nat)
    requires EnterCall(t, c, p, i, j) && j <= k && LeaveCall(t, c, p, k)
    requires t[k].conns[c].want == t[j].conns[c].want
    ensures t[k + 1].conns[c].want == t[i].conns[c].want && t[k + 1].conns[c].locked == t[i].conns[c].locked
  {
    hide LocalStep, Leave, StartEnter;
    EnterLocks(t, c, p, i, j);
    LeaveUnlocks(t, c, p, k);
    ListStays(t, c, j, k);
    RunInv(t, i);
    RunInv(t, k);
    var l, l' := t[i].conns[c], t[k].conns[c];
    assert LocalInv(l) && LocalInv(l');
    assert Settled(l, 0, |l.list|) && Settled(l', 0, |l.list|);
  }

  /** sqlite3BtreeMutexArrayInsert (btmutex.c:243-269) keeps the handles sorted by address. Slot
      a[n] is free; sqlite3BtreeMutexArrayEnter then takes them in ascending order. */
  method MutexArrayInsert(a: array<Addr>, n: nat, x: Addr) returns (i: nat)
    requires n < a.Length
    requires forall i, j :: 0 <= i < j < n ==> a[i] < a[j]
    requires forall i :: 0 <= i < n ==> a[i] != x
    modifies a
    ensures forall i, j :: 0 <= i < j < n + 1 ==> a[i] < a[j]
    ensures i <= n && a[..n + 1] == old(a[..n])[..i] + [x] + old(a[..n])[i..]
  {
    ghost var before := a[..n];
    i := 0;
    while i < n
      invariant i <= n
      invariant forall r :: 0 <= r < i ==> a[r] < x
      invariant a[..n] == before
    {
      if a[i] > x {
        var j := n;
        while j > i
          invariant i <= j <= n
          invariant forall r :: 0 <= r < j ==> a[r] == before[r]
          invariant forall r :: j < r <= n ==> a[r] == before[r - 1]
        {
          a[j] := a[j - 1];
          j := j - 1;
        }
        a[i] := x;
        return;
      }
      i := i + 1;
    }
    a[n] := x;
  }
}
