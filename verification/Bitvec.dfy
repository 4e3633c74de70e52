/**
 Bitvec (misc/sqlite/bitvec.c:40-201): a set of numbers between 1 and a fixed size, kept as a bitmap if
 small, as a hash table while sparse, and else split over 62 smaller bitvecs. Constants are those of
 64-bit pointers.
 */
module Bitvecs {
  import opened Arithmetic

  const NBit: nat := 3968
  const NInt: nat := 124
  const MxHash: nat := 62
  const NPtr: nat := 62

  datatype Bitvec =
    | Null
    | Bitmap(size: nat, bits: seq<bool>)
    | Hash(size: nat, nSet: nat, slots: seq<nat>)
    | Split(size: nat, divisor: nat, subs: seq<Bitvec>)

  /** BITVEC_HASH, in 32-bit arithmetic. */
  function Slot0(i: nat): (h: nat)
    ensures h < NInt
  {
    i * 37 % U32 % NInt
  }

  function Slot(i: nat, k: nat): (h: nat)
    ensures h < NInt
  {
    (Slot0(i) + k) % NInt
  }

  function Occupied(slots: seq<nat>): nat {
    if slots == [] then 0 else Occupied(slots[..|slots| - 1]) + if slots[|slots| - 1] == 0 then 0 else 1
  }

  /** A probe for v gets to v after k steps. */
  predicate ReachedIn(slots: seq<nat>, v: nat, k: nat)
    requires |slots| == NInt
  {
    slots[Slot(v, k)] == v && forall m :: 0 <= m < k ==> slots[Slot(v, m)] != 0
  }

  ghost predicate Reached(slots: seq<nat>, v: nat)
    requires |slots| == NInt
  {
    exists k :: 0 <= k < NInt && ReachedIn(slots, v, k)
  }

  /** The values of the table are different, and a probe finds each. */
  ghost predicate Table(slots: seq<nat>, size: nat) {
    && |slots| == NInt
    && (forall j :: 0 <= j < NInt ==> slots[j] <= size && (slots[j] != 0 ==> Reached(slots, slots[j])))
    && (forall j, k :: 0 <= j < k < NInt && slots[j] != 0 ==> slots[j] != slots[k])
  }

  function Divisor(size: nat): nat {
    (size + NPtr - 1) / NPtr
  }

  lemma DivisorBounds(size: nat)
    requires size > NBit
    ensures 1 < Divisor(size) < size && NPtr * Divisor(size) >= size
  {
  }

  ghost predicate Valid(b: Bitvec) {
    match b
    case Null => true
    case Bitmap(size, bits) => size <= NBit && |bits| == NBit && forall j :: size <= j < NBit ==> !bits[j]
    case Hash(size, nSet, slots) => NBit < size < U32 - NPtr && Table(slots, size) && nSet == Occupied(slots) &&
      nSet < MxHash
    case Split(size, divisor, subs) =>
      && NBit < size < U32 - NPtr && divisor == Divisor(size) && |subs| == NPtr
      && forall j :: 0 <= j < NPtr ==> Valid(subs[j]) && (subs[j].Null? || subs[j].size == divisor)
  }

  /** The members of the set. */
  predicate Contains(b: Bitvec, i: nat)
    requires Valid(b)
  {
    match b
    case Null => false
    case Bitmap(size, bits) => 0 < i <= size && bits[i - 1]
    case Hash(size, nSet, slots) => i > 0 && i in slots
    case Split(size, divisor, subs) =>
      0 < i <= size && InSub(i, divisor, size) && Contains(subs[Bin(i, divisor)], Rest(i, divisor))
  }

  function Bin(i: nat, divisor: nat): nat
    requires i > 0 && divisor > 0
  {
    (i - 1) / divisor
  }

  function Rest(i: nat, divisor: nat): nat
    requires i > 0 && divisor > 0
  {
    (i - 1) % divisor + 1
  }

  predicate InSub(i: nat, divisor: nat, size: nat)
    requires i > 0
  {
    divisor > 0 && Bin(i, divisor) < NPtr
  }

  // ---------- The hash table ----------

  lemma SlotNext(i: nat, k: nat)
    ensures Slot(i, 0) == Slot0(i)
    ensures Slot(i, k + 1) == if Slot(i, k) + 1 == NInt then 0 else Slot(i, k) + 1
  {
  }

  /** A probe comes by every slot. */
  lemma EverySlot(i: nat, j: nat) returns (k: nat)
    requires j < NInt
    ensures k < NInt && Slot(i, k) == j
  {
    var h := Slot0(i);
    k := if j >= h then j - h else j - h + NInt;
  }

  lemma {:induction false} AllOccupied(slots: seq<nat>)
    requires forall j :: 0 <= j < |slots| ==> slots[j] != 0
    ensures Occupied(slots) == |slots|
    decreases |slots|
  {
    if slots != [] {
      AllOccupied(slots[..|slots| - 1]);
    }
  }

  lemma {:induction false} OccupyOne(slots: seq<nat>, h: nat, v: nat)
    requires h < |slots| && slots[h] == 0 && v != 0
    ensures Occupied(slots[h := v]) == Occupied(slots) + 1
    decreases |slots|
  {
    var n := |slots| - 1;
    if h < n {
      OccupyOne(slots[..n], h, v);
      assert slots[h := v][..n] == slots[..n][h := v];
    } else {
      assert slots[h := v][..n] == slots[..n];
    }
  }

  /** There is an empty slot, so probing ends. */
  lemma NotAllTaken(slots: seq<nat>, i: nat)
    requires |slots| == NInt && Occupied(slots) < NInt
    ensures exists k :: 0 <= k < NInt && slots[Slot(i, k)] == 0
  {
    if forall k :: 0 <= k < NInt ==> slots[Slot(i, k)] != 0 {
      forall j | 0 <= j < NInt
        ensures slots[j] != 0
      {
        var k := EverySlot(i, j);
      }
      AllOccupied(slots);
    }
  }

  /** The probing loop: at i, or at the empty slot where it would go. */
  method Probe(slots: seq<nat>, i: nat) returns (h: nat, found: bool, ghost k: nat)
    requires |slots| == NInt && Occupied(slots) < MxHash && i > 0
    ensures h < NInt && k < NInt && h == Slot(i, k) &&
            forall m :: 0 <= m < k ==> slots[Slot(i, m)] != 0 && slots[Slot(i, m)] != i
    ensures if found then slots[h] == i else slots[h] == 0
  {
    hide Slot, Slot0, Occupied;
    NotAllTaken(slots, i);
    ghost var z :| 0 <= z < NInt && slots[Slot(i, z)] == 0;
    SlotNext(i, 0);
    h, k := Slot0(i), 0;
    while slots[h] != 0
      invariant h < NInt && k <= z && h == Slot(i, k)
      invariant forall m :: 0 <= m < k ==> slots[Slot(i, m)] != 0 && slots[Slot(i, m)] != i
      decreases NInt - k
    {
      if slots[h] == i {
        return h, true, k;
      }
      SlotNext(i, k);
      h := h + 1;
      if h >= NInt {
        h := 0;
      }
      k := k + 1;
    }
    return h, false, k;
  }

  /** Stopping at an empty slot means i is nowhere in the table. */
  lemma Absent(slots: seq<nat>, size: nat, i: nat, k: nat)
    requires Table(slots, size) && i > 0 && slots[Slot(i, k)] == 0 && forall m :: 0 <= m < k ==> slots[Slot(i, m)] != i
    ensures i !in slots
  {
  }

  /** i goes into the empty slot its probe came to. */
  lemma Entered(slots: seq<nat>, size: nat, i: nat, k: nat)
    requires Table(slots, size) && 0 < i <= size && k < NInt && slots[Slot(i, k)] == 0 && i !in slots
    requires forall m :: 0 <= m < k ==> slots[Slot(i, m)] != 0
    ensures Table(slots[Slot(i, k) := i], size) && Occupied(slots[Slot(i, k) := i]) == Occupied(slots) + 1
    ensures forall x :: x > 0 ==> (x in slots[Slot(i, k) := i] <==> x in slots || x == i)
  {
    hide Slot, Occupied;
    var h, slots' := Slot(i, k), slots[Slot(i, k) := i];
    OccupyOne(slots, h, i);
    forall j | 0 <= j < NInt && slots'[j] != 0
      ensures Reached(slots', slots'[j])
    {
      if j == h {
        assert ReachedIn(slots', i, k);
      } else {
        var v := slots[j];
        var m :| 0 <= m < NInt && ReachedIn(slots, v, m);
        assert ReachedIn(slots', v, m);
      }
    }
    forall x | x > 0
      ensures x in slots' <==> x in slots || x == i
    {
      if x in slots {
        var j :| 0 <= j < NInt && slots[j] == x;
        assert slots'[j] == x;
      }
      assert slots'[h] == i;
    }
  }

  // ---------- Splitting ----------

  /** A number's bin and place in it. */
  lemma BinRest(i: nat, size: nat)
    requires 0 < i <= size && size > NBit
    ensures var d := Divisor(size); d > 0 && Bin(i, d) < NPtr && 0 < Rest(i, d) <= d && i == Bin(i, d) * d + Rest(i, d)
  {
    var d := Divisor(size);
    DivisorBounds(size);
    var q := (i - 1) / d;
    assert i - 1 == q * d + (i - 1) % d;
    if q >= NPtr {
      assert q * d >= NPtr * d by {
        Times(NPtr, q, d);
      }
    }
  }

  lemma Times(a: nat, b: nat, d: nat)
    requires a <= b
    ensures a * d <= b * d
  {
  }

  /** Different numbers differ in bin or place. */
  lemma SameBinRest(i: nat, j: nat, size: nat)
    requires 0 < i <= size && 0 < j <= size && size > NBit
    ensures var d := Divisor(size); d > 0 && (Bin(i, d) == Bin(j, d) && Rest(i, d) == Rest(j, d) ==> i == j)
  {
    BinRest(i, size);
    BinRest(j, size);
  }

  /** Members lie between 1 and the size. */
  lemma InRange(b: Bitvec, i: nat)
    requires Valid(b) && Contains(b, i)
    ensures !b.Null? && 0 < i <= b.size
  {
    if b.Hash? {
      var j :| 0 <= j < NInt && b.slots[j] == i;
    }
  }

  // ---------- The operations ----------

  /** sqlite3BitvecCreate */
  function Create(size: nat): (b: Bitvec)
    requires size < U32 - NPtr
    ensures Valid(b) && !b.Null? && b.size == size
  {
    var zeros := seq(NInt, _ => 0);
    if size <= NBit then Bitmap(size, seq(NBit, _ => false))
    else
      assert Occupied(zeros) == 0 by {
        NoneOccupied(zeros);
      }
      Hash(size, 0, zeros)
  }

  lemma {:induction false} NoneOccupied(slots: seq<nat>)
    requires forall j :: 0 <= j < |slots| ==> slots[j] == 0
    ensures Occupied(slots) == 0
    decreases |slots|
  {
    if slots != [] {
      NoneOccupied(slots[..|slots| - 1]);
    }
  }

  lemma CreateEmpty(size: nat, i: nat)
    requires size < U32 - NPtr
    ensures !Contains(Create(size), i)
  {
  }

  /** sqlite3BitvecTest */
  method Test(b: Bitvec, i: nat) returns (r: bool)
    requires Valid(b)
    ensures r <==> Contains(b, i)
    decreases b
  {
    if b.Null? || i > (if b.Null? then 0 else b.size) || i == 0 {
      if !b.Null? && Contains(b, i) {
        InRange(b, i);
      }
      return false;
    }
    match b
    case Bitmap(size, bits) => return bits[i - 1];
    case Split(size, divisor, subs) =>
      BinRest(i, size);
      r := Test(subs[Bin(i, divisor)], Rest(i, divisor));
    case Hash(size, nSet, slots) =>
      ghost var k;
      var h;
      h, r, k := Probe(slots, i);
      if !r {
        Absent(slots, size, i, k);
      }
  }

  /** b' is b with i added. */
  ghost predicate Adds(b: Bitvec, b': Bitvec, i: nat)
    requires Valid(b)
  {
    Valid(b') && !b'.Null? && !b.Null? && b'.size == b.size && forall x :: Contains(b', x) <==> Contains(b, x) || x == i
  }

  /** sqlite3BitvecSet */
  method Set(b: Bitvec, i: nat) returns (b': Bitvec)
    requires Valid(b) && !b.Null? && 0 < i <= b.size
    ensures Adds(b, b', i) && (b.Split? ==> b'.Split?)
    decreases b.size, if b.Split? then 0 else 3
  {
    match b
    case Bitmap(size, bits) =>
      b' := Bitmap(size, bits[i - 1 := true]);
    case Split(size, divisor, subs) =>
      BinRest(i, size);
      DivisorBounds(size);
      var bin, rest := Bin(i, divisor), Rest(i, divisor);
      var sub := subs[bin];
      ghost var was := sub;
      if sub.Null? {
        sub := Create(divisor);
      }
      var sub' := Set(sub, rest);
      b' := Split(size, divisor, subs[bin := sub']);
      SplitAdds(b, b', i, was, sub, sub');
    case Hash(size, nSet, slots) =>
      b' := SetHash(b, i);
  }

  lemma SplitAdds(b: Bitvec, b': Bitvec, i: nat, was: Bitvec, sub: Bitvec, sub': Bitvec)
    requires Valid(b) && b.Split? && 0 < i <= b.size && b.divisor == Divisor(b.size) > 0 && Bin(i, b.divisor) < NPtr
    requires was == b.subs[Bin(i, b.divisor)] && Valid(sub) && sub == (if was.Null? then Create(b.divisor) else was)
    requires Adds(sub, sub', Rest(i, b.divisor)) && b' == Split(b.size, b.divisor, b.subs[Bin(i, b.divisor) := sub'])
    ensures Adds(b, b', i)
  {
    hide Bin, Rest, Create;
    forall x: nat
      ensures Contains(b', x) <==> Contains(b, x) || x == i
    {
      if 0 < x <= b.size {
        BinRest(x, b.size);
        SameBinRest(x, i, b.size);
        if Bin(x, b.divisor) == Bin(i, b.divisor) && was.Null? {
          CreateEmpty(b.divisor, Rest(x, b.divisor));
        }
      }
    }
  }

  /** sqlite3BitvecSet on a hash table, which becomes a split bitvec when it would be half full. */
  method SetHash(b: Bitvec, i: nat) returns (b': Bitvec)
    requires Valid(b) && b.Hash? && 0 < i <= b.size
    ensures Adds(b, b', i) && (i !in b.slots && b.nSet + 1 < MxHash ==> b'.Hash? && b'.nSet == b.nSet + 1)
    ensures i in b.slots ==> b' == b
    decreases b.size, 2
  {
    hide Slot;
    ghost var k;
    var h, found;
    h, found, k := Probe(b.slots, i);
    if found {
      return b;
    }
    Absent(b.slots, b.size, i, k);
    if b.nSet + 1 >= MxHash {
      b' := Convert(b, i);
    } else {
      Entered(b.slots, b.size, i, k);
      b' := Hash(b.size, b.nSet + 1, b.slots[h := i]);
    }
  }

  /** The conversion: i and then every value of the table is set in a new split bitvec. */
  method Convert(b: Bitvec, i: nat) returns (b': Bitvec)
    requires Valid(b) && b.Hash? && 0 < i <= b.size
    ensures Adds(b, b', i)
    decreases b.size, 1
  {
    hide Valid, Contains;
    var d := Divisor(b.size);
    b' := Split(b.size, d, seq(NPtr, _ => Null));
    EmptySplit(b, b');
    b' := Set(b', i);
    var j := 0;
    while j < NInt
      invariant j <= NInt && |b.slots| == NInt && Valid(b') && b'.Split? && b'.size == b.size
      invariant forall x: nat :: Contains(b', x) <==> x == i || (x > 0 && x in b.slots[..j])
    {
      InTable(b, j);
      if b.slots[j] != 0 {
        b' := Set(b', b.slots[j]);
      }
      j := j + 1;
    }
    assert b.slots[..j] == b.slots;
    HashMembers(b);
  }

  lemma EmptySplit(b: Bitvec, b': Bitvec)
    requires Valid(b) && b.Hash? && b' == Split(b.size, Divisor(b.size), seq(NPtr, _ => Null))
    ensures |b.slots| == NInt && Valid(b') && forall x: nat :: !Contains(b', x)
  {
  }

  lemma InTable(b: Bitvec, j: nat)
    requires Valid(b) && b.Hash? && j < |b.slots|
    ensures b.slots[j] <= b.size && forall x: nat :: x in b.slots[..j + 1] <==> x in b.slots[..j] || x == b.slots[j]
  {
    assert b.slots[..j + 1] == b.slots[..j] + [b.slots[j]];
  }

  lemma HashMembers(b: Bitvec)
    requires Valid(b) && b.Hash?
    ensures forall x: nat :: Contains(b, x) <==> x > 0 && x in b.slots
  {
  }

  /** b' is b with i taken out. */
  ghost predicate Removes(b: Bitvec, b': Bitvec, i: nat)
    requires Valid(b)
  {
    Valid(b') && !b'.Null? && !b.Null? && b'.size == b.size && forall x :: Contains(b', x) <==> Contains(b, x) && x != i
  }

  /** sqlite3BitvecClear */
  method Clear(b: Bitvec, i: nat) returns (b': Bitvec)
    requires Valid(b) && !b.Null? && 0 < i <= b.size
    ensures Removes(b, b', i)
    decreases b
  {
    match b
    case Bitmap(size, bits) =>
      b' := Bitmap(size, bits[i - 1 := false]);
    case Split(size, divisor, subs) =>
      BinRest(i, size);
      var bin, rest := Bin(i, divisor), Rest(i, divisor);
      b' := b;
      if !subs[bin].Null? {
        var sub := Clear(subs[bin], rest);
        b' := Split(size, divisor, subs[bin := sub]);
      }
      SplitRemoves(b, b', i);
    case Hash(size, nSet, slots) =>
      b' := ClearHash(b, i);
  }

  lemma SplitRemoves(b: Bitvec, b': Bitvec, i: nat)
    requires Valid(b) && b.Split? && 0 < i <= b.size && b.divisor == Divisor(b.size) > 0 && Bin(i, b.divisor) < NPtr
    requires b'.Split? && |b'.subs| == NPtr && b'.size == b.size && b'.divisor == b.divisor
    requires var k := Bin(i, b.divisor);
             && (forall j :: 0 <= j < NPtr && j != k ==> b'.subs[j] == b.subs[j])
             && (if b.subs[k].Null? then b'.subs[k] == Null else Removes(b.subs[k], b'.subs[k], Rest(i, b.divisor)))
    ensures Removes(b, b', i)
  {
    hide Bin, Rest;
    assert Valid(b');
    forall x: nat
      ensures Contains(b', x) <==> Contains(b, x) && x != i
    {
      if 0 < x <= b.size {
        BinRest(x, b.size);
        SameBinRest(x, i, b.size);
      }
    }
  }

  lemma {:induction false} FewerOccupied(slots: seq<nat>, j: nat)
    requires j <= |slots|
    ensures Occupied(slots[..j]) <= Occupied(slots)
    decreases |slots|
  {
    if j < |slots| {
      var n := |slots| - 1;
      FewerOccupied(slots[..n], j);
      assert slots[..n][..j] == slots[..j];
    } else {
      assert slots[..j] == slots;
    }
  }

  lemma OccupiedNext(slots: seq<nat>, j: nat)
    requires j < |slots|
    ensures Occupied(slots[..j + 1]) == Occupied(slots[..j]) + (if slots[j] == 0 then 0 else 1) <= Occupied(slots)
    ensures Occupied(slots[..0]) == 0
  {
    FewerOccupied(slots, j + 1);
    assert slots[..j + 1][..j] == slots[..j];
  }

  /** On a hash table the rest of the values is entered anew. */
  method ClearHash(b: Bitvec, i: nat) returns (b': Bitvec)
    requires Valid(b) && b.Hash? && 0 < i <= b.size
    ensures Removes(b, b', i)
  {
    hide Valid, Contains, Occupied;
    HashParts(b);
    var slots := b.slots;
    b' := Create(b.size);
    HashParts(b');
    forall x: nat
      ensures !Contains(b', x)
    {
      CreateEmpty(b.size, x);
    }
    var j := 0;
    OccupiedNext(slots, 0);
    while j < NInt
      invariant j <= NInt && Valid(b') && b'.Hash? && b'.size == b.size && b'.nSet <= Occupied(slots[..j])
      invariant forall x: nat :: Contains(b', x) <==> x > 0 && x != i && x in slots[..j]
    {
      InTable(b, j);
      OccupiedNext(slots, j);
      if slots[j] != 0 && slots[j] != i {
        NewValue(b, j);
        HashMembers(b');
        b' := SetHash(b', slots[j]);
      }
      j := j + 1;
    }
    assert slots[..j] == slots;
    HashMembers(b);
  }

  lemma HashParts(b: Bitvec)
    requires Valid(b) && (b.Hash? || (!b.Null? && b.size > NBit))
    ensures b.Hash? ==> |b.slots| == NInt && b.nSet == Occupied(b.slots) < MxHash && NBit < b.size < U32 - NPtr
    ensures Create(b.size) == b ==> b.Hash? && b.nSet == 0
  {
  }

  lemma NewValue(b: Bitvec, j: nat)
    requires Valid(b) && b.Hash? && j < NInt && b.slots[j] != 0
    ensures b.slots[j] !in b.slots[..j]
  {
  }

  // ---------- A set ----------

  /** Set and Clear in any order, from an empty bitvec. */
  class BitSet {
    var b: Bitvec
    ghost var members: set<nat>

    ghost predicate Ok()
      reads this
    {
      !b.Null? && Valid(b) && forall x: nat :: x in members <==> Contains(b, x)
    }

    constructor (size: nat)
      requires size < U32 - NPtr
      ensures Ok() && members == {} && b.size == size
    {
      b := Create(size);
      members := {};
      new;
      forall x: nat
        ensures !Contains(b, x)
      {
        CreateEmpty(size, x);
      }
    }

    method Has(i: nat) returns (r: bool)
      requires Ok()
      ensures r <==> i in members
    {
      r := Test(b, i);
    }

    method Add(i: nat)
      requires Ok() && 0 < i <= b.size
      modifies this
      ensures Ok() && b.size == old(b.size) && members == old(members) + {i}
    {
      b := Set(b, i);
      members := members + {i};
    }

    method Remove(i: nat)
      requires Ok() && 0 < i <= b.size
      modifies this
      ensures Ok() && b.size == old(b.size) && members == old(members) - {i}
    {
      b := Clear(b, i);
      members := members - {i};
    }
  }
}
