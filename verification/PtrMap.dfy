/**
 Where the pointer map of an auto-vacuum database lives (misc/sqlite/btree.c:403-415 and
 btreeInt.h:531-546) and the size that a full auto-vacuum shrinks the file to (btree.c:2302-2321).
 Page numbers are unsigned 32-bit; subtractions wrap as they do in C.
 */
module PtrMap {
  import opened Arithmetic

  function Wrap(x: int): (r: nat)
    ensures 0 <= x < U32 ==> r == x
  {
    x % U32
  }

  /** Pages covered by one pointer-map page, itself included. */
  function Group(usable: nat): (n: nat)
    ensures n > 0
  {
    usable / 5 + 1
  }

  /** The pointer-map page holding the entry of page pgno: ptrmapPageno. */
  function MapPage(usable: nat, pending: nat, pgno: nat): nat {
    var i := Wrap(pgno - 2) / Group(usable);
    var ret := Wrap(i * Group(usable) + 2);
    if ret == pending then ret + 1 else ret
  }

  /** PTRMAP_ISPAGE */
  predicate IsMap(usable: nat, pending: nat, pgno: nat) {
    MapPage(usable, pending, pgno) == pgno
  }

  /** PTRMAP_PTROFFSET */
  function EntryOffset(usable: nat, pending: nat, pgno: nat): int {
    5 * (pgno - MapPage(usable, pending, pgno) - 1)
  }

  /** Page sizes SQLite accepts, without reserved bytes. */
  predicate PageSize(usable: nat) {
    usable in {512, 1024, 2048, 4096, 8192, 16384, 32768}
  }

  // ---------- Groups ----------

  /** Page pgno >= 2 sits `At(pgno)` places into its group, the map page at place 0. */
  function At(usable: nat, pgno: nat): nat
    requires pgno >= 2
  {
    (pgno - 2) % Group(usable)
  }

  lemma MapPageIs(usable: nat, pending: nat, pgno: nat)
    requires 2 <= pgno < U32
    ensures var m := pgno - At(usable, pgno);
            MapPage(usable, pending, pgno) == if m == pending then m + 1 else m
  {
    hide Wrap;
    Quotient(pgno - 2, Group(usable));
    assert (pgno - 2) / Group(usable) * Group(usable) == pgno - 2 - At(usable, pgno);
  }

  /** Below the pending-byte page the map pages are 2, 2+n, 2+2n and so on; page 1 is none, since
      no page size makes n divide 2^32-1. */
  lemma MapPages(usable: nat, pending: nat, pgno: nat)
    requires PageSize(usable) && 0 < pgno < pending < U32 / 2
    ensures IsMap(usable, pending, pgno) <==> pgno >= 2 && At(usable, pgno) == 0
    ensures IsMap(usable, pending, pgno) <==> pgno >= 2 && (pgno - 2) % (usable / 5 + 1) == 0
  {
    if pgno == 1 {
      PageOneIsNoMap(usable, pending);
    } else {
      MapPageIs(usable, pending, pgno);
    }
  }

  lemma PageOneIsNoMap(usable: nat, pending: nat)
    requires PageSize(usable) && 1 < pending < U32 / 2
    ensures U32 + 1 - usable / 5 <= MapPage(usable, pending, 1) < U32
  {
    assert Wrap(-1) == 4294967295;
    var n := Group(usable);
    var i := 4294967295 / n;
    assert n == 103 ==> i * n == 4294967295 - 62;
    assert n == 205 ==> i * n == 4294967295 - 200;
    assert n == 410 ==> i * n == 4294967295 - 405;
    assert n == 820 ==> i * n == 4294967295 - 815;
    assert n == 1639 ==> i * n == 4294967295 - 575;
    assert n == 3277 ==> i * n == 4294967295 - 15;
    assert n == 6554 ==> i * n == 4294967295 - 15;
  }

  /** Without that, page 1 would count as a map page: the sizes for which it does are exactly those
      whose group size divides 2^32-1, 420 being one. */
  lemma PageOneWraps(usable: nat, pending: nat)
    requires 1 < pending
    ensures IsMap(usable, pending, 1) <==> (U32 - 1) % Group(usable) == 0
    ensures (U32 - 1) % Group(420) == 0
  {
    var n := Group(usable);
    var i, r := (U32 - 1) / n, (U32 - 1) % n;
    assert Wrap(-1) == U32 - 1;
    assert i * n == U32 - 1 - r;
    assert r <= U32 - 1;
    if r < 2 {
      assert Wrap(U32 + 1 - r) == 1 - r;
    } else {
      assert Wrap(U32 + 1 - r) == U32 + 1 - r;
    }
    assert n == 1 ==> r == 0;
  }

  /** Entries of different pages never overlap, and each lies inside its map page. */
  lemma EntriesApart(usable: nat, pending: nat, p: nat, q: nat)
    requires 2 <= p < q < U32
    requires !IsMap(usable, pending, p) && !IsMap(usable, pending, q) && p != pending && q != pending
    ensures 0 <= EntryOffset(usable, pending, p) <= usable - 5
    ensures MapPage(usable, pending, p) == MapPage(usable, pending, q) ==>
              EntryOffset(usable, pending, p) + 5 <= EntryOffset(usable, pending, q) <= usable - 5
  {
    MapPageIs(usable, pending, p);
    MapPageIs(usable, pending, q);
    EntryInside(usable, pending, p);
    EntryInside(usable, pending, q);
  }

  lemma EntryInside(usable: nat, pending: nat, p: nat)
    requires 2 <= p < U32 && !IsMap(usable, pending, p) && p != pending
    ensures 0 <= EntryOffset(usable, pending, p) <= usable - 5
  {
    MapPageIs(usable, pending, p);
    assert 0 <= At(usable, p) <= usable / 5;
  }

  // ---------- Counting pages ----------

  /** How many of pages 1..k are not pointer-map pages. */
  function DataPages(usable: nat, pending: nat, k: nat): nat {
    if k == 0 then 0 else DataPages(usable, pending, k - 1) + if IsMap(usable, pending, k) then 0 else 1
  }

  /** All but one page of every group started are data pages. */
  lemma {:induction false} DataPagesClosed(usable: nat, pending: nat, k: nat)
    requires PageSize(usable) && 0 < k < pending < U32 / 2
    ensures DataPages(usable, pending, k) == if k == 1 then 1 else k - 1 - (k - 2) / Group(usable)
    decreases k
  {
    hide IsMap, PageSize, Group;
    MapPages(usable, pending, k);
    if k > 2 {
      DataPagesClosed(usable, pending, k - 1);
      NextQuotient(k - 3, Group(usable));
    } else {
      MapPages(usable, pending, 1);
      assert DataPages(usable, pending, 0) == 0;
      assert DataPages(usable, pending, 1) == 1;
      DivMod(0, Group(usable), 0, 0);
    }
  }

  lemma NextQuotient(x: nat, n: nat)
    requires n > 0
    ensures (x + 1) / n == x / n + if (x + 1) % n == 0 then 1 else 0
  {
    var q, r := x / n, x % n;
    assert x == q * n + r;
    if r + 1 == n {
      assert x + 1 == (q + 1) * n;
      DivMod(x + 1, n, q + 1, 0);
    } else {
      DivMod(x + 1, n, q, r + 1);
    }
  }

  // ---------- The final size ----------

  /** The number of pages autoVacuumCommit truncates to: not a map page, and leaving exactly as many
      data pages as there are pages in use. */
  method FinalSize(usable: nat, pending: nat, nOrig: nat, nFree: nat) returns (nFin: nat)
    requires PageSize(usable) && 0 < nOrig < pending < U32 / 2
    requires !IsMap(usable, pending, nOrig)
    requires nFree < DataPages(usable, pending, nOrig)
    ensures 0 < nFin <= nOrig && !IsMap(usable, pending, nFin)
    ensures DataPages(usable, pending, nFin) + nFree == DataPages(usable, pending, nOrig)
  {
    var e := usable / 5;
    var nPtrmap := Wrap(nFree - nOrig + MapPage(usable, pending, nOrig) + e) / e;
    nFin := Wrap(nOrig - nFree - nPtrmap);
    FinalSizeIs(usable, pending, nOrig, nFree, nPtrmap, nFin);
    while IsMap(usable, pending, nFin) || nFin == pending
      invariant 0 < nFin <= nOrig
      invariant DataPages(usable, pending, nFin) + nFree == DataPages(usable, pending, nOrig)
      decreases nFin
    {
      MapPages(usable, pending, nFin);
      nFin := nFin - 1;
    }
  }

  lemma FinalSizeIs(usable: nat, pending: nat, nOrig: nat, nFree: nat, nPtrmap: nat, nFin: nat)
    requires PageSize(usable) && 0 < nOrig < pending < U32 / 2
    requires !IsMap(usable, pending, nOrig)
    requires nFree < DataPages(usable, pending, nOrig)
    requires var e := usable / 5; nPtrmap == Wrap(nFree - nOrig + MapPage(usable, pending, nOrig) + e) / e
    requires nFin == Wrap(nOrig - nFree - nPtrmap)
    ensures 0 < nFin <= nOrig
    ensures DataPages(usable, pending, nFin) + nFree == DataPages(usable, pending, nOrig)
  {
    DataPagesClosed(usable, pending, nOrig);
    MapPages(usable, pending, nOrig);
    if nOrig == 1 {
      FinalSizeOne(usable, pending);
    } else {
      MapPageIs(usable, pending, nOrig);
      FinalSizeMany(Group(usable), nOrig, nFree, At(usable, nOrig), nPtrmap, nFin);
      DataPagesClosed(usable, pending, nFin);
    }
  }

  lemma FinalSizeMany(n: nat, nOrig: nat, nFree: nat, d: nat, nPtrmap: nat, nFin: nat)
    requires n > 1 && 1 < nOrig < U32 && d == (nOrig - 2) % n && d > 0
    requires nFree < nOrig - 1 - (nOrig - 2) / n
    requires nPtrmap == Wrap(nFree - nOrig + (nOrig - d) + (n - 1)) / (n - 1)
    requires nFin == Wrap(nOrig - nFree - nPtrmap) && n < U32 / 2 && nOrig < U32 / 2
    ensures 0 < nFin <= nOrig
    ensures nFin - (if nFin == 1 then 0 else 1 + (nFin - 2) / n) + nFree == nOrig - 1 - (nOrig - 2) / n
  {
    hide Wrap;
    var q := (nOrig - 2) / n;
    var x := nFree - d + (n - 1);
    Quotient(nOrig - 2, n);
    Quotient(x, n - 1);
    assert x / (n - 1) == nPtrmap;
    FinalGroup(n, q, d, nOrig, nFree, nPtrmap, x % (n - 1));
  }

  /** A database of one page has nothing to give back. */
  lemma FinalSizeOne(usable: nat, pending: nat)
    requires PageSize(usable) && 1 < pending < U32 / 2
    ensures var e := usable / 5; Wrap(MapPage(usable, pending, 1) - 1 + e) / e == 0
  {
    PageOneIsNoMap(usable, pending);
    var e, m := usable / 5, MapPage(usable, pending, 1);
    assert Wrap(m - 1 + e) == m - 1 + e - U32;
  }

  /** With n-1 data pages a group, q whole groups and d more pages, taking away nFree data pages and
      the map pages that become useless leaves n-1-b pages in group q-a, or page 1 alone. */
  lemma FinalGroup(n: nat, q: nat, d: nat, nOrig: nat, nFree: nat, a: nat, b: nat)
    requires n > 1 && 0 < d < n && b < n - 1
    requires nOrig - 2 == q * n + d && nFree - d + (n - 1) == a * (n - 1) + b
    requires nFree < nOrig - 1 - q
    ensures 0 < nOrig - nFree - a <= nOrig
    ensures nOrig - nFree - a == 1 ==> a == q + 1
    ensures nOrig - nFree - a > 1 ==> a <= q && (nOrig - nFree - a - 2) / n == q - a
  {
    var fin := nOrig - nFree - a;
    Spread(q, n);
    Spread(a, n);
    assert a * (n - 1) + b < (q + 1) * (n - 1) + 1 by {
      assert (q + 1) * (n - 1) == q * (n - 1) + (n - 1);
    }
    if a <= q {
      assert (q - a) * n == q * n - a * n;
      assert fin - 2 == (q - a) * n + (n - 1 - b);
      assert (q - a) * n >= 0;
      DivMod(fin - 2, n, q - a, n - 1 - b);
    } else {
      MoreTimes(a, q + 1, n - 1);
    }
  }

  lemma Spread(q: nat, n: nat)
    requires n > 0
    ensures q * n == q * (n - 1) + q
  {
  }

  lemma MoreTimes(a: nat, c: nat, e: nat)
    requires a >= c && e > 0
    ensures a * e >= c * e
    ensures a > c ==> a * e >= c * e + e
  {
    assert a * e == c * e + (a - c) * e;
    if a > c {
      AtLeastOnce(a - c, e);
    }
  }
}
