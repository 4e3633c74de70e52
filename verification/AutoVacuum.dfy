/**
 Full and incremental auto-vacuum (misc/sqlite/btree.c:2164-2347): pages at the end of the file are
 moved to free pages further down, and the file is cut off behind the last page in use.

 The file has no reserved bytes and ends before the pending-byte page.
 */
module AutoVacuum {
  import opened BtState
  import opened PtrMap
  import opened Arithmetic
  import Freelist
  import opened Relocate

  // ---------- Pages in use and free pages ----------

  ghost function Elements(m: multiset<nat>): set<nat> {
    set p | p in m
  }

  ghost function FreeSet(list: seq<Trunk>): set<nat> {
    Elements(Freelist.Members(list))
  }

  /** Pages in use are data pages up to `last`; the other data pages up to there are marked free in
      the pointer map; pages on the freelist are not in use. */
  ghost predicate Layout(usable: nat, pending: nat, last: nat, pages: Pages, ptr: Ptrs, free: set<nat>) {
    && 1 in pages
    && (forall p :: p in pages ==> 1 <= p <= last && !IsMap(usable, pending, p))
    && (forall p :: 1 < p <= last && !IsMap(usable, pending, p) && p !in pages ==> p in ptr && ptr[p].eType == FreePage)
    && (forall p :: p in free ==> p > 1 && p !in pages && !IsMap(usable, pending, p))
  }

  ghost function High(pages: Pages, nFin: nat): set<nat> {
    set p | p in pages && p > nFin
  }

  ghost function Low(free: set<nat>, nFin: nat): set<nat> {
    set p | p in free && p <= nFin
  }

  ghost predicate RootsUpTo(pages: Pages, ptr: Ptrs, nFin: nat) {
    forall p :: p in pages && p > nFin ==> p in ptr && ptr[p].eType != RootPage
  }

  /** Every data page up to `last` is in use or on the freelist, and none behind it. */
  ghost predicate AllListed(usable: nat, pending: nat, last: nat, pages: Pages, free: set<nat>) {
    && (forall p :: 1 <= p <= last && !IsMap(usable, pending, p) ==> p in pages || p in free)
    && (forall p :: p in free ==> p <= last)
  }

  // ---------- Counting ----------

  ghost function Data(usable: nat, pending: nat, k: nat): set<nat> {
    set p | 1 <= p <= k && !IsMap(usable, pending, p)
  }

  lemma {:induction false} DataSize(usable: nat, pending: nat, k: nat)
    ensures |Data(usable, pending, k)| == DataPages(usable, pending, k)
    decreases k
  {
    if k == 0 {
      assert Data(usable, pending, k) == {};
    } else {
      DataSize(usable, pending, k - 1);
      if IsMap(usable, pending, k) {
        assert Data(usable, pending, k) == Data(usable, pending, k - 1);
      } else {
        assert Data(usable, pending, k) == Data(usable, pending, k - 1) + {k};
      }
    }
  }

  lemma {:induction false} OnceSize(m: multiset<nat>)
    requires Freelist.Once(m)
    ensures |Elements(m)| == |m|
    decreases |m|
  {
    if |m| == 0 {
      assert Elements(m) == {};
    } else {
      var x :| x in m;
      var m' := m - multiset{x};
      assert m[x] == 1 && m'[x] == 0;
      forall p
        ensures m'[p] <= 1 && (p in m <==> p in m' || p == x)
      {
        assert m[p] <= 1;
      }
      OnceSize(m');
      assert Elements(m) == Elements(m') + {x};
    }
  }

  /** At the final size the two sides balance: that many data pages is how many pages are in use. */
  lemma StartsBalanced(usable: nat, pending: nat, last: nat, nFin: nat, pages: Pages, ptr: Ptrs, free: set<nat>)
    requires Layout(usable, pending, last, pages, ptr, free) && AllListed(usable, pending, last, pages, free)
    requires nFin <= last && DataPages(usable, pending, nFin) + |free| == DataPages(usable, pending, last)
    ensures |High(pages, nFin)| == |Low(free, nFin)|
  {
    var low := set p | p in pages && p <= nFin;
    Partition(usable, pending, last, pages, ptr, free, last);
    Partition(usable, pending, last, pages, ptr, free, nFin);
    assert (set p | p in pages && p <= last) == pages.Keys && Low(free, last) == free;
    assert low + High(pages, nFin) == pages.Keys && low * High(pages, nFin) == {};
    Disjoint(low, High(pages, nFin));
  }

  lemma Partition(usable: nat, pending: nat, last: nat, pages: Pages, ptr: Ptrs, free: set<nat>, k: nat)
    requires Layout(usable, pending, last, pages, ptr, free) && AllListed(usable, pending, last, pages, free) &&
             k <= last
    ensures |set p | p in pages && p <= k| + |Low(free, k)| == DataPages(usable, pending, k)
  {
    hide IsMap;
    var low := set p | p in pages && p <= k;
    assert low + Low(free, k) == Data(usable, pending, k) && low * Low(free, k) == {};
    Disjoint(low, Low(free, k));
    DataSize(usable, pending, k);
  }

  lemma Disjoint(a: set<nat>, b: set<nat>)
    requires a * b == {}
    ensures |a + b| == |a| + |b|
  {
  }

  /** Taking x off the freelist. */
  lemma Taken(list: seq<Trunk>, list': seq<Trunk>, x: nat)
    requires Freelist.Once(Freelist.Members(list)) && Freelist.Members(list') + multiset{x} == Freelist.Members(list)
    ensures x in FreeSet(list) && FreeSet(list') == FreeSet(list) - {x} &&
            |Freelist.Members(list')| + 1 == |Freelist.Members(list)|
  {
    var m, m' := Freelist.Members(list), Freelist.Members(list');
    assert x in m' + multiset{x};
    forall p
      ensures p in m' <==> p in m && p != x
    {
      assert m[p] == (m' + multiset{x})[p] <= 1;
    }
  }

  /** A move takes one page from the high side and one free page from the low side. */
  lemma MoveBalances(pages: Pages, free: set<nat>, nFin: nat, d: nat, f: nat)
    requires d in pages && d > nFin && f !in pages && f in free && f <= nFin
    requires |High(pages, nFin)| == |Low(free, nFin)|
    ensures |High(RenamePages(pages, d, f), nFin)| == |Low(free - {f}, nFin)|
  {
    assert High(RenamePages(pages, d, f), nFin) == High(pages, nFin) - {d};
    assert Low(free - {f}, nFin) == Low(free, nFin) - {f};
  }

  /** Page `last` moved to f: everything in use is now below it. */
  lemma MoveLayout(usable: nat, pending: nat, last: nat, last': nat, pages: Pages, ptr: Ptrs, free: set<nat>, f: nat,
                   ptr': Ptrs)
    requires Layout(usable, pending, last, pages, ptr, free) && last in pages && last > 1 && f in free && f < last
    requires last' < last && (forall p :: last' < p < last ==> IsMap(usable, pending, p))
    requires forall q :: q !in pages && q != f ==> SameEntry(ptr, ptr', q)
    ensures Layout(usable, pending, last', RenamePages(pages, last, f), ptr', free - {f})
  {
    hide IsMap;
    var pages' := RenamePages(pages, last, f);
    assert pages'.Keys == pages.Keys - {last} + {f};
    forall p | 1 < p <= last' && !IsMap(usable, pending, p) && p !in pages'
      ensures p in ptr' && ptr'[p].eType == FreePage
    {
      assert SameEntry(ptr, ptr', p);
    }
  }

  lemma DropLayout(usable: nat, pending: nat, last: nat, last': nat, pages: Pages, ptr: Ptrs, free: set<nat>)
    requires Layout(usable, pending, last, pages, ptr, free) && last !in pages
    requires last' < last && (forall p :: last' < p < last ==> IsMap(usable, pending, p))
    ensures Layout(usable, pending, last', pages, ptr, free)
  {
  }

  // ---------- The same database under other page numbers ----------

  function MapPtr(x: nat, f: map<nat, nat>): nat {
    if x in f then f[x] else x
  }

  function MapCell(c: Cell, f: map<nat, nat>): Cell {
    c.(child := MapPtr(c.child, f), overflow := MapPtr(c.overflow, f))
  }

  /** b with every pointer x replaced by f(x). */
  function MapBody(b: Body, f: map<nat, nat>): Body {
    match b
    case Overflow(next, data) => Overflow(MapPtr(next, f), data)
    case Btree(leaf, cells, right) =>
      Btree(leaf, seq(|cells|, i requires 0 <= i < |cells| => MapCell(cells[i], f)), MapPtr(right, f))
  }

  /** pages' is pages with every page p called f(p), where it stands and where it is referred to. */
  ghost predicate Isomorphic(pages: Pages, pages': Pages, f: map<nat, nat>) {
    && f.Keys == pages.Keys && f.Values == pages'.Keys
    && (forall p, q :: p in f && q in f && p != q ==> f[p] != f[q])
    && (forall p :: p in pages ==> pages'[f[p]] == MapBody(pages[p], f))
  }

  /** Every pointer is 0 or to a page in use. */
  ghost predicate Closed(pages: Pages) {
    0 !in pages && forall p :: p in pages ==> ClosedBody(pages[p], pages.Keys)
  }

  predicate ClosedBody(b: Body, keys: set<nat>) {
    match b
    case Overflow(next, _) => next == 0 || next in keys
    case Btree(_, cells, right) =>
      && (right == 0 || right in keys)
      && forall i :: 0 <= i < |cells| ==>
         (cells[i].child == 0 || cells[i].child in keys) && (cells[i].overflow == 0 || cells[i].overflow in keys)
  }

  lemma ExactIsClosed(pages: Pages, ptr: Ptrs)
    requires Exact(pages, ptr)
    ensures Closed(pages)
  {
    forall p | p in pages
      ensures ClosedBody(pages[p], pages.Keys)
    {
      BodyClosed(pages, ptr, p);
    }
  }

  lemma BodyClosed(pages: Pages, ptr: Ptrs, p: nat)
    requires RefsRecorded(pages, ptr) && p in pages && WellFormed(pages[p])
    ensures ClosedBody(pages[p], pages.Keys)
  {
    var b := pages[p];
    if b.Btree? {
      forall i | 0 <= i < |b.cells|
        ensures (b.cells[i].child == 0 || b.cells[i].child in pages) &&
                (b.cells[i].overflow == 0 || b.cells[i].overflow in pages)
      {
        assert b.cells[i].overflow != 0 ==> RefersTo(b, b.cells[i].overflow, Overflow1);
        assert !b.leaf ==> RefersTo(b, b.cells[i].child, BtreePage);
      }
      assert !b.leaf ==> RefersTo(b, b.right, BtreePage);
    } else {
      assert b.next != 0 ==> RefersTo(b, b.next, Overflow2);
    }
  }

  function Identity(pages: Pages): map<nat, nat> {
    map p | p in pages :: p
  }

  lemma IsoStart(pages: Pages)
    ensures Isomorphic(pages, pages, Identity(pages))
  {
    var f := Identity(pages);
    forall p | p in pages
      ensures p in f.Values
    {
      assert f[p] == p;
    }
    forall p | p in pages
      ensures MapBody(pages[p], f) == pages[p]
    {
      SameBody(pages[p], f);
    }
  }

  lemma SameBody(b: Body, f: map<nat, nat>)
    requires forall x :: x in f ==> f[x] == x
    ensures MapBody(b, f) == b
  {
    if b.Btree? {
      assert MapBody(b, f).cells == b.cells;
    }
  }

  /** f, then page d renamed to g. */
  function Then(f: map<nat, nat>, d: nat, g: nat): map<nat, nat> {
    map p | p in f :: Ren(f[p], d, g)
  }

  lemma IsoMove(pages0: Pages, pages: Pages, f: map<nat, nat>, d: nat, g: nat)
    requires Isomorphic(pages0, pages, f) && Closed(pages0) && d in pages && d > 0 && g !in pages
    ensures Isomorphic(pages0, RenamePages(pages, d, g), Then(f, d, g))
  {
    var f', pages' := Then(f, d, g), RenamePages(pages, d, g);
    forall p | p in pages0
      ensures pages'[f'[p]] == MapBody(pages0[p], f')
    {
      assert f[p] in f.Values;
      assert pages'[f'[p]] == RenameBody(pages[f[p]], d, g);
      BodyThen(pages0[p], f, d, g);
    }
    ThenValues(f, d, g);
    forall p, q | p in f' && q in f' && p != q
      ensures f'[p] != f'[q]
    {
      assert f[p] in f.Values && f[q] in f.Values;
    }
  }

  lemma ThenValues(f: map<nat, nat>, d: nat, g: nat)
    requires d in f.Values && g !in f.Values
    ensures Then(f, d, g).Values == f.Values - {d} + {g}
  {
    var f' := Then(f, d, g);
    var p0 :| p0 in f && f[p0] == d;
    assert f'[p0] == g;
    forall y | y in f.Values && y != d
      ensures y in f'.Values
    {
      var p :| p in f && f[p] == y;
      assert f'[p] == y;
    }
    forall y | y in f'.Values
      ensures y in f.Values - {d} + {g}
    {
      var p :| p in f' && f'[p] == y;
      assert f[p] in f.Values;
    }
  }

  lemma BodyThen(b: Body, f: map<nat, nat>, d: nat, g: nat)
    requires ClosedBody(b, f.Keys) && d != 0
    ensures RenameBody(MapBody(b, f), d, g) == MapBody(b, Then(f, d, g))
  {
    if b.Btree? {
      var l, r := RenameBody(MapBody(b, f), d, g), MapBody(b, Then(f, d, g));
      forall i | 0 <= i < |b.cells|
        ensures l.cells[i] == r.cells[i]
      {
      }
    }
  }

  // ---------- The code ----------

  datatype Rc = Ok | Done | Corrupt

  function Last(bt: BtShared): nat
    reads bt
  {
    if bt.nTrunc == 0 then bt.nPage else bt.nTrunc
  }

  ghost function FreeNow(bt: BtShared): set<nat>
    reads bt
  {
    FreeSet(bt.trunks)
  }

  /** What holds of the file between two steps of a vacuum that is to end at nFin pages, or, with
      nFin zero, whenever the freelist is empty. */
  ghost predicate StepInv(bt: BtShared, nFin: nat)
    reads bt
  {
    && PageSize(bt.usable) && bt.autoVacuum && 0 < bt.nPage < bt.pending < U32 / 2 && bt.nTrunc <= bt.nPage
    && Freelist.Valid(bt) && Exact(bt.pages, bt.ptr)
    && !IsMap(bt.usable, bt.pending, Last(bt))
    && Layout(bt.usable, bt.pending, Last(bt), bt.pages, bt.ptr, FreeNow(bt))
    && (nFin > 0 ==>
        nFin <= Last(bt) && !IsMap(bt.usable, bt.pending, nFin) && |High(bt.pages, nFin)| == |Low(FreeNow(bt), nFin)|)
    && (nFin == 0 ==> AllListed(bt.usable, bt.pending, Last(bt), bt.pages, FreeNow(bt)))
  }

  /** The last page before iLast that is not a pointer-map page. */
  method StepBack(bt: BtShared, iLast: nat)
    requires PageSize(bt.usable) && 1 < iLast < bt.pending < U32 / 2
    modifies bt`nTrunc
    ensures 0 < bt.nTrunc < iLast && !IsMap(bt.usable, bt.pending, bt.nTrunc)
    ensures forall p :: bt.nTrunc < p < iLast ==> IsMap(bt.usable, bt.pending, p)
  {
    bt.nTrunc := iLast - 1;
    while bt.nTrunc == bt.pending || IsMap(bt.usable, bt.pending, bt.nTrunc)
      invariant 0 < bt.nTrunc < iLast
      invariant forall p :: bt.nTrunc < p < iLast ==> IsMap(bt.usable, bt.pending, p)
      decreases bt.nTrunc
    {
      MapPages(bt.usable, bt.pending, bt.nTrunc);
      bt.nTrunc := bt.nTrunc - 1;
    }
  }

  ghost predicate IsRoot(ptr: Ptrs, p: nat) {
    p in ptr && ptr[p].eType == RootPage
  }

  /** Takes free pages off the list until one is found that page `last` may move to. */
  method FindFree(bt: BtShared, nFin: nat) returns (f: nat)
    requires StepInv(bt, nFin) && Last(bt) in bt.pages && bt.count > 0 && nFin < Last(bt)
    modifies bt`words, bt`first, bt`count, bt`trunks, bt`nPage, bt`nTrunc
    ensures Freelist.Valid(bt) && bt.nPage == old(bt.nPage) && bt.nTrunc == old(bt.nTrunc)
    ensures f in old(FreeNow(bt)) && f < Last(bt) && (nFin > 0 ==> f <= nFin)
    ensures FreeNow(bt) <= old(FreeNow(bt)) - {f}
    ensures nFin > 0 ==> Low(FreeNow(bt), nFin) == Low(old(FreeNow(bt)), nFin) - {f}
    ensures nFin == 0 ==> FreeNow(bt) == old(FreeNow(bt)) - {f}
  {
    hide IsMap, Exact, FreeSet, Freelist.Valid;
    ghost var free := FreeNow(bt);
    if nFin > 0 {
      assert Last(bt) in High(bt.pages, nFin);
      assert Low(free, nFin) != {};
    } else {
      ListNotEmpty(bt);
    }
    f := TakeAny(bt);
    while nFin != 0 && f > nFin
      invariant Freelist.Valid(bt) && bt.nPage == old(bt.nPage) && bt.nTrunc == old(bt.nTrunc)
      invariant f in free && FreeNow(bt) <= free - {f}
      invariant nFin > 0 ==> Low(FreeNow(bt), nFin) == Low(free, nFin) - {f}
      invariant nFin == 0 ==> FreeNow(bt) == free - {f}
      decreases bt.count
    {
      assert Low(FreeNow(bt), nFin) == Low(free, nFin);
      f := TakeAny(bt);
    }
  }

  lemma ListNotEmpty(bt: BtShared)
    requires Freelist.Valid(bt)
    ensures bt.count > 0 <==> FreeNow(bt) != {}
  {
    CountPositive(bt.words, bt.first, bt.count, bt.trunks, bt.usable / 4, bt.nPage);
  }

  /** allocateBtreePage on a freelist that is not empty, with no page preferred. */
  method TakeAny(bt: BtShared) returns (f: nat)
    requires Freelist.Valid(bt) && FreeNow(bt) != {}
    modifies bt`words, bt`first, bt`count, bt`trunks, bt`nPage, bt`nTrunc
    ensures Freelist.Valid(bt) && bt.nPage == old(bt.nPage) && bt.nTrunc == old(bt.nTrunc) && bt.count < old(bt.count)
    ensures f in old(FreeNow(bt)) && FreeNow(bt) == old(FreeNow(bt)) - {f}
  {
    hide Freelist.Members, Freelist.Linked;
    ListNotEmpty(bt);
    ghost var list := bt.trunks;
    f := Freelist.AllocatePage(bt, 0, false);
    Taken(list, bt.trunks, f);
  }

  lemma CountPositive(words: Freelist.Image, first: nat, count: nat, list: seq<Trunk>, w: nat, nPage: nat)
    requires Freelist.Sound(words, first, count, list, w, nPage)
    ensures count > 0 <==> FreeSet(list) != {}
    ensures count == |FreeSet(list)|
    ensures forall p :: p in FreeSet(list) ==> p <= nPage
  {
    hide Freelist.Members, Freelist.Linked;
    OnceSize(Freelist.Members(list));
  }

  /** The pages in use keep their types. */
  ghost predicate SameTypes(pages: Pages, ptr: Ptrs, ptr': Ptrs) {
    forall q :: q in pages && q > 1 ==> q in ptr && q in ptr' && ptr'[q].eType == ptr[q].eType
  }

  /** Page `last` is free: with no final size to reach, it is also taken off the list. */
  method GiveUpFree(bt: BtShared, nFin: nat)
    requires StepInv(bt, nFin) && 1 < Last(bt) && nFin < Last(bt) && Last(bt) !in bt.pages && bt.count > 0
    requires nFin == 0 ==> Freelist.RealFirst(bt.trunks, Last(bt))
    modifies bt`words, bt`first, bt`count, bt`trunks, bt`nPage, bt`nTrunc
    ensures StepInv(bt, nFin) && 0 < bt.nTrunc < old(Last(bt)) && bt.nPage == old(bt.nPage)
  {
    hide Freelist.Members, Freelist.Linked, Exact;
    var iLast := Last(bt);
    ghost var list := bt.trunks;
    if nFin == 0 {
      var iFree := Freelist.AllocatePage(bt, iLast, true);
      Taken(list, bt.trunks, iFree);
    }
    StepBack(bt, iLast);
    DropLayout(bt.usable, bt.pending, iLast, bt.nTrunc, bt.pages, bt.ptr, FreeNow(bt));
    assert nFin == 0 ==> AllListed(bt.usable, bt.pending, bt.nTrunc, bt.pages, FreeNow(bt));
  }

  /** Page `last` is in use: it moves to a free page. */
  method MoveLast(bt: BtShared, nFin: nat, entry: PtrEntry) returns (f: nat)
    requires StepInv(bt, nFin) && 1 < Last(bt) && nFin < Last(bt) && Last(bt) in bt.pages && bt.count > 0
    requires entry == bt.ptr[Last(bt)] && entry.eType != RootPage
    modifies bt`words, bt`first, bt`count, bt`trunks, bt`nPage, bt`nTrunc, bt`pages, bt`ptr
    ensures StepInv(bt, nFin) && 0 < bt.nTrunc < old(Last(bt)) && bt.nPage == old(bt.nPage)
    ensures f !in old(bt.pages) && f > 0 && (nFin > 0 ==> f <= nFin) &&
            bt.pages == RenamePages(old(bt.pages), old(Last(bt)), f)
    ensures SameTypes(old(bt.pages), old(bt.ptr), bt.ptr)
  {
    hide IsMap, Freelist.Members, Freelist.Linked, RefsRecorded, Kinds, AllWellFormed, RenamePages, EntryReal;
    var iLast := Last(bt);
    ghost var pages, ptr, free := bt.pages, bt.ptr, FreeNow(bt);
    f := FindFree(bt, nFin);
    var ok := RelocatePage(bt, iLast, entry.eType, entry.parent, f);
    StepBack(bt, iLast);
    MoveLayout(bt.usable, bt.pending, iLast, bt.nTrunc, pages, ptr, free, f, bt.ptr);
    FewerFree(bt.usable, bt.pending, bt.nTrunc, bt.pages, bt.ptr, free - {f}, FreeNow(bt));
    if nFin > 0 {
      MoveBalances(pages, free, nFin, iLast, f);
      assert Low(FreeNow(bt), nFin) == Low(free - {f}, nFin);
    } else {
      MoveListed(bt.usable, bt.pending, iLast, bt.nTrunc, pages, free, f);
    }
  }

  lemma FewerFree(usable: nat, pending: nat, last: nat, pages: Pages, ptr: Ptrs, free: set<nat>, free': set<nat>)
    requires Layout(usable, pending, last, pages, ptr, free) && free' <= free
    ensures Layout(usable, pending, last, pages, ptr, free')
  {
  }

  lemma MoveListed(usable: nat, pending: nat, last: nat, last': nat, pages: Pages, free: set<nat>, f: nat)
    requires AllListed(usable, pending, last, pages, free) && last in pages && f in free && f !in pages && f < last
    requires last' < last && !IsMap(usable, pending, last') &&
             (forall p :: last' < p < last ==> IsMap(usable, pending, p))
    requires forall p :: p in free ==> !IsMap(usable, pending, p) && p !in pages
    ensures AllListed(usable, pending, last', RenamePages(pages, last, f), free - {f})
  {
    hide IsMap;
  }

  /** incrVacuumStep: page `last` is given up, and what it held is moved to page f if it was in use. */
  method IncrVacuumStep(bt: BtShared, nFin: nat) returns (rc: Rc, ghost f: nat)
    requires StepInv(bt, nFin)
    requires nFin == 0 && bt.count > 0 && Last(bt) !in bt.pages ==> Freelist.RealFirst(bt.trunks, Last(bt))
    modifies bt`words, bt`first, bt`count, bt`trunks, bt`nPage, bt`nTrunc, bt`pages, bt`ptr
    ensures bt.nPage == old(bt.nPage)
    ensures rc == Done <==> old(bt.count == 0 || nFin == Last(bt))
    ensures rc == Corrupt <==>
            old(bt.count != 0 && nFin != Last(bt) && Last(bt) in bt.pages && IsRoot(bt.ptr, Last(bt)))
    ensures StepInv(bt, nFin) && (rc == Ok ==> 0 < bt.nTrunc < old(Last(bt)))
    ensures rc != Ok ==>
            f == 0 && bt.ptr == old(bt.ptr) && bt.nTrunc == old(bt.nTrunc) && bt.trunks == old(bt.trunks) &&
            bt.count == old(bt.count)
    ensures f == 0 ==> bt.pages == old(bt.pages)
    ensures f != 0 ==>
              old(Last(bt)) in old(bt.pages) && f !in old(bt.pages) &&
              bt.pages == RenamePages(old(bt.pages), old(Last(bt)), f)
    ensures f != 0 && nFin > 0 ==> f <= nFin
    ensures SameTypes(old(bt.pages), old(bt.ptr), bt.ptr)
  {
    hide IsMap, Freelist.Members, Freelist.Linked, RefsRecorded, Kinds, AllWellFormed, RenamePages, EntryReal;
    f := 0;
    var iLast := Last(bt);
    CountPositive(bt.words, bt.first, bt.count, bt.trunks, bt.usable / 4, bt.nPage);
    if bt.count == 0 || nFin == iLast {
      return Done, 0;
    }
    assert iLast > 1;
    EntryThere(bt.pages, bt.ptr, iLast);
    var entry := bt.ptr[iLast];
    if entry.eType == RootPage {
      return Corrupt, 0;
    }
    if entry.eType == FreePage {
      GiveUpFree(bt, nFin);
    } else {
      var iFree := MoveLast(bt, nFin, entry);
      f := iFree;
    }
    rc := Ok;
  }

  lemma EntryThere(pages: Pages, ptr: Ptrs, p: nat)
    requires Exact(pages, ptr)
    ensures p in pages && p > 1 ==> p in ptr && ptr[p].eType != FreePage
  {
    if p in pages && p > 1 {
      assert EntryReal(pages, p, ptr[p]);
    }
  }

  /** Pages above nFin are where they were at the start, and no root has left. */
  ghost predicate RootsKept(pages0: Pages, ptr0: Ptrs, pages: Pages, ptr: Ptrs, nFin: nat) {
    && (forall p :: p in pages && p > nFin ==> p in pages0 && (IsRoot(ptr, p) <==> IsRoot(ptr0, p)))
    && (forall p :: p in pages0 && p > nFin && p !in pages ==> !IsRoot(ptr0, p))
  }

  lemma RootsStillKept(pages0: Pages, ptr0: Ptrs, pages: Pages, ptr: Ptrs, nFin: nat, d: nat, g: nat, ptr': Ptrs)
    requires RootsKept(pages0, ptr0, pages, ptr, nFin) && d in pages && d > nFin && g !in pages && g <= nFin && nFin > 0
    requires SameTypes(pages, ptr, ptr') && !IsRoot(ptr, d)
    ensures RootsKept(pages0, ptr0, RenamePages(pages, d, g), ptr', nFin)
  {
  }

  /** The progress of a vacuum: the database is the one it started from under other page numbers,
      and nothing at or below nFin has moved. */
  ghost predicate Progress(pages0: Pages, ptr0: Ptrs, pages: Pages, ptr: Ptrs, f: map<nat, nat>, nFin: nat) {
    && Isomorphic(pages0, pages, f) && |pages| == |pages0|
    && (forall p :: p in pages0 && p <= nFin ==> f[p] == p)
    && RootsKept(pages0, ptr0, pages, ptr, nFin)
  }

  lemma ProgressMove(pages0: Pages, ptr0: Ptrs, pages: Pages, ptr: Ptrs, f: map<nat, nat>, nFin: nat, d: nat, g: nat,
                     ptr': Ptrs)
    requires Progress(pages0, ptr0, pages, ptr, f, nFin) && Closed(pages0) && nFin > 0
    requires d in pages && d > nFin && g !in pages && g <= nFin && SameTypes(pages, ptr, ptr') && !IsRoot(ptr, d)
    ensures Progress(pages0, ptr0, RenamePages(pages, d, g), ptr', Then(f, d, g), nFin)
  {
    hide Isomorphic, RootsKept, RenamePages, Closed;
    IsoMove(pages0, pages, f, d, g);
    RootsStillKept(pages0, ptr0, pages, ptr, nFin, d, g, ptr');
    RenamedSize(pages, d, g);
    IsoKeys(pages0, pages, f);
  }

  lemma RenamedSize(pages: Pages, d: nat, g: nat)
    requires d in pages && g !in pages
    ensures |RenamePages(pages, d, g)| == |pages|
  {
    var pages' := RenamePages(pages, d, g);
    assert pages'.Keys == pages.Keys - {d} + {g};
    assert |pages'| == |pages'.Keys| && |pages| == |pages.Keys|;
  }

  lemma IsoKeys(pages0: Pages, pages: Pages, f: map<nat, nat>)
    requires Isomorphic(pages0, pages, f)
    ensures f.Keys == pages0.Keys
  {
  }

  /** autoVacuumCommit without an incremental vacuum before it: the file shrinks to nFin pages, the
      number that leaves exactly the data pages in use. It works out whenever no root lies behind. */
  method AutoVacuumCommit(bt: BtShared) returns (rc: Rc, nTrunc: nat, ghost nFin: nat, ghost f: map<nat, nat>)
    requires bt.nTrunc == 0 && (!IsMap(bt.usable, bt.pending, bt.nPage) ==> StepInv(bt, 0))
    modifies bt`words, bt`first, bt`count, bt`trunks, bt`nPage, bt`nTrunc, bt`pages, bt`ptr
    ensures rc != Done && bt.nPage == old(bt.nPage)
    ensures rc == Ok <==> !IsMap(bt.usable, bt.pending, bt.nPage) && RootsUpTo(old(bt.pages), old(bt.ptr), nFin)
    ensures !IsMap(bt.usable, bt.pending, bt.nPage) ==>
              0 < nFin <= bt.nPage && !IsMap(bt.usable, bt.pending, nFin) &&
                DataPages(bt.usable, bt.pending, nFin) == |old(bt.pages)|
    ensures rc == Ok ==>
              && nTrunc == (if old(bt.count) == 0 then 0 else nFin) && bt.nTrunc == 0
              && bt.count == 0 && Freelist.Sound(bt.words, bt.first, bt.count, bt.trunks, bt.usable / 4, bt.nPage)
              && bt.pages.Keys == Data(bt.usable, bt.pending, nFin)
              && Exact(bt.pages, bt.ptr) && Isomorphic(old(bt.pages), bt.pages, f)
              && (forall p :: p in old(bt.pages) && p <= nFin ==> f[p] == p)
  {
    hide IsMap, Freelist.Members, Freelist.Sound, Exact, Layout, AllListed, RenamePages, Isomorphic, RootsKept;
    nFin, f, nTrunc := 0, map[], 0;
    if IsMap(bt.usable, bt.pending, bt.nPage) {
      return Corrupt, 0, 0, f;
    }
    ghost var pages0, ptr0 := bt.pages, bt.ptr;
    EntriesThere(pages0, ptr0);
    var fin := CommitSize(bt);
    nFin := fin;
    rc, f := MoveAll(bt, fin);
    CountPositive(bt.words, bt.first, bt.count, bt.trunks, bt.usable / 4, bt.nPage);
    Finished(bt.usable, bt.pending, Last(bt), pages0, ptr0, bt.pages, bt.ptr, FreeNow(bt), f, fin);
    if rc == Done {
      rc := Ok;
      if bt.nTrunc != 0 && fin != 0 {
        EmptyList(bt.words, bt.first, bt.count, bt.trunks, bt.usable / 4, bt.nPage);
        bt.first, bt.count, bt.trunks := 0, 0, [];
        bt.nTrunc := fin;
      }
      nTrunc := bt.nTrunc;
      bt.nTrunc := 0;
    }
  }

  /** The number of pages the file will have. */
  method CommitSize(bt: BtShared) returns (nFin: nat)
    requires StepInv(bt, 0) && bt.nTrunc == 0
    ensures StepInv(bt, nFin) && 0 < nFin <= bt.nPage && DataPages(bt.usable, bt.pending, nFin) == |bt.pages|
    ensures nFin == bt.nPage ==> bt.count == 0
  {
    hide IsMap, Exact, Freelist.Members, Freelist.Linked;
    ghost var free := FreeNow(bt);
    CountPositive(bt.words, bt.first, bt.count, bt.trunks, bt.usable / 4, bt.nPage);
    Partition(bt.usable, bt.pending, bt.nPage, bt.pages, bt.ptr, free, bt.nPage);
    assert (set p | p in bt.pages && p <= bt.nPage) == bt.pages.Keys && Low(free, bt.nPage) == free;
    assert |bt.pages.Keys| > 0;
    nFin := FinalSize(bt.usable, bt.pending, bt.nPage, bt.count);
    StartsBalanced(bt.usable, bt.pending, bt.nPage, nFin, bt.pages, bt.ptr, free);
  }

  /** Steps until nothing is left to do. */
  method MoveAll(bt: BtShared, fin: nat) returns (rc: Rc, ghost f: map<nat, nat>)
    requires StepInv(bt, fin) && 0 < fin && bt.nTrunc == 0 && (fin == bt.nPage ==> bt.count == 0)
    modifies bt`words, bt`first, bt`count, bt`trunks, bt`nPage, bt`nTrunc, bt`pages, bt`ptr
    ensures bt.nPage == old(bt.nPage) && StepInv(bt, fin) &&
            Progress(old(bt.pages), old(bt.ptr), bt.pages, bt.ptr, f, fin)
    ensures rc != Ok
    ensures rc == Done ==> (bt.count == 0 || fin == Last(bt)) && (bt.nTrunc == 0 <==> old(bt.count) == 0)
    ensures rc == Corrupt ==> Last(bt) in bt.pages && IsRoot(bt.ptr, Last(bt)) && fin < Last(bt)
    ensures old(bt.count) == 0 ==> bt.count == 0
  {
    hide IsMap, Freelist.Members, Exact, Layout, RenamePages, Isomorphic, RootsKept;
    ghost var pages0, ptr0 := bt.pages, bt.ptr;
    f := Identity(pages0);
    StartsProgress(pages0, ptr0, fin);
    ExactIsClosed(pages0, ptr0);
    rc := Ok;
    while rc == Ok
      invariant bt.nPage == old(bt.nPage) && StepInv(bt, fin) && Progress(pages0, ptr0, bt.pages, bt.ptr, f, fin)
      invariant rc == Done ==> bt.count == 0 || fin == Last(bt)
      invariant rc == Corrupt ==> Last(bt) in bt.pages && IsRoot(bt.ptr, Last(bt)) && fin < Last(bt)
      invariant bt.nTrunc == 0 ==> bt.count == old(bt.count)
      invariant old(bt.count) == 0 ==> bt.nTrunc == 0
      decreases rc == Ok, Last(bt)
    {
      ghost var d, ptr, pages, g := Last(bt), bt.ptr, bt.pages, 0;
      rc, g := IncrVacuumStep(bt, fin);
      if g != 0 {
        ProgressMove(pages0, ptr0, pages, ptr, f, fin, d, g, bt.ptr);
        f := Then(f, d, g);
      } else {
        ProgressStay(pages0, ptr0, pages, ptr, f, fin, bt.ptr);
      }
    }
  }

  lemma StartsProgress(pages: Pages, ptr: Ptrs, nFin: nat)
    ensures Progress(pages, ptr, pages, ptr, Identity(pages), nFin)
  {
    hide Isomorphic;
    IsoStart(pages);
  }

  lemma ProgressStay(pages0: Pages, ptr0: Ptrs, pages: Pages, ptr: Ptrs, f: map<nat, nat>, nFin: nat, ptr': Ptrs)
    requires Progress(pages0, ptr0, pages, ptr, f, nFin) && SameTypes(pages, ptr, ptr') && nFin > 0
    ensures Progress(pages0, ptr0, pages, ptr', f, nFin)
  {
    hide Isomorphic;
    IsoKeys(pages0, pages, f);
  }

  /** When nothing is left to do, every page in use lies at or below nFin; when a root is met, it was
      there from the start. */
  lemma Finished(usable: nat, pending: nat, last: nat, pages0: Pages, ptr0: Ptrs, pages: Pages, ptr: Ptrs,
                 free: set<nat>, f: map<nat, nat>, nFin: nat)
    requires Progress(pages0, ptr0, pages, ptr, f, nFin) && Layout(usable, pending, last, pages, ptr, free)
    requires |High(pages, nFin)| == |Low(free, nFin)| && DataPages(usable, pending, nFin) == |pages0| && nFin > 0
    requires forall p :: p in pages0 && p > 1 ==> p in ptr0
    ensures free == {} || nFin == last ==> pages.Keys == Data(usable, pending, nFin) && RootsUpTo(pages0, ptr0, nFin)
    ensures last in pages && IsRoot(ptr, last) && nFin < last ==> !RootsUpTo(pages0, ptr0, nFin)
  {
    hide IsMap, Isomorphic;
    if free == {} || nFin == last {
      assert free == {} ==> Low(free, nFin) == {};
      assert nFin == last ==> High(pages, nFin) == {};
      assert forall p :: p in pages && p > nFin ==> p in High(pages, nFin);
      DataSize(usable, pending, nFin);
      assert pages.Keys <= Data(usable, pending, nFin);
      SameSize(pages.Keys, Data(usable, pending, nFin));
    }
  }

  lemma {:induction false} SameSize(a: set<nat>, b: set<nat>)
    requires a <= b && |a| == |b|
    ensures a == b
  {
    assert |b - a| == |b| - |a|;
  }

  lemma EntriesThere(pages: Pages, ptr: Ptrs)
    requires Exact(pages, ptr)
    ensures forall p :: p in pages && p > 1 ==> p in ptr
  {
  }

  lemma EmptyList(words: Freelist.Image, first: nat, count: nat, list: seq<Trunk>, w: nat, nPage: nat)
    requires Freelist.Sound(words, first, count, list, w, nPage)
    ensures Freelist.Sound(words, 0, 0, [], w, nPage)
  {
  }

  /** A new file is a start for all this. */
  method NewFile(usable: nat, pending: nat) returns (bt: BtShared)
    requires PageSize(usable) && 1 < pending < U32 / 2
    ensures fresh(bt) && bt.nTrunc == 0 && StepInv(bt, 0)
  {
    bt := new BtShared(usable, pending, true);
    MapPages(usable, pending, 1);
  }
}
