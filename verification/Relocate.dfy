/**
 Moving a page to another page number (misc/sqlite/btree.c:1966-2144). The pointer map records for
 every page the page that refers to it; it must stay the exact inverse of the references.
 */
module Relocate {
  import opened BtState

  type Pages = map<nat, Body>
  type Ptrs = map<nat, PtrEntry>

  // ---------- References ----------

  /** Page q is referred to from b, by a pointer of type t. */
  ghost predicate RefersTo(b: Body, q: nat, t: PtrType) {
    match b
    case Overflow(next, _) => t == Overflow2 && q == next && q != 0
    case Btree(leaf, cells, right) =>
      || (t == Overflow1 && q != 0 && exists i :: 0 <= i < |cells| && cells[i].overflow == q)
      || (t == BtreePage && !leaf && (right == q || exists i :: 0 <= i < |cells| && cells[i].child == q))
  }

  /** Leaf pages have no children, and no page is referred to twice. */
  ghost predicate WellFormed(b: Body) {
    b.Btree? ==>
      && (b.leaf ==> b.right == 0)
      && (forall i :: 0 <= i < |b.cells| ==>
          (b.leaf ==> b.cells[i].child == 0) && (!b.leaf ==> b.cells[i].child != b.right && b.cells[i].child != 0))
      && (forall i, j :: 0 <= i < j < |b.cells| ==> DifferentRefs(b.leaf, b.cells[i], b.cells[j]))
  }

  predicate DifferentRefs(leaf: bool, c: Cell, c': Cell) {
    (leaf || c.child != c'.child) && (c.overflow == 0 || c.overflow != c'.overflow)
  }

  /** Every reference is to a page in use, other than the page itself, and is in the pointer map. */
  ghost predicate RefsRecorded(pages: Pages, ptr: Ptrs) {
    forall p, q, t :: p in pages && RefersTo(pages[p], q, t) ==>
      q in pages && q > 1 && q != p && q in ptr && ptr[q] == PtrEntry(t, p)
  }

  /** Every page but page 1 has an entry: it is a root, or its entry names a page that refers to it. */
  ghost predicate EntriesReal(pages: Pages, ptr: Ptrs) {
    forall q :: q in pages && q > 1 ==> q in ptr && EntryReal(pages, q, ptr[q])
  }

  ghost predicate EntryReal(pages: Pages, q: nat, e: PtrEntry) {
    e.eType == RootPage || (e.parent in pages && RefersTo(pages[e.parent], q, e.eType))
  }

  /** Overflow pages are what overflow entries name, b-tree pages everything else. */
  ghost predicate Kinds(pages: Pages, ptr: Ptrs) {
    forall q :: q in pages ==>
      q > 0 && (pages[q].Overflow? <==> q > 1 && q in ptr && ptr[q].eType in {Overflow1, Overflow2})
  }

  ghost predicate AllWellFormed(pages: Pages) {
    forall q :: q in pages ==> WellFormed(pages[q])
  }

  /** The pointer map is the exact inverse of the references. */
  ghost predicate Exact(pages: Pages, ptr: Ptrs) {
    RefsRecorded(pages, ptr) && EntriesReal(pages, ptr) && Kinds(pages, ptr) && AllWellFormed(pages)
  }

  // ---------- Renaming a page ----------

  function Ren(x: nat, d: nat, f: nat): nat {
    if x == d then f else x
  }

  function RenameCell(c: Cell, d: nat, f: nat): Cell {
    c.(child := Ren(c.child, d, f), overflow := Ren(c.overflow, d, f))
  }

  /** b with every pointer to d pointing to f instead. */
  function RenameBody(b: Body, d: nat, f: nat): Body {
    match b
    case Overflow(next, data) => Overflow(Ren(next, d, f), data)
    case Btree(leaf, cells, right) =>
      Btree(leaf, seq(|cells|, i requires 0 <= i < |cells| => RenameCell(cells[i], d, f)), Ren(right, d, f))
  }

  /** The same pages with page d called f. */
  function RenamePages(pages: Pages, d: nat, f: nat): Pages
    requires d in pages && f !in pages
  {
    map p | p in pages.Keys - {d} + {f} :: RenameBody(pages[if p == f then d else p], d, f)
  }

  /** References of a renamed body, read back. */
  lemma RenamedRefers(b: Body, d: nat, f: nat, q: nat, t: PtrType)
    requires d != 0 && f != 0 && d != f && !RefersTo(b, f, Overflow1) && !RefersTo(b, f, Overflow2) &&
             !RefersTo(b, f, BtreePage)
    ensures RefersTo(RenameBody(b, d, f), q, t) <==> if q == f then RefersTo(b, d, t) else q != d && RefersTo(b, q, t)
  {
    if b.Btree? {
      var b' := RenameBody(b, d, f);
      var x := if q == f then d else q;
      if i :| 0 <= i < |b.cells| && b.cells[i].overflow == x {
        assert b'.cells[i].overflow == Ren(x, d, f);
      }
      if i :| 0 <= i < |b.cells| && b.cells[i].child == x {
        assert b'.cells[i].child == Ren(x, d, f);
      }
    }
  }

  lemma RenamedWellFormed(b: Body, d: nat, f: nat)
    requires WellFormed(b) && d != 0 && f != 0 && !RefersTo(b, f, Overflow1) && !RefersTo(b, f, BtreePage)
    ensures WellFormed(RenameBody(b, d, f))
  {
    if b.Btree? {
      var b' := RenameBody(b, d, f);
      forall i | 0 <= i < |b.cells|
        ensures b'.cells[i] == RenameCell(b.cells[i], d, f)
        ensures b.cells[i].overflow != f && (!b.leaf ==> b.cells[i].child != f && b.right != f)
      {
      }
      forall i, j | 0 <= i < j < |b.cells|
        ensures DifferentRefs(b.leaf, b'.cells[i], b'.cells[j])
      {
        assert DifferentRefs(b.leaf, b.cells[i], b.cells[j]);
      }
    }
  }

  ghost predicate Referred(b: Body, q: nat) {
    RefersTo(b, q, Overflow1) || RefersTo(b, q, Overflow2) || RefersTo(b, q, BtreePage)
  }

  predicate SameEntry(ptr: Ptrs, ptr': Ptrs, q: nat) {
    (q in ptr <==> q in ptr') && (q in ptr ==> ptr[q] == ptr'[q])
  }

  /** The entries of all pages that b refers to now name page f, and no other entry has changed. */
  ghost predicate Repointed(ptr: Ptrs, ptr': Ptrs, b: Body, f: nat) {
    && (forall q, t :: RefersTo(b, q, t) ==> q in ptr' && ptr'[q] == PtrEntry(t, f))
    && (forall q :: !Referred(b, q) ==> SameEntry(ptr, ptr', q))
  }

  /** What relocatePage starts from: page d in use, page f not. */
  ghost predicate CanMove(pages: Pages, ptr: Ptrs, d: nat, f: nat) {
    Exact(pages, ptr) && d in pages && d > 1 && f !in pages && f > 1
  }

  /** A page not in use is referred to by none. */
  lemma NotReferred(pages: Pages, ptr: Ptrs, p: nat, f: nat)
    requires RefsRecorded(pages, ptr) && p in pages && f !in pages
    ensures !Referred(pages[p], f)
  {
  }

  lemma OldRefers(pages: Pages, ptr: Ptrs, d: nat, f: nat, p: nat, q: nat, t: PtrType)
    requires CanMove(pages, ptr, d, f) && p in RenamePages(pages, d, f)
    ensures var p0 := if p == f then d else p;
            && p0 in pages && p != d && RenamePages(pages, d, f)[p] == RenameBody(pages[p0], d, f)
            && (RefersTo(RenamePages(pages, d, f)[p], q, t) <==>
                if q == f then RefersTo(pages[p0], d, t) else q != d && RefersTo(pages[p0], q, t))
  {
    var p0 := if p == f then d else p;
    NotReferred(pages, ptr, p0, f);
    RenamedRefers(pages[p0], d, f, q, t);
  }

  lemma MovedRefsRecorded(pages: Pages, ptr: Ptrs, d: nat, f: nat, ptr1: Ptrs, pages': Pages, ptr': Ptrs)
    requires CanMove(pages, ptr, d, f) && Repointed(ptr, ptr1, pages[d], f)
    requires pages' == RenamePages(pages, d, f) && ptr' == ptr1[f := ptr[d]]
    ensures RefsRecorded(pages', ptr')
  {
    hide RefersTo, RenamePages;
    forall p, q, t | p in pages' && RefersTo(pages'[p], q, t)
      ensures q in pages' && q > 1 && q != p && q in ptr' && ptr'[q] == PtrEntry(t, p)
    {
      OldRefers(pages, ptr, d, f, p, q, t);
      MovedKeys(pages, d, f);
      var p0 := if p == f then d else p;
      if q == f {
        assert RefersTo(pages[p0], d, t);
      } else {
        assert RefersTo(pages[p0], q, t);
        if p0 != d {
          NotBoth(pages, ptr, p0, d, q, t);
        }
      }
    }
  }

  lemma MovedKeys(pages: Pages, d: nat, f: nat)
    requires d in pages && f !in pages
    ensures RenamePages(pages, d, f).Keys == pages.Keys - {d} + {f}
  {
  }

  lemma NotBoth(pages: Pages, ptr: Ptrs, p: nat, d: nat, q: nat, t: PtrType)
    requires RefsRecorded(pages, ptr) && p in pages && d in pages && p != d && RefersTo(pages[p], q, t)
    ensures !Referred(pages[d], q)
  {
    hide RefersTo;
  }

  lemma MovedEntriesReal(pages: Pages, ptr: Ptrs, d: nat, f: nat, ptr1: Ptrs, pages': Pages, ptr': Ptrs)
    requires CanMove(pages, ptr, d, f) && Repointed(ptr, ptr1, pages[d], f)
    requires pages' == RenamePages(pages, d, f) && ptr' == ptr1[f := ptr[d]]
    ensures EntriesReal(pages', ptr')
  {
    hide RefersTo, RenamePages;
    MovedKeys(pages, d, f);
    forall q | q in pages' && q > 1
      ensures q in ptr' && EntryReal(pages', q, ptr'[q])
    {
      var q0 := if q == f then d else q;
      var e := ptr[q0];
      assert EntryReal(pages, q0, e);
      if e.eType == RootPage {
        RootNotReferred(pages, ptr, d, q0);
      } else {
        var p := if e.parent == d then f else e.parent;
        assert RefersTo(pages[e.parent], q0, e.eType);
        OldRefers(pages, ptr, d, f, p, q, e.eType);
        if q != f && e.parent != d {
          NotBoth(pages, ptr, e.parent, d, q, e.eType);
        }
      }
    }
  }

  lemma RootNotReferred(pages: Pages, ptr: Ptrs, d: nat, q: nat)
    requires RefsRecorded(pages, ptr) && d in pages && q in ptr && ptr[q].eType == RootPage
    ensures !Referred(pages[d], q)
  {
    hide RefersTo;
  }

  lemma MovedKinds(pages: Pages, ptr: Ptrs, d: nat, f: nat, ptr1: Ptrs, pages': Pages, ptr': Ptrs)
    requires CanMove(pages, ptr, d, f) && Repointed(ptr, ptr1, pages[d], f)
    requires pages' == RenamePages(pages, d, f) && ptr' == ptr1[f := ptr[d]]
    ensures Kinds(pages', ptr')
  {
    hide RefersTo;
    forall q | q in pages'
      ensures q > 0 && (pages'[q].Overflow? <==> q > 1 && q in ptr' && ptr'[q].eType in {Overflow1, Overflow2})
    {
      SameKind(pages, ptr, d, f, ptr1, q);
    }
  }

  lemma SameKind(pages: Pages, ptr: Ptrs, d: nat, f: nat, ptr1: Ptrs, q: nat)
    requires CanMove(pages, ptr, d, f) && Repointed(ptr, ptr1, pages[d], f)
    ensures q > 1 && q in ptr && q in pages ==> q in ptr1 && ptr1[q].eType == ptr[q].eType
  {
    hide RefersTo;
    if Referred(pages[d], q) && q in pages {
      var t :| RefersTo(pages[d], q, t);
      assert ptr[q] == PtrEntry(t, d);
    }
  }

  lemma MovedWellFormed(pages: Pages, ptr: Ptrs, d: nat, f: nat)
    requires CanMove(pages, ptr, d, f)
    ensures AllWellFormed(RenamePages(pages, d, f))
  {
    var pages' := RenamePages(pages, d, f);
    forall p | p in pages'
      ensures WellFormed(pages'[p])
    {
      var p0 := if p == f then d else p;
      NotReferred(pages, ptr, p0, f);
      RenamedWellFormed(pages[p0], d, f);
    }
  }

  /** Renaming page d to f keeps the pointer map exact, once the entries of the pages that d refers
      to have been repointed and d's own entry is given to f. */
  lemma RelocationExact(pages: Pages, ptr: Ptrs, d: nat, f: nat, ptr1: Ptrs)
    requires CanMove(pages, ptr, d, f) && Repointed(ptr, ptr1, pages[d], f)
    ensures d in ptr && Exact(RenamePages(pages, d, f), ptr1[f := ptr[d]])
  {
    var pages', ptr' := RenamePages(pages, d, f), ptr1[f := ptr[d]];
    MovedRefsRecorded(pages, ptr, d, f, ptr1, pages', ptr');
    MovedEntriesReal(pages, ptr, d, f, ptr1, pages', ptr');
    MovedKinds(pages, ptr, d, f, ptr1, pages', ptr');
    MovedWellFormed(pages, ptr, d, f);
  }

  // ---------- The code ----------

  /** No page is referred to by pointers of two types. */
  ghost predicate TypesAgree(b: Body) {
    forall q, t, t' :: RefersTo(b, q, t) && RefersTo(b, q, t') ==> t == t'
  }

  method PtrmapPut(bt: BtShared, key: nat, eType: PtrType, parent: nat)
    modifies bt`ptr
    ensures bt.ptr == old(bt.ptr)[key := PtrEntry(eType, parent)]
  {
    if key !in bt.ptr || bt.ptr[key] != PtrEntry(eType, parent) {
      bt.ptr := bt.ptr[key := PtrEntry(eType, parent)];
    }
  }

  /** Page q is referred to from one of the first n cells. */
  ghost predicate CellsRefer(b: Body, n: nat, q: nat, t: PtrType)
    requires b.Btree? && n <= |b.cells|
  {
    || (t == Overflow1 && q != 0 && exists i :: 0 <= i < n && b.cells[i].overflow == q)
    || (t == BtreePage && !b.leaf && exists i :: 0 <= i < n && b.cells[i].child == q)
  }

  ghost predicate Done(ptr: Ptrs, ptr': Ptrs, b: Body, n: nat, pgno: nat)
    requires b.Btree? && n <= |b.cells|
  {
    && (forall q, t :: CellsRefer(b, n, q, t) ==> q in ptr' && ptr'[q] == PtrEntry(t, pgno))
    && (forall q :: !CellsRefer(b, n, q, Overflow1) && !CellsRefer(b, n, q, BtreePage) ==> SameEntry(ptr, ptr', q))
  }

  lemma CellDone(ptr: Ptrs, ptr1: Ptrs, ptr2: Ptrs, ptr': Ptrs, b: Body, n: nat, n': nat, pgno: nat)
    requires b.Btree? && n < |b.cells| && n' == n + 1 && TypesAgree(b) && Done(ptr, ptr1, b, n, pgno)
    requires ptr2 == if b.cells[n].overflow == 0 then ptr1 else ptr1[b.cells[n].overflow := PtrEntry(Overflow1, pgno)]
    requires ptr' == if b.leaf then ptr2 else ptr2[b.cells[n].child := PtrEntry(BtreePage, pgno)]
    ensures Done(ptr, ptr', b, n', pgno)
  {
    var c := b.cells[n];
    assert c.overflow != 0 ==> CellsRefer(b, n', c.overflow, Overflow1) && RefersTo(b, c.overflow, Overflow1);
    assert !b.leaf ==> CellsRefer(b, n', c.child, BtreePage) && RefersTo(b, c.child, BtreePage);
    forall q, t
      ensures CellsRefer(b, n', q, t) <==>
              CellsRefer(b, n, q, t) || (t == Overflow1 && q == c.overflow != 0) ||
              (t == BtreePage && !b.leaf && q == c.child)
      ensures CellsRefer(b, n', q, t) ==> RefersTo(b, q, t)
    {
    }
    forall q, t | CellsRefer(b, n', q, t)
      ensures q in ptr' && ptr'[q] == PtrEntry(t, pgno)
    {
      assert RefersTo(b, q, t);
    }
    forall q | !CellsRefer(b, n', q, Overflow1) && !CellsRefer(b, n', q, BtreePage)
      ensures SameEntry(ptr, ptr', q)
    {
      assert !CellsRefer(b, n, q, Overflow1) && !CellsRefer(b, n, q, BtreePage);
      assert SameEntry(ptr, ptr1, q);
    }
  }

  /** setChildPtrmaps */
  method SetChildPtrmaps(bt: BtShared, pgno: nat)
    requires pgno in bt.pages && bt.pages[pgno].Btree? && TypesAgree(bt.pages[pgno])
    modifies bt`ptr
    ensures Repointed(old(bt.ptr), bt.ptr, bt.pages[pgno], pgno)
  {
    var b := bt.pages[pgno];
    var i := 0;
    while i < |b.cells|
      invariant i <= |b.cells| && Done(old(bt.ptr), bt.ptr, b, i, pgno)
    {
      ghost var ptr1 := bt.ptr;
      if b.cells[i].overflow != 0 {
        PtrmapPut(bt, b.cells[i].overflow, Overflow1, pgno);
      }
      ghost var ptr2 := bt.ptr;
      if !b.leaf {
        PtrmapPut(bt, b.cells[i].child, BtreePage, pgno);
      }
      CellDone(old(bt.ptr), ptr1, ptr2, bt.ptr, b, i, i + 1, pgno);
      i := i + 1;
    }
    ghost var ptr1 := bt.ptr;
    if !b.leaf {
      PtrmapPut(bt, b.right, BtreePage, pgno);
    }
    AllDone(old(bt.ptr), ptr1, bt.ptr, b, pgno);
  }

  lemma AllDone(ptr: Ptrs, ptr1: Ptrs, ptr': Ptrs, b: Body, pgno: nat)
    requires b.Btree? && TypesAgree(b) && Done(ptr, ptr1, b, |b.cells|, pgno)
    requires ptr' == if b.leaf then ptr1 else ptr1[b.right := PtrEntry(BtreePage, pgno)]
    ensures Repointed(ptr, ptr', b, pgno)
  {
    assert !b.leaf ==> RefersTo(b, b.right, BtreePage);
    forall q, t
      ensures RefersTo(b, q, t) <==> CellsRefer(b, |b.cells|, q, t) || (t == BtreePage && !b.leaf && q == b.right)
    {
    }
  }

  /** The kind of page that can hold a pointer of a type. */
  predicate CanHold(b: Body, t: PtrType) {
    match t
    case Overflow2 => b.Overflow?
    case Overflow1 => b.Btree?
    case BtreePage => b.Btree? && !b.leaf
    case _ => false
  }

  /** modifyPagePointer: finds the pointer to page `from` and makes it point to `to`; fails if there
      is none. */
  method ModifyPagePointer(bt: BtShared, p: nat, from: nat, to: nat, eType: PtrType) returns (ok: bool)
    requires p in bt.pages && WellFormed(bt.pages[p]) && TypesAgree(bt.pages[p]) && CanHold(bt.pages[p], eType) &&
             from != 0
    modifies bt`pages
    ensures ok <==> old(RefersTo(bt.pages[p], from, eType))
    ensures bt.pages == if ok then old(bt.pages)[p := RenameBody(old(bt.pages)[p], from, to)] else old(bt.pages)
  {
    var b := bt.pages[p];
    if eType == Overflow2 {
      if b.next != from {
        return false;
      }
      bt.pages := bt.pages[p := b.(next := to)];
      return true;
    }
    var i, nCell := 0, |b.cells|;
    while i < nCell
      invariant i <= nCell
      invariant forall j :: 0 <= j < i ==>
                (if eType == Overflow1 then b.cells[j].overflow else b.cells[j].child) != from
    {
      var c := b.cells[i];
      if eType == Overflow1 {
        if c.overflow != 0 && c.overflow == from {
          CellRenamed(b, i, from, to, eType);
          bt.pages := bt.pages[p := b.(cells := b.cells[i := c.(overflow := to)])];
          return true;
        }
      } else if c.child == from {
        CellRenamed(b, i, from, to, eType);
        bt.pages := bt.pages[p := b.(cells := b.cells[i := c.(child := to)])];
        return true;
      }
      i := i + 1;
    }
    if eType != BtreePage || b.right != from {
      return false;
    }
    RightRenamed(b, from, to);
    bt.pages := bt.pages[p := b.(right := to)];
    return true;
  }

  lemma CellRenamed(b: Body, i: nat, from: nat, to: nat, t: PtrType)
    requires b.Btree? && i < |b.cells| && WellFormed(b) && TypesAgree(b) && from != 0
    requires (t == Overflow1 && b.cells[i].overflow == from) || (t == BtreePage && !b.leaf && b.cells[i].child == from)
    ensures RefersTo(b, from, t)
    ensures var c := b.cells[i];
            RenameBody(b, from, to) ==
              b.(cells := b.cells[i := if t == Overflow1 then c.(overflow := to) else c.(child := to)])
  {
    assert RefersTo(b, from, t);
    forall j | 0 <= j < |b.cells| && j != i
      ensures RenameCell(b.cells[j], from, to) == b.cells[j]
    {
      assert b.cells[j].overflow == from ==> RefersTo(b, from, Overflow1);
      assert !b.leaf && b.cells[j].child == from ==> RefersTo(b, from, BtreePage);
      if j < i {
        assert DifferentRefs(b.leaf, b.cells[j], b.cells[i]);
      } else {
        assert DifferentRefs(b.leaf, b.cells[i], b.cells[j]);
      }
    }
    assert b.cells[i].overflow == from ==> RefersTo(b, from, Overflow1);
    assert !b.leaf && b.cells[i].child == from ==> RefersTo(b, from, BtreePage);
    assert !b.leaf && b.right == from ==> RefersTo(b, from, BtreePage);
  }

  lemma RightRenamed(b: Body, from: nat, to: nat)
    requires b.Btree? && !b.leaf && WellFormed(b) && TypesAgree(b) && from != 0 && b.right == from
    ensures RefersTo(b, from, BtreePage) && RenameBody(b, from, to) == b.(right := to)
  {
    assert RefersTo(b, from, BtreePage);
    forall j | 0 <= j < |b.cells|
      ensures RenameCell(b.cells[j], from, to) == b.cells[j]
    {
      assert b.cells[j].overflow == from ==> RefersTo(b, from, Overflow1);
    }
  }

  /** relocatePage: moves page d to the unused page number f. The pages are then the old ones with d
      called f, and the pointer map is again their exact inverse; a root's entry is left to the caller. */
  method RelocatePage(bt: BtShared, d: nat, eType: PtrType, iPtrPage: nat, f: nat) returns (ok: bool)
    requires CanMove(bt.pages, bt.ptr, d, f) && bt.ptr[d] == PtrEntry(eType, iPtrPage)
    modifies bt`pages, bt`ptr
    ensures ok && bt.pages == RenamePages(old(bt.pages), d, f)
    ensures Exact(bt.pages, if eType == RootPage then bt.ptr[f := PtrEntry(eType, iPtrPage)] else bt.ptr)
    ensures forall q :: q !in old(bt.pages) && q != f ==> SameEntry(old(bt.ptr), bt.ptr, q)
    ensures forall q :: q in old(bt.pages) && q > 1 ==> q in bt.ptr && bt.ptr[q].eType == old(bt.ptr)[q].eType
  {
    hide RefersTo, WellFormed, RenameBody, RenamePages, Referred;
    ghost var pages, ptr := bt.pages, bt.ptr;
    EntryKind(pages, ptr, d);
    bt.pages := (bt.pages - {d})[f := bt.pages[d]];
    RepointChildren(bt, f, eType);
    ghost var ptr1 := bt.ptr;
    RelocationExact(pages, ptr, d, f, ptr1);
    OthersKept(pages, ptr, d, f, ptr1);
    MovedBodies(pages, ptr, d, f);
    ok := true;
    if eType != RootPage {
      ok := ModifyPagePointer(bt, iPtrPage, d, f, eType);
      PtrmapPut(bt, f, eType, iPtrPage);
    }
    assert bt.pages == RenamePages(pages, d, f);
  }

  /** The moved page, now at f, is named as parent by everything it refers to. */
  method RepointChildren(bt: BtShared, f: nat, eType: PtrType)
    requires f in bt.pages && TypesAgree(bt.pages[f]) &&
             (bt.pages[f].Btree? <==> eType == BtreePage || eType == RootPage)
    modifies bt`ptr
    ensures Repointed(old(bt.ptr), bt.ptr, bt.pages[f], f)
  {
    if eType == BtreePage || eType == RootPage {
      SetChildPtrmaps(bt, f);
    } else {
      OverflowRefers(bt.pages[f]);
      var nextOvfl := bt.pages[f].next;
      if nextOvfl != 0 {
        PtrmapPut(bt, nextOvfl, Overflow2, f);
      }
    }
  }

  lemma EntryKind(pages: Pages, ptr: Ptrs, d: nat)
    requires Exact(pages, ptr) && d in pages && d > 1
    ensures TypesAgree(pages[d]) && (pages[d].Btree? <==> ptr[d].eType == BtreePage || ptr[d].eType == RootPage)
    ensures ptr[d].eType != RootPage ==>
              var p := ptr[d].parent;
              p in pages && p != d && RefersTo(pages[p], d, ptr[d].eType) && CanHold(pages[p], ptr[d].eType) &&
                TypesAgree(pages[p]) && WellFormed(pages[p])
  {
    hide RefersTo;
    assert EntryReal(pages, d, ptr[d]);
    BodyTypes(pages, ptr, d);
    if ptr[d].eType != RootPage {
      HoldsPointer(pages[ptr[d].parent], d, ptr[d].eType);
      BodyTypes(pages, ptr, ptr[d].parent);
    }
  }

  lemma OthersKept(pages: Pages, ptr: Ptrs, d: nat, f: nat, ptr1: Ptrs)
    requires CanMove(pages, ptr, d, f) && Repointed(ptr, ptr1, pages[d], f)
    ensures forall q :: q !in pages ==> SameEntry(ptr, ptr1, q)
    ensures forall q :: q in pages && q > 1 ==> q in ptr1 && ptr1[q].eType == ptr[q].eType
  {
    forall q | q in pages && q > 1
      ensures q in ptr1 && ptr1[q].eType == ptr[q].eType
    {
      SameKind(pages, ptr, d, f, ptr1, q);
    }
    forall q | q !in pages
      ensures SameEntry(ptr, ptr1, q)
    {
      NotReferred(pages, ptr, d, q);
    }
  }

  lemma OverflowRefers(b: Body)
    requires b.Overflow?
    ensures forall q, t :: RefersTo(b, q, t) <==> t == Overflow2 && q == b.next && q != 0
  {
  }

  lemma HoldsPointer(b: Body, q: nat, t: PtrType)
    requires RefersTo(b, q, t)
    ensures CanHold(b, t)
  {
  }

  lemma BodyTypes(pages: Pages, ptr: Ptrs, p: nat)
    requires RefsRecorded(pages, ptr) && p in pages
    ensures TypesAgree(pages[p])
  {
    hide RefersTo;
  }

  /** In the pages moved so far only the page that refers to d differs from the renamed pages. */
  lemma MovedBodies(pages: Pages, ptr: Ptrs, d: nat, f: nat)
    requires CanMove(pages, ptr, d, f)
    ensures forall p :: p in pages && p != d && !Referred(pages[p], d) ==> RenamePages(pages, d, f)[p] == pages[p]
    ensures RenamePages(pages, d, f)[f] == pages[d]
    ensures RenamePages(pages, d, f).Keys == pages.Keys - {d} + {f}
    ensures forall p :: p in pages && p != d ==> RenamePages(pages, d, f)[p] == RenameBody(pages[p], d, f)
    ensures forall p :: p in pages && p != ptr[d].parent ==> !Referred(pages[p], d)
    ensures ptr[d].eType == RootPage ==> forall p :: p in pages ==> !Referred(pages[p], d)
  {
    forall p | p in pages && !Referred(pages[p], d)
      ensures RenameBody(pages[p], d, f) == pages[p]
    {
      Untouched(pages[p], d, f);
    }
    NoSelf(pages, ptr, d);
    Untouched(pages[d], d, f);
    forall p | p in pages && (p != ptr[d].parent || ptr[d].eType == RootPage)
      ensures !Referred(pages[p], d)
    {
    }
  }

  lemma NoSelf(pages: Pages, ptr: Ptrs, d: nat)
    requires RefsRecorded(pages, ptr) && d in pages
    ensures !Referred(pages[d], d)
  {
  }

  lemma Untouched(b: Body, d: nat, f: nat)
    requires WellFormed(b) && d != 0 && !Referred(b, d)
    ensures RenameBody(b, d, f) == b
  {
    if b.Btree? {
      forall i | 0 <= i < |b.cells|
        ensures RenameCell(b.cells[i], d, f) == b.cells[i]
      {
        assert b.cells[i].overflow == d ==> RefersTo(b, d, Overflow1);
        assert !b.leaf && b.cells[i].child == d ==> RefersTo(b, d, BtreePage);
      }
    }
  }
}
