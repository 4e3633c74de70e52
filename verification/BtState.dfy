/**
 The shared state of one database file (misc/sqlite/btreeInt.h: BtShared, page types and pointer-map
 entry types), as far as page allocation and auto-vacuum use it.
 */
module BtState {
  /** PTRMAP_ROOTPAGE, PTRMAP_FREEPAGE, PTRMAP_OVERFLOW1, PTRMAP_OVERFLOW2, PTRMAP_BTREE */
  datatype PtrType = RootPage | FreePage | Overflow1 | Overflow2 | BtreePage

  datatype PtrEntry = PtrEntry(eType: PtrType, parent: nat)

  /** A cell: its left child on an interior page, its first overflow page (0 for none), its data. */
  datatype Cell = Cell(child: nat, overflow: nat, data: seq<int>)

  datatype Body =
    | Btree(leaf: bool, cells: seq<Cell>, right: nat)
    | Overflow(next: nat, data: seq<int>)

  /** A trunk page of the freelist, as words. */
  datatype Trunk = Trunk(pgno: nat, page: seq<nat>)

  class BtShared {
    const usable: nat
    const pending: nat
    const autoVacuum: bool

    /** Pages as 4-byte words, as the freelist sees them. */
    var words: map<nat, seq<nat>>
    /** Page 1 at offsets 32 and 36. */
    var first: nat
    var count: nat
    var nPage: nat
    var nTrunc: nat
    var ptr: map<nat, PtrEntry>
    /** What the pages in use hold. */
    var pages: map<nat, Body>

    /** The trunk pages in order. */
    ghost var trunks: seq<Trunk>

    constructor (usable: nat, pending: nat, autoVacuum: bool)
      ensures this.usable == usable && this.pending == pending && this.autoVacuum == autoVacuum
      ensures first == count == nTrunc == 0 && nPage == 1 && trunks == []
      ensures words == map[1 := seq(usable / 4, _ => 0)] && ptr == map[] && pages == map[1 := Btree(true, [], 0)]
    {
      this.usable, this.pending, this.autoVacuum := usable, pending, autoVacuum;
      words := map[1 := seq(usable / 4, _ => 0)];
      first, count, nPage, nTrunc := 0, 0, 1, 0;
      ptr, pages, trunks := map[], map[1 := Btree(true, [], 0)], [];
    }
  }
}
