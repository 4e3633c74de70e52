/**
 A b-tree page changed in place: cells inserted and dropped, space allocated, freed and defragmented
 (misc/sqlite/btree.c:669-857, 900-1000, 4503-4613). Seen from outside it is a sequence of cells.
 */
module MemPages {
  import opened PageLayout
  import opened PageAlloc
  import opened Arithmetic

  /** Freeblocks behind the start of the area are in order. */
  lemma ApartIsLoose(blocks: seq<Region>, top: nat, usable: nat)
    requires BlocksApart(blocks, top, usable)
    ensures LooseBlocks(blocks, top, usable)
  {
  }

  function CellsOf(data: seq<byte>, cells: seq<Region>): (r: seq<seq<byte>>)
    ensures |r| == |cells|
  {
    seq(|cells|, i requires 0 <= i < |cells| => Bytes(data, cells[i]))
  }

  /** A cell's place does not matter, only what it holds. */
  lemma SameCells(data: seq<byte>, cells: seq<Region>, data': seq<byte>, cells': seq<Region>)
    requires |cells| == |cells'| && forall i :: 0 <= i < |cells| ==> Bytes(data', cells'[i]) == Bytes(data, cells[i])
    ensures CellsOf(data', cells') == CellsOf(data, cells)
  {
  }

  /** A cell that did not go on its page, and its number among all cells when it came. */
  datatype Extra = Extra(cell: seq<byte>, idx: nat)

  const MaxExtras: nat := 5

  /** Each came at a place among the n cells of the page and those before it. */
  ghost predicate Placed(n: nat, extras: seq<Extra>) {
    forall j :: 0 <= j < |extras| ==> extras[j].idx <= n + j
  }

  ghost function WithExtras(cells: seq<seq<byte>>, extras: seq<Extra>): (all: seq<seq<byte>>)
    ensures Placed(|cells|, extras) ==> |all| == |cells| + |extras|
    decreases |extras|
  {
    if extras == [] then cells
    else
      var all, e := WithExtras(cells, extras[..|extras| - 1]), extras[|extras| - 1];
      if e.idx <= |all| then all[..e.idx] + [e.cell] + all[e.idx..] else all
  }

  lemma NoExtras(cells: seq<seq<byte>>)
    ensures WithExtras(cells, []) == cells
  {
  }

  lemma OneMoreExtra(cells: seq<seq<byte>>, extras: seq<Extra>, e: Extra)
    requires Placed(|cells|, extras) && e.idx <= |cells| + |extras|
    ensures WithExtras(cells, extras + [e]) ==
            WithExtras(cells, extras)[..e.idx] + [e.cell] + WithExtras(cells, extras)[e.idx..]
  {
    assert (extras + [e])[..|extras|] == extras;
  }

  /** The last of the first j+1. */
  lemma LastExtra(cells: seq<seq<byte>>, extras: seq<Extra>, j: nat)
    requires Placed(|cells|, extras) && j < |extras|
    ensures var all, e := WithExtras(cells, extras[..j]), extras[j];
            |all| == |cells| + j && WithExtras(cells, extras[..j + 1]) == all[..e.idx] + [e.cell] + all[e.idx..]
  {
    assert extras[..j + 1] == extras[..j] + [extras[j]];
    OneMoreExtra(cells, extras[..j], extras[j]);
  }

  class MemPage {
    const usable: nat
    const cellOffset: nat
    var data: seq<byte>
    /** The header: first freeblock, start of the content area, fragmented bytes. */
    var first: nat
    var top: nat
    var nFrag: nat
    /** The cell pointers, each with the size of its cell. */
    var cells: seq<Region>
    /** MemPage.nFree */
    var nFree: int

    /** MemPage.aOvfl: cells that did not go on the page, until it is balanced. */
    var overflow: seq<Extra>

    ghost var blocks: seq<Region>

    /** The page with n cell pointers, and these regions in use. */
    ghost predicate Core(used: seq<Region>, n: nat)
      reads this
    {
      && 512 <= usable <= 32768 && 8 <= cellOffset && |data| == usable
      && cellOffset + 2 * n <= top && nFrag <= 62
      && Layout(used, blocks, top, usable, nFrag) && Chain(data, first, blocks)
    }

    /** Fragments, freeblocks and the gap. */
    ghost function FreeBytes(n: nat): int
      reads this
    {
      nFrag + Total(blocks) + top - (cellOffset + 2 * n)
    }

    ghost predicate Valid()
      reads this
    {
      Core(cells, |cells|) && nFree == FreeBytes(|cells|) && overflow == []
    }

    /** As Valid, or with cells waiting beside the page. */
    ghost predicate Held()
      reads this
    {
      if overflow == [] then Valid() else Core(cells, |cells|) && nFree == 0 && Placed(|cells|, overflow)
    }

    /** What the cells hold. */
    ghost function CellBytes(): seq<seq<byte>>
      reads this
    {
      CellsOf(data, cells)
    }

    /** All cells of the page, those beside it included. */
    ghost function AllCells(): seq<seq<byte>>
      reads this
    {
      WithExtras(CellBytes(), overflow)
    }

    /** zeroPage */
    constructor (usable: nat, cellOffset: nat)
      requires 512 <= usable <= 32768 && 8 <= cellOffset <= 112
      ensures Valid() && CellBytes() == [] && this.usable == usable && this.cellOffset == cellOffset &&
              nFree == usable - cellOffset
    {
      this.usable, this.cellOffset := usable, cellOffset;
      data := seq(usable, _ => 0);
      first, top, nFrag, cells, blocks := 0, usable, 0, [], [];
      nFree, overflow := usable - cellOffset, [];
    }

    /** The first of allocateSpace's three ways: freeblock k, reached through the link at `addr`, is
        used whole or gives its tail. */
    method UseBlock(addr: nat, pc: nat, n: nat, ghost k: nat) returns (idx: nat)
      requires Core(cells, |cells|) && k < |blocks| && blocks[k].start == pc &&
               addr == (if k == 0 then 0 else blocks[k - 1].start)
      requires 4 <= n <= blocks[k].size && nFrag < 60
      modifies this`data, this`first, this`nFrag, this`blocks
      ensures idx > 0 && Core(cells + [Region(idx, n)], |cells|) && Kept(old(data), data, cells)
      ensures FreeBytes(|cells|) == old(FreeBytes(|cells|)) - n
    {
      hide Total, Layout, Chain;
      Parts(cells);
      HeaderAt(data, first, blocks, k);
      var size := Get2(data, pc + 2);
      if size < n + 4 {
        var next := Get2(data, pc);
        ChainUnlink(data, first, blocks, top, k, next);
        TakeWhole(cells, blocks, top, usable, nFrag, k, n);
        TotalWithout(blocks, k);
        if addr == 0 {
          first := next;
        } else {
          CellsKept(data, addr, next, cells, blocks, k - 1);
          data := Put2(data, addr, next);
        }
        nFrag := nFrag + size - n;
        blocks := Without(blocks, k);
        return pc;
      } else {
        ChainResize(data, first, blocks, top, k, size - n);
        TakeTail(cells, blocks, top, usable, nFrag, k, n);
        TotalReplace(blocks, k, Region(pc, size - n));
        CellsKept(data, pc + 2, size - n, cells, blocks, k);
        data := Put2(data, pc + 2, size - n);
        blocks := blocks[k := Region(pc, size - n)];
        return pc + size - n;
      }
    }

    lemma Parts(used: seq<Region>)
      requires Core(used, |cells|)
      ensures top <= usable && CellsApart(used, top, usable) && LooseBlocks(blocks, top, usable) &&
              NoneOverlap(used, blocks)
      ensures forall i :: 0 <= i < |blocks| ==> top < blocks[i].start
      ensures Total(used) + Total(blocks) + nFrag == usable - top
    {
      ApartIsLoose(blocks, top, usable);
    }

    /** The first freeblock of at least n bytes, and the link to it. */
    method FindBlock(n: nat) returns (addr: nat, pc: nat, ghost k: nat)
      requires Core(cells, |cells|)
      ensures k <= |blocks| && (pc == 0 <==> k == |blocks|) && addr == (if k == 0 then 0 else blocks[k - 1].start)
      ensures k < |blocks| ==> pc == blocks[k].start && blocks[k].size >= n
      ensures forall j :: 0 <= j < k ==> blocks[j].size < n
    {
      hide Total, Layout, Chain;
      Parts(cells);
      addr, pc, k := 0, first, 0;
      FirstLink(data, first, blocks);
      while pc > 0
        invariant k <= |blocks| && pc == (if k < |blocks| then blocks[k].start else 0)
        invariant addr == (if k == 0 then 0 else blocks[k - 1].start)
        invariant forall j :: 0 <= j < k ==> blocks[j].size < n
        decreases |blocks| - k
      {
        HeaderAt(data, first, blocks, k);
        var size := Get2(data, pc + 2);
        if size >= n {
          return;
        }
        addr := pc;
        pc := Get2(data, pc);
        k := k + 1;
      }
    }

    /** defragmentPage: the cells move to the end of the page, all free space to the gap. */
    method Defragment()
      requires Core(cells, |cells|)
      modifies this`data, this`first, this`top, this`nFrag, this`cells, this`blocks
      ensures Core(cells, |cells|) && CellBytes() == old(CellBytes()) && |cells| == |old(cells)|
      ensures blocks == [] && nFrag == 0 && FreeBytes(|cells|) == old(FreeBytes(|cells|))
    {
      hide Total, Layout, Chain, CellsOf, Moved, CellsApart;
      Parts(cells);
      ghost var cells0, top0 := cells, top;
      var temp := data;
      var brk := usable;
      var i := 0;
      NoneMoved(data, cells, usable);
      while i < |cells|
        invariant i <= |cells| == |cells0| && |data| == usable && brk + Total(cells0[..i]) == usable && top0 <= brk
        invariant Moved(temp, cells0, data, cells, i, brk, usable)
      {
        var pc, size := cells[i].start, cells[i].size;
        MovedSoFar(temp, cells0, data, cells, i, brk, usable);
        StillRoom(cells0, i, top0, usable);
        MoveOne(temp, cells0, data, cells, i, brk, top0, usable);
        brk := brk - size;
        data := data[..brk] + temp[pc..pc + size] + data[brk + size..];
        cells := cells[i := Region(brk, size)];
        i := i + 1;
      }
      AllMoved(temp, cells0, data, cells, brk, usable);
      top, first, nFrag, blocks := brk, 0, 0, [];
      Packed(cells, top, usable);
      EmptyChain(data);
    }

    /** allocateSpace: n bytes of the page, or 0 if it has not that many free. */
    method AllocateSpace(nByte: nat) returns (idx: nat)
      requires Valid()
      modifies this
      ensures overflow == []
      ensures var n := if nByte < 4 then 4 else nByte;
              if old(nFree) < n then idx == 0 && Valid() && cells == old(cells) && data == old(data) &&
                nFree == old(nFree) && top == old(top)
              else
                && idx > 0 && Core(cells + [Region(idx, n)], |cells|) && nFree == old(nFree) - n == FreeBytes(|cells|)
                && |cells| == |old(cells)| && CellBytes() == old(CellBytes())
                && (old(top) >= cellOffset + 2 * |cells| + n + 2 && old(nFree) >= n + 2 ==>
                    top >= cellOffset + 2 * |cells| + 2)
    {
      hide Total, Layout, Chain, CellsOf;
      var n := if nByte < 4 then 4 else nByte;
      if nFree < n {
        return 0;
      }
      nFree := nFree - n;
      ghost var data0 := data;
      if nFrag < 60 {
        ghost var k;
        var addr, pc;
        addr, pc, k := FindBlock(n);
        if pc > 0 {
          idx := UseBlock(addr, pc, n, k);
          SameCells(data0, cells, data, cells);
          return;
        }
      }
      if nFrag >= 60 || cellOffset + 2 * |cells| + n > top {
        Defragment();
        EmptyTotal();
      }
      TakeGap(cells, blocks, top, usable, nFrag, n);
      top := top - n;
      return top;
    }

    /** As Core, while freeblocks may still touch one another or the start of the area. */
    ghost predicate LooseCore(used: seq<Region>, n: nat)
      reads this
    {
      && 512 <= usable <= 32768 && 8 <= cellOffset && |data| == usable
      && cellOffset + 2 * n <= top && nFrag <= 62
      && Loose(used, blocks, top, usable, nFrag) && Chain(data, first, blocks)
    }

    /** Where a freed region belongs in the chain: behind the link at `addr`, before `pbegin`. */
    method FindPlace(start: nat) returns (addr: nat, pbegin: nat, ghost k: nat)
      requires Core(cells, |cells|)
      ensures k <= |blocks| && pbegin == (if k < |blocks| then blocks[k].start else 0)
      ensures addr == (if k == 0 then 0 else blocks[k - 1].start)
      ensures (forall j :: 0 <= j < k ==> blocks[j].start < start) && (k < |blocks| ==> start <= blocks[k].start)
    {
      hide Total, Layout, Chain;
      Parts(cells);
      addr, pbegin, k := 0, first, 0;
      FirstLink(data, first, blocks);
      while pbegin < start && pbegin > 0
        invariant k <= |blocks| && pbegin == (if k < |blocks| then blocks[k].start else 0)
        invariant addr == (if k == 0 then 0 else blocks[k - 1].start)
        invariant forall j :: 0 <= j < k ==> blocks[j].start < start
        decreases |blocks| - k
      {
        HeaderAt(data, first, blocks, k);
        addr := pbegin;
        pbegin := Get2(data, pbegin);
        k := k + 1;
      }
    }

    /** freeSpace, first part: the freed region is chained in, in order. */
    method ChainIn(start: nat, size: nat, ghost i: nat)
      requires Core(cells, |cells|) && i < |cells| && cells[i] == Region(start, size)
      modifies this`data, this`first, this`blocks
      ensures LooseCore(Without(cells, i), |cells|) && Kept(old(data), data, Without(cells, i))
      ensures FreeBytes(|cells|) == old(FreeBytes(|cells|)) + size
    {
      hide Total, Layout, Loose, Chain, Kept, With, Without, LooseBlocks;
      Parts(cells);
      ghost var k;
      var addr, pbegin;
      addr, pbegin, k := FindPlace(start);
      ghost var r := Region(start, size);
      FreeCell(cells, blocks, top, usable, nFrag, i, k);
      LooseParts(Without(cells, i), With(blocks, k, r), top, usable, nFrag);
      LinkInside(blocks, top, usable, k);
      ChainInsert(data, first, blocks, top, k, r, pbegin);
      TotalWith(blocks, k, r);
      ChainInKept(data, cells, blocks, top, usable, i, k, r, pbegin);
      if addr == 0 {
        first := start;
      } else {
        data := Put2(data, addr, start);
      }
      data := Put2(data, start, pbegin);
      data := Put2(data, start + 2, size);
      blocks := With(blocks, k, r);
    }

    /** Freeblock m, at pbegin, takes in the next one, at pnext, and the fragment between them. */
    method JoinNext(pbegin: nat, psize: nat, pnext: nat, ghost m: nat, ghost used: seq<Region>, ghost n: nat)
      requires LooseCore(used, n) && m + 1 < |blocks| && blocks[m] == Region(pbegin, psize) &&
               blocks[m + 1].start == pnext <= pbegin + psize + 3
      modifies this`data, this`nFrag, this`blocks
      ensures LooseCore(used, n) && blocks == Merged(old(blocks), m) && Kept(old(data), data, used)
      ensures nFrag + Total(blocks) == old(nFrag + Total(blocks))
    {
      hide Total, Loose, Chain, Kept, Merged;
      LooseParts(used, blocks, top, usable, nFrag);
      HeaderAt(data, first, blocks, m + 1);
      ghost var r, next := Region(pbegin, End(blocks[m + 1]) - pbegin), Next(blocks, m + 1);
      MergeBlocks(used, blocks, top, usable, nFrag, m);
      MergedAt(blocks, m);
      ChainMerge(data, first, blocks, top, m, r, next);
      KeptSame(data, used);
      MergeKept(data, data, used, blocks, m, r, next);
      nFrag := nFrag - (pnext - (pbegin + psize));
      var next', size' := Get2(data, pnext), Get2(data, pnext + 2);
      data := Put2(data, pbegin, next');
      data := Put2(data, pbegin + 2, pnext + size' - pbegin);
      blocks := Merged(blocks, m);
    }

    /** freeSpace, second part: freeblocks less than four bytes apart are joined. */
    method Coalesce(ghost used: seq<Region>, ghost n: nat)
      requires LooseCore(used, n)
      modifies this`data, this`nFrag, this`blocks
      ensures LooseCore(used, n) && Settled(blocks, |blocks|) && Kept(old(data), data, used)
      ensures FreeBytes(n) == old(FreeBytes(n))
    {
      hide Total, Loose, Chain, Kept, Merged;
      var addr, pbegin := 0, first;
      ghost var m := 0;
      FirstLink(data, first, blocks);
      KeptSame(data, used);
      while pbegin > 0
        invariant LooseCore(used, n) && m <= |blocks| && Settled(blocks, m)
        invariant pbegin == (if m < |blocks| then blocks[m].start else 0)
        invariant Kept(old(data), data, used) && FreeBytes(n) == old(FreeBytes(n))
        decreases |blocks| - m
      {
        LooseParts(used, blocks, top, usable, nFrag);
        HeaderAt(data, first, blocks, m);
        var pnext := Get2(data, pbegin);
        var psize := Get2(data, pbegin + 2);
        if pbegin + psize + 3 >= pnext && pnext > 0 {
          ghost var data1 := data;
          MergedAt(blocks, m);
          MergeSettled(blocks, m);
          JoinNext(pbegin, psize, pnext, m, used, n);
          KeptTrans(old(data), data1, data, used);
        } else {
          NextSettled(blocks, top, usable, m);
          addr := pbegin;
          pbegin := pnext;
          m := m + 1;
        }
      }
      LooseParts(used, blocks, top, usable, nFrag);
    }

    /** freeSpace, last part: a freeblock at the start of the content area joins the gap. */
    method DropFirst(ghost used: seq<Region>, ghost n: nat)
      requires LooseCore(used, n) && Settled(blocks, |blocks|)
      modifies this`first, this`top, this`blocks
      ensures Core(used, n) && FreeBytes(n) == old(FreeBytes(n))
    {
      hide Total, Layout, Loose, Chain;
      LooseParts(used, blocks, top, usable, nFrag);
      PopTop(used, blocks, top, usable, nFrag);
      FirstLink(data, first, blocks);
      if first == top {
        HeaderAt(data, first, blocks, 0);
        PopChain(data, first, blocks);
        var pbegin := first;
        first := Get2(data, pbegin);
        top := top + Get2(data, pbegin + 2);
        blocks := blocks[1..];
      }
    }

    /** freeSpace: the region of cell i is free again. */
    method FreeSpace(start: nat, size: nat, ghost i: nat)
      requires Core(cells, |cells|) && i < |cells| && cells[i] == Region(start, size) && nFree == FreeBytes(|cells|)
      modifies this`data, this`first, this`top, this`nFrag, this`blocks, this`nFree
      ensures Core(Without(cells, i), |cells|) && Kept(old(data), data, Without(cells, i))
      ensures nFree == FreeBytes(|cells|) == old(nFree) + size
    {
      hide Layout, Loose, Chain, Kept, Total, Without;
      ghost var data0 := data;
      ChainIn(start, size, i);
      ghost var data1 := data;
      nFree := nFree + size;
      Coalesce(Without(cells, i), |cells|);
      KeptTrans(data0, data1, data, Without(cells, i));
      DropFirst(Without(cells, i), |cells|);
    }

    /** dropCell */
    method DropCell(i: nat)
      requires Valid() && i < |cells|
      modifies this
      ensures Valid() && CellBytes() == old(CellBytes())[..i] + old(CellBytes())[i + 1..]
      ensures nFree == old(nFree) + |old(CellBytes())[i]| + 2
    {
      hide Layout, Chain, Total;
      ghost var data0, cells0 := data, cells;
      Parts(cells);
      var pc, sz := cells[i].start, cells[i].size;
      FreeSpace(pc, sz, i);
      CellsDropped(data0, cells0, data, i);
      cells := cells[..i] + cells[i + 1..];
      nFree := nFree + 2;
    }

    /** insertCell: the cell becomes number i of all cells; on the page, if there is room for it and its
        pointer and no cell waits already, else beside it. */
    method InsertCell(i: nat, cell: seq<byte>) returns (ok: bool)
      requires Held() && i <= |cells| + |overflow| && |cell| >= 4 && |overflow| < MaxExtras
      modifies this
      ensures ok <==> old(overflow) == [] && |cell| + 2 <= old(nFree)
      ensures Held() && overflow == (if ok then [] else old(overflow) + [Extra(cell, i)])
      ensures nFree == if ok then old(nFree) - |cell| - 2 else 0
      ensures !ok ==> CellBytes() == old(CellBytes()) && cells == old(cells)
      ensures AllCells() == old(AllCells())[..i] + [cell] + old(AllCells())[i..]
    {
      hide Layout, Chain, Total, CellsOf, WithExtras;
      if overflow != [] || |cell| + 2 > nFree {
        OneMoreExtra(CellBytes(), overflow, Extra(cell, i));
        overflow := overflow + [Extra(cell, i)];
        nFree := 0;
        return false;
      }
      NoExtras(CellBytes());
      PutCell(i, cell);
      NoExtras(CellBytes());
      return true;
    }

    /** findOverflowCell: cell i of all cells. */
    method FindOverflowCell(i: nat) returns (cell: seq<byte>)
      requires Held() && i < |cells| + |overflow|
      ensures |AllCells()| == |cells| + |overflow| && cell == AllCells()[i]
    {
      hide Layout, Chain, Total, WithExtras;
      NoExtras(CellBytes());
      var k, j := i, |overflow|;
      assert overflow[..j] == overflow;
      while j > 0
        invariant 0 <= j <= |overflow| && 0 <= k < |cells| + j
        invariant |WithExtras(CellBytes(), overflow[..j])| == |cells| + j
        invariant WithExtras(CellBytes(), overflow[..j])[k] == AllCells()[i]
      {
        j := j - 1;
        LastExtra(CellBytes(), overflow, j);
        if overflow[j].idx <= k {
          if overflow[j].idx == k {
            return overflow[j].cell;
          }
          k := k - 1;
        }
      }
      Parts(cells);
      assert overflow[..0] == [] && Inside(cells[k], top, usable);
      return data[cells[k].start..cells[k].start + cells[k].size];
    }

    /** The page's own part of insertCell. */
    method PutCell(i: nat, cell: seq<byte>)
      requires Valid() && i <= |cells| && 4 <= |cell| <= nFree - 2
      modifies this
      ensures Valid() && nFree == old(nFree) - |cell| - 2
      ensures CellBytes() == old(CellBytes())[..i] + [cell] + old(CellBytes())[i..]
    {
      hide Layout, Chain, Total, CellsOf;
      var sz := |cell|;
      if cellOffset + 2 * |cells| + 2 + sz > top {
        Defragment();
        EmptyTotal();
      }
      var idx := AllocateSpace(sz);
      ghost var r, data0, cells0 := Region(idx, sz), data, cells;
      Parts(cells + [r]);
      CellWritten(data0, cells0, blocks, first, top, usable, i, cell, r);
      Reorder(cells0, r, i, blocks, top, usable, nFrag);
      nFree := nFree - 2;
      data := data[..idx] + cell + data[idx + sz..];
      cells := cells[..i] + [Region(idx, sz)] + cells[i..];
    }

    /** sqlite3BtreeInitPage: the space it adds up is what the page keeps count of, and it finds nothing
        wrong with the page, unless it is an empty child of a page other than page 1. `parent` is the
        number of the parent page, or 0. */
    method InitPage(pageSize: nat, parent: nat) returns (ok: bool, n: int)
      requires Valid() && usable <= pageSize
      ensures ok <==> cells != [] || parent <= 1
      ensures ok ==> n == nFree
    {
      hide Layout, Chain;
      Parts(cells);
      NotTooMany(cells, top, usable);
      if |cells| > MaxCells(pageSize) || (|cells| == 0 && parent != 0 && parent != 1) {
        return false, 0;
      }
      ok, n := true, nFrag + top - (cellOffset + 2 * |cells|);
      var pc := first;
      ghost var k := 0;
      FirstLink(data, first, blocks);
      assert blocks[..0] == [];
      while pc > 0
        invariant k <= |blocks| && pc == (if k < |blocks| then blocks[k].start else 0)
        invariant n == nFrag + top - (cellOffset + 2 * |cells|) + Total(blocks[..k])
        decreases |blocks| - k
      {
        HeaderAt(data, first, blocks, k);
        BlockOk(cells, blocks, top, usable, nFrag, k);
        if pc > usable - 4 {
          return false, n;
        }
        var next, size := Get2(data, pc), Get2(data, pc + 2);
        if next > 0 && next <= pc + size + 3 {
          return false, n;
        }
        n := n + size;
        pc := next;
        k := k + 1;
      }
      assert blocks[..k] == blocks;
      if n >= usable {
        return false, n;
      }
    }
  }

  /** MX_CELL */
  function MaxCells(pageSize: nat): int {
    (pageSize - 8) / 6
  }

  /** Cells take at least four bytes each. */
  lemma {:induction false} NotTooMany(cells: seq<Region>, top: nat, usable: nat)
    requires CellsApart(cells, top, usable) && top <= usable
    ensures 4 * |cells| <= usable - top
  {
    FourEach(cells);
    Fits(cells, top, usable);
  }

  lemma {:induction false} FourEach(cells: seq<Region>)
    requires forall i :: 0 <= i < |cells| ==> cells[i].size >= 4
    ensures 4 * |cells| <= Total(cells)
  {
    if cells != [] {
      FourEach(cells[..|cells| - 1]);
    }
  }

  lemma EmptyTotal()
    ensures Total([]) == 0
  {
  }

  /** The first i cells are packed against the end of the page with their bytes, the others wait. */
  ghost predicate Moved(temp: seq<byte>, cells0: seq<Region>, data: seq<byte>, cells: seq<Region>, i: nat, brk: nat,
                        usable: nat) {
    && i <= |cells| == |cells0| && |data| == usable && CellsApart(cells[..i], brk, usable)
    && (forall k :: i <= k < |cells| ==> cells[k] == cells0[k])
    && (forall k :: 0 <= k < i ==> cells[k].size == cells0[k].size && Bytes(data, cells[k]) == Bytes(temp, cells0[k]))
  }

  lemma NoneMoved(data: seq<byte>, cells: seq<Region>, usable: nat)
    requires |data| == usable
    ensures Total(cells[..0]) == 0 && Moved(data, cells, data, cells, 0, usable, usable)
  {
  }

  lemma MovedSoFar(temp: seq<byte>, cells0: seq<Region>, data: seq<byte>, cells: seq<Region>, i: nat, brk: nat,
                   usable: nat)
    requires Moved(temp, cells0, data, cells, i, brk, usable) && i < |cells|
    ensures cells[i] == cells0[i]
  {
  }

  lemma MoveOne(temp: seq<byte>, cells0: seq<Region>, data: seq<byte>, cells: seq<Region>, i: nat, brk: nat, top: nat,
                usable: nat)
    requires Moved(temp, cells0, data, cells, i, brk, usable) && i < |cells| && CellsApart(cells0, top, usable)
    requires |temp| == usable && cells0[i].size <= brk <= usable
    ensures var c := cells0[i];
            && End(c) <= usable
            && var data' := data[..brk - c.size] + temp[c.start..End(c)] + data[brk..];
            Moved(temp, cells0, data', cells[i := Region(brk - c.size, c.size)], i + 1, brk - c.size, usable)
  {
    var c := cells0[i];
    assert Inside(c, top, usable);
    var b := brk - c.size;
    var data' := data[..b] + temp[c.start..End(c)] + data[brk..];
    var cells' := cells[i := Region(b, c.size)];
    forall k | 0 <= k < i
      ensures cells'[k].size == cells0[k].size && Bytes(data', cells'[k]) == Bytes(temp, cells0[k])
    {
      assert cells[..i][k] == cells[k];
      HigherKept(data, data', cells[k], brk);
    }
    assert data'[b..brk] == temp[c.start..End(c)];
    assert cells'[..i] == cells[..i];
    NextCell(cells', i, b, c.size, usable);
  }

  lemma AllMoved(temp: seq<byte>, cells0: seq<Region>, data: seq<byte>, cells: seq<Region>, brk: nat, usable: nat)
    requires Moved(temp, cells0, data, cells, |cells|, brk, usable) && brk + Total(cells0[..|cells|]) == usable
    ensures CellsApart(cells, brk, usable) && brk + Total(cells) == usable && Total(cells) == Total(cells0) &&
            CellsOf(data, cells) == CellsOf(temp, cells0)
  {
    assert cells[..|cells|] == cells && cells0[..|cells|] == cells0;
    SameTotal(cells, cells0);
    SameCells(temp, cells0, data, cells);
  }

  lemma EmptyChain(data: seq<byte>)
    ensures Chain(data, 0, [])
  {
  }

  /** The cells not yet moved still fit below. */
  lemma StillRoom(cells: seq<Region>, i: nat, top: nat, usable: nat)
    requires CellsApart(cells, top, usable) && top <= usable && i < |cells|
    ensures Total(cells[..i + 1]) == Total(cells[..i]) + cells[i].size <= usable - top
  {
    assert cells[..i + 1][..i] == cells[..i];
    Fits(cells[..i + 1], top, usable);
  }

  lemma HigherKept(data: seq<byte>, data': seq<byte>, r: Region, from: nat)
    requires |data| == |data'| && from <= r.start && forall i :: from <= i < |data| ==> data'[i] == data[i]
    ensures Bytes(data', r) == Bytes(data, r)
  {
  }

  lemma NextCell(cells: seq<Region>, i: nat, brk: nat, size: nat, usable: nat)
    requires i < |cells| && cells[i] == Region(brk, size) && size >= 4 && brk + size <= usable &&
             CellsApart(cells[..i], brk + size, usable)
    ensures CellsApart(cells[..i + 1], brk, usable)
  {
    var c := cells[..i + 1];
    forall k | 0 <= k < i
      ensures Inside(c[k], brk + size, usable) && c[k].size >= 4
    {
      assert cells[..i][k] == c[k];
    }
    forall j, k | 0 <= j < k < i
      ensures Disjoint(c[j], c[k])
    {
      assert cells[..i][j] == c[j] && cells[..i][k] == c[k];
    }
  }

  lemma {:induction false} SameTotal(a: seq<Region>, b: seq<Region>)
    requires |a| == |b| && forall i :: 0 <= i < |a| ==> a[i].size == b[i].size
    ensures Total(a) == Total(b)
    decreases |a|
  {
    if a != [] {
      SameTotal(a[..|a| - 1], b[..|b| - 1]);
    }
  }

  lemma Packed(cells: seq<Region>, top: nat, usable: nat)
    requires CellsApart(cells, top, usable) && top + Total(cells) == usable
    ensures Layout(cells, [], top, usable, 0)
  {
  }

  lemma FirstLink(data: seq<byte>, first: nat, blocks: seq<Region>)
    requires Chain(data, first, blocks)
    ensures first == if blocks == [] then 0 else blocks[0].start
    ensures blocks != [] ==> first > 0
  {
    if blocks != [] {
      HeaderAt(data, first, blocks, 0);
    }
  }

  lemma LooseParts(used: seq<Region>, blocks: seq<Region>, top: nat, usable: nat, nFrag: nat)
    requires Loose(used, blocks, top, usable, nFrag)
    ensures top <= usable && LooseBlocks(blocks, top, usable) && NoneOverlap(used, blocks)
  {
  }

  lemma KeptSame(data: seq<byte>, used: seq<Region>)
    ensures Kept(data, data, used)
  {
  }

  lemma KeptTrans(a: seq<byte>, b: seq<byte>, c: seq<byte>, used: seq<Region>)
    requires Kept(a, b, used) && Kept(b, c, used)
    ensures Kept(a, c, used)
  {
  }

  /** Writing the header of a freeblock leaves every cell. */
  lemma HeaderKept(data: seq<byte>, used: seq<Region>, r: Region, next: nat)
    requires End(r) <= |data| && 4 <= r.size < 65536 && next < 65536 && r.start > 0
    requires forall i :: 0 <= i < |used| ==> Disjoint(used[i], r)
    ensures Kept(data, WriteHeader(data, r, next), used)
  {
    hide WriteHeader;
    var data' := WriteHeader(data, r, next);
    forall i | 0 <= i < |used|
      ensures Bytes(data', used[i]) == Bytes(data, used[i])
    {
      assert Disjoint(used[i], r);
    }
  }

  lemma ChainInKept(data: seq<byte>, cells: seq<Region>, blocks: seq<Region>, top: nat, usable: nat, i: nat, k: nat,
                    r: Region, next: nat)
    requires |data| == usable <= 32768 && i < |cells| && cells[i] == r && k <= |blocks| && NoneOverlap(cells, blocks)
    requires CellsApart(cells, top, usable) && top > 0 && LooseBlocks(blocks, top, usable) && next < 65536
    ensures Kept(data, WriteHeader(LinkedData(data, blocks, k, r.start), r, next), Without(cells, i))
  {
    hide Kept, WriteHeader, Without;
    var used := Without(cells, i);
    WithoutAt(cells, i);
    assert Inside(cells[i], top, usable);
    forall x | 0 <= x < |used|
      ensures Disjoint(used[x], r)
    {
      var x0 := if x < i then x else x + 1;
      assert if x0 < i then Disjoint(cells[x0], cells[i]) else Disjoint(cells[i], cells[x0]);
    }
    KeptSame(data, used);
    if k > 0 {
      LinkKept(data, cells, blocks, i, k, r.start);
    }
    var data1 := LinkedData(data, blocks, k, r.start);
    HeaderKept(data1, used, r, next);
    KeptTrans(data, data1, WriteHeader(data1, r, next), used);
  }

  lemma LinkKept(data: seq<byte>, cells: seq<Region>, blocks: seq<Region>, i: nat, k: nat, v: nat)
    requires i < |cells| && 0 < k <= |blocks| && NoneOverlap(cells, blocks) && End(blocks[k - 1]) <= |data| &&
             blocks[k - 1].size >= 4 && v < 65536
    ensures Kept(data, LinkedData(data, blocks, k, v), Without(cells, i))
  {
    var used := Without(cells, i);
    WithoutAt(cells, i);
    forall x, y | 0 <= x < |used| && 0 <= y < |blocks|
      ensures Disjoint(used[x], blocks[y])
    {
      assert Disjoint(cells[if x < i then x else x + 1], blocks[y]);
    }
    CellsKept(data, blocks[k - 1].start, v, used, blocks, k - 1);
  }

  lemma MergeKept(data0: seq<byte>, data: seq<byte>, used: seq<Region>, blocks: seq<Region>, m: nat, r: Region,
                  next: nat)
    requires Kept(data0, data, used) && NoneOverlap(used, blocks) && m < |blocks| && End(r) <= |data| && next < 65536
    requires r.start == blocks[m].start > 0 && 4 <= blocks[m].size <= r.size < 65536
    ensures Kept(data0, WriteHeader(data, r, next), used)
  {
    hide WriteHeader;
    var data' := WriteHeader(data, r, next);
    forall i | 0 <= i < |used|
      ensures Bytes(data', used[i]) == Bytes(data0, used[i])
    {
      assert Disjoint(used[i], blocks[m]);
      assert Bytes(data', used[i]) == Bytes(data, used[i]);
    }
  }

  lemma PopChain(data: seq<byte>, first: nat, blocks: seq<Region>)
    requires Chain(data, first, blocks) && blocks != []
    ensures Chain(data, Get2(data, blocks[0].start), blocks[1..]) &&
            Total(blocks) == blocks[0].size + Total(blocks[1..])
  {
    hide Total;
    HeaderAt(data, first, blocks, 0);
    forall i | 0 <= i < |blocks| - 1
      ensures Header(data, blocks[1..][i], Next(blocks[1..], i))
    {
      HeaderAt(data, first, blocks, i + 1);
      assert Next(blocks[1..], i) == Next(blocks, i + 1);
    }
    assert blocks == [blocks[0]] + blocks[1..];
    TotalConcat([blocks[0]], blocks[1..]);
    TotalOne(blocks[0]);
  }

  lemma LinkInside(blocks: seq<Region>, top: nat, usable: nat, k: nat)
    requires LooseBlocks(blocks, top, usable) && k <= |blocks|
    ensures k > 0 ==> Inside(blocks[k - 1], top, usable) && blocks[k - 1].size >= 4
    ensures k < |blocks| ==> Inside(blocks[k], top, usable)
  {
  }

  lemma BlockOk(used: seq<Region>, blocks: seq<Region>, top: nat, usable: nat, nFrag: nat, k: nat)
    requires Layout(used, blocks, top, usable, nFrag) && k < |blocks|
    ensures End(blocks[k]) <= usable && blocks[k].size >= 4
    ensures k + 1 < |blocks| ==> End(blocks[k]) + 4 <= blocks[k + 1].start
    ensures Total(blocks[..k + 1]) == Total(blocks[..k]) + blocks[k].size
  {
    assert blocks[..k + 1][..k] == blocks[..k];
  }

  lemma CellsDropped(data: seq<byte>, cells: seq<Region>, data': seq<byte>, i: nat)
    requires i < |cells| && Kept(data, data', Without(cells, i)) && End(cells[i]) <= |data|
    ensures CellsOf(data', Without(cells, i)) == CellsOf(data, cells)[..i] + CellsOf(data, cells)[i + 1..]
    ensures |CellsOf(data, cells)[i]| == cells[i].size
  {
    WithoutAt(cells, i);
    var l, r := CellsOf(data', Without(cells, i)), CellsOf(data, cells)[..i] + CellsOf(data, cells)[i + 1..];
    forall k | 0 <= k < |l|
      ensures l[k] == r[k]
    {
      assert Bytes(data', Without(cells, i)[k]) == Bytes(data, Without(cells, i)[k]);
    }
  }

  /** A cell written to a region of its own. */
  lemma CellWritten(data: seq<byte>, cells: seq<Region>, blocks: seq<Region>, first: nat, top: nat, usable: nat, i: nat,
                    cell: seq<byte>, r: Region)
    requires |data| == usable && CellsApart(cells + [r], top, usable) && NoneOverlap(cells + [r], blocks) &&
             Chain(data, first, blocks)
    requires i <= |cells| && r.size == |cell|
    ensures End(r) <= usable
    ensures var data' := data[..r.start] + cell + data[End(r)..];
            Chain(data', first, blocks) &&
              CellsOf(data', With(cells, i, r)) == CellsOf(data, cells)[..i] + [cell] + CellsOf(data, cells)[i..]
  {
    hide Chain, CellsOf;
    var all := cells + [r];
    assert all[|cells|] == r;
    var data' := data[..r.start] + cell + data[End(r)..];
    forall k | 0 <= k < |cells|
      ensures Bytes(data', cells[k]) == Bytes(data, cells[k])
    {
      assert Disjoint(all[k], all[|cells|]) && Inside(all[k], top, usable);
    }
    assert Bytes(data', r) == cell;
    forall k | 0 <= k < |blocks|
      ensures Disjoint(r, blocks[k])
    {
      assert Disjoint(all[|cells|], blocks[k]);
    }
    ChainElsewhere(data, data', first, blocks, r);
    InsertedCells(data, data', cells, i, cell, r);
  }

  lemma ChainElsewhere(data: seq<byte>, data': seq<byte>, first: nat, blocks: seq<Region>, r: Region)
    requires Chain(data, first, blocks) && |data'| == |data| &&
             (forall k :: 0 <= k < |blocks| ==> Disjoint(r, blocks[k]))
    requires forall x :: 0 <= x < |data| && !(r.start <= x < End(r)) ==> data'[x] == data[x]
    ensures Chain(data', first, blocks)
  {
    hide Next;
    forall k | 0 <= k < |blocks|
      ensures Header(data', blocks[k], Next(blocks, k))
    {
      assert Header(data, blocks[k], Next(blocks, k)) && Disjoint(r, blocks[k]);
    }
  }

  lemma InsertedCells(data: seq<byte>, data': seq<byte>, cells: seq<Region>, i: nat, cell: seq<byte>, r: Region)
    requires i <= |cells| && Bytes(data', r) == cell &&
             forall k :: 0 <= k < |cells| ==> Bytes(data', cells[k]) == Bytes(data, cells[k])
    ensures CellsOf(data', With(cells, i, r)) == CellsOf(data, cells)[..i] + [cell] + CellsOf(data, cells)[i..]
  {
    WithAt(cells, i, r);
    var a, b := CellsOf(data', With(cells, i, r)), CellsOf(data, cells)[..i] + [cell] + CellsOf(data, cells)[i..];
    forall k | 0 <= k < |a|
      ensures a[k] == b[k]
    {
    }
  }
}
