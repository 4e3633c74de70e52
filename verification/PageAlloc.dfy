/**
 The allocator inside a b-tree page (misc/sqlite/btree.c:669-857, 945-995, 4503-4613). Freeblocks are
 chained through their own first four bytes: the offset of the next one and their size, big-endian.

 The page header and the cell pointer array are fields here; with each cell pointer stands the size
 of its cell, which the source recomputes from the cell.
 */
module PageAlloc {
  import opened PageLayout
  import opened Arithmetic

  // ---------- The chain of freeblocks ----------

  function Get2(data: seq<byte>, a: nat): nat
    requires a + 2 <= |data|
  {
    var hi: int := data[a];
    hi * 256 + data[a + 1]
  }

  function Put2(data: seq<byte>, a: nat, v: nat): (data': seq<byte>)
    requires a + 2 <= |data| && v < 65536
    ensures |data'| == |data| && Get2(data', a) == v
    ensures forall i :: 0 <= i < |data| && i != a && i != a + 1 ==> data'[i] == data[i]
  {
    data[a := v / 256][a + 1 := v % 256]
  }

  function Head(blocks: seq<Region>): nat {
    if blocks == [] then 0 else blocks[0].start
  }

  function Next(blocks: seq<Region>, i: nat): nat {
    if i + 1 < |blocks| then blocks[i + 1].start else 0
  }

  /** The first four bytes of a freeblock. */
  predicate Header(data: seq<byte>, b: Region, next: nat) {
    b.start > 0 && End(b) <= |data| && b.size >= 4 && Get2(data, b.start) == next && Get2(data, b.start + 2) == b.size
  }

  predicate Chain(data: seq<byte>, first: nat, blocks: seq<Region>) {
    first == Head(blocks) && forall i :: 0 <= i < |blocks| ==> Header(data, blocks[i], Next(blocks, i))
  }

  /** The bytes of a region. */
  function Bytes(data: seq<byte>, r: Region): seq<byte> {
    if End(r) <= |data| then data[r.start..End(r)] else []
  }

  /** A write of two bytes leaves what lies elsewhere. */
  lemma Elsewhere(data: seq<byte>, a: nat, v: nat, r: Region)
    requires a + 2 <= |data| && v < 65536 && (End(r) <= a || a + 2 <= r.start)
    ensures Bytes(Put2(data, a, v), r) == Bytes(data, r)
  {
  }

  lemma OtherHeader(data: seq<byte>, a: nat, v: nat, b: Region, next: nat)
    requires a + 2 <= |data| && v < 65536 && Header(data, b, next) && (End(b) <= a || a + 2 <= b.start)
    ensures Header(Put2(data, a, v), b, next)
  {
  }

  /** Every region of `used` holds the same bytes. */
  predicate Kept(data: seq<byte>, data': seq<byte>, used: seq<Region>) {
    |data| == |data'| && forall i :: 0 <= i < |used| ==> Bytes(data', used[i]) == Bytes(data, used[i])
  }

  /** A write inside a freeblock leaves every cell. */
  lemma CellsKept(data: seq<byte>, a: nat, v: nat, used: seq<Region>, blocks: seq<Region>, k: nat)
    requires NoneOverlap(used, blocks) && k < |blocks| && Inside(Region(a, 2), blocks[k].start, End(blocks[k]))
    requires End(blocks[k]) <= |data| && v < 65536
    ensures Kept(data, Put2(data, a, v), used)
  {
    forall i | 0 <= i < |used|
      ensures Bytes(Put2(data, a, v), used[i]) == Bytes(data, used[i])
    {
      assert Disjoint(used[i], blocks[k]);
      Elsewhere(data, a, v, used[i]);
    }
  }

  /** Freeblock k gets another size. */
  lemma ChainResize(data: seq<byte>, first: nat, blocks: seq<Region>, top: nat, k: nat, size: nat)
    requires Chain(data, first, blocks) && LooseBlocks(blocks, top, |data|) && k < |blocks| &&
             4 <= size <= blocks[k].size && size < 65536
    ensures Chain(Put2(data, blocks[k].start + 2, size), first, blocks[k := Region(blocks[k].start, size)])
  {
    var data', blocks' := Put2(data, blocks[k].start + 2, size), blocks[k := Region(blocks[k].start, size)];
    forall i | 0 <= i < |blocks'|
      ensures Header(data', blocks'[i], Next(blocks', i))
    {
      HeaderAt(data, first, blocks, i);
      assert Next(blocks', i) == Next(blocks, i);
      if i != k {
        OrderOf(blocks, top, |data|, i, k);
        OtherHeader(data, blocks[k].start + 2, size, blocks[i], Next(blocks, i));
      }
    }
  }

  lemma HeaderAt(data: seq<byte>, first: nat, blocks: seq<Region>, i: nat)
    requires Chain(data, first, blocks) && i < |blocks|
    ensures Header(data, blocks[i], Next(blocks, i))
  {
  }

  lemma OrderOf(blocks: seq<Region>, top: nat, usable: nat, i: nat, k: nat)
    requires LooseBlocks(blocks, top, usable) && i < |blocks| && k < |blocks| && i != k
    ensures if i < k then End(blocks[i]) <= blocks[k].start else End(blocks[k]) <= blocks[i].start
  {
  }

  /** The link to freeblock k: in the header if k is 0, else in the freeblock before it. */
  function LinkedFirst(first: nat, k: nat, v: nat): nat {
    if k == 0 then v else first
  }

  function LinkedData(data: seq<byte>, blocks: seq<Region>, k: nat, v: nat): (data': seq<byte>)
    requires k <= |blocks| && v < 65536 && (k > 0 ==> End(blocks[k - 1]) <= |data| && blocks[k - 1].size >= 4)
    ensures |data'| == |data|
  {
    if k == 0 then data else Put2(data, blocks[k - 1].start, v)
  }

  /** Freeblock k is taken out of the chain. */
  lemma ChainUnlink(data: seq<byte>, first: nat, blocks: seq<Region>, top: nat, k: nat, v: nat)
    requires Chain(data, first, blocks) && LooseBlocks(blocks, top, |data|) && k < |blocks| && v == Next(blocks, k) &&
             v < 65536
    ensures Chain(LinkedData(data, blocks, k, v), LinkedFirst(first, k, v), Without(blocks, k))
  {
    var data', blocks' := LinkedData(data, blocks, k, v), Without(blocks, k);
    forall i | 0 <= i < |blocks'|
      ensures Header(data', blocks'[i], Next(blocks', i))
    {
      UnlinkedHeader(data, first, blocks, top, k, v, i);
    }
  }

  lemma UnlinkedHeader(data: seq<byte>, first: nat, blocks: seq<Region>, top: nat, k: nat, v: nat, i: nat)
    requires Chain(data, first, blocks) && LooseBlocks(blocks, top, |data|) && k < |blocks| && v == Next(blocks, k) &&
             v < 65536
    requires i < |blocks| - 1
    ensures Header(LinkedData(data, blocks, k, v), Without(blocks, k)[i], Next(Without(blocks, k), i))
  {
    hide Chain;
    var i0 := if i < k then i else i + 1;
    assert Without(blocks, k)[i] == blocks[i0];
    HeaderAt(data, first, blocks, i0);
    if i + 1 == k {
      assert Next(Without(blocks, k), i) == v;
    } else {
      assert Next(Without(blocks, k), i) == Next(blocks, i0);
      if k > 0 {
        OrderOf(blocks, top, |data|, i0, k - 1);
        OtherHeader(data, blocks[k - 1].start, v, blocks[i0], Next(blocks, i0));
      }
    }
  }

  /** The two words at the start of a freeblock. */
  function WriteHeader(data: seq<byte>, r: Region, next: nat): (data': seq<byte>)
    requires End(r) <= |data| && r.size >= 4 && r.size < 65536 && next < 65536 && r.start > 0
    ensures |data'| == |data| && Header(data', r, next)
    ensures forall i :: 0 <= i < |data| && !(r.start <= i < r.start + 4) ==> data'[i] == data[i]
  {
    Put2(Put2(data, r.start, next), r.start + 2, r.size)
  }

  /** Region r is put into the chain as freeblock k. */
  lemma ChainInsert(data: seq<byte>, first: nat, blocks: seq<Region>, top: nat, k: nat, r: Region, next: nat)
    requires Chain(data, first, blocks) && k <= |blocks| && LooseBlocks(With(blocks, k, r), top, |data|) && top > 0 &&
             |data| < 65536
    requires next == if k < |blocks| then blocks[k].start else 0
    requires k > 0 ==> End(blocks[k - 1]) <= |data| && blocks[k - 1].size >= 4
    ensures Inside(r, top, |data|) && r.size >= 4
    ensures Chain(WriteHeader(LinkedData(data, blocks, k, r.start), r, next), LinkedFirst(first, k, r.start),
                  With(blocks, k, r))
  {
    var b := With(blocks, k, r);
    assert b[k] == r && (k < |blocks| ==> b[k + 1] == blocks[k]);
    var data' := WriteHeader(LinkedData(data, blocks, k, r.start), r, next);
    forall i | 0 <= i < |b|
      ensures Header(data', b[i], Next(b, i))
    {
      InsertedHeader(data, first, blocks, top, k, r, next, i);
    }
  }

  lemma InsertedHeader(data: seq<byte>, first: nat, blocks: seq<Region>, top: nat, k: nat, r: Region, next: nat, i: nat)
    requires Chain(data, first, blocks) && k <= |blocks| && LooseBlocks(With(blocks, k, r), top, |data|) && top > 0 &&
             |data| < 65536
    requires next == if k < |blocks| then blocks[k].start else 0
    requires k > 0 ==> End(blocks[k - 1]) <= |data| && blocks[k - 1].size >= 4
    requires i <= |blocks| && Inside(r, top, |data|) && r.size >= 4 && next < 65536
    ensures Header(WriteHeader(LinkedData(data, blocks, k, r.start), r, next), With(blocks, k, r)[i],
                   Next(With(blocks, k, r), i))
  {
    hide Chain, WriteHeader, LinkedData, Header, With;
    var b, data1 := With(blocks, k, r), LinkedData(data, blocks, k, r.start);
    WithAt(blocks, k, r);
    if i != k {
      LinkedHeader(data, first, blocks, top, k, r, i);
      OrderOf(b, top, |data|, i, k);
      SameHeader(data1, WriteHeader(data1, r, next), b[i], Next(b, i), r);
    }
  }

  /** With only the link to r written, all freeblocks but r are as they shall be. */
  lemma LinkedHeader(data: seq<byte>, first: nat, blocks: seq<Region>, top: nat, k: nat, r: Region, i: nat)
    requires Chain(data, first, blocks) && k <= |blocks| && LooseBlocks(With(blocks, k, r), top, |data|) &&
             |data| < 65536
    requires k > 0 ==> End(blocks[k - 1]) <= |data| && blocks[k - 1].size >= 4
    requires i <= |blocks| && i != k && r.start < 65536
    ensures Header(LinkedData(data, blocks, k, r.start), With(blocks, k, r)[i], Next(With(blocks, k, r), i))
  {
    hide Chain, With;
    var b := With(blocks, k, r);
    WithAt(blocks, k, r);
    var i0 := if i < k then i else i - 1;
    HeaderAt(data, first, blocks, i0);
    if i + 1 == k {
      assert Next(b, i) == r.start;
    } else {
      assert Next(b, i) == Next(blocks, i0);
      if k > 0 {
        OrderOf(b, top, |data|, i, k - 1);
        OtherHeader(data, blocks[k - 1].start, r.start, blocks[i0], Next(blocks, i0));
      }
    }
  }

  lemma SameHeader(data: seq<byte>, data': seq<byte>, b: Region, next: nat, r: Region)
    requires |data| == |data'| && Header(data, b, next) && Disjoint(b, r) && r.size >= 4
    requires forall i :: 0 <= i < |data| && !(r.start <= i < r.start + 4) ==> data'[i] == data[i]
    ensures Header(data', b, next)
  {
  }

  /** Freeblock m takes in its successor. */
  lemma ChainMerge(data: seq<byte>, first: nat, blocks: seq<Region>, top: nat, m: nat, r: Region, next: nat)
    requires Chain(data, first, blocks) && LooseBlocks(blocks, top, |data|) && m + 1 < |blocks| && |data| < 65536 &&
             top > 0
    requires r == Region(blocks[m].start, End(blocks[m + 1]) - blocks[m].start) && next == Next(blocks, m + 1)
    ensures End(r) <= |data| && next < 65536
    ensures Chain(WriteHeader(data, r, next), first, Merged(blocks, m))
  {
    hide Total;
    var b := Merged(blocks, m);
    var data' := WriteHeader(data, r, next);
    MergedAt(blocks, m);
    forall i | 0 <= i < |b|
      ensures Header(data', b[i], Next(b, i))
    {
      MergedHeader(data, first, blocks, top, m, r, next, i);
    }
  }

  lemma MergedHeader(data: seq<byte>, first: nat, blocks: seq<Region>, top: nat, m: nat, r: Region, next: nat, i: nat)
    requires Chain(data, first, blocks) && LooseBlocks(blocks, top, |data|) && m + 1 < |blocks| && |data| < 65536 &&
             top > 0
    requires r == Region(blocks[m].start, End(blocks[m + 1]) - blocks[m].start) && next == Next(blocks, m + 1)
    requires i < |blocks| - 1
    ensures Header(WriteHeader(data, r, next), Merged(blocks, m)[i], Next(Merged(blocks, m), i))
  {
    hide Chain, WriteHeader, Total;
    var b := Merged(blocks, m);
    MergedAt(blocks, m);
    if i == m {
      assert Next(b, i) == next;
    } else {
      var i0 := if i < m then i else i + 1;
      HeaderAt(data, first, blocks, i0);
      assert Next(b, i) == Next(blocks, i0);
      OrderOf(blocks, top, |data|, i0, m);
      SameHeader(data, WriteHeader(data, r, next), b[i], Next(b, i), Region(blocks[m].start, 4));
    }
  }
}
