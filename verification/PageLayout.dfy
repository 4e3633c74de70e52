/**
 How the cell content area of a b-tree page is divided up (misc/sqlite/btreeInt.h:47-204): cells in
 use, freeblocks in ascending order at least four bytes apart, and stray fragments.
 */
module PageLayout {
  import opened Arithmetic

  datatype Region = Region(start: nat, size: nat)

  function End(r: Region): nat {
    r.start + r.size
  }

  predicate Disjoint(a: Region, b: Region) {
    End(a) <= b.start || End(b) <= a.start
  }

  predicate Inside(r: Region, lo: nat, hi: nat) {
    lo <= r.start && End(r) <= hi
  }

  function Total(rs: seq<Region>): nat {
    if rs == [] then 0 else Total(rs[..|rs| - 1]) + rs[|rs| - 1].size
  }

  /** Cells lie in the content area and do not overlap. */
  predicate CellsApart(used: seq<Region>, top: nat, usable: nat) {
    && (forall i :: 0 <= i < |used| ==> Inside(used[i], top, usable) && used[i].size >= 4)
    && (forall i, j :: 0 <= i < j < |used| ==> Disjoint(used[i], used[j]))
  }

  /** Freeblocks ascend, with at least four bytes between them, behind the start of the area. */
  predicate BlocksApart(blocks: seq<Region>, top: nat, usable: nat) {
    && (forall i :: 0 <= i < |blocks| ==> top < blocks[i].start && End(blocks[i]) <= usable && blocks[i].size >= 4)
    && (forall i, j :: 0 <= i < j < |blocks| ==> End(blocks[i]) + 4 <= blocks[j].start)
  }

  predicate NoneOverlap(used: seq<Region>, blocks: seq<Region>) {
    forall i, j :: 0 <= i < |used| && 0 <= j < |blocks| ==> Disjoint(used[i], blocks[j])
  }

  /** Cells, freeblocks and fragments fill the content area exactly. */
  predicate Layout(used: seq<Region>, blocks: seq<Region>, top: nat, usable: nat, nFrag: nat) {
    && top <= usable && CellsApart(used, top, usable) && BlocksApart(blocks, top, usable) && NoneOverlap(used, blocks)
    && Total(used) + Total(blocks) + nFrag == usable - top
  }

  // ---------- Sums ----------

  lemma {:induction false} TotalConcat(a: seq<Region>, b: seq<Region>)
    ensures Total(a + b) == Total(a) + Total(b)
    decreases |b|
  {
    if b == [] {
      assert a + b == a;
    } else {
      assert (a + b)[..|a + b| - 1] == a + b[..|b| - 1];
      TotalConcat(a, b[..|b| - 1]);
    }
  }

  lemma TotalOne(r: Region)
    ensures Total([r]) == r.size
  {
    assert [r][..0] == [];
    assert Total([r][..0]) == 0;
  }

  lemma TotalAround(a: seq<Region>, r: Region, b: seq<Region>)
    ensures Total(a + [r] + b) == Total(a) + r.size + Total(b)
  {
    hide Total;
    TotalConcat(a + [r], b);
    TotalConcat(a, [r]);
    TotalOne(r);
  }

  lemma TotalRemove(rs: seq<Region>, i: nat)
    requires i < |rs|
    ensures Total(rs[..i] + rs[i + 1..]) + rs[i].size == Total(rs)
  {
    hide Total;
    assert rs == rs[..i] + [rs[i]] + rs[i + 1..];
    TotalAround(rs[..i], rs[i], rs[i + 1..]);
    TotalConcat(rs[..i], rs[i + 1..]);
  }

  lemma TotalReplace(rs: seq<Region>, i: nat, r: Region)
    requires i < |rs|
    ensures Total(rs[i := r]) + rs[i].size == Total(rs) + r.size
  {
    hide Total;
    assert rs == rs[..i] + [rs[i]] + rs[i + 1..];
    assert rs[i := r] == rs[..i] + [r] + rs[i + 1..];
    TotalAround(rs[..i], rs[i], rs[i + 1..]);
    TotalAround(rs[..i], r, rs[i + 1..]);
  }

  // ---------- Disjoint regions fit ----------

  predicate Between(lo: int, x: int, hi: int) {
    lo <= x < hi
  }

  function Range(lo: int, hi: int): set<int> {
    set x: int | lo <= x < hi && Between(lo, x, hi)
  }

  function Span(r: Region): set<int> {
    Range(r.start, End(r))
  }

  lemma {:induction false} RangeSize(lo: int, hi: int)
    requires lo <= hi
    ensures |Range(lo, hi)| == hi - lo
    decreases hi - lo
  {
    if lo < hi {
      RangeSize(lo, hi - 1);
      assert Range(lo, hi) == Range(lo, hi - 1) + {hi - 1};
    } else {
      assert Range(lo, hi) == {};
    }
  }

  function Cover(rs: seq<Region>): set<int> {
    if rs == [] then {} else Cover(rs[..|rs| - 1]) + Span(rs[|rs| - 1])
  }

  lemma {:induction false} CoverIs(rs: seq<Region>, x: int)
    ensures x in Cover(rs) <==> exists i :: 0 <= i < |rs| && x in Span(rs[i])
    decreases |rs|
  {
    if rs != [] {
      CoverIs(rs[..|rs| - 1], x);
      var n := |rs| - 1;
      if i :| 0 <= i < |rs| && x in Span(rs[i]) {
        assert i < n ==> rs[..n][i] == rs[i];
      }
    }
  }

  predicate AllDisjoint(rs: seq<Region>) {
    forall i, j :: 0 <= i < j < |rs| ==> Disjoint(rs[i], rs[j])
  }

  lemma {:induction false} CoverSize(rs: seq<Region>)
    requires AllDisjoint(rs)
    ensures |Cover(rs)| == Total(rs)
    decreases |rs|
  {
    if rs != [] {
      var n := |rs| - 1;
      CoverSize(rs[..n]);
      RangeSize(rs[n].start, End(rs[n]));
      LastApart(rs, n);
    }
  }

  lemma LastApart(rs: seq<Region>, n: nat)
    requires AllDisjoint(rs) && n < |rs|
    ensures Cover(rs[..n]) * Span(rs[n]) == {}
  {
    hide Cover;
    forall x | x in Cover(rs[..n])
      ensures x !in Span(rs[n])
    {
      CoverIs(rs[..n], x);
      var i :| 0 <= i < n && x in Span(rs[..n][i]);
      assert Disjoint(rs[i], rs[n]);
    }
  }

  /** Disjoint regions of an area take no more than its bytes. */
  lemma Fits(rs: seq<Region>, lo: nat, hi: nat)
    requires lo <= hi && AllDisjoint(rs) && forall i :: 0 <= i < |rs| ==> Inside(rs[i], lo, hi)
    ensures Total(rs) <= hi - lo
  {
    CoverSize(rs);
    RangeSize(lo, hi);
    forall x | x in Cover(rs)
      ensures x in Range(lo, hi)
    {
      CoverIs(rs, x);
    }
    SubsetSize(Cover(rs), Range(lo, hi));
  }

  /** The fragments are exactly the bytes of the area that neither a cell nor a freeblock covers. */
  lemma FragmentsAreTheRest(used: seq<Region>, blocks: seq<Region>, top: nat, usable: nat, nFrag: nat)
    requires Layout(used, blocks, top, usable, nFrag)
    ensures |Range(top, usable) - Cover(used + blocks)| == nFrag
  {
    var all := used + blocks;
    AllApart(used, blocks, top, usable);
    CoverSize(all);
    TotalConcat(used, blocks);
    RangeSize(top, usable);
    forall x | x in Cover(all)
      ensures x in Range(top, usable)
    {
      CoverIs(all, x);
    }
    assert Cover(all) <= Range(top, usable);
  }

  lemma AllApart(used: seq<Region>, blocks: seq<Region>, top: nat, usable: nat)
    requires CellsApart(used, top, usable) && BlocksApart(blocks, top, usable) && NoneOverlap(used, blocks)
    ensures AllDisjoint(used + blocks) &&
            forall i :: 0 <= i < |used + blocks| ==> Inside((used + blocks)[i], top, usable)
  {
    var all := used + blocks;
    forall i, j | 0 <= i < j < |all|
      ensures Disjoint(all[i], all[j])
    {
      if j >= |used| && i >= |used| {
        assert all[i] == blocks[i - |used|] && all[j] == blocks[j - |used|];
      } else if j >= |used| {
        assert Disjoint(used[i], blocks[j - |used|]);
      }
    }
  }

  // ---------- Changes ----------

  function Without(rs: seq<Region>, k: nat): seq<Region>
    requires k < |rs|
  {
    rs[..k] + rs[k + 1..]
  }

  function With(rs: seq<Region>, k: nat, r: Region): seq<Region>
    requires k <= |rs|
  {
    rs[..k] + [r] + rs[k..]
  }

  lemma WithoutAt(rs: seq<Region>, k: nat)
    requires k < |rs|
    ensures |Without(rs, k)| == |rs| - 1 &&
            forall i :: 0 <= i < |rs| - 1 ==> Without(rs, k)[i] == rs[if i < k then i else i + 1]
  {
  }

  /** One more region in use. */
  lemma OneMoreUsed(used: seq<Region>, r: Region, blocks: seq<Region>, top: nat, usable: nat, nFrag: nat)
    requires top <= usable && CellsApart(used, top, usable) && BlocksApart(blocks, top, usable) &&
             NoneOverlap(used, blocks)
    requires Inside(r, top, usable) && r.size >= 4 && Total(used) + r.size + Total(blocks) + nFrag == usable - top
    requires forall i :: 0 <= i < |used| ==> Disjoint(used[i], r)
    requires forall j :: 0 <= j < |blocks| ==> Disjoint(r, blocks[j])
    ensures Layout(used + [r], blocks, top, usable, nFrag)
  {
    hide Total;
    TotalConcat(used, [r]);
    TotalOne(r);
  }

  /** A freeblock that is only slightly too big is used whole, the rest becoming a fragment. */
  lemma TakeWhole(used: seq<Region>, blocks: seq<Region>, top: nat, usable: nat, nFrag: nat, k: nat, n: nat)
    requires Layout(used, blocks, top, usable, nFrag) && k < |blocks| && 4 <= n <= blocks[k].size
    ensures Layout(used + [Region(blocks[k].start, n)], Without(blocks, k), top, usable, nFrag + blocks[k].size - n)
  {
    hide Total, Without;
    var r, blocks' := Region(blocks[k].start, n), Without(blocks, k);
    TotalWithout(blocks, k);
    WithoutAt(blocks, k);
    forall i, j | 0 <= i < |used| && 0 <= j < |blocks'|
      ensures Disjoint(used[i], blocks'[j])
    {
      assert Disjoint(used[i], blocks[if j < k then j else j + 1]);
    }
    forall i | 0 <= i < |used|
      ensures Disjoint(used[i], r)
    {
      assert Disjoint(used[i], blocks[k]);
    }
    WithoutApart(blocks, top, usable, k);
    OneMoreUsed(used, r, blocks', top, usable, nFrag + blocks[k].size - n);
  }

  lemma TotalWithout(rs: seq<Region>, k: nat)
    requires k < |rs|
    ensures Total(Without(rs, k)) + rs[k].size == Total(rs)
  {
    TotalRemove(rs, k);
  }

  lemma WithoutApart(blocks: seq<Region>, top: nat, usable: nat, k: nat)
    requires BlocksApart(blocks, top, usable) && k < |blocks|
    ensures BlocksApart(Without(blocks, k), top, usable)
  {
    var b := Without(blocks, k);
    forall i, j | 0 <= i < j < |b|
      ensures End(b[i]) + 4 <= b[j].start
    {
      assert b[i] == blocks[if i < k then i else i + 1] && b[j] == blocks[if j < k then j else j + 1];
    }
  }

  /** A freeblock that is big enough gives its last n bytes. */
  lemma TakeTail(used: seq<Region>, blocks: seq<Region>, top: nat, usable: nat, nFrag: nat, k: nat, n: nat)
    requires Layout(used, blocks, top, usable, nFrag) && k < |blocks| && n >= 4 && blocks[k].size >= n + 4
    ensures var b := blocks[k];
            Layout(used + [Region(End(b) - n, n)], blocks[k := Region(b.start, b.size - n)], top, usable, nFrag)
  {
    hide Total;
    var b := blocks[k];
    var r, blocks' := Region(End(b) - n, n), blocks[k := Region(b.start, b.size - n)];
    TotalReplace(blocks, k, blocks'[k]);
    forall i, j | 0 <= i < |used| && 0 <= j < |blocks'|
      ensures Disjoint(used[i], blocks'[j])
    {
      assert Disjoint(used[i], blocks[j]);
    }
    forall i | 0 <= i < |used|
      ensures Disjoint(used[i], r)
    {
      assert Disjoint(used[i], b);
    }
    ShrinkApart(blocks, top, usable, k, b.size - n);
    OneMoreUsed(used, r, blocks', top, usable, nFrag);
  }

  lemma ShrinkApart(blocks: seq<Region>, top: nat, usable: nat, k: nat, size: nat)
    requires BlocksApart(blocks, top, usable) && k < |blocks| && 4 <= size <= blocks[k].size
    ensures BlocksApart(blocks[k := Region(blocks[k].start, size)], top, usable)
  {
  }

  /** The area grows downwards into the gap. */
  lemma TakeGap(used: seq<Region>, blocks: seq<Region>, top: nat, usable: nat, nFrag: nat, n: nat)
    requires Layout(used, blocks, top, usable, nFrag) && 4 <= n <= top
    ensures Layout(used + [Region(top - n, n)], blocks, top - n, usable, nFrag)
  {
    hide Total;
    var r := Region(top - n, n);
    TotalConcat(used, [r]);
    TotalOne(r);
  }

  /** The order of the cells does not matter. */
  lemma Reorder(used: seq<Region>, r: Region, i: nat, blocks: seq<Region>, top: nat, usable: nat, nFrag: nat)
    requires i <= |used| && Layout(used + [r], blocks, top, usable, nFrag)
    ensures Layout(With(used, i, r), blocks, top, usable, nFrag)
  {
    hide Total;
    var a, b := used + [r], With(used, i, r);
    TotalConcat(used, [r]);
    TotalOne(r);
    TotalAround(used[..i], r, used[i..]);
    assert used == used[..i] + used[i..];
    TotalConcat(used[..i], used[i..]);
    forall k | 0 <= k < |b|
      ensures b[k] == a[if k < i then k else if k == i then |used| else k - 1]
    {
    }
    ReorderApart(used, r, i, top, usable);
    forall k, j | 0 <= k < |b| && 0 <= j < |blocks|
      ensures Disjoint(b[k], blocks[j])
    {
      assert Disjoint(a[if k < i then k else if k == i then |used| else k - 1], blocks[j]);
    }
  }

  lemma ReorderApart(used: seq<Region>, r: Region, i: nat, top: nat, usable: nat)
    requires i <= |used| && CellsApart(used + [r], top, usable)
    ensures CellsApart(With(used, i, r), top, usable)
  {
    var a, b := used + [r], With(used, i, r);
    forall k | 0 <= k < |b|
      ensures Inside(b[k], top, usable) && b[k].size >= 4
    {
      assert b[k] == a[if k < i then k else if k == i then |used| else k - 1];
    }
    forall k, m | 0 <= k < m < |b|
      ensures Disjoint(b[k], b[m])
    {
      var k0 := if k < i then k else if k == i then |used| else k - 1;
      var m0 := if m < i then m else if m == i then |used| else m - 1;
      assert b[k] == a[k0] && b[m] == a[m0];
      assert k0 < m0 ==> Disjoint(a[k0], a[m0]);
      assert m0 < k0 ==> Disjoint(a[m0], a[k0]);
    }
  }

  // ---------- Giving space back ----------

  /** Freeblocks in order, perhaps touching. */
  predicate LooseBlocks(blocks: seq<Region>, top: nat, usable: nat) {
    && (forall i :: 0 <= i < |blocks| ==> Inside(blocks[i], top, usable) && blocks[i].size >= 4)
    && (forall i, j :: 0 <= i < j < |blocks| ==> End(blocks[i]) <= blocks[j].start)
  }

  predicate Loose(used: seq<Region>, blocks: seq<Region>, top: nat, usable: nat, nFrag: nat) {
    && top <= usable && CellsApart(used, top, usable) && LooseBlocks(blocks, top, usable) && NoneOverlap(used, blocks)
    && Total(used) + Total(blocks) + nFrag == usable - top
  }

  /** A cell becomes a freeblock, in its place among the others. */
  lemma FreeCell(used: seq<Region>, blocks: seq<Region>, top: nat, usable: nat, nFrag: nat, i: nat, k: nat)
    requires Layout(used, blocks, top, usable, nFrag) && i < |used| && k <= |blocks|
    requires forall j :: 0 <= j < k ==> blocks[j].start < used[i].start
    requires k < |blocks| ==> used[i].start <= blocks[k].start
    ensures Loose(Without(used, i), With(blocks, k, used[i]), top, usable, nFrag)
  {
    hide Total, Without, With;
    var r := used[i];
    TotalWithout(used, i);
    TotalWith(blocks, k, r);
    WithoutAt(used, i);
    FreeCells(used, top, usable, i);
    FreeBlocks(used, blocks, top, usable, i, k);
    FreeOverlap(used, blocks, top, usable, i, k);
  }

  lemma TotalWith(rs: seq<Region>, k: nat, r: Region)
    requires k <= |rs|
    ensures Total(With(rs, k, r)) == Total(rs) + r.size
  {
    hide Total;
    TotalAround(rs[..k], r, rs[k..]);
    assert rs == rs[..k] + rs[k..];
    TotalConcat(rs[..k], rs[k..]);
  }

  lemma FreeCells(used: seq<Region>, top: nat, usable: nat, i: nat)
    requires CellsApart(used, top, usable) && i < |used|
    ensures CellsApart(Without(used, i), top, usable)
  {
    var u := Without(used, i);
    forall a, b | 0 <= a < b < |u|
      ensures Disjoint(u[a], u[b])
    {
      assert u[a] == used[if a < i then a else a + 1] && u[b] == used[if b < i then b else b + 1];
    }
  }

  lemma WithAt(rs: seq<Region>, k: nat, r: Region)
    requires k <= |rs|
    ensures |With(rs, k, r)| == |rs| + 1 && With(rs, k, r)[k] == r
    ensures forall j :: 0 <= j <= |rs| && j != k ==> With(rs, k, r)[j] == rs[if j < k then j else j - 1]
  {
  }

  lemma FreeBlocks(used: seq<Region>, blocks: seq<Region>, top: nat, usable: nat, i: nat, k: nat)
    requires CellsApart(used, top, usable) && BlocksApart(blocks, top, usable) && NoneOverlap(used, blocks) &&
             i < |used| && k <= |blocks|
    requires forall j :: 0 <= j < k ==> blocks[j].start < used[i].start
    requires k < |blocks| ==> used[i].start <= blocks[k].start
    ensures LooseBlocks(With(blocks, k, used[i]), top, usable)
  {
    hide With;
    var r, b := used[i], With(blocks, k, used[i]);
    WithAt(blocks, k, r);
    forall j | 0 <= j < |blocks|
      ensures if j < k then End(blocks[j]) <= r.start else End(r) <= blocks[j].start
    {
      assert Disjoint(used[i], blocks[j]);
      assert j > k ==> End(blocks[k]) + 4 <= blocks[j].start;
    }
    forall x, y | 0 <= x < y < |b|
      ensures End(b[x]) <= b[y].start
    {
    }
  }

  lemma FreeOverlap(used: seq<Region>, blocks: seq<Region>, top: nat, usable: nat, i: nat, k: nat)
    requires CellsApart(used, top, usable) && NoneOverlap(used, blocks) && i < |used| && k <= |blocks|
    ensures NoneOverlap(Without(used, i), With(blocks, k, used[i]))
  {
    hide With, Without;
    var u, b := Without(used, i), With(blocks, k, used[i]);
    WithAt(blocks, k, used[i]);
    WithoutAt(used, i);
    forall x, y | 0 <= x < |u| && 0 <= y < |b|
      ensures Disjoint(u[x], b[y])
    {
      var x0 := if x < i then x else x + 1;
      if y == k {
        assert if x0 < i then Disjoint(used[x0], used[i]) else Disjoint(used[i], used[x0]);
      } else {
        assert Disjoint(used[x0], blocks[if y < k then y else y - 1]);
      }
    }
  }

  /** Freeblock m takes in its successor and the fragment between them. */
  function Merged(blocks: seq<Region>, m: nat): seq<Region>
    requires m + 1 < |blocks| && blocks[m].start <= End(blocks[m + 1])
  {
    blocks[..m] + [Region(blocks[m].start, End(blocks[m + 1]) - blocks[m].start)] + blocks[m + 2..]
  }

  lemma MergedAt(blocks: seq<Region>, m: nat)
    requires m + 1 < |blocks| && blocks[m].start <= End(blocks[m + 1])
    ensures |Merged(blocks, m)| == |blocks| - 1 &&
            Merged(blocks, m)[m] == Region(blocks[m].start, End(blocks[m + 1]) - blocks[m].start)
    ensures forall j :: 0 <= j < |blocks| - 1 && j != m ==> Merged(blocks, m)[j] == blocks[if j < m then j else j + 1]
    ensures Total(Merged(blocks, m)) + blocks[m].size == Total(blocks) + blocks[m + 1].start - blocks[m].start
  {
    hide Total;
    var r := Region(blocks[m].start, End(blocks[m + 1]) - blocks[m].start);
    TotalAround(blocks[..m], r, blocks[m + 2..]);
    assert blocks == blocks[..m] + [blocks[m]] + ([blocks[m + 1]] + blocks[m + 2..]);
    TotalAround(blocks[..m], blocks[m], [blocks[m + 1]] + blocks[m + 2..]);
    TotalConcat([blocks[m + 1]], blocks[m + 2..]);
    TotalOne(blocks[m + 1]);
  }

  /** No cell fits between freeblocks less than four bytes apart. */
  lemma NothingBetween(u: Region, a: Region, b: Region)
    requires u.size >= 4 && a.size > 0 && b.size > 0 && End(a) <= b.start <= End(a) + 3 && Disjoint(u, a) &&
             Disjoint(u, b)
    ensures Disjoint(u, Region(a.start, End(b) - a.start))
  {
  }

  lemma MergeBlocks(used: seq<Region>, blocks: seq<Region>, top: nat, usable: nat, nFrag: nat, m: nat)
    requires Loose(used, blocks, top, usable, nFrag) && m + 1 < |blocks| && blocks[m + 1].start <= End(blocks[m]) + 3
    ensures var frag := blocks[m + 1].start - End(blocks[m]);
            0 <= frag <= nFrag && Loose(used, Merged(blocks, m), top, usable, nFrag - frag)
  {
    hide Total, Merged;
    var b, frag := Merged(blocks, m), blocks[m + 1].start - End(blocks[m]);
    MergedAt(blocks, m);
    forall x, y | 0 <= x < |used| && 0 <= y < |b|
      ensures Disjoint(used[x], b[y])
    {
      if y == m {
        assert Disjoint(used[x], blocks[m]) && Disjoint(used[x], blocks[m + 1]);
        NothingBetween(used[x], blocks[m], blocks[m + 1]);
      } else {
        assert Disjoint(used[x], blocks[if y < m then y else y + 1]);
      }
    }
    MergedLoose(blocks, top, usable, m);
    LooseFits(used, b, top, usable);
  }

  lemma MergedLoose(blocks: seq<Region>, top: nat, usable: nat, m: nat)
    requires LooseBlocks(blocks, top, usable) && m + 1 < |blocks|
    ensures LooseBlocks(Merged(blocks, m), top, usable)
  {
    hide Total, Merged;
    var b := Merged(blocks, m);
    MergedAt(blocks, m);
    forall x, y | 0 <= x < y < |b|
      ensures End(b[x]) <= b[y].start
    {
      assert y > m ==> End(blocks[m + 1]) <= blocks[y + 1].start;
      assert x < m ==> End(blocks[x]) <= blocks[m].start;
      assert End(blocks[if x < m then x else x + 1]) <= blocks[if y < m then y else y + 1].start;
    }
  }

  lemma LooseFits(used: seq<Region>, blocks: seq<Region>, top: nat, usable: nat)
    requires top <= usable && CellsApart(used, top, usable) && LooseBlocks(blocks, top, usable) &&
             NoneOverlap(used, blocks)
    ensures Total(used) + Total(blocks) <= usable - top
  {
    var all := used + blocks;
    forall i, j | 0 <= i < j < |all|
      ensures Disjoint(all[i], all[j])
    {
      if i >= |used| {
        assert End(blocks[i - |used|]) <= blocks[j - |used|].start;
      } else if j >= |used| {
        assert Disjoint(used[i], blocks[j - |used|]);
      }
    }
    TotalConcat(used, blocks);
    Fits(all, top, usable);
  }

  /** The freeblocks up to m are four bytes apart. */
  predicate Settled(blocks: seq<Region>, m: nat) {
    forall i, j :: 0 <= i < j < |blocks| && j <= m ==> End(blocks[i]) + 4 <= blocks[j].start
  }

  lemma MergeSettled(blocks: seq<Region>, m: nat)
    requires m + 1 < |blocks| && blocks[m].start <= End(blocks[m + 1]) && Settled(blocks, m)
    ensures Settled(Merged(blocks, m), m)
  {
    hide Total;
  }

  lemma NextSettled(blocks: seq<Region>, top: nat, usable: nat, m: nat)
    requires LooseBlocks(blocks, top, usable) && m < |blocks| && Settled(blocks, m)
    requires m + 1 < |blocks| ==> End(blocks[m]) + 4 <= blocks[m + 1].start
    ensures Settled(blocks, m + 1)
  {
    forall i | 0 <= i <= m && m + 1 < |blocks|
      ensures End(blocks[i]) + 4 <= blocks[m + 1].start
    {
      assert i < m ==> End(blocks[i]) <= blocks[m].start;
    }
  }

  /** All settled: a freeblock at the very start of the area is given to the gap. */
  lemma PopTop(used: seq<Region>, blocks: seq<Region>, top: nat, usable: nat, nFrag: nat)
    requires Loose(used, blocks, top, usable, nFrag) && Settled(blocks, |blocks|)
    ensures if blocks != [] && blocks[0].start == top then Layout(used, blocks[1..], End(blocks[0]), usable, nFrag)
            else Layout(used, blocks, top, usable, nFrag)
  {
    hide Total;
    if blocks != [] && blocks[0].start == top {
      assert blocks == [blocks[0]] + blocks[1..];
      TotalConcat([blocks[0]], blocks[1..]);
      TotalOne(blocks[0]);
      forall i | 0 <= i < |used|
        ensures End(blocks[0]) <= used[i].start
      {
        assert Disjoint(used[i], blocks[0]);
      }
    } else {
      forall i | 0 <= i < |blocks|
        ensures top < blocks[i].start
      {
        assert i > 0 ==> End(blocks[0]) <= blocks[i].start;
      }
    }
  }
}
