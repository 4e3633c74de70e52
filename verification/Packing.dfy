/**
 The two passes of balance_nonroot that decide how many sibling pages are needed and
 which cells go on which page (misc/sqlite/btree.c, lines 5104-5149).

 Only sizes matter here: `sz[i]` is the size of the i-th cell, and a cell costs two more
 bytes for its slot in the cell pointer array. `cnt[i]` is the index of the first cell to
 the right of page i. With `leafData` the next page starts at that very cell; otherwise that
 cell is the divider that goes up to the parent and the next page starts one further on.
 */
module Packing {

  /** Bytes taken by cells lo..hi-1, pointers included. */
  function Weight(sz: seq<nat>, lo: nat, hi: nat): nat
    requires lo <= hi <= |sz|
  {
    if lo == hi then 0 else Weight(sz, lo, hi - 1) + sz[hi - 1] + 2
  }

  function Skip(leafData: bool): nat {
    if leafData then 0 else 1
  }

  /** Index of the first cell of page i. */
  function Start(cnt: seq<nat>, leafData: bool, i: nat): nat
    requires i <= |cnt|
  {
    if i == 0 then 0 else cnt[i - 1] + Skip(leafData)
  }

  /** Bytes taken by the cells of page i, or 0 when page i is not a range of cells. */
  function PageWeight(sz: seq<nat>, leafData: bool, cnt: seq<nat>, i: nat): nat
    requires i < |cnt|
  {
    if Start(cnt, leafData, i) <= cnt[i] <= |sz| then Weight(sz, Start(cnt, leafData, i), cnt[i]) else 0
  }

  ghost predicate PageFits(sz: seq<nat>, usable: nat, leafData: bool, cnt: seq<nat>, i: nat)
    requires i < |cnt|
  {
    && Start(cnt, leafData, i) <= cnt[i] <= |sz|
    && PageWeight(sz, leafData, cnt, i) <= usable
  }

  /** Any division of the cells, in order, into pages that fit. Pages may be empty. */
  ghost predicate InOrderPacking(sz: seq<nat>, usable: nat, leafData: bool, cnt: seq<nat>) {
    && |cnt| > 0
    && cnt[|cnt| - 1] == |sz|
    && forall i :: 0 <= i < |cnt| ==> PageFits(sz, usable, leafData, cnt, i)
  }

  ghost predicate NoPageEmpty(leafData: bool, cnt: seq<nat>) {
    forall i {:trigger Start(cnt, leafData, i)} :: 0 <= i < |cnt| ==> Start(cnt, leafData, i) < cnt[i]
  }

  /** Page i could not have taken one more cell. */
  ghost predicate PageFull(sz: seq<nat>, usable: nat, leafData: bool, cnt: seq<nat>, i: nat)
    requires i < |cnt|
  {
    && Start(cnt, leafData, i) <= cnt[i] < |sz|
    && Weight(sz, Start(cnt, leafData, i), cnt[i] + 1) > usable
  }

  ghost predicate LeftPacked(sz: seq<nat>, usable: nat, leafData: bool, cnt: seq<nat>) {
    && InOrderPacking(sz, usable, leafData, cnt)
    && forall i :: 0 <= i < |cnt| - 1 ==> PageFull(sz, usable, leafData, cnt, i)
  }

  /** The sizes the left-to-right pass records: on every page but the last it counts the pointer
      of the cell that did not fit. */
  ghost predicate Recorded(sz: seq<nat>, leafData: bool, szNew: seq<nat>, cnt: seq<nat>) {
    && |szNew| == |cnt|
    && forall i :: 0 <= i < |cnt| ==>
         szNew[i] == PageWeight(sz, leafData, cnt, i) + if i < |cnt| - 1 then 2 else 0
  }

  /** What the limits on local payload guarantee of the cells being balanced. */
  ghost predicate CellsFit(sz: seq<nat>, usable: nat, leafData: bool) {
    && (forall i :: 0 <= i < |sz| ==> sz[i] + 2 <= usable)
    && (!leafData ==> forall i :: 0 < i < |sz| ==> sz[i - 1] + sz[i] + 4 <= usable)
  }

  lemma {:induction false} WeightSplit(sz: seq<nat>, lo: nat, mid: nat, hi: nat)
    requires lo <= mid <= hi <= |sz|
    ensures Weight(sz, lo, hi) == Weight(sz, lo, mid) + Weight(sz, mid, hi)
    decreases hi
  {
    if mid < hi {
      WeightSplit(sz, lo, mid, hi - 1);
    }
  }

  lemma WeightFront(sz: seq<nat>, lo: nat, hi: nat)
    requires lo < hi <= |sz|
    ensures Weight(sz, lo, hi) == sz[lo] + 2 + Weight(sz, lo + 1, hi)
  {
    WeightSplit(sz, lo, lo + 1, hi);
    assert Weight(sz, lo, lo + 1) == Weight(sz, lo, lo) + sz[lo] + 2;
  }

  lemma AppendKeepsPages(sz: seq<nat>, usable: nat, leafData: bool, cnt0: seq<nat>, cnt: seq<nat>)
    requires |cnt| == |cnt0| + 1 && cnt[..|cnt0|] == cnt0
    ensures Start(cnt, leafData, |cnt0|) == Start(cnt0, leafData, |cnt0|)
    ensures forall j :: 0 <= j < |cnt0| ==>
              && PageWeight(sz, leafData, cnt, j) == PageWeight(sz, leafData, cnt0, j)
              && (PageFits(sz, usable, leafData, cnt, j) <==> PageFits(sz, usable, leafData, cnt0, j))
              && (PageFull(sz, usable, leafData, cnt, j) <==> PageFull(sz, usable, leafData, cnt0, j))
  {
    assert forall j :: 0 <= j < |cnt0| ==> cnt[j] == cnt0[j];
  }

  /** The left-to-right pass (btree.c:5104-5118). */
  method GreedyPack(sz: seq<nat>, usable: nat, leafData: bool) returns (szNew: seq<nat>, cntNew: seq<nat>)
    requires leafData ==> forall i :: 0 <= i < |sz| ==> sz[i] + 2 <= usable
    ensures LeftPacked(sz, usable, leafData, cntNew)
    ensures Recorded(sz, leafData, szNew, cntNew)
  {
    var i, subtotal := 0, 0;
    szNew, cntNew := [], [];
    while i < |sz|
      invariant |szNew| == |cntNew|
      invariant Start(cntNew, leafData, |cntNew|) <= i <= |sz|
      invariant subtotal == Weight(sz, Start(cntNew, leafData, |cntNew|), i) <= usable
      invariant forall j :: 0 <= j < |cntNew| ==> PageFits(sz, usable, leafData, cntNew, j)
      invariant forall j :: 0 <= j < |cntNew| ==> PageFull(sz, usable, leafData, cntNew, j)
      invariant forall j :: 0 <= j < |cntNew| ==>
                  szNew[j] == PageWeight(sz, leafData, cntNew, j) + 2
      decreases |sz| - i, if subtotal == 0 then 0 else 1
    {
      ghost var cnt0, start := cntNew, Start(cntNew, leafData, |cntNew|);
      subtotal := subtotal + sz[i] + 2;
      assert subtotal == Weight(sz, start, i + 1);
      if subtotal > usable {
        szNew := szNew + [subtotal - sz[i]];
        cntNew := cntNew + [i];
        if leafData {
          i := i - 1;
        }
        subtotal := 0;
        AppendKeepsPages(sz, usable, leafData, cnt0, cntNew);
      }
      i := i + 1;
    }
    ghost var cnt0 := cntNew;
    szNew := szNew + [subtotal];
    cntNew := cntNew + [|sz|];
    AppendKeepsPages(sz, usable, leafData, cnt0, cntNew);
  }

  /** Where a divider is taken out between pages, every page but the last takes more than `usable` bytes
      together with its divider. */
  lemma {:induction false} LeftPackedDense(sz: seq<nat>, usable: nat, cnt: seq<nat>, i: nat)
    requires LeftPacked(sz, usable, false, cnt) && i < |cnt|
    ensures Start(cnt, false, i) <= |sz| && i * (usable + 1) <= Weight(sz, 0, Start(cnt, false, i))
    decreases i
  {
    if i > 0 {
      LeftPackedDense(sz, usable, cnt, i - 1);
      assert PageFull(sz, usable, false, cnt, i - 1);
      WeightSplit(sz, 0, Start(cnt, false, i - 1), cnt[i - 1] + 1);
      assert i * (usable + 1) == (i - 1) * (usable + 1) + usable + 1;
    }
  }

  /** Page by page, packing to the left reaches at least as far as any other packing. */
  lemma {:induction false} GreedyReachesFurther(
    sz: seq<nat>, usable: nat, leafData: bool, greedy: seq<nat>, other: seq<nat>, i: nat)
    requires LeftPacked(sz, usable, leafData, greedy)
    requires InOrderPacking(sz, usable, leafData, other)
    requires i < |greedy| && i < |other|
    ensures greedy[i] >= other[i]
    decreases i
  {
    if i > 0 {
      GreedyReachesFurther(sz, usable, leafData, greedy, other, i - 1);
    }
    assert PageFits(sz, usable, leafData, other, i);
    if i < |greedy| - 1 && greedy[i] < other[i] {
      var g, o := Start(greedy, leafData, i), Start(other, leafData, i);
      assert PageFull(sz, usable, leafData, greedy, i);
      WeightSplit(sz, o, g, other[i]);
      WeightSplit(sz, g, greedy[i] + 1, other[i]);
    }
  }

  /** No in-order packing uses fewer pages than the left-to-right pass. */
  lemma GreedyUsesFewestPages(sz: seq<nat>, usable: nat, leafData: bool, greedy: seq<nat>, other: seq<nat>)
    requires LeftPacked(sz, usable, leafData, greedy)
    requires InOrderPacking(sz, usable, leafData, other)
    ensures |greedy| <= |other|
  {
    if |greedy| > |other| {
      var last := |other| - 1;
      assert PageFull(sz, usable, leafData, greedy, last);
      GreedyReachesFurther(sz, usable, leafData, greedy, other, last);
    }
  }

  /** Before the right-to-left pass every page but perhaps the last holds a cell, and without
      leafData at least two. */
  lemma LeftPackedPagesNonEmpty(sz: seq<nat>, usable: nat, leafData: bool, cnt: seq<nat>, i: nat)
    requires LeftPacked(sz, usable, leafData, cnt) && CellsFit(sz, usable, leafData)
    requires i < |cnt| - 1
    ensures Start(cnt, leafData, i) + Skip(leafData) < cnt[i]
  {
    var s := Start(cnt, leafData, i);
    assert PageFull(sz, usable, leafData, cnt, i);
    assert Weight(sz, s, s + 1) == Weight(sz, s, s) + sz[s] + 2;
    if s + 1 < |sz| {
      assert Weight(sz, s, s + 2) == Weight(sz, s, s + 1) + sz[s + 1] + 2;
    }
  }

  /** What the right-to-left pass knows of page j once it has reached page i: it fits; only an
      untouched last page may be empty; and up to page i the recorded sizes are still right. */
  ghost predicate PageAdjusting(
    sz: seq<nat>, usable: nat, leafData: bool, szNew: seq<nat>, cnt: seq<nat>, i: nat, j: nat)
    requires i < |szNew| == |cnt| && j < |cnt|
  {
    && PageFits(sz, usable, leafData, cnt, j)
    && (|sz| > 0 && (j < |cnt| - 1 || i < |cnt| - 1 || leafData) ==> Start(cnt, leafData, j) < cnt[j])
    && (j < i == |cnt| - 1 ==> Start(cnt, leafData, j) + Skip(leafData) < cnt[j])
    && (j <= i ==> szNew[j] == PageWeight(sz, leafData, cnt, j) + if j < |cnt| - 1 then 2 else 0)
  }

  ghost predicate Adjusting(
    sz: seq<nat>, usable: nat, leafData: bool, szNew: seq<nat>, cnt: seq<nat>, i: nat)
  {
    && i < |szNew| == |cnt|
    && cnt[|cnt| - 1] == |sz| && (|cnt| > 1 ==> |sz| > 0)
    && forall j :: 0 <= j < |cnt| ==> PageAdjusting(sz, usable, leafData, szNew, cnt, i, j)
  }

  /** What the pass counts for the left page of a boundary b between lo and hi, and for the right one. */
  function LeftSize(sz: seq<nat>, lo: nat, b: nat): nat
    requires lo <= b <= |sz|
  {
    Weight(sz, lo, b) + 2
  }

  function RightSize(sz: seq<nat>, leafData: bool, hi: nat, surplus: nat, b: nat): nat
    requires b + Skip(leafData) <= hi <= |sz|
  {
    Weight(sz, b + Skip(leafData), hi) + surplus
  }

  /** The right page has something, and one more cell moved there would make it the larger one. */
  ghost predicate Even(sz: seq<nat>, leafData: bool, lo: nat, hi: nat, surplus: nat, b: nat) {
    && lo < b && b + Skip(leafData) <= hi <= |sz|
    && RightSize(sz, leafData, hi, surplus, b) > 0
    && RightSize(sz, leafData, hi, surplus, b - 1) > LeftSize(sz, lo, b - 1)
  }

  /** The first such boundary on the way left from `from`. */
  ghost predicate FirstEven(sz: seq<nat>, leafData: bool, lo: nat, hi: nat, surplus: nat, from: nat, b: nat) {
    && b <= from && Even(sz, leafData, lo, hi, surplus, b)
    && forall x :: b < x <= from ==> !Even(sz, leafData, lo, hi, surplus, x)
  }

  /** Between pages i-1 and i, whose right end is settled while the left end is where the first pass
      put it. */
  ghost predicate EvenedAt(sz: seq<nat>, leafData: bool, greedy: seq<nat>, cnt: seq<nat>, i: nat) {
    && 0 < i < |greedy| == |cnt|
    && FirstEven(sz, leafData, Start(greedy, leafData, i - 1), cnt[i], if i < |cnt| - 1 then 2 else 0, greedy[i - 1],
                 cnt[i - 1])
  }

  /** The boundaries both passes lead to. */
  ghost predicate TwoPass(sz: seq<nat>, usable: nat, leafData: bool, cnt: seq<nat>) {
    exists greedy :: TwoPassFrom(sz, usable, leafData, greedy, cnt)
  }

  ghost predicate TwoPassFrom(sz: seq<nat>, usable: nat, leafData: bool, greedy: seq<nat>, cnt: seq<nat>) {
    && LeftPacked(sz, usable, leafData, greedy) && |cnt| == |greedy| && cnt[|cnt| - 1] == |sz|
    && forall i :: 0 < i < |cnt| ==> EvenedAt(sz, leafData, greedy, cnt, i)
  }

  /** The inner loop of the right-to-left pass (btree.c:5140-5146): cells lo..cnt-1 are on the left
      page and cells cnt+Skip..hi-1 on the right one; move cells right while that evens the sizes.
      `surplus` is what the recorded size of the right page counts too many. */
  method ShiftBoundary(sz: seq<nat>, usable: nat, leafData: bool, ghost lo: nat, ghost hi: nat, ghost surplus: nat,
                       left: nat, right: nat, cnt: nat)
    returns (szLeft: nat, szRight: nat, cntNew: nat)
    requires CellsFit(sz, usable, leafData)
    requires lo < cnt && cnt + Skip(leafData) <= hi <= |sz|
    requires left == Weight(sz, lo, cnt) + 2 && Weight(sz, lo, cnt) <= usable
    requires right == Weight(sz, cnt + Skip(leafData), hi) + surplus <= usable + surplus
    requires cnt + Skip(leafData) == hi ==> surplus == 0 && !leafData && lo + 1 < cnt
    ensures lo < cntNew <= cnt && cntNew + Skip(leafData) < hi
    ensures szLeft == Weight(sz, lo, cntNew) + 2 && Weight(sz, lo, cntNew) <= usable
    ensures szRight == Weight(sz, cntNew + Skip(leafData), hi) + surplus <= usable + surplus
    ensures FirstEven(sz, leafData, lo, hi, surplus, cnt, cntNew)
  {
    szLeft, szRight, cntNew := left, right, cnt;
    var r: int := cntNew - 1;
    var d: int := r + Skip(leafData);
    while szRight == 0 || szRight + sz[d] + 2 <= szLeft - (sz[r] + 2)
      invariant lo < cntNew <= cnt && cntNew + Skip(leafData) <= hi
      invariant r == cntNew - 1 && d == r + Skip(leafData)
      invariant szLeft == Weight(sz, lo, cntNew) + 2 && Weight(sz, lo, cntNew) <= usable
      invariant szRight == Weight(sz, cntNew + Skip(leafData), hi) + surplus <= usable + surplus
      invariant cntNew + Skip(leafData) == hi ==> surplus == 0 && !leafData && lo + 1 < cntNew
      invariant forall x :: cntNew < x <= cnt ==> !Even(sz, leafData, lo, hi, surplus, x)
      decreases cntNew
    {
      WeightFront(sz, d, hi);
      szRight := szRight + sz[d] + 2;
      szLeft := szLeft - (sz[r] + 2);
      cntNew := cntNew - 1;
      r := cntNew - 1;
      d := r + Skip(leafData);
    }
    WeightFront(sz, d, hi);
  }

  /** The right-to-left pass (btree.c:5130-5149). */
  method AdjustPack(sz: seq<nat>, usable: nat, leafData: bool, szIn: seq<nat>, cntIn: seq<nat>)
    returns (cntNew: seq<nat>)
    requires CellsFit(sz, usable, leafData)
    requires LeftPacked(sz, usable, leafData, cntIn) && Recorded(sz, leafData, szIn, cntIn)
    ensures |cntNew| == |cntIn|
    ensures InOrderPacking(sz, usable, leafData, cntNew)
    ensures |sz| > 0 ==> NoPageEmpty(leafData, cntNew)
    ensures TwoPassFrom(sz, usable, leafData, cntIn, cntNew)
  {
    var szNew: seq<nat> := szIn;
    cntNew := cntIn;
    var i := |cntNew| - 1;
    AdjustStart(sz, usable, leafData, szNew, cntNew);
    while i > 0
      invariant 0 <= i < |cntIn| == |cntNew|
      invariant Adjusting(sz, usable, leafData, szNew, cntNew, i)
      invariant |sz| > 0 && |cntIn| == 1 ==> NoPageEmpty(leafData, cntNew)
      invariant cntNew[..i] == cntIn[..i]
      invariant forall m :: i < m < |cntNew| ==> EvenedAt(sz, leafData, cntIn, cntNew, m)
    {
      assert i > 1 ==> cntNew[i - 2] == cntNew[..i][i - 2] == cntIn[..i][i - 2];
      assert cntNew[i - 1] == cntNew[..i][i - 1] == cntIn[..i][i - 1];
      ghost var before := cntNew;
      ghost var lo, hi := Start(cntNew, leafData, i - 1), cntNew[i];
      assert PageAdjusting(sz, usable, leafData, szNew, cntNew, i, i - 1);
      assert PageAdjusting(sz, usable, leafData, szNew, cntNew, i, i);
      var szLeft, szRight, boundary := ShiftBoundary(sz, usable, leafData, lo, hi,
        if i < |cntNew| - 1 then 2 else 0, szNew[i - 1], szNew[i], cntNew[i - 1]);
      AdjustStep(sz, usable, leafData, szNew, cntNew, i, boundary, szLeft, szRight);
      szNew := szNew[i := szRight][i - 1 := szLeft];
      cntNew := cntNew[i - 1 := boundary];
      forall m | i - 1 < m < |cntNew|
        ensures EvenedAt(sz, leafData, cntIn, cntNew, m)
      {
        if m > i {
          assert EvenedAt(sz, leafData, cntIn, before, m);
        }
      }
      i := i - 1;
      assert cntNew[..i] == before[..i + 1][..i] == cntIn[..i + 1][..i];
    }
    forall j | 0 <= j < |cntNew|
      ensures PageFits(sz, usable, leafData, cntNew, j)
      ensures |sz| > 0 ==> Start(cntNew, leafData, j) < cntNew[j]
    {
      assert PageAdjusting(sz, usable, leafData, szNew, cntNew, i, j);
    }
  }

  lemma AdjustStart(sz: seq<nat>, usable: nat, leafData: bool, szNew: seq<nat>, cnt: seq<nat>)
    requires CellsFit(sz, usable, leafData)
    requires LeftPacked(sz, usable, leafData, cnt) && Recorded(sz, leafData, szNew, cnt)
    ensures Adjusting(sz, usable, leafData, szNew, cnt, |cnt| - 1)
    ensures |sz| > 0 && |cnt| == 1 ==> NoPageEmpty(leafData, cnt)
  {
    forall j | 0 <= j < |cnt| - 1
      ensures Start(cnt, leafData, j) + Skip(leafData) < cnt[j]
    {
      LeftPackedPagesNonEmpty(sz, usable, leafData, cnt, j);
    }
    if |cnt| > 1 {
      assert PageFull(sz, usable, leafData, cnt, |cnt| - 2);
    }
    var last := |cnt| - 1;
    forall j | 0 <= j < |cnt|
      ensures PageAdjusting(sz, usable, leafData, szNew, cnt, last, j)
    {
      assert PageFits(sz, usable, leafData, cnt, j);
    }
  }

  /** Moving one boundary leaves every page but its two neighbours as it was. */
  lemma AdjustStep(sz: seq<nat>, usable: nat, leafData: bool, szNew0: seq<nat>, cnt0: seq<nat>, i: nat,
                   boundary: nat, szLeft: nat, szRight: nat)
    requires 0 < i < |cnt0| && Adjusting(sz, usable, leafData, szNew0, cnt0, i)
    requires Start(cnt0, leafData, i - 1) < boundary <= cnt0[i - 1]
    requires boundary + Skip(leafData) < cnt0[i] <= |sz|
    requires szLeft == Weight(sz, Start(cnt0, leafData, i - 1), boundary) + 2 <= usable + 2
    requires szRight == Weight(sz, boundary + Skip(leafData), cnt0[i]) + if i < |cnt0| - 1 then 2 else 0
    requires Weight(sz, boundary + Skip(leafData), cnt0[i]) <= usable
    ensures Adjusting(sz, usable, leafData, szNew0[i := szRight][i - 1 := szLeft], cnt0[i - 1 := boundary], i - 1)
  {
    var szNew, cnt := szNew0[i := szRight][i - 1 := szLeft], cnt0[i - 1 := boundary];
    var previous := i - 1;
    forall j | 0 <= j < |cnt|
      ensures PageAdjusting(sz, usable, leafData, szNew, cnt, previous, j)
    {
      assert PageAdjusting(sz, usable, leafData, szNew0, cnt0, i, j);
      assert j != i ==> Start(cnt, leafData, j) == Start(cnt0, leafData, j);
      assert j != i - 1 ==> cnt[j] == cnt0[j];
    }
  }
}
