/**
 sqlite3BtreeMoveto (misc/sqlite/btree.c:3599-3762): a binary search on every page from the root down.
 */
module CursorSearch {
  import opened Cursors

  // ---------- Ordered trees ----------

  predicate Increasing(s: seq<int>) {
    forall i, j :: 0 <= i < j < |s| ==> s[i] < s[j]
  }

  ghost predicate Below(s: seq<int>, k: int) {
    forall x :: x in s ==> x < k
  }

  ghost predicate Above(s: seq<int>, k: int) {
    forall x :: x in s ==> x > k
  }

  /** A separator may be the last entry of its child; an entry of an index is beyond its child. */
  ghost predicate UpTo(s: seq<int>, k: int, leafData: bool) {
    if leafData then forall x :: x in s ==> x <= k else Below(s, k)
  }

  ghost predicate Ordered(t: Tree, leafData: bool)
    requires WellFormed(t)
  {
    && Increasing(t.keys)
    && (t.Node? ==>
          && (forall i :: 0 <= i < |t.kids| ==> Ordered(t.kids[i], leafData))
          && (forall i :: 0 <= i < |t.keys| ==> UpTo(Entries(t.kids[i], leafData), t.keys[i], leafData))
          && (forall i :: 0 < i < |t.kids| ==> Above(Entries(t.kids[i], leafData), t.keys[i - 1])))
  }

  lemma BelowConcat(a: seq<int>, b: seq<int>, k: int)
    ensures Below(a + b, k) <==> Below(a, k) && Below(b, k)
    ensures Above(a + b, k) <==> Above(a, k) && Above(b, k)
  {
    forall x
      ensures x in a + b <==> x in a || x in b
    {
    }
  }

  /** All entries before child i come before a key that cell i-1 comes before. */
  lemma {:induction false} BeforeBelow(t: Tree, i: nat, leafData: bool, k: int)
    requires WellFormed(t) && t.Node? && Ordered(t, leafData) && i <= |t.keys| && (i > 0 ==> t.keys[i - 1] < k)
    ensures Below(Before(t, i, leafData), k)
    decreases i
  {
    if i > 0 {
      assert i > 1 ==> t.keys[i - 2] < t.keys[i - 1];
      BeforeBelow(t, i - 1, leafData, k);
      var e, sep := Entries(t.kids[i - 1], leafData), Separator(t, i - 1, leafData);
      assert UpTo(e, t.keys[i - 1], leafData);
      BelowConcat(Before(t, i - 1, leafData) + e, sep, k);
      BelowConcat(Before(t, i - 1, leafData), e, k);
    }
  }

  /** All entries after child i come after a key that is before cell i, or is its separator. */
  lemma {:induction false} BehindAbove(t: Tree, i: nat, leafData: bool, k: int)
    requires WellFormed(t) && t.Node? && Ordered(t, leafData) && i <= |t.keys|
    requires i < |t.keys| ==> if leafData then k <= t.keys[i] else k < t.keys[i]
    ensures Above(Behind(t, i, leafData), k)
    decreases |t.keys| - i
  {
    hide Ordered, Entries, Behind, Below, Above;
    KeysIncrease(t, leafData);
    BehindStep(t, i, leafData, k);
    if i < |t.keys| {
      BehindAbove(t, i + 1, leafData, k);
      KidAbove(t, i, leafData, k);
      var e, sep := Entries(t.kids[i + 1], leafData), Separator(t, i, leafData);
      BelowConcat(sep, e + Behind(t, i + 1, leafData), k);
      BelowConcat(e, Behind(t, i + 1, leafData), k);
    }
  }

  lemma BehindStep(t: Tree, i: nat, leafData: bool, k: int)
    requires WellFormed(t) && t.Node? && i <= |t.keys|
    ensures i == |t.keys| ==> Above(Behind(t, i, leafData), k)
    ensures i < |t.keys| ==>
            Behind(t, i, leafData) ==
            Separator(t, i, leafData) + (Entries(t.kids[i + 1], leafData) + Behind(t, i + 1, leafData))
    ensures i < |t.keys| && (leafData || k < t.keys[i]) ==> Above(Separator(t, i, leafData), k)
  {
  }

  lemma KidAbove(t: Tree, i: nat, leafData: bool, k: int)
    requires WellFormed(t) && t.Node? && Ordered(t, leafData) && i < |t.keys| && k <= t.keys[i]
    ensures Above(Entries(t.kids[i + 1], leafData), k)
  {
    assert Above(Entries(t.kids[i + 1], leafData), t.keys[i + 1 - 1]);
  }

  // ---------- Sortedness ----------

  lemma IncreasingConcat(a: seq<int>, b: seq<int>, k: int)
    requires Increasing(a) && Increasing(b) && (forall x :: x in a ==> x <= k) && Above(b, k)
    ensures Increasing(a + b)
  {
    forall i | 0 <= i < |b|
      ensures b[i] > k
    {
      assert b[i] in b;
    }
    forall i | 0 <= i < |a|
      ensures a[i] <= k
    {
      assert a[i] in a;
    }
  }

  /** The entries before child i increase, and are bounded by cell i-1. */
  lemma {:induction false} BeforeIncreasing(t: Tree, i: nat, leafData: bool)
    requires WellFormed(t) && t.Node? && Ordered(t, leafData) && i <= |t.keys|
    ensures Increasing(Before(t, i, leafData)) &&
            (i > 0 ==> forall x :: x in Before(t, i, leafData) ==> x <= t.keys[i - 1])
    decreases t, i
  {
    if i > 0 {
      BeforeIncreasing(t, i - 1, leafData);
      EntriesIncreasing(t.kids[i - 1], leafData);
      var b, e, sep := Before(t, i - 1, leafData), Entries(t.kids[i - 1], leafData), Separator(t, i - 1, leafData);
      assert UpTo(e, t.keys[i - 1], leafData);
      if i > 1 {
        assert t.keys[i - 2] < t.keys[i - 1];
        assert Above(e, t.keys[i - 1 - 1]);
        IncreasingConcat(b, e, t.keys[i - 2]);
      }
      assert i == 1 ==> b + e == e;
      if !leafData {
        LastIncreasing(b + e, t.keys[i - 1], i > 1, if i > 1 then t.keys[i - 2] else 0, b, e);
      }
      assert b + e + sep == Before(t, i, leafData);
      forall x | x in b + e + sep
        ensures x <= t.keys[i - 1]
      {
        assert x in b || x in e || x in sep;
      }
    }
  }

  lemma LastIncreasing(s: seq<int>, k: int, more: bool, k0: int, b: seq<int>, e: seq<int>)
    requires Increasing(s) && s == b + e && Below(e, k) && (more ==> k0 < k && forall x :: x in b ==> x <= k0) &&
             (!more ==> b == [])
    ensures Increasing(s + [k])
  {
    forall i | 0 <= i < |s|
      ensures s[i] < k
    {
      assert s[i] in b || s[i] in e;
    }
  }

  /** The entries of an ordered tree strictly increase. */
  lemma {:induction false} EntriesIncreasing(t: Tree, leafData: bool)
    requires WellFormed(t) && Ordered(t, leafData)
    ensures Increasing(Entries(t, leafData))
    decreases t, |t.keys| + 1
  {
    if t.Node? {
      var n := |t.keys|;
      BeforeIncreasing(t, n, leafData);
      EntriesIncreasing(t.kids[n], leafData);
      assert Above(Entries(t.kids[n], leafData), t.keys[n - 1]);
      IncreasingConcat(Before(t, n, leafData), Entries(t.kids[n], leafData), t.keys[n - 1]);
    }
  }

  // ---------- The search ----------

  /** Where key belongs among the keys of a page. */
  predicate Splits(keys: seq<int>, lwr: nat, key: int) {
    lwr <= |keys| && (forall j :: 0 <= j < lwr ==> keys[j] < key) && (forall j :: lwr <= j < |keys| ==> keys[j] > key)
  }

  /** The binary search on one page: the cell compared last, and how it compares with the key. */
  method SearchPage(keys: seq<int>, key: int, biasRight: bool) returns (idx: nat, c: int, lwr: nat)
    requires keys != [] && Increasing(keys)
    ensures idx < |keys|
    ensures c == 0 ==> keys[idx] == key && lwr == idx
    ensures c != 0 ==> Splits(keys, lwr, key)
    ensures c < 0 ==> keys[idx] < key && idx + 1 == lwr
    ensures c > 0 ==> keys[idx] > key && idx == lwr
  {
    lwr := 0;
    var upr := |keys| - 1;
    idx := if biasRight then upr else (upr + lwr) / 2;
    while true
      invariant 0 <= lwr <= idx <= upr < |keys|
      invariant forall j :: 0 <= j < lwr ==> keys[j] < key
      invariant forall j :: upr < j < |keys| ==> keys[j] > key
      decreases upr - lwr
    {
      c := if keys[idx] == key then 0 else if keys[idx] < key then -1 else 1;
      if c == 0 {
        lwr := idx;
        return;
      }
      if c < 0 {
        lwr := idx + 1;
      } else {
        upr := idx - 1;
      }
      if lwr > upr {
        return;
      }
      idx := (lwr + upr) / 2;
    }
  }

  /** The key, if it is in the tree, lies below the page the cursor has come to. */
  ghost predicate Bracketed(c: Cursor, key: int)
    reads c
  {
    && c.OnPage() && Ordered(c.page, c.leafData)
    && Below(LeftOf(c.up, c.leafData), key) && Above(RightOf(c.up, c.leafData), key)
  }

  /** What *pRes says about the entry the cursor is left at. */
  ghost predicate Lands(c: Cursor, key: int, res: int)
    requires c.OnEntry()
    reads c
  {
    var all, n := Entries(c.root, c.leafData), |c.Left()|;
    n < |all| && c.Left() == all[..n] && c.page.keys[c.idx] == all[n] &&
    if res == 0 then all[n] == key
    else if res < 0 then Below(all[..n + 1], key) && Above(all[n + 1..], key)
    else Below(all[..n], key) && Above(all[n..], key)
  }

  /** sqlite3BtreeMoveto: on the key, or on one of its neighbours in the order of the tree. */
  method MoveTo(c: Cursor, key: int, biasRight: bool) returns (res: int)
    requires c.RootOk() && (WellFormed(c.root) ==> Ordered(c.root, c.leafData))
    modifies c
    ensures c.valid <==> c.root != Leaf([])
    ensures if c.valid then c.OnEntry() && Lands(c, key, res) else res == -1
  {
    hide LeftOf, RightOf, Path, FramesOk, Ordered, Before, Behind, Below, Above;
    c.MoveToRoot();
    if !c.valid {
      return -1;
    }
    NothingAround(c.leafData, key);
    while true
      invariant c.valid && Bracketed(c, key)
      decreases c.page
    {
      KeysIncrease(c.page, c.leafData);
      var idx, cmp, lwr := SearchPage(c.page.keys, key, biasRight);
      c.idx := idx;
      if cmp == 0 && !(c.leafData && c.page.Node?) {
        c.AtEntry();
        return 0;
      }
      if c.page.Leaf? {
        LandsOnLeaf(c, key, cmp, lwr);
        return cmp;
      }
      Deeper(c, key, lwr);
      c.MoveToChild(lwr);
    }
  }

  lemma NothingAround(leafData: bool, key: int)
    ensures Below(LeftOf([], leafData), key) && Above(RightOf([], leafData), key)
  {
  }

  lemma KeysIncrease(t: Tree, leafData: bool)
    requires WellFormed(t) && Ordered(t, leafData)
    ensures t.keys != [] && Increasing(t.keys)
  {
  }

  /** The child to go to keeps the key bracketed. */
  lemma Deeper(c: Cursor, key: int, i: nat)
    requires Bracketed(c, key) && c.page.Node? && i <= |c.page.keys|
    requires i > 0 ==> c.page.keys[i - 1] < key
    requires i < |c.page.keys| ==> if c.leafData then key <= c.page.keys[i] else key < c.page.keys[i]
    ensures Ordered(c.page.kids[i], c.leafData)
    ensures Below(LeftOf(c.up, c.leafData) + Before(c.page, i, c.leafData), key)
    ensures Above(Behind(c.page, i, c.leafData) + RightOf(c.up, c.leafData), key)
    ensures RightOf(c.up + [Frame(c.page, i)], c.leafData) == Behind(c.page, i, c.leafData) + RightOf(c.up, c.leafData)
  {
    BeforeBelow(c.page, i, c.leafData, key);
    BehindAbove(c.page, i, c.leafData, key);
    BelowConcat(LeftOf(c.up, c.leafData), Before(c.page, i, c.leafData), key);
    BelowConcat(Behind(c.page, i, c.leafData), RightOf(c.up, c.leafData), key);
    Down(c.root, c.up, c.page, i, c.leafData);
  }

  lemma LandsOnLeaf(c: Cursor, key: int, res: int, lwr: nat)
    requires Bracketed(c, key) && c.OnEntry() && c.page.Leaf? && res != 0 && Splits(c.page.keys, lwr, key)
    requires c.idx == if res < 0 then lwr - 1 else lwr
    ensures Lands(c, key, res)
  {
    hide LeftOf, RightOf, Path, FramesOk, Ordered, Before, Behind, Below, Above, Entries;
    var keys, l, r := c.page.keys, LeftOf(c.up, c.leafData), RightOf(c.up, c.leafData);
    c.AtEntry();
    PathWhole(c.root, c.up, c.page, c.leafData);
    LeafEntries(c.page, c.leafData);
    Around(l, keys, r, lwr, key);
    assert |c.Left()| == |l| + c.idx;
  }

  lemma LeafEntries(page: Tree, leafData: bool)
    requires WellFormed(page) && page.Leaf?
    ensures Entries(page, leafData) == page.keys
  {
  }

  lemma Around(l: seq<int>, keys: seq<int>, r: seq<int>, lwr: nat, key: int)
    requires Below(l, key) && Above(r, key) && Splits(keys, lwr, key)
    ensures var all, m := l + keys + r, |l| + lwr; Below(all[..m], key) && Above(all[m..], key)
  {
    var all, m := l + keys + r, |l| + lwr;
    BelowConcat(l, keys[..lwr], key);
    BelowConcat(keys[lwr..], r, key);
    assert all[..m] == l + keys[..lwr] && all[m..] == keys[lwr..] + r;
  }

  /** A key is found exactly if it is in the tree. */
  lemma FoundIff(c: Cursor, key: int, res: int)
    requires c.OnEntry() && Lands(c, key, res)
    ensures res == 0 <==> key in Entries(c.root, c.leafData)
  {
    var all, n := Entries(c.root, c.leafData), |c.Left()|;
    var m := if res < 0 then n + 1 else n;
    assert all == all[..m] + all[m..];
    assert key in all ==> key in all[..m] || key in all[m..];
  }
}
