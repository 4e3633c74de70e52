/**
 Cursors over b-trees (misc/sqlite/btree.c:3348-3370, 3450-3544, 3599-3762, 3794-3915). In an index
 every cell is an entry; in a LEAFDATA table only those on leaves are, and the cells of interior pages
 hold separators. Keys stand for their rank in the order of the tree.
 */
module Cursors {
  datatype Tree =
    | Leaf(keys: seq<int>)
    | Node(keys: seq<int>, kids: seq<Tree>)

  /** Every page has a cell, and interior pages a child more than cells. */
  predicate WellFormed(t: Tree) {
    t.keys != [] && (t.Node? ==> |t.kids| == |t.keys| + 1 && forall i :: 0 <= i < |t.kids| ==> WellFormed(t.kids[i]))
  }

  // ---------- The entries of a tree ----------

  /** The entries in order. */
  function Entries(t: Tree, leafData: bool): seq<int>
    requires WellFormed(t)
    decreases t, 1, 0
  {
    if t.Leaf? then t.keys else Before(t, |t.keys|, leafData) + Entries(t.kids[|t.keys|], leafData)
  }

  function Separator(t: Tree, i: nat, leafData: bool): seq<int>
    requires i < |t.keys|
  {
    if leafData then [] else [t.keys[i]]
  }

  /** The entries before child i. */
  function Before(t: Tree, i: nat, leafData: bool): seq<int>
    requires WellFormed(t) && t.Node? && i <= |t.keys|
    decreases t, 0, i
  {
    if i == 0 then [] else Before(t, i - 1, leafData) + Entries(t.kids[i - 1], leafData) + Separator(t, i - 1, leafData)
  }

  /** The entries after child i. */
  function Behind(t: Tree, i: nat, leafData: bool): seq<int>
    requires WellFormed(t) && t.Node? && i <= |t.keys|
    decreases t, 0, |t.keys| - i
  {
    if i == |t.keys| then []
    else Separator(t, i, leafData) + (Entries(t.kids[i + 1], leafData) + Behind(t, i + 1, leafData))
  }

  lemma {:induction false} Whole(t: Tree, i: nat, leafData: bool)
    requires WellFormed(t) && t.Node? && i <= |t.keys|
    ensures Entries(t, leafData) == Before(t, i, leafData) + Entries(t.kids[i], leafData) + Behind(t, i, leafData)
    decreases |t.keys| - i
  {
    if i < |t.keys| {
      Whole(t, i + 1, leafData);
      Assoc(Before(t, i, leafData) + Entries(t.kids[i], leafData), Separator(t, i, leafData),
            Entries(t.kids[i + 1], leafData), Behind(t, i + 1, leafData));
    }
  }

  lemma Assoc(a: seq<int>, b: seq<int>, c: seq<int>, d: seq<int>)
    ensures a + b + c + d == a + (b + (c + d))
  {
  }

  // ---------- Where a cursor stands ----------

  /** A page on the way down, and the child gone to. */
  datatype Frame = Frame(page: Tree, idx: nat)

  predicate Path(root: Tree, up: seq<Frame>, page: Tree)
    decreases |up|
  {
    if up == [] then page == root
    else
      var f := up[|up| - 1];
      && WellFormed(f.page) && f.page.Node? && f.idx <= |f.page.keys| && page == f.page.kids[f.idx]
      && Path(root, up[..|up| - 1], f.page)
  }

  lemma {:induction false} PathWellFormed(root: Tree, up: seq<Frame>, page: Tree)
    requires WellFormed(root) && Path(root, up, page)
    ensures WellFormed(page)
  {
    if up != [] {
      assert WellFormed(up[|up| - 1].page);
    }
  }

  /** The entries left and right of the subtree gone to. */
  function LeftOf(up: seq<Frame>, leafData: bool): seq<int>
    requires FramesOk(up)
  {
    if up == [] then []
    else var f := up[|up| - 1]; LeftOf(up[..|up| - 1], leafData) + Before(f.page, f.idx, leafData)
  }

  function RightOf(up: seq<Frame>, leafData: bool): seq<int>
    requires FramesOk(up)
  {
    if up == [] then []
    else var f := up[|up| - 1]; Behind(f.page, f.idx, leafData) + RightOf(up[..|up| - 1], leafData)
  }

  predicate FramesOk(up: seq<Frame>) {
    forall i :: 0 <= i < |up| ==> WellFormed(up[i].page) && up[i].page.Node? && up[i].idx <= |up[i].page.keys|
  }

  /** A subtree and what lies to its sides are the whole tree. */
  lemma {:induction false} PathWhole(root: Tree, up: seq<Frame>, page: Tree, leafData: bool)
    requires WellFormed(root) && Path(root, up, page) && FramesOk(up)
    ensures WellFormed(page) &&
            LeftOf(up, leafData) + Entries(page, leafData) + RightOf(up, leafData) == Entries(root, leafData)
    decreases |up|
  {
    PathWellFormed(root, up, page);
    if up != [] {
      var n := |up| - 1;
      var f := up[n];
      PathWhole(root, up[..n], f.page, leafData);
      Whole(f.page, f.idx, leafData);
      Nest(LeftOf(up[..n], leafData), Before(f.page, f.idx, leafData), Entries(page, leafData),
           Behind(f.page, f.idx, leafData), RightOf(up[..n], leafData));
    }
  }

  lemma Nest(a: seq<int>, b: seq<int>, c: seq<int>, d: seq<int>, e: seq<int>)
    ensures a + b + c + (d + e) == a + (b + c + d) + e
  {
  }

  /** The entries before and from cell idx of a page on. On an interior page the cell comes after
      the child with its number. */
  function CellLeft(page: Tree, idx: nat, leafData: bool): seq<int>
    requires WellFormed(page) && idx <= |page.keys|
  {
    if page.Leaf? then page.keys[..idx] else Before(page, idx, leafData) + Entries(page.kids[idx], leafData)
  }

  function CellRight(page: Tree, idx: nat, leafData: bool): seq<int>
    requires WellFormed(page) && idx <= |page.keys|
  {
    if page.Leaf? then page.keys[idx..] else Behind(page, idx, leafData)
  }

  lemma CellWhole(page: Tree, idx: nat, leafData: bool)
    requires WellFormed(page) && idx <= |page.keys|
    ensures CellLeft(page, idx, leafData) + CellRight(page, idx, leafData) == Entries(page, leafData)
  {
    if page.Node? {
      Whole(page, idx, leafData);
    }
  }

  /** Going down to child i. */
  lemma Down(root: Tree, up: seq<Frame>, page: Tree, i: nat, leafData: bool)
    requires WellFormed(root) && Path(root, up, page) && FramesOk(up) && WellFormed(page) && page.Node? &&
             i <= |page.keys|
    ensures var up' := up + [Frame(page, i)];
            && Path(root, up', page.kids[i]) && FramesOk(up') && WellFormed(page.kids[i])
            && LeftOf(up', leafData) == LeftOf(up, leafData) + Before(page, i, leafData)
            && RightOf(up', leafData) == Behind(page, i, leafData) + RightOf(up, leafData)
  {
    var up' := up + [Frame(page, i)];
    assert up'[..|up|] == up;
  }

  /** Coming back up. */
  lemma Up(root: Tree, up: seq<Frame>, page: Tree, leafData: bool)
    requires WellFormed(root) && Path(root, up, page) && FramesOk(up) && up != []
    ensures var f, up' := up[|up| - 1], up[..|up| - 1];
            && Path(root, up', f.page) && FramesOk(up') && WellFormed(f.page) && f.page.Node? &&
               f.idx <= |f.page.keys| && page == f.page.kids[f.idx]
            && LeftOf(up, leafData) == LeftOf(up', leafData) + Before(f.page, f.idx, leafData)
            && RightOf(up, leafData) == Behind(f.page, f.idx, leafData) + RightOf(up', leafData)
  {
  }

  class Cursor {
    const root: Tree
    const leafData: bool
    var up: seq<Frame>
    var page: Tree
    var idx: nat
    var valid: bool

    /** The tree is well formed, or a single empty page. */
    predicate RootOk() {
      WellFormed(root) || root == Leaf([])
    }

    /** The cursor is at a page of the tree. */
    ghost predicate OnPage()
      reads this
    {
      WellFormed(root) && Path(root, up, page) && FramesOk(up) && WellFormed(page)
    }

    ghost predicate OnCell()
      reads this
    {
      OnPage() && idx < |page.keys|
    }

    /** The cursor is at an entry. */
    ghost predicate OnEntry()
      reads this
    {
      OnCell() && (page.Leaf? || !leafData)
    }

    /** The entries before the cursor. */
    ghost function Left(): seq<int>
      requires OnPage() && idx <= |page.keys|
      reads this
    {
      LeftOf(up, leafData) + CellLeft(page, idx, leafData)
    }

    constructor (root: Tree, leafData: bool)
      ensures this.root == root && this.leafData == leafData && !valid
    {
      this.root, this.leafData := root, leafData;
      up, page, idx, valid := [], root, 0, false;
    }

    /** What the cursor points at is the entry after those before it. */
    lemma AtEntry()
      requires OnEntry()
      ensures var all := Entries(root, leafData);
              |Left()| < |all| && Left() == all[..|Left()|] &&
              page.keys[idx] == all[|Left()|]
    {
      PathWhole(root, up, page, leafData);
      CellWhole(page, idx, leafData);
      var l, c := CellLeft(page, idx, leafData), CellRight(page, idx, leafData);
      Nest(LeftOf(up, leafData), l, [], c, RightOf(up, leafData));
      assert Entries(root, leafData) == Left() + (c + RightOf(up, leafData));
    }

    /** moveToChild */
    method MoveToChild(i: nat)
      requires OnPage() && page.Node? && i <= |page.keys|
      modifies this`up, this`page, this`idx
      ensures OnPage() && idx == 0 && up == old(up) + [Frame(old(page), i)] && page == old(page).kids[i]
      ensures LeftOf(up, leafData) == LeftOf(old(up), leafData) + Before(old(page), i, leafData)
    {
      Down(root, up, page, i, leafData);
      up, page, idx := up + [Frame(page, i)], page.kids[i], 0;
    }

    /** moveToLeftmost: to the first entry of the child whose cell the cursor is at. */
    method MoveToLeftmost()
      requires OnPage() && idx <= |page.keys| && (page.Leaf? ==> idx < |page.keys|)
      modifies this`up, this`page, this`idx
      ensures OnEntry() && page.Leaf?
      ensures Left() == LeftOf(old(up), leafData) + if old(page).Leaf? then old(page).keys[..old(idx)]
              else Before(old(page), old(idx), leafData)
    {
      hide Path, FramesOk, Before, LeftOf;
      ghost var left := LeftOf(up, leafData) + if page.Leaf? then page.keys[..idx] else Before(page, idx, leafData);
      while page.Node?
        invariant OnPage() && idx <= |page.keys| && (page.Leaf? ==> idx < |page.keys|)
        invariant LeftOf(up, leafData) + (if page.Leaf? then page.keys[..idx] else Before(page, idx, leafData)) == left
        decreases page
      {
        MoveToChild(idx);
        NoneBefore(page, leafData);
      }
    }

    /** moveToRightmost: to the last entry below the page. */
    method MoveToRightmost()
      requires OnPage()
      modifies this`up, this`page, this`idx
      ensures OnEntry() && page.Leaf? &&
              Left() + [page.keys[idx]] == LeftOf(old(up), leafData) + Entries(old(page), leafData)
    {
      hide Path, FramesOk, Before, LeftOf;
      ghost var whole := LeftOf(up, leafData) + Entries(page, leafData);
      while page.Node?
        invariant OnPage() && LeftOf(up, leafData) + Entries(page, leafData) == whole
        decreases page
      {
        MoveToChild(|page.keys|);
      }
      idx := |page.keys| - 1;
      assert page.keys == page.keys[..idx] + [page.keys[idx]];
    }

    /** sqlite3BtreeMoveToParent: behind the child it comes from. */
    method MoveToParent()
      requires OnPage() && up != []
      modifies this`up, this`page, this`idx
      ensures OnPage() && page.Node? && idx <= |page.keys| && |up| == |old(up)| - 1
      ensures Left() == LeftOf(old(up), leafData) + Entries(old(page), leafData)
      ensures LeftOf(old(up), leafData) == LeftOf(up, leafData) + Before(page, idx, leafData)
    {
      hide Path, FramesOk, Before, LeftOf, RightOf, Behind, WellFormed, Entries;
      Up(root, up, page, leafData);
      var f := up[|up| - 1];
      up, page, idx := up[..|up| - 1], f.page, f.idx;
    }

    method MoveToRoot()
      requires RootOk()
      modifies this
      ensures up == [] && page == root && idx == 0 && (valid <==> WellFormed(root)) && (valid ==> OnPage())
    {
      up, page, idx := [], root, 0;
      valid := |page.keys| > 0;
    }

    /** sqlite3BtreeFirst */
    method First() returns (res: int)
      requires RootOk()
      modifies this
      ensures res == (if root == Leaf([]) then 1 else 0) && (valid <==> res == 0)
      ensures valid ==> OnEntry() && Left() == []
    {
      MoveToRoot();
      if !valid {
        return 1;
      }
      NoneBefore(page, leafData);
      MoveToLeftmost();
      return 0;
    }

    /** sqlite3BtreeLast */
    method ToLast() returns (res: int)
      requires RootOk()
      modifies this
      ensures res == (if root == Leaf([]) then 1 else 0) && (valid <==> res == 0)
      ensures valid ==> OnEntry() && Left() + [page.keys[idx]] == Entries(root, leafData)
    {
      MoveToRoot();
      if !valid {
        return 1;
      }
      MoveToRightmost();
      return 0;
    }

    /** The entry a cursor on a cell passes when it moves on: none on a separator. */
    function Passed(): seq<int>
      requires idx < |page.keys|
      reads this
    {
      if page.Leaf? || !leafData then [page.keys[idx]] else []
    }

    /** sqlite3BtreeNext, from any cell. */
    method Forward() returns (res: int)
      requires valid && OnCell()
      modifies this
      ensures res == (if valid then 0 else 1)
      ensures valid ==> OnEntry() && Left() == old(Left() + Passed())
      ensures !valid ==> old(Left() + Passed()) == Entries(root, leafData)
      ensures old(page.Node?) ==> valid
      decreases if page.Leaf? then 1 else 0
    {
      hide Path, FramesOk, Before, LeftOf, WellFormed;
      ghost var left := Left() + Passed();
      CellPassed(page, idx, leafData);
      if page.Leaf? {
        idx := idx + 1;
        if idx < |page.keys| {
          return 0;
        }
        assert page.keys[..idx] == page.keys;
        assert LeftOf(up, leafData) + Entries(page, leafData) == left;
        var found := Climb();
        if !found {
          valid := false;
          return 1;
        }
        if leafData {
          res := Forward();
        } else {
          res := 0;
        }
      } else {
        idx := idx + 1;
        assert LeftOf(up, leafData) + Before(page, idx, leafData) == left;
        if idx >= |page.keys| {
          MoveToChild(|page.keys|);
          NoneBefore(page, leafData);
          KidOk(page);
        }
        MoveToLeftmost();
        res := 0;
      }
    }

    /** Up to the first page with a cell behind the child come from, if there is one. */
    method Climb() returns (found: bool)
      requires OnPage()
      modifies this`up, this`page, this`idx
      ensures found ==> OnCell() && page.Node? && Left() == LeftOf(old(up), leafData) + Entries(old(page), leafData)
      ensures !found ==> LeftOf(old(up), leafData) + Entries(old(page), leafData) == Entries(root, leafData)
    {
      hide Path, FramesOk, Before, LeftOf;
      ghost var whole := LeftOf(up, leafData) + Entries(page, leafData);
      NoneLeft(leafData);
      while true
        invariant OnPage() && LeftOf(up, leafData) + Entries(page, leafData) == whole
        decreases |up|
      {
        if up == [] {
          RootPath(root, page);
          return false;
        }
        MoveToParent();
        if idx < |page.keys| {
          return true;
        }
      }
    }

    /** sqlite3BtreeNext */
    method Next() returns (res: int)
      requires valid ==> OnEntry()
      modifies this
      ensures res == (if valid then 0 else 1) && (!old(valid) ==> !valid)
      ensures valid ==> OnEntry() && Left() == old(Left()) + [old(page.keys[idx])]
      ensures old(valid) && !valid ==> old(Left()) + [old(page.keys[idx])] == Entries(root, leafData)
    {
      if !valid {
        return 1;
      }
      res := Forward();
    }

    /** sqlite3BtreePrevious, from any cell. */
    method Backward() returns (res: int)
      requires valid && OnCell()
      modifies this
      ensures res == (if valid then 0 else 1)
      ensures valid ==> OnEntry() && Left() + [page.keys[idx]] == old(Left())
      ensures !valid ==> old(Left()) == []
      ensures old(page.Node?) ==> valid
      decreases if page.Leaf? then 1 else 0
    {
      hide Path, FramesOk, Before, LeftOf, WellFormed;
      ghost var left := Left();
      if page.Node? {
        MoveToChild(idx);
        MoveToRightmost();
        return 0;
      }
      while idx == 0
        invariant OnPage() && idx <= |page.keys|
        invariant LeftOf(up, leafData) + (if page.Leaf? then page.keys[..idx] else Before(page, idx, leafData)) == left
        invariant valid
        decreases |up|
      {
        NoneBefore(page, leafData);
        NoneLeft(leafData);
        if up == [] {
          valid := false;
          return 1;
        }
        MoveToParent();
      }
      idx := idx - 1;
      CellPassed(page, idx, leafData);
      if leafData && page.Node? {
        res := Backward();
      } else {
        res := 0;
      }
    }

    /** sqlite3BtreePrevious */
    method Previous() returns (res: int)
      requires valid ==> OnEntry()
      modifies this
      ensures res == (if valid then 0 else 1) && (!old(valid) ==> !valid)
      ensures valid ==> OnEntry() && Left() + [page.keys[idx]] == old(Left())
      ensures old(valid) && !valid ==> old(Left()) == []
    {
      if !valid {
        return 1;
      }
      res := Backward();
    }
  }

  /** A scan from First by Next visits every entry once, in order. */
  method Scan(root: Tree, leafData: bool) returns (all: seq<int>)
    requires WellFormed(root) || root == Leaf([])
    ensures all == if root == Leaf([]) then [] else Entries(root, leafData)
  {
    hide LeftOf, Path, FramesOk, Before;
    var c := new Cursor(root, leafData);
    var res := c.First();
    all := [];
    while res == 0
      invariant fresh(c) && c.root == root && c.leafData == leafData && (c.valid <==> res == 0) &&
                (res == 0 || res == 1)
      invariant c.valid ==> c.OnEntry() && c.Left() == all
      invariant !c.valid ==> all == if root == Leaf([]) then [] else Entries(root, leafData)
      decreases c.valid, if c.valid then |Entries(root, leafData)| - |all| else 0
    {
      c.AtEntry();
      all := all + [c.page.keys[c.idx]];
      res := c.Next();
      if c.valid {
        c.AtEntry();
      }
    }
  }

  lemma NoneLeft(leafData: bool)
    ensures LeftOf([], leafData) == []
  {
  }

  lemma RootPath(root: Tree, page: Tree)
    requires Path(root, [], page)
    ensures page == root
  {
  }

  lemma KidOk(page: Tree)
    requires WellFormed(page)
    ensures page.keys != []
  {
  }

  /** Passing a cell. */
  lemma CellPassed(page: Tree, i: nat, leafData: bool)
    requires WellFormed(page) && i < |page.keys|
    ensures page.Leaf? ==> page.keys[..i] + [page.keys[i]] == page.keys[..i + 1]
    ensures page.Node? ==>
            CellLeft(page, i, leafData) + (if leafData then [] else [page.keys[i]]) == Before(page, i + 1, leafData)
  {
  }

  lemma NoneBefore(page: Tree, leafData: bool)
    requires WellFormed(page)
    ensures page.Node? ==> Before(page, 0, leafData) == []
  {
  }

  /** Previous undoes Next. */
  method ThereAndBack(c: Cursor)
    requires c.valid && c.OnEntry()
    modifies c
    ensures c.valid ==> c.OnEntry() && c.Left() == old(c.Left()) && c.page.keys[c.idx] == old(c.page.keys[c.idx])
    ensures !c.valid ==> old(c.Left() + [c.page.keys[c.idx]]) == Entries(c.root, c.leafData)
  {
    ghost var left, key := c.Left(), c.page.keys[c.idx];
    var res := c.Next();
    if c.valid {
      res := c.Previous();
      LastOf(c.Left(), c.page.keys[c.idx], left, key);
    }
  }

  lemma LastOf(a: seq<int>, x: int, b: seq<int>, y: int)
    requires a + [x] == b + [y]
    ensures a == b && x == y
  {
    assert (a + [x])[..|a|] == a && (b + [y])[..|b|] == b;
  }
}
