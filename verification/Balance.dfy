/**
 Sibling rebalancing on whole pages: balance_nonroot takes up to three neighbouring children
 of one parent page, collects their cells and the parent cells that divide them, deals the
 cells out again and puts new dividers into the parent (misc/sqlite/btree.c, lines 4909-5351).
 */
module Balance {
  import opened Packing

  /** The three shapes of sibling pages: leaves of an index tree, leaves of a table (LEAFDATA)
      tree, and interior pages of either. */
  datatype Kind = IndexLeaf | TableLeaf | Interior

  /** `content` is everything in the cell after the child pointer. Leaf cells have child 0. */
  datatype Cell = Cell(child: nat, key: int, content: seq<nat>)

  /** `right` is the right-most child pointer, 0 on leaves. */
  datatype Page = Page(cells: seq<Cell>, right: nat)

  const NN: int := 1
  const NB: int := 2 * NN + 1

  /** cellSizePtr: no cell is smaller than 4 bytes. */
  function CellSize(leaf: bool, c: Cell): nat {
    var n := (if leaf then 0 else 4) + |c.content|;
    if n < 4 then 4 else n
  }

  /** An index cell that goes down from the parent to a leaf loses its child pointer of four bytes, but
      no cell takes less than four. */
  lemma SizeWhenLowered(c: Cell)
    ensures CellSize(false, c) == 4 + |c.content|
    ensures CellSize(true, c) == if CellSize(false, c) < 8 then 4 else CellSize(false, c) - 4
  {
  }

  function Sizes(kind: Kind, cells: seq<Cell>): seq<nat> {
    seq(|cells|, i requires 0 <= i < |cells| => CellSize(!kind.Interior?, cells[i]))
  }

  /** What the parent cell `d`, which divides page `left` from the next one, contributes to the
      collected cells: nothing in a table, where it only repeats a key; otherwise the cell itself,
      with the child pointer that belongs at its new level. */
  function Lowered(kind: Kind, d: Cell, left: Page): seq<Cell> {
    match kind
    case TableLeaf => []
    case IndexLeaf => [d.(child := 0)]
    case Interior => [d.(child := left.right)]
  }

  /** The cells of page i and then of its divider, if it has one. */
  function Piece(kind: Kind, pages: seq<Page>, divs: seq<Cell>, i: nat): seq<Cell>
    requires i < |pages|
  {
    pages[i].cells + if i < |divs| then Lowered(kind, divs[i], pages[i]) else []
  }

  /** The cells of the first n pages in key order, each page followed by its divider if it has one.
      On interior pages the child pointers of this sequence, followed by the last page's right pointer,
      are all the children in order. */
  function Flat(kind: Kind, pages: seq<Page>, divs: seq<Cell>, n: nat): seq<Cell>
    requires n <= |pages|
  {
    if n == 0 then [] else Flat(kind, pages, divs, n - 1) + Piece(kind, pages, divs, n - 1)
  }

  function Gathered(kind: Kind, pages: seq<Page>, divs: seq<Cell>): seq<Cell> {
    Flat(kind, pages, divs, |pages|)
  }

  ghost predicate LeafCellsPlain(kind: Kind, pages: seq<Page>) {
    !kind.Interior? ==> forall i, j :: 0 <= i < |pages| && 0 <= j < |pages[i].cells| ==> pages[i].cells[j].child == 0
  }

  /** Flat looks only at the first n pages and dividers, and not at the dividers' child pointers. */
  lemma {:induction false} FlatSame(kind: Kind, p: seq<Page>, d: seq<Cell>, q: seq<Page>, e: seq<Cell>, n: nat)
    requires n <= |p| && n <= |q| && p[..n] == q[..n]
    requires |d| >= n <==> |e| >= n
    requires forall i :: 0 <= i < n && i < |d| ==> i < |e| && d[i].(child := 0) == e[i].(child := 0)
    requires n > 0 ==> n - 1 <= |d| && n - 1 <= |e|
    ensures Flat(kind, p, d, n) == Flat(kind, q, e, n)
    decreases n
  {
    if n > 0 {
      assert p[n - 1] == p[..n][n - 1] == q[n - 1];
      assert p[..n - 1] == p[..n][..n - 1] == q[..n - 1];
      FlatSame(kind, p, d, q, e, n - 1);
      assert Piece(kind, p, d, n - 1) == Piece(kind, q, e, n - 1);
    }
  }

  /** Pages with all their dividers can be collected apart from the pages that follow. */
  lemma {:induction false} FlatAppend(kind: Kind, p: seq<Page>, d: seq<Cell>, q: seq<Page>, e: seq<Cell>, n: nat)
    requires |p| == |d| && n <= |q| <= |e| + 1
    ensures Flat(kind, p + q, d + e, |p| + n) == Flat(kind, p, d, |p|) + Flat(kind, q, e, n)
    decreases n
  {
    hide Piece, Lowered;
    if n == 0 {
      FlatSame(kind, p + q, d + e, p, d, |p|);
    } else {
      hide Flat;
      FlatAppend(kind, p, d, q, e, n - 1);
      PieceShift(kind, p, d, q, e, n - 1);
      FlatNext(kind, p + q, d + e, |p| + n);
      FlatNext(kind, q, e, n);
    }
  }

  lemma PieceShift(kind: Kind, p: seq<Page>, d: seq<Cell>, q: seq<Page>, e: seq<Cell>, i: nat)
    requires |p| == |d| && i < |q|
    ensures Piece(kind, p + q, d + e, |p| + i) == Piece(kind, q, e, i)
  {
  }

  lemma FlatNext(kind: Kind, pages: seq<Page>, divs: seq<Cell>, n: nat)
    requires 0 < n <= |pages|
    ensures Flat(kind, pages, divs, n) == Flat(kind, pages, divs, n - 1) + Piece(kind, pages, divs, n - 1)
  {
  }

  lemma {:induction false} FlatPlain(kind: Kind, pages: seq<Page>, divs: seq<Cell>, n: nat)
    requires n <= |pages| && LeafCellsPlain(kind, pages) && !kind.Interior?
    ensures forall j :: 0 <= j < |Flat(kind, pages, divs, n)| ==> Flat(kind, pages, divs, n)[j].child == 0
    decreases n
  {
    if n > 0 {
      FlatPlain(kind, pages, divs, n - 1);
    }
  }

  lemma SizesAppend(kind: Kind, cells: seq<Cell>, c: Cell)
    ensures Sizes(kind, cells + [c]) == Sizes(kind, cells) + [CellSize(!kind.Interior?, c)]
  {
  }

  method LoadPage(kind: Kind, page: Page, ap0: seq<Cell>, sz0: seq<nat>) returns (apCell: seq<Cell>, szCell: seq<nat>)
    requires sz0 == Sizes(kind, ap0)
    ensures apCell == ap0 + page.cells
    ensures szCell == Sizes(kind, apCell)
  {
    apCell, szCell := ap0, sz0;
    for j := 0 to |page.cells|
      invariant apCell == ap0 + page.cells[..j]
      invariant szCell == Sizes(kind, apCell)
    {
      SizesAppend(kind, apCell, page.cells[j]);
      apCell := apCell + [page.cells[j]];
      szCell := szCell + [CellSize(!kind.Interior?, page.cells[j])];
    }
  }

  /** A divider joins the cells of the old siblings (btree.c:5043-5088). */
  method LowerDivider(kind: Kind, d: Cell, left: Page) returns (cell: Cell, sz: nat)
    requires !kind.TableLeaf?
    ensures [cell] == Lowered(kind, d, left)
    ensures sz == CellSize(!kind.Interior?, cell)
  {
    sz := CellSize(false, d);
    if kind.Interior? {
      cell := d.(child := left.right);
    } else {
      cell := d.(child := 0);
      sz := sz - 4;
      if sz < 4 {
        sz := 4;
      }
    }
  }

  /** Loads the cells of the old siblings and the dividers into apCell and szCell
      (btree.c:5021-5090). */
  method Gather(kind: Kind, sibs: seq<Page>, div: seq<Cell>) returns (apCell: seq<Cell>, szCell: seq<nat>)
    requires 0 < |sibs| == |div| + 1
    ensures apCell == Gathered(kind, sibs, div)
    ensures szCell == Sizes(kind, apCell)
  {
    apCell, szCell := [], [];
    for i := 0 to |sibs|
      invariant apCell == Flat(kind, sibs, div, i)
      invariant szCell == Sizes(kind, apCell)
    {
      apCell, szCell := LoadPage(kind, sibs[i], apCell, szCell);
      if i < |sibs| - 1 && !kind.TableLeaf? {
        var cell, sz := LowerDivider(kind, div[i], sibs[i]);
        SizesAppend(kind, apCell, cell);
        apCell := apCell + [cell];
        szCell := szCell + [sz];
      }
    }
  }

  /** The i-th new page: its share of the cells, and on interior pages the child pointer of the
      divider that follows, or of the last old page. */
  function NewPage(kind: Kind, ap: seq<Cell>, cnt: seq<nat>, lastRight: nat, i: nat): Page
    requires i < |cnt| && Start(cnt, kind.TableLeaf?, i) <= cnt[i] <= |ap|
    requires i < |cnt| - 1 ==> cnt[i] < |ap|
  {
    Page(ap[Start(cnt, kind.TableLeaf?, i)..cnt[i]],
         if !kind.Interior? then 0 else if i < |cnt| - 1 then ap[cnt[i]].child else lastRight)
  }

  /** The cell put into the parent after the i-th new page, which is stored as page `pgno`. */
  function NewDivider(kind: Kind, ap: seq<Cell>, cnt: seq<nat>, fillIn: int -> seq<nat>, pgno: nat, i: nat): Cell
    requires i < |cnt| && cnt[i] < |ap| && (kind.TableLeaf? ==> cnt[i] > 0)
  {
    if kind.TableLeaf? then Cell(pgno, ap[cnt[i] - 1].key, fillIn(ap[cnt[i] - 1].key)) else ap[cnt[i]].(child := pgno)
  }

  ghost predicate Boundaries(kind: Kind, ap: seq<Cell>, cnt: seq<nat>) {
    && |cnt| > 0 && cnt[|cnt| - 1] == |ap|
    && (forall i {:trigger Start(cnt, kind.TableLeaf?, i)} :: 0 <= i < |cnt| ==>
        Start(cnt, kind.TableLeaf?, i) <= cnt[i] <= |ap|)
    && (forall i :: 0 <= i < |cnt| - 1 ==> cnt[i] < |ap|)
    && (forall i :: 0 <= i < |cnt| - 1 && kind.TableLeaf? ==> cnt[i] > 0)
  }

  /** The divider after a new page and the size handed to insertCell with it, which is its true size
      in the parent, also when a leaf cell had been rounded up to 4 bytes (btree.c:5276-5316). */
  method RaiseDivider(kind: Kind, apCell: seq<Cell>, szCell: seq<nat>, cntNew: seq<nat>, pgno: nat,
                      fillIn: int -> seq<nat>, i: nat)
    returns (divider: Cell, sz: nat)
    requires szCell == Sizes(kind, apCell)
    requires i < |cntNew| && cntNew[i] < |apCell| && (kind.TableLeaf? ==> cntNew[i] > 0)
    ensures divider == NewDivider(kind, apCell, cntNew, fillIn, pgno, i)
    ensures sz == CellSize(false, divider)
  {
    var j := cntNew[i];
    divider := apCell[j];
    sz := szCell[j] + if kind.Interior? then 0 else 4;
    if kind.TableLeaf? {
      j := j - 1;
      divider := Cell(0, apCell[j].key, fillIn(apCell[j].key));
      sz := CellSize(false, divider);
    } else if kind.IndexLeaf? && szCell[j] == 4 {
      sz := CellSize(false, divider);
    }
    divider := divider.(child := pgno);
  }

  /** Deals the cells out over the new pages and makes the new dividers (btree.c:5239-5337).
      `fillIn` is the byte string fillInCell writes for a key-only table cell. */
  method Distribute(kind: Kind, apCell: seq<Cell>, szCell: seq<nat>, cntNew: seq<nat>, pgnoNew: seq<nat>,
                    lastRight: nat, fillIn: int -> seq<nat>)
    returns (pages: seq<Page>, divs: seq<Cell>, divSize: seq<nat>)
    requires szCell == Sizes(kind, apCell)
    requires Boundaries(kind, apCell, cntNew) && |pgnoNew| == |cntNew|
    ensures Dealt(kind, apCell, cntNew, pgnoNew, lastRight, fillIn, pages, divs)
    ensures |divSize| == |divs| && forall i :: 0 <= i < |divs| ==> divSize[i] == CellSize(false, divs[i])
  {
    pages, divs, divSize := [], [], [];
    var j := 0;
    for i := 0 to |cntNew|
      invariant |pages| == i && |divs| == |divSize| == if i < |cntNew| then i else i - 1
      invariant i < |cntNew| ==> j == Start(cntNew, kind.TableLeaf?, i)
      invariant forall m :: 0 <= m < i ==> pages[m] == NewPage(kind, apCell, cntNew, lastRight, m)
      invariant forall m :: 0 <= m < |divs| ==> divs[m] == NewDivider(kind, apCell, cntNew, fillIn, pgnoNew[m], m)
      invariant forall m :: 0 <= m < |divs| ==> divSize[m] == CellSize(false, divs[m])
    {
      var page := Page(apCell[j..cntNew[i]], if kind.Interior? then lastRight else 0);
      j := cntNew[i];
      if i < |cntNew| - 1 && j < |apCell| {
        if kind.Interior? {
          page := page.(right := apCell[j].child);
        }
        var divider, sz := RaiseDivider(kind, apCell, szCell, cntNew, pgnoNew[i], fillIn, i);
        divs := divs + [divider];
        divSize := divSize + [sz];
        j := j + Skip(kind.TableLeaf?);
      }
      pages := pages + [page];
    }
  }

  /** Index of the first cell after page i and its divider. */
  function Stop(kind: Kind, ap: seq<Cell>, cnt: seq<nat>, i: nat): nat
    requires i <= |cnt|
  {
    if i < |cnt| then Start(cnt, kind.TableLeaf?, i) else |ap|
  }

  /** A new page and its divider, collected, are the stretch of cells they were made from. */
  lemma DealtPiece(kind: Kind, ap: seq<Cell>, cnt: seq<nat>, pages: seq<Page>, divs: seq<Cell>,
                   lastRight: nat, fillIn: int -> seq<nat>, pgno: seq<nat>, i: nat)
    requires Boundaries(kind, ap, cnt) && Dealt(kind, ap, cnt, pgno, lastRight, fillIn, pages, divs)
    requires kind.IndexLeaf? ==> forall j :: 0 <= j < |ap| ==> ap[j].child == 0
    requires i < |pages|
    ensures Stop(kind, ap, cnt, i) <= Stop(kind, ap, cnt, i + 1) <= |ap|
    ensures Piece(kind, pages, divs, i) == ap[Stop(kind, ap, cnt, i)..Stop(kind, ap, cnt, i + 1)]
  {
    assert pages[i] == NewPage(kind, ap, cnt, lastRight, i);
    if i < |divs| {
      assert divs[i] == NewDivider(kind, ap, cnt, fillIn, pgno[i], i);
    }
  }

  ghost predicate IsStretch(kind: Kind, pages: seq<Page>, divs: seq<Cell>, ap: seq<Cell>, cut: seq<nat>, i: nat)
    requires i < |pages| == |cut| - 1
  {
    cut[i] <= cut[i + 1] <= |ap| && Piece(kind, pages, divs, i) == ap[cut[i]..cut[i + 1]]
  }

  /** Pages and dividers made from consecutive stretches of cells collect to those cells. */
  lemma {:induction false} FlatOfStretches(kind: Kind, pages: seq<Page>, divs: seq<Cell>, ap: seq<Cell>, cut: seq<nat>,
                                           n: nat)
    requires |cut| == |pages| + 1 && cut[0] == 0 && n <= |pages|
    requires forall i :: 0 <= i < |pages| ==> IsStretch(kind, pages, divs, ap, cut, i)
    ensures cut[n] <= |ap| && Flat(kind, pages, divs, n) == ap[..cut[n]]
    decreases n
  {
    if n > 0 {
      FlatOfStretches(kind, pages, divs, ap, cut, n - 1);
      assert IsStretch(kind, pages, divs, ap, cut, n - 1);
      assert ap[..cut[n - 1]] + ap[cut[n - 1]..cut[n]] == ap[..cut[n]];
    }
  }

  /** Collecting what was dealt out gives back the cells that were dealt out. */
  lemma DealtGathers(kind: Kind, ap: seq<Cell>, cnt: seq<nat>, pages: seq<Page>, divs: seq<Cell>,
                     lastRight: nat, fillIn: int -> seq<nat>, pgno: seq<nat>)
    requires Boundaries(kind, ap, cnt) && Dealt(kind, ap, cnt, pgno, lastRight, fillIn, pages, divs)
    requires kind.IndexLeaf? ==> forall i :: 0 <= i < |ap| ==> ap[i].child == 0
    ensures Gathered(kind, pages, divs) == ap
  {
    var cut: seq<nat> := seq(|pages| + 1, i requires 0 <= i <= |cnt| => Stop(kind, ap, cnt, i));
    forall i | 0 <= i < |pages|
      ensures IsStretch(kind, pages, divs, ap, cut, i)
    {
      DealtPiece(kind, ap, cnt, pages, divs, lastRight, fillIn, pgno, i);
    }
    FlatOfStretches(kind, pages, divs, ap, cut, |pages|);
    assert ap[..|ap|] == ap;
  }

  /** Bytes that cells take on a page, pointers included. */
  function Bytes(kind: Kind, cells: seq<Cell>): nat {
    if cells == [] then 0
    else Bytes(kind, cells[..|cells| - 1]) + CellSize(!kind.Interior?, cells[|cells| - 1]) + 2
  }

  /** Everything a page holds fits beside the page header. */
  ghost predicate PageHolds(kind: Kind, usable: nat, page: Page) {
    Bytes(kind, page.cells) <= usable
  }

  lemma {:induction false} WeightIsBytes(kind: Kind, cells: seq<Cell>, lo: nat, hi: nat)
    requires lo <= hi <= |cells|
    ensures Weight(Sizes(kind, cells), lo, hi) == Bytes(kind, cells[lo..hi])
    decreases hi
  {
    if lo < hi {
      WeightIsBytes(kind, cells, lo, hi - 1);
      assert cells[lo..hi][..hi - 1 - lo] == cells[lo..hi - 1];
    }
  }

  lemma {:induction false} BytesAppend(kind: Kind, a: seq<Cell>, b: seq<Cell>)
    ensures Bytes(kind, a + b) == Bytes(kind, a) + Bytes(kind, b)
    decreases |b|
  {
    if b == [] {
      assert a + b == a;
    } else {
      BytesAppend(kind, a, b[..|b| - 1]);
      assert (a + b)[..|a + b| - 1] == a + b[..|b| - 1];
    }
  }

  /** Collects the cells and decides which page each goes to (btree.c:5021-5149). No division of the
      cells in order into pages that fit uses fewer pages. */
  method Plan(kind: Kind, usable: nat, sibs: seq<Page>, div: seq<Cell>)
    returns (apCell: seq<Cell>, szCell: seq<nat>, cntNew: seq<nat>)
    requires 0 < |sibs| == |div| + 1
    requires CellsFit(Sizes(kind, Gathered(kind, sibs, div)), usable, kind.TableLeaf?)
    ensures apCell == Gathered(kind, sibs, div) && szCell == Sizes(kind, apCell)
    ensures Planned(kind, usable, apCell, cntNew)
    ensures Fewest(kind, usable, apCell, |cntNew|) && Dense(kind, usable, apCell, |cntNew|)
    ensures TwoPass(szCell, usable, kind.TableLeaf?, cntNew)
  {
    apCell, szCell := Gather(kind, sibs, div);
    var szNew, greedy := GreedyPack(szCell, usable, kind.TableLeaf?);
    forall other | InOrderPacking(szCell, usable, kind.TableLeaf?, other)
      ensures |greedy| <= |other|
    {
      GreedyUsesFewestPages(szCell, usable, kind.TableLeaf?, greedy, other);
    }
    if !kind.TableLeaf? {
      GreedyIsDense(kind, usable, apCell, greedy);
    }
    cntNew := AdjustPack(szCell, usable, kind.TableLeaf?, szNew, greedy);
    assert TwoPassFrom(szCell, usable, kind.TableLeaf?, greedy, cntNew);
    PackingBounds(kind, apCell, usable, cntNew, greedy);
  }

  ghost predicate Planned(kind: Kind, usable: nat, ap: seq<Cell>, cnt: seq<nat>) {
    && Boundaries(kind, ap, cnt)
    && InOrderPacking(Sizes(kind, ap), usable, kind.TableLeaf?, cnt)
    && (ap != [] ==> NoPageEmpty(kind.TableLeaf?, cnt))
  }

  ghost predicate Dealt(kind: Kind, ap: seq<Cell>, cnt: seq<nat>, pgno: seq<nat>, lastRight: nat,
                        fillIn: int -> seq<nat>,
                        pages: seq<Page>, divs: seq<Cell>)
    requires Boundaries(kind, ap, cnt)
  {
    && |pgno| == |cnt| == |pages| == |divs| + 1
    && (forall i :: 0 <= i < |pages| ==> pages[i] == NewPage(kind, ap, cnt, lastRight, i))
    && (forall i :: 0 <= i < |divs| ==> divs[i] == NewDivider(kind, ap, cnt, fillIn, pgno[i], i))
  }

  lemma DealtPage(kind: Kind, usable: nat, ap: seq<Cell>, cnt: seq<nat>, pgno: seq<nat>, lastRight: nat,
                  fillIn: int -> seq<nat>,
                  pages: seq<Page>, divs: seq<Cell>, i: nat)
    requires Planned(kind, usable, ap, cnt) && Dealt(kind, ap, cnt, pgno, lastRight, fillIn, pages, divs)
    requires !kind.Interior? ==> forall j :: 0 <= j < |ap| ==> ap[j].child == 0
    requires i < |pages|
    ensures PageHolds(kind, usable, pages[i])
    ensures ap != [] ==> pages[i].cells != []
    ensures !kind.Interior? ==> forall j :: 0 <= j < |pages[i].cells| ==> pages[i].cells[j].child == 0
  {
    assert PageFits(Sizes(kind, ap), usable, kind.TableLeaf?, cnt, i);
    var lo, hi := Start(cnt, kind.TableLeaf?, i), cnt[i];
    assert pages[i].cells == NewPage(kind, ap, cnt, lastRight, i).cells == ap[lo..hi];
    WeightIsBytes(kind, ap, lo, hi);
  }

  /** The new pages and dividers hold the collected cells in the same order (and so, on interior
      pages, the same children in the same order), every page fits and none is empty. */
  lemma DealtPreserves(kind: Kind, usable: nat, ap: seq<Cell>, cnt: seq<nat>, pgno: seq<nat>, lastRight: nat,
                       fillIn: int -> seq<nat>,
                       pages: seq<Page>, divs: seq<Cell>)
    requires Planned(kind, usable, ap, cnt) && Dealt(kind, ap, cnt, pgno, lastRight, fillIn, pages, divs)
    requires !kind.Interior? ==> forall i :: 0 <= i < |ap| ==> ap[i].child == 0
    ensures Gathered(kind, pages, divs) == ap
    ensures kind.Interior? ==> pages[|pages| - 1].right == lastRight
    ensures LeafCellsPlain(kind, pages)
    ensures forall i :: 0 <= i < |pages| ==> PageHolds(kind, usable, pages[i])
    ensures ap != [] ==> forall i :: 0 <= i < |pages| ==> pages[i].cells != []
  {
    DealtGathers(kind, ap, cnt, pages, divs, lastRight, fillIn, pgno);
    assert pages[|pages| - 1] == NewPage(kind, ap, cnt, lastRight, |pages| - 1);
    forall i | 0 <= i < |pages|
      ensures PageHolds(kind, usable, pages[i])
      ensures ap != [] ==> pages[i].cells != []
      ensures !kind.Interior? ==> forall j :: 0 <= j < |pages[i].cells| ==> pages[i].cells[j].child == 0
    {
      DealtPage(kind, usable, ap, cnt, pgno, lastRight, fillIn, pages, divs, i);
    }
  }

  lemma PackingBounds(kind: Kind, ap: seq<Cell>, usable: nat, cnt: seq<nat>, greedy: seq<nat>)
    requires LeftPacked(Sizes(kind, ap), usable, kind.TableLeaf?, greedy) && |greedy| == |cnt|
    requires InOrderPacking(Sizes(kind, ap), usable, kind.TableLeaf?, cnt)
    requires |ap| > 0 ==> NoPageEmpty(kind.TableLeaf?, cnt)
    ensures Boundaries(kind, ap, cnt)
  {
    forall i | 0 <= i < |cnt|
      ensures Start(cnt, kind.TableLeaf?, i) <= cnt[i] <= |ap|
      ensures i < |cnt| - 1 ==> cnt[i] < |ap|
    {
      assert PageFits(Sizes(kind, ap), usable, kind.TableLeaf?, cnt, i);
      if i < |cnt| - 1 {
        assert PageFull(Sizes(kind, ap), usable, kind.TableLeaf?, greedy, i);
        NextBoundaryLarger(kind.TableLeaf?, cnt, |ap|, i);
      }
    }
  }

  lemma {:induction false} NextBoundaryLarger(leafData: bool, cnt: seq<nat>, n: nat, i: nat)
    requires NoPageEmpty(leafData, cnt) && i < |cnt| - 1 && cnt[|cnt| - 1] == n
    ensures cnt[i] < n
    decreases |cnt| - i
  {
    assert Start(cnt, leafData, i + 1) < cnt[i + 1];
    if i + 1 < |cnt| - 1 {
      NextBoundaryLarger(leafData, cnt, n, i + 1);
    }
  }

  // ---------- Keys of a table ----------

  ghost predicate Ascending(cells: seq<Cell>) {
    forall i, j :: 0 <= i < j < |cells| ==> cells[i].key < cells[j].key
  }

  ghost predicate AllUpTo(page: Page, key: int) {
    forall x :: x in page.cells ==> x.key <= key
  }

  ghost predicate AllAbove(page: Page, key: int) {
    forall x :: x in page.cells ==> key < x.key
  }

  /** The keys of a table ascend, and each divider separates what lies on its two sides. */
  ghost predicate TableOrdered(pages: seq<Page>, divs: seq<Cell>) {
    && |pages| == |divs| + 1
    && (forall i :: 0 <= i < |pages| ==> Ascending(pages[i].cells))
    && (forall i, j :: 0 <= i <= j < |divs| ==> AllUpTo(pages[i], divs[j].key))
    && (forall i, j :: 0 <= i < j < |pages| ==> AllAbove(pages[j], divs[i].key))
    && (forall i, j :: 0 <= i < j < |divs| ==> divs[i].key <= divs[j].key)
  }

  /** A new divider repeats the last key to its left, in the form fillInCell gives it. */
  ghost predicate TableDividers(pages: seq<Page>, divs: seq<Cell>, fillIn: int -> seq<nat>) {
    && |pages| == |divs| + 1
    && forall i :: 0 <= i < |divs| ==>
         && pages[i].cells != [] && divs[i].key == pages[i].cells[|pages[i].cells| - 1].key
         && divs[i].content == fillIn(divs[i].key)
  }

  lemma DealtTable(usable: nat, ap: seq<Cell>, cnt: seq<nat>, pgno: seq<nat>, lastRight: nat, fillIn: int -> seq<nat>,
                   pages: seq<Page>, divs: seq<Cell>)
    requires Planned(TableLeaf, usable, ap, cnt) && Dealt(TableLeaf, ap, cnt, pgno, lastRight, fillIn, pages, divs)
    requires Gathered(TableLeaf, pages, divs) == ap
    ensures TableDividers(pages, divs, fillIn)
  {
    forall i | 0 <= i < |divs|
      ensures pages[i].cells != [] && divs[i].key == pages[i].cells[|pages[i].cells| - 1].key
      ensures divs[i].content == fillIn(divs[i].key)
    {
      assert pages[i] == NewPage(TableLeaf, ap, cnt, lastRight, i);
      assert divs[i] == NewDivider(TableLeaf, ap, cnt, fillIn, pgno[i], i);
      assert Start(cnt, true, i) < cnt[i];
    }
  }

  /** Every cell collected from a table is on one of its pages. */
  lemma {:induction false} OnSomePage(pages: seq<Page>, divs: seq<Cell>, n: nat, x: Cell) returns (i: nat)
    requires n <= |pages| && x in Flat(TableLeaf, pages, divs, n)
    ensures i < n && x in pages[i].cells
    decreases n
  {
    hide Flat;
    if n == 0 {
      FlatNone(TableLeaf, pages, divs);
    } else {
      FlatNext(TableLeaf, pages, divs, n);
      if x in pages[n - 1].cells {
        i := n - 1;
      } else {
        i := OnSomePage(pages, divs, n - 1, x);
      }
    }
  }

  /** And every cell of a page is collected. */
  lemma OnPageCollected(pages: seq<Page>, divs: seq<Cell>, i: nat, x: Cell)
    requires i < |pages| && x in pages[i].cells
    ensures x in Gathered(TableLeaf, pages, divs)
  {
    hide Flat;
    WholePage(TableLeaf, pages, divs, i);
    var lo := |Flat(TableLeaf, pages, divs, i)|;
    var k :| 0 <= k < |pages[i].cells| && pages[i].cells[k] == x;
    assert Gathered(TableLeaf, pages, divs)[lo..lo + |pages[i].cells|][k] == x;
  }

  lemma {:induction false} TableAscends(pages: seq<Page>, divs: seq<Cell>, n: nat)
    requires TableOrdered(pages, divs) && n <= |pages|
    ensures Ascending(Flat(TableLeaf, pages, divs, n))
    decreases n
  {
    hide Flat;
    if n == 0 {
      FlatNone(TableLeaf, pages, divs);
    } else {
      TableAscends(pages, divs, n - 1);
      FlatNext(TableLeaf, pages, divs, n);
      var front, back := Flat(TableLeaf, pages, divs, n - 1), pages[n - 1].cells;
      forall x, y | x in front && y in back
        ensures x.key < y.key
      {
        var i := OnSomePage(pages, divs, n - 1, x);
        assert AllUpTo(pages[i], divs[i].key) && AllAbove(pages[n - 1], divs[i].key);
      }
      AscendingConcat(front, back);
    }
  }

  lemma AscendingConcat(a: seq<Cell>, b: seq<Cell>)
    requires Ascending(a) && Ascending(b) && forall x, y :: x in a && y in b ==> x.key < y.key
    ensures Ascending(a + b)
  {
  }

  /** Ascending cells, dealt out with dividers of this form, are an ordered table. */
  lemma DealtOrdered(pages: seq<Page>, divs: seq<Cell>, fillIn: int -> seq<nat>)
    requires TableDividers(pages, divs, fillIn) && Ascending(Gathered(TableLeaf, pages, divs))
    ensures TableOrdered(pages, divs)
  {
    hide Flat, Gathered;
    forall i | 0 <= i < |pages|
      ensures Ascending(pages[i].cells)
    {
      PageAscends(pages, divs, i);
    }
    forall i, j | 0 <= i <= j < |divs|
      ensures AllUpTo(pages[i], divs[j].key)
    {
      var last := pages[j].cells[|pages[j].cells| - 1];
      forall x | x in pages[i].cells
        ensures x.key <= last.key
      {
        if i < j {
          PagesAscend(pages, divs, i, j, x, last);
        } else {
          PageAscends(pages, divs, i);
        }
      }
    }
    forall i, j | 0 <= i < j < |pages|
      ensures AllAbove(pages[j], divs[i].key)
    {
      forall y | y in pages[j].cells
        ensures divs[i].key < y.key
      {
        PagesAscend(pages, divs, i, j, pages[i].cells[|pages[i].cells| - 1], y);
      }
    }
    forall i, j | 0 <= i < j < |divs|
      ensures divs[i].key <= divs[j].key
    {
      assert AllAbove(pages[j], divs[i].key);
    }
  }

  lemma PageAscends(pages: seq<Page>, divs: seq<Cell>, i: nat)
    requires i < |pages| && Ascending(Gathered(TableLeaf, pages, divs))
    ensures Ascending(pages[i].cells)
  {
    hide Flat;
    WholePage(TableLeaf, pages, divs, i);
    var all, lo, cells := Gathered(TableLeaf, pages, divs), |Flat(TableLeaf, pages, divs, i)|, pages[i].cells;
    forall a, b | 0 <= a < b < |cells|
      ensures cells[a].key < cells[b].key
    {
      assert all[lo..lo + |cells|][a] == all[lo + a] && all[lo..lo + |cells|][b] == all[lo + b];
    }
  }

  lemma PagesAscend(pages: seq<Page>, divs: seq<Cell>, i: nat, j: nat, x: Cell, y: Cell)
    requires i < j < |pages| && Ascending(Gathered(TableLeaf, pages, divs))
    requires x in pages[i].cells && y in pages[j].cells
    ensures x.key < y.key
  {
    hide Flat;
    var all := Gathered(TableLeaf, pages, divs);
    WholePage(TableLeaf, pages, divs, i);
    WholePage(TableLeaf, pages, divs, j);
    var lo, lo' := |Flat(TableLeaf, pages, divs, i)|, |Flat(TableLeaf, pages, divs, j)|;
    FlatNext(TableLeaf, pages, divs, i + 1);
    FlatPrefix(TableLeaf, pages, divs, i + 1, j);
    var a :| 0 <= a < |pages[i].cells| && pages[i].cells[a] == x;
    var b :| 0 <= b < |pages[j].cells| && pages[j].cells[b] == y;
    assert all[lo..lo + |pages[i].cells|][a] == all[lo + a] && all[lo'..lo' + |pages[j].cells|][b] == all[lo' + b];
  }

  /** Everything in the window stays in the window. */
  ghost predicate Within(pages: seq<Page>, was: seq<Page>) {
    forall i, x :: 0 <= i < |pages| && x in pages[i].cells ==> exists j :: 0 <= j < |was| && x in was[j].cells
  }

  /** A window of an ordered table may be replaced by an ordered one with the same cells. */
  lemma OrderSpliced(p: seq<Page>, d: seq<Cell>, first: nat, n: nat, pages: seq<Page>, divs: seq<Cell>, last: nat,
                     fillIn: int -> seq<nat>)
    requires TableOrdered(p, d) && 0 < n && first + n <= |p|
    requires TableOrdered(pages, divs) && TableDividers(pages, divs, fillIn) && Within(pages, p[first..first + n])
    ensures TableOrdered(p[..first] + pages + p[first + n..], SplicedParent(Page(d, 0), first, n, divs, last).cells)
  {
    var p', d' := p[..first] + pages + p[first + n..], SplicedParent(Page(d, 0), first, n, divs, last).cells;
    var m := |pages|;
    assert |p'| == |d'| + 1;
    forall i | 0 <= i < |p'|
      ensures Ascending(p'[i].cells)
    {
      if i >= first + m {
        assert p'[i] == p[i - m + n];
      }
    }
    forall i, j | 0 <= i <= j < |d'|
      ensures AllUpTo(p'[i], d'[j].key)
    {
      SplicedUpTo(p, d, first, n, pages, divs, last, fillIn, i, j);
    }
    forall i, j | 0 <= i < j < |p'|
      ensures AllAbove(p'[j], d'[i].key)
    {
      SplicedAbove(p, d, first, n, pages, divs, last, fillIn, i, j);
    }
    forall i, j | 0 <= i < j < |d'|
      ensures d'[i].key <= d'[j].key
    {
      SplicedRising(p, d, first, n, pages, divs, last, fillIn, i, j);
    }
  }

  /** A cell of the new window lies between the old dividers around the window. */
  lemma BetweenOuter(p: seq<Page>, d: seq<Cell>, first: nat, n: nat, pages: seq<Page>, i: nat, x: Cell)
    requires TableOrdered(p, d) && 0 < n && first + n <= |p| && Within(pages, p[first..first + n])
    requires i < |pages| && x in pages[i].cells
    ensures forall j :: 0 <= j < first ==> d[j].key < x.key
    ensures forall j :: first + n - 1 <= j < |d| ==> x.key <= d[j].key
    ensures forall j, y :: first + n <= j < |p| && y in p[j].cells ==> x.key < y.key
  {
    var k :| 0 <= k < n && x in p[first..first + n][k].cells;
    forall j | 0 <= j < first
      ensures d[j].key < x.key
    {
      assert AllAbove(p[first + k], d[j].key);
    }
    forall j | first + n - 1 <= j < |d|
      ensures x.key <= d[j].key
    {
      assert AllUpTo(p[first + k], d[j].key);
    }
    forall j, y | first + n <= j < |p| && y in p[j].cells
      ensures x.key < y.key
    {
      assert AllUpTo(p[first + k], d[first + n - 1].key) && AllAbove(p[j], d[first + n - 1].key);
    }
  }

  /** Where the keys of the spliced dividers come from. */
  lemma SplicedKey(d: seq<Cell>, first: nat, n: nat, divs: seq<Cell>, last: nat, j: nat)
    requires 0 < n && first + n <= |d| + 1
    ensures |SplicedParent(Page(d, 0), first, n, divs, last).cells| + n == |d| + |divs| + 1
    ensures j < |SplicedParent(Page(d, 0), first, n, divs, last).cells| ==>
              SplicedParent(Page(d, 0), first, n, divs, last).cells[j].key ==
              if j < first then d[j].key
              else if j < first + |divs| then divs[j - first].key else d[j - |divs| - 1 + n].key
  {
  }

  lemma SplicedUpTo(p: seq<Page>, d: seq<Cell>, first: nat, n: nat, pages: seq<Page>, divs: seq<Cell>, last: nat,
                    fillIn: int -> seq<nat>, i: nat, j: nat)
    requires TableOrdered(p, d) && 0 < n && first + n <= |p|
    requires TableOrdered(pages, divs) && TableDividers(pages, divs, fillIn) && Within(pages, p[first..first + n])
    requires i <= j < |SplicedParent(Page(d, 0), first, n, divs, last).cells|
    ensures AllUpTo((p[..first] + pages + p[first + n..])[i],
                    SplicedParent(Page(d, 0), first, n, divs, last).cells[j].key)
  {
    hide SplicedParent;
    SplicedKey(d, first, n, divs, last, j);
    var p', d' := p[..first] + pages + p[first + n..], SplicedParent(Page(d, 0), first, n, divs, last).cells;
    var m := |pages|;
    var jj := j - m + n;
    if first <= j < first + m - 1 {
      var end := pages[j - first].cells[|pages[j - first].cells| - 1];
      BetweenOuter(p, d, first, n, pages, j - first, end);
      if i < first {
        assert AllUpTo(p[i], d[first - 1].key);
      } else {
        assert AllUpTo(pages[i - first], divs[j - first].key);
      }
    } else if j < first {
      assert AllUpTo(p[i], d[j].key);
    } else {
      assert d'[j].key == d[jj].key;
      if first <= i < first + m {
        assert p'[i] == pages[i - first];
        WindowUpTo(p, d, first, n, pages, i - first, jj);
      } else {
        assert AllUpTo(p[if i < first then i else i - m + n], d[jj].key);
      }
    }
  }

  lemma WindowUpTo(p: seq<Page>, d: seq<Cell>, first: nat, n: nat, pages: seq<Page>, i: nat, j: nat)
    requires TableOrdered(p, d) && 0 < n && first + n <= |p| && Within(pages, p[first..first + n])
    requires i < |pages| && first + n - 1 <= j < |d|
    ensures AllUpTo(pages[i], d[j].key)
  {
    forall x | x in pages[i].cells
      ensures x.key <= d[j].key
    {
      BetweenOuter(p, d, first, n, pages, i, x);
    }
  }

  lemma SplicedAbove(p: seq<Page>, d: seq<Cell>, first: nat, n: nat, pages: seq<Page>, divs: seq<Cell>, last: nat,
                     fillIn: int -> seq<nat>, i: nat, j: nat)
    requires TableOrdered(p, d) && 0 < n && first + n <= |p|
    requires TableOrdered(pages, divs) && TableDividers(pages, divs, fillIn) && Within(pages, p[first..first + n])
    requires i < j < |p[..first] + pages + p[first + n..]|
    ensures |p[..first] + pages + p[first + n..]| == |SplicedParent(Page(d, 0), first, n, divs, last).cells| + 1
    ensures AllAbove((p[..first] + pages + p[first + n..])[j],
                     SplicedParent(Page(d, 0), first, n, divs, last).cells[i].key)
  {
    hide SplicedParent;
    SplicedKey(d, first, n, divs, last, i);
    var p', d' := p[..first] + pages + p[first + n..], SplicedParent(Page(d, 0), first, n, divs, last).cells;
    var m := |pages|;
    var jj := j - m + n;
    if first <= i < first + m - 1 {
      var end := pages[i - first].cells[|pages[i - first].cells| - 1];
      BetweenOuter(p, d, first, n, pages, i - first, end);
      if j < first + m {
        assert AllAbove(pages[j - first], divs[i - first].key);
      } else {
        assert p'[j] == p[jj];
      }
    } else if i < first {
      if first <= j < first + m {
        forall x | x in p'[j].cells
          ensures d[i].key < x.key
        {
          BetweenOuter(p, d, first, n, pages, j - first, x);
        }
      } else {
        assert AllAbove(p[if j < first then j else jj], d[i].key);
      }
    } else {
      assert d'[i].key == d[i - m + n].key && AllAbove(p[jj], d[i - m + n].key);
    }
  }

  lemma SplicedRising(p: seq<Page>, d: seq<Cell>, first: nat, n: nat, pages: seq<Page>, divs: seq<Cell>, last: nat,
                      fillIn: int -> seq<nat>, i: nat, j: nat)
    requires TableOrdered(p, d) && 0 < n && first + n <= |p|
    requires TableOrdered(pages, divs) && TableDividers(pages, divs, fillIn) && Within(pages, p[first..first + n])
    requires i < j < |SplicedParent(Page(d, 0), first, n, divs, last).cells|
    ensures var d' := SplicedParent(Page(d, 0), first, n, divs, last).cells; d'[i].key <= d'[j].key
  {
    hide SplicedParent;
    SplicedKey(d, first, n, divs, last, i);
    SplicedKey(d, first, n, divs, last, j);
    var m := |pages|;
    if first <= i < first + m - 1 {
      BetweenOuter(p, d, first, n, pages, i - first, pages[i - first].cells[|pages[i - first].cells| - 1]);
    }
    if first <= j < first + m - 1 {
      BetweenOuter(p, d, first, n, pages, j - first, pages[j - first].cells[|pages[j - first].cells| - 1]);
    }
  }

  /** The boundaries that pages already have. */
  function PageEnds(kind: Kind, pages: seq<Page>, divs: seq<Cell>): seq<nat> {
    seq(|pages|, i requires 0 <= i < |pages| => |Flat(kind, pages, divs, i)| + |pages[i].cells|)
  }

  /** The new pages end at the boundaries planned for them. */
  lemma DealtEnds(kind: Kind, ap: seq<Cell>, cnt: seq<nat>, pages: seq<Page>, divs: seq<Cell>,
                  lastRight: nat, fillIn: int -> seq<nat>, pgno: seq<nat>)
    requires Boundaries(kind, ap, cnt) && Dealt(kind, ap, cnt, pgno, lastRight, fillIn, pages, divs)
    requires kind.IndexLeaf? ==> forall i :: 0 <= i < |ap| ==> ap[i].child == 0
    ensures PageEnds(kind, pages, divs) == cnt
  {
    hide Flat;
    var cut: seq<nat> := seq(|pages| + 1, i requires 0 <= i <= |cnt| => Stop(kind, ap, cnt, i));
    forall i | 0 <= i < |pages|
      ensures IsStretch(kind, pages, divs, ap, cut, i)
    {
      DealtPiece(kind, ap, cnt, pages, divs, lastRight, fillIn, pgno, i);
    }
    forall i | 0 <= i < |pages|
      ensures PageEnds(kind, pages, divs)[i] == cnt[i]
    {
      FlatOfStretches(kind, pages, divs, ap, cut, i);
      assert pages[i] == NewPage(kind, ap, cnt, lastRight, i);
    }
  }

  lemma {:induction false} FlatPrefix(kind: Kind, pages: seq<Page>, divs: seq<Cell>, i: nat, n: nat)
    requires i <= n <= |pages|
    ensures Flat(kind, pages, divs, i) <= Flat(kind, pages, divs, n)
    decreases n
  {
    if i < n {
      FlatPrefix(kind, pages, divs, i, n - 1);
    }
  }

  lemma PageEndFits(kind: Kind, usable: nat, pages: seq<Page>, divs: seq<Cell>, i: nat)
    requires |pages| == |divs| + 1 && i < |pages| && PageHolds(kind, usable, pages[i])
    ensures PageFits(Sizes(kind, Gathered(kind, pages, divs)), usable, kind.TableLeaf?, PageEnds(kind, pages, divs), i)
  {
    hide Flat, Bytes, Weight, PageEnds;
    PageStarts(kind, pages, divs, i);
    var ap, lo := Gathered(kind, pages, divs), |Flat(kind, pages, divs, i)|;
    WholePage(kind, pages, divs, i);
    WeightIsBytes(kind, ap, lo, lo + |pages[i].cells|);
  }

  lemma PageStarts(kind: Kind, pages: seq<Page>, divs: seq<Cell>, i: nat)
    requires |pages| == |divs| + 1 && i < |pages|
    ensures |PageEnds(kind, pages, divs)| == |pages| &&
            Start(PageEnds(kind, pages, divs), kind.TableLeaf?, i) == |Flat(kind, pages, divs, i)|
    ensures PageEnds(kind, pages, divs)[i] == |Flat(kind, pages, divs, i)| + |pages[i].cells|
  {
    hide Flat;
    if i > 0 {
      FlatNext(kind, pages, divs, i);
    } else {
      FlatNone(kind, pages, divs);
    }
  }

  lemma WholePage(kind: Kind, pages: seq<Page>, divs: seq<Cell>, i: nat)
    requires i < |pages|
    ensures var lo := |Flat(kind, pages, divs, i)|;
            var hi := lo + |pages[i].cells|;
            hi <= |Gathered(kind, pages, divs)| && Gathered(kind, pages, divs)[lo..hi] == pages[i].cells
  {
    hide Flat;
    FlatNext(kind, pages, divs, i + 1);
    FlatPrefix(kind, pages, divs, i + 1, |pages|);
  }

  lemma FlatNone(kind: Kind, pages: seq<Page>, divs: seq<Cell>)
    ensures Flat(kind, pages, divs, 0) == []
  {
  }

  /** Pages that fit are one way to pack what they hold. */
  lemma PagesPack(kind: Kind, usable: nat, pages: seq<Page>, divs: seq<Cell>)
    requires |pages| == |divs| + 1 && AllHold(kind, usable, pages)
    ensures InOrderPacking(Sizes(kind, Gathered(kind, pages, divs)), usable, kind.TableLeaf?,
                           PageEnds(kind, pages, divs))
  {
    hide Flat, PageFits, PageHolds;
    forall i | 0 <= i < |pages|
      ensures PageFits(Sizes(kind, Gathered(kind, pages, divs)), usable, kind.TableLeaf?, PageEnds(kind, pages, divs),
                       i)
    {
      PageEndFits(kind, usable, pages, divs, i);
    }
    FlatNext(kind, pages, divs, |pages|);
  }

  ghost predicate AllHold(kind: Kind, usable: nat, pages: seq<Page>) {
    forall i :: 0 <= i < |pages| ==> PageHolds(kind, usable, pages[i])
  }

  /** Cell k of page q is the one that did not go on its page; it fits alone, and all else fits. */
  ghost predicate HoldsBut(kind: Kind, usable: nat, sibs: seq<Page>, q: nat, k: nat) {
    && q < |sibs| && k < |sibs[q].cells|
    && PageHolds(kind, usable, Page(sibs[q].cells[..k] + sibs[q].cells[k + 1..], 0))
    && PageHolds(kind, usable, Page([sibs[q].cells[k]], 0))
    && forall i :: 0 <= i < |sibs| && i != q ==> PageHolds(kind, usable, sibs[i])
  }

  ghost predicate OneTooMany(kind: Kind, usable: nat, sibs: seq<Page>) {
    exists q, k :: HoldsBut(kind, usable, sibs, q, k)
  }

  /** How many pages a page with a cell too many is split into: that cell becomes the divider, or, in
      a table, where a divider holds no data, a page of its own. */
  function SplitCount(kind: Kind): nat {
    if kind.TableLeaf? then 3 else 2
  }

  lemma SplitPage(kind: Kind, page: Page, k: nat) returns (mid: seq<Page>, divs: seq<Cell>)
    requires k < |page.cells| && (!kind.Interior? ==> page.cells[k].child == 0)
    ensures |mid| == |divs| + 1 == SplitCount(kind) && mid[|divs|].right == page.right
    ensures mid[0].cells == page.cells[..k] && mid[|divs|].cells == page.cells[k + 1..]
    ensures kind.TableLeaf? ==> mid[1].cells == [page.cells[k]]
    ensures Gathered(kind, mid, divs) == page.cells
  {
    var x := page.cells[k];
    var left, right := Page(page.cells[..k], x.child), Page(page.cells[k + 1..], page.right);
    mid, divs := if kind.TableLeaf? then [left, Page([x], 0), right] else [left, right],
                 if kind.TableLeaf? then [x, x] else [x];
    assert page.cells == page.cells[..k] + [x] + page.cells[k + 1..];
    assert Flat(kind, mid, divs, 1) == [] + Piece(kind, mid, divs, 0);
    assert Flat(kind, mid, divs, 2) == Flat(kind, mid, divs, 1) + Piece(kind, mid, divs, 1);
  }

  /** Pages that fit but for one cell can be packed with one page more, two in a table. */
  lemma SplitPacks(kind: Kind, usable: nat, sibs: seq<Page>, div: seq<Cell>, q: nat, k: nat) returns (other: seq<nat>)
    requires |sibs| == |div| + 1 && HoldsBut(kind, usable, sibs, q, k) && LeafCellsPlain(kind, sibs)
    ensures InOrderPacking(Sizes(kind, Gathered(kind, sibs, div)), usable, kind.TableLeaf?, other)
    ensures |other| == |sibs| - 1 + SplitCount(kind)
  {
    hide Flat, Gathered, Bytes, InOrderPacking, Fewest;
    var mid, divs := SplitPage(kind, sibs[q], k);
    GatheredOne(kind, sibs[q]);
    assert sibs[q..q + 1] == [sibs[q]] && div[q..q] == [];
    ReplacedGather(kind, sibs, Page(div, 0), q, 1, mid, divs, 0);
    var pages, divs' := sibs[..q] + mid + sibs[q + 1..], SplicedParent(Page(div, 0), q, 1, divs, 0).cells;
    SplitHolds(kind, usable, sibs, q, k, mid);
    PagesPack(kind, usable, pages, divs');
    other := PageEnds(kind, pages, divs');
  }

  lemma SplitHolds(kind: Kind, usable: nat, sibs: seq<Page>, q: nat, k: nat, mid: seq<Page>)
    requires HoldsBut(kind, usable, sibs, q, k) && |mid| == SplitCount(kind)
    requires mid[0].cells == sibs[q].cells[..k] && mid[|mid| - 1].cells == sibs[q].cells[k + 1..]
    requires kind.TableLeaf? ==> mid[1].cells == [sibs[q].cells[k]]
    ensures AllHold(kind, usable, sibs[..q] + mid + sibs[q + 1..])
  {
    hide Bytes;
    var cells, pages := sibs[q].cells, sibs[..q] + mid + sibs[q + 1..];
    BytesAppend(kind, cells[..k], cells[k + 1..]);
    forall i | 0 <= i < |pages|
      ensures PageHolds(kind, usable, pages[i])
    {
      if i >= q + |mid| {
        assert pages[i] == sibs[i - |mid| + 1];
      } else if i >= q {
        assert pages[i] == mid[i - q];
      }
    }
  }

  lemma GatheredOne(kind: Kind, page: Page)
    ensures Gathered(kind, [page], []) == page.cells
  {
    assert Flat(kind, [page], [], 0) == [];
  }

  ghost predicate Fewest(kind: Kind, usable: nat, cells: seq<Cell>, n: nat) {
    forall other :: InOrderPacking(Sizes(kind, cells), usable, kind.TableLeaf?, other) ==> n <= |other|
  }

  /** Where dividers are taken out, all pages but the last hold, with the divider behind them, more than
      fits on a page. */
  ghost predicate Dense(kind: Kind, usable: nat, cells: seq<Cell>, n: nat) {
    !kind.TableLeaf? ==> (n - 1) * (usable + 1) <= Bytes(kind, cells)
  }

  lemma GreedyIsDense(kind: Kind, usable: nat, ap: seq<Cell>, cnt: seq<nat>)
    requires !kind.TableLeaf? && LeftPacked(Sizes(kind, ap), usable, false, cnt)
    ensures Dense(kind, usable, ap, |cnt|)
  {
    var last := |cnt| - 1;
    LeftPackedDense(Sizes(kind, ap), usable, cnt, last);
    WeightSplit(Sizes(kind, ap), 0, Start(cnt, false, last), |ap|);
    WeightIsBytes(kind, ap, 0, |ap|);
    assert ap[0..|ap|] == ap;
  }

  function Sum(s: seq<nat>): nat {
    if s == [] then 0 else Sum(s[..|s| - 1]) + s[|s| - 1]
  }

  /** Page q holds up to extra[q] cells too many, none of them and no divider larger than c bytes. */
  ghost predicate Overfull(kind: Kind, usable: nat, sibs: seq<Page>, div: seq<Cell>, extra: seq<nat>, c: nat) {
    && |extra| == |sibs|
    && (forall q :: 0 <= q < |sibs| ==> Bytes(kind, sibs[q].cells) <= usable + extra[q] * c)
    && (forall i :: 0 <= i < |div| ==> CellSize(!kind.Interior?, div[i]) + 2 <= c)
  }

  /** As many cells too many as MemPage.aOvfl has room for, and cells of at most two sevenths of a page;
      on these pages the limits on local payload keep them to little more than a quarter. */
  ghost predicate FewTooMany(kind: Kind, usable: nat, sibs: seq<Page>, div: seq<Cell>) {
    exists extra: seq<nat>, c: nat ::
      Overfull(kind, usable, sibs, div, extra, c) && Sum(extra) <= 5 && 7 * c <= 2 * usable + 4
  }

  /** maxLocal with maxEmbedFrac 64. */
  function MaxLocal(usableSize: nat): int {
    (usableSize - 12) * 64 / 255 - 23
  }

  /** A cell without data beside its key takes at most four bytes for the child, nine for the size of the
      key, maxLocal bytes of it and four for the overflow page; that is below two sevenths of a page. */
  lemma CellsAreSmall(usableSize: nat, size: nat)
    requires usableSize >= 512 && size <= 4 + 9 + MaxLocal(usableSize) + 4
    ensures 7 * (size + 2) <= 2 * (usableSize - 12) + 4
  {
  }

  lemma {:induction false} OverfullBytes(kind: Kind, usable: nat, sibs: seq<Page>, div: seq<Cell>, extra: seq<nat>,
                                         c: nat, n: nat)
    requires Overfull(kind, usable, sibs, div, extra, c) && |sibs| == |div| + 1 && n <= |sibs|
    ensures Bytes(kind, Flat(kind, sibs, div, n)) <=
            n * usable + Sum(extra[..n]) * c + (if n <= |div| then n else |div|) * c
    decreases n
  {
    hide Flat, Bytes;
    if n == 0 {
      FlatNone(kind, sibs, div);
      BytesNone(kind);
    } else {
      OverfullBytes(kind, usable, sibs, div, extra, c, n - 1);
      FlatNext(kind, sibs, div, n);
      BytesAppend(kind, Flat(kind, sibs, div, n - 1), Piece(kind, sibs, div, n - 1));
      PieceBytes(kind, sibs, div, n - 1, c);
      assert extra[..n][..n - 1] == extra[..n - 1];
      OnePageMore(n - 1, usable, Sum(extra[..n - 1]), extra[n - 1], c);
    }
  }

  lemma OnePageMore(n: nat, usable: nat, s: nat, e: nat, c: nat)
    ensures (n + 1) * usable == n * usable + usable && (s + e) * c == s * c + e * c && (n + 1) * c == n * c + c
  {
  }

  lemma BytesNone(kind: Kind)
    ensures Bytes(kind, []) == 0
  {
  }

  lemma PieceBytes(kind: Kind, pages: seq<Page>, divs: seq<Cell>, i: nat, c: nat)
    requires i < |pages| && (i < |divs| ==> CellSize(!kind.Interior?, divs[i]) + 2 <= c)
    ensures Bytes(kind, Piece(kind, pages, divs, i)) <= Bytes(kind, pages[i].cells) + if i < |divs| then c else 0
  {
    var low := if i < |divs| then Lowered(kind, divs[i], pages[i]) else [];
    BytesAppend(kind, pages[i].cells, low);
    BytesNone(kind);
    if low != [] {
      assert low[..0] == [];
    }
  }

  /** Index leaves and interior pages never need more than NB+2 pages, even with all five overflow
      cells that a page can carry. */
  lemma OverfullBound(kind: Kind, usable: nat, sibs: seq<Page>, div: seq<Cell>, n: nat)
    requires !kind.TableLeaf? && |sibs| == |div| + 1 <= NB && FewTooMany(kind, usable, sibs, div)
    requires Dense(kind, usable, Gathered(kind, sibs, div), n)
    ensures n <= NB + 2
  {
    hide Flat, Bytes, Overfull, Sum;
    var extra: seq<nat>, c: nat :|
      Overfull(kind, usable, sibs, div, extra, c) && Sum(extra) <= 5 && 7 * c <= 2 * usable + 4;
    OverfullLength(kind, usable, sibs, div, extra, c);
    OverfullBytes(kind, usable, sibs, div, extra, c, |sibs|);
    assert extra[..|sibs|] == extra;
    AtMost(|sibs|, 3, usable);
    AtMost(Sum(extra), 5, c);
    AtMost(|div|, 2, c);
    if n > NB + 2 {
      AtMost(5, n - 1, usable + 1);
    }
  }

  lemma OverfullLength(kind: Kind, usable: nat, sibs: seq<Page>, div: seq<Cell>, extra: seq<nat>, c: nat)
    requires Overfull(kind, usable, sibs, div, extra, c)
    ensures |extra| == |sibs|
  {
  }

  lemma AtMost(a: nat, b: nat, x: nat)
    requires a <= b
    ensures a * x <= b * x
  {
    assert b * x == a * x + (b - a) * x;
  }

  /** When the siblings fit, no page is added. When one of them holds one cell that did not go on its
      page, one page is added, or two in a table: with at most NB siblings the NB+2 entries of cntNew,
      szNew, apNew and pgnoNew suffice. */
  lemma PageCountBound(kind: Kind, usable: nat, sibs: seq<Page>, div: seq<Cell>, n: nat)
    requires |sibs| == |div| + 1 && LeafCellsPlain(kind, sibs) && Fewest(kind, usable, Gathered(kind, sibs, div), n)
    ensures AllHold(kind, usable, sibs) ==> n <= |sibs|
    ensures OneTooMany(kind, usable, sibs) ==> n <= |sibs| - 1 + SplitCount(kind) <= |sibs| + 2
  {
    if AllHold(kind, usable, sibs) {
      PagesPack(kind, usable, sibs, div);
    }
    if OneTooMany(kind, usable, sibs) {
      var q, k :| HoldsBut(kind, usable, sibs, q, k);
      var other := SplitPacks(kind, usable, sibs, div, q, k);
    }
  }

  // ---------- The parent page ----------

  /** All child pointers of a page, left to right. */
  function Children(p: Page): (c: seq<nat>)
    ensures |c| == |p.cells| + 1
  {
    seq(|p.cells| + 1, i requires 0 <= i <= |p.cells| => if i < |p.cells| then p.cells[i].child else p.right)
  }

  type Pager = map<nat, Page>

  ghost predicate ChildrenPresent(parent: Page, pager: Pager) {
    && (forall c :: c in Children(parent) ==> c in pager)
    && Distinct(Children(parent))
  }

  ghost predicate Distinct(s: seq<nat>) {
    forall i, j :: 0 <= i < j < |s| ==> s[i] != s[j]
  }

  function ChildPages(parent: Page, pager: Pager): (p: seq<Page>)
    requires forall c :: c in Children(parent) ==> c in pager
    ensures |p| == |parent.cells| + 1
  {
    seq(|parent.cells| + 1, i requires 0 <= i <= |parent.cells| => pager[Children(parent)[i]])
  }

  /** Everything below and in the parent, in key order. */
  function InOrder(kind: Kind, parent: Page, pager: Pager): seq<Cell>
    requires forall c :: c in Children(parent) ==> c in pager
  {
    Gathered(kind, ChildPages(parent, pager), parent.cells)
  }

  /** Which children take part: at most NB neighbours around child `idx` (btree.c:4932-4960). */
  function FirstSibling(idx: nat, nCell: nat): nat
    requires idx <= nCell
  {
    var nxDiv := idx - NN;
    var nxDiv := if nxDiv + NB > nCell then nCell - NB + 1 else nxDiv;
    if nxDiv < 0 then 0 else nxDiv
  }

  function SiblingCount(idx: nat, nCell: nat): nat
    requires idx <= nCell
  {
    if nCell + 1 - FirstSibling(idx, nCell) < NB then nCell + 1 - FirstSibling(idx, nCell) else NB
  }

  lemma SiblingWindow(idx: nat, nCell: nat)
    requires idx <= nCell
    ensures var first, n := FirstSibling(idx, nCell), SiblingCount(idx, nCell);
            && first <= idx < first + n <= nCell + 1
            && (n == NB || (first == 0 && n == nCell + 1 < NB))
            && (idx > 0 ==> first < idx) && (idx < nCell ==> idx + 1 < first + n)
  {
  }

  /** The smallest page number from position i on. */
  method Smallest(a: array<nat>, i: nat) returns (minI: nat)
    requires i < a.Length
    ensures i <= minI < a.Length && forall n :: i <= n < a.Length ==> a[minI] <= a[n]
  {
    minI := i;
    for j := i + 1 to a.Length
      invariant i <= minI < a.Length
      invariant forall n :: i <= n < j ==> a[minI] <= a[n]
    {
      if a[j] < a[minI] {
        minI := j;
      }
    }
  }

  /** Puts the page numbers in ascending order (btree.c:5205-5226). */
  method SortPageNumbers(a: array<nat>)
    requires a.Length > 0
    requires forall i, j :: 0 <= i < j < a.Length ==> a[i] != a[j]
    modifies a
    ensures forall i, j :: 0 <= i < j < a.Length ==> a[i] < a[j]
    ensures multiset(a[..]) == multiset(old(a[..]))
  {
    for i := 0 to a.Length - 1
      invariant SortedFront(a[..], i) && multiset(a[..]) == multiset(old(a[..]))
    {
      ghost var before := a[..];
      var minI := Smallest(a, i);
      SmallestInFront(before, i, minI);
      if minI > i {
        a[i], a[minI] := a[minI], a[i];
      }
      assert a[..] == Exchanged(before, i, minI);
    }
    ghost var s := a[..];
    assert forall m :: 0 <= m < a.Length ==> a[m] == s[m];
  }

  /** All numbers are different, and each of the first i is smaller than all behind it. */
  ghost predicate SortedFront(s: seq<nat>, i: nat) {
    Distinct(s) && forall m, n :: 0 <= m < i && m < n < |s| ==> s[m] < s[n]
  }

  ghost function Exchanged(s: seq<nat>, i: nat, k: nat): seq<nat>
    requires i < |s| && k < |s|
  {
    s[i := s[k]][k := s[i]]
  }

  lemma SmallestInFront(s: seq<nat>, i: nat, k: nat)
    requires SortedFront(s, i) && i <= k < |s| && forall n :: i <= n < |s| ==> s[k] <= s[n]
    ensures SortedFront(Exchanged(s, i, k), i + 1) && multiset(Exchanged(s, i, k)) == multiset(s)
  {
  }

  /** The parent once its n-1 dividers from position `first` on have been replaced by `divs` and the
      pointer to the last sibling by `last`. */
  function SplicedParent(parent: Page, first: nat, n: nat, divs: seq<Cell>, last: nat): Page
    requires 0 < n && first + n <= |parent.cells| + 1
  {
    var rest := parent.cells[first + n - 1..];
    if rest == [] then Page(parent.cells[..first] + divs, last)
    else Page(parent.cells[..first] + divs + [rest[0].(child := last)] + rest[1..], parent.right)
  }

  /** Drops the old dividers, inserts the new ones and sets the pointer to the right-most sibling
      (btree.c:5021-5090, 5339-5351). */
  method SpliceParent(parent: Page, first: nat, n: nat, divs: seq<Cell>, last: nat) returns (p: Page)
    requires 0 < n && first + n <= |parent.cells| + 1
    ensures p == SplicedParent(parent, first, n, divs, last)
  {
    p := parent;
    for i := 0 to n - 1
      invariant p == parent.(cells := parent.cells[..first] + parent.cells[first + i..])
    {
      p := p.(cells := p.cells[..first] + p.cells[first + 1..]);
    }
    ghost var rest := parent.cells[first + n - 1..];
    var nxDiv := first;
    for i := 0 to |divs|
      invariant nxDiv == first + i
      invariant p == parent.(cells := parent.cells[..first] + divs[..i] + rest)
    {
      p := p.(cells := p.cells[..nxDiv] + [divs[i]] + p.cells[nxDiv..]);
      nxDiv := nxDiv + 1;
    }
    assert divs[..|divs|] == divs;
    if nxDiv == |p.cells| {
      p := p.(right := last);
    } else {
      p := p.(cells := p.cells[nxDiv := p.cells[nxDiv].(child := last)]);
    }
  }

  /** The children of the spliced parent are the old ones with the siblings replaced. */
  lemma SplicedChildren(parent: Page, first: nat, n: nat, divs: seq<Cell>, pgno: seq<nat>)
    requires 0 < n && first + n <= |parent.cells| + 1 && |pgno| == |divs| + 1
    requires forall i :: 0 <= i < |divs| ==> divs[i].child == pgno[i]
    ensures Children(SplicedParent(parent, first, n, divs, pgno[|divs|]))
         == Children(parent)[..first] + pgno + Children(parent)[first + n..]
  {
  }

  // ---------- What a level holds ----------

  /** The cells of a level in key order without their pointers; the dividers of a table only repeat keys. */
  function Content(kind: Kind, pages: seq<Page>, divs: seq<Cell>, n: nat): seq<Cell>
    requires n <= |pages|
  {
    if n == 0 then []
    else
      Content(kind, pages, divs, n - 1) + Plain(pages[n - 1].cells) +
      if !kind.TableLeaf? && n - 1 < |divs| then [divs[n - 1].(child := 0)] else []
  }

  function Plain(cells: seq<Cell>): seq<Cell> {
    seq(|cells|, i requires 0 <= i < |cells| => cells[i].(child := 0))
  }

  /** All pages the pages of a level point to, left to right. */
  function Grandchildren(pages: seq<Page>, n: nat): seq<nat>
    requires n <= |pages|
  {
    if n == 0 then [] else Grandchildren(pages, n - 1) + Children(pages[n - 1])
  }

  function Pointers(cells: seq<Cell>): seq<nat> {
    seq(|cells|, i requires 0 <= i < |cells| => cells[i].child)
  }

  lemma PlainConcat(a: seq<Cell>, b: seq<Cell>)
    ensures Plain(a + b) == Plain(a) + Plain(b) && Pointers(a + b) == Pointers(a) + Pointers(b)
  {
  }

  lemma {:induction false} ContentIs(kind: Kind, pages: seq<Page>, divs: seq<Cell>, n: nat)
    requires n <= |pages|
    ensures Plain(Flat(kind, pages, divs, n)) == Content(kind, pages, divs, n)
    decreases n
  {
    hide Flat, Plain;
    if n == 0 {
      FlatNone(kind, pages, divs);
      NothingPlain();
    } else {
      ContentIs(kind, pages, divs, n - 1);
      FlatNext(kind, pages, divs, n);
      var low := if n - 1 < |divs| then Lowered(kind, divs[n - 1], pages[n - 1]) else [];
      PlainConcat(Flat(kind, pages, divs, n - 1), pages[n - 1].cells + low);
      PlainConcat(pages[n - 1].cells, low);
      LoweredPlain(kind, pages, divs, n - 1);
    }
  }

  lemma NothingPlain()
    ensures Plain([]) == [] && Pointers([]) == []
  {
  }

  lemma LoweredPlain(kind: Kind, pages: seq<Page>, divs: seq<Cell>, i: nat)
    requires i < |pages|
    ensures Plain(if i < |divs| then Lowered(kind, divs[i], pages[i]) else []) ==
            if !kind.TableLeaf? && i < |divs| then [divs[i].(child := 0)] else []
  {
  }

  lemma {:induction false} GrandchildrenAre(pages: seq<Page>, divs: seq<Cell>, n: nat)
    requires n <= |divs| < |pages|
    ensures Pointers(Flat(Interior, pages, divs, n)) == Grandchildren(pages, n)
    decreases n
  {
    hide Flat, Pointers, Piece, Children;
    if n == 0 {
      FlatNone(Interior, pages, divs);
      NothingPlain();
    } else {
      GrandchildrenAre(pages, divs, n - 1);
      FlatNext(Interior, pages, divs, n);
      PlainConcat(Flat(Interior, pages, divs, n - 1), Piece(Interior, pages, divs, n - 1));
      PiecePointers(pages, divs, n - 1);
    }
  }

  lemma PiecePointers(pages: seq<Page>, divs: seq<Cell>, i: nat)
    requires i < |pages|
    ensures i < |divs| ==> Pointers(Piece(Interior, pages, divs, i)) == Children(pages[i])
    ensures i >= |divs| ==> Pointers(Piece(Interior, pages, divs, i)) + [pages[i].right] == Children(pages[i])
  {
  }

  lemma AllGrandchildren(pages: seq<Page>, divs: seq<Cell>)
    requires |pages| == |divs| + 1
    ensures Grandchildren(pages, |pages|) == Pointers(Gathered(Interior, pages, divs)) + [pages[|divs|].right]
  {
    hide Flat, Pointers, Piece, Children, Grandchildren;
    var n := |divs|;
    GrandchildrenAre(pages, divs, n);
    FlatNext(Interior, pages, divs, n + 1);
    PlainConcat(Flat(Interior, pages, divs, n), Piece(Interior, pages, divs, n));
    PiecePointers(pages, divs, n);
    NextGrandchildren(pages, n + 1);
    AppendLast(Grandchildren(pages, n), Pointers(Piece(Interior, pages, divs, n)), pages[n].right);
  }

  lemma NextGrandchildren(pages: seq<Page>, n: nat)
    requires 0 < n <= |pages|
    ensures Grandchildren(pages, n) == Grandchildren(pages, n - 1) + Children(pages[n - 1])
  {
  }

  lemma AppendLast(a: seq<nat>, b: seq<nat>, x: nat)
    ensures a + (b + [x]) == a + b + [x]
  {
  }

  lemma GatheredContent(kind: Kind, pages: seq<Page>, divs: seq<Cell>)
    ensures Plain(Gathered(kind, pages, divs)) == Content(kind, pages, divs, |pages|)
  {
    hide Flat, Content, Plain;
    ContentIs(kind, pages, divs, |pages|);
  }

  /** Levels that collect to the same cells hold the same content and, with the same last pointer, the same
      grandchildren. */
  lemma SameLevel(kind: Kind, p: seq<Page>, d: seq<Cell>, q: seq<Page>, e: seq<Cell>)
    requires |p| == |d| + 1 && |q| == |e| + 1 && Gathered(kind, p, d) == Gathered(kind, q, e)
    requires kind.Interior? ==> p[|d|].right == q[|e|].right
    ensures Content(kind, p, d, |p|) == Content(kind, q, e, |q|)
    ensures kind.Interior? ==> Grandchildren(p, |p|) == Grandchildren(q, |q|)
  {
    hide Gathered, Content, Grandchildren, Plain, Pointers;
    GatheredContent(kind, p, d);
    GatheredContent(kind, q, e);
    if kind.Interior? {
      AllGrandchildren(p, d);
      AllGrandchildren(q, e);
    }
  }

  // ---------- The whole step ----------

  /** What lies between the outermost of n children from `first` on, in key order. */
  function WindowCells(kind: Kind, parent: Page, pager: Pager, first: nat, n: nat): seq<Cell>
    requires 0 < n && first + n <= |parent.cells| + 1 && forall c :: c in Children(parent) ==> c in pager
  {
    Gathered(kind, ChildPages(parent, pager)[first..first + n], parent.cells[first..first + n - 1])
  }

  /** Page numbers for k new siblings: the old ones first, then newly allocated ones, in ascending
      order (btree.c:5155-5226). */
  method NumberPages(oldPgno: seq<nat>, k: nat, alloc: nat -> nat) returns (pgno: seq<nat>)
    requires k > 0
    requires Distinct(oldPgno)
    requires forall i, j :: 0 <= i < j ==> alloc(i) != alloc(j)
    requires forall i: nat :: alloc(i) !in oldPgno
    ensures |pgno| == k
    ensures forall i, j :: 0 <= i < j < k ==> pgno[i] < pgno[j]
    ensures multiset(pgno) == multiset(NumbersFor(oldPgno, k, alloc))
  {
    var a := new nat[k](i => if 0 <= i < |oldPgno| then oldPgno[i] else if i >= 0 then alloc(i) else 0);
    assert a[..] == NumbersFor(oldPgno, k, alloc);
    SortPageNumbers(a);
    pgno := a[..];
  }

  /** The old numbers, as many as are needed, and newly allocated ones only for pages beyond. */
  function NumbersFor(oldPgno: seq<nat>, k: nat, alloc: nat -> nat): seq<nat> {
    seq(k, i requires 0 <= i < k => if i < |oldPgno| then oldPgno[i] else alloc(i))
  }

  ghost predicate Reused(was: seq<nat>, pgno: seq<nat>) {
    forall i :: 0 <= i < |was| && i < |pgno| ==> was[i] in pgno
  }

  lemma NumbersReused(oldPgno: seq<nat>, k: nat, alloc: nat -> nat, pgno: seq<nat>)
    requires multiset(pgno) == multiset(NumbersFor(oldPgno, k, alloc))
    ensures forall x :: x in pgno ==> x in oldPgno || exists i: nat :: x == alloc(i)
    ensures |pgno| == k ==> Reused(oldPgno, pgno)
  {
    var numbers := NumbersFor(oldPgno, k, alloc);
    forall x | x in pgno
      ensures x in oldPgno || exists i: nat :: x == alloc(i)
    {
      assert x in multiset(pgno);
      var i :| 0 <= i < |numbers| && numbers[i] == x;
    }
    forall i | 0 <= i < |oldPgno| && i < k
      ensures oldPgno[i] in pgno
    {
      assert numbers[i] == oldPgno[i];
      assert oldPgno[i] in multiset(numbers);
    }
  }

  /** One balancing step on a parent and the children around child `idx`: whatever is in the tree
      below the parent stays, in the same order and over the same grandchildren; the rebuilt siblings
      fit and are not empty; the other children are untouched. `alloc` gives the page numbers obtained
      from allocateBtreePage. */
  method BalanceSiblings(kind: Kind, usable: nat, parent: Page, pager: Pager, idx: nat, alloc: nat -> nat,
                         fillIn: int -> seq<nat>)
    returns (first: nat, n: nat, parent': Page, pager': Pager, pgnoNew: seq<nat>)
    requires idx <= |parent.cells| && ChildrenPresent(parent, pager)
    requires LeafCellsPlain(kind, ChildPages(parent, pager))
    requires forall i, j :: 0 <= i < j ==> alloc(i) != alloc(j)
    requires forall i: nat :: alloc(i) !in pager
    requires forall first, n | 0 <= first <= idx < first + n <= |parent.cells| + 1 && n <= NB ::
               CellsFit(Sizes(kind, WindowCells(kind, parent, pager, first, n)), usable, kind.TableLeaf?)
    ensures first <= idx < first + n <= |parent.cells| + 1 &&
            n == (if |parent.cells| + 1 < NB then |parent.cells| + 1 else NB)
    ensures (idx > 0 ==> first < idx) && (idx < |parent.cells| ==> idx + 1 < first + n)
    ensures BalancedWindow(kind, usable, parent, pager, first, n, parent', pager', pgnoNew, fillIn)
    ensures AllHold(kind, usable, ChildPages(parent, pager)[first..first + n]) ==> |pgnoNew| <= n
    ensures OneTooMany(kind, usable, ChildPages(parent, pager)[first..first + n]) ==>
              |pgnoNew| <= n - 1 + SplitCount(kind) <= NB + 2
    ensures var sibs, div := ChildPages(parent, pager)[first..first + n], parent.cells[first..first + n - 1];
            !kind.TableLeaf? && FewTooMany(kind, usable, sibs, div) ==> |pgnoNew| <= NB + 2
  {
    first, n := FirstSibling(idx, |parent.cells|), SiblingCount(idx, |parent.cells|);
    SiblingWindow(idx, |parent.cells|);
    parent', pager', pgnoNew := BalanceWindow(kind, usable, parent, pager, first, n, alloc, fillIn);
    hide BalancedWindow, OneTooMany, FewTooMany, AllHold;
    WindowCount(kind, usable, parent, pager, first, n, parent', pager', pgnoNew, fillIn);
  }

  lemma WindowCount(kind: Kind, usable: nat, parent: Page, pager: Pager, first: nat, n: nat, parent': Page,
                    pager': Pager, pgnoNew: seq<nat>, fillIn: int -> seq<nat>)
    requires 0 < n <= NB && first + n <= |parent.cells| + 1 && ChildrenPresent(parent, pager)
    requires LeafCellsPlain(kind, ChildPages(parent, pager))
    requires BalancedWindow(kind, usable, parent, pager, first, n, parent', pager', pgnoNew, fillIn)
    ensures var sibs, div := ChildPages(parent, pager)[first..first + n], parent.cells[first..first + n - 1];
            && (AllHold(kind, usable, sibs) ==> |pgnoNew| <= n)
            && (OneTooMany(kind, usable, sibs) ==> |pgnoNew| <= n - 1 + SplitCount(kind) <= NB + 2)
            && (!kind.TableLeaf? && FewTooMany(kind, usable, sibs, div) ==> |pgnoNew| <= NB + 2)
  {
    hide Flat, Fewest, Dense, OneTooMany, FewTooMany, AllHold, Renumbered, TwoPass, TableDividers, TableOrdered;
    var sibs, div := ChildPages(parent, pager)[first..first + n], parent.cells[first..first + n - 1];
    PageCountBound(kind, usable, sibs, div, |pgnoNew|);
    if !kind.TableLeaf? && FewTooMany(kind, usable, sibs, div) {
      OverfullBound(kind, usable, sibs, div, |pgnoNew|);
    }
  }

  /** Outside the window the parent's cells are the same but for the pointer behind the window, which its
      list of children gives. */
  ghost predicate SameDividers(parent: Page, parent': Page, first: nat, n: nat, m: nat)
    requires 0 < n && 0 < m && first + n <= |parent.cells| + 1 && |parent'.cells| + n == |parent.cells| + m
  {
    && parent'.cells[..first] == parent.cells[..first]
    && forall i :: first + m - 1 <= i < |parent'.cells| ==>
         parent'.cells[i].(child := 0) == parent.cells[i - m + n].(child := 0)
  }

  /** The new siblings stand where the old ones stood, under their numbers, and nothing else changes. */
  ghost predicate InPlace(parent: Page, pager: Pager, first: nat, n: nat, parent': Page, pager': Pager,
                          pgnoNew: seq<nat>)
    requires 0 < n && first + n <= |parent.cells| + 1 && ChildrenPresent(parent, pager)
  {
    && ChildrenPresent(parent', pager') && |pgnoNew| > 0
    && Children(parent') == Children(parent)[..first] + pgnoNew + Children(parent)[first + n..]
    && |parent'.cells| + n == |parent.cells| + |pgnoNew| && SameDividers(parent, parent', first, n, |pgnoNew|)
    && (forall c :: c in pager && c !in Children(parent)[first..first + n] ==> c in pager' && pager'[c] == pager[c])
    && Renumbered(Children(parent)[first..first + n], pager, pager', pgnoNew)
    && (forall i, j :: 0 <= i < j < |pgnoNew| ==> pgnoNew[i] < pgnoNew[j])
  }

  /** Below the parent, itself included, stands the same in the same order, over the same pages. */
  ghost predicate SameBelow(kind: Kind, parent: Page, pager: Pager, parent': Page, pager': Pager)
    requires ChildrenPresent(parent, pager) && ChildrenPresent(parent', pager')
  {
    var p, p' := ChildPages(parent, pager), ChildPages(parent', pager');
    && InOrder(kind, parent', pager') == InOrder(kind, parent, pager)
    && Content(kind, p', parent'.cells, |p'|) == Content(kind, p, parent.cells, |p|)
    && (kind.Interior? ==> Grandchildren(p', |p'|) == Grandchildren(p, |p|))
  }

  ghost predicate BalancedWindow(kind: Kind, usable: nat, parent: Page, pager: Pager, first: nat, n: nat,
                                 parent': Page, pager': Pager, pgnoNew: seq<nat>, fillIn: int -> seq<nat>)
    requires 0 < n && first + n <= |parent.cells| + 1 && ChildrenPresent(parent, pager)
  {
    && InPlace(parent, pager, first, n, parent', pager', pgnoNew)
    && SameBelow(kind, parent, pager, parent', pager')
    && Rebuilt(kind, usable, ChildPages(parent, pager)[first..first + n], parent.cells[first..first + n - 1],
               ChildPages(parent', pager')[first..first + |pgnoNew|], parent'.cells[first..first + |pgnoNew| - 1],
                 fillIn)
    && (kind.TableLeaf? && TableOrdered(ChildPages(parent, pager), parent.cells) ==>
          TableOrdered(ChildPages(parent', pager'), parent'.cells))
  }

  /** The new siblings keep the numbers of the old ones as far as they go and get unused ones beyond;
      old siblings no longer needed are gone, and no other page has come. */
  ghost predicate Renumbered(was: seq<nat>, pager: Pager, pager': Pager, pgno: seq<nat>) {
    && Reused(was, pgno)
    && (forall c :: c in pgno ==> c in was || c !in pager)
    && (forall c :: c in was && c !in pgno ==> c !in pager')
    && (forall c :: c in pager' ==> c in pager || c in pgno)
  }

  method BalanceWindow(kind: Kind, usable: nat, parent: Page, pager: Pager, first: nat, n: nat, alloc: nat -> nat,
                       fillIn: int -> seq<nat>)
    returns (parent': Page, pager': Pager, pgnoNew: seq<nat>)
    requires 0 < n && first + n <= |parent.cells| + 1 && ChildrenPresent(parent, pager)
    requires LeafCellsPlain(kind, ChildPages(parent, pager))
    requires forall i, j :: 0 <= i < j ==> alloc(i) != alloc(j)
    requires forall i: nat :: alloc(i) !in pager
    requires CellsFit(Sizes(kind, WindowCells(kind, parent, pager, first, n)), usable, kind.TableLeaf?)
    ensures BalancedWindow(kind, usable, parent, pager, first, n, parent', pager', pgnoNew, fillIn)
  {
    hide Flat, Fewest, Dense, CellsFit, Sizes, Spliced, Renumbered, Rebuilt;
    var sibs, div := ChildPages(parent, pager)[first..first + n], parent.cells[first..first + n - 1];
    var siblings := Children(parent)[first..first + n];
    var pages, divs;
    pages, divs, pgnoNew := RebuildSiblings(kind, usable, sibs, div, siblings, alloc, fillIn);
    NumbersReused(siblings, |pgnoNew|, alloc, pgnoNew);
    RebuiltParts(kind, usable, sibs, div, pages, divs, fillIn);
    parent', pager' := StoreAndSplice(parent, pager, first, n, divs, pgnoNew, pages);
    WindowBalanced(kind, usable, parent, pager, first, n, divs, pgnoNew, pages, parent', pager', fillIn);
  }

  /** What the new pages keep of the old ones. */
  ghost predicate Rebuilt(kind: Kind, usable: nat, sibs: seq<Page>, div: seq<Cell>, pages: seq<Page>, divs: seq<Cell>,
                          fillIn: int -> seq<nat>) {
    && |sibs| == |div| + 1 && |pages| == |divs| + 1
    && Gathered(kind, pages, divs) == Gathered(kind, sibs, div)
    && (kind.Interior? ==> pages[|pages| - 1].right == sibs[|sibs| - 1].right)
    && AllHold(kind, usable, pages)
    && (Gathered(kind, sibs, div) != [] ==> forall i :: 0 <= i < |pages| ==> pages[i].cells != [])
    && Fewest(kind, usable, Gathered(kind, sibs, div), |pages|)
    && Dense(kind, usable, Gathered(kind, sibs, div), |pages|)
    && TwoPass(Sizes(kind, Gathered(kind, sibs, div)), usable, kind.TableLeaf?, PageEnds(kind, pages, divs))
    && (kind.TableLeaf? ==> TableDividers(pages, divs, fillIn))
  }

  lemma RebuiltParts(kind: Kind, usable: nat, sibs: seq<Page>, div: seq<Cell>, pages: seq<Page>, divs: seq<Cell>,
                     fillIn: int -> seq<nat>)
    requires Rebuilt(kind, usable, sibs, div, pages, divs, fillIn)
    ensures |sibs| == |div| + 1 && |pages| == |divs| + 1
    ensures Gathered(kind, pages, divs) == Gathered(kind, sibs, div)
    ensures kind.Interior? ==> pages[|pages| - 1].right == sibs[|sibs| - 1].right
  {
  }

  lemma WindowBalanced(kind: Kind, usable: nat, parent: Page, pager: Pager, first: nat, n: nat, divs: seq<Cell>,
                       pgno: seq<nat>, pages: seq<Page>, parent': Page, pager': Pager, fillIn: int -> seq<nat>)
    requires Spliced(parent, pager, first, n, divs, pgno, pages, parent', pager')
    requires Rebuilt(kind, usable, ChildPages(parent, pager)[first..first + n], parent.cells[first..first + n - 1],
                     pages, divs, fillIn)
    requires Renumbered(Children(parent)[first..first + n], pager, pager', pgno)
    requires forall i, j :: 0 <= i < j < |pgno| ==> pgno[i] < pgno[j]
    ensures BalancedWindow(kind, usable, parent, pager, first, n, parent', pager', pgno, fillIn)
  {
    hide Gathered, Rebuilt, Renumbered, SplicedParent, SameDividers, TableOrdered, InPlace, Content, Grandchildren;
    hide SameBelow;
    BelowKept(kind, usable, parent, pager, first, n, divs, pgno, pages, parent', pager', fillIn);
    PutInPlace(parent, pager, first, n, divs, pgno, pages, parent', pager');
    SplicedPages(parent, pager, first, n, divs, pgno, pages, parent', pager');
    SplicedOutside(parent, first, n, divs, pgno[|divs|]);
    assert ChildPages(parent', pager')[first..first + |pgno|] == pages;
    if kind.TableLeaf? && TableOrdered(ChildPages(parent, pager), parent.cells) {
      TableKept(usable, parent, ChildPages(parent, pager), first, n, pages, divs, pgno[|divs|], fillIn);
    }
  }

  lemma BelowKept(kind: Kind, usable: nat, parent: Page, pager: Pager, first: nat, n: nat, divs: seq<Cell>,
                  pgno: seq<nat>, pages: seq<Page>, parent': Page, pager': Pager, fillIn: int -> seq<nat>)
    requires Spliced(parent, pager, first, n, divs, pgno, pages, parent', pager')
    requires Rebuilt(kind, usable, ChildPages(parent, pager)[first..first + n], parent.cells[first..first + n - 1],
                     pages, divs, fillIn)
    ensures ChildrenPresent(parent', pager') && SameBelow(kind, parent, pager, parent', pager')
  {
    hide Gathered, Rebuilt, SplicedParent, Content, Grandchildren;
    RebuiltParts(kind, usable, ChildPages(parent, pager)[first..first + n], parent.cells[first..first + n - 1], pages,
                 divs, fillIn);
    BalancedTree(kind, parent, pager, first, n, divs, pgno, pages, parent', pager');
    LastRight(kind, parent, pager, first, n, divs, pgno, pages, parent', pager');
    LastChild(parent, pager);
    LastChild(parent', pager');
    SameLevel(kind, ChildPages(parent', pager'), parent'.cells, ChildPages(parent, pager), parent.cells);
  }

  lemma LastChild(parent: Page, pager: Pager)
    requires ChildrenPresent(parent, pager)
    ensures parent.right in pager && ChildPages(parent, pager)[|parent.cells|] == pager[parent.right]
  {
    assert Children(parent)[|parent.cells|] == parent.right;
  }

  lemma PutInPlace(parent: Page, pager: Pager, first: nat, n: nat, divs: seq<Cell>, pgno: seq<nat>, pages: seq<Page>,
                   parent': Page, pager': Pager)
    requires Spliced(parent, pager, first, n, divs, pgno, pages, parent', pager')
    requires Renumbered(Children(parent)[first..first + n], pager, pager', pgno)
    requires forall i, j :: 0 <= i < j < |pgno| ==> pgno[i] < pgno[j]
    ensures InPlace(parent, pager, first, n, parent', pager', pgno)
  {
    hide Renumbered, SplicedParent, SameDividers;
    SplicedPages(parent, pager, first, n, divs, pgno, pages, parent', pager');
    SplicedOutside(parent, first, n, divs, pgno[|divs|]);
  }

  lemma SplicedOutside(parent: Page, first: nat, n: nat, divs: seq<Cell>, last: nat)
    requires 0 < n && first + n <= |parent.cells| + 1
    ensures var parent' := SplicedParent(parent, first, n, divs, last);
            && |parent'.cells| + n == |parent.cells| + |divs| + 1
            && parent'.cells[first..first + |divs|] == divs && SameDividers(parent, parent', first, n, |divs| + 1)
  {
  }

  /** Balancing table leaves keeps the table ordered. */
  lemma TableKept(usable: nat, parent: Page, p: seq<Page>, first: nat, n: nat, pages: seq<Page>, divs: seq<Cell>,
                  last: nat, fillIn: int -> seq<nat>)
    requires TableOrdered(p, parent.cells) && 0 < n && first + n <= |p|
    requires Rebuilt(TableLeaf, usable, p[first..first + n], parent.cells[first..first + n - 1], pages, divs, fillIn)
    ensures TableOrdered(p[..first] + pages + p[first + n..], SplicedParent(parent, first, n, divs, last).cells)
  {
    hide Flat, Fewest, Dense, TwoPass;
    var sibs, div := p[first..first + n], parent.cells[first..first + n - 1];
    hide TableOrdered;
    WindowOrdered(p, parent.cells, first, n);
    TableAscends(sibs, div, n);
    DealtOrdered(pages, divs, fillIn);
    forall i, x | 0 <= i < |pages| && x in pages[i].cells
      ensures exists j :: 0 <= j < |sibs| && x in sibs[j].cells
    {
      OnPageCollected(pages, divs, i, x);
      var j := OnSomePage(sibs, div, n, x);
    }
    OrderSpliced(p, parent.cells, first, n, pages, divs, last, fillIn);
  }

  lemma WindowOrdered(p: seq<Page>, d: seq<Cell>, first: nat, n: nat)
    requires TableOrdered(p, d) && 0 < n && first + n <= |p|
    ensures TableOrdered(p[first..first + n], d[first..first + n - 1])
  {
  }

  method StoreAndSplice(parent: Page, pager: Pager, first: nat, n: nat, divs: seq<Cell>, pgno: seq<nat>,
                        pages: seq<Page>)
    returns (parent': Page, pager': Pager)
    requires ChildrenPresent(parent, pager) && 0 < n && first + n <= |parent.cells| + 1
    requires |pages| == |pgno| == |divs| + 1 && Distinct(pgno)
    requires forall i :: 0 <= i < |divs| ==> divs[i].child == pgno[i]
    requires forall c :: c in pgno ==> c in Children(parent)[first..first + n] || c !in pager
    requires Reused(Children(parent)[first..first + n], pgno)
    ensures Spliced(parent, pager, first, n, divs, pgno, pages, parent', pager')
    ensures Renumbered(Children(parent)[first..first + n], pager, pager', pgno)
  {
    parent' := SpliceParent(parent, first, n, divs, pgno[|divs|]);
    var siblings := Children(parent)[first..first + n];
    pager' := StorePages(pager - (set c | c in siblings), pgno, pages);
  }

  method RebuildSiblings(kind: Kind, usable: nat, sibs: seq<Page>, div: seq<Cell>, oldPgno: seq<nat>, alloc: nat -> nat,
                         fillIn: int -> seq<nat>)
    returns (pages: seq<Page>, divs: seq<Cell>, pgnoNew: seq<nat>)
    requires 0 < |sibs| == |div| + 1
    requires LeafCellsPlain(kind, sibs) && Distinct(oldPgno)
    requires forall i, j :: 0 <= i < j ==> alloc(i) != alloc(j)
    requires forall i: nat :: alloc(i) !in oldPgno
    requires CellsFit(Sizes(kind, Gathered(kind, sibs, div)), usable, kind.TableLeaf?)
    ensures |pages| == |pgnoNew| && Rebuilt(kind, usable, sibs, div, pages, divs, fillIn)
    ensures forall i :: 0 <= i < |divs| && i < |pgnoNew| ==> divs[i].child == pgnoNew[i]
    ensures forall i, j :: 0 <= i < j < |pgnoNew| ==> pgnoNew[i] < pgnoNew[j]
    ensures multiset(pgnoNew) == multiset(NumbersFor(oldPgno, |pages|, alloc))
  {
    hide Flat, Bytes, TwoPass, Fewest, Dense, TableDividers, NoPageEmpty, InOrderPacking, PageEnds;
    var apCell, szCell, cntNew := Plan(kind, usable, sibs, div);
    pgnoNew := NumberPages(oldPgno, |cntNew|, alloc);
    var lastRight := sibs[|sibs| - 1].right;
    var divSize;
    pages, divs, divSize := Distribute(kind, apCell, szCell, cntNew, pgnoNew, lastRight, fillIn);
    if !kind.Interior? {
      FlatPlain(kind, sibs, div, |sibs|);
    }
    DealtPreserves(kind, usable, apCell, cntNew, pgnoNew, lastRight, fillIn, pages, divs);
    DealtEnds(kind, apCell, cntNew, pages, divs, lastRight, fillIn, pgnoNew);
    if kind.TableLeaf? {
      DealtTable(usable, apCell, cntNew, pgnoNew, lastRight, fillIn, pages, divs);
    }
  }

  method StorePages(pager: Pager, pgno: seq<nat>, pages: seq<Page>) returns (pager': Pager)
    requires |pgno| == |pages|
    requires Distinct(pgno)
    ensures forall i :: 0 <= i < |pgno| ==> pgno[i] in pager' && pager'[pgno[i]] == pages[i]
    ensures forall c :: c !in pgno ==> (c in pager' <==> c in pager) && (c in pager ==> pager'[c] == pager[c])
  {
    pager' := pager;
    for i := 0 to |pages|
      invariant forall j :: 0 <= j < i ==> pgno[j] in pager' && pager'[pgno[j]] == pages[j]
      invariant forall c :: c !in pgno ==> (c in pager' <==> c in pager) && (c in pager ==> pager'[c] == pager[c])
    {
      pager' := pager'[pgno[i] := pages[i]];
    }
  }

  /** The new siblings are stored under their numbers, the parent points to them, and nothing outside
      the window has changed. */
  ghost predicate Spliced(parent: Page, pager: Pager, first: nat, n: nat, divs: seq<Cell>, pgno: seq<nat>,
                          pages: seq<Page>,
                          parent': Page, pager': Pager) {
    && ChildrenPresent(parent, pager) && 0 < n && first + n <= |parent.cells| + 1
    && |pages| == |pgno| == |divs| + 1
    && (forall i :: 0 <= i < |divs| ==> divs[i].child == pgno[i])
    && parent' == SplicedParent(parent, first, n, divs, pgno[|divs|])
    && Distinct(pgno)
    && (forall c :: c in pgno ==> c in Children(parent)[first..first + n] || c !in pager)
    && (forall i :: 0 <= i < |pgno| ==> pgno[i] in pager' && pager'[pgno[i]] == pages[i])
    && (forall c :: c in pager && c !in Children(parent)[first..first + n] ==> c in pager' && pager'[c] == pager[c])
  }

  lemma SplicedDistinct(c: seq<nat>, first: nat, n: nat, pgno: seq<nat>)
    requires Distinct(c) && first + n <= |c| && Distinct(pgno)
    requires forall x :: x in pgno ==> x in c[first..first + n] || x !in c
    ensures Distinct(c[..first] + pgno + c[first + n..])
  {
    var s, k := c[..first] + pgno + c[first + n..], |pgno|;
    forall i, j | 0 <= i < j < |s|
      ensures s[i] != s[j]
    {
      if first <= i < first + k <= j {
        assert s[i] in pgno && s[j] == c[j - k + n] && s[j] !in c[first..first + n];
      } else if i < first <= j < first + k {
        assert s[j] in pgno && s[i] == c[i] && s[i] !in c[first..first + n];
      }
    }
  }

  lemma SplicedPages(parent: Page, pager: Pager, first: nat, n: nat, divs: seq<Cell>, pgno: seq<nat>, pages: seq<Page>,
                     parent': Page, pager': Pager)
    requires Spliced(parent, pager, first, n, divs, pgno, pages, parent', pager')
    ensures Children(parent') == Children(parent)[..first] + pgno + Children(parent)[first + n..]
    ensures ChildrenPresent(parent', pager')
    ensures ChildPages(parent', pager') ==
            ChildPages(parent, pager)[..first] + pages + ChildPages(parent, pager)[first + n..]
  {
    SplicedChildren(parent, first, n, divs, pgno);
    var c, c' := Children(parent), Children(parent');
    SplicedDistinct(c, first, n, pgno);
    var p, k := ChildPages(parent, pager), |pgno|;
    forall i | 0 <= i < |c'|
      ensures c'[i] in pager'
      ensures pager'[c'[i]] == (p[..first] + pages + p[first + n..])[i]
    {
      SiblingsApart(parent, pager, first, n, pgno, i);
    }
  }

  /** Storing the new siblings and splicing the parent leaves the tree's contents in place. */
  lemma BalancedTree(kind: Kind, parent: Page, pager: Pager, first: nat, n: nat, divs: seq<Cell>, pgno: seq<nat>,
                     pages: seq<Page>,
                     parent': Page, pager': Pager)
    requires Spliced(parent, pager, first, n, divs, pgno, pages, parent', pager')
    requires var sibs, div := ChildPages(parent, pager)[first..first + n], parent.cells[first..first + n - 1];
             && Gathered(kind, pages, divs) == Gathered(kind, sibs, div)
             && (kind.Interior? ==> pages[|pages| - 1].right == sibs[n - 1].right)
    ensures ChildrenPresent(parent', pager')
    ensures Children(parent') == Children(parent)[..first] + pgno + Children(parent)[first + n..]
    ensures InOrder(kind, parent', pager') == InOrder(kind, parent, pager)
  {
    SplicedPages(parent, pager, first, n, divs, pgno, pages, parent', pager');
    ReplacedGather(kind, ChildPages(parent, pager), parent, first, n, pages, divs, pgno[|divs|]);
  }

  /** The last pointer of the last child, which no cell carries, stays too. */
  lemma LastRight(kind: Kind, parent: Page, pager: Pager, first: nat, n: nat, divs: seq<Cell>, pgno: seq<nat>,
                  pages: seq<Page>, parent': Page, pager': Pager)
    requires Spliced(parent, pager, first, n, divs, pgno, pages, parent', pager')
    requires kind.Interior? ==> pages[|pages| - 1].right == ChildPages(parent, pager)[first + n - 1].right
    ensures parent.right in pager && parent'.right in pager'
    ensures kind.Interior? ==> pager'[parent'.right].right == pager[parent.right].right
  {
    SplicedPages(parent, pager, first, n, divs, pgno, pages, parent', pager');
    assert parent.right == Children(parent)[|parent.cells|] && parent'.right == Children(parent')[|parent'.cells|];
    assert pager'[parent'.right] == ChildPages(parent', pager')[|parent'.cells|];
    assert pager[parent.right] == ChildPages(parent, pager)[|parent.cells|];
  }

  lemma ReplacedGather(kind: Kind, p: seq<Page>, parent: Page, first: nat, n: nat, pages: seq<Page>, divs: seq<Cell>,
                       last: nat)
    requires |p| == |parent.cells| + 1 && 0 < n && first + n <= |p| && |pages| == |divs| + 1
    requires Gathered(kind, pages, divs) == Gathered(kind, p[first..first + n], parent.cells[first..first + n - 1])
    requires kind.Interior? ==> pages[|divs|].right == p[first + n - 1].right
    ensures Gathered(kind, p[..first] + pages + p[first + n..], SplicedParent(parent, first, n, divs, last).cells)
         == Gathered(kind, p, parent.cells)
  {
    var d := parent.cells;
    var sibs, div := p[first..first + n], d[first..first + n - 1];
    assert p == p[..first] + sibs + p[first + n..];
    if first + n == |p| {
      assert d == d[..first] + div;
      ReplacedAtEnd(kind, p[..first], d[..first], sibs, div, pages, divs);
    } else {
      var x, f := d[first + n - 1], d[first + n..];
      assert d[first + n - 1..] == [x] + f;
      assert d == d[..first] + (div + [x]) + f;
      assert SplicedParent(parent, first, n, divs, last).cells == d[..first] + (divs + [x.(child := last)]) + f;
      ReplacedInside(kind, p[..first], d[..first], sibs, div, pages, divs, x, last, p[first + n..], f);
    }
  }

  lemma ReplacedAtEnd(kind: Kind, p: seq<Page>, d: seq<Cell>, sibs: seq<Page>, div: seq<Cell>, pages: seq<Page>,
                      divs: seq<Cell>)
    requires |p| == |d| && |sibs| == |div| + 1 && |pages| == |divs| + 1
    requires Gathered(kind, pages, divs) == Gathered(kind, sibs, div)
    ensures Gathered(kind, p + sibs + [], d + div) == Gathered(kind, p + pages + [], d + divs)
  {
    assert p + sibs + [] == p + sibs && p + pages + [] == p + pages;
    FlatAppend(kind, p, d, sibs, div, |sibs|);
    FlatAppend(kind, p, d, pages, divs, |pages|);
  }

  lemma ReplacedInside(kind: Kind, p: seq<Page>, d: seq<Cell>, sibs: seq<Page>, div: seq<Cell>, pages: seq<Page>,
                       divs: seq<Cell>,
                       x: Cell, last: nat, r: seq<Page>, f: seq<Cell>)
    requires |p| == |d| && |sibs| == |div| + 1 && |pages| == |divs| + 1 && |r| == |f| + 1
    requires Gathered(kind, pages, divs) == Gathered(kind, sibs, div)
    requires kind.Interior? ==> pages[|divs|].right == sibs[|div|].right
    ensures Gathered(kind, p + sibs + r, d + (div + [x]) + f) ==
            Gathered(kind, p + pages + r, d + (divs + [x.(child := last)]) + f)
  {
    GatheredThree(kind, p, d, sibs, div + [x], r, f);
    GatheredThree(kind, p, d, pages, divs + [x.(child := last)], r, f);
    GatheredWithNext(kind, sibs, div, x);
    GatheredWithNext(kind, pages, divs, x.(child := last));
  }

  lemma GatheredThree(kind: Kind, p: seq<Page>, d: seq<Cell>, q: seq<Page>, e: seq<Cell>, r: seq<Page>, f: seq<Cell>)
    requires |p| == |d| && |q| == |e| && |r| == |f| + 1
    ensures Gathered(kind, p + q + r, d + e + f) == Gathered(kind, p, d) + Gathered(kind, q, e) + Gathered(kind, r, f)
  {
    hide Flat;
    FlatAppend(kind, p + q, d + e, r, f, |r|);
    FlatAppend(kind, p, d, q, e, |q|);
  }

  lemma GatheredWithNext(kind: Kind, pages: seq<Page>, divs: seq<Cell>, x: Cell)
    requires |pages| == |divs| + 1
    ensures Gathered(kind, pages, divs + [x]) == Gathered(kind, pages, divs) + Lowered(kind, x, pages[|divs|])
  {
    var n := |divs|;
    FlatSame(kind, pages, divs, pages, divs + [x], n);
  }

  /** A child outside the window is none of the siblings. */
  lemma SiblingsApart(parent: Page, pager: Pager, first: nat, n: nat, pgno: seq<nat>, i: nat)
    requires ChildrenPresent(parent, pager) && 0 < n && first + n <= |parent.cells| + 1
    ensures i < first ==> Children(parent)[i] in pager && Children(parent)[i] !in Children(parent)[first..first + n]
    ensures first + |pgno| <= i < |parent.cells| + 1 - n + |pgno| ==>
              Children(parent)[i - |pgno| + n] in pager &&
                Children(parent)[i - |pgno| + n] !in Children(parent)[first..first + n]
  {
  }
}
