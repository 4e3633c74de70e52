/**
 The merges behind full-text queries (misc/sqlite/fts1.c:660-870): two cursors run over ascending
 document lists, and the result is their intersection, union, difference or phrase intersection.
 Document ids are positive.
 */
module DocMerge {
  import opened DocLists
  import opened Varint

  // ---------- Ascending lists as sets ----------

  predicate Ascending(docs: seq<Doc>) {
    && (forall i :: 0 <= i < |docs| ==> docs[i].id > 0)
    && (forall i, j :: 0 <= i < j < |docs| ==> docs[i].id < docs[j].id)
  }

  function Ids(docs: seq<Doc>): set<int> {
    set d | d in docs :: d.id
  }

  lemma IdsSnoc(docs: seq<Doc>, d: Doc)
    ensures Ids(docs + [d]) == Ids(docs) + {d.id}
  {
    forall x | x in Ids(docs) + {d.id}
      ensures x in Ids(docs + [d])
    {
      if x == d.id {
        assert d in docs + [d];
      } else {
        var e :| e in docs && e.id == x;
        assert e in docs + [d];
      }
    }
  }

  lemma AscendingSnoc(docs: seq<Doc>, d: Doc)
    requires Ascending(docs) && d.id > 0 && forall x :: x in Ids(docs) ==> x < d.id
    ensures Ascending(docs + [d])
  {
    forall i | 0 <= i < |docs|
      ensures docs[i].id < d.id
    {
      assert docs[i].id in Ids(docs);
    }
  }

  /** The documents from place i on are those with ids from its id up. */
  lemma Split(docs: seq<Doc>, i: nat)
    requires Ascending(docs) && i < |docs|
    ensures forall x :: x in Ids(docs[..i]) ==> x < docs[i].id
    ensures forall x :: x in Ids(docs) && x < docs[i].id ==> x in Ids(docs[..i])
    ensures Ids(docs[..i + 1]) == Ids(docs[..i]) + {docs[i].id}
    ensures docs[i].id in Ids(docs)
  {
    assert docs[..i + 1] == docs[..i] + [docs[i]];
    IdsSnoc(docs[..i], docs[i]);
    forall x | x in Ids(docs) && x < docs[i].id
      ensures x in Ids(docs[..i])
    {
      var d :| d in docs && d.id == x;
      var k :| 0 <= k < |docs| && docs[k] == d;
      assert k < i;
      assert docs[..i][k] == d;
    }
    assert docs[i] in docs;
  }

  /** Two cursors, i documents into the left list and j into the right: each has only passed
      documents before the one the other is at. */
  ghost predicate InStep(l: seq<Doc>, r: seq<Doc>, i: nat, j: nat) {
    && Ascending(l) && Ascending(r) && i <= |l| && j <= |r|
    && (j < |r| ==> forall x :: x in Ids(l[..i]) ==> x < r[j].id)
    && (i < |l| ==> forall x :: x in Ids(r[..j]) ==> x < l[i].id)
  }

  lemma StartInStep(l: seq<Doc>, r: seq<Doc>)
    requires Ascending(l) && Ascending(r)
    ensures InStep(l, r, 0, 0) && Ids(l[..0]) == Ids(r[..0]) == {}
  {
  }

  /** The left cursor is at the smaller id and moves on. */
  lemma LeftMoves(l: seq<Doc>, r: seq<Doc>, i: nat, j: nat)
    requires InStep(l, r, i, j) && i < |l| && (j < |r| ==> l[i].id < r[j].id)
    ensures InStep(l, r, i + 1, j) && Ids(l[..i + 1]) == Ids(l[..i]) + {l[i].id}
    ensures l[i].id !in Ids(r)
    ensures forall x :: x in Ids(l[..i]) + Ids(r[..j]) ==> x < l[i].id
  {
    Split(l, i);
    if j < |r| {
      Split(r, j);
    } else {
      assert r[..j] == r;
    }
    if i + 1 < |l| {
      Split(l, i + 1);
    }
  }

  lemma RightMoves(l: seq<Doc>, r: seq<Doc>, i: nat, j: nat)
    requires InStep(l, r, i, j) && j < |r| && (i < |l| ==> r[j].id < l[i].id)
    ensures InStep(l, r, i, j + 1) && Ids(r[..j + 1]) == Ids(r[..j]) + {r[j].id}
    ensures r[j].id !in Ids(l)
    ensures forall x :: x in Ids(l[..i]) + Ids(r[..j]) ==> x < r[j].id
  {
    Mirror(l, r, i, j);
    LeftMoves(r, l, j, i);
    Mirror(r, l, j + 1, i);
  }

  lemma Mirror(l: seq<Doc>, r: seq<Doc>, i: nat, j: nat)
    requires InStep(l, r, i, j)
    ensures InStep(r, l, j, i)
  {
  }

  lemma BothMove(l: seq<Doc>, r: seq<Doc>, i: nat, j: nat)
    requires InStep(l, r, i, j) && i < |l| && j < |r| && l[i].id == r[j].id
    ensures InStep(l, r, i + 1, j + 1)
    ensures Ids(l[..i + 1]) == Ids(l[..i]) + {l[i].id} && Ids(r[..j + 1]) == Ids(r[..j]) + {l[i].id}
    ensures forall x :: x in Ids(l[..i]) + Ids(r[..j]) ==> x < l[i].id
  {
    Split(l, i);
    Split(r, j);
    if i + 1 < |l| {
      Split(l, i + 1);
    }
    if j + 1 < |r| {
      Split(r, j + 1);
    }
  }

  /** One list is exhausted: what the other has not reached is not in it. */
  lemma AtEnd(l: seq<Doc>, r: seq<Doc>, i: nat, j: nat)
    requires InStep(l, r, i, j) && i == |l|
    ensures Ids(l) == Ids(l[..i])
    ensures Ids(l) * Ids(r) == Ids(l[..i]) * Ids(r[..j]) && Ids(l) - Ids(r) == Ids(l[..i]) - Ids(r[..j])
  {
    assert l[..i] == l;
    if j < |r| {
      Split(r, j);
    } else {
      assert r[..j] == r;
    }
    assert forall x :: x in Ids(r[..j]) ==> x in Ids(r) by {
      Prefix(r, j);
    }
  }

  lemma Prefix(docs: seq<Doc>, i: nat)
    requires i <= |docs|
    ensures Ids(docs[..i]) <= Ids(docs)
  {
    forall d | d in docs[..i]
      ensures d in docs
    {
    }
  }

  /** A document is added behind all those up to now. */
  lemma Added(docs: seq<Doc>, d: Doc, below: set<int>)
    requires Ascending(docs) && Ids(docs) <= below && d.id > 0 && (forall x :: x in below ==> x < d.id)
    ensures Ascending(docs + [d]) && Ids(docs + [d]) == Ids(docs) + {d.id}
  {
    IdsSnoc(docs, d);
    AscendingSnoc(docs, d);
  }

  // ---------- The merges ----------

  /** The cursor stands on document i, or past the end. */
  ghost predicate On(r: Reader, i: nat)
    reads r, r.list
  {
    && r.Valid() && i <= |r.list.docs|
    && (if i < |r.list.docs| then r.n == i + 1 && r.cur == r.list.docs[i].at else r.n == i && r.iLastPos == -1)
  }

  /** `id` is the id of document i, or 0 past the end. */
  predicate Place(docs: seq<Doc>, i: nat, id: int) {
    i <= |docs| && if i < |docs| then id == docs[i].id && id > 0 && IsInt64(id) else id == 0
  }

  /** nextDocid at the start. */
  method First(r: Reader) returns (id: int)
    requires r.Valid() && r.n == 0 && Ascending(r.list.docs)
    modifies r
    ensures On(r, 0) && Place(r.list.docs, 0, id)
  {
    id := r.NextDocid();
  }

  /** nextDocid from document to document. */
  method Next(r: Reader, ghost i: nat) returns (id: int)
    requires On(r, i) && i < |r.list.docs| && Ascending(r.list.docs)
    modifies r
    ensures On(r, i + 1) && Place(r.list.docs, i + 1, id)
  {
    id := r.NextDocid();
  }

  /** What every merge needs of its arguments: the inputs ascending, the output empty. */
  ghost predicate CanMerge(left: DocList, right: DocList, out: DocList)
    reads left, right, out
  {
    && left.Valid() && right.Valid() && out.Valid() && out !in {left, right} && out.docs == []
    && Ascending(left.docs) && Ascending(right.docs)
  }

  /** Where a merge is. */
  ghost predicate Merging(l: Reader, r: Reader, a: int, b: int, i: nat, j: nat, out: DocList)
    reads l, r, l.list, r.list, out
  {
    && On(l, i) && On(r, j) && Place(l.list.docs, i, a) && Place(r.list.docs, j, b) &&
       InStep(l.list.docs, r.list.docs, i, j)
    && out.Valid() && Ascending(out.docs)
  }

  // What the documents passed so far have in common, together, and on the left only.

  function Common(l: seq<Doc>, r: seq<Doc>, i: nat, j: nat): set<int>
    requires i <= |l| && j <= |r|
  {
    Ids(l[..i]) * Ids(r[..j])
  }

  function Together(l: seq<Doc>, r: seq<Doc>, i: nat, j: nat): set<int>
    requires i <= |l| && j <= |r|
  {
    Ids(l[..i]) + Ids(r[..j])
  }

  function LeftOnly(l: seq<Doc>, r: seq<Doc>, i: nat, j: nat): set<int>
    requires i <= |l| && j <= |r|
  {
    Ids(l[..i]) - Ids(r[..j])
  }

  lemma LeftStep(l: seq<Doc>, r: seq<Doc>, i: nat, j: nat, a: int)
    requires InStep(l, r, i, j) && i < |l| && l[i].id == a && (j < |r| ==> a < r[j].id)
    ensures InStep(l, r, i + 1, j)
    ensures Common(l, r, i + 1, j) == Common(l, r, i, j)
    ensures Together(l, r, i + 1, j) == Together(l, r, i, j) + {a}
    ensures LeftOnly(l, r, i + 1, j) == LeftOnly(l, r, i, j) + {a}
    ensures forall x :: x in Together(l, r, i, j) ==> x < a
  {
    LeftMoves(l, r, i, j);
    Prefix(r, j);
  }

  lemma RightStep(l: seq<Doc>, r: seq<Doc>, i: nat, j: nat, b: int)
    requires InStep(l, r, i, j) && j < |r| && r[j].id == b && (i < |l| ==> b < l[i].id)
    ensures InStep(l, r, i, j + 1)
    ensures Common(l, r, i, j + 1) == Common(l, r, i, j)
    ensures Together(l, r, i, j + 1) == Together(l, r, i, j) + {b}
    ensures LeftOnly(l, r, i, j + 1) == LeftOnly(l, r, i, j)
    ensures forall x :: x in Together(l, r, i, j) ==> x < b
  {
    RightMoves(l, r, i, j);
    Prefix(l, i);
  }

  lemma BothStep(l: seq<Doc>, r: seq<Doc>, i: nat, j: nat, a: int)
    requires InStep(l, r, i, j) && i < |l| && j < |r| && l[i].id == r[j].id == a
    ensures InStep(l, r, i + 1, j + 1)
    ensures Common(l, r, i + 1, j + 1) == Common(l, r, i, j) + {a}
    ensures Together(l, r, i + 1, j + 1) == Together(l, r, i, j) + {a}
    ensures LeftOnly(l, r, i + 1, j + 1) == LeftOnly(l, r, i, j)
    ensures forall x :: x in Together(l, r, i, j) ==> x < a
  {
    BothMove(l, r, i, j);
  }

  lemma StartSets(l: seq<Doc>, r: seq<Doc>)
    requires Ascending(l) && Ascending(r)
    ensures InStep(l, r, 0, 0)
    ensures Common(l, r, 0, 0) == Together(l, r, 0, 0) == LeftOnly(l, r, 0, 0) == {} == Ids([]) && Ascending([])
  {
    StartInStep(l, r);
  }

  /** A merge that stops when either list ends has found the whole intersection; one that stops
      when the left list ends, the whole difference. */
  lemma EndSets(l: seq<Doc>, r: seq<Doc>, i: nat, j: nat)
    requires InStep(l, r, i, j)
    ensures i == |l| || j == |r| ==> Common(l, r, i, j) == Ids(l) * Ids(r)
    ensures i == |l| && j == |r| ==> Together(l, r, i, j) == Ids(l) + Ids(r)
    ensures i == |l| ==> LeftOnly(l, r, i, j) == Ids(l) - Ids(r)
  {
    if i == |l| {
      AtEnd(l, r, i, j);
    }
    if j == |r| {
      Mirror(l, r, i, j);
      AtEnd(r, l, j, i);
    }
  }

  method Start(left: DocList, right: DocList) returns (l: Reader, r: Reader, a: int, b: int)
    requires left.Valid() && right.Valid() && Ascending(left.docs) && Ascending(right.docs)
    ensures fresh(l) && fresh(r) && l != r && l.list == left && r.list == right
    ensures On(l, 0) && On(r, 0) && Place(left.docs, 0, a) && Place(right.docs, 0, b)
  {
    hide DocList.Valid, Reader.Valid;
    l := new Reader(left);
    r := new Reader(right);
    a := First(l);
    b := First(r);
  }

  method Append(out: DocList, id: int, ghost below: set<int>)
    requires out.Valid() && Ascending(out.docs) && !out.positions && Ids(out.docs) <= below && id > 0 && IsInt64(id)
    requires forall x :: x in below ==> x < id
    modifies out
    ensures out.Valid() && Ascending(out.docs) && Ids(out.docs) == old(Ids(out.docs)) + {id}
  {
    hide DocList.Valid, Ids;
    Added(out.docs, Doc(id, []), below);
    out.AddDocid(id);
  }

  /** docListAndMerge: the intersection. */
  method AndMerge(left: DocList, right: DocList, out: DocList)
    requires CanMerge(left, right, out) && !out.positions
    modifies out
    ensures out.Valid() && Ascending(out.docs) && Ids(out.docs) == Ids(left.docs) * Ids(right.docs)
  {
    hide DocList.Valid, Reader.Valid, On, InStep, Ascending, Ids, Common, LeftOnly, Together;
    var l, r, a, b := Start(left, right);
    ghost var i, j := 0, 0;
    StartSets(left.docs, right.docs);
    while a > 0 && b > 0
      invariant fresh(l) && fresh(r) && l != r && l.list == left && r.list == right
      invariant Merging(l, r, a, b, i, j, out) && Ids(out.docs) == Common(left.docs, right.docs, i, j)
      decreases |left.docs| - i + |right.docs| - j
    {
      if a < b {
        LeftStep(left.docs, right.docs, i, j, a);
        a := Next(l, i);
        i := i + 1;
      } else if b < a {
        RightStep(left.docs, right.docs, i, j, b);
        b := Next(r, j);
        j := j + 1;
      } else {
        BothStep(left.docs, right.docs, i, j, a);
        CommonTogether(left.docs, right.docs, i, j);
        Append(out, a, Together(left.docs, right.docs, i, j));
        a := Next(l, i);
        b := Next(r, j);
        i, j := i + 1, j + 1;
      }
    }
    EndSets(left.docs, right.docs, i, j);
  }

  lemma CommonTogether(l: seq<Doc>, r: seq<Doc>, i: nat, j: nat)
    requires i <= |l| && j <= |r|
    ensures Common(l, r, i, j) <= Together(l, r, i, j) && LeftOnly(l, r, i, j) <= Together(l, r, i, j)
  {
  }

  /** docListOrMerge: the union. */
  method OrMerge(left: DocList, right: DocList, out: DocList)
    requires CanMerge(left, right, out) && !out.positions
    modifies out
    ensures out.Valid() && Ascending(out.docs) && Ids(out.docs) == Ids(left.docs) + Ids(right.docs)
  {
    hide DocList.Valid, Reader.Valid, On, InStep, Ascending, Ids, Together;
    var l, r, a, b := Start(left, right);
    ghost var i, j := 0, 0;
    StartSets(left.docs, right.docs);
    while a > 0 && b > 0
      invariant fresh(l) && fresh(r) && l != r && l.list == left && r.list == right
      invariant Merging(l, r, a, b, i, j, out) && Ids(out.docs) == Together(left.docs, right.docs, i, j)
      decreases |left.docs| - i + |right.docs| - j
    {
      ghost var below := Together(left.docs, right.docs, i, j);
      if a < b {
        LeftStep(left.docs, right.docs, i, j, a);
      } else if b < a {
        RightStep(left.docs, right.docs, i, j, b);
      } else {
        BothStep(left.docs, right.docs, i, j, a);
      }
      if a <= b {
        Append(out, a, below);
      } else {
        Append(out, b, below);
      }
      var priorLeft := a;
      if a <= b {
        a := Next(l, i);
        i := i + 1;
      }
      if b > 0 && b <= priorLeft {
        b := Next(r, j);
        j := j + 1;
      }
    }
    while a > 0
      invariant fresh(l) && fresh(r) && l != r && l.list == left && r.list == right && (a > 0 ==> b == 0)
      invariant Merging(l, r, a, b, i, j, out) && Ids(out.docs) == Together(left.docs, right.docs, i, j)
      decreases |left.docs| - i
    {
      LeftStep(left.docs, right.docs, i, j, a);
      Append(out, a, Together(left.docs, right.docs, i, j));
      a := Next(l, i);
      i := i + 1;
    }
    while b > 0
      invariant fresh(l) && fresh(r) && l != r && l.list == left && r.list == right && a == 0
      invariant Merging(l, r, a, b, i, j, out) && Ids(out.docs) == Together(left.docs, right.docs, i, j)
      decreases |right.docs| - j
    {
      RightStep(left.docs, right.docs, i, j, b);
      Append(out, b, Together(left.docs, right.docs, i, j));
      b := Next(r, j);
      j := j + 1;
    }
    EndSets(left.docs, right.docs, i, j);
  }

  /** docListExceptMerge: the difference. */
  method ExceptMerge(left: DocList, right: DocList, out: DocList)
    requires CanMerge(left, right, out) && !out.positions
    modifies out
    ensures out.Valid() && Ascending(out.docs) && Ids(out.docs) == Ids(left.docs) - Ids(right.docs)
  {
    hide DocList.Valid, Reader.Valid, On, InStep, Ascending, Ids, Together, LeftOnly;
    var l, r, a, b := Start(left, right);
    ghost var i, j := 0, 0;
    StartSets(left.docs, right.docs);
    while a > 0 && b > 0
      invariant fresh(l) && fresh(r) && l != r && l.list == left && r.list == right
      invariant Merging(l, r, a, b, i, j, out) && Ids(out.docs) == LeftOnly(left.docs, right.docs, i, j)
      decreases |left.docs| - i + |right.docs| - j
    {
      ghost var below := Together(left.docs, right.docs, i, j);
      CommonTogether(left.docs, right.docs, i, j);
      if a < b {
        LeftStep(left.docs, right.docs, i, j, a);
      } else if b < a {
        RightStep(left.docs, right.docs, i, j, b);
      } else {
        BothStep(left.docs, right.docs, i, j, a);
      }
      var priorLeft := a;
      if a < b {
        Append(out, a, below);
      }
      if a <= b {
        a := Next(l, i);
        i := i + 1;
      }
      if b > 0 && b <= priorLeft {
        b := Next(r, j);
        j := j + 1;
      }
    }
    while a > 0
      invariant fresh(l) && fresh(r) && l != r && l.list == left && r.list == right && (a > 0 ==> b == 0)
      invariant Merging(l, r, a, b, i, j, out) && Ids(out.docs) == LeftOnly(left.docs, right.docs, i, j)
      decreases |left.docs| - i
    {
      LeftStep(left.docs, right.docs, i, j, a);
      CommonTogether(left.docs, right.docs, i, j);
      Append(out, a, Together(left.docs, right.docs, i, j));
      a := Next(l, i);
      i := i + 1;
    }
    EndSets(left.docs, right.docs, i, j);
  }
}
