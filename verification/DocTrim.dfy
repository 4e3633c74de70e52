/**
 Trimming document lists (misc/sqlite/fts1.c:520-577): to the positions in one column, and to the
 documents that have positions at all.
 */
module DocTrim {
  import opened DocLists
  import opened DocMerge
  import opened DocUpdate
  import opened Varint

  function InColumn(at: seq<Pos>, col: int): seq<Pos> {
    if at == [] then []
    else InColumn(at[..|at| - 1], col) + if at[|at| - 1].col == col then [at[|at| - 1]] else []
  }

  function RestrictDocs(docs: seq<Doc>, col: int): seq<Doc> {
    if docs == [] then []
    else RestrictDocs(docs[..|docs| - 1], col) + [Doc(docs[|docs| - 1].id, InColumn(docs[|docs| - 1].at, col))]
  }

  function NonEmpty(docs: seq<Doc>): seq<Doc> {
    if docs == [] then []
    else NonEmpty(docs[..|docs| - 1]) + if docs[|docs| - 1].at == [] then [] else [docs[|docs| - 1]]
  }

  lemma {:induction false} InColumnIs(at: seq<Pos>, col: int, q: Pos)
    ensures q in InColumn(at, col) <==> q in at && q.col == col
    decreases |at|
  {
    if at != [] {
      InColumnIs(at[..|at| - 1], col, q);
      assert at == at[..|at| - 1] + [at[|at| - 1]];
    }
  }

  lemma {:induction false} RestrictSorted(docs: seq<Doc>, col: int)
    requires Sorted(docs)
    ensures |RestrictDocs(docs, col)| == |docs| && Sorted(RestrictDocs(docs, col))
    ensures forall i :: 0 <= i < |docs| ==> RestrictDocs(docs, col)[i] == Doc(docs[i].id, InColumn(docs[i].at, col))
    decreases |docs|
  {
    if docs != [] {
      RestrictSorted(docs[..|docs| - 1], col);
    }
  }

  /** Restricting a list restricts what it says about each document. */
  lemma {:induction false} RestrictView(docs: seq<Doc>, col: int)
    ensures View(RestrictDocs(docs, col)) == map id | id in View(docs) :: InColumn(View(docs)[id], col)
    decreases |docs|
  {
    if docs != [] {
      var n := |docs| - 1;
      RestrictView(docs[..n], col);
      var r := RestrictDocs(docs, col);
      assert r[..|r| - 1] == RestrictDocs(docs[..n], col);
    }
  }

  lemma {:induction false} NonEmptyIds(docs: seq<Doc>)
    ensures Ids(NonEmpty(docs)) <= Ids(docs)
    decreases |docs|
  {
    if docs != [] {
      var n := |docs| - 1;
      NonEmptyIds(docs[..n]);
      IdsSnoc(docs[..n], docs[n]);
      assert docs == docs[..n] + [docs[n]];
      if docs[n].at != [] {
        IdsSnoc(NonEmpty(docs[..n]), docs[n]);
      } else {
        assert NonEmpty(docs) == NonEmpty(docs[..n]);
      }
    }
  }

  lemma SortedSnoc(docs: seq<Doc>, d: Doc)
    requires Sorted(docs) && forall x :: x in Ids(docs) ==> x < d.id
    ensures Sorted(docs + [d])
  {
    forall i | 0 <= i < |docs|
      ensures docs[i].id < d.id
    {
      assert docs[i].id in Ids(docs);
    }
  }

  lemma IdsBefore(docs: seq<Doc>, n: nat)
    requires Sorted(docs) && n < |docs|
    ensures forall x :: x in Ids(docs[..n]) ==> x < docs[n].id
  {
    forall d | d in docs[..n]
      ensures d.id < docs[n].id
    {
      var i :| 0 <= i < n && docs[..n][i] == d;
      assert docs[i].id < docs[n].id;
    }
  }

  function WithPositions(m: map<int, seq<Pos>>): map<int, seq<Pos>> {
    map id | id in m && m[id] != [] :: m[id]
  }

  lemma OneMore(m: map<int, seq<Pos>>, id: int, at: seq<Pos>)
    requires id !in m
    ensures WithPositions(m[id := at]) == if at == [] then WithPositions(m) else WithPositions(m)[id := at]
  {
  }

  lemma {:induction false} NonEmptySorted(docs: seq<Doc>)
    requires Sorted(docs)
    ensures Sorted(NonEmpty(docs))
    decreases |docs|
  {
    if docs != [] {
      var n := |docs| - 1;
      NonEmptySorted(docs[..n]);
      IdsBefore(docs, n);
      if docs[n].at != [] {
        NonEmptyIds(docs[..n]);
        SortedSnoc(NonEmpty(docs[..n]), docs[n]);
      } else {
        assert NonEmpty(docs) == NonEmpty(docs[..n]);
      }
    }
  }

  /** What is left are the documents with positions, with the same positions. */
  lemma {:induction false} NonEmptyView(docs: seq<Doc>)
    requires Sorted(docs)
    ensures View(NonEmpty(docs)) == WithPositions(View(docs))
    decreases |docs|
  {
    if docs != [] {
      hide View, Ids;
      var n := |docs| - 1;
      var init, d := NonEmpty(docs[..n]), docs[n];
      NonEmptyView(docs[..n]);
      IdsBefore(docs, n);
      ViewKeys(docs[..n]);
      assert docs == docs[..n] + [d];
      ViewSnoc(docs[..n], d);
      ViewSnoc(init, d);
      OneMore(View(docs[..n]), d.id, d.at);
      assert d.at == [] ==> NonEmpty(docs) == init;
    }
  }

  // ---------- The code ----------

  /** One document's positions in the column, written to the last document of `out`. */
  method CopyColumn(r: Reader, out: DocList, col: int)
    requires r.Valid() && out.Valid() && out.Writing() && out != r.list && col >= 0
    requires out.docs[|out.docs| - 1].at == [] && LegalFrom(r.cur, 0, 0)
    modifies r, out
    ensures r.Valid() && r.iLastPos == -1 && r.n == old(r.n) && out.Valid()
    ensures var n := |old(out.docs)| - 1;
            out.docs == old(out.docs)[n := Doc(old(out.docs)[n].id, InColumn(old(r.cur), col))]
  {
    hide Reader.Valid, DocList.Valid, InColumn, LegalFrom;
    ghost var at, n, i := r.cur, |out.docs| - 1, 0;
    ghost var docs := out.docs;
    InColumnNext(at, 0, col);
    var pos, c := r.ReadPosition();
    while pos != -1
      invariant r.Valid() && r.n == old(r.n) && out.Valid() && out.Writing() && |out.docs| == n + 1
      invariant i <= |at| && (pos == -1 ==> i == |at| && r.iLastPos == -1)
      invariant pos != -1 ==> i < |at| && at[i] == Pos(c, pos) && r.cur == at[i + 1..]
      invariant out.docs == docs[n := Doc(docs[n].id, InColumn(at[..i], col))]
      decreases |at| - i
    {
      InColumnNext(at, i, col);
      if c == col {
        CanFollow(at, i, col);
        out.AddPos(Pos(c, pos));
      }
      i := i + 1;
      pos, c := r.ReadPosition();
    }
    assert at[..i] == at;
  }

  lemma InColumnNext(at: seq<Pos>, i: nat, col: int)
    ensures InColumn(at[..0], col) == []
    ensures i < |at| ==>
            InColumn(at[..i + 1], col) == if at[i].col == col then InColumn(at[..i], col) + [at[i]]
            else InColumn(at[..i], col)
  {
    if i < |at| {
      assert at[..i + 1][..i] == at[..i];
    }
  }

  /** The next position in the column may follow the last one written. */
  lemma CanFollow(at: seq<Pos>, i: nat, col: int)
    requires LegalFrom(at, 0, 0) && i < |at| && at[i].col == col
    ensures var l := LastPos(InColumn(at[..i], col), 0, 0); Follows(l.col, l.pos, at[i])
  {
    LegalOrder(at, 0, 0);
    var m := InColumn(at[..i], col);
    if m != [] {
      var q := m[|m| - 1];
      InColumnIs(at[..i], col, q);
      var k :| 0 <= k < i && at[..i][k] == q;
      assert NotAfterPos(at[k], at[i]);
    }
  }

  predicate NotAfterPos(p: Pos, q: Pos) {
    p.col < q.col || (p.col == q.col && p.pos <= q.pos)
  }

  lemma {:induction false} LegalOrder(at: seq<Pos>, c: int, p: int)
    requires LegalFrom(at, c, p)
    ensures forall i :: 0 <= i < |at| ==>
            NotAfterPos(Pos(c, p), at[i]) && 0 <= at[i].col < 0x8000_0000 && 0 <= at[i].pos < 0x7fff_fffe
    ensures forall i, j :: 0 <= i < j < |at| ==> NotAfterPos(at[i], at[j])
    decreases |at|
  {
    if at != [] {
      LegalOrder(at[1..], at[0].col, at[0].pos);
      assert forall i :: 0 < i < |at| ==> at[i] == at[1..][i - 1];
    }
  }

  /** docListRestrictColumn */
  method RestrictColumn(list: DocList, col: int) returns (out: DocList)
    requires list.Valid() && list.positions && col >= 0
    ensures fresh(out) && out.Valid() && out.positions && out.docs == RestrictDocs(list.docs, col)
  {
    hide Reader.Valid, InColumn, RestrictDocs, LegalFrom;
    var r := new Reader(list);
    out := new DocList(true, [], []);
    var end, next := r.Look();
    RestrictNext(list.docs, 0, col);
    while !end
      invariant fresh(r) && fresh(out) && r.list == list && out.positions && r.Valid() && r.iLastPos == -1 &&
                out.Valid()
      invariant r.n <= |list.docs| && (end <==> r.n == |list.docs|)
      invariant out.docs == RestrictDocs(list.docs[..r.n], col)
      decreases |list.docs| - r.n
    {
      ghost var j := r.n;
      var id := r.ReadDocid();
      out.AddDocid(id);
      CopyColumn(r, out, col);
      RestrictNext(list.docs, j, col);
      end, next := r.Look();
    }
    assert list.docs[..r.n] == list.docs;
  }

  lemma RestrictNext(docs: seq<Doc>, j: nat, col: int)
    ensures RestrictDocs(docs[..0], col) == []
    ensures j < |docs| ==>
            RestrictDocs(docs[..j + 1], col) ==
            RestrictDocs(docs[..j], col) + [Doc(docs[j].id, InColumn(docs[j].at, col))]
  {
    if j < |docs| {
      assert docs[..j + 1][..j] == docs[..j];
    }
  }

  /** docListDiscardEmpty */
  method DiscardEmpty(list: DocList) returns (out: DocList)
    requires list.Valid() && list.positions
    ensures fresh(out) && out.Valid() && out.positions && out.docs == NonEmpty(list.docs)
  {
    hide Reader.Valid, NonEmpty, LegalFrom;
    var r := new Reader(list);
    out := new DocList(true, [], []);
    var end, next := r.Look();
    NonEmptyNext(list.docs, 0);
    while !end
      invariant fresh(r) && fresh(out) && r.list == list && out.positions && r.Valid() && r.iLastPos == -1 &&
                out.Valid()
      invariant r.n <= |list.docs| && (end <==> r.n == |list.docs|)
      invariant out.docs == NonEmpty(list.docs[..r.n])
      decreases |list.docs| - r.n
    {
      ghost var j := r.n;
      var id := r.ReadDocid();
      CopyDoc(r, out, id);
      NonEmptyNext(list.docs, j);
      end, next := r.Look();
    }
    assert list.docs[..r.n] == list.docs;
  }

  lemma NonEmptyNext(docs: seq<Doc>, j: nat)
    ensures NonEmpty(docs[..0]) == []
    ensures j < |docs| ==>
            NonEmpty(docs[..j + 1]) == if docs[j].at == [] then NonEmpty(docs[..j]) else NonEmpty(docs[..j]) + [docs[j]]
  {
    if j < |docs| {
      assert docs[..j + 1][..j] == docs[..j];
    }
  }

  /** One document with its positions, if it has any. */
  method CopyDoc(r: Reader, out: DocList, id: int)
    requires r.Valid() && out.Valid() && out.positions && out != r.list && IsInt64(id) && LegalFrom(r.cur, 0, 0)
    modifies r, out
    ensures r.Valid() && r.iLastPos == -1 && r.n == old(r.n) && out.Valid()
    ensures out.docs == if old(r.cur) == [] then old(out.docs) else old(out.docs) + [Doc(id, old(r.cur))]
  {
    hide Reader.Valid, DocList.Valid, LegalFrom;
    ghost var at, docs, i := r.cur, out.docs, 0;
    var match' := false;
    var pos, c := r.ReadPosition();
    while pos != -1
      invariant r.Valid() && r.n == old(r.n) && out.Valid()
      invariant i <= |at| && (pos == -1 ==> i == |at| && r.iLastPos == -1)
      invariant pos != -1 ==> i < |at| && at[i] == Pos(c, pos) && r.cur == at[i + 1..]
      invariant match' <==> i > 0
      invariant out.docs == if i == 0 then docs else docs + [Doc(id, at[..i])]
      invariant match' ==> out.Writing()
      decreases |at| - i
    {
      if !match' {
        out.AddDocid(id);
        match' := true;
      }
      assert out.docs == docs + [Doc(id, at[..i])];
      CanCopy(at, i);
      out.AddPos(Pos(c, pos));
      assert at[..i] + [at[i]] == at[..i + 1];
      i := i + 1;
      pos, c := r.ReadPosition();
    }
    assert at[..i] == at;
  }

  lemma CanCopy(at: seq<Pos>, i: nat)
    requires LegalFrom(at, 0, 0) && i < |at|
    ensures var l := LastPos(at[..i], 0, 0); Follows(l.col, l.pos, at[i])
  {
    LegalOrder(at, 0, 0);
    if i > 0 {
      assert NotAfterPos(at[i - 1], at[i]);
    }
  }
}
