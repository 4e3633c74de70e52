/**
 The phrase merge (misc/sqlite/fts1.c:672-768): documents in which a position of the left list comes
 right before one of the right list, with those positions of the right list.
 */
module PhraseMerge {
  import opened DocLists
  import opened DocMerge
  import opened Varint

  predicate Less(p: Pos, q: Pos) {
    p.col < q.col || (p.col == q.col && p.pos < q.pos)
  }

  /** Positions strictly increase, column by column. */
  predicate Strict(at: seq<Pos>) {
    forall i, j :: 0 <= i < j < |at| ==> Less(at[i], at[j])
  }

  function After(p: Pos): Pos {
    Pos(p.col, p.pos + 1)
  }

  /** The positions of the right list that come right after one of the left list. */
  function PhraseAt(lp: seq<Pos>, rp: seq<Pos>): seq<Pos> {
    if rp == [] then [] else PhraseAt(lp, rp[..|rp| - 1]) + Kept(lp, rp[|rp| - 1])
  }

  function Kept(lp: seq<Pos>, q: Pos): seq<Pos> {
    if Pos(q.col, q.pos - 1) in lp then [q] else []
  }

  lemma {:induction false} PhraseAtIs(lp: seq<Pos>, rp: seq<Pos>, q: Pos)
    ensures q in PhraseAt(lp, rp) <==> q in rp && Pos(q.col, q.pos - 1) in lp
    decreases |rp|
  {
    if rp != [] {
      PhraseAtIs(lp, rp[..|rp| - 1], q);
      assert rp == rp[..|rp| - 1] + [rp[|rp| - 1]];
    }
  }

  lemma PhraseSnoc(lp: seq<Pos>, rp: seq<Pos>, j: nat)
    requires j < |rp|
    ensures PhraseAt(lp, rp[..j + 1]) == PhraseAt(lp, rp[..j]) + Kept(lp, rp[j])
    ensures Kept(lp, rp[j]) == [] ==> PhraseAt(lp, rp[..j + 1]) == PhraseAt(lp, rp[..j])
  {
    assert rp[..j + 1][..j] == rp[..j];
  }

  /** Cursors i into the left positions and j into the right: those passed on the left are all
      before the one the right cursor is at, by more than one place. */
  predicate Apace(lp: seq<Pos>, rp: seq<Pos>, i: nat, j: nat) {
    && Strict(lp) && Strict(rp) && i <= |lp| && j <= |rp|
    && (j < |rp| ==> forall k :: 0 <= k < i ==> Less(After(lp[k]), rp[j]))
  }

  lemma LeftBehind(lp: seq<Pos>, rp: seq<Pos>, i: nat, j: nat)
    requires Apace(lp, rp, i, j) && i < |lp| && j < |rp| && Less(After(lp[i]), rp[j])
    ensures Apace(lp, rp, i + 1, j)
  {
  }

  lemma RightBehind(lp: seq<Pos>, rp: seq<Pos>, i: nat, j: nat)
    requires Apace(lp, rp, i, j) && j < |rp| && (i < |lp| ==> Less(rp[j], After(lp[i])))
    ensures Apace(lp, rp, i, j + 1) && Kept(lp, rp[j]) == []
  {
    if j + 1 < |rp| {
      assert Less(rp[j], rp[j + 1]);
    }
    forall k | 0 <= k < |lp|
      ensures After(lp[k]) != rp[j]
    {
      if k > i {
        assert Less(lp[i], lp[k]);
      }
    }
  }

  lemma Matched(lp: seq<Pos>, rp: seq<Pos>, i: nat, j: nat)
    requires Apace(lp, rp, i, j) && i < |lp| && j < |rp| && After(lp[i]) == rp[j]
    ensures Apace(lp, rp, i + 1, j + 1) && Kept(lp, rp[j]) == [rp[j]]
  {
    if j + 1 < |rp| {
      assert Less(rp[j], rp[j + 1]);
    }
    assert lp[i] == Pos(rp[j].col, rp[j].pos - 1);
  }

  lemma {:induction false} NoMore(lp: seq<Pos>, rp: seq<Pos>, i: nat, j: nat)
    requires Apace(lp, rp, i, j) && i == |lp|
    ensures PhraseAt(lp, rp) == PhraseAt(lp, rp[..j])
    decreases |rp| - j
  {
    if j < |rp| {
      RightBehind(lp, rp, i, j);
      NoMore(lp, rp, i, j + 1);
      PhraseSnoc(lp, rp, j);
    } else {
      assert rp[..j] == rp;
    }
  }

  // ---------- Documents ----------

  /** The positions of document `id`, if it is in the list. */
  function Find(docs: seq<Doc>, id: int): seq<Pos> {
    if docs == [] then [] else if docs[0].id == id then docs[0].at else Find(docs[1..], id)
  }

  lemma {:induction false} FindAt(docs: seq<Doc>, i: nat)
    requires Ascending(docs) && i < |docs|
    ensures Find(docs, docs[i].id) == docs[i].at
    decreases i
  {
    if i > 0 {
      assert docs[0].id < docs[i].id;
      FindAt(docs[1..], i - 1);
    }
  }

  lemma {:induction false} FindNone(docs: seq<Doc>, id: int)
    requires id !in Ids(docs)
    ensures Find(docs, id) == []
    decreases |docs|
  {
    if docs != [] {
      assert docs[0] in docs;
      forall d | d in docs[1..]
        ensures d in docs
      {
      }
      FindNone(docs[1..], id);
    }
  }

  function PhraseDoc(m: seq<Pos>, id: int, positions: bool): seq<Doc> {
    if m == [] then [] else [Doc(id, if positions then m else [])]
  }

  /** The right list's documents in which the phrase occurs, with the positions where it does. */
  function PhraseDocs(l: seq<Doc>, r: seq<Doc>, positions: bool): seq<Doc> {
    if r == [] then []
    else
      var d := r[|r| - 1];
      PhraseDocs(l, r[..|r| - 1], positions) + PhraseDoc(PhraseAt(Find(l, d.id), d.at), d.id, positions)
  }

  lemma DocsSnoc(l: seq<Doc>, r: seq<Doc>, j: nat, positions: bool)
    requires j < |r|
    ensures PhraseDocs(l, r[..j + 1], positions) ==
            PhraseDocs(l, r[..j], positions) + PhraseDoc(PhraseAt(Find(l, r[j].id), r[j].at), r[j].id, positions)
  {
    assert r[..j + 1][..j] == r[..j];
  }

  lemma {:induction false} NothingThere(rp: seq<Pos>)
    ensures PhraseAt([], rp) == []
    decreases |rp|
  {
    if rp != [] {
      NothingThere(rp[..|rp| - 1]);
    }
  }

  /** A document of the right list that the left one does not have. */
  lemma NotThere(l: seq<Doc>, r: seq<Doc>, j: nat, positions: bool)
    requires j < |r| && r[j].id !in Ids(l)
    ensures PhraseDocs(l, r[..j + 1], positions) == PhraseDocs(l, r[..j], positions)
  {
    DocsSnoc(l, r, j, positions);
    FindNone(l, r[j].id);
    NothingThere(r[j].at);
  }

  lemma {:induction false} NoMoreDocs(l: seq<Doc>, r: seq<Doc>, i: nat, j: nat, positions: bool)
    requires InStep(l, r, i, j) && i == |l|
    ensures PhraseDocs(l, r, positions) == PhraseDocs(l, r[..j], positions)
    decreases |r| - j
  {
    if j < |r| {
      RightMoves(l, r, i, j);
      NotThere(l, r, j, positions);
      NoMoreDocs(l, r, i, j + 1, positions);
    } else {
      assert r[..j] == r;
    }
  }

  lemma {:induction false} PhraseDocsIds(l: seq<Doc>, r: seq<Doc>, positions: bool)
    ensures Ids(PhraseDocs(l, r, positions)) <= Ids(r)
    decreases |r|
  {
    if r != [] {
      var d := r[|r| - 1];
      PhraseDocsIds(l, r[..|r| - 1], positions);
      IdsSnoc(r[..|r| - 1], d);
      assert r == r[..|r| - 1] + [d];
      var m := PhraseAt(Find(l, d.id), d.at);
      if m != [] {
        IdsSnoc(PhraseDocs(l, r[..|r| - 1], positions), Doc(d.id, if positions then m else []));
      } else {
        assert PhraseDocs(l, r, positions) == PhraseDocs(l, r[..|r| - 1], positions);
      }
    }
  }

  lemma {:induction false} PhraseDocsAscend(l: seq<Doc>, r: seq<Doc>, positions: bool)
    requires Ascending(r)
    ensures Ascending(PhraseDocs(l, r, positions))
    decreases |r|
  {
    if r != [] {
      var n := |r| - 1;
      var d, m := r[n], PhraseAt(Find(l, r[n].id), r[n].at);
      var init := PhraseDocs(l, r[..n], positions);
      PhraseDocsAscend(l, r[..n], positions);
      if m != [] {
        PhraseDocsIds(l, r[..n], positions);
        Split(r, n);
        AscendingSnoc(init, Doc(d.id, if positions then m else []));
      } else {
        assert PhraseDocs(l, r, positions) == init;
      }
    }
  }

  /** Each document of the right list is in the result exactly if the phrase occurs in it, with the
      positions at which it does. */
  lemma {:induction false} PhraseDocsFind(l: seq<Doc>, r: seq<Doc>, j: nat)
    requires Ascending(r) && j < |r|
    ensures Find(PhraseDocs(l, r, true), r[j].id) == PhraseAt(Find(l, r[j].id), r[j].at)
    ensures r[j].id in Ids(PhraseDocs(l, r, true)) <==> PhraseAt(Find(l, r[j].id), r[j].at) != []
    decreases |r|
  {
    hide PhraseAt, Find, PhraseDocs, Ids;
    var n := |r| - 1;
    var d, m := r[n], PhraseAt(Find(l, r[n].id), r[n].at);
    var init := PhraseDocs(l, r[..n], true);
    DocsSnoc(l, r, n, true);
    assert r[..n + 1] == r;
    PhraseDocsIds(l, r[..n], true);
    Split(r, n);
    OneMoreDoc(init, d.id, m);
    if j < n {
      PhraseDocsFind(l, r[..n], j);
      assert r[..n][j] == r[j] && r[j].id < d.id;
      FindDoc(init, d.id, m, r[j].id);
    } else {
      FindDoc(init, d.id, m, d.id);
      FindNone(init, d.id);
    }
  }

  lemma OneMoreDoc(docs: seq<Doc>, id: int, m: seq<Pos>)
    ensures Ids(docs + PhraseDoc(m, id, true)) == Ids(docs) + if m == [] then {} else {id}
  {
    if m == [] {
      assert docs + PhraseDoc(m, id, true) == docs;
    } else {
      IdsSnoc(docs, Doc(id, m));
    }
  }

  lemma FindDoc(docs: seq<Doc>, id: int, m: seq<Pos>, x: int)
    requires id !in Ids(docs)
    ensures Find(docs + PhraseDoc(m, id, true), x) == if x == id then m else Find(docs, x)
  {
    if m == [] {
      assert docs + PhraseDoc(m, id, true) == docs;
      if x == id {
        FindNone(docs, x);
      }
    } else {
      FindSnoc(docs, Doc(id, m), x);
      if x !in Ids(docs) {
        FindNone(docs, x);
      }
    }
  }

  lemma {:induction false} FindSnoc(docs: seq<Doc>, d: Doc, id: int)
    ensures Find(docs + [d], id) == if id in Ids(docs) then Find(docs, id) else if d.id == id then d.at else []
    decreases |docs|
  {
    if docs == [] {
      assert docs + [d] == [d] && [d][1..] == [];
      assert Find([d], id) == if d.id == id then d.at else Find([], id);
    } else {
      assert (docs + [d])[1..] == docs[1..] + [d];
      FindSnoc(docs[1..], d, id);
      assert docs == [docs[0]] + docs[1..];
      assert docs[0] in docs;
      if id in Ids(docs) && docs[0].id != id {
        var e :| e in docs && e.id == id;
        assert e in docs[1..];
      }
      if id in Ids(docs[1..]) {
        var e :| e in docs[1..] && e.id == id;
        assert e in docs;
      }
    }
  }

  // ---------- The code ----------

  predicate InRange(q: Pos) {
    0 <= q.col < 0x8000_0000 && 0 <= q.pos < 0x7fff_fffe
  }

  lemma {:induction false} LegalInRange(at: seq<Pos>, c: int, p: int)
    requires LegalFrom(at, c, p)
    ensures forall k :: 0 <= k < |at| ==> InRange(at[k])
    decreases |at|
  {
    if at != [] {
      LegalInRange(at[1..], at[0].col, at[0].pos);
      assert forall k :: 0 < k < |at| ==> at[k] == at[1..][k - 1];
    }
  }

  /** The position last read is number i of at, and `rest` is what follows it. */
  predicate Reading(at: seq<Pos>, i: nat, pos: int, col: int, rest: seq<Pos>) {
    i <= |at| && if i < |at| then at[i] == Pos(col, pos) && pos >= 0 && rest == at[i + 1..] else pos == -1 && rest == []
  }

  /** The document with the positions m has been written, if there are any. */
  ghost predicate Written(out: DocList, docs: seq<Doc>, m: seq<Pos>, id: int)
    reads out
  {
    && out.Valid() && out.docs == docs + PhraseDoc(m, id, out.positions)
    && (m != [] && out.positions ==> out.Writing())
  }

  method WriteMatch(out: DocList, ghost docs: seq<Doc>, ghost m: seq<Pos>, id: int, match': bool, q: Pos)
    requires Written(out, docs, m, id) && (match' <==> m != []) && IsInt64(id) && InRange(q)
    requires m != [] ==> Less(m[|m| - 1], q)
    modifies out
    ensures Written(out, docs, m + [q], id)
  {
    hide DocList.Valid;
    if !match' {
      out.AddDocid(id);
    }
    if out.positions {
      out.AddPos(q);
    }
    assert out.docs == docs + PhraseDoc(m + [q], id, out.positions);
  }

  method ReadNext(r: Reader, ghost at: seq<Pos>, ghost i: nat) returns (pos: int, col: int)
    requires r.Valid() && i <= |at| && r.cur == at[i..]
    modifies r
    ensures r.Valid() && r.n == old(r.n) && Reading(at, i, pos, col, r.cur)
  {
    hide Reader.Valid;
    pos, col := r.ReadPosition();
  }

  /** mergePosList */
  method MergePosList(l: Reader, r: Reader, id: int, out: DocList)
    requires l.Valid() && r.Valid() && out.Valid() && l != r && out !in {l.list, r.list} && IsInt64(id)
    requires Strict(l.cur) && Strict(r.cur) && forall k :: 0 <= k < |r.cur| ==> InRange(r.cur[k])
    modifies l, r, out
    ensures l.Valid() && r.Valid() && out.Valid() && l.n == old(l.n) && r.n == old(r.n)
    ensures out.docs == old(out.docs) + PhraseDoc(PhraseAt(old(l.cur), old(r.cur)), id, out.positions)
  {
    hide Reader.Valid, DocList.Valid, Strict, PhraseAt, Kept;
    ghost var lp, rp, docs := l.cur, r.cur, out.docs;
    ghost var i, j := 0, 0;
    var lPos, lCol := ReadNext(l, lp, 0);
    var rPos, rCol := ReadNext(r, rp, 0);
    var match' := false;
    PhraseNone(lp, rp);
    while lPos != -1 && rPos != -1
      invariant l.Valid() && r.Valid() && l.n == old(l.n) && r.n == old(r.n)
      invariant Reading(lp, i, lPos, lCol, l.cur) && Reading(rp, j, rPos, rCol, r.cur) && Apace(lp, rp, i, j)
      invariant Written(out, docs, PhraseAt(lp, rp[..j]), id) && (match' <==> PhraseAt(lp, rp[..j]) != [])
      decreases |lp| - i + |rp| - j
    {
      if lCol == rCol && lPos + 1 == rPos {
        Matched(lp, rp, i, j);
        PhraseSnoc(lp, rp, j);
        LastBefore(lp, rp, j);
        WriteMatch(out, docs, PhraseAt(lp, rp[..j]), id, match', Pos(rCol, rPos));
        match' := true;
        lPos, lCol := ReadNext(l, lp, i + 1);
        rPos, rCol := ReadNext(r, rp, j + 1);
        i, j := i + 1, j + 1;
      } else if rCol < lCol || (rCol == lCol && rPos < lPos + 1) {
        RightBehind(lp, rp, i, j);
        PhraseSnoc(lp, rp, j);
        rPos, rCol := ReadNext(r, rp, j + 1);
        j := j + 1;
      } else {
        LeftBehind(lp, rp, i, j);
        lPos, lCol := ReadNext(l, lp, i + 1);
        i := i + 1;
      }
    }
    if lPos == -1 {
      NoMore(lp, rp, i, j);
    } else {
      assert rp[..j] == rp;
    }
    if lPos >= 0 {
      l.SkipPositionList();
    }
    if rPos >= 0 {
      r.SkipPositionList();
    }
  }

  lemma PhraseNone(lp: seq<Pos>, rp: seq<Pos>)
    ensures PhraseAt(lp, rp[..0]) == []
  {
  }

  /** What has been kept lies before the right cursor. */
  lemma LastBefore(lp: seq<Pos>, rp: seq<Pos>, j: nat)
    requires j < |rp| && Strict(rp)
    ensures var m := PhraseAt(lp, rp[..j]); m != [] ==> Less(m[|m| - 1], rp[j])
  {
    var m := PhraseAt(lp, rp[..j]);
    if m != [] {
      var q := m[|m| - 1];
      PhraseAtIs(lp, rp[..j], q);
      var k :| 0 <= k < j && rp[..j][k] == q;
      assert Less(rp[k], rp[j]);
    }
  }

  /** All positions of a list strictly increase. */
  ghost predicate AllStrict(docs: seq<Doc>) {
    forall i :: 0 <= i < |docs| ==> Strict(docs[i].at)
  }

  /** docListPhraseMerge */
  method PhraseMerge(left: DocList, right: DocList, out: DocList)
    requires CanMerge(left, right, out) && AllStrict(left.docs) && AllStrict(right.docs)
    modifies out
    ensures out.Valid() && Ascending(out.docs) && out.docs == PhraseDocs(left.docs, right.docs, out.positions)
  {
    hide Reader.Valid, DocList.Valid, On, InStep, Ascending, PhraseDocs, PhraseDoc, PhraseAt, Find, AllStrict;
    var l, r, a, b := Start(left, right);
    ghost var i, j := 0, 0;
    StartSets(left.docs, right.docs);
    NoDocs(left.docs, right.docs, out.positions);
    while a > 0 && b > 0
      invariant fresh(l) && fresh(r) && l != r && l.list == left && r.list == right && out.Valid()
      invariant On(l, i) && On(r, j) && Place(left.docs, i, a) && Place(right.docs, j, b) &&
                InStep(left.docs, right.docs, i, j)
      invariant out.docs == PhraseDocs(left.docs, right.docs[..j], out.positions)
      decreases |left.docs| - i + |right.docs| - j
    {
      if a < b {
        LeftMoves(left.docs, right.docs, i, j);
        a := Next(l, i);
        i := i + 1;
      } else if b < a {
        RightMoves(left.docs, right.docs, i, j);
        NotThere(left.docs, right.docs, j, out.positions);
        b := Next(r, j);
        j := j + 1;
      } else {
        BothMove(left.docs, right.docs, i, j);
        a, b := SameDoc(l, r, a, out, i, j);
        i, j := i + 1, j + 1;
      }
    }
    if i == |left.docs| {
      NoMoreDocs(left.docs, right.docs, i, j, out.positions);
    } else {
      assert right.docs[..j] == right.docs;
    }
    PhraseDocsAscend(left.docs, right.docs, out.positions);
  }

  /** Both cursors are at the same document. */
  method SameDoc(l: Reader, r: Reader, id: int, out: DocList, ghost i: nat, ghost j: nat) returns (a: int, b: int)
    requires On(l, i) && On(r, j) && l != r && out !in {l.list, r.list} && out.Valid()
    requires Ascending(l.list.docs) && Ascending(r.list.docs) && AllStrict(l.list.docs) && AllStrict(r.list.docs)
    requires i < |l.list.docs| && j < |r.list.docs| && l.list.docs[i].id == r.list.docs[j].id == id && IsInt64(id)
    requires out.docs == PhraseDocs(l.list.docs, r.list.docs[..j], out.positions)
    modifies l, r, out
    ensures On(l, i + 1) && On(r, j + 1) && Place(l.list.docs, i + 1, a) && Place(r.list.docs, j + 1, b)
    ensures out.Valid() && out.docs == PhraseDocs(l.list.docs, r.list.docs[..j + 1], out.positions)
  {
    hide Reader.Valid, DocList.Valid, Ascending, PhraseDocs, PhraseDoc, PhraseAt, Find, Strict;
    DocsSnoc(l.list.docs, r.list.docs, j, out.positions);
    FindAt(l.list.docs, i);
    ListOf(r);
    AllInRange(r.list, j);
    MergePosList(l, r, id, out);
    a := NextAfter(l, i);
    b := NextAfter(r, j);
  }

  lemma ListOf(r: Reader)
    requires r.Valid()
    ensures r.list.Valid()
  {
  }

  lemma NoDocs(l: seq<Doc>, r: seq<Doc>, positions: bool)
    ensures PhraseDocs(l, r[..0], positions) == []
  {
  }

  lemma AllInRange(list: DocList, j: nat)
    requires list.Valid() && j < |list.docs|
    ensures forall k :: 0 <= k < |list.docs[j].at| ==> InRange(list.docs[j].at[k])
  {
    LegalInRange(list.docs[j].at, 0, 0);
  }

  method NextAfter(r: Reader, ghost i: nat) returns (id: int)
    requires r.Valid() && r.n == i + 1 && i < |r.list.docs| && Ascending(r.list.docs)
    modifies r
    ensures On(r, i + 1) && Place(r.list.docs, i + 1, id)
  {
    id := r.NextDocid();
  }
}
