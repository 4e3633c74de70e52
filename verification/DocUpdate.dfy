/**
 Changing document lists (misc/sqlite/fts1.c:520-659): splicing one document into a list, laying a
 newer list over an older one, and trimming a list to one column or to documents with positions.
 */
module DocUpdate {
  import opened DocLists
  import opened DocMerge
  import opened Varint
  import opened Arithmetic

  // ---------- Lists as maps ----------

  /** Document ids strictly increase; unlike for the merges, they need not be positive. */
  predicate Sorted(docs: seq<Doc>) {
    forall i, j :: 0 <= i < j < |docs| ==> docs[i].id < docs[j].id
  }

  /** What a list says about each document it mentions. */
  function View(docs: seq<Doc>): map<int, seq<Pos>> {
    if docs == [] then map[] else View(docs[..|docs| - 1])[docs[|docs| - 1].id := docs[|docs| - 1].at]
  }

  lemma {:induction false} ViewKeys(docs: seq<Doc>)
    ensures View(docs).Keys == Ids(docs)
    decreases |docs|
  {
    if docs != [] {
      var n := |docs| - 1;
      ViewKeys(docs[..n]);
      IdsSnoc(docs[..n], docs[n]);
      assert docs == docs[..n] + [docs[n]];
    }
  }

  lemma {:induction false} ViewAt(docs: seq<Doc>, i: nat)
    requires Sorted(docs) && i < |docs|
    ensures docs[i].id in View(docs) && View(docs)[docs[i].id] == docs[i].at
    decreases |docs|
  {
    var n := |docs| - 1;
    if i < n {
      ViewAt(docs[..n], i);
      assert docs[..n][i] == docs[i];
    }
  }

  /** A sorted list is determined by what it says. */
  lemma {:induction false} ViewDetermines(a: seq<Doc>, b: seq<Doc>)
    requires Sorted(a) && Sorted(b) && View(a) == View(b)
    ensures a == b
    decreases |a|
  {
    hide View, Ids, Sorted;
    ViewKeys(a);
    ViewKeys(b);
    SomeId(a);
    SomeId(b);
    if a != [] {
      var m, n := |a| - 1, |b| - 1;
      LastIsMax(a, b[n].id);
      LastIsMax(b, a[m].id);
      ViewAt(a, m);
      ViewAt(b, n);
      WithoutLast(a);
      WithoutLast(b);
      SortedFront(a, m);
      SortedFront(b, n);
      ViewDetermines(a[..m], b[..n]);
      assert a == a[..m] + [a[m]] && b == b[..n] + [b[n]];
    }
  }

  lemma SomeId(docs: seq<Doc>)
    ensures docs != [] ==> docs[|docs| - 1].id in Ids(docs)
    ensures docs == [] ==> Ids(docs) == {}
  {
  }

  lemma SortedFront(docs: seq<Doc>, n: nat)
    requires Sorted(docs) && n <= |docs|
    ensures Sorted(docs[..n])
  {
  }

  lemma LastIsMax(docs: seq<Doc>, x: int)
    requires Sorted(docs) && docs != [] && x in Ids(docs)
    ensures x <= docs[|docs| - 1].id
  {
    var d :| d in docs && d.id == x;
    var i :| 0 <= i < |docs| && docs[i] == d;
  }

  lemma WithoutLast(docs: seq<Doc>)
    requires Sorted(docs) && docs != []
    ensures View(docs[..|docs| - 1]) == View(docs) - {docs[|docs| - 1].id}
  {
    hide View, Ids;
    var n := |docs| - 1;
    ViewKeys(docs[..n]);
    assert docs == docs[..n] + [docs[n]];
    ViewSnoc(docs[..n], docs[n]);
    NewAtEnd(docs, n);
  }

  lemma ViewSnoc(docs: seq<Doc>, d: Doc)
    ensures View(docs + [d]) == View(docs)[d.id := d.at]
  {
  }

  lemma NewAtEnd(docs: seq<Doc>, n: nat)
    requires Sorted(docs) && n < |docs|
    ensures docs[n].id !in Ids(docs[..n])
  {
  }

  /** Document d in its place, instead of the one with its id if there is one. */
  function Upsert(docs: seq<Doc>, d: Doc): seq<Doc> {
    if docs == [] then [d]
    else if docs[0].id < d.id then [docs[0]] + Upsert(docs[1..], d)
    else if docs[0].id == d.id then [d] + docs[1..]
    else [d] + docs
  }

  /** Where Upsert puts the document. */
  lemma {:induction false} UpsertAt(docs: seq<Doc>, d: Doc, k: nat)
    requires k <= |docs| && (forall i :: 0 <= i < k ==> docs[i].id < d.id) && (k < |docs| ==> docs[k].id >= d.id)
    ensures Upsert(docs, d) == docs[..k] + [d] + docs[if k < |docs| && docs[k].id == d.id then k + 1 else k..]
    decreases k
  {
    if k > 0 {
      UpsertAt(docs[1..], d, k - 1);
      assert docs[..k] == [docs[0]] + docs[1..][..k - 1];
    }
  }

  lemma UpsertSorted(docs: seq<Doc>, d: Doc, k: nat)
    requires Sorted(docs) && k <= |docs| && (forall i :: 0 <= i < k ==> docs[i].id < d.id) &&
             (k < |docs| ==> docs[k].id >= d.id)
    ensures Sorted(Upsert(docs, d))
  {
    UpsertAt(docs, d, k);
  }

  lemma {:induction false} Place(docs: seq<Doc>, d: Doc) returns (k: nat)
    ensures k <= |docs| && (forall i :: 0 <= i < k ==> docs[i].id < d.id) && (k < |docs| ==> docs[k].id >= d.id)
    decreases |docs|
  {
    if docs == [] || docs[0].id >= d.id {
      k := 0;
    } else {
      var k' := Place(docs[1..], d);
      k := k' + 1;
      assert forall i :: 0 < i < |docs| ==> docs[i] == docs[1..][i - 1];
    }
  }

  lemma {:induction false} ViewConcat(a: seq<Doc>, b: seq<Doc>)
    ensures View(a + b) == View(a) + View(b)
    decreases |b|
  {
    if b == [] {
      assert a + b == a;
    } else {
      var n := |b| - 1;
      ViewConcat(a, b[..n]);
      assert (a + b)[..|a + b| - 1] == a + b[..n];
    }
  }

  lemma ViewOne(d: Doc)
    ensures View([d]) == map[d.id := d.at]
  {
    assert [d][..0] == [];
  }

  /** Upsert changes what the list says about one document. */
  lemma UpsertView(docs: seq<Doc>, d: Doc)
    requires Sorted(docs)
    ensures View(Upsert(docs, d)) == View(docs)[d.id := d.at] && Sorted(Upsert(docs, d))
  {
    hide View, Sorted, Upsert, Ids;
    var k := Place(docs, d);
    UpsertSorted(docs, d, k);
    UpsertAt(docs, d, k);
    var found := k < |docs| && docs[k].id == d.id;
    var a, b := docs[..k], docs[if found then k + 1 else k..];
    ViewAround(a, d, b);
    ViewKeys(b);
    LaterThan(docs, d, k);
    if found {
      assert docs == a + [docs[k]] + b;
      ViewAround(a, docs[k], b);
    } else {
      assert docs == a + b;
      ViewConcat(a, b);
    }
  }

  lemma ViewAround(a: seq<Doc>, d: Doc, b: seq<Doc>)
    ensures View(a + [d] + b) == View(a)[d.id := d.at] + View(b)
  {
    hide View;
    ViewConcat(a + [d], b);
    ViewConcat(a, [d]);
    ViewOne(d);
    assert View(a) + View([d]) == View(a)[d.id := d.at];
  }

  lemma LaterThan(docs: seq<Doc>, d: Doc, k: nat)
    requires Sorted(docs) && k <= |docs| && (k < |docs| ==> docs[k].id >= d.id)
    ensures d.id !in Ids(docs[if k < |docs| && docs[k].id == d.id then k + 1 else k..])
  {
    NotAfter(docs, d.id, if k < |docs| && docs[k].id == d.id then k + 1 else k);
  }

  lemma NotAfter(docs: seq<Doc>, id: int, k: nat)
    requires Sorted(docs) && k <= |docs| && (k < |docs| ==> docs[k].id > id)
    ensures id !in Ids(docs[k..])
  {
    forall e | e in docs[k..]
      ensures e.id > id
    {
      var i :| 0 <= i < |docs[k..]| && docs[k..][i] == e;
      assert docs[k + i] == e;
    }
  }

  /** A newer list laid over an older one. */
  function Overlay(acc: seq<Doc>, update: seq<Doc>): seq<Doc> {
    if update == [] then acc else Upsert(Overlay(acc, update[..|update| - 1]), update[|update| - 1])
  }

  /** The newer list wins for the documents it mentions. */
  lemma {:induction false} OverlayView(acc: seq<Doc>, update: seq<Doc>)
    requires Sorted(acc)
    ensures Sorted(Overlay(acc, update)) && View(Overlay(acc, update)) == View(acc) + View(update)
    decreases |update|
  {
    if update != [] {
      var n := |update| - 1;
      OverlayView(acc, update[..n]);
      UpsertView(Overlay(acc, update[..n]), update[n]);
    }
  }

  lemma {:induction false} OverlayEmpty(update: seq<Doc>)
    requires Sorted(update)
    ensures Overlay([], update) == update
    decreases |update|
  {
    if update != [] {
      var n := |update| - 1;
      OverlayEmpty(update[..n]);
      UpsertAt(update[..n], update[n], n);
      assert update == update[..n] + [update[n]];
    }
  }

  // ---------- Splicing bytes ----------

  /** A cursor between documents: the bytes before it are those of the documents before it. */
  lemma BytesBefore(r: Reader)
    requires r.Valid() && r.iLastPos == -1
    ensures r.n <= |r.list.docs| && r.p <= |r.list.data| && r.list.Valid() && Legal(r.list.docs, r.list.positions)
    ensures r.list.data[..r.p] == ListBytes(r.list.docs[..r.n], r.list.positions)
    ensures r.list.data[r.p..] == ListBytes(r.list.docs[r.n..], r.list.positions)
  {
    hide ListBytes;
    var docs, data := r.list.docs, r.list.data;
    assert docs == docs[..r.n] + docs[r.n..];
    ListConcat(docs[..r.n], docs[r.n..], r.list.positions);
    assert data == data[..r.p] + data[r.p..];
    SameFront(data[..r.p], ListBytes(docs[..r.n], r.list.positions), data[r.p..]);
  }

  lemma SameFront(a: seq<byte>, b: seq<byte>, c: seq<byte>)
    requires a + c == b + c
    ensures a == b
  {
    assert |a| == |b|;
    assert a == (a + c)[..|a|] && b == (b + c)[..|b|];
  }

  /** Documents k up to k' are replaced by d, and so are their bytes. */
  lemma Spliced(docs: seq<Doc>, data: seq<byte>, positions: bool, k: nat, k': nat, t: nat, t': nat, d: Doc,
                source: seq<byte>, docs': seq<Doc>, data': seq<byte>)
    requires k <= k' <= |docs| && t <= |data| && t' <= |data| && Legal(docs, positions) && LegalDoc(d, positions)
    requires data[..t] == ListBytes(docs[..k], positions) && data[t'..] == ListBytes(docs[k'..], positions)
    requires source == DocBytes(d, positions) && docs' == docs[..k] + [d] + docs[k'..] &&
             data' == data[..t] + source + data[t'..]
    ensures data' == ListBytes(docs', positions) && Legal(docs', positions)
    ensures data'[t + |source|..] == ListBytes(docs'[k + 1..], positions)
  {
    hide ListBytes, DocBytes, LegalDoc;
    ListConcat(docs[..k] + [d], docs[k'..], positions);
    ListConcat(docs[..k], [d], positions);
    ListOne(d, positions);
    assert docs'[k + 1..] == docs[k'..];
    assert data'[t + |source|..] == data[t'..];
  }

  /** docListSpliceElement: puts the bytes of document d in place and leaves the cursor behind it. */
  method SpliceElement(r: Reader, id: int, source: seq<byte>, ghost d: Doc)
    requires r.Valid() && r.iLastPos == -1 && Sorted(r.list.docs)
    requires source == DocBytes(d, r.list.positions) && d.id == id && LegalDoc(d, r.list.positions)
    requires forall i :: 0 <= i < r.n && i < |r.list.docs| ==> r.list.docs[i].id < id
    modifies r, r.list
    ensures r.Valid() && r.iLastPos == -1
    ensures r.list.docs == Upsert(old(r.list.docs), d) && Sorted(r.list.docs)
    ensures 0 < r.n <= |r.list.docs| && r.list.docs[r.n - 1] == d
  {
    hide ListBytes, DocBytes, PosListBytes, LegalDoc, Upsert, Reader.Valid, Sorted;
    var list := r.list;
    ghost var docs, data := list.docs, list.data;
    var found := r.SkipTo(id);
    BytesBefore(r);
    ghost var k := r.n;
    var target := r.p;
    if found {
      r.SkipDocument();
    }
    BytesBefore(r);
    UpsertAt(docs, d, k);
    UpsertSorted(docs, d, k);
    ghost var k' := r.n;
    ghost var docs' := Upsert(docs, d);
    var data' := list.data[..target] + source + list.data[r.p..];
    Spliced(docs, data, list.positions, k, k', target, r.p, d, source, docs', data');
    list.data, list.docs := data', docs';
    r.p := target + |source|;
    r.n := k + 1;
    r.cur := [];
    MakeValid(r);
  }

  lemma MakeValid(r: Reader)
    requires r.list.Valid() && r.n <= |r.list.docs| && r.p <= |r.list.data| && r.iLastPos == -1 && r.cur == []
    requires r.list.data[r.p..] == ListBytes(r.list.docs[r.n..], r.list.positions)
    ensures r.Valid()
  {
  }

  /** docListUpdate: lays a list of one document over d. */
  method Update(list: DocList, update: DocList)
    requires list.Valid() && update.Valid() && list != update && list.positions == update.positions &&
             Sorted(list.docs) && |update.docs| == 1
    modifies list
    ensures list.Valid() && Sorted(list.docs) && list.docs == Upsert(old(list.docs), update.docs[0])
  {
    hide ListBytes, PosListBytes, Upsert, DocBytes, Reader.Valid, DocList.Valid, Sorted, LegalDoc;
    var u := new Reader(update);
    assert u.Rest()[0] == update.docs[0];
    var id := u.ReadDocid();
    var r := new Reader(list);
    OnlyDoc(update);
    SpliceElement(r, id, update.data, update.docs[0]);
    ListOf(r);
  }

  lemma OnlyDoc(list: DocList)
    requires list.Valid() && |list.docs| == 1
    ensures list.data == DocBytes(list.docs[0], list.positions) && LegalDoc(list.docs[0], list.positions)
  {
    ListOne(list.docs[0], list.positions);
    assert list.docs == [list.docs[0]];
  }

  /** docListAccumulate: lays `update` over `acc`. */
  method Accumulate(acc: DocList, update: DocList)
    requires acc.Valid() && update.Valid() && acc != update && acc.positions == update.positions
    requires Sorted(acc.docs) && Sorted(update.docs)
    modifies acc
    ensures acc.Valid() && Sorted(acc.docs) && acc.docs == Overlay(old(acc.docs), update.docs)
  {
    hide DocList.Valid, Reader.Valid, Upsert, DocBytes, LegalDoc, Overlay, Sorted;
    NoBytes(acc);
    NoBytes(update);
    OverlayNone(acc.docs, update.docs);
    if |update.data| == 0 {
      return;
    }
    if |acc.data| == 0 {
      CopyList(acc, update);
      return;
    }
    var a := new Reader(acc);
    var u := new Reader(update);
    ghost var docs0 := acc.docs;
    var end, next := u.Look();
    while !end
      invariant fresh(a) && fresh(u) && a != u && a.list == acc && u.list == update
      invariant a.Valid() && u.Valid() && a.iLastPos == u.iLastPos == -1 && u.n <= |update.docs|
      invariant end <==> u.n == |update.docs|
      invariant acc.Valid() && Sorted(acc.docs) && acc.docs == Overlay(docs0, update.docs[..u.n])
      invariant if u.n == 0 then a.n == 0 else 0 < a.n <= |acc.docs| && acc.docs[a.n - 1] == update.docs[u.n - 1]
      decreases |update.docs| - u.n
    {
      ghost var j := u.n;
      var id, source := NextElement(u);
      AllBefore(acc.docs, a.n, update.docs, j);
      SpliceElement(a, id, source, update.docs[j]);
      OverlayNext(docs0, update.docs, j);
      ListOf(a);
      end, next := u.Look();
    }
    assert update.docs[..u.n] == update.docs;
  }

  lemma OverlayNone(docs: seq<Doc>, update: seq<Doc>)
    ensures Overlay(docs, []) == Overlay(docs, update[..0]) == docs
  {
  }

  lemma OverlayNext(docs: seq<Doc>, update: seq<Doc>, j: nat)
    requires j < |update|
    ensures Overlay(docs, update[..j + 1]) == Upsert(Overlay(docs, update[..j]), update[j])
  {
    assert update[..j + 1][..j] == update[..j];
  }

  lemma AllBefore(docs: seq<Doc>, n: nat, update: seq<Doc>, j: nat)
    requires Sorted(docs) && Sorted(update) && j < |update|
    requires if j == 0 then n == 0 else 0 < n <= |docs| && docs[n - 1] == update[j - 1]
    ensures forall i :: 0 <= i < n && i < |docs| ==> docs[i].id < update[j].id
  {
    if j > 0 {
      assert update[j - 1].id < update[j].id;
    }
  }

  lemma ListOf(r: Reader)
    requires r.Valid()
    ensures r.list.Valid()
  {
  }

  method CopyList(acc: DocList, update: DocList)
    requires acc.Valid() && update.Valid() && acc.positions == update.positions && acc.docs == [] && Sorted(update.docs)
    modifies acc
    ensures acc.Valid() && acc.docs == update.docs == Overlay([], update.docs)
  {
    OverlayEmpty(update.docs);
    acc.data, acc.docs := update.data, update.docs;
  }

  /** The next document's id and bytes. */
  method NextElement(u: Reader) returns (id: int, source: seq<byte>)
    requires u.Valid() && u.iLastPos == -1 && u.n < |u.list.docs|
    modifies u
    ensures u.Valid() && u.iLastPos == -1 && u.n == old(u.n) + 1
    ensures var d := u.list.docs[old(u.n)];
            id == d.id && source == DocBytes(d, u.list.positions) &&
            LegalDoc(d, u.list.positions)
  {
    hide Reader.Valid, DocBytes, LegalDoc, ListBytes;
    ghost var j := u.n;
    var from := u.p;
    BytesBefore(u);
    id := u.ReadDocid();
    u.SkipPositionList();
    BytesBefore(u);
    DocBetween(u.list, j, from, u.p);
    source := u.list.data[from..u.p];
  }

  lemma NoBytes(list: DocList)
    requires list.Valid()
    ensures |list.data| == 0 <==> list.docs == []
  {
  }

  /** The bytes between two places next to each other are those of the document between them. */
  lemma DocBetween(list: DocList, j: nat, from: nat, to: nat)
    requires list.Valid() && j < |list.docs| && from <= |list.data| && to <= |list.data|
    requires list.data[..from] == ListBytes(list.docs[..j], list.positions)
    requires list.data[..to] == ListBytes(list.docs[..j + 1], list.positions)
    ensures from <= to && list.data[from..to] == DocBytes(list.docs[j], list.positions) &&
            LegalDoc(list.docs[j], list.positions)
  {
    hide ListBytes, DocBytes, LegalDoc;
    var d := list.docs[j];
    assert list.docs[..j + 1] == list.docs[..j] + [d];
    ListConcat(list.docs[..j], [d], list.positions);
    ListOne(d, list.positions);
    assert list.data[..to] == list.data[..from] + DocBytes(d, list.positions);
    assert list.data[..to][from..] == list.data[from..to];
  }
}
