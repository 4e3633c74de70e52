/**
 The full-text index (misc/sqlite/fts1.c:1390-1439, 2965-3200): for every term, document lists in
 numbered segments. Segment 0 takes the changes; when it grows beyond CHUNK_MAX bytes it is rolled up
 into the next free segment. A document's entry in a lower segment supersedes those in higher ones.

 The tokenizer is any function from text to terms with increasing positions.
 */
module FtsIndex {
  import opened DocLists
  import opened DocMerge
  import opened DocUpdate
  import opened DocTrim
  import opened Varint
  import opened Arithmetic

  datatype Token = Token(term: string, pos: int)
  type Tokenizer = string -> seq<Token>
  type Row = seq<string>
  type Postings = map<int, seq<Pos>>

  const ChunkMax: nat := 256

  predicate GoodTokens(toks: seq<Token>) {
    && (forall i :: 0 <= i < |toks| ==> 0 <= toks[i].pos < 0x7fff_fffe)
    && (forall i, j :: 0 <= i < j < |toks| ==> toks[i].pos < toks[j].pos)
  }

  // ---------- What the rows say ----------

  /** Where a term occurs in the tokens of one column. */
  function TokenPos(toks: seq<Token>, term: string, col: int): seq<Pos> {
    if toks == [] then []
    else
      var n := |toks| - 1;
      if toks[n].term == term then TokenPos(toks[..n], term, col) + [Pos(col, toks[n].pos)]
      else TokenPos(toks[..n], term, col)
  }

  /** Those are the positions of the tokens that are the term. */
  lemma {:induction false} TokenPosAre(toks: seq<Token>, term: string, col: int, q: Pos)
    ensures q in TokenPos(toks, term, col) <==>
            q.col == col && exists i :: 0 <= i < |toks| && toks[i].term == term && toks[i].pos == q.pos
    decreases |toks|
  {
    if toks != [] {
      var n := |toks| - 1;
      TokenPosAre(toks[..n], term, col, q);
      assert forall i :: 0 <= i < n ==> toks[..n][i] == toks[i];
    }
  }

  /** Where a term occurs in the first n columns of a row. */
  function RowPos(tok: Tokenizer, row: Row, n: nat, term: string): seq<Pos>
    requires n <= |row|
  {
    if n == 0 then [] else RowPos(tok, row, n - 1, term) + TokenPos(tok(row[n - 1]), term, n - 1)
  }

  /** A term occurs in a row exactly where a token of the column named is that term at that position. */
  lemma {:induction false} RowPosAre(tok: Tokenizer, row: Row, n: nat, term: string, q: Pos)
    requires n <= |row|
    ensures q in RowPos(tok, row, n, term) <==>
            0 <= q.col < n &&
            exists i :: 0 <= i < |tok(row[q.col])| && tok(row[q.col])[i].term == term && tok(row[q.col])[i].pos == q.pos
    decreases n
  {
    if n > 0 {
      RowPosAre(tok, row, n - 1, term, q);
      TokenPosAre(tok(row[n - 1]), term, n - 1, q);
    }
  }

  /** The documents that hold a term, with the columns and positions at which they do. */
  function Holders(tok: Tokenizer, content: map<int, Row>, term: string): Postings {
    map id | id in content &&
      RowPos(tok, content[id], |content[id]|, term) != [] :: RowPos(tok, content[id], |content[id]|, term)
  }

  // ---------- What the segments say ----------

  /** Lower segments win. */
  function TermView(segs: seq<seq<Doc>>): Postings {
    if segs == [] then map[] else TermView(segs[1..]) + View(segs[0])
  }

  lemma {:induction false} EmptyFront(segs: seq<seq<Doc>>, i: nat)
    requires i <= |segs| && forall k :: 0 <= k < i ==> segs[k] == []
    ensures TermView(segs) == TermView(segs[i..])
    decreases i
  {
    if i > 0 {
      EmptyFront(segs[1..], i - 1);
      assert segs[1..][i - 1..] == segs[i..];
      assert View(segs[0]) == map[];
    } else {
      assert segs[i..] == segs;
    }
  }

  /** Writing c to segment i, below which all segments are empty and which is empty itself. */
  lemma PutSegment(segs: seq<seq<Doc>>, i: nat, c: seq<Doc>, segs': seq<seq<Doc>>)
    requires i < |segs| && (forall k :: 0 <= k <= i ==> segs[k] == []) && segs' == segs[i := c]
    ensures TermView(segs') == TermView(segs) + View(c)
  {
    EmptyFront(segs', i);
    EmptyFront(segs, i + 1);
    assert segs'[i..][1..] == segs[i + 1..];
  }

  /** Taking segment i out and laying c over it changes nothing. */
  lemma RollUp(segs: seq<seq<Doc>>, i: nat, c: seq<Doc>, segs': seq<seq<Doc>>)
    requires i < |segs| && (forall k :: 0 <= k < i ==> segs[k] == []) && segs' == segs[i := []] && Sorted(segs[i])
    ensures TermView(segs') + View(Overlay(segs[i], c)) == TermView(segs) + View(c)
  {
    hide View, Overlay, Sorted;
    OverlayView(segs[i], c);
    EmptyFront(segs', i + 1);
    EmptyFront(segs, i);
    assert segs'[i + 1..] == segs[i + 1..] == segs[i..][1..];
    MapAssoc(TermView(segs[i + 1..]), View(segs[i]), View(c));
  }

  lemma MapAssoc(a: Postings, b: Postings, c: Postings)
    ensures a + (b + c) == a + b + c
  {
  }

  /** Segment 0 gets a new entry for one document. */
  lemma UpdateFirst(segs: seq<seq<Doc>>, d: Doc)
    requires segs != [] && Sorted(segs[0])
    ensures TermView(segs[0 := Upsert(segs[0], d)]) == TermView(segs)[d.id := d.at]
  {
    UpsertView(segs[0], d);
    assert segs[0 := Upsert(segs[0], d)][1..] == segs[1..];
  }

  lemma {:induction false} AddSegment(segs: seq<seq<Doc>>)
    ensures TermView(segs + [[]]) == TermView(segs)
    decreases |segs|
  {
    if segs == [] {
      assert (segs + [[]])[1..] == [];
      assert View([]) == map[];
    } else {
      AddSegment(segs[1..]);
      assert (segs + [[]])[1..] == segs[1..] + [[]];
    }
  }

  // ---------- Queries ----------

  function RestrictMap(m: Postings, col: int): Postings {
    map id | id in m :: InColumn(m[id], col)
  }

  /** With `col` out of range a query is about all columns. */
  function Trim(m: Postings, col: int, nColumn: nat): Postings {
    if col < nColumn then RestrictMap(m, col) else m
  }

  lemma TrimUnion(a: Postings, b: Postings, col: int, nColumn: nat)
    ensures Trim(a + b, col, nColumn) == Trim(a, col, nColumn) + Trim(b, col, nColumn)
  {
  }

  lemma TrimPositions(m: Postings, col: int, nColumn: nat)
    ensures WithPositions(Trim(m, col, nColumn)) == WithPositions(Trim(WithPositions(m), col, nColumn))
  {
    assert InColumn([], col) == [];
  }

  /** A term's positions in one column are those of the tokens of that column. */
  lemma {:induction false} ColumnOf(tok: Tokenizer, row: Row, n: nat, term: string, col: nat)
    requires n <= |row|
    ensures InColumn(RowPos(tok, row, n, term), col) == if col < n then TokenPos(tok(row[col]), term, col) else []
    decreases n
  {
    hide InColumn, TokenPos;
    if n == 0 {
      NoneInColumn(col);
    } else {
      ColumnOf(tok, row, n - 1, term, col);
      InColumnConcat(RowPos(tok, row, n - 1, term), TokenPos(tok(row[n - 1]), term, n - 1), col);
      OneColumn(tok(row[n - 1]), term, n - 1, col);
    }
  }

  lemma NoneInColumn(col: int)
    ensures InColumn([], col) == []
  {
  }

  lemma {:induction false} InColumnConcat(a: seq<Pos>, b: seq<Pos>, col: int)
    ensures InColumn(a + b, col) == InColumn(a, col) + InColumn(b, col)
    decreases |b|
  {
    if b == [] {
      assert a + b == a;
    } else {
      var n := |b| - 1;
      InColumnConcat(a, b[..n], col);
      assert (a + b)[..|a + b| - 1] == a + b[..n];
    }
  }

  lemma {:induction false} OneColumn(toks: seq<Token>, term: string, c: int, col: int)
    ensures InColumn(TokenPos(toks, term, c), col) == if c == col then TokenPos(toks, term, c) else []
    decreases |toks|
  {
    if toks != [] {
      var n := |toks| - 1;
      OneColumn(toks[..n], term, c, col);
      if toks[n].term == term {
        InColumnConcat(TokenPos(toks[..n], term, c), [Pos(c, toks[n].pos)], col);
        assert InColumn([Pos(c, toks[n].pos)], col) == if c == col then [Pos(c, toks[n].pos)] else [];
      }
    }
  }

  // ---------- The segments of one term ----------

  /** A row of the term table, or none for that segment. */
  datatype Seg = Absent | Present(blob: seq<byte>)

  ghost predicate SegOk(seg: Seg, docs: seq<Doc>) {
    && Sorted(docs) && Legal(docs, true)
    && (if seg.Present? then seg.blob == ListBytes(docs, true) else docs == [])
  }

  /** The segments hold the bytes of these documents. */
  ghost predicate SegsOk(segs: seq<Seg>, docs: seq<seq<Doc>>) {
    |segs| == |docs| && forall i :: 0 <= i < |segs| ==> SegOk(segs[i], docs[i])
  }

  method Load(seg: Seg, ghost docs: seq<Doc>) returns (list: DocList)
    requires SegOk(seg, docs)
    ensures fresh(list) && list.Valid() && list.positions && list.docs == docs
  {
    assert seg.Absent? ==> ListBytes(docs, true) == [];
    list := new DocList(true, if seg.Present? then seg.blob else [], docs);
  }

  lemma Stored(list: DocList)
    requires list.Valid() && list.positions && Sorted(list.docs)
    ensures SegOk(Present(list.data), list.docs)
  {
  }

  /** Only segment 0 is written. */
  ghost predicate FirstChanged(segs0: seq<Seg>, segs: seq<Seg>) {
    && segs != [] && segs[0].Present? && |segs| == (if segs0 == [] then 1 else |segs0|)
    && (segs0 != [] ==> segs[1..] == segs0[1..])
  }

  /** The segments below i, all of which were there, have gone up into segment i, which was not. */
  ghost predicate RolledUpTo(segs0: seq<Seg>, segs: seq<Seg>, i: nat) {
    && 0 < i <= |segs0| && i < |segs| == (if i == |segs0| then i + 1 else |segs0|)
    && (forall k :: 0 <= k < i ==> segs0[k].Present? && segs[k].Absent?)
    && (i < |segs0| ==> segs0[i].Absent?) && segs[i].Present?
    && (forall k :: i < k < |segs| ==> segs[k] == segs0[k])
  }

  /** index_insert_term: one document's entry goes to segment 0, and segments that grow too big are
      rolled up; what the segments say changes for that document only. */
  method InsertTerm(segs0: seq<Seg>, d: DocList, ghost docs0: seq<seq<Doc>>)
    returns (segs: seq<Seg>, ghost docs: seq<seq<Doc>>)
    requires SegsOk(segs0, docs0) && d.Valid() && d.positions && |d.docs| == 1
    ensures SegsOk(segs, docs) && TermView(docs) == TermView(docs0)[d.docs[0].id := d.docs[0].at]
    ensures if docs0 == [] || segs0[0].Absent? || |ListBytes(Upsert(docs0[0], d.docs[0]), true)| <= 256
            then FirstChanged(segs0, segs) else exists i :: RolledUpTo(segs0, segs, i)
  {
    hide DocList.Valid, SegOk, TermView, Sorted, Upsert;
    segs, docs := segs0, docs0;
    if |segs| == 0 {
      AddSegment(docs);
      NoSegment();
      segs, docs := [Absent], docs + [[]];
    }
    ghost var id, at := d.docs[0].id, d.docs[0].at;
    var list := Load(segs[0], docs[0]);
    var wasAbsent := segs[0].Absent?;
    SegSorted(segs[0], docs[0]);
    Update(list, d);
    UpdateFirst(docs, d.docs[0]);
    Stored(list);
    if wasAbsent || |list.data| <= ChunkMax {
      segs, docs := segs[0 := Present(list.data)], docs[0 := list.docs];
      return;
    }
    ghost var target := TermView(docs)[id := at];
    TakeFirst(docs, list.docs, target);
    segs, docs := segs[0 := Absent], docs[0 := []];
    NoSegment();
    var i := 1;
    while i < |segs| && segs[i].Present?
      invariant 1 <= i <= |segs| && SegsOk(segs, docs) && fresh(list) && list.Valid() && list.positions &&
                Sorted(list.docs)
      invariant (forall k :: 0 <= k < i ==> docs[k] == []) && TermView(docs) + View(list.docs) == target
      invariant |segs| == |segs0| && (forall k :: 0 <= k < i ==> segs0[k].Present? && segs[k].Absent?)
      invariant forall k :: i <= k < |segs| ==> segs[k] == segs0[k]
      decreases |segs| - i
    {
      var older := Load(segs[i], docs[i]);
      SegSorted(segs[i], docs[i]);
      RollUp(docs, i, list.docs, docs[i := []]);
      Accumulate(older, list);
      segs, docs := segs[i := Absent], docs[i := []];
      list := older;
      i := i + 1;
    }
    Stored(list);
    if i == |segs| {
      AddSegment(docs);
      segs, docs := segs + [Absent], docs + [[]];
    } else {
      AbsentEmpty(segs[i], docs[i]);
    }
    PutSegment(docs, i, list.docs, docs[i := list.docs]);
    segs, docs := segs[i := Present(list.data)], docs[i := list.docs];
    assert RolledUpTo(segs0, segs, i);
  }

  lemma NoSegment()
    ensures SegOk(Absent, []) && TermView([]) == map[]
  {
  }

  lemma AbsentEmpty(seg: Seg, docs: seq<Doc>)
    requires SegOk(seg, docs) && seg.Absent?
    ensures docs == []
  {
  }

  lemma SegSorted(seg: Seg, docs: seq<Doc>)
    requires SegOk(seg, docs)
    ensures Sorted(docs)
  {
  }

  /** Segment 0, already updated, is taken out. */
  lemma TakeFirst(docs: seq<seq<Doc>>, first: seq<Doc>, target: Postings)
    requires docs != [] && TermView(docs[0 := first]) == target
    ensures TermView(docs[0 := []]) + View(first) == target
  {
    assert docs[0 := first][1..] == docs[1..] == docs[0 := []][1..];
    assert View([]) == map[];
  }

  lemma {:induction false} SegmentSnoc(docs: seq<seq<Doc>>, x: seq<Doc>)
    ensures TermView(docs + [x]) == View(x) + TermView(docs)
    decreases |docs|
  {
    if docs == [] {
      assert (docs + [x])[1..] == [];
    } else {
      hide View;
      SegmentSnoc(docs[1..], x);
      assert (docs + [x])[1..] == docs[1..] + [x];
      MapAssoc(View(x), TermView(docs[1..]), View(docs[0]));
    }
  }

  /** term_select_all: newer segments are laid over older ones, restricted to the column first. */
  method SelectAll(segs: seq<Seg>, ghost docs: seq<seq<Doc>>, col: nat, nColumn: nat) returns (out: DocList)
    requires SegsOk(segs, docs)
    ensures fresh(out) && out.Valid() && out.positions && Sorted(out.docs)
    ensures View(out.docs) == WithPositions(Trim(TermView(docs), col, nColumn))
  {
    hide DocList.Valid, SegOk, TermView, View, Sorted, Trim, WithPositions;
    var list := new DocList(true, [], []);
    SelectStart(col, nColumn);
    assert docs[..0] == [];
    var i := 0;
    while i < |segs|
      invariant i <= |segs| && fresh(list) && list.Valid() && list.positions && Sorted(list.docs)
      invariant View(list.docs) == Trim(TermView(docs[..i]), col, nColumn)
    {
      assert docs[..i + 1] == docs[..i] + [docs[i]];
      SelectStep(docs[..i], docs[i], col, nColumn);
      if segs[i].Present? {
        var older := Load(segs[i], docs[i]);
        SegSorted(segs[i], docs[i]);
        if col < nColumn {
          RestrictSorted(docs[i], col);
          older := RestrictColumn(older, col);
        }
        TrimmedView(docs[i], col, nColumn);
        OverlayView(older.docs, list.docs);
        Accumulate(older, list);
        list := older;
      } else {
        AbsentEmpty(segs[i], docs[i]);
      }
      i := i + 1;
    }
    assert docs[..i] == docs;
    NonEmptySorted(list.docs);
    NonEmptyView(list.docs);
    out := DiscardEmpty(list);
  }

  lemma SelectStart(col: nat, nColumn: nat)
    ensures View([]) == Trim(TermView([]), col, nColumn) && Sorted([])
  {
  }

  lemma SelectStep(docs: seq<seq<Doc>>, x: seq<Doc>, col: nat, nColumn: nat)
    ensures Trim(TermView(docs + [x]), col, nColumn) == Trim(View(x), col, nColumn) + Trim(TermView(docs), col, nColumn)
    ensures x == [] ==> Trim(TermView(docs + [x]), col, nColumn) == Trim(TermView(docs), col, nColumn)
  {
    SegmentSnoc(docs, x);
    TrimUnion(View(x), TermView(docs), col, nColumn);
  }

  lemma TrimmedView(docs: seq<Doc>, col: nat, nColumn: nat)
    ensures Trim(View(docs), col, nColumn) == View(if col < nColumn then RestrictDocs(docs, col) else docs)
  {
    RestrictView(docs, col);
  }

  // ---------- The terms of a row ----------

  /** The entries for one document under construction: for each term its positions so far. */
  type Entries = map<string, seq<Pos>>

  function EntryOf(e: Entries, term: string): seq<Pos> {
    if term in e then e[term] else []
  }

  predicate Occurs(toks: seq<Token>, term: string) {
    exists i :: 0 <= i < |toks| && toks[i].term == term
  }

  /** What a column's tokens add to the entry of term t: the term itself and, unless the column is
      -1, its positions. */
  ghost predicate Built(e0: Entries, e: Entries, toks: seq<Token>, col: int, t: string) {
    && (t in e <==> t in e0 || Occurs(toks, t))
    && EntryOf(e, t) == EntryOf(e0, t) + if col >= 0 then TokenPos(toks, t, col) else []
  }

  /** One token more. */
  function AddToken(e: Entries, tk: Token, col: int): Entries {
    e[tk.term := EntryOf(e, tk.term) + if col >= 0 then [Pos(col, tk.pos)] else []]
  }

  lemma BuiltNext(e0: Entries, e: Entries, toks: seq<Token>, tk: Token, col: int, t: string)
    requires Built(e0, e, toks, col, t)
    ensures Built(e0, AddToken(e, tk, col), toks + [tk], col, t)
  {
    OccursSnoc(toks, tk, t);
    assert (toks + [tk])[..|toks|] == toks;
  }

  lemma OccursSnoc(toks: seq<Token>, tk: Token, t: string)
    ensures Occurs(toks + [tk], t) <==> Occurs(toks, t) || t == tk.term
  {
    if Occurs(toks, t) {
      var k :| 0 <= k < |toks| && toks[k].term == t;
      assert (toks + [tk])[k].term == t;
    } else if t == tk.term {
      assert (toks + [tk])[|toks|].term == t;
    }
  }

  /** buildTerms */
  method BuildTerms(toks: seq<Token>, col: int, e0: Entries) returns (e: Entries)
    ensures forall t :: Built(e0, e, toks, col, t)
  {
    hide Built;
    e := e0;
    var i := 0;
    forall t
      ensures Built(e0, e, toks[..0], col, t)
    {
      BuiltNone(e0, toks[..0], col, t);
    }
    while i < |toks|
      invariant i <= |toks| && forall t :: Built(e0, e, toks[..i], col, t)
    {
      var tk := toks[i];
      ghost var before, front := e, toks[..i] + [tk];
      assert toks[..i + 1] == front;
      forall t
        ensures Built(e0, AddToken(before, tk, col), front, col, t)
      {
        BuiltNext(e0, before, toks[..i], tk, col, t);
      }
      assert EntryOf(before, tk.term) + [] == EntryOf(before, tk.term);
      if tk.term !in e {
        e := e[tk.term := []];
      }
      if col >= 0 {
        e := e[tk.term := e[tk.term] + [Pos(col, tk.pos)]];
      }
      assert e == AddToken(before, tk, col);
      i := i + 1;
    }
    assert toks[..i] == toks;
  }

  lemma BuiltNone(e: Entries, toks: seq<Token>, col: int, t: string)
    requires toks == []
    ensures Built(e, e, toks, col, t)
  {
  }

  lemma {:induction false} OccursIs(toks: seq<Token>, t: string, col: int)
    ensures Occurs(toks, t) <==> TokenPos(toks, t, col) != []
    decreases |toks|
  {
    if toks != [] {
      var n := |toks| - 1;
      OccursIs(toks[..n], t, col);
      OccursSnoc(toks[..n], toks[n], t);
      assert toks[..n] + [toks[n]] == toks;
    }
  }

  /** The entries of a whole row: its terms, with positions if they are wanted. */
  ghost predicate RowBuilt(tok: Tokenizer, row: Row, n: nat, e0: Entries, e: Entries, positions: bool, t: string)
    requires n <= |row|
  {
    && (t in e <==> t in e0 || RowPos(tok, row, n, t) != [])
    && EntryOf(e, t) == EntryOf(e0, t) + if positions then RowPos(tok, row, n, t) else []
  }

  lemma RowBuiltNext(tok: Tokenizer, row: Row, n: nat, e0: Entries, e: Entries, e': Entries, positions: bool, t: string)
    requires n < |row| && RowBuilt(tok, row, n, e0, e, positions, t) &&
             Built(e, e', tok(row[n]), if positions then n else -1, t)
    ensures RowBuilt(tok, row, n + 1, e0, e', positions, t)
  {
    OccursIs(tok(row[n]), t, n);
  }

  /** insertTerms and deleteTerms: the terms of all columns of a row. */
  method RowTerms(tok: Tokenizer, row: Row, positions: bool, e0: Entries) returns (e: Entries)
    ensures forall t :: RowBuilt(tok, row, |row|, e0, e, positions, t)
  {
    hide RowBuilt, Built;
    e := e0;
    var i := 0;
    forall t
      ensures RowBuilt(tok, row, 0, e0, e, positions, t)
    {
      RowNone(tok, row, e, positions, t);
    }
    while i < |row|
      invariant i <= |row| && forall t :: RowBuilt(tok, row, i, e0, e, positions, t)
    {
      ghost var before, next := e, i + 1;
      e := BuildTerms(tok(row[i]), if positions then i else -1, e);
      forall t
        ensures RowBuilt(tok, row, next, e0, e, positions, t)
      {
        RowBuiltNext(tok, row, i, e0, before, e, positions, t);
      }
      i := i + 1;
    }
  }

  lemma RowNone(tok: Tokenizer, row: Row, e: Entries, positions: bool, t: string)
    ensures RowBuilt(tok, row, 0, e, e, positions, t)
  {
  }

  // ---------- Positions of a row can be encoded ----------

  /** Nothing lies behind place p of column c. */
  predicate UpTo(at: seq<Pos>, c: int, p: int) {
    at == [] || at[|at| - 1].col < c || (at[|at| - 1].col == c && at[|at| - 1].pos <= p)
  }

  lemma {:induction false} ColumnLegal(at: seq<Pos>, toks: seq<Token>, k: nat, t: string, col: int)
    requires LegalFrom(at, 0, 0) && (at != [] ==> at[|at| - 1].col < col) && 0 <= col < 0x8000_0000
    requires GoodTokens(toks) && k <= |toks|
    ensures var x := at + TokenPos(toks[..k], t, col);
            LegalFrom(x, 0, 0) && UpTo(x, col, if k == 0 then -1 else toks[k - 1].pos)
    decreases k
  {
    if k == 0 {
      assert at + TokenPos(toks[..0], t, col) == at;
    } else {
      ColumnLegal(at, toks, k - 1, t, col);
      assert toks[..k][..k - 1] == toks[..k - 1];
      assert k > 1 ==> toks[k - 2].pos < toks[k - 1].pos;
      if toks[k - 1].term == t {
        var x, q := at + TokenPos(toks[..k - 1], t, col), Pos(col, toks[k - 1].pos);
        LegalSnoc(x, 0, 0, q);
        assert at + TokenPos(toks[..k], t, col) == x + [q];
      }
    }
  }

  lemma {:induction false} RowLegal(tok: Tokenizer, row: Row, n: nat, t: string)
    requires n <= |row| < 0x8000_0000 && forall i :: 0 <= i < |row| ==> GoodTokens(tok(row[i]))
    ensures var x := RowPos(tok, row, n, t); LegalFrom(x, 0, 0) && (x != [] ==> x[|x| - 1].col < n)
    decreases n
  {
    if n > 0 {
      RowLegal(tok, row, n - 1, t);
      var toks := tok(row[n - 1]);
      ColumnLegal(RowPos(tok, row, n - 1, t), toks, |toks|, t, n - 1);
      assert toks[..|toks|] == toks;
    }
  }

  /** A list of one document. */
  method OneDoc(id: int, at: seq<Pos>) returns (d: DocList)
    requires IsInt64(id) && LegalFrom(at, 0, 0)
    ensures fresh(d) && d.Valid() && d.positions && d.docs == [Doc(id, at)]
  {
    hide DocList.Valid, LegalFrom;
    d := new DocList(true, [], []);
    d.AddDocid(id);
    var i := 0;
    while i < |at|
      invariant i <= |at| && fresh(d) && d.Valid() && d.positions && d.Writing() && d.docs == [Doc(id, at[..i])]
    {
      CanCopy(at, i);
      d.AddPos(at[i]);
      assert at[..i] + [at[i]] == at[..i + 1];
      i := i + 1;
    }
    assert at[..i] == at;
  }
}
