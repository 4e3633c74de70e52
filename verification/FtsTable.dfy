/**
 A full-text table (misc/sqlite/fts1.c:3083-3200): rows inserted, updated and deleted, the index kept
 in step. At all times a query for a term gives exactly the rows whose current text holds it.
 */
module FtsTable {
  import opened DocLists
  import opened DocMerge
  import opened DocUpdate
  import opened DocTrim
  import opened FtsIndex
  import opened Varint

  type Index = map<string, seq<Seg>>
  type IndexDocs = map<string, seq<seq<Doc>>>

  /** What the index says about a term. */
  ghost function IndexView(docs: IndexDocs, t: string): Postings {
    if t in docs then TermView(docs[t]) else map[]
  }

  ghost predicate IndexOk(terms: Index, docs: IndexDocs) {
    terms.Keys == docs.Keys && forall t :: t in terms ==> SegsOk(terms[t], docs[t])
  }

  /** Leaving aside documents marked as having none, what the index says about a term is what the
      rows say. */
  ghost predicate Agrees(tok: Tokenizer, content: map<int, Row>, docs: IndexDocs, t: string) {
    WithPositions(IndexView(docs, t)) == Holders(tok, content, t)
  }

  /** The positions of term t in row id, if there is such a row. */
  function PosIn(tok: Tokenizer, content: map<int, Row>, id: int, t: string): seq<Pos> {
    if id in content then RowPos(tok, content[id], |content[id]|, t) else []
  }

  /** One row changed. */
  ghost predicate ChangedAt(content: map<int, Row>, content': map<int, Row>, id: int) {
    forall x :: x != id ==> (x in content <==> x in content') && (x in content ==> content[x] == content'[x])
  }

  /** A term that gets a new entry for the changed row agrees again. */
  lemma EntryAgrees(tok: Tokenizer, content: map<int, Row>, content': map<int, Row>, docs: IndexDocs, docs': IndexDocs,
                    id: int, t: string)
    requires Agrees(tok, content, docs, t) && ChangedAt(content, content', id)
    requires IndexView(docs', t) == IndexView(docs, t)[id := PosIn(tok, content', id, t)]
    ensures Agrees(tok, content', docs', t)
  {
    hide RowPos, TermView;
    var l, r := WithPositions(IndexView(docs', t)), Holders(tok, content', t);
    forall x
      ensures x in l <==> x in r
      ensures x in l ==> l[x] == r[x]
    {
      if x != id {
        assert x in WithPositions(IndexView(docs, t)) <==> x in Holders(tok, content, t);
        assert x in l <==> x in WithPositions(IndexView(docs, t));
        assert x in r <==> x in Holders(tok, content, t);
      }
    }
  }

  /** So does a term that the row neither had nor has. */
  lemma NoEntryAgrees(tok: Tokenizer, content: map<int, Row>, content': map<int, Row>, docs: IndexDocs,
                      docs': IndexDocs, id: int, t: string)
    requires Agrees(tok, content, docs, t) && ChangedAt(content, content', id)
    requires PosIn(tok, content, id, t) == [] && PosIn(tok, content', id, t) == [] &&
             IndexView(docs', t) == IndexView(docs, t)
    ensures Agrees(tok, content', docs', t)
  {
    hide RowPos, TermView;
    var l, r := Holders(tok, content, t), Holders(tok, content', t);
    forall x
      ensures x in l <==> x in r
      ensures x in l ==> l[x] == r[x]
    {
    }
    assert l == r;
  }

  /** The entry for a term is where the changed row has it; a term without entry it neither had nor has. */
  ghost predicate EntryRight(tok: Tokenizer, content: map<int, Row>, content': map<int, Row>, id: int, e: Entries,
                             t: string) {
    if t in e then e[t] == PosIn(tok, content', id, t)
    else PosIn(tok, content, id, t) == [] && PosIn(tok, content', id, t) == []
  }

  lemma EntryLegal(tok: Tokenizer, content: map<int, Row>, id: int, t: string)
    requires forall text :: GoodTokens(tok(text))
    requires id in content ==> |content[id]| < 0x8000_0000
    ensures LegalFrom(PosIn(tok, content, id, t), 0, 0)
  {
    if id in content {
      RowLegal(tok, content[id], |content[id]|, t);
    }
  }

  /** The entries of a row on its own. */
  lemma FirstBuilt(tok: Tokenizer, row: Row, e: Entries, positions: bool, t: string)
    requires RowBuilt(tok, row, |row|, map[], e, positions, t)
    ensures t in e <==> RowPos(tok, row, |row|, t) != []
    ensures t in e ==> e[t] == if positions then RowPos(tok, row, |row|, t) else []
  {
  }

  /** The entries of a row over those of the one it replaces, which have no positions. */
  lemma ThenBuilt(tok: Tokenizer, row: Row, e0: Entries, e: Entries, t: string)
    requires RowBuilt(tok, row, |row|, e0, e, true, t) && (t in e0 ==> e0[t] == [])
    ensures t in e <==> t in e0 || RowPos(tok, row, |row|, t) != []
    ensures t in e ==> e[t] == RowPos(tok, row, |row|, t)
  {
  }

  datatype Status = Ok | Error

  class Table {
    const tok: Tokenizer
    const nColumn: nat
    var content: map<int, Row>
    var terms: Index

    /** The documents the segments hold. */
    ghost var docs: IndexDocs

    ghost predicate Valid()
      reads this
    {
      && nColumn < 0x8000_0000
      && (forall text :: GoodTokens(tok(text)))
      && (forall id :: id in content ==> IsInt64(id) && |content[id]| == nColumn)
      && IndexOk(terms, docs)
      && (forall t :: Agrees(tok, content, docs, t))
    }

    constructor (tok: Tokenizer, nColumn: nat)
      requires nColumn < 0x8000_0000 && forall text :: GoodTokens(tok(text))
      ensures Valid() && this.tok == tok && this.nColumn == nColumn && content == map[]
    {
      this.tok, this.nColumn := tok, nColumn;
      content, terms, docs := map[], map[], map[];
      new;
      forall t
        ensures Agrees(tok, content, docs, t)
      {
        assert WithPositions(map[]) == Holders(tok, map[], t);
      }
    }

    /** index_insert_term for one term of a row. */
    method AddEntry(t: string, id: int, at: seq<Pos>)
      requires IndexOk(terms, docs) && IsInt64(id) && LegalFrom(at, 0, 0)
      modifies this`terms, this`docs
      ensures IndexOk(terms, docs)
      ensures IndexView(docs, t) == old(IndexView(docs, t))[id := at]
      ensures forall u :: u != t ==> IndexView(docs, u) == old(IndexView(docs, u))
    {
      hide SegsOk, TermView, DocList.Valid;
      var d := OneDoc(id, at);
      var segs := if t in terms then terms[t] else [];
      ghost var before := if t in docs then docs[t] else [];
      NoSegments();
      var segs', after := InsertTerm(segs, d, before);
      terms, docs := terms[t := segs'], docs[t := after];
    }

    /** Writes all entries of a row, in whatever order the hash table lists them. */
    method AddEntries(id: int, e: Entries)
      requires IndexOk(terms, docs) && IsInt64(id) && forall t :: t in e ==> LegalFrom(e[t], 0, 0)
      modifies this`terms, this`docs
      ensures IndexOk(terms, docs)
      ensures forall t :: t in e ==> IndexView(docs, t) == old(IndexView(docs, t))[id := e[t]]
      ensures forall t :: t !in e ==> IndexView(docs, t) == old(IndexView(docs, t))
    {
      hide LegalFrom, IndexView, IndexOk;
      var todo := e.Keys;
      while todo != {}
        invariant todo <= e.Keys && IndexOk(terms, docs)
        invariant forall t :: t in e && t !in todo ==> IndexView(docs, t) == old(IndexView(docs, t))[id := e[t]]
        invariant forall t :: t !in e || t in todo ==> IndexView(docs, t) == old(IndexView(docs, t))
        decreases |todo|
      {
        var t :| t in todo;
        AddEntry(t, id, e[t]);
        todo := todo - {t};
      }
    }

    /** Replaces, adds or removes row id, and writes the entries e for the terms it has or had. */
    method ChangeRow(id: int, content': map<int, Row>, e: Entries)
      requires Valid() && IsInt64(id) && ChangedAt(content, content', id) &&
               (id in content' ==> |content'[id]| == nColumn)
      requires forall t :: EntryRight(tok, content, content', id, e, t)
      modifies this
      ensures Valid() && content == content'
    {
      hide IndexOk, Agrees, RowPos, LegalFrom, IndexView, GoodTokens;
      ghost var content0, docs0 := content, docs;
      forall t | t in e
        ensures LegalFrom(e[t], 0, 0)
      {
        assert EntryRight(tok, content, content', id, e, t);
        EntryLegal(tok, content', id, t);
      }
      content := content';
      AddEntries(id, e);
      forall t
        ensures Agrees(tok, content, docs, t)
      {
        assert EntryRight(tok, content0, content', id, e, t);
        if t in e {
          EntryAgrees(tok, content0, content', docs0, docs, id, t);
        } else {
          NoEntryAgrees(tok, content0, content', docs0, docs, id, t);
        }
      }
    }

    /** index_insert; a row id that is taken is refused. */
    method Insert(id: int, row: Row) returns (rc: Status)
      requires Valid() && IsInt64(id) && |row| == nColumn
      modifies this
      ensures Valid()
      ensures if id in old(content) then rc == Error && content == old(content)
              else rc == Ok && content == old(content)[id := row]
    {
      hide IndexOk, Agrees, RowPos, GoodTokens;
      if id in content {
        return Error;
      }
      var e := RowTerms(tok, row, true, map[]);
      var content' := content[id := row];
      forall t
        ensures EntryRight(tok, content, content', id, e, t)
      {
        FirstBuilt(tok, row, e, true, t);
      }
      ChangeRow(id, content', e);
      return Ok;
    }

    /** index_delete */
    method Delete(id: int) returns (rc: Status)
      requires Valid()
      modifies this
      ensures Valid() && rc == (if id in old(content) then Ok else Error) && content == old(content) - {id}
    {
      hide IndexOk, Agrees, RowPos, GoodTokens;
      if id !in content {
        return Error;
      }
      var e := RowTerms(tok, content[id], false, map[]);
      var content' := content - {id};
      forall t
        ensures EntryRight(tok, content, content', id, e, t)
      {
        FirstBuilt(tok, content[id], e, false, t);
      }
      ChangeRow(id, content', e);
      return Ok;
    }

    /** index_update: the old row's terms are entered without positions, then the new row's with. */
    method Update(id: int, row: Row) returns (rc: Status)
      requires Valid() && |row| == nColumn
      modifies this
      ensures Valid()
      ensures if id in old(content) then rc == Ok && content == old(content)[id := row]
              else rc == Error && content == old(content)
    {
      hide IndexOk, Agrees, RowPos, GoodTokens;
      if id !in content {
        return Error;
      }
      var e0 := RowTerms(tok, content[id], false, map[]);
      var e := RowTerms(tok, row, true, e0);
      var content' := content[id := row];
      forall t
        ensures EntryRight(tok, content, content', id, e, t)
      {
        FirstBuilt(tok, content[id], e0, false, t);
        ThenBuilt(tok, row, e0, e, t);
      }
      ChangeRow(id, content', e);
      return Ok;
    }

    /** A query for a term, in one column or, with a column out of range, in all. */
    method Select(t: string, col: nat) returns (out: DocList)
      requires Valid()
      ensures fresh(out) && out.Valid() && out.positions && Sorted(out.docs)
      ensures View(out.docs) == WithPositions(Trim(Holders(tok, content, t), col, nColumn))
    {
      hide Holders, TermView, SegsOk, DocList.Valid, View, WithPositions, Trim, GoodTokens;
      assert Agrees(tok, content, docs, t);
      NoSegments();
      TrimPositions(IndexView(docs, t), col, nColumn);
      out := SelectAll(if t in terms then terms[t] else [], if t in docs then docs[t] else [], col, nColumn);
    }
  }

  lemma NoSegments()
    ensures SegsOk([], []) && TermView([]) == map[]
  {
  }

  /** What a query for one column gives: the rows whose text in that column holds the term, each with
      the positions of the term there. */
  lemma SelectedColumn(tok: Tokenizer, content: map<int, Row>, nColumn: nat, t: string, col: nat)
    requires col < nColumn && forall id :: id in content ==> |content[id]| == nColumn
    ensures WithPositions(Trim(Holders(tok, content, t), col, nColumn))
         == map id | id in content &&
           TokenPos(tok(content[id][col]), t, col) != [] :: TokenPos(tok(content[id][col]), t, col)
  {
    hide RowPos, InColumn, TokenPos;
    forall id | id in content
      ensures InColumn(RowPos(tok, content[id], nColumn, t), col) == TokenPos(tok(content[id][col]), t, col)
      ensures RowPos(tok, content[id], nColumn, t) == [] ==> TokenPos(tok(content[id][col]), t, col) == []
    {
      ColumnOf(tok, content[id], nColumn, t, col);
      NoneInColumn(col);
    }
    var h := Holders(tok, content, t);
    assert forall id :: id in h <==> id in content && RowPos(tok, content[id], nColumn, t) != [];
    var l := WithPositions(Trim(h, col, nColumn));
    var r := map id | id in content &&
      TokenPos(tok(content[id][col]), t, col) != [] :: TokenPos(tok(content[id][col]), t, col);
    forall id
      ensures id in l <==> id in r
      ensures id in l ==> l[id] == r[id]
    {
    }
    assert l == r;
  }

  /** And for all columns. */
  lemma SelectedAll(tok: Tokenizer, content: map<int, Row>, nColumn: nat, t: string, col: nat)
    requires col >= nColumn
    ensures WithPositions(Trim(Holders(tok, content, t), col, nColumn)) == Holders(tok, content, t)
  {
  }
}
