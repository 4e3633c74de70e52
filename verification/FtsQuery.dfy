/**
 Full-text queries (misc/sqlite/fts1.c:2587-2618, 2775-2854): terms and phrases, joined by AND, OR and
 NOT. The result is exactly the rows whose current text satisfies the query. Row ids are positive.
 */
module FtsQuery {
  import opened DocLists
  import opened DocMerge
  import opened PhraseMerge
  import opened DocUpdate
  import opened DocTrim
  import opened FtsIndex
  import opened FtsTable
  import opened Varint

  /** A phrase of one or more words, in one column or, with a column out of range, in any. */
  datatype Phrase = Phrase(words: seq<string>, col: nat, isOr: bool, isNot: bool)

  // ---------- What a query means ----------

  /** Where a word occurs in a row. */
  function WordAt(tok: Tokenizer, row: Row, word: string, col: nat): seq<Pos> {
    var at := RowPos(tok, row, |row|, word);
    if col < |row| then InColumn(at, col) else at
  }

  /** Where the first n words of a phrase end, one behind the other. */
  function PhraseEnds(tok: Tokenizer, row: Row, words: seq<string>, n: nat, col: nat): seq<Pos>
    requires 0 < n <= |words|
  {
    if n == 1 then WordAt(tok, row, words[0], col)
    else PhraseAt(PhraseEnds(tok, row, words, n - 1, col), WordAt(tok, row, words[n - 1], col))
  }

  /** Word j of n stands where it must if the last one stands at q. */
  predicate InPlace(tok: Tokenizer, row: Row, words: seq<string>, n: nat, col: nat, q: Pos, j: nat)
    requires j < n <= |words|
  {
    Pos(q.col, q.pos - (n - 1 - j)) in WordAt(tok, row, words[j], col)
  }

  /** A phrase ends where its last word stands if each word before stands one place earlier. */
  lemma {:induction false} PhraseMeans(tok: Tokenizer, row: Row, words: seq<string>, n: nat, col: nat, q: Pos)
    requires 0 < n <= |words|
    ensures q in PhraseEnds(tok, row, words, n, col) <==>
            forall j :: 0 <= j < n ==> InPlace(tok, row, words, n, col, q, j)
    decreases n
  {
    hide WordAt, PhraseAt;
    assert q == Pos(q.col, q.pos - (n - 1 - (n - 1)));
    assert InPlace(tok, row, words, n, col, q, n - 1) <==> q in WordAt(tok, row, words[n - 1], col);
    if n > 1 {
      var p, n' := Pos(q.col, q.pos - 1), n - 1;
      PhraseAtIs(PhraseEnds(tok, row, words, n', col), WordAt(tok, row, words[n'], col), q);
      PhraseMeans(tok, row, words, n', col, p);
      forall j | 0 <= j < n'
        ensures InPlace(tok, row, words, n', col, p, j) <==> InPlace(tok, row, words, n, col, q, j)
      {
        assert p.pos - (n - 1 - 1 - j) == q.pos - (n - 1 - j);
      }
    }
  }

  predicate Matches(tok: Tokenizer, row: Row, p: Phrase) {
    p.words != [] && PhraseEnds(tok, row, p.words, |p.words|, p.col) != []
  }

  /** The terms joined by OR to the one before. */
  predicate OrRun(tok: Tokenizer, row: Row, terms: seq<Phrase>) {
    terms != [] && terms[0].isOr && (Matches(tok, row, terms[0]) || OrRun(tok, row, terms[1..]))
  }

  function AfterRun(terms: seq<Phrase>): (r: seq<Phrase>)
    ensures |r| <= |terms|
  {
    if terms != [] && terms[0].isOr then AfterRun(terms[1..]) else terms
  }

  /** Each group of terms joined by OR has one that matches. */
  predicate Satisfies(tok: Tokenizer, row: Row, terms: seq<Phrase>)
    decreases |terms|
  {
    if terms == [] then true
    else if terms[0].isNot then Satisfies(tok, row, terms[1..])
    else (Matches(tok, row, terms[0]) || OrRun(tok, row, terms[1..])) && Satisfies(tok, row, AfterRun(terms[1..]))
  }

  // ---------- The same without recursion ----------

  /** Term i is the first, not excluded, of the terms joined by OR that stand together with it. */
  ghost predicate StartsGroup(terms: seq<Phrase>, i: nat) {
    i < |terms| && !terms[i].isNot && HasRun(terms, i)
  }

  ghost predicate HasRun(terms: seq<Phrase>, i: nat) {
    exists k: nat :: RunFrom(terms, k, i)
  }

  /** The terms from k to i are joined by OR, and all before i are excluded. */
  ghost predicate RunFrom(terms: seq<Phrase>, k: nat, i: nat) {
    && k <= i < |terms| && (k == 0 || !terms[k].isOr)
    && (forall m :: k < m <= i ==> terms[m].isOr) && (forall m :: k <= m < i ==> terms[m].isNot)
  }

  /** Term i or one joined to it by OR matches. */
  ghost predicate GroupMatches(tok: Tokenizer, row: Row, terms: seq<Phrase>, i: nat) {
    exists j :: i <= j < |terms| && Joined(terms, i, j) && Matches(tok, row, terms[j])
  }

  ghost predicate Joined(terms: seq<Phrase>, i: nat, j: nat) {
    j < |terms| && forall m :: i < m <= j ==> terms[m].isOr
  }

  /** A row satisfies the terms exactly if every group of terms joined by OR has one that matches. */
  lemma {:induction false} SatisfiesIs(tok: Tokenizer, row: Row, terms: seq<Phrase>)
    ensures Satisfies(tok, row, terms) <==>
            forall i: nat :: StartsGroup(terms, i) ==> GroupMatches(tok, row, terms, i)
    decreases |terms|
  {
    hide Matches;
    if terms != [] {
      var n := if terms[0].isNot then 1 else 1 + RunLength(terms[1..]);
      var rest := terms[n..];
      if !terms[0].isNot {
        AfterRunIs(terms[1..]);
        assert terms[1..][n - 1..] == rest;
        FirstGroup(tok, row, terms);
      }
      SatisfiesIs(tok, row, rest);
      forall i: nat
        ensures StartsGroup(terms, i) <==> (i == 0 && !terms[0].isNot) || (i >= n && StartsGroup(rest, i - n))
        ensures i >= n ==> (GroupMatches(tok, row, terms, i) <==> GroupMatches(tok, row, rest, i - n))
      {
        if i >= n {
          LaterGroup(tok, row, terms, n, i);
        } else {
          EarlyGroup(terms, n, i);
        }
      }
      assert forall i: nat :: StartsGroup(rest, i) ==> StartsGroup(terms, i + n);
    }
  }

  function RunLength(terms: seq<Phrase>): (n: nat)
    ensures n <= |terms| && (forall k :: 0 <= k < n ==> terms[k].isOr) && (n < |terms| ==> !terms[n].isOr)
  {
    if terms != [] && terms[0].isOr then 1 + RunLength(terms[1..]) else 0
  }

  lemma {:induction false} AfterRunIs(terms: seq<Phrase>)
    ensures AfterRun(terms) == terms[RunLength(terms)..]
    decreases |terms|
  {
    if terms != [] && terms[0].isOr {
      AfterRunIs(terms[1..]);
    }
  }

  lemma {:induction false} OrRunIs(tok: Tokenizer, row: Row, terms: seq<Phrase>)
    ensures OrRun(tok, row, terms) <==> exists j :: 0 <= j < RunLength(terms) && Matches(tok, row, terms[j])
    decreases |terms|
  {
    hide Matches;
    if terms != [] && terms[0].isOr {
      OrRunIs(tok, row, terms[1..]);
      assert forall j :: 0 < j < RunLength(terms) ==> terms[j] == terms[1..][j - 1];
    }
  }

  lemma FirstGroup(tok: Tokenizer, row: Row, terms: seq<Phrase>)
    requires terms != []
    ensures GroupMatches(tok, row, terms, 0) <==> Matches(tok, row, terms[0]) || OrRun(tok, row, terms[1..])
  {
    hide Matches;
    OrRunIs(tok, row, terms[1..]);
    var n := RunLength(terms[1..]);
    forall j | 0 < j < |terms|
      ensures terms[j] == terms[1..][j - 1] && (Joined(terms, 0, j) <==> j <= n)
    {
      JoinedToFirst(terms, j);
    }
    assert Joined(terms, 0, 0);
    if j :| 0 <= j < n && Matches(tok, row, terms[1..][j]) {
      assert terms[j + 1] == terms[1..][j] && Joined(terms, 0, j + 1);
    }
  }

  lemma JoinedToFirst(terms: seq<Phrase>, j: nat)
    requires 0 < j < |terms|
    ensures Joined(terms, 0, j) <==> j <= RunLength(terms[1..])
  {
    var rest := terms[1..];
    var n := RunLength(rest);
    assert forall m :: 0 < m < |terms| ==> terms[m] == rest[m - 1];
    if n < j {
      assert !terms[n + 1].isOr;
    }
  }

  /** Inside the first group no other begins. */
  lemma EarlyGroup(terms: seq<Phrase>, n: nat, i: nat)
    requires terms != [] && i < n && n == if terms[0].isNot then 1 else 1 + RunLength(terms[1..])
    ensures StartsGroup(terms, i) <==> i == 0 && !terms[0].isNot
  {
    if i == 0 {
      assert RunFrom(terms, 0, 0);
    } else {
      assert forall m :: 0 < m <= i ==> terms[m] == terms[1..][m - 1];
    }
  }

  lemma LaterGroup(tok: Tokenizer, row: Row, terms: seq<Phrase>, n: nat, i: nat)
    requires terms != [] && n <= i && n == if terms[0].isNot then 1 else 1 + RunLength(terms[1..])
    ensures StartsGroup(terms, i) <==> StartsGroup(terms[n..], i - n)
    ensures GroupMatches(tok, row, terms, i) <==> GroupMatches(tok, row, terms[n..], i - n)
  {
    hide Matches;
    LaterMatch(tok, row, terms, n, i);
    if i < |terms| {
      assert terms[1..][n - 1] == terms[n] && terms[n..][i - n] == terms[i];
      LaterRun(terms, n, i);
    }
  }

  lemma LaterMatch(tok: Tokenizer, row: Row, terms: seq<Phrase>, n: nat, i: nat)
    requires n <= i && n <= |terms|
    ensures GroupMatches(tok, row, terms, i) <==> GroupMatches(tok, row, terms[n..], i - n)
  {
    hide Matches;
    var rest := terms[n..];
    forall j | i <= j < |terms|
      ensures terms[j] == rest[j - n] && (Joined(terms, i, j) <==> Joined(rest, i - n, j - n))
    {
      LaterJoined(terms, n, i, j);
    }
    if j :| i - n <= j < |rest| && Joined(rest, i - n, j) && Matches(tok, row, rest[j]) {
      assert terms[j + n] == rest[j] && Joined(terms, i, j + n);
    }
  }

  lemma LaterJoined(terms: seq<Phrase>, n: nat, i: nat, j: nat)
    requires n <= i <= j < |terms|
    ensures Joined(terms, i, j) <==> Joined(terms[n..], i - n, j - n)
  {
    var rest := terms[n..];
    assert forall m :: n <= m < |terms| ==> terms[m] == rest[m - n];
    if Joined(rest, i - n, j - n) {
      forall m | i < m <= j
        ensures terms[m].isOr
      {
        assert rest[m - n].isOr;
      }
    }
  }

  lemma LaterRun(terms: seq<Phrase>, n: nat, i: nat)
    requires 0 < n <= i < |terms| && ((n == 1 && terms[0].isNot) || (!terms[0].isNot && !terms[n].isOr))
    ensures HasRun(terms, i) <==> HasRun(terms[n..], i - n)
  {
    var rest := terms[n..];
    assert forall m :: n <= m < |terms| ==> terms[m] == rest[m - n];
    if HasRun(terms, i) {
      var k: nat :| RunFrom(terms, k, i);
      assert RunFrom(rest, if k >= n then k - n else 0, i - n);
    }
    if HasRun(rest, i - n) {
      var k: nat :| RunFrom(rest, k, i - n);
      var k' := if k > 0 || !terms[n].isOr then k + n else 0;
      forall m | k' < m <= i
        ensures terms[m].isOr
      {
        if m > k + n {
          assert rest[m - n].isOr;
        }
      }
      forall m | k' <= m < i
        ensures terms[m].isNot
      {
        if m >= k + n {
          assert rest[m - n].isNot;
        }
      }
      assert RunFrom(terms, k', i);
    }
  }

  predicate Excluded(tok: Tokenizer, row: Row, terms: seq<Phrase>) {
    exists i :: 0 <= i < |terms| && terms[i].isNot && Matches(tok, row, terms[i])
  }

  // ---------- Words ----------

  lemma {:induction false} TokenStrict(toks: seq<Token>, t: string, col: int)
    requires GoodTokens(toks)
    ensures Strict(TokenPos(toks, t, col))
    ensures forall q :: q in TokenPos(toks, t, col) ==> q.col == col && toks != [] && q.pos <= toks[|toks| - 1].pos
    decreases |toks|
  {
    if toks != [] {
      var n := |toks| - 1;
      TokenStrict(toks[..n], t, col);
      var a := TokenPos(toks[..n], t, col);
      assert n > 0 ==> toks[..n][n - 1].pos < toks[n].pos;
      if toks[n].term == t {
        forall i | 0 <= i < |a|
          ensures Less(a[i], Pos(col, toks[n].pos))
        {
          assert a[i] in a;
        }
      }
    }
  }

  lemma {:induction false} RowStrict(tok: Tokenizer, row: Row, n: nat, t: string)
    requires n <= |row| && forall i :: 0 <= i < |row| ==> GoodTokens(tok(row[i]))
    ensures Strict(RowPos(tok, row, n, t)) && forall q :: q in RowPos(tok, row, n, t) ==> q.col < n
    decreases n
  {
    if n > 0 {
      RowStrict(tok, row, n - 1, t);
      TokenStrict(tok(row[n - 1]), t, n - 1);
      StrictConcat(RowPos(tok, row, n - 1, t), TokenPos(tok(row[n - 1]), t, n - 1), n - 1);
    }
  }

  lemma StrictConcat(a: seq<Pos>, b: seq<Pos>, c: int)
    requires Strict(a) && Strict(b) && (forall q :: q in a ==> q.col < c) && (forall q :: q in b ==> q.col == c)
    ensures Strict(a + b) && forall q :: q in a + b ==> q.col < c + 1
  {
    forall i | 0 <= i < |a|
      ensures a[i].col < c
    {
      assert a[i] in a;
    }
    forall i | 0 <= i < |b|
      ensures b[i].col == c
    {
      assert b[i] in b;
    }
  }

  lemma {:induction false} InColumnStrict(at: seq<Pos>, col: int)
    requires Strict(at)
    ensures Strict(InColumn(at, col))
    decreases |at|
  {
    if at != [] {
      var n := |at| - 1;
      InColumnStrict(at[..n], col);
      var a := InColumn(at[..n], col);
      forall i | 0 <= i < |a|
        ensures Less(a[i], at[n])
      {
        InColumnIs(at[..n], col, a[i]);
        var k :| 0 <= k < n && at[..n][k] == a[i];
        assert Less(at[k], at[n]);
      }
    }
  }

  lemma WordStrict(tok: Tokenizer, row: Row, word: string, col: nat)
    requires forall i :: 0 <= i < |row| ==> GoodTokens(tok(row[i]))
    ensures Strict(WordAt(tok, row, word, col))
  {
    RowStrict(tok, row, |row|, word);
    InColumnStrict(RowPos(tok, row, |row|, word), col);
  }

  lemma {:induction false} PhraseStrict(lp: seq<Pos>, rp: seq<Pos>)
    requires Strict(rp)
    ensures Strict(PhraseAt(lp, rp))
    decreases |rp|
  {
    if rp != [] {
      var n := |rp| - 1;
      PhraseStrict(lp, rp[..n]);
      var a := PhraseAt(lp, rp[..n]);
      forall i | 0 <= i < |a|
        ensures Less(a[i], rp[n])
      {
        PhraseAtIs(lp, rp[..n], a[i]);
        var k :| 0 <= k < n && rp[..n][k] == a[i];
        assert Less(rp[k], rp[n]);
      }
    }
  }

  // ---------- Document lists of words and phrases ----------

  /** The rows of the table can be queried: ids are positive. */
  ghost predicate Queryable(table: Table)
    reads table
  {
    table.Valid() && forall id :: id in table.content ==> id > 0
  }

  /** A list of the rows in which n words of a phrase occur, with the places where they end if the
      list has positions. */
  ghost predicate Lists(docs: seq<Doc>, tok: Tokenizer, content: map<int, Row>, words: seq<string>, n: nat, col: nat,
                        positions: bool)
    requires 0 < n <= |words|
  {
    && Ascending(docs) && AllStrict(docs)
    && (forall id :: id in Ids(docs) <==> id in content && PhraseEnds(tok, content[id], words, n, col) != [])
    && (positions ==>
        forall i :: 0 <= i < |docs| ==>
        docs[i].id in content && docs[i].at == PhraseEnds(tok, content[docs[i].id], words, n, col))
  }

  /** term_select_all, seen as the rows a word occurs in. */
  method ListOfWord(table: Table, word: string, col: nat) returns (out: DocList)
    requires Queryable(table)
    ensures fresh(out) && out.Valid() && out.positions &&
            Lists(out.docs, table.tok, table.content, [word], 1, col, true)
  {
    hide DocList.Valid, View, Lists;
    out := table.Select(word, col);
    SelectedIs(table, word, col, out.docs);
  }

  lemma SelectedIs(table: Table, word: string, col: nat, docs: seq<Doc>)
    requires Queryable(table) && Sorted(docs)
    requires View(docs) == WithPositions(Trim(Holders(table.tok, table.content, word), col, table.nColumn))
    ensures Lists(docs, table.tok, table.content, [word], 1, col, true)
  {
    hide View, RowPos, InColumn;
    var tok, content := table.tok, table.content;
    ViewKeys(docs);
    NoneInColumn(col);
    var m := View(docs);
    forall id
      ensures id in m <==> id in content && WordAt(tok, content[id], word, col) != []
      ensures id in m ==> m[id] == WordAt(tok, content[id], word, col)
    {
    }
    forall i | 0 <= i < |docs|
      ensures docs[i].id in content && docs[i].at == WordAt(tok, content[docs[i].id], word, col) && docs[i].id > 0 &&
              Strict(docs[i].at)
    {
      ViewAt(docs, i);
      WordStrict(tok, content[docs[i].id], word, col);
    }
  }

  /** docListOfTerm: a word, or the words of a phrase one after the other. */
  method ListOfPhrase(table: Table, p: Phrase) returns (left: DocList)
    requires Queryable(table) && p.words != []
    ensures fresh(left) && left.Valid()
    ensures Ascending(left.docs) &&
            forall id :: id in Ids(left.docs) <==> id in table.content && Matches(table.tok, table.content[id], p)
  {
    hide DocList.Valid, PhraseDocs, PhraseAt, WordAt, Lists;
    left := ListOfWord(table, p.words[0], p.col);
    var i := 1;
    FirstWord(left.docs, table.tok, table.content, p.words, p.col);
    while i < |p.words|
      invariant 1 <= i <= |p.words| && fresh(left) && left.Valid() && (i < |p.words| ==> left.positions)
      invariant Lists(left.docs, table.tok, table.content, p.words, i, p.col, i < |p.words|)
    {
      var right := ListOfWord(table, p.words[i], p.col);
      var out := EmptyList(i + 1 < |p.words|);
      ListsParts(left.docs, table.tok, table.content, p.words, i, p.col, true);
      ListsParts(right.docs, table.tok, table.content, [p.words[i]], 1, p.col, true);
      PhraseMerge.PhraseMerge(left, right, out);
      NextWord(left.docs, right.docs, table.tok, table.content, p.words, i, p.col, out.positions);
      left := out;
      i := i + 1;
    }
    ListsParts(left.docs, table.tok, table.content, p.words, i, p.col, false);
  }

  method EmptyList(positions: bool) returns (out: DocList)
    ensures fresh(out) && out.Valid() && out.positions == positions && out.docs == []
  {
    out := new DocList(positions, [], []);
  }

  lemma ListsParts(docs: seq<Doc>, tok: Tokenizer, content: map<int, Row>, words: seq<string>, n: nat, col: nat,
                   positions: bool)
    requires 0 < n <= |words| && Lists(docs, tok, content, words, n, col, positions)
    ensures Ascending(docs) && AllStrict(docs) &&
            (forall id :: id in Ids(docs) <==> id in content && PhraseEnds(tok, content[id], words, n, col) != [])
  {
  }

  lemma FirstWord(docs: seq<Doc>, tok: Tokenizer, content: map<int, Row>, words: seq<string>, col: nat)
    requires words != [] && Lists(docs, tok, content, [words[0]], 1, col, true)
    ensures Lists(docs, tok, content, words, 1, col, true) && Lists(docs, tok, content, words, 1, col, 1 < |words|)
  {
    assert forall row :: PhraseEnds(tok, row, words, 1, col) == PhraseEnds(tok, row, [words[0]], 1, col);
  }

  /** What a list says about a row. */
  lemma Listed(docs: seq<Doc>, tok: Tokenizer, content: map<int, Row>, words: seq<string>, n: nat, col: nat, id: int)
    requires 0 < n <= |words| && Lists(docs, tok, content, words, n, col, true) && id in content
    ensures Find(docs, id) == PhraseEnds(tok, content[id], words, n, col)
  {
    hide PhraseEnds;
    if id in Ids(docs) {
      var d :| d in docs && d.id == id;
      var i :| 0 <= i < |docs| && docs[i] == d;
      FindAt(docs, i);
    } else {
      FindNone(docs, id);
    }
  }

  /** Every document of a phrase merge comes from one of the right list. */
  lemma {:induction false} MergedFrom(l: seq<Doc>, r: seq<Doc>, positions: bool, k: nat) returns (j: nat)
    requires k < |PhraseDocs(l, r, positions)|
    ensures j < |r| && PhraseDocs(l, r, positions)[k].id == r[j].id
    ensures var m := PhraseAt(Find(l, r[j].id), r[j].at);
            m != [] && PhraseDocs(l, r, positions)[k].at == if positions then m else []
    decreases |r|
  {
    hide PhraseAt, Find;
    var n := |r| - 1;
    var init := PhraseDocs(l, r[..n], positions);
    if k < |init| {
      j := MergedFrom(l, r[..n], positions, k);
      assert r[..n][j] == r[j];
    } else {
      j := n;
    }
  }

  lemma {:induction false} MergedTo(l: seq<Doc>, r: seq<Doc>, positions: bool, j: nat)
    requires j < |r| && PhraseAt(Find(l, r[j].id), r[j].at) != []
    ensures r[j].id in Ids(PhraseDocs(l, r, positions))
    decreases |r|
  {
    hide PhraseAt, Find;
    var n := |r| - 1;
    var init, d := PhraseDocs(l, r[..n], positions), r[n];
    var m := PhraseAt(Find(l, d.id), d.at);
    if j < n {
      MergedTo(l, r[..n], positions, j);
    }
    if m != [] {
      IdsSnoc(init, Doc(d.id, if positions then m else []));
    } else {
      assert PhraseDocs(l, r, positions) == init;
    }
  }

  lemma NextWord(l: seq<Doc>, r: seq<Doc>, tok: Tokenizer, content: map<int, Row>, words: seq<string>, i: nat, col: nat,
                 positions: bool)
    requires 0 < i < |words| && Lists(l, tok, content, words, i, col, true) &&
             Lists(r, tok, content, [words[i]], 1, col, true)
    ensures Lists(PhraseDocs(l, r, positions), tok, content, words, i + 1, col, positions)
  {
    hide PhraseDocs, PhraseAt, Find;
    var docs := PhraseDocs(l, r, positions);
    PhraseDocsAscend(l, r, positions);
    forall k | 0 <= k < |docs|
      ensures docs[k].id in content && PhraseEnds(tok, content[docs[k].id], words, i + 1, col) != [] &&
              Strict(docs[k].at)
      ensures positions ==> docs[k].at == PhraseEnds(tok, content[docs[k].id], words, i + 1, col)
    {
      var j := MergedFrom(l, r, positions, k);
      OneRow(l, r, tok, content, words, i, col, j);
      PhraseStrict(Find(l, r[j].id), r[j].at);
    }
    forall id | id in content && PhraseEnds(tok, content[id], words, i + 1, col) != []
      ensures id in Ids(docs)
    {
      EndsOfNone(tok, content[id], words, i, col);
      assert id in Ids(r);
      var d :| d in r && d.id == id;
      var j :| 0 <= j < |r| && r[j] == d;
      OneRow(l, r, tok, content, words, i, col, j);
      MergedTo(l, r, positions, j);
    }
  }

  lemma OneRow(l: seq<Doc>, r: seq<Doc>, tok: Tokenizer, content: map<int, Row>, words: seq<string>, i: nat, col: nat,
               j: nat)
    requires 0 < i < |words| && Lists(l, tok, content, words, i, col, true) &&
             Lists(r, tok, content, [words[i]], 1, col, true) && j < |r|
    ensures r[j].id in content && Strict(r[j].at)
    ensures PhraseAt(Find(l, r[j].id), r[j].at) == PhraseEnds(tok, content[r[j].id], words, i + 1, col)
  {
    hide PhraseAt, Find, WordAt;
    assert r[j] in r;
    Listed(l, tok, content, words, i, col, r[j].id);
    assert r[j].at == PhraseEnds(tok, content[r[j].id], [words[i]], 1, col) ==
           WordAt(tok, content[r[j].id], words[i], col);
  }

  lemma EndsOfNone(tok: Tokenizer, row: Row, words: seq<string>, i: nat, col: nat)
    requires 0 < i < |words| && PhraseEnds(tok, row, words, i + 1, col) != []
    ensures PhraseEnds(tok, row, [words[i]], 1, col) != []
  {
    assert PhraseAt(PhraseEnds(tok, row, words, i, col), []) == [];
  }

  // ---------- Queries ----------

  /** The rows that match a phrase, and those that satisfy the terms from a place on. */
  ghost function MatchIds(tok: Tokenizer, content: map<int, Row>, p: Phrase): set<int> {
    set id | id in content && Matches(tok, content[id], p)
  }

  ghost function OrIds(tok: Tokenizer, content: map<int, Row>, terms: seq<Phrase>): set<int> {
    set id | id in content && OrRun(tok, content[id], terms)
  }

  ghost function SatisfyIds(tok: Tokenizer, content: map<int, Row>, terms: seq<Phrase>): set<int> {
    set id | id in content && Satisfies(tok, content[id], terms)
  }

  /** A result list, or none yet. */
  datatype Found = Nothing | List(list: DocList)

  /** The rows still possible: all of them as long as there is no list. */
  ghost function Possible(left: Found, content: map<int, Row>): set<int>
    reads if left.List? then {left.list} else {}
  {
    if left.List? then Ids(left.list.docs) else content.Keys
  }

  /** A term and the terms joined to it by OR. */
  method Group(table: Table, terms: seq<Phrase>, i: nat) returns (right: DocList, next: nat)
    requires Queryable(table) && i < |terms| && forall j :: 0 <= j < |terms| ==> terms[j].words != []
    ensures fresh(right) && right.Valid() && Ascending(right.docs) && i < next <= |terms|
    ensures Ids(right.docs) ==
            MatchIds(table.tok, table.content, terms[i]) + OrIds(table.tok, table.content, terms[i + 1..])
    ensures terms[next..] == AfterRun(terms[i + 1..])
  {
    hide DocList.Valid, Matches, Ascending, Ids, OrRun, Queryable;
    right := ListOfPhrase(table, terms[i]);
    SameIds(right.docs, table.tok, table.content, terms[i]);
    next := i + 1;
    ghost var all := MatchIds(table.tok, table.content, terms[i]) + OrIds(table.tok, table.content, terms[i + 1..]);
    while next < |terms| && terms[next].isOr
      invariant i < next <= |terms| && fresh(right) && right.Valid() && Ascending(right.docs)
      invariant Ids(right.docs) + OrIds(table.tok, table.content, terms[next..]) == all &&
                AfterRun(terms[next..]) == AfterRun(terms[i + 1..])
      decreases |terms| - next
    {
      OrStep(table.tok, table.content, terms, next);
      var or := ListOfPhrase(table, terms[next]);
      SameIds(or.docs, table.tok, table.content, terms[next]);
      var out := EmptyList(false);
      OrMerge(right, or, out);
      right := out;
      next := next + 1;
    }
    NoOr(table.tok, table.content, terms[next..]);
  }

  lemma SameIds(docs: seq<Doc>, tok: Tokenizer, content: map<int, Row>, p: Phrase)
    requires forall id :: id in Ids(docs) <==> id in content && Matches(tok, content[id], p)
    ensures Ids(docs) == MatchIds(tok, content, p)
  {
    hide Ids;
    assert forall id :: id in MatchIds(tok, content, p) <==> id in Ids(docs);
  }

  lemma OrStep(tok: Tokenizer, content: map<int, Row>, terms: seq<Phrase>, i: nat)
    requires i < |terms| && terms[i].isOr
    ensures OrIds(tok, content, terms[i..]) == MatchIds(tok, content, terms[i]) + OrIds(tok, content, terms[i + 1..])
    ensures AfterRun(terms[i..]) == AfterRun(terms[i + 1..])
  {
    assert terms[i..][1..] == terms[i + 1..];
    forall id | id in content
      ensures OrRun(tok, content[id], terms[i..]) <==>
              Matches(tok, content[id], terms[i]) || OrRun(tok, content[id], terms[i + 1..])
    {
    }
  }

  lemma NoOr(tok: Tokenizer, content: map<int, Row>, terms: seq<Phrase>)
    requires terms == [] || !terms[0].isOr
    ensures OrIds(tok, content, terms) == {} && AfterRun(terms) == terms
  {
    assert forall row :: !OrRun(tok, row, terms);
  }

  lemma NoTerms(tok: Tokenizer, content: map<int, Row>, terms: seq<Phrase>)
    requires terms == []
    ensures SatisfyIds(tok, content, terms) == content.Keys
  {
    assert forall row :: Satisfies(tok, row, terms);
  }

  lemma SatisfyStep(tok: Tokenizer, content: map<int, Row>, terms: seq<Phrase>, i: nat, next: nat)
    requires i < |terms| && next <= |terms|
    requires !terms[i].isNot ==> terms[next..] == AfterRun(terms[i + 1..])
    requires terms[i].isNot ==> next == i + 1
    ensures SatisfyIds(tok, content, terms[i..]) ==
            if terms[i].isNot then SatisfyIds(tok, content, terms[next..])
            else (MatchIds(tok, content, terms[i]) + OrIds(tok, content, terms[i + 1..])) * SatisfyIds(tok, content,
                                                                                                       terms[next..])
  {
    assert terms[i..][1..] == terms[i + 1..];
    forall id | id in content
      ensures Satisfies(tok, content[id], terms[i..]) <==>
              (terms[i].isNot || Matches(tok, content[id], terms[i]) || OrRun(tok, content[id], terms[i + 1..])) &&
                Satisfies(tok, content[id], terms[next..])
    {
    }
  }

  /** The groups of terms, merged by AND; how many terms are excluded is counted on the way. */
  method AndTerms(table: Table, terms: seq<Phrase>) returns (left: Found, nNot: nat)
    requires Queryable(table) && forall j :: 0 <= j < |terms| ==> terms[j].words != []
    ensures left.List? ==> fresh(left.list) && left.list.Valid() && Ascending(left.list.docs)
    ensures Possible(left, table.content) == SatisfyIds(table.tok, table.content, terms)
    ensures left.Nothing? <==> forall j :: 0 <= j < |terms| ==> terms[j].isNot
    ensures left.Nothing? ==> nNot == |terms|
  {
    hide DocList.Valid, Ascending, Ids;
    left, nNot := Nothing, 0;
    ghost var goal := SatisfyIds(table.tok, table.content, terms);
    assert terms[0..] == terms;
    var i := 0;
    while i < |terms|
      invariant i <= |terms| && (left.List? ==> fresh(left.list) && left.list.Valid() && Ascending(left.list.docs))
      invariant Possible(left, table.content) * SatisfyIds(table.tok, table.content, terms[i..]) == goal
      invariant Possible(left, table.content) <= table.content.Keys
      invariant left.Nothing? <==> forall j :: 0 <= j < i ==> terms[j].isNot
      invariant left.Nothing? ==> nNot == i
      decreases |terms| - i
    {
      if terms[i].isNot {
        SatisfyStep(table.tok, table.content, terms, i, i + 1);
        nNot := nNot + 1;
        i := i + 1;
      } else {
        var right, next := Group(table, terms, i);
        SatisfyStep(table.tok, table.content, terms, i, next);
        if left.Nothing? {
          left := List(right);
        } else {
          var out := EmptyList(false);
          AndMerge(left.list, right, out);
          left := List(out);
        }
        i := next;
      }
    }
    NoTerms(table.tok, table.content, terms[i..]);
  }

  datatype Answer = Answer(list: DocList) | NoTermsAtAll | OnlyNot

  /** fulltextQuery: the rows that satisfy the terms and match none that is excluded. */
  method Query(table: Table, terms: seq<Phrase>) returns (r: Answer)
    requires Queryable(table) && forall j :: 0 <= j < |terms| ==> terms[j].words != []
    ensures r.NoTermsAtAll? <==> terms == []
    ensures r.OnlyNot? <==> terms != [] && forall j :: 0 <= j < |terms| ==> terms[j].isNot
    ensures r.Answer? ==> fresh(r.list) && r.list.Valid() && Ascending(r.list.docs)
    ensures r.Answer? ==> forall id :: id in Ids(r.list.docs) <==>
              id in table.content && Satisfies(table.tok, table.content[id], terms) &&
                !Excluded(table.tok, table.content[id], terms)
  {
    hide DocList.Valid, Ascending, Ids, Matches, Queryable, Satisfies;
    var left, nNot := AndTerms(table, terms);
    if left.Nothing? {
      return if nNot > 0 then OnlyNot else NoTermsAtAll;
    }
    var list := left.list;
    var i := 0;
    while i < |terms|
      invariant i <= |terms| && fresh(list) && list.Valid() && Ascending(list.docs)
      invariant forall id :: id in Ids(list.docs) <==>
                id in SatisfyIds(table.tok, table.content, terms) && !Excluded(table.tok, table.content[id], terms[..i])
    {
      ExcludedNext(table.tok, table.content, terms, i);
      if terms[i].isNot {
        var right := ListOfPhrase(table, terms[i]);
        var out := EmptyList(false);
        ExceptMerge(list, right, out);
        list := out;
      }
      i := i + 1;
    }
    assert terms[..i] == terms;
    return Answer(list);
  }

  lemma ExcludedNext(tok: Tokenizer, content: map<int, Row>, terms: seq<Phrase>, i: nat)
    requires i < |terms|
    ensures forall row :: Excluded(tok, row, terms[..i + 1]) <==>
            Excluded(tok, row, terms[..i]) || (terms[i].isNot && Matches(tok, row, terms[i]))
    ensures forall row :: !Excluded(tok, row, terms[..0])
  {
    hide Matches;
    forall row
      ensures Excluded(tok, row, terms[..i + 1]) <==>
              Excluded(tok, row, terms[..i]) || (terms[i].isNot && Matches(tok, row, terms[i]))
    {
      if Excluded(tok, row, terms[..i]) {
        var j :| 0 <= j < i && terms[..i][j].isNot && Matches(tok, row, terms[..i][j]);
        assert terms[..i + 1][j] == terms[..i][j];
      }
      assert terms[..i + 1][i] == terms[i];
      assert forall j :: 0 <= j < i ==> terms[..i + 1][j] == terms[..i][j];
    }
  }
}
