/**
 Document lists (misc/sqlite/fts1.c:153-480): documents in ascending order, each with the columns and
 positions at which a term occurs, delta-encoded as varints. A list is either of type DL_DOCIDS, which
 holds document ids only, or of type DL_POSITIONS.
 */
module DocLists {
  import opened Varint
  import opened Arithmetic

  datatype Pos = Pos(col: int, pos: int)
  datatype Doc = Doc(id: int, at: seq<Pos>)

  const PosEnd: int := 0
  const PosColumn: int := 1
  const PosBase: int := 2

  // ---------- The encoding ----------

  /** One position, after position p of column c. */
  function PosBytes(c: int, p: int, q: Pos): seq<byte> {
    if q.col != c then Bytes(PosColumn) + Bytes(q.col) + Bytes(q.pos + PosBase) else Bytes(q.pos - p + PosBase)
  }

  function PosListBytes(at: seq<Pos>, c: int, p: int): seq<byte> {
    if at == [] then Bytes(PosEnd) else PosBytes(c, p, at[0]) + PosListBytes(at[1..], at[0].col, at[0].pos)
  }

  function DocBytes(d: Doc, positions: bool): (s: seq<byte>)
    ensures |s| > 0
  {
    Bytes(d.id) + if positions then PosListBytes(d.at, 0, 0) else []
  }

  function ListBytes(docs: seq<Doc>, positions: bool): seq<byte> {
    if docs == [] then [] else DocBytes(docs[0], positions) + ListBytes(docs[1..], positions)
  }

  /** The format at an example: document 300, positions 3 and 7 of column 0 and position 1 of column 2. */
  lemma FormatExample()
    ensures DocBytes(Doc(300, [Pos(0, 3), Pos(0, 7), Pos(2, 1)]), true) == [172, 2, 5, 6, 1, 2, 3, 0]
    ensures DocBytes(Doc(300, []), false) == [172, 2]
  {
    var a, b, c := Pos(0, 3), Pos(0, 7), Pos(2, 1);
    assert Bytes(300) == [172] + Encode(2) == [172, 2];
    assert [a, b, c][1..] == [b, c] && [b, c][1..] == [c] && [c][1..] == [];
    assert PosListBytes([], 2, 1) == [0];
    assert PosBytes(0, 7, c) == [1] + [2] + [3];
    assert PosListBytes([c], 0, 7) == [1, 2, 3, 0];
    assert PosListBytes([b, c], 0, 3) == [6] + [1, 2, 3, 0];
    assert PosListBytes([a, b, c], 0, 0) == [5] + ([6] + [1, 2, 3, 0]);
  }

  // ---------- What can be encoded ----------

  /** q may follow position p of column c: a later column, or the same one no further left. */
  predicate Follows(c: int, p: int, q: Pos) {
    && 0 <= q.col < 0x8000_0000 && 0 <= q.pos < 0x7fff_fffe
    && (q.col > c || (q.col == c && q.pos >= p))
  }

  predicate LegalFrom(at: seq<Pos>, c: int, p: int) {
    at == [] || (Follows(c, p, at[0]) && LegalFrom(at[1..], at[0].col, at[0].pos))
  }

  predicate LegalDoc(d: Doc, positions: bool) {
    IsInt64(d.id) && LegalFrom(d.at, 0, 0) && (!positions ==> d.at == [])
  }

  predicate Legal(docs: seq<Doc>, positions: bool) {
    forall i :: 0 <= i < |docs| ==> LegalDoc(docs[i], positions)
  }

  function LastPos(at: seq<Pos>, c: int, p: int): Pos {
    if at == [] then Pos(c, p) else at[|at| - 1]
  }

  /** Appending a position replaces the end mark by the position and a new end mark. */
  lemma {:induction false} PosListSnoc(at: seq<Pos>, c: int, p: int, q: Pos)
    ensures var l := LastPos(at, c, p);
            var s := PosListBytes(at, c, p);
            |s| > 0 && s[|s| - 1..] == Bytes(PosEnd) &&
              PosListBytes(at + [q], c, p) == s[..|s| - 1] + (PosBytes(l.col, l.pos, q) + Bytes(PosEnd))
    decreases |at|
  {
    OneByte(PosEnd);
    if at == [] {
      assert ([q])[1..] == [];
      assert at + [q] == [q];
    } else {
      PosListSnoc(at[1..], at[0].col, at[0].pos, q);
      assert (at + [q])[1..] == at[1..] + [q];
      assert LastPos(at, c, p) == LastPos(at[1..], at[0].col, at[0].pos);
      var t := PosListBytes(at[1..], at[0].col, at[0].pos);
      var h := PosBytes(c, p, at[0]);
      var s := h + t;
      assert s[..|s| - 1] == h + t[..|t| - 1];
      assert s[|s| - 1..] == t[|t| - 1..];
    }
  }

  lemma {:induction false} LegalSnoc(at: seq<Pos>, c: int, p: int, q: Pos)
    requires LegalFrom(at, c, p) && Follows(LastPos(at, c, p).col, LastPos(at, c, p).pos, q)
    ensures LegalFrom(at + [q], c, p)
    decreases |at|
  {
    if at == [] {
      assert (at + [q])[1..] == [];
    } else {
      assert LastPos(at, c, p) == LastPos(at[1..], at[0].col, at[0].pos);
      LegalSnoc(at[1..], at[0].col, at[0].pos, q);
      assert (at + [q])[1..] == at[1..] + [q];
    }
  }

  lemma {:induction false} ListConcat(a: seq<Doc>, b: seq<Doc>, positions: bool)
    ensures ListBytes(a + b, positions) == ListBytes(a, positions) + ListBytes(b, positions)
    decreases |a|
  {
    hide DocBytes;
    if a == [] {
      assert a + b == b;
    } else {
      assert (a + b)[1..] == a[1..] + b;
      ListConcat(a[1..], b, positions);
      Assoc(DocBytes(a[0], positions), ListBytes(a[1..], positions), ListBytes(b, positions));
    }
  }

  lemma ListOne(d: Doc, positions: bool)
    ensures ListBytes([d], positions) == DocBytes(d, positions)
  {
    assert [d][1..] == [];
  }

  // ---------- Writing ----------

  class DocList {
    const positions: bool
    var data: seq<byte>
    var iLastColumn: int
    var iLastPos: int

    /** The documents written. */
    ghost var docs: seq<Doc>

    ghost predicate Valid()
      reads this
    {
      data == ListBytes(docs, positions) && Legal(docs, positions)
    }

    /** The last document is the one being written to. */
    ghost predicate Writing()
      reads this
    {
      docs != [] && positions && Pos(iLastColumn, iLastPos) == LastPos(docs[|docs| - 1].at, 0, 0)
    }

    /** docListInit: empty, or with the given content. */
    constructor (positions: bool, data: seq<byte>, ghost docs: seq<Doc>)
      requires data == ListBytes(docs, positions) && Legal(docs, positions)
      ensures Valid() && this.docs == docs && this.positions == positions
    {
      this.positions := positions;
      this.data, this.docs := data, docs;
      iLastColumn, iLastPos := 0, 0;
    }

    method AppendVarint(v: int)
      modifies this`data
      ensures data == old(data) + Bytes(v)
    {
      var s := Put(v);
      data := data + s;
    }

    /** docListAddDocid */
    method AddDocid(id: int)
      requires Valid() && IsInt64(id)
      modifies this
      ensures Valid() && docs == old(docs) + [Doc(id, [])] && (positions ==> Writing())
    {
      ghost var d := Doc(id, []);
      ListConcat(docs, [d], positions);
      ListOne(d, positions);
      docs := docs + [d];
      AppendVarint(id);
      if positions {
        AppendVarint(PosEnd);
        iLastColumn, iLastPos := 0, 0;
      }
      assert data == ListBytes(docs, positions);
    }

    /** docListAddPos: one more position of the last document. */
    method AddPos(q: Pos)
      requires Valid() && Writing() && Follows(iLastColumn, iLastPos, q)
      modifies this
      ensures Valid() && Writing()
      ensures var n := |old(docs)| - 1; docs == old(docs)[n := Doc(old(docs)[n].id, old(docs)[n].at + [q])]
    {
      hide ListBytes, PosListBytes, Bytes, LegalFrom;
      ghost var n := |docs| - 1;
      ghost var d := docs[n];
      ListSnoc(docs, q, positions);
      LegalSnoc(d.at, 0, 0, q);
      data := data[..|data| - 1];
      if q.col != iLastColumn {
        AppendVarint(PosColumn);
        AppendVarint(q.col);
        iLastColumn := q.col;
        iLastPos := 0;
      }
      AppendVarint(q.pos - iLastPos + PosBase);
      iLastPos := q.pos;
      AppendVarint(PosEnd);
      docs := docs[n := Doc(d.id, d.at + [q])];
    }
  }

  /** The bytes of a list whose last document gets one more position. */
  lemma ListSnoc(docs: seq<Doc>, q: Pos, positions: bool)
    requires docs != [] && positions
    ensures var n := |docs| - 1;
            var l := LastPos(docs[n].at, 0, 0);
            var s := ListBytes(docs, positions);
            |s| > 0 && ListBytes(docs[n := Doc(docs[n].id, docs[n].at + [q])], positions) ==
              s[..|s| - 1] + (PosBytes(l.col, l.pos, q) + Bytes(PosEnd))
  {
    hide ListBytes, PosListBytes, PosBytes, Bytes;
    var n := |docs| - 1;
    var d, d' := docs[n], Doc(docs[n].id, docs[n].at + [q]);
    LastDoc(docs[..n], d, positions);
    LastDoc(docs[..n], d', positions);
    assert docs == docs[..n] + [d] && docs[n := d'] == docs[..n] + [d'];
    PosListSnoc(d.at, 0, 0, q);
    var t, l := PosListBytes(d.at, 0, 0), LastPos(d.at, 0, 0);
    var h := ListBytes(docs[..n], positions) + Bytes(d.id);
    DropLast(h, t);
    Assoc(h, t[..|t| - 1], PosBytes(l.col, l.pos, q) + Bytes(PosEnd));
  }

  lemma Assoc(a: seq<byte>, b: seq<byte>, c: seq<byte>)
    ensures a + (b + c) == a + b + c
  {
  }

  lemma DropLast(h: seq<byte>, t: seq<byte>)
    requires |t| > 0
    ensures (h + t)[..|h + t| - 1] == h + t[..|t| - 1]
  {
  }

  lemma LastDoc(init: seq<Doc>, d: Doc, positions: bool)
    ensures ListBytes(init + [d], positions) ==
            ListBytes(init, positions) + Bytes(d.id) + if positions then PosListBytes(d.at, 0, 0) else []
  {
    ListConcat(init, [d], positions);
    ListOne(d, positions);
  }

  // ---------- Reading ----------

  function Tail(docs: seq<Doc>, n: nat): seq<Doc> {
    if n <= |docs| then docs[n..] else []
  }

  /** A cursor into a list. */
  class Reader {
    const list: DocList
    var p: nat
    var iLastColumn: int
    /** The last position read, or -1 outside a position list. */
    var iLastPos: int

    /** How many documents have been begun, and what is left of the current one. */
    ghost var n: nat
    ghost var cur: seq<Pos>

    /** The documents not begun yet. */
    ghost function Rest(): seq<Doc>
      reads this, list
    {
      Tail(list.docs, n)
    }

    ghost predicate Valid()
      reads this, list
    {
      && list.Valid() && n <= |list.docs| && p <= |list.data|
      && list.data[p..] ==
         (if iLastPos == -1 then [] else PosListBytes(cur, iLastColumn, iLastPos)) + ListBytes(Rest(), list.positions)
      && (iLastPos == -1 ==> cur == [])
      && (iLastPos != -1 ==> list.positions && iLastPos >= 0 && LegalFrom(cur, iLastColumn, iLastPos))
    }

    /** readerInit */
    constructor (list: DocList)
      requires list.Valid()
      ensures this.list == list && Valid() && n == 0 && cur == [] && iLastPos == -1
    {
      this.list := list;
      p, iLastColumn, iLastPos, n, cur := 0, -1, -1, 0, [];
    }

    method AtEnd() returns (b: bool)
      requires Valid()
      ensures b <==> iLastPos == -1 && Rest() == []
    {
      b := p >= |list.data|;
      EndIs(cur, iLastColumn, iLastPos, Rest(), list.positions);
    }

    /** The next number, which the caller knows to be there. */
    method Take(ghost v: int, ghost rest: seq<byte>) returns (i: int)
      requires p <= |list.data| && list.data[p..] == Bytes(v) + rest && IsInt64(v)
      modifies this`p
      ensures i == v && p <= |list.data| && list.data[p..] == rest && p == old(p) + |Bytes(v)|
    {
      Readable(v, rest);
      var r := Get(list.data[p..]);
      RoundTrip(v, rest, r);
      i := r.value;
      p := p + r.length;
      assert list.data[p..] == list.data[old(p)..][r.length..];
    }

    method PeekDocid() returns (id: int)
      requires Valid() && iLastPos == -1 && Rest() != []
      ensures id == Rest()[0].id
    {
      ghost var d := Rest()[0];
      NextDoc(Rest(), list.positions);
      ghost var rest := (if list.positions then PosListBytes(d.at, 0, 0) else []) +
        ListBytes(Rest()[1..], list.positions);
      assert list.data[p..] == Bytes(d.id) + rest;
      Readable(d.id, rest);
      var r := Get(list.data[p..]);
      RoundTrip(d.id, rest, r);
      id := r.value;
    }

    method ReadDocid() returns (id: int)
      requires Valid() && iLastPos == -1 && Rest() != []
      modifies this
      ensures Valid() && n == old(n) + 1 && id == old(Rest())[0].id && cur == old(Rest())[0].at &&
              Rest() == old(Rest())[1..]
      ensures iLastPos == (if list.positions then 0 else -1)
    {
      ghost var d := Rest()[0];
      assert d == list.docs[n];
      NextDoc(Rest(), list.positions);
      id := Take(d.id, (if list.positions then PosListBytes(d.at, 0, 0) else []) +
                 ListBytes(Rest()[1..], list.positions));
      if list.positions {
        iLastColumn, iLastPos := 0, 0;
      }
      cur := d.at;
      n := n + 1;
    }

    /** The bytes of the documents not begun yet, and of what follows the next position. */
    ghost function Later(): seq<byte>
      reads this, list
    {
      ListBytes(Tail(list.docs, n), list.positions)
    }

    ghost function AfterNext(): seq<byte>
      requires cur != []
      reads this, list
    {
      PosListBytes(cur[1..], cur[0].col, cur[0].pos) + Later()
    }

    /** The first number of the next position: the end mark, a column mark, or the position itself. */
    method ReadMark() returns (i: int)
      requires Valid() && iLastPos != -1
      modifies this`p
      ensures p <= |list.data|
      ensures cur == [] ==> i == PosEnd && list.data[p..] == Later()
      ensures cur != [] ==>
                var q := cur[0];
                && Follows(iLastColumn, iLastPos, q) && LegalFrom(cur[1..], q.col, q.pos)
                && if q.col == iLastColumn then i == q.pos - iLastPos + PosBase && list.data[p..] == AfterNext()
                   else i == PosColumn && list.data[p..] == Bytes(q.col) + (Bytes(q.pos + PosBase) + AfterNext())
    {
      hide PosListBytes, ListBytes, Bytes, LegalFrom, Tail, DocList.Valid, Follows;
      ghost var v, rest := Mark(cur, iLastColumn, iLastPos, Later());
      i := Take(v, rest);
    }

    /** readPosition: the next position of the current document, or -1 at its end. */
    method ReadPosition() returns (pos: int, col: int)
      requires Valid()
      modifies this
      ensures Valid() && n == old(n)
      ensures old(cur) == [] ==> pos == -1 && iLastPos == -1 && cur == []
      ensures old(cur) != [] ==>
              pos >= 0 && pos == old(cur)[0].pos && col == old(cur)[0].col && cur == old(cur)[1..] && iLastPos == pos
    {
      hide PosListBytes, ListBytes, Bytes, LegalFrom, Rest, DocList.Valid, Valid;
      pos, col := -1, -1;
      Opened();
      if iLastPos == -1 {
        return;
      }
      ghost var q, tail, later := if cur == [] then Pos(0, 0) else cur[0], if cur == [] then [] else cur[1..], Later();
      ghost var after := PosListBytes(tail, q.col, q.pos) + later;
      var i := ReadMark();
      if i == PosEnd {
        iLastColumn, iLastPos := -1, -1;
        AtListEnd(later);
        return;
      }
      if i == PosColumn {
        i := ReadColumn(q, after);
      }
      iLastPos := iLastPos + i - PosBase;
      pos, col := iLastPos, iLastColumn;
      cur := tail;
      InList(later);
    }

    /** The column after a column mark, and the number of the position after it. */
    method ReadColumn(ghost q: Pos, ghost after: seq<byte>) returns (i: int)
      requires p <= |list.data| && list.data[p..] == Bytes(q.col) + (Bytes(q.pos + PosBase) + after)
      requires 0 <= q.col < 0x8000_0000 && 0 <= q.pos < 0x7fff_fffe
      modifies this`p, this`iLastColumn, this`iLastPos
      ensures p <= |list.data| && list.data[p..] == after && i == q.pos + PosBase && iLastColumn == q.col &&
              iLastPos == 0
    {
      iLastColumn := Take(q.col, Bytes(q.pos + PosBase) + after);
      iLastPos := 0;
      i := Take(q.pos + PosBase, after);
    }

    lemma Opened()
      requires Valid()
      ensures list.Valid() && n <= |list.docs| && p <= |list.data|
      ensures if iLastPos == -1 then cur == [] else list.positions && iLastPos >= 0
    {
    }

    lemma AtListEnd(later: seq<byte>)
      requires list.Valid() && n <= |list.docs| && p <= |list.data| && iLastPos == -1 && cur == []
      requires list.data[p..] == later == ListBytes(Tail(list.docs, n), list.positions)
      ensures Valid()
    {
    }

    lemma InList(later: seq<byte>)
      requires list.Valid() && n <= |list.docs| && p <= |list.data| && list.positions && iLastPos >= 0
      requires later == ListBytes(Tail(list.docs, n), list.positions) && LegalFrom(cur, iLastColumn, iLastPos)
      requires list.data[p..] == PosListBytes(cur, iLastColumn, iLastPos) + later
      ensures Valid()
    {
    }

    method SkipPositionList()
      requires Valid()
      modifies this
      ensures Valid() && n == old(n) && iLastPos == -1
    {
      if list.positions {
        var pos, col := ReadPosition();
        while pos != -1
          invariant Valid() && n == old(n) && (pos == -1 ==> iLastPos == -1)
          decreases |cur|, pos != -1
        {
          pos, col := ReadPosition();
        }
      }
    }

    method SkipDocument()
      requires Valid() && iLastPos == -1 && Rest() != []
      modifies this
      ensures Valid() && n == old(n) + 1 && iLastPos == -1 && Rest() == old(Rest())[1..]
    {
      var id := ReadDocid();
      SkipPositionList();
    }

    /** Whether there is a next document, and its id. */
    method Look() returns (end: bool, d: int)
      requires Valid() && iLastPos == -1
      ensures n <= |list.docs| && (end <==> n == |list.docs|) && (!end ==> d == list.docs[n].id)
    {
      end := AtEnd();
      d := 0;
      if !end {
        d := PeekDocid();
      }
    }

    lemma RestThere()
      ensures Rest() == [] <==> n >= |list.docs|
    {
    }

    /** skipToDocid: past all documents before `id`; true if it is there. */
    method SkipTo(id: int) returns (found: bool)
      requires Valid() && iLastPos == -1
      modifies this
      ensures Valid() && iLastPos == -1 && old(n) <= n <= |list.docs|
      ensures forall i :: old(n) <= i < n ==> list.docs[i].id < id
      ensures found <==> n < |list.docs| && list.docs[n].id == id
      ensures n < |list.docs| ==> list.docs[n].id >= id
    {
      hide Valid, Rest, Tail;
      var end, d := Look();
      while !end && d < id
        invariant Valid() && iLastPos == -1 && old(n) <= n <= |list.docs|
        invariant forall i :: old(n) <= i < n ==> list.docs[i].id < id
        invariant end <==> n == |list.docs|
        invariant !end ==> d == list.docs[n].id
        decreases |list.docs| - n
      {
        RestThere();
        SkipDocument();
        end, d := Look();
      }
      found := !end && d == id;
    }

    /** nextDocid: the next document's id, or 0 if there is none. */
    method NextDocid() returns (id: int)
      requires Valid()
      modifies this
      ensures Valid()
      ensures old(Rest()) == [] ==> id == 0 && n == old(n) && iLastPos == -1
      ensures old(Rest()) != [] ==>
              id == old(Rest())[0].id && n == old(n) + 1 && cur == old(Rest())[0].at && Rest() == old(Rest())[1..]
    {
      SkipPositionList();
      var end := AtEnd();
      if end {
        id := 0;
      } else {
        id := ReadDocid();
      }
    }
  }

  /** The rest of the current document's positions. */
  method ReadPositions(r: Reader) returns (at: seq<Pos>)
    requires r.Valid()
    modifies r
    ensures r.Valid() && r.n == old(r.n) && r.Rest() == old(r.Rest()) && r.iLastPos == -1 && at == old(r.cur)
  {
    hide Reader.Valid, Tail;
    at := [];
    var pos, col := r.ReadPosition();
    while pos != -1
      invariant r.Valid() && r.n == old(r.n) && (pos == -1 ==> r.iLastPos == -1)
      invariant if pos == -1 then at == old(r.cur) else at + [Pos(col, pos)] + r.cur == old(r.cur)
      decreases |r.cur|, pos != -1
    {
      at := at + [Pos(col, pos)];
      ghost var c := r.cur;
      pos, col := r.ReadPosition();
      assert c != [] ==> c == [c[0]] + r.cur;
    }
  }

  lemma Onward(done: seq<Doc>, rest: seq<Doc>)
    requires rest != []
    ensures done + rest == done + [rest[0]] + rest[1..]
  {
  }

  lemma WholeList(docs: seq<Doc>)
    ensures Tail(docs, 0) == docs
  {
  }

  /** Reading a list to its end gives back the documents written, with all their positions. */
  method ReadAll(list: DocList) returns (docs: seq<Doc>)
    requires list.Valid()
    ensures docs == list.docs
  {
    hide Reader.Valid, DocList.Valid, Tail;
    var r := new Reader(list);
    docs := [];
    assert r.Rest() == list.docs by {
      WholeList(list.docs);
    }
    hide Reader.Rest;
    var end := r.AtEnd();
    while !end
      invariant r.list == list && r.Valid() && fresh(r) && r.iLastPos == -1 && docs + r.Rest() == list.docs
      invariant end <==> r.Rest() == []
      decreases |r.Rest()|
    {
      ghost var rest := r.Rest();
      var id := r.ReadDocid();
      var at := ReadPositions(r);
      Onward(docs, rest);
      docs := docs + [Doc(id, at)];
      end := r.AtEnd();
    }
  }

  lemma EndIs(cur: seq<Pos>, c: int, p: int, docs: seq<Doc>, positions: bool)
    ensures |(if p == -1 then [] else PosListBytes(cur, c, p)) + ListBytes(docs, positions)| == 0 <==>
            p == -1 && docs == []
  {
    assert |PosListBytes(cur, c, p)| > 0 by {
      PosListSnoc(cur, c, p, Pos(0, 0));
    }
  }

  lemma Readable(v: int, rest: seq<byte>)
    ensures var s := Bytes(v) + rest; |s| >= MaxLength || exists i :: 0 <= i < |s| && s[i] < 128
  {
    EncodeShape(ToUnsigned(v));
    var s := Bytes(v) + rest;
    assert s[|Bytes(v)| - 1] < 128;
  }

  lemma NextDoc(docs: seq<Doc>, positions: bool)
    requires docs != []
    ensures ListBytes(docs, positions) ==
            Bytes(docs[0].id) +
              ((if positions then PosListBytes(docs[0].at, 0, 0) else []) + ListBytes(docs[1..], positions))
  {
  }

  /** The first number of a position list, and the bytes after it. */
  lemma Mark(cur: seq<Pos>, c: int, p: int, later: seq<byte>) returns (v: int, rest: seq<byte>)
    requires LegalFrom(cur, c, p) && p >= 0
    ensures PosListBytes(cur, c, p) + later == Bytes(v) + rest && IsInt64(v)
    ensures cur == [] ==> v == PosEnd && rest == later
    ensures cur != [] ==>
              var q := cur[0];
              var after := PosListBytes(cur[1..], q.col, q.pos) + later;
              && Follows(c, p, q) && LegalFrom(cur[1..], q.col, q.pos)
              && if q.col == c then v == q.pos - p + PosBase && rest == after
                 else v == PosColumn && rest == Bytes(q.col) + (Bytes(q.pos + PosBase) + after)
  {
    hide PosListBytes, Bytes;
    NextPos(cur, c, p, later);
    if cur == [] {
      v, rest := PosEnd, later;
    } else {
      var q := cur[0];
      var after := PosListBytes(cur[1..], q.col, q.pos) + later;
      v := if q.col == c then q.pos - p + PosBase else PosColumn;
      rest := if q.col == c then after else Bytes(q.col) + (Bytes(q.pos + PosBase) + after);
    }
  }

  /** How the bytes of a position list begin. */
  lemma NextPos(cur: seq<Pos>, c: int, p: int, rest: seq<byte>)
    requires LegalFrom(cur, c, p) && p >= 0
    ensures cur == [] ==> PosListBytes(cur, c, p) + rest == Bytes(PosEnd) + rest
    ensures cur != [] ==>
              var q := cur[0];
              var rest' := PosListBytes(cur[1..], q.col, q.pos) + rest;
              && Follows(c, p, q) && LegalFrom(cur[1..], q.col, q.pos)
              && PosListBytes(cur, c, p) + rest ==
                 if q.col != c then Bytes(PosColumn) + (Bytes(q.col) + (Bytes(q.pos + PosBase) + rest'))
                 else Bytes(q.pos - p + PosBase) + rest'
  {
    hide Bytes;
    if cur != [] {
      var q := cur[0];
      var t := PosListBytes(cur[1..], q.col, q.pos);
      Assoc(PosBytes(c, p, q), t, rest);
      if q.col != c {
        Assoc(Bytes(PosColumn) + Bytes(q.col), Bytes(q.pos + PosBase), t + rest);
        Assoc(Bytes(PosColumn), Bytes(q.col), Bytes(q.pos + PosBase) + (t + rest));
      }
    }
  }
}
