/**
 The freelist (misc/sqlite/btree.c:3938-4260): a chain of trunk pages, each holding the number of
 the next trunk, a leaf count and that many leaf page numbers. Pages are seen as 4-byte words, with
 whatever words their earlier use left in them.
 */
module Freelist {
  import opened BtState
  import opened PtrMap
  import opened Arithmetic

  type Image = map<nat, seq<nat>>

  predicate IsTrunk(t: seq<nat>, w: nat) {
    |t| == w && w >= 8 && t[1] <= w - 8
  }

  /** The leaf slots of a trunk in use. */
  function Leaves(t: seq<nat>): seq<nat> {
    if |t| >= 8 && t[1] <= |t| - 8 then t[2..2 + t[1]] else []
  }

  /** `list` is what the pages of the trunk chain that starts at `first` hold. */
  predicate Linked(words: Image, first: nat, list: seq<Trunk>, w: nat) {
    && first == Head(list)
    && (forall i :: 0 <= i < |list| ==> Stored(words, list[i], w))
    && (forall i :: 0 <= i < |list| ==> list[i].page[0] == Next(list, i))
  }

  predicate Stored(words: Image, t: Trunk, w: nat) {
    t.pgno != 0 && IsTrunk(t.page, w) && t.pgno in words && words[t.pgno] == t.page
  }

  function Next(list: seq<Trunk>, i: nat): nat {
    if i + 1 < |list| then list[i + 1].pgno else 0
  }

  function Head(list: seq<Trunk>): nat {
    if list == [] then 0 else list[0].pgno
  }

  /** A trunk and its leaves. */
  function TrunkMembers(t: Trunk): multiset<nat> {
    multiset{t.pgno} + multiset(Leaves(t.page))
  }

  /** Every page on the list, trunk or leaf, as often as it appears. */
  function Members(list: seq<Trunk>): multiset<nat> {
    if list == [] then multiset{} else TrunkMembers(list[0]) + Members(list[1..])
  }

  ghost predicate Once(m: multiset<nat>) {
    forall p :: m[p] <= 1
  }

  /** The freelist is well formed, and the count on page 1 is the number of pages on it. */
  ghost predicate Sound(words: Image, first: nat, count: nat, list: seq<Trunk>, w: nat, nPage: nat) {
    && w >= 120
    && (forall p :: 1 <= p <= nPage ==> p in words && |words[p]| == w)
    && Linked(words, first, list, w)
    && Once(Members(list))
    && (forall p :: p in Members(list) ==> 1 < p <= nPage)
    && count == |Members(list)|
  }

  ghost predicate Valid(bt: BtShared)
    reads bt
  {
    bt.nPage < U32 / 2 - 3 && Sound(bt.words, bt.first, bt.count, bt.trunks, bt.usable / 4, bt.nPage)
  }

  // ---------- Members of a changed list ----------

  lemma {:induction false} MembersConcat(a: seq<Trunk>, b: seq<Trunk>)
    ensures Members(a + b) == Members(a) + Members(b)
    decreases |a|
  {
    if a == [] {
      assert a + b == b;
    } else {
      assert (a + b)[1..] == a[1..] + b;
      MembersConcat(a[1..], b);
    }
  }

  lemma MembersOne(t: Trunk)
    ensures Members([t]) == TrunkMembers(t)
  {
    assert [t][1..] == [];
  }

  lemma MembersAround(a: seq<Trunk>, t: Trunk, b: seq<Trunk>)
    ensures Members(a + [t] + b) == Members(a) + TrunkMembers(t) + Members(b)
  {
    MembersConcat(a + [t], b);
    MembersConcat(a, [t]);
    MembersOne(t);
  }

  lemma MembersOf(list: seq<Trunk>, i: nat)
    requires i < |list|
    ensures Members(list) == Members(list[..i]) + TrunkMembers(list[i]) + Members(list[i + 1..])
  {
    hide Members, TrunkMembers;
    assert list == list[..i] + [list[i]] + list[i + 1..];
    MembersAround(list[..i], list[i], list[i + 1..]);
  }

  /** One place of the chain changes its trunk, or what the trunk holds. */
  lemma ReplaceOne(list: seq<Trunk>, i: nat, t: Trunk)
    requires i < |list|
    ensures Members(list[i := t]) + TrunkMembers(list[i]) == Members(list) + TrunkMembers(t)
  {
    hide Members, TrunkMembers;
    MembersOf(list, i);
    MembersOf(list[i := t], i);
    assert list[i := t][..i] == list[..i] && list[i := t][i + 1..] == list[i + 1..];
  }

  lemma RemoveOne(list: seq<Trunk>, i: nat)
    requires i < |list|
    ensures Members(list[..i] + list[i + 1..]) + TrunkMembers(list[i]) == Members(list)
  {
    hide Members, TrunkMembers;
    MembersOf(list, i);
    MembersConcat(list[..i], list[i + 1..]);
  }

  lemma TrunkIn(list: seq<Trunk>, i: nat)
    requires i < |list|
    ensures TrunkMembers(list[i]) <= Members(list) && list[i].pgno in Members(list)
  {
    assert list[i].pgno in TrunkMembers(list[i]);
    MembersOf(list, i);
  }

  lemma TwoIn(list: seq<Trunk>, i: nat, j: nat)
    requires i < |list| && j < |list| && i != j
    ensures TrunkMembers(list[i]) + TrunkMembers(list[j]) <= Members(list)
  {
    RemoveOne(list, i);
    var rest := list[..i] + list[i + 1..];
    var j' := if j < i then j else j - 1;
    assert rest[j'] == list[j];
    TrunkIn(rest, j');
  }

  /** Pages that appear once: a trunk is no other trunk and nobody's leaf. */
  lemma Apart(list: seq<Trunk>, i: nat, j: nat)
    requires i < |list| && j < |list| && Once(Members(list))
    ensures i != j ==> list[i].pgno != list[j].pgno
    ensures list[i].pgno !in Leaves(list[j].page)
  {
    var p := list[i].pgno;
    assert Members(list)[p] <= 1;
    assert p in TrunkMembers(list[i]);
    if i != j {
      TwoIn(list, i, j);
    } else {
      TrunkIn(list, i);
    }
  }

  predicate Holds(t: Trunk, p: nat) {
    t.pgno == p || p in Leaves(t.page)
  }

  /** Where a member is. */
  lemma {:induction false} FindMember(list: seq<Trunk>, p: nat) returns (i: nat)
    requires p in Members(list)
    ensures i < |list| && Holds(list[i], p)
    decreases |list|
  {
    if p in TrunkMembers(list[0]) {
      i := 0;
    } else {
      var j := FindMember(list[1..], p);
      i := j + 1;
    }
  }

  // ---------- Freeing a page ----------

  /** One more leaf in the first free slot. */
  function WithLeaf(t: seq<nat>, p: nat): (t': seq<nat>)
    requires |t| >= 8 && t[1] < |t| - 8
    ensures |t'| == |t| && t'[0] == t[0] && t'[1] == t[1] + 1 && Leaves(t') == Leaves(t) + [p]
  {
    var k: nat := t[1] + 1;
    var t' := t[1 := k][2 + t[1] := p];
    assert t'[2..2 + k] == t[2..2 + t[1]] + [p];
    t'
  }

  /** A trunk without leaves; the words after the first two stay as they were. */
  function Leafless(t: seq<nat>, next: nat): (t': seq<nat>)
    requires |t| >= 8
    ensures |t'| == |t| && t'[0] == next && t'[1] == 0 && Leaves(t') == [] && t'[2..] == t[2..]
  {
    t[0 := next][1 := 0]
  }

  /** The page becomes the last leaf of the first trunk, or the first trunk if there is none or it is full. */
  ghost predicate Added(list: seq<Trunk>, list': seq<Trunk>, p: nat, w: nat) {
    && list' != []
    && if list == [] || |Leaves(list[0].page)| >= w - 8
       then list'[0].pgno == p && Leaves(list'[0].page) == [] && list'[1..] == list
       else
         && list'[0].pgno == list[0].pgno && list'[1..] == list[1..]
         && Leaves(list'[0].page) == Leaves(list[0].page) + [p]
  }

  lemma AddedTrunk(list: seq<Trunk>, t: Trunk, w: nat)
    requires list != [] ==> |list[0].page| >= 8 && w - 8 <= list[0].page[1] <= |list[0].page| - 8
    requires Leaves(t.page) == []
    ensures Added(list, [t] + list, t.pgno, w) && (list == [] ==> Added(list, [t], t.pgno, w))
  {
  }

  lemma AddedLeaf(list: seq<Trunk>, t: Trunk, p: nat, w: nat)
    requires list != [] && |list[0].page| == w >= 8 && list[0].page[1] < w - 8
    requires t.pgno == list[0].pgno && Leaves(t.page) == Leaves(list[0].page) + [p]
    ensures Added(list, list[0 := t], p, w)
  {
  }

  /** Adds exactly page p. */
  method FreePage(bt: BtShared, p: nat)
    requires Valid(bt) && 1 < p <= bt.nPage && p !in Members(bt.trunks)
    modifies bt`words, bt`first, bt`count, bt`ptr, bt`trunks
    ensures Valid(bt) && Members(bt.trunks) == old(Members(bt.trunks)) + multiset{p}
    ensures bt.ptr == if bt.autoVacuum then old(bt.ptr)[p := PtrEntry(PtrType.FreePage, 0)] else old(bt.ptr)
    ensures Added(old(bt.trunks), bt.trunks, p, bt.usable / 4)
  {
    hide Members, TrunkMembers, Linked, Once, Leafless, WithLeaf, Leaves, Added;
    var n := bt.count;
    bt.count := n + 1;
    if bt.autoVacuum {
      bt.ptr := bt.ptr[p := PtrEntry(PtrType.FreePage, 0)];
    }
    if n == 0 {
      var page := Leafless(bt.words[p], 0);
      NoneFree(bt.trunks);
      AddedTrunk(bt.trunks, Trunk(p, page), bt.usable / 4);
      FirstFree(bt.words, bt.first, bt.trunks, bt.usable / 4, bt.nPage, p, page);
      bt.words := bt.words[p := page];
      bt.first := p;
      bt.trunks := [Trunk(p, page)];
    } else {
      FirstTrunk(bt.words, bt.first, n, bt.trunks, bt.usable / 4, bt.nPage);
      var t := bt.first;
      var k := bt.words[t][1];
      if k >= bt.usable / 4 - 8 {
        var page := Leafless(bt.words[p], t);
        AddedTrunk(bt.trunks, Trunk(p, page), bt.usable / 4);
        PushTrunk(bt.words, n, bt.trunks, bt.usable / 4, bt.nPage, p, page);
        bt.words := bt.words[p := page];
        bt.first := p;
        bt.trunks := [Trunk(p, page)] + bt.trunks;
      } else {
        var page := WithLeaf(bt.words[t], p);
        AddedLeaf(bt.trunks, Trunk(t, page), p, bt.usable / 4);
        AddLeaf(bt.words, n, bt.trunks, bt.usable / 4, bt.nPage, p, Trunk(t, page));
        bt.words := bt.words[t := page];
        bt.trunks := bt.trunks[0 := Trunk(t, page)];
      }
    }
  }

  lemma FirstTrunk(words: Image, first: nat, count: nat, list: seq<Trunk>, w: nat, nPage: nat)
    requires Sound(words, first, count, list, w, nPage) && count > 0
    ensures list != [] && first == Head(list) == list[0].pgno && first in words && words[first] == list[0].page &&
            IsTrunk(list[0].page, w)
  {
    NoneFree(list);
  }

  lemma NoneFree(list: seq<Trunk>)
    ensures |Members(list)| == 0 <==> list == []
  {
    if list != [] {
      var p := list[0].pgno;
      assert p in TrunkMembers(list[0]);
      assert TrunkMembers(list[0]) <= Members(list);
      assert p in Members(list);
    }
  }

  lemma Cancel(a: multiset<nat>, b: multiset<nat>, x: multiset<nat>)
    requires a + x == b + x
    ensures a == b
  {
    assert forall p :: (a + x)[p] == a[p] + x[p] && (b + x)[p] == b[p] + x[p];
  }

  lemma OneMore(m: multiset<nat>, p: nat)
    requires Once(m) && p !in m
    ensures Once(m + multiset{p}) && |m + multiset{p}| == |m| + 1
  {
  }

  lemma FirstFree(words: Image, first: nat, list: seq<Trunk>, w: nat, nPage: nat, p: nat, page: seq<nat>)
    requires Sound(words, first, 0, list, w, nPage) && 1 < p <= nPage
    requires |page| == w && page[0] == page[1] == 0
    ensures Members(list) == multiset{}
    ensures Sound(words[p := page], p, 1, [Trunk(p, page)], w, nPage) && Members([Trunk(p, page)]) == multiset{p}
  {
    NoneFree(list);
    MembersOne(Trunk(p, page));
  }

  lemma PushTrunk(words: Image, count: nat, list: seq<Trunk>, w: nat, nPage: nat, p: nat, page: seq<nat>)
    requires list != [] && Sound(words, Head(list), count, list, w, nPage) && 1 < p <= nPage && p !in Members(list)
    requires |page| == w && page[0] == Head(list) && page[1] == 0
    ensures var list' := [Trunk(p, page)] + list;
            && Members(list') == Members(list) + multiset{p}
            && Sound(words[p := page], p, count + 1, list', w, nPage)
  {
    hide Members, TrunkMembers;
    forall i | 0 <= i < |list|
      ensures list[i].pgno != p
    {
      TrunkIn(list, i);
    }
    MembersConcat([Trunk(p, page)], list);
    LeaflessTrunk(p, page);
    OneMore(Members(list), p);
    var words', list' := words[p := page], [Trunk(p, page)] + list;
    forall i | 0 <= i < |list'|
      ensures Stored(words', list'[i], w) && list'[i].page[0] == Next(list', i)
    {
      assert i > 0 ==> list'[i] == list[i - 1];
      assert i < |list| ==> list'[i + 1] == list[i];
      assert i > 0 ==> Next(list', i) == Next(list, i - 1);
    }
    assert Linked(words', p, list', w);
    assert forall q :: q in Members(list') ==> 1 < q <= nPage;
  }

  lemma LeaflessTrunk(p: nat, page: seq<nat>)
    requires |page| >= 8 && page[1] == 0
    ensures Members([Trunk(p, page)]) == TrunkMembers(Trunk(p, page)) == multiset{p}
  {
    MembersOne(Trunk(p, page));
    assert Leaves(page) == [];
  }

  lemma AddLeaf(words: Image, count: nat, list: seq<Trunk>, w: nat, nPage: nat, p: nat, t: Trunk)
    requires list != [] && Sound(words, Head(list), count, list, w, nPage) && 1 < p <= nPage && p !in Members(list)
    requires list[0].page[1] < w - 8 && t == Trunk(Head(list), WithLeaf(list[0].page, p))
    ensures Members(list[0 := t]) == Members(list) + multiset{p}
    ensures Sound(words[t.pgno := t.page], Head(list), count + 1, list[0 := t], w, nPage)
  {
    hide Members, WithLeaf, Linked;
    TrunkAt(words, Head(list), list, w, 0);
    SamePlace(words, Head(list), list, w, 0, t);
    ReplaceOne(list, 0, t);
    assert TrunkMembers(t) == TrunkMembers(list[0]) + multiset{p};
    Cancel(Members(list[0 := t]), Members(list) + multiset{p}, TrunkMembers(list[0]));
    OneMore(Members(list), p);
    var words', list' := words[t.pgno := t.page], list[0 := t];
    assert Linked(words', Head(list'), list', w);
    assert forall q :: q in Members(list') ==> 1 < q <= nPage;
  }

  // ---------- Taking a page ----------

  /** Leaf j leaves the trunk; the last leaf takes its slot. */
  function WithoutLeaf(t: seq<nat>, j: nat): (t': seq<nat>)
    requires |t| >= 8 && j < t[1] <= |t| - 8
    ensures |t'| == |t| && t'[0] == t[0] && t'[1] == t[1] - 1
    ensures multiset(Leaves(t')) + multiset{Leaves(t)[j]} == multiset(Leaves(t))
  {
    var k: nat := t[1] - 1;
    var t' := t[2 + j := t[2 + k]][1 := k];
    LastIntoSlot(Leaves(t), j);
    SlotFilled(t, j, k);
    t'
  }

  lemma SlotFilled(t: seq<nat>, j: nat, k: nat)
    requires j <= k && 3 + k <= |t|
    ensures t[2 + j := t[2 + k]][1 := k][2..2 + k] == t[2..3 + k][j := t[2 + k]][..k]
  {
  }

  lemma LastIntoSlot(s: seq<nat>, j: nat)
    requires j < |s|
    ensures var k := |s| - 1; multiset(s[j := s[k]][..k]) + multiset{s[j]} == multiset(s)
  {
    var k := |s| - 1;
    var s' := s[j := s[k]];
    assert s == s[..k] + [s[k]];
    assert s' == s'[..k] + [s'[k]];
    if j < k {
      assert multiset(s') == multiset(s) - multiset{s[j]} + multiset{s[k]};
    }
  }

  /** The first leaf, with earlier content `leaf`, becomes the trunk for the others. */
  function Promoted(t: seq<nat>, leaf: seq<nat>): (t': seq<nat>)
    requires |t| == |leaf| >= 8 && 0 < t[1] <= |t| - 8
    ensures |t'| == |t| && t'[0] == t[0] && t'[1] == t[1] - 1 && Leaves(t') == Leaves(t)[1..]
  {
    var k: nat := t[1] - 1;
    var t' := [t[0], k] + t[3..3 + k] + leaf[2 + k..];
    assert t'[2..2 + k] == t[3..3 + k];
    t'
  }

  lemma OneLess(m: multiset<nat>, m': multiset<nat>, p: nat)
    requires Once(m) && m' + multiset{p} == m
    ensures Once(m') && |m'| + 1 == |m| && m' <= m
  {
    forall q
      ensures m'[q] <= m[q]
    {
      assert (m' + multiset{p})[q] == m[q];
    }
  }

  /** A list that lost page p and is linked is again sound. */
  lemma StillSound(words: Image, first: nat, count: nat, list: seq<Trunk>, words': Image, first': nat,
                   list': seq<Trunk>, w: nat, nPage: nat, p: nat)
    requires Sound(words, first, count, list, w, nPage)
    requires Linked(words', first', list', w) && Members(list') + multiset{p} == Members(list)
    requires forall q :: 1 <= q <= nPage ==> q in words' && |words'[q]| == w
    ensures count > 0 && Sound(words', first', count - 1, list', w, nPage)
  {
    hide Members, Linked;
    OneLess(Members(list), Members(list'), p);
    assert forall q :: q in Members(list') ==> q in Members(list);
  }

  /** New words for the trunk at place i, with the same link. */
  lemma SamePlace(words: Image, first: nat, list: seq<Trunk>, w: nat, i: nat, t: Trunk)
    requires Linked(words, first, list, w) && Once(Members(list)) && i < |list|
    requires t.pgno == list[i].pgno && IsTrunk(t.page, w) && t.page[0] == list[i].page[0]
    ensures Linked(words[t.pgno := t.page], first, list[i := t], w)
  {
    hide Members, Leaves, Once;
    var words', list' := words[t.pgno := t.page], list[i := t];
    forall m | 0 <= m < |list'|
      ensures Stored(words', list'[m], w) && list'[m].page[0] == Next(list', m)
    {
      Apart(list, m, i);
      assert Stored(words, list[m], w);
      assert list[m].page[0] == Next(list, m) == Next(list', m);
    }
  }

  lemma LeafTaken(words: Image, first: nat, count: nat, list: seq<Trunk>, w: nat, nPage: nat, i: nat, j: nat, t: Trunk)
    requires Sound(words, first, count, list, w, nPage) && i < |list| && j < list[i].page[1]
    requires t == Trunk(list[i].pgno, WithoutLeaf(list[i].page, j))
    ensures Members(list[i := t]) + multiset{Leaves(list[i].page)[j]} == Members(list)
    ensures count > 0 && Sound(words[t.pgno := t.page], first, count - 1, list[i := t], w, nPage)
  {
    hide Members, WithoutLeaf, Linked;
    TrunkAt(words, first, list, w, i);
    var words', list' := words[t.pgno := t.page], list[i := t];
    var p := Leaves(list[i].page)[j];
    ReplaceOne(list, i, t);
    assert TrunkMembers(t) + multiset{p} == TrunkMembers(list[i]);
    Cancel(Members(list') + multiset{p}, Members(list), TrunkMembers(t));
    SamePlace(words, first, list, w, i, t);
    StillSound(words, first, count, list, words', first, list', w, nPage, p);
  }

  /** The trunk before place i, or page 1, is made to point at page `next`. */
  function Relinked(list: seq<Trunk>, i: nat, next: nat): (list': seq<Trunk>)
    requires i < |list| && (i > 0 ==> |list[i - 1].page| > 0)
    ensures |list'| == |list|
  {
    if i == 0 then list else list[i - 1 := Trunk(list[i - 1].pgno, list[i - 1].page[0 := next])]
  }

  function RelinkedWords(words: Image, list: seq<Trunk>, i: nat, next: nat): Image
    requires i < |list| && (i > 0 ==> |list[i - 1].page| > 0)
  {
    if i == 0 then words else words[list[i - 1].pgno := list[i - 1].page[0 := next]]
  }

  lemma RelinkedMembers(list: seq<Trunk>, i: nat, next: nat)
    requires i < |list| && (i > 0 ==> |list[i - 1].page| >= 8)
    ensures Members(Relinked(list, i, next)) == Members(list)
  {
    hide Members;
    if i > 0 {
      var t := Trunk(list[i - 1].pgno, list[i - 1].page[0 := next]);
      ReplaceOne(list, i - 1, t);
      assert Leaves(t.page) == Leaves(list[i - 1].page);
      Cancel(Members(list[i - 1 := t]), Members(list), TrunkMembers(t));
    }
  }

  /** A trunk without leaves is taken out of the chain. */
  lemma TrunkTaken(words: Image, first: nat, count: nat, list: seq<Trunk>, w: nat, nPage: nat, i: nat, next: nat,
                   list': seq<Trunk>)
    requires Sound(words, first, count, list, w, nPage) && i < |list| && list[i].page[1] == 0 && next == list[i].page[0]
    requires list' == Relinked(list, i, next)[..i] + list[i + 1..]
    ensures Members(list') + multiset{list[i].pgno} == Members(list)
    ensures count > 0 &&
            Sound(RelinkedWords(words, list, i, next), if i == 0 then next else first, count - 1, list', w, nPage)
  {
    hide Members;
    var words', first', list1 := RelinkedWords(words, list, i, next), if i == 0 then next else first,
      Relinked(list, i, next);
    RelinkedMembers(list, i, next);
    RemoveOne(list1, i);
    assert list1[i + 1..] == list[i + 1..];
    assert TrunkMembers(list[i]) == multiset{list[i].pgno};
    UnlinkedChain(words, first, list, w, i, next, list');
    StillSound(words, first, count, list, words', first', list', w, nPage, list[i].pgno);
  }

  lemma UnlinkedChain(words: Image, first: nat, list: seq<Trunk>, w: nat, i: nat, next: nat, list': seq<Trunk>)
    requires Linked(words, first, list, w) && i < |list| && next == list[i].page[0] && Once(Members(list))
    requires list' == Relinked(list, i, next)[..i] + list[i + 1..]
    ensures Linked(RelinkedWords(words, list, i, next), if i == 0 then next else first, list', w)
  {
    hide Members, Leaves, Once, Next, Relinked, RelinkedWords;
    HeadIsNext(list, i, next, list');
    UnlinkedNext(list, i, next, list');
    forall m | 0 <= m < |list'|
      ensures Stored(RelinkedWords(words, list, i, next), list'[m], w)
    {
      UnlinkedStored(words, first, list, w, i, next, list', m);
    }
  }

  lemma UnlinkedStored(words: Image, first: nat, list: seq<Trunk>, w: nat, i: nat, next: nat, list': seq<Trunk>, m: nat)
    requires Linked(words, first, list, w) && i < |list| && Once(Members(list))
    requires list' == Relinked(list, i, next)[..i] + list[i + 1..] && m < |list'|
    ensures Stored(RelinkedWords(words, list, i, next), list'[m], w)
  {
    hide Members, Leaves, Once, Linked;
    var m' := if m < i then m else m + 1;
    TrunkAt(words, first, list, w, m');
    assert m + 1 != i ==> list'[m] == list[m'];
    if i > 0 {
      TrunkAt(words, first, list, w, i - 1);
      Apart(list, m', i - 1);
    }
  }

  lemma HeadIsNext(list: seq<Trunk>, i: nat, next: nat, list': seq<Trunk>)
    requires i < |list| && (i > 0 ==> |list[i - 1].page| > 0) && list' == Relinked(list, i, next)[..i] + list[i + 1..]
    ensures Head(list') == if i == 0 then Next(list, 0) else Head(list)
  {
  }

  lemma UnlinkedNext(list: seq<Trunk>, i: nat, next: nat, list': seq<Trunk>)
    requires forall m :: 0 <= m < |list| ==> |list[m].page| > 0 && list[m].page[0] == Next(list, m)
    requires i < |list| && next == list[i].page[0]
    requires list' == Relinked(list, i, next)[..i] + list[i + 1..]
    ensures forall m :: 0 <= m < |list'| ==> |list'[m].page| > 0 && list'[m].page[0] == Next(list', m)
  {
    forall m | 0 <= m < |list'|
      ensures |list'[m].page| > 0 && list'[m].page[0] == Next(list', m)
    {
      if m + 1 < i {
        assert list'[m] == list[m] && list'[m + 1].pgno == list[m + 1].pgno;
      } else if m + 1 == i {
        assert list'[m].page[0] == Next(list, i);
        assert i < |list'| ==> list'[i] == list[i + 1];
      } else {
        assert list'[m] == list[m + 1];
        assert m + 1 < |list'| ==> list'[m + 1] == list[m + 2];
      }
    }
  }

  /** A trunk with leaves is taken: its first leaf, page `l`, replaces it. */
  lemma TrunkReplaced(words: Image, first: nat, count: nat, list: seq<Trunk>, w: nat, nPage: nat, i: nat, l: Trunk,
                      list': seq<Trunk>)
    requires Sound(words, first, count, list, w, nPage) && i < |list| && list[i].page[1] > 0
    requires l.pgno == Leaves(list[i].page)[0] && l.pgno in words && |words[l.pgno]| == w &&
             l.page == Promoted(list[i].page, words[l.pgno])
    requires list' == Relinked(list, i, l.pgno)[i := l]
    ensures Members(list') + multiset{list[i].pgno} == Members(list)
    ensures count > 0 &&
            Sound(RelinkedWords(words[l.pgno := l.page], list, i, l.pgno), if i == 0 then l.pgno else first, count - 1,
                  list', w, nPage)
  {
    hide Members, Promoted, Relinked, Linked;
    TrunkAt(words, first, list, w, i);
    if i > 0 {
      TrunkAt(words, first, list, w, i - 1);
    }
    var words', first' := RelinkedWords(words[l.pgno := l.page], list, i, l.pgno), if i == 0 then l.pgno else first;
    ReplacedMembers(list, i, l, list');
    TrunkIn(list, i);
    assert l.pgno in TrunkMembers(list[i]);
    ReplacedChain(words, first, list, w, i, l, list');
    StillSound(words, first, count, list, words', first', list', w, nPage, list[i].pgno);
  }

  lemma ReplacedMembers(list: seq<Trunk>, i: nat, l: Trunk, list': seq<Trunk>)
    requires i < |list| && (i > 0 ==> |list[i - 1].page| >= 8) && |Leaves(list[i].page)| > 0
    requires l.pgno == Leaves(list[i].page)[0] && Leaves(l.page) == Leaves(list[i].page)[1..]
    requires list' == Relinked(list, i, l.pgno)[i := l]
    ensures Members(list') + multiset{list[i].pgno} == Members(list)
  {
    hide Members, Leaves;
    RelinkedMembers(list, i, l.pgno);
    ReplaceOne(Relinked(list, i, l.pgno), i, l);
    assert Leaves(list[i].page) == [l.pgno] + Leaves(l.page);
    assert TrunkMembers(l) + multiset{list[i].pgno} == TrunkMembers(list[i]);
    Cancel(Members(list') + multiset{list[i].pgno}, Members(list), TrunkMembers(l));
  }

  lemma ReplacedChain(words: Image, first: nat, list: seq<Trunk>, w: nat, i: nat, l: Trunk, list': seq<Trunk>)
    requires Linked(words, first, list, w) && Once(Members(list)) && i < |list| && list[i].page[1] > 0
    requires l.pgno in Leaves(list[i].page) && l.pgno != 0 && IsTrunk(l.page, w) && l.page[0] == list[i].page[0]
    requires list' == Relinked(list, i, l.pgno)[i := l]
    ensures Linked(RelinkedWords(words[l.pgno := l.page], list, i, l.pgno), if i == 0 then l.pgno else first, list', w)
  {
    hide Members, Leaves, Once, Next, Relinked, RelinkedWords;
    ReplacedNext(list, i, l, list');
    forall m | 0 <= m < |list'|
      ensures Stored(RelinkedWords(words[l.pgno := l.page], list, i, l.pgno), list'[m], w)
    {
      ReplacedStored(words, first, list, w, i, l, list', m);
    }
  }

  lemma ReplacedNext(list: seq<Trunk>, i: nat, l: Trunk, list': seq<Trunk>)
    requires forall m :: 0 <= m < |list| ==> |list[m].page| > 0 && list[m].page[0] == Next(list, m)
    requires i < |list| && |l.page| > 0 && l.page[0] == list[i].page[0]
    requires list' == Relinked(list, i, l.pgno)[i := l]
    ensures Head(list') == if i == 0 then l.pgno else Head(list)
    ensures forall m :: 0 <= m < |list'| ==> |list'[m].page| > 0 && list'[m].page[0] == Next(list', m)
  {
    forall m | 0 <= m < |list'|
      ensures |list'[m].page| > 0 && list'[m].page[0] == Next(list', m)
    {
      assert list[m].page[0] == Next(list, m);
      assert m + 1 < |list'| && m + 1 != i ==> list'[m + 1].pgno == list[m + 1].pgno;
    }
  }

  lemma ReplacedStored(words: Image, first: nat, list: seq<Trunk>, w: nat, i: nat, l: Trunk, list': seq<Trunk>, m: nat)
    requires Linked(words, first, list, w) && Once(Members(list)) && i < |list|
    requires l.pgno in Leaves(list[i].page) && l.pgno != 0 && IsTrunk(l.page, w)
    requires list' == Relinked(list, i, l.pgno)[i := l] && m < |list'|
    ensures Stored(RelinkedWords(words[l.pgno := l.page], list, i, l.pgno), list'[m], w)
  {
    hide Members, Leaves, Once, Next;
    assert Stored(words, list[m], w);
    Apart(list, m, i);
    if i > 0 {
      assert Stored(words, list[i - 1], w);
      Apart(list, m, i - 1);
      Apart(list, i - 1, i);
    }
  }

  function Distance(a: nat, b: nat): nat {
    if a < b then b - a else a - b
  }

  /** The leaf slot whose page is nearest to `nearby`; slot 0 if there is no preference or no leaf. */
  method Closest(t: seq<nat>, nearby: nat) returns (c: nat)
    requires |t| >= 8 && t[1] <= |t| - 8
    ensures c == 0 || c < t[1]
    ensures nearby > 0 ==> forall m :: 2 <= m < 2 + t[1] ==> Distance(t[2 + c], nearby) <= Distance(t[m], nearby)
    ensures nearby > 0 ==> forall m :: 2 <= m < 2 + c ==> Distance(t[2 + c], nearby) < Distance(t[m], nearby)
    ensures nearby == 0 ==> c == 0
  {
    c := 0;
    if nearby > 0 {
      var dist := Distance(t[2], nearby);
      var i := 1;
      while i < t[1]
        invariant 1 <= i && (c == 0 || c < i <= t[1])
        invariant c + 2 < |t| && dist == Distance(t[2 + c], nearby)
        invariant forall m :: 2 <= m < 2 + i && m < 2 + t[1] ==> dist <= Distance(t[m], nearby)
        invariant forall m :: 2 <= m < 2 + c ==> dist < Distance(t[m], nearby)
      {
        var d2 := Distance(t[2 + i], nearby);
        if d2 < dist {
          c, dist := i, d2;
        }
        i := i + 1;
      }
    }
  }

  /** Of two page numbers the first is at least as near. */
  predicate AsNear(a: nat, b: nat, to: nat) {
    (to <= a ==> a - to <= b - to || a - to <= to - b) && (a <= to ==> to - a <= b - to || to - a <= to - b)
  }

  /** What a request that is not searched for gets: the first trunk if it has no leaves, else of its leaves
      the first of those nearest to the page named, or just the first. */
  ghost predicate Nearest(list: seq<Trunk>, nearby: nat, p: nat) {
    && list != []
    && var l := Leaves(list[0].page);
       if l == [] then p == list[0].pgno
       else
         exists c :: 0 <= c < |l| && p == l[c] && if nearby == 0 then c == 0 else FirstNearest(l, nearby, c)
  }

  ghost predicate FirstNearest(l: seq<nat>, nearby: nat, c: nat)
    requires c < |l|
  {
    && (forall m :: 0 <= m < |l| ==> AsNear(l[c], l[m], nearby))
    && (forall m :: 0 <= m < c ==> !AsNear(l[m], l[c], nearby))
  }

  lemma ClosestIsNearest(list: seq<Trunk>, nearby: nat, c: nat)
    requires list != [] && |list[0].page| >= 8 && c < list[0].page[1] <= |list[0].page| - 8
    requires var t := list[0].page;
             && (nearby > 0 ==> forall m :: 2 <= m < 2 + t[1] ==> Distance(t[2 + c], nearby) <= Distance(t[m], nearby))
             && (nearby > 0 ==> forall m :: 2 <= m < 2 + c ==> Distance(t[2 + c], nearby) < Distance(t[m], nearby))
             && (nearby == 0 ==> c == 0)
    ensures Nearest(list, nearby, list[0].page[2 + c])
  {
    var t := list[0].page;
    var l := Leaves(t);
    assert l == t[2..2 + t[1]] && l[c] == t[2 + c];
    if nearby > 0 {
      forall m | 0 <= m < |l|
        ensures AsNear(l[c], l[m], nearby) && (m < c ==> !AsNear(l[m], l[c], nearby))
      {
        assert l[m] == t[2 + m];
      }
      assert FirstNearest(l, nearby, c);
    }
  }

  /** A leafless trunk that still has p in its first leaf slot. */
  predicate Stale(t: Trunk, p: nat) {
    |t.page| >= 8 && t.page[1] == 0 && t.page[2] == p && t.pgno != p
  }

  /** A search for p comes to its real place on the list before any stale copy of its number. */
  ghost predicate RealFirst(list: seq<Trunk>, p: nat) {
    forall i :: 0 <= i < |list| && Stale(list[i], p) ==> exists j :: 0 <= j < i && Holds(list[j], p)
  }

  /** The pointer map says the wanted page is free, so the whole list is searched for it. */
  predicate Searches(bt: BtShared, nearby: nat, exact: bool)
    reads bt
  {
    exact && nearby <= bt.nPage && nearby in bt.ptr && bt.ptr[nearby].eType == PtrType.FreePage
  }

  /** Trunk i was taken for one that holds a leaf it does not hold: its count went from 0 to 2^32-1. */
  ghost predicate Spoiled(list: seq<Trunk>, i: nat, p: nat, words: Image, words': Image) {
    && i < |list| && Stale(list[i], p) && list[i].pgno in words
    && words' == words[list[i].pgno := list[i].page[1 := U32 - 1]]
  }

  lemma TrunkAt(words: Image, first: nat, list: seq<Trunk>, w: nat, i: nat)
    requires Linked(words, first, list, w) && i < |list|
    ensures list[i].pgno in words && words[list[i].pgno] == list[i].page && IsTrunk(list[i].page, w)
    ensures list[i].pgno != 0 &&
            (if i + 1 < |list| then list[i].page[0] == list[i + 1].pgno != 0 else list[i].page[0] == 0)
  {
    assert Stored(words, list[i], w) && list[i].page[0] == Next(list, i);
    assert i + 1 < |list| ==> Stored(words, list[i + 1], w);
  }

  lemma FoundFirst(list: seq<Trunk>, i: nat, p: nat)
    requires i < |list| && Holds(list[i], p) && !Stale(list[i], p)
    requires forall j :: 0 <= j < i ==> !Stale(list[j], p)
    ensures RealFirst(list, p)
  {
  }

  lemma NotFoundFirst(list: seq<Trunk>, i: nat, p: nat)
    requires i < |list| && Stale(list[i], p)
    requires forall j :: 0 <= j < i ==> !Holds(list[j], p)
    ensures !RealFirst(list, p)
  {
  }

  lemma NoLeaves(t: seq<nat>)
    requires |t| >= 8 && t[1] == 0
    ensures Leaves(t) == []
  {
  }

  lemma LeafAt(t: seq<nat>, c: nat)
    requires |t| >= 8 && c < t[1] <= |t| - 8
    ensures c < |Leaves(t)| && Leaves(t)[c] == t[2 + c] && t[2 + c] in Leaves(t)
  {
  }

  /** The nearest leaf is not p, so no leaf is. */
  lemma NotHere(t: Trunk, p: nat, c: nat)
    requires |t.page| >= 8 && t.page[1] <= |t.page| - 8 && t.pgno != p && c + 2 < |t.page| && t.page[2 + c] != p
    requires forall m :: 2 <= m < 2 + t.page[1] ==> Distance(t.page[2 + c], p) <= Distance(t.page[m], p)
    requires t.page[1] == 0 ==> c == 0
    ensures !Holds(t, p) && !Stale(t, p)
  {
    forall j | 0 <= j < |Leaves(t.page)|
      ensures Leaves(t.page)[j] != p
    {
      assert Leaves(t.page)[j] == t.page[2 + j];
    }
  }

  /** Takes the trunk at place i of the list, whether or not it has leaves. */
  method TakeTrunk(bt: BtShared, prev: nat, iTrunk: nat, n: nat, ghost i: nat)
    requires bt.count + 1 == n && Sound(bt.words, bt.first, n, bt.trunks, bt.usable / 4, bt.nPage)
    requires i < |bt.trunks| && iTrunk == bt.trunks[i].pgno && prev == if i == 0 then 0 else bt.trunks[i - 1].pgno
    modifies bt`words, bt`first, bt`trunks
    ensures Sound(bt.words, bt.first, bt.count, bt.trunks, bt.usable / 4, bt.nPage)
    ensures Members(bt.trunks) + multiset{iTrunk} == old(Members(bt.trunks))
  {
    hide Members, Once, Leaves, Promoted, Linked;
    ghost var w, list := bt.usable / 4, bt.trunks;
    TrunkAt(bt.words, bt.first, list, w, i);
    if i > 0 {
      TrunkAt(bt.words, bt.first, list, w, i - 1);
    }
    PageNumbers(bt.words, bt.first, n, list, w, bt.nPage, i);
    var t := bt.words[iTrunk];
    var next := t[0];
    if t[1] == 0 {
      bt.trunks := Relinked(list, i, next)[..i] + list[i + 1..];
      TrunkTaken(bt.words, bt.first, n, list, w, bt.nPage, i, next, bt.trunks);
    } else {
      next := t[2];
      var page := Promoted(t, bt.words[next]);
      bt.trunks := Relinked(list, i, next)[i := Trunk(next, page)];
      TrunkReplaced(bt.words, bt.first, n, list, w, bt.nPage, i, Trunk(next, page), bt.trunks);
      bt.words := bt.words[next := page];
      LeafAt(t, 0);
      PrevUntouched(list, i, next);
    }
    if prev == 0 {
      bt.first := next;
    } else {
      bt.words := bt.words[prev := bt.words[prev][0 := next]];
    }
  }

  /** Takes leaf c of the trunk at place i of the list. */
  method TakeLeaf(bt: BtShared, iTrunk: nat, c: nat, n: nat, ghost i: nat)
    requires bt.count + 1 == n && Sound(bt.words, bt.first, n, bt.trunks, bt.usable / 4, bt.nPage)
    requires i < |bt.trunks| && iTrunk == bt.trunks[i].pgno && c < bt.trunks[i].page[1]
    modifies bt`words, bt`trunks
    ensures Sound(bt.words, bt.first, bt.count, bt.trunks, bt.usable / 4, bt.nPage)
    ensures Members(bt.trunks) + multiset{old(bt.trunks)[i].page[2 + c]} == old(Members(bt.trunks))
  {
    hide Members, Once, Leaves, WithoutLeaf, Linked;
    ghost var w, list := bt.usable / 4, bt.trunks;
    TrunkAt(bt.words, bt.first, list, w, i);
    var t := bt.words[iTrunk];
    LeafAt(t, c);
    LeafTaken(bt.words, bt.first, n, list, w, bt.nPage, i, c, Trunk(iTrunk, WithoutLeaf(t, c)));
    bt.words := bt.words[iTrunk := WithoutLeaf(t, c)];
    bt.trunks := list[i := Trunk(iTrunk, bt.words[iTrunk])];
  }

  lemma PageNumbers(words: Image, first: nat, count: nat, list: seq<Trunk>, w: nat, nPage: nat, i: nat)
    requires Sound(words, first, count, list, w, nPage) && i < |list|
    ensures i > 0 ==> list[i - 1].pgno != 0
    ensures list[i].page[1] > 0 ==>
            Leaves(list[i].page)[0] == list[i].page[2] && list[i].page[2] in words && |words[list[i].page[2]]| == w
  {
    hide Members;
    if list[i].page[1] > 0 {
      TrunkIn(list, i);
      assert Leaves(list[i].page)[0] in TrunkMembers(list[i]);
    }
  }

  lemma PrevUntouched(list: seq<Trunk>, i: nat, l: nat)
    requires i < |list| && Once(Members(list)) && l in Leaves(list[i].page)
    ensures i > 0 ==> list[i - 1].pgno != l
  {
    hide Members;
    if i > 0 {
      Apart(list, i - 1, i);
    }
  }

  /** Takes one page off a list that is not empty: the wanted one if it is searched for. */
  method TakeFree(bt: BtShared, nearby: nat, exact: bool) returns (pgno: nat)
    requires Valid(bt) && bt.count > 0
    requires Searches(bt, nearby, exact) ==> nearby in Members(bt.trunks) && nearby > 0
    modifies bt`words, bt`first, bt`count, bt`trunks
    ensures old(Searches(bt, nearby, exact)) ==> pgno == nearby
    ensures !old(Searches(bt, nearby, exact)) ==> Nearest(old(bt.trunks), nearby, pgno)
    ensures old(Searches(bt, nearby, exact) ==> RealFirst(bt.trunks, nearby)) ==>
              Valid(bt) && Members(bt.trunks) + multiset{pgno} == old(Members(bt.trunks))
    ensures old(Searches(bt, nearby, exact) && !RealFirst(bt.trunks, nearby)) ==>
              bt.first == old(bt.first) && exists i :: Spoiled(old(bt.trunks), i, nearby, old(bt.words), bt.words)
  {
    hide Members, Once, Leaves, WithoutLeaf, Promoted, Linked;
    var w := bt.usable / 4;
    var searchList := Searches(bt, nearby, exact);
    var n := bt.count;
    FirstTrunk(bt.words, bt.first, n, bt.trunks, w, bt.nPage);
    bt.count := n - 1;
    var prev, iTrunk := 0, bt.first;
    ghost var i := 0;
    ghost var list := bt.trunks;
    ghost var at := 0;
    if searchList {
      at := FindMember(list, nearby);
    }
    while true
      invariant bt.words == old(bt.words) && bt.first == old(bt.first) && bt.trunks == list && bt.count == n - 1
      invariant i < |list| && iTrunk == list[i].pgno && prev == if i == 0 then 0 else list[i - 1].pgno
      invariant searchList == old(Searches(bt, nearby, exact)) && (!searchList ==> i == 0)
      invariant searchList ==> i <= at < |list| && Holds(list[at], nearby)
      invariant searchList ==> forall j :: 0 <= j < i ==> !Holds(list[j], nearby) && !Stale(list[j], nearby)
      decreases |list| - i
    {
      TrunkAt(bt.words, bt.first, list, w, i);
      var t := bt.words[iTrunk];
      var k := t[1];
      if k == 0 && !searchList {
        NoLeaves(t);
        TakeTrunk(bt, prev, iTrunk, n, i);
        return iTrunk;
      } else if searchList && nearby == iTrunk {
        FoundFirst(list, i, nearby);
        TakeTrunk(bt, prev, iTrunk, n, i);
        return nearby;
      } else {
        var c := Closest(t, nearby);
        var iPage := t[2 + c];
        if !searchList || iPage == nearby {
          if c < k {
            LeafAt(t, c);
            if searchList {
              FoundFirst(list, i, nearby);
            } else {
              ClosestIsNearest(list, nearby, c);
            }
            TakeLeaf(bt, iTrunk, c, n, i);
          } else {
            NotFoundFirst(list, i, nearby);
            bt.words := bt.words[iTrunk := t[1 := Wrap(k - 1)]];
            assert Spoiled(list, i, nearby, old(bt.words), bt.words);
          }
          return iPage;
        }
        NotHere(list[i], nearby, c);
        prev, iTrunk := iTrunk, t[0];
        i := i + 1;
      }
    }
  }

  /** After that no chain of trunks whatever starts at page 1: the freelist is lost. */
  lemma SpoiledIsNoList(words: Image, first: nat, list: seq<Trunk>, w: nat, i: nat, p: nat, words': Image,
                        other: seq<Trunk>)
    requires Linked(words, first, list, w) && Once(Members(list)) && Spoiled(list, i, p, words, words') && w < U32
    ensures !Linked(words', first, other, w)
  {
    if Linked(words', first, other, w) {
      SamePath(words, first, list, w, i, words', other, i);
    }
  }

  lemma {:induction false} SamePath(words: Image, first: nat, list: seq<Trunk>, w: nat, i: nat, words': Image,
                                    other: seq<Trunk>, j: nat)
    requires Linked(words, first, list, w) && Linked(words', first, other, w) && Once(Members(list)) && j <= i < |list|
    requires words' == words[list[i].pgno := list[i].page[1 := U32 - 1]]
    ensures j < |other| && other[j].pgno == list[j].pgno
    decreases j
  {
    hide Members, Leaves, Once, Stored, Next;
    if j > 0 {
      SamePath(words, first, list, w, i, words', other, j - 1);
      Apart(list, j - 1, i);
      TrunkAt(words, first, list, w, j - 1);
      TrunkAt(words', first, other, w, j - 1);
    } else {
      TrunkAt(words, first, list, w, 0);
    }
  }

  /** It can happen: trunk 5 has no leaves but still the word 9, page 9 is a leaf of the next trunk. */
  lemma StaleWordExample(words: Image, list: seq<Trunk>, zeros: seq<nat>)
    requires zeros == seq(120, _ => 0)
    requires list == [Trunk(5, zeros[0 := 7][2 := 9]), Trunk(7, zeros[1 := 1][2 := 9])]
    requires words == map[1 := zeros, 2 := zeros, 3 := zeros, 4 := zeros, 5 := list[0].page, 6 := zeros,
                          7 := list[1].page, 8 := zeros, 9 := zeros]
    ensures Sound(words, 5, 3, list, 120, 9) && 9 in Members(list) && !RealFirst(list, 9)
  {
    hide Members, RealFirst, Stale, Leaves;
    ExampleMembers(list, zeros);
    NotFoundFirst(list, 0, 9);
    assert Members(list) == multiset{5, 7, 9};
    assert Linked(words, 5, list, 120);
  }

  lemma ExampleMembers(list: seq<Trunk>, zeros: seq<nat>)
    requires zeros == seq(120, _ => 0)
    requires list == [Trunk(5, zeros[0 := 7][2 := 9]), Trunk(7, zeros[1 := 1][2 := 9])]
    ensures Members(list) == multiset{5, 7, 9} && Stale(list[0], 9)
  {
    assert Leaves(list[0].page) == [] && Leaves(list[1].page) == [9];
    assert list == [list[0]] + [list[1]];
    MembersConcat([list[0]], [list[1]]);
    MembersOne(list[0]);
    MembersOne(list[1]);
  }

  // ---------- A new page at the end of the file ----------

  predicate Reserved(bt: BtShared, p: nat) {
    p == bt.pending || (bt.autoVacuum && IsMap(bt.usable, bt.pending, p))
  }

  predicate FirstAfter(bt: BtShared, top: nat, p: nat) {
    top < p && !Reserved(bt, p) && forall q :: top < q < p ==> Reserved(bt, q)
  }

  /** The first page after `top` that is neither the pending-byte page nor a pointer-map page. */
  method NextPage(bt: BtShared, top: nat) returns (p: nat)
    requires 0 < top < U32 / 2 - 3 && bt.usable >= 480 && bt.pending > 2
    requires bt.nTrunc > 0 || top + 1 != bt.pending
    ensures p <= top + 3 && FirstAfter(bt, top, p)
  {
    p := top + 1;
    if bt.nTrunc > 0 && p == bt.pending {
      p := p + 1;
    }
    assert !Reserved(bt, p) || !bt.autoVacuum || IsMap(bt.usable, bt.pending, p);
    if bt.autoVacuum && IsMap(bt.usable, bt.pending, p) {
      AfterMap(bt.usable, bt.pending, p);
      p := p + 1;
      if p == bt.pending {
        p := p + 1;
      }
    }
  }

  /** Behind a map page come only data pages, and perhaps the pending-byte page. */
  lemma AfterMap(usable: nat, pending: nat, p: nat)
    requires usable >= 480 && 1 < p < U32 / 2 && IsMap(usable, pending, p)
    ensures p != pending && !IsMap(usable, pending, p + 1)
    ensures p + 1 == pending ==> !IsMap(usable, pending, p + 2)
  {
    MapPageIs(usable, pending, p);
    MapPageIs(usable, pending, p + 1);
    MapPageIs(usable, pending, p + 2);
    NextPlace(p - 2, Group(usable));
    NextPlace(p - 1, Group(usable));
  }

  lemma NextPlace(x: nat, n: nat)
    requires n > 0
    ensures (x + 1) % n == if x % n + 1 == n then 0 else x % n + 1
  {
    Quotient(x, n);
    if x % n + 1 == n {
      DivMod(x + 1, n, x / n + 1, 0);
    } else {
      DivMod(x + 1, n, x / n, x % n + 1);
    }
  }

  function Blank(p: nat, w: nat): seq<nat> {
    seq(w, _ => 0)
  }

  /** allocateBtreePage: a page from the list if there is one, else the next one of the file. The page
      count never stops just before the pending-byte page, because sqlite3PagerPagecount then counts
      that page too (pager.c:2552-2554). */
  method AllocatePage(bt: BtShared, nearby: nat, exact: bool) returns (pgno: nat)
    requires Valid(bt)
    requires bt.count == 0 ==>
             bt.pending > 2 && (bt.nTrunc > 0 || bt.nPage + 1 != bt.pending) && bt.nTrunc <= bt.nPage && bt.nPage > 0
    requires bt.count > 0 && Searches(bt, nearby, exact) ==>
             nearby in Members(bt.trunks) && RealFirst(bt.trunks, nearby)
    modifies bt`words, bt`first, bt`count, bt`trunks, bt`nPage, bt`nTrunc
    ensures old(bt.count) > 0 ==>
              && Valid(bt) && Members(bt.trunks) + multiset{pgno} == old(Members(bt.trunks))
              && bt.nPage == old(bt.nPage) && bt.nTrunc == old(bt.nTrunc)
              && (old(Searches(bt, nearby, exact)) ==> pgno == nearby)
              && (!old(Searches(bt, nearby, exact)) ==> Nearest(old(bt.trunks), nearby, pgno))
    ensures old(bt.count) == 0 ==>
              && FirstAfter(bt, if old(bt.nTrunc) > 0 then old(bt.nTrunc) else old(bt.nPage), pgno)
              && bt.nPage == (if pgno > old(bt.nPage) then pgno else old(bt.nPage))
              && bt.nTrunc == (if old(bt.nTrunc) > 0 then pgno else 0)
              && Members(bt.trunks) == multiset{}
              && Sound(bt.words, bt.first, bt.count, bt.trunks, bt.usable / 4, bt.nPage)
  {
    hide Members, Leaves, Once, Next;
    if bt.count > 0 {
      PagePositive(bt.trunks, nearby, bt.words, bt.first, bt.count, bt.usable / 4, bt.nPage);
      pgno := TakeFree(bt, nearby, exact);
    } else {
      NoneFree(bt.trunks);
      pgno := ExtendFile(bt);
    }
  }

  /** No free page: the file grows, or the truncation point moves back. */
  method ExtendFile(bt: BtShared) returns (pgno: nat)
    requires Valid(bt) && bt.pending > 2 && (bt.nTrunc > 0 || bt.nPage + 1 != bt.pending) && bt.nTrunc <= bt.nPage &&
             bt.nPage > 0
    modifies bt`words, bt`nPage, bt`nTrunc
    ensures FirstAfter(bt, if old(bt.nTrunc) > 0 then old(bt.nTrunc) else old(bt.nPage), pgno)
    ensures bt.nPage == (if pgno > old(bt.nPage) then pgno else old(bt.nPage))
    ensures bt.nTrunc == (if old(bt.nTrunc) > 0 then pgno else 0)
    ensures Sound(bt.words, bt.first, bt.count, bt.trunks, bt.usable / 4, bt.nPage)
  {
    hide Members, Leaves, Once, Next;
    pgno := NextPage(bt, if bt.nTrunc > 0 then bt.nTrunc else bt.nPage);
    if bt.nTrunc > 0 {
      bt.nTrunc := pgno;
    }
    if pgno > bt.nPage {
      var words, old', w := bt.words, bt.nPage, bt.usable / 4;
      bt.words := words + map p | old' < p <= pgno :: Blank(p, w);
      bt.nPage := pgno;
      forall i | 0 <= i < |bt.trunks|
        ensures Stored(bt.words, bt.trunks[i], w)
      {
        TrunkIn(bt.trunks, i);
      }
    }
  }

  lemma PagePositive(list: seq<Trunk>, p: nat, words: Image, first: nat, count: nat, w: nat, nPage: nat)
    requires Sound(words, first, count, list, w, nPage)
    ensures p in Members(list) ==> p > 0
  {
  }
}
