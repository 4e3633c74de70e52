/**
 Payloads too big for their page (misc/sqlite/btree.c:540-607, 3074-3206, 4265-4433): the first bytes
 stay in the cell, the rest goes to a chain of overflow pages, each of which begins with the number
 of the next.
 */
module Overflow {
  import opened Arithmetic

  /** An overflow page: the next page of the chain, or 0, and its content. */
  datatype Page = Page(next: nat, content: seq<byte>)
  type Pages = map<nat, Page>

  // ---------- How much stays local ----------

  /** sqlite3BtreeParseCellPtr's split, with s bytes of content on an overflow page. */
  function LocalSize(nPayload: nat, minLocal: nat, maxLocal: nat, s: nat): nat
    requires s > 0 && minLocal <= maxLocal
  {
    if nPayload <= maxLocal then nPayload
    else
      var surplus := minLocal + (nPayload - minLocal) % s;
      if surplus <= maxLocal then surplus else minLocal
  }

  /** Local payload stays within its bounds, and a surplus is only kept local if that leaves every
      overflow page full. */
  lemma LocalBounds(nPayload: nat, minLocal: nat, maxLocal: nat, s: nat)
    requires s > 0 && minLocal <= maxLocal
    ensures LocalSize(nPayload, minLocal, maxLocal, s) <= nPayload
    ensures nPayload > maxLocal ==> minLocal <= LocalSize(nPayload, minLocal, maxLocal, s) <= maxLocal
    ensures nPayload > maxLocal && LocalSize(nPayload, minLocal, maxLocal, s) != minLocal ==>
            (nPayload - LocalSize(nPayload, minLocal, maxLocal, s)) % s == 0
  {
    if nPayload > maxLocal {
      var x := nPayload - minLocal;
      assert x == x / s * s + x % s;
      Multiple(x / s, s);
    }
  }

  /** If some number of local bytes within the bounds fills every overflow page, it is the least such
      number, else minLocal. */
  lemma LocalIsLeast(nPayload: nat, minLocal: nat, maxLocal: nat, s: nat, n: nat)
    requires s > 0 && minLocal <= n <= maxLocal < nPayload
    ensures var local := LocalSize(nPayload, minLocal, maxLocal, s);
            && minLocal <= local <= maxLocal
            && ((nPayload - n) % s == 0 ==> local <= n && (nPayload - local) % s == 0)
            && ((nPayload - local) % s != 0 ==> local == minLocal)
  {
    LocalBounds(nPayload, minLocal, maxLocal, s);
    var x, y := nPayload - minLocal, nPayload - n;
    Quotient(x, s);
    Quotient(y, s);
    if y % s == 0 && n - minLocal < x % s {
      DivMod(x, s, y / s, n - minLocal);
    }
    if y % s == 0 {
      Multiple(x / s, s);
    }
  }

  /** A payload that fits is wholly local. No number of local bytes within the bounds needs fewer overflow
      pages, as the bounds are less than a page apart. */
  lemma FewestOverflowPages(nPayload: nat, minLocal: nat, maxLocal: nat, s: nat, n: nat)
    requires 0 < s && minLocal <= maxLocal < minLocal + s
    ensures nPayload <= maxLocal ==> LocalSize(nPayload, minLocal, maxLocal, s) == nPayload
    ensures nPayload > maxLocal && minLocal <= n <= maxLocal ==>
              PageCount(nPayload - LocalSize(nPayload, minLocal, maxLocal, s), s) <= PageCount(nPayload - n, s)
  {
    if nPayload > maxLocal && minLocal <= n <= maxLocal {
      var x := nPayload - minLocal;
      var q, r := x / s, x % s;
      Quotient(x, s);
      assert (q - 1) * s == q * s - s && (q + 1 - 1) * s == q * s;
      hide PageCount;
      if minLocal + r <= maxLocal {
        PagesOf(q * s, s, q, 0);
        PagesAtLeast(nPayload - n, s, q);
      } else {
        PagesOf(x, s, q, r);
        PagesAtLeast(nPayload - n, s, q + 1);
      }
    }
  }

  lemma PagesOf(n: nat, s: nat, q: nat, r: nat)
    requires s > 0 && n == q * s + r && r < s
    ensures PageCount(n, s) == if r == 0 then q else q + 1
  {
    if r == 0 {
      DivMod(n + s - 1, s, q, s - 1);
    } else {
      assert (q + 1) * s == q * s + s;
      DivMod(n + s - 1, s, q + 1, r - 1);
    }
  }

  lemma PagesAtLeast(n: nat, s: nat, q: nat)
    requires s > 0 && n > (q - 1) * s
    ensures PageCount(n, s) >= q
  {
    var k := (n + s - 1) / s;
    Quotient(n + s - 1, s);
    Cancel(q - 1, k, s);
  }

  lemma Cancel(a: int, b: int, s: nat)
    requires a * s < b * s
    ensures a < b
  {
  }

  /** The bounds for table leaves and for all other pages, with the default fractions 64 and 32, are in order
      and less than the content of an overflow page apart. */
  lemma DefaultBounds(usableSize: nat)
    requires usableSize >= 512
    ensures var minLocal, maxLocal := (usableSize - 12) * 32 / 255 - 23, (usableSize - 12) * 64 / 255 - 23;
            var maxLeaf, s := usableSize - 35, usableSize - 4;
            0 <= minLocal <= maxLocal < minLocal + s && minLocal <= maxLeaf < minLocal + s
  {
  }

  lemma Multiple(q: nat, s: nat)
    requires s > 0
    ensures q * s % s == 0 && q * s / s == q
  {
    DivMod(q * s, s, q, 0);
  }

  /** The number of overflow pages for n bytes, as accessPayload and clearCell compute it. */
  function PageCount(n: nat, s: nat): nat
    requires s > 0
  {
    (n + s - 1) / s
  }

  lemma PageCountNext(n: nat, s: nat)
    requires s > 0
    ensures PageCount(0, s) == 0
    ensures n > 0 ==> PageCount(n, s) == 1 + PageCount(if n > s then n - s else 0, s)
  {
    DivMod(s - 1, s, 0, s - 1);
    if n > s {
      var m := n - s + s - 1;
      assert m == m / s * s + m % s;
      DivMod(m + s, s, m / s + 1, m % s);
    } else if n > 0 {
      DivMod(n + s - 1, s, 1, n - 1);
    }
  }

  // ---------- The chain ----------

  /** The pages of `list` hold exactly `rest`, s bytes to a page, and are linked from `first` on. */
  predicate Holds(pages: Pages, first: nat, list: seq<nat>, rest: seq<byte>, s: nat)
    decreases |list|
  {
    if list == [] then rest == [] && first == 0
    else
      && first == list[0] && first > 0 && first in pages && rest != [] && s > 0
      && |pages[first].content| == s
      && (if |rest| <= s
          then pages[first].content[..|rest|] == rest && Holds(pages, pages[first].next, list[1..], [], s)
          else pages[first].content == rest[..s] && Holds(pages, pages[first].next, list[1..], rest[s..], s))
  }

  /** The chain has exactly the pages that the size formula says. */
  lemma {:induction false} ChainLength(pages: Pages, first: nat, list: seq<nat>, rest: seq<byte>, s: nat)
    requires s > 0 && Holds(pages, first, list, rest, s)
    ensures |list| == PageCount(|rest|, s)
    decreases |list|
  {
    PageCountNext(|rest|, s);
    if list != [] {
      ChainLength(pages, pages[first].next, list[1..], if |rest| <= s then [] else rest[s..], s);
    }
  }

  // ---------- What is stored ----------

  /** The n bytes fillInCell takes from a source, after whose end comes `again`, over and over; zeros
      once there is nothing left to take. */
  function Stream(src: seq<byte>, again: seq<byte>, n: nat): (r: seq<byte>)
    ensures |r| == n
    decreases n
  {
    if n == 0 then []
    else if src == [] then [0] + Stream(src, again, n - 1)
    else [src[0]] + Stream(if |src| == 1 then again else src[1..], again, n - 1)
  }

  function Zeros(n: nat): (r: seq<byte>)
    ensures |r| == n
  {
    seq(n, _ => 0)
  }

  lemma {:induction false} StreamZeros(again: seq<byte>, n: nat)
    ensures Stream([], again, n) == Zeros(n)
    decreases n
  {
    if n > 0 {
      StreamZeros(again, n - 1);
      assert [0] + Zeros(n - 1) == Zeros(n);
    }
  }

  lemma StreamHead(src: seq<byte>, again: seq<byte>, n: nat)
    requires src != [] && n > 0
    ensures Stream(src, again, n) == [src[0]] + Stream(if |src| == 1 then again else src[1..], again, n - 1)
  {
  }

  lemma Behead(s: seq<byte>, k: nat)
    requires 0 < k <= |s|
    ensures s[..k] == [s[0]] + s[1..][..k - 1] && s[1..][k - 1..] == s[k..]
  {
  }

  lemma {:induction false} StreamChunk(src: seq<byte>, again: seq<byte>, n: nat, k: nat)
    requires 0 < k <= |src| && k <= n
    ensures Stream(src, again, n) == src[..k] + Stream(if k == |src| then again else src[k..], again, n - k)
    decreases k
  {
    hide Stream;
    StreamHead(src, again, n);
    if k == 1 {
      assert src[..1] == [src[0]];
    } else {
      StreamChunk(src[1..], again, n - 1, k - 1);
      Behead(src, k);
    }
  }

  /** A source is taken whole if there is enough to fill. */
  lemma StreamWhole(src: seq<byte>, again: seq<byte>, m: nat)
    requires src != []
    ensures Stream(src, again, |src| + m) == src + Stream(again, again, m)
  {
    hide Stream;
    StreamChunk(src, again, |src| + m, |src|);
    assert src[..|src|] == src && |src| + m - |src| == m;
  }

  /** A record on an intkey page is its data and the zeros after it. */
  lemma IntKeyRecord(data: seq<byte>, nZero: nat)
    ensures Stream(data, [], |data| + nZero) == data + Zeros(nZero)
  {
    hide Stream, Zeros;
    StreamZeros([], nZero);
    if data != [] {
      StreamWhole(data, [], nZero);
    }
  }

  /** Behind a key the data is copied again instead of the zeros, so these bytes of it must be zero;
      behind an empty key no data is copied at all, so all of it must be. */
  predicate Blank(key: seq<byte>, data: seq<byte>, nZero: nat) {
    forall i :: 0 <= i < |data| && (key == [] || i < nZero) ==> data[i] == 0
  }

  /** A record on a page that is not intkey is stored right if and only if that makes no difference. */
  lemma KeyedRecord(key: seq<byte>, data: seq<byte>, nZero: nat)
    ensures Stream(key, data, |key| + |data| + nZero) == key + data + Zeros(nZero) <==> Blank(key, data, nZero)
  {
    hide Stream, Zeros;
    if key == [] {
      NoKeyRecord(data, nZero);
      NothingBefore(data, Zeros(nZero));
    } else {
      SomeKeyRecord(key, data, nZero);
    }
  }

  lemma NothingBefore(a: seq<byte>, b: seq<byte>)
    ensures [] + a + b == a + b
  {
  }

  lemma SomeKeyRecord(key: seq<byte>, data: seq<byte>, nZero: nat)
    requires key != []
    ensures Stream(key, data, |key| + |data| + nZero) == key + data + Zeros(nZero) <==>
            forall i :: 0 <= i < |data| && i < nZero ==> data[i] == 0
  {
    hide Stream, Zeros;
    KeyedStream(key, data, nZero);
    SameTail(key, data, Stream(data, data, nZero), Zeros(nZero));
    BlankIff(data, nZero);
  }

  lemma NoKeyRecord(data: seq<byte>, nZero: nat)
    ensures Stream([], data, |data| + nZero) == data + Zeros(nZero) <==> forall i :: 0 <= i < |data| ==> data[i] == 0
  {
    hide Stream;
    StreamZeros(data, |data| + nZero);
    var zeros, all := Zeros(|data| + nZero), data + Zeros(nZero);
    if zeros == all {
      forall i | 0 <= i < |data|
        ensures data[i] == 0
      {
        assert zeros[i] == all[i];
      }
    }
  }

  /** The byte 7 behind the key 1, with one zero asked for, is stored as 1 7 7; without a key it is
      stored as 0. */
  lemma KeyedExample()
    ensures Stream([1], [7], 3) == [1, 7, 7] != [1] + [7] + Zeros(1)
    ensures Stream([], [7], 1) == [0] != [] + [7] + Zeros(0)
  {
    assert Stream([7], [7], 1) == [7] + Stream([7], [7], 0);
    assert Stream([7], [7], 2) == [7] + Stream([7], [7], 1);
    assert Stream([], [7], 1) == [0] + Stream([], [7], 0);
    assert ([1] + [7] + Zeros(1))[2] == 0 && ([] + [7] + Zeros(0))[0] == 7;
  }

  lemma KeyedStream(key: seq<byte>, data: seq<byte>, nZero: nat)
    requires key != []
    ensures Stream(key, data, |key| + |data| + nZero) == key + (data + Stream(data, data, nZero))
  {
    hide Stream;
    StreamWhole(key, data, |data| + nZero);
    if data != [] {
      StreamWhole(data, data, nZero);
    } else {
      assert data + Stream(data, data, nZero) == Stream(data, data, nZero);
    }
  }

  lemma BlankIff(data: seq<byte>, n: nat)
    ensures Stream(data, data, n) == Zeros(n) <==> forall i :: 0 <= i < |data| && i < n ==> data[i] == 0
  {
    hide Stream, Zeros;
    if data == [] {
      StreamZeros(data, n);
    } else {
      Repeats(data, data, n);
    }
  }

  lemma SameTail(a: seq<byte>, b: seq<byte>, t: seq<byte>, z: seq<byte>)
    requires |t| == |z|
    ensures a + (b + t) == a + b + z <==> t == z
  {
    assert (a + (b + t))[|a| + |b|..] == t && (a + b + z)[|a| + |b|..] == z;
    assert a + (b + t) == a + b + t;
  }

  /** Repeating the data gives zeros exactly if the part of it that is repeated is zero. */
  lemma {:induction false} Repeats(src: seq<byte>, data: seq<byte>, n: nat)
    requires src != [] && |src| <= |data| && src == data[|data| - |src|..]
    ensures Stream(src, data, n) == Zeros(n) <==>
            (forall i :: 0 <= i < |src| && i < n ==> src[i] == 0) &&
            (forall i :: 0 <= i < |data| && i < n - |src| ==> data[i] == 0)
    decreases n
  {
    if n > 0 {
      var next := if |src| == 1 then data else src[1..];
      assert Zeros(n) == [0] + Zeros(n - 1);
      var l := Stream(src, data, n);
      assert l[1..] == Stream(next, data, n - 1) && Zeros(n)[1..] == Zeros(n - 1);
      assert l == [l[0]] + l[1..];
      if |src| == 1 {
        assert data == data[0..];
        Repeats(data, data, n - 1);
      } else {
        Repeats(src[1..], data, n - 1);
        assert forall i :: 0 < i < |src| ==> src[i] == src[1..][i - 1];
      }
    }
  }

  // ---------- Building the chain ----------

  /** Bytes left on the last page. */
  function Room(list: seq<nat>, rest: seq<byte>, s: nat): int
    decreases |list|
  {
    if list == [] then 0
    else if |list| == 1 then s - |rest|
    else if |rest| >= s then Room(list[1..], rest[s..], s)
    else 0
  }

  /** Pages of the list keep number and content, the last one perhaps not. */
  predicate SameBut(pages: Pages, pages': Pages, list: seq<nat>) {
    && (forall i :: 0 <= i < |list| ==> list[i] in pages && list[i] in pages')
    && (forall i :: 0 <= i < |list| - 1 ==> pages'[list[i]] == pages[list[i]])
  }

  lemma {:induction false} AppendPage(pages: Pages, pages': Pages, first: nat, list: seq<nat>, rest: seq<byte>, p: nat,
                                      chunk: seq<byte>, s: nat)
    requires s > 0 && Holds(pages, first, list, rest, s) && Room(list, rest, s) == 0 && SameBut(pages, pages', list)
    requires list != [] ==> pages'[list[|list| - 1]] == Page(p, pages[list[|list| - 1]].content)
    requires p > 0 && p in pages' && pages'[p].next == 0 && |pages'[p].content| == s && 0 < |chunk| <= s &&
             pages'[p].content[..|chunk|] == chunk
    ensures Holds(pages', if list == [] then p else first, list + [p], rest + chunk, s)
    ensures Room(list + [p], rest + chunk, s) == s - |chunk|
    decreases |list|
  {
    if list == [] {
      assert (list + [p])[1..] == [] && rest + chunk == chunk;
      assert pages'[p].next == 0;
    } else {
      assert (list + [p])[1..] == list[1..] + [p];
      if |list| == 1 {
        AppendPage(pages, pages', 0, [], [], p, chunk, s);
        assert list[1..] == [] && [] + [p] == [p] && [] + chunk == chunk;
        assert |rest| == s && (rest + chunk)[..s] == rest && (rest + chunk)[s..] == chunk;
      } else {
        assert |rest| > s;
        AppendPage(pages, pages', pages[first].next, list[1..], rest[s..], p, chunk, s);
        assert (rest + chunk)[..s] == rest[..s] && (rest + chunk)[s..] == rest[s..] + chunk;
      }
    }
  }

  lemma {:induction false} FillPage(pages: Pages, pages': Pages, first: nat, list: seq<nat>, rest: seq<byte>,
                                    chunk: seq<byte>, s: nat)
    requires s > 0 && Holds(pages, first, list, rest, s) && list != [] && 0 < |chunk| <= Room(list, rest, s) &&
             SameBut(pages, pages', list)
    requires var last, at := pages[list[|list| - 1]], s - Room(list, rest, s);
             0 <= at <= s - |chunk| && |last.content| == s &&
               pages'[list[|list| - 1]] == Page(last.next, last.content[..at] + chunk + last.content[at + |chunk|..])
    ensures Holds(pages', first, list, rest + chunk, s) && Room(list, rest + chunk, s) == Room(list, rest, s) - |chunk|
    decreases |list|
  {
    if |list| == 1 {
      assert pages[first].content[..|rest|] == rest;
      assert pages'[first].content[..|rest + chunk|] == rest + chunk;
      assert Holds(pages, pages[first].next, list[1..], [], s);
      assert list[1..] == [];
    } else {
      assert |rest| > s;
      FillPage(pages, pages', pages[first].next, list[1..], rest[s..], chunk, s);
      assert (rest + chunk)[..s] == rest[..s] && (rest + chunk)[s..] == rest[s..] + chunk;
    }
  }

  /** A full chain with bytes still to come needs another page. */
  lemma {:induction false} NeedsPage(pages: Pages, first: nat, list: seq<nat>, rest: seq<byte>, m: nat, s: nat)
    requires s > 0 && Holds(pages, first, list, rest, s) && Room(list, rest, s) == 0 && m > 0
    ensures PageCount(|rest| + m, s) > |list|
    decreases |list|
  {
    PageCountNext(|rest| + m, s);
    if list != [] {
      if |list| == 1 {
        assert |rest| == s;
        PageCountNext(m, s);
      } else {
        NeedsPage(pages, pages[first].next, list[1..], rest[s..], m, s);
      }
    }
  }

  lemma {:induction false} RoomBounds(pages: Pages, first: nat, list: seq<nat>, rest: seq<byte>, s: nat)
    requires s > 0 && Holds(pages, first, list, rest, s) && list != []
    ensures 0 <= Room(list, rest, s) < s && list[|list| - 1] in pages
    ensures pages[list[|list| - 1]].next == 0 && |pages[list[|list| - 1]].content| == s
    decreases |list|
  {
    if |list| == 1 {
      assert list[1..] == [];
    } else {
      RoomBounds(pages, pages[first].next, list[1..], if |rest| <= s then [] else rest[s..], s);
    }
  }

  // ---------- The code ----------

  class Store {
    var pages: Pages

    constructor (pages: Pages)
      ensures this.pages == pages
    {
      this.pages := pages;
    }
  }

  /** Page numbers the allocator hands out, in order: pages of the file, all different. */
  predicate CanSupply(pages: Pages, supply: seq<nat>, s: nat) {
    && (forall i :: 0 <= i < |supply| ==> supply[i] > 0 && supply[i] in pages && |pages[supply[i]].content| == s)
    && (forall i, j :: 0 <= i < j < |supply| ==> supply[i] != supply[j])
  }

  /** Only pages handed out have changed. */
  ghost predicate SameOutside(pages: Pages, pages': Pages, supply: seq<nat>) {
    forall p :: p !in supply ==> (p in pages' <==> p in pages) && (p in pages' ==> pages'[p] == pages[p])
  }

  lemma SameOutsideTrans(pages: Pages, mid: Pages, pages': Pages, supply: seq<nat>)
    requires SameOutside(pages, mid, supply) && SameOutside(mid, pages', supply)
    ensures SameOutside(pages, pages', supply)
  {
  }

  lemma SameOutsideSelf(pages: Pages, supply: seq<nat>)
    ensures SameOutside(pages, pages, supply)
  {
  }

  /** The next bytes of the payload: from the source, or zeros. */
  method NextChunk(src: seq<byte>, again: seq<byte>, nPayload: nat, spaceLeft: nat)
    returns (chunk: seq<byte>, src': seq<byte>)
    requires nPayload > 0 && spaceLeft > 0
    ensures 0 < |chunk| <= nPayload && |chunk| <= spaceLeft
    ensures Stream(src, again, nPayload) == chunk + Stream(src', again, nPayload - |chunk|)
  {
    hide Stream, Zeros;
    var n := if nPayload > spaceLeft then spaceLeft else nPayload;
    if |src| > 0 {
      if n > |src| {
        n := |src|;
      }
      StreamChunk(src, again, nPayload, n);
      chunk, src' := src[..n], src[n..];
      if src' == [] {
        src' := again;
      }
    } else {
      chunk, src' := Zeros(n), [];
      StreamZeros(again, nPayload);
      StreamZeros(again, nPayload - n);
      ZerosSplit(n, nPayload - n);
      assert src == [];
    }
  }

  lemma ZerosSplit(a: nat, b: nat)
    ensures Zeros(a + b) == Zeros(a) + Zeros(b)
  {
  }

  /** A new page of the chain, or more of the last one. */
  method WriteOverflow(st: Store, cur: nat, first0: nat, spaceLeft: nat, chunk: seq<byte>, supply: seq<nat>, used: nat,
                       s: nat, ghost list0: seq<nat>, ghost rest: seq<byte>)
    returns (first: nat, cur': nat, ghost list: seq<nat>)
    requires s > 0 && Holds(st.pages, first0, list0, rest, s) && spaceLeft == Room(list0, rest, s) &&
             CanSupply(st.pages, supply, s)
    requires used == |list0| <= |supply| && list0 == supply[..|list0|] &&
             cur == (if list0 == [] then 0 else list0[|list0| - 1])
    requires 0 < |chunk| <= (if spaceLeft == 0 then s else spaceLeft) && (spaceLeft == 0 ==> |list0| < |supply|)
    modifies st
    ensures Holds(st.pages, first, list, rest + chunk, s) && CanSupply(st.pages, supply, s)
    ensures |list| == |list0| + (if spaceLeft == 0 then 1 else 0) && |list| <= |supply| && list == supply[..|list|] &&
            cur' == list[|list| - 1] && cur' > 0
    ensures Room(list, rest + chunk, s) == (if spaceLeft == 0 then s else spaceLeft) - |chunk|
    ensures SameOutside(old(st.pages), st.pages, supply)
  {
    hide Holds, Room;
    ghost var pages0 := st.pages;
    EmptyRoom(rest, s);
    if list0 != [] {
      RoomBounds(pages0, first0, list0, rest, s);
    }
    if spaceLeft == 0 {
      var p := supply[used];
      list := list0 + [p];
      first := first0;
      if cur == 0 {
        first := p;
      } else {
        st.pages := st.pages[cur := Page(p, st.pages[cur].content)];
      }
      st.pages := st.pages[p := Page(0, chunk + st.pages[p].content[|chunk|..])];
      cur' := p;
      Kept(pages0, st.pages, supply, used);
      AppendPage(pages0, st.pages, first0, list0, rest, p, chunk, s);
    } else {
      var at := s - spaceLeft;
      var c := st.pages[cur].content;
      st.pages := st.pages[cur := Page(st.pages[cur].next, c[..at] + chunk + c[at + |chunk|..])];
      first, cur', list := first0, cur, list0;
      Kept(pages0, st.pages, supply, used);
      FillPage(pages0, st.pages, first, list, rest, chunk, s);
    }
  }

  lemma Kept(pages: Pages, pages': Pages, supply: seq<nat>, n: nat)
    requires n <= |supply| && forall i, j :: 0 <= i < j < |supply| ==> supply[i] != supply[j]
    requires forall i :: 0 <= i < |supply| ==> supply[i] in pages && supply[i] in pages'
    requires forall p ::
               p in pages && p in pages' && (n == 0 || p != supply[n - 1]) && (n == |supply| || p != supply[n]) ==>
               pages'[p] == pages[p]
    ensures SameBut(pages, pages', supply[..n])
  {
    var list := supply[..n];
    forall i | 0 <= i < |list| - 1
      ensures pages'[list[i]] == pages[list[i]]
    {
      assert list[i] == supply[i];
    }
  }

  /** fillInCell: the payload taken from a source ends up in the cell and, behind its first nLocal
      bytes, in a chain of pages handed out by the allocator. */
  method FillInCell(st: Store, src0: seq<byte>, again: seq<byte>, n: nat, nLocal: nat, s: nat, supply: seq<nat>)
    returns (local: seq<byte>, first: nat, ghost list: seq<nat>)
    requires s > 0 && nLocal <= n && CanSupply(st.pages, supply, s) && |supply| >= PageCount(n - nLocal, s)
    modifies st
    ensures local == Stream(src0, again, n)[..nLocal]
    ensures Holds(st.pages, first, list, Stream(src0, again, n)[nLocal..], s)
    ensures |list| == PageCount(n - nLocal, s) && list == supply[..|list|]
    ensures SameOutside(old(st.pages), st.pages, supply)
  {
    hide Stream, Holds, Room, CanSupply, SameOutside, PageCount, Stored;
    ghost var pages0 := st.pages;
    SameOutsideSelf(pages0, supply);
    ghost var all := Stream(src0, again, n);
    var nPayload: nat, src: seq<byte>, spaceLeft: nat := n, src0, nLocal;
    var cur, used := 0, 0;
    local, first, list := [], 0, [];
    NothingStored(st.pages, all, nLocal, s);
    while nPayload > 0
      invariant nPayload <= n && all == all[..n - nPayload] + Stream(src, again, nPayload) &&
                CanSupply(st.pages, supply, s)
      invariant used == |list| <= |supply| && list == supply[..used] &&
                cur == (if list == [] then 0 else list[|list| - 1])
      invariant Stored(st.pages, all, nLocal, n - nPayload, local, first, list, spaceLeft, s)
      invariant SameOutside(pages0, st.pages, supply)
      decreases nPayload
    {
      ghost var w := n - nPayload;
      var chunk, next := NextChunk(src, again, nPayload, if spaceLeft == 0 then s else spaceLeft);
      ChunkIs(all, w, chunk, Stream(next, again, nPayload - |chunk|));
      if cur == 0 && spaceLeft > 0 {
        StoreHere(st.pages, all, nLocal, w, local, first, list, spaceLeft, s, chunk);
        local := local + chunk;
        spaceLeft := spaceLeft - |chunk|;
      } else {
        ghost var rest := StoredRest(st.pages, all, nLocal, w, local, first, list, spaceLeft, s);
        if spaceLeft == 0 {
          NeedsPage(st.pages, first, list, rest, nPayload, s);
        }
        ghost var mid := st.pages;
        first, cur, list := WriteOverflow(st, cur, first, spaceLeft, chunk, supply, used, s, list, rest);
        used := if spaceLeft == 0 then used + 1 else used;
        spaceLeft := (if spaceLeft == 0 then s else spaceLeft) - |chunk|;
        SameOutsideTrans(pages0, mid, st.pages, supply);
        StoredMore(st.pages, all, nLocal, w, local, first, list, spaceLeft, s, chunk);
      }
      nPayload := nPayload - |chunk|;
      src := next;
    }
    StoredAll(st.pages, all, nLocal, local, first, list, spaceLeft, s);
    ChainLength(st.pages, first, list, all[nLocal..], s);
  }

  /** Where fillInCell has got to after w bytes: in the cell, or in the chain with this much room. */
  ghost predicate Stored(pages: Pages, all: seq<byte>, nLocal: nat, w: nat, local: seq<byte>, first: nat,
                         list: seq<nat>, spaceLeft: nat, s: nat)
    requires nLocal <= |all| && w <= |all|
  {
    if w <= nLocal then list == [] && first == 0 && local == all[..w] && spaceLeft == nLocal - w
    else
      && list != [] && list[|list| - 1] != 0 && local == all[..nLocal]
      && Holds(pages, first, list, all[nLocal..w], s) && spaceLeft == Room(list, all[nLocal..w], s)
  }

  lemma NothingStored(pages: Pages, all: seq<byte>, nLocal: nat, s: nat)
    requires nLocal <= |all|
    ensures Stored(pages, all, nLocal, 0, [], 0, [], nLocal, s) && all == all[..0] + all
  {
  }

  lemma StoreHere(pages: Pages, all: seq<byte>, nLocal: nat, w: nat, local: seq<byte>, first: nat, list: seq<nat>,
                  spaceLeft: nat, s: nat, chunk: seq<byte>)
    requires nLocal <= |all| && w + |chunk| <= |all| && Stored(pages, all, nLocal, w, local, first, list, spaceLeft, s)
    requires list == [] || list[|list| - 1] == 0
    requires 0 < |chunk| <= spaceLeft && all[..w + |chunk|] == all[..w] + chunk
    ensures Stored(pages, all, nLocal, w + |chunk|, local + chunk, first, list, spaceLeft - |chunk|, s)
  {
  }

  lemma StoredRest(pages: Pages, all: seq<byte>, nLocal: nat, w: nat, local: seq<byte>, first: nat, list: seq<nat>,
                   spaceLeft: nat, s: nat)
    returns (rest: seq<byte>)
    requires nLocal <= |all| && w <= |all| && Stored(pages, all, nLocal, w, local, first, list, spaceLeft, s)
    requires spaceLeft == 0 || (list != [] && list[|list| - 1] != 0)
    ensures nLocal <= w && rest == all[nLocal..w] && local == all[..nLocal] && Holds(pages, first, list, rest, s) &&
            spaceLeft == Room(list, rest, s)
  {
    NoChain(pages, s);
    rest := all[nLocal..w];
  }

  lemma StoredMore(pages: Pages, all: seq<byte>, nLocal: nat, w: nat, local: seq<byte>, first: nat, list: seq<nat>,
                   spaceLeft: nat, s: nat, chunk: seq<byte>)
    requires nLocal <= w && w + |chunk| <= |all| && chunk != [] && all[w..w + |chunk|] == chunk &&
             local == all[..nLocal]
    requires list != [] && list[|list| - 1] != 0 && Holds(pages, first, list, all[nLocal..w] + chunk, s) &&
             spaceLeft == Room(list, all[nLocal..w] + chunk, s)
    ensures Stored(pages, all, nLocal, w + |chunk|, local, first, list, spaceLeft, s)
  {
    Extend(all, nLocal, w, chunk);
  }

  lemma StoredAll(pages: Pages, all: seq<byte>, nLocal: nat, local: seq<byte>, first: nat, list: seq<nat>,
                  spaceLeft: nat, s: nat)
    requires nLocal <= |all| && Stored(pages, all, nLocal, |all|, local, first, list, spaceLeft, s)
    ensures local == all[..nLocal] && Holds(pages, first, list, all[nLocal..], s)
  {
    assert all[nLocal..|all|] == all[nLocal..];
  }

  lemma EmptyRoom(rest: seq<byte>, s: nat)
    ensures Room([], rest, s) == 0
  {
  }

  lemma NoChain(pages: Pages, s: nat)
    ensures Holds(pages, 0, [], [], s) && Room([], [], s) == 0
  {
  }

  lemma ChunkIs(all: seq<byte>, w: nat, chunk: seq<byte>, tail: seq<byte>)
    requires w <= |all| && all == all[..w] + (chunk + tail)
    ensures w + |chunk| <= |all| && all[w..w + |chunk|] == chunk && all == all[..w + |chunk|] + tail &&
            all[..w + |chunk|] == all[..w] + chunk
  {
  }

  lemma Extend(all: seq<byte>, m: nat, w: nat, chunk: seq<byte>)
    requires m <= w && w + |chunk| <= |all| && all[w..w + |chunk|] == chunk
    ensures all[m..w] + chunk == all[m..w + |chunk|]
  {
  }

  lemma WithinPrefix(s: seq<byte>, m: nat, k: nat, n: nat)
    requires k + n <= m <= |s|
    ensures s[..m][k..k + n] == s[k..k + n]
  {
  }

  lemma SplitAt(s: seq<byte>, m: nat, k: nat, n: nat)
    requires k <= m <= k + n <= |s|
    ensures s[k..k + n] == s[k..m] + s[m..][..k + n - m]
  {
  }

  lemma Slice(s: seq<byte>, at: nat, k: nat, n: nat)
    requires at + k + n <= |s|
    ensures s[at..][k..k + n] == s[at + k..at + k + n]
  {
  }

  // ---------- Reading ----------

  /** What the pages from the second on hold. */
  function Beyond(rest: seq<byte>, s: nat): seq<byte> {
    if |rest| <= s then [] else rest[s..]
  }

  function BeyondPages(rest: seq<byte>, k: nat, s: nat): seq<byte>
    decreases k
  {
    if k == 0 then rest else BeyondPages(Beyond(rest, s), k - 1, s)
  }

  /** Page k of the chain, and what is stored from there on. */
  lemma {:induction false} ChainAt(pages: Pages, first: nat, list: seq<nat>, rest: seq<byte>, s: nat, k: nat)
    requires s > 0 && Holds(pages, first, list, rest, s) && k < |list|
    ensures Holds(pages, list[k], list[k..], BeyondPages(rest, k, s), s)
    decreases k
  {
    if k > 0 {
      ChainAt(pages, pages[first].next, list[1..], Beyond(rest, s), s, k - 1);
      assert list[1..][k - 1] == list[k] && list[1..][k - 1..] == list[k..];
    } else {
      assert list[0..] == list;
    }
  }

  lemma {:induction false} BeyondIs(rest: seq<byte>, k: nat, s: nat)
    requires s > 0 && k * s < |rest|
    ensures BeyondPages(rest, k, s) == rest[k * s..]
    decreases k
  {
    if k > 0 {
      assert k * s == (k - 1) * s + s;
      assert (k - 1) * s >= 0;
      BeyondIs(Beyond(rest, s), k - 1, s);
    }
  }

  /** The overflow page cache: for each page of the chain its number, or 0 if not known yet. */
  predicate CacheOk(cache: seq<nat>, list: seq<nat>) {
    |cache| == |list| && forall i :: 0 <= i < |cache| ==> cache[i] == 0 || cache[i] == list[i]
  }

  datatype Result = Ok(bytes: seq<byte>) | Error | Corrupt

  /** A range of the payload that begins in the cell is a range of the cell's part and one of the rest. */
  lemma ReadAcross(local: seq<byte>, rest: seq<byte>, offset: nat, amt: nat, a: nat)
    requires offset < |local| && offset + amt <= |local| + |rest|
    requires a == if amt + offset > |local| then |local| - offset else amt
    ensures local[offset..offset + a] + rest[0..amt - a] == (local + rest)[offset..offset + amt]
  {
  }

  lemma ReadBehind(local: seq<byte>, rest: seq<byte>, offset: nat, amt: nat)
    requires |local| <= offset && offset + amt <= |local| + |rest|
    ensures [] + rest[offset - |local|..offset - |local| + amt] == (local + rest)[offset..offset + amt]
  {
  }

  /** accessPayload, reading: the bytes asked for, or an error if they go beyond the payload. */
  method ReadPayload(pages: Pages, local: seq<byte>, first: nat, n: nat, offset0: nat, amt0: nat, s: nat,
                     useCache: bool, cache0: seq<nat>,
                     ghost list: seq<nat>, ghost rest: seq<byte>)
    returns (r: Result, cache: seq<nat>)
    requires s > 0 && Holds(pages, first, list, rest, s) && n == |local| + |rest| &&
             (useCache ==> CacheOk(cache0, list))
    ensures r == if offset0 + amt0 > n then Error else Ok((local + rest)[offset0..offset0 + amt0])
    ensures useCache ==> CacheOk(cache, list)
  {
    cache := cache0;
    if offset0 + amt0 > n {
      return Error, cache;
    }
    var offset, amt, buf: seq<byte> := offset0, amt0, [];
    if offset < |local| {
      var a := if amt + offset > |local| then |local| - offset else amt;
      ReadAcross(local, rest, offset, amt, a);
      buf := local[offset..offset + a];
      offset, amt := 0, amt - a;
    } else {
      ReadBehind(local, rest, offset, amt);
      offset := offset - |local|;
    }
    assert buf + rest[offset..offset + amt] == (local + rest)[offset0..offset0 + amt0];
    if amt > 0 {
      var tail;
      tail, cache := ReadChain(pages, first, offset, amt, s, useCache, cache, list, rest);
      buf := buf + tail;
    }
    return Ok(buf), cache;
  }

  method ReadChain(pages: Pages, first: nat, offset0: nat, amt0: nat, s: nat, useCache: bool, cache0: seq<nat>,
                   ghost list: seq<nat>, ghost rest: seq<byte>)
    returns (buf: seq<byte>, cache: seq<nat>)
    requires s > 0 && Holds(pages, first, list, rest, s) && (useCache ==> CacheOk(cache0, list)) && amt0 > 0 &&
             offset0 + amt0 <= |rest|
    ensures buf == rest[offset0..offset0 + amt0] && (useCache ==> CacheOk(cache, list))
  {
    hide Holds, Beyond;
    ghost var goal := rest[offset0..offset0 + amt0];
    buf, cache := [], cache0;
    var amt: nat := amt0;
    ghost var rem;
    var nextPage: nat, iIdx: nat, offset: nat;
    nextPage, iIdx, offset, rem := StartPage(pages, first, offset0, amt0, s, useCache, cache0, list, rest);
    while amt > 0 && nextPage != 0
      invariant iIdx <= |list| && (useCache ==> CacheOk(cache, list))
      invariant Holds(pages, nextPage, list[iIdx..], rem, s)
      invariant if amt > 0 then offset + amt <= |rem| && buf + rem[offset..offset + amt] == goal else buf == goal
      decreases |list| - iIdx
    {
      ChainStep(pages, nextPage, list, rem, s, iIdx);
      if useCache {
        cache := cache[iIdx := nextPage];
      }
      if offset >= s {
        ReadOn(rem, offset, amt, s);
        if useCache && cache[iIdx + 1] != 0 {
          nextPage := cache[iIdx + 1];
        } else {
          nextPage := pages[nextPage].next;
        }
        offset := offset - s;
      } else {
        var a := if amt + offset > s then s - offset else amt;
        var page := pages[nextPage];
        nextPage := page.next;
        ReadHere(page.content, rem, offset, amt, a, s);
        Together(buf, page.content[offset..offset + a], if a == amt then [] else Beyond(rem, s)[..amt - a]);
        buf := buf + page.content[offset..offset + a];
        offset, amt := 0, amt - a;
      }
      rem := Beyond(rem, s);
      iIdx := iIdx + 1;
    }
    NotDone(pages, nextPage, list, rem, s, iIdx);
  }

  lemma Together(a: seq<byte>, b: seq<byte>, c: seq<byte>)
    ensures a + (b + c) == a + b + c && (c == [] ==> a + (b + c) == a + b)
  {
  }

  /** The page to begin with: the first, or directly the one the offset lies on if the cache knows it. */
  method StartPage(pages: Pages, first: nat, offset0: nat, amt: nat, s: nat, useCache: bool, cache: seq<nat>,
                   ghost list: seq<nat>, ghost rest: seq<byte>)
    returns (nextPage: nat, iIdx: nat, offset: nat, ghost rem: seq<byte>)
    requires s > 0 && Holds(pages, first, list, rest, s) && (useCache ==> CacheOk(cache, list)) && amt > 0 &&
             offset0 + amt <= |rest|
    ensures iIdx <= |list| && Holds(pages, nextPage, list[iIdx..], rem, s)
    ensures offset + amt <= |rem| && rem[offset..offset + amt] == rest[offset0..offset0 + amt]
  {
    hide Holds, PageCount, BeyondPages;
    nextPage, iIdx, offset, rem := first, 0, offset0, rest;
    assert list[0..] == list;
    ChainLength(pages, first, list, rest, s);
    Enough(|rest|, offset0, s);
    if useCache && cache[offset0 / s] != 0 {
      Jump(pages, first, list, rest, s, offset0, amt);
      iIdx := offset0 / s;
      rem := BeyondPages(rest, iIdx, s);
      nextPage := cache[iIdx];
      offset := offset0 % s;
    }
  }

  lemma Enough(n: nat, offset: nat, s: nat)
    requires s > 0 && offset < n
    ensures offset / s < PageCount(n, s)
    decreases n
  {
    PageCountNext(n, s);
    if offset >= s {
      Enough(n - s, offset - s, s);
      var q, r := (offset - s) / s, (offset - s) % s;
      assert offset - s == q * s + r;
      DivMod(offset, s, q + 1, r);
    } else {
      DivMod(offset, s, 0, offset);
    }
  }

  /** Skipping directly to the page an offset lies on. */
  lemma Jump(pages: Pages, first: nat, list: seq<nat>, rest: seq<byte>, s: nat, offset: nat, amt: nat)
    requires s > 0 && Holds(pages, first, list, rest, s) && offset / s < |list| && offset + amt <= |rest| && amt > 0
    ensures var k, rem := offset / s, BeyondPages(rest, offset / s, s);
            && Holds(pages, list[k], list[k..], rem, s)
            && offset % s + amt <= |rem| && rem[offset % s..offset % s + amt] == rest[offset..offset + amt]
  {
    hide Holds, BeyondPages;
    var k := offset / s;
    ChainAt(pages, first, list, rest, s, k);
    Quotient(offset, s);
    BeyondIs(rest, k, s);
    var at := k * s;
    Slice(rest, at, offset % s, amt);
  }

  lemma ChainStep(pages: Pages, p: nat, list: seq<nat>, rem: seq<byte>, s: nat, i: nat)
    requires s > 0 && i <= |list| && Holds(pages, p, list[i..], rem, s) && p != 0
    ensures i < |list| && p == list[i] && p in pages && rem != [] && |pages[p].content| == s
    ensures pages[p].content[..if |rem| <= s then |rem| else s] == rem[..if |rem| <= s then |rem| else s]
    ensures Holds(pages, pages[p].next, list[i + 1..], Beyond(rem, s), s)
    ensures |rem| > s ==> i + 1 < |list| && pages[p].next == list[i + 1]
  {
    assert list[i..][1..] == list[i + 1..];
  }

  lemma ReadOn(rem: seq<byte>, offset: nat, amt: nat, s: nat)
    requires s <= offset && amt > 0 && offset + amt <= |rem|
    ensures |rem| > s && offset - s + amt <= |Beyond(rem, s)| &&
            Beyond(rem, s)[offset - s..offset - s + amt] == rem[offset..offset + amt]
  {
  }

  lemma ReadHere(content: seq<byte>, rem: seq<byte>, offset: nat, amt: nat, a: nat, s: nat)
    requires offset < s == |content| && amt > 0 && offset + amt <= |rem| &&
             a == (if amt + offset > s then s - offset else amt)
    requires content[..if |rem| <= s then |rem| else s] == rem[..if |rem| <= s then |rem| else s]
    ensures rem[offset..offset + amt] ==
            content[offset..offset + a] + (if a == amt then [] else Beyond(rem, s)[..amt - a])
    ensures a < amt ==> amt - a <= |Beyond(rem, s)|
    ensures a < amt ==> Beyond(rem, s)[..amt - a] == Beyond(rem, s)[0..0 + (amt - a)]
  {
    var m := if |rem| <= s then |rem| else s;
    WithinPrefix(content, m, offset, a);
    WithinPrefix(rem, m, offset, a);
    assert content[offset..offset + a] == rem[offset..offset + a];
    if a < amt {
      SplitAt(rem, s, offset, amt);
    }
  }

  lemma NotDone(pages: Pages, p: nat, list: seq<nat>, rem: seq<byte>, s: nat, i: nat)
    requires i <= |list| && Holds(pages, p, list[i..], rem, s)
    ensures p == 0 ==> rem == []
  {
  }

  // ---------- Freeing ----------

  /** clearCell: gives up the pages of the chain, each once, and no other. */
  method ClearCell(pages: Pages, first: nat, nRest: nat, s: nat, nPage: nat, ghost list: seq<nat>,
                   ghost rest: seq<byte>) returns (ok: bool, freed: seq<nat>)
    requires s > 0 && Holds(pages, first, list, rest, s) && nRest == |rest| && forall p :: p in list ==> p <= nPage
    ensures ok && freed == list
  {
    hide Holds, PageCount;
    ChainLength(pages, first, list, rest, s);
    var nOvfl := PageCount(nRest, s);
    var ovflPgno: nat := first;
    freed := [];
    ghost var rem := rest;
    assert list[0..] == list;
    while nOvfl > 0
      invariant |freed| + nOvfl == |list| && freed == list[..|freed|]
      invariant Holds(pages, ovflPgno, list[|freed|..], rem, s)
      decreases nOvfl
    {
      nOvfl := nOvfl - 1;
      LinkThere(pages, ovflPgno, list, rem, s, |freed|);
      ChainStep(pages, ovflPgno, list, rem, s, |freed|);
      assert list[|freed|] in list;
      if ovflPgno == 0 || ovflPgno > nPage {
        return false, freed;
      }
      var page := ovflPgno;
      ovflPgno := pages[ovflPgno].next;
      freed := freed + [page];
      rem := Beyond(rem, s);
    }
    assert list[..|list|] == list;
    return true, freed;
  }

  lemma LinkThere(pages: Pages, p: nat, list: seq<nat>, rem: seq<byte>, s: nat, i: nat)
    requires i < |list| && Holds(pages, p, list[i..], rem, s)
    ensures p != 0
  {
  }

  /** The record fillInCell is asked to store: data and zeros, behind the key unless the page is intkey.
      On a page without data both are empty. */
  function Record(intKey: bool, key: seq<byte>, data: seq<byte>, nZero: nat): seq<byte> {
    (if intKey then [] else key) + data + Zeros(nZero)
  }

  function RecordSize(intKey: bool, key: seq<byte>, data: seq<byte>, nZero: nat): nat {
    (if intKey then 0 else |key|) + |data| + nZero
  }

  /** What it stores. */
  function StoredRecord(intKey: bool, key: seq<byte>, data: seq<byte>, nZero: nat): (r: seq<byte>)
    ensures |r| == RecordSize(intKey, key, data, nZero)
  {
    if intKey then Stream(data, [], |data| + nZero) else Stream(key, data, |key| + |data| + nZero)
  }

  predicate Storable(intKey: bool, key: seq<byte>, data: seq<byte>, nZero: nat) {
    intKey || Blank(key, data, nZero)
  }

  lemma RecordStored(intKey: bool, key: seq<byte>, data: seq<byte>, nZero: nat)
    ensures StoredRecord(intKey, key, data, nZero) == Record(intKey, key, data, nZero) <==>
            Storable(intKey, key, data, nZero)
  {
    hide Stream, Zeros, Blank;
    if intKey {
      IntKeyRecord(data, nZero);
      assert [] + data + Zeros(nZero) == data + Zeros(nZero);
    } else {
      KeyedRecord(key, data, nZero);
    }
  }

  /** A record stored and read back twice, at any offsets, with the page cache or without. Every range
      within the record comes back as asked for if the record is storable; the whole of it only then. */
  method StoreAndRead(st: Store, intKey: bool, key: seq<byte>, data: seq<byte>, nZero: nat, minLocal: nat,
                      maxLocal: nat, s: nat, supply: seq<nat>, useCache: bool, offset: nat, amt: nat, offset2: nat,
                      amt2: nat)
    returns (r: Result, r2: Result)
    requires s > 0 && minLocal <= maxLocal && CanSupply(st.pages, supply, s)
    requires var n := RecordSize(intKey, key, data, nZero);
             |supply| >= PageCount(n - LocalSize(n, minLocal, maxLocal, s), s)
    modifies st
    ensures Storable(intKey, key, data, nZero) ==>
              && r == ReadOf(Record(intKey, key, data, nZero), offset, amt)
              && r2 == ReadOf(Record(intKey, key, data, nZero), offset2, amt2)
    ensures offset == 0 && amt == RecordSize(intKey, key, data, nZero) ==>
              (r == Ok(Record(intKey, key, data, nZero)) <==> Storable(intKey, key, data, nZero))
  {
    hide Stream, Holds, CanSupply, PageCount, LocalSize, Record, Storable;
    var n := RecordSize(intKey, key, data, nZero);
    LocalBounds(n, minLocal, maxLocal, s);
    RecordStored(intKey, key, data, nZero);
    ghost var all, list := StoredRecord(intKey, key, data, nZero), [];
    var local, first;
    local, first, list := FillInCell(st, if intKey then data else key, if intKey then [] else data, n,
                                     LocalSize(n, minLocal, maxLocal, s), s, supply);
    assert local + all[|local|..] == all;
    var cache: seq<nat> := seq(PageCount(n - |local|, s), _ => 0);
    r, cache := ReadPayload(st.pages, local, first, n, offset, amt, s, useCache, cache, list, all[|local|..]);
    r2, cache := ReadPayload(st.pages, local, first, n, offset2, amt2, s, useCache, cache, list, all[|local|..]);
    assert all[0..n] == all;
  }

  /** A range of the payload, or an error if it goes beyond. */
  function ReadOf(payload: seq<byte>, offset: nat, amt: nat): Result {
    if offset + amt > |payload| then Error else Ok(payload[offset..offset + amt])
  }
}
