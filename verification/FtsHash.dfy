/**
 The hash table of the full-text module (misc/sqlite/fts1_hash.c:161-367): all elements are on one
 doubly linked list, and the elements of a bucket are a run of it. Bucket numbers are hash values
 modulo the table size, a power of two in the source.
 */
module FtsHash {
  /** An element; pointers are numbers, 0 is NULL. */
  datatype Elem = Elem(next: nat, prev: nat, key: string, data: int)
  datatype Bucket = Bucket(count: nat, chain: nat)
  type Memory = map<nat, Elem>

  // ---------- The list ----------

  function NextOf(order: seq<nat>, i: nat): nat {
    if i + 1 < |order| then order[i + 1] else 0
  }

  function PrevOf(order: seq<nat>, i: nat): nat {
    if 0 < i <= |order| then order[i - 1] else 0
  }

  predicate LinkedAt(mem: Memory, order: seq<nat>, i: nat)
    requires i < |order|
  {
    order[i] > 0 && order[i] in mem && mem[order[i]].next == NextOf(order, i) && mem[order[i]].prev == PrevOf(order, i)
  }

  predicate Distinct(order: seq<nat>) {
    forall i, j :: 0 <= i < j < |order| ==> order[i] != order[j]
  }

  /** The elements of `order`, linked in both directions from `first` on. */
  predicate Linked(mem: Memory, first: nat, order: seq<nat>) {
    && first == (if order == [] then 0 else order[0]) && Distinct(order)
    && forall i :: 0 <= i < |order| ==> LinkedAt(mem, order, i)
  }

  function InsertAt(order: seq<nat>, k: nat, x: nat): seq<nat>
    requires k <= |order|
  {
    order[..k] + [x] + order[k..]
  }

  function RemoveAt(order: seq<nat>, k: nat): seq<nat>
    requires k < |order|
  {
    order[..k] + order[k + 1..]
  }

  /** mem with another next or prev for one element; nothing for NULL. */
  function SetNext(mem: Memory, p: nat, v: nat): Memory {
    if p in mem then mem[p := mem[p].(next := v)] else mem
  }

  function SetPrev(mem: Memory, p: nat, v: nat): Memory {
    if p in mem then mem[p := mem[p].(prev := v)] else mem
  }

  /** Element x is linked in before place k. */
  function LinkIn(mem: Memory, order: seq<nat>, k: nat, x: nat, key: string, data: int): Memory
    requires k <= |order|
  {
    var before, after := PrevOf(order, k), if k < |order| then order[k] else 0;
    SetPrev(SetNext(mem, before, x), after, x)[x := Elem(after, before, key, data)]
  }

  lemma LinkedIn(mem: Memory, first: nat, order: seq<nat>, k: nat, x: nat, key: string, data: int)
    requires Linked(mem, first, order) && k <= |order| && x > 0 && x !in order && 0 !in mem
    ensures Linked(LinkIn(mem, order, k, x, key, data), if k == 0 then x else first, InsertAt(order, k, x))
  {
    var order' := InsertAt(order, k, x);
    forall i | 0 <= i < |order'|
      ensures LinkedAt(LinkIn(mem, order, k, x, key, data), order', i)
    {
      LinkedInAt(mem, first, order, k, x, key, data, i);
    }
    InsertDistinct(order, k, x);
  }

  lemma InsertDistinct(order: seq<nat>, k: nat, x: nat)
    requires Distinct(order) && k <= |order| && x !in order
    ensures Distinct(InsertAt(order, k, x))
  {
  }

  lemma LinkedInAt(mem: Memory, first: nat, order: seq<nat>, k: nat, x: nat, key: string, data: int, i: nat)
    requires Linked(mem, first, order) && k <= |order| && x > 0 && x !in order && 0 !in mem && i <= |order|
    ensures LinkedAt(LinkIn(mem, order, k, x, key, data), InsertAt(order, k, x), i)
  {
    var order' := InsertAt(order, k, x);
    var i0 := if i < k then i else i - 1;
    if i == k {
      assert order'[i] == x && NextOf(order', i) == (if k < |order| then order[k] else 0) &&
             PrevOf(order', i) == PrevOf(order, k);
    } else {
      assert order'[i] == order[i0] && LinkedAt(mem, order, i0);
      assert i + 1 != k ==> NextOf(order', i) == NextOf(order, i0);
      assert i + 1 == k ==> NextOf(order', i) == x;
      assert i != k + 1 ==> PrevOf(order', i) == PrevOf(order, i0);
      assert i == k + 1 ==> PrevOf(order', i) == x;
      assert k > 0 && i0 != k - 1 ==> order[i0] != order[k - 1];
      assert k < |order| && i0 != k ==> order[i0] != order[k];
    }
  }

  /** The element at place k is taken out. */
  function LinkOut(mem: Memory, order: seq<nat>, k: nat): Memory
    requires k < |order|
  {
    SetPrev(SetNext(mem, PrevOf(order, k), NextOf(order, k)), NextOf(order, k), PrevOf(order, k)) - {order[k]}
  }

  lemma LinkedOut(mem: Memory, first: nat, order: seq<nat>, k: nat)
    requires Linked(mem, first, order) && k < |order| && 0 !in mem
    ensures Linked(LinkOut(mem, order, k), if k == 0 then NextOf(order, 0) else first, RemoveAt(order, k))
  {
    var order' := RemoveAt(order, k);
    forall i | 0 <= i < |order'|
      ensures LinkedAt(LinkOut(mem, order, k), order', i)
    {
      LinkedOutAt(mem, first, order, k, i);
    }
  }

  lemma LinkedOutAt(mem: Memory, first: nat, order: seq<nat>, k: nat, i: nat)
    requires Linked(mem, first, order) && k < |order| && 0 !in mem && i + 1 < |order|
    ensures LinkedAt(LinkOut(mem, order, k), RemoveAt(order, k), i)
  {
    var order' := RemoveAt(order, k);
    var i0 := if i < k then i else i + 1;
    assert order'[i] == order[i0] && LinkedAt(mem, order, i0);
    assert i + 1 != k ==> NextOf(order', i) == NextOf(order, i0);
    assert i + 1 == k ==> NextOf(order', i) == NextOf(order, k);
    assert i != k ==> PrevOf(order', i) == PrevOf(order, i0);
    assert i == k ==> PrevOf(order', i) == PrevOf(order, k);
    assert k > 0 && i0 != k - 1 ==> order[i0] != order[k - 1];
    assert k + 1 < |order| && i0 != k + 1 ==> order[i0] != order[k + 1];
    assert order[i0] != order[k];
  }

  // ---------- Runs ----------

  /** Places s up to s+c of the list, and no others, belong to bucket h. */
  predicate RunAt(bs: seq<nat>, h: nat, s: nat, c: nat) {
    s + c <= |bs| && forall i :: 0 <= i < |bs| ==> (bs[i] == h <==> s <= i < s + c)
  }

  lemma InsertRun(bs: seq<nat>, h: nat, s: nat, c: nat, h': nat, s': nat, c': nat)
    requires RunAt(bs, h, s, c) && RunAt(bs, h', s', c')
    ensures var k := if c > 0 then s else 0;
            var bs' := InsertAt(bs, k, h);
            && (h' == h ==> RunAt(bs', h, k, c + 1))
            && (h' != h ==> RunAt(bs', h', if c' == 0 then 0 else if k <= s' then s' + 1 else s', c'))
  {
    var k := if c > 0 then s else 0;
    var bs' := InsertAt(bs, k, h);
    assert forall i :: 0 <= i < |bs'| ==> bs'[i] == if i < k then bs[i] else if i == k then h else bs[i - 1];
    if h' != h && c' > 0 && c > 0 {
      assert bs[s] == h && bs[s'] == h';
    }
    if h' == h && c == 0 {
      assert forall i :: 0 <= i < |bs| ==> bs[i] != h;
    }
  }

  lemma RemoveRun(bs: seq<nat>, k: nat, h': nat, s': nat, c': nat)
    requires k < |bs| && RunAt(bs, h', s', c')
    ensures var bs' := RemoveAt(bs, k);
            RunAt(bs', h', if k < s' then s' - 1 else s', if bs[k] == h' then c' - 1 else c') ||
              (c' == 0 && RunAt(bs', h', 0, 0))
  {
    var bs' := RemoveAt(bs, k);
    assert forall i :: 0 <= i < |bs'| ==> bs'[i] == if i < k then bs[i] else bs[i + 1];
  }

  // ---------- Buckets ----------

  /** The bucket of each element of the list. */
  function Buckets(keys: seq<string>, hash: string -> nat, n: nat): (bs: seq<nat>)
    requires n > 0
    ensures |bs| == |keys|
  {
    seq(|keys|, i requires 0 <= i < |keys| => hash(keys[i]) % n)
  }

  predicate BucketAt(bs: seq<nat>, order: seq<nat>, b: Bucket, h: nat, s: nat) {
    |bs| == |order| && RunAt(bs, h, s, b.count) && b.chain == if b.count == 0 || s >= |order| then 0 else order[s]
  }

  ghost predicate HasRun(bs: seq<nat>, order: seq<nat>, b: Bucket, h: nat) {
    exists s: nat :: BucketAt(bs, order, b, h, s)
  }

  /** Every bucket is a run of the list. */
  ghost predicate BucketsOk(keys: seq<string>, order: seq<nat>, ht: seq<Bucket>, hash: string -> nat) {
    |ht| > 0 && |keys| == |order| && forall h :: 0 <= h < |ht| ==> HasRun(Buckets(keys, hash, |ht|), order, ht[h], h)
  }

  function InsertKey(keys: seq<string>, k: nat, key: string): seq<string>
    requires k <= |keys|
  {
    keys[..k] + [key] + keys[k..]
  }

  lemma BucketsInsert(keys: seq<string>, k: nat, key: string, hash: string -> nat, n: nat)
    requires k <= |keys| && n > 0
    ensures Buckets(InsertKey(keys, k, key), hash, n) == InsertAt(Buckets(keys, hash, n), k, hash(key) % n)
  {
  }

  lemma BucketsRemove(keys: seq<string>, k: nat, hash: string -> nat, n: nat)
    requires k < |keys| && n > 0
    ensures Buckets(keys[..k] + keys[k + 1..], hash, n) == RemoveAt(Buckets(keys, hash, n), k)
  {
  }

  /** An element put in front of its bucket, or, if that is empty, of the list. */
  lemma InsertedBuckets(keys: seq<string>, order: seq<nat>, ht: seq<Bucket>, hash: string -> nat, key: string, x: nat,
                        s: nat, k: nat)
    requires BucketsOk(keys, order, ht, hash)
    requires var h := hash(key) % |ht|;
             BucketAt(Buckets(keys, hash, |ht|), order, ht[h], h, s) &&
             k == if ht[h].count > 0 then s else 0
    ensures k <= |order|
    ensures var h := hash(key) % |ht|;
            BucketsOk(InsertKey(keys, k, key), InsertAt(order, k, x), ht[h := Bucket(ht[h].count + 1, x)], hash)
  {
    hide Buckets, InsertKey;
    var n, h := |ht|, hash(key) % |ht|;
    var bs, order', ht' := Buckets(keys, hash, n), InsertAt(order, k, x), ht[h := Bucket(ht[h].count + 1, x)];
    BucketsInsert(keys, k, key, hash, n);
    forall h' | 0 <= h' < n
      ensures HasRun(InsertAt(bs, k, h), order', ht'[h'], h')
    {
      assert HasRun(bs, order, ht[h'], h');
      var s0: nat :| BucketAt(bs, order, ht[h'], h', s0);
      InsertRun(bs, h, s, ht[h].count, h', s0, ht[h'].count);
      if h' == h {
        assert BucketAt(InsertAt(bs, k, h), order', ht'[h'], h', k);
      } else {
        var s' := if ht[h'].count == 0 then 0 else if k <= s0 then s0 + 1 else s0;
        assert ht[h'].count > 0 ==> order'[s'] == order[s0];
        assert BucketAt(InsertAt(bs, k, h), order', ht'[h'], h', s');
      }
    }
    assert |InsertKey(keys, k, key)| == |order'| by {
      BucketsInsert(keys, k, key, hash, n);
    }
  }

  /** An element taken out of its bucket; the bucket starts with the next one if it was the first. */
  lemma RemovedBuckets(keys: seq<string>, order: seq<nat>, ht: seq<Bucket>, hash: string -> nat, k: nat, b: Bucket)
    requires BucketsOk(keys, order, ht, hash) && k < |order| && Distinct(order)
    requires var h := hash(keys[k]) % |ht|;
             b == if ht[h].count <= 1 then Bucket(0, 0)
               else Bucket(ht[h].count - 1, if ht[h].chain == order[k] then NextOf(order, k) else ht[h].chain)
    ensures var h := hash(keys[k]) % |ht|;
            BucketsOk(keys[..k] + keys[k + 1..], RemoveAt(order, k), ht[h := b], hash)
  {
    hide Buckets;
    var n, h := |ht|, hash(keys[k]) % |ht|;
    var bs, order', ht' := Buckets(keys, hash, n), RemoveAt(order, k), ht[h := b];
    BucketsRemove(keys, k, hash, n);
    BucketIs(keys, k, hash, n);
    forall h' | 0 <= h' < n
      ensures HasRun(RemoveAt(bs, k), order', ht'[h'], h')
    {
      assert HasRun(bs, order, ht[h'], h');
      var s0: nat :| BucketAt(bs, order, ht[h'], h', s0);
      RemoveRun(bs, k, h', s0, ht[h'].count);
      RemovedOne(bs, order, ht[h'], h', s0, k, ht'[h']);
    }
  }

  lemma BucketIs(keys: seq<string>, k: nat, hash: string -> nat, n: nat)
    requires k < |keys| && n > 0
    ensures Buckets(keys, hash, n)[k] == hash(keys[k]) % n
  {
  }

  lemma RemovedOne(bs: seq<nat>, order: seq<nat>, was: Bucket, h: nat, s: nat, k: nat, b: Bucket)
    requires BucketAt(bs, order, was, h, s) && k < |bs| && Distinct(order)
    requires bs[k] != h ==> b == was
    requires bs[k] == h ==>
             b == if was.count <= 1 then Bucket(0, 0)
             else Bucket(was.count - 1, if was.chain == order[k] then NextOf(order, k) else was.chain)
    ensures HasRun(RemoveAt(bs, k), RemoveAt(order, k), b, h)
  {
    var bs', order' := RemoveAt(bs, k), RemoveAt(order, k);
    RemoveRun(bs, k, h, s, was.count);
    if b.count == 0 {
      assert forall i :: 0 <= i < |bs'| ==> bs'[i] == bs[if i < k then i else i + 1];
      assert BucketAt(bs', order', b, h, 0);
    } else {
      var s' := if k < s then s - 1 else s;
      assert bs[k] == h ==> s <= k < s + was.count;
      assert s != k ==> order[s] != order[k];
      assert order'[s'] == order[if s' < k then s' else s' + 1];
      assert BucketAt(bs', order', b, h, s');
    }
  }

  // ---------- The table ----------

  /** The elements of the list carry these keys. */
  predicate Keyed(mem: Memory, order: seq<nat>, keys: seq<string>) {
    |keys| == |order| && forall i :: 0 <= i < |order| ==> order[i] in mem && mem[order[i]].key == keys[i]
  }

  predicate Entry(mem: Memory, p: nat, key: string, contents: map<string, int>) {
    p in mem && mem[p].key == key && key in contents && contents[key] == mem[p].data != 0
  }

  predicate DistinctKeys(keys: seq<string>) {
    forall i, j :: 0 <= i < j < |keys| ==> keys[i] != keys[j]
  }

  /** What the table maps each key to. */
  ghost predicate Maps(mem: Memory, order: seq<nat>, keys: seq<string>, contents: map<string, int>) {
    && Keyed(mem, order, keys) && DistinctKeys(keys)
    && (forall i :: 0 <= i < |keys| ==> Entry(mem, order[i], keys[i], contents))
    && (forall k :: k in contents ==> k in keys)
  }

  /** Links aside, the elements are the same. */
  predicate SameElems(mem: Memory, mem': Memory, order: seq<nat>) {
    forall i :: 0 <= i < |order| ==>
      order[i] in mem && order[i] in mem' && mem'[order[i]].key == mem[order[i]].key &&
      mem'[order[i]].data == mem[order[i]].data
  }

  lemma LinkInSame(mem: Memory, order: seq<nat>, k: nat, x: nat, key: string, data: int)
    requires k <= |order| && x !in order && forall i :: 0 <= i < |order| ==> order[i] in mem
    ensures SameElems(mem, LinkIn(mem, order, k, x, key, data), order)
  {
  }

  lemma MapsInsert(mem: Memory, mem': Memory, order: seq<nat>, keys: seq<string>, contents: map<string, int>, k: nat,
                   x: nat, key: string, data: int)
    requires Maps(mem, order, keys, contents) && SameElems(mem, mem', order) && k <= |order| && key !in keys &&
             data != 0
    requires x in mem' && mem'[x].key == key && mem'[x].data == data
    ensures Maps(mem', InsertAt(order, k, x), InsertKey(keys, k, key), contents[key := data])
  {
    var order', keys' := InsertAt(order, k, x), InsertKey(keys, k, key);
    forall i | 0 <= i < |keys'|
      ensures Entry(mem', order'[i], keys'[i], contents[key := data])
    {
      if i != k {
        var i0 := if i < k then i else i - 1;
        assert order'[i] == order[i0] && keys'[i] == keys[i0] && Entry(mem, order[i0], keys[i0], contents);
      }
    }
    KeysInsert(keys, k, key);
  }

  lemma KeysInsert(keys: seq<string>, k: nat, key: string)
    requires k <= |keys| && DistinctKeys(keys) && key !in keys
    ensures DistinctKeys(InsertKey(keys, k, key)) && forall c :: c in InsertKey(keys, k, key) <==> c in keys || c == key
  {
    var keys' := InsertKey(keys, k, key);
    assert keys == keys[..k] + keys[k..];
    forall c
      ensures c in keys' <==> c in keys || c == key
    {
    }
    forall i, j | 0 <= i < j < |keys'|
      ensures keys'[i] != keys'[j]
    {
      assert i != k ==> keys'[i] == keys[if i < k then i else i - 1] && keys'[i] in keys;
      assert j != k ==> keys'[j] == keys[if j < k then j else j - 1] && keys'[j] in keys;
    }
  }

  lemma MapsRemove(mem: Memory, mem': Memory, order: seq<nat>, keys: seq<string>, contents: map<string, int>, k: nat)
    requires Maps(mem, order, keys, contents) && k < |order| && SameElems(mem, mem', RemoveAt(order, k))
    ensures Maps(mem', RemoveAt(order, k), keys[..k] + keys[k + 1..], contents - {keys[k]})
  {
    var order', keys' := RemoveAt(order, k), keys[..k] + keys[k + 1..];
    KeysRemove(keys, k);
    forall i | 0 <= i < |keys'|
      ensures Entry(mem', order'[i], keys'[i], contents - {keys[k]})
    {
      var i0 := if i < k then i else i + 1;
      assert order'[i] == order[i0] && keys'[i] == keys[i0] && Entry(mem, order[i0], keys[i0], contents);
      assert keys'[i] in keys';
    }
  }

  lemma KeysRemove(keys: seq<string>, k: nat)
    requires k < |keys| && DistinctKeys(keys)
    ensures DistinctKeys(keys[..k] + keys[k + 1..]) &&
            forall c :: c in keys[..k] + keys[k + 1..] <==> c in keys && c != keys[k]
  {
    var keys' := keys[..k] + keys[k + 1..];
    assert keys == keys[..k] + [keys[k]] + keys[k + 1..];
    forall c | c in keys'
      ensures c in keys && c != keys[k]
    {
      var i :| 0 <= i < |keys'| && keys'[i] == c;
      assert keys'[i] == keys[if i < k then i else i + 1];
    }
    forall i, j | 0 <= i < j < |keys'|
      ensures keys'[i] != keys'[j]
    {
      assert keys'[i] == keys[if i < k then i else i + 1] && keys'[j] == keys[if j < k then j else j + 1];
    }
  }

  class HashTable {
    const hash: string -> nat
    var first: nat
    var count: nat
    var ht: seq<Bucket>
    var mem: Memory
    var nextId: nat

    /** The elements in order, with their keys, and what the table maps. */
    ghost var order: seq<nat>
    ghost var keys: seq<string>
    ghost var contents: map<string, int>

    ghost predicate Core()
      reads this
    {
      && Linked(mem, first, order) && 0 !in mem && nextId > 0 && (forall p :: p in mem ==> p < nextId)
      && |keys| == |order| && (if ht == [] then order == [] else BucketsOk(keys, order, ht, hash))
    }

    ghost predicate Valid()
      reads this
    {
      Core() && count == |order| && Maps(mem, order, keys, contents)
    }

    constructor (hash: string -> nat)
      ensures Valid() && contents == map[] && this.hash == hash
    {
      this.hash := hash;
      first, count, ht, mem, nextId := 0, 0, [], map[], 1;
      order, keys, contents := [], [], map[];
    }

    /** findElementGivenHash */
    method FindElement(key: string) returns (elem: nat, ghost at: nat)
      requires Core() && Keyed(mem, order, keys) && ht != []
      ensures elem == 0 ==> key !in keys
      ensures elem != 0 ==> at < |order| && order[at] == elem && keys[at] == key
    {
      hide Buckets, Linked;
      var h := hash(key) % |ht|;
      ghost var bs := Buckets(keys, hash, |ht|);
      assert HasRun(bs, order, ht[h], h);
      ghost var s: nat :| BucketAt(bs, order, ht[h], h, s);
      elem, at := ht[h].chain, s;
      var count := ht[h].count;
      while count > 0 && elem != 0
        invariant at + count == s + ht[h].count <= |order| && s <= at && (count > 0 ==> elem == order[at])
        invariant forall i :: s <= i < at ==> keys[i] != key
        decreases count
      {
        LinkOf(mem, first, order, at);
        if mem[elem].key == key {
          return;
        }
        elem := mem[elem].next;
        at := at + 1;
        count := count - 1;
      }
      if count > 0 {
        LinkOf(mem, first, order, at);
      }
      NotInRun(keys, hash, |ht|, key, s, ht[h].count);
      elem := 0;
    }

    /** insertElement: in front of its bucket, or of the list. */
    method InsertElement(x: nat, key: string, data: int) returns (ghost k: nat)
      requires Core() && ht != [] && x > 0 && x < nextId && x !in order
      modifies this`first, this`ht, this`mem, this`order, this`keys
      ensures Core() && |ht| == |old(ht)| && k <= |old(order)| && order == InsertAt(old(order), k, x) &&
              keys == InsertKey(old(keys), k, key)
      ensures mem == LinkIn(old(mem), old(order), k, x, key, data)
    {
      hide Linked, LinkedAt, InsertAt, InsertKey, Buckets;
      var h := hash(key) % |ht|;
      var b := ht[h];
      assert HasRun(Buckets(keys, hash, |ht|), order, b, h);
      ghost var s: nat :| BucketAt(Buckets(keys, hash, |ht|), order, b, h, s);
      k := if b.count > 0 then s else 0;
      InsertedBuckets(keys, order, ht, hash, key, x, s, k);
      LinkedIn(mem, first, order, k, x, key, data);
      ghost var order0, mem0 := order, mem;
      var head := if b.count > 0 then b.chain else first;
      HeadIs(mem, first, order, k);
      var before := if head == 0 then 0 else mem[head].prev;
      if before != 0 {
        mem := mem[before := mem[before].(next := x)];
      } else {
        first := x;
      }
      if head != 0 {
        mem := mem[head := mem[head].(prev := x)];
      }
      mem := mem[x := Elem(head, before, key, data)];
      ht := ht[h := Bucket(b.count + 1, x)];
      order, keys := InsertAt(order, k, x), InsertKey(keys, k, key);
    }

    /** rehash: every element is linked in again, into n new buckets. */
    method Rehash(n: nat)
      requires Core() && Maps(mem, order, keys, contents) && n > 0
      modifies this`first, this`ht, this`mem, this`order, this`keys
      ensures Core() && Maps(mem, order, keys, contents) && |ht| == n && |order| == |old(order)| &&
              forall p :: p in order <==> p in old(order)
    {
      hide Linked, InsertAt, InsertKey, Buckets, Maps;
      ghost var all, names := order, keys;
      ghost var i, done := 0, map[];
      StartsLinked(mem, first, order, keys, contents);
      NewBuckets(mem, n, hash);
      var elem := first;
      ht, first := seq(n, _ => Bucket(0, 0)), 0;
      order, keys := [], [];
      while elem != 0
        invariant Core() && |ht| == n && Maps(mem, order, keys, done) && i <= |all| == |names| && |order| == i
        invariant elem == (if i < |all| then all[i] else 0) && Rest(mem, all, names, contents, i)
        invariant (forall p :: p in order <==> p in all[..i]) && DoneUpTo(done, contents, names, i) && Distinct(all) &&
                  DistinctKeys(names)
        invariant forall j :: 0 <= j < |all| ==> all[j] > 0
        decreases |all| - i
      {
        assert RestAt(mem, all, names, contents, i);
        var e := mem[elem];
        NotDone(all, names, i);
        ghost var mem0, order0, keys0 := mem, order, keys;
        KeysAre(mem, order, keys, done);
        ghost var k := InsertElement(elem, e.key, e.data);
        OneMoreDone(mem0, mem, order0, keys0, done, contents, all, names, i, k);
        done := done[e.key := e.data];
        elem := e.next;
        i := i + 1;
      }
      assert all[..i] == all && names[..i] == names;
      AllDone(mem, order, keys, done, contents, names);
    }

    /** removeElementGivenHash; the last element takes the buckets with it. */
    method RemoveElement(elem: nat, h: nat, ghost at: nat)
      requires Valid() && at < |order| && order[at] == elem && ht != [] && h == hash(keys[at]) % |ht|
      modifies this
      ensures Valid() && contents == old(contents) - {old(keys)[at]}
    {
      hide Linked, RemoveAt, Buckets, Maps, BucketsOk, LinkOut;
      LinkOf(mem, first, order, at);
      LinkedOut(mem, first, order, at);
      Neighbours(mem, first, order, at);
      LinkOutSame(mem, first, order, at);
      MapsRemove(mem, LinkOut(mem, order, at), order, keys, contents, at);
      LinkOutKeys(mem, order, at);
      OneFewer(order, at);
      var b, next := ht[h], mem[elem].next;
      b := if b.count <= 1 then Bucket(0, 0) else Bucket(b.count - 1, if b.chain == elem then next else b.chain);
      RemovedBuckets(keys, order, ht, hash, at, b);
      Unlink(elem, at);
      ht := ht[h := b];
      contents := contents - {keys[at]};
      order, keys := RemoveAt(order, at), keys[..at] + keys[at + 1..];
      count := count - 1;
      if count == 0 {
        first, ht := 0, [];
        EmptyFirst(mem, first, order);
      }
    }

    method Unlink(elem: nat, ghost at: nat)
      requires Linked(mem, first, order) && at < |order| && order[at] == elem && 0 !in mem
      modifies this`first, this`mem
      ensures mem == LinkOut(old(mem), order, at) && first == if at == 0 then NextOf(order, 0) else old(first)
    {
      LinkOf(mem, first, order, at);
      Neighbours(mem, first, order, at);
      hide Linked;
      var e := mem[elem];
      if e.prev != 0 {
        mem := mem[e.prev := mem[e.prev].(next := e.next)];
      } else {
        first := e.next;
      }
      if e.next != 0 {
        mem := mem[e.next := mem[e.next].(prev := e.prev)];
      }
      mem := mem - {elem};
    }

    /** sqlite3Fts1HashFind: the data last stored for the key, or 0. */
    method Find(key: string) returns (data: int)
      requires Valid()
      ensures data == if key in contents then contents[key] else 0
    {
      hide Linked, BucketsOk;
      if ht == [] {
        return 0;
      }
      ghost var at;
      var elem;
      elem, at := FindElement(key);
      if elem == 0 {
        return 0;
      }
      assert Entry(mem, order[at], keys[at], contents);
      return mem[elem].data;
    }

    /** sqlite3Fts1HashInsert: data 0 removes the key. */
    method Insert(key: string, data: int) returns (before: int)
      requires Valid()
      modifies this
      ensures Valid() && before == (if key in old(contents) then old(contents)[key] else 0)
      ensures contents == if data == 0 then old(contents) - {key} else old(contents)[key := data]
    {
      hide Linked, BucketsOk, Maps;
      KeysAre(mem, order, keys, contents);
      before := 0;
      if ht != [] {
        ghost var at;
        var elem;
        elem, at := FindElementIn(key);
        if elem != 0 {
          before := mem[elem].data;
          if data == 0 {
            RemoveElement(elem, hash(key) % |ht|, at);
          } else {
            Replace(elem, data, at);
          }
          return;
        }
      }
      NoKey(mem, order, keys, contents, key);
      if data == 0 {
        return 0;
      }
      AddNew(key, data);
      return 0;
    }

    method FindElementIn(key: string) returns (elem: nat, ghost at: nat)
      requires Valid() && ht != []
      ensures elem == 0 ==> key !in contents
      ensures elem != 0 ==>
              at < |order| && order[at] == elem && keys[at] == key && elem in mem && key in contents &&
              contents[key] == mem[elem].data
    {
      elem, at := FindElement(key);
      KeysAre(mem, order, keys, contents);
      if elem != 0 {
        assert Entry(mem, order[at], keys[at], contents);
      }
    }

    method Replace(elem: nat, data: int, ghost at: nat)
      requires Valid() && at < |order| && order[at] == elem && data != 0 && elem in mem
      modifies this`mem, this`contents
      ensures Valid() && contents == old(contents)[keys[at] := data]
    {
      hide BucketsOk, Linked, Maps;
      NewData(mem, first, order, keys, contents, at, data);
      mem := mem[elem := mem[elem].(data := data)];
      contents := contents[keys[at] := data];
    }

    /** A new key: a new element, in a table enlarged when it has more elements than buckets. */
    method AddNew(key: string, data: int)
      requires Valid() && key !in contents && data != 0
      modifies this
      ensures Valid() && contents == old(contents)[key := data]
    {
      hide Linked, BucketsOk, Maps, InsertAt, InsertKey;
      count := count + 1;
      if |ht| == 0 {
        Rehash(8);
      }
      if count > |ht| {
        Rehash(2 * |ht|);
      }
      KeysAre(mem, order, keys, contents);
      var x := nextId;
      nextId := nextId + 1;
      InMemory(mem, order, x);
      ghost var mem0, order0, keys0 := mem, order, keys;
      ghost var k := InsertElement(x, key, data);
      LinkInSame(mem0, order0, k, x, key, data);
      MapsInsert(mem0, mem, order0, keys0, contents, k, x, key, data);
      InOrder(order0, k, x);
      contents := contents[key := data];
    }
  }

  lemma LinkOf(mem: Memory, first: nat, order: seq<nat>, i: nat)
    requires Linked(mem, first, order) && i < |order|
    ensures order[i] > 0 && order[i] in mem && mem[order[i]].next == NextOf(order, i) &&
            mem[order[i]].prev == PrevOf(order, i)
  {
    assert LinkedAt(mem, order, i);
  }

  lemma NotInRun(keys: seq<string>, hash: string -> nat, n: nat, key: string, s: nat, c: nat)
    requires n > 0 && RunAt(Buckets(keys, hash, n), hash(key) % n, s, c) &&
             forall i :: s <= i < s + c ==> keys[i] != key
    ensures key !in keys
  {
    forall i | 0 <= i < |keys|
      ensures keys[i] != key
    {
      assert Buckets(keys, hash, n)[i] == hash(keys[i]) % n;
    }
  }

  /** What stands at place k of the list, and before it. */
  lemma HeadIs(mem: Memory, first: nat, order: seq<nat>, k: nat)
    requires Linked(mem, first, order) && k <= |order|
    ensures order == [] ==> first == 0
    ensures order != [] ==> first == order[0]
    ensures k < |order| ==> order[k] > 0 && order[k] in mem && mem[order[k]].prev == PrevOf(order, k)
    ensures k > 0 ==> PrevOf(order, k) > 0 && PrevOf(order, k) in mem && PrevOf(order, k) in order
    ensures k == 0 ==> PrevOf(order, k) == 0
    ensures k < |order| && k > 0 ==> PrevOf(order, k) != order[k]
  {
    if k < |order| {
      LinkOf(mem, first, order, k);
    }
    if k > 0 {
      LinkOf(mem, first, order, k - 1);
    }
  }

  /** An element not yet linked in again still has its old link. */
  predicate RestAt(mem: Memory, all: seq<nat>, names: seq<string>, contents: map<string, int>, j: nat)
    requires j < |all| && |names| == |all|
  {
    Entry(mem, all[j], names[j], contents) && mem[all[j]].next == NextOf(all, j)
  }

  predicate Rest(mem: Memory, all: seq<nat>, names: seq<string>, contents: map<string, int>, i: nat)
    requires |names| == |all|
  {
    forall j :: i <= j < |all| ==> RestAt(mem, all, names, contents, j)
  }

  /** What has been linked in so far is mapped as before. */
  ghost predicate DoneUpTo(done: map<string, int>, contents: map<string, int>, names: seq<string>, i: nat)
    requires i <= |names|
  {
    (forall c :: c in done <==> c in names[..i]) && forall c :: c in done ==> c in contents && contents[c] == done[c]
  }

  lemma StartsLinked(mem: Memory, first: nat, order: seq<nat>, keys: seq<string>, contents: map<string, int>)
    requires Linked(mem, first, order) && Maps(mem, order, keys, contents)
    ensures |keys| == |order| && Rest(mem, order, keys, contents, 0) && Distinct(order) && DistinctKeys(keys)
    ensures first == (if order == [] then 0 else order[0]) && forall j :: 0 <= j < |order| ==> order[j] > 0
    ensures DoneUpTo(map[], contents, keys, 0) && forall c :: c in contents ==> c in keys
  {
    forall j | 0 <= j < |order|
      ensures RestAt(mem, order, keys, contents, j) && order[j] > 0
    {
      LinkOf(mem, first, order, j);
    }
  }

  lemma NewBuckets(mem: Memory, n: nat, hash: string -> nat)
    requires n > 0
    ensures Linked(mem, 0, []) && BucketsOk([], [], seq(n, _ => Bucket(0, 0)), hash) && Maps(mem, [], [], map[])
  {
    var ht := seq(n, _ => Bucket(0, 0));
    forall h | 0 <= h < n
      ensures HasRun(Buckets([], hash, n), [], ht[h], h)
    {
      assert BucketAt(Buckets([], hash, n), [], ht[h], h, 0);
    }
  }

  lemma NotDone(all: seq<nat>, names: seq<string>, i: nat)
    requires i < |all| == |names| && Distinct(all) && DistinctKeys(names)
    ensures all[i] !in all[..i] && names[i] !in names[..i]
    ensures all[..i + 1] == all[..i] + [all[i]] && names[..i + 1] == names[..i] + [names[i]]
  {
  }

  lemma KeysAre(mem: Memory, order: seq<nat>, keys: seq<string>, done: map<string, int>)
    requires Maps(mem, order, keys, done)
    ensures |keys| == |order| && (forall c :: c in keys <==> c in done) &&
            forall j :: 0 <= j < |order| ==> order[j] in mem
  {
    forall c | c in keys
      ensures c in done
    {
      var j :| 0 <= j < |keys| && keys[j] == c;
      assert Entry(mem, order[j], keys[j], done);
    }
    forall j | 0 <= j < |order|
      ensures order[j] in mem
    {
      assert Entry(mem, order[j], keys[j], done);
    }
  }

  lemma InOrder(order: seq<nat>, k: nat, x: nat)
    requires k <= |order|
    ensures |InsertAt(order, k, x)| == |order| + 1 && forall p :: p in InsertAt(order, k, x) <==> p in order || p == x
  {
    assert order == order[..k] + order[k..];
  }

  lemma OneMoreDone(mem: Memory, mem': Memory, order: seq<nat>, keys: seq<string>, done: map<string, int>,
                    contents: map<string, int>,
                    all: seq<nat>, names: seq<string>, i: nat, k: nat)
    requires i < |all| == |names| && RestAt(mem, all, names, contents, i) && Rest(mem, all, names, contents, i) &&
             0 !in mem && DoneUpTo(done, contents, names, i) && Distinct(all) && DistinctKeys(names)
    requires Maps(mem, order, keys, done) && (forall p :: p in order <==> p in all[..i]) && k <= |order|
    requires mem' == LinkIn(mem, order, k, all[i], mem[all[i]].key, mem[all[i]].data)
    ensures Rest(mem', all, names, contents, i + 1) &&
            DoneUpTo(done[names[i] := contents[names[i]]], contents, names, i + 1)
    ensures |keys| == |order| &&
            Maps(mem', InsertAt(order, k, all[i]), InsertKey(keys, k, names[i]), done[names[i] := contents[names[i]]])
    ensures mem[all[i]].key == names[i] && mem[all[i]].data == contents[names[i]] && mem[all[i]].next == NextOf(all, i)
    ensures (forall p :: p in InsertAt(order, k, all[i]) <==> p in all[..i + 1]) &&
            |InsertAt(order, k, all[i])| == |order| + 1
  {
    hide InsertAt, InsertKey, Maps;
    assert RestAt(mem, all, names, contents, i);
    NotDone(all, names, i);
    KeysAre(mem, order, keys, done);
    LinkInSame(mem, order, k, all[i], names[i], contents[names[i]]);
    MapsInsert(mem, mem', order, keys, done, k, all[i], names[i], contents[names[i]]);
    InOrder(order, k, all[i]);
    forall j | i + 1 <= j < |all|
      ensures RestAt(mem', all, names, contents, j)
    {
      assert RestAt(mem, all, names, contents, j);
      StillOld(mem, order, k, all, i, j, names[i], contents[names[i]]);
    }
  }

  /** Linking in touches only elements already linked in. */
  lemma StillOld(mem: Memory, order: seq<nat>, k: nat, all: seq<nat>, i: nat, j: nat, key: string, data: int)
    requires k <= |order| && i < j < |all| && Distinct(all) && all[j] in mem && all[j] != 0 &&
             (forall p :: p in order <==> p in all[..i])
    ensures var mem' := LinkIn(mem, order, k, all[i], key, data); all[j] in mem' && mem'[all[j]] == mem[all[j]]
  {
    assert all[j] !in all[..i];
    assert all[j] != all[i];
    assert k > 0 ==> order[k - 1] in order;
    assert k < |order| ==> order[k] in order;
  }

  lemma AllDone(mem: Memory, order: seq<nat>, keys: seq<string>, done: map<string, int>, contents: map<string, int>,
                names: seq<string>)
    requires Maps(mem, order, keys, done) && DoneUpTo(done, contents, names, |names|) &&
             forall c :: c in contents ==> c in names
    ensures Maps(mem, order, keys, contents)
  {
    assert names[..|names|] == names;
    assert done == contents;
  }

  lemma InMemory(mem: Memory, order: seq<nat>, x: nat)
    requires (forall j :: 0 <= j < |order| ==> order[j] in mem) && x !in mem
    ensures x !in order
  {
  }

  lemma NoKey(mem: Memory, order: seq<nat>, keys: seq<string>, contents: map<string, int>, key: string)
    requires Maps(mem, order, keys, contents) && (order == [] || key !in contents)
    ensures key !in contents
  {
  }

  lemma OneFewer(order: seq<nat>, k: nat)
    requires k < |order|
    ensures |RemoveAt(order, k)| == |order| - 1
  {
  }

  lemma EmptyFirst(mem: Memory, first: nat, order: seq<nat>)
    requires order == [] && first == 0
    ensures Linked(mem, first, order)
  {
  }

  /** The neighbours of an element. */
  lemma Neighbours(mem: Memory, first: nat, order: seq<nat>, k: nat)
    requires Linked(mem, first, order) && k < |order|
    ensures Distinct(order) && (PrevOf(order, k) != 0 <==> k > 0)
    ensures k > 0 ==> PrevOf(order, k) in mem && PrevOf(order, k) != order[k]
    ensures NextOf(order, k) != 0 <==> k + 1 < |order|
    ensures k + 1 < |order| ==>
            NextOf(order, k) in mem && NextOf(order, k) != order[k] && NextOf(order, k) != PrevOf(order, k)
  {
    if k > 0 {
      LinkOf(mem, first, order, k - 1);
    }
    if k + 1 < |order| {
      LinkOf(mem, first, order, k + 1);
    }
  }

  lemma LinkOutSame(mem: Memory, first: nat, order: seq<nat>, k: nat)
    requires Linked(mem, first, order) && k < |order|
    ensures SameElems(mem, LinkOut(mem, order, k), RemoveAt(order, k))
  {
    var order' := RemoveAt(order, k);
    forall i | 0 <= i < |order'|
      ensures order'[i] in mem && order'[i] != order[k]
    {
      var i0 := if i < k then i else i + 1;
      LinkOf(mem, first, order, i0);
      assert order'[i] == order[i0];
    }
  }

  lemma NewData(mem: Memory, first: nat, order: seq<nat>, keys: seq<string>, contents: map<string, int>, at: nat,
                data: int)
    requires Linked(mem, first, order) && Maps(mem, order, keys, contents) && at < |order| && data != 0
    ensures order[at] in mem && |keys| == |order|
    ensures var mem' := mem[order[at] := mem[order[at]].(data := data)];
            Linked(mem', first, order) && Maps(mem', order, keys, contents[keys[at] := data])
  {
    assert Entry(mem, order[at], keys[at], contents);
    NewDataLinks(mem, first, order, at, data);
    NewDataMaps(mem, first, order, keys, contents, at, data);
  }

  lemma NewDataLinks(mem: Memory, first: nat, order: seq<nat>, at: nat, data: int)
    requires Linked(mem, first, order) && at < |order| && order[at] in mem
    ensures Linked(mem[order[at] := mem[order[at]].(data := data)], first, order)
  {
    hide NextOf, PrevOf;
    var mem' := mem[order[at] := mem[order[at]].(data := data)];
    forall i | 0 <= i < |order|
      ensures LinkedAt(mem', order, i)
    {
      assert LinkedAt(mem, order, i);
    }
  }

  lemma NewDataMaps(mem: Memory, first: nat, order: seq<nat>, keys: seq<string>, contents: map<string, int>, at: nat,
                    data: int)
    requires Maps(mem, order, keys, contents) && Distinct(order) && at < |order| && data != 0 && order[at] in mem
    ensures Maps(mem[order[at] := mem[order[at]].(data := data)], order, keys, contents[keys[at] := data])
  {
    var mem', contents' := mem[order[at] := mem[order[at]].(data := data)], contents[keys[at] := data];
    forall i | 0 <= i < |order|
      ensures Entry(mem', order[i], keys[i], contents')
    {
      assert Entry(mem, order[i], keys[i], contents);
      assert i < at ==> order[i] != order[at] && keys[i] != keys[at];
      assert at < i ==> order[at] != order[i] && keys[at] != keys[i];
    }
    forall i | 0 <= i < |order|
      ensures order[i] in mem' && mem'[order[i]].key == keys[i]
    {
      assert Entry(mem', order[i], keys[i], contents');
    }
    forall c | c in contents'
      ensures c in keys
    {
      assert keys[at] in keys;
    }
  }

  lemma LinkOutKeys(mem: Memory, order: seq<nat>, k: nat)
    requires k < |order|
    ensures forall p :: p in LinkOut(mem, order, k) ==> p in mem
  {
  }
}
