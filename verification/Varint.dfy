/**
 Variable-length integers (misc/sqlite/fts1.c:95-151): seven bits to a byte, least significant first,
 the high bit set on every byte but the last. 64-bit arithmetic is written out modulo 2^64.
 */
module Varint {
  import opened Arithmetic

  const Two64: int := 0x1_0000_0000_0000_0000
  const Two63: int := 0x8000_0000_0000_0000
  const MaxLength: nat := 10

  predicate IsInt64(v: int) {
    -Two63 <= v < Two63
  }

  function ToUnsigned(v: int): nat {
    v % Two64
  }

  function ToSigned(x: int): int {
    var u := x % Two64;
    if u >= Two63 then u - Two64 else u
  }

  /** The bytes of an unsigned number. */
  function Encode(u: nat): (s: seq<byte>)
    ensures |s| > 0
  {
    if u < 128 then [u] else [u % 128 + 128] + Encode(u / 128)
  }

  /** The bytes of a signed 64-bit number. */
  function Bytes(v: int): (s: seq<byte>)
    ensures |s| > 0
  {
    Encode(ToUnsigned(v))
  }

  function Pow128(n: nat): nat {
    if n == 0 then 1 else 128 * Pow128(n - 1)
  }

  lemma {:induction false} EncodeLength(u: nat, n: nat)
    requires n > 0 && u < Pow128(n)
    ensures |Encode(u)| <= n
    decreases n
  {
    if u >= 128 {
      assert n > 1 by {
        assert Pow128(1) == 128 * Pow128(0);
      }
      EncodeLength(u / 128, n - 1);
    }
  }

  /** At most ten bytes. */
  lemma BytesLength(v: int)
    ensures |Bytes(v)| <= MaxLength
  {
    PowTen();
    EncodeLength(ToUnsigned(v), MaxLength);
  }

  lemma PowTen()
    ensures Pow128(9) == 0x8000_0000_0000_0000 && Pow128(10) > Two64
  {
    assert Pow128(3) == 128 * (128 * (128 * Pow128(0)));
    assert Pow128(6) == 128 * (128 * (128 * Pow128(3)));
    assert Pow128(9) == 128 * (128 * (128 * Pow128(6)));
    assert Pow128(10) == 128 * Pow128(9);
  }

  /** putVarint */
  method Put(v: int) returns (s: seq<byte>)
    ensures s == Bytes(v) && 1 <= |s| <= MaxLength
  {
    BytesLength(v);
    var vu := ToUnsigned(v);
    s := [vu % 128 + 128];
    ghost var last := vu % 128;
    vu := vu / 128;
    while vu != 0
      invariant |s| > 0 && s[|s| - 1] == last + 128 && 0 <= last < 128
      invariant Bytes(v) == s[..|s| - 1] + if vu == 0 then [last] else [last + 128] + Encode(vu)
      decreases vu
    {
      ghost var before := s;
      last := vu % 128;
      s := s + [vu % 128 + 128];
      assert s[..|s| - 1] == before == before[..|before| - 1] + [before[|before| - 1]];
      vu := vu / 128;
    }
    s := s[..|s| - 1] + [s[|s| - 1] - 128];
  }

  datatype Read = Bad | Read(value: int, length: nat)

  /** The number encoded at the start of s, by its digits. */
  function Value(s: seq<byte>): nat {
    if s == [] then 0 else s[0] % 128 + 128 * Value(s[1..])
  }

  /** r is what the bytes of s begin with: the digits up to the first byte below 128. */
  ghost predicate Parses(s: seq<byte>, r: Read) {
    && (r.Read? <==> exists i :: 0 <= i < |s| && i < MaxLength && s[i] < 128)
    && (r.Read? ==>
          && 1 <= r.length <= |s| && r.length <= MaxLength && s[r.length - 1] < 128
          && (forall i :: 0 <= i < r.length - 1 ==> s[i] >= 128)
          && r.value == ToSigned(Value(s[..r.length])))
  }

  /** getVarint gives up after ten bytes. */
  method Get(s: seq<byte>) returns (r: Read)
    requires |s| >= MaxLength || exists i :: 0 <= i < |s| && s[i] < 128
    ensures Parses(s, r)
  {
    hide Value, Pow128, ToSigned;
    var x, y, n := 0, 1, 0;
    Empty(s[..0]);
    while s[n] >= 128
      invariant n < |s| && n < MaxLength
      invariant forall i :: 0 <= i < n ==> s[i] >= 128
      invariant x == Value(s[..n]) % Two64 && y == Pow128(n) % Two64
      decreases |s| - n
    {
      NextDigit(s, n, x, y);
      x := (x + y * (s[n] % 128)) % Two64;
      y := (y * 128) % Two64;
      n := n + 1;
      if n >= MaxLength {
        return Bad;
      }
    }
    NextDigit(s, n, x, y);
    assert s[n] % 128 == s[n];
    x := (x + y * s[n]) % Two64;
    n := n + 1;
    SameSigned(Value(s[..n]));
    return Read(ToSigned(x), n);
  }

  lemma Empty(s: seq<byte>)
    requires s == []
    ensures Value(s) == Value(s) % Two64 == 0 && Pow128(0) == Pow128(0) % Two64 == 1
  {
  }

  lemma SameSigned(x: nat)
    ensures ToSigned(x % Two64) == ToSigned(x)
  {
  }

  lemma NextDigit(s: seq<byte>, n: nat, x: nat, y: nat)
    requires n < |s| && x == Value(s[..n]) % Two64 && y == Pow128(n) % Two64
    ensures (x + y * (s[n] % 128)) % Two64 == Value(s[..n + 1]) % Two64
    ensures (y * 128) % Two64 == Pow128(n + 1) % Two64
  {
    ValueSnoc(s, n);
    ModSum(Value(s[..n]), Pow128(n), s[n] % 128, Two64);
    ModSum(0, Pow128(n), 128, Two64);
  }

  lemma {:induction false} ValueSnoc(s: seq<byte>, n: nat)
    requires n < |s|
    ensures Value(s[..n + 1]) == Value(s[..n]) + Pow128(n) * (s[n] % 128)
    decreases n
  {
    if n == 0 {
      assert s[..1][1..] == [];
      assert Value(s[..1]) == s[0] % 128 + 128 * Value([]);
    } else {
      ValueSnoc(s[1..], n - 1);
      assert s[..n + 1][1..] == s[1..][..n] && s[..n][1..] == s[1..][..n - 1];
      assert 128 * (Pow128(n - 1) * (s[n] % 128)) == Pow128(n) * (s[n] % 128);
    }
  }

  lemma ModSum(a: nat, b: nat, d: nat, m: nat)
    requires m > 0
    ensures (a % m + b % m * d) % m == (a + b * d) % m
  {
    var q := b / m;
    assert b == q * m + b % m;
    assert b * d == q * d * m + b % m * d;
    AddMultiple(a + b % m * d, q * d, m);
    var p := a / m;
    assert a == p * m + a % m;
    AddMultiple(a % m + b % m * d, p, m);
  }

  lemma AddMultiple(z: nat, k: nat, m: nat)
    requires m > 0
    ensures (z + k * m) % m == z % m
  {
    var q := z / m;
    assert z + k * m == (q + k) * m + z % m;
    DivMod(z + k * m, m, q + k, z % m);
  }

  // ---------- Round trip ----------

  lemma {:induction false} EncodeShape(u: nat)
    ensures var s := Encode(u); s[|s| - 1] < 128 && (forall i :: 0 <= i < |s| - 1 ==> s[i] >= 128) && Value(s) == u
    decreases u
  {
    var s := Encode(u);
    if u < 128 {
      assert s[1..] == [];
    } else {
      EncodeShape(u / 128);
      assert s[1..] == Encode(u / 128);
      assert forall i :: 0 < i < |s| ==> s[i] == Encode(u / 128)[i - 1];
    }
  }

  /** Reading gives back every 64-bit integer written, whatever follows it. */
  lemma RoundTrip(v: int, rest: seq<byte>, r: Read)
    requires IsInt64(v) && Parses(Bytes(v) + rest, r)
    ensures r == Read(v, |Bytes(v)|)
  {
    var s := Bytes(v) + rest;
    var n := |Bytes(v)|;
    EncodeShape(ToUnsigned(v));
    BytesLength(v);
    assert s[n - 1] == Bytes(v)[n - 1] < 128;
    assert r.Read?;
    assert forall i :: 0 <= i < n ==> s[i] == Bytes(v)[i];
    assert r.length == n;
    assert s[..n] == Bytes(v);
  }

  /** Small numbers take one byte. */
  lemma OneByte(v: nat)
    requires v < 128
    ensures Bytes(v) == [v]
  {
  }
}
