/** Bytes, big-endian integers and CBOR heads: the small vocabulary every wire format here shares. */
module Octets {
  type byte = x: int | 0 <= x < 256
  type Bytes = seq<byte>

  const TWO_64: nat := 0x1_0000_0000_0000_0000

  type u64 = x: int | 0 <= x < TWO_64

  /** A Go string or byte slice: its length fits an int. */
  type Text = s: Bytes | |s| < 0x8000_0000_0000_0000

  datatype Option<+T> = None | Some(value: T)
  datatype Result<+T, +E> = Ok(value: T) | Err(error: E)

  /** The bytes of an ASCII literal. */
  function Ascii(s: string): (b: Bytes)
    ensures |b| == |s|
  {
    seq(|s|, i requires 0 <= i < |s| => s[i] as int % 256)
  }

  function Min(a: int, b: int): int { if a < b then a else b }

  function Pow2(k: nat): (p: nat)
    ensures p > 0
  {
    if k == 0 then 1 else 2 * Pow2(k - 1)
  }

  lemma {:induction false} Pow2Grows(a: nat, b: nat)
    requires a <= b
    ensures Pow2(a) <= Pow2(b) && (a < b ==> 2 * Pow2(a) <= Pow2(b))
    decreases b - a
  {
    if a < b { Pow2Grows(a, b - 1); }
  }

  lemma {:induction false} Pow2Add(j: nat, k: nat)
    ensures Pow2(j + k) == Pow2(j) * Pow2(k)
    decreases k
  {
    if k > 0 { Pow2Add(j, k - 1); }
  }

  function Pow256(k: nat): (p: nat)
    ensures p > 0
  {
    if k == 0 then 1 else 256 * Pow256(k - 1)
  }

  /** The k low-order bytes of n, most significant first. */
  function Be(n: nat, k: nat): (s: Bytes)
    ensures |s| == k
    decreases k
  {
    if k == 0 then [] else Be(n / 256, k - 1) + [n % 256]
  }

  function FromBe(s: Bytes): nat
  {
    if s == [] then 0 else FromBe(s[..|s| - 1]) * 256 + s[|s| - 1]
  }

  lemma {:induction false} FromBeBe(n: nat, k: nat)
    requires n < Pow256(k)
    ensures FromBe(Be(n, k)) == n
    decreases k
  {
    if k > 0 {
      FromBeBe(n / 256, k - 1);
      assert Be(n, k)[..k - 1] == Be(n / 256, k - 1);
    }
  }

  /** The first byte weighs most. */
  lemma {:induction false} FirstByteWeighsMost(b: byte, s: Bytes)
    ensures FromBe([b] + s) == b * Pow256(|s|) + FromBe(s)
  {
    if s == [] {
      assert FromBe([b]) == FromBe([]) * 256 + b;
    } else {
      var t := s[..|s| - 1];
      FirstByteWeighsMost(b, t);
      assert ([b] + s)[..|s|] == [b] + t;
      assert (b * Pow256(|t|)) * 256 == b * (256 * Pow256(|t|));
    }
  }

  lemma {:induction false} FromBeBound(s: Bytes)
    ensures FromBe(s) < Pow256(|s|)
  {
    if s != [] { FromBeBound(s[..|s| - 1]); }
  }

  lemma {:induction false} Pow256Values()
    ensures Pow256(1) == 0x100 && Pow256(2) == 0x1_0000 && Pow256(4) == 0x1_0000_0000 && Pow256(8) == TWO_64
  {
    assert Pow256(2) == 256 * Pow256(1);
    assert Pow256(4) == 256 * 256 * Pow256(2);
    assert Pow256(6) == 256 * 256 * Pow256(4);
    assert Pow256(8) == 256 * 256 * Pow256(6);
  }

  lemma {:induction false} BeInjective(a: u64, b: u64)
    requires Be(a, 8) == Be(b, 8)
    ensures a == b
  {
    Pow256Values();
    FromBeBe(a, 8);
    FromBeBe(b, 8);
  }

  // ---- sequences ----

  lemma {:induction false} AppendCancel<T>(a: seq<T>, x: seq<T>, b: seq<T>, y: seq<T>)
    requires a + x == b + y && |a| == |b|
    ensures a == b && x == y
  {
    assert a == (a + x)[..|a|] && b == (b + y)[..|b|];
    assert x == (a + x)[|a|..] && y == (b + y)[|b|..];
  }

  /** The bytes of b from off on begin with s. */
  predicate At(b: Bytes, off: nat, s: Bytes)
  {
    off + |s| <= |b| && b[off..off + |s|] == s
  }

  lemma {:induction false} AtSplit(b: Bytes, off: nat, s: Bytes, t: Bytes)
    requires At(b, off, s + t)
    ensures At(b, off, s) && At(b, off + |s|, t)
  {
    assert b[off..off + |s + t|] == s + t;
    assert b[off..off + |s|] == b[off..off + |s + t|][..|s|] == s;
    assert b[off + |s|..off + |s + t|] == b[off..off + |s + t|][|s|..] == t;
  }

  // ---- CBOR heads (RFC 8949 section 3, shortest form) ----

  /** How many argument bytes follow the initial byte of a shortest-form head. */
  function ArgBytes(n: u64): nat
  {
    if n < 24 then 0 else if n <= 0xff then 1 else if n <= 0xffff then 2 else if n <= 0xffff_ffff then 4 else 8
  }

  function Info(n: u64): (ai: byte)
    ensures ai < 28
  {
    if n < 24 then n else if n <= 0xff then 24 else if n <= 0xffff then 25 else if n <= 0xffff_ffff then 26 else 27
  }

  /** The initial byte and argument of an item of major type `major` with argument n. */
  function CborHead(major: nat, n: u64): (s: Bytes)
    requires major < 8
    ensures |s| == 1 + ArgBytes(n) && s[0] == 32 * major + Info(n)
  {
    [32 * major + Info(n)] + Be(n, ArgBytes(n))
  }

  /** Heads are prefix-free, so what follows one is determined too. */
  lemma {:induction false} CborHeadCancel(major: nat, n: u64, x: Bytes, m: u64, y: Bytes)
    requires major < 8
    requires CborHead(major, n) + x == CborHead(major, m) + y
    ensures n == m && x == y
  {
    var s := CborHead(major, n) + x;
    assert s[0] == 32 * major + Info(n) && s[0] == 32 * major + Info(m);
    assert ArgBytes(n) == ArgBytes(m);
    AppendCancel(CborHead(major, n), x, CborHead(major, m), y);
    var k := ArgBytes(n);
    assert Be(n, k) == CborHead(major, n)[1..] == CborHead(major, m)[1..] == Be(m, k);
    Pow256Values();
    if k > 0 {
      FromBeBe(n, k);
      FromBeBe(m, k);
    }
  }
}
