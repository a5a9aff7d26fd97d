/** Padmé rounding and pad lengths. */
module Padding {
  import opened Octets

  const MAX_INT: int := 0x7fff_ffff_ffff_ffff

  type Int = n: int | -0x8000_0000_0000_0000 <= n <= MAX_INT

  /** The number of bits of n; 0 has none. */
  function BitLen(n: nat): nat
  {
    if n == 0 then 0 else 1 + BitLen(n / 2)
  }

  /** n has its top bit at BitLen(n) - 1. */
  lemma {:induction false} BitLenBounds(n: nat)
    requires n > 0
    ensures BitLen(n) > 0 && Pow2(BitLen(n) - 1) <= n < Pow2(BitLen(n))
  {
    if n > 1 { BitLenBounds(n / 2); }
  }

  lemma {:induction false} BitLenIs(n: nat, k: nat)
    requires Pow2(k) <= n < Pow2(k + 1)
    ensures BitLen(n) == k + 1
  {
    BitLenBounds(n);
    if BitLen(n) - 1 < k { Pow2Grows(BitLen(n), k); }
    if k < BitLen(n) - 1 { Pow2Grows(k + 1, BitLen(n) - 1); }
  }

  lemma {:induction false} BitLenSmaller(n: nat)
    requires n > 0
    ensures BitLen(n) <= n
  {
    if n > 1 { BitLenSmaller(n / 2); }
  }

  /** x with its k low bits cleared. */
  function ClearLow(x: nat, k: nat): nat
    decreases k
  {
    if k == 0 then x else 2 * ClearLow(x / 2, k - 1)
  }

  /** The k low bits of x are zero. */
  predicate LowZero(x: nat, k: nat)
    decreases k
  {
    k == 0 || (x % 2 == 0 && LowZero(x / 2, k - 1))
  }

  /** How many low bits Padmé clears in the octave from 2^e: e, less the bits that number itself takes. */
  function Low(e: nat): nat
    requires e >= 1
  {
    BitLenSmaller(e);
    e - BitLen(e)
  }

  function LowBits(n: nat): nat
    requires n >= 2
  {
    BitLenAtLeast2(n);
    Low(BitLen(n) - 1)
  }

  lemma {:induction false} BitLenAtLeast2(n: nat)
    requires n >= 2
    ensures BitLen(n) >= 2
  {
    assert BitLen(n / 2) >= 1;
  }

  function Padme(n: Int): (p: Int)
  {
    if n < 2 then n
    else
      var mask := Pow2(LowBits(n)) - 1;
      if n > MAX_INT - mask then n
      else ClearLowBounds(n + mask, LowBits(n)); ClearLow(n + mask, LowBits(n))
  }

  // ---- rounding up ----

  lemma {:induction false} ClearLowBounds(x: nat, k: nat)
    ensures ClearLow(x, k) <= x < ClearLow(x, k) + Pow2(k) && LowZero(ClearLow(x, k), k)
    decreases k
  {
    if k > 0 { ClearLowBounds(x / 2, k - 1); }
  }

  lemma {:induction false} LowZeroApart(a: nat, b: nat, k: nat)
    requires LowZero(a, k) && LowZero(b, k) && a < b
    ensures a + Pow2(k) <= b
    decreases k
  {
    if k > 0 { LowZeroApart(a / 2, b / 2, k - 1); }
  }

  lemma {:induction false} RoundUp(n: nat, k: nat)
    ensures var r := ClearLow(n + Pow2(k) - 1, k); n <= r < n + Pow2(k) && LowZero(r, k)
  {
    ClearLowBounds(n + Pow2(k) - 1, k);
  }

  /** Rounding up gives the least large enough number whose low bits are zero. */
  lemma {:induction false} RoundUpLeast(n: nat, k: nat, q: nat)
    requires n <= q && LowZero(q, k)
    ensures ClearLow(n + Pow2(k) - 1, k) <= q
  {
    RoundUp(n, k);
    var r := ClearLow(n + Pow2(k) - 1, k);
    if q < r { LowZeroApart(q, r, k); }
  }

  lemma {:induction false} Pow2LowZero(a: nat, b: nat)
    requires a <= b
    ensures LowZero(Pow2(b), a)
    decreases a
  {
    if a > 0 { Pow2LowZero(a - 1, b - 1); }
  }

  lemma {:induction false} LowZeroMinus(x: nat, k: nat)
    requires LowZero(x, k) && x >= Pow2(k)
    ensures LowZero(x - Pow2(k), k)
    decreases k
  {
    if k > 0 { LowZeroMinus(x / 2, k - 1); }
  }

  // ---- Padmé ----

  /** n lies in the octave [2^e, 2^(e+1)). */
  predicate InOctave(n: int, e: nat)
  {
    Pow2(e) <= n < 2 * Pow2(e)
  }

  lemma {:induction false} Octave(n: nat) returns (e: nat)
    requires n >= 2
    ensures e >= 1 && InOctave(n, e) && LowBits(n) == Low(e) && BitLen(n) == e + 1
  {
    BitLenBounds(n);
    BitLenAtLeast2(n);
    e := BitLen(n) - 1;
  }

  lemma {:induction false} LowBitsOf(n: nat, e: nat)
    requires e >= 1 && InOctave(n, e)
    ensures n >= 2 && LowBits(n) == Low(e)
  {
    Pow2Grows(1, e);
    BitLenIs(n, e);
    BitLenSmaller(e);
  }

  lemma {:induction false} MaxIntIsTop(e: nat)
    requires Pow2(e) <= MAX_INT
    ensures e <= 62 && 2 * Pow2(e) <= MAX_INT + 1
    ensures Pow2(63) == MAX_INT + 1
  {
    Pow2Of63();
    if e >= 63 { Pow2Grows(63, e); }
    Pow2Grows(e + 1, 63);
  }

  lemma {:induction false} Pow2Of63()
    ensures Pow2(63) == MAX_INT + 1
  {
    assert Pow2(3) == 8;
    assert Pow2(7) == 16 * Pow2(3) by { assert Pow2(5) == 4 * Pow2(3); }
    Pow2Add(7, 8);
    assert Pow2(8) == 256 by { assert Pow2(8) == 2 * Pow2(7); }
    Pow2Add(15, 16);
    assert Pow2(16) == 2 * Pow2(15);
    Pow2Add(31, 32);
    assert Pow2(32) == 2 * Pow2(31);
  }

  /** What Padme returns in its rounding branch, and when it takes the other one. */
  lemma {:induction false} PadmeInOctave(n: Int, e: nat)
    requires e >= 1 && InOctave(n, e)
    ensures var u := Pow2(Low(e));
      && n <= Padme(n) <= 2 * Pow2(e) && Padme(n) < n + u
      && (if n > MAX_INT - (u - 1) then Padme(n) == n
          else Padme(n) == ClearLow(n + u - 1, Low(e)) && LowZero(Padme(n), Low(e)))
  {
    LowBitsOf(n, e);
    var k := Low(e);
    Pow2LowZero(k, e + 1);
    if n <= MAX_INT - (Pow2(k) - 1) {
      RoundUp(n, k);
      RoundUpLeast(n, k, 2 * Pow2(e));
    }
  }

  /** Nothing with the low bits of n's octave clear lies between n and Padme(n). */
  lemma {:induction false} PadmeLeast(n: Int, e: nat, q: nat)
    requires e >= 1 && InOctave(n, e) && n <= q && LowZero(q, Low(e))
    ensures Padme(n) <= q
  {
    PadmeInOctave(n, e);
    if n <= MAX_INT - (Pow2(Low(e)) - 1) { RoundUpLeast(n, Low(e), q); }
  }

  /** The padded length is at least n, and the overhead is below an eighth of it. */
  lemma {:induction false} PadmeOverhead(n: Int)
    requires n >= 1
    ensures n <= Padme(n) && 8 * (Padme(n) - n) < n
  {
    if n >= 2 {
      var e := Octave(n);
      PadmeInOctave(n, e);
      UnitIsSmall(e);
      var u := Pow2(Low(e));
      if Padme(n) != n && e <= 3 {
        assert u <= 2;
        assert Padme(n) == n + 1;
        assert e == 3 && u == 2;
        assert Pow2(3) == 8;
        assert n % 2 == 1;
      }
    }
  }

  lemma {:induction false} UnitIsSmall(e: nat)
    requires e >= 1
    ensures e <= 2 ==> Pow2(Low(e)) == 1
    ensures e == 3 ==> Pow2(Low(e)) == 2
    ensures e >= 4 ==> 8 * Pow2(Low(e)) <= Pow2(e)
  {
    BitLenSmaller(e);
    assert BitLen(1) == 1 && BitLen(2) == 2 && BitLen(3) == 2;
    if e >= 4 {
      assert BitLen(e / 2 / 2) >= 1;
      var s := BitLen(e);
      Pow2Grows(e - s, e - 3);
      assert Pow2(e) == 2 * Pow2(e - 1) && Pow2(e - 1) == 2 * Pow2(e - 2) && Pow2(e - 2) == 2 * Pow2(e - 3);
    }
  }

  lemma {:induction false} PowerIsFixed(e: nat)
    requires e >= 1 && Pow2(e) <= MAX_INT
    ensures Padme(Pow2(e)) == Pow2(e)
  {
    var n := Pow2(e);
    PadmeInOctave(n, e);
    Pow2LowZero(Low(e), e);
    PadmeLeast(n, e, n);
  }

  lemma {:induction false} PadmeIdempotent(n: Int)
    ensures Padme(Padme(n)) == Padme(n)
  {
    if n >= 2 {
      var e := Octave(n);
      PadmeInOctave(n, e);
      var p := Padme(n);
      if p < 2 * Pow2(e) {
        PadmeInOctave(p, e);
        if p != n { PadmeLeast(p, e, p); }
      } else {
        PowerIsFixed(e + 1);
      }
    }
  }

  lemma {:induction false} PadmeMonotone(n: Int, m: Int)
    requires n <= m
    ensures Padme(n) <= Padme(m)
  {
    if m >= 2 {
      var f := Octave(m);
      PadmeInOctave(m, f);
      if n >= 2 {
        var e := Octave(n);
        PadmeInOctave(n, e);
        if e < f {
          Pow2Grows(e, f);
        } else {
          if f < e { Pow2Grows(f, e); }
          SameOctave(n, m, e);
        }
      }
    }
  }

  /** In the top octave the guard returns large lengths as they are; rounding still stops below them. */
  lemma {:induction false} SameOctave(n: Int, m: Int, e: nat)
    requires e >= 1 && n <= m && InOctave(n, e) && InOctave(m, e)
    ensures Padme(n) <= Padme(m)
  {
    PadmeInOctave(n, e);
    PadmeInOctave(m, e);
    var top := MAX_INT + 1 - Pow2(Low(e));
    if n <= top < m {
      TopIsClear(e);
      PadmeLeast(n, e, top);
    } else if m <= top {
      PadmeLeast(n, e, Padme(m));
    }
  }

  lemma {:induction false} TopIsClear(e: nat)
    requires e >= 1 && Pow2(e) <= MAX_INT
    ensures Pow2(Low(e)) <= MAX_INT + 1 && LowZero(MAX_INT + 1 - Pow2(Low(e)), Low(e))
  {
    MaxIntIsTop(e);
    Pow2LowZero(Low(e), 63);
    Pow2Grows(Low(e), 63);
    LowZeroMinus(Pow2(63), Low(e));
  }

  /**
   What Padmé is: the least length that holds n and has all the low bits clear that n's octave gives up. Only within
   one unit of the largest int is n returned as it is.
   */
  lemma {:induction false} PadmeExactly(n: Int, e: nat)
    requires e >= 1 && InOctave(n, e)
    ensures var u := Pow2(Low(e));
      if n > MAX_INT + 1 - u then Padme(n) == n
      else n <= Padme(n) < n + u && LowZero(Padme(n), Low(e))
    ensures forall q: nat | n <= q < Padme(n) :: !LowZero(q, Low(e))
  {
    PadmeInOctave(n, e);
    forall q: nat | n <= q < Padme(n) ensures !LowZero(q, Low(e)) {
      if LowZero(q, Low(e)) { PadmeLeast(n, e, q); }
    }
  }

  /** Padmé lengths are the fixed points, and n is padded to the least of them that holds it. */
  lemma {:induction false} PadmeIsLeastFixedPoint(n: Int, q: Int)
    requires n <= q && Padme(q) == q
    ensures Padme(n) <= q
  {
    PadmeMonotone(n, q);
  }

  // ---- pad lengths of a byte string ----

  function CborHeadLen(n: nat): (h: nat)
  {
    if n < 24 then 1 else if n <= 0xff then 2 else if n <= 0xffff then 3 else if n <= 0xffff_ffff then 5 else 9
  }

  /** How much longer the encoding of n bytes is than that of none. */
  function Growth(n: nat): nat
  {
    n + CborHeadLen(n) - 1
  }

  const UNREACHABLE: set<int> :=
    {24, 257, 65538, 65539, 0x1_0000_0004, 0x1_0000_0005, 0x1_0000_0006, 0x1_0000_0007}

  method PadLenFor(d: int) returns (r: Option<nat>)
    ensures r.Some? ==> Growth(r.value) == d
    ensures r.None? <==> d < 0 || d in UNREACHABLE
  {
    if d < 0 {
      return None;
    }
    var heads := [1, 2, 3, 5, 9];
    for i := 0 to |heads|
      invariant forall j | 0 <= j < i :: !(d >= heads[j] - 1 && CborHeadLen(d - (heads[j] - 1)) == heads[j])
    {
      var n := d - (heads[i] - 1);
      if n >= 0 && CborHeadLen(n) == heads[i] {
        return Some(n);
      }
    }
    assert heads[0] == 1 && heads[1] == 2 && heads[2] == 3 && heads[3] == 5 && heads[4] == 9;
    r := None;
  }

  /** The reachable growths are exactly those outside UNREACHABLE, each from one length. */
  lemma {:induction false} ReachableExactly(d: nat)
    ensures d !in UNREACHABLE <==> exists n: nat :: Growth(n) == d
    ensures forall n: nat, m: nat | Growth(n) == d && Growth(m) == d :: n == m
  {
    if d !in UNREACHABLE {
      var n :=
        if d < 24 then d else if d <= 0x100 then d - 1 else if d <= 0x1_0001 then d - 2
        else if d <= 0x1_0000_0003 then d - 4 else d - 8;
      assert Growth(n) == d;
    }
  }
}
