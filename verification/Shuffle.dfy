/** Fair draws and shuffles. */
module Shuffling {
  // Draws without bias from an io.Reader, and the Fisher-Yates shuffle over them.

  import opened Octets

  // ---- the random source ----

  /** An io.Reader over some bytes; a read past their end fails. */
  class Reader {
    var rest: Bytes

    constructor (data: Bytes)
      ensures rest == data
    {
      rest := data;
    }

    method ReadFull(n: nat) returns (r: Option<Bytes>)
      modifies this
      ensures |old(rest)| < n ==> r.None?
      ensures |old(rest)| >= n ==> r == Some(old(rest)[..n]) && rest == old(rest)[n..]
    {
      if |rest| < n {
        r := None;
        rest := [];
      } else {
        r := Some(rest[..n]);
        rest := rest[n..];
      }
    }
  }

  /** The largest accepted draw: 2^64 - (2^64 mod m) - 1. */
  function Limit(m: nat): int
    requires 0 < m < TWO_64
  {
    TWO_64 - 1 - (((TWO_64 - 1) % m) + 1) % m
  }

  /** The first 8-byte draw at most the limit, reduced mod m, and what is left of the data. */
  function Draw(data: Bytes, m: nat): (d: Option<(nat, Bytes)>)
    requires 0 < m < TWO_64
    ensures d.Some? ==> d.value.0 < m && |d.value.1| < |data|
  {
    if |data| < 8 then None
    else if FromBe(data[..8]) <= Limit(m) then Some((FromBe(data[..8]) % m, data[8..]))
    else Draw(data[8..], m)
  }

  method Uniform(rand: Reader, m: nat) returns (r: Option<nat>)
    requires 0 < m < TWO_64
    modifies rand
    ensures Draw(old(rand.rest), m).None? ==> r.None?
    ensures Draw(old(rand.rest), m).Some? ==>
      r == Some(Draw(old(rand.rest), m).value.0) && rand.rest == Draw(old(rand.rest), m).value.1
  {
    var limit := TWO_64 - 1 - (((TWO_64 - 1) % m) + 1) % m;
    while true
      invariant Draw(rand.rest, m) == Draw(old(rand.rest), m)
      decreases |rand.rest|
    {
      var b := rand.ReadFull(8);
      if b.None? {
        return None;
      }
      var x := FromBe(b.value);
      if x <= limit {
        return Some(x % m);
      }
    }
  }

  /** The number of accepted draws is the largest multiple of m within 2^64. */
  lemma {:induction false} LimitValue(m: nat)
    requires 0 < m < TWO_64
    ensures Limit(m) + 1 == TWO_64 / m * m
    ensures TWO_64 / 2 < Limit(m) + 1 <= TWO_64
  {
    var q, r := (TWO_64 - 1) / m, (TWO_64 - 1) % m;
    assert TWO_64 == q * m + (r + 1);
    if r + 1 == m {
      assert TWO_64 == (q + 1) * m + 0;
      QuotientIs(TWO_64, m, q + 1, 0);
      QuotientIs(r + 1, m, 1, 0);
    } else {
      QuotientIs(TWO_64, m, q, r + 1);
      QuotientIs(r + 1, m, 0, r + 1);
    }
  }

  lemma {:induction false} MulAtLeast(d: nat, m: nat)
    requires d >= 1
    ensures d * m >= m
  {
    assert (d - 1) * m >= 0;
  }

  lemma {:induction false} SameQuotient(m: nat, a: int, r: nat, b: int, s: nat)
    requires r < m && s < m && a * m + r == b * m + s
    ensures a == b && r == s
  {
    if a > b {
      assert (a - b) * m == a * m - b * m;
      MulAtLeast(a - b, m);
    } else if a < b {
      assert (b - a) * m == b * m - a * m;
      MulAtLeast(b - a, m);
    }
  }

  lemma {:induction false} QuotientIs(n: nat, m: nat, q: nat, r: nat)
    requires r < m && n == q * m + r
    ensures n / m == q && n % m == r
  {
    SameQuotient(m, n / m, n % m, q, r);
  }

  function Hits(n: nat, m: nat, r: nat): set<nat>
    requires m > 0
  {
    set x: nat | x < n && x % m == r
  }

  lemma {:induction false} EveryResidueEquallyOften(k: nat, m: nat, r: nat)
    requires 0 < m && r < m
    ensures |Hits(k * m, m, r)| == k
  {
    if k == 0 {
      assert Hits(0, m, r) == {};
    } else {
      EveryResidueEquallyOften(k - 1, m, r);
      var x := (k - 1) * m + r;
      QuotientIs(x, m, k - 1, r);
      assert k * m == (k - 1) * m + m;
      forall y: nat | (k - 1) * m <= y < k * m && y % m == r ensures y == x {
        QuotientIs(y, m, k - 1, y - (k - 1) * m);
      }
      assert Hits(k * m, m, r) == Hits((k - 1) * m, m, r) + {x};
    }
  }

  /** Among the accepted draws every result is hit by the same number of them, and over half are accepted. */
  lemma {:induction false} UniformIsFair(m: nat, r: nat)
    requires 0 < m < TWO_64 && r < m
    ensures |Hits(Limit(m) + 1, m, r)| == TWO_64 / m
    ensures TWO_64 / 2 < Limit(m) + 1 <= TWO_64
  {
    LimitValue(m);
    EveryResidueEquallyOften(TWO_64 / m, m, r);
  }

  /** The k-th 8-byte block of the data, as a number. */
  function Block(data: Bytes, k: nat): nat
    requires 8 * k + 8 <= |data|
  {
    FromBe(data[8 * k..8 * k + 8])
  }

  /** A block is taken when it is below the largest multiple of m within 2^64. */
  predicate Taken(data: Bytes, k: nat, m: nat)
    requires m > 0 && 8 * k + 8 <= |data|
  {
    Block(data, k) < TWO_64 / m * m
  }

  /** A draw is the first block that is taken, modulo m; it uses up the data to the end of that block. */
  lemma {:induction false} DrawIsFirstTaken(data: Bytes, m: nat, k: nat)
    requires 0 < m < TWO_64 && 8 * k <= |data| && forall j | 0 <= j < k :: !Taken(data, j, m)
    ensures 8 * k + 8 <= |data| && Taken(data, k, m) ==> Draw(data, m) == Some((Block(data, k) % m, data[8 * k + 8..]))
    ensures |data| < 8 * k + 8 ==> Draw(data, m).None?
    decreases k
  {
    LimitValue(m);
    if k > 0 {
      assert !Taken(data, 0, m);
      assert data[8 * 0..8 * 0 + 8] == data[..8];
      var rest := data[8..];
      forall j | 0 <= j < k - 1 ensures !Taken(rest, j, m) {
        assert rest[8 * j..8 * j + 8] == data[8 * (j + 1)..8 * (j + 1) + 8];
        assert !Taken(data, j + 1, m);
      }
      DrawIsFirstTaken(rest, m, k - 1);
      if 8 * k + 8 <= |data| {
        assert rest[8 * (k - 1)..8 * (k - 1) + 8] == data[8 * k..8 * k + 8];
        assert rest[8 * (k - 1) + 8..] == data[8 * k + 8..];
      }
    } else if 8 <= |data| {
      assert data[8 * 0..8 * 0 + 8] == data[..8];
    }
  }

  // ---- the shuffle ----

  function Swap<T>(s: seq<T>, i: nat, j: nat): (t: seq<T>)
    requires i < |s| && j < |s|
    ensures |t| == |s|
  {
    s[i := s[j]][j := s[i]]
  }

  /** Fisher-Yates for positions i down to 1, drawing from data. */
  function Shuffled<T>(s: seq<T>, i: nat, data: Bytes): (r: Option<(seq<T>, Bytes)>)
    requires i < |s| < TWO_64
    ensures r.Some? ==> |r.value.0| == |s|
    decreases i
  {
    if i == 0 then Some((s, data))
    else
      match Draw(data, i + 1)
      case None => None
      case Some(d) => Shuffled(Swap(s, i, d.0), i - 1, d.1)
  }

  /** The draws for the positions 1 to n: ds[k] is the one for position k + 1, and is at most that. */
  predicate AreDraws(ds: seq<nat>)
  {
    forall k | 0 <= k < |ds| :: ds[k] <= k + 1
  }

  /** What the shuffle makes of s, from position |ds| down, when these are its draws. */
  function SwapDown<T>(s: seq<T>, ds: seq<nat>): (t: seq<T>)
    requires |ds| < |s| && AreDraws(ds)
    ensures |t| == |s|
    decreases |ds|
  {
    if ds == [] then s
    else
      var i := |ds|;
      SwapDown(Swap(s, i, ds[i - 1]), ds[..i - 1])
  }

  /** The draws that the data give for positions n down to 1, and what is left of the data. */
  function DrawAll(n: nat, data: Bytes): (r: Option<(seq<nat>, Bytes)>)
    requires n + 1 < TWO_64
    ensures r.Some? ==> |r.value.0| == n && AreDraws(r.value.0)
  {
    if n == 0 then Some(([], data))
    else
      match Draw(data, n + 1)
      case None => None
      case Some(d) =>
        match DrawAll(n - 1, d.1)
        case None => None
        case Some(more) => Some((more.0 + [d.0], more.1))
  }

  lemma {:induction false} ShuffleIsSwaps<T>(s: seq<T>, i: nat, data: Bytes)
    requires i < |s| && i + 1 < TWO_64 && |s| < TWO_64
    ensures Shuffled(s, i, data).Some? <==> DrawAll(i, data).Some?
    ensures DrawAll(i, data).Some? ==>
      var (ds, rest) := DrawAll(i, data).value; Shuffled(s, i, data) == Some((SwapDown(s, ds), rest))
    decreases i
  {
    if i > 0 && Draw(data, i + 1).Some? {
      var d := Draw(data, i + 1).value;
      ShuffleIsSwaps(Swap(s, i, d.0), i - 1, d.1);
      if DrawAll(i - 1, d.1).Some? {
        var more := DrawAll(i - 1, d.1).value.0;
        assert (more + [d.0])[..i - 1] == more;
      }
    }
  }

  predicate AllDifferent<T(==)>(s: seq<T>)
  {
    forall i, j | 0 <= i < j < |s| :: s[i] != s[j]
  }

  lemma {:induction false} SwapOfDifferent<T>(s: seq<T>, i: nat, j: nat)
    requires i < |s| && j < |s| && AllDifferent(s)
    ensures AllDifferent(Swap(s, i, j)) && multiset(Swap(s, i, j)) == multiset(s)
  {
    var t := Swap(s, i, j);
    var from := (k: nat) => if k == i then j else if k == j then i else k;
    assert forall k: nat | k < |s| :: t[k] == s[from(k)];
    forall a: nat, b: nat | a < b < |t| ensures t[a] != t[b] {
      assert from(a) != from(b);
    }
  }

  /** Positions above the first draw stay, and position |ds| takes the element that its draw names. */
  lemma {:induction false} DrawnElementStays<T>(s: seq<T>, ds: seq<nat>, k: nat)
    requires |ds| < |s| && AreDraws(ds) && |ds| <= k < |s|
    ensures SwapDown(s, ds)[k] == if k > |ds| || ds == [] then s[k] else s[ds[|ds| - 1]]
    decreases |ds|
  {
    if ds != [] {
      var i := |ds|;
      DrawnElementStays(Swap(s, i, ds[i - 1]), ds[..i - 1], k);
    }
  }

  /** t differs from s by a permutation of the positions 0 to n. */
  predicate Rearranges<T(==)>(s: seq<T>, t: seq<T>, n: nat)
  {
    |t| == |s| && multiset(t) == multiset(s) && forall k | n < k < |s| :: t[k] == s[k]
  }

  lemma {:induction false} SourceOf<T>(s: seq<T>, t: seq<T>, n: nat) returns (j: nat)
    requires n < |s| && AllDifferent(s) && Rearranges(s, t, n)
    ensures j <= n && s[j] == t[n]
    ensures AllDifferent(t)
  {
    PermutationIsDifferent(s, t);
    assert t[n] in multiset(t);
    assert t[n] in multiset(s);
    forall k | n < k < |s| ensures s[k] != t[n] { assert t[k] == s[k]; }
    j :| 0 <= j < |s| && s[j] == t[n];
  }

  lemma {:induction false} PermutationIsDifferent<T>(s: seq<T>, t: seq<T>)
    requires AllDifferent(s) && multiset(t) == multiset(s)
    ensures AllDifferent(t)
  {
    forall i, j | 0 <= i < j < |t| ensures t[i] != t[j] {
      if t[i] == t[j] {
        TwiceInMultiset(t, i, j);
        OnceInMultiset(s, t[i]);
      }
    }
  }

  lemma {:induction false} TwiceInMultiset<T>(t: seq<T>, i: nat, j: nat)
    requires i < j < |t| && t[i] == t[j]
    ensures multiset(t)[t[i]] >= 2
  {
    assert t == t[..j] + t[j..];
    assert t[i] in multiset(t[..j]) by { assert t[..j][i] == t[i]; }
    assert t[j] in multiset(t[j..]) by { assert t[j..][0] == t[j]; }
  }

  lemma {:induction false} OnceInMultiset<T>(s: seq<T>, x: T)
    requires AllDifferent(s)
    ensures multiset(s)[x] <= 1
    decreases |s|
  {
    if s != [] {
      var n := |s| - 1;
      OnceInMultiset(s[..n], x);
      assert s == s[..n] + [s[n]];
      if x == s[n] { assert forall i | 0 <= i < n :: s[..n][i] != x; }
    }
  }

  /** Below position n, every arrangement of different elements comes from exactly one list of draws. */
  lemma {:induction false} DrawsOf<T>(s: seq<T>, t: seq<T>, n: nat) returns (ds: seq<nat>)
    requires n < |s| && AllDifferent(s) && Rearranges(s, t, n)
    ensures |ds| == n && AreDraws(ds) && SwapDown(s, ds) == t
    ensures forall es: seq<nat> | |es| == n && AreDraws(es) && SwapDown(s, es) == t :: es == ds
    decreases n
  {
    if n == 0 {
      ds := [];
      NothingMoved(s, t);
    } else {
      var j := SourceOf(s, t, n);
      var u := Swap(s, n, j);
      SwapOfDifferent(s, n, j);
      var rest := DrawsOf(u, t, n - 1);
      ds := rest + [j];
      assert ds[..n - 1] == rest;
      forall es: seq<nat> | |es| == n && AreDraws(es) && SwapDown(s, es) == t ensures es == ds {
        DrawnElementStays(s, es, n);
        assert s[es[n - 1]] == s[j];
        assert es == es[..n - 1] + [es[n - 1]];
      }
    }
  }

  lemma {:induction false} NothingMoved<T>(s: seq<T>, t: seq<T>)
    requires s != [] && Rearranges(s, t, 0)
    ensures s == t
  {
    var rest := s[1..];
    assert s == [s[0]] + rest && t == [t[0]] + rest;
    SameRest([s[0]], [t[0]], rest);
    assert t[0] in multiset([s[0]]) by { assert t[0] in multiset([t[0]]); }
  }

  lemma {:induction false} SameRest<T>(a: seq<T>, b: seq<T>, rest: seq<T>)
    requires multiset(a + rest) == multiset(b + rest)
    ensures multiset(a) == multiset(b)
  {
    assert multiset(a) == multiset(a + rest) - multiset(rest);
    assert multiset(b) == multiset(b + rest) - multiset(rest);
  }

  /**
   The shuffle is fair: each of the orders of different elements comes from exactly one list of draws. As every draw
   for position i takes each of its i + 1 values for equally many blocks, all orders are equally likely.
   */
  lemma {:induction false} EveryOrderOnce<T>(s: seq<T>, t: seq<T>) returns (ds: seq<nat>)
    requires s != [] && AllDifferent(s) && multiset(t) == multiset(s)
    ensures |ds| == |s| - 1 && AreDraws(ds) && SwapDown(s, ds) == t
    ensures forall es: seq<nat> | |es| == |s| - 1 && AreDraws(es) && SwapDown(s, es) == t :: es == ds
  {
    assert |t| == |multiset(t)| == |multiset(s)| == |s|;
    ds := DrawsOf(s, t, |s| - 1);
  }

  /** t holds the elements of s at the positions ps. */
  predicate Picks<T(==)>(s: seq<T>, ps: seq<nat>, t: seq<T>)
  {
    |t| == |ps| && forall k | 0 <= k < |ps| :: ps[k] < |s| && t[k] == s[ps[k]]
  }

  /** Where each element goes depends on the draws alone: s is moved as the list of its positions is. */
  lemma {:induction false} MovedLikePositions<T>(s: seq<T>, ps: seq<nat>, ds: seq<nat>, t: seq<T>)
    requires |ds| < |ps| && AreDraws(ds) && Picks(s, ps, t)
    ensures Picks(s, SwapDown(ps, ds), SwapDown(t, ds))
    decreases |ds|
  {
    if ds != [] {
      var i := |ds|;
      MovedLikePositions(s, Swap(ps, i, ds[i - 1]), ds[..i - 1], Swap(t, i, ds[i - 1]));
    }
  }
}
