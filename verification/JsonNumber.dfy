/** JSON numbers: the grammar of RFC 8259 section 6, and the layout of ECMAScript Number::toString. */
module JsonNumbers {
  import opened Octets
  import opened JsonText

  /** (-1)^neg * m * 10^e. */
  datatype Dec = Dec(neg: bool, m: nat, e: int)

  /** No trailing zero in m; zero has exponent 0. Every value has one normal form for each sign. */
  predicate Normal(d: Dec)
  {
    if d.m == 0 then d.e == 0 else d.m % 10 != 0
  }

  function Normalize(neg: bool, m: nat, e: int): (d: Dec)
    ensures Normal(d) && d.neg == neg
    decreases m
  {
    if m == 0 then Dec(neg, 0, 0)
    else if m % 10 == 0 then Normalize(neg, m / 10, e + 1)
    else Dec(neg, m, e)
  }

  predicate IsDigit(b: byte) { 0x30 <= b <= 0x39 }

  predicate AllDigits(s: Bytes) { forall i | 0 <= i < |s| :: IsDigit(s[i]) }

  function NatOf(ds: Bytes): nat
    requires AllDigits(ds)
  {
    if ds == [] then 0 else NatOf(ds[..|ds| - 1]) * 10 + (ds[|ds| - 1] - 0x30)
  }

  /** m in decimal, no leading zero. */
  function Digits(m: nat): (s: Bytes)
    ensures s != [] && AllDigits(s) && (s[0] == 0x30 ==> m == 0 && |s| == 1)
  {
    if m < 10 then [0x30 + m] else Digits(m / 10) + [0x30 + m % 10]
  }

  lemma {:induction false} ValueOfDigits(m: nat)
    ensures NatOf(Digits(m)) == m
    decreases m
  {
    if m >= 10 {
      ValueOfDigits(m / 10);
      assert Digits(m)[..|Digits(m)| - 1] == Digits(m / 10);
    } else {
      assert Digits(m)[..0] == [];
    }
  }

  function Zeros(n: nat): (s: Bytes)
    ensures |s| == n && AllDigits(s)
    decreases n
  {
    if n == 0 then [] else Zeros(n - 1) + [0x30]
  }

  /** Zeros in front of digits do not change their value. */
  lemma {:induction false} LeadingZeros(n: nat, ds: Bytes)
    requires AllDigits(ds)
    ensures AllDigits(Zeros(n) + ds) && NatOf(Zeros(n) + ds) == NatOf(ds)
    decreases n + |ds|
  {
    var s := Zeros(n) + ds;
    if ds != [] {
      LeadingZeros(n, ds[..|ds| - 1]);
      assert s[..|s| - 1] == Zeros(n) + ds[..|ds| - 1];
    } else {
      assert s == Zeros(n);
      if n > 0 {
        LeadingZeros(n - 1, []);
        assert s[..n - 1] == Zeros(n - 1) == Zeros(n - 1) + [];
      }
    }
  }

  /** Zeros behind digits move the decimal point. */
  lemma {:induction false} TrailingZeros(neg: bool, ds: Bytes, n: nat, e: int)
    requires AllDigits(ds)
    ensures AllDigits(ds + Zeros(n)) && Normalize(neg, NatOf(ds + Zeros(n)), e) == Normalize(neg, NatOf(ds), e + n)
    decreases n
  {
    var s := ds + Zeros(n);
    if n > 0 {
      assert s[..|s| - 1] == ds + Zeros(n - 1);
      TrailingZeros(neg, ds, n - 1, e + 1);
      assert NatOf(s) == NatOf(ds + Zeros(n - 1)) * 10;
    } else {
      assert s == ds;
    }
  }

  // ---- the grammar ----

  function DigitsEnd(data: Bytes, pos: nat): (end: nat)
    requires pos <= |data|
    ensures pos <= end <= |data| && AllDigits(data[pos..end]) && (end < |data| ==> !IsDigit(data[end]))
    decreases |data| - pos
  {
    if pos < |data| && IsDigit(data[pos]) then DigitsEnd(data, pos + 1) else pos
  }

  /** The four parts of a number token. */
  datatype Token = Token(neg: bool, ints: Bytes, frac: Bytes, expNeg: bool, exp: Bytes)

  predicate TokenOk(t: Token) { AllDigits(t.ints) && AllDigits(t.frac) && AllDigits(t.exp) }

  function Exponent(t: Token): int
    requires TokenOk(t)
  {
    if t.expNeg then 0 - NatOf(t.exp) else NatOf(t.exp)
  }

  /** The exact decimal value of a token. */
  function TokenValue(t: Token): Dec
    requires TokenOk(t)
  {
    assert AllDigits(t.ints + t.frac);
    Normalize(t.neg, NatOf(t.ints + t.frac), Exponent(t) - |t.frac|)
  }

  function ExponentAt(data: Bytes, pos: nat, t: Token): (r: Result<Parsed<Token>, What>)
    requires pos <= |data| && TokenOk(t) && t.exp == []
    ensures r.Ok? ==> pos <= r.value.next <= |data| && TokenOk(r.value.v)
  {
    if pos < |data| && (data[pos] == 0x65 || data[pos] == 0x45) then
      var signed := pos + 1 < |data| && (data[pos + 1] == PLUS || data[pos + 1] == MINUS);
      var start := if signed then pos + 2 else pos + 1;
      var end := DigitsEnd(data, start);
      if end == start then Err(InvalidExponent)
      else Ok(Parsed(t.(expNeg := signed && data[pos + 1] == MINUS, exp := data[start..end]), end))
    else Ok(Parsed(t, pos))
  }

  function FractionAt(data: Bytes, pos: nat, t: Token): (r: Result<Parsed<Token>, What>)
    requires pos <= |data| && TokenOk(t) && t.exp == [] && t.frac == []
    ensures r.Ok? ==> pos <= r.value.next <= |data| && TokenOk(r.value.v)
  {
    if pos < |data| && data[pos] == DOT then
      var end := DigitsEnd(data, pos + 1);
      if end == pos + 1 then Err(InvalidFraction)
      else ExponentAt(data, end, t.(frac := data[pos + 1..end]))
    else ExponentAt(data, pos, t)
  }

  /** The sign and the integer part at pos; a leading zero stands alone. */
  function IntsAt(data: Bytes, pos: nat): (r: Result<Parsed<Token>, What>)
    requires pos < |data|
    ensures r.Ok? ==> pos < r.value.next <= |data| && TokenOk(r.value.v) && r.value.v.frac == r.value.v.exp == []
  {
    var neg := data[pos] == MINUS;
    var start := if neg then pos + 1 else pos;
    if start < |data| && data[start] == ZERO then
      Ok(Parsed(Token(neg, data[start..start + 1], [], false, []), start + 1))
    else if start < |data| && IsDigit(data[start]) then
      var end := DigitsEnd(data, start);
      Ok(Parsed(Token(neg, data[start..end], [], false, []), end))
    else Err(InvalidNumber)
  }

  /** The number token at pos. */
  function NumberAt(data: Bytes, pos: nat): (r: Result<Parsed<Token>, What>)
    requires pos < |data|
    ensures r.Ok? ==> pos < r.value.next <= |data| && TokenOk(r.value.v)
  {
    match IntsAt(data, pos)
    case Err(e) => Err(e)
    case Ok(p) => FractionAt(data, p.next, p.v)
  }

  // ---- the layout ----

  function Sign(neg: bool): Bytes { if neg then [MINUS] else [] }

  /** A token as text; the fraction and the exponent appear when they have digits. */
  function Render(t: Token): Bytes
  {
    Sign(t.neg) + (t.ints + (RenderFraction(t) + RenderExponent(t)))
  }

  function RenderFraction(t: Token): Bytes { if t.frac == [] then [] else [DOT] + t.frac }

  function RenderExponent(t: Token): Bytes
  {
    if t.exp == [] then [] else [LETTER_E, if t.expNeg then MINUS else PLUS] + t.exp
  }

  /** Decimal notation for 1e-6 <= |f| < 1e21, exponent notation otherwise; negative zero prints as zero. */
  function Layout(f: Dec): (t: Token)
    ensures TokenOk(t)
  {
    if f.m == 0 then Token(false, [ZERO], [], false, [])
    else
      var ds := Digits(f.m);
      var k := |ds|;
      var n := f.e + k;
      if k <= n <= 21 then Token(f.neg, ds + Zeros(n - k), [], false, [])
      else if 0 < n <= 21 then Token(f.neg, ds[..n], ds[n..], false, [])
      else if -6 < n <= 0 then Token(f.neg, [ZERO], Zeros(-n) + ds, false, [])
      else
        var abs := if n - 1 < 0 then -(n - 1) else n - 1;
        Token(f.neg, ds[..1], ds[1..], n - 1 < 0, Digits(abs))
  }

  function FormatNumber(f: Dec): Bytes { Render(Layout(f)) }

  lemma {:induction false} WholeDenotes(neg: bool, ds: Bytes, j: nat)
    requires AllDigits(ds)
    ensures TokenValue(Token(neg, ds + Zeros(j), [], false, [])) == Normalize(neg, NatOf(ds), j)
  {
    assert (ds + Zeros(j)) + [] == ds + Zeros(j);
    TrailingZeros(neg, ds, j, 0);
  }

  lemma {:induction false} PointDenotes(neg: bool, ds: Bytes, n: nat, expNeg: bool, exp: Bytes)
    requires AllDigits(ds) && n <= |ds| && AllDigits(exp)
    ensures var t := Token(neg, ds[..n], ds[n..], expNeg, exp);
      TokenOk(t) && TokenValue(t) == Normalize(neg, NatOf(ds), Exponent(t) - (|ds| - n))
  {
    assert ds[..n] + ds[n..] == ds;
  }

  lemma {:induction false} SmallDenotes(neg: bool, ds: Bytes, j: nat)
    requires AllDigits(ds)
    ensures TokenValue(Token(neg, [ZERO], Zeros(j) + ds, false, [])) == Normalize(neg, NatOf(ds), 0 - j - |ds|)
  {
    ZerosFront(j);
    assert [ZERO] + (Zeros(j) + ds) == Zeros(j + 1) + ds;
    LeadingZeros(j + 1, ds);
  }

  lemma {:induction false} ZeroDenotes()
    ensures TokenValue(Token(false, [ZERO], [], false, [])) == Dec(false, 0, 0)
  {
    assert [ZERO] + [] == [ZERO];
    assert [ZERO][..0] == [];
  }

  /** The number of digits before the point in f's notation. */
  function Point(f: Dec): int { f.e + |Digits(f.m)| }

  lemma {:induction false} WholeLayout(f: Dec)
    requires Normal(f) && f.m != 0 && |Digits(f.m)| <= Point(f) <= 21
    ensures TokenValue(Layout(f)) == f
  {
    ValueOfDigits(f.m);
    WholeDenotes(f.neg, Digits(f.m), f.e);
  }

  lemma {:induction false} PointLayout(f: Dec)
    requires Normal(f) && f.m != 0 && 0 < Point(f) <= 21 && Point(f) < |Digits(f.m)|
    ensures TokenValue(Layout(f)) == f
  {
    ValueOfDigits(f.m);
    PointDenotes(f.neg, Digits(f.m), Point(f), false, []);
  }

  lemma {:induction false} SmallLayout(f: Dec)
    requires Normal(f) && f.m != 0 && -6 < Point(f) <= 0
    ensures TokenValue(Layout(f)) == f
  {
    ValueOfDigits(f.m);
    SmallDenotes(f.neg, Digits(f.m), -Point(f));
  }

  lemma {:induction false} ExponentLayout(f: Dec)
    requires Normal(f) && f.m != 0 && (Point(f) > 21 || Point(f) <= -6)
    ensures TokenValue(Layout(f)) == f
  {
    var t := Layout(f);
    ValueOfDigits(f.m);
    ExponentOfLayout(f);
    PointDenotes(f.neg, Digits(f.m), 1, t.expNeg, t.exp);
    NormalIsFixed(f);
  }

  lemma {:induction false} ExponentOfLayout(f: Dec)
    requires f.m != 0 && (Point(f) > 21 || Point(f) <= -6)
    ensures var t := Layout(f);
      Exponent(t) == Point(f) - 1 && t == Token(f.neg, Digits(f.m)[..1], Digits(f.m)[1..], t.expNeg, t.exp)
  {
    var n := Point(f);
    ValueOfDigits(if n - 1 < 0 then -(n - 1) else n - 1);
  }

  lemma {:induction false} NormalIsFixed(f: Dec)
    requires Normal(f)
    ensures Normalize(f.neg, f.m, f.e) == f
  {
  }

  /** The layout denotes the number it lays out, zero without a sign. */
  lemma {:induction false} LayoutDenotes(f: Dec)
    requires Normal(f)
    ensures TokenValue(Layout(f)) == if f.m == 0 then Dec(false, 0, 0) else f
  {
    if f.m == 0 {
      ZeroDenotes();
    } else if Point(f) > 21 || Point(f) <= -6 {
      ExponentLayout(f);
    } else if |Digits(f.m)| <= Point(f) {
      WholeLayout(f);
    } else if 0 < Point(f) {
      PointLayout(f);
    } else {
      SmallLayout(f);
    }
  }

  lemma {:induction false} ZerosFront(n: nat)
    ensures [ZERO] + Zeros(n) == Zeros(n + 1)
    decreases n
  {
    if n > 0 { ZerosFront(n - 1); }
  }

  // ---- the shape of a layout ----

  /** x * 10^e. */
  function Scaled(x: real, e: int): real
    decreases if e < 0 then -e else e
  {
    if e == 0 then x else if e > 0 then Scaled(x * 10.0, e - 1) else Scaled(x / 10.0, e + 1)
  }

  function TenTo(e: int): real { Scaled(1.0, e) }

  /** |f|. */
  function Size(f: Dec): real { Scaled(f.m as real, f.e) }

  lemma {:induction false} ScaledGrows(x: real, y: real, e: int)
    ensures x < y ==> Scaled(x, e) < Scaled(y, e)
    ensures x <= y ==> Scaled(x, e) <= Scaled(y, e)
    decreases if e < 0 then -e else e
  {
    if e > 0 { ScaledGrows(x * 10.0, y * 10.0, e - 1); }
    if e < 0 { ScaledGrows(x / 10.0, y / 10.0, e + 1); }
  }

  lemma {:induction false} ScaledStep(x: real, e: int)
    ensures Scaled(x * 10.0, e) == Scaled(x, e + 1)
    decreases if e < 0 then -e else e
  {
    if e < 0 {
      assert x * 10.0 / 10.0 == x;
      if e < -1 {
        ScaledStep(x / 10.0, e + 1);
        assert x / 10.0 * 10.0 == x;
      }
    }
  }

  lemma {:induction false} ScaledTwice(x: real, k: nat, e: int)
    ensures Scaled(Scaled(x, k), e) == Scaled(x, k + e)
    decreases k
  {
    if k > 0 {
      ScaledTwice(x * 10.0, k - 1, e);
      ScaledStep(x, k - 1 + e);
    }
  }

  lemma {:induction false} TenToGrows(a: int, b: int)
    requires a <= b
    ensures TenTo(a) <= TenTo(b)
    decreases b - a
  {
    if a < b {
      TenToGrows(a, b - 1);
      ScaledStep(1.0, b - 1);
      ScaledGrows(1.0, 10.0, b - 1);
    }
  }

  function NatTenTo(k: nat): nat { if k == 0 then 1 else 10 * NatTenTo(k - 1) }

  lemma {:induction false} NatTenToIs(k: nat)
    ensures NatTenTo(k) as real == TenTo(k)
    decreases k
  {
    if k > 0 {
      NatTenToIs(k - 1);
      ScaledStep(1.0, k - 1);
      TenTimes(1.0, k - 1);
    }
  }

  lemma {:induction false} TenTimes(x: real, k: nat)
    ensures Scaled(x * 10.0, k) == Scaled(x, k) * 10.0
    decreases k
  {
    if k > 0 { TenTimes(x * 10.0, k - 1); }
  }

  lemma {:induction false} DigitsCount(m: nat)
    requires m > 0
    ensures NatTenTo(|Digits(m)| - 1) <= m < NatTenTo(|Digits(m)|)
    decreases m
  {
    if m >= 10 { DigitsCount(m / 10); }
  }

  /** Point is where the size of a number puts it: 10^(n-1) <= |f| < 10^n. */
  lemma {:induction false} PointBySize(f: Dec)
    requires f.m != 0
    ensures TenTo(Point(f) - 1) <= Size(f) < TenTo(Point(f))
  {
    var k := |Digits(f.m)|;
    DigitsCount(f.m);
    NatTenToIs(k - 1);
    NatTenToIs(k);
    AsReals(NatTenTo(k - 1), f.m, NatTenTo(k));
    ScaledGrows(TenTo(k - 1), f.m as real, f.e);
    ScaledGrows(f.m as real, TenTo(k), f.e);
    ScaledTwice(1.0, k - 1, f.e);
    ScaledTwice(1.0, k, f.e);
  }

  lemma {:induction false} AsReals(x: nat, y: nat, z: nat)
    requires x <= y < z
    ensures x as real <= y as real < z as real
  {
  }

  /** Numbers of at least 10^21 and below 10^-6 are the ones with an exponent. */
  lemma {:induction false} ExponentBySize(f: Dec)
    requires f.m != 0
    ensures Point(f) > 21 <==> Size(f) >= TenTo(21)
    ensures Point(f) <= -6 <==> Size(f) < TenTo(-6)
  {
    PointBySize(f);
    if Point(f) > 21 { TenToGrows(21, Point(f) - 1); } else { TenToGrows(Point(f), 21); }
    if Point(f) <= -6 { TenToGrows(Point(f), -6); } else { TenToGrows(-6, Point(f) - 1); }
  }

  /** The text ECMAScript gives a nonzero number: no digit more than it takes, an exponent only where it is due. */
  predicate EcmaForm(t: Token, f: Dec)
  {
    && TokenOk(t) && IntsOk(t.ints) && TokenValue(t) == f
    && (t.frac != [] ==> t.frac[|t.frac| - 1] != ZERO)
    && if TenTo(-6) <= Size(f) < TenTo(21)
       then t.exp == [] && (t.frac == [] <==> f.e >= 0)
       else |t.ints| == 1 && t.ints[0] != ZERO && t.exp != [] && t.exp[0] != ZERO
  }

  lemma {:induction false} LastDigit(m: nat)
    requires m % 10 != 0
    ensures Digits(m)[|Digits(m)| - 1] != ZERO
  {
  }

  /** A number is laid out in that form, and zero is a single digit. */
  lemma {:induction false} LayoutHasEcmaForm(f: Dec)
    requires Normal(f)
    ensures if f.m == 0 then FormatNumber(f) == [ZERO] else EcmaForm(Layout(f), f)
  {
    if f.m != 0 {
      LayoutDenotes(f);
      LayoutIsToken(f);
      LastDigit(f.m);
      ExponentBySize(f);
    }
  }

  /** The same of the text itself: what marks stand in it, and what they stand next to. */
  lemma {:induction false} FormatShape(f: Dec)
    requires Normal(f) && f.m != 0
    ensures var s := FormatNumber(f);
      && s != []
      && (s[0] == MINUS <==> f.neg)
      && (LETTER_E in s <==> Size(f) < TenTo(-6) || TenTo(21) <= Size(f))
      && (LETTER_E !in s ==> (DOT in s <==> f.e < 0))
      && (LETTER_E !in s && DOT in s ==> s[|s| - 1] != ZERO)
      && (LETTER_E in s ==> PLUS in s || MINUS in s[1..])
  {
    var t := Layout(f);
    LayoutHasEcmaForm(f);
    RenderMarks(t);
  }

  lemma {:induction false} RenderMarks(t: Token)
    requires TokenOk(t) && IntsOk(t.ints)
    ensures var s := Render(t);
      && s != [] && (s[0] == MINUS <==> t.neg)
      && (LETTER_E in s <==> t.exp != []) && (DOT in s <==> t.frac != [])
      && (t.exp == [] && t.frac != [] ==> s[|s| - 1] == t.frac[|t.frac| - 1])
      && (t.exp != [] ==> PLUS in s || MINUS in s[1..])
  {
    var head, frac, exp := Sign(t.neg) + t.ints, RenderFraction(t), RenderExponent(t);
    assert Render(t) == head + (frac + exp);
    FractionMarks(t);
    ExponentMarks(t);
    assert LETTER_E !in head && DOT !in head;
    ThreeParts(head, frac, exp);
  }

  lemma {:induction false} FractionMarks(t: Token)
    requires AllDigits(t.frac)
    ensures var w := RenderFraction(t);
      LETTER_E !in w && (DOT in w <==> t.frac != []) && (t.frac != [] ==> w != [] && w[|w| - 1] == t.frac[|t.frac| - 1])
      && (w == [] <==> t.frac == [])
  {
    if t.frac != [] { assert RenderFraction(t)[0] == DOT; }
  }

  lemma {:induction false} ExponentMarks(t: Token)
    requires AllDigits(t.exp)
    ensures var w := RenderExponent(t);
      DOT !in w && (LETTER_E in w <==> t.exp != []) && (t.exp != [] ==> PLUS in w || MINUS in w)
      && (w == [] <==> t.exp == [])
  {
    if t.exp != [] { assert RenderExponent(t)[0] == LETTER_E && RenderExponent(t)[1] == if t.expNeg then MINUS else PLUS; }
  }

  lemma {:induction false} ThreeParts(a: Bytes, b: Bytes, c: Bytes)
    requires a != []
    ensures var s := a + (b + c);
      && s[0] == a[0] && s[1..] == a[1..] + (b + c)
      && (forall x :: x in s <==> x in a || x in b || x in c)
      && (c == [] && b != [] ==> s[|s| - 1] == b[|b| - 1])
      && (forall x :: x in s[1..] <==> x in a[1..] || x in b || x in c)
  {
    assert forall x :: x in b + c <==> x in b || x in c;
  }

  // ---- reading a layout ----

  /** What may follow a number without becoming part of it. */
  predicate Ends(data: Bytes, pos: nat)
  {
    pos < |data| ==> !IsDigit(data[pos]) && data[pos] !in {DOT, 0x45, 0x65}
  }

  lemma {:induction false} DigitsEndAt(data: Bytes, pos: nat, ds: Bytes)
    requires At(data, pos, ds) && AllDigits(ds) && (pos + |ds| < |data| ==> !IsDigit(data[pos + |ds|]))
    ensures DigitsEnd(data, pos) == pos + |ds|
    decreases |ds|
  {
    if ds != [] {
      AtByte(data, pos, ds, 0);
      assert ds == [ds[0]] + ds[1..];
      AtSplit(data, pos, [ds[0]], ds[1..]);
      DigitsEndAt(data, pos + 1, ds[1..]);
    }
  }

  lemma {:induction false} ExponentReads(data: Bytes, pos: nat, t: Token)
    requires TokenOk(t) && At(data, pos, RenderExponent(t)) && Ends(data, pos + |RenderExponent(t)|)
    requires t.exp == [] ==> !t.expNeg
    ensures ExponentAt(data, pos, t.(expNeg := false, exp := [])) == Ok(Parsed(t, pos + |RenderExponent(t)|))
  {
    if t.exp != [] {
      var mark := [LETTER_E, if t.expNeg then MINUS else PLUS];
      AtSplit(data, pos, mark, t.exp);
      AtByte(data, pos, mark, 0);
      AtByte(data, pos, mark, 1);
      DigitsEndAt(data, pos + 2, t.exp);
    }
  }

  lemma {:induction false} ExponentStart(data: Bytes, pos: nat, t: Token)
    requires TokenOk(t) && At(data, pos, RenderExponent(t)) && Ends(data, pos + |RenderExponent(t)|)
    ensures pos < |data| ==> !IsDigit(data[pos]) && data[pos] != DOT
  {
    if t.exp != [] { AtByte(data, pos, RenderExponent(t), 0); }
  }

  lemma {:induction false} PointReads(data: Bytes, pos: nat, t: Token)
    requires TokenOk(t) && t.frac != [] && At(data, pos, RenderFraction(t))
    requires pos + 1 + |t.frac| < |data| ==> !IsDigit(data[pos + 1 + |t.frac|])
    ensures pos < |data| && data[pos] == DOT && DigitsEnd(data, pos + 1) == pos + 1 + |t.frac|
    ensures data[pos + 1..pos + 1 + |t.frac|] == t.frac
  {
    AtByte(data, pos, RenderFraction(t), 0);
    AtSplit(data, pos, [DOT], t.frac);
    DigitsEndAt(data, pos + 1, t.frac);
  }

  lemma {:induction false} FractionStart(data: Bytes, pos: nat, t: Token)
    requires TokenOk(t) && At(data, pos, RenderFraction(t)) && At(data, pos + |RenderFraction(t)|, RenderExponent(t))
    requires Ends(data, pos + |RenderFraction(t)| + |RenderExponent(t)|)
    ensures pos < |data| ==> !IsDigit(data[pos])
    ensures var after := pos + |RenderFraction(t)|; after < |data| ==> !IsDigit(data[after]) && data[after] != DOT
  {
    ExponentStart(data, pos + |RenderFraction(t)|, t);
    if t.frac != [] { AtByte(data, pos, RenderFraction(t), 0); }
  }

  lemma {:induction false} FractionReads(data: Bytes, pos: nat, t: Token)
    requires TokenOk(t) && At(data, pos, RenderFraction(t)) && At(data, pos + |RenderFraction(t)|, RenderExponent(t))
    requires Ends(data, pos + |RenderFraction(t)| + |RenderExponent(t)|) && (t.exp == [] ==> !t.expNeg)
    ensures FractionAt(data, pos, t.(frac := [], expNeg := false, exp := []))
            == Ok(Parsed(t, pos + |RenderFraction(t)| + |RenderExponent(t)|))
  {
    FractionStart(data, pos, t);
    ExponentReads(data, pos + |RenderFraction(t)|, t);
    if t.frac != [] { PointReads(data, pos, t); }
    FractionThen(data, pos, t);
  }

  lemma {:induction false} FractionThen(data: Bytes, pos: nat, t: Token)
    requires TokenOk(t) && pos + |RenderFraction(t)| <= |data|
    requires t.frac != [] ==>
      && pos < |data| && data[pos] == DOT && DigitsEnd(data, pos + 1) == pos + 1 + |t.frac|
      && data[pos + 1..pos + 1 + |t.frac|] == t.frac
    requires t.frac == [] ==> (pos < |data| ==> data[pos] != DOT)
    ensures FractionAt(data, pos, t.(frac := [], expNeg := false, exp := []))
            == ExponentAt(data, pos + |RenderFraction(t)|, t.(expNeg := false, exp := []))
  {
  }

  /** The integer part of a token: a single zero, or digits that do not begin with one. */
  predicate IntsOk(ints: Bytes)
  {
    ints != [] && AllDigits(ints) && (ints[0] == ZERO ==> |ints| == 1)
  }

  ghost predicate ReadsToken(data: Bytes, pos: nat, t: Token)
  {
    pos < |data| && NumberAt(data, pos) == Ok(Parsed(t, pos + |Render(t)|))
  }

  /** Where the integer part of t ends when t is rendered at pos. */
  function IntsEnd(pos: nat, t: Token): nat { pos + |Sign(t.neg)| + |t.ints| }

  /** The sign and the integer part. */
  lemma {:induction false} IntsRead(data: Bytes, pos: nat, t: Token)
    requires TokenOk(t) && IntsOk(t.ints) && At(data, pos, Sign(t.neg)) && At(data, pos + |Sign(t.neg)|, t.ints)
    requires IntsEnd(pos, t) < |data| ==> !IsDigit(data[IntsEnd(pos, t)])
    ensures pos < |data| && IntsAt(data, pos) == Ok(Parsed(t.(frac := [], expNeg := false, exp := []), IntsEnd(pos, t)))
  {
    var start := pos + |Sign(t.neg)|;
    AtByte(data, start, t.ints, 0);
    if t.neg { AtByte(data, pos, Sign(t.neg), 0); }
    DigitsEndAt(data, start, t.ints);
  }

  lemma {:induction false} RenderParts(data: Bytes, pos: nat, t: Token)
    requires At(data, pos, Render(t))
    ensures At(data, pos, Sign(t.neg)) && At(data, pos + |Sign(t.neg)|, t.ints)
    ensures At(data, IntsEnd(pos, t), RenderFraction(t))
    ensures At(data, IntsEnd(pos, t) + |RenderFraction(t)|, RenderExponent(t))
    ensures pos + |Render(t)| == IntsEnd(pos, t) + |RenderFraction(t)| + |RenderExponent(t)|
  {
    var rest := RenderFraction(t) + RenderExponent(t);
    AtSplit(data, pos, Sign(t.neg), t.ints + rest);
    AtSplit(data, pos + |Sign(t.neg)|, t.ints, rest);
    AtSplit(data, IntsEnd(pos, t), RenderFraction(t), RenderExponent(t));
  }

  /** Reading a rendered token gives the token, as long as what follows cannot continue it. */
  lemma {:induction false} TokenReads(data: Bytes, pos: nat, t: Token)
    requires TokenOk(t) && IntsOk(t.ints) && (t.exp == [] ==> !t.expNeg)
    requires At(data, pos, Render(t)) && Ends(data, pos + |Render(t)|)
    ensures ReadsToken(data, pos, t)
  {
    RenderParts(data, pos, t);
    PartsRead(data, pos, t);
  }

  lemma {:induction false} PartsRead(data: Bytes, pos: nat, t: Token)
    requires TokenOk(t) && IntsOk(t.ints) && (t.exp == [] ==> !t.expNeg)
    requires At(data, pos, Sign(t.neg)) && At(data, pos + |Sign(t.neg)|, t.ints)
    requires At(data, IntsEnd(pos, t), RenderFraction(t)) && At(data, IntsEnd(pos, t) + |RenderFraction(t)|, RenderExponent(t))
    requires Ends(data, IntsEnd(pos, t) + |RenderFraction(t)| + |RenderExponent(t)|)
    ensures pos < |data|
    ensures NumberAt(data, pos) == Ok(Parsed(t, IntsEnd(pos, t) + |RenderFraction(t)| + |RenderExponent(t)|))
  {
    FractionStart(data, IntsEnd(pos, t), t);
    IntsRead(data, pos, t);
    FractionReads(data, IntsEnd(pos, t), t);
  }

  lemma {:induction false} LayoutIsToken(f: Dec)
    ensures var t := Layout(f); IntsOk(t.ints) && (t.exp == [] ==> !t.expNeg)
  {
  }

  /** The number at pos is d, in n bytes. */
  ghost predicate ReadsNumber(data: Bytes, pos: nat, d: Dec, n: nat)
  {
    && pos < |data| && NumberAt(data, pos).Ok?
    && NumberAt(data, pos).value.next == pos + n && TokenValue(NumberAt(data, pos).value.v) == d
  }

  lemma {:induction false} TokenIsNumber(data: Bytes, pos: nat, t: Token)
    requires TokenOk(t) && ReadsToken(data, pos, t)
    ensures ReadsNumber(data, pos, TokenValue(t), |Render(t)|)
  {
  }

  function Unsigned(f: Dec): Dec { if f.m == 0 then Dec(false, 0, 0) else f }

  /** A printed number is read back as the same decimal value, zero without its sign. */
  lemma {:induction false} NumberRoundTrip(data: Bytes, pos: nat, f: Dec)
    requires Normal(f) && At(data, pos, FormatNumber(f)) && Ends(data, pos + |FormatNumber(f)|)
    ensures ReadsNumber(data, pos, Unsigned(f), |FormatNumber(f)|)
  {
    LayoutIsToken(f);
    TokenReads(data, pos, Layout(f));
    TokenIsNumber(data, pos, Layout(f));
    LayoutDenotes(f);
  }
}
