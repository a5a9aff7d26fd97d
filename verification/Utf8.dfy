/** UTF-8 as the Go library decodes it: no overlong forms. */
module Utf8 {
  // Surrogates and values past U+10FFFF are invalid too.

  import opened Octets

  type Rune = r: int | 0 <= r < 0x20_0000

  predicate Scalar(r: int)
  {
    0 <= r < 0xD800 || 0xE000 <= r <= 0x10FFFF
  }

  predicate Continues(b: byte)
  {
    0x80 <= b < 0xC0
  }

  /** The low six bits of each continuation byte, the rest of the rune in the lead byte. */
  function Encode(r: Rune): (s: Bytes)
    ensures 1 <= |s| <= 4
  {
    if r < 0x80 then [r]
    else if r < 0x800 then [0xC0 + r / 0x40, 0x80 + r % 0x40]
    else if r < 0x1_0000 then [0xE0 + r / 0x40 / 0x40, 0x80 + r / 0x40 % 0x40, 0x80 + r % 0x40]
    else [0xF0 + r / 0x40 / 0x40 / 0x40, 0x80 + r / 0x40 / 0x40 % 0x40, 0x80 + r / 0x40 % 0x40, 0x80 + r % 0x40]
  }

  function Join(high: int, low: int): int { (high * 0x40) + (low - 0x80) }

  function CheckRune(r: int, least: int, size: nat): Option<(Rune, nat)>
  {
    if least <= r && Scalar(r) then Some((r, size)) else None
  }

  /** The first rune of s and the number of bytes it takes, or None when s does not start with one. */
  function First(s: Bytes): (d: Option<(Rune, nat)>)
    ensures d.Some? ==> Scalar(d.value.0) && 1 <= d.value.1 <= 4 && d.value.1 <= |s|
    ensures d.Some? && s[0] < 0x80 ==> d.value == (s[0], 1)
    ensures d.Some? && s[0] >= 0x80 ==> d.value.0 >= 0x80
  {
    if s == [] then None
    else if s[0] < 0x80 then Some((s[0], 1))
    else if s[0] < 0xC0 then None
    else if s[0] < 0xE0 then
      if |s| < 2 || !Continues(s[1]) then None
      else CheckRune(Join(s[0] as int - 0xC0, s[1]), 0x80, 2)
    else if s[0] < 0xF0 then
      if |s| < 3 || !Continues(s[1]) || !Continues(s[2]) then None
      else CheckRune(Join(Join(s[0] as int - 0xE0, s[1]), s[2]), 0x800, 3)
    else if s[0] < 0xF8 then
      if |s| < 4 || !Continues(s[1]) || !Continues(s[2]) || !Continues(s[3]) then None
      else CheckRune(Join(Join(Join(s[0] as int - 0xF0, s[1]), s[2]), s[3]), 0x1_0000, 4)
    else None
  }

  lemma {:induction false} JoinSplit(r: nat)
    ensures Join(r / 0x40, 0x80 + r % 0x40) == r
  {
  }

  lemma {:induction false} SplitJoin(high: nat, low: byte)
    requires Continues(low)
    ensures 0x40 * high <= Join(high, low) < 0x40 * high + 0x40
    ensures Join(high, low) / 0x40 == high && 0x80 + Join(high, low) % 0x40 == low
  {
  }

  lemma {:induction false} FirstOfEncode(r: Rune, rest: Bytes)
    requires Scalar(r)
    ensures First(Encode(r) + rest) == Some((r, |Encode(r)|))
  {
    JoinSplit(r);
    JoinSplit(r / 0x40);
    JoinSplit(r / 0x40 / 0x40);
    var s := Encode(r) + rest;
    assert forall i | 0 <= i < |Encode(r)| :: s[i] == Encode(r)[i];
  }

  lemma {:induction false} TwoBytes(high: nat, a: byte)
    requires high < 0x20 && Continues(a) && 0x80 <= Join(high, a)
    ensures 0 <= Join(high, a) < 0x20_0000 && Encode(Join(high, a)) == [0xC0 + high, a]
  {
    SplitJoin(high, a);
  }

  lemma {:induction false} ThreeBytes(high: nat, a: byte, b: byte)
    requires high < 0x10 && Continues(a) && Continues(b) && 0x800 <= Join(Join(high, a), b)
    ensures 0 <= Join(Join(high, a), b) < 0x20_0000 && Encode(Join(Join(high, a), b)) == [0xE0 + high, a, b]
  {
    SplitJoin(high, a);
    SplitJoin(Join(high, a), b);
  }

  lemma {:induction false} FourBytes(high: nat, a: byte, b: byte, c: byte)
    requires high < 8 && Continues(a) && Continues(b) && Continues(c) && 0x1_0000 <= Join(Join(Join(high, a), b), c)
    ensures 0 <= Join(Join(Join(high, a), b), c) < 0x20_0000
    ensures Encode(Join(Join(Join(high, a), b), c)) == [0xF0 + high, a, b, c]
  {
    var x := Join(high, a);
    var y := Join(x, b);
    var r := Join(y, c);
    SplitJoin(high, a);
    SplitJoin(x, b);
    SplitJoin(y, c);
    assert x < 0x200 && y < 0x8000 && 0x1_0000 <= r < 0x20_0000;
    assert 0x80 + r % 0x40 == c && r / 0x40 == y;
    assert 0x80 + y % 0x40 == b && y / 0x40 == x;
    assert 0x80 + x % 0x40 == a && 0xF0 + x / 0x40 == 0xF0 + high;
    FourByteForm(r, x, y);
  }

  lemma {:induction false} FourByteForm(r: Rune, x: nat, y: nat)
    requires 0x1_0000 <= r && r / 0x40 == y && y / 0x40 == x
    ensures Encode(r) == [0xF0 + x / 0x40, 0x80 + x % 0x40, 0x80 + y % 0x40, 0x80 + r % 0x40]
  {
  }

  lemma {:induction false} EncodeOfFirst(s: Bytes)
    requires First(s).Some?
    ensures s[..First(s).value.1] == Encode(First(s).value.0)
  {
    if 0xC0 <= s[0] < 0xE0 {
      TwoBytes(s[0] - 0xC0, s[1]);
      assert s[..2] == [s[0], s[1]];
    } else if 0xE0 <= s[0] < 0xF0 {
      EncodeOfThree(s);
    } else if 0xF0 <= s[0] {
      EncodeOfFour(s);
    }
  }

  lemma {:induction false} EncodeOfThree(s: Bytes)
    requires First(s).Some? && 0xE0 <= s[0] < 0xF0
    ensures s[..First(s).value.1] == Encode(First(s).value.0)
  {
    ThreeBytes(s[0] - 0xE0, s[1], s[2]);
    assert s[..3] == [s[0], s[1], s[2]];
  }

  lemma {:induction false} EncodeOfFour(s: Bytes)
    requires First(s).Some? && 0xF0 <= s[0]
    ensures s[..First(s).value.1] == Encode(First(s).value.0)
  {
    FourBytes(s[0] - 0xF0, s[1], s[2], s[3]);
    assert s[..4] == [s[0], s[1], s[2], s[3]];
  }

  /** First looks at no byte after the rune. */
  lemma {:induction false} FirstLocal(s: Bytes, rest: Bytes)
    requires First(s).Some?
    ensures First(s + rest) == First(s)
  {
  }

  // ---- which bytes, and in which order ----

  predicate In(b: byte, least: byte, most: byte) { least <= b <= most }

  /** s starts with a row of Unicode's table of well-formed UTF-8 byte sequences (table 3-7 of the standard). */
  predicate StartsWell(s: Bytes)
  {
    || (|s| >= 1 && s[0] <= 0x7F)
    || (|s| >= 2 && In(s[0], 0xC2, 0xDF) && In(s[1], 0x80, 0xBF))
    || (|s| >= 3 && s[0] == 0xE0 && In(s[1], 0xA0, 0xBF) && In(s[2], 0x80, 0xBF))
    || (|s| >= 3 && In(s[0], 0xE1, 0xEF) && s[0] != 0xED && In(s[1], 0x80, 0xBF) && In(s[2], 0x80, 0xBF))
    || (|s| >= 3 && s[0] == 0xED && In(s[1], 0x80, 0x9F) && In(s[2], 0x80, 0xBF))
    || (|s| >= 4 && s[0] == 0xF0 && In(s[1], 0x90, 0xBF) && In(s[2], 0x80, 0xBF) && In(s[3], 0x80, 0xBF))
    || (|s| >= 4 && In(s[0], 0xF1, 0xF3) && In(s[1], 0x80, 0xBF) && In(s[2], 0x80, 0xBF) && In(s[3], 0x80, 0xBF))
    || (|s| >= 4 && s[0] == 0xF4 && In(s[1], 0x80, 0x8F) && In(s[2], 0x80, 0xBF) && In(s[3], 0x80, 0xBF))
  }

  lemma {:induction false} FirstExactlyWhen(s: Bytes)
    ensures First(s).Some? <==> StartsWell(s)
  {
  }

  /** a and b agree before byte k, where a has the smaller one. */
  predicate SmallerAt(a: Bytes, b: Bytes, k: nat)
  {
    k < |a| && k < |b| && a[k] < b[k] && forall i | 0 <= i < k :: a[i] == b[i]
  }

  lemma {:induction false} OrderOfTwo(a: Rune, b: Rune) returns (k: nat)
    requires 0x80 <= a < b < 0x800
    ensures SmallerAt(Encode(a), Encode(b), k)
  {
    SameHigh(a, b);
    k := if a / 0x40 < b / 0x40 then 0 else 1;
  }

  lemma {:induction false} OrderOfThree(a: Rune, b: Rune) returns (k: nat)
    requires 0x800 <= a < b < 0x1_0000
    ensures SmallerAt(Encode(a), Encode(b), k)
  {
    SameHigh(a, b);
    SameHigh(a / 0x40, b / 0x40);
    k := if a / 0x40 / 0x40 < b / 0x40 / 0x40 then 0 else if a / 0x40 < b / 0x40 then 1 else 2;
  }

  lemma {:induction false} OrderOfFour(a: Rune, b: Rune) returns (k: nat)
    requires 0x1_0000 <= a < b
    ensures SmallerAt(Encode(a), Encode(b), k)
  {
    var x, y := a / 0x40, b / 0x40;
    SameHigh(a, b);
    SameHigh(x, y);
    SameHigh(x / 0x40, y / 0x40);
    FourByteForm(a, x / 0x40, x);
    FourByteForm(b, y / 0x40, y);
    k := if x / 0x40 / 0x40 < y / 0x40 / 0x40 then 0 else if x / 0x40 < y / 0x40 then 1 else if x < y then 2 else 3;
  }

  /** Byte order is the order of the scalars; with the table above no other encoding has it. */
  lemma {:induction false} OrderIsPreserved(a: Rune, b: Rune) returns (k: nat)
    requires a < b
    ensures SmallerAt(Encode(a), Encode(b), k)
  {
    if b < 0x80 || |Encode(a)| < |Encode(b)| {
      k := 0;
    } else if b < 0x800 {
      k := OrderOfTwo(a, b);
    } else if b < 0x1_0000 {
      k := OrderOfThree(a, b);
    } else {
      k := OrderOfFour(a, b);
    }
  }

  lemma {:induction false} SameHigh(a: nat, b: nat)
    requires a <= b
    ensures a / 0x40 <= b / 0x40 && (a / 0x40 == b / 0x40 ==> a % 0x40 <= b % 0x40 && (a < b ==> a % 0x40 < b % 0x40))
  {
  }

  function Decode(s: Bytes): Option<seq<Rune>>
  {
    if s == [] then Some([])
    else
      match First(s)
      case None => None
      case Some(d) =>
        match Decode(s[d.1..])
        case None => None
        case Some(rs) => Some([d.0] + rs)
  }

  predicate Valid(s: Bytes)
  {
    Decode(s).Some?
  }

  function EncodeAll(rs: seq<Rune>): Bytes
  {
    if rs == [] then [] else Encode(rs[0]) + EncodeAll(rs[1..])
  }

  lemma {:induction false} DecodeOfEncodeAll(rs: seq<Rune>)
    requires forall r | r in rs :: Scalar(r)
    ensures Decode(EncodeAll(rs)) == Some(rs)
  {
    if rs != [] {
      DecodeOfEncodeAll(rs[1..]);
      assert rs == [rs[0]] + rs[1..];
      FirstOfEncode(rs[0], EncodeAll(rs[1..]));
      assert EncodeAll(rs)[|Encode(rs[0])|..] == EncodeAll(rs[1..]);
    }
  }

  lemma {:induction false} EncodeAllOfDecode(s: Bytes)
    requires Valid(s)
    ensures EncodeAll(Decode(s).value) == s
    ensures forall r | r in Decode(s).value :: Scalar(r)
  {
    if s != [] {
      var r, k, rs := DecodeCons(s);
      EncodeAllOfDecode(s[k..]);
      EncodeCons(r, rs);
    }
  }

  /** The first rune of s, its size, and the runes after it. */
  lemma {:induction false} DecodeCons(s: Bytes) returns (r: Rune, k: nat, rs: seq<Rune>)
    requires Valid(s) && s != []
    ensures 0 < k <= |s| && Scalar(r) && s == Encode(r) + s[k..]
    ensures Decode(s) == Some([r] + rs) && Decode(s[k..]) == Some(rs)
  {
    r, k := First(s).value.0, First(s).value.1;
    rs := Decode(s[k..]).value;
    EncodeOfFirst(s);
    assert s == s[..k] + s[k..];
  }

  lemma {:induction false} EncodeCons(r: Rune, rs: seq<Rune>)
    ensures EncodeAll([r] + rs) == Encode(r) + EncodeAll(rs)
  {
    assert ([r] + rs)[1..] == rs;
  }
}
