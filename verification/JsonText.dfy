/** The text of JSON strings and numbers: escapes, UTF-8, the number grammar and its ECMAScript layout (RFC 8785). */
module JsonText {
  import opened Octets
  import Utf8

  datatype Parsed<T> = Parsed(v: T, next: nat)

  datatype What =
    | UnexpectedEnd | InvalidCharacter | InvalidLiteral | TooDeep | ExpectedName | ExpectedColon | DuplicateName
    | Unterminated | ExpectedSeparator | InvalidNumber | InvalidFraction | InvalidExponent | OutOfRange
    | ControlCharacter | InvalidUtf8 | Noncharacter | UnterminatedEscape | InvalidEscape | InvalidHex
    | LoneHighSurrogate | LoneLowSurrogate | DataAfterValue

  const QUOTE: byte := 0x22
  const BACKSLASH: byte := 0x5c
  const MINUS: byte := 0x2d
  const PLUS: byte := 0x2b
  const DOT: byte := 0x2e
  const ZERO: byte := 0x30
  const LETTER_E: byte := 0x65

  // ---- strings ----

  predicate IsNoncharacter(r: nat)
  {
    0xFDD0 <= r <= 0xFDEF || r % 0x1_0000 >= 0xFFFE
  }

  /** Valid UTF-8 without noncharacters: what a parsed string holds. */
  predicate GoodString(s: Bytes)
  {
    s == []
    || (Utf8.First(s).Some? && !IsNoncharacter(Utf8.First(s).value.0) && GoodString(s[Utf8.First(s).value.1..]))
  }

  function HexDigit(n: nat): byte
    requires n < 16
  {
    if n < 10 then 0x30 + n else 0x61 + n - 10
  }

  function Escape(c: byte): (s: Bytes)
    ensures s != []
  {
    if c == QUOTE then [BACKSLASH, QUOTE]
    else if c == BACKSLASH then [BACKSLASH, BACKSLASH]
    else if c == 0x08 then [BACKSLASH, 0x62]
    else if c == 0x09 then [BACKSLASH, 0x74]
    else if c == 0x0a then [BACKSLASH, 0x6e]
    else if c == 0x0c then [BACKSLASH, 0x66]
    else if c == 0x0d then [BACKSLASH, 0x72]
    else if c < 0x20 then [BACKSLASH, 0x75, 0x30, 0x30, HexDigit(c / 16), HexDigit(c % 16)]
    else [c]
  }

  function EscapeAll(s: Bytes): Bytes
  {
    if s == [] then [] else Escape(s[0]) + EscapeAll(s[1..])
  }

  function PrintString(s: Bytes): Bytes
  {
    [QUOTE] + (EscapeAll(s) + [QUOTE])
  }

  function HexValue(c: byte): Option<nat>
  {
    if 0x30 <= c <= 0x39 then Some(c - 0x30)
    else if 0x61 <= c <= 0x66 then Some(c - 0x61 + 10)
    else if 0x41 <= c <= 0x46 then Some(c - 0x41 + 10)
    else None
  }

  /** The value of the n hex digits at pos. */
  function Hex(data: Bytes, pos: nat, n: nat): (r: Option<nat>)
    requires pos + n <= |data|
    decreases n
  {
    if n == 0 then Some(0)
    else
      match Hex(data, pos, n - 1)
      case None => None
      case Some(high) =>
        match HexValue(data[pos + n - 1])
        case None => None
        case Some(low) => Some(high * 16 + low)
  }

  function Hex4(data: Bytes, pos: nat): (r: Option<nat>)
    ensures r.Some? ==> pos + 4 <= |data| && r.value < 0x1_0000
  {
    if pos + 4 > |data| then None else HexBound(data, pos); Hex(data, pos, 4)
  }

  lemma {:induction false} HexBound(data: Bytes, pos: nat)
    requires pos + 4 <= |data|
    ensures Hex(data, pos, 4).Some? ==> Hex(data, pos, 4).value < 0x1_0000
  {
    assert Hex(data, pos, 1).Some? ==> Hex(data, pos, 1).value < 0x10;
    assert Hex(data, pos, 2).Some? ==> Hex(data, pos, 2).value < 0x100;
    assert Hex(data, pos, 3).Some? ==> Hex(data, pos, 3).value < 0x1000;
  }

  /** A \u escape, from its digits on; a high surrogate needs an escaped low one. */
  function UnicodeEscape(data: Bytes, pos: nat): (r: Result<Parsed<Utf8.Rune>, What>)
    ensures r.Ok? ==> Utf8.Scalar(r.value.v) && !IsNoncharacter(r.value.v) && pos < r.value.next <= |data|
  {
    match Hex4(data, pos)
    case None => Err(InvalidHex)
    case Some(r1) =>
      if 0xD800 <= r1 < 0xDC00 then
        if pos + 5 >= |data| || data[pos + 4] != BACKSLASH || data[pos + 5] != 0x75 then Err(LoneHighSurrogate)
        else
          match Hex4(data, pos + 6)
          case None => Err(LoneHighSurrogate)
          case Some(r2) =>
            if r2 < 0xDC00 || r2 > 0xDFFF then Err(LoneHighSurrogate)
            else CheckCharacter(0x1_0000 + (r1 - 0xD800) * 0x400 + (r2 - 0xDC00), pos + 10)
      else if 0xDC00 <= r1 <= 0xDFFF then Err(LoneLowSurrogate)
      else CheckCharacter(r1, pos + 4)
  }

  function CheckCharacter(r: Utf8.Rune, next: nat): Result<Parsed<Utf8.Rune>, What>
  {
    if IsNoncharacter(r) then Err(Noncharacter) else Ok(Parsed(r, next))
  }

  /** The escape whose backslash is at pos. */
  function EscapeAt(data: Bytes, pos: nat): (r: Result<Parsed<Utf8.Rune>, What>)
    ensures r.Ok? ==> Utf8.Scalar(r.value.v) && !IsNoncharacter(r.value.v) && pos < r.value.next <= |data|
  {
    if pos + 1 >= |data| then Err(UnterminatedEscape)
    else
      var c := data[pos + 1];
      if c == QUOTE || c == BACKSLASH || c == 0x2f then Ok(Parsed(c, pos + 2))
      else if c == 0x62 then Ok(Parsed(0x08, pos + 2))
      else if c == 0x66 then Ok(Parsed(0x0c, pos + 2))
      else if c == 0x6e then Ok(Parsed(0x0a, pos + 2))
      else if c == 0x72 then Ok(Parsed(0x0d, pos + 2))
      else if c == 0x74 then Ok(Parsed(0x09, pos + 2))
      else if c == 0x75 then UnicodeEscape(data, pos + 2)
      else Err(InvalidEscape)
  }

  function Prepend(acc: Bytes, r: Result<Parsed<Bytes>, What>): Result<Parsed<Bytes>, What>
  {
    match r
    case Ok(p) => Ok(Parsed(acc + p.v, p.next))
    case Err(e) => Err(e)
  }

  /** One character of a string, which is not its closing quote. */
  function CharAt(data: Bytes, pos: nat): (r: Result<Parsed<Bytes>, What>)
    requires pos < |data|
    ensures r.Ok? ==> pos < r.value.next <= |data|
  {
    var c := data[pos];
    if c == BACKSLASH then
      match EscapeAt(data, pos)
      case Err(e) => Err(e)
      case Ok(p) => Ok(Parsed(Utf8.Encode(p.v), p.next))
    else if c < 0x20 then Err(ControlCharacter)
    else if c < 0x80 then Ok(Parsed([c], pos + 1))
    else
      match Utf8.First(data[pos..])
      case None => Err(InvalidUtf8)
      case Some(d) =>
        if IsNoncharacter(d.0) then Err(Noncharacter)
        else Ok(Parsed(data[pos..pos + d.1], pos + d.1))
  }

  type CharReader = (Bytes, nat) -> Result<Parsed<Bytes>, What>

  /** Characters up to a closing quote, each read by step. */
  function CharsWith(step: CharReader, data: Bytes, pos: nat): (r: Result<Parsed<Bytes>, What>)
    ensures r.Ok? ==> pos < r.value.next <= |data|
    decreases |data| - pos
  {
    if pos >= |data| then Err(Unterminated)
    else if data[pos] == QUOTE then Ok(Parsed([], pos + 1))
    else
      match step(data, pos)
      case Err(e) => Err(e)
      case Ok(p) => if pos < p.next then Prepend(p.v, CharsWith(step, data, p.next)) else Err(Unterminated)
  }

  function ReadChar(data: Bytes, pos: nat): Result<Parsed<Bytes>, What>
  {
    if pos < |data| then CharAt(data, pos) else Err(Unterminated)
  }

  /** The characters of a string from pos to its closing quote. */
  function CharsAt(data: Bytes, pos: nat): (r: Result<Parsed<Bytes>, What>)
    ensures r.Ok? ==> pos < r.value.next <= |data|
  {
    CharsWith(ReadChar, data, pos)
  }

  /** A parsed string is valid UTF-8 without noncharacters. */
  lemma {:induction false} ParsedStringIsGood(data: Bytes, pos: nat)
    requires CharsAt(data, pos).Ok?
    ensures GoodString(CharsAt(data, pos).value.v)
    decreases |data| - pos
  {
    if data[pos] != QUOTE {
      var p := CharAt(data, pos).value;
      ParsedStringIsGood(data, p.next);
      var r := CharIsGood(data, pos);
      GoodCons(r, CharsAt(data, p.next).value.v);
    }
  }

  lemma {:induction false} CharIsGood(data: Bytes, pos: nat) returns (r: Utf8.Rune)
    requires pos < |data| && data[pos] != QUOTE && CharAt(data, pos).Ok?
    ensures Utf8.Scalar(r) && !IsNoncharacter(r) && CharAt(data, pos).value.v == Utf8.Encode(r)
  {
    var c := data[pos];
    if c == BACKSLASH {
      r := EscapeAt(data, pos).value.v;
    } else if c < 0x80 {
      r := c;
    } else {
      r := Utf8.First(data[pos..]).value.0;
      Utf8.EncodeOfFirst(data[pos..]);
    }
  }

  lemma {:induction false} GoodCons(r: Utf8.Rune, rest: Bytes)
    requires Utf8.Scalar(r) && !IsNoncharacter(r) && GoodString(rest)
    ensures GoodString(Utf8.Encode(r) + rest)
  {
    Utf8.FirstOfEncode(r, rest);
    assert (Utf8.Encode(r) + rest)[|Utf8.Encode(r)|..] == rest;
  }

  /** The character at pos takes n bytes and stands for s. */
  ghost predicate OneCharacter(data: Bytes, pos: nat, s: Bytes, n: nat)
  {
    pos < |data| && data[pos] != QUOTE && CharAt(data, pos) == Ok(Parsed(s, pos + n))
  }

  lemma {:induction false} AtByte(b: Bytes, off: nat, s: Bytes, i: nat)
    requires At(b, off, s) && i < |s|
    ensures b[off + i] == s[i]
  {
    assert b[off..off + |s|][i] == s[i];
  }

  /** Reading an escaped byte below U+0080 gives the byte back. */
  lemma {:induction false} EscapedByteReads(data: Bytes, pos: nat, c: byte)
    requires c < 0x80 && At(data, pos, Escape(c))
    ensures OneCharacter(data, pos, [c], |Escape(c)|)
  {
    var s := Escape(c);
    AtByte(data, pos, s, 0);
    if |s| == 6 {
      AtByte(data, pos, s, 1);
      AtByte(data, pos, s, 2);
      AtByte(data, pos, s, 3);
      AtByte(data, pos, s, 4);
      AtByte(data, pos, s, 5);
      ControlReads(data, pos, c);
    } else if |s| == 2 {
      AtByte(data, pos, s, 1);
      assert EscapeAt(data, pos).Ok? && EscapeAt(data, pos).value == Parsed(c as Utf8.Rune, pos + 2);
    }
  }

  lemma {:induction false} ControlReads(data: Bytes, pos: nat, c: byte)
    requires c < 0x20 && pos + 6 <= |data| && data[pos] == BACKSLASH && data[pos + 1] == 0x75
    requires data[pos + 2] == 0x30 && data[pos + 3] == 0x30
    requires data[pos + 4] == HexDigit(c / 16) && data[pos + 5] == HexDigit(c % 16)
    ensures EscapeAt(data, pos).Ok? && EscapeAt(data, pos).value == Parsed(c as Utf8.Rune, pos + 6)
  {
    assert Hex(data, pos + 2, 1) == Some(0);
    assert Hex(data, pos + 2, 2) == Some(0);
    assert HexValue(HexDigit(c / 16)) == Some(c / 16) && HexValue(HexDigit(c % 16)) == Some(c % 16);
    assert Hex(data, pos + 2, 3) == Some(c / 16);
    assert Hex(data, pos + 2, 4) == Some(c);
  }

  ghost predicate Printed(data: Bytes, pos: nat, s: Bytes)
  {
    GoodString(s) && At(data, pos, EscapeAll(s) + [QUOTE])
  }

  /** step reads the n bytes of s that are printed in k bytes at pos, and the rest of s is printed after them. */
  ghost predicate TakesOne(step: CharReader, data: Bytes, pos: nat, s: Bytes, n: nat, k: nat)
  {
    && 0 < n <= |s| && 0 < k && pos < |data| && data[pos] != QUOTE
    && step(data, pos) == Ok(Parsed(s[..n], pos + k)) && Printed(data, pos + k, s[n..])
    && |EscapeAll(s)| == k + |EscapeAll(s[n..])|
  }

  ghost predicate TakesSome(step: CharReader, data: Bytes, pos: nat, s: Bytes)
  {
    s != [] && Printed(data, pos, s) ==> exists n: nat, k: nat :: TakesOne(step, data, pos, s, n, k)
  }

  ghost predicate Reads(step: CharReader, data: Bytes, pos: nat, s: Bytes)
  {
    CharsWith(step, data, pos) == Ok(Parsed(s, pos + |EscapeAll(s)| + 1))
  }

  lemma {:induction false} ReadsEmpty(step: CharReader, data: Bytes, pos: nat, s: Bytes)
    requires s == [] && Printed(data, pos, s)
    ensures Reads(step, data, pos, s)
  {
    assert data[pos] == data[pos..pos + 1][0];
  }

  lemma {:induction false} ReadsCons(step: CharReader, data: Bytes, pos: nat, s: Bytes, n: nat, k: nat)
    requires TakesOne(step, data, pos, s, n, k) && Reads(step, data, pos + k, s[n..])
    ensures Reads(step, data, pos, s)
  {
    assert s == s[..n] + s[n..];
  }

  ghost predicate TakesAll(step: CharReader, data: Bytes)
  {
    forall p: nat, t :: TakesSome(step, data, p, t)
  }

  lemma {:induction false} TakeNext(step: CharReader, data: Bytes, pos: nat, s: Bytes) returns (n: nat, k: nat)
    requires TakesAll(step, data) && s != [] && Printed(data, pos, s)
    ensures 0 < n <= |s| && Printed(data, pos + k, s[n..])
    ensures Reads(step, data, pos + k, s[n..]) ==> Reads(step, data, pos, s)
  {
    assert TakesSome(step, data, pos, s);
    n, k :| TakesOne(step, data, pos, s, n, k);
    if Reads(step, data, pos + k, s[n..]) { ReadsCons(step, data, pos, s, n, k); }
  }

  lemma {:induction false} PrintedReads(step: CharReader, data: Bytes, pos: nat, s: Bytes)
    requires TakesAll(step, data) && Printed(data, pos, s)
    ensures Reads(step, data, pos, s)
    decreases |s|
  {
    if s == [] {
      ReadsEmpty(step, data, pos, s);
    } else {
      var n, k := TakeNext(step, data, pos, s);
      PrintedReads(step, data, pos + k, s[n..]);
    }
  }

  lemma {:induction false} ReadCharTakes(data: Bytes, pos: nat, s: Bytes)
    ensures TakesSome(ReadChar, data, pos, s)
  {
    if s != [] && Printed(data, pos, s) {
      var n, k := NextRune(data, pos, s);
      assert TakesOne(ReadChar, data, pos, s, n, k);
    }
  }

  lemma {:induction false} ReadCharTakesAll(data: Bytes)
    ensures TakesAll(ReadChar, data)
  {
    forall p: nat, t ensures TakesSome(ReadChar, data, p, t) { ReadCharTakes(data, p, t); }
  }

  /** Printing a good string and reading it gives it back, whatever follows. */
  lemma {:induction false} StringRoundTrip(data: Bytes, pos: nat, s: Bytes)
    requires Printed(data, pos, s)
    ensures CharsAt(data, pos) == Ok(Parsed(s, pos + |EscapeAll(s)| + 1))
  {
    ReadCharTakesAll(data);
    PrintedReads(ReadChar, data, pos, s);
  }

  /** The first rune of s, and the k bytes it is printed in. */
  lemma {:induction false} NextRune(data: Bytes, pos: nat, s: Bytes) returns (n: nat, k: nat)
    requires s != [] && Printed(data, pos, s)
    ensures 0 < n <= |s| && 0 < k && OneCharacter(data, pos, s[..n], k) && Printed(data, pos + k, s[n..])
    ensures |EscapeAll(s)| == k + |EscapeAll(s[n..])|
  {
    n := Utf8.First(s).value.1;
    if s[0] < 0x80 {
      k := |Escape(s[0])|;
      AsciiStep(data, pos, s);
      assert s[..1] == [s[0]];
    } else {
      k := n;
      HighStep(data, pos, s);
    }
  }

  lemma {:induction false} AsciiStep(data: Bytes, pos: nat, s: Bytes)
    requires s != [] && s[0] < 0x80 && At(data, pos, EscapeAll(s) + [QUOTE])
    ensures var k := |Escape(s[0])|;
      && At(data, pos + k, EscapeAll(s[1..]) + [QUOTE]) && |EscapeAll(s)| == k + |EscapeAll(s[1..])|
      && OneCharacter(data, pos, [s[0]], k)
  {
    assert EscapeAll(s) + [QUOTE] == Escape(s[0]) + (EscapeAll(s[1..]) + [QUOTE]);
    AtSplit(data, pos, Escape(s[0]), EscapeAll(s[1..]) + [QUOTE]);
    EscapedByteReads(data, pos, s[0]);
  }

  lemma {:induction false} HighStep(data: Bytes, pos: nat, s: Bytes)
    requires s != [] && s[0] >= 0x80 && Utf8.First(s).Some? && !IsNoncharacter(Utf8.First(s).value.0)
    requires At(data, pos, EscapeAll(s) + [QUOTE])
    ensures var n := Utf8.First(s).value.1;
      && At(data, pos + n, EscapeAll(s[n..]) + [QUOTE]) && |EscapeAll(s)| == n + |EscapeAll(s[n..])|
      && OneCharacter(data, pos, s[..n], n)
  {
    var n := Utf8.First(s).value.1;
    RuneIsHigh(s);
    EscapeHigh(s, n);
    var tail := EscapeAll(s[n..]) + [QUOTE];
    assert EscapeAll(s) + [QUOTE] == s[..n] + tail;
    AtSplit(data, pos, s[..n], tail);
    HighReads(data, pos, s);
  }

  /** The bytes of a rune above U+007F are copied as they are. */
  lemma {:induction false} EscapeHigh(s: Bytes, n: nat)
    requires n <= |s| && forall i | 0 <= i < n :: s[i] >= 0x80
    ensures EscapeAll(s) == s[..n] + EscapeAll(s[n..])
    decreases n
  {
    if n > 0 {
      EscapeHigh(s[1..], n - 1);
      Shifted(s, n, EscapeAll(s[n..]));
      assert EscapeAll(s) == [s[0]] + EscapeAll(s[1..]);
    }
  }

  lemma {:induction false} Shifted(s: Bytes, n: nat, rest: Bytes)
    requires 0 < n <= |s|
    ensures s[1..][n - 1..] == s[n..] && [s[0]] + (s[1..][..n - 1] + rest) == s[..n] + rest
  {
  }

  lemma {:induction false} RuneIsHigh(s: Bytes)
    requires s != [] && s[0] >= 0x80 && Utf8.First(s).Some?
    ensures forall i | 0 <= i < Utf8.First(s).value.1 :: s[i] >= 0x80
  {
  }

  lemma {:induction false} HighReads(data: Bytes, pos: nat, s: Bytes)
    requires s != [] && s[0] >= 0x80 && Utf8.First(s).Some? && !IsNoncharacter(Utf8.First(s).value.0)
    requires At(data, pos, s[..Utf8.First(s).value.1])
    ensures var n := Utf8.First(s).value.1;
      OneCharacter(data, pos, s[..n], n)
  {
    var d := Utf8.First(s).value;
    Utf8.EncodeOfFirst(s);
    HighRune(data, pos, d.0, s[..d.1]);
  }

  lemma {:induction false} HighRune(data: Bytes, pos: nat, r: Utf8.Rune, w: Bytes)
    requires Utf8.Scalar(r) && !IsNoncharacter(r) && w == Utf8.Encode(r) && w[0] >= 0x80 && At(data, pos, w)
    ensures OneCharacter(data, pos, w, |w|)
  {
    var rest := data[pos + |w|..];
    assert data[pos..] == w + rest;
    Utf8.FirstOfEncode(r, rest);
    assert Utf8.First(data[pos..]) == Some((r, |w|));
    assert data[pos] == (w + rest)[0] == w[0];
  }
}
