/** What a JSON string or number may look like, and what the parser makes of it: RFC 8259 sections 6 and 7. */
module JsonSpelling {
  import opened Octets
  import Utf8
  import opened JsonText
  import opened JsonNumbers

  // ---- one character of a string ----

  /** The two-character escapes: the letter after the backslash, and what it stands for. */
  const SHORT: map<byte, byte> := map[
    QUOTE := QUOTE, BACKSLASH := BACKSLASH, 0x2f := 0x2f, 0x62 := 0x08, 0x66 := 0x0c, 0x6e := 0x0a, 0x72 := 0x0d, 0x74 := 0x09]

  /** Four hex digits of either case, most significant first. */
  predicate HexWord(w: Bytes, n: nat)
  {
    && |w| == 4 && (forall i | 0 <= i < 4 :: HexValue(w[i]).Some?)
    && n == HexValue(w[0]).value * 0x1000 + HexValue(w[1]).value * 0x100 + HexValue(w[2]).value * 0x10 + HexValue(w[3]).value
  }

  predicate UnitEscape(w: Bytes, n: nat)
  {
    |w| == 6 && w[0] == BACKSLASH && w[1] == 0x75 && HexWord(w[2..], n)
  }

  predicate RawCharacter(w: Bytes, r: Utf8.Rune)
  {
    w == Utf8.Encode(r) && r >= 0x20 && r != QUOTE && r != BACKSLASH
  }

  predicate ShortEscape(w: Bytes, r: Utf8.Rune)
  {
    |w| == 2 && w[0] == BACKSLASH && w[1] in SHORT && SHORT[w[1]] == r
  }

  /** A high surrogate and a low one, both escaped. */
  ghost predicate PairEscape(w: Bytes, r: Utf8.Rune)
  {
    |w| == 12
    && exists hi: nat, lo: nat ::
      && UnitEscape(w[..6], hi) && UnitEscape(w[6..], lo) && 0xD800 <= hi < 0xDC00 <= lo < 0xE000
      && r == 0x1_0000 + (hi - 0xD800) * 0x400 + (lo - 0xDC00)
  }

  /** w spells the character r, which is a scalar value and no noncharacter. */
  ghost predicate SpellsRune(w: Bytes, r: Utf8.Rune)
  {
    && Utf8.Scalar(r) && !IsNoncharacter(r)
    && (RawCharacter(w, r) || ShortEscape(w, r) || UnitEscape(w, r) || PairEscape(w, r))
  }

  lemma {:induction false} HexReads(data: Bytes, pos: nat, n: nat)
    requires pos + 4 <= |data|
    ensures Hex4(data, pos) == Some(n) <==> HexWord(data[pos..pos + 4], n)
  {
    var w := data[pos..pos + 4];
    assert w[0] == data[pos] && w[1] == data[pos + 1] && w[2] == data[pos + 2] && w[3] == data[pos + 3];
    assert Hex(data, pos, 1) == HexValue(w[0]);
    assert Hex(data, pos, 2).Some? <==> HexValue(w[0]).Some? && HexValue(w[1]).Some?;
    assert Hex(data, pos, 3).Some? <==> Hex(data, pos, 2).Some? && HexValue(w[2]).Some?;
    assert Hex(data, pos, 4).Some? <==> Hex(data, pos, 3).Some? && HexValue(w[3]).Some?;
  }

  /** What the parser takes for one character is a spelling of it. */
  lemma {:induction false} CharacterSpelled(data: Bytes, pos: nat) returns (r: Utf8.Rune)
    requires pos < |data| && data[pos] != QUOTE && CharAt(data, pos).Ok?
    ensures var p := CharAt(data, pos).value; SpellsRune(data[pos..p.next], r) && p.v == Utf8.Encode(r)
  {
    var p := CharAt(data, pos).value;
    var w := data[pos..p.next];
    if data[pos] == BACKSLASH {
      r := EscapeAt(data, pos).value.v;
      EscapeSpelled(data, pos);
    } else if data[pos] < 0x80 {
      r := data[pos];
      assert w == [data[pos]];
    } else {
      r := Utf8.First(data[pos..]).value.0;
      RawSpelled(data, pos);
    }
  }

  lemma {:induction false} RawSpelled(data: Bytes, pos: nat)
    requires pos < |data| && data[pos] >= 0x80 && Utf8.First(data[pos..]).Some?
    ensures var d := Utf8.First(data[pos..]).value; RawCharacter(data[pos..pos + d.1], d.0)
  {
    var d := Utf8.First(data[pos..]).value;
    Utf8.EncodeOfFirst(data[pos..]);
    assert data[pos..][..d.1] == data[pos..pos + d.1];
  }

  lemma {:induction false} EscapeSpelled(data: Bytes, pos: nat)
    requires pos < |data| && data[pos] == BACKSLASH && EscapeAt(data, pos).Ok?
    ensures var p := EscapeAt(data, pos).value; SpellsRune(data[pos..p.next], p.v)
  {
    var p := EscapeAt(data, pos).value;
    var w := data[pos..p.next];
    assert w[0] == BACKSLASH && w[1] == data[pos + 1];
    if data[pos + 1] == 0x75 {
      UnicodeSpelled(data, pos);
    } else {
      assert ShortEscape(w, p.v);
    }
  }

  lemma {:induction false} UnicodeSpelled(data: Bytes, pos: nat)
    requires pos + 1 < |data| && data[pos] == BACKSLASH && data[pos + 1] == 0x75 && UnicodeEscape(data, pos + 2).Ok?
    ensures var p := UnicodeEscape(data, pos + 2).value; SpellsRune(data[pos..p.next], p.v)
  {
    var p := UnicodeEscape(data, pos + 2).value;
    var hi := Hex4(data, pos + 2).value;
    UnitSpelled(data, pos, hi);
    if 0xD800 <= hi < 0xDC00 {
      var lo := Hex4(data, pos + 8).value;
      UnitSpelled(data, pos + 6, lo);
      var w := data[pos..pos + 12];
      assert w[..6] == data[pos..pos + 6] && w[6..] == data[pos + 6..pos + 12];
      assert PairEscape(w, p.v);
    }
  }

  lemma {:induction false} UnitSpelled(data: Bytes, pos: nat, n: nat)
    requires pos + 6 <= |data|
    ensures UnitEscape(data[pos..pos + 6], n) <==> data[pos] == BACKSLASH && data[pos + 1] == 0x75 && Hex4(data, pos + 2) == Some(n)
  {
    HexReads(data, pos + 2, n);
    assert data[pos..pos + 6][2..] == data[pos + 2..pos + 6];
  }

  /** A spelling of a character is read as that character, whatever follows it. */
  lemma {:induction false} SpelledCharacterReads(data: Bytes, pos: nat, w: Bytes, r: Utf8.Rune)
    requires SpellsRune(w, r) && At(data, pos, w)
    ensures w != [] && pos < |data| && data[pos] != QUOTE && CharAt(data, pos) == Ok(Parsed(Utf8.Encode(r), pos + |w|))
  {
    if RawCharacter(w, r) {
      RawReads(data, pos, r);
    } else {
      AtByte(data, pos, w, 0);
      AtByte(data, pos, w, 1);
      if ShortEscape(w, r) {
      } else if UnitEscape(w, r) {
        UnitSpelled(data, pos, r);
      } else {
        PairReads(data, pos, w, r);
      }
    }
  }

  lemma {:induction false} PairReads(data: Bytes, pos: nat, w: Bytes, r: Utf8.Rune)
    requires PairEscape(w, r) && At(data, pos, w) && !IsNoncharacter(r)
    ensures data[pos] == BACKSLASH && data[pos + 1] == 0x75 && UnicodeEscape(data, pos + 2) == Ok(Parsed(r, pos + 12))
  {
    var hi: nat, lo: nat :|
      && UnitEscape(w[..6], hi) && UnitEscape(w[6..], lo) && 0xD800 <= hi < 0xDC00 <= lo < 0xE000
      && r == 0x1_0000 + (hi - 0xD800) * 0x400 + (lo - 0xDC00);
    PairSpelled(data, pos, w, hi, lo);
    UnitsRead(data, pos, hi, lo);
  }

  lemma {:induction false} PairSpelled(data: Bytes, pos: nat, w: Bytes, hi: nat, lo: nat)
    requires |w| == 12 && At(data, pos, w) && UnitEscape(w[..6], hi) && UnitEscape(w[6..], lo)
    ensures data[pos] == BACKSLASH && data[pos + 1] == 0x75 && Hex4(data, pos + 2) == Some(hi)
    ensures data[pos + 6] == BACKSLASH && data[pos + 7] == 0x75 && Hex4(data, pos + 8) == Some(lo)
  {
    Slices(data, pos, pos + 6, pos + 12);
    UnitSpelled(data, pos, hi);
    UnitSpelled(data, pos + 6, lo);
  }

  lemma {:induction false} UnitsRead(data: Bytes, pos: nat, hi: nat, lo: nat)
    requires pos + 12 <= |data| && data[pos + 6] == BACKSLASH && data[pos + 7] == 0x75
    requires Hex4(data, pos + 2) == Some(hi) && Hex4(data, pos + 8) == Some(lo) && 0xD800 <= hi < 0xDC00 <= lo < 0xE000
    ensures UnicodeEscape(data, pos + 2) == CheckCharacter(0x1_0000 + (hi - 0xD800) * 0x400 + (lo - 0xDC00), pos + 12)
  {
  }

  /** A slice in two. */
  lemma {:induction false} Slices(data: Bytes, a: nat, b: nat, c: nat)
    requires a <= b <= c <= |data|
    ensures data[a..c][..b - a] == data[a..b] && data[a..c][b - a..] == data[b..c] && data[a..c] == data[a..b] + data[b..c]
  {
  }

  lemma {:induction false} RawReads(data: Bytes, pos: nat, r: Utf8.Rune)
    requires Utf8.Scalar(r) && !IsNoncharacter(r) && RawCharacter(Utf8.Encode(r), r) && At(data, pos, Utf8.Encode(r))
    ensures pos < |data| && data[pos] != QUOTE && data[pos] != BACKSLASH
    ensures CharAt(data, pos) == Ok(Parsed(Utf8.Encode(r), pos + |Utf8.Encode(r)|))
  {
    var w := Utf8.Encode(r);
    var rest := data[pos + |w|..];
    assert data[pos..] == w + rest;
    Utf8.FirstOfEncode(r, rest);
    assert data[pos] == data[pos..][0] == (w + rest)[0] == w[0];
    assert data[pos..pos + |w|] == w;
    if r < 0x80 { assert w == [r]; }
  }

  // ---- strings ----

  function Concat(ws: seq<Bytes>): Bytes { if ws == [] then [] else ws[0] + Concat(ws[1..]) }

  /** The texts ws spell the characters rs one by one. */
  ghost predicate SpellEach(ws: seq<Bytes>, rs: seq<Utf8.Rune>)
  {
    |ws| == |rs| && forall i | 0 <= i < |ws| :: SpellsRune(ws[i], rs[i])
  }

  /** w spells the characters rs one after another. */
  ghost predicate SpellsRunes(w: Bytes, rs: seq<Utf8.Rune>)
  {
    exists ws :: Concat(ws) == w && SpellEach(ws, rs)
  }

  /** w spells characters whose UTF-8 is s. */
  ghost predicate SpellsText(w: Bytes, s: Bytes)
  {
    exists rs :: SpellsRunes(w, rs) && s == Utf8.EncodeAll(rs)
  }

  /** w is a string in quotes with the contents s. */
  ghost predicate SpellsString(w: Bytes, s: Bytes)
  {
    |w| >= 2 && w[0] == w[|w| - 1] == QUOTE && SpellsText(w[1..|w| - 1], s)
  }

  lemma {:induction false} CharactersSpelled(data: Bytes, pos: nat) returns (ws: seq<Bytes>, rs: seq<Utf8.Rune>)
    requires pos <= |data| && CharsAt(data, pos).Ok?
    ensures var p := CharsAt(data, pos).value;
      && pos < p.next <= |data| && data[p.next - 1] == QUOTE && p.v == Utf8.EncodeAll(rs)
      && Concat(ws) == data[pos..p.next - 1] && SpellEach(ws, rs)
    decreases |data| - pos
  {
    var p := CharsAt(data, pos).value;
    if data[pos] == QUOTE {
      ws, rs := [], [];
    } else {
      var c := CharAt(data, pos).value;
      CharsStep(data, pos);
      var r := CharacterSpelled(data, pos);
      ws, rs := CharactersSpelled(data, c.next);
      Slices(data, pos, c.next, p.next - 1);
      SpellCons(data[pos..c.next], r, ws, rs);
      ws, rs := [data[pos..c.next]] + ws, [r] + rs;
    }
  }

  lemma {:induction false} SpellCons(w: Bytes, r: Utf8.Rune, ws: seq<Bytes>, rs: seq<Utf8.Rune>)
    requires SpellsRune(w, r) && SpellEach(ws, rs)
    ensures SpellEach([w] + ws, [r] + rs) && Concat([w] + ws) == w + Concat(ws)
    ensures Utf8.EncodeAll([r] + rs) == Utf8.Encode(r) + Utf8.EncodeAll(rs)
  {
    assert ([w] + ws)[1..] == ws && ([r] + rs)[1..] == rs;
  }

  lemma {:induction false} CharsStep(data: Bytes, pos: nat)
    requires pos < |data| && data[pos] != QUOTE
    ensures CharAt(data, pos).Err? ==> CharsAt(data, pos).Err?
    ensures CharAt(data, pos).Ok? ==>
      var c := CharAt(data, pos).value; CharsAt(data, pos) == Prepend(c.v, CharsAt(data, c.next))
  {
    assert ReadChar(data, pos) == CharAt(data, pos);
  }

  // The loop over characters, for any reader of one character, so that a proof does not unfold the reader.

  ghost predicate ReadsAs(step: CharReader, data: Bytes, pos: nat, s: Bytes, next: nat)
  {
    CharsWith(step, data, pos) == Ok(Parsed(s, next))
  }

  ghost predicate StepReads(step: CharReader, data: Bytes, pos: nat, w: Bytes, r: Utf8.Rune)
  {
    SpellsRune(w, r) && At(data, pos, w) ==>
      w != [] && pos < |data| && data[pos] != QUOTE && step(data, pos) == Ok(Parsed(Utf8.Encode(r), pos + |w|))
  }

  lemma {:induction false} ReadsMore(step: CharReader, data: Bytes, pos: nat, a: Bytes, mid: nat, b: Bytes, next: nat)
    requires pos < |data| && data[pos] != QUOTE && step(data, pos) == Ok(Parsed(a, mid)) && pos < mid
    ensures ReadsAs(step, data, mid, b, next) ==> ReadsAs(step, data, pos, a + b, next)
  {
  }

  lemma {:induction false} ClosingQuote(step: CharReader, data: Bytes, pos: nat)
    requires At(data, pos, [QUOTE])
    ensures ReadsAs(step, data, pos, [], pos + 1)
  {
    AtByte(data, pos, [QUOTE], 0);
  }

  lemma {:induction false} SpelledCharactersReadWith(
    step: CharReader, data: Bytes, pos: nat, ws: seq<Bytes>, rs: seq<Utf8.Rune>)
    requires forall p: nat, v, r :: StepReads(step, data, p, v, r)
    requires SpellEach(ws, rs) && At(data, pos, Concat(ws) + [QUOTE])
    ensures ReadsAs(step, data, pos, Utf8.EncodeAll(rs), pos + |Concat(ws)| + 1)
    decreases |rs|
  {
    if rs == [] {
      assert Concat(ws) + [QUOTE] == [QUOTE];
      ClosingQuote(step, data, pos);
    } else {
      var w, rest := ws[0], Concat(ws[1..]);
      assert Concat(ws) + [QUOTE] == w + (rest + [QUOTE]);
      AtSplit(data, pos, w, rest + [QUOTE]);
      assert SpellsRune(ws[0], rs[0]) && StepReads(step, data, pos, w, rs[0]);
      ReadsMore(step, data, pos, Utf8.Encode(rs[0]), pos + |w|, Utf8.EncodeAll(rs[1..]), pos + |Concat(ws)| + 1);
      SpelledCharactersReadWith(step, data, pos + |w|, ws[1..], rs[1..]);
    }
  }

  lemma {:induction false} SpelledCharactersRead(data: Bytes, pos: nat, w: Bytes, rs: seq<Utf8.Rune>)
    requires SpellsRunes(w, rs) && At(data, pos, w + [QUOTE])
    ensures CharsAt(data, pos) == Ok(Parsed(Utf8.EncodeAll(rs), pos + |w| + 1))
  {
    forall p: nat, v, r ensures StepReads(ReadChar, data, p, v, r) {
      if SpellsRune(v, r) && At(data, p, v) { SpelledCharacterReads(data, p, v, r); }
    }
    var ws :| Concat(ws) == w && SpellEach(ws, rs);
    SpelledCharactersReadWith(ReadChar, data, pos, ws, rs);
  }

  /** A string is read from its opening quote exactly as far as, and as, what is spelled there. */
  lemma {:induction false} StringsExactly(data: Bytes, pos: nat, s: Bytes, next: nat)
    requires pos < |data| && data[pos] == QUOTE
    ensures CharsAt(data, pos + 1) == Ok(Parsed(s, next)) <==> pos < next <= |data| && SpellsString(data[pos..next], s)
  {
    if CharsAt(data, pos + 1) == Ok(Parsed(s, next)) { StringSpelled(data, pos); }
    if pos < next <= |data| && SpellsString(data[pos..next], s) {
      BodySpelled(data, pos, next, s);
      SpelledBodyReads(data, pos + 1, data[pos + 1..next - 1], s);
    }
  }

  lemma {:induction false} BodySpelled(data: Bytes, pos: nat, next: nat, s: Bytes)
    requires pos < next <= |data| && SpellsString(data[pos..next], s)
    ensures pos + 2 <= next && At(data, pos + 1, data[pos + 1..next - 1] + [QUOTE]) && SpellsText(data[pos + 1..next - 1], s)
  {
    InQuotes(data, pos, next);
  }

  lemma {:induction false} StringSpelled(data: Bytes, pos: nat)
    requires pos < |data| && data[pos] == QUOTE && CharsAt(data, pos + 1).Ok?
    ensures var p := CharsAt(data, pos + 1).value; SpellsString(data[pos..p.next], p.v)
  {
    var ws, rs := CharactersSpelled(data, pos + 1);
    InQuotes(data, pos, CharsAt(data, pos + 1).value.next);
  }

  lemma {:induction false} SpelledBodyReads(data: Bytes, pos: nat, w: Bytes, s: Bytes)
    requires At(data, pos, w + [QUOTE]) && SpellsText(w, s)
    ensures CharsAt(data, pos) == Ok(Parsed(s, pos + |w| + 1))
  {
    var rs :| SpellsRunes(w, rs) && s == Utf8.EncodeAll(rs);
    SpelledCharactersRead(data, pos, w, rs);
  }

  lemma {:induction false} InQuotes(data: Bytes, pos: nat, next: nat)
    requires pos + 2 <= next <= |data|
    ensures var w := data[pos..next];
      && w[0] == data[pos] && w[|w| - 1] == data[next - 1] && w[1..|w| - 1] == data[pos + 1..next - 1]
      && (data[next - 1] == QUOTE ==> At(data, pos + 1, data[pos + 1..next - 1] + [QUOTE]))
  {
    var w := data[pos..next];
    assert w == [w[0]] + data[pos + 1..next - 1] + [data[next - 1]];
    if data[next - 1] == QUOTE { assert data[pos + 1..next - 1] + [QUOTE] == data[pos + 1..next]; }
  }

  // ---- the canonical spelling ----

  /** How the printer spells a character. */
  function Canonical(r: Utf8.Rune): Bytes { if r < 0x80 then Escape(r) else Utf8.Encode(r) }

  /** No hex digit is a capital letter. */
  predicate LowerHex(w: Bytes)
  {
    |w| == 6 ==> forall i | 2 <= i < 6 :: !(0x41 <= w[i] <= 0x46)
  }

  /**
   The printer gives each character its shortest spelling: a short escape where there is one and no raw character is
   allowed, a unit escape in small letters for the other controls, and the character itself for the rest.
   */
  lemma {:induction false} CanonicalIsShortest(w: Bytes, r: Utf8.Rune)
    requires SpellsRune(w, r)
    ensures SpellsRune(Canonical(r), r) && LowerHex(Canonical(r)) && |Canonical(r)| <= |w|
    ensures |w| == |Canonical(r)| && LowerHex(w) ==> w == Canonical(r)
  {
    CanonicalSpells(r);
    if UnitEscape(w, r) && |Canonical(r)| == 6 && LowerHex(w) {
      UnitIsUnique(w, Canonical(r), r);
    }
    if ShortEscape(w, r) && |Canonical(r)| == 2 {
      assert w == [BACKSLASH, w[1]];
    }
  }

  lemma {:induction false} CanonicalSpells(r: Utf8.Rune)
    requires Utf8.Scalar(r) && !IsNoncharacter(r)
    ensures SpellsRune(Canonical(r), r) && LowerHex(Canonical(r))
    ensures r < 0x80 && |Canonical(r)| == 2 ==> ShortEscape(Canonical(r), r) && r != 0x2f
    ensures |Canonical(r)| == 6 ==> UnitEscape(Canonical(r), r) && r < 0x20 && (forall k | k in SHORT :: SHORT[k] != r)
  {
    var w := Canonical(r);
    if |w| == 6 { assert w[2..] == [0x30, 0x30, HexDigit(r / 16), HexDigit(r % 16)]; }
  }

  lemma {:induction false} UnitIsUnique(a: Bytes, b: Bytes, n: nat)
    requires UnitEscape(a, n) && UnitEscape(b, n) && LowerHex(a) && LowerHex(b)
    ensures a == b
  {
    HexIsUnique(a[2..], b[2..], n);
    assert a == [BACKSLASH, 0x75] + a[2..] && b == [BACKSLASH, 0x75] + b[2..];
  }

  lemma {:induction false} HexIsUnique(a: Bytes, b: Bytes, n: nat)
    requires HexWord(a, n) && HexWord(b, n)
    requires forall i | 0 <= i < 4 :: !(0x41 <= a[i] <= 0x46) && !(0x41 <= b[i] <= 0x46)
    ensures a == b
  {
    assert forall i | 0 <= i < 4 :: HexValue(a[i]).value < 16 && HexValue(b[i]).value < 16;
    assert forall i | 0 <= i < 4 :: HexValue(a[i]) == HexValue(b[i]) ==> a[i] == b[i];
    SameDigits(HexValue(a[0]).value, HexValue(a[1]).value, HexValue(a[2]).value, HexValue(a[3]).value,
               HexValue(b[0]).value, HexValue(b[1]).value, HexValue(b[2]).value, HexValue(b[3]).value);
  }

  lemma {:induction false} SameDigits(a: nat, b: nat, c: nat, d: nat, e: nat, f: nat, g: nat, h: nat)
    requires a < 16 && b < 16 && c < 16 && d < 16 && e < 16 && f < 16 && g < 16 && h < 16
    requires a * 0x1000 + b * 0x100 + c * 0x10 + d == e * 0x1000 + f * 0x100 + g * 0x10 + h
    ensures a == e && b == f && c == g && d == h
  {
  }

  function CanonicalAll(rs: seq<Utf8.Rune>): Bytes
  {
    if rs == [] then [] else Canonical(rs[0]) + CanonicalAll(rs[1..])
  }

  /** The printer spells a string character by character. */
  lemma {:induction false} PrintedCharacters(rs: seq<Utf8.Rune>)
    ensures EscapeAll(Utf8.EncodeAll(rs)) == CanonicalAll(rs)
    decreases |rs|
  {
    if rs != [] {
      var w, rest := Utf8.Encode(rs[0]), Utf8.EncodeAll(rs[1..]);
      PrintedCharacters(rs[1..]);
      if rs[0] < 0x80 {
        EscapeOne(rs[0], rest);
      } else {
        assert forall i | 0 <= i < |w| :: (w + rest)[i] >= 0x80;
        EscapeHigh(w + rest, |w|);
        assert (w + rest)[..|w|] == w && (w + rest)[|w|..] == rest;
      }
    }
  }

  lemma {:induction false} EscapeOne(c: byte, rest: Bytes)
    ensures EscapeAll([c] + rest) == Escape(c) + EscapeAll(rest)
  {
    assert ([c] + rest)[1..] == rest;
  }

  /** No spelling of a string is shorter than the printed one. */
  lemma {:induction false} PrintedIsShortest(w: Bytes, s: Bytes)
    requires SpellsString(w, s)
    ensures |PrintString(s)| <= |w|
  {
    var rs :| SpellsRunes(w[1..|w| - 1], rs) && s == Utf8.EncodeAll(rs);
    var ws :| Concat(ws) == w[1..|w| - 1] && SpellEach(ws, rs);
    PrintedCharacters(rs);
    EachIsShortest(ws, rs);
  }

  lemma {:induction false} EachIsShortest(ws: seq<Bytes>, rs: seq<Utf8.Rune>)
    requires SpellEach(ws, rs)
    ensures |CanonicalAll(rs)| <= |Concat(ws)|
    decreases |rs|
  {
    if rs != [] {
      CanonicalIsShortest(ws[0], rs[0]);
      EachIsShortest(ws[1..], rs[1..]);
    }
  }

  // ---- numbers ----

  /** An exponent as it may be written: e or E, and a plus sign or none before a positive one. */
  predicate SpellsExponent(x: Bytes, t: Token)
  {
    if t.exp == [] then x == [] && !t.expNeg
    else
      && x != [] && (x[0] == 0x65 || x[0] == 0x45)
      && (x[1..] == [if t.expNeg then MINUS else PLUS] + t.exp || (x[1..] == t.exp && !t.expNeg))
  }

  /** The text of t up to its exponent: an optional minus, digits without a leading zero, and a fraction. */
  function Mantissa(t: Token): Bytes { Sign(t.neg) + (t.ints + RenderFraction(t)) }

  /** w is a number with the parts of t. */
  predicate SpellsToken(w: Bytes, t: Token)
  {
    TokenOk(t) && IntsOk(t.ints) && Mantissa(t) <= w && SpellsExponent(w[|Mantissa(t)|..], t)
  }

  lemma {:induction false} ExponentSpelled(data: Bytes, pos: nat, t: Token)
    requires pos <= |data| && TokenOk(t) && t.exp == [] && !t.expNeg && ExponentAt(data, pos, t).Ok?
    ensures var p := ExponentAt(data, pos, t).value;
      && p.v == t.(expNeg := p.v.expNeg, exp := p.v.exp) && pos <= p.next <= |data|
      && SpellsExponent(data[pos..p.next], p.v)
  {
    var p := ExponentAt(data, pos, t).value;
    var x := data[pos..p.next];
    if p.v.exp != [] {
      assert x[0] == data[pos];
      var signed := data[pos + 1] == PLUS || data[pos + 1] == MINUS;
      if signed {
        assert x[1..] == [data[pos + 1]] + data[pos + 2..p.next];
      } else {
        assert x[1..] == data[pos + 1..p.next];
      }
    } else {
      NoExponent(data, pos, t);
    }
  }

  lemma {:induction false} NoExponent(data: Bytes, pos: nat, t: Token)
    requires pos <= |data| && TokenOk(t) && t.exp == [] && ExponentAt(data, pos, t).Ok? && ExponentAt(data, pos, t).value.v.exp == []
    ensures ExponentAt(data, pos, t) == Ok(Parsed(t, pos))
  {
  }

  lemma {:induction false} ExponentSpellingReads(data: Bytes, pos: nat, x: Bytes, t: Token)
    requires TokenOk(t) && SpellsExponent(x, t) && At(data, pos, x) && Ends(data, pos + |x|)
    ensures ExponentAt(data, pos, t.(expNeg := false, exp := [])) == Ok(Parsed(t, pos + |x|))
  {
    if t.exp != [] {
      var sign := if t.expNeg then MINUS else PLUS;
      assert x == [x[0]] + x[1..];
      if x[1..] == [sign] + t.exp {
        assert [x[0]] + ([sign] + t.exp) == [x[0], sign] + t.exp;
        SignedExponent(data, pos, x[0], t);
      } else {
        UnsignedExponent(data, pos, x[0], t);
      }
    }
  }

  lemma {:induction false} SignedExponent(data: Bytes, pos: nat, e: byte, t: Token)
    requires TokenOk(t) && t.exp != [] && (e == 0x65 || e == 0x45)
    requires var mark := [e, if t.expNeg then MINUS else PLUS]; At(data, pos, mark + t.exp) && Ends(data, pos + 2 + |t.exp|)
    ensures ExponentAt(data, pos, t.(expNeg := false, exp := [])) == Ok(Parsed(t, pos + 2 + |t.exp|))
  {
    var mark := [e, if t.expNeg then MINUS else PLUS];
    AtSplit(data, pos, mark, t.exp);
    AtByte(data, pos, mark, 0);
    AtByte(data, pos, mark, 1);
    DigitsEndAt(data, pos + 2, t.exp);
  }

  lemma {:induction false} UnsignedExponent(data: Bytes, pos: nat, e: byte, t: Token)
    requires TokenOk(t) && t.exp != [] && !t.expNeg && (e == 0x65 || e == 0x45)
    requires At(data, pos, [e] + t.exp) && Ends(data, pos + 1 + |t.exp|)
    ensures ExponentAt(data, pos, t.(expNeg := false, exp := [])) == Ok(Parsed(t, pos + 1 + |t.exp|))
  {
    AtSplit(data, pos, [e], t.exp);
    AtByte(data, pos, [e], 0);
    AtByte(data, pos + 1, t.exp, 0);
    DigitsEndAt(data, pos + 1, t.exp);
  }

  lemma {:induction false} IntsSpelled(data: Bytes, pos: nat)
    requires pos < |data| && IntsAt(data, pos).Ok?
    ensures var p := IntsAt(data, pos).value;
      && IntsOk(p.v.ints) && p.v == Token(p.v.neg, p.v.ints, [], false, [])
      && p.next == pos + |Sign(p.v.neg)| + |p.v.ints| && data[pos..p.next] == Sign(p.v.neg) + p.v.ints
  {
    var p := IntsAt(data, pos).value;
    var start := if data[pos] == MINUS then pos + 1 else pos;
    assert data[pos..p.next] == data[pos..start] + data[start..p.next];
    assert data[pos..start] == Sign(p.v.neg);
    if data[start] != ZERO { assert DigitsEnd(data, start) == DigitsEnd(data, start + 1); }
    assert p.v.ints == data[start..p.next] && p.v.ints[0] == data[start];
  }

  /** From pos to p.next stand the fraction and the exponent of p.v, whose other parts are those of t. */
  ghost predicate TailSpelled(data: Bytes, pos: nat, t: Token, p: Parsed<Token>)
  {
    var dot := pos + |RenderFraction(p.v)|;
    && dot <= p.next <= |data| && p.v == t.(frac := p.v.frac, expNeg := p.v.expNeg, exp := p.v.exp)
    && data[pos..dot] == RenderFraction(p.v) && SpellsExponent(data[dot..p.next], p.v)
  }

  lemma {:induction false} FractionSpelled(data: Bytes, pos: nat, t: Token, p: Parsed<Token>)
    requires pos <= |data| && TokenOk(t) && t.exp == [] && t.frac == [] && !t.expNeg && FractionAt(data, pos, t) == Ok(p)
    ensures TailSpelled(data, pos, t, p)
  {
    if pos < |data| && data[pos] == DOT {
      var end := DigitsEnd(data, pos + 1);
      FractionWithDot(data, pos, t, end);
      DottedTail(data, pos, end, t, p);
    } else {
      ExponentSpelled(data, pos, t);
      assert data[pos..pos] == [];
    }
  }

  lemma {:induction false} DottedTail(data: Bytes, pos: nat, end: nat, t: Token, p: Parsed<Token>)
    requires pos + 1 < end <= |data| && data[pos] == DOT && AllDigits(data[pos + 1..end])
    requires TokenOk(t) && t.exp == [] && !t.expNeg && ExponentAt(data, end, t.(frac := data[pos + 1..end])) == Ok(p)
    ensures TailSpelled(data, pos, t, p)
  {
    ExponentSpelled(data, end, t.(frac := data[pos + 1..end]));
    DotAndDigits(data, pos, end);
  }

  lemma {:induction false} FractionWithDot(data: Bytes, pos: nat, t: Token, end: nat)
    requires pos < |data| && data[pos] == DOT && end == DigitsEnd(data, pos + 1)
    requires TokenOk(t) && t.exp == [] && t.frac == [] && FractionAt(data, pos, t).Ok?
    ensures pos + 1 < end && FractionAt(data, pos, t) == ExponentAt(data, end, t.(frac := data[pos + 1..end]))
  {
  }

  lemma {:induction false} DotAndDigits(data: Bytes, pos: nat, end: nat)
    requires pos < end <= |data| && data[pos] == DOT
    ensures data[pos..end] == [DOT] + data[pos + 1..end]
  {
  }

  /** What the parser takes for a number is spelled like one. */
  lemma {:induction false} NumberSpelled(data: Bytes, pos: nat)
    requires pos < |data| && NumberAt(data, pos).Ok?
    ensures var p := NumberAt(data, pos).value; SpellsToken(data[pos..p.next], p.v)
  {
    var i := IntsAt(data, pos).value;
    var p := NumberAt(data, pos).value;
    IntsSpelled(data, pos);
    FractionSpelled(data, i.next, i.v, p);
    NumberParts(data, pos, i.next, i.next + |RenderFraction(p.v)|, p.next, Sign(p.v.neg), p.v.ints, RenderFraction(p.v));
  }

  lemma {:induction false} NumberParts(
    data: Bytes, pos: nat, mid: nat, dot: nat, next: nat, sign: Bytes, ints: Bytes, frac: Bytes)
    requires pos <= mid <= dot <= next <= |data| && data[pos..mid] == sign + ints && data[mid..dot] == frac
    ensures data[pos..next][..dot - pos] == sign + (ints + frac) && data[pos..next][dot - pos..] == data[dot..next]
    ensures dot - pos == |sign| + |ints| + |frac|
  {
    Slices(data, pos, mid, dot);
    Slices(data, pos, dot, next);
    assert (sign + ints) + frac == sign + (ints + frac);
  }

  /** A number so spelled is read as that number, as long as what follows cannot continue it. */
  lemma {:induction false} SpelledNumberReads(data: Bytes, pos: nat, w: Bytes, t: Token)
    requires SpellsToken(w, t) && At(data, pos, w) && Ends(data, pos + |w|)
    ensures pos < |data| && NumberAt(data, pos) == Ok(Parsed(t, pos + |w|))
  {
    var x := w[|Mantissa(t)|..];
    assert w == Mantissa(t) + x;
    SpelledPartsAt(data, pos, w, x, t);
    SpelledPartsRead(data, pos, t, x);
  }

  lemma {:induction false} SpelledPartsAt(data: Bytes, pos: nat, w: Bytes, x: Bytes, t: Token)
    requires w == Mantissa(t) + x && At(data, pos, w)
    ensures At(data, pos, Sign(t.neg)) && At(data, pos + |Sign(t.neg)|, t.ints)
    ensures At(data, IntsEnd(pos, t), RenderFraction(t)) && At(data, IntsEnd(pos, t) + |RenderFraction(t)|, x)
    ensures IntsEnd(pos, t) + |RenderFraction(t)| + |x| == pos + |w|
  {
    Together(Sign(t.neg), t.ints, RenderFraction(t), x);
    PartsAt(data, pos, Sign(t.neg), t.ints, RenderFraction(t), x);
  }

  lemma {:induction false} PartsAt(data: Bytes, pos: nat, a: Bytes, b: Bytes, c: Bytes, d: Bytes)
    requires At(data, pos, a + (b + (c + d)))
    ensures At(data, pos, a) && At(data, pos + |a|, b) && At(data, pos + |a| + |b|, c) && At(data, pos + |a| + |b| + |c|, d)
  {
    AtSplit(data, pos, a, b + (c + d));
    AtSplit(data, pos + |a|, b, c + d);
    AtSplit(data, pos + |a| + |b|, c, d);
  }

  lemma {:induction false} Together(sign: Bytes, ints: Bytes, frac: Bytes, x: Bytes)
    ensures (sign + (ints + frac)) + x == sign + (ints + (frac + x))
  {
  }

  lemma {:induction false} SpelledPartsRead(data: Bytes, pos: nat, t: Token, x: Bytes)
    requires TokenOk(t) && IntsOk(t.ints)
    requires At(data, pos, Sign(t.neg)) && At(data, pos + |Sign(t.neg)|, t.ints) && At(data, IntsEnd(pos, t), RenderFraction(t))
    requires var dot := IntsEnd(pos, t) + |RenderFraction(t)|;
      At(data, dot, x) && SpellsExponent(x, t) && Ends(data, dot + |x|)
    ensures pos < |data|
    ensures NumberAt(data, pos) == Ok(Parsed(t, IntsEnd(pos, t) + |RenderFraction(t)| + |x|))
  {
    var at := IntsEnd(pos, t);
    var dot := at + |RenderFraction(t)|;
    AfterDigits(data, dot, x, t);
    if t.frac != [] {
      AtByte(data, at, RenderFraction(t), 0);
      PointReads(data, at, t);
    }
    IntsRead(data, pos, t);
    FractionThen(data, at, t);
    ExponentSpellingReads(data, dot, x, t);
  }

  lemma {:induction false} AfterDigits(data: Bytes, dot: nat, x: Bytes, t: Token)
    requires At(data, dot, x) && SpellsExponent(x, t) && Ends(data, dot + |x|)
    ensures dot < |data| ==> !IsDigit(data[dot]) && data[dot] != DOT
  {
    if x != [] { AtByte(data, dot, x, 0); }
  }
}
