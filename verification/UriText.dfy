/** The text of agent URIs. */
module UriText {
  // Labels and query texts: percent-coding, folding and the split at single bytes.

  import opened Octets
  import Utf8

  type Runes = seq<Utf8.Rune>

  datatype Reason =
    | BadUtf8 | SchemeMismatch | FragmentPresent | WildcardForm | WildcardInLabel | EmptyAuthority | EmptyLabel
    | UnmarkedSegment | DuplicateMarker | PositionOrder | QuerySyntax | BadPctEncoding | IllegalChar
    | DisallowedCodepoint | MixedScript

  // ---- character classes ----

  predicate IsUnreserved(r: int)
  {
    0x61 <= r <= 0x7a || 0x41 <= r <= 0x5a || 0x30 <= r <= 0x39 || r == 0x2d || r == 0x2e || r == 0x5f || r == 0x7e
  }

  /** RFC 3987 section 2.2; the last two code points of every plane are out, and planes 14 and up start late. */
  predicate IsUcschar(r: int)
  {
    || 0xA0 <= r <= 0xD7FF || 0xF900 <= r <= 0xFDCF || 0xFDF0 <= r <= 0xFFEF
    || (0x1_0000 <= r <= 0xD_FFFD && r % 0x1_0000 <= 0xFFFD)
    || 0xE_1000 <= r <= 0xE_FFFD
  }

  predicate IsLiteral(r: int) { IsUnreserved(r) || IsUcschar(r) }

  const PERCENT: byte := 0x25
  const ASTERISK: byte := 0x2a

  function HexVal(c: byte): Option<nat>
  {
    if 0x30 <= c <= 0x39 then Some(c - 0x30)
    else if 0x61 <= c <= 0x66 then Some(c - 0x61 + 10)
    else if 0x41 <= c <= 0x46 then Some(c - 0x41 + 10)
    else None
  }

  function UpperHex(n: nat): byte
    requires n < 16
  {
    if n < 10 then 0x30 + n else 0x41 + n - 10
  }

  /** The ranges of ucschar in RFC 3987 section 2.2, first and last. */
  const UCSCHAR: seq<(int, int)> := [
    (0xA0, 0xD7FF), (0xF900, 0xFDCF), (0xFDF0, 0xFFEF),
    (0x10000, 0x1FFFD), (0x20000, 0x2FFFD), (0x30000, 0x3FFFD), (0x40000, 0x4FFFD), (0x50000, 0x5FFFD),
    (0x60000, 0x6FFFD), (0x70000, 0x7FFFD), (0x80000, 0x8FFFD), (0x90000, 0x9FFFD), (0xA0000, 0xAFFFD),
    (0xB0000, 0xBFFFD), (0xC0000, 0xCFFFD), (0xD0000, 0xDFFFD), (0xE1000, 0xEFFFD)]

  lemma {:induction false} LiteralsAre(r: int)
    ensures IsUnreserved(r) <==>
      || 'a' as int <= r <= 'z' as int || 'A' as int <= r <= 'Z' as int || '0' as int <= r <= '9' as int
      || r in {'-' as int, '.' as int, '_' as int, '~' as int}
    ensures IsUcschar(r) <==> exists i | 0 <= i < |UCSCHAR| :: UCSCHAR[i].0 <= r <= UCSCHAR[i].1
  {
    if IsUcschar(r) {
      var i := if r <= 0xD7FF then 0 else if r <= 0xFDCF then 1 else if r <= 0xFFEF then 2
               else if r < 0xE_0000 then 2 + r / 0x1_0000 else 16;
      assert UCSCHAR[i].0 <= r <= UCSCHAR[i].1;
    }
  }

  // ---- decoding ----

  /** The byte an escape at the front of s stands for. */
  function Escaped(s: Bytes): Option<byte>
    requires s != []
  {
    if |s| <= 2 then None
    else
      match HexVal(s[1])
      case None => None
      case Some(hi) =>
        match HexVal(s[2])
        case None => None
        case Some(lo) => EscapedByte(hi, lo)
  }

  function EscapedByte(hi: nat, lo: nat): Option<byte>
  {
    if hi < 16 && lo < 16 then Some(hi * 16 + lo) else None
  }

  datatype Piece = Piece(bytes: Bytes, size: nat)

  /** The first escape or literal character of s; a literal star in a label has a reason of its own. */
  function NextPiece(s: Bytes, isLabel: bool): (r: Result<Piece, Reason>)
    requires s != []
    ensures r.Ok? ==> 0 < r.value.size <= |s|
  {
    var c := s[0];
    if c == PERCENT then
      match Escaped(s)
      case None => Err(BadPctEncoding)
      case Some(b) => Ok(Piece([b], 3))
    else if c < 0x80 then
      if isLabel && c == ASTERISK then Err(WildcardInLabel)
      else if !IsUnreserved(c) then Err(IllegalChar)
      else Ok(Piece([c], 1))
    else
      match Utf8.First(s)
      case None => Err(BadUtf8)
      case Some(d) => if !IsUcschar(d.0) then Err(IllegalChar) else Ok(Piece(s[..d.1], d.1))
  }

  function Append(head: Bytes, r: Result<Bytes, Reason>): Result<Bytes, Reason>
  {
    match r
    case Ok(tail) => Ok(head + tail)
    case Err(e) => Err(e)
  }

  function DecodeRaw(s: Bytes, isLabel: bool): Result<Bytes, Reason>
    decreases |s|
  {
    if s == [] then Ok([])
    else
      match NextPiece(s, isLabel)
      case Err(e) => Err(e)
      case Ok(p) => Append(p.bytes, DecodeRaw(s[p.size..], isLabel))
  }

  function Utf8Text(r: Result<Bytes, Reason>): Result<Runes, Reason>
  {
    match r
    case Err(e) => Err(e)
    case Ok(b) =>
      match Utf8.Decode(b)
      case None => Err(BadUtf8)
      case Some(rs) => Ok(rs)
  }

  /** Labels are not empty. */
  function DecodeComponent(s: Bytes): Result<Runes, Reason>
  {
    if s == [] then Err(EmptyLabel) else Utf8Text(DecodeRaw(s, true))
  }

  function DecodeQ(s: Bytes): Result<Runes, Reason>
  {
    Utf8Text(DecodeRaw(s, false))
  }

  // ---- encoding ----

  function Percent(b: byte): Bytes { [PERCENT, UpperHex(b / 16), UpperHex(b % 16)] }

  function PercentAll(s: Bytes): Bytes
  {
    if s == [] then [] else Percent(s[0]) + PercentAll(s[1..])
  }

  function EncRune(r: Utf8.Rune): (s: Bytes)
    ensures s != []
  {
    if IsLiteral(r) then Utf8.Encode(r) else PercentAll(Utf8.Encode(r))
  }

  function EncLabel(rs: Runes): Bytes
  {
    if rs == [] then [] else EncRune(rs[0]) + EncLabel(rs[1..])
  }

  predicate AllScalar(rs: Runes) { forall i | 0 <= i < |rs| :: Utf8.Scalar(rs[i]) }

  // ---- decoding undoes encoding ----

  lemma {:induction false} PercentDecodes(b: byte, rest: Bytes, isLabel: bool)
    ensures DecodeRaw(Percent(b) + rest, isLabel) == Append([b], DecodeRaw(rest, isLabel))
  {
    var s := Percent(b) + rest;
    assert HexVal(UpperHex(b / 16)) == Some(b / 16) && HexVal(UpperHex(b % 16)) == Some(b % 16);
    assert s[3..] == rest;
    assert NextPiece(s, isLabel) == Ok(Piece([b], 3));
  }

  lemma {:induction false} AppendTwice(a: Bytes, b: Bytes, r: Result<Bytes, Reason>)
    ensures Append(a, Append(b, r)) == Append(a + b, r) && Append([], r) == r
  {
    if r.Ok? {
      assert a + (b + r.value) == a + b + r.value;
      assert [] + r.value == r.value;
    }
  }

  lemma {:induction false} PercentAllDecodes(bytes: Bytes, rest: Bytes, isLabel: bool)
    ensures DecodeRaw(PercentAll(bytes) + rest, isLabel) == Append(bytes, DecodeRaw(rest, isLabel))
    decreases |bytes|
  {
    if bytes == [] {
      assert [] + rest == rest;
      AppendTwice([], [], DecodeRaw(rest, isLabel));
    } else {
      var more := PercentAll(bytes[1..]) + rest;
      assert PercentAll(bytes) + rest == Percent(bytes[0]) + more;
      PercentDecodes(bytes[0], more, isLabel);
      PercentAllDecodes(bytes[1..], rest, isLabel);
      AppendTwice([bytes[0]], bytes[1..], DecodeRaw(rest, isLabel));
      assert bytes == [bytes[0]] + bytes[1..];
    }
  }

  lemma {:induction false} LiteralDecodes(r: Utf8.Rune, rest: Bytes, isLabel: bool)
    requires Utf8.Scalar(r) && IsLiteral(r)
    ensures DecodeRaw(Utf8.Encode(r) + rest, isLabel) == Append(Utf8.Encode(r), DecodeRaw(rest, isLabel))
  {
    var bytes := Utf8.Encode(r);
    var s := bytes + rest;
    Utf8.FirstOfEncode(r, rest);
    assert s[0] == bytes[0];
    assert s[..|bytes|] == bytes && s[|bytes|..] == rest;
    assert NextPiece(s, isLabel) == Ok(Piece(bytes, |bytes|));
  }

  lemma {:induction false} EncLabelDecodes(rs: Runes, isLabel: bool)
    requires AllScalar(rs)
    ensures DecodeRaw(EncLabel(rs), isLabel) == Ok(Utf8.EncodeAll(rs))
    decreases |rs|
  {
    if rs != [] {
      var r, bytes, rest := rs[0], Utf8.Encode(rs[0]), EncLabel(rs[1..]);
      EncLabelDecodes(rs[1..], isLabel);
      if IsLiteral(r) { LiteralDecodes(r, rest, isLabel); } else { PercentAllDecodes(bytes, rest, isLabel); }
    }
  }

  /** What a label or query text was encoded from is what it decodes to. */
  lemma {:induction false} TextRoundTrip(rs: Runes)
    requires AllScalar(rs)
    ensures DecodeQ(EncLabel(rs)) == Ok(rs) && (rs != [] ==> DecodeComponent(EncLabel(rs)) == Ok(rs))
  {
    EncLabelDecodes(rs, true);
    EncLabelDecodes(rs, false);
    Utf8.DecodeOfEncodeAll(rs);
  }

  lemma {:induction false} DecodedIsScalar(s: Bytes, isLabel: bool)
    requires Utf8Text(DecodeRaw(s, isLabel)).Ok?
    ensures AllScalar(Utf8Text(DecodeRaw(s, isLabel)).value)
  {
    Utf8.EncodeAllOfDecode(DecodeRaw(s, isLabel).value);
  }

  // ---- what is accepted ----

  predicate IsEscape(w: Bytes)
  {
    |w| == 3 && w[0] == PERCENT && HexVal(w[1]).Some? && HexVal(w[2]).Some?
  }

  /** One unreserved ASCII character, or one character RFC 3987 adds to them. */
  ghost predicate IsLiteralText(w: Bytes)
  {
    exists r: Utf8.Rune :: Utf8.Scalar(r) && IsLiteral(r) && w == Utf8.Encode(r)
  }

  ghost predicate IsPiece(w: Bytes) { IsEscape(w) || IsLiteralText(w) }

  function Concat(ws: seq<Bytes>): Bytes
  {
    if ws == [] then [] else ws[0] + Concat(ws[1..])
  }

  ghost predicate AllPieces(ws: seq<Bytes>) { forall i | 0 <= i < |ws| :: IsPiece(ws[i]) }

  /** s is written with escapes and literal characters. */
  ghost predicate Spelled(s: Bytes)
  {
    exists ws :: Concat(ws) == s && AllPieces(ws)
  }

  ghost predicate AllPiecesOrStars(ws: seq<Bytes>)
  {
    forall i | 0 <= i < |ws| :: IsPiece(ws[i]) || ws[i] == [ASTERISK]
  }

  /** The same with a literal star among the characters, as queries are documented to permit. */
  ghost predicate SpelledWithStars(s: Bytes)
  {
    exists ws :: Concat(ws) == s && AllPiecesOrStars(ws)
  }

  lemma {:induction false} EscapeReads(w: Bytes, rest: Bytes, isLabel: bool)
    requires IsEscape(w)
    ensures var r := NextPiece(w + rest, isLabel); r.Ok? && r.value.size == |w|
    ensures ASTERISK !in w
  {
    var s := w + rest;
    assert s[0] == w[0] && s[1] == w[1] && s[2] == w[2];
  }

  lemma {:induction false} LiteralReads(w: Bytes, rest: Bytes, isLabel: bool)
    requires IsLiteralText(w)
    ensures w != [] && var r := NextPiece(w + rest, isLabel); r.Ok? && r.value.size == |w|
    ensures ASTERISK !in w
  {
    var r: Utf8.Rune :| Utf8.Scalar(r) && IsLiteral(r) && w == Utf8.Encode(r);
    Utf8.FirstOfEncode(r, rest);
    assert (w + rest)[0] == w[0];
    if r >= 0x80 { EncodeHigh(r); }
  }

  lemma {:induction false} ReadIsPiece(s: Bytes, isLabel: bool)
    requires s != [] && NextPiece(s, isLabel).Ok?
    ensures IsPiece(s[..NextPiece(s, isLabel).value.size])
  {
    if s[0] == PERCENT {
      assert IsEscape(s[..3]);
    } else if s[0] < 0x80 {
      assert s[..1] == [s[0]] == Utf8.Encode(s[0]);
      assert IsLiteralText(s[..1]);
    } else {
      var d := Utf8.First(s).value;
      Utf8.EncodeOfFirst(s);
      assert IsLiteralText(s[..d.1]);
    }
  }

  /** Text made of pieces and stars is decoded exactly when no star is among them. */
  lemma {:induction false} PiecesDecode(ws: seq<Bytes>, isLabel: bool)
    requires AllPiecesOrStars(ws)
    ensures DecodeRaw(Concat(ws), isLabel).Ok? <==> ASTERISK !in Concat(ws)
    ensures AllPieces(ws) ==> ASTERISK !in Concat(ws)
    decreases |ws|
  {
    if ws != [] {
      var w, rest := ws[0], Concat(ws[1..]);
      PiecesDecode(ws[1..], isLabel);
      if w == [ASTERISK] {
        assert (w + rest)[0] == ASTERISK;
        assert !IsPiece(w) by { if IsLiteralText(w) { LiteralReads(w, [], false); } }
      } else {
        if IsEscape(w) { EscapeReads(w, rest, isLabel); } else { LiteralReads(w, rest, isLabel); }
        assert (w + rest)[|w|..] == rest;
      }
    }
  }

  lemma {:induction false} DecodedIsSpelled(s: Bytes, isLabel: bool) returns (ws: seq<Bytes>)
    requires DecodeRaw(s, isLabel).Ok?
    ensures Concat(ws) == s && AllPieces(ws)
    decreases |s|
  {
    if s == [] {
      ws := [];
    } else {
      var k := NextPiece(s, isLabel).value.size;
      ReadIsPiece(s, isLabel);
      var more := DecodedIsSpelled(s[k..], isLabel);
      ws := [s[..k]] + more;
      assert ws[1..] == more;
      assert s == s[..k] + s[k..];
    }
  }

  /** Both decoders accept exactly the text written with escapes, unreserved ASCII and the characters of RFC 3987. */
  lemma {:induction false} AcceptedExactlyWhenSpelled(s: Bytes, isLabel: bool)
    ensures DecodeRaw(s, isLabel).Ok? <==> Spelled(s)
  {
    if DecodeRaw(s, isLabel).Ok? {
      var ws := DecodedIsSpelled(s, isLabel);
    }
    if ws :| Concat(ws) == s && AllPieces(ws) {
      PiecesDecode(ws, isLabel);
    }
  }

  /** Of the text that would be fine if a literal star were permitted, a query accepts what has no star. */
  lemma {:induction false} StarsAreRefused(s: Bytes)
    requires SpelledWithStars(s)
    ensures DecodeRaw(s, false).Ok? <==> ASTERISK !in s
    ensures ASTERISK in s ==> DecodeQ(s).Err?
  {
    var ws :| Concat(ws) == s && AllPiecesOrStars(ws);
    PiecesDecode(ws, false);
  }

  /** The input: one star is such a text, and a query refuses it as it would any character outside the alphabet. */
  lemma {:induction false} OneStar(rest: Bytes)
    ensures SpelledWithStars([ASTERISK]) && DecodeQ([ASTERISK] + rest) == Err(IllegalChar)
    ensures DecodeComponent([ASTERISK] + rest) == Err(WildcardInLabel)
  {
    assert Concat([[ASTERISK]]) == [ASTERISK] && AllPiecesOrStars([[ASTERISK]]);
  }

  /** Labels and queries accept the same text and read it alike; only a star in it is refused for another reason. */
  lemma {:induction false} OneAlphabet(s: Bytes)
    ensures DecodeRaw(s, true) == DecodeRaw(s, false)
            || (ASTERISK in s && DecodeRaw(s, true) == Err(WildcardInLabel) && DecodeRaw(s, false) == Err(IllegalChar))
    decreases |s|
  {
    if s != [] && NextPiece(s, false).Ok? {
      OneAlphabet(s[NextPiece(s, false).value.size..]);
    }
  }

  // ---- the bytes of an encoded text ----

  /** Bytes an encoded text is made of: none that separates, marks or ends a part of a URI. */
  predicate TextByte(b: byte) { b >= 0x80 || IsUnreserved(b) || b == PERCENT }

  predicate PlainText(s: Bytes) { forall i | 0 <= i < |s| :: TextByte(s[i]) }

  lemma {:induction false} PlainConcat(a: Bytes, b: Bytes)
    requires PlainText(a) && PlainText(b)
    ensures PlainText(a + b)
  {
  }

  lemma {:induction false} PercentIsPlain(s: Bytes)
    ensures PlainText(PercentAll(s))
    decreases |s|
  {
    if s != [] {
      PercentIsPlain(s[1..]);
      assert PlainText(Percent(s[0]));
      PlainConcat(Percent(s[0]), PercentAll(s[1..]));
    }
  }

  lemma {:induction false} EncodeHigh(r: Utf8.Rune)
    requires r >= 0x80
    ensures forall i | 0 <= i < |Utf8.Encode(r)| :: Utf8.Encode(r)[i] >= 0x80
  {
  }

  lemma {:induction false} EncLabelIsPlain(rs: Runes)
    ensures PlainText(EncLabel(rs)) && (rs != [] ==> EncLabel(rs) != [])
    decreases |rs|
  {
    if rs != [] {
      EncLabelIsPlain(rs[1..]);
      if IsLiteral(rs[0]) {
        if rs[0] >= 0x80 { EncodeHigh(rs[0]); }
      } else {
        PercentIsPlain(Utf8.Encode(rs[0]));
      }
      PlainConcat(EncRune(rs[0]), EncLabel(rs[1..]));
    }
  }

  // ---- folding ----

  /** NFC and the baseline of disallowed labels, as the Unicode tables have them. */
  datatype Unicode = Unicode(nfc: Runes -> Runes, refuses: Runes -> Option<Reason>)

  predicate Foldable(r: Utf8.Rune)
  {
    r == 0x200C || r == 0x200D || r == 0xDF || r == 0x3C2 || 0x41 <= r <= 0x5a
  }

  function MapRune(r: Utf8.Rune): Runes
  {
    if r == 0x200C || r == 0x200D then []
    else if r == 0xDF then [0x73, 0x73]
    else if r == 0x3C2 then [0x3C3]
    else if 0x41 <= r <= 0x5a then [r + 0x20]
    else [r]
  }

  function MapAll(rs: Runes): Runes
  {
    if rs == [] then [] else MapRune(rs[0]) + MapAll(rs[1..])
  }

  /** The mapping between two normalizations. */
  function FoldLabel(u: Unicode, rs: Runes): Runes
  {
    u.nfc(MapAll(u.nfc(rs)))
  }

  predicate Folded(rs: Runes) { forall i | 0 <= i < |rs| :: !Foldable(rs[i]) }

  /** What is assumed of NFC: it is idempotent, and normalizing a mapped NFC string brings nothing foldable back. */
  ghost predicate Normalizes(u: Unicode)
  {
    && (forall rs :: u.nfc(u.nfc(rs)) == u.nfc(rs))
    && (forall rs :: AllScalar(rs) ==> AllScalar(u.nfc(rs)))
    && (forall rs :: rs != [] ==> u.nfc(rs) != [])
    && (forall rs :: Folded(u.nfc(MapAll(u.nfc(rs)))))
  }

  lemma {:induction false} MapOfFolded(rs: Runes)
    requires Folded(rs)
    ensures MapAll(rs) == rs
    decreases |rs|
  {
    if rs != [] {
      assert !Foldable(rs[0]);
      MapOfFolded(rs[1..]);
      assert rs == [rs[0]] + rs[1..];
    }
  }

  lemma {:induction false} MapIsScalar(rs: Runes)
    requires AllScalar(rs)
    ensures AllScalar(MapAll(rs))
    decreases |rs|
  {
    if rs != [] {
      MapIsScalar(rs[1..]);
      assert AllScalar(MapRune(rs[0]));
    }
  }

  /** A label as parsed: folded, normal, not refused. */
  ghost predicate CanonicalLabel(u: Unicode, rs: Runes)
  {
    rs != [] && AllScalar(rs) && u.nfc(rs) == rs && Folded(rs) && u.refuses(rs).None?
  }

  function RejectCheck(u: Unicode, rs: Runes): Option<Reason>
  {
    if rs == [] then Some(EmptyLabel) else u.refuses(rs)
  }

  /** Decode, fold, check. */
  function ParseLabel(u: Unicode, s: Bytes): Result<Runes, Reason>
  {
    match DecodeComponent(s)
    case Err(e) => Err(e)
    case Ok(rs) =>
      match RejectCheck(u, FoldLabel(u, rs))
      case Some(e) => Err(e)
      case None => Ok(FoldLabel(u, rs))
  }

  lemma {:induction false} ParsedLabelIsCanonical(u: Unicode, s: Bytes)
    requires Normalizes(u) && ParseLabel(u, s).Ok?
    ensures CanonicalLabel(u, ParseLabel(u, s).value)
  {
    var rs := DecodeComponent(s).value;
    DecodedIsScalar(s, true);
    MapIsScalar(u.nfc(rs));
  }

  /** Folding changes nothing in a label that was folded, so its encoding is read back as it is. */
  lemma {:induction false} LabelRoundTrip(u: Unicode, rs: Runes)
    requires CanonicalLabel(u, rs)
    ensures ParseLabel(u, EncLabel(rs)) == Ok(rs) && FoldLabel(u, rs) == rs
  {
    TextRoundTrip(rs);
    MapOfFolded(rs);
  }

  // ---- which labels are one name ----

  predicate IsAscii(rs: Runes) { forall i | 0 <= i < |rs| :: rs[i] < 0x80 }

  /** Normalization leaves ASCII text alone. */
  ghost predicate KeepsAscii(u: Unicode)
  {
    forall rs :: IsAscii(rs) ==> u.nfc(rs) == rs
  }

  /** b is a, or the small letter of the capital a. */
  predicate Lowered(a: int, b: int)
  {
    if 'A' as int <= a <= 'Z' as int then b - 'a' as int == a - 'A' as int else b == a
  }

  /** One letter, whatever its case. */
  predicate SameLetter(a: int, b: int)
  {
    || a == b
    || ('A' as int <= a <= 'Z' as int && b - 'a' as int == a - 'A' as int)
    || ('A' as int <= b <= 'Z' as int && a - 'a' as int == b - 'A' as int)
  }

  lemma {:induction false} MapConcat(a: Runes, b: Runes)
    ensures MapAll(a + b) == MapAll(a) + MapAll(b)
    decreases |a|
  {
    if a == [] {
      assert a + b == b;
    } else {
      MapConcat(a[1..], b);
      assert (a + b)[1..] == a[1..] + b;
    }
  }

  lemma {:induction false} MapOfAscii(rs: Runes)
    requires IsAscii(rs)
    ensures |MapAll(rs)| == |rs| && IsAscii(MapAll(rs)) && forall i | 0 <= i < |rs| :: Lowered(rs[i], MapAll(rs)[i])
    decreases |rs|
  {
    if rs != [] {
      MapOfAscii(rs[1..]);
      assert MapAll(rs) == [MapRune(rs[0])[0]] + MapAll(rs[1..]);
    }
  }

  /** An ASCII label folds to itself in small letters. */
  lemma {:induction false} AsciiFoldsToSmallLetters(u: Unicode, rs: Runes)
    requires KeepsAscii(u) && IsAscii(rs)
    ensures |FoldLabel(u, rs)| == |rs| && forall i | 0 <= i < |rs| :: Lowered(rs[i], FoldLabel(u, rs)[i])
  {
    MapOfAscii(rs);
  }

  /** Two ASCII labels are one name exactly when they differ in nothing but the case of letters. */
  lemma {:induction false} AsciiNamesAgreeUpToCase(u: Unicode, a: Runes, b: Runes)
    requires KeepsAscii(u) && IsAscii(a) && IsAscii(b)
    ensures FoldLabel(u, a) == FoldLabel(u, b) <==> |a| == |b| && forall i | 0 <= i < |a| :: SameLetter(a[i], b[i])
  {
    AsciiFoldsToSmallLetters(u, a);
    AsciiFoldsToSmallLetters(u, b);
    if FoldLabel(u, a) == FoldLabel(u, b) {
      forall i | 0 <= i < |a| ensures SameLetter(a[i], b[i]) {
        assert Lowered(a[i], FoldLabel(u, a)[i]) && Lowered(b[i], FoldLabel(u, a)[i]);
      }
    }
    if |a| == |b| && forall i | 0 <= i < |a| :: SameLetter(a[i], b[i]) {
      forall i | 0 <= i < |a| ensures FoldLabel(u, a)[i] == FoldLabel(u, b)[i] {
        assert Lowered(a[i], FoldLabel(u, a)[i]) && Lowered(b[i], FoldLabel(u, b)[i]);
      }
    }
  }

  /** Anywhere in a normalized label: sharp s is ss, final sigma is sigma, a joiner is nothing, a capital its small letter. */
  lemma {:induction false} FoldIdentifies(u: Unicode, a: Runes, r: Utf8.Rune, as_: Runes, b: Runes)
    requires (r, as_) in {(0xDF, [0x73, 0x73]), (0x3C2, [0x3C3]), (0x200C, []), (0x200D, [])}
             || ('A' as int <= r <= 'Z' as int && |as_| == 1 && as_[0] - 'a' as int == r - 'A' as int)
    requires u.nfc(a + [r] + b) == a + [r] + b && u.nfc(a + as_ + b) == a + as_ + b
    ensures FoldLabel(u, a + [r] + b) == FoldLabel(u, a + as_ + b)
  {
    MapConcat(a + [r], b);
    MapConcat(a, [r]);
    MapConcat(a + as_, b);
    MapConcat(a, as_);
    MapOfOne(r);
    assert MapRune(r) == as_ && Folded(as_);
    MapOfFolded(as_);
  }

  lemma {:induction false} MapOfOne(r: Utf8.Rune)
    ensures MapAll([r]) == MapRune(r)
  {
    assert MapAll([r]) == MapRune(r) + MapAll([]);
  }

  /** Every other character stays: folding a normalized label changes it only where a letter or one of those stands. */
  lemma {:induction false} FoldKeepsTheRest(u: Unicode, rs: Runes)
    requires u.nfc(rs) == rs && forall r | r in rs :: !('A' as int <= r <= 'Z' as int) && r !in {0xDF, 0x3C2, 0x200C, 0x200D}
    ensures FoldLabel(u, rs) == rs
  {
    forall i | 0 <= i < |rs| ensures !Foldable(rs[i]) { assert rs[i] in rs; }
    MapOfFolded(rs);
  }

  /** Unreserved ASCII text is a label as it stands. */
  predicate PlainLabel(s: Bytes)
  {
    s != [] && forall i | 0 <= i < |s| :: IsUnreserved(s[i])
  }

  lemma {:induction false} PlainDecodes(s: Bytes, isLabel: bool)
    requires forall i | 0 <= i < |s| :: IsUnreserved(s[i])
    ensures DecodeRaw(s, isLabel) == Ok(s) && Utf8.Decode(s) == Some(s) && IsAscii(s)
    decreases |s|
  {
    if s != [] {
      PlainDecodes(s[1..], isLabel);
      assert NextPiece(s, isLabel) == Ok(Piece([s[0]], 1));
      assert s == [s[0]] + s[1..];
      assert Utf8.First(s) == Some((s[0], 1));
    }
  }

  /** Two plain labels parse to one name exactly when they differ in nothing but the case of letters. */
  lemma {:induction false} PlainLabelsParseAlike(u: Unicode, s: Bytes, t: Bytes)
    requires KeepsAscii(u) && PlainLabel(s) && PlainLabel(t) && ParseLabel(u, s).Ok?
    ensures ParseLabel(u, s) == ParseLabel(u, t) <==> |s| == |t| && forall i | 0 <= i < |s| :: SameLetter(s[i], t[i])
  {
    PlainDecodes(s, true);
    PlainDecodes(t, true);
    AsciiNamesAgreeUpToCase(u, s, t);
  }

  // ---- the canonical spelling of text ----

  const HEX: string := "0123456789ABCDEF"

  lemma {:induction false} UpperHexIs(n: nat)
    requires n < 16
    ensures UpperHex(n) == HEX[n] as int
  {
  }

  lemma {:induction false} EncConcat(a: Runes, b: Runes)
    ensures EncLabel(a + b) == EncLabel(a) + EncLabel(b)
    decreases |a|
  {
    if a == [] {
      assert a + b == b;
    } else {
      EncConcat(a[1..], b);
      assert (a + b)[1..] == a[1..] + b;
      Together(EncRune(a[0]), EncLabel(a[1..]), EncLabel(b));
    }
  }

  lemma {:induction false} Together(a: Bytes, b: Bytes, c: Bytes)
    ensures a + (b + c) == (a + b) + c
  {
  }

  /**
   Text is encoded character by character: an unreserved or ucschar character stands for itself, and of any other
   each byte is a percent sign and two hex digits in capitals.
   */
  lemma {:induction false} EncodedCharacter(r: Utf8.Rune)
    ensures IsLiteral(r) ==> EncLabel([r]) == Utf8.Encode(r)
    ensures !IsLiteral(r) ==>
      var b, s := Utf8.Encode(r), EncLabel([r]);
      |s| == 3 * |b| && forall k | 0 <= k < |b| :: EscapedAt(s, k, b[k])
  {
    assert EncLabel([r]) == EncRune(r) + EncLabel([]);
    if !IsLiteral(r) { PercentAllIs(Utf8.Encode(r)); }
  }

  /** From 3 * k on stand a percent sign and the two hex digits of b. */
  predicate EscapedAt(s: Bytes, k: nat, b: byte)
  {
    && 3 * k + 3 <= |s|
    && s[3 * k] == '%' as int && s[3 * k + 1] == HEX[b / 16] as int && s[3 * k + 2] == HEX[b % 16] as int
  }

  lemma {:induction false} PercentAllIs(b: Bytes)
    ensures |PercentAll(b)| == 3 * |b| && forall k | 0 <= k < |b| :: EscapedAt(PercentAll(b), k, b[k])
    decreases |b|
  {
    if b != [] {
      PercentAllIs(b[1..]);
      UpperHexIs(b[0] / 16);
      UpperHexIs(b[0] % 16);
      var s, rest := PercentAll(b), PercentAll(b[1..]);
      assert s == Percent(b[0]) + rest;
      forall k | 0 <= k < |b| ensures EscapedAt(s, k, b[k]) {
        if k > 0 { assert EscapedAt(rest, k - 1, b[1..][k - 1]); }
      }
    }
  }

  // ---- as it runs ----

  /** The loop of both decoders, before the check that the bytes are UTF-8. */
  method DecodeLoop(s: Bytes, isLabel: bool) returns (r: Result<Bytes, Reason>)
    ensures r == DecodeRaw(s, isLabel)
  {
    var out: Bytes := [];
    var i := 0;
    AppendTwice([], [], DecodeRaw(s, isLabel));
    assert s[0..] == s;
    while i < |s|
      invariant 0 <= i <= |s|
      invariant DecodeRaw(s, isLabel) == Append(out, DecodeRaw(s[i..], isLabel))
    {
      var p := NextPiece(s[i..], isLabel);
      if p.Err? {
        return Err(p.error);
      }
      assert s[i..][p.value.size..] == s[i + p.value.size..];
      AppendTwice(out, p.value.bytes, DecodeRaw(s[i + p.value.size..], isLabel));
      out := out + p.value.bytes;
      i := i + p.value.size;
    }
    assert s[i..] == [] && out + [] == out;
    r := Ok(out);
  }

  method Fold(u: Unicode, rs: Runes) returns (r: Runes)
    ensures r == FoldLabel(u, rs)
  {
    var normal := u.nfc(rs);
    var b: Runes := [];
    for i := 0 to |normal|
      invariant b + MapAll(normal[i..]) == MapAll(normal)
    {
      var c := normal[i];
      assert normal[i..][1..] == normal[i + 1..];
      assert b + (MapRune(c) + MapAll(normal[i + 1..])) == b + MapRune(c) + MapAll(normal[i + 1..]);
      if c == 0x200C || c == 0x200D {
        assert b + [] == b;
        continue;
      }
      if c == 0xDF {
        b := b + [0x73, 0x73];
        continue;
      }
      if c == 0x3C2 {
        b := b + [0x3C3];
        continue;
      }
      if 0x41 <= c <= 0x5a {
        b := b + [c + 0x20];
        continue;
      }
      b := b + [c];
    }
    assert normal[|normal|..] == [] && b + [] == b;
    r := u.nfc(b);
  }

  method Encode(rs: Runes) returns (b: Bytes)
    ensures b == EncLabel(rs)
  {
    b := [];
    for i := 0 to |rs|
      invariant b + EncLabel(rs[i..]) == EncLabel(rs)
    {
      var r := rs[i];
      assert rs[i..][1..] == rs[i + 1..];
      assert b + (EncRune(r) + EncLabel(rs[i + 1..])) == b + EncRune(r) + EncLabel(rs[i + 1..]);
      if IsUnreserved(r) || IsUcschar(r) {
        b := b + Utf8.Encode(r);
        continue;
      }
      b := EncodeBytes(b, Utf8.Encode(r));
    }
    assert rs[|rs|..] == [] && b + [] == b;
  }

  method EncodeBytes(start: Bytes, s: Bytes) returns (b: Bytes)
    ensures b == start + PercentAll(s)
  {
    b := start;
    for i := 0 to |s|
      invariant b + PercentAll(s[i..]) == start + PercentAll(s)
    {
      assert s[i..][1..] == s[i + 1..];
      assert b + (Percent(s[i]) + PercentAll(s[i + 1..])) == b + Percent(s[i]) + PercentAll(s[i + 1..]);
      b := b + Percent(s[i]);
    }
    assert s[|s|..] == [] && b + [] == b;
  }
}
