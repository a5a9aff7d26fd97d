/** Which texts are agent URIs, whatever spelling they use. */
module UriGrammar {
  import opened Octets
  import Utf8
  import opened UriText
  import opened AgentUris

  // ---- the grammar ----

  /** The scheme and the markers may be written in any case. */
  lemma {:induction false} EqualFoldExactly(a: Bytes, b: Bytes)
    ensures EqualFold(a, b) <==> |a| == |b| && forall i | 0 <= i < |a| :: SameLetter(a[i], b[i])
  {
    assert forall x: byte, y: byte :: LowerAscii(x) == LowerAscii(y) <==> SameLetter(x, y);
    if EqualFold(a, b) {
      forall i | 0 <= i < |a| ensures SameLetter(a[i], b[i]) { assert LowerAscii(a[i]) == LowerAscii(b[i]); }
    }
    if |a| == |b| && forall i | 0 <= i < |a| :: SameLetter(a[i], b[i]) {
      forall i | 0 <= i < |a| ensures LowerAscii(a[i]) == LowerAscii(b[i]) { assert SameLetter(a[i], b[i]); }
    }
  }

  /** A marker in any case and the text of a label. */
  ghost predicate SpellsSegment(u: Unicode, seg: Bytes, marker: Bytes, name: Runes)
  {
    |marker| <= |seg| && EqualFold(seg[..|marker|], marker) && ParseLabel(u, seg[|marker|..]) == Ok(name)
  }

  /** One segment for a name, and none without. */
  ghost predicate SpellsOption(u: Unicode, segs: seq<Bytes>, marker: Bytes, name: Option<Runes>)
  {
    match name
    case None => segs == []
    case Some(n) => |segs| == 1 && SpellsSegment(u, segs[0], marker, n)
  }

  /** The marked segments come in one order: namespace, service, instance. */
  ghost predicate SpellsMarked(u: Unicode, segs: seq<Bytes>, v: Uri)
    requires v.Concrete?
  {
    exists a, b, c :: segs == a + b + c && SpellsParts(u, a, b, c, v)
  }

  ghost predicate SpellsParts(u: Unicode, a: seq<Bytes>, b: seq<Bytes>, c: seq<Bytes>, v: Uri)
    requires v.Concrete?
  {
    && SpellsOption(u, a, Ascii("ns="), v.ns) && SpellsOption(u, b, Ascii("svc="), v.svc)
    && SpellsOption(u, c, Ascii("inst="), v.inst)
  }

  ghost predicate SpellsPath(u: Unicode, segs: seq<Bytes>, v: Uri)
  {
    match v
    case CapabilityQuery(c, _) => |segs| == 2 && segs[0] == Ascii("*") && ParseLabel(u, segs[1]) == Ok(c)
    case Concrete(org, _, _, _, _) => segs != [] && ParseLabel(u, segs[0]) == Ok(org) && SpellsMarked(u, segs[1..], v)
  }

  /** A key that is not empty, an equals sign, and a value, which may hold further equals signs only as escapes. */
  ghost predicate SpellsPair(u: Unicode, text: Bytes, p: QPair)
  {
    exists key, val ::
      && text == key + (Ascii("=") + val) && key != [] && EQUALS !in key && DecodeQ(key).Ok? && DecodeQ(val).Ok?
      && p == QPair(u.nfc(DecodeQ(key).value), u.nfc(DecodeQ(val).value))
  }

  ghost predicate SpellsPairs(u: Unicode, texts: seq<Bytes>, ps: seq<QPair>)
  {
    |texts| == |ps| && forall i | 0 <= i < |ps| :: SpellsPair(u, texts[i], ps[i])
  }

  ghost predicate SpellsQuery(u: Unicode, query: Option<seq<Bytes>>, ps: seq<QPair>)
  {
    match query
    case None => ps == []
    case Some(texts) => texts != [] && AllFree(texts, AMPERSAND) && SpellsPairs(u, texts, ps)
  }

  // ---- splitting is joining backwards ----

  lemma {:induction false} JoinOfSplit(s: Bytes, c: byte)
    ensures Join(Split(s, c), c) == s && AllFree(Split(s, c), c)
    decreases |s|
  {
    var j := Find(s, c, 0);
    if j < |s| {
      JoinOfSplit(s[j + 1..], c);
      var rest := Split(s[j + 1..], c);
      assert ([s[..j]] + rest)[1..] == rest;
      assert s == s[..j] + ([c] + s[j + 1..]);
    }
  }

  // ---- the marked segments ----

  lemma {:induction false} MarkersSpelled()
    ensures NS == Ascii("ns=") && SVC == Ascii("svc=") && INST == Ascii("inst=") && STAR == Ascii("*")
    ensures SCHEME == Ascii("agent") && SEPARATOR == Ascii("://") && [QUESTION] == Ascii("?") && [EQUALS] == Ascii("=")
  {
  }

  lemma {:induction false} MarkersDiffer(seg: Bytes)
    ensures HasPrefixFold(seg, NS) ==> !HasPrefixFold(seg, SVC) && !HasPrefixFold(seg, INST)
    ensures HasPrefixFold(seg, SVC) ==> !HasPrefixFold(seg, INST)
  {
    if HasPrefixFold(seg, NS) { assert LowerAscii(seg[..|NS|][0]) == LowerAscii(NS[0]); }
    if HasPrefixFold(seg, SVC) { assert LowerAscii(seg[..|SVC|][0]) == LowerAscii(SVC[0]); }
    if HasPrefixFold(seg, INST) { assert LowerAscii(seg[..|INST|][0]) == LowerAscii(INST[0]); }
  }

  function MarkerAt(pos: nat): Bytes { if pos == 2 then NS else if pos == 3 then SVC else INST }

  /** What MatchMarker finds is the marker of that position. */
  lemma {:induction false} MarkerFound(u: Unicode, seg: Bytes, pos: nat, name: Runes)
    requires 2 <= pos <= 4
    ensures SpellsSegment(u, seg, MarkerAt(pos), name)
            <==> MatchMarker(seg).Some? && MatchMarker(seg).value.pos == pos && ParseLabel(u, MatchMarker(seg).value.rest) == Ok(name)
  {
    MarkersDiffer(seg);
  }

  function Put(v: Uri, pos: nat, name: Option<Runes>): (w: Uri)
    requires v.Concrete?
    ensures w.Concrete?
  {
    if name.None? then v else SetPos(v, pos, name.value)
  }

  /** Segments behind position pos: the one for position pos + 1, if there is one, and those behind it. */
  lemma {:induction false} OneMarker(u: Unicode, segs: seq<Bytes>, pos: nat, v: Uri, w: Uri) returns (n: nat, name: Option<Runes>)
    requires v.Concrete? && 1 <= pos <= 3 && Segments(u, segs, pos, v) == Ok(w)
    ensures n <= |segs| && SpellsOption(u, segs[..n], MarkerAt(pos + 1), name)
    ensures Segments(u, segs[n..], pos + 1, Put(v, pos + 1, name)) == Ok(w)
  {
    if segs != [] && MatchMarker(segs[0]).value.pos == pos + 1 {
      n, name := 1, Some(ParseLabel(u, MatchMarker(segs[0]).value.rest).value);
      MarkerFound(u, segs[0], pos + 1, name.value);
    } else {
      n, name := 0, None;
      assert segs[0..] == segs;
    }
  }

  lemma {:induction false} MarkerRead(u: Unicode, a: seq<Bytes>, rest: seq<Bytes>, pos: nat, v: Uri, name: Option<Runes>)
    requires v.Concrete? && 1 <= pos <= 3 && SpellsOption(u, a, MarkerAt(pos + 1), name)
    requires rest == [] || (MatchMarker(rest[0]).Some? && MatchMarker(rest[0]).value.pos > pos + 1)
    ensures Segments(u, a + rest, pos, v) == Segments(u, rest, pos + 1, Put(v, pos + 1, name))
  {
    if name.None? {
      assert a + rest == rest;
    } else {
      MarkerFound(u, a[0], pos + 1, name.value);
      assert (a + rest)[0] == a[0] && (a + rest)[1..] == rest;
    }
  }

  lemma {:induction false} NothingBehindInstance(u: Unicode, segs: seq<Bytes>, v: Uri)
    requires v.Concrete?
    ensures Segments(u, segs, 4, v).Ok? <==> segs == []
    ensures segs == [] ==> Segments(u, segs, 4, v) == Ok(v)
  {
  }

  /** Nothing marked, as a path begins. */
  function Bare(org: Runes): (v: Uri) ensures v.Concrete? { Concrete(org, None, None, None, []) }

  lemma {:induction false} SegmentsSpelled(u: Unicode, segs: seq<Bytes>, org: Runes, w: Uri)
    requires Segments(u, segs, 1, Bare(org)) == Ok(w)
    ensures w.Concrete? && w.org == org && w.query == [] && SpellsMarked(u, segs, w)
  {
    var i, ns := OneMarker(u, segs, 1, Bare(org), w);
    LastTwoSpelled(u, segs[i..], org, ns, w);
    var b, c :| segs[i..] == b + c && SpellsOption(u, b, Ascii("svc="), w.svc) && SpellsOption(u, c, Ascii("inst="), w.inst);
    MarkersSpelled();
    assert segs == segs[..i] + b + c;
    assert SpellsParts(u, segs[..i], b, c, w);
  }

  lemma {:induction false} LastTwoSpelled(u: Unicode, segs: seq<Bytes>, org: Runes, ns: Option<Runes>, w: Uri)
    requires Segments(u, segs, 2, Put(Bare(org), 2, ns)) == Ok(w)
    ensures w.Concrete? && w.org == org && w.query == [] && w.ns == ns
    ensures exists b, c :: segs == b + c && SpellsOption(u, b, Ascii("svc="), w.svc) && SpellsOption(u, c, Ascii("inst="), w.inst)
  {
    var j, svc := OneMarker(u, segs, 2, Put(Bare(org), 2, ns), w);
    var last := segs[j..];
    var k, inst := OneMarker(u, last, 3, Put(Put(Bare(org), 2, ns), 3, svc), w);
    NothingBehindInstance(u, last[k..], Put(Put(Put(Bare(org), 2, ns), 3, svc), 4, inst));
    PutAll(org, ns, svc, inst);
    MarkersSpelled();
    assert last[..k] == last;
    assert segs == segs[..j] + last[..k];
  }

  lemma {:induction false} PutAll(org: Runes, ns: Option<Runes>, svc: Option<Runes>, inst: Option<Runes>)
    ensures Put(Put(Put(Bare(org), 2, ns), 3, svc), 4, inst) == Concrete(org, ns, svc, inst, [])
  {
  }

  lemma {:induction false} FirstMarked(u: Unicode, a: seq<Bytes>, rest: seq<Bytes>, pos: nat, name: Option<Runes>)
    requires 2 <= pos <= 4 && SpellsOption(u, a, MarkerAt(pos), name)
    requires rest == [] || (MatchMarker(rest[0]).Some? && MatchMarker(rest[0]).value.pos > pos)
    ensures a + rest == [] || (MatchMarker((a + rest)[0]).Some? && MatchMarker((a + rest)[0]).value.pos >= pos)
  {
    if name.Some? {
      MarkerFound(u, a[0], pos, name.value);
      assert (a + rest)[0] == a[0];
    } else {
      assert a + rest == rest;
    }
  }

  lemma {:induction false} SpelledSegmentsRead(u: Unicode, segs: seq<Bytes>, w: Uri)
    requires w.Concrete? && w.query == [] && SpellsMarked(u, segs, w)
    ensures Segments(u, segs, 1, Bare(w.org)) == Ok(w)
  {
    var a, b, c :| segs == a + b + c && SpellsParts(u, a, b, c, w);
    PartsRead(u, segs, a, b, c, w);
  }

  lemma {:induction false} PartsRead(u: Unicode, segs: seq<Bytes>, a: seq<Bytes>, b: seq<Bytes>, c: seq<Bytes>, w: Uri)
    requires w.Concrete? && w.query == [] && SpellsParts(u, a, b, c, w) && segs == a + b + c
    ensures Segments(u, segs, 1, Bare(w.org)) == Ok(w)
  {
    MarkersSpelled();
    assert segs == a + (b + c);
    assert c + [] == c;
    FirstMarked(u, c, [], 4, w.inst);
    FirstMarked(u, b, c, 3, w.svc);
    var v1 := Put(Bare(w.org), 2, w.ns);
    var v2 := Put(v1, 3, w.svc);
    MarkerRead(u, a, b + c, 1, Bare(w.org), w.ns);
    MarkerRead(u, b, c, 2, v1, w.svc);
    MarkerRead(u, c, [], 3, v2, w.inst);
    NothingBehindInstance(u, [], Put(v2, 4, w.inst));
    PutAll(w.org, w.ns, w.svc, w.inst);
  }

  // ---- paths ----

  lemma {:induction false} StarIsNoLabel(u: Unicode, s: Bytes)
    requires ASTERISK in s || s == []
    ensures ParseLabel(u, s).Err?
  {
    if ASTERISK in s { DecodedHoldsNo(s, true, ASTERISK); }
  }

  /** A byte that is no letter of the alphabet stands in no text that decodes. */
  lemma {:induction false} DecodedHoldsNo(s: Bytes, isLabel: bool, c: byte)
    requires c < 0x80 && !IsUnreserved(c) && c != PERCENT && c in s
    ensures DecodeRaw(s, isLabel).Err?
    decreases |s|
  {
    var p := NextPiece(s, isLabel);
    if p.Ok? {
      var k := p.value.size;
      PieceHoldsNo(s, isLabel, c);
      assert s == s[..k] + s[k..];
      DecodedHoldsNo(s[k..], isLabel, c);
    }
  }

  lemma {:induction false} PieceHoldsNo(s: Bytes, isLabel: bool, c: byte)
    requires c < 0x80 && !IsUnreserved(c) && c != PERCENT && s != [] && NextPiece(s, isLabel).Ok?
    ensures c !in s[..NextPiece(s, isLabel).value.size]
  {
    var w := s[..NextPiece(s, isLabel).value.size];
    ReadIsPiece(s, isLabel);
    if IsEscape(w) {
      assert w == [w[0], w[1], w[2]];
    } else {
      var r: Utf8.Rune :| Utf8.Scalar(r) && IsLiteral(r) && w == Utf8.Encode(r);
      if r >= 0x80 { EncodeHigh(r); }
    }
  }

  lemma {:induction false} LabelHoldsNo(u: Unicode, s: Bytes, c: byte)
    requires c < 0x80 && !IsUnreserved(c) && c != PERCENT && ParseLabel(u, s).Ok?
    ensures c !in s && s != []
  {
    if c in s { DecodedHoldsNo(s, true, c); }
  }

  lemma {:induction false} PathExactly(u: Unicode, segs: seq<Bytes>, v: Uri)
    requires segs != []
    ensures ParsePath(u, segs) == Ok(v) <==> SpellsPath(u, segs, v) && v.query == []
  {
    MarkersSpelled();
    if ParsePath(u, segs) == Ok(v) && v.Concrete? {
      SegmentsSpelled(u, segs[1..], ParseLabel(u, segs[0]).value, v);
    }
    if SpellsPath(u, segs, v) && v.query == [] && v.Concrete? {
      LabelHoldsNo(u, segs[0], ASTERISK);
      assert STAR[0] == ASTERISK;
      SpelledSegmentsRead(u, segs[1..], v);
      MarkedAreNotEmpty(u, segs[1..], v);
    }
  }

  lemma {:induction false} MarkedAreNotEmpty(u: Unicode, segs: seq<Bytes>, v: Uri)
    requires v.Concrete? && SpellsMarked(u, segs, v)
    ensures [] !in segs
  {
    var a, b, c :| segs == a + b + c && SpellsParts(u, a, b, c, v);
    OptionIsNotEmpty(u, a, Ascii("ns="), v.ns);
    OptionIsNotEmpty(u, b, Ascii("svc="), v.svc);
    OptionIsNotEmpty(u, c, Ascii("inst="), v.inst);
  }

  lemma {:induction false} OptionIsNotEmpty(u: Unicode, segs: seq<Bytes>, marker: Bytes, name: Option<Runes>)
    requires SpellsOption(u, segs, marker, name) && marker != []
    ensures [] !in segs
  {
  }

  // ---- queries ----

  lemma {:induction false} PairExactly(u: Unicode, text: Bytes, p: QPair)
    ensures ParsePair(u, text) == Ok(p) <==> SpellsPair(u, text, p)
  {
    MarkersSpelled();
    if ParsePair(u, text) == Ok(p) {
      var eq := Find(text, EQUALS, 0);
      assert text == text[..eq] + ([EQUALS] + text[eq + 1..]);
      assert EQUALS !in text[..eq];
    }
    if SpellsPair(u, text, p) {
      var key, val :|
        && text == key + (Ascii("=") + val) && key != [] && EQUALS !in key && DecodeQ(key).Ok? && DecodeQ(val).Ok?
        && p == QPair(u.nfc(DecodeQ(key).value), u.nfc(DecodeQ(val).value));
      PairRead(u, text, key, val);
    }
  }

  lemma {:induction false} PairRead(u: Unicode, text: Bytes, key: Bytes, val: Bytes)
    requires text == key + ([EQUALS] + val) && key != [] && EQUALS !in key && DecodeQ(key).Ok? && DecodeQ(val).Ok?
    ensures ParsePair(u, text) == Ok(QPair(u.nfc(DecodeQ(key).value), u.nfc(DecodeQ(val).value)))
  {
    FindFirst(key, EQUALS, val);
    assert text[..|key|] == key && text[|key| + 1..] == val;
  }

  lemma {:induction false} PairsExactly(u: Unicode, texts: seq<Bytes>, ps: seq<QPair>)
    ensures ParsePairs(u, texts) == Ok(ps) <==> SpellsPairs(u, texts, ps)
    decreases |texts|
  {
    if texts != [] && ps != [] {
      PairExactly(u, texts[0], ps[0]);
      PairsExactly(u, texts[1..], ps[1..]);
      assert ps == [ps[0]] + ps[1..] && texts == [texts[0]] + texts[1..];
      PairsTail(u, texts, ps);
    }
  }

  lemma {:induction false} PairsTail(u: Unicode, texts: seq<Bytes>, ps: seq<QPair>)
    requires texts != [] && ps != []
    ensures SpellsPairs(u, texts, ps) <==> SpellsPair(u, texts[0], ps[0]) && SpellsPairs(u, texts[1..], ps[1..])
  {
    if SpellsPair(u, texts[0], ps[0]) && SpellsPairs(u, texts[1..], ps[1..]) {
      forall i | 0 <= i < |ps| ensures SpellsPair(u, texts[i], ps[i]) {
        if i > 0 { assert SpellsPair(u, texts[1..][i - 1], ps[1..][i - 1]); }
      }
    }
  }

  lemma {:induction false} QueryExactly(u: Unicode, qs: Bytes, ps: seq<QPair>)
    ensures ParseQuery(u, qs) == Ok(ps) ==> SpellsQuery(u, Some(Split(qs, AMPERSAND)), ps)
    ensures forall texts | SpellsQuery(u, Some(texts), ps) && qs == Join(texts, AMPERSAND) :: ParseQuery(u, qs) == Ok(ps)
  {
    if ParseQuery(u, qs) == Ok(ps) {
      JoinOfSplit(qs, AMPERSAND);
      PairsExactly(u, Split(qs, AMPERSAND), ps);
    }
    forall texts | SpellsQuery(u, Some(texts), ps) && qs == Join(texts, AMPERSAND) ensures ParseQuery(u, qs) == Ok(ps) {
      SplitOfJoin(texts, AMPERSAND);
      PairsExactly(u, texts, ps);
      assert SpellsPair(u, texts[0], ps[0]);
    }
  }

  // ---- whole URIs ----

  /** What stands behind the scheme. */
  ghost predicate SpellsRest(u: Unicode, rest: Bytes, v: Uri)
  {
    exists segs, query :: SpellsRestAs(u, rest, v, segs, query)
  }

  ghost predicate SpellsRestAs(u: Unicode, rest: Bytes, v: Uri, segs: seq<Bytes>, query: Option<seq<Bytes>>)
  {
    && segs != [] && AllFree(segs, SLASH) && SpellsPath(u, segs, v.(query := [])) && SpellsQuery(u, query, v.query)
    && rest == RestText(segs, query)
  }

  function RestText(segs: seq<Bytes>, query: Option<seq<Bytes>>): Bytes
    requires segs != []
  {
    Join(segs, SLASH) + (if query.None? || query.value == [] then [] else Ascii("?") + Join(query.value, AMPERSAND))
  }

  lemma {:induction false} RestSpelled(u: Unicode, rest: Bytes, v: Uri)
    requires ParseRest(u, rest) == Ok(v)
    ensures SpellsRest(u, rest, v)
  {
    var q := Find(rest, QUESTION, 0);
    if q == |rest| {
      assert rest[..q] == rest;
      PathAlone(u, rest, v);
    } else {
      Around(rest, q);
      var w := RestBehind(u, rest, v, q);
      PathAndQuery(u, rest[..q], rest[q + 1..], v, w);
    }
  }

  lemma {:induction false} RestBehind(u: Unicode, rest: Bytes, v: Uri, q: nat) returns (w: Uri)
    requires ParseRest(u, rest) == Ok(v) && q == Find(rest, QUESTION, 0) < |rest|
    ensures ParsePath(u, Split(rest[..q], SLASH)) == Ok(w) && ParseQuery(u, rest[q + 1..]) == Ok(v.query)
    ensures v == w.(query := v.query)
  {
    w := ParsePath(u, Split(rest[..q], SLASH)).value;
    assert ParseQuery(u, rest[q + 1..]).Ok?;
  }

  lemma {:induction false} Around(s: Bytes, q: nat)
    requires q < |s|
    ensures s == s[..q] + ([s[q]] + s[q + 1..])
  {
  }

  lemma {:induction false} PathAlone(u: Unicode, path: Bytes, v: Uri)
    requires ParsePath(u, Split(path, SLASH)) == Ok(v)
    ensures SpellsRest(u, path, v)
  {
    var segs := Split(path, SLASH);
    JoinOfSplit(path, SLASH);
    PathExactly(u, segs, v);
    assert v.(query := []) == v;
    assert path + [] == path;
    assert SpellsRestAs(u, path, v, segs, None);
  }

  lemma {:induction false} PathAndQuery(u: Unicode, path: Bytes, qs: Bytes, v: Uri, w: Uri)
    requires ParsePath(u, Split(path, SLASH)) == Ok(w) && v == w.(query := v.query)
    requires ParseQuery(u, qs) == Ok(v.query)
    ensures SpellsRest(u, path + ([QUESTION] + qs), v)
  {
    MarkersSpelled();
    var segs, texts := Split(path, SLASH), Split(qs, AMPERSAND);
    JoinOfSplit(path, SLASH);
    JoinOfSplit(qs, AMPERSAND);
    PathExactly(u, segs, w);
    assert v.(query := []) == w;
    QueryExactly(u, qs, v.query);
    assert SpellsRestAs(u, path + ([QUESTION] + qs), v, segs, Some(texts));
  }

  lemma {:induction false} SegmentHoldsNo(u: Unicode, seg: Bytes, marker: Bytes, name: Runes, c: byte)
    requires SpellsSegment(u, seg, marker, name) && c < 0x80 && !IsUnreserved(c) && c != PERCENT
    requires forall i | 0 <= i < |marker| :: LowerAscii(marker[i]) != LowerAscii(c)
    ensures c !in seg
  {
    LabelHoldsNo(u, seg[|marker|..], c);
    assert seg == seg[..|marker|] + seg[|marker|..];
    forall i | 0 <= i < |marker| ensures seg[i] != c {
      assert LowerAscii(seg[..|marker|][i]) == LowerAscii(marker[i]);
    }
  }

  lemma {:induction false} OptionHoldsNo(u: Unicode, segs: seq<Bytes>, marker: Bytes, name: Option<Runes>, c: byte)
    requires SpellsOption(u, segs, marker, name) && (c == HASH || c == QUESTION)
    requires marker in {Ascii("ns="), Ascii("svc="), Ascii("inst=")}
    ensures AllFree(segs, c)
  {
    MarkersSpelled();
    if name.Some? { SegmentHoldsNo(u, segs[0], marker, name.value, c); }
  }

  lemma {:induction false} PathHoldsNo(u: Unicode, segs: seq<Bytes>, v: Uri, c: byte)
    requires SpellsPath(u, segs, v) && (c == HASH || c == QUESTION)
    ensures AllFree(segs, c)
  {
    MarkersSpelled();
    match v
    case CapabilityQuery(_, _) => LabelHoldsNo(u, segs[1], c);
    case Concrete(_, _, _, _, _) =>
      LabelHoldsNo(u, segs[0], c);
      MarkedHoldNo(u, segs[1..], v, c);
      FreeCons(segs, c);
  }

  lemma {:induction false} MarkedHoldNo(u: Unicode, segs: seq<Bytes>, v: Uri, c: byte)
    requires v.Concrete? && SpellsMarked(u, segs, v) && (c == HASH || c == QUESTION)
    ensures AllFree(segs, c)
  {
    var x, y, z :| segs == x + y + z && SpellsParts(u, x, y, z, v);
    OptionHoldsNo(u, x, Ascii("ns="), v.ns, c);
    OptionHoldsNo(u, y, Ascii("svc="), v.svc, c);
    OptionHoldsNo(u, z, Ascii("inst="), v.inst, c);
    FreeTogether(x, y, z, c);
  }

  lemma {:induction false} FreeCons(segs: seq<Bytes>, c: byte)
    requires segs != [] && Free(segs[0], c) && AllFree(segs[1..], c)
    ensures AllFree(segs, c)
  {
    forall i | 0 <= i < |segs| ensures Free(segs[i], c) {
      if i > 0 { assert segs[i] == segs[1..][i - 1]; }
    }
  }

  lemma {:induction false} FreeTogether(x: seq<Bytes>, y: seq<Bytes>, z: seq<Bytes>, c: byte)
    requires AllFree(x, c) && AllFree(y, c) && AllFree(z, c)
    ensures AllFree(x + y + z, c)
  {
    var all := x + y + z;
    forall i | 0 <= i < |all| ensures Free(all[i], c) {
      assert all[i] == if i < |x| then x[i] else if i < |x| + |y| then y[i - |x|] else z[i - |x| - |y|];
    }
  }

  lemma {:induction false} PairHoldsNoHash(u: Unicode, text: Bytes, p: QPair)
    requires SpellsPair(u, text, p)
    ensures Free(text, HASH)
  {
    MarkersSpelled();
    var key, val :|
      && text == key + (Ascii("=") + val) && key != [] && EQUALS !in key && DecodeQ(key).Ok? && DecodeQ(val).Ok?
      && p == QPair(u.nfc(DecodeQ(key).value), u.nfc(DecodeQ(val).value));
    if HASH in key { DecodedHoldsNo(key, false, HASH); }
    if HASH in val { DecodedHoldsNo(val, false, HASH); }
  }

  lemma {:induction false} RestRead(u: Unicode, segs: seq<Bytes>, query: Option<seq<Bytes>>, v: Uri)
    requires segs != [] && AllFree(segs, SLASH) && SpellsPath(u, segs, v.(query := [])) && SpellsQuery(u, query, v.query)
    ensures ParseRest(u, RestText(segs, query)) == Ok(v)
  {
    MarkersSpelled();
    var path := Join(segs, SLASH);
    PathHoldsNo(u, segs, v.(query := []), HASH);
    PathHoldsNo(u, segs, v.(query := []), QUESTION);
    JoinIsFree(segs, SLASH, HASH);
    JoinIsFree(segs, SLASH, QUESTION);
    SplitOfJoin(segs, SLASH);
    PathExactly(u, segs, v.(query := []));
    if query.None? {
      assert RestText(segs, query) == path;
      FindNone(path, QUESTION);
      assert path[..|path|] == path;
    } else {
      var qs := Join(query.value, AMPERSAND);
      forall i | 0 <= i < |query.value| ensures Free(query.value[i], HASH) { PairHoldsNoHash(u, query.value[i], v.query[i]); }
      JoinIsFree(query.value, AMPERSAND, HASH);
      QueryExactly(u, qs, v.query);
      RestWithQuery(u, path, qs, v);
    }
  }

  lemma {:induction false} RestWithQuery(u: Unicode, path: Bytes, qs: Bytes, v: Uri)
    requires Free(path, HASH) && Free(path, QUESTION) && Free(qs, HASH)
    requires ParsePath(u, Split(path, SLASH)) == Ok(v.(query := [])) && ParseQuery(u, qs) == Ok(v.query)
    ensures ParseRest(u, path + ([QUESTION] + qs)) == Ok(v)
  {
    var rest := path + ([QUESTION] + qs);
    FindFirst(path, QUESTION, qs);
    NoHash(path, qs);
    assert rest[..|path|] == path && rest[|path| + 1..] == qs;
    assert v.(query := []).(query := v.query) == v;
  }

  lemma {:induction false} NoHash(path: Bytes, qs: Bytes)
    requires Free(path, HASH) && Free(qs, HASH)
    ensures HASH !in path + ([QUESTION] + qs)
  {
  }

  lemma {:induction false} RestExactly(u: Unicode, rest: Bytes, v: Uri)
    ensures ParseRest(u, rest) == Ok(v) <==> SpellsRest(u, rest, v)
  {
    if ParseRest(u, rest) == Ok(v) { RestSpelled(u, rest, v); }
    if SpellsRest(u, rest, v) {
      var segs, query :| SpellsRestAs(u, rest, v, segs, query);
      RestRead(u, segs, query, v);
    }
  }

  lemma {:induction false} SeparatorFound(scheme: Bytes, rest: Bytes, i: nat)
    requires Free(scheme, COLON) && i <= |scheme|
    ensures FindSeparator(scheme + (SEPARATOR + rest), i) == Some(|scheme|)
    decreases |scheme| - i
  {
    var s := scheme + (SEPARATOR + rest);
    if i < |scheme| {
      assert s[i..i + 3][0] == scheme[i];
      SeparatorFound(scheme, rest, i + 1);
    } else {
      assert s[i..i + 3] == SEPARATOR;
    }
  }

  lemma {:induction false} SchemeIsFree(scheme: Bytes)
    requires EqualFold(scheme, Ascii("agent"))
    ensures Free(scheme, COLON)
  {
    MarkersSpelled();
    forall i | 0 <= i < |scheme| ensures scheme[i] != COLON { assert LowerAscii(scheme[i]) == LowerAscii(SCHEME[i]); }
  }

  /** s is the scheme in any case, "://", and the spelling of v. */
  ghost predicate SpellsUri(u: Unicode, s: Bytes, v: Uri)
  {
    exists scheme, rest ::
      EqualFold(scheme, Ascii("agent")) && s == scheme + (Ascii("://") + rest) && Utf8.Valid(s) && SpellsRest(u, rest, v)
  }

  /** The parser accepts exactly the texts of the grammar, and gives each its value. */
  lemma {:induction false} ParsesExactlyUris(u: Unicode, s: Bytes, v: Uri)
    ensures Parse(u, s) == Ok(v) <==> SpellsUri(u, s, v)
  {
    MarkersSpelled();
    if Parse(u, s) == Ok(v) {
      var i := FindSeparator(s, 0).value;
      SeparatorIs(s, 0);
      RestExactly(u, s[i + 3..], v);
    }
    if SpellsUri(u, s, v) {
      var scheme, rest :|
        EqualFold(scheme, Ascii("agent")) && s == scheme + (Ascii("://") + rest) && Utf8.Valid(s) && SpellsRest(u, rest, v);
      BehindScheme(u, scheme, rest);
      RestExactly(u, rest, v);
    }
  }

  lemma {:induction false} BehindScheme(u: Unicode, scheme: Bytes, rest: Bytes)
    requires EqualFold(scheme, Ascii("agent")) && Utf8.Valid(scheme + (Ascii("://") + rest))
    ensures Parse(u, scheme + (Ascii("://") + rest)) == ParseRest(u, rest)
  {
    MarkersSpelled();
    SchemeIsFree(scheme);
    SeparatorFound(scheme, rest, 0);
    var s := scheme + (SEPARATOR + rest);
    assert s[..|scheme|] == scheme && s[|scheme| + 3..] == rest;
  }

  lemma {:induction false} SeparatorIs(s: Bytes, i: nat)
    requires FindSeparator(s, i).Some?
    ensures var j := FindSeparator(s, i).value; s == s[..j] + (SEPARATOR + s[j + 3..])
    decreases |s| - i
  {
    if i + 3 <= |s| && s[i..i + 3] != SEPARATOR {
      SeparatorIs(s, i + 1);
    } else {
      AroundThree(s, i, SEPARATOR);
    }
  }

  lemma {:induction false} AroundThree(s: Bytes, i: nat, sep: Bytes)
    requires i + 3 <= |s| && s[i..i + 3] == sep
    ensures s == s[..i] + (sep + s[i + 3..])
  {
  }

  /** A fragment has a reason of its own, before anything else behind the scheme is looked at. */
  lemma {:induction false} FragmentsAreNamed(u: Unicode, scheme: Bytes, rest: Bytes)
    requires EqualFold(scheme, Ascii("agent")) && Utf8.Valid(scheme + (Ascii("://") + rest)) && '#' as int in rest
    ensures Parse(u, scheme + (Ascii("://") + rest)) == Err(FragmentPresent)
  {
    BehindScheme(u, scheme, rest);
  }

  // ---- the order of the query ----

  /** a is the start of b, or has the smaller byte where they first differ. */
  ghost predicate NotAfter(a: Bytes, b: Bytes)
  {
    a <= b || exists k: nat :: Utf8.SmallerAt(a, b, k)
  }

  lemma {:induction false} BeforeExactly(a: Bytes, b: Bytes)
    ensures Before(a, b) <==> NotAfter(a, b)
    decreases |a|
  {
    if a != [] && b != [] {
      BeforeExactly(a[1..], b[1..]);
      if a[0] == b[0] { Shifted(a, b); }
      if a[0] < b[0] { assert Utf8.SmallerAt(a, b, 0); }
    }
  }

  lemma {:induction false} Shifted(a: Bytes, b: Bytes)
    requires a != [] && b != [] && a[0] == b[0]
    ensures NotAfter(a, b) <==> NotAfter(a[1..], b[1..])
  {
    assert a <= b <==> a[1..] <= b[1..] by {
      assert a == [a[0]] + a[1..] && b == [b[0]] + b[1..];
    }
    if k: nat :| Utf8.SmallerAt(a, b, k) { assert Utf8.SmallerAt(a[1..], b[1..], k - 1); }
    if k: nat :| Utf8.SmallerAt(a[1..], b[1..], k) {
      assert forall i | 0 <= i < k + 1 :: a[i] == b[i] by {
        assert forall i | 0 < i < k + 1 :: a[i] == a[1..][i - 1] && b[i] == b[1..][i - 1];
      }
      assert Utf8.SmallerAt(a, b, k + 1);
    }
  }

  /** A canonical query lists the same pairs, and no encoded pair comes after the next. */
  lemma {:induction false} CanonicalQueryAscends(u: Unicode, ps: seq<QPair>, i: nat)
    requires CanonicalPairs(u, ps)
    ensures multiset(SortQuery(ps)) == multiset(ps) && |SortQuery(ps)| == |ps|
    ensures i + 1 < |ps| ==> NotAfter(EncPair(SortQuery(ps)[i]), EncPair(SortQuery(ps)[i + 1]))
  {
    SortSorts(ps);
    SortKeeps(u, ps);
    if i + 1 < |ps| {
      assert InOrderAt(SortQuery(ps), i);
      BeforeExactly(EncPair(SortQuery(ps)[i]), EncPair(SortQuery(ps)[i + 1]));
    }
  }
}
