/** Agent URIs: parse, serialize, and the canonical form as a fixed point. */
module AgentUris {
  import opened Octets
  import Utf8
  import opened UriText

  const COLON: byte := 0x3a
  const SLASH: byte := 0x2f
  const QUESTION: byte := 0x3f
  const HASH: byte := 0x23
  const AMPERSAND: byte := 0x26
  const EQUALS: byte := 0x3d
  const SEPARATOR: Bytes := [COLON, SLASH, SLASH]
  const SCHEME: Bytes := [0x61, 0x67, 0x65, 0x6e, 0x74]
  const NS: Bytes := [0x6e, 0x73, EQUALS]
  const SVC: Bytes := [0x73, 0x76, 0x63, EQUALS]
  const INST: Bytes := [0x69, 0x6e, 0x73, 0x74, EQUALS]
  const STAR: Bytes := [ASTERISK]

  datatype QPair = QPair(key: Runes, value: Runes)

  datatype Uri =
    | CapabilityQuery(capability: Runes, query: seq<QPair>)
    | Concrete(org: Runes, ns: Option<Runes>, svc: Option<Runes>, inst: Option<Runes>, query: seq<QPair>)

  // ---- splitting ----

  /** Where c first occurs in s from i on, or |s|. */
  function Find(s: Bytes, c: byte, i: nat): (j: nat)
    requires i <= |s|
    ensures i <= j <= |s| && (j < |s| ==> s[j] == c) && forall k | i <= k < j :: s[k] != c
    decreases |s| - i
  {
    if i == |s| || s[i] == c then i else Find(s, c, i + 1)
  }

  /** The parts of s between occurrences of c. */
  function Split(s: Bytes, c: byte): (parts: seq<Bytes>)
    ensures parts != []
    decreases |s|
  {
    var j := Find(s, c, 0);
    if j == |s| then [s] else [s[..j]] + Split(s[j + 1..], c)
  }

  function Join(parts: seq<Bytes>, c: byte): Bytes
    requires parts != []
  {
    if |parts| == 1 then parts[0] else parts[0] + ([c] + Join(parts[1..], c))
  }

  predicate Free(s: Bytes, c: byte) { forall i | 0 <= i < |s| :: s[i] != c }

  predicate AllFree(parts: seq<Bytes>, c: byte) { forall i | 0 <= i < |parts| :: Free(parts[i], c) }

  lemma {:induction false} FindFirst(a: Bytes, c: byte, b: Bytes)
    requires Free(a, c)
    ensures Find(a + ([c] + b), c, 0) == |a|
  {
    var s := a + ([c] + b);
    assert forall k | 0 <= k < |a| :: s[k] == a[k];
    assert s[|a|] == c;
  }

  lemma {:induction false} FindNone(s: Bytes, c: byte)
    requires Free(s, c)
    ensures Find(s, c, 0) == |s|
  {
  }

  lemma {:induction false} SplitOfJoin(parts: seq<Bytes>, c: byte)
    requires parts != [] && AllFree(parts, c)
    ensures Split(Join(parts, c), c) == parts
    decreases |parts|
  {
    if |parts| == 1 {
      FindNone(parts[0], c);
    } else {
      var rest := Join(parts[1..], c);
      var s := parts[0] + ([c] + rest);
      FindFirst(parts[0], c, rest);
      assert s[..|parts[0]|] == parts[0] && s[|parts[0]| + 1..] == rest;
      SplitOfJoin(parts[1..], c);
      assert parts == [parts[0]] + parts[1..];
    }
  }

  lemma {:induction false} JoinIsFree(parts: seq<Bytes>, c: byte, d: byte)
    requires parts != [] && AllFree(parts, d) && c != d
    ensures Free(Join(parts, c), d)
    decreases |parts|
  {
    if |parts| > 1 { JoinIsFree(parts[1..], c, d); }
  }

  // ---- markers ----

  function LowerAscii(b: byte): byte { if 0x41 <= b <= 0x5a then b + 0x20 else b }

  /** Equal up to ASCII case. */
  predicate EqualFold(a: Bytes, b: Bytes)
  {
    |a| == |b| && forall i | 0 <= i < |a| :: LowerAscii(a[i]) == LowerAscii(b[i])
  }

  predicate HasPrefixFold(s: Bytes, p: Bytes) { |s| >= |p| && EqualFold(s[..|p|], p) }

  datatype Marked = Marked(pos: nat, rest: Bytes)

  function MatchMarker(seg: Bytes): (m: Option<Marked>)
    ensures m.Some? ==> 2 <= m.value.pos <= 4
  {
    if HasPrefixFold(seg, NS) then Some(Marked(2, seg[|NS|..]))
    else if HasPrefixFold(seg, SVC) then Some(Marked(3, seg[|SVC|..]))
    else if HasPrefixFold(seg, INST) then Some(Marked(4, seg[|INST|..]))
    else None
  }

  function AtPos(v: Uri, pos: nat): Option<Runes>
    requires v.Concrete?
  {
    if pos == 2 then v.ns else if pos == 3 then v.svc else v.inst
  }

  function SetPos(v: Uri, pos: nat, name: Runes): (w: Uri)
    requires v.Concrete?
    ensures w.Concrete?
  {
    if pos == 2 then v.(ns := Some(name)) else if pos == 3 then v.(svc := Some(name)) else v.(inst := Some(name))
  }

  // ---- parsing ----

  /** The marked segments, whose positions ascend from pos. */
  function Segments(u: Unicode, segs: seq<Bytes>, pos: nat, v: Uri): (r: Result<Uri, Reason>)
    requires v.Concrete?
    ensures r.Ok? ==> r.value.Concrete?
    decreases |segs|
  {
    if segs == [] then Ok(v)
    else
      match MatchMarker(segs[0])
      case None => if ASTERISK in segs[0] then Err(WildcardInLabel) else Err(UnmarkedSegment)
      case Some(m) =>
        if m.pos <= pos then Err(if AtPos(v, m.pos).Some? then DuplicateMarker else PositionOrder)
        else
          match ParseLabel(u, m.rest)
          case Err(e) => Err(e)
          case Ok(name) => Segments(u, segs[1..], m.pos, SetPos(v, m.pos, name))
  }

  function ParsePath(u: Unicode, segs: seq<Bytes>): Result<Uri, Reason>
    requires segs != []
  {
    if segs[0] == STAR then
      if |segs| != 2 then Err(WildcardForm)
      else
        match ParseLabel(u, segs[1])
        case Err(e) => Err(e)
        case Ok(c) => Ok(CapabilityQuery(c, []))
    else if segs[0] == [] then Err(EmptyAuthority)
    else if ASTERISK in segs[0] then Err(WildcardInLabel)
    else
      match ParseLabel(u, segs[0])
      case Err(e) => Err(e)
      case Ok(org) =>
        if [] in segs[1..] then Err(EmptyLabel)
        else Segments(u, segs[1..], 1, Concrete(org, None, None, None, []))
  }

  function ParsePair(u: Unicode, pair: Bytes): Result<QPair, Reason>
  {
    var eq := Find(pair, EQUALS, 0);
    if eq == |pair| || eq == 0 then Err(QuerySyntax)
    else
      match DecodeQ(pair[..eq])
      case Err(e) => Err(e)
      case Ok(k) =>
        match DecodeQ(pair[eq + 1..])
        case Err(e) => Err(e)
        case Ok(val) => Ok(QPair(u.nfc(k), u.nfc(val)))
  }

  function ParsePairs(u: Unicode, pairs: seq<Bytes>): Result<seq<QPair>, Reason>
    decreases |pairs|
  {
    if pairs == [] then Ok([])
    else
      match ParsePair(u, pairs[0])
      case Err(e) => Err(e)
      case Ok(p) =>
        match ParsePairs(u, pairs[1..])
        case Err(e) => Err(e)
        case Ok(ps) => Ok([p] + ps)
  }

  function ParseQuery(u: Unicode, qs: Bytes): Result<seq<QPair>, Reason>
  {
    if qs == [] then Err(QuerySyntax) else ParsePairs(u, Split(qs, AMPERSAND))
  }

  /** What follows the scheme separator. */
  function ParseRest(u: Unicode, rest: Bytes): Result<Uri, Reason>
  {
    if HASH in rest then Err(FragmentPresent)
    else
      var q := Find(rest, QUESTION, 0);
      match ParsePath(u, Split(rest[..q], SLASH))
      case Err(e) => Err(e)
      case Ok(v) =>
        if q == |rest| then Ok(v)
        else
          match ParseQuery(u, rest[q + 1..])
          case Err(e) => Err(e)
          case Ok(ps) => Ok(v.(query := ps))
  }

  /** Where the scheme separator first occurs in s from i on. */
  function FindSeparator(s: Bytes, i: nat): (r: Option<nat>)
    ensures r.Some? ==> i <= r.value && r.value + 3 <= |s|
    decreases |s| - i
  {
    if i + 3 > |s| then None
    else if s[i..i + 3] == SEPARATOR then Some(i)
    else FindSeparator(s, i + 1)
  }

  function Parse(u: Unicode, s: Bytes): Result<Uri, Reason>
  {
    if !Utf8.Valid(s) then Err(BadUtf8)
    else
      match FindSeparator(s, 0)
      case None => Err(SchemeMismatch)
      case Some(i) => if EqualFold(s[..i], SCHEME) then ParseRest(u, s[i + 3..]) else Err(SchemeMismatch)
  }

  // ---- serializing ----

  /** Bytewise order of strings. */
  predicate Before(a: Bytes, b: Bytes)
  {
    a == [] || (b != [] && (a[0] < b[0] || (a[0] == b[0] && Before(a[1..], b[1..]))))
  }

  function EncPair(p: QPair): Bytes { EncLabel(p.key) + ([EQUALS] + EncLabel(p.value)) }

  function Insert(p: QPair, ps: seq<QPair>): seq<QPair>
  {
    if ps == [] || Before(EncPair(p), EncPair(ps[0])) then [p] + ps else [ps[0]] + Insert(p, ps[1..])
  }

  /** The query in the bytewise order of its encoded pairs; repeats stay. */
  function SortQuery(ps: seq<QPair>): seq<QPair>
  {
    if ps == [] then [] else Insert(ps[0], SortQuery(ps[1..]))
  }

  function Segment(marker: Bytes, name: Option<Runes>): seq<Bytes>
  {
    if name.None? then [] else [marker + EncLabel(name.value)]
  }

  function PathSegments(v: Uri): (segs: seq<Bytes>)
    ensures segs != []
  {
    if v.CapabilityQuery? then [STAR, EncLabel(v.capability)]
    else [EncLabel(v.org)] + (Segment(NS, v.ns) + (Segment(SVC, v.svc) + Segment(INST, v.inst)))
  }

  function EncPairs(ps: seq<QPair>): seq<Bytes> { seq(|ps|, i requires 0 <= i < |ps| => EncPair(ps[i])) }

  function QueryText(ps: seq<QPair>): Bytes
  {
    if ps == [] then [] else [QUESTION] + Join(EncPairs(ps), AMPERSAND)
  }

  function Serialize(v: Uri): Bytes
  {
    SCHEME + (SEPARATOR + (Join(PathSegments(v), SLASH) + QueryText(SortQuery(v.query))))
  }

  function Canonical(u: Unicode, s: Bytes): Result<Bytes, Reason>
  {
    match Parse(u, s)
    case Err(e) => Err(e)
    case Ok(v) => Ok(Serialize(v))
  }

  function Sorted(v: Uri): Uri { v.(query := SortQuery(v.query)) }

  // ---- what a parsed URI is ----

  ghost predicate CanonicalPair(u: Unicode, p: QPair)
  {
    p.key != [] && AllScalar(p.key) && AllScalar(p.value) && u.nfc(p.key) == p.key && u.nfc(p.value) == p.value
  }

  ghost predicate CanonicalPairs(u: Unicode, ps: seq<QPair>) { forall i | 0 <= i < |ps| :: CanonicalPair(u, ps[i]) }

  ghost predicate CanonicalOption(u: Unicode, name: Option<Runes>)
  {
    name.Some? ==> CanonicalLabel(u, name.value)
  }

  /** Every name is folded and normal, every query pair is normal. */
  ghost predicate CanonicalUri(u: Unicode, v: Uri)
  {
    && CanonicalPairs(u, v.query)
    && if v.CapabilityQuery? then CanonicalLabel(u, v.capability)
       else
         && CanonicalLabel(u, v.org) && CanonicalOption(u, v.ns) && CanonicalOption(u, v.svc)
         && CanonicalOption(u, v.inst)
  }

  lemma {:induction false} SegmentsAreCanonical(u: Unicode, segs: seq<Bytes>, pos: nat, v: Uri)
    requires Normalizes(u) && v.Concrete? && CanonicalUri(u, v) && Segments(u, segs, pos, v).Ok?
    ensures CanonicalUri(u, Segments(u, segs, pos, v).value)
    decreases |segs|
  {
    if segs != [] {
      var m := MatchMarker(segs[0]).value;
      ParsedLabelIsCanonical(u, m.rest);
      SegmentsAreCanonical(u, segs[1..], m.pos, SetPos(v, m.pos, ParseLabel(u, m.rest).value));
    }
  }

  lemma {:induction false} PathIsCanonical(u: Unicode, segs: seq<Bytes>)
    requires Normalizes(u) && segs != [] && ParsePath(u, segs).Ok?
    ensures CanonicalUri(u, ParsePath(u, segs).value)
  {
    if segs[0] == STAR {
      ParsedLabelIsCanonical(u, segs[1]);
    } else {
      ParsedLabelIsCanonical(u, segs[0]);
      SegmentsAreCanonical(u, segs[1..], 1, Concrete(ParseLabel(u, segs[0]).value, None, None, None, []));
    }
  }

  lemma {:induction false} PairIsCanonical(u: Unicode, pair: Bytes)
    requires Normalizes(u) && ParsePair(u, pair).Ok?
    ensures CanonicalPair(u, ParsePair(u, pair).value)
  {
    var eq := Find(pair, EQUALS, 0);
    DecodedIsScalar(pair[..eq], false);
    DecodedIsScalar(pair[eq + 1..], false);
    DecodedIsNotEmpty(pair[..eq]);
  }

  lemma {:induction false} DecodedIsNotEmpty(s: Bytes)
    requires s != [] && DecodeQ(s).Ok?
    ensures DecodeQ(s).value != []
  {
    var p := NextPiece(s, false).value;
    assert p.bytes != [];
    assert DecodeRaw(s, false).value != [];
  }

  lemma {:induction false} PairsAreCanonical(u: Unicode, pairs: seq<Bytes>)
    requires Normalizes(u) && ParsePairs(u, pairs).Ok?
    ensures CanonicalPairs(u, ParsePairs(u, pairs).value) && |ParsePairs(u, pairs).value| == |pairs|
    decreases |pairs|
  {
    if pairs != [] {
      PairIsCanonical(u, pairs[0]);
      PairsAreCanonical(u, pairs[1..]);
    }
  }

  lemma {:induction false} ParsedIsCanonical(u: Unicode, s: Bytes)
    requires Normalizes(u) && Parse(u, s).Ok?
    ensures CanonicalUri(u, Parse(u, s).value)
  {
    var rest := s[FindSeparator(s, 0).value + 3..];
    var q := Find(rest, QUESTION, 0);
    PathIsCanonical(u, Split(rest[..q], SLASH));
    if q < |rest| { PairsAreCanonical(u, Split(rest[q + 1..], AMPERSAND)); }
  }

  // ---- reading back the query ----

  lemma {:induction false} PlainIsFree(s: Bytes, c: byte)
    requires PlainText(s) && !TextByte(c)
    ensures Free(s, c)
  {
  }

  lemma {:induction false} PairReadsBack(u: Unicode, p: QPair)
    requires CanonicalPair(u, p)
    ensures ParsePair(u, EncPair(p)) == Ok(p) && Free(EncPair(p), AMPERSAND) && EncPair(p) != []
  {
    var k, val := EncLabel(p.key), EncLabel(p.value);
    EncLabelIsPlain(p.key);
    EncLabelIsPlain(p.value);
    PlainIsFree(k, EQUALS);
    PlainIsFree(k, AMPERSAND);
    PlainIsFree(val, AMPERSAND);
    FindFirst(k, EQUALS, val);
    assert EncPair(p)[..|k|] == k && EncPair(p)[|k| + 1..] == val;
    TextRoundTrip(p.key);
    TextRoundTrip(p.value);
  }

  lemma {:induction false} PairsReadBack(u: Unicode, ps: seq<QPair>)
    requires CanonicalPairs(u, ps)
    ensures ParsePairs(u, EncPairs(ps)) == Ok(ps)
    decreases |ps|
  {
    if ps == [] {
      assert EncPairs(ps) == [];
    } else {
      var head, tail := ps[0], ps[1..];
      PairReadsBack(u, head);
      assert CanonicalPairs(u, tail);
      PairsReadBack(u, tail);
      EncPairsCons(ps);
      PairsCons(u, EncPair(head), EncPairs(tail), head, tail);
    }
  }

  lemma {:induction false} EncPairsCons(ps: seq<QPair>)
    requires ps != []
    ensures EncPairs(ps) == [EncPair(ps[0])] + EncPairs(ps[1..]) && ps == [ps[0]] + ps[1..]
  {
  }

  lemma {:induction false} PairsCons(u: Unicode, e: Bytes, es: seq<Bytes>, p: QPair, ps: seq<QPair>)
    requires ParsePair(u, e) == Ok(p) && ParsePairs(u, es) == Ok(ps)
    ensures ParsePairs(u, [e] + es) == Ok([p] + ps)
  {
    assert ([e] + es)[1..] == es;
  }

  lemma {:induction false} QueryReadsBack(u: Unicode, ps: seq<QPair>)
    requires CanonicalPairs(u, ps) && ps != []
    ensures ParseQuery(u, Join(EncPairs(ps), AMPERSAND)) == Ok(ps)
  {
    forall i | 0 <= i < |ps| ensures Free(EncPairs(ps)[i], AMPERSAND) { PairReadsBack(u, ps[i]); }
    PairReadsBack(u, ps[0]);
    SplitOfJoin(EncPairs(ps), AMPERSAND);
    PairsReadBack(u, ps);
    assert Join(EncPairs(ps), AMPERSAND) != [];
  }

  // ---- sorting ----

  lemma {:induction false} InsertKeeps(u: Unicode, p: QPair, ps: seq<QPair>)
    requires CanonicalPair(u, p) && CanonicalPairs(u, ps)
    ensures CanonicalPairs(u, Insert(p, ps)) && |Insert(p, ps)| == |ps| + 1
    ensures multiset(Insert(p, ps)) == multiset(ps) + multiset{p}
    decreases |ps|
  {
    if ps != [] && !Before(EncPair(p), EncPair(ps[0])) {
      assert ps == [ps[0]] + ps[1..];
      InsertKeeps(u, p, ps[1..]);
    }
  }

  lemma {:induction false} SortKeeps(u: Unicode, ps: seq<QPair>)
    requires CanonicalPairs(u, ps)
    ensures CanonicalPairs(u, SortQuery(ps)) && |SortQuery(ps)| == |ps| && multiset(SortQuery(ps)) == multiset(ps)
    decreases |ps|
  {
    if ps != [] {
      assert CanonicalPairs(u, ps[1..]);
      SortKeeps(u, ps[1..]);
      InsertKeeps(u, ps[0], SortQuery(ps[1..]));
      assert ps == [ps[0]] + ps[1..];
    }
  }

  lemma {:induction false} BeforeTotal(a: Bytes, b: Bytes)
    ensures Before(a, b) || Before(b, a)
    decreases |a|
  {
    if a != [] && b != [] && a[0] == b[0] { BeforeTotal(a[1..], b[1..]); }
  }

  predicate InOrderAt(ps: seq<QPair>, i: nat)
  {
    i + 1 < |ps| ==> Before(EncPair(ps[i]), EncPair(ps[i + 1]))
  }

  predicate InOrder(ps: seq<QPair>)
  {
    forall i | 0 <= i < |ps| :: InOrderAt(ps, i)
  }

  lemma {:induction false} InOrderCons(p: QPair, ps: seq<QPair>)
    ensures InOrder([p] + ps) <==> InOrder(ps) && (ps != [] ==> Before(EncPair(p), EncPair(ps[0])))
  {
    var all := [p] + ps;
    forall i | 0 <= i < |ps| ensures InOrderAt(ps, i) <==> InOrderAt(all, i + 1) {
    }
    assert InOrderAt(all, 0) <==> (ps != [] ==> Before(EncPair(p), EncPair(ps[0])));
    if InOrder(all) {
      forall i | 0 <= i < |ps| ensures InOrderAt(ps, i) { assert InOrderAt(all, i + 1); }
    }
    if InOrder(ps) && (ps != [] ==> Before(EncPair(p), EncPair(ps[0]))) {
      forall i | 0 <= i < |all| ensures InOrderAt(all, i) {
        if i > 0 { assert InOrderAt(ps, i - 1); }
      }
    }
  }

  lemma {:induction false} InsertSorts(p: QPair, ps: seq<QPair>)
    requires InOrder(ps)
    ensures InOrder(Insert(p, ps)) && Insert(p, ps) != []
    ensures Insert(p, ps)[0] == p || (ps != [] && Insert(p, ps)[0] == ps[0])
    decreases |ps|
  {
    if ps == [] || Before(EncPair(p), EncPair(ps[0])) {
      InOrderCons(p, ps);
    } else {
      BeforeTotal(EncPair(p), EncPair(ps[0]));
      assert ps == [ps[0]] + ps[1..];
      InOrderCons(ps[0], ps[1..]);
      InsertSorts(p, ps[1..]);
      InOrderCons(ps[0], Insert(p, ps[1..]));
    }
  }

  lemma {:induction false} SortSorts(ps: seq<QPair>)
    ensures InOrder(SortQuery(ps))
    decreases |ps|
  {
    if ps != [] {
      SortSorts(ps[1..]);
      InsertSorts(ps[0], SortQuery(ps[1..]));
    }
  }

  lemma {:induction false} SortedIsFixed(ps: seq<QPair>)
    requires InOrder(ps)
    ensures SortQuery(ps) == ps
    decreases |ps|
  {
    if ps != [] {
      assert ps == [ps[0]] + ps[1..];
      InOrderCons(ps[0], ps[1..]);
      SortedIsFixed(ps[1..]);
    }
  }

  lemma {:induction false} BeforeIsOrder(a: Bytes, b: Bytes, c: Bytes)
    ensures Before(a, b) && Before(b, a) ==> a == b
    ensures Before(a, b) && Before(b, c) ==> Before(a, c)
    decreases |a|
  {
    if a != [] && b != [] && a[0] == b[0] {
      BeforeIsOrder(a[1..], b[1..], if c != [] then c[1..] else []);
      assert a == [a[0]] + a[1..] && b == [b[0]] + b[1..];
    }
  }

  lemma {:induction false} FirstIsLeast(ps: seq<QPair>, q: QPair)
    requires InOrder(ps) && q in ps
    ensures Before(EncPair(ps[0]), EncPair(q))
    decreases |ps|
  {
    var rest := ps[1..];
    assert ps == [ps[0]] + rest;
    InOrderCons(ps[0], rest);
    if q == ps[0] {
      BeforeTotal(EncPair(q), EncPair(q));
    } else {
      FirstIsLeast(rest, q);
      BeforeIsOrder(EncPair(ps[0]), EncPair(rest[0]), EncPair(q));
    }
  }

  lemma {:induction false} EncPairInjective(u: Unicode, p: QPair, q: QPair)
    requires CanonicalPair(u, p) && CanonicalPair(u, q) && EncPair(p) == EncPair(q)
    ensures p == q
  {
    PairReadsBack(u, p);
    PairReadsBack(u, q);
  }

  lemma {:induction false} SameFirst(u: Unicode, a: seq<QPair>, b: seq<QPair>)
    requires CanonicalPairs(u, a) && CanonicalPairs(u, b) && InOrder(a) && InOrder(b)
    requires a != [] && b != [] && b[0] in a && a[0] in b
    ensures a[0] == b[0]
  {
    FirstIsLeast(a, b[0]);
    FirstIsLeast(b, a[0]);
    BeforeIsOrder(EncPair(a[0]), EncPair(b[0]), []);
    EncPairInjective(u, a[0], b[0]);
  }

  lemma {:induction false} WithoutFirst(u: Unicode, a: seq<QPair>)
    requires CanonicalPairs(u, a) && InOrder(a) && a != []
    ensures CanonicalPairs(u, a[1..]) && InOrder(a[1..])
    ensures multiset(a) == multiset(a[1..]) + multiset{a[0]} && a == [a[0]] + a[1..]
  {
    assert a == [a[0]] + a[1..];
    InOrderCons(a[0], a[1..]);
  }

  /** There is one sorted list of given pairs. */
  lemma {:induction false} SortedIsUnique(u: Unicode, a: seq<QPair>, b: seq<QPair>)
    requires CanonicalPairs(u, a) && CanonicalPairs(u, b) && InOrder(a) && InOrder(b)
    requires multiset(a) == multiset(b)
    ensures a == b
    decreases |a|
  {
    assert |a| == |multiset(a)| == |multiset(b)| == |b|;
    if a != [] {
      assert a[0] in multiset(b) && b[0] in multiset(a);
      SameFirst(u, a, b);
      WithoutFirst(u, a);
      WithoutFirst(u, b);
      assert multiset(a[1..]) == multiset(a) - multiset{a[0]} == multiset(b[1..]);
      SortedIsUnique(u, a[1..], b[1..]);
    }
  }

  lemma {:induction false} SortsAlike(u: Unicode, ps: seq<QPair>, qs: seq<QPair>)
    requires CanonicalPairs(u, ps) && CanonicalPairs(u, qs)
    ensures SortQuery(ps) == SortQuery(qs) <==> multiset(ps) == multiset(qs)
  {
    SortKeeps(u, ps);
    SortKeeps(u, qs);
    SortSorts(ps);
    SortSorts(qs);
    if multiset(ps) == multiset(qs) { SortedIsUnique(u, SortQuery(ps), SortQuery(qs)); }
  }

  // ---- reading back the path ----

  lemma {:induction false} MarkerMatches(marker: Bytes, pos: nat, text: Bytes)
    requires (marker == NS && pos == 2) || (marker == SVC && pos == 3) || (marker == INST && pos == 4)
    ensures MatchMarker(marker + text) == Some(Marked(pos, text))
  {
    var seg := marker + text;
    assert seg[..|marker|] == marker && seg[|marker|..] == text;
    assert seg[0] == marker[0] && LowerAscii(marker[0]) == marker[0];
    if HasPrefixFold(seg, NS) { assert seg[..|NS|][0] == seg[0]; }
    if HasPrefixFold(seg, SVC) { assert seg[..|SVC|][0] == seg[0]; }
  }

  lemma {:induction false} SegmentReadsBack(
    u: Unicode, marker: Bytes, pos: nat, name: Option<Runes>, rest: seq<Bytes>, before: nat, v: Uri)
    requires (marker == NS && pos == 2) || (marker == SVC && pos == 3) || (marker == INST && pos == 4)
    requires v.Concrete? && before < pos && CanonicalOption(u, name)
    ensures Segments(u, Segment(marker, name) + rest, before, v)
            == if name.None? then Segments(u, rest, before, v) else Segments(u, rest, pos, SetPos(v, pos, name.value))
  {
    if name.None? {
      assert Segment(marker, name) + rest == rest;
    } else {
      var segs := Segment(marker, name) + rest;
      assert segs[0] == marker + EncLabel(name.value) && segs[1..] == rest;
      MarkerMatches(marker, pos, EncLabel(name.value));
      LabelRoundTrip(u, name.value);
    }
  }

  lemma {:induction false} InstReadsBack(u: Unicode, inst: Option<Runes>, before: nat, v: Uri)
    requires v.Concrete? && v.inst.None? && before < 4 && CanonicalOption(u, inst)
    ensures Segments(u, Segment(INST, inst), before, v) == Ok(v.(inst := inst))
  {
    assert Segment(INST, inst) + [] == Segment(INST, inst);
    SegmentReadsBack(u, INST, 4, inst, [], before, v);
  }

  lemma {:induction false} SvcReadsBack(u: Unicode, svc: Option<Runes>, inst: Option<Runes>, before: nat, v: Uri)
    requires v.Concrete? && v.svc.None? && v.inst.None? && before < 3
    requires CanonicalOption(u, svc) && CanonicalOption(u, inst)
    ensures Segments(u, Segment(SVC, svc) + Segment(INST, inst), before, v) == Ok(v.(svc := svc, inst := inst))
  {
    SegmentReadsBack(u, SVC, 3, svc, Segment(INST, inst), before, v);
    InstReadsBack(u, inst, if svc.Some? then 3 else before, v.(svc := svc));
  }

  lemma {:induction false} SegmentsReadBack(u: Unicode, v: Uri)
    requires v.Concrete? && v.query == [] && CanonicalUri(u, v)
    ensures Segments(u, Segment(NS, v.ns) + (Segment(SVC, v.svc) + Segment(INST, v.inst)), 1,
                     Concrete(v.org, None, None, None, [])) == Ok(v)
  {
    var v0 := Concrete(v.org, None, None, None, []);
    SegmentReadsBack(u, NS, 2, v.ns, Segment(SVC, v.svc) + Segment(INST, v.inst), 1, v0);
    SvcReadsBack(u, v.svc, v.inst, if v.ns.Some? then 2 else 1, v0.(ns := v.ns));
  }

  lemma {:induction false} LabelText(u: Unicode, rs: Runes)
    requires CanonicalLabel(u, rs)
    ensures PlainText(EncLabel(rs)) && EncLabel(rs) != [] && ASTERISK !in EncLabel(rs) && EncLabel(rs) != STAR
  {
    EncLabelIsPlain(rs);
  }

  lemma {:induction false} PathReadsBack(u: Unicode, v: Uri)
    requires v.query == [] && CanonicalUri(u, v)
    ensures ParsePath(u, PathSegments(v)) == Ok(v)
  {
    if v.CapabilityQuery? {
      LabelRoundTrip(u, v.capability);
    } else {
      var segs := PathSegments(v);
      LabelText(u, v.org);
      LabelRoundTrip(u, v.org);
      assert segs[1..] == Segment(NS, v.ns) + (Segment(SVC, v.svc) + Segment(INST, v.inst));
      assert [] !in segs[1..];
      SegmentsReadBack(u, v);
    }
  }

  /** Bytes a path segment is made of. */
  predicate SegmentByte(b: byte) { TextByte(b) || b == EQUALS || b == ASTERISK }

  lemma {:induction false} SegmentsAreFree(u: Unicode, v: Uri, c: byte)
    requires CanonicalUri(u, v) && !SegmentByte(c)
    ensures AllFree(PathSegments(v), c)
  {
    if v.CapabilityQuery? {
      EncLabelIsPlain(v.capability);
      PlainIsFree(EncLabel(v.capability), c);
    } else {
      EncLabelIsPlain(v.org);
      PlainIsFree(EncLabel(v.org), c);
      SegmentIsFree(NS, v.ns, c);
      SegmentIsFree(SVC, v.svc, c);
      SegmentIsFree(INST, v.inst, c);
    }
  }

  lemma {:induction false} SegmentIsFree(marker: Bytes, name: Option<Runes>, c: byte)
    requires (marker == NS || marker == SVC || marker == INST) && !SegmentByte(c)
    ensures AllFree(Segment(marker, name), c)
  {
    if name.Some? {
      EncLabelIsPlain(name.value);
      PlainIsFree(EncLabel(name.value), c);
    }
  }

  lemma {:induction false} QueryIsFree(u: Unicode, ps: seq<QPair>, c: byte)
    requires CanonicalPairs(u, ps) && !SegmentByte(c) && c != AMPERSAND && ps != []
    ensures Free(Join(EncPairs(ps), AMPERSAND), c)
  {
    forall i | 0 <= i < |ps| ensures Free(EncPairs(ps)[i], c) {
      EncLabelIsPlain(ps[i].key);
      EncLabelIsPlain(ps[i].value);
      PlainIsFree(EncLabel(ps[i].key), c);
      PlainIsFree(EncLabel(ps[i].value), c);
    }
    JoinIsFree(EncPairs(ps), AMPERSAND, c);
  }

  // ---- the round trip ----

  lemma {:induction false} RestReadsBack(u: Unicode, v: Uri)
    requires CanonicalUri(u, v)
    ensures ParseRest(u, Join(PathSegments(v), SLASH) + QueryText(v.query)) == Ok(v)
  {
    var path := Join(PathSegments(v), SLASH);
    var bare := v.(query := []);
    assert PathSegments(bare) == PathSegments(v);
    SegmentsAreFree(u, v, SLASH);
    SegmentsAreFree(u, v, HASH);
    SegmentsAreFree(u, v, QUESTION);
    JoinIsFree(PathSegments(v), SLASH, HASH);
    JoinIsFree(PathSegments(v), SLASH, QUESTION);
    SplitOfJoin(PathSegments(v), SLASH);
    PathReadsBack(u, bare);
    if v.query == [] {
      assert path + [] == path;
      FindNone(path, QUESTION);
      assert path[..|path|] == path;
    } else {
      var qs := Join(EncPairs(v.query), AMPERSAND);
      QueryIsFree(u, v.query, HASH);
      QueryReadsBack(u, v.query);
      WithQuery(u, path, qs);
    }
  }

  lemma {:induction false} WithQuery(u: Unicode, path: Bytes, qs: Bytes)
    requires Free(path, HASH) && Free(path, QUESTION) && Free(qs, HASH)
    requires ParsePath(u, Split(path, SLASH)).Ok? && ParseQuery(u, qs).Ok?
    ensures ParseRest(u, path + ([QUESTION] + qs))
            == Ok(ParsePath(u, Split(path, SLASH)).value.(query := ParseQuery(u, qs).value))
  {
    var rest := path + ([QUESTION] + qs);
    FindFirst(path, QUESTION, qs);
    assert rest[..|path|] == path && rest[|path| + 1..] == qs;
    assert Free(rest, HASH);
  }

  lemma {:induction false} SchemeReads(u: Unicode, rest: Bytes)
    requires Utf8.Valid(SCHEME + (SEPARATOR + rest))
    ensures Parse(u, SCHEME + (SEPARATOR + rest)) == ParseRest(u, rest)
  {
    var s := SCHEME + (SEPARATOR + rest);
    assert s[5..8] == SEPARATOR && s[..5] == SCHEME && s[8..] == rest;
    SeparatorAt(s, 0);
  }

  lemma {:induction false} SeparatorAt(s: Bytes, i: nat)
    requires i <= 5 && |s| >= 8 && s[5..8] == SEPARATOR && s[..5] == SCHEME
    ensures FindSeparator(s, i) == Some(5)
    decreases 5 - i
  {
    if i < 5 {
      assert s[i] == s[..5][i] != COLON;
      assert s[i..i + 3][0] == s[i];
      SeparatorAt(s, i + 1);
    }
  }

  // ---- the serialized form is valid UTF-8 ----

  lemma {:induction false} ValidConcat(a: Bytes, b: Bytes)
    requires Utf8.Valid(a) && Utf8.Valid(b)
    ensures Utf8.Valid(a + b)
    decreases |a|
  {
    if a == [] {
      assert a + b == b;
    } else {
      var d := Utf8.First(a).value;
      Utf8.FirstLocal(a, b);
      assert (a + b)[d.1..] == a[d.1..] + b;
      ValidConcat(a[d.1..], b);
    }
  }

  lemma {:induction false} AsciiIsValid(s: Bytes)
    requires forall i | 0 <= i < |s| :: s[i] < 0x80
    ensures Utf8.Valid(s)
    decreases |s|
  {
    if s != [] { AsciiIsValid(s[1..]); }
  }

  lemma {:induction false} PercentIsAscii(s: Bytes)
    ensures forall i | 0 <= i < |PercentAll(s)| :: PercentAll(s)[i] < 0x80
    decreases |s|
  {
    if s != [] { PercentIsAscii(s[1..]); }
  }

  lemma {:induction false} EncLabelIsValid(rs: Runes)
    requires AllScalar(rs)
    ensures Utf8.Valid(EncLabel(rs))
    decreases |rs|
  {
    if rs != [] {
      EncLabelIsValid(rs[1..]);
      var r := rs[0];
      if IsLiteral(r) {
        Utf8.DecodeOfEncodeAll([r]);
        assert Utf8.EncodeAll([r]) == Utf8.Encode(r) + [] == Utf8.Encode(r);
      } else {
        PercentIsAscii(Utf8.Encode(r));
        AsciiIsValid(PercentAll(Utf8.Encode(r)));
      }
      ValidConcat(EncRune(r), EncLabel(rs[1..]));
    }
  }

  predicate AllValid(parts: seq<Bytes>) { forall i | 0 <= i < |parts| :: Utf8.Valid(parts[i]) }

  lemma {:induction false} JoinIsValid(parts: seq<Bytes>, c: byte)
    requires parts != [] && AllValid(parts) && c < 0x80
    ensures Utf8.Valid(Join(parts, c))
    decreases |parts|
  {
    if |parts| > 1 {
      JoinIsValid(parts[1..], c);
      AsciiIsValid([c]);
      ValidConcat([c], Join(parts[1..], c));
      ValidConcat(parts[0], [c] + Join(parts[1..], c));
    }
  }

  lemma {:induction false} SegmentIsValid(u: Unicode, marker: Bytes, name: Option<Runes>)
    requires (marker == NS || marker == SVC || marker == INST) && CanonicalOption(u, name)
    ensures AllValid(Segment(marker, name))
  {
    if name.Some? {
      EncLabelIsValid(name.value);
      AsciiIsValid(marker);
      ValidConcat(marker, EncLabel(name.value));
    }
  }

  lemma {:induction false} PathIsValid(u: Unicode, v: Uri)
    requires CanonicalUri(u, v)
    ensures Utf8.Valid(Join(PathSegments(v), SLASH))
  {
    if v.CapabilityQuery? {
      AsciiIsValid(STAR);
      EncLabelIsValid(v.capability);
    } else {
      EncLabelIsValid(v.org);
      SegmentIsValid(u, NS, v.ns);
      SegmentIsValid(u, SVC, v.svc);
      SegmentIsValid(u, INST, v.inst);
    }
    JoinIsValid(PathSegments(v), SLASH);
  }

  lemma {:induction false} QueryIsValid(u: Unicode, ps: seq<QPair>)
    requires CanonicalPairs(u, ps)
    ensures Utf8.Valid(QueryText(ps))
  {
    if ps != [] {
      forall i | 0 <= i < |ps| ensures Utf8.Valid(EncPairs(ps)[i]) {
        EncLabelIsValid(ps[i].key);
        EncLabelIsValid(ps[i].value);
        AsciiIsValid([EQUALS]);
        ValidConcat([EQUALS], EncLabel(ps[i].value));
        ValidConcat(EncLabel(ps[i].key), [EQUALS] + EncLabel(ps[i].value));
      }
      JoinIsValid(EncPairs(ps), AMPERSAND);
      AsciiIsValid([QUESTION]);
      ValidConcat([QUESTION], Join(EncPairs(ps), AMPERSAND));
    } else {
      AsciiIsValid([]);
    }
  }

  // ---- the canonical form ----

  lemma {:induction false} SerializedIsValid(u: Unicode, v: Uri, rest: Bytes)
    requires CanonicalUri(u, v) && rest == Join(PathSegments(v), SLASH) + QueryText(v.query)
    ensures Utf8.Valid(SCHEME + (SEPARATOR + rest))
  {
    PathIsValid(u, v);
    QueryIsValid(u, v.query);
    ValidConcat(Join(PathSegments(v), SLASH), QueryText(v.query));
    AsciiIsValid(SEPARATOR);
    AsciiIsValid(SCHEME);
    ValidConcat(SEPARATOR, rest);
    ValidConcat(SCHEME, SEPARATOR + rest);
  }

  /** Parsing what was serialized gives the value back, its query sorted. */
  lemma {:induction false} ParseOfSerialize(u: Unicode, v: Uri)
    requires CanonicalUri(u, v)
    ensures Parse(u, Serialize(v)) == Ok(Sorted(v))
  {
    SortKeeps(u, v.query);
    var w := Sorted(v);
    assert PathSegments(w) == PathSegments(v);
    var rest := Join(PathSegments(w), SLASH) + QueryText(w.query);
    SerializedIsValid(u, w, rest);
    SchemeReads(u, rest);
    RestReadsBack(u, w);
  }

  lemma {:induction false} SerializeSorted(v: Uri)
    ensures Serialize(Sorted(v)) == Serialize(v)
  {
    SortSorts(v.query);
    SortedIsFixed(SortQuery(v.query));
    assert PathSegments(Sorted(v)) == PathSegments(v);
  }

  /** The canonical form of an accepted URI is accepted, and is its own canonical form. */
  lemma {:induction false} CanonicalIsFixedPoint(u: Unicode, s: Bytes)
    requires Normalizes(u) && Canonical(u, s).Ok?
    ensures Canonical(u, Canonical(u, s).value) == Canonical(u, s)
  {
    var v := Parse(u, s).value;
    ParsedIsCanonical(u, s);
    ParseOfSerialize(u, v);
    SerializeSorted(v);
  }

  /** Two accepted URIs compare equal exactly when they parse to the same labels and the same pairs in some order. */
  lemma {:induction false} EqualExactlyWhenSameParts(u: Unicode, s: Bytes, t: Bytes)
    requires Normalizes(u) && Parse(u, s).Ok? && Parse(u, t).Ok?
    ensures var v, w := Parse(u, s).value, Parse(u, t).value;
      Canonical(u, s) == Canonical(u, t)
      <==> v.(query := []) == w.(query := []) && multiset(v.query) == multiset(w.query)
  {
    var v, w := Parse(u, s).value, Parse(u, t).value;
    ParsedIsCanonical(u, s);
    ParsedIsCanonical(u, t);
    ParseOfSerialize(u, v);
    ParseOfSerialize(u, w);
    SerializeSorted(v);
    SerializeSorted(w);
    SortsAlike(u, v.query, w.query);
    assert Sorted(v).(query := []) == v.(query := []) && Sorted(w).(query := []) == w.(query := []);
  }

  // ---- as it runs ----

  method Label(u: Unicode, s: Bytes) returns (r: Result<Runes, Reason>)
    ensures r == ParseLabel(u, s)
  {
    if s == [] {
      return Err(EmptyLabel);
    }
    var raw := DecodeLoop(s, true);
    var rs := Utf8Text(raw);
    if rs.Err? {
      return Err(rs.error);
    }
    var folded := Fold(u, rs.value);
    var bad := RejectCheck(u, folded);
    if bad.Some? {
      return Err(bad.value);
    }
    r := Ok(folded);
  }

  /** The loop over marked segments; v is filled in position by position. */
  method SegmentLoop(u: Unicode, segs: seq<Bytes>, start: Uri) returns (r: Result<Uri, Reason>)
    requires start.Concrete?
    ensures r == Segments(u, segs, 1, start)
  {
    var v := start;
    var pos := 1;
    for i := 0 to |segs|
      invariant v.Concrete? && Segments(u, segs, 1, start) == Segments(u, segs[i..], pos, v)
    {
      var seg := segs[i];
      assert segs[i..][1..] == segs[i + 1..];
      var m := MatchMarker(seg);
      if m.None? {
        return Err(if ASTERISK in seg then WildcardInLabel else UnmarkedSegment);
      }
      if m.value.pos <= pos {
        return Err(if AtPos(v, m.value.pos).Some? then DuplicateMarker else PositionOrder);
      }
      var folded := Label(u, m.value.rest);
      if folded.Err? {
        return Err(folded.error);
      }
      v := SetPos(v, m.value.pos, folded.value);
      pos := m.value.pos;
    }
    assert segs[|segs|..] == [];
    r := Ok(v);
  }

  method QueryComponent(s: Bytes) returns (r: Result<Runes, Reason>)
    ensures r == DecodeQ(s)
  {
    var raw := DecodeLoop(s, false);
    r := Utf8Text(raw);
  }

  method Pair(u: Unicode, pair: Bytes) returns (r: Result<QPair, Reason>)
    ensures r == ParsePair(u, pair)
  {
    var eq := Find(pair, EQUALS, 0);
    if eq == |pair| || eq == 0 {
      return Err(QuerySyntax);
    }
    var k := QueryComponent(pair[..eq]);
    if k.Err? {
      return Err(k.error);
    }
    var val := QueryComponent(pair[eq + 1..]);
    if val.Err? {
      return Err(val.error);
    }
    r := Ok(QPair(u.nfc(k.value), u.nfc(val.value)));
  }

  function Joined(acc: seq<QPair>, r: Result<seq<QPair>, Reason>): Result<seq<QPair>, Reason>
  {
    match r
    case Err(e) => Err(e)
    case Ok(ps) => Ok(acc + ps)
  }

  method PairLoop(u: Unicode, pairs: seq<Bytes>) returns (r: Result<seq<QPair>, Reason>)
    ensures r == ParsePairs(u, pairs)
  {
    var out: seq<QPair> := [];
    assert pairs[0..] == pairs;
    JoinedNone(ParsePairs(u, pairs));
    for i := 0 to |pairs|
      invariant ParsePairs(u, pairs) == Joined(out, ParsePairs(u, pairs[i..]))
    {
      assert pairs[i..][1..] == pairs[i + 1..];
      var p := Pair(u, pairs[i]);
      if p.Err? {
        return Err(p.error);
      }
      JoinedTwice(out, p.value, ParsePairs(u, pairs[i + 1..]));
      out := out + [p.value];
    }
    assert pairs[|pairs|..] == [] && out + [] == out;
    r := Ok(out);
  }

  lemma {:induction false} JoinedNone(r: Result<seq<QPair>, Reason>)
    ensures Joined([], r) == r
  {
    if r.Ok? { assert [] + r.value == r.value; }
  }

  lemma {:induction false} JoinedTwice(acc: seq<QPair>, p: QPair, r: Result<seq<QPair>, Reason>)
    ensures Joined(acc, Joined([p], r)) == Joined(acc + [p], r)
  {
    if r.Ok? { assert acc + ([p] + r.value) == acc + [p] + r.value; }
  }

  method ParsePathSegments(u: Unicode, segs: seq<Bytes>) returns (r: Result<Uri, Reason>)
    requires segs != []
    ensures r == ParsePath(u, segs)
  {
    if segs[0] == STAR {
      if |segs| != 2 {
        return Err(WildcardForm);
      }
      var c := Label(u, segs[1]);
      if c.Err? {
        return Err(c.error);
      }
      return Ok(CapabilityQuery(c.value, []));
    }
    if segs[0] == [] {
      return Err(EmptyAuthority);
    }
    if ASTERISK in segs[0] {
      return Err(WildcardInLabel);
    }
    var org := Label(u, segs[0]);
    if org.Err? {
      return Err(org.error);
    }
    if [] in segs[1..] {
      return Err(EmptyLabel);
    }
    r := SegmentLoop(u, segs[1..], Concrete(org.value, None, None, None, []));
  }

  method ParseUri(u: Unicode, s: Bytes) returns (r: Result<Uri, Reason>)
    ensures r == Parse(u, s)
  {
    if !Utf8.Valid(s) {
      return Err(BadUtf8);
    }
    var idx := FindSeparator(s, 0);
    if idx.None? || !EqualFold(s[..idx.value], SCHEME) {
      return Err(SchemeMismatch);
    }
    var rest := s[idx.value + 3..];
    if HASH in rest {
      return Err(FragmentPresent);
    }
    var q := Find(rest, QUESTION, 0);
    r := ParsePathSegments(u, Split(rest[..q], SLASH));
    if r.Err? || q == |rest| {
      return;
    }
    if rest[q + 1..] == [] {
      return Err(QuerySyntax);
    }
    var ps := PairLoop(u, Split(rest[q + 1..], AMPERSAND));
    if ps.Err? {
      return Err(ps.error);
    }
    r := Ok(r.value.(query := ps.value));
  }

  function InsertString(x: Bytes, xs: seq<Bytes>): seq<Bytes>
  {
    if xs == [] || Before(x, xs[0]) then [x] + xs else [xs[0]] + InsertString(x, xs[1..])
  }

  /** Strings in bytewise order. */
  function SortStrings(xs: seq<Bytes>): seq<Bytes>
  {
    if xs == [] then [] else InsertString(xs[0], SortStrings(xs[1..]))
  }

  lemma {:induction false} InsertEncoded(p: QPair, ps: seq<QPair>)
    ensures InsertString(EncPair(p), EncPairs(ps)) == EncPairs(Insert(p, ps))
    decreases |ps|
  {
    if ps == [] || Before(EncPair(p), EncPair(ps[0])) {
      EncPairsCons([p] + ps);
      assert ([p] + ps)[1..] == ps;
    } else {
      EncPairsCons(ps);
      assert EncPairs(ps)[1..] == EncPairs(ps[1..]);
      InsertEncoded(p, ps[1..]);
      var all := [ps[0]] + Insert(p, ps[1..]);
      EncPairsCons(all);
      assert all[1..] == Insert(p, ps[1..]);
    }
  }

  /** Sorting the encoded pairs is encoding the sorted pairs. */
  lemma {:induction false} SortEncoded(ps: seq<QPair>)
    ensures SortStrings(EncPairs(ps)) == EncPairs(SortQuery(ps))
    decreases |ps|
  {
    if ps != [] {
      EncPairsCons(ps);
      assert EncPairs(ps)[1..] == EncPairs(ps[1..]);
      SortEncoded(ps[1..]);
      InsertEncoded(ps[0], SortQuery(ps[1..]));
    }
  }

  function SegmentText(marker: Bytes, name: Option<Runes>): Bytes
  {
    if name.Some? then [SLASH] + (marker + EncLabel(name.value)) else []
  }

  method AddSegment(b: Bytes, marker: Bytes, name: Option<Runes>) returns (r: Bytes)
    ensures r == b + SegmentText(marker, name)
  {
    if name.None? {
      assert b + [] == b;
      return b;
    }
    var e := Encode(name.value);
    r := b + [SLASH] + marker + e;
    assert r == b + ([SLASH] + (marker + e));
  }

  lemma {:induction false} PathText(v: Uri)
    requires v.Concrete?
    ensures Join(PathSegments(v), SLASH)
            == EncLabel(v.org) + SegmentText(NS, v.ns) + SegmentText(SVC, v.svc) + SegmentText(INST, v.inst)
  {
    var rest := Segment(NS, v.ns) + (Segment(SVC, v.svc) + Segment(INST, v.inst));
    assert PathSegments(v) == [EncLabel(v.org)] + rest;
    JoinHead(EncLabel(v.org), rest);
    TailText(v.ns, v.svc, v.inst);
    Regroup(EncLabel(v.org), SegmentText(NS, v.ns), SegmentText(SVC, v.svc), SegmentText(INST, v.inst));
  }

  lemma {:induction false} TailText(ns: Option<Runes>, svc: Option<Runes>, inst: Option<Runes>)
    ensures Tail(Segment(NS, ns) + (Segment(SVC, svc) + Segment(INST, inst)))
            == SegmentText(NS, ns) + (SegmentText(SVC, svc) + SegmentText(INST, inst))
  {
    TailOption(NS, ns, Segment(SVC, svc) + Segment(INST, inst));
    TailOption(SVC, svc, Segment(INST, inst));
    TailLast(INST, inst);
  }

  lemma {:induction false} TailLast(marker: Bytes, name: Option<Runes>)
    ensures Tail(Segment(marker, name)) == SegmentText(marker, name)
  {
    TailOption(marker, name, []);
    assert Segment(marker, name) + [] == Segment(marker, name);
    assert SegmentText(marker, name) + [] == SegmentText(marker, name);
  }

  lemma {:induction false} Regroup(a: Bytes, b: Bytes, c: Bytes, d: Bytes)
    ensures a + (b + (c + d)) == a + b + c + d
  {
  }

  method SerializePath(v: Uri) returns (b: Bytes)
    ensures b == Join(PathSegments(v), SLASH)
  {
    if v.CapabilityQuery? {
      var e := Encode(v.capability);
      assert PathSegments(v)[1..] == [e];
      return STAR + ([SLASH] + e);
    }
    PathText(v);
    b := Encode(v.org);
    b := AddSegment(b, NS, v.ns);
    b := AddSegment(b, SVC, v.svc);
    b := AddSegment(b, INST, v.inst);
  }

  /** Every part with a slash before it. */
  function Tail(parts: seq<Bytes>): Bytes
  {
    if parts == [] then [] else [SLASH] + (parts[0] + Tail(parts[1..]))
  }

  lemma {:induction false} JoinHead(head: Bytes, parts: seq<Bytes>)
    ensures Join([head] + parts, SLASH) == head + Tail(parts)
    decreases |parts|
  {
    assert ([head] + parts)[1..] == parts;
    if parts != [] {
      JoinHead(parts[0], parts[1..]);
      assert parts == [parts[0]] + parts[1..];
    }
  }

  lemma {:induction false} TailOption(marker: Bytes, name: Option<Runes>, rest: seq<Bytes>)
    ensures Tail(Segment(marker, name) + rest)
            == SegmentText(marker, name) + Tail(rest)
  {
    var parts := Segment(marker, name) + rest;
    if name.None? {
      assert parts == rest && [] + Tail(rest) == Tail(rest);
    } else {
      assert parts[0] == marker + EncLabel(name.value) && parts[1..] == rest;
    }
  }

  method EncodePairs(ps: seq<QPair>) returns (enc: seq<Bytes>)
    ensures enc == EncPairs(ps)
  {
    enc := [];
    for i := 0 to |ps|
      invariant enc == EncPairs(ps)[..i]
    {
      var k := Encode(ps[i].key);
      var val := Encode(ps[i].value);
      enc := enc + [k + ([EQUALS] + val)];
    }
  }

  method SerializeQuery(ps: seq<QPair>) returns (r: Bytes)
    ensures r == QueryText(SortQuery(ps))
  {
    SortLength(ps);
    if |ps| == 0 {
      return [];
    }
    var enc := EncodePairs(ps);
    SortEncoded(ps);
    var sorted := SortStrings(enc);
    assert sorted != [];
    r := [QUESTION] + Join(sorted, AMPERSAND);
  }

  method SerializeUri(v: Uri) returns (r: Bytes)
    ensures r == Serialize(v)
  {
    var path := SerializePath(v);
    var query := SerializeQuery(v.query);
    r := SCHEME + (SEPARATOR + (path + query));
  }

  lemma {:induction false} SortLength(ps: seq<QPair>)
    ensures |SortQuery(ps)| == |ps|
    decreases |ps|
  {
    if ps != [] {
      SortLength(ps[1..]);
      InsertLength(ps[0], SortQuery(ps[1..]));
    }
  }

  lemma {:induction false} InsertLength(p: QPair, ps: seq<QPair>)
    ensures |Insert(p, ps)| == |ps| + 1
    decreases |ps|
  {
    if ps != [] { InsertLength(p, ps[1..]); }
  }
}
