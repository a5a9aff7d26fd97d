/** The strict JSON parser, and that it undoes the printer, whatever the leaves look like. */
module JsonParse {
  import opened Octets
  import Utf8
  import opened JsonText
  import opened JsonNumbers
  import opened JsonPrint

  const MAX_DEPTH: nat := 128

  /** What is read lies ahead, inside the data. */
  ghost predicate Bounded(lx: Atoms)
  {
    && (forall data, pos: nat :: lx.readNumber(data, pos).Ok? ==> pos < lx.readNumber(data, pos).value.next <= |data|)
    && (forall data, pos: nat :: lx.readString(data, pos).Ok? ==> pos < lx.readString(data, pos).value.next <= |data|)
  }

  /** The leaves read are good ones. */
  ghost predicate ReadsGood(lx: Atoms)
  {
    && (forall data, pos: nat :: lx.readNumber(data, pos).Ok? ==> lx.goodNumber(lx.readNumber(data, pos).value.v))
    && (forall data, pos: nat :: lx.readString(data, pos).Ok? ==> lx.goodString(lx.readString(data, pos).value.v))
    && (forall s :: lx.goodString(s) ==> Utf8.Valid(s))
  }

  /** The first byte shows what a leaf is, and a sign on zero is not spelled. */
  ghost predicate SpellsLeaves(lx: Atoms)
  {
    && (forall f :: lx.goodNumber(f) ==> lx.printNumber(f) != [] && NumberByte(lx.printNumber(f)[0]))
    && (forall f :: lx.goodNumber(f) ==> lx.goodNumber(Unsigned(f)) && lx.printNumber(Unsigned(f)) == lx.printNumber(f))
    && (forall s :: lx.goodString(s) ==> lx.printString(s) != [] && lx.printString(s)[0] == QUOTE)
  }

  /** A good number is read back from its canonical spelling, as long as what follows cannot continue it. */
  ghost predicate NumberComesBack(lx: Atoms, f: Dec, data: Bytes, pos: nat)
  {
    lx.goodNumber(f) && NumberPrinted(lx, data, pos, f) ==>
      lx.readNumber(data, pos) == Ok(Parsed(Unsigned(f), pos + |lx.printNumber(f)|))
  }

  ghost predicate StringComesBack(lx: Atoms, s: Bytes, data: Bytes, pos: nat)
  {
    lx.goodString(s) && At(data, pos, lx.printString(s)) ==>
      lx.readString(data, pos) == Ok(Parsed(s, pos + |lx.printString(s)|))
  }

  ghost predicate ReadsBack(lx: Atoms)
  {
    && (forall f, data, pos: nat :: NumberComesBack(lx, f, data, pos))
    && (forall s, data, pos: nat :: StringComesBack(lx, s, data, pos))
  }

  ghost predicate NumberPrinted(lx: Atoms, data: Bytes, pos: nat, f: Dec)
  {
    At(data, pos, lx.printNumber(f)) && Ends(data, pos + |lx.printNumber(f)|)
  }

  ghost predicate Lawful(lx: Atoms)
  {
    Bounded(lx) && ReadsGood(lx) && SpellsLeaves(lx) && ReadsBack(lx)
  }

  predicate NumberByte(b: byte) { b == MINUS || IsDigit(b) }

  predicate IsSpace(b: byte) { b == 0x20 || b == 0x09 || b == 0x0a || b == 0x0d }

  function SkipSpace(data: Bytes, pos: nat): (p: nat)
    requires pos <= |data|
    ensures pos <= p <= |data| && (p < |data| ==> !IsSpace(data[p]))
    decreases |data| - pos
  {
    if pos < |data| && IsSpace(data[pos]) then SkipSpace(data, pos + 1) else pos
  }

  type Reading = Result<Parsed<Value>, What>

  predicate Within(data: Bytes, pos: nat, r: Reading)
  {
    r.Ok? ==> pos < r.value.next <= |data|
  }

  function Literal(data: Bytes, pos: nat, word: Bytes, v: Value): (r: Reading)
    requires word != []
    ensures Within(data, pos, r)
  {
    if At(data, pos, word) then Ok(Parsed(v, pos + |word|)) else Err(InvalidLiteral)
  }

  function NumberValue(lx: Atoms, data: Bytes, pos: nat): (r: Reading)
    requires Bounded(lx)
    ensures Within(data, pos, r)
  {
    match lx.readNumber(data, pos)
    case Err(e) => Err(e)
    case Ok(p) => Ok(Parsed(Number(p.v), p.next))
  }

  function StringValue(lx: Atoms, data: Bytes, pos: nat): (r: Reading)
    requires Bounded(lx)
    ensures Within(data, pos, r)
  {
    match lx.readString(data, pos)
    case Err(e) => Err(e)
    case Ok(p) => Ok(Parsed(Str(p.v), p.next))
  }

  /** The value at pos, inside depth arrays and objects. */
  function ValueAt(lx: Atoms, data: Bytes, pos: nat, depth: nat): (r: Reading)
    requires Bounded(lx) && pos <= |data|
    ensures Within(data, pos, r)
    decreases |data| - pos, 3
  {
    if pos == |data| then Err(UnexpectedEnd)
    else
      var c := data[pos];
      if c == OPEN_BRACE then ObjectAt(lx, data, pos, depth)
      else if c == OPEN_BRACKET then ArrayAt(lx, data, pos, depth)
      else if c == QUOTE then StringValue(lx, data, pos)
      else if c == 0x74 then Literal(data, pos, WORD_TRUE, Bool(true))
      else if c == 0x66 then Literal(data, pos, WORD_FALSE, Bool(false))
      else if c == 0x6e then Literal(data, pos, WORD_NULL, Null)
      else if NumberByte(c) then NumberValue(lx, data, pos)
      else Err(InvalidCharacter)
  }

  function ArrayAt(lx: Atoms, data: Bytes, pos: nat, depth: nat): (r: Reading)
    requires Bounded(lx) && pos < |data|
    ensures Within(data, pos, r)
    decreases |data| - pos, 2
  {
    if depth >= MAX_DEPTH then Err(TooDeep)
    else
      var start := SkipSpace(data, pos + 1);
      if start < |data| && data[start] == CLOSE_BRACKET then Ok(Parsed(Arr([]), start + 1))
      else ArrayOf(ItemsAt(lx, data, start, depth + 1))
  }

  function ArrayOf(r: Result<Parsed<seq<Value>>, What>): Reading
  {
    match r
    case Err(e) => Err(e)
    case Ok(p) => Ok(Parsed(Arr(p.v), p.next))
  }

  /** The items of an array from one on, to its closing bracket. */
  function ItemsAt(lx: Atoms, data: Bytes, pos: nat, depth: nat): (r: Result<Parsed<seq<Value>>, What>)
    requires Bounded(lx) && pos <= |data|
    ensures r.Ok? ==> pos < r.value.next <= |data|
    decreases |data| - pos, 4
  {
    match ValueAt(lx, data, pos, depth)
    case Err(e) => Err(e)
    case Ok(p) =>
      var sep := SkipSpace(data, p.next);
      if sep == |data| then Err(Unterminated)
      else if data[sep] == COMMA then
        match ItemsAt(lx, data, SkipSpace(data, sep + 1), depth)
        case Err(e) => Err(e)
        case Ok(q) => Ok(Parsed([p.v] + q.v, q.next))
      else if data[sep] == CLOSE_BRACKET then Ok(Parsed([p.v], sep + 1))
      else Err(ExpectedSeparator)
  }

  function ObjectOf(r: Result<Parsed<seq<Member>>, What>): Reading
  {
    match r
    case Err(e) => Err(e)
    case Ok(p) => if Distinct(p.v) then Ok(Parsed(Obj(Collect(p.v)), p.next)) else Err(DuplicateName)
  }

  function ObjectAt(lx: Atoms, data: Bytes, pos: nat, depth: nat): (r: Reading)
    requires Bounded(lx) && pos < |data|
    ensures Within(data, pos, r)
    decreases |data| - pos, 2
  {
    if depth >= MAX_DEPTH then Err(TooDeep)
    else
      var start := SkipSpace(data, pos + 1);
      if start < |data| && data[start] == CLOSE_BRACE then Ok(Parsed(Obj(map[]), start + 1))
      else
        ObjectOf(MembersAt(lx, data, start, depth + 1))
  }

  datatype Member = Member(name: Bytes, v: Value)

  predicate Distinct(ms: seq<Member>)
  {
    forall i, j | 0 <= i < j < |ms| :: ms[i].name != ms[j].name
  }

  /** The object of a list of members. */
  function Collect(ms: seq<Member>): map<Bytes, Value>
  {
    if ms == [] then map[] else Collect(ms[..|ms| - 1])[ms[|ms| - 1].name := ms[|ms| - 1].v]
  }

  /** A name, a colon and a value. */
  function MemberAt(lx: Atoms, data: Bytes, pos: nat, depth: nat): (r: Result<Parsed<Member>, What>)
    requires Bounded(lx) && pos <= |data|
    ensures r.Ok? ==> pos < r.value.next <= |data|
    decreases |data| - pos, 4
  {
    if pos == |data| || data[pos] != QUOTE then Err(ExpectedName)
    else
      match lx.readString(data, pos)
      case Err(e) => Err(e)
      case Ok(k) =>
        var colon := SkipSpace(data, k.next);
        if colon == |data| || data[colon] != COLON then Err(ExpectedColon)
        else
          match ValueAt(lx, data, SkipSpace(data, colon + 1), depth)
          case Err(e) => Err(e)
          case Ok(p) => Ok(Parsed(Member(k.v, p.v), p.next))
  }

  /** The members of an object from one on, to its closing brace. */
  function MembersAt(lx: Atoms, data: Bytes, pos: nat, depth: nat): (r: Result<Parsed<seq<Member>>, What>)
    requires Bounded(lx) && pos <= |data|
    ensures r.Ok? ==> pos < r.value.next <= |data|
    decreases |data| - pos, 5
  {
    match MemberAt(lx, data, pos, depth)
    case Err(e) => Err(e)
    case Ok(p) =>
      var sep := SkipSpace(data, p.next);
      if sep == |data| then Err(Unterminated)
      else if data[sep] == COMMA then
        match MembersAt(lx, data, SkipSpace(data, sep + 1), depth)
        case Err(e) => Err(e)
        case Ok(q) => Ok(Parsed([p.v] + q.v, q.next))
      else if data[sep] == CLOSE_BRACE then Ok(Parsed([p.v], sep + 1))
      else Err(ExpectedSeparator)
  }

  function ParseJson(lx: Atoms, data: Bytes): Result<Value, What>
    requires Bounded(lx)
  {
    match ValueAt(lx, data, SkipSpace(data, 0), 0)
    case Err(e) => Err(e)
    case Ok(p) => if SkipSpace(data, p.next) == |data| then Ok(p.v) else Err(DataAfterValue)
  }

  // ---- what a parsed value is ----

  /** What the parser can produce with d levels of nesting to go. */
  ghost predicate Fits(lx: Atoms, v: Value, d: nat)
    decreases v
  {
    match v
    case Null => true
    case Bool(_) => true
    case Number(f) => lx.goodNumber(f)
    case Str(s) => lx.goodString(s)
    case Arr(items) => d > 0 && forall i | 0 <= i < |items| :: Fits(lx, items[i], d - 1)
    case Obj(members) => d > 0 && forall k | k in members :: lx.goodString(k) && Fits(lx, members[k], d - 1)
  }

  ghost predicate ReadingFits(lx: Atoms, r: Reading, d: nat)
  {
    r.Ok? ==> Fits(lx, r.value.v, d)
  }

  /** Whatever the parser accepts has good strings, binary64 numbers and at most 128 levels. */
  lemma {:induction false} ParsedFits(lx: Atoms, data: Bytes, pos: nat, depth: nat)
    requires Lawful(lx) && pos <= |data| && depth <= MAX_DEPTH
    ensures ReadingFits(lx, ValueAt(lx, data, pos, depth), MAX_DEPTH - depth)
    decreases |data| - pos, 3
  {
    if pos < |data| {
      var c := data[pos];
      if c == OPEN_BRACE {
        if depth < MAX_DEPTH { ParsedObjectFits(lx, data, pos, depth); }
      } else if c == OPEN_BRACKET {
        if depth < MAX_DEPTH && ItemsAt(lx, data, SkipSpace(data, pos + 1), depth + 1).Ok? {
          ParsedItemsFit(lx, data, SkipSpace(data, pos + 1), depth + 1);
        }
      }
    }
  }

  lemma {:induction false} ParsedItemsFit(lx: Atoms, data: Bytes, pos: nat, depth: nat)
    requires Lawful(lx) && pos <= |data| && 0 < depth <= MAX_DEPTH && ItemsAt(lx, data, pos, depth).Ok?
    ensures Fits(lx, Arr(ItemsAt(lx, data, pos, depth).value.v), MAX_DEPTH - depth + 1)
    decreases |data| - pos, 4
  {
    ParsedFits(lx, data, pos, depth);
    var p := ValueAt(lx, data, pos, depth).value;
    var sep := SkipSpace(data, p.next);
    if data[sep] == COMMA {
      ParsedItemsFit(lx, data, SkipSpace(data, sep + 1), depth);
      ItemsFitCons(lx, p.v, ItemsAt(lx, data, SkipSpace(data, sep + 1), depth).value.v, MAX_DEPTH - depth);
    }
  }

  lemma {:induction false} ItemsFitCons(lx: Atoms, v: Value, rest: seq<Value>, d: nat)
    requires Fits(lx, v, d) && Fits(lx, Arr(rest), d + 1)
    ensures Fits(lx, Arr([v] + rest), d + 1)
  {
    forall i | 0 <= i < |[v] + rest| ensures Fits(lx, ([v] + rest)[i], d) {
      if i > 0 { assert Fits(lx, Arr(rest).items[i - 1], d); }
    }
  }

  lemma {:induction false} MembersFitWith(lx: Atoms, acc: map<Bytes, Value>, k: Bytes, v: Value, d: nat)
    requires Fits(lx, Obj(acc), d + 1) && lx.goodString(k) && Fits(lx, v, d)
    ensures Fits(lx, Obj(acc[k := v]), d + 1)
  {
    var more := acc[k := v];
    forall j | j in more ensures lx.goodString(j) && Fits(lx, more[j], d) {
      if j != k { assert Fits(lx, Obj(acc).members[j], d); }
    }
  }

  lemma {:induction false} ParsedMemberFits(lx: Atoms, data: Bytes, pos: nat, depth: nat)
    requires Lawful(lx) && pos <= |data| && 0 < depth <= MAX_DEPTH && MemberAt(lx, data, pos, depth).Ok?
    ensures var m := MemberAt(lx, data, pos, depth).value.v;
      lx.goodString(m.name) && Fits(lx, m.v, MAX_DEPTH - depth)
    decreases |data| - pos, 4
  {
    var k := lx.readString(data, pos).value;
    ParsedFits(lx, data, SkipSpace(data, SkipSpace(data, k.next) + 1), depth);
  }

  ghost predicate MembersFit(lx: Atoms, ms: seq<Member>, d: nat)
  {
    forall i | 0 <= i < |ms| :: lx.goodString(ms[i].name) && Fits(lx, ms[i].v, d)
  }

  lemma {:induction false} ParsedMembersFit(lx: Atoms, data: Bytes, pos: nat, depth: nat)
    requires Lawful(lx) && pos <= |data| && 0 < depth <= MAX_DEPTH && MembersAt(lx, data, pos, depth).Ok?
    ensures MembersFit(lx, MembersAt(lx, data, pos, depth).value.v, MAX_DEPTH - depth)
    decreases |data| - pos, 5
  {
    ParsedMemberFits(lx, data, pos, depth);
    var p := MemberAt(lx, data, pos, depth).value;
    var sep := SkipSpace(data, p.next);
    if data[sep] == COMMA {
      ParsedMembersFit(lx, data, SkipSpace(data, sep + 1), depth);
    }
  }

  lemma {:induction false} CollectFits(lx: Atoms, ms: seq<Member>, d: nat)
    requires MembersFit(lx, ms, d)
    ensures Fits(lx, Obj(Collect(ms)), d + 1)
    decreases |ms|
  {
    if ms != [] {
      var n := |ms| - 1;
      forall i | 0 <= i < n ensures lx.goodString(ms[..n][i].name) && Fits(lx, ms[..n][i].v, d) {
        assert lx.goodString(ms[i].name);
      }
      CollectFits(lx, ms[..n], d);
      MembersFitWith(lx, Collect(ms[..n]), ms[n].name, ms[n].v, d);
    }
  }

  lemma {:induction false} ParsedObjectFits(lx: Atoms, data: Bytes, pos: nat, depth: nat)
    requires Lawful(lx) && pos < |data| && depth < MAX_DEPTH
    ensures ReadingFits(lx, ObjectAt(lx, data, pos, depth), MAX_DEPTH - depth)
    decreases |data| - pos, 2
  {
    var start := SkipSpace(data, pos + 1);
    if !(start < |data| && data[start] == CLOSE_BRACE) && MembersAt(lx, data, start, depth + 1).Ok? {
      ParsedMembersFit(lx, data, start, depth + 1);
      CollectFits(lx, MembersAt(lx, data, start, depth + 1).value.v, MAX_DEPTH - depth - 1);
    }
  }

  // ---- the parser undoes the printer ----

  /** v as it is read back: negative zero has lost its sign. */
  ghost function Plain(v: Value): Value
    decreases v
  {
    match v
    case Number(f) => Number(Unsigned(f))
    case Arr(items) => Arr(seq(|items|, i requires 0 <= i < |items| => Plain(items[i])))
    case Obj(members) => Obj(map k | k in members :: Plain(members[k]))
    case _ => v
  }

  lemma {:induction false} FitsIsNamed(lx: Atoms, v: Value, d: nat)
    requires Lawful(lx) && Fits(lx, v, d)
    ensures Named(v)
    decreases v
  {
    match v
    case Arr(items) =>
      forall i | 0 <= i < |items| ensures Named(items[i]) { FitsIsNamed(lx, items[i], d - 1); }
    case Obj(members) =>
      forall k | k in members ensures Utf8.Valid(k) && Named(members[k]) {
        FitsIsNamed(lx, members[k], d - 1);
      }
    case _ =>
  }

  /** A printed value begins with none of the bytes that separate or close. */
  predicate Starts(b: byte)
  {
    !IsSpace(b) && b != COMMA && b != CLOSE_BRACKET && b != CLOSE_BRACE && b != COLON
  }

  lemma {:induction false} PrintStarts(lx: Atoms, v: Value, d: nat)
    requires Lawful(lx) && Named(v) && Fits(lx, v, d)
    ensures Print(lx, v) != [] && Starts(Print(lx, v)[0])
  {
    match v
    case Number(f) => assert NumberByte(lx.printNumber(f)[0]);
    case Str(s) => assert lx.printString(s)[0] == QUOTE;
    case Null =>
    case Bool(_) =>
    case Arr(_) => assert Print(lx, v)[0] == OPEN_BRACKET;
    case Obj(_) => assert Print(lx, v)[0] == OPEN_BRACE;
  }

  lemma {:induction false} NoSpace(data: Bytes, pos: nat)
    requires pos <= |data| && (pos < |data| ==> !IsSpace(data[pos]))
    ensures SkipSpace(data, pos) == pos
  {
  }

  ghost predicate ReadsValue(lx: Atoms, data: Bytes, pos: nat, depth: nat, v: Value, n: nat)
    requires Bounded(lx)
  {
    pos <= |data| && ReadValue(lx, data, pos, depth) == Ok(Parsed(v, pos + n))
  }

  // The parser's answers by other names, so that stating one does not unfold the parser.

  ghost function ReadValue(lx: Atoms, data: Bytes, pos: nat, depth: nat): Reading
    requires Bounded(lx) && pos <= |data|
  {
    ValueAt(lx, data, pos, depth)
  }

  ghost function ReadItems(lx: Atoms, data: Bytes, pos: nat, depth: nat): Result<Parsed<seq<Value>>, What>
    requires Bounded(lx) && pos <= |data|
  {
    ItemsAt(lx, data, pos, depth)
  }

  ghost function ReadMember(lx: Atoms, data: Bytes, pos: nat, depth: nat): Result<Parsed<Member>, What>
    requires Bounded(lx) && pos <= |data|
  {
    MemberAt(lx, data, pos, depth)
  }

  ghost function ReadMembers(lx: Atoms, data: Bytes, pos: nat, depth: nat): Result<Parsed<seq<Member>>, What>
    requires Bounded(lx) && pos <= |data|
  {
    MembersAt(lx, data, pos, depth)
  }

  lemma {:induction false} NumberReads(lx: Atoms, f: Dec, data: Bytes, pos: nat, depth: nat)
    requires Lawful(lx) && lx.goodNumber(f) && NumberPrinted(lx, data, pos, f)
    ensures ReadsValue(lx, data, pos, depth, Number(Unsigned(f)), |lx.printNumber(f)|)
  {
    AtByte(data, pos, lx.printNumber(f), 0);
    assert NumberComesBack(lx, f, data, pos);
  }

  lemma {:induction false} QuotedReads(lx: Atoms, data: Bytes, pos: nat, s: Bytes)
    requires Lawful(lx) && lx.goodString(s) && At(data, pos, lx.printString(s))
    ensures pos < |data| && data[pos] == QUOTE
    ensures lx.readString(data, pos) == Ok(Parsed(s, pos + |lx.printString(s)|))
  {
    AtByte(data, pos, lx.printString(s), 0);
    assert StringComesBack(lx, s, data, pos);
  }

  lemma {:induction false} WordReads(lx: Atoms, v: Value, data: Bytes, pos: nat, depth: nat)
    requires Bounded(lx) && (v.Null? || v.Bool?) && At(data, pos, Print(lx, v))
    ensures ReadsValue(lx, data, pos, depth, v, |Print(lx, v)|)
  {
    AtByte(data, pos, Print(lx, v), 0);
  }

  // The printed texts, and the value read back, by names that do not unfold their recursion.

  ghost function ValueText(lx: Atoms, v: Value): Bytes
    requires Named(v)
  {
    Print(lx, v)
  }

  ghost function ItemsText(lx: Atoms, v: Value, i: nat): Bytes
    requires Named(v) && v.Arr? && i <= |v.items|
  {
    PrintItems(lx, v, i)
  }

  ghost function MemberText(lx: Atoms, v: Value, k: Bytes): Bytes
    requires Named(v) && v.Obj? && k in v.members
  {
    PrintMember(lx, v, k)
  }

  ghost function MembersText(lx: Atoms, v: Value, names: seq<Bytes>): Bytes
    requires Named(v) && NamesOf(v, names)
  {
    PrintMembers(lx, v, names)
  }

  ghost function ReadBack(v: Value): Value { Plain(v) }

  // ---- pieces between separators ----

  /** A piece and the closing byte after it. */
  lemma {:induction false} ThenClose(data: Bytes, pos: nat, piece: Bytes, close: byte)
    requires At(data, pos, piece + [close]) && (close == CLOSE_BRACKET || close == CLOSE_BRACE)
    ensures var after := pos + |piece|;
      && At(data, pos, piece) && after < |data| && data[after] == close
      && Ends(data, after) && SkipSpace(data, after) == after
  {
    AtSplit(data, pos, piece, [close]);
    AtByte(data, pos + |piece|, [close], 0);
  }

  /** A piece, a comma and the next piece. */
  lemma {:induction false} ThenComma(data: Bytes, pos: nat, piece: Bytes, sep: byte, rest: Bytes)
    requires At(data, pos, piece + ([sep] + rest)) && rest != [] && Starts(rest[0]) && (sep == COMMA || sep == COLON)
    ensures var after := pos + |piece|;
      && At(data, pos, piece) && after < |data| && data[after] == sep && Ends(data, after)
      && SkipSpace(data, after) == after && At(data, after + 1, rest) && SkipSpace(data, after + 1) == after + 1
  {
    var after := pos + |piece|;
    AtSplit(data, pos, piece, [sep] + rest);
    AtSplit(data, after, [sep], rest);
    AtByte(data, after, [sep], 0);
    AtByte(data, after + 1, rest, 0);
    NoSpace(data, after + 1);
  }

  /** An opening byte and what follows it. */
  lemma {:induction false} AfterOpen(data: Bytes, pos: nat, open: byte, rest: Bytes)
    requires At(data, pos, [open] + rest) && rest != [] && !IsSpace(rest[0])
    ensures pos + 1 < |data| && data[pos] == open && At(data, pos + 1, rest) && data[pos + 1] == rest[0]
    ensures SkipSpace(data, pos + 1) == pos + 1
  {
    AtSplit(data, pos, [open], rest);
    AtByte(data, pos, [open], 0);
    AtByte(data, pos + 1, rest, 0);
    NoSpace(data, pos + 1);
  }

  lemma {:induction false} ItemsStart(lx: Atoms, v: Value, i: nat, d: nat)
    requires Lawful(lx) && v.Arr? && Named(v) && i < |v.items| && Fits(lx, v.items[i], d)
    ensures ItemsText(lx, v, i) != [] && Starts(ItemsText(lx, v, i)[0])
  {
    PrintStarts(lx, v.items[i], d);
  }

  lemma {:induction false} MembersStart(lx: Atoms, v: Value, names: seq<Bytes>)
    requires Lawful(lx) && Named(v) && NamesOf(v, names) && names != [] && lx.goodString(names[0])
    ensures MembersText(lx, v, names) != [] && MembersText(lx, v, names)[0] == QUOTE
  {
    var k := names[0];
    assert lx.printString(k)[0] == QUOTE;
    assert MemberText(lx, v, k)[0] == lx.printString(k)[0];
  }

  // ---- one step of the parser ----

  lemma {:induction false} LastItem(lx: Atoms, data: Bytes, pos: nat, depth: nat, x: Value, n: nat)
    requires Bounded(lx) && ReadsValue(lx, data, pos, depth, x, n) && pos + n < |data|
    requires data[pos + n] == CLOSE_BRACKET && SkipSpace(data, pos + n) == pos + n
    ensures ReadsItems(lx, data, pos, depth, [x], n + 1)
  {
  }

  /** A comma at after, with no space around it. */
  predicate CommaAfter(data: Bytes, after: nat)
  {
    && after < |data| && data[after] == COMMA
    && SkipSpace(data, after) == after && SkipSpace(data, after + 1) == after + 1
  }

  ghost predicate ReadsItems(lx: Atoms, data: Bytes, pos: nat, depth: nat, xs: seq<Value>, n: nat)
    requires Bounded(lx)
  {
    pos <= |data| && ReadItems(lx, data, pos, depth) == Ok(Parsed(xs, pos + n))
  }

  lemma {:induction false} NextItem(
    lx: Atoms, data: Bytes, pos: nat, depth: nat, x: Value, n: nat, xs: seq<Value>, m: nat, all: seq<Value>, k: nat)
    requires Bounded(lx) && ReadsValue(lx, data, pos, depth, x, n) && CommaAfter(data, pos + n)
    requires ReadsItems(lx, data, pos + n + 1, depth, xs, m) && all == [x] + xs && k == n + 1 + m
    ensures ReadsItems(lx, data, pos, depth, all, k)
  {
  }

  ghost predicate ReadsMember(lx: Atoms, data: Bytes, pos: nat, depth: nat, k: Bytes, x: Value, n: nat)
    requires Bounded(lx)
  {
    pos <= |data| && ReadMember(lx, data, pos, depth) == Ok(Parsed(Member(k, x), pos + n))
  }

  lemma {:induction false} LastMember(lx: Atoms, data: Bytes, pos: nat, depth: nat, k: Bytes, x: Value, n: nat)
    requires Bounded(lx) && ReadsMember(lx, data, pos, depth, k, x, n) && pos + n < |data|
    requires data[pos + n] == CLOSE_BRACE && SkipSpace(data, pos + n) == pos + n
    ensures ReadsMembers(lx, data, pos, depth, [Member(k, x)], n + 1)
  {
  }

  ghost predicate ReadsMembers(lx: Atoms, data: Bytes, pos: nat, depth: nat, ms: seq<Member>, n: nat)
    requires Bounded(lx)
  {
    pos <= |data| && ReadMembers(lx, data, pos, depth) == Ok(Parsed(ms, pos + n))
  }

  lemma {:induction false} NextMember(
    lx: Atoms, data: Bytes, pos: nat, depth: nat, k: Bytes, x: Value, n: nat, ms: seq<Member>, m: nat)
    requires Bounded(lx) && ReadsMember(lx, data, pos, depth, k, x, n) && CommaAfter(data, pos + n)
    requires ReadsMembers(lx, data, pos + n + 1, depth, ms, m)
    ensures ReadsMembers(lx, data, pos, depth, [Member(k, x)] + ms, n + 1 + m)
  {
  }

  /** A quoted name at pos and a colon right after it, with no space around that. */
  ghost predicate ColonAfter(lx: Atoms, data: Bytes, pos: nat, k: Bytes, colon: nat)
  {
    && pos < |data| && data[pos] == QUOTE && lx.readString(data, pos) == Ok(Parsed(k, colon))
    && colon < |data| && data[colon] == COLON
    && SkipSpace(data, colon) == colon && SkipSpace(data, colon + 1) == colon + 1
  }

  lemma {:induction false} MemberStep(lx: Atoms, data: Bytes, pos: nat, depth: nat, k: Bytes, colon: nat, x: Value, n: nat)
    requires Bounded(lx) && pos < colon && ColonAfter(lx, data, pos, k, colon)
    requires ReadsValue(lx, data, colon + 1, depth, x, n)
    ensures ReadsMember(lx, data, pos, depth, k, x, colon + 1 + n - pos)
  {
  }

  lemma {:induction false} ArrayStep(lx: Atoms, data: Bytes, pos: nat, depth: nat)
    requires Bounded(lx) && pos + 1 < |data| && data[pos] == OPEN_BRACKET && depth < MAX_DEPTH && SkipSpace(data, pos + 1) == pos + 1
    ensures ReadValue(lx, data, pos, depth)
            == if data[pos + 1] == CLOSE_BRACKET then Ok(Parsed(Arr([]), pos + 2))
               else ArrayOf(ReadItems(lx, data, pos + 1, depth + 1))
  {
    assert ValueAt(lx, data, pos, depth) == ArrayAt(lx, data, pos, depth);
  }

  lemma {:induction false} ObjectStep(lx: Atoms, data: Bytes, pos: nat, depth: nat)
    requires Bounded(lx) && pos + 1 < |data| && data[pos] == OPEN_BRACE && depth < MAX_DEPTH && SkipSpace(data, pos + 1) == pos + 1
    ensures ReadValue(lx, data, pos, depth)
            == if data[pos + 1] == CLOSE_BRACE then Ok(Parsed(Obj(map[]), pos + 2))
               else ObjectOf(ReadMembers(lx, data, pos + 1, depth + 1))
  {
    assert ValueAt(lx, data, pos, depth) == ObjectAt(lx, data, pos, depth);
  }

  // ---- whole values ----

  ghost predicate Prints(lx: Atoms, data: Bytes, pos: nat, v: Value)
    requires Named(v)
  {
    At(data, pos, ValueText(lx, v)) && Ends(data, pos + |ValueText(lx, v)|)
  }

  /** v, printed at pos, reads back. */
  ghost predicate Returns(lx: Atoms, v: Value, data: Bytes, pos: nat, depth: nat)
    requires Bounded(lx) && Named(v)
  {
    ReadsValue(lx, data, pos, depth, ReadBack(v), |ValueText(lx, v)|)
  }

  lemma {:induction false} StringReads(lx: Atoms, s: Bytes, data: Bytes, pos: nat, depth: nat)
    requires Lawful(lx) && lx.goodString(s) && At(data, pos, lx.printString(s))
    ensures ReadsValue(lx, data, pos, depth, Str(s), |lx.printString(s)|)
  {
    QuotedReads(lx, data, pos, s);
  }

  /** Reading a printed value gives it back, whatever follows, as long as that cannot continue a number. */
  lemma {:induction false} PrintReads(lx: Atoms, v: Value, data: Bytes, pos: nat, depth: nat)
    requires Lawful(lx) && Named(v) && depth <= MAX_DEPTH && Fits(lx, v, MAX_DEPTH - depth) && Prints(lx, data, pos, v)
    ensures Returns(lx, v, data, pos, depth)
    decreases v, 2, 0
  {
    match v
    case Null => WordReads(lx, v, data, pos, depth);
    case Bool(_) => WordReads(lx, v, data, pos, depth);
    case Number(f) => NumberReads(lx, f, data, pos, depth);
    case Str(s) => StringReads(lx, s, data, pos, depth);
    case Arr(_) => ArrayReads(lx, v, data, pos, depth);
    case Obj(_) => ObjectReads(lx, v, data, pos, depth);
  }

  lemma {:induction false} ArrayReads(lx: Atoms, v: Value, data: Bytes, pos: nat, depth: nat)
    requires Lawful(lx) && v.Arr? && Named(v) && depth < MAX_DEPTH && Fits(lx, v, MAX_DEPTH - depth)
    requires Prints(lx, data, pos, v)
    ensures Returns(lx, v, data, pos, depth)
    decreases v, 1, 0
  {
    ArrayOpens(lx, v, data, pos, depth);
    if v.items != [] {
      ItemsRead(lx, v, 0, data, pos + 1, depth + 1);
      ArrayCloses(lx, data, pos, depth, PlainItems(v, 0), |ItemsText(lx, v, 0)| + 1);
      PlainItemsAll(v);
    }
  }

  lemma {:induction false} ArrayCloses(lx: Atoms, data: Bytes, pos: nat, depth: nat, xs: seq<Value>, n: nat)
    requires Bounded(lx) && pos < |data| && ReadsItems(lx, data, pos + 1, depth + 1, xs, n)
    requires ReadValue(lx, data, pos, depth) == ArrayOf(ReadItems(lx, data, pos + 1, depth + 1))
    ensures ReadsValue(lx, data, pos, depth, Arr(xs), n + 1)
  {
  }

  lemma {:induction false} ArrayOpens(lx: Atoms, v: Value, data: Bytes, pos: nat, depth: nat)
    requires Lawful(lx) && v.Arr? && Named(v) && depth < MAX_DEPTH && Fits(lx, v, MAX_DEPTH - depth)
    requires At(data, pos, ValueText(lx, v))
    ensures |ValueText(lx, v)| == |ItemsText(lx, v, 0)| + 2
    ensures pos < |data| && At(data, pos + 1, ItemsText(lx, v, 0) + [CLOSE_BRACKET])
    ensures v.items != [] ==> ReadValue(lx, data, pos, depth) == ArrayOf(ReadItems(lx, data, pos + 1, depth + 1))
    ensures v.items == [] ==> Returns(lx, v, data, pos, depth)
  {
    var rest := ItemsText(lx, v, 0) + [CLOSE_BRACKET];
    if v.items != [] {
      ItemsStart(lx, v, 0, MAX_DEPTH - depth - 1);
    } else {
      assert ReadBack(v).items == [];
    }
    AfterOpen(data, pos, OPEN_BRACKET, rest);
    ArrayStep(lx, data, pos, depth);
  }

  /** The items of v from i on, read back. */
  ghost function PlainItems(v: Value, i: nat): seq<Value>
    requires v.Arr? && i <= |v.items|
  {
    seq(|v.items| - i, j requires 0 <= j < |v.items| - i => ReadBack(v.items[i + j]))
  }

  lemma {:induction false} PlainItemsCons(v: Value, i: nat)
    requires v.Arr? && i < |v.items|
    ensures PlainItems(v, i) == [ReadBack(v.items[i])] + PlainItems(v, i + 1)
    ensures i + 1 == |v.items| ==> PlainItems(v, i) == [ReadBack(v.items[i])]
  {
  }

  lemma {:induction false} PlainItemsAll(v: Value)
    requires v.Arr?
    ensures Arr(PlainItems(v, 0)) == ReadBack(v)
  {
    forall i | 0 <= i < |v.items| ensures PlainItems(v, 0)[i] == Plain(v).items[i] {
      assert ReadBack(v.items[i]) == Plain(v.items[i]);
    }
    assert PlainItems(v, 0) == Plain(v).items;
  }

  lemma {:induction false} ItemFits(lx: Atoms, v: Value, i: nat, depth: nat)
    requires v.Arr? && i < |v.items| && 0 < depth <= MAX_DEPTH && Fits(lx, v, MAX_DEPTH - depth + 1)
    ensures Fits(lx, v.items[i], MAX_DEPTH - depth)
  {
  }

  lemma {:induction false} ItemsRead(lx: Atoms, v: Value, i: nat, data: Bytes, pos: nat, depth: nat)
    requires Lawful(lx) && v.Arr? && Named(v) && i < |v.items| && 0 < depth <= MAX_DEPTH
    requires Fits(lx, v, MAX_DEPTH - depth + 1)
    requires At(data, pos, ItemsText(lx, v, i) + [CLOSE_BRACKET])
    ensures ReadsItems(lx, data, pos, depth, PlainItems(v, i), |ItemsText(lx, v, i)| + 1)
    decreases v, 0, |v.items| - i
  {
    ItemFits(lx, v, i, depth);
    if i + 1 == |v.items| {
      LastItemReads(lx, v, i, data, pos, depth);
    } else {
      ItemFits(lx, v, i + 1, depth);
      ItemThenComma(lx, v, i, data, pos, MAX_DEPTH - depth);
      PrintReads(lx, v.items[i], data, pos, depth);
      ItemsRead(lx, v, i + 1, data, pos + |ValueText(lx, v.items[i])| + 1, depth);
      NextItemReads(lx, v, i, data, pos, depth);
    }
  }

  lemma {:induction false} LastItemReads(lx: Atoms, v: Value, i: nat, data: Bytes, pos: nat, depth: nat)
    requires Lawful(lx) && v.Arr? && Named(v) && i + 1 == |v.items| && 0 < depth <= MAX_DEPTH
    requires Fits(lx, v.items[i], MAX_DEPTH - depth)
    requires At(data, pos, ItemsText(lx, v, i) + [CLOSE_BRACKET])
    ensures ReadsItems(lx, data, pos, depth, PlainItems(v, i), |ItemsText(lx, v, i)| + 1)
    decreases v, 0, 0
  {
    assert ItemsText(lx, v, i) == ValueText(lx, v.items[i]);
    ThenClose(data, pos, ValueText(lx, v.items[i]), CLOSE_BRACKET);
    PrintReads(lx, v.items[i], data, pos, depth);
    LastItem(lx, data, pos, depth, ReadBack(v.items[i]), |ValueText(lx, v.items[i])|);
    PlainItemsCons(v, i);
  }

  lemma {:induction false} NextItemReads(lx: Atoms, v: Value, i: nat, data: Bytes, pos: nat, depth: nat)
    requires Bounded(lx) && v.Arr? && Named(v) && i + 1 < |v.items| && Returns(lx, v.items[i], data, pos, depth)
    requires CommaAfter(data, pos + |ValueText(lx, v.items[i])|)
    requires ReadsItems(lx, data, pos + |ValueText(lx, v.items[i])| + 1, depth, PlainItems(v, i + 1),
                        |ItemsText(lx, v, i + 1)| + 1)
    ensures ReadsItems(lx, data, pos, depth, PlainItems(v, i), |ItemsText(lx, v, i)| + 1)
  {
    Commas(lx, v, i);
    PlainItemsCons(v, i);
    NextItem(
      lx, data, pos, depth, ReadBack(v.items[i]), |ValueText(lx, v.items[i])|,
      PlainItems(v, i + 1), |ItemsText(lx, v, i + 1)| + 1, PlainItems(v, i), |ItemsText(lx, v, i)| + 1);
  }

  lemma {:induction false} ItemThenComma(lx: Atoms, v: Value, i: nat, data: Bytes, pos: nat, d: nat)
    requires Lawful(lx) && v.Arr? && Named(v) && i + 1 < |v.items| && Fits(lx, v.items[i + 1], d)
    requires At(data, pos, ItemsText(lx, v, i) + [CLOSE_BRACKET])
    ensures Prints(lx, data, pos, v.items[i]) && CommaAfter(data, pos + |ValueText(lx, v.items[i])|)
    ensures At(data, pos + |ValueText(lx, v.items[i])| + 1, ItemsText(lx, v, i + 1) + [CLOSE_BRACKET])
  {
    ItemsStart(lx, v, i + 1, d);
    Commas(lx, v, i);
    ThenComma(data, pos, ValueText(lx, v.items[i]), COMMA, ItemsText(lx, v, i + 1) + [CLOSE_BRACKET]);
  }

  lemma {:induction false} Commas(lx: Atoms, v: Value, i: nat)
    requires v.Arr? && Named(v) && i + 1 < |v.items|
    ensures ItemsText(lx, v, i) + [CLOSE_BRACKET] == ValueText(lx, v.items[i]) + ([COMMA] + (ItemsText(lx, v, i + 1) + [CLOSE_BRACKET]))
    ensures |ItemsText(lx, v, i)| == |ValueText(lx, v.items[i])| + 1 + |ItemsText(lx, v, i + 1)|
  {
  }

  lemma {:induction false} MemberCommas(lx: Atoms, v: Value, names: seq<Bytes>)
    requires Named(v) && NamesOf(v, names) && |names| > 1
    ensures MembersText(lx, v, names) + [CLOSE_BRACE]
            == MemberText(lx, v, names[0]) + ([COMMA] + (MembersText(lx, v, names[1..]) + [CLOSE_BRACE]))
    ensures |MembersText(lx, v, names)| == |MemberText(lx, v, names[0])| + 1 + |MembersText(lx, v, names[1..])|
  {
  }

  lemma {:induction false} ObjectReads(lx: Atoms, v: Value, data: Bytes, pos: nat, depth: nat)
    requires Lawful(lx) && v.Obj? && Named(v) && depth < MAX_DEPTH && Fits(lx, v, MAX_DEPTH - depth)
    requires Prints(lx, data, pos, v)
    ensures Returns(lx, v, data, pos, depth)
    decreases v, 1, 0
  {
    var names := Sorted(v.members.Keys);
    SortedNames(v);
    PrintObject(lx, v, names);
    BracesRead(lx, v, names, data, pos, depth);
  }

  /** An object between its braces. */
  lemma {:induction false} BracesRead(lx: Atoms, v: Value, names: seq<Bytes>, data: Bytes, pos: nat, depth: nat)
    requires Lawful(lx) && v.Obj? && Named(v) && depth < MAX_DEPTH && Fits(lx, v, MAX_DEPTH - depth)
    requires NamesOf(v, names) && Ascending(names) && NameSet(names) == v.members.Keys
    requires At(data, pos, [OPEN_BRACE] + (MembersText(lx, v, names) + [CLOSE_BRACE]))
    ensures ReadsValue(lx, data, pos, depth, ReadBack(v), |MembersText(lx, v, names)| + 2)
    decreases v, 0, |names| + 1
  {
    ObjectOpens(lx, v, names, data, pos, depth);
    CollectPlain(v, names);
    if names != [] {
      MembersRead(lx, v, names, data, pos + 1, depth + 1);
      ObjectCloses(lx, data, pos, depth, PlainMembers(v, names), |MembersText(lx, v, names)| + 1);
    }
  }

  lemma {:induction false} ObjectCloses(lx: Atoms, data: Bytes, pos: nat, depth: nat, ms: seq<Member>, n: nat)
    requires Bounded(lx) && pos < |data| && ReadValue(lx, data, pos, depth) == ObjectOf(ReadMembers(lx, data, pos + 1, depth + 1))
    ensures Distinct(ms) && ReadsMembers(lx, data, pos + 1, depth + 1, ms, n)
            ==> ReadsValue(lx, data, pos, depth, Obj(Collect(ms)), n + 1)
  {
  }

  lemma {:induction false} PrintObject(lx: Atoms, v: Value, names: seq<Bytes>)
    requires v.Obj? && Named(v) && NamesOf(v, names) && names == Sorted(v.members.Keys)
    ensures ValueText(lx, v) == [OPEN_BRACE] + (MembersText(lx, v, names) + [CLOSE_BRACE])
    ensures |ValueText(lx, v)| == |MembersText(lx, v, names)| + 2
  {
  }

  lemma {:induction false} ObjectOpens(lx: Atoms, v: Value, names: seq<Bytes>, data: Bytes, pos: nat, depth: nat)
    requires Lawful(lx) && v.Obj? && Named(v) && depth < MAX_DEPTH && Fits(lx, v, MAX_DEPTH - depth)
    requires NamesOf(v, names)
    requires At(data, pos, [OPEN_BRACE] + (MembersText(lx, v, names) + [CLOSE_BRACE]))
    ensures pos < |data| && At(data, pos + 1, MembersText(lx, v, names) + [CLOSE_BRACE])
    ensures names != [] ==> ReadValue(lx, data, pos, depth) == ObjectOf(ReadMembers(lx, data, pos + 1, depth + 1))
    ensures names == [] ==> ReadsValue(lx, data, pos, depth, Obj(map[]), 2)
  {
    var rest := MembersText(lx, v, names) + [CLOSE_BRACE];
    if names != [] {
      assert names[0] in v.members;
      MembersStart(lx, v, names);
    }
    AfterOpen(data, pos, OPEN_BRACE, rest);
    ObjectStep(lx, data, pos, depth);
  }

  lemma {:induction false} SortedNames(v: Value)
    requires v.Obj? && ValidNames(v.members.Keys)
    ensures NamesOf(v, Sorted(v.members.Keys)) && Ascending(Sorted(v.members.Keys))
    ensures NameSet(Sorted(v.members.Keys)) == v.members.Keys
  {
    var names := Sorted(v.members.Keys);
    SortedIsAscending(v.members.Keys);
    assert forall k | k in names :: k in NameSet(names);
  }

  /** The members with the given names, read back. */
  ghost function PlainMembers(v: Value, names: seq<Bytes>): seq<Member>
    requires NamesOf(v, names)
  {
    seq(|names|, i requires 0 <= i < |names| => Member(names[i], ReadBack(v.members[names[i]])))
  }

  lemma {:induction false} CollectOf(ms: seq<Member>)
    requires Distinct(ms)
    ensures forall k :: k in Collect(ms) <==> exists i :: 0 <= i < |ms| && ms[i].name == k
    ensures forall i | 0 <= i < |ms| :: ms[i].name in Collect(ms) && Collect(ms)[ms[i].name] == ms[i].v
    decreases |ms|
  {
    if ms != [] {
      var n := |ms| - 1;
      CollectOf(ms[..n]);
      forall i | 0 <= i < |ms| ensures ms[i].name in Collect(ms) && Collect(ms)[ms[i].name] == ms[i].v {
        if i < n { assert ms[..n][i] == ms[i]; }
      }
      forall k | k in Collect(ms) ensures exists i :: 0 <= i < |ms| && ms[i].name == k {
        if k != ms[n].name {
          var i :| 0 <= i < n && ms[..n][i].name == k;
          assert ms[i].name == k;
        }
      }
    }
  }

  /** Collected from its names, an object is whole. */
  lemma {:induction false} CollectPlain(v: Value, names: seq<Bytes>)
    requires NamesOf(v, names) && Ascending(names) && NameSet(names) == v.members.Keys
    ensures Distinct(PlainMembers(v, names)) && Obj(Collect(PlainMembers(v, names))) == ReadBack(v)
    ensures names == [] ==> ReadBack(v) == Obj(map[])
  {
    var ms := PlainMembers(v, names);
    PlainDistinct(v, names);
    CollectOf(ms);
    forall i | 0 <= i < |ms| ensures ms[i].name in v.members && ms[i].v == ReadBack(v.members[ms[i].name]) {
      assert names[i] in v.members;
    }
    forall k | k in v.members ensures exists i :: 0 <= i < |ms| && ms[i].name == k {
      assert k in NameSet(names);
      var i :| 0 <= i < |names| && names[i] == k;
      assert ms[i].name == k;
    }
    WholeObject(v, ms);
    if names == [] { assert Collect(ms) == map[]; }
  }

  lemma {:induction false} PlainDistinct(v: Value, names: seq<Bytes>)
    requires NamesOf(v, names) && Ascending(names)
    ensures Distinct(PlainMembers(v, names))
  {
    var ms := PlainMembers(v, names);
    forall i, j | 0 <= i < j < |ms| ensures ms[i].name != ms[j].name {
      assert NameLess(names[i], names[j]);
      LowerTotal(Units(names[i]), Units(names[i]));
    }
  }

  lemma {:induction false} WholeObject(v: Value, ms: seq<Member>)
    requires v.Obj? && Distinct(ms)
    requires forall k :: k in Collect(ms) <==> exists i :: 0 <= i < |ms| && ms[i].name == k
    requires forall i | 0 <= i < |ms| :: ms[i].name in Collect(ms) && Collect(ms)[ms[i].name] == ms[i].v
    requires forall i | 0 <= i < |ms| :: ms[i].name in v.members && ms[i].v == ReadBack(v.members[ms[i].name])
    requires forall k | k in v.members :: exists i :: 0 <= i < |ms| && ms[i].name == k
    ensures Obj(Collect(ms)) == ReadBack(v)
  {
    assert Collect(ms).Keys == v.members.Keys;
    forall k | k in v.members ensures Collect(ms)[k] == ReadBack(v.members[k]) {
      var i :| 0 <= i < |ms| && ms[i].name == k;
    }
    assert Collect(ms) == ReadBack(v).members;
  }

  lemma {:induction false} MemberFits(lx: Atoms, v: Value, k: Bytes, depth: nat)
    requires v.Obj? && k in v.members && 0 < depth <= MAX_DEPTH && Fits(lx, v, MAX_DEPTH - depth + 1)
    ensures lx.goodString(k) && Fits(lx, v.members[k], MAX_DEPTH - depth)
  {
  }

  lemma {:induction false} MemberParts(lx: Atoms, v: Value, k: Bytes, data: Bytes, pos: nat, d: nat)
    requires Lawful(lx) && v.Obj? && Named(v) && k in v.members && lx.goodString(k) && Fits(lx, v.members[k], d)
    requires At(data, pos, MemberText(lx, v, k)) && Ends(data, pos + |MemberText(lx, v, k)|)
    ensures ColonAfter(lx, data, pos, k, pos + |lx.printString(k)|)
    ensures Prints(lx, data, pos + |lx.printString(k)| + 1, v.members[k])
    ensures |MemberText(lx, v, k)| == |lx.printString(k)| + 1 + |ValueText(lx, v.members[k])|
  {
    PrintStarts(lx, v.members[k], d);
    ThenComma(data, pos, lx.printString(k), COLON, ValueText(lx, v.members[k]));
    QuotedReads(lx, data, pos, k);
  }

  lemma {:induction false} MemberReads(lx: Atoms, v: Value, k: Bytes, data: Bytes, pos: nat, depth: nat)
    requires Lawful(lx) && v.Obj? && Named(v) && k in v.members && 0 < depth <= MAX_DEPTH
    requires Fits(lx, v, MAX_DEPTH - depth + 1)
    requires At(data, pos, MemberText(lx, v, k)) && Ends(data, pos + |MemberText(lx, v, k)|)
    ensures ReadsMember(lx, data, pos, depth, k, ReadBack(v.members[k]), |MemberText(lx, v, k)|)
    decreases v, 0, 0, 0
  {
    var colon := pos + |lx.printString(k)|;
    MemberFits(lx, v, k, depth);
    MemberParts(lx, v, k, data, pos, MAX_DEPTH - depth);
    PrintReads(lx, v.members[k], data, colon + 1, depth);
    MemberStep(lx, data, pos, depth, k, colon, ReadBack(v.members[k]), |ValueText(lx, v.members[k])|);
  }

  lemma {:induction false} MembersRead(lx: Atoms, v: Value, names: seq<Bytes>, data: Bytes, pos: nat, depth: nat)
    requires Lawful(lx) && Named(v) && NamesOf(v, names) && names != [] && 0 < depth <= MAX_DEPTH
    requires Fits(lx, v, MAX_DEPTH - depth + 1)
    requires At(data, pos, MembersText(lx, v, names) + [CLOSE_BRACE])
    ensures ReadsMembers(lx, data, pos, depth, PlainMembers(v, names), |MembersText(lx, v, names)| + 1)
    decreases v, 0, |names|
  {
    if |names| == 1 {
      LastMemberReads(lx, v, names, data, pos, depth);
    } else {
      FirstMemberReads(lx, v, names, data, pos, depth);
      MembersRead(lx, v, names[1..], data, pos + |MemberText(lx, v, names[0])| + 1, depth);
    }
  }

  lemma {:induction false} FirstMemberReads(lx: Atoms, v: Value, names: seq<Bytes>, data: Bytes, pos: nat, depth: nat)
    requires Lawful(lx) && Named(v) && NamesOf(v, names) && |names| > 1 && 0 < depth <= MAX_DEPTH
    requires Fits(lx, v, MAX_DEPTH - depth + 1)
    requires At(data, pos, MembersText(lx, v, names) + [CLOSE_BRACE])
    ensures var after := pos + |MemberText(lx, v, names[0])| + 1;
      && At(data, after, MembersText(lx, v, names[1..]) + [CLOSE_BRACE])
      && (ReadsMembers(lx, data, after, depth, PlainMembers(v, names[1..]), |MembersText(lx, v, names[1..])| + 1)
          ==> ReadsMembers(lx, data, pos, depth, PlainMembers(v, names), |MembersText(lx, v, names)| + 1))
    decreases v, 0, 0, 1
  {
    MemberFits(lx, v, names[1], depth);
    MemberThenComma(lx, v, names, data, pos);
    MemberReads(lx, v, names[0], data, pos, depth);
    NextMemberReads(lx, v, names, data, pos, depth);
  }

  lemma {:induction false} LastMemberReads(lx: Atoms, v: Value, names: seq<Bytes>, data: Bytes, pos: nat, depth: nat)
    requires Lawful(lx) && Named(v) && NamesOf(v, names) && |names| == 1 && 0 < depth <= MAX_DEPTH
    requires Fits(lx, v, MAX_DEPTH - depth + 1)
    requires At(data, pos, MembersText(lx, v, names) + [CLOSE_BRACE])
    ensures ReadsMembers(lx, data, pos, depth, PlainMembers(v, names), |MembersText(lx, v, names)| + 1)
    decreases v, 0, 0, 1
  {
    var k := names[0];
    ThenClose(data, pos, MemberText(lx, v, k), CLOSE_BRACE);
    MemberReads(lx, v, k, data, pos, depth);
    LastMember(lx, data, pos, depth, k, ReadBack(v.members[k]), |MemberText(lx, v, k)|);
    assert PlainMembers(v, names) == [Member(k, ReadBack(v.members[k]))];
  }

  lemma {:induction false} NextMemberReads(lx: Atoms, v: Value, names: seq<Bytes>, data: Bytes, pos: nat, depth: nat)
    requires Bounded(lx) && Named(v) && NamesOf(v, names) && |names| > 1
    requires ReadsMember(lx, data, pos, depth, names[0], ReadBack(v.members[names[0]]), |MemberText(lx, v, names[0])|)
    requires CommaAfter(data, pos + |MemberText(lx, v, names[0])|)
    ensures
      ReadsMembers(lx, data, pos + |MemberText(lx, v, names[0])| + 1, depth, PlainMembers(v, names[1..]),
                   |MembersText(lx, v, names[1..])| + 1)
      ==> ReadsMembers(lx, data, pos, depth, PlainMembers(v, names), |MembersText(lx, v, names)| + 1)
  {
    var k, ms, m := names[0], PlainMembers(v, names[1..]), |MembersText(lx, v, names[1..])| + 1;
    var n := |MemberText(lx, v, k)|;
    if ReadsMembers(lx, data, pos + n + 1, depth, ms, m) {
      NextMember(lx, data, pos, depth, k, ReadBack(v.members[k]), n, ms, m);
      MemberCommas(lx, v, names);
      assert PlainMembers(v, names) == [Member(k, ReadBack(v.members[k]))] + ms;
    }
  }

  lemma {:induction false} MemberThenComma(lx: Atoms, v: Value, names: seq<Bytes>, data: Bytes, pos: nat)
    requires Lawful(lx) && Named(v) && NamesOf(v, names) && |names| > 1 && lx.goodString(names[1])
    requires At(data, pos, MembersText(lx, v, names) + [CLOSE_BRACE])
    ensures var after := pos + |MemberText(lx, v, names[0])|;
      && At(data, pos, MemberText(lx, v, names[0])) && Ends(data, after) && CommaAfter(data, after)
      && At(data, after + 1, MembersText(lx, v, names[1..]) + [CLOSE_BRACE])
  {
    MembersStart(lx, v, names[1..]);
    MemberCommas(lx, v, names);
    ThenComma(data, pos, MemberText(lx, v, names[0]), COMMA, MembersText(lx, v, names[1..]) + [CLOSE_BRACE]);
  }

  // ---- canonicalization ----

  lemma {:induction false} ParseOfPrint(lx: Atoms, v: Value)
    requires Lawful(lx) && Fits(lx, v, MAX_DEPTH) && Named(v)
    ensures ParseJson(lx, ValueText(lx, v)) == Ok(ReadBack(v))
  {
    var data := ValueText(lx, v);
    PrintStarts(lx, v, MAX_DEPTH);
    NoSpace(data, 0);
    assert data[0..0 + |data|] == data;
    PrintReads(lx, v, data, 0, 0);
    NoSpace(data, |data|);
  }

  // ---- the tree without negative zeros prints the same ----

  lemma {:induction false} PlainIsNamed(v: Value)
    requires Named(v)
    ensures Named(Plain(v))
    decreases v
  {
    match v
    case Arr(items) =>
      forall i | 0 <= i < |items| ensures Named(Plain(v).items[i]) { PlainIsNamed(items[i]); }
    case Obj(members) =>
      assert Plain(v).members.Keys == members.Keys;
      forall k | k in members ensures Named(Plain(v).members[k]) { PlainIsNamed(members[k]); }
    case _ =>
  }

  lemma {:induction false} PlainPrints(lx: Atoms, v: Value, d: nat)
    requires Lawful(lx) && Named(v) && Fits(lx, v, d)
    ensures Named(Plain(v)) && Print(lx, Plain(v)) == Print(lx, v)
    decreases v, 1, 0
  {
    PlainIsNamed(v);
    match v
    case Arr(items) => PlainItemsPrint(lx, v, 0, d);
    case Obj(members) =>
      assert Plain(v).members.Keys == members.Keys;
      SortedNames(v);
      PlainMembersPrint(lx, v, Sorted(members.Keys), d);
    case _ =>
  }

  lemma {:induction false} PlainItemsPrint(lx: Atoms, v: Value, i: nat, d: nat)
    requires Lawful(lx) && v.Arr? && Named(v) && Named(Plain(v)) && Fits(lx, v, d) && i <= |v.items|
    ensures PrintItems(lx, Plain(v), i) == PrintItems(lx, v, i)
    decreases v, 0, |v.items| - i
  {
    if i < |v.items| {
      PlainPrints(lx, v.items[i], d - 1);
      PlainItemsPrint(lx, v, i + 1, d);
    }
  }

  lemma {:induction false} PlainMembersPrint(lx: Atoms, v: Value, names: seq<Bytes>, d: nat)
    requires Lawful(lx) && v.Obj? && Named(v) && Named(Plain(v)) && Fits(lx, v, d) && NamesOf(v, names)
    ensures NamesOf(Plain(v), names) && PrintMembers(lx, Plain(v), names) == PrintMembers(lx, v, names)
    decreases v, 0, |names|
  {
    if names != [] {
      PlainPrints(lx, v.members[names[0]], d - 1);
      assert PrintMember(lx, Plain(v), names[0]) == PrintMember(lx, v, names[0]);
      PlainMembersPrint(lx, v, names[1..], d);
    }
  }

  // ---- canonical bytes ----

  /** A value some input parses to. */
  ghost predicate Parsable(lx: Atoms, v: Value)
    requires Bounded(lx)
  {
    exists data :: ParseJson(lx, data) == Ok(v)
  }

  lemma {:induction false} ParsableFits(lx: Atoms, data: Bytes)
    requires Lawful(lx) && ParseJson(lx, data).Ok?
    ensures Fits(lx, ParseJson(lx, data).value, MAX_DEPTH) && Named(ParseJson(lx, data).value)
  {
    ParsedFits(lx, data, SkipSpace(data, 0), 0);
    FitsIsNamed(lx, ParseJson(lx, data).value, MAX_DEPTH);
  }

  ghost function Canonicalize(lx: Atoms, data: Bytes): Result<Bytes, What>
    requires Lawful(lx)
  {
    match ParseJson(lx, data)
    case Err(e) => Err(e)
    case Ok(v) => ParsableFits(lx, data); Ok(Print(lx, v))
  }

  /** Every value tree the parser can produce comes back from its canonical form, negative zeros as zeros. */
  lemma {:induction false} PrintedFormParsesBack(lx: Atoms, v: Value)
    requires Lawful(lx) && Parsable(lx, v)
    ensures Named(v) && ParseJson(lx, Print(lx, v)) == Ok(Plain(v))
  {
    var data :| ParseJson(lx, data) == Ok(v);
    ParsableFits(lx, data);
    ParseOfPrint(lx, v);
  }

  /** The canonical form is its own canonical form. */
  lemma {:induction false} CanonicalizeIsIdempotent(lx: Atoms, data: Bytes)
    requires Lawful(lx) && Canonicalize(lx, data).Ok?
    ensures Canonicalize(lx, Canonicalize(lx, data).value) == Canonicalize(lx, data)
  {
    var v := ParseJson(lx, data).value;
    ParsableFits(lx, data);
    ParseOfPrint(lx, v);
    PlainPrints(lx, v, MAX_DEPTH);
  }

  /** Two accepted inputs have the same canonical bytes exactly when they hold the same tree, zero having one sign. */
  lemma {:induction false} SameBytesExactlyWhenSameTree(lx: Atoms, x: Bytes, y: Bytes)
    requires Lawful(lx) && ParseJson(lx, x).Ok? && ParseJson(lx, y).Ok?
    ensures Canonicalize(lx, x) == Canonicalize(lx, y)
            <==> Plain(ParseJson(lx, x).value) == Plain(ParseJson(lx, y).value)
  {
    var v, w := ParseJson(lx, x).value, ParseJson(lx, y).value;
    ParsableFits(lx, x);
    ParsableFits(lx, y);
    ParseOfPrint(lx, v);
    ParseOfPrint(lx, w);
    PlainPrints(lx, v, MAX_DEPTH);
    PlainPrints(lx, w, MAX_DEPTH);
  }
}
