/** The JSON reader as it runs: a cursor over the bytes, and a depth that comes back to what it was. */
module JsonReader {
  import opened Octets
  import Utf8
  import opened JsonText
  import opened JsonNumbers
  import opened JsonPrint
  import opened JsonParse
  import opened Json

  /** An answer of the parser: the outcome the specification gives, with its value; every error has one code. */
  ghost predicate Agrees<T>(r: Result<T, What>, pos: nat, spec: Result<Parsed<T>, What>)
  {
    (r.Ok? <==> spec.Ok?) && (r.Ok? ==> r.value == spec.value.v && pos == spec.value.next)
  }

  class Parser {
    const rd: Rounding
    const lx: Atoms
    const data: Bytes
    var pos: nat
    var depth: nat

    constructor (rd: Rounding, data: Bytes)
      ensures this.rd == rd && lx == Standard(rd) && this.data == data && pos == 0 && depth == 0
    {
      this.rd, lx, this.data, pos, depth := rd, Standard(rd), data, 0, 0;
    }

    method SkipWS()
      requires pos <= |data|
      modifies this`pos
      ensures pos == SkipSpace(data, old(pos))
    {
      while pos < |data| && IsSpace(data[pos])
        invariant old(pos) <= pos <= |data| && SkipSpace(data, old(pos)) == SkipSpace(data, pos)
      {
        pos := pos + 1;
      }
    }

    method ScanDigits() returns (n: nat)
      requires pos <= |data|
      modifies this`pos
      ensures pos == DigitsEnd(data, old(pos)) && n == pos - old(pos)
    {
      n := 0;
      while pos < |data| && IsDigit(data[pos])
        invariant old(pos) <= pos <= |data| && n == pos - old(pos)
        invariant DigitsEnd(data, old(pos)) == DigitsEnd(data, pos)
      {
        pos := pos + 1;
        n := n + 1;
      }
    }

    /** The value of four hex digits; the cursor moves only past good ones. */
    method ScanHex4() returns (r: Option<nat>)
      requires pos <= |data|
      modifies this`pos
      ensures r == Hex4(data, old(pos))
      ensures pos == if r.Some? then old(pos) + 4 else old(pos)
    {
      if pos + 4 > |data| {
        return None;
      }
      r := HexDigits(4);
      if r.Some? {
        pos := pos + 4;
      }
    }

    method HexDigits(n: nat) returns (r: Option<nat>)
      requires n <= 4 && pos + n <= |data|
      ensures r == Hex(data, pos, n)
    {
      var v: nat := 0;
      var i := 0;
      while i < n
        invariant 0 <= i <= n && Hex(data, pos, i) == Some(v)
      {
        var d := HexValue(data[pos + i]);
        if d.None? {
          HexStops(data, pos, i, n);
          return None;
        }
        v := v * 16 + d.value;
        i := i + 1;
      }
      r := Some(v);
    }

    /** One backslash escape; the cursor is at the backslash. */
    method ScanEscape() returns (r: Result<Utf8.Rune, What>)
      requires pos < |data|
      modifies this`pos
      ensures Agrees(r, pos, EscapeAt(data, old(pos)))
    {
      pos := pos + 1;
      if pos >= |data| {
        return Err(UnterminatedEscape);
      }
      var c := data[pos];
      pos := pos + 1;
      if c == QUOTE || c == BACKSLASH || c == 0x2f {
        return Ok(c);
      } else if c == 0x62 {
        return Ok(0x08);
      } else if c == 0x66 {
        return Ok(0x0c);
      } else if c == 0x6e {
        return Ok(0x0a);
      } else if c == 0x72 {
        return Ok(0x0d);
      } else if c == 0x74 {
        return Ok(0x09);
      } else if c != 0x75 {
        pos := pos - 1;
        return Err(InvalidEscape);
      }
      r := ScanUnicode();
    }

    method ScanUnicode() returns (r: Result<Utf8.Rune, What>)
      requires pos <= |data|
      modifies this`pos
      ensures Agrees(r, pos, UnicodeEscape(data, old(pos)))
    {
      var r1 := ScanHex4();
      if r1.None? {
        return Err(InvalidHex);
      }
      var c: Utf8.Rune := r1.value;
      if 0xD800 <= r1.value < 0xDC00 {
        if pos + 1 >= |data| || data[pos] != BACKSLASH || data[pos + 1] != 0x75 {
          return Err(LoneHighSurrogate);
        }
        pos := pos + 2;
        var r2 := ScanHex4();
        if r2.None? || r2.value < 0xDC00 || r2.value > 0xDFFF {
          return Err(LoneHighSurrogate);
        }
        c := 0x1_0000 + (r1.value - 0xD800) * 0x400 + (r2.value - 0xDC00);
      } else if 0xDC00 <= r1.value <= 0xDFFF {
        return Err(LoneLowSurrogate);
      }
      if IsNoncharacter(c) {
        return Err(Noncharacter);
      }
      r := Ok(c);
    }

    /** One character of a string. */
    method ScanChar() returns (r: Result<Bytes, What>)
      requires pos < |data|
      modifies this`pos
      ensures Agrees(r, pos, CharAt(data, old(pos)))
    {
      var c := data[pos];
      if c == BACKSLASH {
        var e := ScanEscape();
        if e.Err? {
          return Err(e.error);
        }
        return Ok(Utf8.Encode(e.value));
      }
      if c < 0x20 {
        return Err(ControlCharacter);
      }
      if c < 0x80 {
        pos := pos + 1;
        return Ok([c]);
      }
      var d := Utf8.First(data[pos..]);
      if d.None? {
        return Err(InvalidUtf8);
      }
      if IsNoncharacter(d.value.0) {
        return Err(Noncharacter);
      }
      r := Ok(data[pos..pos + d.value.1]);
      pos := pos + d.value.1;
    }

    /** A string; the cursor is at the opening quote. */
    method ScanString() returns (r: Result<Bytes, What>)
      requires pos < |data|
      modifies this`pos
      ensures Agrees(r, pos, CharsAt(data, old(pos) + 1))
    {
      pos := pos + 1;
      var sb: Bytes := [];
      PrependNone(CharsAt(data, pos));
      while true
        invariant old(pos) < pos <= |data|
        invariant CharsAt(data, old(pos) + 1) == Prepend(sb, CharsAt(data, pos))
        decreases |data| - pos
      {
        if pos >= |data| {
          return Err(Unterminated);
        }
        if data[pos] == QUOTE {
          pos := pos + 1;
          assert sb + [] == sb;
          return Ok(sb);
        }
        var s := ScanChar();
        if s.Err? {
          return Err(s.error);
        }
        PrependTwice(sb, s.value, CharsAt(data, pos));
        sb := sb + s.value;
      }
    }

    /** The number grammar; the cursor is at a minus sign or a digit. */
    method ScanNumber(rd: Rounding) returns (r: Result<Dec, What>)
      requires pos < |data|
      modifies this`pos
      ensures Agrees(r, pos, ReadNumber(rd, data, old(pos)))
    {
      var t := ScanToken();
      if t.Err? {
        return Err(t.error);
      }
      var f := rd.round(TokenValue(t.value));
      if f.None? {
        return Err(OutOfRange);
      }
      r := Ok(f.value);
    }

    method ScanToken() returns (r: Result<Token, What>)
      requires pos < |data|
      modifies this`pos
      ensures Agrees(r, pos, NumberAt(data, old(pos)))
      ensures r.Ok? ==> TokenOk(r.value)
    {
      var neg := data[pos] == MINUS;
      if neg {
        pos := pos + 1;
      }
      var start := pos;
      if pos < |data| && data[pos] == ZERO {
        pos := pos + 1;
      } else if pos < |data| && IsDigit(data[pos]) {
        var n := ScanDigits();
      } else {
        return Err(InvalidNumber);
      }
      r := ScanFraction(Token(neg, data[start..pos], [], false, []));
    }

    method ScanFraction(t: Token) returns (r: Result<Token, What>)
      requires pos <= |data| && TokenOk(t) && t.exp == [] && t.frac == []
      modifies this`pos
      ensures Agrees(r, pos, FractionAt(data, old(pos), t))
      ensures r.Ok? ==> TokenOk(r.value)
    {
      var more := t;
      if pos < |data| && data[pos] == DOT {
        pos := pos + 1;
        var start := pos;
        var n := ScanDigits();
        if n == 0 {
          return Err(InvalidFraction);
        }
        more := t.(frac := data[start..pos]);
      }
      r := ScanExponent(more);
    }

    method ScanExponent(t: Token) returns (r: Result<Token, What>)
      requires pos <= |data| && TokenOk(t) && t.exp == []
      modifies this`pos
      ensures Agrees(r, pos, ExponentAt(data, old(pos), t))
      ensures r.Ok? ==> TokenOk(r.value)
    {
      if pos < |data| && (data[pos] == 0x65 || data[pos] == 0x45) {
        pos := pos + 1;
        var expNeg := false;
        if pos < |data| && (data[pos] == PLUS || data[pos] == MINUS) {
          expNeg := data[pos] == MINUS;
          pos := pos + 1;
        }
        var start := pos;
        var n := ScanDigits();
        if n == 0 {
          return Err(InvalidExponent);
        }
        return Ok(t.(expNeg := expNeg, exp := data[start..pos]));
      }
      r := Ok(t);
    }

    // ---- values ----

    ghost predicate Valid()
      reads this
    {
      lx == Standard(rd) && Bounded(lx) && pos <= |data| && depth <= MAX_DEPTH
    }

    method Literal(word: Bytes, v: Value) returns (r: Result<Value, What>)
      requires pos <= |data| && word != []
      modifies this`pos
      ensures Agrees(r, pos, JsonParse.Literal(data, old(pos), word, v))
    {
      if !At(data, pos, word) {
        return Err(InvalidLiteral);
      }
      pos := pos + |word|;
      r := Ok(v);
    }

    method Quoted() returns (r: Result<Value, What>)
      requires Valid() && pos < |data|
      modifies this`pos
      ensures Agrees(r, pos, StringValue(lx, data, old(pos)))
    {
      assert lx.readString(data, pos) == ReadString(data, pos);
      var s := ScanString();
      if s.Err? {
        return Err(s.error);
      }
      r := Ok(Str(s.value));
    }

    method Numeral() returns (r: Result<Value, What>)
      requires Valid() && pos < |data|
      modifies this`pos
      ensures Agrees(r, pos, NumberValue(lx, data, old(pos)))
    {
      assert lx.readNumber(data, pos) == ReadNumber(rd, data, pos);
      var f := ScanNumber(rd);
      if f.Err? {
        return Err(f.error);
      }
      r := Ok(Number(f.value));
    }

    method ParseValue() returns (r: Result<Value, What>)
      requires Valid()
      modifies this`pos, this`depth
      ensures Agrees(r, pos, ReadValue(lx, data, old(pos), old(depth)))
      ensures r.Ok? ==> depth == old(depth)
      decreases |data| - pos, 3
    {
      if pos >= |data| {
        return Err(UnexpectedEnd);
      }
      var c := data[pos];
      if c == OPEN_BRACE {
        r := ParseObject();
      } else if c == OPEN_BRACKET {
        r := ParseArray();
      } else if c == QUOTE {
        r := Quoted();
      } else if c == 0x74 {
        r := Literal(WORD_TRUE, Bool(true));
      } else if c == 0x66 {
        r := Literal(WORD_FALSE, Bool(false));
      } else if c == 0x6e {
        r := Literal(WORD_NULL, Null);
      } else if c == MINUS || IsDigit(c) {
        r := Numeral();
      } else {
        r := Err(InvalidCharacter);
      }
    }

    method Enter() returns (ok: bool)
      modifies this`depth
      ensures depth == old(depth) + 1 && ok == (depth <= MAX_DEPTH)
    {
      depth := depth + 1;
      ok := depth <= MAX_DEPTH;
    }

    /** What comes after a member or an item: a comma and more, or the closing byte. */
    method Separator<T>(
      close: byte, ghost parts: seq<T>, ghost whole: Result<Parsed<seq<T>>, What>, ghost rest: Result<Parsed<seq<T>>, What>)
      returns (r: Result<bool, What>)
      requires pos <= |data| && close != COMMA && Splits(data, pos, close, parts, whole, rest)
      modifies this`pos
      ensures old(pos) <= pos <= |data|
      ensures r == Ok(true) ==> Continues(parts, whole, rest) && pos == NextStart(data, old(pos))
      ensures r == Ok(false) ==> whole == Ok(Parsed(parts, pos))
      ensures r.Err? ==> whole.Err?
    {
      SkipWS();
      if pos >= |data| {
        return Err(Unterminated);
      }
      if data[pos] == COMMA {
        pos := pos + 1;
        SkipWS();
        return Ok(true);
      }
      if data[pos] == close {
        pos := pos + 1;
        return Ok(false);
      }
      r := Err(ExpectedSeparator);
    }

    method ParseArray() returns (r: Result<Value, What>)
      requires Valid() && pos < |data|
      modifies this`pos, this`depth
      ensures Agrees(r, pos, ArrayAt(lx, data, old(pos), old(depth)))
      ensures r.Ok? ==> depth == old(depth)
      decreases |data| - pos, 2
    {
      var ok := Enter();
      if !ok {
        return Err(TooDeep);
      }
      pos := pos + 1;
      SkipWS();
      if pos < |data| && data[pos] == CLOSE_BRACKET {
        pos := pos + 1;
        depth := depth - 1;
        return Ok(Arr([]));
      }
      var items := ParseItems();
      if items.Err? {
        return Err(items.error);
      }
      depth := depth - 1;
      r := Ok(Arr(items.value));
    }

    /** Items and commas up to the closing bracket. */
    method ParseItems() returns (r: Result<seq<Value>, What>)
      requires Valid()
      modifies this`pos, this`depth
      ensures Agrees(r, pos, ReadItems(lx, data, old(pos), old(depth)))
      ensures r.Ok? ==> depth == old(depth)
      decreases |data| - pos, 4
    {
      var arr: seq<Value> := [];
      while true
        invariant Valid() && depth == old(depth) && old(pos) <= pos
        invariant Continues(arr, ReadItems(lx, data, old(pos), depth), ReadItems(lx, data, pos, depth))
        decreases |data| - pos
      {
        ghost var here := ReadItems(lx, data, pos, depth);
        ItemsStep(lx, data, pos, depth);
        var e := ParseValue();
        if e.Err? {
          return Err(e.error);
        }
        ghost var whole, rest := ReadItems(lx, data, old(pos), depth), ReadItems(lx, data, NextStart(data, pos), depth);
        ContinuesMore(data, pos, CLOSE_BRACKET, arr, whole, here, e.value, rest);
        arr := arr + [e.value];
        var sep := Separator(CLOSE_BRACKET, arr, whole, rest);
        if sep.Err? {
          return Err(sep.error);
        }
        if !sep.value {
          return Ok(arr);
        }
      }
    }

    method ParseObject() returns (r: Result<Value, What>)
      requires Valid() && pos < |data|
      modifies this`pos, this`depth
      ensures Agrees(r, pos, ObjectAt(lx, data, old(pos), old(depth)))
      ensures r.Ok? ==> depth == old(depth)
      decreases |data| - pos, 2
    {
      var ok := Enter();
      if !ok {
        return Err(TooDeep);
      }
      pos := pos + 1;
      SkipWS();
      if pos < |data| && data[pos] == CLOSE_BRACE {
        pos := pos + 1;
        depth := depth - 1;
        return Ok(Obj(map[]));
      }
      r := ParseMembers();
      if r.Ok? {
        depth := depth - 1;
      }
    }

    method ParseMember() returns (r: Result<Member, What>)
      requires Valid()
      modifies this`pos, this`depth
      ensures Agrees(r, pos, ReadMember(lx, data, old(pos), old(depth)))
      ensures r.Ok? ==> depth == old(depth)
      decreases |data| - pos, 4, 0
    {
      if pos >= |data| || data[pos] != QUOTE {
        return Err(ExpectedName);
      }
      var k := Quoted();
      if k.Err? {
        return Err(k.error);
      }
      SkipWS();
      if pos >= |data| || data[pos] != COLON {
        return Err(ExpectedColon);
      }
      pos := pos + 1;
      SkipWS();
      var m := ParseValue();
      if m.Err? {
        return Err(m.error);
      }
      r := Ok(Member(k.value.s, m.value));
    }

    /** Members and commas up to the closing brace; the second member of one name is refused. */
    method ParseMembers() returns (r: Result<Value, What>)
      requires Valid()
      modifies this`pos, this`depth
      ensures Agrees(r, pos, ObjectOf(ReadMembers(lx, data, old(pos), old(depth))))
      ensures r.Ok? ==> depth == old(depth)
      decreases |data| - pos, 5
    {
      var obj: map<Bytes, Value> := map[];
      ghost var ms: seq<Member> := [];
      ghost var whole := ReadMembers(lx, data, pos, depth);
      while true
        invariant Valid() && depth == old(depth) && old(pos) <= pos
        invariant obj == Collect(ms) && Distinct(ms) && Continues(ms, whole, ReadMembers(lx, data, pos, depth))
        decreases |data| - pos
      {
        var more;
        more, obj, ms := AddMember(obj, ms, whole);
        if more.Err? {
          return Err(more.error);
        }
        if !more.value {
          return Ok(Obj(obj));
        }
      }
    }

    /** Adds one member to obj, and reads the comma or the closing brace after it. */
    method AddMember(obj: map<Bytes, Value>, ghost ms: seq<Member>, ghost whole: Result<Parsed<seq<Member>>, What>)
      returns (more: Result<bool, What>, longer: map<Bytes, Value>, ghost now: seq<Member>)
      requires Valid() && obj == Collect(ms) && Distinct(ms)
      requires Continues(ms, whole, ReadMembers(lx, data, pos, depth))
      modifies this`pos, this`depth
      ensures more.Err? ==> ObjectOf(whole).Err?
      ensures more.Ok? ==> Valid() && depth == old(depth) && old(pos) < pos && longer == Collect(now) && Distinct(now)
      ensures more == Ok(true) ==> Continues(now, whole, ReadMembers(lx, data, pos, depth))
      ensures more == Ok(false) ==> whole == Ok(Parsed(now, pos))
      decreases |data| - pos, 4, 2
    {
      longer, now := obj, ms;
      var m := NextMember(ms, whole);
      if m.Err? {
        return Err(m.error), longer, now;
      }
      ghost var rest := ReadMembers(lx, data, NextStart(data, pos), depth);
      if m.value.name in obj {
        DuplicateSinks(data, pos, ms, m.value, whole, rest);
        return Err(DuplicateName), longer, now;
      }
      CollectSnoc(ms, m.value);
      longer := obj[m.value.name := m.value.v];
      now := ms + [m.value];
      more := Separator(CLOSE_BRACE, now, whole, rest);
    }

    /** One more member; what follows it decides how the list goes on. */
    method NextMember(ghost ms: seq<Member>, ghost whole: Result<Parsed<seq<Member>>, What>)
      returns (m: Result<Member, What>)
      requires Valid() && Continues(ms, whole, ReadMembers(lx, data, pos, depth))
      modifies this`pos, this`depth
      ensures m.Err? ==> whole.Err?
      ensures m.Ok? ==>
        && Valid() && depth == old(depth) && old(pos) < pos
        && Splits(data, pos, CLOSE_BRACE, ms + [m.value], whole, ReadMembers(lx, data, NextStart(data, pos), depth))
      decreases |data| - pos, 4, 1
    {
      ghost var here := ReadMembers(lx, data, pos, depth);
      MembersStep(lx, data, pos, depth);
      m := ParseMember();
      if m.Ok? {
        ContinuesMore(
          data, pos, CLOSE_BRACE, ms, whole, here, m.value, ReadMembers(lx, data, NextStart(data, pos), depth));
      }
    }
  }

  method ParseBytes(rd: Rounding, data: Bytes) returns (r: Result<Value, What>)
    requires Rounds(rd)
    ensures Bounded(Standard(rd)) && (r.Ok? <==> ParseJson(Standard(rd), data).Ok?)
    ensures r.Ok? ==> r == ParseJson(Standard(rd), data)
  {
    StandardIsBounded(rd);
    var p := new Parser(rd, data);
    p.SkipWS();
    r := p.ParseValue();
    if r.Err? {
      return;
    }
    p.SkipWS();
    if p.pos != |data| {
      r := Err(DataAfterValue);
    }
  }

  /** Where the next item begins after a comma that follows pos. */
  function NextStart(data: Bytes, pos: nat): (n: nat)
    requires pos <= |data|
    ensures n <= |data|
  {
    var sep := SkipSpace(data, pos);
    if sep == |data| then |data| else SkipSpace(data, sep + 1)
  }

  /** What an answer is when its first parts end at pos: rest follows a comma, nothing follows the closing byte. */
  ghost predicate Splits<T>(
    data: Bytes, pos: nat, close: byte, parts: seq<T>, whole: Result<Parsed<seq<T>>, What>, rest: Result<Parsed<seq<T>>, What>)
    requires pos <= |data|
  {
    var sep := SkipSpace(data, pos);
    if sep < |data| && data[sep] == COMMA then Continues(parts, whole, rest)
    else if sep < |data| && data[sep] == close then whole == Ok(Parsed(parts, sep + 1))
    else whole.Err?
  }

  lemma {:induction false} ItemsStep(lx: Atoms, data: Bytes, pos: nat, depth: nat)
    requires Bounded(lx) && pos <= |data|
    ensures var v := ReadValue(lx, data, pos, depth);
      if v.Err? then ReadItems(lx, data, pos, depth).Err?
      else
        && v.value.next <= |data|
        && Splits(data, v.value.next, CLOSE_BRACKET, [v.value.v], ReadItems(lx, data, pos, depth),
                  ReadItems(lx, data, NextStart(data, v.value.next), depth))
  {
  }

  lemma {:induction false} MembersStep(lx: Atoms, data: Bytes, pos: nat, depth: nat)
    requires Bounded(lx) && pos <= |data|
    ensures var m := ReadMember(lx, data, pos, depth);
      if m.Err? then ReadMembers(lx, data, pos, depth).Err?
      else
        && m.value.next <= |data|
        && Splits(data, m.value.next, CLOSE_BRACE, [m.value.v], ReadMembers(lx, data, pos, depth),
                  ReadMembers(lx, data, NextStart(data, m.value.next), depth))
  {
  }

  lemma {:induction false} ContinuesMore<T>(
    data: Bytes, pos: nat, close: byte, acc: seq<T>, whole: Result<Parsed<seq<T>>, What>,
    here: Result<Parsed<seq<T>>, What>, x: T, rest: Result<Parsed<seq<T>>, What>)
    requires pos <= |data| && Continues(acc, whole, here)
    ensures Splits(data, pos, close, [x], here, rest) ==> Splits(data, pos, close, acc + [x], whole, rest)
  {
    if rest.Ok? {
      assert acc + ([x] + rest.value.v) == acc + [x] + rest.value.v;
    }
  }

  lemma {:induction false} CollectSnoc(ms: seq<Member>, m: Member)
    requires m.name !in Collect(ms)
    ensures Collect(ms + [m]) == Collect(ms)[m.name := m.v]
    ensures Distinct(ms) ==> Distinct(ms + [m])
  {
    assert (ms + [m])[..|ms|] == ms;
    if Distinct(ms) {
      CollectOf(ms);
      forall i, j | 0 <= i < j < |ms + [m]| ensures (ms + [m])[i].name != (ms + [m])[j].name {
        if j == |ms| { assert ms[i].name in Collect(ms); }
      }
    }
  }

  /** A repeated name spoils the object, whatever follows. */
  lemma {:induction false} DuplicateSinks(
    data: Bytes, pos: nat, ms: seq<Member>, m: Member, whole: Result<Parsed<seq<Member>>, What>,
    rest: Result<Parsed<seq<Member>>, What>)
    requires pos <= |data| && m.name in Collect(ms)
    ensures Distinct(ms) && Splits(data, pos, CLOSE_BRACE, ms + [m], whole, rest) ==> ObjectOf(whole).Err?
  {
    if Distinct(ms) && Splits(data, pos, CLOSE_BRACE, ms + [m], whole, rest) && whole.Ok? {
      CollectOf(ms);
      var i :| 0 <= i < |ms| && ms[i].name == m.name;
      assert whole.value.v[i] == ms[i] && whole.value.v[|ms|] == m;
    }
  }

  /** The answer from an earlier point is the answer from here, after the items in acc. */
  ghost predicate Continues<T>(
    acc: seq<T>, whole: Result<Parsed<seq<T>>, What>, rest: Result<Parsed<seq<T>>, What>)
  {
    && (whole.Ok? <==> rest.Ok?)
    && (whole.Ok? ==> whole.value.v == acc + rest.value.v && whole.value.next == rest.value.next)
  }

  /** A digit that is none ends the number. */
  lemma {:induction false} HexStops(data: Bytes, pos: nat, i: nat, n: nat)
    requires i < n <= 4 && pos + n <= |data| && HexValue(data[pos + i]).None?
    ensures Hex(data, pos, n) == None
    decreases n
  {
    if i + 1 < n { HexStops(data, pos, i, n - 1); }
  }

  lemma {:induction false} PrependNone(r: Result<Parsed<Bytes>, What>)
    ensures Prepend([], r) == r
  {
    if r.Ok? { assert [] + r.value.v == r.value.v; }
  }

  lemma {:induction false} PrependTwice(a: Bytes, b: Bytes, r: Result<Parsed<Bytes>, What>)
    ensures Prepend(a, Prepend(b, r)) == Prepend(a + b, r)
  {
    if r.Ok? { assert a + (b + r.value.v) == a + b + r.value.v; }
  }
}
