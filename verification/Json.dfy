/** Strings and numbers as they are satisfy what the parser and the printer are proved over. */
module Json {
  import opened Octets
  import Utf8
  import opened JsonText
  import opened JsonNumbers
  import opened JsonPrint
  import opened JsonParse

  /**
   Decimal to binary64 and back: round gives the shortest decimal that names the binary64 value nearest to d
   (ties as IEEE 754 says), or None when that value is infinite.
   */
  datatype Rounding = Rounding(round: Dec -> Option<Dec>)

  /** The shortest decimal of a binary64 value is normal and names that value, and zero is zero. */
  ghost predicate Rounds(rd: Rounding)
  {
    && (forall d :: rd.round(d).Some? ==> Normal(rd.round(d).value) && rd.round(rd.round(d).value) == rd.round(d))
    && rd.round(Dec(false, 0, 0)) == Some(Dec(false, 0, 0))
  }

  function ReadNumber(rd: Rounding, data: Bytes, pos: nat): Result<Parsed<Dec>, What>
  {
    if pos >= |data| then Err(UnexpectedEnd)
    else
      match NumberAt(data, pos)
      case Err(e) => Err(e)
      case Ok(p) => Rounded(rd, p)
  }

  function Rounded(rd: Rounding, p: Parsed<Token>): Result<Parsed<Dec>, What>
    requires TokenOk(p.v)
  {
    match rd.round(TokenValue(p.v))
    case None => Err(OutOfRange)
    case Some(f) => Ok(Parsed(f, p.next))
  }

  function ReadString(data: Bytes, pos: nat): Result<Parsed<Bytes>, What>
  {
    CharsAt(data, pos + 1)
  }

  predicate IsBinary64(rd: Rounding, f: Dec) { Normal(f) && rd.round(f) == Some(f) }

  /** The spelling of RFC 8785. */
  function Standard(rd: Rounding): Atoms
  {
    Atoms(
      f => FormatNumber(f), s => PrintString(s),
      (data: Bytes, pos: nat) => ReadNumber(rd, data, pos), (data: Bytes, pos: nat) => ReadString(data, pos),
      f => IsBinary64(rd, f), s => GoodString(s))
  }

  lemma {:induction false} StandardIsBounded(rd: Rounding)
    ensures Bounded(Standard(rd))
  {
    var lx := Standard(rd);
    forall data: Bytes, pos: nat | lx.readNumber(data, pos).Ok?
      ensures pos < lx.readNumber(data, pos).value.next <= |data|
    {
      assert lx.readNumber(data, pos) == ReadNumber(rd, data, pos);
    }
    forall data: Bytes, pos: nat | lx.readString(data, pos).Ok?
      ensures pos < lx.readString(data, pos).value.next <= |data|
    {
      assert lx.readString(data, pos) == ReadString(data, pos);
    }
  }

  lemma {:induction false} GoodIsValid(s: Bytes)
    requires GoodString(s)
    ensures Utf8.Valid(s)
    decreases |s|
  {
    if s != [] { GoodIsValid(s[Utf8.First(s).value.1..]); }
  }

  lemma {:induction false} ReadNumberIsGood(rd: Rounding, data: Bytes, pos: nat)
    requires Rounds(rd) && ReadNumber(rd, data, pos).Ok?
    ensures IsBinary64(rd, ReadNumber(rd, data, pos).value.v)
  {
  }

  lemma {:induction false} StandardReadsGood(rd: Rounding)
    requires Rounds(rd)
    ensures ReadsGood(Standard(rd))
  {
    var lx := Standard(rd);
    forall data: Bytes, pos: nat | lx.readNumber(data, pos).Ok? ensures lx.goodNumber(lx.readNumber(data, pos).value.v) {
      ReadNumberIsGood(rd, data, pos);
    }
    forall data: Bytes, pos: nat | lx.readString(data, pos).Ok? ensures lx.goodString(lx.readString(data, pos).value.v) {
      ParsedStringIsGood(data, pos + 1);
    }
    forall s | lx.goodString(s) ensures Utf8.Valid(s) {
      GoodIsValid(s);
    }
  }

  lemma {:induction false} FormatStarts(f: Dec)
    ensures FormatNumber(f) != [] && NumberByte(FormatNumber(f)[0])
  {
    LayoutIsToken(f);
    var t := Layout(f);
    assert FormatNumber(f)[0] == if t.neg then MINUS else t.ints[0];
  }

  lemma {:induction false} UnsignedIsGood(rd: Rounding, f: Dec)
    requires Rounds(rd) && IsBinary64(rd, f)
    ensures IsBinary64(rd, Unsigned(f)) && FormatNumber(Unsigned(f)) == FormatNumber(f)
  {
  }

  lemma {:induction false} NumberReadsBack(rd: Rounding, f: Dec, data: Bytes, pos: nat)
    requires Rounds(rd) && IsBinary64(rd, f)
    requires At(data, pos, FormatNumber(f)) && Ends(data, pos + |FormatNumber(f)|)
    ensures ReadNumber(rd, data, pos) == Ok(Parsed(Unsigned(f), pos + |FormatNumber(f)|))
  {
    UnsignedIsGood(rd, f);
    NumberRoundTrip(data, pos, f);
  }

  lemma {:induction false} StringReadsBack(s: Bytes, data: Bytes, pos: nat)
    requires GoodString(s) && At(data, pos, PrintString(s))
    ensures ReadString(data, pos) == Ok(Parsed(s, pos + |PrintString(s)|))
  {
    AtSplit(data, pos, [QUOTE], EscapeAll(s) + [QUOTE]);
    StringRoundTrip(data, pos + 1, s);
  }

  lemma {:induction false} StandardSpellsLeaves(rd: Rounding)
    requires Rounds(rd)
    ensures SpellsLeaves(Standard(rd))
  {
    var lx := Standard(rd);
    forall f | lx.goodNumber(f) ensures
      && lx.printNumber(f) != [] && NumberByte(lx.printNumber(f)[0])
      && lx.goodNumber(Unsigned(f)) && lx.printNumber(Unsigned(f)) == lx.printNumber(f)
    {
      FormatStarts(f);
      UnsignedIsGood(rd, f);
    }
  }

  lemma {:induction false} ComesBackWhen(
    lx: Atoms, f: Dec, data: Bytes, pos: nat, text: Bytes, read: Result<Parsed<Dec>, What>)
    requires lx.printNumber(f) == text && lx.readNumber(data, pos) == read
    requires lx.goodNumber(f) && At(data, pos, text) && Ends(data, pos + |text|)
             ==> read == Ok(Parsed(Unsigned(f), pos + |text|))
    ensures NumberComesBack(lx, f, data, pos)
  {
  }

  lemma {:induction false} StandardNumberComesBack(rd: Rounding, f: Dec, data: Bytes, pos: nat)
    requires Rounds(rd)
    ensures NumberComesBack(Standard(rd), f, data, pos)
  {
    var text := FormatNumber(f);
    if IsBinary64(rd, f) && At(data, pos, text) && Ends(data, pos + |text|) {
      NumberReadsBack(rd, f, data, pos);
    }
    ComesBackWhen(Standard(rd), f, data, pos, text, ReadNumber(rd, data, pos));
  }

  lemma {:induction false} StandardStringComesBack(rd: Rounding, s: Bytes, data: Bytes, pos: nat)
    ensures StringComesBack(Standard(rd), s, data, pos)
  {
    if GoodString(s) && At(data, pos, PrintString(s)) {
      StringReadsBack(s, data, pos);
    }
  }

  lemma {:induction false} StandardReadsBack(rd: Rounding)
    requires Rounds(rd)
    ensures ReadsBack(Standard(rd))
  {
    forall f: Dec, data: Bytes, pos: nat ensures NumberComesBack(Standard(rd), f, data, pos) {
      StandardNumberComesBack(rd, f, data, pos);
    }
    forall s: Bytes, data: Bytes, pos: nat ensures StringComesBack(Standard(rd), s, data, pos) {
      StandardStringComesBack(rd, s, data, pos);
    }
  }

  /** The laws that the round trip rests on hold of the real escapes, digits and layout. */
  lemma {:induction false} StandardIsLawful(rd: Rounding)
    requires Rounds(rd)
    ensures Lawful(Standard(rd))
  {
    StandardIsBounded(rd);
    StandardReadsGood(rd);
    StandardSpellsLeaves(rd);
    StandardReadsBack(rd);
  }
}
