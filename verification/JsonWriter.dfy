/** The canonical JSON writer as it runs, into a buffer. */
module JsonWriter {
  // It appends to a buffer, and can leave out one top-level member.

  import opened Octets
  import Utf8
  import opened JsonText
  import opened JsonNumbers
  import opened JsonPrint
  import opened Json
  import opened JsonParse
  import JsonReader

  /** names without skip; an empty skip leaves out nothing. */
  function Without(names: seq<Bytes>, skip: Bytes): seq<Bytes>
  {
    if names == [] then []
    else if skip != [] && names[0] == skip then Without(names[1..], skip)
    else [names[0]] + Without(names[1..], skip)
  }

  /** v without its member skip, when it is an object and skip is not empty. */
  function Skipping(v: Value, skip: Bytes): Value
  {
    if v.Obj? && skip != [] then Obj(v.members - {skip}) else v
  }

  lemma {:induction false} WithoutIs(names: seq<Bytes>, skip: Bytes)
    ensures forall k :: k in Without(names, skip) <==> k in names && (skip == [] || k != skip)
    ensures Ascending(names) ==> Ascending(Without(names, skip))
    decreases |names|
  {
    if names != [] {
      WithoutIs(names[1..], skip);
      if Ascending(names) {
        AscendingTail(names);
        var rest := Without(names[1..], skip);
        var all := [names[0]] + rest;
        forall i, j | 0 <= i < j < |all| ensures NameLess(all[i], all[j]) {
          if i == 0 {
            assert all[j] in rest;
            var n :| 0 <= n < |names[1..]| && names[1..][n] == all[j];
            assert NameLess(names[0], names[n + 1]);
          } else {
            assert NameLess(rest[i - 1], rest[j - 1]);
          }
        }
      }
    }
  }

  /** Leaving a name out of the sorted list gives the sorted list of the rest. */
  lemma {:induction false} SortedWithout(keys: set<Bytes>, skip: Bytes)
    requires ValidNames(keys)
    ensures Without(Sorted(keys), skip) == Sorted(if skip == [] then keys else keys - {skip})
  {
    var names := Sorted(keys);
    SortedIsAscending(keys);
    WithoutIs(names, skip);
    var kept := Without(names, skip);
    var left := if skip == [] then keys else keys - {skip};
    forall k ensures k in NameSet(kept) <==> k in left {
      assert k in NameSet(names) <==> k in keys;
    }
    assert NameSet(kept) == left;
    AscendingIsSorted(kept);
  }

  /** Members as the loop writes them: a comma before every one but the first. */
  ghost function Run(lx: Atoms, v: Value, names: seq<Bytes>, first: bool): Bytes
    requires Named(v) && NamesOf(v, names)
  {
    if names == [] then []
    else (if first then [] else [COMMA]) + (PrintMember(lx, v, names[0]) + Run(lx, v, names[1..], false))
  }

  lemma {:induction false} RunIsMembers(lx: Atoms, v: Value, names: seq<Bytes>)
    requires Named(v) && NamesOf(v, names)
    ensures Run(lx, v, names, true) == PrintMembers(lx, v, names)
    ensures names != [] ==> Run(lx, v, names, false) == [COMMA] + PrintMembers(lx, v, names)
    decreases |names|
  {
    if names != [] { RunIsMembers(lx, v, names[1..]); }
  }

  /** Members of an object print the same in the object with fewer members. */
  lemma {:induction false} FewerMembers(lx: Atoms, v: Value, w: Value, names: seq<Bytes>)
    requires Named(v) && Named(w) && NamesOf(v, names) && NamesOf(w, names)
    requires forall k | k in names :: v.members[k] == w.members[k]
    ensures PrintMembers(lx, v, names) == PrintMembers(lx, w, names)
    decreases |names|
  {
    if names != [] {
      assert PrintMember(lx, v, names[0]) == PrintMember(lx, w, names[0]);
      FewerMembers(lx, v, w, names[1..]);
    }
  }

  lemma {:induction false} SkippingPrints(lx: Atoms, v: Value, skip: Bytes)
    requires Named(v) && v.Obj?
    ensures Named(Skipping(v, skip))
    ensures var names := Without(Sorted(v.members.Keys), skip);
      && NamesOf(v, names)
      && Print(lx, Skipping(v, skip)) == [OPEN_BRACE] + (PrintMembers(lx, v, names) + [CLOSE_BRACE])
  {
    var names := Without(Sorted(v.members.Keys), skip);
    var w := Skipping(v, skip);
    SortedWithout(v.members.Keys, skip);
    assert w.members.Keys == if skip == [] then v.members.Keys else v.members.Keys - {skip};
    SortedIsAscending(w.members.Keys);
    assert names == Sorted(w.members.Keys);
    assert forall k | k in names :: k in NameSet(names);
    FewerMembers(lx, v, w, names);
  }

  class Writer {
    const rd: Rounding
    var buf: Bytes

    constructor (rd: Rounding)
      ensures this.rd == rd && buf == []
    {
      this.rd, buf := rd, [];
    }

    method WriteString(s: Bytes)
      modifies this
      ensures buf == old(buf) + PrintString(s)
    {
      buf := buf + [QUOTE];
      for i := 0 to |s|
        invariant buf + (EscapeAll(s[i..]) + [QUOTE]) == old(buf) + PrintString(s)
      {
        var c := s[i];
        assert s[i..][1..] == s[i + 1..];
        assert EscapeAll(s[i..]) == Escape(c) + EscapeAll(s[i + 1..]);
        Regroup(buf, Escape(c), EscapeAll(s[i + 1..]), [QUOTE]);
        buf := buf + Escape(c);
      }
      assert s[|s|..] == [];
      buf := buf + [QUOTE];
    }

    /** The names in UTF-16 order, by repeated choice of the least. */
    method SortedNames(keys: set<Bytes>) returns (names: seq<Bytes>)
      requires ValidNames(keys)
      ensures names == Sorted(keys)
    {
      names := [];
      var rest := keys;
      while rest != {}
        invariant ValidNames(rest) && names + Sorted(rest) == Sorted(keys)
        decreases rest
      {
        var k := LeastName(rest);
        assert names + ([k] + Sorted(rest - {k})) == names + [k] + Sorted(rest - {k});
        names := names + [k];
        rest := rest - {k};
      }
    }

    method LeastName(keys: set<Bytes>) returns (k: Bytes)
      requires keys != {} && ValidNames(keys)
      ensures k == Least(keys)
    {
      k :| k in keys;
      var rest := keys - {k};
      while rest != {}
        invariant rest <= keys && k in keys - rest
        invariant forall j | j in keys - rest && j != k :: NameLess(k, j)
        decreases rest
      {
        var j :| j in rest;
        NamesTotal(k, j);
        if NameLess(j, k) {
          forall x | x in keys - rest && x != j ensures NameLess(j, x) {
            if x != k { LowerTransitive(Units(j), Units(k), Units(x)); }
          }
          k := j;
        }
        rest := rest - {j};
      }
      LeastIsUnique(keys, k, Least(keys));
    }

    /** Appends the canonical form of v, without its member skipTop when that is not empty. */
    method WriteCanonical(v: Value, skipTop: Bytes)
      requires Named(v)
      modifies this
      ensures Named(Skipping(v, skipTop)) && buf == old(buf) + Print(Standard(rd), Skipping(v, skipTop))
      decreases v, 1
    {
      match v
      case Null => buf := buf + WORD_NULL;
      case Bool(b) => buf := buf + if b then WORD_TRUE else WORD_FALSE;
      case Number(f) => buf := buf + FormatNumber(f);
      case Str(s) => WriteString(s);
      case Arr(_) => WriteArray(v);
      case Obj(_) => WriteObject(v, skipTop);
    }

    method WriteArray(v: Value)
      requires v.Arr? && Named(v)
      modifies this
      ensures buf == old(buf) + Print(Standard(rd), v)
      decreases v, 0, 2
    {
      buf := buf + [OPEN_BRACKET];
      WriteItems(v);
      Bracketed(old(buf), OPEN_BRACKET, ItemsText(Standard(rd), v, 0), CLOSE_BRACKET);
      buf := buf + [CLOSE_BRACKET];
    }

    method WriteItems(v: Value)
      requires v.Arr? && Named(v)
      modifies this
      ensures buf == old(buf) + ItemsText(Standard(rd), v, 0)
      decreases v, 0, 0
    {
      ghost var lx := Standard(rd);
      for i := 0 to |v.items|
        invariant i < |v.items| ==>
          buf + (if i == 0 then [] else [COMMA]) + ItemsText(lx, v, i) == old(buf) + ItemsText(lx, v, 0)
        invariant i == |v.items| ==> buf == old(buf) + ItemsText(lx, v, 0)
      {
        if i > 0 {
          buf := buf + [COMMA];
        }
        ghost var before := buf;
        WriteCanonical(v.items[i], []);
        ItemWritten(lx, v, i, before, buf);
      }
    }

    method WriteObject(v: Value, skipTop: Bytes)
      requires v.Obj? && Named(v)
      modifies this
      ensures Named(Skipping(v, skipTop)) && buf == old(buf) + Print(Standard(rd), Skipping(v, skipTop))
      decreases v, 0, 3
    {
      ghost var lx := Standard(rd);
      SkippingPrints(lx, v, skipTop);
      buf := buf + [OPEN_BRACE];
      WriteMembers(v, skipTop);
      Bracketed(old(buf), OPEN_BRACE, PrintMembers(lx, v, Without(Sorted(v.members.Keys), skipTop)), CLOSE_BRACE);
      buf := buf + [CLOSE_BRACE];
    }

    method WriteMembers(v: Value, skipTop: Bytes)
      requires v.Obj? && Named(v) && NamesOf(v, Without(Sorted(v.members.Keys), skipTop))
      modifies this
      ensures buf == old(buf) + MembersText(Standard(rd), v, Without(Sorted(v.members.Keys), skipTop))
      decreases v, 0, 2
    {
      ghost var lx := Standard(rd);
      var names := SortedNames(v.members.Keys);
      ghost var kept := Without(names, skipTop);
      SortedAreNames(v);
      var first := true;
      assert names[0..] == names;
      for i := 0 to |names|
        invariant NamesOf(v, Without(names[i..], skipTop))
        invariant buf + Run(lx, v, Without(names[i..], skipTop), first) == old(buf) + Run(lx, v, kept, true)
      {
        assert names[i..] == [names[i]] + names[i + 1..];
        first := WriteMember(v, names[i], skipTop, first, names[i + 1..]);
      }
      RunIsMembers(lx, v, kept);
    }

    /** One turn of the member loop: nothing for the skipped name. */
    method WriteMember(v: Value, k: Bytes, skipTop: Bytes, first: bool, ghost rest: seq<Bytes>) returns (still: bool)
      requires v.Obj? && Named(v) && k in v.members && NamesOf(v, Without([k] + rest, skipTop))
      modifies this
      ensures NamesOf(v, Without(rest, skipTop))
      ensures buf + Run(Standard(rd), v, Without(rest, skipTop), still)
              == old(buf) + Run(Standard(rd), v, Without([k] + rest, skipTop), first)
      decreases v, 0, 1
    {
      ghost var lx := Standard(rd);
      assert ([k] + rest)[1..] == rest;
      if skipTop != [] && k == skipTop {
        return first;
      }
      ghost var left := Without(rest, skipTop);
      assert ([k] + left)[1..] == left;
      assert forall j | j in left :: j in [k] + left;
      if !first {
        buf := buf + [COMMA];
      }
      WriteNamed(v, k);
      still := false;
      MemberWritten(old(buf), if first then [] else [COMMA], PrintMember(lx, v, k), Run(lx, v, left, false));
    }

    method WriteNamed(v: Value, k: Bytes)
      requires v.Obj? && Named(v) && k in v.members
      modifies this
      ensures buf == old(buf) + PrintMember(Standard(rd), v, k)
      decreases v, 0, 0
    {
      WriteString(k);
      buf := buf + [COLON];
      WriteCanonical(v.members[k], []);
      ThreeWritten(old(buf), PrintString(k), [COLON], Print(Standard(rd), v.members[k]));
    }
  }

  lemma {:induction false} SortedAreNames(v: Value)
    requires v.Obj? && Named(v)
    ensures forall i | 0 <= i < |Sorted(v.members.Keys)| :: Sorted(v.members.Keys)[i] in v.members
  {
    var names := Sorted(v.members.Keys);
    SortedIsAscending(v.members.Keys);
    forall i | 0 <= i < |names| ensures names[i] in v.members {
      assert names[i] in NameSet(names);
    }
  }

  lemma {:induction false} Regroup(a: Bytes, b: Bytes, c: Bytes, d: Bytes)
    ensures a + ((b + c) + d) == (a + b) + (c + d)
  {
  }

  lemma {:induction false} ThreeWritten(a: Bytes, b: Bytes, c: Bytes, d: Bytes)
    ensures a + b + c + d == a + (b + (c + d))
  {
  }

  lemma {:induction false} MemberWritten(a: Bytes, comma: Bytes, m: Bytes, rest: Bytes)
    ensures (a + comma) + m + rest == a + (comma + (m + rest))
  {
  }

  lemma {:induction false} Bracketed(a: Bytes, open: byte, text: Bytes, close: byte)
    ensures a + [open] + text + [close] == a + ([open] + (text + [close]))
  {
  }

  lemma {:induction false} ItemWritten(lx: Atoms, v: Value, i: nat, before: Bytes, after: Bytes)
    requires v.Arr? && Named(v) && i < |v.items| && after == before + Print(lx, v.items[i])
    ensures i + 1 < |v.items| ==> after + [COMMA] + ItemsText(lx, v, i + 1) == before + ItemsText(lx, v, i)
    ensures i + 1 == |v.items| ==> after == before + ItemsText(lx, v, i)
  {
    if i + 1 < |v.items| {
      assert before + Print(lx, v.items[i]) + [COMMA] + PrintItems(lx, v, i + 1)
             == before + (Print(lx, v.items[i]) + ([COMMA] + PrintItems(lx, v, i + 1)));
    }
  }

  /** The canonical form of one JSON text, or an error. */
  method CanonicalBytes(rd: Rounding, data: Bytes) returns (r: Result<Bytes, What>)
    requires Rounds(rd)
    ensures Lawful(Standard(rd)) && (r.Ok? <==> Canonicalize(Standard(rd), data).Ok?)
    ensures r.Ok? ==> r == Canonicalize(Standard(rd), data)
  {
    StandardIsLawful(rd);
    var v := JsonReader.ParseBytes(rd, data);
    if v.Err? {
      return Err(v.error);
    }
    ParsableFits(Standard(rd), data);
    var w := new Writer(rd);
    w.WriteCanonical(v.value, []);
    assert w.buf == Print(Standard(rd), v.value);
    r := Ok(w.buf);
  }
}
