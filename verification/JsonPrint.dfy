/** JSON values and their canonical form (RFC 8785). */
module JsonPrint {
  // Sorted member names, no whitespace, one spelling each.

  import opened Octets
  import Utf8
  import opened JsonText
  import opened JsonNumbers

  datatype Value =
    | Null | Bool(b: bool) | Number(f: Dec) | Str(s: Bytes)
    | Arr(items: seq<Value>) | Obj(members: map<Bytes, Value>)

  // ---- the order of names ----

  function UnitsOfRune(r: Utf8.Rune): seq<nat>
  {
    if r < 0x1_0000 then [r] else [0xD800 + (r - 0x1_0000) / 0x400, 0xDC00 + (r - 0x1_0000) % 0x400]
  }

  function UnitsOfRunes(rs: seq<Utf8.Rune>): seq<nat>
  {
    if rs == [] then [] else UnitsOfRune(rs[0]) + UnitsOfRunes(rs[1..])
  }

  /** The UTF-16 code units of a name. */
  function Units(name: Bytes): seq<nat>
  {
    match Utf8.Decode(name)
    case None => []
    case Some(rs) => UnitsOfRunes(rs)
  }

  predicate Lower(a: seq<nat>, b: seq<nat>)
  {
    b != [] && (a == [] || a[0] < b[0] || (a[0] == b[0] && Lower(a[1..], b[1..])))
  }

  predicate NameLess(a: Bytes, b: Bytes) { Lower(Units(a), Units(b)) }

  lemma {:induction false} LowerTotal(a: seq<nat>, b: seq<nat>)
    ensures (Lower(a, b) || a == b || Lower(b, a)) && !(Lower(a, b) && Lower(b, a)) && !Lower(a, a)
    decreases |a|
  {
    if a != [] && b != [] {
      LowerTotal(a[1..], b[1..]);
      LowerTotal(a[1..], a[1..]);
      if a[0] == b[0] && a[1..] == b[1..] { assert a == [a[0]] + a[1..] == b; }
    } else if a != [] {
      LowerTotal(a[1..], a[1..]);
    }
  }

  lemma {:induction false} LowerTransitive(a: seq<nat>, b: seq<nat>, c: seq<nat>)
    requires Lower(a, b) && Lower(b, c)
    ensures Lower(a, c)
    decreases |a|
  {
    if a != [] && a[0] == b[0] && b[0] == c[0] { LowerTransitive(a[1..], b[1..], c[1..]); }
  }

  lemma {:induction false} UnitsOfRunesInjective(a: seq<Utf8.Rune>, b: seq<Utf8.Rune>)
    requires (forall r | r in a :: Utf8.Scalar(r)) && (forall r | r in b :: Utf8.Scalar(r))
    requires UnitsOfRunes(a) == UnitsOfRunes(b)
    ensures a == b
    decreases |a|
  {
    if a != [] && b != [] {
      FirstUnits(a[0], UnitsOfRunes(a[1..]), b[0], UnitsOfRunes(b[1..]));
      UnitsOfRunesInjective(a[1..], b[1..]);
      assert a == [a[0]] + a[1..] && b == [b[0]] + b[1..];
    }
  }

  lemma {:induction false} FirstUnits(a: Utf8.Rune, x: seq<nat>, b: Utf8.Rune, y: seq<nat>)
    requires Utf8.Scalar(a) && Utf8.Scalar(b) && UnitsOfRune(a) + x == UnitsOfRune(b) + y
    ensures a == b && x == y
  {
    var s := UnitsOfRune(a) + x;
    assert s[0] == UnitsOfRune(a)[0] && s[0] == UnitsOfRune(b)[0];
    assert |UnitsOfRune(a)| == |UnitsOfRune(b)|;
    AppendCancel(UnitsOfRune(a), x, UnitsOfRune(b), y);
  }

  lemma {:induction false} UnitsInjective(a: Bytes, b: Bytes)
    requires Utf8.Valid(a) && Utf8.Valid(b) && Units(a) == Units(b)
    ensures a == b
  {
    Utf8.EncodeAllOfDecode(a);
    Utf8.EncodeAllOfDecode(b);
    UnitsOfRunesInjective(Utf8.Decode(a).value, Utf8.Decode(b).value);
  }

  /** Valid names are totally ordered. */
  lemma {:induction false} NamesTotal(a: Bytes, b: Bytes)
    requires Utf8.Valid(a) && Utf8.Valid(b)
    ensures NameLess(a, b) || a == b || NameLess(b, a)
  {
    LowerTotal(Units(a), Units(b));
    if Units(a) == Units(b) { UnitsInjective(a, b); }
  }

  predicate ValidNames(keys: set<Bytes>)
  {
    forall k | k in keys :: Utf8.Valid(k)
  }

  ghost predicate IsLeast(keys: set<Bytes>, k: Bytes)
  {
    k in keys && forall j | j in keys && j != k :: NameLess(k, j)
  }

  lemma {:induction false} LeastExists(keys: set<Bytes>) returns (k: Bytes)
    requires keys != {} && ValidNames(keys)
    ensures IsLeast(keys, k)
    decreases |keys|
  {
    var x :| x in keys;
    var rest := keys - {x};
    assert forall j | j in keys :: j == x || j in rest;
    if rest == {} {
      k := x;
    } else {
      var y := LeastExists(rest);
      NamesTotal(x, y);
      if NameLess(x, y) {
        k := x;
        forall j | j in keys && j != x ensures NameLess(x, j) {
          if j != y { LowerTransitive(Units(x), Units(y), Units(j)); }
        }
      } else {
        k := y;
      }
    }
  }

  lemma {:induction false} LeastIsUnique(keys: set<Bytes>, a: Bytes, b: Bytes)
    requires IsLeast(keys, a) && IsLeast(keys, b)
    ensures a == b
  {
    if a != b { LowerTotal(Units(a), Units(b)); }
  }

  ghost function Least(keys: set<Bytes>): (k: Bytes)
    requires keys != {} && ValidNames(keys)
    ensures IsLeast(keys, k)
  {
    assert exists k :: IsLeast(keys, k) by { var k := LeastExists(keys); }
    var k :| IsLeast(keys, k); k
  }

  /** The names in ascending order. */
  ghost function Sorted(keys: set<Bytes>): (names: seq<Bytes>)
    requires ValidNames(keys)
    decreases |keys|
  {
    if keys == {} then [] else [Least(keys)] + Sorted(keys - {Least(keys)})
  }

  predicate Ascending(names: seq<Bytes>)
  {
    forall i, j | 0 <= i < j < |names| :: NameLess(names[i], names[j])
  }

  function NameSet(names: seq<Bytes>): set<Bytes> { set k | k in names }

  lemma {:induction false} SortedIsAscending(keys: set<Bytes>)
    requires ValidNames(keys)
    ensures NameSet(Sorted(keys)) == keys && Ascending(Sorted(keys))
    decreases |keys|
  {
    if keys != {} {
      var k := Least(keys);
      var rest := Sorted(keys - {k});
      SortedIsAscending(keys - {k});
      NamesCons(k, rest);
      AscendingCons(k, rest);
    }
  }

  lemma {:induction false} NamesCons(k: Bytes, rest: seq<Bytes>)
    ensures NameSet([k] + rest) == {k} + NameSet(rest)
  {
  }

  lemma {:induction false} AscendingCons(k: Bytes, rest: seq<Bytes>)
    requires Ascending(rest) && forall j | j in NameSet(rest) :: NameLess(k, j)
    ensures Ascending([k] + rest)
  {
    var names := [k] + rest;
    forall i, j | 0 <= i < j < |names| ensures NameLess(names[i], names[j]) {
      assert names[j] == rest[j - 1] && rest[j - 1] in NameSet(rest);
      if i > 0 { assert NameLess(rest[i - 1], rest[j - 1]); }
    }
  }

  /** There is one ascending list of a set of names. */
  lemma {:induction false} AscendingIsSorted(names: seq<Bytes>)
    requires Ascending(names) && ValidNames(NameSet(names))
    ensures names == Sorted(NameSet(names))
    decreases |names|
  {
    if names != [] {
      var keys, k, rest := NameSet(names), names[0], names[1..];
      AscendingTail(names);
      FirstIsLeast(names);
      LeastIsUnique(keys, k, Least(keys));
      AscendingIsSorted(rest);
      assert names == [k] + rest;
    }
  }

  lemma {:induction false} FirstIsLeast(names: seq<Bytes>)
    requires Ascending(names) && names != []
    ensures IsLeast(NameSet(names), names[0])
  {
    forall j | j in NameSet(names) && j != names[0] ensures NameLess(names[0], j) {
      var i :| 0 <= i < |names| && names[i] == j;
    }
  }

  lemma {:induction false} AscendingTail(names: seq<Bytes>)
    requires Ascending(names) && names != []
    ensures Ascending(names[1..]) && NameSet(names[1..]) == NameSet(names) - {names[0]}
  {
    var k, rest := names[0], names[1..];
    forall i, j | 0 <= i < j < |rest| ensures NameLess(rest[i], rest[j]) {
      assert NameLess(names[i + 1], names[j + 1]);
    }
    if k in rest {
      var i :| 0 <= i < |rest| && rest[i] == k;
      assert NameLess(names[0], names[i + 1]);
      LowerTotal(Units(k), Units(k));
    }
    assert forall x :: x in names <==> x == k || x in rest;
  }

  // ---- the order, character by character ----

  /**
   Which of two different characters comes first: by number, except that those from U+E000 to U+FFFF come after the
   ones past U+FFFF, whose first code unit is a surrogate.
   */
  predicate RuneBefore(a: Utf8.Rune, b: Utf8.Rune)
  {
    if a < 0x1_0000 <= b then a < 0xD800 else if b < 0x1_0000 <= a then b >= 0xE000 else a < b
  }

  lemma {:induction false} LowerAfter(p: seq<nat>, a: seq<nat>, b: seq<nat>)
    ensures Lower(p + a, p + b) <==> Lower(a, b)
    decreases |p|
  {
    if p == [] {
      assert p + a == a && p + b == b;
    } else {
      LowerAfter(p[1..], a, b);
      assert (p + a)[1..] == p[1..] + a && (p + b)[1..] == p[1..] + b;
    }
  }

  lemma {:induction false} UnitsConcat(a: seq<Utf8.Rune>, b: seq<Utf8.Rune>)
    ensures UnitsOfRunes(a + b) == UnitsOfRunes(a) + UnitsOfRunes(b)
    decreases |a|
  {
    if a == [] {
      assert a + b == b;
    } else {
      UnitsConcat(a[1..], b);
      assert (a + b)[1..] == a[1..] + b;
    }
  }

  /** Names that first differ in the characters a and b are ordered as those are. */
  lemma {:induction false} OrderedByFirstDifference(
    p: seq<Utf8.Rune>, a: Utf8.Rune, x: seq<Utf8.Rune>, b: Utf8.Rune, y: seq<Utf8.Rune>)
    requires Utf8.Scalar(a) && Utf8.Scalar(b) && a != b
    ensures Lower(UnitsOfRunes(p + ([a] + x)), UnitsOfRunes(p + ([b] + y))) <==> RuneBefore(a, b)
  {
    UnitsConcat(p, [a] + x);
    UnitsConcat(p, [b] + y);
    UnitsCons(a, x);
    UnitsCons(b, y);
    LowerAfter(UnitsOfRunes(p), UnitsOfRune(a) + UnitsOfRunes(x), UnitsOfRune(b) + UnitsOfRunes(y));
    FirstUnitsDecide(a, UnitsOfRunes(x), b, UnitsOfRunes(y));
  }

  lemma {:induction false} UnitsCons(r: Utf8.Rune, rs: seq<Utf8.Rune>)
    ensures UnitsOfRunes([r] + rs) == UnitsOfRune(r) + UnitsOfRunes(rs)
  {
    assert ([r] + rs)[1..] == rs;
  }

  lemma {:induction false} FirstUnitsDecide(a: Utf8.Rune, x: seq<nat>, b: Utf8.Rune, y: seq<nat>)
    requires Utf8.Scalar(a) && Utf8.Scalar(b) && a != b
    ensures Lower(UnitsOfRune(a) + x, UnitsOfRune(b) + y) <==> RuneBefore(a, b)
  {
    var s, t := UnitsOfRune(a) + x, UnitsOfRune(b) + y;
    assert s[0] == UnitsOfRune(a)[0] && t[0] == UnitsOfRune(b)[0];
    if a >= 0x1_0000 && b >= 0x1_0000 {
      assert s[1..][0] == UnitsOfRune(a)[1] && t[1..][0] == UnitsOfRune(b)[1];
    }
  }

  // ---- the canonical form ----

  const COMMA: byte := 0x2c
  const COLON: byte := 0x3a
  const OPEN_BRACKET: byte := 0x5b
  const CLOSE_BRACKET: byte := 0x5d
  const OPEN_BRACE: byte := 0x7b
  const CLOSE_BRACE: byte := 0x7d
  const WORD_NULL: Bytes := [0x6e, 0x75, 0x6c, 0x6c]
  const WORD_TRUE: Bytes := [0x74, 0x72, 0x75, 0x65]
  const WORD_FALSE: Bytes := [0x66, 0x61, 0x6c, 0x73, 0x65]

  /**
   How the leaves are spelled: numbers and strings in canonical form, as the parser reads them at a position, and
   which of them it can produce.
   */
  datatype Atoms = Atoms(
    printNumber: Dec -> Bytes, printString: Bytes -> Bytes,
    readNumber: (Bytes, nat) -> Result<Parsed<Dec>, What>, readString: (Bytes, nat) -> Result<Parsed<Bytes>, What>,
    goodNumber: Dec -> bool, goodString: Bytes -> bool)

  /** Member names are valid UTF-8 throughout. */
  ghost predicate Named(v: Value)
    decreases v
  {
    match v
    case Arr(items) => forall i | 0 <= i < |items| :: Named(items[i])
    case Obj(members) => ValidNames(members.Keys) && forall k | k in members :: Named(members[k])
    case _ => true
  }

  ghost function Print(lx: Atoms, v: Value): Bytes
    requires Named(v)
    decreases v, 1, 0
  {
    match v
    case Null => WORD_NULL
    case Bool(b) => if b then WORD_TRUE else WORD_FALSE
    case Number(f) => lx.printNumber(f)
    case Str(s) => lx.printString(s)
    case Arr(items) => [OPEN_BRACKET] + (PrintItems(lx, v, 0) + [CLOSE_BRACKET])
    case Obj(members) =>
      SortedIsAscending(members.Keys);
      assert forall k | k in Sorted(members.Keys) :: k in NameSet(Sorted(members.Keys));
      [OPEN_BRACE] + (PrintMembers(lx, v, Sorted(members.Keys)) + [CLOSE_BRACE])
  }

  /** The items of v from i on, between commas. */
  ghost function PrintItems(lx: Atoms, v: Value, i: nat): Bytes
    requires Named(v) && v.Arr? && i <= |v.items|
    decreases v, 0, |v.items| - i
  {
    if i == |v.items| then []
    else Print(lx, v.items[i]) + if i + 1 == |v.items| then [] else [COMMA] + PrintItems(lx, v, i + 1)
  }

  predicate NamesOf(v: Value, names: seq<Bytes>)
  {
    v.Obj? && forall k | k in names :: k in v.members
  }

  ghost function PrintMember(lx: Atoms, v: Value, k: Bytes): Bytes
    requires Named(v) && v.Obj? && k in v.members
    decreases v, 0, 0
  {
    lx.printString(k) + ([COLON] + Print(lx, v.members[k]))
  }

  /** The members of v with the given names, in that order, between commas. */
  ghost function PrintMembers(lx: Atoms, v: Value, names: seq<Bytes>): Bytes
    requires Named(v) && NamesOf(v, names)
    decreases v, 0, |names| + 1
  {
    if names == [] then []
    else PrintMember(lx, v, names[0]) + if |names| == 1 then [] else [COMMA] + PrintMembers(lx, v, names[1..])
  }
}
