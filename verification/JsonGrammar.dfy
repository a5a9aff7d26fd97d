/** Which texts the strict parser accepts: the grammar of RFC 8259, as trees that hold every byte. */
module JsonGrammar {
  import opened Octets
  import opened JsonText
  import opened JsonNumbers
  import opened JsonPrint
  import opened JsonParse
  import opened Json
  import opened JsonSpelling

  // ---- concrete syntax ----

  /** Which texts stand for a number and for a string. */
  datatype Leaves = Leaves(numeral: (Bytes, Dec) -> bool, quoted: (Bytes, Bytes) -> bool)

  datatype Tree =
    | Word(v: Value)
    | Numeral(text: Bytes, f: Dec)
    | Quoted(text: Bytes, s: Bytes)
    | List(gap: Bytes, items: seq<Item>)
    | Dict(gap: Bytes, pairs: seq<Pair>)

  /** A value with the white space around it. */
  datatype Item = Item(before: Bytes, tree: Tree, after: Bytes)

  /** A member of an object: its name as written and what that name is, with the white space around it, and its value. */
  datatype Pair = Pair(before: Bytes, text: Bytes, name: Bytes, left: Bytes, item: Item)

  predicate Blank(s: Bytes) { forall i | 0 <= i < |s| :: s[i] in {0x20, 0x09, 0x0a, 0x0d} }

  function WordText(v: Value): Bytes
  {
    match v case Bool(b) => (if b then WORD_TRUE else WORD_FALSE) case _ => WORD_NULL
  }

  /** The bytes of a tree. */
  function Text(t: Tree): Bytes
    decreases t
  {
    match t
    case Word(v) => WordText(v)
    case Numeral(text, _) => text
    case Quoted(text, _) => text
    case List(gap, items) => [OPEN_BRACKET] + (gap + (ItemsText(items) + [CLOSE_BRACKET]))
    case Dict(gap, pairs) => [OPEN_BRACE] + (gap + (PairsText(pairs) + [CLOSE_BRACE]))
  }

  function ItemsText(items: seq<Item>): Bytes
    decreases items
  {
    if items == [] then []
    else ItemText(items[0]) + (if |items| == 1 then [] else [COMMA] + ItemsText(items[1..]))
  }

  function ItemText(item: Item): Bytes
    decreases item
  {
    item.before + (Text(item.tree) + item.after)
  }

  function PairsText(pairs: seq<Pair>): Bytes
    decreases pairs
  {
    if pairs == [] then []
    else PairText(pairs[0]) + (if |pairs| == 1 then [] else [COMMA] + PairsText(pairs[1..]))
  }

  function PairText(p: Pair): Bytes
    decreases p
  {
    p.before + (p.text + (p.left + ([COLON] + ItemText(p.item))))
  }

  /** The value of a tree. */
  function Meaning(t: Tree): Value
    decreases t
  {
    match t
    case Word(v) => v
    case Numeral(_, f) => Number(f)
    case Quoted(_, s) => Str(s)
    case List(_, items) => Arr(ItemsMeaning(items))
    case Dict(_, pairs) => Obj(Collect(PairsMeaning(pairs)))
  }

  function ItemsMeaning(items: seq<Item>): seq<Value>
    decreases items
  {
    if items == [] then [] else [Meaning(items[0].tree)] + ItemsMeaning(items[1..])
  }

  function PairsMeaning(pairs: seq<Pair>): seq<Member>
    decreases pairs
  {
    if pairs == [] then [] else [Member(pairs[0].name, Meaning(pairs[0].item.tree))] + PairsMeaning(pairs[1..])
  }

  /** The rules: words, numbers and strings as they may be written, gaps of white space, names that differ, d levels. */
  ghost predicate Good(lv: Leaves, t: Tree, d: nat)
    decreases t
  {
    match t
    case Word(v) => v.Null? || v.Bool?
    case Numeral(text, f) => lv.numeral(text, f)
    case Quoted(text, s) => lv.quoted(text, s)
    case List(gap, items) => d > 0 && Blank(gap) && (items != [] ==> gap == []) && ItemsGood(lv, items, d - 1)
    case Dict(gap, pairs) =>
      d > 0 && Blank(gap) && (pairs != [] ==> gap == []) && PairsGood(lv, pairs, d - 1) && Distinct(PairsMeaning(pairs))
  }

  ghost predicate ItemsGood(lv: Leaves, items: seq<Item>, d: nat)
    decreases items
  {
    items == [] || (ItemGood(lv, items[0], d) && ItemsGood(lv, items[1..], d))
  }

  ghost predicate ItemGood(lv: Leaves, item: Item, d: nat)
    decreases item
  {
    Blank(item.before) && Blank(item.after) && Good(lv, item.tree, d)
  }

  ghost predicate PairsGood(lv: Leaves, pairs: seq<Pair>, d: nat)
    decreases pairs
  {
    pairs == [] || (PairGood(lv, pairs[0], d) && PairsGood(lv, pairs[1..], d))
  }

  ghost predicate PairGood(lv: Leaves, p: Pair, d: nat)
    decreases p
  {
    Blank(p.before) && Blank(p.left) && lv.quoted(p.text, p.name) && ItemGood(lv, p.item, d)
  }

  // The parts of a tree by names that do not unfold their recursion.

  ghost function TreeText(t: Tree): Bytes { Text(t) }

  ghost function TreeValue(t: Tree): Value { Meaning(t) }

  ghost predicate GoodTree(lv: Leaves, t: Tree, d: nat) { Good(lv, t, d) }

  ghost function ListText(items: seq<Item>): Bytes { ItemsText(items) }

  ghost function ListValues(items: seq<Item>): seq<Value> { ItemsMeaning(items) }

  ghost predicate GoodItems(lv: Leaves, items: seq<Item>, d: nat) { ItemsGood(lv, items, d) }

  ghost function DictText(pairs: seq<Pair>): Bytes { PairsText(pairs) }

  ghost function DictMembers(pairs: seq<Pair>): seq<Member> { PairsMeaning(pairs) }

  ghost predicate GoodPairs(lv: Leaves, pairs: seq<Pair>, d: nat) { PairsGood(lv, pairs, d) }

  // ---- what the readers of leaves must satisfy ----

  ghost predicate NumberLaw(lx: Atoms, lv: Leaves, data: Bytes, pos: nat, f: Dec, next: nat)
  {
    pos < |data| && next <= |data| && Ends(data, next) ==>
      (lx.readNumber(data, pos) == Ok(Parsed(f, next)) <==> pos < next && lv.numeral(data[pos..next], f))
  }

  ghost predicate StringLaw(lx: Atoms, lv: Leaves, data: Bytes, pos: nat, s: Bytes, next: nat)
  {
    pos < |data| && data[pos] == QUOTE ==>
      (lx.readString(data, pos) == Ok(Parsed(s, next)) <==> pos < next <= |data| && lv.quoted(data[pos..next], s))
  }

  ghost predicate FirstBytes(lv: Leaves)
  {
    && (forall w, f :: lv.numeral(w, f) ==> w != [] && NumberByte(w[0]))
    && (forall w, s :: lv.quoted(w, s) ==> w != [] && w[0] == QUOTE)
  }

  /** The readers of lx read exactly the texts of lv. */
  ghost predicate Obeys(lx: Atoms, lv: Leaves)
  {
    && Bounded(lx) && FirstBytes(lv)
    && (forall data, pos: nat, f, next: nat :: NumberLaw(lx, lv, data, pos, f, next))
    && (forall data, pos: nat, s, next: nat :: StringLaw(lx, lv, data, pos, s, next))
  }

  // ---- gaps ----

  /** After a value comes the end, white space, a comma or a closing byte. */
  predicate Closed(data: Bytes, pos: nat)
  {
    pos < |data| ==> IsSpace(data[pos]) || data[pos] == COMMA || data[pos] == CLOSE_BRACKET || data[pos] == CLOSE_BRACE
  }

  lemma {:induction false} SkipGap(data: Bytes, pos: nat, gap: Bytes, rest: Bytes)
    requires Blank(gap) && At(data, pos, gap + rest) && rest != [] && !IsSpace(rest[0])
    ensures SkipSpace(data, pos) == pos + |gap| < |data| && At(data, pos + |gap|, rest) && data[pos + |gap|] == rest[0]
    ensures gap != [] ==> IsSpace(data[pos])
    decreases |gap|
  {
    AtSplit(data, pos, gap, rest);
    AtByte(data, pos + |gap|, rest, 0);
    if gap != [] {
      AtByte(data, pos, gap, 0);
      assert gap + rest == [gap[0]] + (gap[1..] + rest);
      AtSplit(data, pos, [gap[0]], gap[1..] + rest);
      SkipGap(data, pos + 1, gap[1..], rest);
    }
  }

  lemma {:induction false} GapToEnd(data: Bytes, pos: nat)
    requires pos <= |data|
    ensures Blank(data[pos..SkipSpace(data, pos)])
    ensures Blank(data[pos..]) ==> SkipSpace(data, pos) == |data|
    decreases |data| - pos
  {
    if pos < |data| && IsSpace(data[pos]) {
      var p := SkipSpace(data, pos + 1);
      GapToEnd(data, pos + 1);
      assert data[pos..p] == [data[pos]] + data[pos + 1..p];
      assert data[pos..][1..] == data[pos + 1..];
    } else if pos < |data| {
      assert data[pos..][0] == data[pos];
    }
  }

  // ---- a tree is read as its value ----

  lemma {:induction false} TreeStarts(lv: Leaves, t: Tree, d: nat)
    requires FirstBytes(lv) && GoodTree(lv, t, d)
    ensures TreeText(t) != [] && Starts(TreeText(t)[0])
  {
  }

  lemma {:induction false} TreeReads(lx: Atoms, lv: Leaves, t: Tree, data: Bytes, pos: nat, depth: nat)
    requires Obeys(lx, lv) && depth <= MAX_DEPTH && GoodTree(lv, t, MAX_DEPTH - depth)
    requires At(data, pos, TreeText(t)) && Closed(data, pos + |TreeText(t)|)
    ensures ReadsValue(lx, data, pos, depth, TreeValue(t), |TreeText(t)|)
    decreases t, 2, 0
  {
    match t
    case Word(v) => TreeWordReads(lx, v, data, pos, depth);
    case Numeral(text, f) => NumeralReads(lx, lv, text, f, data, pos, depth);
    case Quoted(text, s) => QuotedTreeReads(lx, lv, text, s, data, pos, depth);
    case List(_, _) => ListReads(lx, lv, t, data, pos, depth);
    case Dict(_, _) => DictReads(lx, lv, t, data, pos, depth);
  }

  lemma {:induction false} TreeWordReads(lx: Atoms, v: Value, data: Bytes, pos: nat, depth: nat)
    requires Bounded(lx) && (v.Null? || v.Bool?) && At(data, pos, WordText(v))
    ensures ReadsValue(lx, data, pos, depth, v, |WordText(v)|)
  {
    AtByte(data, pos, WordText(v), 0);
  }

  lemma {:induction false} NumeralReads(lx: Atoms, lv: Leaves, text: Bytes, f: Dec, data: Bytes, pos: nat, depth: nat)
    requires Obeys(lx, lv) && lv.numeral(text, f) && At(data, pos, text) && Closed(data, pos + |text|)
    ensures ReadsValue(lx, data, pos, depth, Number(f), |text|)
  {
    AtByte(data, pos, text, 0);
    assert NumberLaw(lx, lv, data, pos, f, pos + |text|);
  }

  lemma {:induction false} QuotedTreeReads(lx: Atoms, lv: Leaves, text: Bytes, s: Bytes, data: Bytes, pos: nat, depth: nat)
    requires Obeys(lx, lv) && lv.quoted(text, s) && At(data, pos, text)
    ensures ReadsValue(lx, data, pos, depth, Str(s), |text|)
  {
    NameReads(lx, lv, text, s, data, pos);
  }

  lemma {:induction false} NameReads(lx: Atoms, lv: Leaves, text: Bytes, s: Bytes, data: Bytes, pos: nat)
    requires Obeys(lx, lv) && lv.quoted(text, s) && At(data, pos, text)
    ensures pos < |data| && data[pos] == QUOTE && lx.readString(data, pos) == Ok(Parsed(s, pos + |text|))
  {
    AtByte(data, pos, text, 0);
    assert StringLaw(lx, lv, data, pos, s, pos + |text|);
  }

  // One step of the parser, with the white space around a separator.

  lemma {:induction false} EmptyArray(lx: Atoms, data: Bytes, pos: nat, depth: nat)
    requires Bounded(lx) && pos < |data| && data[pos] == OPEN_BRACKET && depth < MAX_DEPTH
    ensures var start := SkipSpace(data, pos + 1);
      ReadValue(lx, data, pos, depth)
      == if start < |data| && data[start] == CLOSE_BRACKET then Ok(Parsed(Arr([]), start + 1))
         else ArrayOf(ReadItems(lx, data, start, depth + 1))
  {
    assert ValueAt(lx, data, pos, depth) == ArrayAt(lx, data, pos, depth);
  }

  lemma {:induction false} EmptyObject(lx: Atoms, data: Bytes, pos: nat, depth: nat)
    requires Bounded(lx) && pos < |data| && data[pos] == OPEN_BRACE && depth < MAX_DEPTH
    ensures var start := SkipSpace(data, pos + 1);
      ReadValue(lx, data, pos, depth)
      == if start < |data| && data[start] == CLOSE_BRACE then Ok(Parsed(Obj(map[]), start + 1))
         else ObjectOf(ReadMembers(lx, data, start, depth + 1))
  {
    assert ValueAt(lx, data, pos, depth) == ObjectAt(lx, data, pos, depth);
  }

  lemma {:induction false} ItemThen(lx: Atoms, data: Bytes, pos: nat, depth: nat, x: Value, next: nat, xs: seq<Value>, end: nat)
    requires Bounded(lx) && pos <= |data| && ReadValue(lx, data, pos, depth) == Ok(Parsed(x, next)) && next <= |data|
    requires SkipSpace(data, next) < |data|
    ensures var sep := SkipSpace(data, next);
      && (data[sep] == CLOSE_BRACKET ==> ReadItems(lx, data, pos, depth) == Ok(Parsed([x], sep + 1)))
      && (data[sep] == COMMA && ReadItems(lx, data, SkipSpace(data, sep + 1), depth) == Ok(Parsed(xs, end))
          ==> ReadItems(lx, data, pos, depth) == Ok(Parsed([x] + xs, end)))
  {
  }

  lemma {:induction false} MemberThen(lx: Atoms, data: Bytes, pos: nat, depth: nat, x: Member, next: nat, xs: seq<Member>, end: nat)
    requires Bounded(lx) && pos <= |data| && ReadMember(lx, data, pos, depth) == Ok(Parsed(x, next)) && next <= |data|
    requires SkipSpace(data, next) < |data|
    ensures var sep := SkipSpace(data, next);
      && (data[sep] == CLOSE_BRACE ==> ReadMembers(lx, data, pos, depth) == Ok(Parsed([x], sep + 1)))
      && (data[sep] == COMMA && ReadMembers(lx, data, SkipSpace(data, sep + 1), depth) == Ok(Parsed(xs, end))
          ==> ReadMembers(lx, data, pos, depth) == Ok(Parsed([x] + xs, end)))
  {
  }

  lemma {:induction false} NameThenValue(
    lx: Atoms, data: Bytes, pos: nat, depth: nat, k: Bytes, mid: nat, colon: nat, x: Value, next: nat)
    requires Bounded(lx) && pos < |data| && data[pos] == QUOTE && lx.readString(data, pos) == Ok(Parsed(k, mid)) && mid <= |data|
    requires colon == SkipSpace(data, mid) < |data| && data[colon] == COLON
    ensures ReadValue(lx, data, SkipSpace(data, colon + 1), depth) == Ok(Parsed(x, next))
            ==> ReadMember(lx, data, pos, depth) == Ok(Parsed(Member(k, x), next))
  {
  }

  lemma {:induction false} ListCloses(lx: Atoms, data: Bytes, pos: nat, depth: nat, xs: seq<Value>, end: nat)
    requires Bounded(lx) && At(data, pos, [OPEN_BRACKET]) && depth < MAX_DEPTH
    requires var start := SkipSpace(data, pos + 1); start < |data| && data[start] != CLOSE_BRACKET
    ensures ReadItems(lx, data, SkipSpace(data, pos + 1), depth + 1) == Ok(Parsed(xs, end))
            ==> ReadValue(lx, data, pos, depth) == Ok(Parsed(Arr(xs), end))
  {
    AtByte(data, pos, [OPEN_BRACKET], 0);
    EmptyArray(lx, data, pos, depth);
  }

  lemma {:induction false} EmptyListReads(lx: Atoms, data: Bytes, pos: nat, depth: nat, gap: Bytes)
    requires Bounded(lx) && depth < MAX_DEPTH && Blank(gap) && At(data, pos, [OPEN_BRACKET] + (gap + [CLOSE_BRACKET]))
    ensures ReadValue(lx, data, pos, depth) == Ok(Parsed(Arr([]), pos + |gap| + 2))
  {
    AtSplit(data, pos, [OPEN_BRACKET], gap + [CLOSE_BRACKET]);
    AtByte(data, pos, [OPEN_BRACKET], 0);
    SkipGap(data, pos + 1, gap, [CLOSE_BRACKET]);
    EmptyArray(lx, data, pos, depth);
  }

  lemma {:induction false} ListReads(lx: Atoms, lv: Leaves, t: Tree, data: Bytes, pos: nat, depth: nat)
    requires Obeys(lx, lv) && t.List? && depth <= MAX_DEPTH && GoodTree(lv, t, MAX_DEPTH - depth)
    requires At(data, pos, TreeText(t))
    ensures ReadsValue(lx, data, pos, depth, TreeValue(t), |TreeText(t)|)
    decreases t, 1, 0
  {
    ListParts(t);
    if t.items == [] {
      EmptyListReads(lx, data, pos, depth, t.gap);
    } else {
      var xs := ListValues(t.items);
      AtSplit(data, pos, [OPEN_BRACKET], ListText(t.items) + [CLOSE_BRACKET]);
      ItemsReadGaps(lx, lv, t.items, data, pos + 1, depth + 1);
      assert TreeValue(t) == Arr(xs) && pos + 1 + |ListText(t.items)| + 1 == pos + |TreeText(t)|;
      ListCloses(lx, data, pos, depth, xs, pos + |TreeText(t)|);
    }
  }

  lemma {:induction false} ListParts(t: Tree)
    requires t.List? && (t.items != [] ==> t.gap == [])
    ensures TreeValue(t) == Arr(ListValues(t.items))
    ensures t.items == [] ==> TreeText(t) == [OPEN_BRACKET] + (t.gap + [CLOSE_BRACKET]) && TreeValue(t) == Arr([])
    ensures t.items != [] ==> TreeText(t) == [OPEN_BRACKET] + (ListText(t.items) + [CLOSE_BRACKET])
    ensures |TreeText(t)| == |t.gap| + |ListText(t.items)| + 2 && (t.items == [] ==> ListText(t.items) == [])
  {
    if t.items == [] {
      assert ItemsText(t.items) + [CLOSE_BRACKET] == [CLOSE_BRACKET];
    } else {
      assert t.gap + (ItemsText(t.items) + [CLOSE_BRACKET]) == ItemsText(t.items) + [CLOSE_BRACKET];
    }
  }

  /** A value between white space, up to the separator after it. */
  lemma {:induction false} ItemReads(lx: Atoms, lv: Leaves, item: Item, data: Bytes, pos: nat, depth: nat, tail: Bytes)
    returns (start: nat, next: nat, sep: nat)
    requires Obeys(lx, lv) && depth <= MAX_DEPTH && ItemGood(lv, item, MAX_DEPTH - depth)
    requires At(data, pos, ItemText(item) + tail) && SeparatorFirst(tail)
    ensures ItemStands(lx, data, pos, start, depth, TreeValue(item.tree), next, sep, tail)
    ensures start == pos + |item.before| && sep == pos + |ItemText(item)|
    decreases item, 0, 0
  {
    start, next, sep := ItemPlaces(lv, item, MAX_DEPTH - depth, data, pos, tail);
    TreeReads(lx, lv, item.tree, data, start, depth);
  }

  /** Where the value of an item starts and ends, and where the white space after it does. */
  lemma {:induction false} ItemPlaces(lv: Leaves, item: Item, d: nat, data: Bytes, pos: nat, tail: Bytes)
    returns (start: nat, next: nat, sep: nat)
    requires FirstBytes(lv) && ItemGood(lv, item, d) && At(data, pos, ItemText(item) + tail) && SeparatorFirst(tail)
    ensures start == pos + |item.before| && next == start + |TreeText(item.tree)| && sep == pos + |ItemText(item)|
    ensures start < next <= sep < |data| && SkipSpace(data, pos) == start && Starts(data[start])
    ensures At(data, start, TreeText(item.tree)) && Closed(data, next)
    ensures SkipSpace(data, next) == sep && data[sep] == tail[0] && At(data, sep, tail)
  {
    var text := TreeText(item.tree);
    ItemParts(item, tail);
    TreeStarts(lv, item.tree, d);
    start, next, sep := pos + |item.before|, pos + |item.before| + |text|, pos + |ItemText(item)|;
    GapValueGap(data, pos, item.before, text, item.after, tail);
  }

  predicate SeparatorFirst(tail: Bytes)
  {
    tail != [] && (tail[0] == COMMA || tail[0] == CLOSE_BRACKET || tail[0] == CLOSE_BRACE)
  }

  lemma {:induction false} GapValueGap(data: Bytes, pos: nat, before: Bytes, text: Bytes, after: Bytes, tail: Bytes)
    requires Blank(before) && Blank(after) && text != [] && Starts(text[0]) && SeparatorFirst(tail)
    requires At(data, pos, before + (text + (after + tail)))
    ensures var start := pos + |before|;
      var next := start + |text|;
      var sep := next + |after|;
      && At(data, start, text) && SkipSpace(data, pos) == start && Starts(data[start]) && next <= |data|
      && SkipSpace(data, next) == sep < |data| && data[sep] == tail[0] && At(data, sep, tail) && Closed(data, next)
  {
    var start := pos + |before|;
    var next := start + |text|;
    SkipGap(data, pos, before, text + (after + tail));
    AtSplit(data, start, text, after + tail);
    SkipGap(data, next, after, tail);
    if after == [] { assert data[next] == tail[0]; }
  }

  /** From pos white space, from start to next the value x, then white space up to sep, and tail there. */
  ghost predicate ItemStands(
    lx: Atoms, data: Bytes, pos: nat, start: nat, depth: nat, x: Value, next: nat, sep: nat, tail: Bytes)
    requires Bounded(lx)
  {
    && pos <= start < |data| && SkipSpace(data, pos) == start && Starts(data[start])
    && ReadValue(lx, data, start, depth) == Ok(Parsed(x, next))
    && start <= next <= sep < |data| && SkipSpace(data, next) == sep && tail != [] && data[sep] == tail[0] && At(data, sep, tail)
  }

  lemma {:induction false} ItemParts(item: Item, tail: Bytes)
    ensures ItemText(item) + tail == item.before + (TreeText(item.tree) + (item.after + tail))
    ensures |ItemText(item)| == |item.before| + |TreeText(item.tree)| + |item.after|
  {
  }

  /** Items from the white space before the first one on are read up to the closing bracket. */
  lemma {:induction false} ItemsReadGaps(lx: Atoms, lv: Leaves, items: seq<Item>, data: Bytes, pos: nat, depth: nat)
    requires Obeys(lx, lv) && 0 < depth <= MAX_DEPTH && items != [] && GoodItems(lv, items, MAX_DEPTH - depth)
    requires At(data, pos, ListText(items) + [CLOSE_BRACKET])
    ensures ItemsStand(lx, data, pos, depth, ListValues(items), pos + |ListText(items)| + 1)
    decreases items, 1, 0
  {
    FirstItemGood(lv, items, MAX_DEPTH - depth);
    if |items| == 1 {
      LastItemReadsGaps(lx, lv, items, data, pos, depth);
    } else {
      var after := FirstItemReadsGaps(lx, lv, items, data, pos, depth);
      ItemsReadGaps(lx, lv, items[1..], data, after, depth);
    }
  }

  lemma {:induction false} LastItemReadsGaps(lx: Atoms, lv: Leaves, items: seq<Item>, data: Bytes, pos: nat, depth: nat)
    requires Obeys(lx, lv) && 0 < depth <= MAX_DEPTH && |items| == 1 && ItemGood(lv, items[0], MAX_DEPTH - depth)
    requires At(data, pos, ListText(items) + [CLOSE_BRACKET])
    ensures ItemsStand(lx, data, pos, depth, ListValues(items), pos + |ListText(items)| + 1)
    decreases items, 0, 0
  {
    var tail := [CLOSE_BRACKET];
    ListTextCons(items, tail);
    var start, next, sep := ItemReads(lx, lv, items[0], data, pos, depth, tail);
    ItemsStandCons(
      lx, data, pos, start, depth, TreeValue(items[0].tree), next, sep, tail, [], pos + |ListText(items)| + 1, ListValues(items));
  }

  lemma {:induction false} FirstItemReadsGaps(lx: Atoms, lv: Leaves, items: seq<Item>, data: Bytes, pos: nat, depth: nat)
    returns (after: nat)
    requires Obeys(lx, lv) && 0 < depth <= MAX_DEPTH && |items| > 1 && ItemGood(lv, items[0], MAX_DEPTH - depth)
    requires At(data, pos, ListText(items) + [CLOSE_BRACKET])
    ensures At(data, after, ListText(items[1..]) + [CLOSE_BRACKET])
    ensures var end := pos + |ListText(items)| + 1;
      && after + |ListText(items[1..])| + 1 == end
      && (ItemsStand(lx, data, after, depth, ListValues(items[1..]), end)
          ==> ItemsStand(lx, data, pos, depth, ListValues(items), end))
    decreases items, 0, 0
  {
    var more := items[1..];
    var tail := [COMMA] + (ListText(more) + [CLOSE_BRACKET]);
    ListTextCons(items, tail);
    var start, next, sep := ItemReads(lx, lv, items[0], data, pos, depth, tail);
    AtSplit(data, sep, [COMMA], ListText(more) + [CLOSE_BRACKET]);
    after := sep + 1;
    ItemsStandCons(
      lx, data, pos, start, depth, TreeValue(items[0].tree), next, sep, tail, ListValues(more), pos + |ListText(items)| + 1,
      ListValues(items));
  }

  /** After white space from pos on, the items xs stand there, and end with the closing bracket. */
  ghost predicate ItemsStand(lx: Atoms, data: Bytes, pos: nat, depth: nat, xs: seq<Value>, end: nat)
    requires Bounded(lx)
  {
    && pos <= |data| && SkipSpace(data, pos) < |data| && data[SkipSpace(data, pos)] != CLOSE_BRACKET
    && ReadItems(lx, data, SkipSpace(data, pos), depth) == Ok(Parsed(xs, end))
  }

  lemma {:induction false} ItemsStandCons(
    lx: Atoms, data: Bytes, pos: nat, start: nat, depth: nat, x: Value, next: nat, sep: nat, tail: Bytes, xs: seq<Value>, end: nat,
    all: seq<Value>)
    requires Bounded(lx) && tail != []
    ensures ItemStands(lx, data, pos, start, depth, x, next, sep, tail) ==>
      && (tail[0] == CLOSE_BRACKET && all == [x] && end == sep + 1 ==> ItemsStand(lx, data, pos, depth, all, end))
      && (tail[0] == COMMA && all == [x] + xs && ItemsStand(lx, data, sep + 1, depth, xs, end)
          ==> ItemsStand(lx, data, pos, depth, all, end))
  {
    if ItemStands(lx, data, pos, start, depth, x, next, sep, tail) { ItemThen(lx, data, start, depth, x, next, xs, end); }
  }

  lemma {:induction false} FirstItemGood(lv: Leaves, items: seq<Item>, d: nat)
    requires items != [] && GoodItems(lv, items, d)
    ensures ItemGood(lv, items[0], d) && GoodItems(lv, items[1..], d)
  {
  }

  lemma {:induction false} ListTextCons(items: seq<Item>, tail: Bytes)
    requires items != []
    requires tail == if |items| == 1 then [CLOSE_BRACKET] else [COMMA] + (ListText(items[1..]) + [CLOSE_BRACKET])
    ensures ListText(items) + [CLOSE_BRACKET] == ItemText(items[0]) + tail
    ensures |items| > 1 ==> |ListText(items)| == |ItemText(items[0])| + 1 + |ListText(items[1..])|
    ensures |items| == 1 ==> |ListText(items)| == |ItemText(items[0])|
    ensures |items| == 1 ==> ListText(items[1..]) == []
    ensures ListValues(items) == [TreeValue(items[0].tree)] + ListValues(items[1..])
    ensures |items| == 1 ==> ListValues(items) == [TreeValue(items[0].tree)]
  {
    if |items| == 1 { assert ItemsMeaning(items[1..]) == []; }
  }

  lemma {:induction false} DictCloses(lx: Atoms, data: Bytes, pos: nat, depth: nat, ms: seq<Member>, end: nat)
    requires Bounded(lx) && At(data, pos, [OPEN_BRACE]) && depth < MAX_DEPTH && Distinct(ms)
    requires var start := SkipSpace(data, pos + 1); start < |data| && data[start] != CLOSE_BRACE
    ensures ReadMembers(lx, data, SkipSpace(data, pos + 1), depth + 1) == Ok(Parsed(ms, end))
            ==> ReadValue(lx, data, pos, depth) == Ok(Parsed(Obj(Collect(ms)), end))
  {
    AtByte(data, pos, [OPEN_BRACE], 0);
    EmptyObject(lx, data, pos, depth);
  }

  lemma {:induction false} EmptyDictReads(lx: Atoms, data: Bytes, pos: nat, depth: nat, gap: Bytes)
    requires Bounded(lx) && depth < MAX_DEPTH && Blank(gap) && At(data, pos, [OPEN_BRACE] + (gap + [CLOSE_BRACE]))
    ensures ReadValue(lx, data, pos, depth) == Ok(Parsed(Obj(map[]), pos + |gap| + 2))
  {
    AtSplit(data, pos, [OPEN_BRACE], gap + [CLOSE_BRACE]);
    AtByte(data, pos, [OPEN_BRACE], 0);
    SkipGap(data, pos + 1, gap, [CLOSE_BRACE]);
    EmptyObject(lx, data, pos, depth);
  }

  lemma {:induction false} DictReads(lx: Atoms, lv: Leaves, t: Tree, data: Bytes, pos: nat, depth: nat)
    requires Obeys(lx, lv) && t.Dict? && depth <= MAX_DEPTH && GoodTree(lv, t, MAX_DEPTH - depth)
    requires At(data, pos, TreeText(t))
    ensures ReadsValue(lx, data, pos, depth, TreeValue(t), |TreeText(t)|)
    decreases t, 1, 0
  {
    DictParts(t);
    if t.pairs == [] {
      EmptyDictReads(lx, data, pos, depth, t.gap);
    } else {
      AtSplit(data, pos, [OPEN_BRACE], DictText(t.pairs) + [CLOSE_BRACE]);
      PairsReadGaps(lx, lv, t.pairs, data, pos + 1, depth + 1);
      DictCloses(lx, data, pos, depth, DictMembers(t.pairs), pos + |TreeText(t)|);
    }
  }

  lemma {:induction false} DictParts(t: Tree)
    requires t.Dict? && (t.pairs != [] ==> t.gap == [])
    ensures TreeValue(t) == Obj(Collect(DictMembers(t.pairs)))
    ensures t.pairs == [] ==> TreeText(t) == [OPEN_BRACE] + (t.gap + [CLOSE_BRACE]) && TreeValue(t) == Obj(map[])
    ensures t.pairs != [] ==> TreeText(t) == [OPEN_BRACE] + (DictText(t.pairs) + [CLOSE_BRACE])
    ensures |TreeText(t)| == |t.gap| + |DictText(t.pairs)| + 2 && (t.pairs == [] ==> DictText(t.pairs) == [])
  {
    if t.pairs == [] {
      assert PairsText(t.pairs) + [CLOSE_BRACE] == [CLOSE_BRACE];
    } else {
      assert t.gap + (PairsText(t.pairs) + [CLOSE_BRACE]) == PairsText(t.pairs) + [CLOSE_BRACE];
    }
  }

  lemma {:induction false} PairsReadGaps(lx: Atoms, lv: Leaves, pairs: seq<Pair>, data: Bytes, pos: nat, depth: nat)
    requires Obeys(lx, lv) && 0 < depth <= MAX_DEPTH && pairs != [] && GoodPairs(lv, pairs, MAX_DEPTH - depth)
    requires At(data, pos, DictText(pairs) + [CLOSE_BRACE])
    ensures MembersStand(lx, data, pos, depth, DictMembers(pairs), pos + |DictText(pairs)| + 1)
    decreases pairs, 1, 0
  {
    FirstPairGood(lv, pairs, MAX_DEPTH - depth);
    if |pairs| == 1 {
      LastPairReadsGaps(lx, lv, pairs, data, pos, depth);
    } else {
      var start, m, next, sep := FirstPairReadsGaps(lx, lv, pairs, data, pos, depth);
      PairsReadGaps(lx, lv, pairs[1..], data, sep + 1, depth);
      MembersStandMore(
        lx, data, pos, start, depth, m, next, sep, DictText(pairs[1..]) + [CLOSE_BRACE], DictMembers(pairs[1..]),
        sep + 1 + |DictText(pairs[1..])| + 1, DictMembers(pairs), pos + |DictText(pairs)| + 1);
    }
  }

  lemma {:induction false} LastPairReadsGaps(lx: Atoms, lv: Leaves, pairs: seq<Pair>, data: Bytes, pos: nat, depth: nat)
    requires Obeys(lx, lv) && 0 < depth <= MAX_DEPTH && |pairs| == 1 && PairGood(lv, pairs[0], MAX_DEPTH - depth)
    requires At(data, pos, DictText(pairs) + [CLOSE_BRACE])
    ensures MembersStand(lx, data, pos, depth, DictMembers(pairs), pos + |DictText(pairs)| + 1)
    decreases pairs, 0, 0
  {
    var p, tail := pairs[0], [CLOSE_BRACE];
    DictTextCons(pairs, tail);
    var start, next, sep := PairReads(lx, lv, p, data, pos, depth, tail);
    MembersStandCons(
      lx, data, pos, start, depth, Member(p.name, TreeValue(p.item.tree)), next, sep, tail, [], pos + |DictText(pairs)| + 1,
      DictMembers(pairs));
  }

  lemma {:induction false} FirstPairReadsGaps(lx: Atoms, lv: Leaves, pairs: seq<Pair>, data: Bytes, pos: nat, depth: nat)
    returns (start: nat, m: Member, next: nat, sep: nat)
    requires Obeys(lx, lv) && 0 < depth <= MAX_DEPTH && |pairs| > 1 && PairGood(lv, pairs[0], MAX_DEPTH - depth)
    requires At(data, pos, DictText(pairs) + [CLOSE_BRACE])
    ensures MemberStands(lx, data, pos, start, depth, m, next, sep, [COMMA] + (DictText(pairs[1..]) + [CLOSE_BRACE]))
    ensures At(data, sep + 1, DictText(pairs[1..]) + [CLOSE_BRACE])
    ensures DictMembers(pairs) == [m] + DictMembers(pairs[1..])
    ensures sep + 1 + |DictText(pairs[1..])| == pos + |DictText(pairs)|
    decreases pairs, 0, 0
  {
    var rest := DictText(pairs[1..]) + [CLOSE_BRACE];
    DictTextCons(pairs, [COMMA] + rest);
    m := Member(pairs[0].name, TreeValue(pairs[0].item.tree));
    start, next, sep := PairReads(lx, lv, pairs[0], data, pos, depth, [COMMA] + rest);
    AtSplit(data, sep, [COMMA], rest);
  }

  lemma {:induction false} MembersStandMore(
    lx: Atoms, data: Bytes, pos: nat, start: nat, depth: nat, m: Member, next: nat, sep: nat, rest: Bytes, ms: seq<Member>,
    end: nat, all: seq<Member>, most: nat)
    requires Bounded(lx) && MemberStands(lx, data, pos, start, depth, m, next, sep, [COMMA] + rest)
    requires MembersStand(lx, data, sep + 1, depth, ms, end) && all == [m] + ms && most == end
    ensures MembersStand(lx, data, pos, depth, all, most)
  {
    MembersStandCons(lx, data, pos, start, depth, m, next, sep, [COMMA] + rest, ms, end, all);
  }

  ghost predicate MembersStand(lx: Atoms, data: Bytes, pos: nat, depth: nat, ms: seq<Member>, end: nat)
    requires Bounded(lx)
  {
    && pos <= |data| && SkipSpace(data, pos) < |data| && data[SkipSpace(data, pos)] != CLOSE_BRACE
    && ReadMembers(lx, data, SkipSpace(data, pos), depth) == Ok(Parsed(ms, end))
  }

  /** From pos white space, from start to next the member m, then white space up to sep, and tail there. */
  ghost predicate MemberStands(
    lx: Atoms, data: Bytes, pos: nat, start: nat, depth: nat, m: Member, next: nat, sep: nat, tail: Bytes)
    requires Bounded(lx)
  {
    && pos <= start < |data| && SkipSpace(data, pos) == start && data[start] == QUOTE
    && ReadMember(lx, data, start, depth) == Ok(Parsed(m, next))
    && start <= next <= sep < |data| && SkipSpace(data, next) == sep && tail != [] && data[sep] == tail[0] && At(data, sep, tail)
  }

  lemma {:induction false} MembersStandCons(
    lx: Atoms, data: Bytes, pos: nat, start: nat, depth: nat, m: Member, next: nat, sep: nat, tail: Bytes, ms: seq<Member>, end: nat,
    all: seq<Member>)
    requires Bounded(lx) && tail != []
    ensures MemberStands(lx, data, pos, start, depth, m, next, sep, tail) ==>
      && (tail[0] == CLOSE_BRACE && all == [m] && end == sep + 1 ==> MembersStand(lx, data, pos, depth, all, end))
      && (tail[0] == COMMA && all == [m] + ms && MembersStand(lx, data, sep + 1, depth, ms, end)
          ==> MembersStand(lx, data, pos, depth, all, end))
  {
    if MemberStands(lx, data, pos, start, depth, m, next, sep, tail) { MemberThen(lx, data, start, depth, m, next, ms, end); }
  }

  lemma {:induction false} FirstPairGood(lv: Leaves, pairs: seq<Pair>, d: nat)
    requires pairs != [] && GoodPairs(lv, pairs, d)
    ensures PairGood(lv, pairs[0], d) && GoodPairs(lv, pairs[1..], d)
  {
  }

  lemma {:induction false} DictTextCons(pairs: seq<Pair>, tail: Bytes)
    requires pairs != []
    requires tail == if |pairs| == 1 then [CLOSE_BRACE] else [COMMA] + (DictText(pairs[1..]) + [CLOSE_BRACE])
    ensures DictText(pairs) + [CLOSE_BRACE] == PairText(pairs[0]) + tail
    ensures |pairs| > 1 ==> |DictText(pairs)| == |PairText(pairs[0])| + 1 + |DictText(pairs[1..])|
    ensures |pairs| == 1 ==> |DictText(pairs)| == |PairText(pairs[0])|
    ensures |pairs| == 1 ==> DictText(pairs[1..]) == []
    ensures DictMembers(pairs) == [Member(pairs[0].name, TreeValue(pairs[0].item.tree))] + DictMembers(pairs[1..])
    ensures |pairs| == 1 ==> DictMembers(pairs) == [Member(pairs[0].name, TreeValue(pairs[0].item.tree))]
  {
    if |pairs| == 1 { assert PairsMeaning(pairs[1..]) == []; }
  }

  /** One member, from the white space before its name to the separator after its value. */
  lemma {:induction false} PairReads(lx: Atoms, lv: Leaves, p: Pair, data: Bytes, pos: nat, depth: nat, tail: Bytes)
    returns (start: nat, next: nat, sep: nat)
    requires Obeys(lx, lv) && depth <= MAX_DEPTH && PairGood(lv, p, MAX_DEPTH - depth)
    requires At(data, pos, PairText(p) + tail) && SeparatorFirst(tail)
    ensures MemberStands(lx, data, pos, start, depth, Member(p.name, TreeValue(p.item.tree)), next, sep, tail)
    ensures sep == pos + |PairText(p)|
    decreases p, 0, 0
  {
    var after := ItemText(p.item) + tail;
    PairParts(p, tail);
    var mid, colon;
    start, mid, colon := NamePart(lx, lv, p, data, pos, after);
    var at;
    at, next, sep := ItemReads(lx, lv, p.item, data, colon + 1, depth, tail);
    NameThenItem(lx, data, pos, start, depth, p.name, mid, colon, at, TreeValue(p.item.tree), next, sep, tail);
  }

  ghost predicate NameStands(lx: Atoms, data: Bytes, pos: nat, start: nat, k: Bytes, mid: nat, colon: nat)
    requires Bounded(lx)
  {
    && pos <= start < |data| && SkipSpace(data, pos) == start && data[start] == QUOTE
    && lx.readString(data, start) == Ok(Parsed(k, mid)) && start <= mid <= |data|
    && SkipSpace(data, mid) == colon < |data| && data[colon] == COLON
  }

  lemma {:induction false} NameThenItem(
    lx: Atoms, data: Bytes, pos: nat, start: nat, depth: nat, k: Bytes, mid: nat, colon: nat, at: nat, x: Value, next: nat,
    sep: nat, tail: Bytes)
    requires Bounded(lx)
    ensures NameStands(lx, data, pos, start, k, mid, colon) && ItemStands(lx, data, colon + 1, at, depth, x, next, sep, tail)
            ==> MemberStands(lx, data, pos, start, depth, Member(k, x), next, sep, tail)
  {
    if NameStands(lx, data, pos, start, k, mid, colon) && ItemStands(lx, data, colon + 1, at, depth, x, next, sep, tail) {
      NameThenValue(lx, data, start, depth, k, mid, colon, x, next);
    }
  }

  /** The name and the colon. */
  lemma {:induction false} NamePart(lx: Atoms, lv: Leaves, p: Pair, data: Bytes, pos: nat, after: Bytes)
    returns (start: nat, mid: nat, colon: nat)
    requires Obeys(lx, lv) && Blank(p.before) && Blank(p.left) && lv.quoted(p.text, p.name)
    requires At(data, pos, p.before + (p.text + (p.left + ([COLON] + after))))
    ensures NameStands(lx, data, pos, start, p.name, mid, colon) && At(data, colon + 1, after)
    ensures colon == pos + |p.before| + |p.text| + |p.left|
  {
    assert p.text != [] && p.text[0] == QUOTE;
    start, mid, colon := pos + |p.before|, pos + |p.before| + |p.text|, pos + |p.before| + |p.text| + |p.left|;
    GapNameGap(data, pos, p.before, p.text, p.left, after);
    NameReads(lx, lv, p.text, p.name, data, start);
  }

  lemma {:induction false} GapNameGap(data: Bytes, pos: nat, before: Bytes, text: Bytes, left: Bytes, after: Bytes)
    requires Blank(before) && Blank(left) && text != [] && text[0] == QUOTE
    requires At(data, pos, before + (text + (left + ([COLON] + after))))
    ensures var start := pos + |before|;
      var mid := start + |text|;
      var colon := mid + |left|;
      && SkipSpace(data, pos) == start < |data| && data[start] == QUOTE && At(data, start, text) && mid <= |data|
      && SkipSpace(data, mid) == colon < |data| && data[colon] == COLON && At(data, colon + 1, after)
  {
    GapName(data, pos, before, text, left + ([COLON] + after));
    ColonGap(data, pos + |before| + |text|, left, after);
  }

  lemma {:induction false} GapName(data: Bytes, pos: nat, before: Bytes, text: Bytes, rest: Bytes)
    requires Blank(before) && text != [] && text[0] == QUOTE && At(data, pos, before + (text + rest))
    ensures var start := pos + |before|;
      && SkipSpace(data, pos) == start < |data| && data[start] == QUOTE && At(data, start, text)
      && At(data, start + |text|, rest)
  {
    SkipGap(data, pos, before, text + rest);
    AtSplit(data, pos + |before|, text, rest);
  }

  lemma {:induction false} ColonGap(data: Bytes, pos: nat, left: Bytes, after: Bytes)
    requires Blank(left) && At(data, pos, left + ([COLON] + after))
    ensures var colon := pos + |left|;
      pos <= |data| && SkipSpace(data, pos) == colon < |data| && data[colon] == COLON && At(data, colon + 1, after)
  {
    SkipGap(data, pos, left, [COLON] + after);
    AtSplit(data, pos + |left|, [COLON], after);
  }

  lemma {:induction false} PairParts(p: Pair, tail: Bytes)
    ensures PairText(p) + tail == p.before + (p.text + (p.left + ([COLON] + (ItemText(p.item) + tail))))
    ensures |PairText(p)| == |p.before| + |p.text| + |p.left| + 1 + |ItemText(p.item)|
  {
  }

  // ---- whatever is read is a tree ----

  lemma {:induction false} SlicesOf(data: Bytes, a: nat, b: nat, c: nat, d: nat)
    requires a <= b <= c <= d <= |data|
    ensures data[a..d] == data[a..b] + (data[b..c] + data[c..d])
  {
  }

  lemma {:induction false} ByteBefore(data: Bytes, a: nat, b: nat)
    requires a < b <= |data|
    ensures data[a..b] == [data[a]] + data[a + 1..b] && data[a..b] == data[a..b - 1] + [data[b - 1]]
  {
  }

  lemma {:induction false} GapCloses(data: Bytes, next: nat)
    requires next <= |data| && SkipSpace(data, next) < |data|
    requires var b := data[SkipSpace(data, next)]; b == COMMA || b == CLOSE_BRACKET || b == CLOSE_BRACE
    ensures Closed(data, next)
  {
  }

  lemma {:induction false} TreeOf(lx: Atoms, lv: Leaves, data: Bytes, pos: nat, depth: nat) returns (t: Tree)
    requires Obeys(lx, lv) && depth <= MAX_DEPTH && pos <= |data| && ReadValue(lx, data, pos, depth).Ok?
    requires Closed(data, ReadValue(lx, data, pos, depth).value.next)
    ensures StandsFor(lv, t, data, pos, depth, ReadValue(lx, data, pos, depth).value)
    decreases |data| - pos, 3
  {
    var c := data[pos];
    if c == OPEN_BRACKET {
      t := ListOf(lx, lv, data, pos, depth);
    } else if c == OPEN_BRACE {
      t := DictOf(lx, lv, data, pos, depth);
    } else {
      t := LeafOf(lx, lv, data, pos, depth);
    }
  }

  /** t is a tree of the text from pos to p.next, and its value is p.v. */
  ghost predicate StandsFor(lv: Leaves, t: Tree, data: Bytes, pos: nat, depth: nat, p: Parsed<Value>)
  {
    && depth <= MAX_DEPTH && GoodTree(lv, t, MAX_DEPTH - depth) && pos <= p.next <= |data|
    && TreeText(t) == data[pos..p.next] && TreeValue(t) == p.v
  }

  lemma {:induction false} LeafOf(lx: Atoms, lv: Leaves, data: Bytes, pos: nat, depth: nat) returns (t: Tree)
    requires Obeys(lx, lv) && depth <= MAX_DEPTH && pos < |data| && ReadValue(lx, data, pos, depth).Ok?
    requires data[pos] != OPEN_BRACKET && data[pos] != OPEN_BRACE
    requires Closed(data, ReadValue(lx, data, pos, depth).value.next)
    ensures StandsFor(lv, t, data, pos, depth, ReadValue(lx, data, pos, depth).value)
  {
    var p := ReadValue(lx, data, pos, depth).value;
    if data[pos] == QUOTE {
      assert StringLaw(lx, lv, data, pos, p.v.s, p.next);
      t := Quoted(data[pos..p.next], p.v.s);
    } else if NumberByte(data[pos]) {
      assert NumberLaw(lx, lv, data, pos, p.v.f, p.next);
      t := Numeral(data[pos..p.next], p.v.f);
    } else {
      t := Word(p.v);
    }
  }

  lemma {:induction false} ListOf(lx: Atoms, lv: Leaves, data: Bytes, pos: nat, depth: nat) returns (t: Tree)
    requires Obeys(lx, lv) && depth <= MAX_DEPTH && pos < |data| && data[pos] == OPEN_BRACKET
    requires ReadValue(lx, data, pos, depth).Ok?
    ensures StandsFor(lv, t, data, pos, depth, ReadValue(lx, data, pos, depth).value)
    decreases |data| - pos, 2
  {
    var p := ReadValue(lx, data, pos, depth).value;
    var start := SkipSpace(data, pos + 1);
    InsideArray(lx, data, pos, depth);
    EmptyArray(lx, data, pos, depth);
    if start < |data| && data[start] == CLOSE_BRACKET {
      t := List(data[pos + 1..start], []);
      EmptyListStands(lv, data, pos, start, depth);
    } else {
      var items := ItemsOf(lx, lv, data, pos + 1, depth + 1);
      t := List([], items);
      ListStands(lv, items, data, pos, depth, ReadItems(lx, data, start, depth + 1).value);
    }
  }

  lemma {:induction false} EmptyListStands(lv: Leaves, data: Bytes, pos: nat, start: nat, depth: nat)
    requires depth < MAX_DEPTH && pos < |data| && data[pos] == OPEN_BRACKET
    requires start == SkipSpace(data, pos + 1) < |data| && data[start] == CLOSE_BRACKET
    ensures StandsFor(lv, List(data[pos + 1..start], []), data, pos, depth, Parsed(Arr([]), start + 1))
  {
    GapToEnd(data, pos + 1);
    ByteBefore(data, pos, start + 1);
    ByteBefore(data, pos + 1, start + 1);
    ListParts(List(data[pos + 1..start], []));
  }

  lemma {:induction false} ListStands(
    lv: Leaves, items: seq<Item>, data: Bytes, pos: nat, depth: nat, p: Parsed<seq<Value>>)
    requires depth < MAX_DEPTH && pos < |data| && data[pos] == OPEN_BRACKET
    requires ItemsStandFor(lv, items, data, pos + 1, depth + 1, p)
    ensures StandsFor(lv, List([], items), data, pos, depth, Parsed(Arr(p.v), p.next))
  {
    ByteBefore(data, pos, p.next);
    ByteBefore(data, pos + 1, p.next);
    ListParts(List([], items));
  }

  lemma {:induction false} InsideArray(lx: Atoms, data: Bytes, pos: nat, depth: nat)
    requires Bounded(lx) && pos < |data| && ReadValue(lx, data, pos, depth).Ok?
    requires data[pos] == OPEN_BRACKET || data[pos] == OPEN_BRACE
    ensures depth < MAX_DEPTH && pos < ReadValue(lx, data, pos, depth).value.next <= |data|
  {
    if data[pos] == OPEN_BRACKET {
      assert ReadValue(lx, data, pos, depth) == ArrayAt(lx, data, pos, depth);
    } else {
      assert ReadValue(lx, data, pos, depth) == ObjectAt(lx, data, pos, depth);
    }
  }

  /** One step back: what stands behind an answer for items. */
  lemma {:induction false} ItemsBehind(lx: Atoms, data: Bytes, pos: nat, depth: nat)
    requires Bounded(lx) && pos <= |data| && ReadItems(lx, data, pos, depth).Ok?
    ensures ReadValue(lx, data, pos, depth).Ok?
    ensures var x, all := ReadValue(lx, data, pos, depth).value, ReadItems(lx, data, pos, depth).value;
      && pos < x.next <= |data|
      && var sep := SkipSpace(data, x.next);
      && sep < |data| && (data[sep] == COMMA || data[sep] == CLOSE_BRACKET)
      && (data[sep] == CLOSE_BRACKET ==> all == Parsed([x.v], sep + 1))
      && (data[sep] == COMMA ==>
            && ReadItems(lx, data, SkipSpace(data, sep + 1), depth).Ok?
            && var more := ReadItems(lx, data, SkipSpace(data, sep + 1), depth).value; all == Parsed([x.v] + more.v, more.next))
  {
  }

  lemma {:induction false} ItemsOf(lx: Atoms, lv: Leaves, data: Bytes, pos: nat, depth: nat) returns (items: seq<Item>)
    requires Obeys(lx, lv) && 0 < depth <= MAX_DEPTH && pos <= |data| && ReadItems(lx, data, SkipSpace(data, pos), depth).Ok?
    ensures ItemsStandFor(lv, items, data, pos, depth, ReadItems(lx, data, SkipSpace(data, pos), depth).value)
    decreases |data| - pos, 4
  {
    var start := SkipSpace(data, pos);
    var all := ReadItems(lx, data, start, depth).value;
    ItemsBehind(lx, data, start, depth);
    var x := ReadValue(lx, data, start, depth).value;
    var sep := SkipSpace(data, x.next);
    GapCloses(data, x.next);
    var tree := TreeOf(lx, lv, data, start, depth);
    var item := ItemOf(lv, tree, data, pos, depth, x);
    if data[sep] == COMMA {
      var more := ItemsOf(lx, lv, data, sep + 1, depth);
      items := [item] + more;
      MoreItemsStand(lv, item, more, data, pos, sep, depth, x.v, ReadItems(lx, data, SkipSpace(data, sep + 1), depth).value);
    } else {
      items := [item];
      OneItemStands(lv, item, data, pos, sep, depth, x.v);
    }
  }

  /** items are the text from pos on without the bracket that closes it at p.next - 1, and their values are p.v. */
  ghost predicate ItemsStandFor(lv: Leaves, items: seq<Item>, data: Bytes, pos: nat, depth: nat, p: Parsed<seq<Value>>)
  {
    && depth <= MAX_DEPTH && items != [] && GoodItems(lv, items, MAX_DEPTH - depth) && pos < p.next <= |data|
    && data[p.next - 1] == CLOSE_BRACKET && ListText(items) == data[pos..p.next - 1] && ListValues(items) == p.v
  }

  /** item is the text from pos to sep, and its value is x. */
  ghost predicate ItemStandsFor(lv: Leaves, item: Item, data: Bytes, pos: nat, sep: nat, depth: nat, x: Value)
  {
    && depth <= MAX_DEPTH && ItemGood(lv, item, MAX_DEPTH - depth) && pos <= sep <= |data|
    && ItemText(item) == data[pos..sep] && TreeValue(item.tree) == x
  }

  lemma {:induction false} ItemOf(lv: Leaves, tree: Tree, data: Bytes, pos: nat, depth: nat, p: Parsed<Value>) returns (item: Item)
    requires pos <= |data| && StandsFor(lv, tree, data, SkipSpace(data, pos), depth, p)
    ensures ItemStandsFor(lv, item, data, pos, SkipSpace(data, p.next), depth, p.v)
  {
    var start, sep := SkipSpace(data, pos), SkipSpace(data, p.next);
    GapToEnd(data, pos);
    GapToEnd(data, p.next);
    SlicesOf(data, pos, start, p.next, sep);
    item := Item(data[pos..start], tree, data[p.next..sep]);
    ItemParts(item, []);
  }

  lemma {:induction false} OneItemStands(lv: Leaves, item: Item, data: Bytes, pos: nat, sep: nat, depth: nat, x: Value)
    requires ItemStandsFor(lv, item, data, pos, sep, depth, x) && sep < |data| && data[sep] == CLOSE_BRACKET
    ensures ItemsStandFor(lv, [item], data, pos, depth, Parsed([x], sep + 1))
  {
    ListTextCons([item], [CLOSE_BRACKET]);
    assert ItemText(item) + [] == ItemText(item);
  }

  lemma {:induction false} MoreItemsStand(
    lv: Leaves, item: Item, more: seq<Item>, data: Bytes, pos: nat, sep: nat, depth: nat, x: Value, p: Parsed<seq<Value>>)
    requires ItemStandsFor(lv, item, data, pos, sep, depth, x) && sep < |data| && data[sep] == COMMA
    requires ItemsStandFor(lv, more, data, sep + 1, depth, p)
    ensures ItemsStandFor(lv, [item] + more, data, pos, depth, Parsed([x] + p.v, p.next))
  {
    var items := [item] + more;
    assert items[1..] == more;
    assert ListText(items) == ItemText(item) + ([COMMA] + ListText(more));
    SlicesOf(data, pos, sep, sep + 1, p.next - 1);
    assert data[sep..sep + 1] == [COMMA];
    assert ListValues(items) == [TreeValue(item.tree)] + ListValues(more);
  }

  lemma {:induction false} DictOf(lx: Atoms, lv: Leaves, data: Bytes, pos: nat, depth: nat) returns (t: Tree)
    requires Obeys(lx, lv) && depth <= MAX_DEPTH && pos < |data| && data[pos] == OPEN_BRACE
    requires ReadValue(lx, data, pos, depth).Ok?
    ensures StandsFor(lv, t, data, pos, depth, ReadValue(lx, data, pos, depth).value)
    decreases |data| - pos, 2
  {
    var p := ReadValue(lx, data, pos, depth).value;
    var start := SkipSpace(data, pos + 1);
    InsideArray(lx, data, pos, depth);
    EmptyObject(lx, data, pos, depth);
    if start < |data| && data[start] == CLOSE_BRACE {
      t := Dict(data[pos + 1..start], []);
      EmptyDictStands(lv, data, pos, start, depth);
    } else {
      var pairs := PairsOf(lx, lv, data, pos + 1, depth + 1);
      t := Dict([], pairs);
      DictStands(lv, pairs, data, pos, depth, ReadMembers(lx, data, start, depth + 1).value);
    }
  }

  lemma {:induction false} EmptyDictStands(lv: Leaves, data: Bytes, pos: nat, start: nat, depth: nat)
    requires depth < MAX_DEPTH && pos < |data| && data[pos] == OPEN_BRACE
    requires start == SkipSpace(data, pos + 1) < |data| && data[start] == CLOSE_BRACE
    ensures StandsFor(lv, Dict(data[pos + 1..start], []), data, pos, depth, Parsed(Obj(map[]), start + 1))
  {
    GapToEnd(data, pos + 1);
    ByteBefore(data, pos, start + 1);
    ByteBefore(data, pos + 1, start + 1);
    DictParts(Dict(data[pos + 1..start], []));
  }

  lemma {:induction false} DictStands(
    lv: Leaves, pairs: seq<Pair>, data: Bytes, pos: nat, depth: nat, p: Parsed<seq<Member>>)
    requires depth < MAX_DEPTH && pos < |data| && data[pos] == OPEN_BRACE && Distinct(p.v)
    requires PairsStandFor(lv, pairs, data, pos + 1, depth + 1, p)
    ensures StandsFor(lv, Dict([], pairs), data, pos, depth, Parsed(Obj(Collect(p.v)), p.next))
  {
    ByteBefore(data, pos, p.next);
    ByteBefore(data, pos + 1, p.next);
    DictParts(Dict([], pairs));
  }

  lemma {:induction false} MembersBehind(lx: Atoms, data: Bytes, pos: nat, depth: nat)
    requires Bounded(lx) && pos <= |data| && ReadMembers(lx, data, pos, depth).Ok?
    ensures ReadMember(lx, data, pos, depth).Ok?
    ensures var x, all := ReadMember(lx, data, pos, depth).value, ReadMembers(lx, data, pos, depth).value;
      && pos < x.next <= |data|
      && var sep := SkipSpace(data, x.next);
      && sep < |data| && (data[sep] == COMMA || data[sep] == CLOSE_BRACE)
      && (data[sep] == CLOSE_BRACE ==> all == Parsed([x.v], sep + 1))
      && (data[sep] == COMMA ==>
            && ReadMembers(lx, data, SkipSpace(data, sep + 1), depth).Ok?
            && var more := ReadMembers(lx, data, SkipSpace(data, sep + 1), depth).value; all == Parsed([x.v] + more.v, more.next))
  {
  }

  lemma {:induction false} MemberBehind(lx: Atoms, data: Bytes, pos: nat, depth: nat)
    requires Bounded(lx) && pos <= |data| && ReadMember(lx, data, pos, depth).Ok?
    ensures pos < |data| && data[pos] == QUOTE && lx.readString(data, pos).Ok?
    ensures var k, m := lx.readString(data, pos).value, ReadMember(lx, data, pos, depth).value;
      && pos < k.next <= |data|
      && var colon := SkipSpace(data, k.next);
      && colon < |data| && data[colon] == COLON
      && ReadValue(lx, data, SkipSpace(data, colon + 1), depth).Ok?
      && var x := ReadValue(lx, data, SkipSpace(data, colon + 1), depth).value; m == Parsed(Member(k.v, x.v), x.next)
  {
  }

  lemma {:induction false} PairsOf(lx: Atoms, lv: Leaves, data: Bytes, pos: nat, depth: nat) returns (pairs: seq<Pair>)
    requires Obeys(lx, lv) && 0 < depth <= MAX_DEPTH && pos <= |data| && ReadMembers(lx, data, SkipSpace(data, pos), depth).Ok?
    ensures PairsStandFor(lv, pairs, data, pos, depth, ReadMembers(lx, data, SkipSpace(data, pos), depth).value)
    decreases |data| - pos, 5
  {
    var start := SkipSpace(data, pos);
    MembersBehind(lx, data, start, depth);
    var x := ReadMember(lx, data, start, depth).value;
    var sep := SkipSpace(data, x.next);
    var p := PairOf(lx, lv, data, pos, depth);
    if data[sep] == COMMA {
      var more := PairsOf(lx, lv, data, sep + 1, depth);
      pairs := [p] + more;
      MorePairsStand(lv, p, more, data, pos, sep, depth, x.v, ReadMembers(lx, data, SkipSpace(data, sep + 1), depth).value);
    } else {
      pairs := [p];
      OnePairStands(lv, p, data, pos, sep, depth, x.v);
    }
  }

  ghost predicate PairsStandFor(lv: Leaves, pairs: seq<Pair>, data: Bytes, pos: nat, depth: nat, p: Parsed<seq<Member>>)
  {
    && depth <= MAX_DEPTH && pairs != [] && GoodPairs(lv, pairs, MAX_DEPTH - depth) && pos < p.next <= |data|
    && data[p.next - 1] == CLOSE_BRACE && DictText(pairs) == data[pos..p.next - 1] && DictMembers(pairs) == p.v
  }

  ghost predicate PairStandsFor(lv: Leaves, p: Pair, data: Bytes, pos: nat, sep: nat, depth: nat, m: Member)
  {
    && depth <= MAX_DEPTH && PairGood(lv, p, MAX_DEPTH - depth) && pos <= sep <= |data|
    && PairText(p) == data[pos..sep] && Member(p.name, TreeValue(p.item.tree)) == m
  }

  lemma {:induction false} PairOf(lx: Atoms, lv: Leaves, data: Bytes, pos: nat, depth: nat) returns (p: Pair)
    requires Obeys(lx, lv) && 0 < depth <= MAX_DEPTH && pos <= |data| && ReadMember(lx, data, SkipSpace(data, pos), depth).Ok?
    requires var x := ReadMember(lx, data, SkipSpace(data, pos), depth).value;
      && x.next <= |data| && SkipSpace(data, x.next) < |data|
      && (data[SkipSpace(data, x.next)] == COMMA || data[SkipSpace(data, x.next)] == CLOSE_BRACE)
    ensures var x := ReadMember(lx, data, SkipSpace(data, pos), depth).value;
      PairStandsFor(lv, p, data, pos, SkipSpace(data, x.next), depth, x.v)
    decreases |data| - pos, 4
  {
    var start := SkipSpace(data, pos);
    MemberBehind(lx, data, start, depth);
    var k := lx.readString(data, start).value;
    var colon := SkipSpace(data, k.next);
    var x := ReadValue(lx, data, SkipSpace(data, colon + 1), depth).value;
    GapCloses(data, x.next);
    var tree := TreeOf(lx, lv, data, SkipSpace(data, colon + 1), depth);
    var item := ItemOf(lv, tree, data, colon + 1, depth, x);
    assert StringLaw(lx, lv, data, start, k.v, k.next);
    p := Pair(data[pos..start], data[start..k.next], k.v, data[k.next..colon], item);
    PairStands(lv, p, data, pos, start, k.next, colon, SkipSpace(data, x.next), depth, x.v);
  }

  lemma {:induction false} PairStands(
    lv: Leaves, p: Pair, data: Bytes, pos: nat, start: nat, mid: nat, colon: nat, sep: nat, depth: nat, x: Value)
    requires pos <= start <= mid <= colon < |data| && data[colon] == COLON
    requires start == SkipSpace(data, pos) && colon == SkipSpace(data, mid)
    requires p.before == data[pos..start] && p.text == data[start..mid] && p.left == data[mid..colon] && lv.quoted(p.text, p.name)
    requires ItemStandsFor(lv, p.item, data, colon + 1, sep, depth, x)
    ensures PairStandsFor(lv, p, data, pos, sep, depth, Member(p.name, x))
  {
    GapToEnd(data, pos);
    GapToEnd(data, mid);
    ByteBefore(data, colon, sep);
    SlicesOf(data, start, mid, colon, sep);
    SlicesOf(data, pos, start, start, sep);
    assert data[start..start] == [];
  }

  lemma {:induction false} OnePairStands(lv: Leaves, p: Pair, data: Bytes, pos: nat, sep: nat, depth: nat, m: Member)
    requires PairStandsFor(lv, p, data, pos, sep, depth, m) && sep < |data| && data[sep] == CLOSE_BRACE
    ensures PairsStandFor(lv, [p], data, pos, depth, Parsed([m], sep + 1))
  {
    DictTextCons([p], [CLOSE_BRACE]);
    assert PairText(p) + [] == PairText(p);
  }

  lemma {:induction false} MorePairsStand(
    lv: Leaves, p: Pair, more: seq<Pair>, data: Bytes, pos: nat, sep: nat, depth: nat, m: Member, q: Parsed<seq<Member>>)
    requires PairStandsFor(lv, p, data, pos, sep, depth, m) && sep < |data| && data[sep] == COMMA
    requires PairsStandFor(lv, more, data, sep + 1, depth, q)
    ensures PairsStandFor(lv, [p] + more, data, pos, depth, Parsed([m] + q.v, q.next))
  {
    var pairs := [p] + more;
    assert pairs[1..] == more;
    assert DictText(pairs) == PairText(p) + ([COMMA] + DictText(more));
    SlicesOf(data, pos, sep, sep + 1, q.next - 1);
    assert data[sep..sep + 1] == [COMMA];
    assert DictMembers(pairs) == [Member(p.name, TreeValue(p.item.tree))] + DictMembers(more);
  }

  // ---- the grammar ----

  /** data is white space, a tree of at most 128 levels with the value v, and white space. */
  ghost predicate Spells(lv: Leaves, data: Bytes, v: Value)
  {
    exists g, t, h :: Blank(g) && Blank(h) && GoodTree(lv, t, 128) && data == g + (TreeText(t) + h) && TreeValue(t) == v
  }

  /** The parser accepts exactly the texts of the grammar, and gives each its value. */
  lemma {:induction false} ParsesExactly(lx: Atoms, lv: Leaves, data: Bytes, v: Value)
    requires Obeys(lx, lv)
    ensures ParseJson(lx, data) == Ok(v) <==> Spells(lv, data, v)
  {
    if ParseJson(lx, data) == Ok(v) { ParsedIsSpelled(lx, lv, data, v); }
    if Spells(lv, data, v) { SpelledParses(lx, lv, data, v); }
  }

  lemma {:induction false} ParsedIsSpelled(lx: Atoms, lv: Leaves, data: Bytes, v: Value)
    requires Obeys(lx, lv) && ParseJson(lx, data) == Ok(v)
    ensures Spells(lv, data, v)
  {
    var start := SkipSpace(data, 0);
    ParseBehind(lx, data, v);
    var p := ReadValue(lx, data, start, 0).value;
    var t := TreeOf(lx, lv, data, start, 0);
    WholeSpelled(lv, t, data, start, p);
  }

  lemma {:induction false} ParseBehind(lx: Atoms, data: Bytes, v: Value)
    requires Bounded(lx) && ParseJson(lx, data) == Ok(v)
    ensures var r := ReadValue(lx, data, SkipSpace(data, 0), 0);
      r.Ok? && r.value.v == v && r.value.next <= |data| && SkipSpace(data, r.value.next) == |data| && Closed(data, r.value.next)
  {
  }

  lemma {:induction false} WholeSpelled(lv: Leaves, t: Tree, data: Bytes, start: nat, p: Parsed<Value>)
    requires start == SkipSpace(data, 0) && StandsFor(lv, t, data, start, 0, p) && SkipSpace(data, p.next) == |data|
    ensures Spells(lv, data, p.v)
  {
    GapToEnd(data, 0);
    GapToEnd(data, p.next);
    SlicesOf(data, 0, start, p.next, |data|);
    Whole(data);
  }

  lemma {:induction false} Whole(data: Bytes)
    ensures data[0..|data|] == data
  {
  }

  lemma {:induction false} SpelledParses(lx: Atoms, lv: Leaves, data: Bytes, v: Value)
    requires Obeys(lx, lv) && Spells(lv, data, v)
    ensures ParseJson(lx, data) == Ok(v)
  {
    var g, t, h :| Blank(g) && Blank(h) && GoodTree(lv, t, 128) && data == g + (TreeText(t) + h) && TreeValue(t) == v;
    TreeStarts(lv, t, 128);
    var next := |g| + |TreeText(t)|;
    GapValueEnd(data, g, TreeText(t), h);
    TreeReads(lx, lv, t, data, |g|, 0);
    ParsesWhen(lx, data, |g|, v, next);
  }

  lemma {:induction false} GapValueEnd(data: Bytes, g: Bytes, text: Bytes, h: Bytes)
    requires Blank(g) && Blank(h) && text != [] && Starts(text[0]) && data == g + (text + h)
    ensures var next := |g| + |text|;
      && SkipSpace(data, 0) == |g| && At(data, |g|, text) && next <= |data| && SkipSpace(data, next) == |data| && Closed(data, next)
  {
    var next := |g| + |text|;
    Whole(data);
    SkipGap(data, 0, g, text + h);
    AtSplit(data, |g|, text, h);
    if h != [] { AtByte(data, next, h, 0); }
    assert data[next..] == h;
    GapToEnd(data, next);
  }

  lemma {:induction false} ParsesWhen(lx: Atoms, data: Bytes, start: nat, v: Value, next: nat)
    requires Bounded(lx) && start == SkipSpace(data, 0) && next <= |data| && SkipSpace(data, next) == |data|
    ensures ReadValue(lx, data, start, 0) == Ok(Parsed(v, next)) ==> ParseJson(lx, data) == Ok(v)
  {
  }

  // ---- the canonical form as a tree ----

  /** No white space, names in ascending order of UTF-16 units, and the printer's spelling of every leaf. */
  ghost predicate IsCanonical(lx: Atoms, t: Tree)
    decreases t
  {
    match t
    case Word(v) => v.Null? || v.Bool?
    case Numeral(text, f) => text == lx.printNumber(f)
    case Quoted(text, s) => text == lx.printString(s)
    case List(gap, items) => gap == [] && forall i | 0 <= i < |items| :: CanonicalItem(lx, items[i])
    case Dict(gap, pairs) =>
      && gap == [] && (forall i | 0 <= i < |pairs| :: CanonicalPair(lx, pairs[i]))
      && (forall i, j | 0 <= i < j < |pairs| :: NameLess(pairs[i].name, pairs[j].name))
  }

  ghost predicate CanonicalItem(lx: Atoms, item: Item)
    decreases item
  {
    item.before == item.after == [] && IsCanonical(lx, item.tree)
  }

  ghost predicate CanonicalPair(lx: Atoms, p: Pair)
    decreases p
  {
    p.before == p.left == [] && p.text == lx.printString(p.name) && CanonicalItem(lx, p.item)
  }

  /** The canonical form of a value is the text of a canonical tree with that value. */
  lemma {:induction false} CanonicalForm(lx: Atoms, v: Value) returns (t: Tree)
    requires Named(v)
    ensures IsCanonical(lx, t) && TreeText(t) == ValueText(lx, v) && TreeValue(t) == v
    decreases v, 2
  {
    match v
    case Null => t := Word(v);
    case Bool(_) => t := Word(v);
    case Number(f) => t := Numeral(lx.printNumber(f), f);
    case Str(s) => t := Quoted(lx.printString(s), s);
    case Arr(values) =>
      var items := CanonicalItems(lx, v, 0);
      t := List([], items);
      ListParts(t);
      assert values[0..] == values;
      if items == [] { assert ItemsMeaning(items) == []; }
      ArrayText(lx, v);
    case Obj(_) =>
      var names := Sorted(v.members.Keys);
      SortedNames(v);
      var pairs := CanonicalPairs(lx, v, names);
      t := Dict([], pairs);
      DictParts(t);
      if pairs == [] { assert PairsMeaning(pairs) == []; }
      PrintObject(lx, v, names);
      CollectAll(v, names);
  }

  lemma {:induction false} ArrayText(lx: Atoms, v: Value)
    requires Named(v) && v.Arr?
    ensures JsonParse.ValueText(lx, v) == [OPEN_BRACKET] + (JsonParse.ItemsText(lx, v, 0) + [CLOSE_BRACKET])
  {
  }

  lemma {:induction false} CanonicalItems(lx: Atoms, v: Value, i: nat) returns (items: seq<Item>)
    requires Named(v) && v.Arr? && i <= |v.items|
    ensures |items| == |v.items| - i && (forall j | 0 <= j < |items| :: CanonicalItem(lx, items[j]))
    ensures ListText(items) == JsonParse.ItemsText(lx, v, i) && ListValues(items) == v.items[i..]
    decreases v, 1, |v.items| - i
  {
    if i == |v.items| {
      items := [];
    } else {
      var tree := CanonicalForm(lx, v.items[i]);
      var more := CanonicalItems(lx, v, i + 1);
      var item := Item([], tree, []);
      items := [item] + more;
      ItemParts(item, []);
      NoGaps(TreeText(tree));
      ItemsCons(item, more);
      ItemsTextStep(lx, v, i);
      assert v.items[i..] == [v.items[i]] + v.items[i + 1..];
    }
  }

  lemma {:induction false} NoGaps(text: Bytes)
    ensures [] + (text + []) == text && text + [] == text
  {
  }

  lemma {:induction false} ItemsCons(item: Item, more: seq<Item>)
    ensures ListText([item] + more) == ItemText(item) + (if more == [] then [] else [COMMA] + ListText(more))
    ensures ListValues([item] + more) == [TreeValue(item.tree)] + ListValues(more)
  {
    assert ([item] + more)[1..] == more;
  }

  lemma {:induction false} ItemsTextStep(lx: Atoms, v: Value, i: nat)
    requires Named(v) && v.Arr? && i < |v.items|
    ensures JsonParse.ItemsText(lx, v, i)
            == ValueText(lx, v.items[i]) + (if i + 1 == |v.items| then [] else [COMMA] + JsonParse.ItemsText(lx, v, i + 1))
  {
  }

  /** The members of v with the given names. */
  ghost function MembersIn(v: Value, names: seq<Bytes>): seq<Member>
    requires NamesOf(v, names)
  {
    seq(|names|, j requires 0 <= j < |names| => Member(names[j], v.members[names[j]]))
  }

  /** Canonical members with these names. */
  ghost predicate PairsNamed(lx: Atoms, pairs: seq<Pair>, names: seq<Bytes>)
  {
    |pairs| == |names| && forall j | 0 <= j < |pairs| :: CanonicalPair(lx, pairs[j]) && pairs[j].name == names[j]
  }

  lemma {:induction false} CanonicalPairs(lx: Atoms, v: Value, names: seq<Bytes>) returns (pairs: seq<Pair>)
    requires Named(v) && NamesOf(v, names)
    ensures PairsNamed(lx, pairs, names) && DictText(pairs) == MembersText(lx, v, names) && DictMembers(pairs) == MembersIn(v, names)
    decreases v, 1, |names|
  {
    if names == [] {
      pairs := [];
    } else {
      var k, rest := names[0], names[1..];
      var tree := CanonicalForm(lx, v.members[k]);
      var more := CanonicalPairs(lx, v, rest);
      var p := Pair([], lx.printString(k), k, [], Item([], tree, []));
      pairs := [p] + more;
      PlainPair(lx, v, k, p);
      NamedCons(lx, p, more, names);
      PairsCons(p, more);
      MembersTextStep(lx, v, names);
      MembersInCons(v, names);
    }
  }

  lemma {:induction false} NamedCons(lx: Atoms, p: Pair, more: seq<Pair>, names: seq<Bytes>)
    requires names != [] && PairsNamed(lx, more, names[1..]) && CanonicalPair(lx, p) && p.name == names[0]
    ensures PairsNamed(lx, [p] + more, names)
  {
    var pairs := [p] + more;
    forall j | 0 <= j < |pairs| ensures CanonicalPair(lx, pairs[j]) && pairs[j].name == names[j] {
      if j > 0 { assert more[j - 1].name == names[1..][j - 1]; }
    }
  }

  lemma {:induction false} MembersInCons(v: Value, names: seq<Bytes>)
    requires NamesOf(v, names) && names != []
    ensures MembersIn(v, names) == [Member(names[0], v.members[names[0]])] + MembersIn(v, names[1..])
  {
  }

  lemma {:induction false} PlainPair(lx: Atoms, v: Value, k: Bytes, p: Pair)
    requires Named(v) && v.Obj? && k in v.members
    requires p == Pair([], lx.printString(k), k, [], Item([], p.item.tree, [])) && TreeText(p.item.tree) == ValueText(lx, v.members[k])
    ensures PairText(p) == MemberText(lx, v, k)
  {
    PairParts(p, []);
    ItemParts(p.item, []);
    NoGaps(TreeText(p.item.tree));
    assert PairText(p) + [] == PairText(p) && ItemText(p.item) + [] == ItemText(p.item);
  }

  lemma {:induction false} PairsCons(p: Pair, more: seq<Pair>)
    ensures DictText([p] + more) == PairText(p) + (if more == [] then [] else [COMMA] + DictText(more))
    ensures DictMembers([p] + more) == [Member(p.name, TreeValue(p.item.tree))] + DictMembers(more)
  {
    assert ([p] + more)[1..] == more;
  }

  lemma {:induction false} MembersTextStep(lx: Atoms, v: Value, names: seq<Bytes>)
    requires Named(v) && NamesOf(v, names) && names != []
    ensures MembersText(lx, v, names)
            == MemberText(lx, v, names[0]) + (if |names| == 1 then [] else [COMMA] + MembersText(lx, v, names[1..]))
  {
  }

  lemma {:induction false} CollectAll(v: Value, names: seq<Bytes>)
    requires v.Obj? && NamesOf(v, names) && Ascending(names) && NameSet(names) == v.members.Keys
    ensures Collect(MembersIn(v, names)) == v.members
  {
    var ms := MembersIn(v, names);
    forall i, j | 0 <= i < j < |ms| ensures ms[i].name != ms[j].name {
      assert NameLess(names[i], names[j]);
      LowerTotal(Units(names[i]), Units(names[i]));
    }
    CollectOf(ms);
    assert forall i | 0 <= i < |ms| :: ms[i].name in v.members && ms[i].v == v.members[ms[i].name];
    forall k | k in v.members ensures exists i :: 0 <= i < |ms| && ms[i].name == k {
      assert k in NameSet(names);
      var i :| 0 <= i < |names| && names[i] == k;
      assert ms[i].name == k;
    }
    SameMap(v.members, ms);
  }

  lemma {:induction false} SameMap(members: map<Bytes, Value>, ms: seq<Member>)
    requires forall k :: k in Collect(ms) <==> exists i :: 0 <= i < |ms| && ms[i].name == k
    requires forall i | 0 <= i < |ms| :: ms[i].name in Collect(ms) && Collect(ms)[ms[i].name] == ms[i].v
    requires forall i | 0 <= i < |ms| :: ms[i].name in members && ms[i].v == members[ms[i].name]
    requires forall k | k in members :: exists i :: 0 <= i < |ms| && ms[i].name == k
    ensures Collect(ms) == members
  {
    assert Collect(ms).Keys == members.Keys;
    forall k | k in members ensures Collect(ms)[k] == members[k] {
      var i :| 0 <= i < |ms| && ms[i].name == k;
    }
  }

  // ---- for the standard spelling ----

  /** A number is a token of the grammar whose value rounds to f. */
  ghost predicate SpellsNumber(rd: Rounding, w: Bytes, f: Dec)
  {
    exists t :: SpellsToken(w, t) && rd.round(TokenValue(t)) == Some(f)
  }

  ghost function Rfc8259(rd: Rounding): Leaves
  {
    Leaves((w: Bytes, f: Dec) => SpellsNumber(rd, w, f), (w: Bytes, s: Bytes) => SpellsString(w, s))
  }

  lemma {:induction false} StandardNumberLaw(rd: Rounding, data: Bytes, pos: nat, f: Dec, next: nat)
    ensures NumberLaw(Standard(rd), Rfc8259(rd), data, pos, f, next)
  {
    if pos < |data| && next <= |data| && Ends(data, next) {
      if ReadNumber(rd, data, pos) == Ok(Parsed(f, next)) { ReadNumberIsSpelled(rd, data, pos, f, next); }
      if pos < next && SpellsNumber(rd, data[pos..next], f) { SpelledNumberIsRead(rd, data, pos, f, next); }
    }
  }

  lemma {:induction false} ReadNumberIsSpelled(rd: Rounding, data: Bytes, pos: nat, f: Dec, next: nat)
    requires pos < |data| && ReadNumber(rd, data, pos) == Ok(Parsed(f, next))
    ensures pos < next <= |data| && SpellsNumber(rd, data[pos..next], f)
  {
    NumberSpelled(data, pos);
  }

  lemma {:induction false} SpelledNumberIsRead(rd: Rounding, data: Bytes, pos: nat, f: Dec, next: nat)
    requires pos < next <= |data| && Ends(data, next) && SpellsNumber(rd, data[pos..next], f)
    ensures ReadNumber(rd, data, pos) == Ok(Parsed(f, next))
  {
    var w := data[pos..next];
    var t :| SpellsToken(w, t) && rd.round(TokenValue(t)) == Some(f);
    SpelledNumberReads(data, pos, w, t);
  }

  lemma {:induction false} StandardStringLaw(rd: Rounding, data: Bytes, pos: nat, s: Bytes, next: nat)
    ensures StringLaw(Standard(rd), Rfc8259(rd), data, pos, s, next)
  {
    if pos < |data| && data[pos] == QUOTE { StringsExactly(data, pos, s, next); }
  }

  lemma {:induction false} TokenStarts(w: Bytes, t: Token)
    requires SpellsToken(w, t)
    ensures w != [] && NumberByte(w[0])
  {
    assert w[0] == Mantissa(t)[0];
  }

  lemma {:induction false} StandardObeys(rd: Rounding)
    ensures Obeys(Standard(rd), Rfc8259(rd))
  {
    var lx, lv := Standard(rd), Rfc8259(rd);
    StandardIsBounded(rd);
    forall w, f | lv.numeral(w, f) ensures w != [] && NumberByte(w[0]) {
      var t :| SpellsToken(w, t) && rd.round(TokenValue(t)) == Some(f);
      TokenStarts(w, t);
    }
    forall data: Bytes, pos: nat, f: Dec, next: nat ensures NumberLaw(lx, lv, data, pos, f, next) {
      StandardNumberLaw(rd, data, pos, f, next);
    }
    forall data: Bytes, pos: nat, s: Bytes, next: nat ensures StringLaw(lx, lv, data, pos, s, next) {
      StandardStringLaw(rd, data, pos, s, next);
    }
  }

  /**
   The strict parser accepts exactly the JSON texts of RFC 8259 whose strings are free of noncharacters and lone
   surrogates, whose numbers fit binary64, whose names differ within each object and that nest at most 128 levels.
   */
  lemma {:induction false} JsonExactly(rd: Rounding, data: Bytes, v: Value)
    ensures Bounded(Standard(rd)) && (ParseJson(Standard(rd), data) == Ok(v) <==> Spells(Rfc8259(rd), data, v))
  {
    StandardObeys(rd);
    ParsesExactly(Standard(rd), Rfc8259(rd), data, v);
  }
}
