/** The strict decoder's null check. */
module NullWalks {
  // The refusal of CBOR undefined, and of null where a value must be: a cursor walk over the bytes, held
  // against the tree of data items those bytes spell (RFC 8949 section 3).

  import opened Octets

  // ---- trees of data items ----

  /** How many bytes a head spends on its argument; the shortest form is not required. */
  datatype Width = W0 | W1 | W2 | W4 | W8

  function Size(w: Width): nat
  {
    match w case W0 => 0 case W1 => 1 case W2 => 2 case W4 => 4 case W8 => 8
  }

  predicate ArgFits(w: Width, arg: u64)
  {
    if w.W0? then arg < 24 else arg < Pow256(Size(w))
  }

  function AdditionalInfo(w: Width, arg: u64): (ai: nat)
    requires ArgFits(w, arg)
    ensures ai < 28
  {
    match w case W0 => arg case W1 => 24 case W2 => 25 case W4 => 26 case W8 => 27
  }

  function HeadOf(major: nat, w: Width, arg: u64): (s: Bytes)
    requires major < 8 && ArgFits(w, arg)
    ensures |s| == 1 + Size(w) && s[0] == 32 * major + AdditionalInfo(w, arg)
  {
    [32 * major + AdditionalInfo(w, arg)] + Be(arg, Size(w))
  }

  datatype Chunk = Chunk(w: Width, s: Bytes)
  datatype Pair = Pair(key: Item, val: Item)

  /** A definite array or map has the width of its length; an indefinite one has none. Tags are not items here. */
  datatype Item =
    | Number(negative: bool, w: Width, arg: u64)
    | Str(utf8: bool, w: Width, s: Bytes)
    | Chunked(utf8: bool, chunks: seq<Chunk>)
    | Arr(aw: Option<Width>, items: seq<Item>)
    | Dict(dw: Option<Width>, pairs: seq<Pair>)
    | Simple(w: Width, arg: u64)
    | Null
    | Undefined

  predicate LengthFits(w: Width, n: nat)
  {
    n < TWO_64 && ArgFits(w, n)
  }

  predicate ChunkOk(c: Chunk)
  {
    LengthFits(c.w, |c.s|)
  }

  predicate WellFormed(it: Item)
    decreases it
  {
    match it
    case Number(_, w, arg) => ArgFits(w, arg)
    case Str(_, w, s) => LengthFits(w, |s|)
    case Chunked(_, chunks) => forall c | c in chunks :: ChunkOk(c)
    case Arr(aw, items) => (aw.Some? ==> LengthFits(aw.value, |items|)) && ItemsOk(items)
    case Dict(dw, pairs) => (dw.Some? ==> LengthFits(dw.value, |pairs|)) && PairsOk(pairs)
    case Simple(w, arg) => ArgFits(w, arg) && (w.W0? ==> arg < 22) && (w.W1? ==> arg >= 32)
    case Null => true
    case Undefined => true
  }

  predicate ItemsOk(items: seq<Item>)
    decreases items
  {
    items == [] || (WellFormed(items[0]) && ItemsOk(items[1..]))
  }

  predicate PairsOk(pairs: seq<Pair>)
    decreases pairs
  {
    pairs == [] || (PairOk(pairs[0]) && PairsOk(pairs[1..]))
  }

  predicate PairOk(p: Pair)
    decreases p
  {
    WellFormed(p.key) && WellFormed(p.val)
  }

  const BREAK: byte := 0xff
  const NULL_BYTE: byte := 0xf6
  const UNDEFINED_BYTE: byte := 0xf7

  function StrMajor(utf8: bool): nat { if utf8 then 3 else 2 }

  function Encode(it: Item): (s: Bytes)
    requires WellFormed(it)
    ensures s != []
    decreases it
  {
    match it
    case Number(negative, w, arg) => HeadOf(if negative then 1 else 0, w, arg)
    case Str(utf8, w, t) => HeadOf(StrMajor(utf8), w, |t|) + t
    case Chunked(utf8, chunks) => [32 * StrMajor(utf8) + 31] + EncodeChunks(utf8, chunks)
    case Arr(aw, items) =>
      if aw.Some? then HeadOf(4, aw.value, |items|) + EncodeItems(items)
      else [0x9f] + (EncodeItems(items) + [BREAK])
    case Dict(dw, pairs) =>
      if dw.Some? then HeadOf(5, dw.value, |pairs|) + EncodePairs(pairs)
      else [0xbf] + (EncodePairs(pairs) + [BREAK])
    case Simple(w, arg) => HeadOf(7, w, arg)
    case Null => [NULL_BYTE]
    case Undefined => [UNDEFINED_BYTE]
  }

  /** The chunks of an indefinite-length string and the break that ends them. */
  function EncodeChunks(utf8: bool, chunks: seq<Chunk>): (s: Bytes)
    requires forall c | c in chunks :: ChunkOk(c)
    ensures s != []
    decreases chunks
  {
    if chunks == [] then [BREAK]
    else
      assert ChunkOk(chunks[0]);
      (HeadOf(StrMajor(utf8), chunks[0].w, |chunks[0].s|) + chunks[0].s) + EncodeChunks(utf8, chunks[1..])
  }

  function EncodeItems(items: seq<Item>): Bytes
    requires ItemsOk(items)
    decreases items
  {
    if items == [] then [] else Encode(items[0]) + EncodeItems(items[1..])
  }

  function EncodePairs(pairs: seq<Pair>): Bytes
    requires PairsOk(pairs)
    decreases pairs
  {
    if pairs == [] then [] else EncodePair(pairs[0]) + EncodePairs(pairs[1..])
  }

  function EncodePair(p: Pair): Bytes
    requires PairOk(p)
    decreases p
  {
    Encode(p.key) + Encode(p.val)
  }

  // ---- what an item decodes into ----

  /** Go types as the walk tells them apart; Custom has its own UnmarshalCBOR, Struct is named by its description. */
  datatype GoType =
    | Pointer(elem: GoType) | Interface | RawMessage | Custom
    | Slice(elem: GoType) | Array(elem: GoType) | MapOf(key: GoType, elem: GoType) | Struct(id: nat) | Other

  /** How the decoder matches the fields of the struct types, by description. */
  datatype Structs = Structs(toArray: nat -> bool, elems: nat -> seq<GoType>, field: (nat, Bytes) -> Option<GoType>)

  datatype Target = Opaque | Unknown | Typed(t: GoType)

  predicate Nullable(t: GoType)
  {
    t.Pointer? || t.Interface? || t.RawMessage?
  }

  predicate NullRefused(tg: Target)
  {
    tg.Unknown? || (tg.Typed? && !Nullable(tg.t))
  }

  function Strip(t: GoType): GoType
  {
    if t.Pointer? then Strip(t.elem) else t
  }

  function ElemTarget(tg: Target): Target
  {
    if !tg.Typed? then tg
    else
      var t := Strip(tg.t);
      if t.Interface? || t.RawMessage? || t.Custom? then Opaque else Typed(t)
  }

  function ArrayElem(st: Structs, tg: Target, i: nat): Target
  {
    if !tg.Typed? then tg
    else if tg.t.Slice? || tg.t.Array? then Typed(tg.t.elem)
    else if tg.t.Struct? && st.toArray(tg.t.id) && i < |st.elems(tg.t.id)| then Typed(st.elems(tg.t.id)[i])
    else Unknown
  }

  predicate Keyed(st: Structs, tg: Target)
  {
    tg.Typed? && tg.t.Struct? && !st.toArray(tg.t.id)
  }

  function KeyTarget(st: Structs, tg: Target): Target
  {
    if !tg.Typed? then tg
    else if tg.t.MapOf? then Typed(tg.t.key)
    else if Keyed(st, tg) then Opaque
    else Unknown
  }

  function ValTarget(st: Structs, tg: Target, key: Bytes): Target
  {
    if !tg.Typed? then tg
    else if tg.t.MapOf? then Typed(tg.t.elem)
    else if Keyed(st, tg) && st.field(tg.t.id, key).Some? then Typed(st.field(tg.t.id, key).value)
    else Unknown
  }

  // ---- what the tree says ----

  const MAX_NULL_WALK_DEPTH: nat := 64

  datatype Step = Index(i: nat) | KeyItself | Member(key: Bytes)

  datatype WalkError =
    | Refused(undefined: bool, path: seq<Step>, into: Option<GoType>)
    | TooDeep | Short | ReservedInfo | WrongChunk | Trailing

  function NullError(tg: Target, path: seq<Step>): WalkError
  {
    Refused(false, path, if tg.Typed? then Some(tg.t) else None)
  }

  /** The first thing in document order to refuse about it against tg. */
  function Verdict(st: Structs, it: Item, tg: Target, depth: nat, path: seq<Step>): Option<WalkError>
    requires WellFormed(it)
    decreases it
  {
    if depth > MAX_NULL_WALK_DEPTH then Some(TooDeep)
    else
      match it
      case Undefined => Some(Refused(true, path, None))
      case Null => if NullRefused(tg) then Some(NullError(tg, path)) else None
      case Arr(_, items) => ItemsVerdict(st, items, ElemTarget(tg), 0, depth, path)
      case Dict(_, pairs) => PairsVerdict(st, pairs, ElemTarget(tg), depth, path)
      case _ => None
  }

  /** items are those from index i of an array on. */
  function ItemsVerdict(st: Structs, items: seq<Item>, tg: Target, i: nat, depth: nat, path: seq<Step>): Option<WalkError>
    requires ItemsOk(items)
    decreases items
  {
    if items == [] then None
    else
      var v := Verdict(st, items[0], ArrayElem(st, tg, i), depth + 1, path + [Index(i)]);
      if v.Some? then v else ItemsVerdict(st, items[1..], tg, i + 1, depth, path)
  }

  function PairsVerdict(st: Structs, pairs: seq<Pair>, tg: Target, depth: nat, path: seq<Step>): Option<WalkError>
    requires PairsOk(pairs)
    decreases pairs
  {
    if pairs == [] then None
    else
      var v := PairVerdict(st, pairs[0], tg, depth, path);
      if v.Some? then v else PairsVerdict(st, pairs[1..], tg, depth, path)
  }

  function PairVerdict(st: Structs, p: Pair, tg: Target, depth: nat, path: seq<Step>): Option<WalkError>
    requires PairOk(p)
    decreases p
  {
    var v := Verdict(st, p.key, KeyTarget(st, tg), depth + 1, path + [KeyItself]);
    if v.Some? then v
    else Verdict(st, p.val, ValTarget(st, tg, Encode(p.key)), depth + 1, path + [Member(Encode(p.key))])
  }

  // ---- the walk ----

  datatype Head = Head(major: nat, ai: nat, arg: u64, after: nat)

  function ArgSize(ai: nat): Option<nat>
  {
    if ai < 24 then Some(0) else if ai == 24 then Some(1) else if ai == 25 then Some(2)
    else if ai == 26 then Some(4) else if ai == 27 then Some(8) else None
  }

  /** The head at off, as the walk reads it. */
  function ReadHead(b: Bytes, off: nat): (r: Result<Head, WalkError>)
    ensures r.Ok? ==> off < r.value.after <= |b|
  {
    if off >= |b| then Err(Short)
    else
      var major, ai := b[off] / 32, b[off] % 32;
      if ai < 24 then Ok(Head(major, ai, ai, off + 1))
      else if ai == 31 then Ok(Head(major, ai, 0, off + 1))
      else if ai >= 28 then Err(ReservedInfo)
      else
        var n := ArgSize(ai).value;
        if |b| - off - 1 < n then Err(Short)
        else
          FromBeBound(b[off + 1..off + 1 + n]); Pow256Values();
          Ok(Head(major, ai, FromBe(b[off + 1..off + 1 + n]), off + 1 + n))
  }

  lemma {:induction false} ReadHeadOf(b: Bytes, off: nat, major: nat, w: Width, arg: u64)
    requires major < 8 && ArgFits(w, arg) && At(b, off, HeadOf(major, w, arg))
    ensures ReadHead(b, off) == Ok(Head(major, AdditionalInfo(w, arg), arg, off + 1 + Size(w)))
  {
    var s := HeadOf(major, w, arg);
    assert b[off] == b[off..off + |s|][0] == s[0];
    AtSplit(b, off, [s[0]], Be(arg, Size(w)));
    if !w.W0? { FromBeBe(arg, Size(w)); }
  }

  lemma {:induction false} ReadIndefinite(b: Bytes, off: nat, major: nat)
    requires major < 8 && off < |b| && b[off] == 32 * major + 31
    ensures ReadHead(b, off) == Ok(Head(major, 31, 0, off + 1))
  {
  }

  // ---- the bytes of a known item, piece by piece ----

  predicate ItemAt(b: Bytes, off: nat, it: Item)
  {
    WellFormed(it) && At(b, off, Encode(it))
  }

  function Ending(indefinite: bool): Bytes { if indefinite then [BREAK] else [] }

  function ItemsBody(items: seq<Item>, indefinite: bool): Bytes
    requires ItemsOk(items)
  {
    EncodeItems(items) + Ending(indefinite)
  }

  function PairsBody(pairs: seq<Pair>, indefinite: bool): Bytes
    requires PairsOk(pairs)
  {
    EncodePairs(pairs) + Ending(indefinite)
  }

  predicate ItemsAt(b: Bytes, off: nat, items: seq<Item>, indefinite: bool)
  {
    ItemsOk(items) && At(b, off, ItemsBody(items, indefinite))
  }

  predicate PairsAt(b: Bytes, off: nat, pairs: seq<Pair>, indefinite: bool)
  {
    PairsOk(pairs) && At(b, off, PairsBody(pairs, indefinite))
  }

  /** Only null and undefined begin with their bytes, and nothing begins with a break. */
  lemma {:induction false} FirstByte(b: Bytes, off: nat, it: Item)
    requires ItemAt(b, off, it)
    ensures off < |b| && b[off] != BREAK
    ensures (b[off] == UNDEFINED_BYTE <==> it.Undefined?) && (b[off] == NULL_BYTE <==> it.Null?)
  {
    assert b[off] == b[off..off + |Encode(it)|][0] == Encode(it)[0];
  }

  lemma {:induction false} NumberHead(b: Bytes, off: nat, it: Item)
    requires ItemAt(b, off, it) && (it.Number? || it.Simple?)
    ensures ReadHead(b, off).Ok?
    ensures var h := ReadHead(b, off).value;
      h.major in {0, 1, 7} && h.after == off + |Encode(it)|
  {
    ReadHeadOf(b, off, if it.Simple? then 7 else if it.negative then 1 else 0, it.w, it.arg);
  }

  lemma {:induction false} StrHead(b: Bytes, off: nat, it: Item)
    requires ItemAt(b, off, it) && it.Str?
    ensures ReadHead(b, off).Ok?
    ensures var h := ReadHead(b, off).value;
      h.major == StrMajor(it.utf8) && h.ai != 31 && h.after + h.arg == off + |Encode(it)| <= |b|
  {
    AtSplit(b, off, HeadOf(StrMajor(it.utf8), it.w, |it.s|), it.s);
    ReadHeadOf(b, off, StrMajor(it.utf8), it.w, |it.s|);
  }

  lemma {:induction false} ChunkedHead(b: Bytes, off: nat, it: Item)
    requires ItemAt(b, off, it) && it.Chunked?
    ensures ReadHead(b, off) == Ok(Head(StrMajor(it.utf8), 31, 0, off + 1))
    ensures ChunksAt(b, off + 1, it.utf8, it.chunks)
    ensures |Encode(it)| == 1 + |EncodeChunks(it.utf8, it.chunks)|
  {
    var first: Bytes := [32 * StrMajor(it.utf8) + 31];
    AtSplit(b, off, first, EncodeChunks(it.utf8, it.chunks));
    assert b[off] == b[off..off + 1][0];
    ReadIndefinite(b, off, StrMajor(it.utf8));
  }

  lemma {:induction false} ArrHead(b: Bytes, off: nat, it: Item)
    requires ItemAt(b, off, it) && it.Arr?
    ensures ReadHead(b, off).Ok?
    ensures var h := ReadHead(b, off).value;
      && h.major == 4 && (h.ai == 31 <==> it.aw.None?) && (h.ai != 31 ==> h.arg == |it.items|)
      && ItemsAt(b, h.after, it.items, h.ai == 31)
      && h.after + |ItemsBody(it.items, h.ai == 31)| == off + |Encode(it)|
  {
    var first: Bytes := if it.aw.Some? then HeadOf(4, it.aw.value, |it.items|) else [0x9f];
    assert Encode(it) == first + ItemsBody(it.items, it.aw.None?);
    AtSplit(b, off, first, ItemsBody(it.items, it.aw.None?));
    if it.aw.Some? {
      ReadHeadOf(b, off, 4, it.aw.value, |it.items|);
    } else {
      assert b[off] == b[off..off + 1][0];
      ReadIndefinite(b, off, 4);
    }
  }

  lemma {:induction false} DictHead(b: Bytes, off: nat, it: Item)
    requires ItemAt(b, off, it) && it.Dict?
    ensures ReadHead(b, off).Ok?
    ensures var h := ReadHead(b, off).value;
      && h.major == 5 && (h.ai == 31 <==> it.dw.None?) && (h.ai != 31 ==> h.arg == |it.pairs|)
      && PairsAt(b, h.after, it.pairs, h.ai == 31)
      && h.after + |PairsBody(it.pairs, h.ai == 31)| == off + |Encode(it)|
  {
    var first: Bytes := if it.dw.Some? then HeadOf(5, it.dw.value, |it.pairs|) else [0xbf];
    assert Encode(it) == first + PairsBody(it.pairs, it.dw.None?);
    AtSplit(b, off, first, PairsBody(it.pairs, it.dw.None?));
    if it.dw.Some? {
      ReadHeadOf(b, off, 5, it.dw.value, |it.pairs|);
    } else {
      assert b[off] == b[off..off + 1][0];
      ReadIndefinite(b, off, 5);
    }
  }

  lemma {:induction false} NextItem(b: Bytes, off: nat, items: seq<Item>, indefinite: bool)
    requires ItemsAt(b, off, items, indefinite)
    ensures indefinite ==> off < |b| && (b[off] == BREAK <==> items == [])
    ensures items == [] ==> |ItemsBody(items, indefinite)| == if indefinite then 1 else 0
    ensures items != [] ==>
      && ItemAt(b, off, items[0]) && ItemsAt(b, off + |Encode(items[0])|, items[1..], indefinite)
      && |ItemsBody(items, indefinite)| == |Encode(items[0])| + |ItemsBody(items[1..], indefinite)|
  {
    if items == [] {
      if indefinite { assert b[off] == b[off..off + 1][0]; }
    } else {
      assert ItemsBody(items, indefinite) == Encode(items[0]) + ItemsBody(items[1..], indefinite);
      AtSplit(b, off, Encode(items[0]), ItemsBody(items[1..], indefinite));
      FirstByte(b, off, items[0]);
    }
  }

  lemma {:induction false} NextPair(b: Bytes, off: nat, pairs: seq<Pair>, indefinite: bool)
    requires PairsAt(b, off, pairs, indefinite)
    ensures indefinite ==> off < |b| && (b[off] == BREAK <==> pairs == [])
    ensures pairs == [] ==> |PairsBody(pairs, indefinite)| == if indefinite then 1 else 0
    ensures pairs != [] ==>
      && PairAt(b, off, pairs[0]) && PairsAt(b, off + |EncodePair(pairs[0])|, pairs[1..], indefinite)
      && |PairsBody(pairs, indefinite)| == |EncodePair(pairs[0])| + |PairsBody(pairs[1..], indefinite)|
  {
    if pairs == [] {
      if indefinite { assert b[off] == b[off..off + 1][0]; }
    } else {
      assert PairsBody(pairs, indefinite) == EncodePair(pairs[0]) + PairsBody(pairs[1..], indefinite);
      AtSplit(b, off, EncodePair(pairs[0]), PairsBody(pairs[1..], indefinite));
      SplitPair(b, off, pairs[0]);
      FirstByte(b, off, pairs[0].key);
    }
  }

  predicate PairAt(b: Bytes, off: nat, p: Pair)
  {
    PairOk(p) && At(b, off, EncodePair(p))
  }

  lemma {:induction false} SplitPair(b: Bytes, off: nat, p: Pair)
    requires PairAt(b, off, p)
    ensures ItemAt(b, off, p.key) && ItemAt(b, off + |Encode(p.key)|, p.val)
    ensures b[off..off + |Encode(p.key)|] == Encode(p.key)
  {
    AtSplit(b, off, Encode(p.key), Encode(p.val));
  }

  ghost predicate ChunksAt(b: Bytes, off: nat, utf8: bool, chunks: seq<Chunk>)
  {
    (forall c | c in chunks :: ChunkOk(c)) && At(b, off, EncodeChunks(utf8, chunks))
  }

  lemma {:induction false} NextChunk(b: Bytes, off: nat, utf8: bool, chunks: seq<Chunk>)
    requires ChunksAt(b, off, utf8, chunks)
    ensures off < |b| && (b[off] == BREAK <==> chunks == [])
    ensures chunks != [] ==>
      var c := chunks[0];
      var k := 1 + Size(c.w);
      && ChunkOk(c)
      && ReadHead(b, off) == Ok(Head(StrMajor(utf8), AdditionalInfo(c.w, |c.s|), |c.s|, off + k))
      && off + k + |c.s| <= |b| && ChunksAt(b, off + k + |c.s|, utf8, chunks[1..])
      && |EncodeChunks(utf8, chunks)| == k + |c.s| + |EncodeChunks(utf8, chunks[1..])|
    ensures chunks == [] ==> |EncodeChunks(utf8, chunks)| == 1
  {
    if chunks == [] {
      assert b[off] == b[off..off + 1][0];
    } else {
      var c := chunks[0];
      assert ChunkOk(c);
      var h := HeadOf(StrMajor(utf8), c.w, |c.s|);
      AtSplit(b, off, h + c.s, EncodeChunks(utf8, chunks[1..]));
      AtSplit(b, off, h, c.s);
      ReadHeadOf(b, off, StrMajor(utf8), c.w, |c.s|);
      assert b[off] == b[off..off + |h|][0];
    }
  }

  /** The verdict on an item that is neither null nor undefined. */
  function ContentVerdict(st: Structs, it: Item, tg: Target, depth: nat, path: seq<Step>): Option<WalkError>
    requires WellFormed(it)
  {
    match it
    case Arr(_, items) => ItemsVerdict(st, items, tg, 0, depth, path)
    case Dict(_, pairs) => PairsVerdict(st, pairs, tg, depth, path)
    case _ => None
  }

  lemma {:induction false} ContentHead(b: Bytes, off: nat, it: Item)
    requires ItemAt(b, off, it) && !it.Null? && !it.Undefined?
    ensures ReadHead(b, off).Ok?
    ensures var h := ReadHead(b, off).value;
      match it
      case Number(_, _, _) => h.major in {0, 1, 7} && h.after == off + |Encode(it)|
      case Simple(_, _) => h.major in {0, 1, 7} && h.after == off + |Encode(it)|
      case Str(utf8, _, _) => h.major == StrMajor(utf8) && h.ai != 31 && h.after + h.arg == off + |Encode(it)| <= |b|
      case Chunked(utf8, chunks) =>
        && h == Head(StrMajor(utf8), 31, 0, off + 1) && ChunksAt(b, off + 1, utf8, chunks)
        && |Encode(it)| == 1 + |EncodeChunks(utf8, chunks)|
      case Arr(_, items) =>
        && h.major == 4 && (h.ai != 31 ==> h.arg == |items|) && ItemsAt(b, h.after, items, h.ai == 31)
        && h.after + |ItemsBody(items, h.ai == 31)| == off + |Encode(it)|
      case Dict(_, pairs) =>
        && h.major == 5 && (h.ai != 31 ==> h.arg == |pairs|) && PairsAt(b, h.after, pairs, h.ai == 31)
        && h.after + |PairsBody(pairs, h.ai == 31)| == off + |Encode(it)|
      case _ => true
  {
    match it
    case Number(_, _, _) => NumberHead(b, off, it);
    case Simple(_, _) => NumberHead(b, off, it);
    case Str(_, _, _) => StrHead(b, off, it);
    case Chunked(_, _) => ChunkedHead(b, off, it);
    case Arr(_, _) => ArrHead(b, off, it);
    case Dict(_, _) => DictHead(b, off, it);
    case _ =>
  }

  class NullWalk {
    const st: Structs
    const b: Bytes
    var off: nat
    var path: seq<Step>

    constructor (st: Structs, b: Bytes)
      ensures this.st == st && this.b == b && off == 0 && path == []
    {
      this.st, this.b, off, path := st, b, 0, [];
    }

    method ReadArg(n: nat) returns (arg: nat)
      requires off + n <= |b|
      modifies this`off
      ensures off == old(off) + n && arg == FromBe(b[old(off)..old(off) + n])
    {
      arg := 0;
      var i := 0;
      while i < n
        invariant 0 <= i <= n && off == old(off) && arg == FromBe(b[off..off + i])
      {
        assert b[off..off + i + 1][..i] == b[off..off + i];
        arg := arg * 256 + b[off + i];
        i := i + 1;
      }
      off := off + n;
    }

    /** Reads the initial byte and argument of the item at off. */
    method ReadItemHead() returns (r: Result<Head, WalkError>)
      requires off <= |b|
      modifies this`off
      ensures r == ReadHead(b, old(off))
      ensures old(off) <= off <= |b| && (r.Ok? ==> off == r.value.after)
    {
      if off >= |b| {
        return Err(Short);
      }
      var ib := b[off];
      off := off + 1;
      var major, ai := ib / 32, ib % 32;
      if ai < 24 {
        return Ok(Head(major, ai, ai, off));
      }
      if ai == 31 {
        return Ok(Head(major, ai, 0, off));
      }
      var n := 0;
      if ai == 24 {
        n := 1;
      } else if ai == 25 {
        n := 2;
      } else if ai == 26 {
        n := 4;
      } else if ai == 27 {
        n := 8;
      } else {
        return Err(ReservedInfo);
      }
      if |b| - off < n {
        return Err(Short);
      }
      FromBeBound(b[off..off + n]);
      Pow256Values();
      var arg := ReadArg(n);
      r := Ok(Head(major, ai, arg, off));
    }

    /** Consumes a break, if there is one. */
    method IsBreak() returns (r: Result<bool, WalkError>)
      requires off <= |b|
      modifies this`off
      ensures r == if old(off) >= |b| then Err(Short) else Ok(b[old(off)] == BREAK)
      ensures off == if r == Ok(true) then old(off) + 1 else old(off)
    {
      if off >= |b| {
        return Err(Short);
      }
      if b[off] == BREAK {
        off := off + 1;
        return Ok(true);
      }
      r := Ok(false);
    }

    method Skip(n: u64) returns (e: Option<WalkError>)
      requires off <= |b|
      modifies this`off
      ensures e == if |b| - old(off) < n then Some(Short) else None
      ensures off == if e.None? then old(off) + n else old(off)
    {
      if |b| - off < n {
        return Some(Short);
      }
      off := off + n;
      e := None;
    }

    /** The chunks of an indefinite-length string; those of known, when the bytes at off spell it. */
    method SkipChunks(major: nat, ghost known: Option<(bool, seq<Chunk>)>) returns (e: Option<WalkError>)
      requires off <= |b|
      requires known.Some? ==> ChunksAt(b, off, known.value.0, known.value.1) && major == StrMajor(known.value.0)
      modifies this`off
      ensures old(off) <= off <= |b|
      ensures known.Some? ==> e.None? && off == old(off) + |EncodeChunks(known.value.0, known.value.1)|
    {
      ghost var rest := if known.Some? then known.value.1 else [];
      ghost var utf8 := if known.Some? then known.value.0 else false;
      ghost var until := if known.Some? then off + |EncodeChunks(utf8, rest)| else 0;
      while true
        invariant old(off) <= off <= |b|
        invariant known.Some? ==> ChunksAt(b, off, utf8, rest) && off + |EncodeChunks(utf8, rest)| == until
        decreases |b| - off
      {
        if known.Some? { NextChunk(b, off, utf8, rest); }
        var brk := IsBreak();
        if brk.Err? {
          return Some(brk.error);
        }
        if brk.value {
          return None;
        }
        var h := ReadItemHead();
        if h.Err? {
          return Some(h.error);
        }
        if h.value.major != major {
          return Some(WrongChunk);
        }
        e := Skip(h.value.arg);
        if e.Some? {
          return;
        }
        if known.Some? { rest := rest[1..]; }
      }
    }

    /**
     Walks one data item against its target. Whatever the bytes are, it never reads past them; when they spell
     the item known, its verdict is that of the tree, and acceptance consumes exactly the item.
     */
    method WalkItem(tg: Target, depth: nat, ghost known: Option<Item>) returns (e: Option<WalkError>)
      requires off <= |b| && (known.Some? ==> ItemAt(b, off, known.value))
      modifies this`off, this`path
      ensures old(off) <= off <= |b| && (e.None? ==> old(off) < off && path == old(path))
      ensures known.Some? ==> e == Verdict(st, known.value, tg, depth, old(path))
      ensures known.Some? && e.None? ==> off == old(off) + |Encode(known.value)|
      decreases |b| - off, 1
    {
      if depth > MAX_NULL_WALK_DEPTH {
        return Some(TooDeep);
      }
      if known.Some? { FirstByte(b, off, known.value); }
      if off >= |b| {
        return Some(Short);
      }
      if b[off] == UNDEFINED_BYTE {
        return Some(Refused(true, path, None));
      }
      if b[off] == NULL_BYTE {
        if tg.Unknown? {
          return Some(Refused(false, path, None));
        }
        if tg.Typed? && !Nullable(tg.t) {
          return Some(Refused(false, path, Some(tg.t)));
        }
        off := off + 1;
        return None;
      }
      e := WalkContent(ElemTarget(tg), depth, known);
    }

    /** The item at off, which is neither null nor undefined; tg is past the pointers. */
    method WalkContent(tg: Target, depth: nat, ghost known: Option<Item>) returns (e: Option<WalkError>)
      requires off < |b| && (known.Some? ==> ItemAt(b, off, known.value))
      requires known.Some? ==> !known.value.Null? && !known.value.Undefined?
      modifies this`off, this`path
      ensures old(off) <= off <= |b| && (e.None? ==> old(off) < off && path == old(path))
      ensures known.Some? ==> e == ContentVerdict(st, known.value, tg, depth, old(path))
      ensures known.Some? && e.None? ==> off == old(off) + |Encode(known.value)|
      decreases |b| - off, 0
    {
      if known.Some? { ContentHead(b, off, known.value); }
      var r := ReadItemHead();
      if r.Err? {
        return Some(r.error);
      }
      var h := r.value;
      if h.major == 0 || h.major == 1 {
        return None;
      }
      if h.major == 2 || h.major == 3 {
        if h.ai == 31 {
          e := SkipChunks(h.major, if known.Some? then Some((known.value.utf8, known.value.chunks)) else None);
          return;
        }
        e := Skip(h.arg);
        return;
      }
      if h.major == 4 {
        e := WalkArray(tg, h.ai == 31, h.arg, depth, if known.Some? then Some(known.value.items) else None);
        return;
      }
      if h.major == 5 {
        e := WalkMap(tg, h.ai == 31, h.arg, depth, if known.Some? then Some(known.value.pairs) else None);
        return;
      }
      if h.major == 6 {
        e := WalkItem(tg, depth + 1, None);
        return;
      }
      e := None;
    }

    method WalkArray(tg: Target, indefinite: bool, n: u64, depth: nat, ghost known: Option<seq<Item>>)
      returns (e: Option<WalkError>)
      requires off <= |b|
      requires known.Some? ==> ItemsAt(b, off, known.value, indefinite) && (!indefinite ==> n == |known.value|)
      modifies this`off, this`path
      ensures old(off) <= off <= |b| && (e.None? ==> path == old(path))
      ensures known.Some? ==> e == ItemsVerdict(st, known.value, tg, 0, depth, old(path))
      ensures known.Some? && e.None? ==> off == old(off) + |ItemsBody(known.value, indefinite)|
      decreases |b| - off, 3
    {
      ghost var rest := if known.Some? then known.value else [];
      ghost var until := if known.Some? then off + |ItemsBody(rest, indefinite)| else 0;
      var i := 0;
      while true
        invariant old(off) <= off <= |b| && path == old(path)
        invariant known.Some? ==>
          && ItemsAt(b, off, rest, indefinite) && (!indefinite ==> i + |rest| == n)
          && off + |ItemsBody(rest, indefinite)| == until
          && ItemsVerdict(st, known.value, tg, 0, depth, path) == ItemsVerdict(st, rest, tg, i, depth, path)
        decreases |b| - off
      {
        if known.Some? { NextItem(b, off, rest, indefinite); }
        if indefinite {
          var brk := IsBreak();
          if brk.Err? {
            return Some(brk.error);
          }
          if brk.value {
            return None;
          }
        } else if i >= n {
          return None;
        }
        e := WalkMember(Index(i), ArrayElem(st, tg, i), depth, if known.Some? then Some(rest[0]) else None);
        if e.Some? {
          return;
        }
        if known.Some? { rest := rest[1..]; }
        i := i + 1;
      }
    }

    /** One member of an array or map: its step is on the path while it is walked. */
    method WalkMember(step: Step, tg: Target, depth: nat, ghost known: Option<Item>) returns (e: Option<WalkError>)
      requires off <= |b| && (known.Some? ==> ItemAt(b, off, known.value))
      modifies this`off, this`path
      ensures old(off) <= off <= |b| && (e.None? ==> old(off) < off && path == old(path))
      ensures known.Some? ==> e == Verdict(st, known.value, tg, depth + 1, old(path) + [step])
      ensures known.Some? && e.None? ==> off == old(off) + |Encode(known.value)|
      decreases |b| - off, 2, 0
    {
      path := path + [step];
      e := WalkItem(tg, depth + 1, known);
      if e.Some? {
        return;
      }
      path := path[..|path| - 1];
    }

    method WalkMap(tg: Target, indefinite: bool, n: u64, depth: nat, ghost known: Option<seq<Pair>>)
      returns (e: Option<WalkError>)
      requires off <= |b|
      requires known.Some? ==> PairsAt(b, off, known.value, indefinite) && (!indefinite ==> n == |known.value|)
      modifies this`off, this`path
      ensures old(off) <= off <= |b| && (e.None? ==> path == old(path))
      ensures known.Some? ==> e == PairsVerdict(st, known.value, tg, depth, old(path))
      ensures known.Some? && e.None? ==> off == old(off) + |PairsBody(known.value, indefinite)|
      decreases |b| - off, 3
    {
      ghost var rest := if known.Some? then known.value else [];
      ghost var until := if known.Some? then off + |PairsBody(rest, indefinite)| else 0;
      var i := 0;
      while true
        invariant old(off) <= off <= |b| && path == old(path)
        invariant known.Some? ==>
          && PairsAt(b, off, rest, indefinite) && (!indefinite ==> i + |rest| == n)
          && off + |PairsBody(rest, indefinite)| == until
          && PairsVerdict(st, known.value, tg, depth, path) == PairsVerdict(st, rest, tg, depth, path)
        decreases |b| - off
      {
        if known.Some? { NextPair(b, off, rest, indefinite); }
        if indefinite {
          var brk := IsBreak();
          if brk.Err? {
            return Some(brk.error);
          }
          if brk.value {
            return None;
          }
        } else if i >= n {
          return None;
        }
        e := WalkPair(tg, depth, if known.Some? then Some(rest[0]) else None);
        if e.Some? {
          return;
        }
        if known.Some? { rest := rest[1..]; }
        i := i + 1;
      }
    }

    /** A key, and the value whose target the key's bytes choose. */
    method WalkPair(tg: Target, depth: nat, ghost known: Option<Pair>) returns (e: Option<WalkError>)
      requires off <= |b| && (known.Some? ==> PairAt(b, off, known.value))
      modifies this`off, this`path
      ensures old(off) <= off <= |b| && (e.None? ==> old(off) < off && path == old(path))
      ensures known.Some? ==> e == PairVerdict(st, known.value, tg, depth, old(path))
      ensures known.Some? && e.None? ==> off == old(off) + |EncodePair(known.value)|
      decreases |b| - off, 2, 1
    {
      if known.Some? { SplitPair(b, off, known.value); }
      var keyStart := off;
      e := WalkMember(KeyItself, KeyTarget(st, tg), depth, if known.Some? then Some(known.value.key) else None);
      if e.Some? {
        return;
      }
      var key := b[keyStart..off];
      e := WalkMember(Member(key), ValTarget(st, tg, key), depth, if known.Some? then Some(known.value.val) else None);
    }
  }

  // ---- what acceptance means for the tree ----

  /** No undefined anywhere in it, and no null where its target must hold a value. */
  predicate Clean(st: Structs, it: Item, tg: Target)
    requires WellFormed(it)
    decreases it
  {
    match it
    case Undefined => false
    case Null => !NullRefused(tg)
    case Arr(_, items) => CleanItems(st, items, ElemTarget(tg), 0)
    case Dict(_, pairs) => CleanPairs(st, pairs, ElemTarget(tg))
    case _ => true
  }

  predicate CleanItems(st: Structs, items: seq<Item>, tg: Target, i: nat)
    requires ItemsOk(items)
    decreases items
  {
    items == [] || (Clean(st, items[0], ArrayElem(st, tg, i)) && CleanItems(st, items[1..], tg, i + 1))
  }

  predicate CleanPairs(st: Structs, pairs: seq<Pair>, tg: Target)
    requires PairsOk(pairs)
    decreases pairs
  {
    pairs == [] || (CleanPair(st, pairs[0], tg) && CleanPairs(st, pairs[1..], tg))
  }

  predicate CleanPair(st: Structs, p: Pair, tg: Target)
    requires PairOk(p)
    decreases p
  {
    Clean(st, p.key, KeyTarget(st, tg)) && Clean(st, p.val, ValTarget(st, tg, Encode(p.key)))
  }

  /** How many levels of arrays and maps stand on top of one another. */
  function Nesting(it: Item): nat
    decreases it
  {
    match it
    case Arr(_, items) => DeepestItem(items)
    case Dict(_, pairs) => DeepestPair(pairs)
    case _ => 0
  }

  function Max(a: nat, b: nat): nat { if a < b then b else a }

  /** One more than the nesting of the deepest item; 0 for none. */
  function DeepestItem(items: seq<Item>): nat
    decreases items
  {
    if items == [] then 0 else Max(1 + Nesting(items[0]), DeepestItem(items[1..]))
  }

  function DeepestPair(pairs: seq<Pair>): nat
    decreases pairs
  {
    if pairs == [] then 0 else Max(PairNesting(pairs[0]), DeepestPair(pairs[1..]))
  }

  function PairNesting(p: Pair): nat
    decreases p
  {
    1 + Max(Nesting(p.key), Nesting(p.val))
  }

  /** The walk accepts exactly the clean trees within the depth bound. */
  lemma {:induction false} AcceptedExactlyWhenClean(st: Structs, it: Item, tg: Target, depth: nat, path: seq<Step>)
    requires WellFormed(it)
    ensures Verdict(st, it, tg, depth, path).None?
            <==> depth + Nesting(it) <= MAX_NULL_WALK_DEPTH && Clean(st, it, tg)
    ensures depth + Nesting(it) <= MAX_NULL_WALK_DEPTH && !Clean(st, it, tg) ==> Verdict(st, it, tg, depth, path).value.Refused?
    decreases it
  {
    match it
    case Arr(_, items) =>
      if depth <= MAX_NULL_WALK_DEPTH { AcceptedItems(st, items, ElemTarget(tg), 0, depth, path); }
    case Dict(_, pairs) =>
      if depth <= MAX_NULL_WALK_DEPTH { AcceptedPairs(st, pairs, ElemTarget(tg), depth, path); }
    case _ =>
  }

  lemma {:induction false} AcceptedItems(st: Structs, items: seq<Item>, tg: Target, i: nat, depth: nat, path: seq<Step>)
    requires ItemsOk(items) && depth <= MAX_NULL_WALK_DEPTH
    ensures ItemsVerdict(st, items, tg, i, depth, path).None?
            <==> depth + DeepestItem(items) <= MAX_NULL_WALK_DEPTH && CleanItems(st, items, tg, i)
    ensures depth + DeepestItem(items) <= MAX_NULL_WALK_DEPTH && !CleanItems(st, items, tg, i)
            ==> ItemsVerdict(st, items, tg, i, depth, path).value.Refused?
    decreases items
  {
    if items != [] {
      AcceptedExactlyWhenClean(st, items[0], ArrayElem(st, tg, i), depth + 1, path + [Index(i)]);
      AcceptedItems(st, items[1..], tg, i + 1, depth, path);
    }
  }

  lemma {:induction false} AcceptedPairs(st: Structs, pairs: seq<Pair>, tg: Target, depth: nat, path: seq<Step>)
    requires PairsOk(pairs) && depth <= MAX_NULL_WALK_DEPTH
    ensures PairsVerdict(st, pairs, tg, depth, path).None?
            <==> depth + DeepestPair(pairs) <= MAX_NULL_WALK_DEPTH && CleanPairs(st, pairs, tg)
    ensures depth + DeepestPair(pairs) <= MAX_NULL_WALK_DEPTH && !CleanPairs(st, pairs, tg)
            ==> PairsVerdict(st, pairs, tg, depth, path).value.Refused?
    decreases pairs
  {
    if pairs != [] {
      AcceptedPair(st, pairs[0], tg, depth, path);
      AcceptedPairs(st, pairs[1..], tg, depth, path);
    }
  }

  lemma {:induction false} AcceptedPair(st: Structs, p: Pair, tg: Target, depth: nat, path: seq<Step>)
    requires PairOk(p)
    ensures PairVerdict(st, p, tg, depth, path).None?
            <==> depth + PairNesting(p) <= MAX_NULL_WALK_DEPTH && CleanPair(st, p, tg)
    ensures depth + PairNesting(p) <= MAX_NULL_WALK_DEPTH && !CleanPair(st, p, tg)
            ==> PairVerdict(st, p, tg, depth, path).value.Refused?
    decreases p
  {
    AcceptedExactlyWhenClean(st, p.key, KeyTarget(st, tg), depth + 1, path + [KeyItself]);
    AcceptedExactlyWhenClean(
      st, p.val, ValTarget(st, tg, Encode(p.key)), depth + 1, path + [Member(Encode(p.key))]);
  }

  // ---- items without a type to hold them to ----

  predicate NoUndefined(it: Item)
    decreases it
  {
    match it
    case Undefined => false
    case Arr(_, items) => NoUndefinedItems(items)
    case Dict(_, pairs) => NoUndefinedPairs(pairs)
    case _ => true
  }

  predicate NoUndefinedItems(items: seq<Item>)
    decreases items
  {
    items == [] || (NoUndefined(items[0]) && NoUndefinedItems(items[1..]))
  }

  predicate NoUndefinedPairs(pairs: seq<Pair>)
    decreases pairs
  {
    pairs == [] || (NoUndefinedPair(pairs[0]) && NoUndefinedPairs(pairs[1..]))
  }

  predicate NoUndefinedPair(p: Pair)
    decreases p
  {
    NoUndefined(p.key) && NoUndefined(p.val)
  }

  lemma {:induction false} OpaqueTakesEveryNull(st: Structs, it: Item)
    requires WellFormed(it)
    ensures Clean(st, it, Opaque) <==> NoUndefined(it)
    decreases it
  {
    match it
    case Arr(_, items) => OpaqueItems(st, items, 0);
    case Dict(_, pairs) => OpaquePairs(st, pairs);
    case _ =>
  }

  lemma {:induction false} OpaqueItems(st: Structs, items: seq<Item>, i: nat)
    requires ItemsOk(items)
    ensures CleanItems(st, items, Opaque, i) <==> NoUndefinedItems(items)
    decreases items
  {
    if items != [] {
      OpaqueTakesEveryNull(st, items[0]);
      OpaqueItems(st, items[1..], i + 1);
    }
  }

  lemma {:induction false} OpaquePairs(st: Structs, pairs: seq<Pair>)
    requires PairsOk(pairs)
    ensures CleanPairs(st, pairs, Opaque) <==> NoUndefinedPairs(pairs)
    decreases pairs
  {
    if pairs != [] {
      OpaquePair(st, pairs[0]);
      OpaquePairs(st, pairs[1..]);
    }
  }

  lemma {:induction false} OpaquePair(st: Structs, p: Pair)
    requires PairOk(p)
    ensures CleanPair(st, p, Opaque) <==> NoUndefinedPair(p)
    decreases p
  {
    OpaqueTakesEveryNull(st, p.key);
    OpaqueTakesEveryNull(st, p.val);
  }

  /** A type that decodes itself is handed any item without undefined, but not the null itself. */
  lemma {:induction false} CustomTypeIsNotHandedNull(st: Structs, it: Item)
    requires WellFormed(it)
    ensures Clean(st, it, Typed(Custom)) <==> !it.Null? && NoUndefined(it)
  {
    OpaqueTakesEveryNull(st, it);
  }

  // ---- the byte scan ----

  predicate Quiet(s: Bytes)
  {
    NULL_BYTE !in s && UNDEFINED_BYTE !in s
  }

  lemma {:induction false} QuietParts(s: Bytes, t: Bytes)
    requires Quiet(s + t)
    ensures Quiet(s) && Quiet(t)
  {
    assert forall i | 0 <= i < |s| :: s[i] == (s + t)[i];
    assert forall i | 0 <= i < |t| :: t[i] == (s + t)[|s| + i];
  }

  lemma {:induction false} QuietFirst(s: Bytes)
    requires Quiet(s) && s != []
    ensures s[0] != NULL_BYTE && s[0] != UNDEFINED_BYTE
  {
  }

  /** Bytes without 0xf6 and 0xf7 spell nothing to refuse, whatever the target: the short cut is sound. */
  lemma {:induction false} QuietIsClean(st: Structs, it: Item, tg: Target)
    requires WellFormed(it) && Quiet(Encode(it))
    ensures Clean(st, it, tg)
    decreases it
  {
    QuietFirst(Encode(it));
    match it
    case Arr(aw, items) =>
      if aw.Some? { QuietParts(HeadOf(4, aw.value, |items|), EncodeItems(items)); }
      else { QuietParts([0x9f], EncodeItems(items) + [BREAK]); QuietParts(EncodeItems(items), [BREAK]); }
      QuietItems(st, items, ElemTarget(tg), 0);
    case Dict(dw, pairs) =>
      if dw.Some? { QuietParts(HeadOf(5, dw.value, |pairs|), EncodePairs(pairs)); }
      else { QuietParts([0xbf], EncodePairs(pairs) + [BREAK]); QuietParts(EncodePairs(pairs), [BREAK]); }
      QuietPairs(st, pairs, ElemTarget(tg));
    case _ =>
  }

  lemma {:induction false} QuietItems(st: Structs, items: seq<Item>, tg: Target, i: nat)
    requires ItemsOk(items) && Quiet(EncodeItems(items))
    ensures CleanItems(st, items, tg, i)
    decreases items
  {
    if items != [] {
      QuietParts(Encode(items[0]), EncodeItems(items[1..]));
      QuietIsClean(st, items[0], ArrayElem(st, tg, i));
      QuietItems(st, items[1..], tg, i + 1);
    }
  }

  lemma {:induction false} QuietPairs(st: Structs, pairs: seq<Pair>, tg: Target)
    requires PairsOk(pairs) && Quiet(EncodePairs(pairs))
    ensures CleanPairs(st, pairs, tg)
    decreases pairs
  {
    if pairs != [] {
      QuietParts(EncodePair(pairs[0]), EncodePairs(pairs[1..]));
      QuietPair(st, pairs[0], tg);
      QuietPairs(st, pairs[1..], tg);
    }
  }

  lemma {:induction false} QuietPair(st: Structs, p: Pair, tg: Target)
    requires PairOk(p) && Quiet(EncodePair(p))
    ensures CleanPair(st, p, tg)
    decreases p
  {
    QuietParts(Encode(p.key), Encode(p.val));
    QuietIsClean(st, p.key, KeyTarget(st, tg));
    QuietIsClean(st, p.val, ValTarget(st, tg, Encode(p.key)));
  }

  ghost predicate Spells(b: Bytes, it: Item)
  {
    WellFormed(it) && Encode(it) == b
  }

  /** The whole check: the byte scan, then the walk. b has decoded, so it spells some item. */
  method RefuseNulls(st: Structs, b: Bytes, t: GoType) returns (e: Option<WalkError>)
    requires exists it :: Spells(b, it)
    ensures forall it | Spells(b, it) ::
      && (Nesting(it) <= MAX_NULL_WALK_DEPTH ==> e == Verdict(st, it, Typed(t), 0, []))
      && (e.None? <==> Clean(st, it, Typed(t)) && (Nesting(it) <= MAX_NULL_WALK_DEPTH || Quiet(b)))
  {
    if Quiet(b) {
      forall it | Spells(b, it) ensures Clean(st, it, Typed(t)) {
        QuietIsClean(st, it, Typed(t));
      }
      forall it | Spells(b, it) && Nesting(it) <= MAX_NULL_WALK_DEPTH ensures Verdict(st, it, Typed(t), 0, []).None? {
        AcceptedExactlyWhenClean(st, it, Typed(t), 0, []);
      }
      return None;
    }
    ghost var it :| Spells(b, it);
    var w := new NullWalk(st, b);
    assert b[0..0 + |b|] == b;
    e := w.WalkItem(Typed(t), 0, Some(it));
    if e.None? && w.off != |b| {
      e := Some(Trailing);
    }
    forall other | Spells(b, other) ensures other == it {
      SpellingIsUnique(b, 0, other, it);
    }
    AcceptedExactlyWhenClean(st, it, Typed(t), 0, []);
  }

  // ---- one reading ----

  function Major(it: Item): nat
  {
    match it
    case Number(negative, _, _) => if negative then 1 else 0
    case Str(utf8, _, _) => StrMajor(utf8)
    case Chunked(utf8, _) => StrMajor(utf8)
    case Arr(_, _) => 4
    case Dict(_, _) => 5
    case _ => 7
  }

  /** The width of the head, if it has one: indefinite lengths do not. */
  function WidthOf(it: Item): Option<Width>
  {
    match it
    case Number(_, w, _) => Some(w)
    case Str(_, w, _) => Some(w)
    case Chunked(_, _) => None
    case Arr(aw, _) => aw
    case Dict(dw, _) => dw
    case Simple(w, _) => Some(w)
    case _ => Some(W0)
  }

  function ArgOf(it: Item): u64
    requires WellFormed(it)
  {
    match it
    case Number(_, _, arg) => arg
    case Str(_, _, s) => |s|
    case Chunked(_, _) => 0
    case Arr(aw, items) => if aw.Some? then |items| else 0
    case Dict(dw, pairs) => if dw.Some? then |pairs| else 0
    case Simple(_, arg) => arg
    case Null => 22
    case Undefined => 23
  }

  predicate HasHead(w: Option<Width>, arg: u64)
  {
    if w.Some? then ArgFits(w.value, arg) else arg == 0
  }

  function HeadFor(off: nat, major: nat, w: Option<Width>, arg: u64): Head
    requires HasHead(w, arg)
  {
    if w.Some? then Head(major, AdditionalInfo(w.value, arg), arg, off + 1 + Size(w.value))
    else Head(major, 31, 0, off + 1)
  }

  lemma {:induction false} HeadForInjective(
    off: nat, m: nat, w: Option<Width>, arg: u64, n: nat, v: Option<Width>, brg: u64)
    requires HasHead(w, arg) && HasHead(v, brg) && HeadFor(off, m, w, arg) == HeadFor(off, n, v, brg)
    ensures m == n && w == v && arg == brg
  {
  }

  /** The head of every item, in the terms of the tree. */
  lemma {:induction false} HeadIs(b: Bytes, off: nat, it: Item)
    requires ItemAt(b, off, it)
    ensures HasHead(WidthOf(it), ArgOf(it))
    ensures ReadHead(b, off) == Ok(HeadFor(off, Major(it), WidthOf(it), ArgOf(it)))
  {
    if it.Null? || it.Undefined? {
      assert b[off] == b[off..off + 1][0];
    } else if WidthOf(it).Some? {
      var h := HeadOf(Major(it), WidthOf(it).value, ArgOf(it));
      assert Encode(it) == h + Encode(it)[|h|..];
      AtSplit(b, off, h, Encode(it)[|h|..]);
      ReadHeadOf(b, off, Major(it), WidthOf(it).value, ArgOf(it));
    } else {
      ContentHead(b, off, it);
      assert b[off] == b[off..off + |Encode(it)|][0] == Encode(it)[0];
      ReadIndefinite(b, off, Major(it));
    }
  }

  lemma {:induction false} SameHead(b: Bytes, off: nat, x: Item, y: Item)
    requires ItemAt(b, off, x) && ItemAt(b, off, y)
    ensures Major(x) == Major(y) && WidthOf(x) == WidthOf(y) && ArgOf(x) == ArgOf(y)
  {
    HeadIs(b, off, x);
    HeadIs(b, off, y);
    HeadForInjective(off, Major(x), WidthOf(x), ArgOf(x), Major(y), WidthOf(y), ArgOf(y));
  }

  lemma {:induction false} StrUnique(b: Bytes, off: nat, x: Item, y: Item)
    requires ItemAt(b, off, x) && ItemAt(b, off, y) && x.Str? && y.Str?
    ensures x.s == y.s
  {
    SameHead(b, off, x, y);
    var h := HeadOf(StrMajor(x.utf8), x.w, |x.s|);
    AtSplit(b, off, h, x.s);
    AtSplit(b, off, h, y.s);
  }

  lemma {:induction false} ChunksUnique(b: Bytes, off: nat, utf8: bool, x: seq<Chunk>, y: seq<Chunk>)
    requires ChunksAt(b, off, utf8, x) && ChunksAt(b, off, utf8, y)
    ensures x == y
    decreases |x|
  {
    NextChunk(b, off, utf8, x);
    NextChunk(b, off, utf8, y);
    if x != [] && y != [] {
      FirstChunkUnique(b, off, utf8, x, y);
      ChunksUnique(b, off + 1 + Size(x[0].w) + |x[0].s|, utf8, x[1..], y[1..]);
      assert x == [x[0]] + x[1..] && y == [y[0]] + y[1..];
    }
  }

  lemma {:induction false} FirstChunkUnique(b: Bytes, off: nat, utf8: bool, x: seq<Chunk>, y: seq<Chunk>)
    requires ChunksAt(b, off, utf8, x) && ChunksAt(b, off, utf8, y) && x != [] && y != []
    ensures x[0] == y[0]
  {
    NextChunk(b, off, utf8, x);
    NextChunk(b, off, utf8, y);
    AtChunk(b, off, utf8, x);
    AtChunk(b, off, utf8, y);
    var c, d := x[0], y[0];
    HeadForInjective(off, StrMajor(utf8), Some(c.w), |c.s|, StrMajor(utf8), Some(d.w), |d.s|);
  }

  lemma {:induction false} AtChunk(b: Bytes, off: nat, utf8: bool, chunks: seq<Chunk>)
    requires ChunksAt(b, off, utf8, chunks) && chunks != []
    ensures ChunkOk(chunks[0]) && At(b, off + 1 + Size(chunks[0].w), chunks[0].s)
  {
    var c := chunks[0];
    assert ChunkOk(c);
    var h := HeadOf(StrMajor(utf8), c.w, |c.s|);
    AtSplit(b, off, h + c.s, EncodeChunks(utf8, chunks[1..]));
    AtSplit(b, off, h, c.s);
  }

  /** Bytes spell at most one item: no item's encoding begins another's. */
  lemma {:induction false} SpellingIsUnique(b: Bytes, off: nat, x: Item, y: Item)
    requires ItemAt(b, off, x) && ItemAt(b, off, y)
    ensures x == y
    decreases x
  {
    FirstByte(b, off, x);
    FirstByte(b, off, y);
    SameHead(b, off, x, y);
    match x
    case Str(_, _, _) => StrUnique(b, off, x, y);
    case Chunked(utf8, chunks) =>
      ChunkedHead(b, off, x);
      ChunkedHead(b, off, y);
      ChunksUnique(b, off + 1, utf8, chunks, y.chunks);
    case Arr(_, items) =>
      ArrHead(b, off, x);
      ArrHead(b, off, y);
      ItemsUnique(b, ReadHead(b, off).value.after, items, y.items, ReadHead(b, off).value.ai == 31);
    case Dict(_, pairs) =>
      DictHead(b, off, x);
      DictHead(b, off, y);
      PairsUnique(b, ReadHead(b, off).value.after, pairs, y.pairs, ReadHead(b, off).value.ai == 31);
    case _ =>
  }

  lemma {:induction false} ItemsUnique(b: Bytes, off: nat, x: seq<Item>, y: seq<Item>, indefinite: bool)
    requires ItemsAt(b, off, x, indefinite) && ItemsAt(b, off, y, indefinite) && (!indefinite ==> |x| == |y|)
    ensures x == y
    decreases x
  {
    NextItem(b, off, x, indefinite);
    NextItem(b, off, y, indefinite);
    if x != [] && y != [] {
      SpellingIsUnique(b, off, x[0], y[0]);
      ItemsUnique(b, off + |Encode(x[0])|, x[1..], y[1..], indefinite);
      assert x == [x[0]] + x[1..] && y == [y[0]] + y[1..];
    }
  }

  lemma {:induction false} PairsUnique(b: Bytes, off: nat, x: seq<Pair>, y: seq<Pair>, indefinite: bool)
    requires PairsAt(b, off, x, indefinite) && PairsAt(b, off, y, indefinite) && (!indefinite ==> |x| == |y|)
    ensures x == y
    decreases x
  {
    NextPair(b, off, x, indefinite);
    NextPair(b, off, y, indefinite);
    if x != [] && y != [] {
      PairUnique(b, off, x[0], y[0]);
      PairsUnique(b, off + |EncodePair(x[0])|, x[1..], y[1..], indefinite);
      assert x == [x[0]] + x[1..] && y == [y[0]] + y[1..];
    }
  }

  lemma {:induction false} PairUnique(b: Bytes, off: nat, x: Pair, y: Pair)
    requires PairAt(b, off, x) && PairAt(b, off, y)
    ensures x == y
    decreases x
  {
    SplitPair(b, off, x);
    SplitPair(b, off, y);
    SpellingIsUnique(b, off, x.key, y.key);
    SpellingIsUnique(b, off + |Encode(x.key)|, x.val, y.val);
  }
}
