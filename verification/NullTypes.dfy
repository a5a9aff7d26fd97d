/**
 What each Go type lets an item hold. The walk decides by targets, through pointers and out of reach of types that
 decode themselves; here every type is described by what it takes, without targets.
 */
module NullTypes {
  import opened Octets
  import opened NullWalks

  /** Neither a null nor an undefined anywhere. */
  predicate Solid(it: Item)
    decreases it
  {
    match it
    case Undefined => false
    case Null => false
    case Arr(_, items) => SolidItems(items)
    case Dict(_, pairs) => SolidPairs(pairs)
    case _ => true
  }

  predicate SolidItems(items: seq<Item>)
    decreases items
  {
    items == [] || (Solid(items[0]) && SolidItems(items[1..]))
  }

  predicate SolidPairs(pairs: seq<Pair>)
    decreases pairs
  {
    pairs == [] || (SolidPair(pairs[0]) && SolidPairs(pairs[1..]))
  }

  predicate SolidPair(p: Pair)
    decreases p
  {
    Solid(p.key) && Solid(p.val)
  }

  /** Where no type can be named, nothing may be null. */
  lemma {:induction false} UnknownTakesNoNull(st: Structs, it: Item)
    requires WellFormed(it)
    ensures Clean(st, it, Unknown) <==> Solid(it)
    decreases it
  {
    match it
    case Arr(_, items) => UnknownItems(st, items, 0);
    case Dict(_, pairs) => UnknownPairs(st, pairs);
    case _ =>
  }

  lemma {:induction false} UnknownItems(st: Structs, items: seq<Item>, i: nat)
    requires ItemsOk(items)
    ensures CleanItems(st, items, Unknown, i) <==> SolidItems(items)
    decreases items
  {
    if items != [] {
      UnknownTakesNoNull(st, items[0]);
      UnknownItems(st, items[1..], i + 1);
    }
  }

  lemma {:induction false} UnknownPairs(st: Structs, pairs: seq<Pair>)
    requires PairsOk(pairs)
    ensures CleanPairs(st, pairs, Unknown) <==> SolidPairs(pairs)
    decreases pairs
  {
    if pairs != [] {
      UnknownPair(st, pairs[0]);
      UnknownPairs(st, pairs[1..]);
    }
  }

  lemma {:induction false} UnknownPair(st: Structs, p: Pair)
    requires PairOk(p)
    ensures CleanPair(st, p, Unknown) <==> SolidPair(p)
    decreases p
  {
    UnknownTakesNoNull(st, p.key);
    UnknownTakesNoNull(st, p.val);
  }

  // ---- position by position ----

  lemma {:induction false} ItemsAreOk(items: seq<Item>)
    ensures ItemsOk(items) <==> forall j | 0 <= j < |items| :: WellFormed(items[j])
    decreases items
  {
    if items != [] {
      ItemsAreOk(items[1..]);
      assert items == [items[0]] + items[1..];
    }
  }

  lemma {:induction false} PairsAreOk(pairs: seq<Pair>)
    ensures PairsOk(pairs) <==> forall j | 0 <= j < |pairs| :: PairOk(pairs[j])
    decreases pairs
  {
    if pairs != [] {
      PairsAreOk(pairs[1..]);
      assert pairs == [pairs[0]] + pairs[1..];
    }
  }

  lemma {:induction false} EachItem(st: Structs, items: seq<Item>, tg: Target, i: nat)
    requires ItemsOk(items)
    ensures forall j | 0 <= j < |items| :: WellFormed(items[j])
    ensures CleanItems(st, items, tg, i) <==> forall j | 0 <= j < |items| :: Clean(st, items[j], ArrayElem(st, tg, i + j))
    decreases items
  {
    ItemsAreOk(items);
    if items != [] {
      EachItem(st, items[1..], tg, i + 1);
      assert items == [items[0]] + items[1..];
      forall j | 0 < j < |items|
        ensures Clean(st, items[j], ArrayElem(st, tg, i + j)) <==> Clean(st, items[1..][j - 1], ArrayElem(st, tg, i + 1 + (j - 1)))
      {
      }
      assert forall k | 0 <= k < |items[1..]| :: items[1..][k] == items[k + 1] && i + 1 + k == i + (k + 1);
    }
  }

  lemma {:induction false} EachPair(st: Structs, pairs: seq<Pair>, tg: Target)
    requires PairsOk(pairs)
    ensures forall j | 0 <= j < |pairs| :: PairOk(pairs[j])
    ensures CleanPairs(st, pairs, tg) <==> forall j | 0 <= j < |pairs| :: CleanPair(st, pairs[j], tg)
    decreases pairs
  {
    PairsAreOk(pairs);
    if pairs != [] {
      EachPair(st, pairs[1..], tg);
      assert pairs == [pairs[0]] + pairs[1..];
    }
  }

  // ---- type by type ----

  /** A pointer takes a null, and otherwise what it points to takes. */
  lemma {:induction false} PointerTakes(st: Structs, it: Item, t: GoType)
    requires WellFormed(it)
    ensures Clean(st, it, Typed(Pointer(t))) <==> it.Null? || Clean(st, it, Typed(t))
  {
    assert ElemTarget(Typed(Pointer(t))) == ElemTarget(Typed(t));
  }

  /** An interface and a raw message take everything without undefined. */
  lemma {:induction false} UntypedTakes(st: Structs, it: Item, t: GoType)
    requires WellFormed(it) && (t.Interface? || t.RawMessage?)
    ensures Clean(st, it, Typed(t)) <==> NoUndefined(it)
  {
    OpaqueTakesEveryNull(st, it);
    assert ElemTarget(Typed(t)) == Opaque;
  }

  /** No other type takes a null or an undefined, and each takes whatever is neither and holds no other item. */
  lemma {:induction false} LeavesTaken(st: Structs, it: Item, t: GoType)
    requires WellFormed(it) && !it.Arr? && !it.Dict? && !t.Pointer? && !t.Interface? && !t.RawMessage?
    ensures Clean(st, it, Typed(t)) <==> !it.Null? && !it.Undefined?
  {
  }

  /** An array of items: item by item for a slice, an array and a struct written as an array; elsewhere nothing null. */
  lemma {:induction false} ArrayTaken(st: Structs, it: Item, t: GoType)
    requires WellFormed(it) && it.Arr? && !t.Pointer? && !t.Interface? && !t.RawMessage? && !t.Custom?
    ensures forall j | 0 <= j < |it.items| :: WellFormed(it.items[j])
    ensures t.Slice? || t.Array? ==>
      (Clean(st, it, Typed(t)) <==> forall j | 0 <= j < |it.items| :: Clean(st, it.items[j], Typed(t.elem)))
    ensures t.Struct? && st.toArray(t.id) ==>
      (Clean(st, it, Typed(t)) <==> forall j | 0 <= j < |it.items| ::
        if j < |st.elems(t.id)| then Clean(st, it.items[j], Typed(st.elems(t.id)[j])) else Solid(it.items[j]))
    ensures t.MapOf? || t.Other? || (t.Struct? && !st.toArray(t.id)) ==> (Clean(st, it, Typed(t)) <==> Solid(it))
  {
    EachItem(st, it.items, Typed(t), 0);
    if t.Struct? {
      forall j | 0 <= j < |it.items| ensures Clean(st, it.items[j], Unknown) <==> Solid(it.items[j]) {
        UnknownTakesNoNull(st, it.items[j]);
      }
    }
    if !(t.Slice? || t.Array? || (t.Struct? && st.toArray(t.id))) {
      EachItem(st, it.items, Unknown, 0);
      UnknownTakesNoNull(st, it);
    }
  }

  predicate BothTaken(st: Structs, p: Pair, key: GoType, val: GoType)
    requires PairOk(p)
  {
    Clean(st, p.key, Typed(key)) && Clean(st, p.val, Typed(val))
  }

  predicate MemberTaken(st: Structs, p: Pair, id: nat)
    requires PairOk(p)
  {
    && NoUndefined(p.key)
    && match st.field(id, Encode(p.key))
       case Some(f) => Clean(st, p.val, Typed(f))
       case None => Solid(p.val)
  }

  lemma {:induction false} MemberClean(st: Structs, p: Pair, t: GoType)
    requires PairOk(p) && t.Struct? && !st.toArray(t.id)
    ensures CleanPair(st, p, Typed(t)) <==> MemberTaken(st, p, t.id)
  {
    OpaqueTakesEveryNull(st, p.key);
    UnknownTakesNoNull(st, p.val);
  }

  /**
   A map of items: key and value by their types for a map; for a struct, any key without undefined, and the value by
   the field its key finds, or nothing null where it finds none; elsewhere nothing null.
   */
  lemma {:induction false} MapTaken(st: Structs, it: Item, t: GoType)
    requires WellFormed(it) && it.Dict? && !t.Pointer? && !t.Interface? && !t.RawMessage? && !t.Custom?
    ensures forall j | 0 <= j < |it.pairs| :: PairOk(it.pairs[j])
    ensures t.MapOf? ==>
      (Clean(st, it, Typed(t)) <==> forall j | 0 <= j < |it.pairs| :: BothTaken(st, it.pairs[j], t.key, t.elem))
    ensures t.Struct? && !st.toArray(t.id) ==>
      (Clean(st, it, Typed(t)) <==> forall j | 0 <= j < |it.pairs| :: MemberTaken(st, it.pairs[j], t.id))
    ensures t.Slice? || t.Array? || t.Other? || (t.Struct? && st.toArray(t.id)) ==> (Clean(st, it, Typed(t)) <==> Solid(it))
  {
    EachPair(st, it.pairs, Typed(t));
    if t.Struct? && !st.toArray(t.id) {
      forall j | 0 <= j < |it.pairs|
        ensures PairOk(it.pairs[j]) && (CleanPair(st, it.pairs[j], Typed(t)) <==> MemberTaken(st, it.pairs[j], t.id))
      {
        MemberClean(st, it.pairs[j], t);
      }
    } else if t.MapOf? {
      assert forall p: Pair | PairOk(p) :: CleanPair(st, p, Typed(t)) <==> BothTaken(st, p, t.key, t.elem);
    } else {
      EachPair(st, it.pairs, Unknown);
      UnknownTakesNoNull(st, it);
    }
  }

  // ---- what a refusal points at ----

  /** Following the steps q from it leads to x. */
  ghost predicate StandsAt(it: Item, q: seq<Step>, x: Item)
    decreases |q|, 1
  {
    if q == [] then it == x
    else if q[0].Index? then it.Arr? && q[0].i < |it.items| && StandsAt(it.items[q[0].i], q[1..], x)
    else it.Dict? && exists j :: 0 <= j < |it.pairs| && StandsInPair(it.pairs[j], q, x)
  }

  /** The first step says the key, or the value with that key. */
  ghost predicate StandsInPair(p: Pair, q: seq<Step>, x: Item)
    decreases |q|, 0
  {
    && q != [] && PairOk(p)
    && (q[0].KeyItself? ==> StandsAt(p.key, q[1..], x))
    && (q[0].Member? ==> Encode(p.key) == q[0].key && StandsAt(p.val, q[1..], x))
    && !q[0].Index?
  }

  function Named(undefined: bool): Item { if undefined then Undefined else Null }

  /** A refusal names the place of an undefined or a null: following its path leads there. */
  lemma {:induction false} RefusalPointsAtIt(st: Structs, it: Item, tg: Target, depth: nat, path: seq<Step>)
    requires WellFormed(it)
    ensures var v := Verdict(st, it, tg, depth, path); v.Some? && v.value.Refused? ==>
      path <= v.value.path && StandsAt(it, v.value.path[|path|..], Named(v.value.undefined))
    decreases it
  {
    match it
    case Arr(_, items) => if depth <= MAX_NULL_WALK_DEPTH { ItemsPoint(st, items, ElemTarget(tg), 0, depth, path); }
    case Dict(_, pairs) => if depth <= MAX_NULL_WALK_DEPTH { PairsPoint(st, pairs, ElemTarget(tg), depth, path); }
    case _ =>
  }

  lemma {:induction false} ItemsPoint(st: Structs, items: seq<Item>, tg: Target, i: nat, depth: nat, path: seq<Step>)
    requires ItemsOk(items)
    ensures var v := ItemsVerdict(st, items, tg, i, depth, path); v.Some? && v.value.Refused? ==>
      var at := v.value.path;
      && path < at && at[|path|].Index? && i <= at[|path|].i < i + |items|
      && StandsAt(items[at[|path|].i - i], at[|path|..][1..], Named(v.value.undefined))
    decreases items
  {
    if items != [] {
      RefusalPointsAtIt(st, items[0], ArrayElem(st, tg, i), depth + 1, path + [Index(i)]);
      ItemsPoint(st, items[1..], tg, i + 1, depth, path);
      var v := ItemsVerdict(st, items, tg, i, depth, path);
      if v.Some? && v.value.Refused? {
        var at := v.value.path;
        assert at[|path|..][1..] == at[|path| + 1..];
      }
    }
  }

  lemma {:induction false} PairsPoint(st: Structs, pairs: seq<Pair>, tg: Target, depth: nat, path: seq<Step>)
    requires PairsOk(pairs)
    ensures var v := PairsVerdict(st, pairs, tg, depth, path); v.Some? && v.value.Refused? ==>
      && path < v.value.path && !v.value.path[|path|].Index?
      && exists j :: 0 <= j < |pairs| && StandsInPair(pairs[j], v.value.path[|path|..], Named(v.value.undefined))
    decreases pairs
  {
    if pairs != [] {
      PairPoints(st, pairs[0], tg, depth, path);
      PairsPoint(st, pairs[1..], tg, depth, path);
      var v := PairsVerdict(st, pairs, tg, depth, path);
      if v.Some? && v.value.Refused? && PairVerdict(st, pairs[0], tg, depth, path).None? {
        var j :| 0 <= j < |pairs[1..]| && StandsInPair(pairs[1..][j], v.value.path[|path|..], Named(v.value.undefined));
        assert pairs[1..][j] == pairs[j + 1];
      }
    }
  }

  lemma {:induction false} PairPoints(st: Structs, p: Pair, tg: Target, depth: nat, path: seq<Step>)
    requires PairOk(p)
    ensures var v := PairVerdict(st, p, tg, depth, path); v.Some? && v.value.Refused? ==>
      path < v.value.path && StandsInPair(p, v.value.path[|path|..], Named(v.value.undefined))
    decreases p
  {
    var key, member := path + [KeyItself], path + [Member(Encode(p.key))];
    RefusalPointsAtIt(st, p.key, KeyTarget(st, tg), depth + 1, key);
    RefusalPointsAtIt(st, p.val, ValTarget(st, tg, Encode(p.key)), depth + 1, member);
    var v := PairVerdict(st, p, tg, depth, path);
    if v.Some? && v.value.Refused? {
      var at := v.value.path;
      assert at[|path|..][1..] == at[|path| + 1..];
      if Verdict(st, p.key, KeyTarget(st, tg), depth + 1, key).Some? { assert at[|path|] == key[|path|]; }
      else { assert at[|path|] == member[|path|]; }
    }
  }
}
