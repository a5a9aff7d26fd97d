/** Proto3 defaults and the publish form. */
module Publishing {
  // Stripping defaults from a card, and the publish form, for an arbitrary message schema.

  import opened Octets
  import opened JsonPrint

  datatype Presence = Implicit | Explicit | Required

  datatype FieldType =
    | StringField | BoolField | StringsField | StringMapField | StructField
    | MessageField(msg: nat) | MessagesField(msg: nat) | MessageMapField(msg: nat)

  datatype Field = Field(pres: Presence, typ: FieldType)

  /** Messages are named by numbers; goWrites lists the members a second implementation always writes. */
  datatype Schema = Schema(fields: nat -> map<Bytes, Field>, oneof: nat -> bool, goWrites: nat -> seq<Bytes>)

  // ---- stripping defaults ----

  /** The proto3 default of a field type. */
  predicate IsDefault(v: Value, t: FieldType)
  {
    match t
    case StringField => v == Str([])
    case BoolField => v == Bool(false)
    case StringsField => v == Arr([])
    case MessagesField(_) => v == Arr([])
    case StringMapField => v.Obj? && v.members == map[]
    case MessageMapField(_) => v.Obj? && v.members == map[]
    case _ => false
  }

  /** Whether proto3 JSON would not emit member k of message m holding v. */
  predicate Dropped(sc: Schema, m: nat, k: Bytes, v: Value)
  {
    k in sc.fields(m)
    && var f := sc.fields(m)[k];
       f.pres != Required && (v.Null? || (f.pres == Implicit && IsDefault(v, f.typ)))
  }

  function StripDefaults(sc: Schema, v: Value, m: nat): Value
    decreases v, 0
  {
    if !v.Obj? then v
    else Obj(map k | k in v.members && !Dropped(sc, m, k, v.members[k]) :: StripMember(sc, v, m, k))
  }

  function StripMember(sc: Schema, v: Value, m: nat, k: Bytes): Value
    requires v.Obj? && k in v.members
    decreases v, 0, 0
  {
    if k in sc.fields(m) then StripField(sc, v.members[k], sc.fields(m)[k]) else v.members[k]
  }

  function StripField(sc: Schema, v: Value, f: Field): Value
    decreases v, 1
  {
    match f.typ
    case MessageField(m) => StripDefaults(sc, v, m)
    case MessagesField(m) =>
      if v.Arr? then Arr(seq(|v.items|, i requires 0 <= i < |v.items| => StripDefaults(sc, v.items[i], m))) else v
    case MessageMapField(m) =>
      if v.Obj? then Obj(map k | k in v.members :: StripDefaults(sc, v.members[k], m)) else v
    case _ => v
  }

  // ---- stripped values ----

  /** No schema message in v holds a member that proto3 JSON would not emit. */
  ghost predicate IsStripped(sc: Schema, v: Value, m: nat)
    decreases v, 0
  {
    v.Obj? ==> forall k | k in v.members :: !Dropped(sc, m, k, v.members[k]) && MemberStripped(sc, v, m, k)
  }

  ghost predicate MemberStripped(sc: Schema, v: Value, m: nat, k: Bytes)
    requires v.Obj? && k in v.members
    decreases v, 0, 0
  {
    k in sc.fields(m) ==> FieldStripped(sc, v.members[k], sc.fields(m)[k])
  }

  ghost predicate FieldStripped(sc: Schema, v: Value, f: Field)
    decreases v, 1
  {
    match f.typ
    case MessageField(m) => IsStripped(sc, v, m)
    case MessagesField(m) => v.Arr? ==> forall i | 0 <= i < |v.items| :: IsStripped(sc, v.items[i], m)
    case MessageMapField(m) => v.Obj? ==> forall k | k in v.members :: IsStripped(sc, v.members[k], m)
    case _ => true
  }

  /** Stripping what is inside a member does not make it a default, nor null. */
  lemma {:induction false} StripFieldKeeps(sc: Schema, v: Value, f: Field)
    ensures (StripField(sc, v, f).Null? <==> v.Null?) && (IsDefault(StripField(sc, v, f), f.typ) <==> IsDefault(v, f.typ))
  {
    if f.typ.MessageMapField? && v.Obj? {
      assert StripField(sc, v, f).members.Keys == v.members.Keys;
      if v.members != map[] {
        var k :| k in v.members;
        assert k in StripField(sc, v, f).members;
      }
    }
  }

  lemma {:induction false} StripIsStripped(sc: Schema, v: Value, m: nat)
    ensures IsStripped(sc, StripDefaults(sc, v, m), m)
    decreases v, 0
  {
    if v.Obj? {
      var w := StripDefaults(sc, v, m);
      forall k | k in w.members ensures !Dropped(sc, m, k, w.members[k]) && MemberStripped(sc, w, m, k) {
        assert w.members[k] == StripMember(sc, v, m, k);
        if k in sc.fields(m) {
          StripFieldKeeps(sc, v.members[k], sc.fields(m)[k]);
          FieldIsStripped(sc, v.members[k], sc.fields(m)[k]);
        }
      }
    }
  }

  lemma {:induction false} FieldIsStripped(sc: Schema, v: Value, f: Field)
    ensures FieldStripped(sc, StripField(sc, v, f), f)
    decreases v, 1
  {
    var w := StripField(sc, v, f);
    match f.typ
    case MessageField(m) => StripIsStripped(sc, v, m);
    case MessagesField(m) =>
      if v.Arr? {
        forall i | 0 <= i < |w.items| ensures IsStripped(sc, w.items[i], m) { StripIsStripped(sc, v.items[i], m); }
      }
    case MessageMapField(m) =>
      if v.Obj? {
        forall k | k in w.members ensures IsStripped(sc, w.members[k], m) { StripIsStripped(sc, v.members[k], m); }
      }
    case _ =>
  }

  lemma {:induction false} StrippedIsFixed(sc: Schema, v: Value, m: nat)
    requires IsStripped(sc, v, m)
    ensures StripDefaults(sc, v, m) == v
    decreases v, 0
  {
    if v.Obj? {
      var w := StripDefaults(sc, v, m);
      forall k | k in v.members ensures k in w.members && w.members[k] == v.members[k] {
        assert !Dropped(sc, m, k, v.members[k]) && MemberStripped(sc, v, m, k);
        if k in sc.fields(m) { FieldIsFixed(sc, v.members[k], sc.fields(m)[k]); }
        assert w.members[k] == StripMember(sc, v, m, k);
      }
      assert w.members == v.members;
    }
  }

  lemma {:induction false} FieldIsFixed(sc: Schema, v: Value, f: Field)
    requires FieldStripped(sc, v, f)
    ensures StripField(sc, v, f) == v
    decreases v, 1
  {
    var w := StripField(sc, v, f);
    match f.typ
    case MessageField(m) => StrippedIsFixed(sc, v, m);
    case MessagesField(m) =>
      if v.Arr? {
        forall i | 0 <= i < |v.items| ensures w.items[i] == v.items[i] { StrippedIsFixed(sc, v.items[i], m); }
        assert w.items == v.items;
      }
    case MessageMapField(m) =>
      if v.Obj? {
        forall k | k in v.members ensures w.members[k] == v.members[k] { StrippedIsFixed(sc, v.members[k], m); }
        assert w.members == v.members;
      }
    case _ =>
  }

  /** Stripping twice is stripping once, and it changes exactly the values that hold something to strip. */
  lemma {:induction false} StripDefaultsIsIdempotent(sc: Schema, v: Value, m: nat)
    ensures StripDefaults(sc, StripDefaults(sc, v, m), m) == StripDefaults(sc, v, m)
    ensures StripDefaults(sc, v, m) == v <==> IsStripped(sc, v, m)
  {
    StripIsStripped(sc, v, m);
    StrippedIsFixed(sc, StripDefaults(sc, v, m), m);
    if IsStripped(sc, v, m) { StrippedIsFixed(sc, v, m); }
  }

  /** Setting a field without presence to its default, or any field that may be unset to null, leaves no trace. */
  lemma {:induction false} AddingADefaultChangesNothing(sc: Schema, members: map<Bytes, Value>, m: nat, k: Bytes, x: Value)
    requires Dropped(sc, m, k, x) && (k in members ==> Dropped(sc, m, k, members[k]))
    ensures StripDefaults(sc, Obj(members[k := x]), m) == StripDefaults(sc, Obj(members), m)
  {
    var v, w := Obj(members), Obj(members[k := x]);
    var sv, sw := StripDefaults(sc, v, m), StripDefaults(sc, w, m);
    assert sv.members.Keys == sw.members.Keys;
    forall j | j in sv.members ensures sw.members[j] == sv.members[j] {
      assert StripMember(sc, v, m, j) == StripMember(sc, w, m, j);
    }
    assert sv.members == sw.members;
  }

  /** At any depth: members that strip alike can stand for each other. */
  lemma {:induction false} StripIsCongruent(sc: Schema, members: map<Bytes, Value>, m: nat, k: Bytes, x: Value, y: Value)
    requires k in sc.fields(m) && StripField(sc, x, sc.fields(m)[k]) == StripField(sc, y, sc.fields(m)[k])
    ensures StripDefaults(sc, Obj(members[k := x]), m) == StripDefaults(sc, Obj(members[k := y]), m)
  {
    var v, w := Obj(members[k := x]), Obj(members[k := y]);
    var sv, sw := StripDefaults(sc, v, m), StripDefaults(sc, w, m);
    StripFieldKeeps(sc, x, sc.fields(m)[k]);
    StripFieldKeeps(sc, y, sc.fields(m)[k]);
    assert Dropped(sc, m, k, x) <==> Dropped(sc, m, k, y);
    assert sv.members.Keys == sw.members.Keys;
    forall j | j in sv.members ensures sw.members[j] == sv.members[j] {
      assert sv.members[j] == StripMember(sc, v, m, j) && sw.members[j] == StripMember(sc, w, m, j);
    }
    assert sv.members == sw.members;
  }

  // ---- the publish form ----

  /** Free-form JSON without null, empty strings, empty arrays or empty objects. */
  ghost predicate StructForm(v: Value)
    decreases v
  {
    match v
    case Null => false
    case Str(s) => s != []
    case Arr(items) => items != [] && forall i | 0 <= i < |items| :: StructForm(items[i])
    case Obj(members) => members != map[] && forall k | k in members :: StructForm(members[k])
    case _ => true
  }

  /** A message: its members are fields in publish form, except the one named skip. */
  ghost predicate MessageForm(sc: Schema, v: Value, m: nat, skip: Bytes)
    decreases v, 0
  {
    && v.Obj? && v.members != map[]
    && (sc.oneof(m) ==> |v.members.Keys * sc.fields(m).Keys| <= 1)
    && (forall k | k in v.members && k != skip :: MemberForm(sc, v, m, k))
    && (forall k | k in sc.fields(m) && sc.fields(m)[k].pres == Required :: k in v.members)
    && (forall k | k in sc.goWrites(m) :: k in v.members)
  }

  ghost predicate MemberForm(sc: Schema, v: Value, m: nat, k: Bytes)
    requires v.Obj? && k in v.members
    decreases v, 0, 0
  {
    k in sc.fields(m) && FieldForm(sc, v.members[k], sc.fields(m)[k])
  }

  predicate FilledString(v: Value) { v.Str? && v.s != [] }

  ghost predicate FieldForm(sc: Schema, v: Value, f: Field)
    decreases v, 1
  {
    match f.typ
    case StringField => FilledString(v)
    case BoolField => v.Bool? && (v.b || f.pres != Implicit)
    case MessageField(m) => MessageForm(sc, v, m, [])
    case StructField => v.Obj? && StructForm(v)
    case StringsField => v.Arr? && v.items != [] && forall i | 0 <= i < |v.items| :: FilledString(v.items[i])
    case MessagesField(m) =>
      v.Arr? && v.items != [] && forall i | 0 <= i < |v.items| :: MessageForm(sc, v.items[i], m, [])
    case StringMapField => v.Obj? && v.members != map[] && forall k | k in v.members :: FilledString(v.members[k])
    case MessageMapField(m) =>
      v.Obj? && v.members != map[] && forall k | k in v.members :: MessageForm(sc, v.members[k], m, [])
  }

  /** No field has the empty name: the name that stands for "skip nothing" inside the card. */
  ghost predicate NamedFields(sc: Schema)
  {
    forall m :: [] !in sc.fields(m) && [] !in sc.goWrites(m)
  }

  lemma {:induction false} FormIsStripped(sc: Schema, v: Value, m: nat)
    requires NamedFields(sc) && MessageForm(sc, v, m, [])
    ensures IsStripped(sc, v, m)
    decreases v, 0
  {
    forall k | k in v.members ensures !Dropped(sc, m, k, v.members[k]) && MemberStripped(sc, v, m, k) {
      if k != [] {
        assert MemberForm(sc, v, m, k);
        FieldFormIsStripped(sc, v.members[k], sc.fields(m)[k]);
      }
    }
  }

  lemma {:induction false} FieldFormIsStripped(sc: Schema, v: Value, f: Field)
    requires NamedFields(sc) && FieldForm(sc, v, f)
    ensures !v.Null? && (f.pres == Implicit ==> !IsDefault(v, f.typ)) && FieldStripped(sc, v, f)
    decreases v, 1
  {
    match f.typ
    case MessageField(m) => FormIsStripped(sc, v, m);
    case MessagesField(m) =>
      forall i | 0 <= i < |v.items| ensures IsStripped(sc, v.items[i], m) { FormIsStripped(sc, v.items[i], m); }
    case MessageMapField(m) =>
      forall k | k in v.members ensures IsStripped(sc, v.members[k], m) { FormIsStripped(sc, v.members[k], m); }
    case _ =>
  }

  /** What is signed: the card without its member skip. */
  function Payload(v: Value, skip: Bytes): Value
  {
    if v.Obj? then Obj(v.members - {skip}) else v
  }

  /** On a card in publish form the stripped payload and the raw payload are the same. */
  lemma {:induction false} PublishFormHasOnePayload(sc: Schema, v: Value, m: nat, skip: Bytes)
    requires NamedFields(sc) && MessageForm(sc, v, m, skip)
    ensures Payload(StripDefaults(sc, v, m), skip) == Payload(v, skip)
  {
    var w := StripDefaults(sc, v, m);
    forall k | k in v.members && k != skip ensures k in w.members && w.members[k] == v.members[k] {
      assert MemberForm(sc, v, m, k);
      FieldFormIsStripped(sc, v.members[k], sc.fields(m)[k]);
      FieldIsFixed(sc, v.members[k], sc.fields(m)[k]);
      assert w.members[k] == StripMember(sc, v, m, k);
    }
    assert w.members - {skip} == v.members - {skip};
  }

  // ---- fields only ----

  /** Every member of every schema message in v is a field of that message. */
  ghost predicate OnlyFields(sc: Schema, v: Value, m: nat)
    decreases v, 0
  {
    v.Obj? ==> forall k | k in v.members :: k in sc.fields(m) && FieldsInside(sc, v.members[k], sc.fields(m)[k])
  }

  ghost predicate FieldsInside(sc: Schema, v: Value, f: Field)
    decreases v, 1
  {
    match f.typ
    case MessageField(m) => OnlyFields(sc, v, m)
    case MessagesField(m) => v.Arr? ==> forall i | 0 <= i < |v.items| :: OnlyFields(sc, v.items[i], m)
    case MessageMapField(m) => v.Obj? ==> forall k | k in v.members :: OnlyFields(sc, v.members[k], m)
    case _ => true
  }

  /** No schema message in v has a member with the empty name. */
  ghost predicate NoEmptyName(sc: Schema, v: Value, m: nat)
    decreases v, 0
  {
    v.Obj? ==>
      && [] !in v.members
      && forall k | k in v.members && k in sc.fields(m) :: NoEmptyInside(sc, v.members[k], sc.fields(m)[k])
  }

  ghost predicate NoEmptyInside(sc: Schema, v: Value, f: Field)
    decreases v, 1
  {
    match f.typ
    case MessageField(m) => NoEmptyName(sc, v, m)
    case MessagesField(m) => v.Arr? ==> forall i | 0 <= i < |v.items| :: NoEmptyName(sc, v.items[i], m)
    case MessageMapField(m) => v.Obj? ==> forall k | k in v.members :: NoEmptyName(sc, v.members[k], m)
    case _ => true
  }

  lemma {:induction false} NestedHoldsFields(sc: Schema, v: Value, m: nat)
    requires NamedFields(sc) && v.Obj? && forall k | k in v.members && k != [] :: MemberForm(sc, v, m, k)
    ensures OnlyFields(sc, v, m) <==> NoEmptyName(sc, v, m)
    decreases v, 0
  {
    forall k | k in v.members && k != []
      ensures k in sc.fields(m)
      ensures FieldsInside(sc, v.members[k], sc.fields(m)[k]) <==> NoEmptyInside(sc, v.members[k], sc.fields(m)[k])
    {
      assert MemberForm(sc, v, m, k);
      FieldHoldsFields(sc, v.members[k], sc.fields(m)[k]);
    }
  }

  lemma {:induction false} FieldHoldsFields(sc: Schema, v: Value, f: Field)
    requires NamedFields(sc) && FieldForm(sc, v, f)
    ensures FieldsInside(sc, v, f) <==> NoEmptyInside(sc, v, f)
    decreases v, 1
  {
    match f.typ
    case MessageField(m) => NestedHoldsFields(sc, v, m);
    case MessagesField(m) =>
      forall i | 0 <= i < |v.items| ensures OnlyFields(sc, v.items[i], m) <==> NoEmptyName(sc, v.items[i], m) {
        NestedHoldsFields(sc, v.items[i], m);
      }
    case MessageMapField(m) =>
      forall k | k in v.members ensures OnlyFields(sc, v.members[k], m) <==> NoEmptyName(sc, v.members[k], m) {
        NestedHoldsFields(sc, v.members[k], m);
      }
    case _ =>
  }

  /** A card in publish form holds, apart from its member skip, fields only exactly when no message has an empty name. */
  lemma {:induction false} FieldsOnlyExactlyWhen(sc: Schema, v: Value, m: nat, skip: Bytes)
    requires NamedFields(sc) && MessageForm(sc, v, m, skip)
    ensures OnlyFields(sc, Payload(v, skip), m) <==> NoEmptyName(sc, Payload(v, skip), m)
    ensures skip == [] ==> (OnlyFields(sc, v, m) <==> NoEmptyName(sc, v, m))
  {
    var p := Payload(v, skip);
    forall k | k in p.members ensures MemberForm(sc, p, m, k) {
      assert MemberForm(sc, v, m, k);
    }
    NestedHoldsFields(sc, p, m);
    if skip == [] { NestedHoldsFields(sc, v, m); }
  }

  /** No member of message m has to be there. */
  predicate AsksNothing(sc: Schema, m: nat)
  {
    sc.goWrites(m) == [] && forall k | k in sc.fields(m) :: sc.fields(m)[k].pres != Required
  }

  /**
   What the check lets through: inside the card nothing is skipped, and the name for that is the empty one, so a
   nested message may hold any value at all under the empty name. It may hold nothing else, which an empty object
   may not, when the message asks for nothing.
   */
  lemma {:induction false} EmptyNameIsNotChecked(sc: Schema, members: map<Bytes, Value>, m: nat, x: Value)
    requires NamedFields(sc) && [] !in members
    ensures MessageForm(sc, Obj(members[[] := x]), m, [])
            <==> MessageForm(sc, Obj(members), m, []) || (members == map[] && AsksNothing(sc, m))
    ensures !OnlyFields(sc, Obj(members[[] := x]), m)
  {
    assert [] in members[[] := x];
    if members == map[] {
      OnlyTheEmptyName(sc, m, x);
      assert members[[] := x] == map[[] := x];
    } else {
      BesidesTheEmptyName(sc, members, m, x);
    }
  }

  lemma {:induction false} OnlyTheEmptyName(sc: Schema, m: nat, x: Value)
    requires NamedFields(sc)
    ensures MessageForm(sc, Obj(map[[] := x]), m, []) <==> AsksNothing(sc, m)
  {
    var w := Obj(map[[] := x]);
    assert w.members.Keys * sc.fields(m).Keys == {};
    if sc.goWrites(m) != [] {
      assert sc.goWrites(m)[0] in sc.goWrites(m) && sc.goWrites(m)[0] !in w.members;
    }
  }

  lemma {:induction false} BesidesTheEmptyName(sc: Schema, members: map<Bytes, Value>, m: nat, x: Value)
    requires NamedFields(sc) && [] !in members && members != map[]
    ensures MessageForm(sc, Obj(members[[] := x]), m, []) <==> MessageForm(sc, Obj(members), m, [])
  {
    var v, w := Obj(members), Obj(members[[] := x]);
    assert w.members.Keys * sc.fields(m).Keys == v.members.Keys * sc.fields(m).Keys;
    forall k | k in members ensures MemberForm(sc, v, m, k) <==> MemberForm(sc, w, m, k) {
    }
    assert [] in w.members;
    if MessageForm(sc, w, m, []) {
      forall k | k in v.members && k != [] ensures MemberForm(sc, v, m, k) {
        assert MemberForm(sc, w, m, k);
      }
    }
  }

  // ---- as it runs ----

  /** Fills a fresh object, member by member. */
  method Strip(sc: Schema, v: Value, m: nat) returns (r: Value)
    ensures r == StripDefaults(sc, v, m)
    decreases v, 0
  {
    if !v.Obj? {
      return v;
    }
    var out: map<Bytes, Value> := map[];
    var rest := v.members.Keys;
    while rest != {}
      invariant rest <= v.members.Keys
      invariant out == map k | k in v.members && k !in rest && !Dropped(sc, m, k, v.members[k]) :: StripMember(sc, v, m, k)
      decreases rest
    {
      var name :| name in rest;
      rest := rest - {name};
      var mv := v.members[name];
      if name !in sc.fields(m) {
        out := out[name := mv];
        continue;
      }
      var f := sc.fields(m)[name];
      if f.pres != Required {
        if mv.Null? {
          continue;
        }
        if f.pres == Implicit && IsDefault(mv, f.typ) {
          continue;
        }
      }
      var s := StripOne(sc, mv, f);
      out := out[name := s];
    }
    r := Obj(out);
  }

  method StripOne(sc: Schema, v: Value, f: Field) returns (r: Value)
    ensures r == StripField(sc, v, f)
    decreases v, 1
  {
    match f.typ
    case MessageField(m) => r := Strip(sc, v, m);
    case MessagesField(m) =>
      if !v.Arr? {
        return v;
      }
      var out: seq<Value> := [];
      for i := 0 to |v.items|
        invariant out == StripField(sc, v, f).items[..i]
      {
        var e := Strip(sc, v.items[i], m);
        out := out + [e];
      }
      r := Arr(out);
    case MessageMapField(m) =>
      if !v.Obj? {
        return v;
      }
      var out: map<Bytes, Value> := map[];
      var rest := v.members.Keys;
      while rest != {}
        invariant rest <= v.members.Keys
        invariant out == map k | k in v.members && k !in rest :: StripDefaults(sc, v.members[k], m)
        decreases rest
      {
        var k :| k in rest;
        rest := rest - {k};
        var e := Strip(sc, v.members[k], m);
        out := out[k := e];
      }
      r := Obj(out);
    case _ => r := v;
  }

  method CheckStruct(v: Value) returns (ok: bool)
    ensures ok <==> StructForm(v)
    decreases v
  {
    match v
    case Null => ok := false;
    case Str(s) => ok := s != [];
    case Arr(items) =>
      if items == [] {
        return false;
      }
      for i := 0 to |items|
        invariant forall j | 0 <= j < i :: StructForm(items[j])
      {
        ok := CheckStruct(items[i]);
        if !ok {
          return;
        }
      }
      ok := true;
    case Obj(members) =>
      if members == map[] {
        return false;
      }
      var rest := members.Keys;
      while rest != {}
        invariant rest <= members.Keys && forall k | k in members && k !in rest :: StructForm(members[k])
        decreases rest
      {
        var k :| k in rest;
        rest := rest - {k};
        ok := CheckStruct(members[k]);
        if !ok {
          return;
        }
      }
      ok := true;
    case _ => ok := true;
  }

  method CheckMessage(sc: Schema, v: Value, m: nat, skip: Bytes) returns (ok: bool)
    ensures ok <==> MessageForm(sc, v, m, skip)
    decreases v, 0
  {
    if !v.Obj? || v.members == map[] {
      return false;
    }
    if sc.oneof(m) && |v.members.Keys * sc.fields(m).Keys| > 1 {
      return false;
    }
    var rest := v.members.Keys;
    while rest != {}
      invariant rest <= v.members.Keys
      invariant forall k | k in v.members && k !in rest && k != skip :: MemberForm(sc, v, m, k)
      decreases rest
    {
      var name :| name in rest;
      rest := rest - {name};
      if name == skip {
        continue;
      }
      if name !in sc.fields(m) {
        assert !MemberForm(sc, v, m, name);
        return false;
      }
      ok := CheckField(sc, v.members[name], sc.fields(m)[name]);
      if !ok {
        assert !MemberForm(sc, v, m, name);
        return;
      }
    }
    ok := CheckPresent(sc, v, m);
  }

  /** Required members, and those the other implementation always writes. */
  method CheckPresent(sc: Schema, v: Value, m: nat) returns (ok: bool)
    requires v.Obj?
    ensures ok <==> (forall k | k in sc.fields(m) && sc.fields(m)[k].pres == Required :: k in v.members)
                    && (forall k | k in sc.goWrites(m) :: k in v.members)
  {
    var rest := sc.fields(m).Keys;
    while rest != {}
      invariant rest <= sc.fields(m).Keys
      invariant forall k | k in sc.fields(m) && k !in rest && sc.fields(m)[k].pres == Required :: k in v.members
      decreases rest
    {
      var name :| name in rest;
      rest := rest - {name};
      if sc.fields(m)[name].pres == Required && name !in v.members {
        return false;
      }
    }
    var written := sc.goWrites(m);
    for i := 0 to |written|
      invariant forall j | 0 <= j < i :: written[j] in v.members
    {
      if written[i] !in v.members {
        return false;
      }
    }
    ok := true;
  }

  method CheckField(sc: Schema, v: Value, f: Field) returns (ok: bool)
    ensures ok <==> FieldForm(sc, v, f)
    decreases v, 1
  {
    match f.typ
    case StringField => ok := v.Str? && v.s != [];
    case BoolField => ok := v.Bool? && !(!v.b && f.pres == Implicit);
    case MessageField(m) => ok := CheckMessage(sc, v, m, []);
    case StructField =>
      if !v.Obj? {
        return false;
      }
      ok := CheckStruct(v);
    case StringsField => ok := CheckArray(sc, v, None);
    case MessagesField(m) => ok := CheckArray(sc, v, Some(m));
    case StringMapField => ok := CheckMap(sc, v, None);
    case MessageMapField(m) => ok := CheckMap(sc, v, Some(m));
  }

  /** Elements of a repeated field or a map: messages, or strings when there is no message. */
  ghost predicate ElementForm(sc: Schema, v: Value, msg: Option<nat>)
  {
    if msg.Some? then MessageForm(sc, v, msg.value, []) else FilledString(v)
  }

  method CheckElement(sc: Schema, v: Value, msg: Option<nat>) returns (ok: bool)
    ensures ok <==> ElementForm(sc, v, msg)
    decreases v, 1, 0
  {
    if msg.Some? {
      ok := CheckMessage(sc, v, msg.value, []);
    } else {
      ok := v.Str? && v.s != [];
    }
  }

  method CheckArray(sc: Schema, v: Value, msg: Option<nat>) returns (ok: bool)
    ensures ok <==> v.Arr? && v.items != [] && forall i | 0 <= i < |v.items| :: ElementForm(sc, v.items[i], msg)
    decreases v, 1, 1
  {
    if !v.Arr? || v.items == [] {
      return false;
    }
    for i := 0 to |v.items|
      invariant forall j | 0 <= j < i :: ElementForm(sc, v.items[j], msg)
    {
      ok := CheckElement(sc, v.items[i], msg);
      if !ok {
        return;
      }
    }
    ok := true;
  }

  method CheckMap(sc: Schema, v: Value, msg: Option<nat>) returns (ok: bool)
    ensures ok <==> v.Obj? && v.members != map[] && forall k | k in v.members :: ElementForm(sc, v.members[k], msg)
    decreases v, 1, 1
  {
    if !v.Obj? || v.members == map[] {
      return false;
    }
    var rest := v.members.Keys;
    while rest != {}
      invariant rest <= v.members.Keys && forall k | k in v.members && k !in rest :: ElementForm(sc, v.members[k], msg)
      decreases rest
    {
      var k :| k in rest;
      rest := rest - {k};
      ok := CheckElement(sc, v.members[k], msg);
      if !ok {
        return;
      }
    }
    ok := true;
  }
}
