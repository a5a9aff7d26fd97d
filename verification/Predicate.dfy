/** The predicate calculus of a task. */
module Predicates {
  // Validation, evaluation, and the scope gate.

  import opened Octets
  import opened Globs

  const MAX_CLAUSES_PER_PREDICATE: nat := 64
  const MAX_PREDICATE_DEPTH: nat := 16

  const OP_AND := 1
  const OP_OR := 2
  const OP_NOT := 3
  const OP_ARTIFACT := 10
  const OP_TEST := 11
  const OP_THRESHOLD := 12
  const OP_SCOPE := 13

  const VERB_CREATE := 1
  const VERB_GET := 5

  const CMP_LT := 1
  const CMP_LE := 2
  const CMP_EQ := 3
  const CMP_GE := 4
  const CMP_GT := 5

  const STATUS_PASS := 1
  const STATUS_FAIL := 2

  const MATCH_GLOB := 1
  const MATCH_SET := 2
  const MATCH_PREFIX := 3

  const COMMA: byte := 0x2C

  /** A float64, as comparison sees it. */
  datatype Float = NaN | NegInf | PosInf | Finite(value: real)

  predicate Less(a: Float, b: Float)
  {
    match (a, b)
    case (NaN, _) => false
    case (_, NaN) => false
    case (Finite(x), Finite(y)) => x < y
    case (NegInf, _) => !b.NegInf?
    case (_, PosInf) => !a.PosInf?
    case _ => false
  }

  predicate Same(a: Float, b: Float)
  {
    !a.NaN? && a == b
  }

  datatype ArtifactClause = ArtifactClause(
    pathGlob: Bytes, mustExist: Option<bool>, minSizeBytes: Option<nat>, schemaRef: Bytes, contains: seq<Bytes>)

  datatype TestClause = TestClause(testId: Bytes, wanted: int)

  datatype ThresholdClause = ThresholdClause(metric: Bytes, op: int, value: Float)

  datatype ResourceMatch = ResourceMatch(kind: int, val: Bytes)

  datatype ScopeClause = ScopeClause(verb: int, kind: int, pick: ResourceMatch)

  /** A node as it comes off the wire: every pointer may be nil, and several may be set. */
  datatype Predicate = Predicate(
    op: int,
    children: seq<Option<Predicate>>,
    artifact: Option<ArtifactClause>,
    test: Option<TestClause>,
    thresh: Option<ThresholdClause>,
    scope: Option<ScopeClause>)

  datatype Artifact = Artifact(path: Bytes, sizeBytes: nat)
  datatype TestResult = TestResult(id: Bytes, status: int)
  datatype EffectRef = EffectRef(verb: int, kind: int, resourceId: Bytes)
  datatype EffectRecord = EffectRecord(
    artifacts: seq<Artifact>, tests: seq<TestResult>, metrics: map<Bytes, Float>, effects: seq<EffectRef>)

  // ---- well-formed predicates ----

  predicate Connective(op: int)
  {
    op == OP_AND || op == OP_OR || op == OP_NOT
  }

  /** The operands of a connective; a leaf has none, whatever its children field holds. */
  function Operands(p: Predicate): seq<Option<Predicate>>
  {
    if Connective(p.op) then p.children else []
  }

  /** What one node must satisfy, its operands aside. */
  predicate NodeOk(p: Predicate)
  {
    if p.op == OP_AND || p.op == OP_OR then 2 <= |p.children| <= MAX_CLAUSES_PER_PREDICATE
    else if p.op == OP_NOT then |p.children| == 1
    else if p.op == OP_ARTIFACT then p.artifact.Some? && p.artifact.value.schemaRef == [] && p.artifact.value.contains == []
    else if p.op == OP_TEST then p.test.Some? && (p.test.value.wanted == STATUS_PASS || p.test.value.wanted == STATUS_FAIL)
    else if p.op == OP_THRESHOLD then p.thresh.Some? && CMP_LT <= p.thresh.value.op <= CMP_GT
    else
      && p.op == OP_SCOPE && p.scope.Some? && VERB_CREATE <= p.scope.value.verb <= VERB_GET
      && MATCH_GLOB <= p.scope.value.pick.kind <= MATCH_PREFIX
  }

  /** Every node of the tree is there and satisfies NodeOk. */
  predicate WellFormed(p: Option<Predicate>)
    decreases p
  {
    p.Some? && NodeOk(p.value)
    && forall i | 0 <= i < |Operands(p.value)| :: WellFormed(Operands(p.value)[i])
  }

  /** The length of the longest chain of operands from p down. */
  function Height(p: Option<Predicate>): nat
    decreases p, 1
  {
    if p.None? || Operands(p.value) == [] then 0 else 1 + Tallest(Operands(p.value))
  }

  function Tallest(ps: seq<Option<Predicate>>): (h: nat)
    ensures forall i | 0 <= i < |ps| :: Height(ps[i]) <= h
    ensures ps != [] ==> exists i :: 0 <= i < |ps| && Height(ps[i]) == h
    decreases ps
  {
    if ps == [] then 0
    else
      var rest := Tallest(ps[1..]);
      assert forall i | 1 <= i < |ps| :: ps[i] == ps[1..][i - 1];
      if Height(ps[0]) >= rest then Height(ps[0]) else rest
  }

  predicate Shallow(p: Option<Predicate>, depth: nat)
  {
    WellFormed(p) && depth + Height(p) <= MAX_PREDICATE_DEPTH
  }

  lemma {:induction false} TallestFits(ps: seq<Option<Predicate>>, h: int)
    requires ps != []
    ensures Tallest(ps) <= h <==> forall i | 0 <= i < |ps| :: Height(ps[i]) <= h
  {
    var i :| 0 <= i < |ps| && Height(ps[i]) == Tallest(ps);
  }

  lemma {:induction false} WellFormedNode(p: Option<Predicate>)
    requires p.Some?
    ensures var ps := Operands(p.value);
      WellFormed(p) <==> NodeOk(p.value) && forall i | 0 <= i < |ps| :: WellFormed(ps[i])
  {
  }

  lemma {:induction false} ShallowNode(p: Option<Predicate>, depth: nat)
    requires p.Some?
    ensures var ps := Operands(p.value);
      Shallow(p, depth)
      <==> depth <= MAX_PREDICATE_DEPTH && NodeOk(p.value) && forall i | 0 <= i < |ps| :: Shallow(ps[i], depth + 1)
  {
    var ps := Operands(p.value);
    WellFormedNode(p);
    if ps != [] {
      TallestFits(ps, MAX_PREDICATE_DEPTH - depth - 1);
      assert Height(p) == 1 + Tallest(ps);
    }
  }

  /** Validation accepts exactly the well-formed trees that fit under the depth bound. */
  method Validate(p: Option<Predicate>, depth: nat) returns (ok: bool)
    ensures ok <==> WellFormed(p) && depth + Height(p) <= MAX_PREDICATE_DEPTH
    decreases p
  {
    if p.None? || depth > MAX_PREDICATE_DEPTH {
      return false;
    }
    var q := p.value;
    ShallowNode(p, depth);
    if q.op == OP_AND || q.op == OP_OR {
      if |q.children| < 2 || |q.children| > MAX_CLAUSES_PER_PREDICATE {
        return false;
      }
      for i := 0 to |q.children|
        invariant forall j | 0 <= j < i :: Shallow(q.children[j], depth + 1)
      {
        var fine := Validate(q.children[i], depth + 1);
        if !fine {
          return false;
        }
      }
      return true;
    }
    if q.op == OP_NOT {
      if |q.children| != 1 {
        return false;
      }
      assert Operands(q) == [q.children[0]];
      ok := Validate(q.children[0], depth + 1);
      return;
    }
    ok := NodeOk(q);
  }

  // ---- the meaning of a predicate ----

  /** The last slash of a prefix is not part of it. */
  function TrimSlash(val: Bytes): Bytes
  {
    if val != [] && val[|val| - 1] == SLASH then val[..|val| - 1] else val
  }

  function FieldEnd(s: Bytes, i: nat): (j: nat)
    requires i <= |s|
    ensures i <= j <= |s| && (j < |s| ==> s[j] == COMMA) && forall k | i <= k < j :: s[k] != COMMA
    decreases |s| - i
  {
    if i == |s| || s[i] == COMMA then i else FieldEnd(s, i + 1)
  }

  /** The fields of s[i..] between commas. */
  function Split(s: Bytes, i: nat): seq<Bytes>
    requires i <= |s|
    decreases |s| - i
  {
    var j := FieldEnd(s, i);
    [s[i..j]] + if j < |s| then Split(s, j + 1) else []
  }

  /** s[a..b] is a whole field of s[i..]: commas or the ends around it, none in it. */
  predicate IsField(s: Bytes, i: nat, a: int, b: int)
  {
    && i <= a <= b <= |s|
    && (a == i || s[a - 1] == COMMA) && (b == |s| || s[b] == COMMA)
    && forall k | a <= k < b :: s[k] != COMMA
  }

  ghost predicate HasField(s: Bytes, i: nat, id: Bytes)
  {
    exists a, b :: IsField(s, i, a, b) && s[a..b] == id
  }

  lemma {:induction false} SplitHoldsExactlyTheFields(s: Bytes, i: nat, id: Bytes)
    requires i <= |s|
    ensures id in Split(s, i) <==> HasField(s, i, id)
    decreases |s| - i
  {
    var j := FieldEnd(s, i);
    assert IsField(s, i, i, j);
    if j < |s| {
      SplitHoldsExactlyTheFields(s, j + 1, id);
      forall a, b ensures IsField(s, i, a, b) <==> (a == i && b == j) || IsField(s, j + 1, a, b) {
        FieldIsFirstOrLater(s, i, a, b);
      }
    } else {
      forall a, b ensures IsField(s, i, a, b) <==> a == i && b == j {
        FieldIsFirstOrLater(s, i, a, b);
      }
    }
  }

  lemma {:induction false} FieldIsFirstOrLater(s: Bytes, i: nat, a: int, b: int)
    requires i <= |s|
    ensures var j := FieldEnd(s, i);
      IsField(s, i, a, b) <==> (a == i && b == j) || (j < |s| && IsField(s, j + 1, a, b))
  {
    var j := FieldEnd(s, i);
    if IsField(s, i, a, b) && a != i {
      assert s[a - 1] == COMMA;
    }
  }

  ghost predicate ResourceMatches(m: ResourceMatch, id: Bytes)
  {
    if m.kind == MATCH_GLOB then GlobAccepts(m.val, id)
    else if m.kind == MATCH_PREFIX then TrimSlash(m.val) <= id
    else m.kind == MATCH_SET && HasField(m.val, 0, id)
  }

  method MatchSet(val: Bytes, id: Bytes) returns (ok: bool)
    ensures ok == HasField(val, 0, id)
  {
    SplitHoldsExactlyTheFields(val, 0, id);
    var fields := Split(val, 0);
    for i := 0 to |fields|
      invariant forall j | 0 <= j < i :: fields[j] != id
    {
      if fields[i] == id {
        return true;
      }
    }
    ok := false;
  }

  method MatchResource(m: ResourceMatch, id: Bytes) returns (ok: bool)
    ensures ok == ResourceMatches(m, id)
  {
    if m.kind == MATCH_GLOB {
      ok := GlobMatch(m.val, id);
    } else if m.kind == MATCH_PREFIX {
      ok := TrimSlash(m.val) <= id;
    } else if m.kind == MATCH_SET {
      ok := MatchSet(m.val, id);
    } else {
      ok := false;
    }
  }

  predicate Compares(a: Float, op: int, b: Float)
  {
    if op == CMP_LT then Less(a, b)
    else if op == CMP_LE then Less(a, b) || Same(a, b)
    else if op == CMP_EQ then Same(a, b)
    else if op == CMP_GE then Less(b, a) || Same(a, b)
    else op == CMP_GT && Less(b, a)
  }

  /** a is below b: neither is NaN, and the infinities are at the ends. */
  predicate Below(a: Float, b: Float)
  {
    && a != NaN && b != NaN && a != b
    && (a == NegInf || b == PosInf || (a.Finite? && b.Finite? && a.value < b.value))
  }

  /** The five comparisons by number; with NaN on either side none holds, and otherwise one of <, = and > does. */
  lemma {:induction false} ComparesExactly(a: Float, op: int, b: Float)
    ensures Compares(a, op, b) <==>
      && 1 <= op <= 5 && a != NaN && b != NaN
      && (op == 1 ==> Below(a, b)) && (op == 2 ==> !Below(b, a)) && (op == 3 ==> a == b)
      && (op == 4 ==> !Below(a, b)) && (op == 5 ==> Below(b, a))
    ensures a != NaN && b != NaN ==> (Below(a, b) || a == b || Below(b, a)) && !(Below(a, b) && Below(b, a))
  {
  }

  ghost predicate ArtifactFits(c: ArtifactClause, a: Artifact)
  {
    GlobAccepts(c.pathGlob, a.path) && c.mustExist != Some(false)
    && (c.minSizeBytes.Some? ==> a.sizeBytes >= c.minSizeBytes.value)
  }

  ghost predicate EffectFits(c: ScopeClause, f: EffectRef)
  {
    f.verb == c.verb && f.kind == c.kind && ResourceMatches(c.pick, f.resourceId)
  }

  /** Result i is the first for its test, and has the wanted status. */
  predicate TestFits(c: TestClause, tests: seq<TestResult>, i: nat)
    requires i < |tests|
  {
    tests[i].id == c.testId && tests[i].status == c.wanted && forall j | 0 <= j < i :: tests[j].id != c.testId
  }

  /** The two-valued meaning of a well-formed predicate: no evaluation order, no short cut. */
  ghost predicate Holds(p: Option<Predicate>, e: EffectRecord)
    requires WellFormed(p)
    decreases p
  {
    var q := p.value;
    if q.op == OP_AND then forall i | 0 <= i < |q.children| :: OperandHolds(p, i, e)
    else if q.op == OP_OR then exists i :: 0 <= i < |q.children| && OperandHolds(p, i, e)
    else if q.op == OP_NOT then !OperandHolds(p, 0, e)
    else if q.op == OP_ARTIFACT then exists a :: a in e.artifacts && ArtifactFits(q.artifact.value, a)
    else if q.op == OP_TEST then exists i :: 0 <= i < |e.tests| && TestFits(q.test.value, e.tests, i)
    else if q.op == OP_THRESHOLD then
      && q.thresh.value.metric in e.metrics
      && Compares(e.metrics[q.thresh.value.metric], q.thresh.value.op, q.thresh.value.value)
    else exists f :: f in e.effects && EffectFits(q.scope.value, f)
  }

  ghost predicate OperandHolds(p: Option<Predicate>, i: nat, e: EffectRecord)
    requires WellFormed(p) && i < |Operands(p.value)|
    decreases p, 0
  {
    assert WellFormed(Operands(p.value)[i]);
    Holds(Operands(p.value)[i], e)
  }

  // ---- evaluation ----

  method EvalArtifact(c: ArtifactClause, e: EffectRecord) returns (b: bool)
    ensures b <==> exists a :: a in e.artifacts && ArtifactFits(c, a)
  {
    for i := 0 to |e.artifacts|
      invariant forall j | 0 <= j < i :: !ArtifactFits(c, e.artifacts[j])
    {
      var art := e.artifacts[i];
      var matched := GlobMatch(c.pathGlob, art.path);
      if !matched {
        continue;
      }
      if c.mustExist.Some? && !c.mustExist.value {
        continue;
      }
      if c.minSizeBytes.Some? && art.sizeBytes < c.minSizeBytes.value {
        continue;
      }
      assert art in e.artifacts && ArtifactFits(c, art);
      return true;
    }
    b := false;
  }

  method EvalTest(c: TestClause, e: EffectRecord) returns (b: bool)
    ensures b <==> exists i :: 0 <= i < |e.tests| && TestFits(c, e.tests, i)
  {
    for i := 0 to |e.tests|
      invariant forall j | 0 <= j < i :: e.tests[j].id != c.testId
    {
      if e.tests[i].id == c.testId {
        b := e.tests[i].status == c.wanted;
        assert b ==> TestFits(c, e.tests, i);
        return;
      }
    }
    b := false;
  }

  method EvalScope(c: ScopeClause, e: EffectRecord) returns (b: bool)
    ensures b <==> exists f :: f in e.effects && EffectFits(c, f)
  {
    for i := 0 to |e.effects|
      invariant forall j | 0 <= j < i :: !EffectFits(c, e.effects[j])
    {
      var f := e.effects[i];
      if f.verb == c.verb && f.kind == c.kind {
        var matched := MatchResource(c.pick, f.resourceId);
        if matched {
          assert f in e.effects && EffectFits(c, f);
          return true;
        }
      }
    }
    b := false;
  }

  /**
   Structural recursion with short cuts. On a predicate that passed Validate it reaches no nil and no missing
   operand, and its verdict is the meaning.
   */
  method Evaluate(p: Option<Predicate>, e: EffectRecord) returns (b: bool)
    requires WellFormed(p)
    ensures b == Holds(p, e)
    decreases p
  {
    var q := p.value;
    if q.op == OP_AND {
      for i := 0 to |q.children|
        invariant forall j | 0 <= j < i :: OperandHolds(p, j, e)
      {
        assert WellFormed(Operands(q)[i]);
        var c := Evaluate(q.children[i], e);
        assert c == OperandHolds(p, i, e);
        if !c {
          return false;
        }
      }
      b := true;
    } else if q.op == OP_OR {
      for i := 0 to |q.children|
        invariant forall j | 0 <= j < i :: !OperandHolds(p, j, e)
      {
        assert WellFormed(Operands(q)[i]);
        var c := Evaluate(q.children[i], e);
        assert c == OperandHolds(p, i, e);
        if c {
          return true;
        }
      }
      b := false;
    } else if q.op == OP_NOT {
      assert WellFormed(Operands(q)[0]);
      b := Evaluate(q.children[0], e);
      assert b == OperandHolds(p, 0, e);
      b := !b;
    } else if q.op == OP_ARTIFACT {
      b := EvalArtifact(q.artifact.value, e);
    } else if q.op == OP_TEST {
      b := EvalTest(q.test.value, e);
    } else if q.op == OP_THRESHOLD {
      var t := q.thresh.value;
      b := t.metric in e.metrics && Compares(e.metrics[t.metric], t.op, t.value);
    } else {
      b := EvalScope(q.scope.value, e);
    }
  }

  // ---- the negative-scope gate ----

  /** The forbidden pattern is present in the committed record. */
  method EvaluateScope(negativeScope: Option<Predicate>, committed: EffectRecord) returns (violation: bool)
    requires negativeScope.Some? ==> WellFormed(negativeScope)
    ensures violation == (negativeScope.Some? && Holds(negativeScope, committed))
  {
    if negativeScope.None? {
      return false;
    }
    violation := Evaluate(negativeScope, committed);
  }

  predicate WithoutNot(p: Option<Predicate>)
    requires WellFormed(p)
    decreases p
  {
    p.value.op != OP_NOT && forall i | 0 <= i < |Operands(p.value)| :: WithoutNot(Operands(p.value)[i])
  }

  /** Everything e reports, more also reports. */
  predicate Includes(more: EffectRecord, e: EffectRecord)
  {
    && (forall a | a in e.artifacts :: a in more.artifacts) && (forall f | f in e.effects :: f in more.effects)
    && e.tests <= more.tests && (forall k | k in e.metrics :: k in more.metrics && more.metrics[k] == e.metrics[k])
  }

  /** Doing more never clears a violation of a pattern without NOT. */
  lemma {:induction false} MoreEffectsNeverClear(p: Option<Predicate>, e: EffectRecord, more: EffectRecord)
    requires WellFormed(p) && WithoutNot(p) && Includes(more, e) && Holds(p, e)
    ensures Holds(p, more)
    decreases p
  {
    var q := p.value;
    if q.op == OP_AND {
      forall i | 0 <= i < |q.children| ensures OperandHolds(p, i, more) {
        assert WellFormed(Operands(q)[i]) && WithoutNot(Operands(q)[i]) && OperandHolds(p, i, e);
        MoreEffectsNeverClear(q.children[i], e, more);
      }
    } else if q.op == OP_OR {
      var i :| 0 <= i < |q.children| && OperandHolds(p, i, e);
      assert WellFormed(Operands(q)[i]) && WithoutNot(Operands(q)[i]);
      MoreEffectsNeverClear(q.children[i], e, more);
      assert OperandHolds(p, i, more);
    } else if q.op == OP_TEST {
      var i :| 0 <= i < |e.tests| && TestFits(q.test.value, e.tests, i);
      assert TestFits(q.test.value, more.tests, i);
    }
  }
}
