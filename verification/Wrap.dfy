/** Integer-keyed CBOR maps and the padded Wrap. */
module Wraps {
  // The encoded length of a map, the padded Wrap and its strict decode, and the signature preimage.

  import opened Octets
  import opened Padding
  import Utf8

  /** Each value is kept as its encoded bytes. */
  type FieldMap = m: map<u64, Bytes> | |m| < TWO_64

  const FIRST_IGNORABLE_KEY: nat := 64
  const KID_LEN: nat := 16
  const ENC_LEN: nat := 32

  const WRAP_KEY_IKID: u64 := 1
  const WRAP_KEY_ENC2: u64 := 2
  const WRAP_KEY_BODY: u64 := 3
  const WRAP_KEY_PAD: u64 := 21

  /** The encoding of a byte string. */
  function BStr(b: Text): (s: Bytes)
    ensures |s| == CborHeadLen(|b|) + |b| && |s| > 0 && s[0] / 32 == 2
  {
    CborHead(2, |b|) + b
  }

  lemma {:induction false} BStrInjective(a: Text, b: Text)
    requires BStr(a) == BStr(b)
    ensures a == b
  {
    CborHeadCancel(2, |a|, a, |b|, b);
  }

  function Zeros(n: nat): Bytes { seq(n, _ => 0) }

  // ---- the canonical encoding of a map ----

  lemma {:induction false} MinExists(s: set<u64>) returns (k: u64)
    requires s != {}
    ensures k in s && forall j | j in s :: k <= j
  {
    var x :| x in s;
    var rest := s - {x};
    assert forall j | j in s :: j == x || j in rest;
    if rest == {} {
      k := x;
    } else {
      var y := MinExists(rest);
      k := if x < y then x else y;
    }
  }

  ghost function MinKey(m: map<u64, Bytes>): (k: u64)
    requires m != map[]
    ensures k in m && forall j | j in m :: k <= j
  {
    assert exists k: u64 :: k in m && forall j | j in m :: k <= j by {
      assert m.Keys != {};
      var k := MinExists(m.Keys);
    }
    var k: u64 :| k in m && forall j | j in m :: k <= j; k
  }

  lemma {:induction false} WithoutSize(m: map<u64, Bytes>, k: u64)
    requires k in m
    ensures |m - {k}| == |m| - 1
  {
    assert (m - {k}).Keys == m.Keys - {k};
    assert |m.Keys| == |m| && |(m - {k}).Keys| == |m - {k}|;
  }

  /** Keys in ascending order, each followed by its value. */
  ghost function EncodeFields(m: map<u64, Bytes>): Bytes
    decreases |m|
  {
    if m == map[] then []
    else
      var k := MinKey(m);
      WithoutSize(m, k);
      CborHead(0, k) + m[k] + EncodeFields(m - {k})
  }

  ghost function EncodeMap(m: FieldMap): Bytes
  {
    CborHead(5, |m|) + EncodeFields(m)
  }

  /** The fields with the given keys, in that order. */
  function FieldsText(m: map<u64, Bytes>, ks: seq<u64>): Bytes
    requires forall k | k in ks :: k in m
  {
    if ks == [] then [] else CborHead(0, ks[0]) + m[ks[0]] + FieldsText(m, ks[1..])
  }

  /** The canonical order is that of the keys: however they are listed in ascending order, the text is the same. */
  lemma {:induction false} FieldsInKeyOrder(m: map<u64, Bytes>, ks: seq<u64>)
    requires (forall k :: k in ks <==> k in m) && forall i, j | 0 <= i < j < |ks| :: ks[i] < ks[j]
    ensures EncodeFields(m) == FieldsText(m, ks)
    decreases |ks|
  {
    assert |ks| == 0 || ks[0] in ks;
    if m != map[] {
      var k := MinKey(m);
      assert k in ks;
      var i :| 0 <= i < |ks| && ks[i] == k;
      assert ks[0] in ks;
      assert ks[0] == k;
      var rest := m - {k};
      TailKeys(m, ks);
      FieldsInKeyOrder(rest, ks[1..]);
      SameFieldsText(m, rest, ks[1..]);
    }
  }

  lemma {:induction false} TailKeys(m: map<u64, Bytes>, ks: seq<u64>)
    requires ks != [] && (forall k :: k in ks <==> k in m) && forall i, j | 0 <= i < j < |ks| :: ks[i] < ks[j]
    ensures forall k :: k in ks[1..] <==> k in m - {ks[0]}
  {
    forall k ensures k in ks[1..] <==> k in m - {ks[0]} {
      assert ks == [ks[0]] + ks[1..];
      if k in ks[1..] {
        var i :| 0 <= i < |ks| - 1 && ks[1..][i] == k;
        assert ks[0] < ks[i + 1];
      }
    }
  }

  lemma {:induction false} SameFieldsText(m: map<u64, Bytes>, w: map<u64, Bytes>, ks: seq<u64>)
    requires forall k | k in ks :: k in m && k in w && m[k] == w[k]
    ensures FieldsText(m, ks) == FieldsText(w, ks)
    decreases |ks|
  {
    if ks != [] { SameFieldsText(m, w, ks[1..]); }
  }

  // ---- its length, summed in any order ----

  function EntryLen(m: map<u64, Bytes>, k: u64): nat
    requires k in m
  {
    CborHeadLen(k) + |m[k]|
  }

  /** Taking any one entry away, not only the least, takes its length away. */
  lemma {:induction false} LengthWithout(m: map<u64, Bytes>, k: u64)
    requires k in m
    ensures |EncodeFields(m)| == |EncodeFields(m - {k})| + EntryLen(m, k)
    decreases |m|
  {
    var least := MinKey(m);
    WithoutSize(m, least);
    if k != least {
      var rest := m - {k};
      WithoutSize(m, k);
      MinAgrees(m, k);
      assert m - {least} - {k} == m - {k} - {least};
      LengthWithout(m - {least}, k);
    }
  }

  lemma {:induction false} MinAgrees(m: map<u64, Bytes>, k: u64)
    requires k in m && k != MinKey(m)
    ensures MinKey(m) in m - {k} && m - {k} != map[] && MinKey(m - {k}) == MinKey(m)
  {
    var least := MinKey(m);
    assert least in m - {k};
    assert MinKey(m - {k}) in m;
  }

  method EncodedLen(m: FieldMap) returns (n: nat)
    ensures n == |EncodeMap(m)|
  {
    n := CborHeadLen(|m|);
    var rest: map<u64, Bytes> := m;
    while rest.Keys != {}
      invariant n + |EncodeFields(rest)| == |EncodeMap(m)|
      decreases rest.Keys
    {
      var k :| k in rest.Keys;
      LengthWithout(rest, k);
      n := n + CborHeadLen(k) + |rest[k]|;
      rest := rest - {k};
    }
    assert rest == map[];
  }

  lemma {:induction false} LengthWith(m: FieldMap, k: u64, v: Bytes)
    requires k in m
    ensures |m[k := v]| == |m| && |EncodeMap(m[k := v])| == |EncodeMap(m)| + |v| - |m[k]|
  {
    var more := m[k := v];
    assert more.Keys == m.Keys;
    assert |more.Keys| == |more| && |m.Keys| == |m|;
    LengthWithout(m, k);
    LengthWithout(more, k);
    assert more - {k} == m - {k};
  }

  // ---- padding ----

  function Emptied(wrap: FieldMap): map<u64, Bytes>
  {
    wrap[WRAP_KEY_PAD := BStr([])]
  }

  /** q is a Padmé length that some pad reaches. */
  predicate Reachable(base: nat, q: Int)
  {
    q >= base && Padme(q) == q && q - base !in UNREACHABLE
  }

  /** How many unreachable offsets are at least d. */
  ghost function Ahead(d: int): nat
  {
    |set u | u in UNREACHABLE && u >= d|
  }

  lemma {:induction false} FewerAhead(d: int, e: int)
    requires d in UNREACHABLE && d < e
    ensures Ahead(e) < Ahead(d)
  {
    var later := set u | u in UNREACHABLE && u >= e;
    var all := set u | u in UNREACHABLE && u >= d;
    assert later <= all && d in all && d !in later;
    StrictSubsetIsSmaller(later, all, d);
  }

  lemma {:induction false} StrictSubsetIsSmaller(a: set<int>, b: set<int>, x: int)
    requires a <= b && x in b && x !in a
    ensures |a| < |b|
  {
    assert b == a + (b - a);
    assert x in b - a;
  }

  /** The next Padmé length: none lies between it and target. */
  lemma {:induction false} NextPadme(target: Int)
    requires target < MAX_INT && Padme(target) == target
    ensures target < Padme(target + 1) && Padme(Padme(target + 1)) == Padme(target + 1)
    ensures forall q: Int | target < q < Padme(target + 1) :: Padme(q) != q
  {
    PadmeNotBelow(target + 1);
    PadmeIdempotent(target + 1);
    forall q: Int | target < q < Padme(target + 1) ensures Padme(q) != q {
      if Padme(q) == q { PadmeIsLeastFixedPoint(target + 1, q); }
    }
  }

  lemma {:induction false} PadmeNotBelow(n: Int)
    ensures n <= Padme(n)
  {
    if n >= 1 { PadmeOverhead(n); }
  }

  /** target is a Padmé length, and no reachable one lies between base and it. */
  ghost predicate Candidate(base: nat, target: Int)
  {
    && base <= target && Padme(target) == target && target - base <= 0x1000_0000_0000_0000
    && forall q: Int | base <= q < target :: !Reachable(base, q)
  }

  /**
   Sets the pad so that the encoded map has a Padmé length: the least one that any pad reaches. The lengths
   skipped are those at an unreachable offset from the map with an empty pad, so the search ends.
   */
  method ApplyPad(wrap: FieldMap) returns (padded: map<u64, Bytes>, target: Int, ghost n: nat)
    requires |Emptied(wrap)| < TWO_64 && |EncodeMap(Emptied(wrap))| <= 0x4000_0000_0000_0000
    ensures n <= MAX_INT && padded == wrap[WRAP_KEY_PAD := BStr(Zeros(n))] && |padded| < TWO_64
    ensures |EncodeMap(padded)| == target && Padme(target) == target
    ensures var base := |EncodeMap(Emptied(wrap))|;
      Reachable(base, target) && forall q: Int | base <= q < target :: !Reachable(base, q)
  {
    padded := wrap[WRAP_KEY_PAD := BStr([])];
    var base := EncodedLen(padded);
    target := Padme(base);
    FirstTarget(base);
    while true
      invariant Candidate(base, target)
      decreases Ahead(target - base)
    {
      var fit := PadLenFor(target - base);
      if fit.Some? {
        var count := fit.value;
        PaddedLength(wrap, count);
        n := count;
        padded := wrap[WRAP_KEY_PAD := BStr(Zeros(count))];
        return;
      }
      NextTarget(base, target);
      target := Padme(target + 1);
    }
  }

  lemma {:induction false} PaddedLength(wrap: FieldMap, n: nat)
    requires |Emptied(wrap)| < TWO_64 && n <= MAX_INT
    ensures |wrap[WRAP_KEY_PAD := BStr(Zeros(n))]| < TWO_64
    ensures |EncodeMap(wrap[WRAP_KEY_PAD := BStr(Zeros(n))])| == |EncodeMap(Emptied(wrap))| + Growth(n)
  {
    LengthWith(Emptied(wrap), WRAP_KEY_PAD, BStr(Zeros(n)));
    assert Emptied(wrap)[WRAP_KEY_PAD := BStr(Zeros(n))] == wrap[WRAP_KEY_PAD := BStr(Zeros(n))];
  }

  lemma {:induction false} FirstTarget(base: Int)
    requires 0 <= base <= 0x4000_0000_0000_0000
    ensures Candidate(base, Padme(base))
  {
    PadmeNotBelow(base);
    PadmeIdempotent(base);
    if base >= 1 { PadmeOverhead(base); }
    forall q: Int | base <= q < Padme(base) ensures !Reachable(base, q) {
      if Padme(q) == q { PadmeIsLeastFixedPoint(base, q); }
    }
  }

  lemma {:induction false} NextTarget(base: Int, target: Int)
    requires 0 <= base <= 0x4000_0000_0000_0000 && Candidate(base, target) && target - base in UNREACHABLE
    ensures target < MAX_INT && Candidate(base, Padme(target + 1))
    ensures Ahead(Padme(target + 1) - base) < Ahead(target - base)
  {
    PadmeOverhead(target + 1);
    NextPadme(target);
    FewerAhead(target - base, Padme(target + 1) - base);
  }

  // ---- reading encoded maps ----

  /** The CBOR library: what it takes as one data item, and how it decodes a byte string. */
  datatype Cbor = Cbor(item: Bytes -> bool, unwrap: Bytes -> Option<Text>)

  const NULL_ITEM: Bytes := [0xf6]

  /** Data items are self-delimiting, and byte strings, unsigned integers, text and null are items. */
  ghost predicate Lawful(c: Cbor)
  {
    && (forall a, b :: c.item(a) && c.item(b) && a <= b ==> a == b)
    && (forall b: Text :: c.item(BStr(b)) && c.unwrap(BStr(b)) == Some(b))
    && (forall n: u64 :: c.item(CborHead(0, n)))
    && (forall t: Text :: Utf8.Valid(t) ==> c.item(TStr(t)))
    && c.item(NULL_ITEM)
  }

  function TStr(t: Text): Bytes
  {
    CborHead(3, |t|) + t
  }

  ghost predicate ItemsOnly(c: Cbor, m: map<u64, Bytes>)
  {
    forall k | k in m :: c.item(m[k])
  }

  lemma {:induction false} ItemCancel(c: Cbor, a: Bytes, x: Bytes, b: Bytes, y: Bytes)
    requires Lawful(c) && c.item(a) && c.item(b) && a + x == b + y
    ensures a == b && x == y
  {
    OneIsPrefix(a, x, b, y);
    AppendCancel(a, x, b, y);
  }

  lemma {:induction false} OneIsPrefix(a: Bytes, x: Bytes, b: Bytes, y: Bytes)
    requires a + x == b + y
    ensures a <= b || b <= a
  {
    if |a| <= |b| {
      assert a == (a + x)[..|a|] == (b + y)[..|a|] == b[..|a|];
    } else {
      assert b == (b + y)[..|b|] == (a + x)[..|b|] == a[..|b|];
    }
  }

  lemma {:induction false} Unfold(m: map<u64, Bytes>, x: Bytes)
    requires m != map[]
    ensures var k := MinKey(m);
      EncodeFields(m) + x == CborHead(0, k) + (m[k] + (EncodeFields(m - {k}) + x))
  {
    var k := MinKey(m);
    WithoutSize(m, k);
    Regroup(CborHead(0, k), m[k], EncodeFields(m - {k}), x);
  }

  lemma {:induction false} Regroup(a: Bytes, b: Bytes, d: Bytes, x: Bytes)
    ensures a + b + d + x == a + (b + (d + x))
  {
  }

  lemma {:induction false} FirstFieldCancel(c: Cbor, m: map<u64, Bytes>, x: Bytes, w: map<u64, Bytes>, y: Bytes)
    requires Lawful(c) && ItemsOnly(c, m) && ItemsOnly(c, w) && m != map[] && w != map[]
    requires EncodeFields(m) + x == EncodeFields(w) + y
    ensures var k := MinKey(m);
      && k in w && m[k] == w[k] && EncodeFields(m - {k}) + x == EncodeFields(w - {k}) + y
  {
    var k, j := MinKey(m), MinKey(w);
    var restM, restW := EncodeFields(m - {k}) + x, EncodeFields(w - {j}) + y;
    Unfold(m, x);
    Unfold(w, y);
    CborHeadCancel(0, k, m[k] + restM, j, w[j] + restW);
    ItemCancel(c, m[k], restM, w[j], restW);
  }

  lemma {:induction false} EncodeFieldsCancel(c: Cbor, m: map<u64, Bytes>, x: Bytes, w: map<u64, Bytes>, y: Bytes)
    requires Lawful(c) && ItemsOnly(c, m) && ItemsOnly(c, w) && |m| == |w|
    requires EncodeFields(m) + x == EncodeFields(w) + y
    ensures m == w && x == y
    decreases |m|
  {
    if m != map[] {
      var k := MinKey(m);
      FirstFieldCancel(c, m, x, w, y);
      WithoutSize(m, k);
      WithoutSize(w, k);
      EncodeFieldsCancel(c, m - {k}, x, w - {k}, y);
      PutBack(m, w, k);
    } else {
      assert w == map[];
      assert x == [] + x && y == [] + y;
    }
  }

  lemma {:induction false} PutBack(m: map<u64, Bytes>, w: map<u64, Bytes>, k: u64)
    requires k in m && k in w && m[k] == w[k] && m - {k} == w - {k}
    ensures m == w
  {
    assert m == (m - {k})[k := m[k]] && w == (w - {k})[k := w[k]];
  }

  /** A map of data items is determined by its encoding. */
  lemma {:induction false} EncodeMapInjective(c: Cbor, m: FieldMap, w: FieldMap)
    requires Lawful(c) && ItemsOnly(c, m) && ItemsOnly(c, w) && EncodeMap(m) == EncodeMap(w)
    ensures m == w
  {
    CborHeadCancel(5, |m|, EncodeFields(m), |w|, EncodeFields(w));
    EncodeFieldsCancel(c, m, [], w, []);
  }

  /** Only the canonical encoding of a map of items is taken; any other bytes are refused. */
  ghost predicate DecodesTo(c: Cbor, pt: Bytes, m: FieldMap)
  {
    ItemsOnly(c, m) && EncodeMap(m) == pt
  }

  /** Field k as a byte string: the major type is checked before the library decodes. */
  function RawBytes(c: Cbor, m: FieldMap, k: u64): Option<Text>
  {
    if k !in m || m[k] == [] || m[k][0] / 32 != 2 then None else c.unwrap(m[k])
  }

  // ---- the Wrap ----

  /** body is the layer-2 ciphertext or the inner message; ikid and enc2 belong to a second layer. */
  datatype Wrap = Wrap(ikid: Option<Text>, enc2: Option<Text>, body: Text)

  const WRAP_KNOWN: set<u64> := {WRAP_KEY_IKID, WRAP_KEY_ENC2, WRAP_KEY_BODY, WRAP_KEY_PAD}

  /** The least key below 64 outside known. */
  method FirstUnknownCritical(m: FieldMap, known: set<u64>) returns (r: Option<u64>)
    ensures r.None? <==> forall k | k in m :: k < FIRST_IGNORABLE_KEY ==> k in known
    ensures r.Some? ==> r.value in m && r.value < FIRST_IGNORABLE_KEY && r.value !in known
                        && forall k | k in m && k < r.value :: k in known
  {
    r := None;
    var rest := m.Keys;
    while rest != {}
      invariant rest <= m.Keys
      invariant r.None? ==> forall k | k in m.Keys - rest :: k < FIRST_IGNORABLE_KEY ==> k in known
      invariant r.Some? ==> r.value in m && r.value < FIRST_IGNORABLE_KEY && r.value !in known
      invariant r.Some? ==> forall k | k in m.Keys - rest && k < r.value :: k in known
      decreases rest
    {
      var k :| k in rest;
      rest := rest - {k};
      if k < FIRST_IGNORABLE_KEY && k !in known && (r.None? || k < r.value) {
        r := Some(k);
      }
    }
    assert m.Keys - rest == m.Keys;
  }

  /** Which field maps carry the Wrap w: exactly one w for a map, when any. */
  ghost predicate Carries(c: Cbor, m: FieldMap, w: Wrap)
  {
    && (forall k | k in m :: k < FIRST_IGNORABLE_KEY ==> k in WRAP_KNOWN)
    && RawBytes(c, m, WRAP_KEY_BODY) == Some(w.body)
    && (exists n: nat :: RawBytes(c, m, WRAP_KEY_PAD) == Some(Zeros(n)))
    && (WRAP_KEY_IKID in m <==> w.ikid.Some?) && (WRAP_KEY_ENC2 in m <==> w.enc2.Some?)
    && (w.ikid.Some? <==> w.enc2.Some?)
    && (w.ikid.Some? ==>
          && RawBytes(c, m, WRAP_KEY_IKID) == w.ikid && |w.ikid.value| == KID_LEN
          && RawBytes(c, m, WRAP_KEY_ENC2) == w.enc2 && |w.enc2.value| == ENC_LEN)
  }

  method AllZero(pad: Text) returns (ok: bool)
    ensures ok <==> exists n: nat :: pad == Zeros(n)
  {
    for i := 0 to |pad|
      invariant pad[..i] == Zeros(i)
    {
      if pad[i] != 0 {
        assert forall n: nat :: |Zeros(n)| == n && (i < n ==> Zeros(n)[i] == 0);
        return false;
      }
    }
    assert pad[..|pad|] == pad;
    ok := true;
  }

  datatype WrapError = UnknownKey(key: u64) | BadBody | BadPad | PadNotZero | NotTogether | BadIkid | BadEnc2

  /** The strict decode of a field map; a map that is not well-encoded never reaches it. */
  method DecodeWrap(c: Cbor, m: FieldMap) returns (r: Result<Wrap, WrapError>)
    ensures r.Ok? ==> Carries(c, m, r.value)
    ensures r.Err? ==> forall w :: !Carries(c, m, w)
  {
    var unknown := FirstUnknownCritical(m, WRAP_KNOWN);
    if unknown.Some? {
      return Err(UnknownKey(unknown.value));
    }
    var body := RawBytes(c, m, WRAP_KEY_BODY);
    if body.None? {
      return Err(BadBody);
    }
    var pad := RawBytes(c, m, WRAP_KEY_PAD);
    if pad.None? {
      return Err(BadPad);
    }
    var zero := AllZero(pad.value);
    if !zero {
      return Err(PadNotZero);
    }
    if (WRAP_KEY_IKID in m) != (WRAP_KEY_ENC2 in m) {
      return Err(NotTogether);
    }
    if WRAP_KEY_IKID !in m {
      return Ok(Wrap(None, None, body.value));
    }
    var ikid := RawBytes(c, m, WRAP_KEY_IKID);
    if ikid.None? || |ikid.value| != KID_LEN {
      return Err(BadIkid);
    }
    var enc2 := RawBytes(c, m, WRAP_KEY_ENC2);
    if enc2.None? || |enc2.value| != ENC_LEN {
      return Err(BadEnc2);
    }
    r := Ok(Wrap(ikid, enc2, body.value));
  }

  function Unpadded(w: Wrap): FieldMap
  {
    var m: map<u64, Bytes> := map[WRAP_KEY_BODY := BStr(w.body)];
    if w.ikid.Some? && w.enc2.Some?
    then m[WRAP_KEY_IKID := BStr(w.ikid.value)][WRAP_KEY_ENC2 := BStr(w.enc2.value)]
    else m
  }

  lemma {:induction false} UnpaddedIsSmall(w: Wrap, pad: Bytes)
    ensures |Unpadded(w)[WRAP_KEY_PAD := pad]| <= 4
  {
    var m := Unpadded(w)[WRAP_KEY_PAD := pad];
    assert m.Keys <= WRAP_KNOWN;
    assert WRAP_KNOWN == m.Keys + (WRAP_KNOWN - m.Keys);
    assert |m.Keys| == |m|;
  }

  /** The field map of a Wrap with n zero bytes of pad. */
  function Padded(w: Wrap, n: Int): FieldMap
    requires n >= 0
  {
    UnpaddedIsSmall(w, BStr(Zeros(n)));
    Unpadded(w)[WRAP_KEY_PAD := BStr(Zeros(n))]
  }

  /** The field map of a Wrap with its pad, and the length of its encoding. */
  method PaddedMap(w: Wrap) returns (r: Option<(map<u64, Bytes>, Int)>, ghost n: nat)
    requires |EncodeMap(Padded(w, 0))| <= 0x4000_0000_0000_0000
    ensures r.None? <==> w.ikid.Some? != w.enc2.Some?
    ensures r.Some? ==>
      var (m, target) := r.value;
      n <= MAX_INT && m == Padded(w, n) && |EncodeMap(Padded(w, n))| == target && Padme(target) == target
  {
    if w.ikid.Some? != w.enc2.Some? {
      r, n := None, 0;
      return;
    }
    var m: map<u64, Bytes> := map[WRAP_KEY_BODY := BStr(w.body)];
    if w.ikid.Some? {
      m := m[WRAP_KEY_IKID := BStr(w.ikid.value)];
      m := m[WRAP_KEY_ENC2 := BStr(w.enc2.value)];
    }
    assert Emptied(m) == Padded(w, 0) by { assert Zeros(0) == []; }
    var padded, target;
    padded, target, n := ApplyPad(m);
    r := Some((padded, target));
  }

  /**
   A padded Wrap decodes to itself exactly when its second layer, if any, has a key id and an encapsulated key
   of the lengths the decoder asks for; otherwise it decodes to nothing.
   */
  lemma {:induction false} PaddedWrapDecodes(c: Cbor, w: Wrap, n: nat, m: FieldMap, v: Wrap)
    requires Lawful(c) && w.ikid.Some? == w.enc2.Some? && n <= MAX_INT
    requires DecodesTo(c, EncodeMap(Padded(w, n)), m)
    ensures Carries(c, m, v) <==> v == w && (w.ikid.Some? ==> |w.ikid.value| == KID_LEN && |w.enc2.value| == ENC_LEN)
  {
    FieldsOfPadded(c, w, n);
    CarriesWhen(c, Padded(w, n), w, n, v);
    OneMap(c, m, Padded(w, n));
  }

  lemma {:induction false} OneMap(c: Cbor, m: FieldMap, padded: FieldMap)
    requires Lawful(c) && ItemsOnly(c, padded) && DecodesTo(c, EncodeMap(padded), m)
    ensures m == padded
  {
    EncodeMapInjective(c, m, padded);
  }

  lemma {:induction false} CarriesWhen(c: Cbor, m: FieldMap, w: Wrap, n: nat, v: Wrap)
    requires n <= MAX_INT && w.ikid.Some? == w.enc2.Some? && m.Keys <= WRAP_KNOWN
    requires RawBytes(c, m, WRAP_KEY_BODY) == Some(w.body) && RawBytes(c, m, WRAP_KEY_PAD) == Some(Zeros(n))
    requires (WRAP_KEY_IKID in m <==> w.ikid.Some?) && (WRAP_KEY_ENC2 in m <==> w.ikid.Some?)
    requires w.ikid.Some? ==> RawBytes(c, m, WRAP_KEY_IKID) == w.ikid && RawBytes(c, m, WRAP_KEY_ENC2) == w.enc2
    ensures Carries(c, m, v) <==> v == w && (w.ikid.Some? ==> |w.ikid.value| == KID_LEN && |w.enc2.value| == ENC_LEN)
  {
  }

  lemma {:induction false} FieldsOfPadded(c: Cbor, w: Wrap, n: nat)
    requires Lawful(c) && w.ikid.Some? == w.enc2.Some? && n <= MAX_INT
    ensures var m := Padded(w, n);
      && ItemsOnly(c, m) && m.Keys <= WRAP_KNOWN
      && RawBytes(c, m, WRAP_KEY_BODY) == Some(w.body) && RawBytes(c, m, WRAP_KEY_PAD) == Some(Zeros(n))
      && (WRAP_KEY_IKID in m <==> w.ikid.Some?) && (WRAP_KEY_ENC2 in m <==> w.ikid.Some?)
      && (w.ikid.Some? ==> RawBytes(c, m, WRAP_KEY_IKID) == w.ikid && RawBytes(c, m, WRAP_KEY_ENC2) == w.enc2)
  {
  }

  // ---- the signature preimage ----

  const KEY_BODY: u64 := 9
  const KEY_SIG: u64 := 20
  const PRE_KEY_LABEL: u64 := 0
  const PRE_KEY_ENC: u64 := 30
  const PRE_KEY_KID: u64 := 31
  const PRE_KEY_SUITE: u64 := 32
  const PRE_KEY_IKID: u64 := 33
  const PRE_KEY_ENC2: u64 := 34

  const RESERVED: set<u64> := {PRE_KEY_LABEL, PRE_KEY_ENC, PRE_KEY_KID, PRE_KEY_SUITE, PRE_KEY_IKID, PRE_KEY_ENC2}

  /** SHA-256, and the value of preimage key 0. */
  datatype Signing = Signing(sha: Bytes -> Text, sigLabel: Text)

  /** What a signature covers besides the inner fields. */
  datatype Outer = Outer(enc: Text, kid: Text, suite: u64, ikid: Option<Text>, enc2: Option<Text>)

  function NullOr(b: Option<Text>): Bytes
  {
    if b.Some? then BStr(b.value) else NULL_ITEM
  }

  datatype PreimageError = LayersTorn | ReservedKey | NoBody

  /** What preimage key k holds when the builder sets it. */
  function Stamp(g: Signing, o: Outer, body: Text, k: u64): Bytes
  {
    if k == KEY_BODY then BStr(g.sha(body))
    else if k == PRE_KEY_LABEL then TStr(g.sigLabel)
    else if k == PRE_KEY_ENC then BStr(o.enc)
    else if k == PRE_KEY_KID then BStr(o.kid)
    else if k == PRE_KEY_SUITE then CborHead(0, o.suite)
    else if k == PRE_KEY_IKID then NullOr(o.ikid)
    else NullOr(o.enc2)
  }

  function Stamps(g: Signing, o: Outer, body: Text): map<u64, Bytes>
  {
    map k: u64 | k in RESERVED + {KEY_BODY} :: Stamp(g, o, body, k)
  }

  predicate Unreserved(keys: set<u64>)
  {
    forall k | k in keys :: k !in RESERVED
  }

  /** The fields the signature covers. */
  function Covered(c: Cbor, g: Signing, fields: FieldMap, o: Outer): Result<map<u64, Bytes>, PreimageError>
  {
    if o.ikid.Some? != o.enc2.Some? then Err(LayersTorn)
    else if Unreserved(fields.Keys) then
      match RawBytes(c, fields, KEY_BODY)
      case None => Err(NoBody)
      case Some(body) => Ok((fields - {KEY_SIG}) + Stamps(g, o, body))
    else Err(ReservedKey)
  }

  /** Copies every field but the signature, in any order; stops at a reserved key. */
  method CopyFields(fields: FieldMap) returns (r: Option<map<u64, Bytes>>)
    ensures r == if Unreserved(fields.Keys) then Some(fields - {KEY_SIG}) else None
  {
    var m: map<u64, Bytes> := map[];
    var rest := fields.Keys;
    while rest != {}
      invariant rest <= fields.Keys && Unreserved(fields.Keys - rest)
      invariant m == fields - rest - {KEY_SIG}
      decreases rest
    {
      var k :| k in rest;
      CopyStep(fields, rest, k);
      rest := rest - {k};
      if k == KEY_SIG {
        continue;
      }
      if k in RESERVED {
        return None;
      }
      m := m[k := fields[k]];
    }
    assert fields.Keys - rest == fields.Keys && fields - rest == fields;
    r := Some(m);
  }

  lemma {:induction false} CopyStep(fields: FieldMap, rest: set<u64>, k: u64)
    requires rest <= fields.Keys && k in rest
    ensures fields - (rest - {k}) - {KEY_SIG}
            == if k == KEY_SIG then fields - rest - {KEY_SIG} else (fields - rest - {KEY_SIG})[k := fields[k]]
    ensures fields.Keys - (rest - {k}) == fields.Keys - rest + {k}
    ensures k !in RESERVED && Unreserved(fields.Keys - rest) ==> Unreserved(fields.Keys - (rest - {k}))
    ensures k in RESERVED ==> k != KEY_SIG && !Unreserved(fields.Keys)
  {
  }

  method SigPreimage(c: Cbor, g: Signing, fields: FieldMap, o: Outer)
    returns (r: Result<map<u64, Bytes>, PreimageError>)
    ensures r == Covered(c, g, fields, o)
  {
    if o.ikid.Some? != o.enc2.Some? {
      return Err(LayersTorn);
    }
    var copied := CopyFields(fields);
    if copied.None? {
      return Err(ReservedKey);
    }
    var body := RawBytes(c, fields, KEY_BODY);
    if body.None? {
      return Err(NoBody);
    }
    var m := StampAll(g, o, body.value, copied.value);
    r := Ok(m);
  }

  method StampAll(g: Signing, o: Outer, body: Text, base: map<u64, Bytes>) returns (m: map<u64, Bytes>)
    requires o.ikid.Some? == o.enc2.Some?
    ensures m == base + Stamps(g, o, body)
  {
    m := base[KEY_BODY := BStr(g.sha(body))];
    m := m[PRE_KEY_LABEL := TStr(g.sigLabel)];
    m := m[PRE_KEY_ENC := BStr(o.enc)];
    m := m[PRE_KEY_KID := BStr(o.kid)];
    m := m[PRE_KEY_SUITE := CborHead(0, o.suite)];
    ghost var outer := m;
    m := m[PRE_KEY_IKID := NULL_ITEM];
    m := m[PRE_KEY_ENC2 := NULL_ITEM];
    if o.ikid.Some? {
      m := m[PRE_KEY_IKID := BStr(o.ikid.value)];
      m := m[PRE_KEY_ENC2 := BStr(o.enc2.value)];
    }
    SetTwice(outer, PRE_KEY_IKID, NULL_ITEM, NullOr(o.ikid), PRE_KEY_ENC2, NULL_ITEM, NullOr(o.enc2));
    StampedInOrder(base, Stamps(g, o, body));
  }

  lemma {:induction false} SetTwice(m: map<u64, Bytes>, k: u64, x: Bytes, x': Bytes, j: u64, y: Bytes, y': Bytes)
    requires k != j
    ensures m[k := x][j := y][k := x'][j := y'] == m[k := x'][j := y']
  {
  }

  /** Writing the seven stamps one by one puts them over the fields. */
  lemma {:induction false} StampedInOrder(base: map<u64, Bytes>, s: map<u64, Bytes>)
    requires s.Keys == RESERVED + {KEY_BODY}
    ensures base[KEY_BODY := s[KEY_BODY]][PRE_KEY_LABEL := s[PRE_KEY_LABEL]][PRE_KEY_ENC := s[PRE_KEY_ENC]]
                [PRE_KEY_KID := s[PRE_KEY_KID]][PRE_KEY_SUITE := s[PRE_KEY_SUITE]]
                [PRE_KEY_IKID := s[PRE_KEY_IKID]][PRE_KEY_ENC2 := s[PRE_KEY_ENC2]]
            == base + s
  {
  }

  /** What stands under each key of the preimage, and when there is none. */
  lemma {:induction false} CoveredHolds(c: Cbor, g: Signing, fields: FieldMap, o: Outer)
    ensures Covered(c, g, fields, o) == Err(LayersTorn) <==> o.ikid.Some? != o.enc2.Some?
    ensures Covered(c, g, fields, o) == Err(ReservedKey)
            <==> o.ikid.Some? == o.enc2.Some? && exists k :: k in fields && k in {0, 30, 31, 32, 33, 34}
    ensures Covered(c, g, fields, o).Ok? ==>
      var m := Covered(c, g, fields, o).value;
      && RawBytes(c, fields, 9).Some? && m.Keys == fields.Keys - {20} + {0, 9, 30, 31, 32, 33, 34}
      && m[0] == TStr(g.sigLabel) && m[9] == BStr(g.sha(RawBytes(c, fields, 9).value))
      && m[30] == BStr(o.enc) && m[31] == BStr(o.kid) && m[32] == CborHead(0, o.suite)
      && m[33] == (if o.ikid.Some? then BStr(o.ikid.value) else [0xf6])
      && m[34] == (if o.enc2.Some? then BStr(o.enc2.value) else [0xf6])
      && forall k | k in fields && k != 20 && k != 9 :: m[k] == fields[k]
    ensures Covered(c, g, fields, o) == Err(NoBody)
            ==> RawBytes(c, fields, 9).None? && o.ikid.Some? == o.enc2.Some?
  {
  }

  /**
   One signed preimage, one message: equal preimages come from the same outer values, the same layering and the
   same fields apart from the signature itself, and from the same body unless two bodies collide under the hash.
   */
  lemma {:induction false} SignatureBindsEverything(
    c: Cbor, g: Signing, f: FieldMap, o: Outer, h: FieldMap, p: Outer, mf: FieldMap, mh: FieldMap)
    requires Lawful(c) && Utf8.Valid(g.sigLabel) && ItemsOnly(c, f) && ItemsOnly(c, h)
    requires Covered(c, g, f, o) == Ok(mf) && Covered(c, g, h, p) == Ok(mh)
    requires EncodeMap(mf) == EncodeMap(mh)
    ensures o == p
    ensures f - {KEY_SIG, KEY_BODY} == h - {KEY_SIG, KEY_BODY}
    ensures var x, y := RawBytes(c, f, KEY_BODY).value, RawBytes(c, h, KEY_BODY).value;
      x == y || (x != y && g.sha(x) == g.sha(y))
  {
    CoveredAreItems(c, g, f, o, mf);
    CoveredAreItems(c, g, h, p, mh);
    EncodeMapInjective(c, mf, mh);
    SameCovered(g, f, o, RawBytes(c, f, KEY_BODY).value, h, p, RawBytes(c, h, KEY_BODY).value);
  }

  lemma {:induction false} SameCovered(g: Signing, f: FieldMap, o: Outer, x: Text, h: FieldMap, p: Outer, y: Text)
    requires Unreserved(f.Keys) && Unreserved(h.Keys)
    requires (f - {KEY_SIG}) + Stamps(g, o, x) == (h - {KEY_SIG}) + Stamps(g, p, y)
    ensures o == p && g.sha(x) == g.sha(y)
    ensures f - {KEY_SIG, KEY_BODY} == h - {KEY_SIG, KEY_BODY}
  {
    SameStamps(f - {KEY_SIG}, Stamps(g, o, x), h - {KEY_SIG}, Stamps(g, p, y));
    SameOuter(g, o, x, p, y);
    SameFields(f, Stamps(g, o, x), h, Stamps(g, p, y));
  }

  lemma {:induction false} CoveredAreItems(c: Cbor, g: Signing, f: FieldMap, o: Outer, m: FieldMap)
    requires Lawful(c) && Utf8.Valid(g.sigLabel) && ItemsOnly(c, f) && Covered(c, g, f, o) == Ok(m)
    ensures ItemsOnly(c, m)
  {
    var body := RawBytes(c, f, KEY_BODY).value;
    StampsAreItems(c, g, o, body);
    UnionOfItems(c, f - {KEY_SIG}, Stamps(g, o, body));
  }

  lemma {:induction false} StampsAreItems(c: Cbor, g: Signing, o: Outer, body: Text)
    requires Lawful(c) && Utf8.Valid(g.sigLabel)
    ensures ItemsOnly(c, Stamps(g, o, body))
  {
    forall k | k in Stamps(g, o, body) ensures c.item(Stamps(g, o, body)[k]) {
      StampIsItem(c, g, o, body, k);
    }
  }

  lemma {:induction false} UnionOfItems(c: Cbor, a: map<u64, Bytes>, b: map<u64, Bytes>)
    requires ItemsOnly(c, a) && ItemsOnly(c, b)
    ensures ItemsOnly(c, a + b)
  {
  }

  lemma {:induction false} SameStamps(a: map<u64, Bytes>, s: map<u64, Bytes>, b: map<u64, Bytes>, t: map<u64, Bytes>)
    requires s.Keys == t.Keys && a + s == b + t
    ensures s == t
  {
    forall k | k in s ensures s[k] == t[k] {
      assert (a + s)[k] == s[k] && (b + t)[k] == t[k];
    }
  }

  lemma {:induction false} StampIsItem(c: Cbor, g: Signing, o: Outer, body: Text, k: u64)
    requires Lawful(c) && Utf8.Valid(g.sigLabel)
    ensures c.item(Stamp(g, o, body, k))
  {
  }

  lemma {:induction false} SameStamp(g: Signing, o: Outer, x: Text, p: Outer, y: Text, k: u64)
    requires Stamps(g, o, x) == Stamps(g, p, y) && k in RESERVED + {KEY_BODY}
    ensures Stamp(g, o, x, k) == Stamp(g, p, y, k)
  {
    assert Stamps(g, o, x)[k] == Stamps(g, p, y)[k];
  }

  lemma {:induction false} SameOuter(g: Signing, o: Outer, x: Text, p: Outer, y: Text)
    requires Stamps(g, o, x) == Stamps(g, p, y)
    ensures o == p && g.sha(x) == g.sha(y)
  {
    SameStamp(g, o, x, p, y, PRE_KEY_ENC);
    BStrInjective(o.enc, p.enc);
    SameStamp(g, o, x, p, y, PRE_KEY_KID);
    BStrInjective(o.kid, p.kid);
    SameStamp(g, o, x, p, y, PRE_KEY_SUITE);
    assert CborHead(0, o.suite) + [] == CborHead(0, p.suite) + [];
    CborHeadCancel(0, o.suite, [], p.suite, []);
    SameStamp(g, o, x, p, y, PRE_KEY_IKID);
    NullOrInjective(o.ikid, p.ikid);
    SameStamp(g, o, x, p, y, PRE_KEY_ENC2);
    NullOrInjective(o.enc2, p.enc2);
    SameStamp(g, o, x, p, y, KEY_BODY);
    BStrInjective(g.sha(x), g.sha(y));
  }

  lemma {:induction false} NullOrInjective(a: Option<Text>, b: Option<Text>)
    requires NullOr(a) == NullOr(b)
    ensures a == b
  {
    if a.Some? && b.Some? { BStrInjective(a.value, b.value); }
  }

  lemma {:induction false} SameFields(f: map<u64, Bytes>, a: map<u64, Bytes>, h: map<u64, Bytes>, b: map<u64, Bytes>)
    requires a.Keys == b.Keys == RESERVED + {KEY_BODY} && Unreserved(f.Keys) && Unreserved(h.Keys)
    requires (f - {KEY_SIG}) + a == (h - {KEY_SIG}) + b
    ensures f - {KEY_SIG, KEY_BODY} == h - {KEY_SIG, KEY_BODY}
  {
    var m := (f - {KEY_SIG}) + a;
    assert f - {KEY_SIG, KEY_BODY} == m - a.Keys;
    assert h - {KEY_SIG, KEY_BODY} == m - b.Keys;
  }
}
