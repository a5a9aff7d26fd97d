/** The CBOR laws hold of the data items of RFC 8949. */
module CborLaws {
  import opened Octets
  import Utf8
  import N = NullWalks
  import W = Wraps

  ghost predicate IsItem(b: Bytes)
  {
    exists it :: N.Spells(b, it)
  }

  ghost predicate IsByteString(b: Bytes, t: Text)
  {
    b == W.BStr(t)
  }

  ghost function Unwrap(b: Bytes): Option<Text>
  {
    if exists t: Text :: IsByteString(b, t) then
      var t: Text :| IsByteString(b, t); Some(t)
    else None
  }

  ghost function Standard(): W.Cbor
  {
    W.Cbor(b => IsItem(b), b => Unwrap(b))
  }

  function ShortestWidth(n: u64): N.Width
  {
    if n < 24 then N.W0 else if n <= 0xff then N.W1 else if n <= 0xffff then N.W2
    else if n <= 0xffff_ffff then N.W4 else N.W8
  }

  lemma {:induction false} ShortestHead(major: nat, n: u64)
    requires major < 8
    ensures N.ArgFits(ShortestWidth(n), n) && N.HeadOf(major, ShortestWidth(n), n) == CborHead(major, n)
  {
    Pow256Values();
  }

  lemma {:induction false} ItemsArePrefixFree(a: Bytes, b: Bytes)
    requires IsItem(a) && IsItem(b) && a <= b
    ensures a == b
  {
    var x :| N.Spells(a, x);
    var y :| N.Spells(b, y);
    assert b[0..0 + |a|] == a && b[0..0 + |b|] == b;
    N.SpellingIsUnique(b, 0, x, y);
  }

  lemma {:induction false} StringsAreItems(utf8: bool, t: Text)
    ensures IsItem(if utf8 then W.TStr(t) else W.BStr(t))
  {
    ShortestHead(N.StrMajor(utf8), |t|);
    var it := N.Str(utf8, ShortestWidth(|t|), t);
    assert N.Spells(if utf8 then W.TStr(t) else W.BStr(t), it);
  }

  lemma {:induction false} NumbersAreItems(n: u64)
    ensures IsItem(CborHead(0, n))
  {
    ShortestHead(0, n);
    assert N.Spells(CborHead(0, n), N.Number(false, ShortestWidth(n), n));
  }

  lemma {:induction false} UnwrapsByteStrings(t: Text)
    ensures Unwrap(W.BStr(t)) == Some(t)
  {
    assert IsByteString(W.BStr(t), t);
    var u := Unwrap(W.BStr(t)).value;
    W.BStrInjective(t, u);
  }

  /** The laws that the results about the Wrap and the signature preimage rest on are met by well-formed items. */
  lemma {:induction false} StandardIsLawful()
    ensures W.Lawful(Standard())
  {
    forall a: Bytes, b: Bytes | Standard().item(a) && Standard().item(b) && a <= b ensures a == b {
      ItemsArePrefixFree(a, b);
    }
    forall b: Text ensures Standard().item(W.BStr(b)) && Standard().unwrap(W.BStr(b)) == Some(b) {
      StringsAreItems(false, b);
      UnwrapsByteStrings(b);
    }
    forall n: u64 ensures Standard().item(CborHead(0, n)) {
      NumbersAreItems(n);
    }
    forall t: Text | Utf8.Valid(t) ensures Standard().item(W.TStr(t)) {
      StringsAreItems(true, t);
    }
    assert N.Spells(W.NULL_ITEM, N.Null);
  }
}
