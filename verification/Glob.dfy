/** The glob dialect. */
module Globs {
  // `*` stays inside a path segment; `**` crosses slashes and swallows those right after it.

  import opened Octets

  const SLASH: byte := 0x2F
  const STAR: byte := 0x2A

  datatype Token = Cross | Segment | Literal(b: byte)

  function SkipSlashes(pat: Bytes): (rest: Bytes)
    ensures |rest| <= |pat|
  {
    if pat != [] && pat[0] == SLASH then SkipSlashes(pat[1..]) else pat
  }

  /** A pattern read left to right. */
  function Tokens(pat: Bytes): seq<Token>
    decreases |pat|
  {
    if pat == [] then []
    else if |pat| >= 2 && pat[0] == STAR && pat[1] == STAR then [Cross] + Tokens(SkipSlashes(pat[2..]))
    else if pat[0] == STAR then [Segment] + Tokens(pat[1..])
    else [Literal(pat[0])] + Tokens(pat[1..])
  }

  // ---- how a pattern is cut into tokens ----

  function Slashes(n: nat): Bytes { seq(n, _ => SLASH) }

  /** A token as it is written, with n slashes behind a double star. */
  function Written(t: Token, n: nat): Bytes
  {
    match t
    case Cross => [STAR, STAR] + Slashes(n)
    case Segment => [STAR]
    case Literal(b) => [b]
  }

  function WrittenAll(ts: seq<Token>, ns: seq<nat>): Bytes
    requires |ns| == |ts|
  {
    if ts == [] then [] else Written(ts[0], ns[0]) + WrittenAll(ts[1..], ns[1..])
  }

  /** What may stand behind a token: no slash behind a double star, which takes it, and no star behind a single one. */
  predicate MayFollow(t: Token, next: Token)
  {
    && (t == Cross ==> next != Literal(SLASH))
    && (t == Segment ==> next != Segment && next != Cross)
  }

  /** Tokens as greedy reading gives them. */
  predicate Greedy(ts: seq<Token>)
  {
    && (forall i | 0 <= i < |ts| :: ts[i] != Literal(STAR))
    && (forall i | 0 <= i < |ts| - 1 :: MayFollow(ts[i], ts[i + 1]))
  }

  lemma {:induction false} SlashesSkipped(n: nat, rest: Bytes)
    requires rest == [] || rest[0] != SLASH
    ensures SkipSlashes(Slashes(n) + rest) == rest
    decreases n
  {
    if n == 0 {
      assert Slashes(n) + rest == rest;
    } else {
      SlashesSkipped(n - 1, rest);
      assert (Slashes(n) + rest)[1..] == Slashes(n - 1) + rest;
    }
  }

  lemma {:induction false} SkippedSlashes(pat: Bytes) returns (n: nat)
    ensures pat == Slashes(n) + SkipSlashes(pat) && (SkipSlashes(pat) == [] || SkipSlashes(pat)[0] != SLASH)
    decreases |pat|
  {
    if pat != [] && pat[0] == SLASH {
      var m := SkippedSlashes(pat[1..]);
      n := m + 1;
      assert pat == [SLASH] + pat[1..];
      assert [SLASH] + Slashes(m) == Slashes(n);
    } else {
      n := 0;
      assert Slashes(0) + pat == pat;
    }
  }

  /** The tokens of a pattern spell it, greedily. */
  lemma {:induction false} TokensAreWritten(pat: Bytes) returns (ns: seq<nat>)
    ensures |ns| == |Tokens(pat)| && WrittenAll(Tokens(pat), ns) == pat && Greedy(Tokens(pat))
    decreases |pat|
  {
    if pat == [] {
      ns := [];
    } else {
      var t, n, rest := FirstWritten(pat);
      var more := TokensAreWritten(rest);
      ns := [n] + more;
      WrittenCons(t, n, Tokens(rest), more);
      GreedyCons(t, rest);
    }
  }

  lemma {:induction false} FirstWritten(pat: Bytes) returns (t: Token, n: nat, rest: Bytes)
    requires pat != []
    ensures pat == Written(t, n) + rest && Tokens(pat) == [t] + Tokens(rest) && |rest| < |pat|
    ensures t != Literal(STAR) && (t == Cross ==> rest == [] || rest[0] != SLASH) && (t == Segment ==> rest == [] || rest[0] != STAR)
  {
    t, n, rest := Tokens(pat)[0], 0, pat[1..];
    if t == Cross {
      n := SkippedSlashes(pat[2..]);
      rest := SkipSlashes(pat[2..]);
      assert pat == [STAR, STAR] + pat[2..];
    } else {
      assert pat == [pat[0]] + rest;
    }
  }

  lemma {:induction false} WrittenCons(t: Token, n: nat, ts: seq<Token>, ns: seq<nat>)
    requires |ns| == |ts|
    ensures WrittenAll([t] + ts, [n] + ns) == Written(t, n) + WrittenAll(ts, ns)
  {
    assert ([t] + ts)[1..] == ts && ([n] + ns)[1..] == ns;
  }

  lemma {:induction false} GreedyCons(t: Token, rest: Bytes)
    requires Greedy(Tokens(rest)) && t != Literal(STAR)
    requires t == Cross ==> rest == [] || rest[0] != SLASH
    requires t == Segment ==> rest == [] || rest[0] != STAR
    ensures Greedy([t] + Tokens(rest))
  {
    var ts := [t] + Tokens(rest);
    forall i | 0 <= i < |ts| - 1 ensures MayFollow(ts[i], ts[i + 1]) {
      if i > 0 { assert MayFollow(Tokens(rest)[i - 1], Tokens(rest)[i]); }
    }
  }

  /** There is one greedy reading of a pattern. */
  lemma {:induction false} TokensAreTheReading(ts: seq<Token>, ns: seq<nat>)
    requires |ns| == |ts| && Greedy(ts)
    ensures Tokens(WrittenAll(ts, ns)) == ts
    decreases |ts|
  {
    if ts != [] {
      var rest := WrittenAll(ts[1..], ns[1..]);
      forall i | 0 <= i < |ts| - 2 ensures MayFollow(ts[1..][i], ts[1..][i + 1]) { assert MayFollow(ts[i + 1], ts[i + 2]); }
      TokensAreTheReading(ts[1..], ns[1..]);
      if |ts| > 1 {
        assert MayFollow(ts[0], ts[1]);
        assert ts[1] != Literal(STAR);
        assert rest[0] == Written(ts[1], ns[1])[0];
      }
      FirstToken(ts[0], ns[0], rest);
      assert ts == [ts[0]] + ts[1..];
    }
  }

  lemma {:induction false} FirstToken(t: Token, n: nat, rest: Bytes)
    requires t != Literal(STAR)
    requires t == Cross ==> rest == [] || rest[0] != SLASH
    requires t == Segment ==> rest == [] || rest[0] != STAR
    ensures Tokens(Written(t, n) + rest) == [t] + Tokens(rest)
  {
    var pat := Written(t, n) + rest;
    if t == Cross {
      assert pat[2..] == Slashes(n) + rest;
      SlashesSkipped(n, rest);
    } else {
      assert pat[1..] == rest;
    }
  }

  // ---- what tokens stand for ----

  /** The strings a single token stands for. */
  predicate Fits(t: Token, w: Bytes)
  {
    match t
    case Cross => true
    case Segment => SLASH !in w
    case Literal(b) => w == [b]
  }

  function Joined(ws: seq<Bytes>): Bytes
  {
    if ws == [] then [] else Joined(ws[..|ws| - 1]) + ws[|ws| - 1]
  }

  ghost predicate Splits(ts: seq<Token>, s: Bytes, ws: seq<Bytes>)
  {
    |ws| == |ts| && Joined(ws) == s && forall i | 0 <= i < |ts| :: Fits(ts[i], ws[i])
  }

  /** The declarative meaning: s can be cut into one piece per token, each of which its token stands for. */
  ghost predicate Accepts(ts: seq<Token>, s: Bytes)
  {
    exists ws :: Splits(ts, s, ws)
  }

  ghost predicate GlobAccepts(pat: Bytes, s: Bytes)
  {
    Accepts(Tokens(pat), s)
  }

  // ---- one token further ----

  /** Some reachable j can be followed by a piece of t that ends at k. */
  ghost predicate StepsTo(ts: seq<Token>, t: Token, s: Bytes, j: nat, k: nat)
    requires j <= k <= |s|
  {
    Accepts(ts, s[..j]) && Fits(t, s[j..k])
  }

  lemma {:induction false} SplitsSnoc(ts: seq<Token>, t: Token, a: Bytes, w: Bytes, ws: seq<Bytes>)
    ensures Splits(ts + [t], a + w, ws + [w]) <==> Splits(ts, a, ws) && Fits(t, w)
  {
    var more := ws + [w];
    assert more[..|more| - 1] == ws;
    assert forall i | 0 <= i < |ts| :: (ts + [t])[i] == ts[i];
    if Splits(ts + [t], a + w, more) {
      assert Joined(ws) + w == a + w;
      assert Joined(ws) == (a + w)[..|a|] == a;
      assert forall i | 0 <= i < |ts| :: Fits((ts + [t])[i], more[i]);
      assert Fits((ts + [t])[|ts|], more[|ts|]);
    }
  }

  lemma {:induction false} AcceptsSnoc(ts: seq<Token>, t: Token, s: Bytes, k: nat)
    requires k <= |s|
    ensures Accepts(ts + [t], s[..k]) <==> exists j :: 0 <= j <= k && StepsTo(ts, t, s, j, k)
  {
    if Accepts(ts + [t], s[..k]) {
      var ws :| Splits(ts + [t], s[..k], ws);
      var j := LastStep(ts, t, s, k, ws);
    }
    if j :| 0 <= j <= k && StepsTo(ts, t, s, j, k) {
      var ws :| Splits(ts, s[..j], ws);
      assert s[..k] == s[..j] + s[j..k];
      SplitsSnoc(ts, t, s[..j], s[j..k], ws);
    }
  }

  lemma {:induction false} LastStep(ts: seq<Token>, t: Token, s: Bytes, k: nat, ws: seq<Bytes>) returns (j: nat)
    requires k <= |s| && Splits(ts + [t], s[..k], ws)
    ensures j <= k && StepsTo(ts, t, s, j, k)
  {
    var n := |ts|;
    var w := ws[n];
    assert s[..k] == Joined(ws[..n]) + w;
    j := k - |w|;
    assert Joined(ws[..n]) == s[..j] && w == s[j..k];
    assert ws == ws[..n] + [w] && s[..k] == s[..j] + w;
    SplitsSnoc(ts, t, s[..j], w, ws[..n]);
  }

  lemma {:induction false} AcceptsEmpty(s: Bytes)
    ensures Accepts([], s) <==> s == []
  {
    assert Joined([]) == [];
    if s == [] { assert Splits([], s, []); }
    if Accepts([], s) {
      var ws :| Splits([], s, ws);
      assert ws == [];
    }
  }

  // ---- the matcher ----

  /** cur[j] says whether the tokens read so far stand for the first j bytes. */
  ghost predicate Reached(ts: seq<Token>, s: Bytes, cur: seq<bool>)
  {
    |cur| == |s| + 1 && forall j | 0 <= j <= |s| :: cur[j] == Accepts(ts, s[..j])
  }

  /** Whether t can carry some reachable position to k. */
  ghost predicate Carried(t: Token, s: Bytes, cur: seq<bool>, k: nat)
    requires |cur| == |s| + 1 && k <= |s|
  {
    exists j :: 0 <= j <= k && cur[j] && Fits(t, s[j..k])
  }

  lemma {:induction false} ReachedSnoc(ts: seq<Token>, t: Token, s: Bytes, cur: seq<bool>, next: seq<bool>)
    requires Reached(ts, s, cur) && |next| == |s| + 1
    requires forall k | 0 <= k <= |s| :: next[k] == Carried(t, s, cur, k)
    ensures Reached(ts + [t], s, next)
  {
    forall k | 0 <= k <= |s| ensures next[k] == Accepts(ts + [t], s[..k]) {
      AcceptsSnoc(ts, t, s, k);
      if Carried(t, s, cur, k) {
        var j :| 0 <= j <= k && cur[j] && Fits(t, s[j..k]);
        assert StepsTo(ts, t, s, j, k);
      }
      if j :| 0 <= j <= k && StepsTo(ts, t, s, j, k) {
        assert cur[j];
      }
    }
  }

  lemma {:induction false} CarriedCross(s: Bytes, cur: seq<bool>, k: nat)
    requires |cur| == |s| + 1 && k <= |s|
    ensures Carried(Cross, s, cur, k) == ((k > 0 && Carried(Cross, s, cur, k - 1)) || cur[k])
  {
    if cur[k] { assert Fits(Cross, s[k..k]); }
    if k > 0 && Carried(Cross, s, cur, k - 1) {
      var j :| 0 <= j <= k - 1 && cur[j] && Fits(Cross, s[j..k - 1]);
      assert Fits(Cross, s[j..k]);
    }
    if Carried(Cross, s, cur, k) && !cur[k] {
      var j :| 0 <= j <= k && cur[j] && Fits(Cross, s[j..k]);
      assert Fits(Cross, s[j..k - 1]);
    }
  }

  lemma {:induction false} CarriedSegment(s: Bytes, cur: seq<bool>, k: nat)
    requires |cur| == |s| + 1 && k <= |s|
    ensures Carried(Segment, s, cur, k)
            == ((k > 0 && s[k - 1] != SLASH && Carried(Segment, s, cur, k - 1)) || cur[k])
  {
    if cur[k] { assert Fits(Segment, s[k..k]); }
    if k > 0 && s[k - 1] != SLASH && Carried(Segment, s, cur, k - 1) {
      var j :| 0 <= j <= k - 1 && cur[j] && Fits(Segment, s[j..k - 1]);
      assert s[j..k] == s[j..k - 1] + [s[k - 1]];
      assert Fits(Segment, s[j..k]);
    }
    if Carried(Segment, s, cur, k) && !cur[k] {
      var j :| 0 <= j <= k && cur[j] && Fits(Segment, s[j..k]);
      assert s[j..k] == s[j..k - 1] + [s[k - 1]];
      assert Fits(Segment, s[j..k - 1]);
    }
  }

  lemma {:induction false} CarriedLiteral(b: byte, s: Bytes, cur: seq<bool>, k: nat)
    requires |cur| == |s| + 1 && k <= |s|
    ensures Carried(Literal(b), s, cur, k) == (k > 0 && cur[k - 1] && s[k - 1] == b)
  {
    if k > 0 && cur[k - 1] && s[k - 1] == b {
      assert s[k - 1..k] == [b];
      assert Fits(Literal(b), s[k - 1..k]);
    }
    if Carried(Literal(b), s, cur, k) {
      var j :| 0 <= j <= k && cur[j] && Fits(Literal(b), s[j..k]);
      assert |s[j..k]| == 1 && s[j..k][0] == s[j];
    }
  }

  method CrossRow(s: Bytes, cur: array<bool>, next: array<bool>)
    requires cur != next && cur.Length == next.Length == |s| + 1
    modifies next
    ensures forall k | 0 <= k <= |s| :: next[k] == Carried(Cross, s, cur[..], k)
  {
    var seen := false;
    for j := 0 to |s| + 1
      invariant seen == (j > 0 && Carried(Cross, s, cur[..], j - 1))
      invariant forall k | 0 <= k < j :: next[k] == Carried(Cross, s, cur[..], k)
    {
      CarriedCross(s, cur[..], j);
      seen := seen || cur[j];
      next[j] := seen;
    }
  }

  method SegmentRow(s: Bytes, cur: array<bool>, next: array<bool>)
    requires cur != next && cur.Length == next.Length == |s| + 1
    modifies next
    ensures forall k | 0 <= k <= |s| :: next[k] == Carried(Segment, s, cur[..], k)
  {
    var run := false;
    for j := 0 to |s| + 1
      invariant run == (j > 0 && Carried(Segment, s, cur[..], j - 1))
      invariant forall k | 0 <= k < j :: next[k] == Carried(Segment, s, cur[..], k)
    {
      CarriedSegment(s, cur[..], j);
      if j > 0 && s[j - 1] == SLASH {
        run := false;
      }
      run := run || cur[j];
      next[j] := run;
    }
  }

  method LiteralRow(b: byte, s: Bytes, cur: array<bool>, next: array<bool>)
    requires cur != next && cur.Length == next.Length == |s| + 1
    requires !next[0]
    modifies next
    ensures forall k | 0 <= k <= |s| :: next[k] == Carried(Literal(b), s, cur[..], k)
  {
    CarriedLiteral(b, s, cur[..], 0);
    for j := 0 to |s|
      invariant forall k | 0 <= k <= j :: next[k] == Carried(Literal(b), s, cur[..], k)
    {
      CarriedLiteral(b, s, cur[..], j + 1);
      next[j + 1] := cur[j] && s[j] == b;
    }
  }

  /** Overwrites every cell with false. */
  method Clear(a: array<bool>)
    modifies a
    ensures forall i | 0 <= i < a.Length :: !a[i]
  {
    for i := 0 to a.Length
      invariant forall k | 0 <= k < i :: !a[k]
    {
      a[i] := false;
    }
  }

  /** Reads one token of pat at p, and carries the reachable positions over it. */
  method Advance(pat: Bytes, p: nat, s: Bytes, cur: array<bool>, next: array<bool>, ghost done: seq<Token>)
    returns (q: nat, ghost t: Token)
    requires p < |pat| && cur != next && cur.Length == next.Length == |s| + 1
    requires Reached(done, s, cur[..])
    modifies next
    ensures p < q <= |pat| && Tokens(pat[p..]) == [t] + Tokens(pat[q..])
    ensures Reached(done + [t], s, next[..])
  {
    Clear(next);
    q := p;
    if p + 1 < |pat| && pat[p] == STAR && pat[p + 1] == STAR {
      q := p + 2;
      assert pat[p..][2..] == pat[q..];
      while q < |pat| && pat[q] == SLASH
        invariant p < q <= |pat| && SkipSlashes(pat[q..]) == SkipSlashes(pat[p + 2..])
      {
        assert pat[q..][1..] == pat[q + 1..];
        q := q + 1;
      }
      t := Cross;
      CrossRow(s, cur, next);
    } else if pat[p] == STAR {
      q := p + 1;
      assert pat[p..][1..] == pat[q..];
      t := Segment;
      SegmentRow(s, cur, next);
    } else {
      q := p + 1;
      assert pat[p..][1..] == pat[q..];
      t := Literal(pat[p]);
      LiteralRow(pat[p], s, cur, next);
    }
    ReachedSnoc(done, t, s, cur[..], next[..]);
  }

  method GlobMatch(pat: Bytes, s: Bytes) returns (ok: bool)
    ensures ok == GlobAccepts(pat, s)
  {
    var n := |s|;
    var cur := new bool[n + 1](_ => false);
    var next := new bool[n + 1](_ => false);
    cur[0] := true;
    var p := 0;
    ghost var done: seq<Token> := [];
    Start(s, cur[..]);
    assert pat[0..] == pat;
    while p < |pat|
      invariant p <= |pat| && cur != next && cur.Length == next.Length == n + 1
      invariant fresh(cur) && fresh(next)
      invariant done + Tokens(pat[p..]) == Tokens(pat)
      invariant Reached(done, s, cur[..])
    {
      ghost var t;
      p, t := Advance(pat, p, s, cur, next, done);
      done := done + [t];
      cur, next := next, cur;
    }
    ok := cur[n];
    assert ok == GlobAccepts(pat, s) by {
      assert pat[p..] == [] && s[..n] == s;
      assert done == Tokens(pat);
    }
  }

  lemma {:induction false} Start(s: Bytes, cur: seq<bool>)
    requires |cur| == |s| + 1 && cur[0] && forall j | 0 < j <= |s| :: !cur[j]
    ensures Reached([], s, cur)
  {
    forall j | 0 <= j <= |s| ensures cur[j] == Accepts([], s[..j]) {
      AcceptsEmpty(s[..j]);
    }
  }

  // ---- what patterns mean ----

  /** A pattern without a star stands for itself alone. */
  lemma {:induction false} PlainPatternIsItself(pat: Bytes, s: Bytes)
    requires STAR !in pat
    ensures GlobAccepts(pat, s) <==> s == pat
  {
    PlainTokens(pat, s, |s|);
    assert s[..|s|] == s;
  }

  lemma {:induction false} PlainTokensSnoc(pat: Bytes)
    requires STAR !in pat && pat != []
    ensures Tokens(pat) == Tokens(pat[..|pat| - 1]) + [Literal(pat[|pat| - 1])]
    decreases |pat|
  {
    if |pat| > 1 {
      PlainTokensSnoc(pat[1..]);
      assert pat[1..][..|pat| - 2] == pat[..|pat| - 1][1..];
    } else {
      assert pat == [pat[0]];
      assert pat[1..] == [];
    }
  }

  lemma {:induction false} PlainTokens(pat: Bytes, s: Bytes, k: nat)
    requires STAR !in pat && k <= |s|
    ensures Accepts(Tokens(pat), s[..k]) <==> s[..k] == pat
    decreases |pat|
  {
    if pat == [] {
      AcceptsEmpty(s[..k]);
    } else {
      var m := |pat| - 1;
      var init, b := pat[..m], pat[m];
      PlainTokensSnoc(pat);
      AcceptsSnoc(Tokens(init), Literal(b), s, k);
      assert pat == init + [b];
      forall j | 0 <= j <= k ensures StepsTo(Tokens(init), Literal(b), s, j, k) <==> s[..j] == init && s[j..k] == [b] {
        PlainTokens(init, s, j);
      }
      if s[..k] == pat {
        assert s[..k - 1] == init && s[k - 1..k] == [b];
        assert StepsTo(Tokens(init), Literal(b), s, k - 1, k);
      }
      if j :| 0 <= j <= k && StepsTo(Tokens(init), Literal(b), s, j, k) {
        assert s[..k] == s[..j] + s[j..k];
      }
    }
  }

  /** `dir` followed by one star stands for `dir` followed by anything without a slash. */
  lemma {:induction false} TrailingStarStaysInSegment(dir: Bytes, s: Bytes)
    requires STAR !in dir
    ensures GlobAccepts(dir + [STAR], s) <==> |s| >= |dir| && s[..|dir|] == dir && SLASH !in s[|dir|..]
  {
    PlainThen(dir, [STAR]);
    assert [STAR][1..] == [];
    assert Tokens([STAR]) == [Segment];
    Trailing(dir, Segment, s);
  }

  /** `dir` followed by two stars and any number of slashes stands for `dir` followed by anything at all. */
  lemma {:induction false} TrailingDoubleStarCrosses(dir: Bytes, slashes: Bytes, s: Bytes)
    requires STAR !in dir && forall i | 0 <= i < |slashes| :: slashes[i] == SLASH
    ensures GlobAccepts(dir + [STAR, STAR] + slashes, s) <==> |s| >= |dir| && s[..|dir|] == dir
  {
    var tail := [STAR, STAR] + slashes;
    assert dir + [STAR, STAR] + slashes == dir + tail;
    PlainThen(dir, tail);
    assert tail[2..] == slashes;
    AllSlashes(slashes);
    assert Tokens(tail) == [Cross];
    Trailing(dir, Cross, s);
  }

  lemma {:induction false} AllSlashes(slashes: Bytes)
    requires forall i | 0 <= i < |slashes| :: slashes[i] == SLASH
    ensures SkipSlashes(slashes) == []
  {
    if slashes != [] { AllSlashes(slashes[1..]); }
  }

  lemma {:induction false} PlainThen(dir: Bytes, tail: Bytes)
    requires STAR !in dir
    ensures Tokens(dir + tail) == Tokens(dir) + Tokens(tail)
    decreases |dir|
  {
    if dir == [] {
      assert dir + tail == tail;
    } else {
      PlainThen(dir[1..], tail);
      assert (dir + tail)[1..] == dir[1..] + tail;
      assert (dir + tail)[0] == dir[0] != STAR;
      assert Tokens(dir + tail) == [Literal(dir[0])] + (Tokens(dir[1..]) + Tokens(tail));
    }
  }

  lemma {:induction false} Trailing(dir: Bytes, t: Token, s: Bytes)
    requires STAR !in dir && !t.Literal?
    ensures Accepts(Tokens(dir) + [t], s) <==> |s| >= |dir| && s[..|dir|] == dir && Fits(t, s[|dir|..])
  {
    assert s[..|s|] == s;
    AcceptsSnoc(Tokens(dir), t, s, |s|);
    forall j | 0 <= j <= |s| ensures Accepts(Tokens(dir), s[..j]) <==> s[..j] == dir {
      PlainTokens(dir, s, j);
    }
    if j :| 0 <= j <= |s| && StepsTo(Tokens(dir), t, s, j, |s|) {
      assert j == |dir| && s[j..] == s[j..|s|];
    }
    if |s| >= |dir| && s[..|dir|] == dir && Fits(t, s[|dir|..]) {
      assert s[|dir|..] == s[|dir|..|s|];
      assert StepsTo(Tokens(dir), t, s, |dir|, |s|);
    }
  }
}
