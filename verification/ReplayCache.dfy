/** The bounded cache in front of replay. */
module ReplayCaching {
  // Entries are keyed by the SHA-256 of the encoded log and forgotten least recently used first. Each locked
  // section is one method, so two calls of ReplayThrough may interleave between its Lookup and its Insert.

  import opened Octets
  import opened Kel

  const ENTRY_OVERHEAD: nat := 256
  const STATE_SIZE: nat := 120
  const SLICE_SIZE: nat := 24

  type Cost = n: int | n > 0 witness 1

  datatype Entry<Key, Outcome> = Entry(key: Key, outcome: Outcome, cost: Cost)

  function SumCost<K, V>(lru: seq<Entry<K, V>>): nat
  {
    if lru == [] then 0 else lru[0].cost + SumCost(lru[1..])
  }

  lemma {:induction false} SumSplit<K, V>(a: seq<Entry<K, V>>, b: seq<Entry<K, V>>)
    ensures SumCost(a + b) == SumCost(a) + SumCost(b)
  {
    if a == [] {
      assert a + b == b;
    } else {
      SumSplit(a[1..], b);
      assert (a + b)[1..] == a[1..] + b;
    }
  }

  /** The same entries with entry i in front. */
  function ToFront<K, V>(lru: seq<Entry<K, V>>, i: nat): seq<Entry<K, V>>
    requires i < |lru|
  {
    [lru[i]] + lru[..i] + lru[i + 1..]
  }

  /** The chosen entry comes first, and the others keep their order. */
  lemma {:induction false} FrontOrder<K, V>(lru: seq<Entry<K, V>>, i: nat)
    requires i < |lru|
    ensures |ToFront(lru, i)| == |lru| && ToFront(lru, i)[0] == lru[i]
    ensures forall j | 0 <= j < i :: ToFront(lru, i)[j + 1] == lru[j]
    ensures forall j | i < j < |lru| :: ToFront(lru, i)[j] == lru[j]
  {
  }

  lemma {:induction false} SumToFront<K, V>(lru: seq<Entry<K, V>>, i: nat)
    requires i < |lru|
    ensures SumCost(ToFront(lru, i)) == SumCost(lru)
  {
    SumSplit([lru[i]] + lru[..i], lru[i + 1..]);
    SumSplit([lru[i]], lru[..i]);
    SumSplit(lru[..i] + [lru[i]], lru[i + 1..]);
    SumSplit(lru[..i], [lru[i]]);
    assert lru == lru[..i] + [lru[i]] + lru[i + 1..];
  }

  predicate DistinctKeys<K(==), V>(lru: seq<Entry<K, V>>)
  {
    forall i, j | 0 <= i < j < |lru| :: lru[i].key != lru[j].key
  }

  /** The map and the list hold the same entries, each under its own key. */
  predicate SameEntries<K(==), V(==)>(lru: seq<Entry<K, V>>, byKel: map<K, Entry<K, V>>)
  {
    && (forall e | e in lru :: e.key in byKel && byKel[e.key] == e)
    && (forall k | k in byKel :: byKel[k] in lru && byKel[k].key == k)
  }

  lemma {:induction false} FrontIsDistinct<K, V>(lru: seq<Entry<K, V>>, i: nat)
    requires i < |lru| && DistinctKeys(lru)
    ensures DistinctKeys(ToFront(lru, i))
  {
    var f := ToFront(lru, i);
    var from := (j: nat) => if j == 0 then i else if j <= i then j - 1 else j;
    assert forall j: nat | j < |lru| :: f[j] == lru[from(j)];
    forall a, b | 0 <= a < b < |f| ensures f[a].key != f[b].key {
      assert from(a) != from(b);
    }
  }

  // ---- recency ----

  /** The list runs from the entry used last, before the bound, to the one used longest ago. */
  ghost predicate LatestFirst<K, V>(lru: seq<Entry<K, V>>, lastUse: map<K, nat>, bound: nat)
  {
    lru == [] || (lru[0].key in lastUse && lastUse[lru[0].key] < bound && LatestFirst(lru[1..], lastUse, lastUse[lru[0].key]))
  }

  lemma {:induction false} LatestAt<K, V>(lru: seq<Entry<K, V>>, lastUse: map<K, nat>, bound: nat, i: nat)
    requires LatestFirst(lru, lastUse, bound) && i < |lru|
    ensures lru[i].key in lastUse && lastUse[lru[i].key] < bound && LatestFirst(lru[i..], lastUse, lastUse[lru[i].key] + 1)
    decreases i
  {
    if i > 0 {
      LatestAt(lru[1..], lastUse, lastUse[lru[0].key], i - 1);
      assert lru[1..][i - 1..] == lru[i..];
    }
  }

  lemma {:induction false} EarlierIsLater<K, V>(lru: seq<Entry<K, V>>, lastUse: map<K, nat>, bound: nat, i: nat, j: nat)
    requires LatestFirst(lru, lastUse, bound) && i < j < |lru|
    ensures lru[i].key in lastUse && lru[j].key in lastUse && lastUse[lru[j].key] < lastUse[lru[i].key]
  {
    LatestAt(lru, lastUse, bound, i);
    LatestAt(lru[i..][1..], lastUse, lastUse[lru[i].key], j - i - 1);
  }

  lemma {:induction false} LatestPrefix<K, V>(lru: seq<Entry<K, V>>, lastUse: map<K, nat>, bound: nat, n: nat)
    requires LatestFirst(lru, lastUse, bound) && n <= |lru|
    ensures LatestFirst(lru[..n], lastUse, bound)
    decreases n
  {
    if n > 0 {
      LatestPrefix(lru[1..], lastUse, lastUse[lru[0].key], n - 1);
      assert lru[..n][1..] == lru[1..][..n - 1];
    }
  }

  /** Without entry i the rest is still in order, whatever becomes of its time, and for any later bound. */
  lemma {:induction false} LatestWithout<K, V>(
    lru: seq<Entry<K, V>>, lastUse: map<K, nat>, bound: nat, i: nat, key: K, now: nat, later: nat)
    requires LatestFirst(lru, lastUse, bound) && i <= |lru| && bound <= later
    requires forall j | 0 <= j < |lru| && j != i :: lru[j].key != key
    ensures LatestFirst(lru[..i] + (if i < |lru| then lru[i + 1..] else []), lastUse[key := now], later)
    decreases |lru|
  {
    var rest := if i < |lru| then lru[i + 1..] else [];
    if lru != [] {
      var tail := lru[1..];
      if i == 0 {
        LatestWithout(tail, lastUse, lastUse[lru[0].key], |tail|, key, now, later);
        assert lru[..i] + rest == tail[..|tail|] + [];
      } else {
        LatestWithout(tail, lastUse, lastUse[lru[0].key], i - 1, key, now, lastUse[lru[0].key]);
        assert (lru[..i] + rest)[1..] == tail[..i - 1] + rest;
      }
    }
  }

  lemma {:induction false} FrontIsLatest<K, V>(lru: seq<Entry<K, V>>, i: nat, lastUse: map<K, nat>, clock: nat)
    requires i < |lru| && DistinctKeys(lru) && LatestFirst(lru, lastUse, clock)
    ensures LatestFirst(ToFront(lru, i), lastUse[lru[i].key := clock], clock + 1)
  {
    LatestWithout(lru, lastUse, clock, i, lru[i].key, clock, clock);
    assert ToFront(lru, i)[1..] == lru[..i] + lru[i + 1..];
  }

  lemma {:induction false} NewIsLatest<K, V>(lru: seq<Entry<K, V>>, e: Entry<K, V>, lastUse: map<K, nat>, clock: nat)
    requires LatestFirst(lru, lastUse, clock) && forall x | x in lru :: x.key != e.key
    ensures LatestFirst([e] + lru, lastUse[e.key := clock], clock + 1)
  {
    LatestWithout(lru, lastUse, clock, |lru|, e.key, clock, clock);
    assert ([e] + lru)[1..] == lru[..|lru|] + [];
  }

  /** What is in the first map only was used before everything that is in both. */
  ghost predicate OldestGone<K, E>(before: map<K, E>, after: map<K, E>, lastUse: map<K, nat>)
  {
    forall gone, kept | gone in before && gone !in after && kept in before && kept in after ::
      gone in lastUse && kept in lastUse && lastUse[gone] < lastUse[kept]
  }

  /** Keeping the first n entries drops those used longest ago. */
  lemma {:induction false} KeepsLatest<K, V>(
    lru: seq<Entry<K, V>>, byKel: map<K, Entry<K, V>>, n: nat, fewer: map<K, Entry<K, V>>, lastUse: map<K, nat>, clock: nat)
    requires n <= |lru| && SameEntries(lru, byKel) && SameEntries(lru[..n], fewer) && LatestFirst(lru, lastUse, clock)
    ensures OldestGone(byKel, fewer, lastUse)
  {
    forall gone, kept | gone in byKel && gone !in fewer && kept in byKel && kept in fewer
      ensures gone in lastUse && kept in lastUse && lastUse[gone] < lastUse[kept]
    {
      assert byKel[gone] in lru;
      assert fewer[kept] in lru[..n];
      var i :| 0 <= i < |lru| && lru[i] == byKel[gone];
      var j :| 0 <= j < |lru[..n]| && lru[..n][j] == fewer[kept];
      assert forall k | 0 <= k < n :: lru[..n][k] == lru[k] && lru[..n][k].key in fewer;
      EarlierIsLater(lru, lastUse, clock, j, i);
    }
  }

  /** Adding a new key changes nothing about which old ones went. */
  lemma {:induction false} OldestGoneWith<K, E>(
    before: map<K, E>, after: map<K, E>, lastUse: map<K, nat>, key: K, e: E)
    requires OldestGone(before, after, lastUse) && key !in before
    ensures OldestGone(before, after[key := e], lastUse)
  {
  }

  lemma {:induction false} FrontKeeps<K, V>(lru: seq<Entry<K, V>>, i: nat, byKel: map<K, Entry<K, V>>)
    requires i < |lru| && DistinctKeys(lru) && SameEntries(lru, byKel)
    ensures DistinctKeys(ToFront(lru, i)) && SameEntries(ToFront(lru, i), byKel)
  {
    FrontIsDistinct(lru, i);
    assert lru == lru[..i] + [lru[i]] + lru[i + 1..];
    assert forall e :: e in lru <==> e in ToFront(lru, i);
  }

  lemma {:induction false} UseKeeps<K, V>(
    lru: seq<Entry<K, V>>, i: nat, byKel: map<K, Entry<K, V>>, lastUse: map<K, nat>, clock: nat)
    requires i < |lru| && DistinctKeys(lru) && SameEntries(lru, byKel) && LatestFirst(lru, lastUse, clock)
    ensures var f := ToFront(lru, i);
      && DistinctKeys(f) && SameEntries(f, byKel) && SumCost(f) == SumCost(lru) && f != []
      && LatestFirst(f, lastUse[lru[i].key := clock], clock + 1)
  {
    SumToFront(lru, i);
    FrontKeeps(lru, i, byKel);
    FrontIsLatest(lru, i, lastUse, clock);
  }

  lemma {:induction false} EvictKeeps<K, V>(lru: seq<Entry<K, V>>, byKel: map<K, Entry<K, V>>)
    requires lru != [] && DistinctKeys(lru) && SameEntries(lru, byKel)
    ensures var n := |lru| - 1;
      DistinctKeys(lru[..n]) && SameEntries(lru[..n], byKel - {lru[n].key}) && SumCost(lru[..n]) + lru[n].cost == SumCost(lru)
  {
    var n := |lru| - 1;
    SumSplit(lru[..n], [lru[n]]);
    assert lru == lru[..n] + [lru[n]];
    assert SumCost([lru[n]]) == lru[n].cost + SumCost<K, V>([]);
    forall k | k in byKel && k != lru[n].key ensures byKel[k] in lru[..n] {
      assert byKel[k] in lru;
    }
    forall e | e in lru[..n] ensures e.key != lru[n].key && e in lru {
    }
  }

  lemma {:induction false} PrefixIsSubmap<K, V>(
    lru: seq<Entry<K, V>>, byKel: map<K, Entry<K, V>>, n: nat, fewer: map<K, Entry<K, V>>)
    requires n <= |lru| && SameEntries(lru, byKel) && SameEntries(lru[..n], fewer)
    ensures forall k | k in fewer :: k in byKel && fewer[k] == byKel[k]
  {
    forall k | k in fewer ensures k in byKel && fewer[k] == byKel[k] {
      assert fewer[k] in lru[..n];
      assert fewer[k] in lru;
    }
  }

  lemma {:induction false} AddKeeps<K, V>(lru: seq<Entry<K, V>>, byKel: map<K, Entry<K, V>>, e: Entry<K, V>)
    requires DistinctKeys(lru) && SameEntries(lru, byKel) && e.key !in byKel
    ensures DistinctKeys([e] + lru) && SameEntries([e] + lru, byKel[e.key := e])
    ensures SumCost([e] + lru) == e.cost + SumCost(lru) && forall x | x in lru :: x.key != e.key
  {
    forall x | x in lru ensures x.key != e.key {
    }
    assert ([e] + lru)[1..] == lru;
    assert forall j | 1 <= j < |[e] + lru| :: ([e] + lru)[j] in lru;
  }

  /**
   The cache over any log, encoding, hash, replay and size estimate: nothing in it depends on what they are.
   ForKels below fixes them.
   */
  class ReplayCache<Log(!new), Enc(==), Key(==), Outcome(==)> {
    const encode: Log -> Option<Enc>
    const hash: Enc -> Key
    const replay: Log -> Outcome
    const size: Outcome -> Cost
    const max: int
    var byKel: map<Key, Entry<Key, Outcome>>
    var lru: seq<Entry<Key, Outcome>>
    var bytes: nat
    var hits: nat
    var misses: nat
    /** The log each key was cached for. */
    ghost var origin: map<Key, Log>
    /** When each key was last looked up with success or cached, in steps of a clock that only uses advance. */
    ghost var lastUse: map<Key, nat>
    ghost var clock: nat

    /** Map, list and byte count agree, the list is in order of use, and the bound holds. */
    ghost predicate Shape()
      reads this
    {
      && DistinctKeys(lru)
      && SameEntries(lru, byKel)
      && LatestFirst(lru, lastUse, clock)
      && bytes == SumCost(lru)
      && (bytes <= max || lru == [])
    }

    ghost predicate Valid()
      reads this
    {
      Shape() && forall k | k in byKel :: k in origin && Made(byKel[k], origin[k])
    }

    /** Entry e is the outcome of replaying log, under the hash of its encoding. */
    ghost predicate Made(e: Entry<Key, Outcome>, log: Log)
    {
      && encode(log).Some? && hash(encode(log).value) == e.key
      && e.outcome == replay(log) && e.cost == size(e.outcome)
    }

    constructor (encode: Log -> Option<Enc>, hash: Enc -> Key, replay: Log -> Outcome, size: Outcome -> Cost, max: int)
      ensures Valid() && lru == [] && hits == misses == 0
      ensures this.encode == encode && this.hash == hash && this.replay == replay && this.size == size && this.max == max
    {
      this.encode, this.hash, this.replay, this.size, this.max := encode, hash, replay, size, max;
      byKel, lru, bytes, hits, misses := map[], [], 0, 0, 0;
      origin, lastUse, clock := map[], map[], 0;
    }

    /** The first locked section: a hit moves its entry to the front. */
    method Lookup(key: Key) returns (found: Option<Entry<Key, Outcome>>)
      requires Valid()
      modifies this`lru, this`hits, this`misses, this`lastUse, this`clock
      ensures Valid()
      ensures found.Some? ==> lastUse == old(lastUse)[key := old(clock)] && clock == old(clock) + 1
      ensures found.None? ==> lastUse == old(lastUse) && clock == old(clock)
      ensures found == if key in byKel then Some(byKel[key]) else None
      ensures found.Some? ==>
        exists i | 0 <= i < |old(lru)| :: old(lru)[i].key == key && lru == ToFront(old(lru), i)
      ensures found.None? ==> lru == old(lru)
      ensures hits == old(hits) + (if found.Some? then 1 else 0)
      ensures misses == old(misses) + (if found.Some? then 0 else 1)
    {
      if key in byKel {
        found := Some(byKel[key]);
        var i := IndexOf(key);
        UseKeeps(lru, i, byKel, lastUse, clock);
        lru := ToFront(lru, i);
        lastUse, clock := lastUse[key := clock], clock + 1;
        hits := hits + 1;
        return;
      }
      misses := misses + 1;
      found := None;
    }

    method IndexOf(key: Key) returns (i: nat)
      requires Shape() && key in byKel
      ensures i < |lru| && lru[i].key == key
    {
      assert byKel[key] in lru;
      ghost var j :| 0 <= j < |lru| && lru[j] == byKel[key];
      i := 0;
      while lru[i].key != key
        invariant i <= j
        decreases j - i
      {
        i := i + 1;
      }
    }

    /** The second locked section: evict from the back until the entry fits, then put it in front. */
    method Insert(e: Entry<Key, Outcome>, ghost log: Log)
      requires Valid() && Made(e, log)
      modifies this`lru, this`byKel, this`bytes, this`origin, this`lastUse, this`clock
      ensures Valid()
      ensures lru != old(lru) ==> lastUse == old(lastUse)[e.key := old(clock)] && clock == old(clock) + 1
      ensures lru == old(lru) ==> lastUse == old(lastUse) && clock == old(clock)
      ensures OldestGone(old(byKel), byKel, old(lastUse))
      ensures e.key in old(byKel) || e.cost > max ==> lru == old(lru) && byKel == old(byKel) && bytes == old(bytes)
      ensures e.key !in old(byKel) && e.cost <= max ==> exists n | 0 <= n <= |old(lru)| ::
        lru == [e] + old(lru)[..n] && (n == |old(lru)| || e.cost + SumCost(old(lru)[..n + 1]) > max)
    {
      if e.key in byKel || e.cost > max {
        return;
      }
      ghost var n := Evict(e.cost);
      AddKeeps(lru, byKel, e);
      NewIsLatest(lru, e, lastUse, clock);
      OldestGoneWith(old(byKel), byKel, lastUse, e.key, e);
      lastUse, clock := lastUse[e.key := clock], clock + 1;
      lru := [e] + lru;
      byKel := byKel[e.key := e];
      origin := origin[e.key := log];
      bytes := bytes + e.cost;
    }

    method DropLast()
      requires Shape() && bytes > 0
      modifies this`lru, this`byKel, this`bytes
      ensures Shape() && old(lru) != [] && lru == old(lru)[..|old(lru)| - 1]
    {
      EvictKeeps(lru, byKel);
      LatestPrefix(lru, lastUse, clock, |lru| - 1);
      var last := lru[|lru| - 1];
      lru := lru[..|lru| - 1];
      byKel := byKel - {last.key};
      bytes := bytes - last.cost;
    }

    /** Drops entries from the back until `cost` more bytes fit. The list is never empty when one is dropped. */
    method Evict(cost: nat) returns (ghost n: nat)
      requires Shape() && cost <= max
      modifies this`lru, this`byKel, this`bytes
      ensures Shape() && bytes + cost <= max
      ensures n <= |old(lru)| && lru == old(lru)[..n]
      ensures n == |old(lru)| || cost + SumCost(old(lru)[..n + 1]) > max
      ensures forall k | k in byKel :: k in old(byKel) && byKel[k] == old(byKel)[k]
      ensures OldestGone(old(byKel), byKel, lastUse)
    {
      ghost var was, had := lru, byKel;
      n := |lru|;
      while bytes + cost > max
        invariant Shape() && n <= |was| && lru == was[..n]
        invariant n == |was| || cost + SumCost(was[..n + 1]) > max
        decreases n
      {
        DropLast();
        n := n - 1;
        assert was[..n + 1][..n] == was[..n];
      }
      PrefixIsSubmap(was, had, n, byKel);
      KeepsLatest(was, had, n, byKel, lastUse, clock);
    }

    /**
     What replay returns, through the cache. The other possibility is a hash collision between this log's
     encoding and that of a log cached before, shown by its origin.
     */
    method ReplayThrough(log: Log) returns (r: Outcome)
      requires Valid()
      requires forall a, b :: encode(a).Some? && encode(a) == encode(b) ==> a == b
      modifies this
      ensures Valid()
      ensures r == replay(log) || (encode(log).Some? && Collides(log, old(origin)))
      ensures hits + misses == old(hits + misses) + (if encode(log).Some? then 1 else 0)
    {
      var enc := encode(log);
      if enc.None? {
        r := replay(log);
        return;
      }
      var key := hash(enc.value);
      var found := Lookup(key);
      if found.Some? {
        assert Made(byKel[key], origin[key]);
        return found.value.outcome;
      }
      r := replay(log);
      Insert(Entry(key, r, size(r)), log);
    }

    /** A log cached before has another encoding with the same hash. */
    ghost predicate Collides(log: Log, cached: map<Key, Log>)
      requires encode(log).Some?
    {
      var k := hash(encode(log).value);
      k in cached && encode(cached[k]).Some? && encode(cached[k]) != encode(log) && hash(encode(cached[k]).value) == k
    }
  }

  // ---- for key event logs ----

  type Outcome = Result<seq<KeyState>, ReplayError>

  function KeyCost(keys: seq<Bytes>): nat
  {
    if keys == [] then 0 else |keys[0]| + SLICE_SIZE + KeyCost(keys[1..])
  }

  /** What the first n states are estimated to take, beside their array. */
  function StateCost(states: seq<KeyState>, n: nat): nat
    requires n <= |states|
  {
    if n == 0 then 0
    else
      var s := states[n - 1];
      StateCost(states, n - 1) + KeyCost(s.currentKeys) + |s.lastEventId| + |s.witnessAid|
  }

  function OutcomeCost(o: Outcome): Cost
  {
    match o
    case Err(_) => ENTRY_OVERHEAD
    case Ok(states) =>
      ENTRY_OVERHEAD + |states| * STATE_SIZE + StateCost(states, |states|)
      + (if states == [] then 0 else |states[0].aid|)
  }

  method ForKels(c: Crypto, marshal: seq<SignedEvent> -> Option<Bytes>, max: int)
    returns (cache: ReplayCache<seq<SignedEvent>, Bytes, Digest, Outcome>)
    ensures fresh(cache) && cache.Valid() && cache.encode == marshal && cache.max == max
    ensures forall kel :: cache.replay(kel) == ReplayResult(c, kel)
    ensures forall b :: cache.hash(b) == c.sha(b)
    ensures forall o :: cache.size(o) == OutcomeCost(o)
  {
    cache := new ReplayCache(marshal, c.sha, kel => ReplayResult(c, kel), o => OutcomeCost(o), max);
  }

  /** The size estimate of compactStates: every state, and every key copied. */
  method CompactCost(states: seq<KeyState>) returns (cost: nat)
    requires states != []
    ensures ENTRY_OVERHEAD + cost == OutcomeCost(Ok(states))
  {
    cost := |states| * STATE_SIZE;
    for i := 0 to |states|
      invariant cost == |states| * STATE_SIZE + StateCost(states, i)
    {
      var s := states[i];
      var keys := 0;
      for j := 0 to |s.currentKeys|
        invariant keys + KeyCost(s.currentKeys[j..]) == KeyCost(s.currentKeys)
      {
        assert s.currentKeys[j..][1..] == s.currentKeys[j + 1..];
        keys := keys + |s.currentKeys[j]| + SLICE_SIZE;
      }
      cost := cost + keys + |s.lastEventId| + |s.witnessAid|;
    }
    cost := cost + |states[0].aid|;
  }
}
