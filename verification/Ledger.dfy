/** The append-only event ledger. */
module Ledgers {
  // One hash chain per DID: verify-before-store, out-of-order staging, the fork trap and sticky quarantine.

  import opened Octets
  import opened Kel

  const VERSION_MAJOR_2: nat := 2
  const IMPORT_BUFFER_CAP: nat := 1024
  const EV_FORK_DETECTED := "converge.fork_detected"

  type i64 = x: int | -0x8000_0000_0000_0000 <= x < 0x8000_0000_0000_0000

  datatype Payload = Data(item: Bytes) | ForkRecord(chainDid: string, seqNo: nat, existingId: string, incomingId: string)

  datatype Record = Record(
    chainDid: string, seqNo: nat, prevId: string, eventType: string, versionMajor: nat, payload: Payload,
    timestamp: i64, signerAid: string, keyStateSeq: nat, critical: seq<string>, id: string, sig: Bytes)

  /** Verify-before-store, and the genesis sentinel. CryptoGate is the one the package uses. */
  datatype Gate = Gate(verify: (Record, seq<SignedEvent>) -> Option<VerifyError>, genesisPrev: string)

  /** preimage is the CoreDet encoding of keys 1 to 10 of a record. */
  function CryptoGate(c: Crypto, preimage: Record -> Option<Bytes>, genesisPrev: string): Gate
  {
    Gate((r: Record, kel: seq<SignedEvent>) => VerifyRecord(c, preimage, r, kel), genesisPrev)
  }

  datatype VerifyError = IdMismatch | SignerUnknown | SignerRevoked | SignatureRefused

  datatype LedgerError =
    | ChainQuarantined | VersionUnsupported | NotVerified(why: VerifyError)
    | BadGenesisPrev | PrevLinkBroken | ImportBufferFull | Equivocation(nodeA: Record, nodeB: Record)

  /** An int64 as the uint64 Go converts it to. */
  function AsUint64(t: i64): nat
  {
    if t < 0 then t + TWO_64 else t
  }

  /** Verify-before-store: the id re-derives, and the signature stands under the signer's log as of the timestamp. */
  function VerifyRecord(c: Crypto, preimage: Record -> Option<Bytes>, r: Record, kel: seq<SignedEvent>): Option<VerifyError>
  {
    match preimage(r)
    case None => Some(IdMismatch)
    case Some(pre) =>
      if c.cid(pre) != r.id then Some(IdMismatch)
      else
        match VerifyObject(c, kel, r.signerAid, r.keyStateSeq, AsUint64(r.timestamp), pre, r.sig)
        case None => None
        case Some(UnknownAid) => Some(SignerUnknown)
        case Some(RevokedKey) => Some(SignerRevoked)
        case Some(InvalidSignature) => Some(SignatureRefused)
        case Some(KeyStateDowngrade) => Some(SignatureRefused)
  }

  /** A record as its signer's log kel vouches for it: named by its content, signed by a key that stood at its own time. */
  predicate Vouched(c: Crypto, preimage: Record -> Option<Bytes>, r: Record, kel: seq<SignedEvent>)
  {
    && preimage(r).Some? && c.cid(preimage(r).value) == r.id
    && Kel.Accepted(c, kel, r.signerAid, r.keyStateSeq, if r.timestamp < 0 then r.timestamp + 0x1_0000_0000_0000_0000 else r.timestamp,
                    preimage(r).value, r.sig)
  }

  /** The gate lets through exactly what the signer's log vouches for, and names the first thing that is wrong. */
  lemma {:induction false} GateExactly(
    c: Crypto, preimage: Record -> Option<Bytes>, gp: string, r: Record, kel: seq<SignedEvent>)
    ensures CryptoGate(c, preimage, gp).verify(r, kel).None? <==> Vouched(c, preimage, r, kel)
    ensures CryptoGate(c, preimage, gp).verify(r, kel) == Some(IdMismatch)
            <==> preimage(r).None? || c.cid(preimage(r).value) != r.id
    ensures preimage(r).Some? && c.cid(preimage(r).value) == r.id ==>
      var e := CryptoGate(c, preimage, gp).verify(r, kel);
      && (e == Some(SignerUnknown) <==> !Replays(c, kel) || kel[0].eventId != r.signerAid)
      && (e == Some(SignatureRefused) <==>
            && Replays(c, kel) && kel[0].eventId == r.signerAid
            && (r.keyStateSeq < |kel| ==>
                  && kel[r.keyStateSeq].event.typ != Deactivation
                  && forall k | k in kel[r.keyStateSeq].event.keys :: !c.verify(k, preimage(r).value, r.sig)))
  {
    assert CryptoGate(c, preimage, gp).verify(r, kel) == VerifyRecord(c, preimage, r, kel);
    if preimage(r).Some? {
      var t := AsUint64(r.timestamp);
      AcceptedMeansVerified(c, kel, r.signerAid, r.keyStateSeq, t, preimage(r).value, r.sig);
      RefusedBecause(c, kel, r.signerAid, r.keyStateSeq, t, preimage(r).value, r.sig);
    }
  }

  // ---- one chain, on values ----

  datatype ChainState = ChainState(events: seq<Record>, quarantined: bool, staged: map<nat, Record>)

  function Head(events: seq<Record>): Record
    requires events != []
  {
    events[|events| - 1]
  }

  /** Splices staged records onto the head while the next seq is held; one that does not link is dropped. */
  function Drain(events: seq<Record>, staged: map<nat, Record>): (r: (seq<Record>, map<nat, Record>))
    requires events != []
    ensures events <= r.0 && r.0 != []
    decreases staged.Keys
  {
    var at := Head(events).seqNo + 1;
    if at !in staged then (events, staged)
    else if staged[at].prevId != Head(events).id then Drain(events, staged - {at})
    else Drain(events + [staged[at]], staged - {at})
  }

  function ForkAnchor(existing: Record, incoming: Record): Record
  {
    Record(incoming.chainDid, existing.seqNo, "", EV_FORK_DETECTED, VERSION_MAJOR_2,
           ForkRecord(existing.chainDid, existing.seqNo, existing.id, incoming.id),
           incoming.timestamp, "", 0, [], "", [])
  }

  datatype Outcome = Outcome(chain: ChainState, error: Option<LedgerError>)

  /** A verified record meets an active chain whose events are indexed by seq. */
  function Extend(ch: ChainState, r: Record): Outcome
    requires ch.events != [] && Head(ch.events).seqNo < |ch.events|
  {
    var head := Head(ch.events);
    if r.seqNo <= head.seqNo then
      var existing := ch.events[r.seqNo];
      if existing.id != r.id then
        Outcome(ch.(events := ch.events + [r, ForkAnchor(existing, r)], quarantined := true),
                Some(Equivocation(existing, r)))
      else Outcome(ch, None)
    else if r.seqNo == head.seqNo + 1 then
      if r.prevId != head.id then Outcome(ch, Some(PrevLinkBroken))
      else
        var d := Drain(ch.events + [r], ch.staged);
        Outcome(ch.(events := d.0, staged := d.1), None)
    else if r.seqNo in ch.staged && ch.staged[r.seqNo].id == r.id then Outcome(ch, None)
    else if |ch.staged| >= IMPORT_BUFFER_CAP then Outcome(ch, Some(ImportBufferFull))
    else Outcome(ch.(staged := ch.staged[r.seqNo := r]), None)
  }

  // ---- all chains, on values ----

  type Chains = map<string, ChainState>

  /** Everything that can refuse a record before its chain is looked at beyond quarantine. */
  function GateProblem(g: Gate, m: Chains, r: Record, kel: seq<SignedEvent>): Option<LedgerError>
  {
    if r.chainDid in m && m[r.chainDid].quarantined then Some(ChainQuarantined)
    else if r.versionMajor != VERSION_MAJOR_2 then Some(VersionUnsupported)
    else match g.verify(r, kel)
      case None => None
      case Some(why) => Some(NotVerified(why))
  }

  function AppendTo(g: Gate, m: Chains, r: Record, kel: seq<SignedEvent>): (Chains, Option<LedgerError>)
    requires Indexed(m)
  {
    if GateProblem(g, m, r, kel).Some? then (m, GateProblem(g, m, r, kel))
    else if r.chainDid !in m then
      if r.seqNo != 0 || r.prevId != g.genesisPrev then (m, Some(BadGenesisPrev))
      else (m[r.chainDid := ChainState([r], false, map[])], None)
    else
      var o := Extend(m[r.chainDid], r);
      (m[r.chainDid := o.chain], o.error)
  }

  /** Stored chains are not empty, and an active chain's head seq indexes its events. */
  predicate Indexed(m: Chains)
  {
    forall d | d in m :: m[d].events != [] && (!m[d].quarantined ==> Head(m[d].events).seqNo < |m[d].events|)
  }

  // ---- what every reachable chain keeps ----

  /** Some signer's log admits r. */
  ghost predicate Admitted(g: Gate, did: string, r: Record)
  {
    r.chainDid == did && r.versionMajor == VERSION_MAJOR_2 && exists kel :: g.verify(r, kel).None?
  }

  ghost predicate LinkedAt(g: Gate, did: string, events: seq<Record>, i: nat)
    requires i < |events|
  {
    && events[i].seqNo == i && Admitted(g, did, events[i])
    && events[i].prevId == if i == 0 then g.genesisPrev else events[i - 1].id
  }

  /** A hash chain from genesis: seqs are indices, every record names the one before it, all are verified. */
  ghost predicate Linked(g: Gate, did: string, events: seq<Record>)
  {
    forall i | 0 <= i < |events| :: LinkedAt(g, did, events, i)
  }

  lemma {:induction false} LinkedSnoc(g: Gate, did: string, events: seq<Record>, r: Record)
    requires events != [] && Linked(g, did, events) && Admitted(g, did, r)
    requires r.seqNo == |events| && r.prevId == Head(events).id
    ensures Linked(g, did, events + [r])
  {
    forall i | 0 <= i < |events| ensures LinkedAt(g, did, events + [r], i) {
      assert LinkedAt(g, did, events, i);
    }
  }

  ghost predicate Waits(g: Gate, did: string, staged: map<nat, Record>, k: nat)
    requires k in staged
  {
    staged[k].seqNo == k && Admitted(g, did, staged[k])
  }

  ghost predicate Waiting(g: Gate, did: string, staged: map<nat, Record>, least: nat)
  {
    forall k | k in staged :: k >= least && Waits(g, did, staged, k)
  }

  lemma {:induction false} WaitingWithout(g: Gate, did: string, staged: map<nat, Record>, at: nat)
    requires Waiting(g, did, staged, at) && at in staged
    ensures Waiting(g, did, staged - {at}, at) && Waiting(g, did, staged - {at}, at + 1)
    ensures |staged - {at}| == |staged| - 1
  {
    MapShrinks(staged, at);
    forall k | k in staged - {at} ensures Waits(g, did, staged - {at}, k) {
      assert Waits(g, did, staged, k);
    }
  }

  /** Events of a quarantined chain: a linked chain, the record that competes with one of it, and the fork anchor. */
  ghost predicate Forked(g: Gate, did: string, events: seq<Record>)
  {
    && |events| >= 3
    && var n := |events| - 2;
       && Linked(g, did, events[..n])
       && events[n].seqNo < n && events[events[n].seqNo].id != events[n].id
       && Admitted(g, did, events[n])
       && events[n + 1] == ForkAnchor(events[events[n].seqNo], events[n])
  }

  ghost predicate GoodChain(g: Gate, did: string, ch: ChainState)
  {
    if ch.quarantined then Forked(g, did, ch.events)
    else
      && ch.events != [] && Linked(g, did, ch.events)
      && Waiting(g, did, ch.staged, |ch.events| + 1)
      && |ch.staged| <= IMPORT_BUFFER_CAP
  }

  ghost predicate Good(g: Gate, m: Chains)
  {
    forall d | d in m :: GoodChain(g, d, m[d])
  }

  lemma {:induction false} GoodIsIndexed(g: Gate, m: Chains)
    requires Good(g, m)
    ensures Indexed(m)
  {
    forall d | d in m ensures m[d].events != [] && (!m[d].quarantined ==> Head(m[d].events).seqNo < |m[d].events|) {
      assert GoodChain(g, d, m[d]);
      if !m[d].quarantined { assert LinkedAt(g, d, m[d].events, |m[d].events| - 1); }
    }
  }

  lemma {:induction false} MapShrinks(m: map<nat, Record>, k: nat)
    requires k in m
    ensures |m - {k}| == |m| - 1
  {
    assert (m - {k}).Keys == m.Keys - {k};
    assert |m.Keys| == |m| && |(m - {k}).Keys| == |m - {k}|;
  }

  lemma {:induction false} DrainKeeps(g: Gate, did: string, events: seq<Record>, staged: map<nat, Record>)
    requires events != [] && Linked(g, did, events) && Waiting(g, did, staged, |events|)
    ensures var d := Drain(events, staged);
      d.0 != [] && Linked(g, did, d.0) && Waiting(g, did, d.1, |d.0| + 1) && |d.1| <= |staged|
    decreases staged.Keys
  {
    assert LinkedAt(g, did, events, |events| - 1);
    var at := |events|;
    if at in staged {
      assert Waits(g, did, staged, at);
      WaitingWithout(g, did, staged, at);
      if staged[at].prevId != Head(events).id {
        assert Drain(events, staged - {at}) == (events, staged - {at});
      } else {
        LinkedSnoc(g, did, events, staged[at]);
        DrainKeeps(g, did, events + [staged[at]], staged - {at});
      }
    }
  }

  lemma {:induction false} ForkIsForked(g: Gate, did: string, events: seq<Record>, r: Record)
    requires Linked(g, did, events) && r.seqNo < |events| && events[r.seqNo].id != r.id && Admitted(g, did, r)
    ensures Forked(g, did, events + [r, ForkAnchor(events[r.seqNo], r)])
  {
    var more := events + [r, ForkAnchor(events[r.seqNo], r)];
    assert more[..|events|] == events && more[|events|] == r && more[r.seqNo] == events[r.seqNo];
  }

  lemma {:induction false} ExtendKeeps(g: Gate, did: string, ch: ChainState, r: Record)
    requires GoodChain(g, did, ch) && !ch.quarantined && Admitted(g, did, r)
    ensures Head(ch.events).seqNo == |ch.events| - 1
    ensures GoodChain(g, did, Extend(ch, r).chain)
  {
    var n := |ch.events|;
    assert LinkedAt(g, did, ch.events, n - 1);
    if r.seqNo < n {
      if ch.events[r.seqNo].id != r.id { ForkIsForked(g, did, ch.events, r); }
    } else if r.seqNo == n {
      if r.prevId == Head(ch.events).id {
        LinkedSnoc(g, did, ch.events, r);
        DrainKeeps(g, did, ch.events + [r], ch.staged);
      }
    } else {
      MapGrows(ch.staged, r.seqNo, r);
      StagedStillWaits(g, did, ch.staged, n + 1, r);
    }
  }

  lemma {:induction false} StagedStillWaits(g: Gate, did: string, staged: map<nat, Record>, least: nat, r: Record)
    requires Waiting(g, did, staged, least) && r.seqNo >= least && Admitted(g, did, r)
    ensures Waiting(g, did, staged[r.seqNo := r], least)
  {
    var more := staged[r.seqNo := r];
    forall k | k in more ensures k >= least && Waits(g, did, more, k) {
      if k in staged { assert Waits(g, did, staged, k); }
    }
  }

  lemma {:induction false} MapGrows(m: map<nat, Record>, k: nat, r: Record)
    ensures |m[k := r]| <= |m| + 1
    ensures k !in m ==> |m[k := r]| == |m| + 1
  {
    assert m[k := r].Keys == m.Keys + {k};
    assert |m.Keys| == |m| && |m[k := r].Keys| == |m[k := r]|;
  }

  /** Every append, accepted or refused, keeps every chain good. */
  lemma {:induction false} AppendKeepsGood(g: Gate, m: Chains, r: Record, kel: seq<SignedEvent>)
    requires Good(g, m)
    ensures Indexed(m) && Good(g, AppendTo(g, m, r, kel).0)
  {
    GoodIsIndexed(g, m);
    if GateProblem(g, m, r, kel).None? {
      assert Admitted(g, r.chainDid, r);
      if r.chainDid in m {
        assert GoodChain(g, r.chainDid, m[r.chainDid]);
        ExtendKeeps(g, r.chainDid, m[r.chainDid], r);
      } else if r.seqNo == 0 && r.prevId == g.genesisPrev {
        GenesisIsGood(g, r);
      }
    }
  }

  lemma {:induction false} GenesisIsGood(g: Gate, r: Record)
    requires Admitted(g, r.chainDid, r) && r.seqNo == 0 && r.prevId == g.genesisPrev
    ensures GoodChain(g, r.chainDid, ChainState([r], false, map[]))
  {
  }

  datatype Delivery = Delivery(record: Record, kel: seq<SignedEvent>)

  /** The ledger after a series of appends, whatever each of them returned. */
  function Deliver(g: Gate, m: Chains, ds: seq<Delivery>): (r: Chains)
    requires Good(g, m)
    ensures Good(g, r)
  {
    if ds == [] then m
    else
      var before := Deliver(g, m, ds[..|ds| - 1]);
      AppendKeepsGood(g, before, ds[|ds| - 1].record, ds[|ds| - 1].kel);
      AppendTo(g, before, ds[|ds| - 1].record, ds[|ds| - 1].kel).0
  }

  lemma {:induction false} AppendGrows(g: Gate, m: Chains, r: Record, kel: seq<SignedEvent>, did: string)
    requires Indexed(m) && did in m
    ensures var after := AppendTo(g, m, r, kel).0;
      && did in after && m[did].events <= after[did].events
      && (m[did].quarantined ==> after[did] == m[did])
  {
  }

  /** Quarantine is for good: nothing delivered later changes the chain in any way. */
  lemma {:induction false} QuarantineSticks(g: Gate, m: Chains, ds: seq<Delivery>, did: string)
    requires Good(g, m) && did in m && m[did].quarantined
    ensures did in Deliver(g, m, ds) && Deliver(g, m, ds)[did] == m[did]
    decreases |ds|
  {
    if ds != [] {
      var n := |ds| - 1;
      QuarantineSticks(g, m, ds[..n], did);
      GoodIsIndexed(g, Deliver(g, m, ds[..n]));
      AppendGrows(g, Deliver(g, m, ds[..n]), ds[n].record, ds[n].kel, did);
    }
  }

  /** Applied events never change: a later state of a chain extends an earlier one. */
  lemma {:induction false} EventsOnlyGrow(g: Gate, m: Chains, ds: seq<Delivery>, did: string)
    requires Good(g, m) && did in m
    ensures did in Deliver(g, m, ds) && m[did].events <= Deliver(g, m, ds)[did].events
    decreases |ds|
  {
    if ds != [] {
      var n := |ds| - 1;
      EventsOnlyGrow(g, m, ds[..n], did);
      GoodIsIndexed(g, Deliver(g, m, ds[..n]));
      AppendGrows(g, Deliver(g, m, ds[..n]), ds[n].record, ds[n].kel, did);
    }
  }

  /** What a verified record does to a good active chain, by its seq. */
  lemma {:induction false} ExtendCases(g: Gate, did: string, ch: ChainState, r: Record)
    requires GoodChain(g, did, ch) && !ch.quarantined
    ensures Head(ch.events).seqNo == |ch.events| - 1
    ensures var o := Extend(ch, r);
      && (o.chain.quarantined <==> r.seqNo < |ch.events| && ch.events[r.seqNo].id != r.id)
      && (o.chain.quarantined ==> o.error == Some(Equivocation(ch.events[r.seqNo], r)))
      && (o.chain.quarantined <==> o.error.Some? && o.error.value.Equivocation?)
  {
    assert LinkedAt(g, did, ch.events, |ch.events| - 1);
  }

  /**
   The fork trap springs exactly on a verified record whose id differs from that of the applied record at its
   seq, and only then does a chain become quarantined.
   */
  lemma {:induction false} EquivocationExactlyWhen(g: Gate, m: Chains, r: Record, kel: seq<SignedEvent>)
    requires Good(g, m) && GateProblem(g, m, r, kel).None? && r.chainDid in m
    ensures Indexed(m)
    ensures var ch, (after, e) := m[r.chainDid], AppendTo(g, m, r, kel);
      if r.seqNo < |ch.events| && ch.events[r.seqNo].id != r.id
      then after[r.chainDid].quarantined && e == Some(Equivocation(ch.events[r.seqNo], r))
      else !after[r.chainDid].quarantined && !(e.Some? && e.value.Equivocation?)
  {
    GoodIsIndexed(g, m);
    ExtendCases(g, r.chainDid, m[r.chainDid], r);
  }

  /** The evidence of a fork: both records stay, and an unsigned anchor names the chain, the seq and both ids. */
  lemma {:induction false} ForkKeepsEvidence(g: Gate, m: Chains, r: Record, kel: seq<SignedEvent>)
    requires Good(g, m) && GateProblem(g, m, r, kel).None? && r.chainDid in m
    requires r.seqNo < |m[r.chainDid].events| && m[r.chainDid].events[r.seqNo].id != r.id
    ensures Indexed(m)
    ensures var did, was, now := r.chainDid, m[r.chainDid].events, AppendTo(g, m, r, kel).0[r.chainDid].events;
      && |now| == |was| + 2 && was <= now && now[|was|] == r
      && var a := now[|was| + 1];
      && a.chainDid == did && a.seqNo == r.seqNo && a.eventType == "converge.fork_detected" && a.versionMajor == 2
      && a.payload == ForkRecord(did, r.seqNo, was[r.seqNo].id, r.id) && a.timestamp == r.timestamp
      && a.id == a.prevId == a.signerAid == "" && a.sig == [] && a.critical == [] && a.keyStateSeq == 0
  {
    GoodIsIndexed(g, m);
    ExtendCases(g, r.chainDid, m[r.chainDid], r);
    assert LinkedAt(g, r.chainDid, m[r.chainDid].events, r.seqNo);
  }

  /** What a record meets, guard by guard and then by where its seq falls; no other chain is touched. */
  lemma {:induction false} AppendDecides(g: Gate, m: Chains, r: Record, kel: seq<SignedEvent>)
    requires Good(g, m)
    ensures Indexed(m)
    ensures var (after, e) := AppendTo(g, m, r, kel);
      && (forall d | d in m && d != r.chainDid :: d in after && after[d] == m[d])
      && (forall d | d in after && d != r.chainDid :: d in m)
      && if r.chainDid in m && m[r.chainDid].quarantined then e == Some(ChainQuarantined) && after == m
         else if r.versionMajor != 2 then e == Some(VersionUnsupported) && after == m
         else if g.verify(r, kel).Some? then e == Some(NotVerified(g.verify(r, kel).value)) && after == m
         else if r.chainDid !in m then
           if r.seqNo == 0 && r.prevId == g.genesisPrev then e.None? && after == m[r.chainDid := ChainState([r], false, map[])]
           else e == Some(BadGenesisPrev) && after == m
         else
           var ch := m[r.chainDid];
           var n := |ch.events|;
           && n > 0
           && (r.seqNo < n && ch.events[r.seqNo].id == r.id ==> e.None? && after == m)
           && (r.seqNo == n && r.prevId != ch.events[n - 1].id ==> e == Some(PrevLinkBroken) && after == m)
           && (r.seqNo == n && r.prevId == ch.events[n - 1].id ==> e.None? && ch.events + [r] <= after[r.chainDid].events)
           && (r.seqNo > n && r.seqNo in ch.staged && ch.staged[r.seqNo].id == r.id ==> e.None? && after == m)
           && (r.seqNo > n && !(r.seqNo in ch.staged && ch.staged[r.seqNo].id == r.id) ==>
                 if |ch.staged| < 1024
                 then e.None? && after == m[r.chainDid := ch.(staged := ch.staged[r.seqNo := r])]
                 else e == Some(ImportBufferFull) && after == m)
  {
    GoodIsIndexed(g, m);
    if r.chainDid in m && !m[r.chainDid].quarantined {
      ExtendCases(g, r.chainDid, m[r.chainDid], r);
      assert m[r.chainDid := m[r.chainDid]] == m;
    }
  }

  /**
   Where the trap does not reach: two different verified records for one seq that is only staged. The second
   replaces the first and the chain stays active, as long as the buffer is not full.
   */
  lemma {:induction false} StagedRecordIsReplaced(g: Gate, did: string, ch: ChainState, r: Record)
    requires GoodChain(g, did, ch) && !ch.quarantined
    requires r.seqNo in ch.staged && ch.staged[r.seqNo].id != r.id
    ensures Head(ch.events).seqNo == |ch.events| - 1
    ensures Extend(ch, r) ==
      if |ch.staged| < IMPORT_BUFFER_CAP then Outcome(ch.(staged := ch.staged[r.seqNo := r]), None)
      else Outcome(ch, Some(ImportBufferFull))
  {
    assert LinkedAt(g, did, ch.events, |ch.events| - 1);
  }

  // ---- the head id commits to the whole chain ----

  /** Keys 1 to 10 of a record: everything but its id and signature. */
  function Content(r: Record): Record { r.(id := "", sig := []) }

  /** The canonical encoding of two different contents differs. */
  ghost predicate EncodesContent(preimage: Record -> Option<Bytes>)
  {
    forall a, b :: preimage(a).Some? && preimage(a) == preimage(b) ==> Content(a) == Content(b)
  }

  /** Some log vouches for r. */
  ghost predicate Signed(c: Crypto, preimage: Record -> Option<Bytes>, r: Record)
  {
    exists kel :: Vouched(c, preimage, r, kel)
  }

  /**
   Every record that a ledger behind the package's gate holds, applied, competing or staged, was signed: a log vouches
   for it. Only the anchor of a fork, which the ledger itself writes, carries no signature.
   */
  lemma {:induction false} StoredRecordsAreSigned(
    c: Crypto, preimage: Record -> Option<Bytes>, gp: string, m: Chains, d: string)
    requires Good(CryptoGate(c, preimage, gp), m) && d in m
    ensures var n := if m[d].quarantined then |m[d].events| - 1 else |m[d].events|;
      n >= 0 && forall i | 0 <= i < n :: Signed(c, preimage, m[d].events[i])
    ensures !m[d].quarantined ==> forall k | k in m[d].staged :: Signed(c, preimage, m[d].staged[k])
  {
    var ch := m[d];
    StoredAreAdmitted(CryptoGate(c, preimage, gp), m, d);
    var n := if ch.quarantined then |ch.events| - 1 else |ch.events|;
    forall i | 0 <= i < n ensures Signed(c, preimage, ch.events[i]) {
      AdmittedIsSigned(c, preimage, gp, d, ch.events[i]);
    }
    if !ch.quarantined {
      forall k | k in ch.staged ensures Signed(c, preimage, ch.staged[k]) {
        AdmittedIsSigned(c, preimage, gp, d, ch.staged[k]);
      }
    }
  }

  lemma {:induction false} StoredAreAdmitted(g: Gate, m: Chains, d: string)
    requires Good(g, m) && d in m
    ensures var n := if m[d].quarantined then |m[d].events| - 1 else |m[d].events|;
      n >= 0 && forall i | 0 <= i < n :: Admitted(g, d, m[d].events[i])
    ensures !m[d].quarantined ==> forall k | k in m[d].staged :: Admitted(g, d, m[d].staged[k])
  {
    var ch := m[d];
    assert GoodChain(g, d, ch);
    if ch.quarantined {
      var n := |ch.events| - 2;
      forall i | 0 <= i < n ensures Admitted(g, d, ch.events[i]) { assert LinkedAt(g, d, ch.events[..n], i); }
    } else {
      forall i | 0 <= i < |ch.events| ensures Admitted(g, d, ch.events[i]) { assert LinkedAt(g, d, ch.events, i); }
      forall k | k in ch.staged ensures Admitted(g, d, ch.staged[k]) { assert Waits(g, d, ch.staged, k); }
    }
  }

  lemma {:induction false} AdmittedIsSigned(c: Crypto, preimage: Record -> Option<Bytes>, gp: string, did: string, r: Record)
    requires Admitted(CryptoGate(c, preimage, gp), did, r)
    ensures Signed(c, preimage, r)
  {
    var kel :| CryptoGate(c, preimage, gp).verify(r, kel).None?;
    GateExactly(c, preimage, gp, r, kel);
  }

  /** Two stored records with one id and different preimages. */
  predicate IdCollision(c: Crypto, preimage: Record -> Option<Bytes>, a: Record, b: Record)
  {
    && preimage(a).Some? && preimage(b).Some? && preimage(a) != preimage(b)
    && c.cid(preimage(a).value) == c.cid(preimage(b).value)
  }

  lemma {:induction false} AdmittedIdsRederive(c: Crypto, preimage: Record -> Option<Bytes>, gp: string, did: string, r: Record)
    requires Admitted(CryptoGate(c, preimage, gp), did, r)
    ensures preimage(r).Some? && c.cid(preimage(r).value) == r.id
  {
    var kel :| CryptoGate(c, preimage, gp).verify(r, kel).None?;
    assert VerifyRecord(c, preimage, r, kel).None?;
  }

  /**
   Two chains any two ledgers hold, whose head ids agree, have the same content at every seq; otherwise two of
   their records at one seq exhibit a collision of the content hash.
   */
  lemma {:induction false} HeadFixesHistory(
    c: Crypto, preimage: Record -> Option<Bytes>, gp: string, did: string, a: seq<Record>, b: seq<Record>)
    requires EncodesContent(preimage) && a != [] && b != []
    requires Linked(CryptoGate(c, preimage, gp), did, a) && Linked(CryptoGate(c, preimage, gp), did, b)
    requires Head(a).id == Head(b).id
    ensures IdCollision(c, preimage, Head(a), Head(b)) || |a| == |b|
    ensures |a| == |b| ==>
      || (exists i :: 0 <= i < |a| && IdCollision(c, preimage, a[i], b[i]))
      || (forall i | 0 <= i < |a| :: Content(a[i]) == Content(b[i]))
    decreases |a|
  {
    var g := CryptoGate(c, preimage, gp);
    SameHead(c, preimage, gp, did, a, b);
    if !IdCollision(c, preimage, Head(a), Head(b)) {
      if |a| > 1 {
        LinkedPrefix(g, did, a, |a| - 1);
        LinkedPrefix(g, did, b, |a| - 1);
        HeadFixesHistory(c, preimage, gp, did, a[..|a| - 1], b[..|a| - 1]);
        HistoryStep(c, preimage, a, b);
      }
    } else if |a| == |b| {
      assert IdCollision(c, preimage, a[|a| - 1], b[|a| - 1]);
    }
  }

  lemma {:induction false} SameHead(
    c: Crypto, preimage: Record -> Option<Bytes>, gp: string, did: string, a: seq<Record>, b: seq<Record>)
    requires EncodesContent(preimage) && a != [] && b != []
    requires Linked(CryptoGate(c, preimage, gp), did, a) && Linked(CryptoGate(c, preimage, gp), did, b)
    requires Head(a).id == Head(b).id
    ensures
      || IdCollision(c, preimage, Head(a), Head(b))
      || (Content(Head(a)) == Content(Head(b)) && |a| == |b| && (|a| > 1 ==> a[|a| - 2].id == b[|a| - 2].id))
  {
    HeadLinks(c, preimage, gp, did, a);
    HeadLinks(c, preimage, gp, did, b);
    if preimage(Head(a)) == preimage(Head(b)) { SameLinks(Head(a), Head(b)); }
  }

  lemma {:induction false} HeadLinks(
    c: Crypto, preimage: Record -> Option<Bytes>, gp: string, did: string, events: seq<Record>)
    requires events != [] && Linked(CryptoGate(c, preimage, gp), did, events)
    ensures preimage(Head(events)).Some? && c.cid(preimage(Head(events)).value) == Head(events).id
    ensures Head(events).seqNo == |events| - 1 && (|events| > 1 ==> Head(events).prevId == events[|events| - 2].id)
  {
    assert LinkedAt(CryptoGate(c, preimage, gp), did, events, |events| - 1);
    AdmittedIdsRederive(c, preimage, gp, did, Head(events));
  }

  lemma {:induction false} SameLinks(a: Record, b: Record)
    requires Content(a) == Content(b)
    ensures a.seqNo == b.seqNo && a.prevId == b.prevId
  {
    assert Content(a).seqNo == a.seqNo && Content(b).seqNo == b.seqNo;
    assert Content(a).prevId == a.prevId && Content(b).prevId == b.prevId;
  }

  lemma {:induction false} HistoryStep(c: Crypto, preimage: Record -> Option<Bytes>, a: seq<Record>, b: seq<Record>)
    requires |a| == |b| > 1 && Content(Head(a)) == Content(Head(b))
    requires var n := |a| - 1;
      || (exists i :: 0 <= i < n && IdCollision(c, preimage, a[..n][i], b[..n][i]))
      || (forall i | 0 <= i < n :: Content(a[..n][i]) == Content(b[..n][i]))
    ensures
      || (exists i :: 0 <= i < |a| && IdCollision(c, preimage, a[i], b[i]))
      || (forall i | 0 <= i < |a| :: Content(a[i]) == Content(b[i]))
  {
    var n := |a| - 1;
    if i :| 0 <= i < n && IdCollision(c, preimage, a[..n][i], b[..n][i]) {
      assert IdCollision(c, preimage, a[i], b[i]);
    } else {
      forall i | 0 <= i < |a| ensures Content(a[i]) == Content(b[i]) {
        if i < n { assert Content(a[..n][i]) == Content(b[..n][i]); }
      }
    }
  }

  lemma {:induction false} LinkedPrefix(g: Gate, did: string, events: seq<Record>, n: nat)
    requires n <= |events| && Linked(g, did, events)
    ensures Linked(g, did, events[..n])
  {
    forall i | 0 <= i < n ensures LinkedAt(g, did, events[..n], i) {
      assert LinkedAt(g, did, events, i);
    }
  }

  // ---- order independence ----

  /** The records of one honest chain, each of which every delivery's gate lets through. */
  predicate HonestChain(records: seq<Record>)
  {
    && records != []
    && (forall i | 0 <= i < |records| :: records[i].seqNo == i && records[i].chainDid == records[0].chainDid)
    && (forall i | 0 <= i < |records| :: records[i].versionMajor == VERSION_MAJOR_2)
    && (forall i | 0 < i < |records| :: records[i].prevId == records[i - 1].id)
  }

  /** The least index from n on that is not in seen. */
  function Gap(seen: set<nat>, n: nat, size: nat): (gap: nat)
    requires n <= size
    ensures n <= gap <= size && (gap < size ==> gap !in seen) && forall i | n <= i < gap :: i in seen
    decreases size - n
  {
    if n < size && n in seen then Gap(seen, n + 1, size) else n
  }

  function Above(records: seq<Record>, seen: set<nat>, gap: nat): map<nat, Record>
  {
    map i: nat | i in seen && gap <= i < |records| :: records[i]
  }

  /** What a chain holds once exactly the records in seen have arrived. */
  function Canonical(records: seq<Record>, seen: set<nat>): ChainState
  {
    var gap := Gap(seen, 0, |records|);
    ChainState(records[..gap], false, Above(records, seen, gap))
  }

  lemma {:induction false} DrainIsCanonical(records: seq<Record>, seen: set<nat>, k: nat)
    requires HonestChain(records) && 0 < k <= |records|
    ensures Drain(records[..k], Above(records, seen, k))
            == (records[..Gap(seen, k, |records|)], Above(records, seen, Gap(seen, k, |records|)))
    decreases |records| - k
  {
    var staged := Above(records, seen, k);
    assert Head(records[..k]).seqNo == k - 1;
    if k in staged {
      assert records[..k] + [records[k]] == records[..k + 1];
      assert staged - {k} == Above(records, seen, k + 1);
      DrainIsCanonical(records, seen, k + 1);
    }
  }

  lemma {:induction false} GapFrom(seen: set<nat>, n: nat, k: nat, size: nat)
    requires n <= k <= size && forall i | n <= i < k :: i in seen
    ensures Gap(seen, n, size) == Gap(seen, k, size)
    decreases k - n
  {
    if n < k { GapFrom(seen, n + 1, k, size); }
  }

  /** One more delivery: refused exactly when it would be the 1025th waiting record, canonical otherwise. */
  lemma {:induction false} DeliverOne(records: seq<Record>, seen: set<nat>, i: nat)
    requires HonestChain(records) && i < |records| && 0 in seen && (forall j | j in seen :: j < |records|)
    requires |Canonical(records, seen).staged| <= IMPORT_BUFFER_CAP
    ensures Canonical(records, seen).events != [] && Head(Canonical(records, seen).events).seqNo < |Canonical(records, seen).events|
    ensures var o := Extend(Canonical(records, seen), records[i]);
      if |Canonical(records, seen + {i}).staged| <= IMPORT_BUFFER_CAP
      then o == Outcome(Canonical(records, seen + {i}), None)
      else o == Outcome(Canonical(records, seen), Some(ImportBufferFull))
  {
    var gap := Gap(seen, 0, |records|);
    assert Head(records[..gap]).seqNo == gap - 1;
    if i in seen {
      assert seen + {i} == seen;
      if i < gap {
        assert records[..gap][i] == records[i];
      }
    } else if i == gap {
      FillGap(records, seen, gap);
    } else {
      StageOne(records, seen, i);
    }
  }

  lemma {:induction false} FillGap(records: seq<Record>, seen: set<nat>, gap: nat)
    requires HonestChain(records) && 0 < gap == Gap(seen, 0, |records|) < |records|
    ensures Drain(records[..gap] + [records[gap]], Above(records, seen, gap))
            == (Canonical(records, seen + {gap}).events, Canonical(records, seen + {gap}).staged)
    ensures |Canonical(records, seen + {gap}).staged| <= |Above(records, seen, gap)|
  {
    var more := seen + {gap};
    assert records[..gap] + [records[gap]] == records[..gap + 1];
    assert Above(records, seen, gap) == Above(records, more, gap + 1);
    DrainIsCanonical(records, more, gap + 1);
    GapFrom(more, 0, gap + 1, |records|);
    AboveShrinks(records, more, gap + 1, Gap(more, gap + 1, |records|));
  }

  lemma {:induction false} AboveShrinks(records: seq<Record>, seen: set<nat>, a: nat, b: nat)
    requires a <= b
    ensures |Above(records, seen, b)| <= |Above(records, seen, a)|
  {
    SubsetIsSmaller(Above(records, seen, b).Keys, Above(records, seen, a).Keys);
    assert |Above(records, seen, b).Keys| == |Above(records, seen, b)|;
    assert |Above(records, seen, a).Keys| == |Above(records, seen, a)|;
  }

  lemma {:induction false} SubsetIsSmaller(a: set<nat>, b: set<nat>)
    requires a <= b
    ensures |a| <= |b|
  {
    assert b == a + (b - a);
  }

  lemma {:induction false} StageOne(records: seq<Record>, seen: set<nat>, i: nat)
    requires HonestChain(records) && i < |records| && i !in seen && Gap(seen, 0, |records|) < i
    ensures var gap := Gap(seen, 0, |records|);
      && Canonical(records, seen + {i}).events == records[..gap]
      && Canonical(records, seen + {i}).staged == Above(records, seen, gap)[i := records[i]]
      && |Canonical(records, seen + {i}).staged| == |Above(records, seen, gap)| + 1
  {
    var gap := Gap(seen, 0, |records|);
    GapFrom(seen + {i}, 0, gap, |records|);
    assert Above(records, seen + {i}, gap) == Above(records, seen, gap)[i := records[i]];
    MapGrows(Above(records, seen, gap), i, records[i]);
  }

  function Seen(ds: seq<nat>): set<nat> { set i | i in ds }

  /** No moment of the schedule has more than 1024 records waiting for an earlier one. */
  predicate FitsBuffer(records: seq<Record>, first: set<nat>, ds: seq<nat>)
  {
    forall t | 0 <= t <= |ds| :: |Canonical(records, first + Seen(ds[..t])).staged| <= IMPORT_BUFFER_CAP
  }

  predicate Deliverable(g: Gate, records: seq<Record>, ds: seq<nat>, kels: seq<seq<SignedEvent>>)
  {
    |kels| == |ds| && forall t | 0 <= t < |ds| :: ds[t] < |records| && g.verify(records[ds[t]], kels[t]).None?
  }

  function Schedule(records: seq<Record>, ds: seq<nat>, kels: seq<seq<SignedEvent>>): (s: seq<Delivery>)
    requires |kels| == |ds| && forall t | 0 <= t < |ds| :: ds[t] < |records|
    ensures |s| == |ds|
  {
    if ds == [] then []
    else Schedule(records, ds[..|ds| - 1], kels[..|ds| - 1]) + [Delivery(records[ds[|ds| - 1]], kels[|ds| - 1])]
  }

  lemma {:induction false} FitsPrefix(records: seq<Record>, first: set<nat>, ds: seq<nat>)
    requires ds != [] && FitsBuffer(records, first, ds)
    ensures FitsBuffer(records, first, ds[..|ds| - 1])
    ensures |Canonical(records, first + Seen(ds)).staged| <= IMPORT_BUFFER_CAP
    ensures |Canonical(records, first + Seen(ds[..|ds| - 1])).staged| <= IMPORT_BUFFER_CAP
  {
    assert ds[..|ds|] == ds;
    var n := |ds| - 1;
    forall t | 0 <= t <= n
      ensures |Canonical(records, first + Seen(ds[..n][..t])).staged| <= IMPORT_BUFFER_CAP
    {
      assert ds[..n][..t] == ds[..t];
    }
  }

  /** What a chain of m holds is determined by which records have arrived. */
  ghost predicate Holds(m: Chains, records: seq<Record>, seen: set<nat>)
    requires records != []
  {
    records[0].chainDid in m && m[records[0].chainDid] == Canonical(records, seen)
  }

  /**
   The state depends only on which records have arrived, not on their order or repeats: after any schedule that
   never has more than 1024 waiting, the chain is the canonical one of the set delivered.
   */
  lemma {:induction false} OrderDoesNotMatter(
    g: Gate, m: Chains, records: seq<Record>, ds: seq<nat>, kels: seq<seq<SignedEvent>>)
    requires Good(g, m) && HonestChain(records) && Holds(m, records, {0})
    requires Deliverable(g, records, ds, kels) && FitsBuffer(records, {0}, ds)
    ensures Holds(Deliver(g, m, Schedule(records, ds, kels)), records, {0} + Seen(ds))
    decreases |ds|
  {
    if ds == [] {
      assert {0} + Seen(ds) == {0};
    } else {
      var n := |ds| - 1;
      FitsPrefix(records, {0}, ds);
      OrderDoesNotMatter(g, m, records, ds[..n], kels[..n]);
      DeliverSchedule(g, m, records, ds, kels);
      LastDelivery(g, Deliver(g, m, Schedule(records, ds[..n], kels[..n])), records, ds, kels[n]);
    }
  }

  lemma {:induction false} LastDelivery(g: Gate, before: Chains, records: seq<Record>, ds: seq<nat>, kel: seq<SignedEvent>)
    requires Good(g, before) && HonestChain(records) && ds != [] && forall t | 0 <= t < |ds| :: ds[t] < |records|
    requires g.verify(records[ds[|ds| - 1]], kel).None?
    requires Holds(before, records, {0} + Seen(ds[..|ds| - 1]))
    requires |Canonical(records, {0} + Seen(ds)).staged| <= IMPORT_BUFFER_CAP
    requires |Canonical(records, {0} + Seen(ds[..|ds| - 1])).staged| <= IMPORT_BUFFER_CAP
    ensures Indexed(before) && Holds(AppendTo(g, before, records[ds[|ds| - 1]], kel).0, records, {0} + Seen(ds))
  {
    var n := |ds| - 1;
    assert {0} + Seen(ds) == {0} + Seen(ds[..n]) + {ds[n]};
    OneMore(g, before, records, {0} + Seen(ds[..n]), ds[n], kel);
  }

  lemma {:induction false} CanonicalOfGenesis(records: seq<Record>)
    requires records != []
    ensures Canonical(records, {0}) == ChainState([records[0]], false, map[])
  {
    assert Gap({0}, 0, |records|) == Gap({0}, 1, |records|) == 1;
    assert records[..1] == [records[0]];
    assert Above(records, {0}, 1) == map[];
  }

  lemma {:induction false} OneMore(
    g: Gate, m: Chains, records: seq<Record>, seen: set<nat>, i: nat, kel: seq<SignedEvent>)
    requires Good(g, m) && HonestChain(records) && i < |records| && g.verify(records[i], kel).None?
    requires 0 in seen && forall j | j in seen :: j < |records|
    requires Holds(m, records, seen)
    requires |Canonical(records, seen).staged| <= IMPORT_BUFFER_CAP
    requires |Canonical(records, seen + {i}).staged| <= IMPORT_BUFFER_CAP
    ensures Indexed(m) && Holds(AppendTo(g, m, records[i], kel).0, records, seen + {i})
  {
    DeliverOne(records, seen, i);
    DeliverToChain(g, m, records[i], kel);
  }

  lemma {:induction false} DeliverSchedule(
    g: Gate, m: Chains, records: seq<Record>, ds: seq<nat>, kels: seq<seq<SignedEvent>>)
    requires Good(g, m) && ds != [] && |kels| == |ds| && forall t | 0 <= t < |ds| :: ds[t] < |records|
    ensures var n := |ds| - 1;
      var before := Deliver(g, m, Schedule(records, ds[..n], kels[..n]));
      Indexed(before)
      && Deliver(g, m, Schedule(records, ds, kels)) == AppendTo(g, before, records[ds[n]], kels[n]).0
  {
    var n := |ds| - 1;
    GoodIsIndexed(g, Deliver(g, m, Schedule(records, ds[..n], kels[..n])));
    assert Schedule(records, ds, kels)[..n] == Schedule(records, ds[..n], kels[..n]);
  }

  /** A record that passes the gate reaches its chain. */
  lemma {:induction false} DeliverToChain(g: Gate, m: Chains, r: Record, kel: seq<SignedEvent>)
    requires Good(g, m) && r.chainDid in m && !m[r.chainDid].quarantined
    requires r.versionMajor == VERSION_MAJOR_2 && g.verify(r, kel).None?
    ensures Indexed(m) && AppendTo(g, m, r, kel) == (m[r.chainDid := Extend(m[r.chainDid], r).chain], Extend(m[r.chainDid], r).error)
  {
    GoodIsIndexed(g, m);
  }

  /** Everything delivered at least once: the chain is applied whole and nothing is left staged. */
  lemma {:induction false} AllDeliveredAllApplied(
    g: Gate, m: Chains, records: seq<Record>, ds: seq<nat>, kels: seq<seq<SignedEvent>>)
    requires Good(g, m) && HonestChain(records) && records[0].chainDid in m
    requires m[records[0].chainDid] == ChainState([records[0]], false, map[])
    requires Deliverable(g, records, ds, kels) && FitsBuffer(records, {0}, ds)
    requires forall i | 0 < i < |records| :: i in ds
    ensures records[0].chainDid in Deliver(g, m, Schedule(records, ds, kels))
    ensures Deliver(g, m, Schedule(records, ds, kels))[records[0].chainDid] == ChainState(records, false, map[])
  {
    CanonicalOfGenesis(records);
    OrderDoesNotMatter(g, m, records, ds, kels);
    var seen := {0} + Seen(ds);
    var gap := Gap(seen, 0, |records|);
    assert gap == |records|;
    assert records[..gap] == records;
    assert Above(records, seen, gap) == map[];
  }

  // ---- the head of a quarantined chain ----

  /** The last event that is not a fork anchor, or the last event when all are. */
  function HeadRecord(ch: ChainState): Record
    requires ch.events != []
  {
    if ch.quarantined then LastOrdinary(ch.events, |ch.events|) else Head(ch.events)
  }

  function LastOrdinary(events: seq<Record>, n: nat): Record
    requires events != [] && n <= |events|
  {
    if n == 0 then Head(events)
    else if events[n - 1].eventType != EV_FORK_DETECTED then events[n - 1]
    else LastOrdinary(events, n - 1)
  }

  /** No later event is ordinary; and without quarantine the head is the event with the highest seq. */
  lemma {:induction false} HeadExactly(g: Gate, did: string, ch: ChainState)
    requires GoodChain(g, did, ch)
    ensures !ch.quarantined ==> HeadRecord(ch).seqNo == |ch.events| - 1 && HeadRecord(ch) in ch.events
    ensures ch.quarantined && (exists x | x in ch.events :: x.eventType != EV_FORK_DETECTED) ==>
      exists n :: 0 <= n < |ch.events| && HeadRecord(ch) == ch.events[n] && ch.events[n].eventType != EV_FORK_DETECTED
                && forall i | n < i < |ch.events| :: ch.events[i].eventType == EV_FORK_DETECTED
  {
    if !ch.quarantined { assert LinkedAt(g, did, ch.events, |ch.events| - 1); }
    if ch.quarantined && exists x | x in ch.events :: x.eventType != EV_FORK_DETECTED {
      var x :| x in ch.events && x.eventType != EV_FORK_DETECTED;
      var i :| 0 <= i < |ch.events| && ch.events[i] == x;
      var n := LastOrdinaryIs(ch.events, |ch.events|, i);
    }
  }

  lemma {:induction false} LastOrdinaryIs(events: seq<Record>, n: nat, i: nat) returns (k: nat)
    requires n <= |events| && i < n && events[i].eventType != EV_FORK_DETECTED
    ensures k < n && LastOrdinary(events, n) == events[k] && events[k].eventType != EV_FORK_DETECTED
    ensures forall j | k < j < n :: events[j].eventType == EV_FORK_DETECTED
  {
    if events[n - 1].eventType != EV_FORK_DETECTED { k := n - 1; } else { k := LastOrdinaryIs(events, n - 1, i); }
  }

  /**
   On a quarantined chain the reported head is the competing record, not the existing one, unless the competing
   record is itself of the fork type.
   */
  lemma {:induction false} HeadReportsCompetingRecord(g: Gate, did: string, ch: ChainState)
    requires GoodChain(g, did, ch) && ch.quarantined
    ensures var n := |ch.events| - 2;
      var incoming, existing := ch.events[n], ch.events[ch.events[n].seqNo];
      && (incoming.eventType != EV_FORK_DETECTED ==> HeadRecord(ch) == incoming && HeadRecord(ch).id != existing.id)
      && (HeadRecord(ch).id == existing.id
          <==> incoming.eventType == EV_FORK_DETECTED && LastOrdinary(ch.events, n).id == existing.id)
  {
    var n := |ch.events| - 2;
    assert LastOrdinary(ch.events, n + 2) == LastOrdinary(ch.events, n + 1);
  }

  // ---- batches ----

  function Rank(m: Chains, did: string): nat { if did in m then |m[did].events| else 0 }

  function WaitCount(m: Chains, did: string): nat { if did in m then |m[did].staged| else 0 }

  /** A refused append stores nothing, except that a fork stores the competing record and the anchor. */
  function ForkCost(e: Option<LedgerError>): nat { if e.Some? && e.value.Equivocation? then 2 else 0 }

  datatype ImportResult = ImportResult(applied: nat, staged: nat, dups: nat)

  /** The places of all stored events. */
  function Places(m: Chains): set<(string, nat)>
  {
    set d, i: nat | d in m && i < |m[d].events| :: (d, i)
  }

  function Range(d: string, a: nat, b: nat): set<(string, nat)>
  {
    set i: nat | a <= i < b :: (d, i)
  }

  lemma {:induction false} RangeSize(d: string, a: nat, b: nat)
    requires a <= b
    ensures |Range(d, a, b)| == b - a
    decreases b - a
  {
    if a < b {
      RangeSize(d, a, b - 1);
      assert Range(d, a, b) == Range(d, a, b - 1) + {(d, b - 1)};
    } else {
      assert Range(d, a, b) == {};
    }
  }

  lemma {:induction false} PlacesGrow(m: Chains, d: string, ch: ChainState)
    requires Rank(m, d) <= |ch.events|
    ensures |Places(m[d := ch])| == |Places(m)| + (|ch.events| - Rank(m, d))
  {
    RangeSize(d, Rank(m, d), |ch.events|);
    assert Places(m[d := ch]) == Places(m) + Range(d, Rank(m, d), |ch.events|);
    assert Places(m) !! Range(d, Rank(m, d), |ch.events|);
  }

  lemma {:induction false} ExtendCounts(g: Gate, did: string, ch: ChainState, r: Record)
    requires GoodChain(g, did, ch) && !ch.quarantined && Admitted(g, did, r)
    ensures Head(ch.events).seqNo == |ch.events| - 1
    ensures var o := Extend(ch, r);
      && |ch.events| <= |o.chain.events|
      && (|o.chain.staged| > |ch.staged| ==> |o.chain.events| == |ch.events|)
      && (o.error.Some? ==> |o.chain.events| == |ch.events| + ForkCost(o.error))
  {
    assert LinkedAt(g, did, ch.events, |ch.events| - 1);
    if r.seqNo == |ch.events| && r.prevId == Head(ch.events).id {
      LinkedSnoc(g, did, ch.events, r);
      DrainKeeps(g, did, ch.events + [r], ch.staged);
    }
  }

  /** One append: what an import counts for it is how many events it added, and it never both stages and applies. */
  lemma {:induction false} AppendCounts(g: Gate, m: Chains, r: Record, kel: seq<SignedEvent>)
    requires Good(g, m)
    ensures Indexed(m)
    ensures var (after, e) := AppendTo(g, m, r, kel);
      var grown := Rank(after, r.chainDid) - Rank(m, r.chainDid);
      && grown >= 0 && |Places(after)| == |Places(m)| + grown
      && (WaitCount(after, r.chainDid) > WaitCount(m, r.chainDid) ==> grown == 0)
      && (e.Some? ==> grown == ForkCost(e))
  {
    GoodIsIndexed(g, m);
    if GateProblem(g, m, r, kel).None? {
      assert Admitted(g, r.chainDid, r);
      if r.chainDid in m {
        ExtendCounts(g, r.chainDid, m[r.chainDid], r);
        PlacesGrow(m, r.chainDid, Extend(m[r.chainDid], r).chain);
      } else {
        PlacesGrow(m, r.chainDid, ChainState([r], false, map[]));
      }
    }
  }

  // ---- the objects ----

  class Chain {
    var events: seq<Record>
    var quarantined: bool
    var staged: map<nat, Record>

    function Value(): ChainState
      reads this
    {
      ChainState(events, quarantined, staged)
    }

    constructor (first: Record)
      ensures Value() == ChainState([first], false, map[])
    {
      events, quarantined, staged := [first], false, map[];
    }

    method DrainStaged()
      requires events != []
      modifies this`events, this`staged
      ensures (events, staged) == Drain(old(events), old(staged))
    {
      while |staged| > 0
        invariant events != [] && Drain(events, staged) == Drain(old(events), old(staged))
        decreases staged.Keys
      {
        var head := events[|events| - 1];
        if head.seqNo + 1 !in staged {
          return;
        }
        var next := staged[head.seqNo + 1];
        staged := staged - {head.seqNo + 1};
        if next.prevId != head.id {
          continue;
        }
        events := events + [next];
      }
      assert staged == map[];
    }

    method AppendVerified(r: Record) returns (e: Option<LedgerError>)
      requires events != [] && Head(events).seqNo < |events|
      modifies this
      ensures Outcome(Value(), e) == Extend(old(Value()), r)
    {
      var head := events[|events| - 1];
      if r.seqNo <= head.seqNo {
        var existing := events[r.seqNo];
        if existing.id != r.id {
          e := Quarantine(existing, r);
          return;
        }
        return None;
      }
      if r.seqNo == head.seqNo + 1 {
        if r.prevId != head.id {
          return Some(PrevLinkBroken);
        }
        events := events + [r];
        DrainStaged();
        return None;
      }
      if r.seqNo in staged && staged[r.seqNo].id == r.id {
        return None;
      }
      if |staged| >= IMPORT_BUFFER_CAP {
        return Some(ImportBufferFull);
      }
      staged := staged[r.seqNo := r];
      e := None;
    }

    method Quarantine(existing: Record, incoming: Record) returns (e: Option<LedgerError>)
      modifies this
      ensures e == Some(Equivocation(existing, incoming))
      ensures Value() == old(Value()).(events := old(events) + [incoming, ForkAnchor(existing, incoming)], quarantined := true)
    {
      events := events + [incoming];
      events := events + [ForkAnchor(existing, incoming)];
      quarantined := true;
      e := Some(Equivocation(existing, incoming));
    }
  }

  class Ledger {
    const g: Gate
    var chains: map<string, Chain>

    ghost predicate Separate()
      reads this
    {
      forall a, b | a in chains && b in chains && a != b :: chains[a] != chains[b]
    }

    function Value(): Chains
      reads this, chains.Values
    {
      map d | d in chains :: chains[d].Value()
    }

    constructor (g: Gate)
      ensures this.g == g && chains == map[] && Separate()
    {
      this.g, chains := g, map[];
    }

    method Append(r: Record, kel: seq<SignedEvent>) returns (e: Option<LedgerError>)
      requires Separate() && Indexed(Value())
      modifies this, chains.Values
      ensures Separate() && fresh(chains.Values - old(chains.Values))
      ensures (Value(), e) == AppendTo(g, old(Value()), r, kel)
    {
      if r.chainDid in chains && chains[r.chainDid].quarantined {
        return Some(ChainQuarantined);
      }
      if r.versionMajor != VERSION_MAJOR_2 {
        return Some(VersionUnsupported);
      }
      var problem := g.verify(r, kel);
      if problem.Some? {
        return Some(NotVerified(problem.value));
      }
      if r.chainDid !in chains {
        if r.seqNo != 0 || r.prevId != g.genesisPrev {
          return Some(BadGenesisPrev);
        }
        OpenChain(r);
        return None;
      }
      assert r.chainDid in Value() && Value()[r.chainDid].events != [];
      e := AppendToChain(r);
    }

    method OpenChain(r: Record)
      requires Separate() && r.chainDid !in chains
      modifies this
      ensures Separate() && fresh(chains.Values - old(chains.Values))
      ensures Value() == old(Value())[r.chainDid := ChainState([r], false, map[])]
    {
      var ch := new Chain(r);
      ch.DrainStaged();
      ghost var was := Value();
      chains := chains[r.chainDid := ch];
      assert ch.Value() == ChainState([r], false, map[]);
      assert Value() == was[r.chainDid := ChainState([r], false, map[])];
    }

    method AppendToChain(r: Record) returns (e: Option<LedgerError>)
      requires Separate() && r.chainDid in chains
      requires var ch := chains[r.chainDid]; ch.events != [] && Head(ch.events).seqNo < |ch.events|
      modifies chains[r.chainDid]
      ensures var o := Extend(old(chains[r.chainDid].Value()), r);
        Value() == old(Value())[r.chainDid := o.chain] && e == o.error
    {
      ghost var was := Value();
      var ch := chains[r.chainDid];
      e := ch.AppendVerified(r);
      assert forall d | d in chains && d != r.chainDid :: chains[d] != ch;
      assert Value() == was[r.chainDid := ch.Value()];
    }

    /** Processes records until one is refused; counts what the others did. */
    method ImportBatch(recs: seq<Record>, kel: seq<SignedEvent>) returns (res: ImportResult, e: Option<LedgerError>)
      requires Separate() && Good(g, Value())
      modifies this, chains.Values
      ensures Separate() && Good(g, Value()) && fresh(chains.Values - old(chains.Values))
      ensures |Places(Value())| == |Places(old(Value()))| + res.applied + ForkCost(e)
      ensures e.None? ==> Value() == Deliver(g, old(Value()), Batch(recs, kel))
    {
      res, e := ImportResult(0, 0, 0), None;
      for i := 0 to |recs|
        invariant Separate() && Good(g, Value()) && fresh(chains.Values - old(chains.Values))
        invariant e.None?
        invariant |Places(Value())| == |Places(old(Value()))| + res.applied
        invariant Value() == Deliver(g, old(Value()), Batch(recs[..i], kel))
      {
        BatchDelivers(g, old(Value()), recs, i, kel);
        res, e := AppendCounted(recs[i], kel, res);
        if e.Some? {
          return;
        }
      }
      assert recs[..|recs|] == recs;
    }

    /** One record of a batch, and what the batch counts for it. */
    method AppendCounted(r: Record, kel: seq<SignedEvent>, res: ImportResult)
      returns (next: ImportResult, e: Option<LedgerError>)
      requires Separate() && Good(g, Value())
      modifies this, chains.Values
      ensures Separate() && Good(g, Value()) && fresh(chains.Values - old(chains.Values))
      ensures Indexed(old(Value())) && (Value(), e) == AppendTo(g, old(Value()), r, kel)
      ensures e.Some? ==> next == res
      ensures |Places(Value())| - |Places(old(Value()))| == next.applied - res.applied + ForkCost(e)
    {
      AppendCounts(g, Value(), r, kel);
      AppendKeepsGood(g, Value(), r, kel);
      next := res;
      var before := Counts(r.chainDid);
      e := Append(r, kel);
      if e.Some? {
        return;
      }
      var after := Counts(r.chainDid);
      if after.1 > before.1 {
        next := res.(staged := res.staged + 1);
      } else if after.0 > before.0 {
        next := res.(applied := res.applied + (after.0 - before.0));
      } else {
        next := res.(dups := res.dups + 1);
      }
    }

    method Counts(did: string) returns (n: (nat, nat))
      ensures n == (Rank(Value(), did), WaitCount(Value(), did))
    {
      if did in chains {
        n := (|chains[did].events|, |chains[did].staged|);
      } else {
        n := (0, 0);
      }
    }

    method HeadOf(did: string) returns (r: Option<(string, nat)>)
      requires Indexed(Value())
      ensures r == if did !in chains then None
                   else Some((HeadRecord(Value()[did]).id, HeadRecord(Value()[did]).seqNo))
    {
      if did !in chains {
        return None;
      }
      var ch := chains[did];
      assert Value()[did].events != [];
      var h := ch.events[|ch.events| - 1];
      if ch.quarantined {
        var i := |ch.events|;
        while i > 0
          invariant 0 <= i <= |ch.events| && h == ch.events[|ch.events| - 1]
          invariant LastOrdinary(ch.events, i) == LastOrdinary(ch.events, |ch.events|)
        {
          i := i - 1;
          if ch.events[i].eventType != EV_FORK_DETECTED {
            h := ch.events[i];
            break;
          }
        }
      }
      r := Some((h.id, h.seqNo));
    }
  }

  function Batch(recs: seq<Record>, kel: seq<SignedEvent>): (ds: seq<Delivery>)
    ensures |ds| == |recs|
  {
    if recs == [] then [] else Batch(recs[..|recs| - 1], kel) + [Delivery(recs[|recs| - 1], kel)]
  }

  lemma {:induction false} BatchSnoc(recs: seq<Record>, i: nat, kel: seq<SignedEvent>)
    requires i < |recs|
    ensures Batch(recs[..i + 1], kel) == Batch(recs[..i], kel) + [Delivery(recs[i], kel)]
    ensures Batch(recs[..i + 1], kel)[..i] == Batch(recs[..i], kel)
  {
    assert recs[..i + 1][..i] == recs[..i];
  }

  lemma {:induction false} BatchDelivers(g: Gate, m: Chains, recs: seq<Record>, i: nat, kel: seq<SignedEvent>)
    requires i < |recs| && Good(g, m)
    ensures var before := Deliver(g, m, Batch(recs[..i], kel));
      Indexed(before) && Deliver(g, m, Batch(recs[..i + 1], kel)) == AppendTo(g, before, recs[i], kel).0
  {
    BatchSnoc(recs, i, kel);
    GoodIsIndexed(g, Deliver(g, m, Batch(recs[..i], kel)));
  }
}
