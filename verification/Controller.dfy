/** The signing side of an identity. */
module Control {
  // The private keys an identity holds, the log its witness accepted, and the event it is publishing.
  // A private key is its Ed25519 seed.

  import opened Octets
  import opened Kel

  const STATE_OK := "ok"
  const STATE_STOPPED := "stopped"
  const STATE_DEACTIVATED := "deactivated"
  const SEED_SIZE: nat := 32

  type OtherKindName = s: string | s != "witness" && s != "rot" && s != "dip"

  datatype Kind = PendingWitness | PendingRot | PendingDip | OtherKind(name: OtherKindName)

  datatype Pending = Pending(
    kind: Kind, revealed: Bytes, next: Bytes, hubUrl: string, emergency: bool, since: nat, event: Option<SignedEvent>)

  datatype WitnessPush = WitnessPush(hubAid: string, hubUrl: string, ackedSeq: nat, nextTry: nat)

  /** All a controller holds. accepted are the events its witness accepted. */
  datatype Identity = Identity(
    aid: string, accepted: seq<SignedEvent>, cur: Option<Bytes>, hot: Option<Bytes>, pending: Option<Pending>,
    push: seq<WitnessPush>, state: string, localCommit: Option<Bytes>)
  {
    predicate Publishing() { pending.Some? && pending.value.event.Some? }

    /** The log the controller signs under. */
    function Log(): seq<SignedEvent>
    {
      if Publishing() then accepted + [pending.value.event.value] else accepted
    }

    function SigningKey(): Option<Bytes>
    {
      if Publishing() then Some(pending.value.revealed) else cur
    }

    function CurrentSeq(): nat
      requires accepted != []
    {
      if Publishing() then pending.value.event.value.event.seqNo else accepted[|accepted| - 1].event.seqNo
    }
  }

  /** Ed25519 key generation and signing beside the verifier's functions. */
  datatype Suite = Suite(c: Crypto, pub: Bytes -> Bytes, sign: (Bytes, Bytes) -> Bytes)

  ghost predicate Lawful(s: Suite)
  {
    && (forall k, m :: |k| == SEED_SIZE ==> s.c.verify(s.pub(k), m, s.sign(k, m)))
    && (forall k, m :: |k| == SEED_SIZE ==> |s.sign(k, m)| == SIG_SIZE)
    && (forall k :: |k| == SEED_SIZE ==> |s.pub(k)| == KEY_SIZE)
  }

  datatype Refused =
    | WrongState | IsDeactivated | EventPending | NotAgent | AlreadyDesignated | NoHotKey | BadWitness
    | HotKeyOnlyByDesignation | BadKeyLength | RecoveryMismatch | HubNamesNoWitness | BadNextDigest
    | DoesNotEncode | DoesNotReplay | NothingPending | NotThePendingEvent | DiscardRefused
    | BadState | BadCommit | BadPush | ZeroInceptionTime

  // ---- building an event ----

  /** Key 6 of the last establishment event. */
  function Committed(kel: seq<SignedEvent>): Bytes
  {
    if kel == [] then []
    else
      var last := kel[|kel| - 1].event;
      if last.typ == Inception || last.typ == Rotation then last.nextDigest else Committed(kel[..|kel| - 1])
  }

  /** The event that material p makes after the accepted log. */
  function EventOf(s: Suite, id: Identity, p: Pending, witnessAid: string, ts: nat): KeyEvent
    requires id.accepted != []
  {
    var last := id.accepted[|id.accepted| - 1];
    if p.kind == PendingDip then
      KeyEvent(KEL_TYPE, id.aid, last.event.seqNo + 1, last.eventId, Deactivation, [s.pub(p.revealed)], [],
               1, ts, [], None, false)
    else
      KeyEvent(KEL_TYPE, id.aid, last.event.seqNo + 1, last.eventId, Rotation, [s.pub(p.revealed)], p.next,
               1, ts, if witnessAid != "" then [witnessAid] else [], Some(ToadOf(id.accepted)), p.emergency)
  }

  /** The signed event, handed out only if the log with it replays. */
  function BuildEvent(s: Suite, id: Identity, p: Pending, witnessAid: string, ts: nat): Result<SignedEvent, Refused>
    requires id.accepted != []
  {
    var e := EventOf(s, id, p, witnessAid, ts);
    match s.c.encode(e)
    case None => Err(DoesNotEncode)
    case Some(pre) =>
      var ev := SignedEvent(e, s.sign(p.revealed, pre), s.c.cid(pre));
      if ReplayResult(s.c, id.accepted + [ev]).Ok? then Ok(ev) else Err(DoesNotReplay)
  }

  function WitnessIn(e: KeyEvent): string { if |e.witnesses| == 1 then e.witnesses[0] else "" }

  // ---- the transitions, on values ----

  datatype Op =
    | Designate(witnessAid: string, next: Bytes, ts: nat)
    | Rotate(revealed: Option<Bytes>, next: Bytes, witnessAid: string, emergency: bool, ts: nat)
    | Deactivate(revealed: Option<Bytes>, ts: nat)
    | Restamp(ts: nat)
    | Adopt(ev: SignedEvent)
    | Discard
    | SetHubUrl(url: string)
    | SetState(state: string)
    | SetCommit(digest: Bytes)
    | SetPush(list: seq<WitnessPush>)

  function CannotBuild(id: Identity): Option<Refused>
    requires id.accepted != []
  {
    if id.state != STATE_OK then Some(WrongState)
    else if id.accepted[|id.accepted| - 1].event.typ == Deactivation then Some(IsDeactivated)
    else if id.pending.Some? then Some(EventPending)
    else None
  }

  function Revealing(s: Suite, id: Identity, revealed: Option<Bytes>): Result<Bytes, Refused>
  {
    match revealed
    case None => if id.hot.None? || |id.accepted| != 1 then Err(NoHotKey) else Ok(id.hot.value)
    case Some(k) =>
      if |k| != SEED_SIZE then Err(BadKeyLength)
      else if s.c.sha(s.pub(k)) != Committed(id.accepted) then Err(RecoveryMismatch)
      else Ok(k)
  }

  function Build(s: Suite, id: Identity, p: Pending, witnessAid: string, ts: nat): Result<Identity, Refused>
    requires id.accepted != []
  {
    if p.kind != PendingDip && |p.next| != DIGEST_SIZE then Err(BadNextDigest)
    else match BuildEvent(s, id, p, witnessAid, ts)
      case Err(e) => Err(e)
      case Ok(ev) => Ok(id.(pending := Some(p.(event := Some(ev)))))
  }

  function Fresh(kind: Kind, revealed: Bytes, next: Bytes, emergency: bool, since: nat): Pending
  {
    Pending(kind, revealed, next, "", emergency, since, None)
  }

  function BuildDesignation(s: Suite, id: Identity, witnessAid: string, next: Bytes, ts: nat): Result<Identity, Refused>
    requires id.accepted != []
  {
    if CannotBuild(id).Some? then Err(CannotBuild(id).value)
    else if ToadOf(id.accepted) != TOAD_AGENT then Err(NotAgent)
    else if |id.accepted| != 1 then Err(AlreadyDesignated)
    else if id.hot.None? then Err(NoHotKey)
    else if !s.c.validAid(witnessAid) then Err(BadWitness)
    else Build(s, id, Fresh(PendingWitness, id.hot.value, next, false, ts), witnessAid, ts)
  }

  function BuildRotation(
    s: Suite, id: Identity, revealed: Option<Bytes>, next: Bytes, witnessAid: string, emergency: bool, ts: nat)
    : Result<Identity, Refused>
    requires id.accepted != []
  {
    if CannotBuild(id).Some? then Err(CannotBuild(id).value)
    else if revealed.None? && ToadOf(id.accepted) == TOAD_AGENT then Err(HotKeyOnlyByDesignation)
    else match Revealing(s, id, revealed)
      case Err(e) => Err(e)
      case Ok(key) =>
        if ToadOf(id.accepted) == TOAD_HUB && witnessAid != "" then Err(HubNamesNoWitness)
        else Build(s, id, Fresh(PendingRot, key, next, emergency, ts), witnessAid, ts)
  }

  function BuildDeactivation(s: Suite, id: Identity, revealed: Option<Bytes>, ts: nat): Result<Identity, Refused>
    requires id.accepted != []
  {
    if CannotBuild(id).Some? then Err(CannotBuild(id).value)
    else match Revealing(s, id, revealed)
      case Err(e) => Err(e)
      case Ok(key) => Build(s, id, Fresh(PendingDip, key, [], false, ts), "", ts)
  }

  /** The witness a rebuilt event names: the pending event's, or the head's when there is only material. */
  function RestampWitness(id: Identity): string
    requires id.accepted != [] && id.pending.Some?
  {
    var p := id.pending.value;
    if p.event.Some? && |p.event.value.event.witnesses| == 1 then p.event.value.event.witnesses[0]
    else if p.event.None? && p.kind != PendingDip && ToadOf(id.accepted) == TOAD_AGENT
      then WitnessAt(id.accepted, |id.accepted| - 1)
    else ""
  }

  function RestampAt(s: Suite, id: Identity, ts: nat): Result<Identity, Refused>
    requires id.accepted != []
  {
    if id.pending.None? then Err(NothingPending)
    else if id.state != STATE_OK then Err(WrongState)
    else match BuildEvent(s, id, id.pending.value, RestampWitness(id), ts)
      case Err(e) => Err(e)
      case Ok(ev) => Ok(id.(pending := Some(id.pending.value.(event := Some(ev)))))
  }

  function AdoptEvent(id: Identity, ev: SignedEvent): Result<Identity, Refused>
  {
    if !id.Publishing() then Err(NothingPending)
    else if ev != id.pending.value.event.value then Err(NotThePendingEvent)
    else Ok(id.(accepted := id.accepted + [ev], cur := Some(id.pending.value.revealed), hot := None, pending := None))
  }

  function DiscardPending(id: Identity): Result<Identity, Refused>
    requires id.accepted != []
  {
    if id.pending.None? then Err(NothingPending)
    else
      var p, last := id.pending.value, id.accepted[|id.accepted| - 1];
      if p.kind != PendingWitness || p.event.None? || id.hot.None? || |id.accepted| != 1
         || p.event.value.event.seqNo != last.event.seqNo + 1 || p.event.value.event.prev != last.eventId
      then Err(DiscardRefused)
      else Ok(id.(pending := None))
  }

  function Apply(s: Suite, id: Identity, op: Op): Result<Identity, Refused>
    requires id.accepted != []
  {
    match op
    case Designate(w, next, ts) => BuildDesignation(s, id, w, next, ts)
    case Rotate(revealed, next, w, emergency, ts) => BuildRotation(s, id, revealed, next, w, emergency, ts)
    case Deactivate(revealed, ts) => BuildDeactivation(s, id, revealed, ts)
    case Restamp(ts) => RestampAt(s, id, ts)
    case Adopt(ev) => AdoptEvent(id, ev)
    case Discard => DiscardPending(id)
    case SetHubUrl(url) =>
      if id.pending.None? then Err(NothingPending) else Ok(id.(pending := Some(id.pending.value.(hubUrl := url))))
    case SetState(state) =>
      if state !in {STATE_OK, STATE_STOPPED, STATE_DEACTIVATED} then Err(BadState) else Ok(id.(state := state))
    case SetCommit(digest) => if |digest| != DIGEST_SIZE then Err(BadCommit) else Ok(id.(localCommit := Some(digest)))
    case SetPush(list) => if exists w | w in list :: w.hubAid == "" then Err(BadPush) else Ok(id.(push := list))
  }

  /** A refused operation changes nothing. */
  function After(s: Suite, id: Identity, op: Op): Identity
    requires id.accepted != []
  {
    match Apply(s, id, op)
    case Err(_) => id
    case Ok(next) => next
  }

  function InceptionEvent(s: Suite, k0: Bytes, k1: Bytes, ts: nat, toad: nat): KeyEvent
  {
    KeyEvent(KEL_TYPE, "", 0, "", Inception, [s.pub(k0)], s.c.sha(s.pub(k1)), 1, ts, [], Some(toad), false)
  }

  function Incept(s: Suite, k0: Bytes, k1: Bytes, ts: nat, toad: nat): Result<Identity, Refused>
  {
    var icp := InceptionEvent(s, k0, k1, ts, toad);
    if ts == 0 then Err(ZeroInceptionTime)
    else match s.c.encode(icp)
      case None => Err(DoesNotEncode)
      case Some(pre) =>
        var kel := [SignedEvent(icp, s.sign(k0, pre), s.c.cid(pre))];
        if ReplayResult(s.c, kel).Err? then Err(DoesNotReplay)
        else Ok(Identity(s.c.cid(pre), kel, Some(k0), Some(k1), None, [], STATE_OK, None))
  }

  // ---- what every state keeps ----

  /** The pending material answers to the accepted log, and its event, once built, is the one it makes. */
  predicate GoodPending(s: Suite, id: Identity, p: Pending)
    requires id.accepted != []
  {
    && id.accepted[|id.accepted| - 1].event.typ != Deactivation
    && |p.revealed| == SEED_SIZE && s.c.sha(s.pub(p.revealed)) == Committed(id.accepted)
    && (p.kind == PendingWitness ==>
          ToadOf(id.accepted) == TOAD_AGENT && |id.accepted| == 1 && !p.emergency && p.event.Some?)
    && (p.kind == PendingDip ==> p.next == [] && !p.emergency)
    && (p.kind != PendingDip ==> |p.next| == DIGEST_SIZE)
    && !p.kind.OtherKind?
    && (p.event.Some? ==>
          BuildEvent(s, id, p, WitnessIn(p.event.value.event), p.event.value.event.timestamp) == Ok(p.event.value))
  }

  /** Holds of every state, restored ones too. */
  predicate Inv(s: Suite, id: Identity)
  {
    && Replays(s.c, id.accepted) && id.accepted[0].eventId == id.aid
    && (id.cur.Some? ==> |id.cur.value| == SEED_SIZE
                         && [s.pub(id.cur.value)] == id.accepted[|id.accepted| - 1].event.keys)
    && (id.hot.Some? ==> |id.accepted| == 1 && |id.hot.value| == SEED_SIZE
                         && s.c.sha(s.pub(id.hot.value)) == id.accepted[0].event.nextDigest)
    && (id.pending.Some? ==> GoodPending(s, id, id.pending.value))
    && id.state in {STATE_OK, STATE_STOPPED, STATE_DEACTIVATED}
    && (id.localCommit.Some? ==> |id.localCommit.value| == DIGEST_SIZE)
    && forall w | w in id.push :: w.hubAid != ""
  }

  /** Holds of every state reached from an inception: no key is missing, and pending material has its event. */
  predicate Complete(id: Identity)
  {
    id.cur.Some? && (|id.accepted| == 1 ==> id.hot.Some?) && (id.pending.Some? ==> id.pending.value.event.Some?)
  }

  lemma {:induction false} InceptionIsComplete(s: Suite, k0: Bytes, k1: Bytes, ts: nat, toad: nat)
    requires |k0| == SEED_SIZE && |k1| == SEED_SIZE && Incept(s, k0, k1, ts, toad).Ok?
    ensures Inv(s, Incept(s, k0, k1, ts, toad).value) && Complete(Incept(s, k0, k1, ts, toad).value)
  {
    ReplaysIsOk(s.c, Incept(s, k0, k1, ts, toad).value.accepted);
  }

  lemma {:induction false} BuiltEventReplays(s: Suite, id: Identity, p: Pending, w: string, ts: nat)
    requires id.accepted != [] && BuildEvent(s, id, p, w, ts).Ok?
    ensures var ev := BuildEvent(s, id, p, w, ts).value;
      && ev.event == EventOf(s, id, p, w, ts)
      && Replays(s.c, id.accepted + [ev])
      && BuildEvent(s, id, p, WitnessIn(ev.event), ev.event.timestamp) == Ok(ev)
  {
    ReplaysIsOk(s.c, id.accepted + [BuildEvent(s, id, p, w, ts).value]);
  }

  lemma {:induction false} CommittedIsLast(kel: seq<SignedEvent>)
    requires kel != [] && kel[|kel| - 1].event.typ in {Inception, Rotation}
    ensures Committed(kel) == kel[|kel| - 1].event.nextDigest
  {
  }

  lemma {:induction false} LastIsEstablishment(c: Crypto, kel: seq<SignedEvent>)
    requires Replays(c, kel) && kel[|kel| - 1].event.typ != Deactivation
    ensures kel[|kel| - 1].event.typ in {Inception, Rotation}
  {
    assert CheckAt(c, kel, |kel| - 1).None?;
  }

  lemma {:induction false} BuildKeepsInv(s: Suite, id: Identity, p: Pending, w: string, ts: nat)
    requires Inv(s, id) && Build(s, id, p, w, ts).Ok? && p.event.None?
    requires id.accepted[|id.accepted| - 1].event.typ != Deactivation
    requires |p.revealed| == SEED_SIZE && s.c.sha(s.pub(p.revealed)) == Committed(id.accepted)
    requires p.kind == PendingWitness ==> ToadOf(id.accepted) == TOAD_AGENT && |id.accepted| == 1 && !p.emergency
    requires p.kind == PendingDip ==> p.next == [] && !p.emergency
    requires !p.kind.OtherKind?
    ensures Inv(s, Build(s, id, p, w, ts).value)
    ensures Complete(id) ==> Complete(Build(s, id, p, w, ts).value)
  {
    StoreEvent(s, id, p, w, ts);
  }

  /** The event is a function of the log and the material: no other field matters. */
  lemma {:induction false} SameMaterial(s: Suite, id: Identity, other: Identity, p: Pending, q: Pending, w: string, ts: nat)
    requires id.accepted != [] && other.accepted == id.accepted && other.aid == id.aid
    requires q.kind == p.kind && q.revealed == p.revealed && q.next == p.next && q.emergency == p.emergency
    ensures BuildEvent(s, other, q, w, ts) == BuildEvent(s, id, p, w, ts)
  {
  }

  /** Storing the event p's material makes keeps the pending part of the invariant. */
  lemma {:induction false} StoreEvent(s: Suite, id: Identity, p: Pending, w: string, ts: nat)
    requires id.accepted != [] && BuildEvent(s, id, p, w, ts).Ok?
    ensures var ev := BuildEvent(s, id, p, w, ts).value;
      BuildEvent(s, id, p.(event := Some(ev)), WitnessIn(ev.event), ev.event.timestamp) == Ok(ev)
  {
    BuiltEventReplays(s, id, p, w, ts);
    var ev := BuildEvent(s, id, p, w, ts).value;
    SameMaterial(s, id, id, p, p.(event := Some(ev)), WitnessIn(ev.event), ev.event.timestamp);
  }

  /** Whether pending material is good depends on the accepted log alone. */
  lemma {:induction false} PendingFits(s: Suite, id: Identity, other: Identity, p: Pending)
    requires id.accepted != [] && other.accepted == id.accepted && other.aid == id.aid && GoodPending(s, id, p)
    ensures GoodPending(s, other, p)
  {
    if p.event.Some? {
      SameMaterial(s, id, other, p, p, WitnessIn(p.event.value.event), p.event.value.event.timestamp);
    }
  }

  lemma {:induction false} RestampedPendingIsGood(s: Suite, id: Identity, w: string, ts: nat)
    requires Inv(s, id) && id.pending.Some? && BuildEvent(s, id, id.pending.value, w, ts).Ok?
    ensures GoodPending(s, id, id.pending.value.(event := Some(BuildEvent(s, id, id.pending.value, w, ts).value)))
  {
    StoreEvent(s, id, id.pending.value, w, ts);
  }

  lemma {:induction false} RevealedIsCommitted(s: Suite, id: Identity, revealed: Option<Bytes>)
    requires Inv(s, id) && CannotBuild(id).None? && Revealing(s, id, revealed).Ok?
    ensures |Revealing(s, id, revealed).value| == SEED_SIZE
    ensures s.c.sha(s.pub(Revealing(s, id, revealed).value)) == Committed(id.accepted)
  {
    LastIsEstablishment(s.c, id.accepted);
    CommittedIsLast(id.accepted);
  }

  lemma {:induction false} AdoptKeepsInv(s: Suite, id: Identity, ev: SignedEvent)
    requires Inv(s, id) && AdoptEvent(id, ev).Ok?
    ensures Inv(s, AdoptEvent(id, ev).value) && Complete(AdoptEvent(id, ev).value)
  {
    var p := id.pending.value;
    BuiltEventReplays(s, id, p, WitnessIn(ev.event), ev.event.timestamp);
    assert (id.accepted + [ev])[0] == id.accepted[0];
  }

  lemma {:induction false} RestampKeepsInv(s: Suite, id: Identity, ts: nat)
    requires Inv(s, id) && RestampAt(s, id, ts).Ok?
    ensures Inv(s, RestampAt(s, id, ts).value)
    ensures Complete(id) ==> Complete(RestampAt(s, id, ts).value)
  {
    var next := RestampAt(s, id, ts).value;
    RestampedPendingIsGood(s, id, RestampWitness(id), ts);
    PendingFits(s, id, next, next.pending.value);
  }

  /** What every operation keeps. */
  predicate Keeps(s: Suite, id: Identity, next: Identity)
  {
    Inv(s, next) && (Complete(id) ==> Complete(next)) && id.accepted <= next.accepted && next.aid == id.aid
  }

  lemma {:induction false} BuildsKeepInv(s: Suite, id: Identity, op: Op)
    requires Inv(s, id) && (op.Designate? || op.Rotate? || op.Deactivate?) && Apply(s, id, op).Ok?
    ensures Keeps(s, id, Apply(s, id, op).value)
  {
    match op {
      case Designate(w, next, ts) =>
        RevealedIsCommitted(s, id, None);
        BuildKeepsInv(s, id, Fresh(PendingWitness, id.hot.value, next, false, ts), w, ts);
      case Rotate(revealed, next, w, emergency, ts) =>
        RevealedIsCommitted(s, id, revealed);
        BuildKeepsInv(s, id, Fresh(PendingRot, Revealing(s, id, revealed).value, next, emergency, ts), w, ts);
      case Deactivate(revealed, ts) =>
        RevealedIsCommitted(s, id, revealed);
        BuildKeepsInv(s, id, Fresh(PendingDip, Revealing(s, id, revealed).value, [], false, ts), "", ts);
      case _ =>
    }
  }

  lemma {:induction false} StepKeepsInv(s: Suite, id: Identity, op: Op)
    requires Inv(s, id)
    ensures Keeps(s, id, After(s, id, op))
  {
    if Apply(s, id, op).Ok? {
      match op {
        case Restamp(ts) => RestampKeepsInv(s, id, ts);
        case Adopt(ev) => AdoptKeepsInv(s, id, ev);
        case Discard => DiscardKeepsInv(s, id);
        case SetHubUrl(url) => PendingStaysUrl(s, id, url);
        case SetState(state) => SettersKeepInv(s, id, op);
        case SetCommit(digest) => SettersKeepInv(s, id, op);
        case SetPush(list) => SettersKeepInv(s, id, op);
        case _ => BuildsKeepInv(s, id, op);
      }
    }
  }

  lemma {:induction false} SettersKeepInv(s: Suite, id: Identity, op: Op)
    requires Inv(s, id) && (op.SetState? || op.SetCommit? || op.SetPush?) && Apply(s, id, op).Ok?
    ensures Keeps(s, id, Apply(s, id, op).value)
  {
    var next := Apply(s, id, op).value;
    if id.pending.Some? {
      var p := id.pending.value;
      if p.event.Some? {
        SameMaterial(s, id, next, p, p, WitnessIn(p.event.value.event), p.event.value.event.timestamp);
      }
    }
  }

  lemma {:induction false} DiscardKeepsInv(s: Suite, id: Identity)
    requires Inv(s, id) && DiscardPending(id).Ok?
    ensures Inv(s, DiscardPending(id).value) && (Complete(id) ==> Complete(DiscardPending(id).value))
  {
  }

  lemma {:induction false} PendingStaysUrl(s: Suite, id: Identity, url: string)
    requires Inv(s, id) && id.pending.Some?
    ensures Inv(s, id.(pending := Some(id.pending.value.(hubUrl := url))))
  {
    var p := id.pending.value;
    if p.event.Some? {
      SameMaterial(s, id, id, p, p.(hubUrl := url), WitnessIn(p.event.value.event), p.event.value.event.timestamp);
    }
  }

  /** What a caller of a Build method must get right beyond the committed key: the time and the witness. */
  predicate WellTimedAndWitnessed(s: Suite, id: Identity, p: Pending, w: string, ts: nat)
    requires id.accepted != []
  {
    && id.accepted[|id.accepted| - 1].event.timestamp < ts
    && (p.kind != PendingDip ==>
          if ToadOf(id.accepted) == TOAD_HUB then w == "" else w != "" && s.c.validAid(w) && w != id.aid)
  }

  /** With the committed key in hand, an event is built exactly when its time and witness are right. */
  lemma {:induction false} BuildSucceedsExactlyWhen(s: Suite, id: Identity, p: Pending, w: string, ts: nat)
    requires Lawful(s) && Inv(s, id) && id.accepted[|id.accepted| - 1].event.typ != Deactivation
    requires |p.revealed| == SEED_SIZE && s.c.sha(s.pub(p.revealed)) == Committed(id.accepted)
    requires p.kind != PendingDip ==> |p.next| == DIGEST_SIZE
    requires s.c.encode(EventOf(s, id, p, w, ts)).Some? && !s.c.smallOrder(s.pub(p.revealed))
    ensures BuildEvent(s, id, p, w, ts).Ok? <==> WellTimedAndWitnessed(s, id, p, w, ts)
  {
    var e := EventOf(s, id, p, w, ts);
    var pre := s.c.encode(e).value;
    var ev := SignedEvent(e, s.sign(p.revealed, pre), s.c.cid(pre));
    AppendReplays(s.c, id.accepted, ev);
    ReplaysIsOk(s.c, id.accepted + [ev]);
    LastIsEstablishment(s.c, id.accepted);
    CommittedIsLast(id.accepted);
    assert CheckSeal(s.c, ev).None?;
    assert BuildEvent(s, id, p, w, ts).Ok? <==> CheckSuccessor(s.c, e, id.aid, ToadOf(id.accepted), id.accepted[|id.accepted| - 1]).None?;
  }

  // ---- whole runs ----

  function Run(s: Suite, id: Identity, ops: seq<Op>): Identity
    requires Inv(s, id)
    decreases |ops|
  {
    if ops == [] then id
    else
      StepKeepsInv(s, id, ops[0]);
      Run(s, After(s, id, ops[0]), ops[1..])
  }

  /** The log a controller signs under always replays to its AID and extends what its witness accepted. */
  lemma {:induction false} LogReplays(s: Suite, id: Identity)
    requires Inv(s, id)
    ensures Replays(s.c, id.Log()) && id.Log()[0].eventId == id.aid
    ensures id.accepted <= id.Log() && |id.Log()| <= |id.accepted| + 1
    ensures id.CurrentSeq() == |id.Log()| - 1 == id.Log()[|id.Log()| - 1].event.seqNo
    ensures id.SigningKey().Some? ==> |id.SigningKey().value| == SEED_SIZE
                                      && [s.pub(id.SigningKey().value)] == id.Log()[|id.Log()| - 1].event.keys
  {
    if id.Publishing() {
      var p := id.pending.value;
      BuiltEventReplays(s, id, p, WitnessIn(p.event.value.event), p.event.value.event.timestamp);
    }
    SequenceNumbers(s.c, id.Log(), |id.Log()| - 1);
  }

  /** What a life from an inception has come to. */
  function Life(s: Suite, k0: Bytes, k1: Bytes, ts: nat, toad: nat, ops: seq<Op>): Identity
    requires |k0| == SEED_SIZE && |k1| == SEED_SIZE && Incept(s, k0, k1, ts, toad).Ok?
  {
    InceptionIsComplete(s, k0, k1, ts, toad);
    Run(s, Incept(s, k0, k1, ts, toad).value, ops)
  }

  /** Run safety: accepted events are never taken back, and every state along the way keeps the invariant. */
  lemma {:induction false} RunIsSafe(s: Suite, id: Identity, ops: seq<Op>)
    requires Inv(s, id)
    ensures Inv(s, Run(s, id, ops)) && (Complete(id) ==> Complete(Run(s, id, ops)))
    ensures id.accepted <= Run(s, id, ops).accepted && Run(s, id, ops).aid == id.aid
    decreases |ops|
  {
    if ops != [] {
      StepKeepsInv(s, id, ops[0]);
      RunIsSafe(s, After(s, id, ops[0]), ops[1..]);
    }
  }

  /**
   From inception on, whatever was done: the log replays to the AID, and a signature made now verifies under it
   at any message time exactly when the log does not end in a deactivation.
   */
  lemma {:induction false} EverySignatureVerifies(
    s: Suite, k0: Bytes, k1: Bytes, ts: nat, toad: nat, ops: seq<Op>, pre: Bytes, msgTime: nat)
    requires Lawful(s) && |k0| == SEED_SIZE && |k1| == SEED_SIZE && Incept(s, k0, k1, ts, toad).Ok?
    ensures var now := Life(s, k0, k1, ts, toad, ops);
      && Inv(s, now) && now.SigningKey().Some? && now.aid == Incept(s, k0, k1, ts, toad).value.aid
      && Replays(s.c, now.Log()) && now.accepted <= now.Log()
      && (VerifyObject(s.c, now.Log(), now.aid, now.CurrentSeq(), msgTime, pre, s.sign(now.SigningKey().value, pre)).None?
          <==> now.Log()[|now.Log()| - 1].event.typ != Deactivation)
  {
    InceptionIsComplete(s, k0, k1, ts, toad);
    var id := Incept(s, k0, k1, ts, toad).value;
    RunIsSafe(s, id, ops);
    var now := Life(s, k0, k1, ts, toad, ops);
    LogReplays(s, now);
    AcceptedMeansVerified(s.c, now.Log(), now.aid, now.CurrentSeq(), msgTime, pre, s.sign(now.SigningKey().value, pre));
  }

  /** A designation the hub refused leaves no trace. */
  lemma {:induction false} DesignateThenDiscard(s: Suite, id: Identity, w: string, next: Bytes, ts: nat)
    requires Inv(s, id) && BuildDesignation(s, id, w, next, ts).Ok?
    ensures DiscardPending(BuildDesignation(s, id, w, next, ts).value) == Ok(id)
  {
  }

  /** Only a designation can be taken back: any other pending event may have been accepted. */
  lemma {:induction false} OnlyDesignationsAreDiscarded(s: Suite, id: Identity)
    requires Inv(s, id) && id.pending.Some? && Complete(id)
    ensures DiscardPending(id).Ok? <==> id.pending.value.kind == PendingWitness
  {
    if id.pending.value.kind == PendingWitness {
      var p := id.pending.value;
      BuiltEventReplays(s, id, p, WitnessIn(p.event.value.event), p.event.value.event.timestamp);
    }
  }

  /** Rebuilding a pending event changes its time only. */
  lemma {:induction false} RestampKeepsMaterial(s: Suite, id: Identity, ts: nat)
    requires Inv(s, id) && Complete(id) && RestampAt(s, id, ts).Ok?
    ensures var was, now := id.pending.value.event.value.event, RestampAt(s, id, ts).value.pending.value.event.value.event;
      now == was.(timestamp := ts)
  {
    var p := id.pending.value;
    BuiltEventReplays(s, id, p, WitnessIn(p.event.value.event), p.event.value.event.timestamp);
    BuiltEventReplays(s, id, p, RestampWitness(id), ts);
  }

  // ---- what a built event holds ----

  /** An event of this type, with these keys, next digest, witnesses and flag, after the log of id. */
  function Follows(
    id: Identity, typ: EventType, keys: seq<Bytes>, next: Bytes, ts: nat, witnesses: seq<string>, toad: Option<nat>,
    emergency: bool): KeyEvent
    requires id.accepted != []
  {
    KeyEvent("anet.kel/2", id.accepted[0].eventId, |id.accepted|, id.accepted[|id.accepted| - 1].eventId,
             typ, keys, next, 1, ts, witnesses, toad, emergency)
  }

  /** now is id with e pending, signed by key, made from this material; nothing else of id changed. */
  predicate NowPending(s: Suite, id: Identity, now: Identity, kind: Kind, key: Bytes, next: Bytes, e: KeyEvent)
  {
    && s.c.encode(e).Some?
    && var pre := s.c.encode(e).value;
    now == id.(pending := Some(Pending(kind, key, next, "", e.emergency, e.timestamp,
                                       Some(SignedEvent(e, s.sign(key, pre), s.c.cid(pre))))))
  }

  lemma {:induction false} LogFacts(s: Suite, id: Identity)
    requires Inv(s, id)
    ensures id.accepted[|id.accepted| - 1].event.seqNo == |id.accepted| - 1
    ensures id.accepted[0].event.toad == Some(ToadOf(id.accepted)) && ToadOf(id.accepted) in {TOAD_HUB, TOAD_AGENT}
  {
    SequenceNumbers(s.c, id.accepted, |id.accepted| - 1);
    assert CheckAt(s.c, id.accepted, 0).None?;
  }

  lemma {:induction false} BuiltNamesItsWitness(s: Suite, id: Identity, p: Pending, w: string, ts: nat)
    requires Inv(s, id) && BuildEvent(s, id, p, w, ts).Ok? && p.kind != PendingDip
    ensures ToadOf(id.accepted) == TOAD_HUB <==> w == ""
  {
    var ev := BuildEvent(s, id, p, w, ts).value;
    var log := id.accepted + [ev];
    BuiltEventReplays(s, id, p, w, ts);
    assert CheckAt(s.c, log, |log| - 1).None?;
    assert ToadOf(log) == ToadOf(id.accepted);
    LogFacts(s, id);
  }

  /** A rotation reveals the key and commits the digest that the caller gave, and names the witness it gave. */
  lemma {:induction false} RotationHoldsItsArguments(
    s: Suite, id: Identity, revealed: Option<Bytes>, next: Bytes, w: string, emergency: bool, ts: nat)
    requires Inv(s, id) && Apply(s, id, Rotate(revealed, next, w, emergency, ts)).Ok?
    ensures revealed.Some? || id.hot.Some?
    ensures var key := if revealed.Some? then revealed.value else id.hot.value;
      var toad := id.accepted[0].event.toad;
      NowPending(s, id, Apply(s, id, Rotate(revealed, next, w, emergency, ts)).value, PendingRot, key, next,
                 Follows(id, Rotation, [s.pub(key)], next, ts, if toad == Some(TOAD_HUB) then [] else [w], toad, emergency))
  {
    var p := Fresh(PendingRot, Revealing(s, id, revealed).value, next, emergency, ts);
    LogFacts(s, id);
    BuiltNamesItsWitness(s, id, p, w, ts);
  }

  /** A designation reveals the hot key, commits the digest and names the hub, and is no emergency. */
  lemma {:induction false} DesignationHoldsItsArguments(s: Suite, id: Identity, w: string, next: Bytes, ts: nat)
    requires Inv(s, id) && Apply(s, id, Designate(w, next, ts)).Ok?
    ensures id.hot.Some? && id.accepted[0].event.toad == Some(TOAD_AGENT)
    ensures NowPending(s, id, Apply(s, id, Designate(w, next, ts)).value, PendingWitness, id.hot.value, next,
                       Follows(id, Rotation, [s.pub(id.hot.value)], next, ts, [w], Some(TOAD_AGENT), false))
  {
    LogFacts(s, id);
    BuiltNamesItsWitness(s, id, Fresh(PendingWitness, id.hot.value, next, false, ts), w, ts);
  }

  /** A deactivation reveals the key and commits nothing. */
  lemma {:induction false} DeactivationHoldsItsArguments(s: Suite, id: Identity, revealed: Option<Bytes>, ts: nat)
    requires Inv(s, id) && Apply(s, id, Deactivate(revealed, ts)).Ok?
    ensures revealed.Some? || id.hot.Some?
    ensures var key := if revealed.Some? then revealed.value else id.hot.value;
      NowPending(s, id, Apply(s, id, Deactivate(revealed, ts)).value, PendingDip, key, [],
                 Follows(id, Deactivation, [s.pub(key)], [], ts, [], None, false))
  {
    LogFacts(s, id);
  }

  /** The inception commits the hot key, and the identity holds both keys. */
  lemma {:induction false} InceptionHoldsItsArguments(s: Suite, k0: Bytes, k1: Bytes, ts: nat, toad: nat)
    requires Incept(s, k0, k1, ts, toad).Ok?
    ensures var icp := KeyEvent("anet.kel/2", "", 0, "", Inception, [s.pub(k0)], s.c.sha(s.pub(k1)), 1, ts, [], Some(toad), false);
      && s.c.encode(icp).Some?
      && var pre := s.c.encode(icp).value;
      Incept(s, k0, k1, ts, toad).value
      == Identity(s.c.cid(pre), [SignedEvent(icp, s.sign(k0, pre), s.c.cid(pre))], Some(k0), Some(k1), None, [], "ok", None)
  {
  }

  /** What accepting the pending event leaves behind: one more event, its key as the current one, nothing pending. */
  lemma {:induction false} AdoptionMovesOn(s: Suite, id: Identity, ev: SignedEvent)
    requires id.accepted != [] && id.pending.Some? && id.pending.value.event == Some(ev)
    ensures Apply(s, id, Adopt(ev))
            == Ok(Identity(id.aid, id.accepted + [ev], Some(id.pending.value.revealed), None, None, id.push, id.state, id.localCommit))
  {
  }

  /**
   Pre-rotation, seen from the holder: once a rotation that committed the digest next is adopted, a key can be
   revealed next, by a rotation or a deactivation, exactly when next is its digest. The current key cannot.
   */
  lemma {:induction false} OnlyTheCommittedKeyComesNext(
    s: Suite, id: Identity, revealed: Option<Bytes>, next: Bytes, w: string, emergency: bool, ts: nat, now: Identity,
    key: Bytes, then_: Op)
    requires Inv(s, id) && Apply(s, id, Rotate(revealed, next, w, emergency, ts)).Ok?
    requires var built := Apply(s, id, Rotate(revealed, next, w, emergency, ts)).value;
      built.Publishing() && built.accepted != [] && Apply(s, built, Adopt(built.pending.value.event.value)) == Ok(now)
    requires |key| == SEED_SIZE && (then_.Rotate? || then_.Deactivate?) && then_.revealed == Some(key)
    ensures now.accepted != [] && (Apply(s, now, then_) == Err(RecoveryMismatch) <==> s.c.sha(s.pub(key)) != next)
  {
    RotationHoldsItsArguments(s, id, revealed, next, w, emergency, ts);
    CommittedIsLast(now.accepted);
  }

  // ---- the object ----

  class Controller {
    const s: Suite
    var aid: string
    var kel: seq<SignedEvent>
    var cur: Option<Bytes>
    var hot: Option<Bytes>
    var pending: Option<Pending>
    var push: seq<WitnessPush>
    var state: string
    var localCommit: Option<Bytes>

    function Value(): Identity
      reads this
    {
      Identity(aid, kel, cur, hot, pending, push, state, localCommit)
    }

    constructor Load(s: Suite, id: Identity)
      ensures this.s == s && Value() == id
    {
      this.s, aid, kel, cur, hot := s, id.aid, id.accepted, id.cur, id.hot;
      pending, push, state, localCommit := id.pending, id.push, id.state, id.localCommit;
    }

    method Kel() returns (log: seq<SignedEvent>)
      ensures log == Value().Log()
    {
      log := kel;
      if pending.Some? && pending.value.event.Some? {
        log := log + [pending.value.event.value];
      }
    }

    method Sign(pre: Bytes) returns (sig: Option<Bytes>, seqNo: nat)
      requires kel != []
      ensures seqNo == Value().CurrentSeq()
      ensures sig == if Value().SigningKey().None? then None else Some(s.sign(Value().SigningKey().value, pre))
    {
      var key := cur;
      seqNo := kel[|kel| - 1].event.seqNo;
      if pending.Some? && pending.value.event.Some? {
        key, seqNo := Some(pending.value.revealed), pending.value.event.value.event.seqNo;
      }
      if key.None? {
        return None, seqNo;
      }
      sig := Some(s.sign(key.value, pre));
    }

    method MakeEvent(p: Pending, witnessAid: string, ts: nat) returns (r: Result<SignedEvent, Refused>)
      requires kel != []
      ensures r == BuildEvent(s, Value(), p, witnessAid, ts)
    {
      var last := kel[|kel| - 1];
      var e := KeyEvent(KEL_TYPE, aid, last.event.seqNo + 1, last.eventId, Deactivation, [s.pub(p.revealed)], [],
                        1, ts, [], None, false);
      if p.kind != PendingDip {
        e := e.(typ := Rotation, nextDigest := p.next, toad := Some(ToadOf(kel)), emergency := p.emergency);
        if witnessAid != "" {
          e := e.(witnesses := [witnessAid]);
        }
      }
      var pre := s.c.encode(e);
      if pre.None? {
        return Err(DoesNotEncode);
      }
      var ev := SignedEvent(e, s.sign(p.revealed, pre.value), s.c.cid(pre.value));
      var replay := Replay(s.c, kel + [ev]);
      r := if replay.Ok? then Ok(ev) else Err(DoesNotReplay);
    }

    /** Builds p's event and makes p the pending event. */
    method MakePending(p: Pending, witnessAid: string, ts: nat) returns (r: Result<SignedEvent, Refused>)
      requires kel != []
      modifies this`pending
      ensures r.Ok? <==> Build(s, old(Value()), p, witnessAid, ts).Ok?
      ensures r.Ok? ==> Build(s, old(Value()), p, witnessAid, ts) == Ok(Value()) && r == Ok(Value().pending.value.event.value)
      ensures r.Err? ==> Build(s, old(Value()), p, witnessAid, ts) == Err(r.error) && Value() == old(Value())
    {
      if p.kind != PendingDip && |p.next| != DIGEST_SIZE {
        return Err(BadNextDigest);
      }
      r := MakeEvent(p, witnessAid, ts);
      if r.Ok? {
        pending := Some(p.(event := Some(r.value)));
      }
    }

    method BuildWitnessDesignation(witnessAid: string, next: Bytes, ts: nat) returns (r: Result<SignedEvent, Refused>)
      requires kel != []
      modifies this`pending
      ensures Value() == After(s, old(Value()), Designate(witnessAid, next, ts))
      ensures match Apply(s, old(Value()), Designate(witnessAid, next, ts))
              case Ok(now) => now.Publishing() && r == Ok(now.pending.value.event.value)
              case Err(e) => r == Err(e)
    {
      var problem := CannotBuild(Value());
      if problem.Some? {
        return Err(problem.value);
      }
      if ToadOf(kel) != TOAD_AGENT {
        return Err(NotAgent);
      }
      if |kel| != 1 {
        return Err(AlreadyDesignated);
      }
      if hot.None? {
        return Err(NoHotKey);
      }
      if !s.c.validAid(witnessAid) {
        return Err(BadWitness);
      }
      r := MakePending(Fresh(PendingWitness, hot.value, next, false, ts), witnessAid, ts);
    }

    method BuildRot(revealed: Option<Bytes>, next: Bytes, witnessAid: string, emergency: bool, ts: nat)
      returns (r: Result<SignedEvent, Refused>)
      requires kel != []
      modifies this`pending
      ensures Value() == After(s, old(Value()), Rotate(revealed, next, witnessAid, emergency, ts))
      ensures match Apply(s, old(Value()), Rotate(revealed, next, witnessAid, emergency, ts))
              case Ok(now) => now.Publishing() && r == Ok(now.pending.value.event.value)
              case Err(e) => r == Err(e)
    {
      var problem := CannotBuild(Value());
      if problem.Some? {
        return Err(problem.value);
      }
      if revealed.None? && ToadOf(kel) == TOAD_AGENT {
        return Err(HotKeyOnlyByDesignation);
      }
      var key := Revealing(s, Value(), revealed);
      if key.Err? {
        return Err(key.error);
      }
      if ToadOf(kel) == TOAD_HUB && witnessAid != "" {
        return Err(HubNamesNoWitness);
      }
      r := MakePending(Fresh(PendingRot, key.value, next, emergency, ts), witnessAid, ts);
    }

    method BuildDip(revealed: Option<Bytes>, ts: nat) returns (r: Result<SignedEvent, Refused>)
      requires kel != []
      modifies this`pending
      ensures Value() == After(s, old(Value()), Deactivate(revealed, ts))
      ensures match Apply(s, old(Value()), Deactivate(revealed, ts))
              case Ok(now) => now.Publishing() && r == Ok(now.pending.value.event.value)
              case Err(e) => r == Err(e)
    {
      var problem := CannotBuild(Value());
      if problem.Some? {
        return Err(problem.value);
      }
      var key := Revealing(s, Value(), revealed);
      if key.Err? {
        return Err(key.error);
      }
      r := MakePending(Fresh(PendingDip, key.value, [], false, ts), "", ts);
    }

    method RestampPending(ts: nat) returns (r: Result<SignedEvent, Refused>)
      requires kel != [] && Replays(s.c, kel)
      modifies this`pending
      ensures Value() == After(s, old(Value()), Restamp(ts))
      ensures match Apply(s, old(Value()), Restamp(ts))
              case Ok(now) => now.Publishing() && r == Ok(now.pending.value.event.value)
              case Err(e) => r == Err(e)
    {
      if pending.None? {
        return Err(NothingPending);
      }
      if state != STATE_OK {
        return Err(WrongState);
      }
      var p := pending.value;
      var witnessAid := WitnessForRestamp();
      r := MakeEvent(p, witnessAid, ts);
      if r.Ok? {
        pending := Some(p.(event := Some(r.value)));
      }
    }

    method WitnessForRestamp() returns (witnessAid: string)
      requires kel != [] && Replays(s.c, kel) && pending.Some?
      ensures witnessAid == RestampWitness(Value())
    {
      var p := pending.value;
      witnessAid := "";
      if p.event.Some? && |p.event.value.event.witnesses| == 1 {
        witnessAid := p.event.value.event.witnesses[0];
      } else if p.event.None? && p.kind != PendingDip && ToadOf(kel) == TOAD_AGENT {
        ReplaysIsOk(s.c, kel);
        var states := Replay(s.c, kel);
        witnessAid := states.value[|kel| - 1].witnessAid;
      }
    }

    method AdoptPending(ev: SignedEvent) returns (r: Option<Refused>)
      requires kel != []
      modifies this
      ensures Value() == After(s, old(Value()), Adopt(ev))
      ensures r == match Apply(s, old(Value()), Adopt(ev)) case Ok(_) => None case Err(e) => Some(e)
    {
      if pending.None? || pending.value.event.None? {
        return Some(NothingPending);
      }
      var p := pending.value;
      if ev != p.event.value {
        return Some(NotThePendingEvent);
      }
      kel := kel + [p.event.value];
      cur := Some(p.revealed);
      hot := None;
      pending := None;
      r := None;
    }

    method Drop() returns (r: Option<Refused>)
      requires kel != []
      modifies this`pending
      ensures Value() == After(s, old(Value()), Discard)
      ensures r == match Apply(s, old(Value()), Discard) case Ok(_) => None case Err(e) => Some(e)
    {
      if pending.None? {
        return Some(NothingPending);
      }
      var p, last := pending.value, kel[|kel| - 1];
      if p.kind != PendingWitness || p.event.None? || hot.None? || |kel| != 1
         || p.event.value.event.seqNo != last.event.seqNo + 1 || p.event.value.event.prev != last.eventId {
        return Some(DiscardRefused);
      }
      pending := None;
      r := None;
    }
  }
}
