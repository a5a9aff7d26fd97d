/** Witness notices. */
module Notices {
  // A hub's signed statement of the tip of the log it holds for an agent.

  import opened Octets
  import opened Kel
  import opened Control

  const NOTICE_TYPE := "anet.ksn/1"
  const NOTICE_MAX_AGE: nat := 6 * 60 * 60 * 1000
  const ALG_EDDSA: int := -8

  datatype NoticeBody = NoticeBody(
    typ: string, aid: string, seqNo: nat, head: string, observedAt: nat, witnessAid: string)

  datatype Envelope = Envelope(signerAid: string, keyStateSeq: nat, alg: int, sig: Bytes, preimageRef: string)

  datatype NoticeWire = NoticeWire(body: Bytes, env: Envelope)

  datatype NoticeCodec = NoticeCodec(
    marshalWire: NoticeWire -> Option<Bytes>,
    unmarshalWire: Bytes -> Option<NoticeWire>,
    marshalBody: NoticeBody -> Option<Bytes>,
    unmarshalBody: Bytes -> Option<NoticeBody>)

  ghost predicate Faithful(k: NoticeCodec)
  {
    && (forall w :: k.marshalWire(w).Some? ==> k.unmarshalWire(k.marshalWire(w).value) == Some(w))
    && (forall b :: k.marshalBody(b).Some? ==> k.unmarshalBody(k.marshalBody(b).value) == Some(b))
  }

  datatype NoticeError = NoticeInvalid | NoticeMissing | NoticeMismatch | UnknownWitness | NoticeStale | SubjectDoesNotReplay

  function DecodeNotice(k: NoticeCodec, b: Bytes): Option<(NoticeWire, NoticeBody)>
  {
    match k.unmarshalWire(b)
    case None => None
    case Some(w) =>
      if k.marshalWire(w) != Some(b) || w.env.preimageRef != "" || w.env.alg != ALG_EDDSA || |w.env.sig| != SIG_SIZE
      then None
      else match k.unmarshalBody(w.body)
        case None => None
        case Some(body) =>
          if k.marshalBody(body) != Some(w.body) || body.typ != NOTICE_TYPE then None else Some((w, body))
  }

  /** Step 5: the hub's log is held as far as the notice's key state, and under it the signature stands. */
  function WitnessProblem(c: Crypto, w: NoticeWire, body: NoticeBody, hubKel: Option<seq<SignedEvent>>, arrival: nat)
    : Option<NoticeError>
  {
    if hubKel.None? || hubKel.value == [] || w.env.keyStateSeq >= |hubKel.value| then Some(UnknownWitness)
    else match ReplayResult(c, hubKel.value)
      case Err(_) => Some(NoticeInvalid)
      case Ok(states) =>
        if states[|states| - 1].toad != TOAD_HUB then Some(NoticeInvalid)
        else if VerifyObject(c, hubKel.value, body.witnessAid, w.env.keyStateSeq, body.observedAt, w.body, w.env.sig).Some?
          then Some(NoticeInvalid)
        else
          var ws := states[w.env.keyStateSeq];
          if ws.status != Active && !RetiredUsableAt(ws, arrival) then Some(NoticeInvalid) else None
  }

  function StaleAt(observedAt: nat, arrival: nat): bool
  {
    (observedAt > arrival && observedAt - arrival > EVENT_CLOCK_WINDOW)
    || (arrival > observedAt && arrival - observedAt > NOTICE_MAX_AGE)
  }

  function VerifyNotice(
    c: Crypto, k: NoticeCodec, b: Bytes, subject: seq<SignedEvent>,
    hubKels: string -> Option<seq<SignedEvent>>, arrival: nat): Option<NoticeError>
  {
    match DecodeNotice(k, b)
    case None => Some(NoticeInvalid)
    case Some((w, body)) =>
      match ReplayResult(c, subject)
      case Err(_) => Some(SubjectDoesNotReplay)
      case Ok(states) =>
        var tip := states[|states| - 1];
        if tip.toad != TOAD_AGENT || tip.witnessAid == "" then Some(NoticeMissing)
        else if body.aid != tip.aid || body.seqNo != tip.keyStateSeq || body.head != tip.lastEventId then Some(NoticeMismatch)
        else if body.witnessAid != tip.witnessAid || w.env.signerAid != body.witnessAid then Some(NoticeInvalid)
        else if WitnessProblem(c, w, body, hubKels(body.witnessAid), arrival).Some?
          then WitnessProblem(c, w, body, hubKels(body.witnessAid), arrival)
        else if StaleAt(body.observedAt, arrival) then Some(NoticeStale)
        else None
  }

  /** What an accepted notice establishes. */
  lemma {:induction false} AcceptedNotice(
    c: Crypto, k: NoticeCodec, b: Bytes, subject: seq<SignedEvent>,
    hubKels: string -> Option<seq<SignedEvent>>, arrival: nat)
    requires VerifyNotice(c, k, b, subject, hubKels, arrival).None?
    ensures DecodeNotice(k, b).Some? && Replays(c, subject)
    ensures var (w, body) := DecodeNotice(k, b).value;
      && body.aid == subject[0].eventId && body.seqNo == |subject| - 1 && body.head == subject[|subject| - 1].eventId
      && body.witnessAid == WitnessAt(subject, |subject| - 1)
      && hubKels(body.witnessAid).Some?
      && VerifyObject(c, hubKels(body.witnessAid).value, body.witnessAid, w.env.keyStateSeq, body.observedAt, w.body, w.env.sig).None?
      && k.marshalBody(body) == Some(w.body)
      && arrival <= body.observedAt + NOTICE_MAX_AGE && body.observedAt <= arrival + EVENT_CLOCK_WINDOW
  {
    ReplaysIsOk(c, subject);
    assert States(subject)[|subject| - 1] == StateAt(subject, |subject| - 1);
  }

  /** b is the strict encoding of a signed notice: wire w, with body inside. */
  predicate IsNotice(k: NoticeCodec, b: Bytes, w: NoticeWire, body: NoticeBody)
  {
    && k.unmarshalWire(b) == Some(w) && k.marshalWire(w) == Some(b)
    && w.env.alg == -8 && w.env.preimageRef == "" && |w.env.sig| == 64
    && k.unmarshalBody(w.body) == Some(body) && k.marshalBody(body) == Some(w.body) && body.typ == "anet.ksn/1"
  }

  /** The notice is about the tip of an agent's log and comes from the witness that log names. */
  predicate MatchesTip(c: Crypto, w: NoticeWire, body: NoticeBody, subject: seq<SignedEvent>)
  {
    && Replays(c, subject) && subject[0].event.toad == Some(TOAD_AGENT)
    && body.aid == subject[0].eventId && body.seqNo == |subject| - 1 && body.head == subject[|subject| - 1].eventId
    && body.witnessAid == w.env.signerAid == WitnessAt(subject, |subject| - 1) && body.witnessAid != ""
  }

  /** Under the hub's log the signature stands at its own time, and its key is not out of grace at the arrival. */
  predicate HubVouches(c: Crypto, w: NoticeWire, body: NoticeBody, hub: seq<SignedEvent>, arrival: nat)
  {
    var i := w.env.keyStateSeq;
    && Accepted(c, hub, body.witnessAid, i, body.observedAt, w.body, w.env.sig) && hub[0].event.toad == Some(TOAD_HUB)
    && (i < |hub| - 1 ==>
          var e := hub[i + 1].event;
          arrival <= e.timestamp + (if e.typ == Rotation && !e.emergency then 3_600_000 else 0))
  }

  /** A notice passes exactly when it is one, matches the tip, is vouched for by the hub, and is fresh. */
  lemma {:induction false} PassesExactlyWhen(
    c: Crypto, k: NoticeCodec, b: Bytes, subject: seq<SignedEvent>,
    hubKels: string -> Option<seq<SignedEvent>>, arrival: nat)
    ensures VerifyNotice(c, k, b, subject, hubKels, arrival).None? <==>
      exists w, body ::
        && IsNotice(k, b, w, body) && MatchesTip(c, w, body, subject)
        && hubKels(body.witnessAid).Some? && HubVouches(c, w, body, hubKels(body.witnessAid).value, arrival)
        && body.observedAt <= arrival + 300_000 && arrival <= body.observedAt + 21_600_000
  {
    NoticeExactly(k, b);
    ReplaysIsOk(c, subject);
    if DecodeNotice(k, b).Some? && Replays(c, subject) {
      var (w, body) := DecodeNotice(k, b).value;
      TipMatches(c, w, body, subject);
      if hubKels(body.witnessAid).Some? { HubExactly(c, w, body, hubKels(body.witnessAid).value, arrival); }
    }
  }

  lemma {:induction false} NoticeExactly(k: NoticeCodec, b: Bytes)
    ensures forall w, body :: DecodeNotice(k, b) == Some((w, body)) <==> IsNotice(k, b, w, body)
  {
  }

  lemma {:induction false} TipMatches(c: Crypto, w: NoticeWire, body: NoticeBody, subject: seq<SignedEvent>)
    requires Replays(c, subject)
    ensures ReplayResult(c, subject).Ok?
    ensures var tip := ReplayResult(c, subject).value[|subject| - 1];
      MatchesTip(c, w, body, subject) <==>
        && tip.toad == TOAD_AGENT && tip.witnessAid != ""
        && body.aid == tip.aid && body.seqNo == tip.keyStateSeq && body.head == tip.lastEventId
        && body.witnessAid == tip.witnessAid && w.env.signerAid == body.witnessAid
  {
    TipState(c, subject);
    StatesMean(c, subject, |subject| - 1);
  }

  lemma {:induction false} HubExactly(c: Crypto, w: NoticeWire, body: NoticeBody, hub: seq<SignedEvent>, arrival: nat)
    ensures WitnessProblem(c, w, body, Some(hub), arrival).None? <==> HubVouches(c, w, body, hub, arrival)
  {
    var i := w.env.keyStateSeq;
    AcceptedMeansVerified(c, hub, body.witnessAid, i, body.observedAt, w.body, w.env.sig);
    ReplaysIsOk(c, hub);
    if Replays(c, hub) && i < |hub| {
      StatesMean(c, hub, |hub| - 1);
      StatesMean(c, hub, i);
      GraceExactly(c, hub, i, arrival);
      assert States(hub)[i] == StateAt(hub, i);
    }
  }

  // ---- signing ----

  /** A hub signs a body; type and witness may be left empty. Signer is a snapshot of the hub's identity. */
  function SignNotice(s: Suite, k: NoticeCodec, hub: Identity, body: NoticeBody): Option<Bytes>
  {
    if hub.accepted == [] || hub.accepted[0].event.toad != Some(TOAD_HUB) then None
    else if body.typ != "" && body.typ != NOTICE_TYPE then None
    else if body.witnessAid != "" && body.witnessAid != hub.aid then None
    else if !s.c.validAid(body.aid) || body.head == "" || body.observedAt == 0 then None
    else match k.marshalBody(body.(typ := NOTICE_TYPE, witnessAid := hub.aid))
      case None => None
      case Some(pre) =>
        if hub.SigningKey().None? then None
        else
          var sig := s.sign(hub.SigningKey().value, pre);
          if |sig| != SIG_SIZE then None
          else k.marshalWire(NoticeWire(pre, Envelope(hub.aid, hub.CurrentSeq(), ALG_EDDSA, sig, "")))
  }

  /**
   A notice an honest hub signs about the tip of an agent's log is accepted by everyone who holds the hub's log,
   at every arrival from five minutes before to six hours after the hub's clock.
   */
  lemma {:induction false} SignedNoticeIsAccepted(
    s: Suite, k: NoticeCodec, hub: Identity, subject: seq<SignedEvent>, observedAt: nat,
    hubKels: string -> Option<seq<SignedEvent>>, arrival: nat)
    requires Lawful(s) && Faithful(k) && Inv(s, hub) && hub.SigningKey().Some?
    requires ToadOf(hub.accepted) == TOAD_HUB && hub.Log()[|hub.Log()| - 1].event.typ != Deactivation
    requires Replays(s.c, subject) && ToadOf(subject) == TOAD_AGENT
    requires hub.aid != "" && WitnessAt(subject, |subject| - 1) == hub.aid && hubKels(hub.aid) == Some(hub.Log())
    requires var tip := NoticeBody("", subject[0].eventId, |subject| - 1, subject[|subject| - 1].eventId, observedAt, "");
      SignNotice(s, k, hub, tip).Some?
    ensures var tip := NoticeBody("", subject[0].eventId, |subject| - 1, subject[|subject| - 1].eventId, observedAt, "");
      VerifyNotice(s.c, k, SignNotice(s, k, hub, tip).value, subject, hubKels, arrival)
      == if StaleAt(observedAt, arrival) then Some(NoticeStale) else None
  {
    var tip := NoticeBody("", subject[0].eventId, |subject| - 1, subject[|subject| - 1].eventId, observedAt, "");
    var body := tip.(typ := NOTICE_TYPE, witnessAid := hub.aid);
    var pre := k.marshalBody(body).value;
    var sig := s.sign(hub.SigningKey().value, pre);
    var w := NoticeWire(pre, Envelope(hub.aid, hub.CurrentSeq(), ALG_EDDSA, sig, ""));
    SignedDecodes(s, k, hub, tip);
    LogReplays(s, hub);
    HubSignatureStands(s, hub, observedAt, pre, sig, w, body, arrival);
    TipState(s.c, subject);
    OnlyStaleness(s.c, k, SignNotice(s, k, hub, tip).value, w, body, subject, hubKels, arrival);
  }

  /** A notice that matches the tip and whose signature stands is refused only when stale. */
  lemma {:induction false} OnlyStaleness(
    c: Crypto, k: NoticeCodec, b: Bytes, w: NoticeWire, body: NoticeBody, subject: seq<SignedEvent>,
    hubKels: string -> Option<seq<SignedEvent>>, arrival: nat)
    requires DecodeNotice(k, b) == Some((w, body)) && ReplayResult(c, subject).Ok?
    requires var tip := ReplayResult(c, subject).value[|subject| - 1];
      && tip.toad == TOAD_AGENT && tip.witnessAid != "" && tip.witnessAid == body.witnessAid == w.env.signerAid
      && body.aid == tip.aid && body.seqNo == tip.keyStateSeq && body.head == tip.lastEventId
    requires WitnessProblem(c, w, body, hubKels(body.witnessAid), arrival).None?
    ensures VerifyNotice(c, k, b, subject, hubKels, arrival)
            == if StaleAt(body.observedAt, arrival) then Some(NoticeStale) else None
  {
  }

  lemma {:induction false} SignedDecodes(s: Suite, k: NoticeCodec, hub: Identity, body: NoticeBody)
    requires Faithful(k) && hub.accepted != [] && SignNotice(s, k, hub, body).Some?
    ensures var full := body.(typ := NOTICE_TYPE, witnessAid := hub.aid);
      && k.marshalBody(full).Some? && hub.SigningKey().Some?
      && var pre := k.marshalBody(full).value;
      var env := Envelope(hub.aid, hub.CurrentSeq(), ALG_EDDSA, s.sign(hub.SigningKey().value, pre), "");
      DecodeNotice(k, SignNotice(s, k, hub, body).value) == Some((NoticeWire(pre, env), full))
  {
  }

  /** A hub signs exactly a notice that could pass: about an AID, with a head and a time, its own or unnamed. */
  lemma {:induction false} SignsExactlyWhen(s: Suite, k: NoticeCodec, hub: Identity, body: NoticeBody)
    requires Lawful(s) && Inv(s, hub) && hub.SigningKey().Some?
    ensures var full := body.(typ := "anet.ksn/1", witnessAid := hub.aid);
      SignNotice(s, k, hub, body).Some? <==>
        && hub.accepted[0].event.toad == Some(TOAD_HUB)
        && body.typ in {"", "anet.ksn/1"} && body.witnessAid in {"", hub.aid}
        && s.c.validAid(body.aid) && body.head != "" && body.observedAt > 0
        && k.marshalBody(full).Some?
        && var pre := k.marshalBody(full).value;
        k.marshalWire(NoticeWire(pre, Envelope(hub.aid, hub.CurrentSeq(), -8, s.sign(hub.SigningKey().value, pre), ""))).Some?
  {
    LogReplays(s, hub);
  }

  lemma {:induction false} TipState(c: Crypto, kel: seq<SignedEvent>)
    requires Replays(c, kel)
    ensures kel != [] && ReplayResult(c, kel).Ok?
    ensures var n := |kel| - 1;
      var tip := ReplayResult(c, kel).value[n];
      && tip.toad == ToadOf(kel) && tip.witnessAid == WitnessAt(kel, n) && tip.aid == kel[0].eventId
      && tip.keyStateSeq == n && tip.lastEventId == kel[n].eventId
  {
    ReplaysIsOk(c, kel);
    assert States(kel)[|kel| - 1] == StateAt(kel, |kel| - 1);
  }

  lemma {:induction false} HubSignatureStands(
    s: Suite, hub: Identity, observedAt: nat, pre: Bytes, sig: Bytes, w: NoticeWire, body: NoticeBody, arrival: nat)
    requires Lawful(s) && Inv(s, hub) && hub.SigningKey().Some? && sig == s.sign(hub.SigningKey().value, pre)
    requires ToadOf(hub.accepted) == TOAD_HUB && hub.Log()[|hub.Log()| - 1].event.typ != Deactivation
    requires w.body == pre && w.env.sig == sig && w.env.keyStateSeq == hub.CurrentSeq()
    requires body.witnessAid == hub.aid && body.observedAt == observedAt
    ensures WitnessProblem(s.c, w, body, Some(hub.Log()), arrival).None?
  {
    LogReplays(s, hub);
    ReplaysIsOk(s.c, hub.Log());
    var n := |hub.Log()| - 1;
    assert States(hub.Log())[n] == StateAt(hub.Log(), n);
    AcceptedMeansVerified(s.c, hub.Log(), hub.aid, n, observedAt, pre, sig);
  }

  // ---- the impersonation window ----

  /** What a witness hub does: take a longer log of some agent, or sign the tip of one, each at its own clock. */
  datatype HubStep = Takes(at: nat, kel: seq<SignedEvent>) | Signs(at: nat, body: NoticeBody)

  predicate TakesFor(step: HubStep, aid: string)
  {
    step.Takes? && step.kel != [] && step.kel[0].eventId == aid
  }

  /** The log held for agent aid before step i. */
  function Held(history: seq<HubStep>, aid: string, i: nat): seq<SignedEvent>
    requires i <= |history|
  {
    if i == 0 then [] else if TakesFor(history[i - 1], aid) then history[i - 1].kel else Held(history, aid, i - 1)
  }

  /** The hub's clock does not run backwards, it replaces a log only by an extension, and signs only tips it holds. */
  predicate HonestHub(c: Crypto, history: seq<HubStep>)
  {
    forall i | 0 <= i < |history| :: HonestStep(c, history, i)
  }

  predicate HonestStep(c: Crypto, history: seq<HubStep>, i: nat)
    requires i < |history|
  {
    && (i > 0 ==> history[i - 1].at <= history[i].at)
    && match history[i]
       case Takes(_, kel) => kel != [] && ExtendsRel(c, Held(history, kel[0].eventId, i), kel)
       case Signs(at, body) =>
         var held := Held(history, body.aid, i);
         held != [] && body.seqNo == |held| - 1 && body.head == held[|held| - 1].eventId && body.observedAt == at
  }

  /** Notice b carries a signature that stands under the hub's log, over a body the hub never signed. */
  predicate Forges(
    c: Crypto, k: NoticeCodec, b: Bytes, hubAid: string, hubKel: Option<seq<SignedEvent>>, history: seq<HubStep>)
  {
    match DecodeNotice(k, b)
    case None => false
    case Some((w, body)) =>
      && hubKel.Some?
      && VerifyObject(c, hubKel.value, hubAid, w.env.keyStateSeq, body.observedAt, w.body, w.env.sig).None?
      && k.marshalBody(body) == Some(w.body)
      && forall i | 0 <= i < |history| :: history[i].Signs? ==> history[i].body != body
  }

  lemma {:induction false} HeldGrows(c: Crypto, history: seq<HubStep>, aid: string, i: nat, j: nat)
    requires HonestHub(c, history) && i <= j <= |history|
    ensures |Held(history, aid, i)| <= |Held(history, aid, j)|
    ensures i < j ==> history[i].at <= history[j - 1].at
    decreases j
  {
    if i < j {
      HeldGrows(c, history, aid, i, j - 1);
      assert HonestStep(c, history, j - 1);
    }
  }

  /** A tip is signed no later than the step that moves past it. */
  lemma {:induction false} SignedBefore(c: Crypto, history: seq<HubStep>, aid: string, i: nat, m: nat)
    requires HonestHub(c, history) && i < |history| && m < |history|
    requires history[i].Signs? && history[i].body.aid == aid
    requires TakesFor(history[m], aid) && |history[m].kel| > history[i].body.seqNo + 1
    ensures history[i].body.observedAt == history[i].at <= history[m].at
  {
    assert HonestStep(c, history, i);
    if m < i {
      HeldGrows(c, history, aid, m + 1, i);
    } else {
      HeldGrows(c, history, aid, i, m + 1);
    }
  }

  /**
   Once the witness hub moved past seq j of an agent, at step m, a log ending at j is confirmed for at most six more
   hours: a thief with the key of seq j cannot make any message arrive later with a notice that passes, unless that
   very notice is one the hub never signed. The hub may serve any number of agents meanwhile.
   */
  lemma {:induction false} ImpersonationWindow(
    c: Crypto, k: NoticeCodec, b: Bytes, subject: seq<SignedEvent>,
    hubKels: string -> Option<seq<SignedEvent>>, arrival: nat, history: seq<HubStep>, m: nat)
    requires HonestHub(c, history) && m < |history| && subject != []
    requires TakesFor(history[m], subject[0].eventId) && |history[m].kel| > |subject|
    requires VerifyNotice(c, k, b, subject, hubKels, arrival).None?
    ensures var hub := WitnessAt(subject, |subject| - 1);
      arrival <= history[m].at + NOTICE_MAX_AGE || Forges(c, k, b, hub, hubKels(hub), history)
  {
    AcceptedNotice(c, k, b, subject, hubKels, arrival);
    var body := DecodeNotice(k, b).value.1;
    if i :| 0 <= i < |history| && history[i].Signs? && history[i].body == body {
      SignedBefore(c, history, body.aid, i, m);
    }
  }

  /** Whether a merge added an emergency rotation to the log held before. */
  method MergedEmergency(old_: seq<SignedEvent>, next: seq<SignedEvent>) returns (r: bool)
    ensures r <==> exists i | |old_| <= i < |next| :: next[i].event.typ == Rotation && next[i].event.emergency
  {
    var i := |old_|;
    while i < |next|
      invariant |old_| <= i
      invariant forall j | |old_| <= j < i && j < |next| :: !(next[j].event.typ == Rotation && next[j].event.emergency)
    {
      var e := next[i].event;
      if e.typ == Rotation && e.emergency {
        return true;
      }
      i := i + 1;
    }
    r := false;
  }
}
