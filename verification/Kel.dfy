/** The pre-rotated key event log. */
module Kel {
  // Replaying a log, verifying objects against it, and extending it. The CoreDet encoding, SHA-256, the CID
  // and Ed25519 are the fields of Crypto.

  import opened Octets

  const KEL_TYPE := "anet.kel/2"
  const TOAD_HUB: nat := 0
  const TOAD_AGENT: nat := 1
  const ROTATION_GRACE: nat := 60 * 60 * 1000
  const EVENT_CLOCK_WINDOW: nat := 5 * 60 * 1000
  const DIGEST_SIZE: nat := 32
  const KEY_SIZE: nat := 32
  const SIG_SIZE: nat := 64

  type Digest = s: Bytes | |s| == DIGEST_SIZE witness seq(DIGEST_SIZE, _ => 0)

  /** A type name that is none of the three the log defines. */
  type OtherName = s: string | s != "icp" && s != "rot" && s != "dip"

  datatype EventType = Inception | Rotation | Deactivation | OtherType(name: OtherName)

  datatype KeyEvent = KeyEvent(
    kelType: string, aid: string, seqNo: nat, prev: string, typ: EventType, keys: seq<Bytes>, nextDigest: Bytes,
    threshold: nat, timestamp: nat, witnesses: seq<string>, toad: Option<nat>, emergency: bool)

  datatype SignedEvent = SignedEvent(event: KeyEvent, sig: Bytes, eventId: string)

  /** The calls into code outside this package. encode is coredet.Marshal, which may refuse an event. */
  datatype Crypto = Crypto(
    encode: KeyEvent -> Option<Bytes>,
    cid: Bytes -> string,
    sha: Bytes -> Digest,
    verify: (Bytes, Bytes, Bytes) -> bool,
    smallOrder: Bytes -> bool,
    validAid: string -> bool)

  /** One encoding belongs to one event. */
  ghost predicate Injective(c: Crypto)
  {
    forall x, y :: c.encode(x).Some? && c.encode(x) == c.encode(y) ==> x == y
  }

  datatype Status = Active | Rotated | Deactivated

  datatype KeyState = KeyState(
    aid: string, currentKeys: seq<Bytes>, keyStateSeq: nat, status: Status, lastEventId: string,
    toad: nat, witnessAid: string, supersededAt: nat, retiredUrgently: bool)

  datatype ReplayError =
    | EmptyKel | KelV1 | NotInception | InceptionSeq | InceptionLinked | InceptionShape
    | AidMismatch | SeqMismatch | PrevMismatch | AfterDeactivation | UnsupportedType
    | BadThreshold | BadKeys | SmallOrderKey | ZeroTime | TimeNotIncreasing
    | BadDigestLength | NoToad | BadToad | ToadChanged | BadWitnesses | BadDeactivation
    | DigestMismatch | Unencodable | BadEventId | BadSigLength | BadSignature

  // ---- the rules, one event at a time ----

  function CheckShape(c: Crypto, e: KeyEvent): Option<ReplayError>
  {
    if e.threshold != 1 then Some(BadThreshold)
    else if |e.keys| != 1 || |e.keys[0]| != KEY_SIZE then Some(BadKeys)
    else if c.smallOrder(e.keys[0]) then Some(SmallOrderKey)
    else if e.timestamp == 0 then Some(ZeroTime)
    else None
  }

  function CheckInception(c: Crypto, e: KeyEvent): Option<ReplayError>
  {
    if e.typ != Inception then Some(NotInception)
    else if e.seqNo != 0 then Some(InceptionSeq)
    else if e.aid != "" || e.prev != "" then Some(InceptionLinked)
    else if CheckShape(c, e).Some? then CheckShape(c, e)
    else if |e.nextDigest| != DIGEST_SIZE then Some(BadDigestLength)
    else if e.toad.None? then Some(NoToad)
    else if e.toad.value != TOAD_HUB && e.toad.value != TOAD_AGENT then Some(BadToad)
    else if e.witnesses != [] then Some(BadWitnesses)
    else if e.emergency then Some(InceptionShape)
    else None
  }

  function CheckRotation(c: Crypto, e: KeyEvent, aid: string, toad: nat): Option<ReplayError>
  {
    if |e.nextDigest| != DIGEST_SIZE then Some(BadDigestLength)
    else if e.toad.None? then Some(NoToad)
    else if e.toad.value != toad then Some(ToadChanged)
    else if toad == TOAD_HUB then (if e.witnesses != [] then Some(BadWitnesses) else None)
    else if |e.witnesses| != 1 || !c.validAid(e.witnesses[0]) || e.witnesses[0] == aid then Some(BadWitnesses)
    else None
  }

  function CheckDeactivation(e: KeyEvent): Option<ReplayError>
  {
    if e.nextDigest != [] || e.witnesses != [] || e.toad.Some? || e.emergency then Some(BadDeactivation) else None
  }

  /** Event id and signature: the id is the CID of the event, the signature is by the key it introduces. */
  function CheckSeal(c: Crypto, se: SignedEvent): Option<ReplayError>
    requires |se.event.keys| == 1
  {
    match c.encode(se.event)
    case None => Some(Unencodable)
    case Some(pre) =>
      if se.eventId != c.cid(pre) then Some(BadEventId)
      else if |se.sig| != SIG_SIZE then Some(BadSigLength)
      else if !c.verify(se.event.keys[0], pre, se.sig) then Some(BadSignature)
      else None
  }

  /** How event e must follow a log of AID aid and witness mode toad whose last entry is p. */
  function CheckSuccessor(c: Crypto, e: KeyEvent, aid: string, toad: nat, p: SignedEvent): (r: Option<ReplayError>)
    ensures r.None? ==> |e.keys| == 1
  {
    if e.aid != aid then Some(AidMismatch)
    else if e.seqNo != p.event.seqNo + 1 then Some(SeqMismatch)
    else if e.prev != p.eventId then Some(PrevMismatch)
    else if p.event.typ == Deactivation then Some(AfterDeactivation)
    else if e.typ != Rotation && e.typ != Deactivation then Some(UnsupportedType)
    else if CheckShape(c, e).Some? then CheckShape(c, e)
    else if e.timestamp <= p.event.timestamp then Some(TimeNotIncreasing)
    else if e.typ == Rotation && CheckRotation(c, e, aid, toad).Some? then CheckRotation(c, e, aid, toad)
    else if e.typ == Deactivation && CheckDeactivation(e).Some? then CheckDeactivation(e)
    else if c.sha(e.keys[0]) != p.event.nextDigest then Some(DigestMismatch)
    else None
  }

  /** What is wrong with event i, judged from the events themselves. */
  function CheckAt(c: Crypto, kel: seq<SignedEvent>, i: nat): (r: Option<ReplayError>)
    requires i < |kel|
    ensures r.None? ==> |kel[i].event.keys| == 1
  {
    var e := kel[i].event;
    if e.kelType != KEL_TYPE then Some(KelV1)
    else if i == 0 then
      if CheckInception(c, e).Some? then CheckInception(c, e) else CheckSeal(c, kel[i])
    else
      var problem := CheckSuccessor(c, e, kel[0].eventId, ToadOf(kel), kel[i - 1]);
      if problem.Some? then problem else CheckSeal(c, kel[i])
  }

  /** The witness mode the inception fixed. */
  function ToadOf(kel: seq<SignedEvent>): nat
    requires kel != []
  {
    if kel[0].event.toad.Some? then kel[0].event.toad.value else TOAD_HUB
  }

  function FirstError(c: Crypto, kel: seq<SignedEvent>, n: nat): Option<ReplayError>
    requires n <= |kel|
  {
    if n == 0 then None
    else if FirstError(c, kel, n - 1).Some? then FirstError(c, kel, n - 1)
    else CheckAt(c, kel, n - 1)
  }

  predicate Replays(c: Crypto, kel: seq<SignedEvent>)
  {
    kel != [] && forall i | 0 <= i < |kel| :: CheckAt(c, kel, i).None?
  }

  lemma {:induction false} NoFirstError(c: Crypto, kel: seq<SignedEvent>, n: nat)
    requires n <= |kel|
    ensures FirstError(c, kel, n).None? <==> forall i | 0 <= i < n :: CheckAt(c, kel, i).None?
  {
    if n > 0 { NoFirstError(c, kel, n - 1); }
  }

  lemma {:induction false} FirstErrorStays(c: Crypto, kel: seq<SignedEvent>, n: nat, m: nat)
    requires n <= m <= |kel| && FirstError(c, kel, n).Some?
    ensures FirstError(c, kel, m) == FirstError(c, kel, n)
    decreases m - n
  {
    if n < m { FirstErrorStays(c, kel, n + 1, m); }
  }

  // ---- key states ----

  /** The witness of the latest establishment event up to i. */
  function WitnessAt(kel: seq<SignedEvent>, i: nat): string
    requires i < |kel|
  {
    var e := kel[i].event;
    if e.typ == Deactivation && i > 0 then WitnessAt(kel, i - 1)
    else if e.typ == Rotation && |e.witnesses| == 1 then e.witnesses[0]
    else ""
  }

  /** The state after event i, before later events are taken into account. */
  function OwnState(kel: seq<SignedEvent>, i: nat): KeyState
    requires i < |kel|
  {
    var e := kel[i].event;
    var dip := e.typ == Deactivation;
    KeyState(kel[0].eventId, if dip then [] else e.keys, i, if dip then Deactivated else Active, kel[i].eventId,
             ToadOf(kel), WitnessAt(kel, i), 0, false)
  }

  /** A state that event e replaces. */
  function Superseded(s: KeyState, e: KeyEvent): KeyState
  {
    s.(status := if s.status == Active then Rotated else s.status,
       supersededAt := e.timestamp,
       retiredUrgently := e.typ == Deactivation || e.emergency)
  }

  function StateAt(kel: seq<SignedEvent>, i: nat): KeyState
    requires i < |kel|
  {
    if i + 1 < |kel| then Superseded(OwnState(kel, i), kel[i + 1].event) else OwnState(kel, i)
  }

  function States(kel: seq<SignedEvent>): (s: seq<KeyState>)
    ensures |s| == |kel|
  {
    seq(|kel|, i requires 0 <= i < |kel| => StateAt(kel, i))
  }

  function ReplayResult(c: Crypto, kel: seq<SignedEvent>): (r: Result<seq<KeyState>, ReplayError>)
    ensures r.Ok? ==> |r.value| == |kel| > 0
  {
    if kel == [] then Err(EmptyKel)
    else match FirstError(c, kel, |kel|)
      case Some(e) => Err(e)
      case None => Ok(States(kel))
  }

  lemma {:induction false} ReplaysIsOk(c: Crypto, kel: seq<SignedEvent>)
    ensures ReplayResult(c, kel).Ok? <==> Replays(c, kel)
    ensures Replays(c, kel) ==> ReplayResult(c, kel) == Ok(States(kel))
  {
    NoFirstError(c, kel, |kel|);
  }

  lemma {:induction false} FailsAt(c: Crypto, kel: seq<SignedEvent>, i: nat)
    requires i < |kel| && (forall j | 0 <= j < i :: CheckAt(c, kel, j).None?) && CheckAt(c, kel, i).Some?
    ensures ReplayResult(c, kel) == Err(CheckAt(c, kel, i).value)
  {
    NoFirstError(c, kel, i);
    FirstErrorStays(c, kel, i + 1, |kel|);
  }

  lemma {:induction false} SequenceNumbers(c: Crypto, kel: seq<SignedEvent>, i: nat)
    requires i < |kel| && forall j | 0 <= j <= i :: CheckAt(c, kel, j).None?
    ensures kel[i].event.seqNo == i
  {
    assert CheckAt(c, kel, i).None?;
    if i > 0 { SequenceNumbers(c, kel, i - 1); }
  }

  /** The replay loop: it threads the prior state, the committed digest and the last time through the events. */
  method Replay(c: Crypto, kel: seq<SignedEvent>) returns (r: Result<seq<KeyState>, ReplayError>)
    ensures r == ReplayResult(c, kel)
  {
    if |kel| == 0 {
      return Err(EmptyKel);
    }
    var states: seq<KeyState> := [];
    var prior := KeyState("", [], 0, Active, "", 0, "", 0, false);
    var committed: Bytes := [];
    var lastTs := 0;
    for i := 0 to |kel|
      invariant forall j | 0 <= j < i :: CheckAt(c, kel, j).None?
      invariant |states| == i && forall j | 0 <= j < i :: states[j] == OwnState(kel, j)
      invariant i > 0 ==> prior == OwnState(kel, i - 1) && lastTs == kel[i - 1].event.timestamp
      invariant i > 0 && prior.status != Deactivated ==> committed == kel[i - 1].event.nextDigest
      invariant i > 0 ==> kel[0].event.toad.Some?
    {
      var problem := Step(c, kel, i, prior, committed, lastTs);
      if problem.Some? {
        FailsAt(c, kel, i);
        return Err(problem.value);
      }
      var e := kel[i].event;
      var next := NextState(c, kel, i, prior);
      committed := if e.typ == Deactivation then [] else e.nextDigest;
      lastTs := e.timestamp;
      prior := next;
      states := states + [next];
    }
    NoFirstError(c, kel, |kel|);
    states := MarkSuperseded(kel, states);
    assert states == States(kel);
    r := Ok(states);
  }

  /** The checks of one loop iteration, against the threaded variables. */
  method Step(c: Crypto, kel: seq<SignedEvent>, i: nat, prior: KeyState, committed: Bytes, lastTs: nat)
    returns (problem: Option<ReplayError>)
    requires i < |kel| && forall j | 0 <= j < i :: CheckAt(c, kel, j).None?
    requires i > 0 ==> prior == OwnState(kel, i - 1) && lastTs == kel[i - 1].event.timestamp
    requires i > 0 && prior.status != Deactivated ==> committed == kel[i - 1].event.nextDigest
    ensures problem == CheckAt(c, kel, i)
    ensures problem.None? && i == 0 ==> kel[0].event.toad.Some? && kel[0].event.typ == Inception
    ensures problem.None? && i > 0 ==> kel[i].event.typ in {Rotation, Deactivation}
  {
    var e := kel[i].event;
    if e.kelType != KEL_TYPE {
      return Some(KelV1);
    }
    if i == 0 {
      problem := CheckInception(c, e);
    } else {
      SequenceNumbers(c, kel, i - 1);
      if e.aid != prior.aid {
        return Some(AidMismatch);
      }
      if e.seqNo != prior.keyStateSeq + 1 {
        return Some(SeqMismatch);
      }
      if e.prev != prior.lastEventId {
        return Some(PrevMismatch);
      }
      if prior.status == Deactivated {
        return Some(AfterDeactivation);
      }
      if e.typ != Rotation && e.typ != Deactivation {
        return Some(UnsupportedType);
      }
      problem := CheckShape(c, e);
      if problem.Some? {
        return;
      }
      if e.timestamp <= lastTs {
        return Some(TimeNotIncreasing);
      }
      problem := if e.typ == Rotation then CheckRotation(c, e, prior.aid, prior.toad) else CheckDeactivation(e);
      if problem.Some? {
        return;
      }
      if c.sha(e.keys[0]) != committed {
        return Some(DigestMismatch);
      }
    }
    if problem.Some? {
      return;
    }
    problem := CheckSeal(c, kel[i]);
  }

  method NextState(c: Crypto, kel: seq<SignedEvent>, i: nat, prior: KeyState) returns (next: KeyState)
    requires i < |kel| && kel[0].event.toad.Some?
    requires forall j | 0 <= j <= i :: CheckAt(c, kel, j).None?
    requires i > 0 ==> prior == OwnState(kel, i - 1)
    ensures next == OwnState(kel, i)
  {
    SequenceNumbers(c, kel, i);
    assert CheckAt(c, kel, i).None?;
    var e := kel[i].event;
    next := prior;
    match e.typ {
      case Deactivation =>
        next := KeyState(prior.aid, [], e.seqNo, Deactivated, kel[i].eventId, prior.toad, prior.witnessAid, 0, false);
      case Rotation =>
        next := KeyState(prior.aid, e.keys, e.seqNo, Active, kel[i].eventId, prior.toad, "", 0, false);
        if |e.witnesses| == 1 {
          next := next.(witnessAid := e.witnesses[0]);
        }
      case Inception =>
        next := KeyState(kel[i].eventId, e.keys, 0, Active, kel[i].eventId, e.toad.value, "", 0, false);
      case OtherType(_) =>
        assert false;
    }
  }

  method MarkSuperseded(kel: seq<SignedEvent>, own: seq<KeyState>) returns (states: seq<KeyState>)
    requires |own| == |kel| && forall j | 0 <= j < |kel| :: own[j] == OwnState(kel, j)
    ensures |states| == |kel| && forall j | 0 <= j < |kel| :: states[j] == StateAt(kel, j)
  {
    states := own;
    var i := 0;
    while i + 1 < |states|
      invariant |states| == |kel| && 0 <= i <= |kel|
      invariant i > 0 ==> i < |kel|
      invariant forall j | 0 <= j < i :: states[j] == StateAt(kel, j)
      invariant forall j | i <= j < |kel| :: states[j] == OwnState(kel, j)
    {
      var e := kel[i + 1].event;
      if states[i].status == Active {
        states := states[i := states[i].(status := Rotated)];
      }
      states := states[i := states[i].(supersededAt := e.timestamp)];
      states := states[i := states[i].(retiredUrgently := e.typ == Deactivation || e.emergency)];
      assert states[i] == StateAt(kel, i);
      i := i + 1;
    }
    assert forall j | i <= j < |kel| :: StateAt(kel, j) == OwnState(kel, j);
  }

  /** A prefix of a log that replays also replays, and a state changes only by being superseded. */
  lemma {:induction false} PrefixReplays(c: Crypto, kel: seq<SignedEvent>, n: nat)
    requires Replays(c, kel) && 0 < n <= |kel|
    ensures Replays(c, kel[..n])
    ensures forall i | 0 <= i < n :: OwnState(kel[..n], i) == OwnState(kel, i)
    ensures forall i | 0 <= i < n - 1 :: StateAt(kel[..n], i) == StateAt(kel, i)
  {
    var p := kel[..n];
    forall i | 0 <= i < n ensures CheckAt(c, p, i) == CheckAt(c, kel, i) {
      assert p[i] == kel[i] && p[0] == kel[0];
      if i > 0 { assert p[i - 1] == kel[i - 1]; }
    }
    forall i | 0 <= i < n ensures OwnState(p, i) == OwnState(kel, i) {
      WitnessOfPrefix(kel, n, i);
    }
  }

  /** Only the new event is judged when one is appended. */
  lemma {:induction false} AppendReplays(c: Crypto, kel: seq<SignedEvent>, se: SignedEvent)
    requires Replays(c, kel)
    ensures Replays(c, kel + [se]) <==>
      se.event.kelType == KEL_TYPE
      && CheckSuccessor(c, se.event, kel[0].eventId, ToadOf(kel), kel[|kel| - 1]).None?
      && CheckSeal(c, se).None?
  {
    var longer := kel + [se];
    forall i | 0 <= i < |kel| ensures CheckAt(c, longer, i) == CheckAt(c, kel, i) {
      assert longer[i] == kel[i] && longer[0] == kel[0];
      if i > 0 { assert longer[i - 1] == kel[i - 1]; }
    }
    assert longer[|kel|] == se && longer[|kel| - 1] == kel[|kel| - 1];
    assert Replays(c, longer) <==> CheckAt(c, longer, |kel|).None?;
  }

  lemma {:induction false} WitnessOfPrefix(kel: seq<SignedEvent>, n: nat, i: nat)
    requires i < n <= |kel|
    ensures WitnessAt(kel[..n], i) == WitnessAt(kel, i)
  {
    if i > 0 { WitnessOfPrefix(kel, n, i - 1); }
  }

  // ---- what a log is ----

  /** One key of 32 bytes that is no point of small order, threshold 1 and a time. */
  predicate HasOneKey(c: Crypto, e: KeyEvent)
  {
    e.threshold == 1 && e.timestamp > 0 && |e.keys| == 1 && |e.keys[0]| == KEY_SIZE && !c.smallOrder(e.keys[0])
  }

  /** The event is named by the CID of its encoding and signed by the key it introduces. */
  predicate NamedAndSigned(c: Crypto, se: SignedEvent)
  {
    && c.encode(se.event).Some? && |se.event.keys| == 1 && |se.sig| == SIG_SIZE
    && se.eventId == c.cid(c.encode(se.event).value)
    && c.verify(se.event.keys[0], c.encode(se.event).value, se.sig)
  }

  /** An event that commits a next key: a 32-byte digest and the mode the inception chose, 0 or 1. */
  predicate Establishes(e: KeyEvent, toad: Option<nat>)
  {
    |e.nextDigest| == DIGEST_SIZE && e.toad == toad && toad in {Some(TOAD_HUB), Some(TOAD_AGENT)}
  }

  /** Only the rotations of an agent name a witness: exactly one, an AID other than the agent's own. */
  predicate WitnessRule(c: Crypto, e: KeyEvent, aid: string, toad: Option<nat>)
  {
    if e.typ == Rotation && toad == Some(TOAD_AGENT)
    then |e.witnesses| == 1 && c.validAid(e.witnesses[0]) && aid !in e.witnesses
    else e.witnesses == []
  }

  /** What event i is on its own, in a log that the event icp begins. */
  predicate EventRule(c: Crypto, kel: seq<SignedEvent>, i: nat)
    requires i < |kel|
  {
    var e, icp := kel[i].event, kel[0];
    && e.kelType == "anet.kel/2" && e.seqNo == i
    && HasOneKey(c, e) && NamedAndSigned(c, kel[i])
    && WitnessRule(c, e, icp.eventId, icp.event.toad)
    && (e.typ == Inception <==> i == 0)
    && (e.typ != Deactivation ==> Establishes(e, icp.event.toad))
    && match e.typ
       case Inception => e.aid == "" && e.prev == "" && !e.emergency
       case Rotation => true
       case Deactivation => e.nextDigest == [] && e.toad.None? && !e.emergency
       case OtherType(_) => false
  }

  /** How event i + 1 follows event i: it names it, is later, and reveals the key that it committed. */
  predicate LinkRule(c: Crypto, kel: seq<SignedEvent>, i: nat)
    requires i + 1 < |kel|
  {
    var p, e := kel[i], kel[i + 1].event;
    && e.aid == kel[0].eventId && e.prev == p.eventId && p.event.timestamp < e.timestamp
    && p.event.typ != Deactivation
    && |e.keys| == 1 && p.event.nextDigest == c.sha(e.keys[0])
  }

  predicate IsLog(c: Crypto, kel: seq<SignedEvent>)
  {
    && kel != []
    && (forall i | 0 <= i < |kel| :: EventRule(c, kel, i))
    && (forall i | 0 <= i < |kel| - 1 :: LinkRule(c, kel, i))
  }

  /** Replay accepts exactly the logs: every rule of inception, rotation and deactivation, and no other. */
  lemma {:induction false} ReplaysExactlyLogs(c: Crypto, kel: seq<SignedEvent>)
    ensures Replays(c, kel) <==> IsLog(c, kel)
  {
    if Replays(c, kel) {
      forall i | 0 <= i < |kel| ensures EventRule(c, kel, i) { ReplayedEvent(c, kel, i); }
      forall i | 0 <= i < |kel| - 1 ensures LinkRule(c, kel, i) { assert CheckAt(c, kel, i + 1).None?; }
    }
    if IsLog(c, kel) {
      forall i | 0 <= i < |kel| ensures CheckAt(c, kel, i).None? { RuledEvent(c, kel, i); }
    }
  }

  lemma {:induction false} ReplayedEvent(c: Crypto, kel: seq<SignedEvent>, i: nat)
    requires Replays(c, kel) && i < |kel|
    ensures EventRule(c, kel, i)
  {
    assert CheckAt(c, kel, 0).None? && CheckAt(c, kel, i).None?;
    SequenceNumbers(c, kel, i);
  }

  lemma {:induction false} RuledEvent(c: Crypto, kel: seq<SignedEvent>, i: nat)
    requires IsLog(c, kel) && i < |kel|
    ensures CheckAt(c, kel, i).None?
  {
    assert EventRule(c, kel, 0) && EventRule(c, kel, i);
    if i > 0 { assert LinkRule(c, kel, i - 1) && EventRule(c, kel, i - 1); }
  }

  /** What replay reports of event i: its own key and mode, and what the event after it did to them. */
  lemma {:induction false} StatesMean(c: Crypto, kel: seq<SignedEvent>, i: nat)
    requires Replays(c, kel) && i < |kel|
    ensures ReplayResult(c, kel).Ok?
    ensures var s, e := ReplayResult(c, kel).value[i], kel[i].event;
      && s.aid == kel[0].eventId && s.keyStateSeq == i && s.lastEventId == kel[i].eventId
      && Some(s.toad) == kel[0].event.toad
      && s.currentKeys == (if e.typ == Deactivation then [] else e.keys)
      && (s.status == Deactivated <==> e.typ == Deactivation)
      && (s.status == Active <==> i == |kel| - 1 && e.typ != Deactivation)
      && (i == |kel| - 1 ==> s.supersededAt == 0 && !s.retiredUrgently)
      && (i < |kel| - 1 ==>
            var next := kel[i + 1].event;
            s.supersededAt == next.timestamp && (s.retiredUrgently <==> next.typ == Deactivation || next.emergency))
  {
    ReplaysIsOk(c, kel);
    assert ReplayResult(c, kel).value[i] == StateAt(kel, i);
    assert CheckAt(c, kel, 0).None? && CheckAt(c, kel, i).None?;
    if i < |kel| - 1 { assert CheckAt(c, kel, i + 1).None?; }
  }

  /** The witness replay reports: the one of the last rotation up to event i, or none before any. */
  lemma {:induction false} WitnessIsOfLastRotation(c: Crypto, kel: seq<SignedEvent>, i: nat, r: nat)
    requires Replays(c, kel) && r <= i < |kel|
    requires kel[r].event.typ != Deactivation && forall j | r < j <= i :: kel[j].event.typ == Deactivation
    ensures WitnessAt(kel, i) == if kel[r].event.witnesses == [] then "" else kel[r].event.witnesses[0]
    decreases i
  {
    assert CheckAt(c, kel, 0).None? && CheckAt(c, kel, r).None?;
    if r < i { WitnessIsOfLastRotation(c, kel, i - 1, r); }
  }

  // ---- pre-rotation ----

  /** The first event at which two logs differ, or the length of the shorter one. */
  function FirstDifference(a: seq<SignedEvent>, b: seq<SignedEvent>, i: nat): (d: nat)
    requires i <= Min(|a|, |b|) && forall j | 0 <= j < i :: a[j].event == b[j].event
    ensures d <= Min(|a|, |b|) && (forall j | 0 <= j < d :: a[j].event == b[j].event)
    ensures d < Min(|a|, |b|) ==> a[d].event != b[d].event
    decreases Min(|a|, |b|) - i
  {
    if i < Min(|a|, |b|) && a[i].event == b[i].event then FirstDifference(a, b, i + 1) else i
  }

  /** Two inputs these two logs make a verifier hash, different but with one CID or one digest. */
  ghost predicate HashClash(c: Crypto, a: seq<SignedEvent>, b: seq<SignedEvent>)
  {
    exists i | 0 <= i < Min(|a|, |b|) ::
      || (c.encode(a[i].event) != c.encode(b[i].event)
          && c.encode(a[i].event).Some? && c.encode(b[i].event).Some?
          && c.cid(c.encode(a[i].event).value) == c.cid(c.encode(b[i].event).value))
      || (|a[i].event.keys| == 1 && |b[i].event.keys| == 1 && a[i].event.keys[0] != b[i].event.keys[0]
          && c.sha(a[i].event.keys[0]) == c.sha(b[i].event.keys[0]))
  }

  /** At a fork both events reveal one key, the key the event before them committed, and both are signed by it. */
  predicate ForkNeedsCommittedKey(c: Crypto, a: seq<SignedEvent>, b: seq<SignedEvent>, d: nat)
  {
    && 0 < d < Min(|a|, |b|)
    && |a[d].event.keys| == 1 && a[d].event.keys == b[d].event.keys
    && c.sha(a[d].event.keys[0]) == a[d - 1].event.nextDigest
    && c.encode(a[d].event).Some? && c.encode(b[d].event).Some?
    && c.encode(a[d].event) != c.encode(b[d].event)
    && c.verify(a[d].event.keys[0], c.encode(a[d].event).value, a[d].sig)
    && c.verify(a[d].event.keys[0], c.encode(b[d].event).value, b[d].sig)
  }

  /** What replaying says about event i > 0. */
  lemma {:induction false} Revealed(c: Crypto, kel: seq<SignedEvent>, i: nat)
    requires Replays(c, kel) && 0 < i < |kel|
    ensures |kel[i].event.keys| == 1 && c.sha(kel[i].event.keys[0]) == kel[i - 1].event.nextDigest
    ensures c.encode(kel[i].event).Some?
    ensures c.verify(kel[i].event.keys[0], c.encode(kel[i].event).value, kel[i].sig)
    ensures kel[i - 1].event.typ != Deactivation && kel[i - 1].event.timestamp < kel[i].event.timestamp
  {
    assert CheckAt(c, kel, i).None?;
  }

  lemma {:induction false} Identified(c: Crypto, kel: seq<SignedEvent>, i: nat)
    requires Replays(c, kel) && i < |kel|
    ensures |kel[i].event.keys| == 1 && c.encode(kel[i].event).Some?
    ensures kel[i].eventId == c.cid(c.encode(kel[i].event).value)
  {
    assert CheckAt(c, kel, i).None?;
  }

  /**
   Pre-rotation. Two logs that replay to one AID: one's events are a prefix of the other's, or at their first
   difference the committed next key signed both events, or two of their hashed inputs collide.
   */
  lemma {:induction false} ForkTheorem(c: Crypto, a: seq<SignedEvent>, b: seq<SignedEvent>)
    requires Injective(c) && Replays(c, a) && Replays(c, b)
    requires a[0].eventId == b[0].eventId
    ensures var d := FirstDifference(a, b, 0);
      d == Min(|a|, |b|) || ForkNeedsCommittedKey(c, a, b, d) || HashClash(c, a, b)
  {
    var d := FirstDifference(a, b, 0);
    if d < Min(|a|, |b|) {
      Identified(c, a, d);
      Identified(c, b, d);
      if d == 0 {
        assert HashClash(c, a, b);
      } else {
        Revealed(c, a, d);
        Revealed(c, b, d);
      }
    }
  }

  /** The event that a holder made each key sign, as pairs of key and event: none signed a second one. */
  predicate OneEventEach(made: set<(Bytes, KeyEvent)>)
  {
    forall p, q | p in made && q in made && p.0 == q.0 :: p == q
  }

  /** A signature that stands at index d of a log, by the key it reveals, and was never made. */
  predicate NeverMade(made: set<(Bytes, KeyEvent)>, kel: seq<SignedEvent>, d: nat)
    requires d < |kel| && |kel[d].event.keys| == 1
  {
    (kel[d].event.keys[0], kel[d].event) !in made
  }

  /**
   A stolen current key forks nothing. Whatever was made, as long as each key was made to sign one event only, two
   logs of one AID agree as far as both go; otherwise, where they part, the key committed before it signed an event
   it was never made to sign, or two hashed inputs collide.
   */
  lemma {:induction false} NoForkWithoutTheNextKey(
    c: Crypto, made: set<(Bytes, KeyEvent)>, a: seq<SignedEvent>, b: seq<SignedEvent>)
    requires Injective(c) && Replays(c, a) && Replays(c, b)
    requires a[0].eventId == b[0].eventId
    requires OneEventEach(made)
    ensures var d := FirstDifference(a, b, 0);
      || (forall i | 0 <= i < Min(|a|, |b|) :: a[i].event == b[i].event)
      || (ForkNeedsCommittedKey(c, a, b, d) && (NeverMade(made, a, d) || NeverMade(made, b, d)))
      || HashClash(c, a, b)
  {
    ForkTheorem(c, a, b);
  }

  // ---- verifying an object ----

  datatype Refusal = UnknownAid | KeyStateDowngrade | RevokedKey | InvalidSignature

  function VerifyObject(c: Crypto, kel: seq<SignedEvent>, signer: string, seqNo: nat, msgTime: nat, pre: Bytes, sig: Bytes)
    : Option<Refusal>
  {
    match ReplayResult(c, kel)
    case Err(_) => Some(UnknownAid)
    case Ok(states) =>
      if states[|states| - 1].aid != signer then Some(UnknownAid)
      else if seqNo >= |states| then Some(KeyStateDowngrade)
      else
        var ks := states[seqNo];
        if ks.status == Deactivated then Some(RevokedKey)
        else if |ks.currentKeys| != 1 || |ks.currentKeys[0]| != KEY_SIZE then Some(UnknownAid)
        else if !c.verify(ks.currentKeys[0], pre, sig) then Some(InvalidSignature)
        else if ks.status == Active then None
        else if msgTime == 0 || msgTime >= ks.supersededAt then Some(RevokedKey)
        else None
  }

  /** Acceptance in terms of the events: the declared event's key signed, and no later event ended it by then. */
  predicate Accepted(c: Crypto, kel: seq<SignedEvent>, signer: string, seqNo: nat, msgTime: nat, pre: Bytes, sig: Bytes)
  {
    && Replays(c, kel)
    && kel[0].eventId == signer
    && seqNo < |kel|
    && kel[seqNo].event.typ != Deactivation
    && |kel[seqNo].event.keys| == 1 && c.verify(kel[seqNo].event.keys[0], pre, sig)
    && (seqNo + 1 < |kel| ==> 0 < msgTime < kel[seqNo + 1].event.timestamp)
  }

  lemma {:induction false} AcceptedMeansVerified(
    c: Crypto, kel: seq<SignedEvent>, signer: string, seqNo: nat, msgTime: nat, pre: Bytes, sig: Bytes)
    ensures VerifyObject(c, kel, signer, seqNo, msgTime, pre, sig).None?
            <==> Accepted(c, kel, signer, seqNo, msgTime, pre, sig)
  {
    ReplaysIsOk(c, kel);
    if Replays(c, kel) && seqNo < |kel| {
      assert CheckAt(c, kel, seqNo).None?;
      assert States(kel)[seqNo] == StateAt(kel, seqNo);
    }
  }

  /** Why an object is refused, in terms of the events; the first reason that applies is given. */
  lemma {:induction false} RefusedBecause(
    c: Crypto, kel: seq<SignedEvent>, signer: string, seqNo: nat, msgTime: nat, pre: Bytes, sig: Bytes)
    ensures VerifyObject(c, kel, signer, seqNo, msgTime, pre, sig)
            == if !Replays(c, kel) || kel[0].eventId != signer then Some(UnknownAid)
               else if |kel| <= seqNo then Some(KeyStateDowngrade)
               else if kel[seqNo].event.typ == Deactivation then Some(RevokedKey)
               else if forall k | k in kel[seqNo].event.keys :: !c.verify(k, pre, sig) then Some(InvalidSignature)
               else if seqNo + 1 < |kel| && !(0 < msgTime < kel[seqNo + 1].event.timestamp) then Some(RevokedKey)
               else None
  {
    ReplaysIsOk(c, kel);
    if Replays(c, kel) && seqNo < |kel| {
      assert CheckAt(c, kel, seqNo).None?;
      assert States(kel)[seqNo] == StateAt(kel, seqNo);
    }
  }

  function RetiredUsableAt(ks: KeyState, arrival: nat): bool
  {
    match ks.status
    case Active => true
    case Deactivated => false
    case Rotated =>
      var grace := if ks.retiredUrgently then 0 else ROTATION_GRACE;
      arrival <= ks.supersededAt || arrival - ks.supersededAt <= grace
  }

  function SenderKeyUsable(ks: KeyState, arrival: nat): bool
  {
    !ks.retiredUrgently && RetiredUsableAt(ks, arrival)
  }

  /**
   How long what a key signed is taken: without end while the key is current; for one hour after a planned
   rotation; not at all after an emergency rotation or a deactivation, but for the very moment of it.
   */
  lemma {:induction false} GraceExactly(c: Crypto, kel: seq<SignedEvent>, i: nat, arrival: nat)
    requires Replays(c, kel) && i < |kel|
    ensures kel[i].event.typ == Deactivation ==>
      !RetiredUsableAt(StateAt(kel, i), arrival) && !SenderKeyUsable(StateAt(kel, i), arrival)
    ensures kel[i].event.typ != Deactivation && i == |kel| - 1 ==>
      RetiredUsableAt(StateAt(kel, i), arrival) && SenderKeyUsable(StateAt(kel, i), arrival)
    ensures i < |kel| - 1 ==>
      var e := kel[i + 1].event;
      if e.typ == Rotation && !e.emergency
      then
        && (RetiredUsableAt(StateAt(kel, i), arrival) <==> arrival <= e.timestamp + 3_600_000)
        && (SenderKeyUsable(StateAt(kel, i), arrival) <==> arrival <= e.timestamp + 3_600_000)
      else (RetiredUsableAt(StateAt(kel, i), arrival) <==> arrival <= e.timestamp)
           && !SenderKeyUsable(StateAt(kel, i), arrival)
  {
    assert CheckAt(c, kel, i).None?;
    if i < |kel| - 1 { assert CheckAt(c, kel, i + 1).None?; }
  }

  // ---- extending a log ----

  datatype Extension = Extends | NotReplaying | OldUnencodable(at: nat) | Fork(at: nat) | Rollback

  /** The events of a and b have one encoding each at every index below n. */
  predicate Agree(c: Crypto, a: seq<SignedEvent>, b: seq<SignedEvent>, n: nat)
  {
    n <= |a| && n <= |b|
    && forall i | 0 <= i < n :: c.encode(a[i].event).Some? && c.encode(a[i].event) == c.encode(b[i].event)
  }

  method ExtendsKel(c: Crypto, old_: seq<SignedEvent>, next: seq<SignedEvent>) returns (r: Extension)
    ensures r == NotReplaying <==> !Replays(c, next)
    ensures r == Extends <==> Replays(c, next) && |old_| <= |next| && Agree(c, old_, next, |old_|)
    ensures r == Rollback <==> Replays(c, next) && |next| < |old_| && Agree(c, old_, next, |next|)
    ensures r.Fork? ==>
      && r.at < Min(|old_|, |next|) && Agree(c, old_, next, r.at)
      && c.encode(old_[r.at].event).Some? && c.encode(old_[r.at].event) != c.encode(next[r.at].event)
    ensures r.OldUnencodable? ==>
      r.at < Min(|old_|, |next|) && Agree(c, old_, next, r.at) && c.encode(old_[r.at].event).None?
  {
    ReplaysIsOk(c, next);
    var replay := Replay(c, next);
    if replay.Err? {
      return NotReplaying;
    }
    var n := |old_|;
    if |next| < n {
      n := |next|;
    }
    for i := 0 to n
      invariant Agree(c, old_, next, i)
    {
      var a := c.encode(old_[i].event);
      if a.None? {
        return OldUnencodable(i);
      }
      var b := c.encode(next[i].event);
      if a != b {
        return Fork(i);
      }
    }
    r := if |next| < |old_| then Rollback else Extends;
  }

  predicate ExtendsRel(c: Crypto, a: seq<SignedEvent>, b: seq<SignedEvent>)
  {
    Replays(c, b) && |a| <= |b| && Agree(c, a, b, |a|)
  }

  predicate RollbackRel(c: Crypto, a: seq<SignedEvent>, b: seq<SignedEvent>)
  {
    Replays(c, b) && |b| < |a| && Agree(c, a, b, |b|)
  }

  predicate ForkRel(c: Crypto, a: seq<SignedEvent>, b: seq<SignedEvent>)
  {
    Replays(c, b) && exists i | 0 <= i < Min(|a|, |b|) :: Agree(c, a, b, i) && c.encode(a[i].event) != c.encode(b[i].event)
  }

  /** Extending is a partial order on the logs that replay, up to signature bytes. */
  lemma {:induction false} ExtendsIsPartialOrder(c: Crypto, x: seq<SignedEvent>, y: seq<SignedEvent>, z: seq<SignedEvent>)
    ensures Replays(c, x) ==> ExtendsRel(c, x, x)
    ensures ExtendsRel(c, x, y) && ExtendsRel(c, y, z) ==> ExtendsRel(c, x, z)
    ensures Injective(c) && ExtendsRel(c, x, y) && ExtendsRel(c, y, x) ==>
      |x| == |y| && forall i | 0 <= i < |x| :: x[i].event == y[i].event && x[i].eventId == y[i].eventId
  {
    if Replays(c, x) {
      forall i | 0 <= i < |x| ensures c.encode(x[i].event).Some? {
        Identified(c, x, i);
      }
    }
    if Injective(c) && ExtendsRel(c, x, y) && ExtendsRel(c, y, x) {
      forall i | 0 <= i < |x| ensures x[i].event == y[i].event && x[i].eventId == y[i].eventId {
        Identified(c, x, i);
        Identified(c, y, i);
      }
    }
  }

  lemma {:induction false} FirstDisagreement(c: Crypto, a: seq<SignedEvent>, b: seq<SignedEvent>, n: nat)
    requires n <= Min(|a|, |b|)
    requires forall i | 0 <= i < n :: c.encode(a[i].event).Some?
    ensures Agree(c, a, b, n)
      || exists i | 0 <= i < n :: Agree(c, a, b, i) && c.encode(a[i].event) != c.encode(b[i].event)
  {
    if n > 0 { FirstDisagreement(c, a, b, n - 1); }
  }

  /** A new log of a known one is exactly one of: its extension, a rollback, a fork. */
  lemma {:induction false} ExactlyOneOfThree(c: Crypto, a: seq<SignedEvent>, b: seq<SignedEvent>)
    requires Replays(c, a) && Replays(c, b)
    ensures ExtendsRel(c, a, b) || RollbackRel(c, a, b) || ForkRel(c, a, b)
    ensures !(ExtendsRel(c, a, b) && RollbackRel(c, a, b))
    ensures !(ForkRel(c, a, b) && (ExtendsRel(c, a, b) || RollbackRel(c, a, b)))
    ensures RollbackRel(c, a, b) ==> ExtendsRel(c, b, a)
    ensures ForkRel(c, a, b) <==> ForkRel(c, b, a)
  {
    forall i | 0 <= i < |a| ensures c.encode(a[i].event).Some? { Identified(c, a, i); }
    forall i | 0 <= i < |b| ensures c.encode(b[i].event).Some? { Identified(c, b, i); }
    FirstDisagreement(c, a, b, Min(|a|, |b|));
    FirstDisagreement(c, b, a, Min(|a|, |b|));
  }

  /**
   Learning more of a log only takes acceptances away, and takes away exactly those under the old tip
   whose time is unknown or not before the event that replaced it.
   */
  lemma {:induction false} ExtensionOnlyRevokes(
    c: Crypto, short: seq<SignedEvent>, long: seq<SignedEvent>,
    signer: string, seqNo: nat, msgTime: nat, pre: Bytes, sig: Bytes)
    requires Injective(c) && Replays(c, short) && ExtendsRel(c, short, long)
    requires seqNo < |short|
    ensures VerifyObject(c, long, signer, seqNo, msgTime, pre, sig).None?
      <==> VerifyObject(c, short, signer, seqNo, msgTime, pre, sig).None?
           && (seqNo + 1 == |short| < |long| ==> 0 < msgTime < long[seqNo + 1].event.timestamp)
  {
    AcceptedMeansVerified(c, long, signer, seqNo, msgTime, pre, sig);
    AcceptedMeansVerified(c, short, signer, seqNo, msgTime, pre, sig);
    assert forall i | 0 <= i < |short| :: short[i].event == long[i].event;
    Identified(c, short, 0);
    Identified(c, long, 0);
  }

  /** The same for the arrival grace of a retired key: it only shrinks as the log grows. */
  lemma {:induction false} ExtensionOnlyRetires(
    c: Crypto, short: seq<SignedEvent>, long: seq<SignedEvent>, i: nat, arrival: nat)
    requires Injective(c) && Replays(c, short) && ExtendsRel(c, short, long) && i < |short|
    ensures RetiredUsableAt(StateAt(long, i), arrival) ==> RetiredUsableAt(StateAt(short, i), arrival)
    ensures SenderKeyUsable(StateAt(long, i), arrival) ==> SenderKeyUsable(StateAt(short, i), arrival)
  {
    assert forall j | 0 <= j < |short| :: short[j].event == long[j].event;
  }

  // ---- accepting new events ----

  datatype NewEventRefusal = FromFuture(at: nat) | TooOld(at: nat)

  function NewEventProblem(e: KeyEvent, i: nat, now: nat, firstWitness: Option<KeyEvent -> bool>): Option<NewEventRefusal>
  {
    if e.timestamp > now && e.timestamp - now > EVENT_CLOCK_WINDOW then Some(FromFuture(i))
    else if firstWitness.Some? && firstWitness.value(e) && e.timestamp < now && now - e.timestamp > EVENT_CLOCK_WINDOW
      then Some(TooOld(i))
    else None
  }

  method CheckNewEvents(old_: seq<SignedEvent>, next: seq<SignedEvent>, now: nat, firstWitness: Option<KeyEvent -> bool>)
    returns (r: Option<NewEventRefusal>)
    ensures r.None? <==> forall i | |old_| <= i < |next| ::
      && next[i].event.timestamp <= now + EVENT_CLOCK_WINDOW
      && (firstWitness.Some? && firstWitness.value(next[i].event) ==> now <= next[i].event.timestamp + EVENT_CLOCK_WINDOW)
    ensures r.Some? ==> |old_| <= r.value.at < |next|
    ensures r.Some? ==> r == NewEventProblem(next[r.value.at].event, r.value.at, now, firstWitness)
    ensures r.Some? ==> forall i | |old_| <= i < r.value.at :: NewEventProblem(next[i].event, i, now, firstWitness).None?
  {
    var i := |old_|;
    while i < |next|
      invariant |old_| <= i
      invariant forall j | |old_| <= j < i && j < |next| :: NewEventProblem(next[j].event, j, now, firstWitness).None?
    {
      var e := next[i].event;
      if e.timestamp > now && e.timestamp - now > EVENT_CLOCK_WINDOW {
        return Some(FromFuture(i));
      }
      if firstWitness.Some? && firstWitness.value(e) && e.timestamp < now && now - e.timestamp > EVENT_CLOCK_WINDOW {
        return Some(TooOld(i));
      }
      i := i + 1;
    }
    r := None;
  }
}
