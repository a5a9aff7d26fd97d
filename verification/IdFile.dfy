/** The identity file. */
module IdFile {
  // What Export writes of a controller and what Restore takes back. The CBOR codecs of its parts are the
  // fields of Codec.

  import opened Octets
  import opened Kel
  import opened Control

  const IDENTITY_FILE_TYPE := "anet.identity/2"

  datatype FilePending = FilePending(
    kind: Kind, revealed: Bytes, next: Bytes, hubUrl: string, emergency: bool, event: Option<Bytes>, since: nat)

  datatype File = File(
    tag: string, kel: Bytes, cur: Option<Bytes>, hotNext: Option<Bytes>, pending: Option<FilePending>,
    push: seq<WitnessPush>, state: string, localCommit: Option<Bytes>)

  datatype Codec = Codec(
    marshalKel: seq<SignedEvent> -> Option<Bytes>,
    unmarshalKel: Bytes -> Option<seq<SignedEvent>>,
    marshalEvent: SignedEvent -> Option<Bytes>,
    unmarshalEvent: Bytes -> Option<SignedEvent>,
    marshalFile: File -> Option<Bytes>,
    unmarshalFile: Bytes -> Option<File>,
    tagOf: Bytes -> Option<string>)

  /** No optional byte string is there and empty: the encoding leaves an empty one out. */
  predicate NoEmptyPart(f: File)
  {
    && f.cur != Some([]) && f.hotNext != Some([]) && f.localCommit != Some([])
    && (f.pending.Some? ==> f.pending.value.event != Some([]))
  }

  predicate AllTyped(kel: seq<SignedEvent>)
  {
    forall i | 0 <= i < |kel| :: kel[i].event.kelType == KEL_TYPE
  }

  /**
   What this kind of log, event and file encodes to decodes to itself, no event encodes to nothing, and a file's type
   tag can be read on its own. An event with another type tag may encode, but does not decode.
   */
  ghost predicate Faithful(k: Codec)
  {
    && (forall kel :: AllTyped(kel) && k.marshalKel(kel).Some? ==>
          k.unmarshalKel(k.marshalKel(kel).value) == Some(kel))
    && (forall ev: SignedEvent :: ev.event.kelType == KEL_TYPE && k.marshalEvent(ev).Some? ==>
          k.unmarshalEvent(k.marshalEvent(ev).value) == Some(ev) && k.marshalEvent(ev).value != [])
    && (forall f: File :: NoEmptyPart(f) && k.marshalFile(f).Some? ==>
          && k.unmarshalFile(k.marshalFile(f).value) == Some(f)
          && k.tagOf(k.marshalFile(f).value) == Some(f.tag))
  }

  // ---- Export ----

  function ExportPending(k: Codec, p: Pending): Option<FilePending>
  {
    if p.event.None? then Some(FilePending(p.kind, p.revealed, p.next, p.hubUrl, p.emergency, None, p.since))
    else match k.marshalEvent(p.event.value)
      case None => None
      case Some(b) => Some(FilePending(p.kind, p.revealed, p.next, p.hubUrl, p.emergency, Some(b), p.since))
  }

  /** The file of id; None when a part does not encode. */
  function FileOf(k: Codec, id: Identity): Option<File>
  {
    match k.marshalKel(id.accepted)
    case None => None
    case Some(kel) =>
      var hot := if |id.accepted| == 1 then id.hot else None;
      var file := File(IDENTITY_FILE_TYPE, kel, id.cur, hot, None, id.push, id.state, id.localCommit);
      match id.pending
      case None => Some(file)
      case Some(p) =>
        match ExportPending(k, p)
        case None => None
        case Some(fp) => Some(file.(pending := Some(fp)))
  }

  function Export(k: Codec, id: Identity): Option<Bytes>
  {
    match FileOf(k, id)
    case None => None
    case Some(f) => k.marshalFile(f)
  }

  method ExportController(k: Codec, c: Controller) returns (r: Option<Bytes>)
    ensures r == Export(k, c.Value())
  {
    var kel := k.marshalKel(c.kel);
    if kel.None? {
      return None;
    }
    var f := File(IDENTITY_FILE_TYPE, kel.value, None, None, None, [], c.state, None);
    if c.cur.Some? {
      f := f.(cur := c.cur);
    }
    if c.hot.Some? && |c.kel| == 1 {
      f := f.(hotNext := c.hot);
    }
    if c.pending.Some? {
      var p := c.pending.value;
      var fp := FilePending(p.kind, p.revealed, p.next, p.hubUrl, p.emergency, None, p.since);
      if p.event.Some? {
        var b := k.marshalEvent(p.event.value);
        if b.None? {
          return None;
        }
        fp := fp.(event := b);
      }
      f := f.(pending := Some(fp));
    }
    f := f.(push := c.push, localCommit := c.localCommit);
    r := k.marshalFile(f);
  }

  // ---- Restore ----

  datatype RestoreError =
    | NotIdentityV2 | Undecodable | NotCanonical | BadFileState | KelUndecodable | KelDoesNotReplay
    | Inconsistent(what: string)

  function Parse(k: Codec, b: Bytes): Result<File, RestoreError>
  {
    if k.tagOf(b) != Some(IDENTITY_FILE_TYPE) then Err(NotIdentityV2)
    else match k.unmarshalFile(b)
      case None => Err(Undecodable)
      case Some(f) => if k.marshalFile(f) != Some(b) then Err(NotCanonical) else Ok(f)
  }

  /** Whether the kind of pending event fits the accepted log. */
  function KindProblem(kel: seq<SignedEvent>, fp: FilePending): Option<RestoreError>
    requires kel != []
  {
    match fp.kind
    case PendingWitness =>
      if ToadOf(kel) != TOAD_AGENT || |kel| != 1 || fp.emergency then Some(Inconsistent("designation")) else None
    case PendingRot =>
      if ToadOf(kel) == TOAD_AGENT && |kel| == 1 then Some(Inconsistent("first rotation")) else None
    case PendingDip =>
      if fp.next != [] || fp.emergency then Some(Inconsistent("dip")) else None
    case OtherKind(_) => Some(Inconsistent("kind"))
  }

  function RestorePending(k: Codec, s: Suite, id: Identity, fp: FilePending): Result<Pending, RestoreError>
    requires id.accepted != []
  {
    var p := Pending(fp.kind, fp.revealed, fp.next, fp.hubUrl, fp.emergency, fp.since, None);
    if id.accepted[|id.accepted| - 1].event.typ == Deactivation then Err(Inconsistent("pending after deactivation"))
    else if |fp.revealed| != SEED_SIZE then Err(Inconsistent("pending.revealed"))
    else if s.c.sha(s.pub(fp.revealed)) != Committed(id.accepted) then Err(Inconsistent("pending key"))
    else if KindProblem(id.accepted, fp).Some? then Err(KindProblem(id.accepted, fp).value)
    else if fp.kind != PendingDip && |fp.next| != DIGEST_SIZE then Err(Inconsistent("pending digest"))
    else match fp.event
      case None => if fp.kind == PendingWitness then Err(Inconsistent("designation without event")) else Ok(p)
      case Some(b) =>
        match k.unmarshalEvent(b)
        case None => Err(Inconsistent("pending event"))
        case Some(ev) =>
          match BuildEvent(s, id, p, WitnessIn(ev.event), ev.event.timestamp)
          case Err(_) => Err(Inconsistent("pending event"))
          case Ok(want) =>
            if k.marshalEvent(want) != Some(b) then Err(Inconsistent("pending event"))
            else Ok(p.(event := Some(want)))
  }

  /** Which current key the file's cur gives: None when the head's key is not in the file. */
  function RestoreCur(s: Suite, id: Identity, cur: Option<Bytes>): Result<Option<Bytes>, RestoreError>
    requires id.accepted != []
  {
    match cur
    case None => if id.pending.None? then Err(Inconsistent("no current key")) else Ok(None)
    case Some(seed) =>
      if |seed| != SEED_SIZE then Err(Inconsistent("cur"))
      else if [s.pub(seed)] == id.accepted[|id.accepted| - 1].event.keys then Ok(Some(seed))
      else if id.Publishing() && id.pending.value.event.value.event.keys != []
              && s.pub(seed) == id.pending.value.event.value.event.keys[0] then Ok(None)
      else Err(Inconsistent("cur"))
  }

  /** The identity of the file's log and hot key, without current key or pending event. */
  function RestoreBare(k: Codec, s: Suite, f: File): (r: Result<Identity, RestoreError>)
    ensures r.Ok? ==> r.value.accepted != []
  {
    if f.state !in {STATE_OK, STATE_STOPPED, STATE_DEACTIVATED} then Err(BadFileState)
    else match k.unmarshalKel(f.kel)
      case None => Err(KelUndecodable)
      case Some(kel) =>
        if ReplayResult(s.c, kel).Err? then Err(KelDoesNotReplay)
        else if f.localCommit.Some? && |f.localCommit.value| != DIGEST_SIZE then Err(Inconsistent("local_commit"))
        else if exists w | w in f.push :: w.hubAid == "" then Err(Inconsistent("witness to push"))
        else if f.hotNext.Some? && (|kel| != 1 || |f.hotNext.value| != SEED_SIZE) then Err(Inconsistent("hot_next"))
        else if f.hotNext.Some? && s.c.sha(s.pub(f.hotNext.value)) != kel[0].event.nextDigest
          then Err(Inconsistent("hot_next"))
        else Ok(Identity(kel[0].eventId, kel, None, f.hotNext, None, f.push, f.state, f.localCommit))
  }

  function WithPending(k: Codec, s: Suite, id: Identity, fp: Option<FilePending>): (r: Result<Identity, RestoreError>)
    requires id.accepted != []
    ensures r.Ok? ==> r.value.accepted == id.accepted
  {
    match fp
    case None => Ok(id)
    case Some(p) =>
      match RestorePending(k, s, id, p)
      case Err(e) => Err(e)
      case Ok(pending) => Ok(id.(pending := Some(pending)))
  }

  function WithCur(s: Suite, id: Identity, cur: Option<Bytes>): Result<Identity, RestoreError>
    requires id.accepted != []
  {
    match RestoreCur(s, id, cur)
    case Err(e) => Err(e)
    case Ok(c) => Ok(id.(cur := c))
  }

  function RestoreFile(k: Codec, s: Suite, f: File): Result<Identity, RestoreError>
  {
    match RestoreBare(k, s, f)
    case Err(e) => Err(e)
    case Ok(bare) =>
      match WithPending(k, s, bare, f.pending)
      case Err(e) => Err(e)
      case Ok(id) => WithCur(s, id, f.cur)
  }

  function Restore(k: Codec, s: Suite, b: Bytes): Result<Identity, RestoreError>
  {
    match Parse(k, b)
    case Err(e) => Err(e)
    case Ok(f) => RestoreFile(k, s, f)
  }

  method RestoreController(k: Codec, s: Suite, b: Bytes) returns (r: Result<Controller, RestoreError>)
    ensures r.Ok? <==> Restore(k, s, b).Ok?
    ensures r.Ok? ==> fresh(r.value) && Restore(k, s, b) == Ok(r.value.Value())
    ensures r.Err? ==> Restore(k, s, b) == Err(r.error)
  {
    var parsed := Parse(k, b);
    if parsed.Err? {
      return Err(parsed.error);
    }
    var f := parsed.value;
    r := LoadLog(k, s, f);
    if r.Err? {
      return;
    }
    var c := r.value;
    if f.pending.Some? {
      var p := LoadPending(k, c, f.pending.value);
      if p.Err? {
        return Err(p.error);
      }
      c.pending := Some(p.value);
    }
    var problem := LoadCur(c, f.cur);
    if problem.Some? {
      return Err(problem.value);
    }
  }

  /** A fresh controller with the log and everything of f that does not depend on what is pending. */
  method LoadLog(k: Codec, s: Suite, f: File) returns (r: Result<Controller, RestoreError>)
    ensures r.Ok? <==> RestoreBare(k, s, f).Ok?
    ensures r.Ok? ==> fresh(r.value) && r.value.s == s && RestoreBare(k, s, f) == Ok(r.value.Value())
    ensures r.Err? ==> RestoreBare(k, s, f) == Err(r.error)
  {
    if f.state != STATE_OK && f.state != STATE_STOPPED && f.state != STATE_DEACTIVATED {
      return Err(BadFileState);
    }
    var kel := k.unmarshalKel(f.kel);
    if kel.None? {
      return Err(KelUndecodable);
    }
    var states := Replay(s.c, kel.value);
    if states.Err? {
      return Err(KelDoesNotReplay);
    }
    ReplaysIsOk(s.c, kel.value);
    var head := states.value[|states.value| - 1];
    var c := new Controller.Load(s, Identity(head.aid, kel.value, None, None, None, f.push, f.state, None));
    if f.localCommit.Some? {
      if |f.localCommit.value| != DIGEST_SIZE {
        return Err(Inconsistent("local_commit"));
      }
      c.localCommit := f.localCommit;
    }
    for i := 0 to |f.push|
      invariant forall j | 0 <= j < i :: f.push[j].hubAid != ""
    {
      if f.push[i].hubAid == "" {
        return Err(Inconsistent("witness to push"));
      }
    }
    if f.hotNext.Some? {
      if |kel.value| != 1 || |f.hotNext.value| != SEED_SIZE {
        return Err(Inconsistent("hot_next"));
      }
      if s.c.sha(s.pub(f.hotNext.value)) != kel.value[0].event.nextDigest {
        return Err(Inconsistent("hot_next"));
      }
      c.hot := f.hotNext;
    }
    r := Ok(c);
  }

  /** Checks the pending material against c's log and builds its event again, which must be the stored one. */
  method LoadPending(k: Codec, c: Controller, fp: FilePending) returns (r: Result<Pending, RestoreError>)
    requires c.kel != []
    ensures r == RestorePending(k, c.s, c.Value(), fp)
  {
    if c.kel[|c.kel| - 1].event.typ == Deactivation {
      return Err(Inconsistent("pending after deactivation"));
    }
    if |fp.revealed| != SEED_SIZE {
      return Err(Inconsistent("pending.revealed"));
    }
    if c.s.c.sha(c.s.pub(fp.revealed)) != Committed(c.kel) {
      return Err(Inconsistent("pending key"));
    }
    var p := Pending(fp.kind, fp.revealed, [], fp.hubUrl, fp.emergency, fp.since, None);
    var misfit := KindProblem(c.kel, fp);
    if misfit.Some? {
      return Err(misfit.value);
    }
    if fp.kind != PendingDip {
      if |fp.next| != DIGEST_SIZE {
        return Err(Inconsistent("pending digest"));
      }
      p := p.(next := fp.next);
    }
    if fp.event.None? {
      return if fp.kind == PendingWitness then Err(Inconsistent("designation without event")) else Ok(p);
    }
    var ev := k.unmarshalEvent(fp.event.value);
    if ev.None? {
      return Err(Inconsistent("pending event"));
    }
    var witnessAid := "";
    if |ev.value.event.witnesses| == 1 {
      witnessAid := ev.value.event.witnesses[0];
    }
    var want := c.MakeEvent(p, witnessAid, ev.value.event.timestamp);
    if want.Err? {
      return Err(Inconsistent("pending event"));
    }
    if k.marshalEvent(want.value) != fp.event {
      return Err(Inconsistent("pending event"));
    }
    r := Ok(p.(event := Some(want.value)));
  }

  /** Sets the current key, when the file's is the key of the head. */
  method LoadCur(c: Controller, cur: Option<Bytes>) returns (problem: Option<RestoreError>)
    requires c.kel != []
    modifies c`cur
    ensures problem.None? ==> WithCur(c.s, old(c.Value()), cur) == Ok(c.Value())
    ensures problem.Some? ==> WithCur(c.s, old(c.Value()), cur) == Err(problem.value)
  {
    c.cur := None;
    if cur.None? {
      return if c.pending.None? then Some(Inconsistent("no current key")) else None;
    }
    if |cur.value| != SEED_SIZE {
      return Some(Inconsistent("cur"));
    }
    var pub := c.s.pub(cur.value);
    if c.kel[|c.kel| - 1].event.keys == [pub] {
      c.cur := cur;
      return None;
    }
    if c.pending.Some? && c.pending.value.event.Some? {
      var keys := c.pending.value.event.value.event.keys;
      if keys != [] && pub == keys[0] {
        return None;
      }
    }
    problem := Some(Inconsistent("cur"));
  }

  // ---- what restoring guarantees ----

  lemma {:induction false} RestoredPendingIsGood(k: Codec, s: Suite, id: Identity, fp: FilePending)
    requires id.accepted != [] && RestorePending(k, s, id, fp).Ok?
    ensures GoodPending(s, id, RestorePending(k, s, id, fp).value)
  {
    if fp.event.Some? {
      var ev := k.unmarshalEvent(fp.event.value).value;
      var p := Pending(fp.kind, fp.revealed, fp.next, fp.hubUrl, fp.emergency, fp.since, None);
      StoreEvent(s, id, p, WitnessIn(ev.event), ev.event.timestamp);
    }
  }

  lemma {:induction false} BareIsConsistent(k: Codec, s: Suite, f: File)
    requires RestoreBare(k, s, f).Ok?
    ensures Inv(s, RestoreBare(k, s, f).value)
  {
    ReplaysIsOk(s.c, RestoreBare(k, s, f).value.accepted);
  }

  lemma {:induction false} WithPendingIsConsistent(k: Codec, s: Suite, id: Identity, fp: Option<FilePending>)
    requires Inv(s, id) && WithPending(k, s, id, fp).Ok?
    ensures Inv(s, WithPending(k, s, id, fp).value)
  {
    if fp.Some? {
      RestoredPendingIsGood(k, s, id, fp.value);
      PendingFits(s, id, WithPending(k, s, id, fp).value, RestorePending(k, s, id, fp.value).value);
    }
  }

  lemma {:induction false} WithCurIsConsistent(s: Suite, id: Identity, cur: Option<Bytes>)
    requires Inv(s, id) && WithCur(s, id, cur).Ok?
    ensures Inv(s, WithCur(s, id, cur).value)
  {
    if id.pending.Some? { PendingFits(s, id, WithCur(s, id, cur).value, id.pending.value); }
  }

  /**
   Whatever bytes are restored, they are a file of this type, and the result is a consistent identity: no file loads
   a wrong key or a stray event, and without a current key there is something to publish.
   */
  lemma {:induction false} RestoredIsConsistent(k: Codec, s: Suite, b: Bytes)
    requires Restore(k, s, b).Ok?
    ensures Inv(s, Restore(k, s, b).value) && k.tagOf(b) == Some("anet.identity/2")
    ensures Restore(k, s, b).value.cur.None? ==> Restore(k, s, b).value.pending.Some?
  {
    var f := Parse(k, b).value;
    BareIsConsistent(k, s, f);
    var bare := RestoreBare(k, s, f).value;
    WithPendingIsConsistent(k, s, bare, f.pending);
    WithCurIsConsistent(s, WithPending(k, s, bare, f.pending).value, f.cur);
  }

  /** The pending event Restore does not take back: an agent's first rotation built other than as a designation. */
  predicate FirstRotationNotDesignated(id: Identity)
  {
    && id.pending.Some? && id.pending.value.kind == PendingRot
    && |id.accepted| == 1 && ToadOf(id.accepted) == TOAD_AGENT
  }

  lemma {:induction false} PendingRoundTrip(k: Codec, s: Suite, id: Identity, bare: Identity)
    requires Faithful(k) && Inv(s, id) && Complete(id) && id.pending.Some?
    requires bare.accepted == id.accepted && bare.aid == id.aid
    requires ExportPending(k, id.pending.value).Some?
    ensures ExportPending(k, id.pending.value).value.event != Some([])
    ensures !FirstRotationNotDesignated(id) ==>
      RestorePending(k, s, bare, ExportPending(k, id.pending.value).value) == Ok(id.pending.value)
    ensures FirstRotationNotDesignated(id) ==>
      RestorePending(k, s, bare, ExportPending(k, id.pending.value).value) == Err(Inconsistent("first rotation"))
  {
    var p := id.pending.value;
    var q := p.(event := None);
    SameMaterial(s, id, bare, p, q, WitnessIn(p.event.value.event), p.event.value.event.timestamp);
    assert p.event.value.event.kelType == KEL_TYPE;
  }

  lemma {:induction false} LogsAreTyped(c: Crypto, kel: seq<SignedEvent>)
    requires Replays(c, kel)
    ensures AllTyped(kel)
  {
    forall i | 0 <= i < |kel| ensures kel[i].event.kelType == KEL_TYPE { assert CheckAt(c, kel, i).None?; }
  }

  /**
   Export then Restore. An identity reached from an inception comes back exactly as it was, unless its pending
   event is an agent's first rotation that is not a designation; then, and only then, it is refused.
   */
  lemma {:induction false} ExportRestore(k: Codec, s: Suite, id: Identity)
    requires Faithful(k) && Inv(s, id) && Complete(id) && Export(k, id).Some?
    ensures Restore(k, s, Export(k, id).value) == Ok(id) <==> !FirstRotationNotDesignated(id)
    ensures FirstRotationNotDesignated(id) ==>
      Restore(k, s, Export(k, id).value) == Err(Inconsistent("first rotation"))
  {
    var f := FileOf(k, id).value;
    LogsAreTyped(s.c, id.accepted);
    var bare := Identity(id.aid, id.accepted, None, f.hotNext, None, f.push, f.state, f.localCommit);
    if id.pending.Some? { PendingRoundTrip(k, s, id, bare); }
    assert NoEmptyPart(f);
    assert Parse(k, Export(k, id).value) == Ok(f);
    assert k.unmarshalKel(f.kel) == Some(id.accepted);
    ReplaysIsOk(s.c, id.accepted);
  }

  /** The file whose bytes are b. */
  lemma {:induction false} ParsedFile(k: Codec, b: Bytes)
    requires Parse(k, b).Ok?
    ensures var f := Parse(k, b).value; k.unmarshalFile(b) == Some(f) && k.marshalFile(f) == Some(b)
  {
  }

  lemma {:induction false} PendingComesBack(k: Codec, s: Suite, id: Identity, fp: FilePending)
    requires id.accepted != [] && RestorePending(k, s, id, fp).Ok?
    ensures ExportPending(k, RestorePending(k, s, id, fp).value) == Some(fp)
  {
  }

  /**
   Restore then Export. What was restored is exported as the very bytes it came from exactly when its current key
   was taken over; the one key Restore drops is that of the pending event. The log must be in its canonical encoding.
   */
  lemma {:induction false} RestoreExport(k: Codec, s: Suite, b: Bytes)
    requires Faithful(k) && Restore(k, s, b).Ok? && NoEmptyPart(Parse(k, b).value)
    requires k.marshalKel(Restore(k, s, b).value.accepted) == Some(Parse(k, b).value.kel)
    ensures Export(k, Restore(k, s, b).value) == Some(b) <==> Restore(k, s, b).value.cur == Parse(k, b).value.cur
    ensures var f, id := Parse(k, b).value, Restore(k, s, b).value;
      id.cur != f.cur ==> id.cur.None? && id.Publishing() && [s.pub(f.cur.value)] == id.pending.value.event.value.event.keys
  {
    var f, id := Parse(k, b).value, Restore(k, s, b).value;
    ParsedFile(k, b);
    FileComesBack(k, s, f);
    RestoredIsConsistent(k, s, b);
    TagsAgree(k, f, b);
    SameBytesSameFile(k, f, f.(tag := IDENTITY_FILE_TYPE, cur := id.cur), b);
  }

  /** The file of what a file restores to: the same, but for a current key that was dropped. */
  lemma {:induction false} FileComesBack(k: Codec, s: Suite, f: File)
    requires RestoreFile(k, s, f).Ok? && k.marshalKel(RestoreFile(k, s, f).value.accepted) == Some(f.kel)
    ensures var id := RestoreFile(k, s, f).value;
      && FileOf(k, id) == Some(f.(tag := IDENTITY_FILE_TYPE, cur := id.cur))
      && (id.cur != f.cur ==>
            id.cur.None? && f.cur.Some? && id.Publishing() && [s.pub(f.cur.value)] == id.pending.value.event.value.event.keys)
  {
    var bare := RestoreBare(k, s, f).value;
    BareIsConsistent(k, s, f);
    WithPendingIsConsistent(k, s, bare, f.pending);
    if f.pending.Some? { PendingComesBack(k, s, bare, f.pending.value); }
    DroppedKey(s, WithPending(k, s, bare, f.pending).value, f.cur);
  }

  lemma {:induction false} SameBytesSameFile(k: Codec, f: File, g: File, b: Bytes)
    requires Faithful(k) && NoEmptyPart(f) && k.unmarshalFile(b) == Some(f) && k.marshalFile(f) == Some(b)
    requires g == f.(tag := g.tag, cur := g.cur) && (g.cur == f.cur || g.cur.None?)
    ensures k.marshalFile(g) == Some(b) <==> g == f
  {
    if k.marshalFile(g) == Some(b) { assert k.unmarshalFile(b) == Some(g); }
  }

  lemma {:induction false} TagsAgree(k: Codec, f: File, b: Bytes)
    requires Faithful(k) && NoEmptyPart(f) && k.marshalFile(f) == Some(b) && k.tagOf(b) == Some("anet.identity/2")
    ensures f.tag == IDENTITY_FILE_TYPE
  {
  }

  lemma {:induction false} DroppedKey(s: Suite, id: Identity, cur: Option<Bytes>)
    requires Inv(s, id) && WithCur(s, id, cur).Ok?
    ensures var c := WithCur(s, id, cur).value.cur;
      c != cur ==> c.None? && cur.Some? && id.Publishing() && [s.pub(cur.value)] == id.pending.value.event.value.event.keys
  {
    if id.Publishing() {
      BuiltEventReplays(s, id, id.pending.value, WitnessIn(id.pending.value.event.value.event), id.pending.value.event.value.event.timestamp);
    }
  }

  /** For a whole life from inception: restoring what was exported at any moment continues the same identity. */
  lemma {:induction false} RestartsAreInvisible(
    k: Codec, s: Suite, k0: Bytes, k1: Bytes, ts: nat, toad: nat, before: seq<Op>, after: seq<Op>)
    requires Faithful(k) && |k0| == SEED_SIZE && |k1| == SEED_SIZE && Incept(s, k0, k1, ts, toad).Ok?
    requires var mid := Life(s, k0, k1, ts, toad, before);
      Export(k, mid).Some? && !FirstRotationNotDesignated(mid)
    ensures var mid := Life(s, k0, k1, ts, toad, before);
      var back := Restore(k, s, Export(k, mid).value);
      && Inv(s, mid) && back.Ok? && Inv(s, back.value)
      && Run(s, back.value, after) == Run(s, mid, after)
  {
    InceptionIsComplete(s, k0, k1, ts, toad);
    RunIsSafe(s, Incept(s, k0, k1, ts, toad).value, before);
    ExportRestore(k, s, Life(s, k0, k1, ts, toad, before));
  }

  /** The refused case does arise: an agent handing its own hot key to BuildRotation gets there in one step. */
  lemma {:induction false} HotKeyRotationIsPending(
    s: Suite, id: Identity, next: Bytes, w: string, emergency: bool, ts: nat)
    requires Lawful(s) && Inv(s, id) && Complete(id) && |id.accepted| == 1 && ToadOf(id.accepted) == TOAD_AGENT
    requires id.state == STATE_OK && id.pending.None? && |next| == DIGEST_SIZE
    requires var p := Fresh(PendingRot, id.hot.value, next, emergency, ts);
      && WellTimedAndWitnessed(s, id, p, w, ts)
      && s.c.encode(EventOf(s, id, p, w, ts)).Some? && !s.c.smallOrder(s.pub(p.revealed))
    ensures Apply(s, id, Rotate(id.hot, next, w, emergency, ts)).Ok?
    ensures FirstRotationNotDesignated(Apply(s, id, Rotate(id.hot, next, w, emergency, ts)).value)
  {
    assert CheckAt(s.c, id.accepted, 0).None?;
    CommittedIsLast(id.accepted);
    BuildSucceedsExactlyWhen(s, id, Fresh(PendingRot, id.hot.value, next, emergency, ts), w, ts);
  }

  lemma {:induction false} HotKeyRotationIsRefused(
    k: Codec, s: Suite, id: Identity, next: Bytes, w: string, emergency: bool, ts: nat, now: Identity)
    requires Faithful(k) && Lawful(s) && Inv(s, id) && Complete(id)
    requires Apply(s, id, Rotate(id.hot, next, w, emergency, ts)) == Ok(now) && FirstRotationNotDesignated(now)
    requires Export(k, now).Some?
    ensures Restore(k, s, Export(k, now).value) == Err(Inconsistent("first rotation"))
  {
    StepKeepsInv(s, id, Rotate(id.hot, next, w, emergency, ts));
    ExportRestore(k, s, now);
  }
}
