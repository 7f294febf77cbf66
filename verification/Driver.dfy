/**
 The operations of the protector as they are really called, one after another, and
 what holds however they end.
 */
module Driver {
  import opened Wrappers
  import opened Errors
  import opened Bytes
  import opened Identity
  import opened Policy
  import opened Envelopes
  import opened Crypto
  import opened Sessions
  import opened Backends
  import opened Runs
  import opened Protector

  /** What a caller may ask of the protector for an envelope and its root. */
  datatype Request =
    | Add(enrollment: Enrollment)
    | AddSecret(caption: Bytes)
    | AddLocal(caption: Bytes)
    | Remove(id: RecipientId)
    | Rewrap(id: RecipientId)
    | RewrapWith(id: RecipientId, parameters: PassphraseParameters)
    | Reopen(id: RecipientId)
    | Retire(id: RecipientId)
  {
    /** Labels and parameters inside an enrollment are valid by construction. */
    predicate WellFormed() {
      match this
      case Add(e) => LabelValid(e.caption) && (e.parameters.Some? ==> e.parameters.value.Valid())
      case RewrapWith(_, parameters) => parameters.Valid()
      case _ => true
    }

    predicate Enrolls() {
      Add? || AddLocal?
    }
  }

  /** One call. Whatever comes of it is one of the changes that a run consists of. */
  method Perform(k: KeyProtector, envelope: KeyEnvelope, root: Bytes32, request: Request, s: Session) returns (ghost change: Change)
    requires k.Valid() && Envelopes.Valid(envelope.Value(), k.p.onCurve) && request.WellFormed()
    modifies envelope, k.backend.Target(), s
    ensures k.Valid() && Changes(k.p, root, old(envelope.Value()), change, envelope.Value())
  {
    hide Changes, Envelopes.Valid, KeyProtector.Valid, LabelValid, PassphraseParameters.Valid, PrimitiveSet.Sized,
         PrimitiveSet.Lawful, Mac, Followed, FollowedOrUndone, Fits, RandomlyMade, KeyProtector.Given, KeyProtector.StoreTells,
         KeyProtector.AddRefusal, KeyProtector.RemoveRefusal, KeyProtector.RewrapRefusal, KeyProtector.UnlockRefusal,
         KeyProtector.ManagedRefusal, AuthenticatorBackend.Stores, AuthenticatorBackend.History;
    change := Unchanged;
    NoChange(k.p, root, envelope.Value());
    if request.Enrolls() && !k.backend.HasRoom() {
      return;
    }
    match request {
      case Add(enrollment) => var r; r, change := k.AddRecipient(envelope, root, enrollment, s);
      case AddSecret(caption) => var r; r, change := k.AddRecoverySecret(envelope, root, caption, s);
      case AddLocal(caption) => var r; r, change := k.AddFidoAndLocalSecret(envelope, root, caption, s);
      case Remove(id) => var r; r, change := k.RemoveRecipient(envelope, root, id);
      case Rewrap(id) => var r; r, change := k.RewrapPassphrase(envelope, root, id, s);
      case RewrapWith(id, parameters) => var r; r, change := k.RewrapPassphraseWithParameters(envelope, root, id, parameters, s);
      case Reopen(id) => var r, _ := k.Unlock(envelope, id, s);
      case Retire(id) => var r := k.RetireManagedRecipient(envelope, root, id, s);
    }
  }

  lemma NoChange(p: Primitives, root: Bytes32, e: Envelope)
    ensures Changes(p, root, e, Unchanged, e)
  {
  }

  /** Any list of calls is a run, so at its end every route still opens the root. */
  method Drive(k: KeyProtector, envelope: KeyEnvelope, root: Bytes32, requests: seq<Request>, s: Session,
               ghost ring: map<RecipientId, Factors>)
    returns (ghost states: seq<State>, ghost changes: seq<Change>)
    requires k.Valid() && k.p.Lawful() && forall i | 0 <= i < |requests| :: requests[i].WellFormed()
    requires Sound(k.p, root, k.applicationId, envelope.envelopeId, State(envelope.Value(), ring))
    modifies envelope, k.backend.Target(), s
    ensures k.Valid()
    ensures |changes| == |requests| && IsRun(k.p, root, states, changes)
    ensures states[0] == State(old(envelope.Value()), ring) && states[|requests|].envelope == envelope.Value()
    ensures Sound(k.p, root, k.applicationId, old(envelope.envelopeId), states[|requests|])
  {
    hide Sound, Step, Request.WellFormed, KeyProtector.Valid, PrimitiveSet.Lawful;
    states, changes := [State(envelope.Value(), ring)], [];
    ghost var envelopeId := envelope.envelopeId;
    for n := 0 to |requests|
      invariant k.Valid() && |changes| == n && IsRun(k.p, root, states, changes)
      invariant states[0] == State(old(envelope.Value()), ring) && states[n].envelope == envelope.Value()
      invariant Sound(k.p, root, k.applicationId, envelopeId, states[n])
    {
      ghost var last := states[n];
      SoundIsValid(k.p, root, k.applicationId, envelopeId, last);
      ghost var change := Perform(k, envelope, root, requests[n], s);
      ghost var next := State(envelope.Value(), NextRing(last.envelope, last.ring, change));
      MakesStep(k.p, root, last, change, next);
      StepKeeps(k.p, root, k.applicationId, envelopeId, last, change, next);
      RunExtends(k.p, root, states, changes, change, next);
      states, changes := states + [next], changes + [change];
    }
  }

  lemma SoundIsValid(p: Primitives, root: Bytes32, app: Bytes, envelopeId: Bytes32, s: State)
    requires Sound(p, root, app, envelopeId, s)
    ensures Envelopes.Valid(s.envelope, p.onCurve)
  {
  }

  lemma MakesStep(p: Primitives, root: Bytes32, s: State, c: Change, t: State)
    requires Changes(p, root, s.envelope, c, t.envelope) && t.ring == NextRing(s.envelope, s.ring, c)
    ensures Step(p, root, s, c, t)
  {
  }

  lemma RunExtends(p: Primitives, root: Bytes32, states: seq<State>, changes: seq<Change>, c: Change, t: State)
    requires IsRun(p, root, states, changes) && Step(p, root, states[|changes|], c, t)
    ensures IsRun(p, root, states + [t], changes + [c])
  {
    hide Step;
  }

  /** Creates a root and then makes any list of calls: the root that was created is what every route opens. */
  method Lifetime(k: KeyProtector, enrollment: Enrollment, requests: seq<Request>, s: Session)
    returns (r: Outcome<(Bytes32, KeyEnvelope)>, ghost last: State)
    requires k.Valid() && k.backend.HasRoom() && k.p.Lawful() && Add(enrollment).WellFormed()
    requires forall i | 0 <= i < |requests| :: requests[i].WellFormed()
    modifies k.backend.Target(), s
    ensures k.Valid()
    ensures r.Ok? ==>
              && Ok(r.value.0) == s.Draw(old(s.clock), 32)
              && last.envelope == r.value.1.Value()
              && Sound(k.p, r.value.0, k.applicationId, r.value.1.envelopeId, last)
  {
    hide Sound, Step, Changes, LabelValid, PassphraseParameters.Valid, PrimitiveSet.Lawful, PrimitiveSet.Sized, Session.Draw,
         DnsShaped, Mac, FollowedOrUndone, Fits, RandomlyMade, KeyProtector.Given, KeyProtector.StoreTells,
         AuthenticatorBackend.Stores, AuthenticatorBackend.History;
    last := State(Envelope(k.applicationId, Zeros(32), [], Zeros(32)), map[]);
    var created, change := k.CreateRoot(enrollment, s);
    if created.Err? {
      return Err(created.error), last;
    }
    var (root, e, id) := created.value;
    CreatedSound(k.p, root, k.applicationId, change.record, change.factors, e);
    var envelope := new KeyEnvelope(e);
    ghost var states, changes := Drive(k, envelope, root, requests, s, map[change.record.id := change.factors]);
    last := states[|requests|];
    SoundIdentity(k.p, root, k.applicationId, e.envelopeId, last);
    return Ok((root, envelope)), last;
  }

  lemma SoundIdentity(p: Primitives, root: Bytes32, app: Bytes, envelopeId: Bytes32, s: State)
    requires Sound(p, root, app, envelopeId, s)
    ensures s.envelope.envelopeId == envelopeId
  {
  }

  /** An addition and the removal of what it added: the envelope ends as it began, however far this gets. */
  method AddAndRemove(k: KeyProtector, envelope: KeyEnvelope, root: Bytes32, enrollment: Enrollment, s: Session)
    returns (r: Outcome<()>)
    requires k.Valid() && k.backend.HasRoom() && Envelopes.Valid(envelope.Value(), k.p.onCurve) && Add(enrollment).WellFormed()
    modifies envelope, k.backend.Target(), s
    ensures envelope.Value() == old(envelope.Value())
  {
    hide Envelopes.Valid, KeyProtector.Valid, LabelValid, PassphraseParameters.Valid, Mac, Encoded, PrimitiveSet.Sized,
         PrimitiveSet.Lawful, KeyProtector.RemoveRefusal;
    ghost var e := envelope.Value();
    var added, c := k.AddRecipient(envelope, root, enrollment, s);
    if added.Err? {
      Nothing(k.p, root, e, c, envelope.Value());
      return Err(added.error);
    }
    ghost var f := envelope.Value();
    HasRecipient(e, k.p.onCurve);
    ChangesKeepValid(k.p, root, e, c, f);
    k.AddedCanBeRemoved(root, e, c, f);
    hide Changes;
    ghost var d;
    r, d := k.RemoveRecipient(envelope, root, added.value);
    RemovalRestores(k.p, root, e, c, f, d, envelope.Value());
  }

  lemma Nothing(p: Primitives, root: Bytes32, e: Envelope, c: Change, f: Envelope)
    requires c.Unchanged? && Changes(p, root, e, c, f)
    ensures f == e
  {
  }

  lemma HasRecipient(e: Envelope, onCurve: Bytes -> bool)
    requires Envelopes.Valid(e, onCurve)
    ensures e.recipients != []
  {
  }
}
