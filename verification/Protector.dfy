/** The protector: creating an envelope, and every operation on one. */
module Protector {
  import opened Wrappers
  import opened Errors
  import opened Bytes
  import opened Identity
  import opened Policy
  import opened Envelopes
  import opened Crypto
  import opened Sessions
  import opened Requests
  import opened Native
  import opened Inventory
  import opened Backends
  import opened Roster
  import opened Runs
  import Codec

  const RANDOM_ATTEMPTS := 32

  class KeyEnvelope {
    var applicationId: Bytes
    var envelopeId: Bytes32
    var recipients: seq<RecipientRecord>
    var mac: Bytes32

    function Value(): Envelope
      reads this
    {
      Envelope(applicationId, envelopeId, recipients, mac)
    }

    constructor (e: Envelope)
      ensures Value() == e
    {
      applicationId, envelopeId, recipients, mac := e.applicationId, e.envelopeId, e.recipients, e.mac;
    }

    method Assign(e: Envelope)
      modifies this
      ensures Value() == e
    {
      applicationId, envelopeId, recipients, mac := e.applicationId, e.envelopeId, e.recipients, e.mac;
    }
  }

  // ----- what the user sees -----

  /** The prompts, the assertions and the derivation of one enrollment, in order. */
  function EnrollmentScript(policy: RecipientPolicy, operation: Operation, caption: Bytes): seq<Event>
  {
    match policy
    case PassphrasePolicy => NewPassphraseScript(operation, caption)
    case RecoverySecretPolicy => []
    case FidoOnly(f) => EnrollScript(operation, caption, f) + AssertScript(operation, caption, f)
    case ManagedFido(f) => EnrollScript(operation, caption, f) + TouchScript(operation, caption, f)
    case FidoAndPassphrasePolicy(f) =>
      EnrollScript(operation, caption, f) + AssertScript(operation, caption, f) + NewPassphraseScript(operation, caption)
    case FidoPresenceAndLocalSecret => EnrollScript(operation, caption, Presence) + AssertScript(operation, caption, Presence)
  }

  /** What may follow when a managed enrollment is undone. */
  function UndoScript(policy: RecipientPolicy, caption: Bytes): seq<Event>
  {
    if policy.ManagedFido? then TouchScript(Operation.RetireManagedRecipient, caption, policy.policy) else []
  }

  function AssertedPolicy(r: RecipientRecord): FidoPolicy
    requires r.UsesCredential()
  {
    if r.FidoAndLocalSecret? then Presence else r.policy
  }

  function UnlockScript(r: RecipientRecord): seq<Event>
  {
    (if r.UsesCredential() then AssertScript(Unlock, r.caption, AssertedPolicy(r)) else [])
    + (if r.UsesPassphrase() then OldPassphraseScript(Unlock, r.caption) else [])
  }

  function RewrapScript(r: RecipientRecord): seq<Event>
  {
    (if r.FidoAndPassphrase? then AssertScript(RewrapPassphrase, r.caption, r.policy) else [])
    + NewPassphraseScript(RewrapPassphrase, r.caption)
  }

  lemma StillUndone(a: seq<Event>, b: seq<Event>, first: seq<Event>, second: seq<Event>, undo: seq<Event>)
    requires FollowedOrUndone(a, b, first, undo, false)
    ensures FollowedOrUndone(a, b, first + second, undo, false)
  {
    var k :| 0 <= k <= |first| && a + first[..k] <= b <= a + first[..k] + undo;
    assert (first + second)[..k] == first[..k];
  }

  lemma NothingDone(a: seq<Event>, script: seq<Event>, undo: seq<Event>)
    ensures FollowedOrUndone(a, a, script, undo, false)
  {
    OnlyFollowed(a, a, script, undo, false);
  }

  lemma FailedAfterAll(a: seq<Event>, b: seq<Event>, c: seq<Event>, script: seq<Event>, undo: seq<Event>)
    requires Followed(a, b, script, true) && Followed(b, c, undo, false)
    ensures FollowedOrUndone(a, c, script, undo, false)
  {
    FollowedThenUndone(a, b, c, script, undo);
  }

  lemma NothingFollowed(a: seq<Event>, script: seq<Event>)
    ensures Followed(a, a, script, false)
  {
  }

  lemma AllFollowed(a: seq<Event>, b: seq<Event>, script: seq<Event>, undo: seq<Event>)
    requires FollowedOrUndone(a, b, script, undo, true)
    ensures Followed(a, b, script, true)
  {
  }

  // ----- new records -----

  /** The record that this enrollment asks for. */
  predicate Fits(r: RecipientRecord, policy: RecipientPolicy, caption: Bytes, parameters: Option<PassphraseParameters>)
  {
    && r.caption == caption
    && match policy
       case PassphrasePolicy => r.Passphrase? && parameters == Some(r.kdf.parameters)
       case RecoverySecretPolicy => r.RecoverySecret?
       case FidoOnly(f) => r.Fido? && r.policy == f && r.storage == NonDiscoverable
       case ManagedFido(f) => r.Fido? && r.policy == f && r.storage == Managed
       case FidoAndPassphrasePolicy(f) => r.FidoAndPassphrase? && r.policy == f && parameters == Some(r.kdf.parameters)
       case FidoPresenceAndLocalSecret => r.FidoAndLocalSecret?
  }

  /** The nonces and the salt of a record, in the order in which they are drawn. */
  function RandomParts(r: RecipientRecord): seq<Bytes>
  {
    match r
    case Passphrase(_, _, kdf, nonce, _) => [kdf.salt, nonce]
    case RecoverySecret(_, _, nonce, _) => [nonce]
    case Fido(_, _, _, _, _, _, prfNonce, nonce, _) => [prfNonce, nonce]
    case FidoAndPassphrase(_, _, _, _, _, prfNonce, fidoNonce, kdf, nonce, _) => [prfNonce, fidoNonce, kdf.salt, nonce]
    case FidoAndLocalSecret(_, _, _, _, prfNonce, nonce, _) => [prfNonce, nonce]
  }

  /** The id is drawn, and the nonces and the salt are, each from a stretch of randomness of its own. */
  ghost predicate RandomlyMade(r: RecipientRecord, s: Session)
  {
    DrawnApart(s, [r.id]) && DrawnApart(s, RandomParts(r))
  }

  datatype Route = Route(record: RecipientRecord, keys: RecoveryKeys)

  /** A valid record that fits into the envelope and carries the root under the keys that the factors give. */
  ghost predicate IsRoute(p: Primitives, e: Envelope, root: Bytes32, route: Route, f: Factors)
  {
    && route.record.Valid(p.onCurve)
    && Wraps(p, route.record, e.applicationId, e.envelopeId, root, f)
    && route.keys == KeysFrom(p, route.record, e.applicationId, e.envelopeId, f)
  }

  lemma JoinsBy(rs: seq<RecipientRecord>, r: RecipientRecord)
    requires IdFree(rs, r.id)
    requires r.UsesPassphrase() ==> SaltFree(rs, r.kdf.salt)
    requires r.UsesCredential() ==> CredentialFree(rs, r.credentialId)
    ensures Joins(rs, r)
  {
  }

  /** Filling in the wrapped root turns a prepared record into a route, and changes nothing else. */
  lemma WrappedIsRoute(p: Primitives, e: Envelope, root: Bytes32, r: RecipientRecord, f: Factors)
    requires r.Valid(p.onCurve) && Suits(r, f)
    ensures var keys := KeysFrom(p, r, e.applicationId, e.envelopeId, f);
            var w := Wrap(p, r, e.applicationId, e.envelopeId, root, keys);
            && IsRoute(p, e, root, Route(w, keys), f)
            && Bound(w) == Bound(r) && w.caption == r.caption
            && PrfInputOf(p, w, e.applicationId, e.envelopeId) == PrfInputOf(p, r, e.applicationId, e.envelopeId)
  {
    var keys := KeysFrom(p, r, e.applicationId, e.envelopeId, f);
    var w := Wrap(p, r, e.applicationId, e.envelopeId, root, keys);
    WrapKeeps(p, r, e.applicationId, e.envelopeId, root, keys);
    KeysIgnoreRoot(p, r, w, e.applicationId, e.envelopeId, f);
    hide Context, KeysFrom, Tagged, RecipientRecord.Valid, PrimitiveSet.Sized;
  }

  /** What depends on the bound part of a record and its label only. */
  lemma BoundFits(w: RecipientRecord, r: RecipientRecord, policy: RecipientPolicy, caption: Bytes,
                  parameters: Option<PassphraseParameters>)
    requires Bound(w) == Bound(r) && w.caption == r.caption
    ensures Fits(w, policy, caption, parameters) == Fits(r, policy, caption, parameters)
    ensures w.id == r.id && RandomParts(w) == RandomParts(r)
  {
  }

  lemma BoundJoins(w: RecipientRecord, r: RecipientRecord, rs: seq<RecipientRecord>)
    requires Bound(w) == Bound(r) && Joins(rs, r)
    ensures Joins(rs, w)
  {
    assert w.id == r.id;
    forall i | 0 <= i < |rs|
      ensures Clash(rs[i], w) == Clash(rs[i], r)
    {
    }
  }

  lemma BoundBinds(w: RecipientRecord, r: RecipientRecord, app: Bytes, f: Factors)
    requires Bound(w) == Bound(r) && w.caption == r.caption
    ensures Suits(w, f) == Suits(r, f)
    ensures w.UsesPassphrase() == r.UsesPassphrase() && w.UsesCredential() == r.UsesCredential()
    ensures w.UsesCredential() ==> BindingOf(w, app) == BindingOf(r, app)
  {
  }

  function BindingOf(r: RecipientRecord, app: Bytes): CredentialBinding
    requires r.UsesCredential()
  {
    CredentialBinding(app, r.id, r.credentialId, r.publicKey, AssertedPolicy(r), r.caption)
  }

  // ----- factors as they were given -----

  /** The user gave this passphrase twice in a row. */
  ghost predicate SpokenTwice(s: Session, passphrase: Bytes)
  {
    exists t: nat :: s.passphrases(t) == Ok(passphrase) && s.passphrases(t + 1) == Ok(passphrase)
  }

  /** The same factors but for what a security key gives. */
  predicate SameOther(f: Factors, g: Factors)
  {
    match (f, g)
    case (ByFido(_), ByFido(_)) => true
    case (ByFidoAndPassphrase(_, x), ByFidoAndPassphrase(_, y)) => x == y
    case (ByFidoAndSecret(_, x), ByFidoAndSecret(_, y)) => x == y
    case _ => f == g
  }

  ghost predicate Spoken(s: Session, passphrase: Bytes)
  {
    exists t: nat :: s.passphrases(t) == Ok(passphrase)
  }

  /** All that can go wrong with a new passphrase once it may be asked for. */
  predicate PassphraseFailure(e: Error)
  {
    e.Interaction? || e == PassphraseConfirmationMismatch || e == KdfResourceUnavailable || e == RandomUnavailable
  }

  /** All that can go wrong with the passphrase of an unlock. */
  predicate OldPassphraseFailure(e: Error)
  {
    e.Interaction? || e == KdfResourceUnavailable
  }

  // ----- random values -----

  /** The first of 32 draws that is no recipient's id. */
  ghost function FirstFreeId(rs: seq<RecipientRecord>, s: Session, time: nat): Outcome<Bytes>
  {
    s.FirstAccepted(time, 32, b => |b| == 32 && !IdFree(rs, b), RANDOM_ATTEMPTS)
  }

  ghost function FirstFreeSalt(rs: seq<RecipientRecord>, s: Session, time: nat): Outcome<Bytes>
  {
    s.FirstAccepted(time, 16, b => |b| == 16 && !SaltFree(rs, b), RANDOM_ATTEMPTS)
  }

  predicate SaltUsed(rs: seq<RecipientRecord>, salt: Bytes16): (used: bool)
    ensures used <==> !SaltFree(rs, salt)
  {
    exists i | 0 <= i < |rs| :: rs[i].UsesPassphrase() && rs[i].kdf.salt == salt
  }

  ghost function FirstOther(previous: Bytes, s: Session, time: nat): Outcome<Bytes>
  {
    s.FirstAccepted(time, |previous|, b => b == previous, RANDOM_ATTEMPTS)
  }

  lemma FourApart(s: Session, a: Bytes, b: Bytes, c: Bytes, d: Bytes, t0: nat, t1: nat, t2: nat, t3: nat, t4: nat)
    requires InTurn(s, [a], t0, t1) && InTurn(s, [b], t1, t2) && InTurn(s, [c], t2, t3) && InTurn(s, [d], t3, t4)
    ensures DrawnApart(s, [a, b, c, d])
  {
    hide InTurn, DrawnApart;
    InTurnAppend(s, [a], b, t0, t1, t2);
    InTurnAppend(s, [a] + [b], c, t0, t2, t3);
    InTurnAppend(s, [a] + [b] + [c], d, t0, t3, t4);
    assert [a] + [b] + [c] + [d] == [a, b, c, d];
    Apart(s, [a, b, c, d], t0, t4);
  }

  // ----- the facade -----

  class KeyProtector {
    const p: Primitives
    const applicationId: Bytes
    const limits: PassphraseLimits
    const backend: AuthenticatorBackend

    ghost predicate Valid()
      reads backend.Target()
    {
      DnsShaped(applicationId) && backend.Valid(p)
    }

    constructor (p: Primitives, applicationId: Bytes, limits: PassphraseLimits, backend: AuthenticatorBackend)
      requires DnsShaped(applicationId) && backend.Valid(p)
      ensures Valid() && this.p == p && this.applicationId == applicationId && this.limits == limits && this.backend == backend
    {
      this.p, this.applicationId, this.limits, this.backend := p, applicationId, limits, backend;
    }

    /** How much had reached the devices. */
    ghost function Mark(): nat
      reads backend.Target()
    {
      |backend.History()|
    }

    // ----- random values -----

    method UniqueRecipientId(e: Envelope, s: Session) returns (r: Outcome<Bytes>)
      requires Ascending(e.recipients)
      modifies s`clock
      ensures r == old(FirstFreeId(e.recipients, s, s.clock))
      ensures r.Ok? ==> |r.value| == 32 && IdFree(e.recipients, r.value)
      ensures r.Err? ==> r.error == RandomUnavailable
      ensures r.Ok? ==> InTurn(s, [r.value], old(s.clock), s.clock)
    {
      hide Ascending, Rank, IdFree, Session.Draw, InTurn;
      ghost var used := (b: Bytes) => |b| == 32 && !IdFree(e.recipients, b);
      for attempt := 0 to RANDOM_ATTEMPTS
        invariant s.FirstAccepted(s.clock, 32, used, RANDOM_ATTEMPTS - attempt)
                  == s.FirstAccepted(old(s.clock), 32, used, RANDOM_ATTEMPTS)
        invariant s.clock >= old(s.clock)
      {
        ghost var began := s.clock;
        var id :- s.RandomArray(32);
        InTurnEarlier(s, [id], old(s.clock), began, s.clock);
        var found := Envelopes.Find(e.recipients, id);
        FoundIfTaken(e.recipients, id, found);
        if found.Err? {
          return Ok(id);
        }
      }
      return Err(RandomUnavailable);
    }

    static lemma FoundIfTaken(rs: seq<RecipientRecord>, id: RecipientId, found: Outcome<nat>)
      requires if found.Ok? then found.value < |rs| && rs[found.value].id == id else forall i | 0 <= i < |rs| :: rs[i].id != id
      ensures IdFree(rs, id) <==> found.Err?
    {
    }

    method UniqueSalt(e: Envelope, s: Session) returns (r: Outcome<Bytes>)
      modifies s`clock
      ensures r == old(FirstFreeSalt(e.recipients, s, s.clock))
      ensures r.Ok? ==> |r.value| == 16 && SaltFree(e.recipients, r.value)
      ensures r.Err? ==> r.error == RandomUnavailable
      ensures r.Ok? ==> InTurn(s, [r.value], old(s.clock), s.clock)
    {
      hide Session.Draw, InTurn, SaltFree, SaltUsed;
      ghost var used := (b: Bytes) => |b| == 16 && !SaltFree(e.recipients, b);
      for attempt := 0 to RANDOM_ATTEMPTS
        invariant s.FirstAccepted(s.clock, 16, used, RANDOM_ATTEMPTS - attempt)
                  == s.FirstAccepted(old(s.clock), 16, used, RANDOM_ATTEMPTS)
        invariant s.clock >= old(s.clock)
      {
        ghost var began := s.clock;
        var salt :- s.RandomArray(16);
        InTurnEarlier(s, [salt], old(s.clock), began, s.clock);
        var duplicate := SaltUsed(e.recipients, salt);
        if !duplicate {
          return Ok(salt);
        }
      }
      return Err(RandomUnavailable);
    }

    method FreshArray(previous: Bytes, s: Session) returns (r: Outcome<Bytes>)
      modifies s`clock
      ensures r == old(FirstOther(previous, s, s.clock))
      ensures r.Ok? ==> |r.value| == |previous| && r.value != previous
      ensures r.Err? ==> r.error == RandomUnavailable
      ensures r.Ok? ==> InTurn(s, [r.value], old(s.clock), s.clock)
    {
      hide Session.Draw, InTurn;
      ghost var used := (b: Bytes) => b == previous;
      for attempt := 0 to RANDOM_ATTEMPTS
        invariant s.FirstAccepted(s.clock, |previous|, used, RANDOM_ATTEMPTS - attempt)
                  == s.FirstAccepted(old(s.clock), |previous|, used, RANDOM_ATTEMPTS)
        invariant s.clock >= old(s.clock)
      {
        ghost var began := s.clock;
        var value :- s.RandomArray(|previous|);
        InTurnEarlier(s, [value], old(s.clock), began, s.clock);
        if value != previous {
          return Ok(value);
        }
      }
      return Err(RandomUnavailable);
    }

    // ----- pieces of an enrollment -----

    method ValidateCredential(e: Envelope, credentialId: Bytes) returns (r: Outcome<()>)
      ensures r.Ok? <==> 1 <= |credentialId| <= MAX_CREDENTIAL_ID && CredentialFree(e.recipients, credentialId)
      ensures r.Err? ==> r.error == AuthenticatorResponseInvalid
    {
      if credentialId == [] || |credentialId| > MAX_CREDENTIAL_ID
         || exists i | 0 <= i < |e.recipients| :: e.recipients[i].UsesCredential() && e.recipients[i].credentialId == credentialId {
        return Err(AuthenticatorResponseInvalid);
      }
      return Ok(());
    }

    method RequestNewPassphrase(operation: Operation, caption: Bytes, s: Session) returns (r: Outcome<Passphrase>)
      modifies s`clock, s`log
      ensures Followed(old(s.log), s.log, [PassphraseAsked(operation, caption, ForNew),
                                           PassphraseAsked(operation, caption, ForConfirmation)], r.Ok?)
      ensures r == match s.passphrases(old(s.clock))
                   case Err(x) => Err(Interaction(x))
                   case Ok(first) =>
                     match s.passphrases(old(s.clock) + 1)
                     case Err(x) => Err(Interaction(x))
                     case Ok(second) => if first == second then Ok(first) else Err(PassphraseConfirmationMismatch)
    {
      var passphrase :- s.RequestPassphrase(operation, caption, ForNew);
      var confirmation :- s.RequestPassphrase(operation, caption, ForConfirmation);
      if passphrase != confirmation {
        return Err(PassphraseConfirmationMismatch);
      }
      return Ok(passphrase);
    }

    method DerivePassphraseKey(r: RecipientRecord, envelopeId: Bytes32, passphrase: Bytes, s: Session)
      returns (key: Outcome<Bytes32>)
      requires r.UsesPassphrase()
      modifies s`clock, s`log
      ensures s.log == old(s.log) + [KeyDerived]
      ensures key.Ok? ==> key.value == PassphraseKey(p, r, applicationId, envelopeId, passphrase)
      ensures key.Err? ==> key.error == KdfResourceUnavailable
    {
      var _ :- s.ReserveMemory();
      return Ok(PassphraseKey(p, r, applicationId, envelopeId, passphrase));
    }

    /** A new passphrase, and the key it gives for this record. */
    method NewPassphraseKey(r: RecipientRecord, envelopeId: Bytes32, operation: Operation, s: Session)
      returns (key: Outcome<Bytes32>, ghost passphrase: Bytes)
      requires r.UsesPassphrase()
      modifies s`clock, s`log
      ensures Followed(old(s.log), s.log, NewPassphraseScript(operation, r.caption), key.Ok?)
      ensures key.Ok? ==> key.value == PassphraseKey(p, r, applicationId, envelopeId, passphrase) && SpokenTwice(s, passphrase)
      ensures key.Err? ==> PassphraseFailure(key.error)
    {
      hide PassphraseKey;
      var asked := [PassphraseAsked(operation, r.caption, ForNew), PassphraseAsked(operation, r.caption, ForConfirmation)];
      assert asked + [KeyDerived] == NewPassphraseScript(operation, r.caption);
      var given := RequestNewPassphrase(operation, r.caption, s);
      if given.Err? {
        Stops(old(s.log), s.log, asked, [KeyDerived]);
        return Err(given.error), [];
      }
      ghost var log := s.log;
      passphrase := given.value;
      key := DerivePassphraseKey(r, envelopeId, given.value, s);
      Continues(old(s.log), log, s.log, asked, [KeyDerived], key.Ok?);
    }

    method Evaluate(r: RecipientRecord, e: Envelope, operation: Operation, s: Session) returns (prf: Outcome<Bytes32>)
      requires Valid()
      modifies backend.Target(), s
      ensures Valid() && backend.Stores() == old(backend.Stores())
      ensures old(backend.HasRoom()) ==> backend.HasRoom()
      ensures !r.UsesCredential() ==> prf == Err(InvalidEnvelope) && s.log == old(s.log)
      ensures r.UsesCredential() ==> Followed(old(s.log), s.log, AssertScript(operation, r.caption, AssertedPolicy(r)), prf.Ok?)
      ensures old(backend.History()) <= backend.History() && |backend.History()| <= |old(backend.History())| + 1
      ensures prf.Ok? ==> backend.Answers(old(Mark()), BindingOf(r, applicationId), PrfInputOf(p, r, applicationId, e.envelopeId), prf.value)
    {
      if !r.UsesCredential() {
        return Err(InvalidEnvelope);
      }
      hide PrfInputOf, AssertScript, AuthenticatorBackend.Answers, AuthenticatorBackend.Stores;
      var input := PrfInputOf(p, r, applicationId, e.envelopeId);
      prf := backend.Evaluate(p, BindingOf(r, applicationId), input, operation, s);
    }

    /** The factors are what the user and the authenticator gave for this record. */
    ghost predicate Given(e: Envelope, r: RecipientRecord, f: Factors, s: Session, since: nat)
      reads backend.Target()
    {
      && (r.UsesPassphrase() && Suits(r, f) ==> SpokenTwice(s, f.passphrase))
      && (r.UsesCredential() && Suits(r, f) ==>
            backend.Answers(since, BindingOf(r, applicationId), PrfInputOf(p, r, applicationId, e.envelopeId), f.prf))
    }

    /** Everything that is known of a newly enrolled record. */
    ghost predicate Enrolled(e: Envelope, root: Bytes32, policy: RecipientPolicy, caption: Bytes,
                             parameters: Option<PassphraseParameters>, route: Route, f: Factors, s: Session, since: nat)
      reads backend.Target()
    {
      && IsRoute(p, e, root, route, f)
      && Joins(e.recipients, route.record)
      && Fits(route.record, policy, caption, parameters)
      && RandomlyMade(route.record, s)
      && Given(e, route.record, f, s, since)
    }

    lemma EnrolledEarlier(e: Envelope, root: Bytes32, policy: RecipientPolicy, caption: Bytes,
                          parameters: Option<PassphraseParameters>, route: Route, f: Factors, s: Session, earlier: nat, since: nat)
      requires Enrolled(e, root, policy, caption, parameters, route, f, s, since) && earlier <= since
      ensures Enrolled(e, root, policy, caption, parameters, route, f, s, earlier)
    {
      var r := route.record;
      if r.UsesCredential() && Suits(r, f) {
        backend.AnswersEarlier(earlier, since, BindingOf(r, applicationId), PrfInputOf(p, r, applicationId, e.envelopeId), f.prf);
      }
      hide AuthenticatorBackend.Answers, IsRoute, Joins, Fits, RandomlyMade, SpokenTwice, PrfInputOf;
    }

    /** A prepared record becomes a route once its root is wrapped under the keys of the given factors. */
    lemma CompletesEnrollment(e: Envelope, root: Bytes32, policy: RecipientPolicy, caption: Bytes,
                              parameters: Option<PassphraseParameters>, r: RecipientRecord, f: Factors, s: Session, since: nat)
      requires e.applicationId == applicationId && r.Valid(p.onCurve) && Suits(r, f)
      requires IdFree(e.recipients, r.id)
      requires r.UsesPassphrase() ==> SaltFree(e.recipients, r.kdf.salt)
      requires r.UsesCredential() ==> CredentialFree(e.recipients, r.credentialId)
      requires Fits(r, policy, caption, parameters) && RandomlyMade(r, s) && Given(e, r, f, s, since)
      ensures var keys := KeysFrom(p, r, applicationId, e.envelopeId, f);
              var w := Wrap(p, r, applicationId, e.envelopeId, root, keys);
              Enrolled(e, root, policy, caption, parameters, Route(w, keys), f, s, since) && w.id == r.id && RandomParts(w) == RandomParts(r)
    {
      hide Joins, Fits, PrfInputOf, KeysFrom, Wrap, Bound, RandomParts, DrawnApart, IsRoute, BindingOf, SpokenTwice, Suits,
           SaltFree, IdFree, CredentialFree, AuthenticatorBackend.Answers, RecipientRecord.Valid, RecipientRecord.UsesPassphrase,
           RecipientRecord.UsesCredential, PrimitiveSet.Sized;
      JoinsBy(e.recipients, r);
      var keys := KeysFrom(p, r, applicationId, e.envelopeId, f);
      var w := Wrap(p, r, applicationId, e.envelopeId, root, keys);
      WrappedIsRoute(p, e, root, r, f);
      BoundFits(w, r, policy, caption, parameters);
      BoundJoins(w, r, e.recipients);
      BoundBinds(w, r, applicationId, f);
    }

    // ----- enrollments -----

    /** A passphrase record that only lacks its wrapped root. */
    method PreparePassphrase(e: Envelope, caption: Bytes, parameters: PassphraseParameters, s: Session)
      returns (r: Outcome<RecipientRecord>)
      requires Ascending(e.recipients) && LabelValid(caption) && parameters.Valid()
      modifies s`clock
      ensures r.Ok? ==>
                && r.value.Passphrase? && r.value.Valid(p.onCurve)
                && IdFree(e.recipients, r.value.id) && SaltFree(e.recipients, r.value.kdf.salt)
                && Fits(r.value, PassphrasePolicy, caption, Some(parameters))
                && RandomlyMade(r.value, s)
      ensures r.Err? ==> r.error == RandomUnavailable
    {
      hide FirstFreeId, FirstFreeSalt, Session.Draw, InTurn, DrawnApart, IdFree, SaltFree, LabelValid,
           PassphraseParameters.Valid, Ascending;
      ghost var began := s.clock;
      var id :- UniqueRecipientId(e, s);
      Apart(s, [id], began, s.clock);
      began := s.clock;
      var salt :- UniqueSalt(e, s);
      ghost var middle := s.clock;
      var nonce :- s.RandomArray(12);
      InTurnAppend(s, [salt], nonce, began, middle, s.clock);
      assert [salt] + [nonce] == [salt, nonce];
      Apart(s, [salt, nonce], began, s.clock);
      return Ok(Passphrase(id, caption, KdfDescriptor(parameters, salt), nonce, Zeros(48)));
    }

    method EnrollPassphrase(e: Envelope, root: Bytes32, caption: Bytes, parameters: PassphraseParameters, operation: Operation,
                            s: Session)
      returns (r: Outcome<Route>, ghost f: Factors)
      requires WellFormed(e, p.onCurve) && e.applicationId == applicationId && LabelValid(caption) && parameters.Valid()
      modifies s`clock, s`log
      ensures Followed(old(s.log), s.log, EnrollmentScript(PassphrasePolicy, operation, caption), r.Ok?)
      ensures r.Ok? ==> Enrolled(e, root, PassphrasePolicy, caption, Some(parameters), r.value, f, s, old(Mark()))
      ensures r.Err? ==> PassphraseFailure(r.error)
    {
      hide IdFree, SaltFree, RandomlyMade, NewPassphraseScript, Wrap, PassphraseKey, SpokenTwice, Enrolled, DnsShaped,
           LabelValid, PassphraseParameters.Valid, PrimitiveSet.Sized, Ascending, NoClash;
      f := ByPassphrase([]);
      var record :- PreparePassphrase(e, caption, parameters, s);
      FitsCaption(record, PassphrasePolicy, caption, Some(parameters));
      var key, passphrase := NewPassphraseKey(record, e.envelopeId, operation, s);
      if key.Err? {
        return Err(key.error), f;
      }
      f := ByPassphrase(passphrase);
      var keys := PassphraseKeys(key.value);
      CompletesEnrollment(e, root, PassphrasePolicy, caption, Some(parameters), record, f, s, old(Mark()));
      return Ok(Route(Wrap(p, record, applicationId, e.envelopeId, root, keys), keys)), f;
    }

    /** Makes the record of a recovery secret, which asks nothing of the user. */
    method NewRecoverySecretRecord(e: Envelope, root: Bytes32, caption: Bytes, s: Session)
      returns (r: Outcome<(Route, Bytes32)>)
      requires WellFormed(e, p.onCurve) && e.applicationId == applicationId && LabelValid(caption)
      modifies s`clock
      ensures r.Ok? ==> Enrolled(e, root, RecoverySecretPolicy, caption, None, r.value.0, ByRecoverySecret(r.value.1), s, old(Mark()))
      ensures r.Ok? ==> DrawnApart(s, [r.value.1, r.value.0.record.id] + RandomParts(r.value.0.record))
      ensures r.Err? ==> r.error == RandomUnavailable
    {
      hide FirstFreeId, DnsShaped, Session.Draw, InTurn, DrawnApart, IdFree, Wrap, RecoverySecretKey, Enrolled, LabelValid,
           PrimitiveSet.Sized, Ascending, NoClash;
      ghost var t0 := s.clock;
      var secret :- s.RandomArray(32);
      ghost var t1 := s.clock;
      var id :- UniqueRecipientId(e, s);
      ghost var t2 := s.clock;
      var nonce :- s.RandomArray(12);
      Apart(s, [id], t1, t2);
      Apart(s, [nonce], t2, s.clock);
      InTurnAppend(s, [secret], id, t0, t1, t2);
      InTurnAppend(s, [secret] + [id], nonce, t0, t2, s.clock);
      assert [secret] + [id] + [nonce] == [secret, id] + [nonce];
      Apart(s, [secret, id] + [nonce], t0, s.clock);
      var record := RecoverySecret(id, caption, nonce, Zeros(48));
      var keys := RecoverySecretKeys(RecoverySecretKey(p, record, applicationId, e.envelopeId, secret));
      CompletesEnrollment(e, root, RecoverySecretPolicy, caption, None, record, ByRecoverySecret(secret), s, old(Mark()));
      return Ok((Route(Wrap(p, record, applicationId, e.envelopeId, root, keys), keys), secret));
    }

    /** Makes a credential that the envelope can use: the first part of every enrollment with a security key. */
    method NewCredential(e: Envelope, policy: FidoPolicy, caption: Bytes, operation: Operation, s: Session)
      returns (r: Outcome<CredentialMaterial>)
      requires Valid() && backend.HasRoom()
      modifies backend.Target(), s
      ensures Valid()
      ensures Followed(old(s.log), s.log, EnrollScript(operation, caption, policy), r.Ok?)
      ensures old(backend.History()) <= backend.History() && SameManaged(old(backend.Stores()), backend.Stores())
      ensures r.Ok? ==> p.onCurve(r.value.publicKey) && 1 <= |r.value.credentialId| <= MAX_CREDENTIAL_ID
                        && CredentialFree(e.recipients, r.value.credentialId)
    {
      hide EnrollScript, CredentialFree, SameManaged, AuthenticatorBackend.Stores;
      var credential :- backend.Enroll(p, applicationId, policy, caption, operation, s);
      var _ :- ValidateCredential(e, credential.credentialId);
      return Ok(credential);
    }

    method EnrollFido(e: Envelope, root: Bytes32, caption: Bytes, policy: FidoPolicy, operation: Operation, s: Session)
      returns (r: Outcome<Route>, ghost f: Factors)
      requires Valid() && backend.HasRoom()
      requires WellFormed(e, p.onCurve) && e.applicationId == applicationId && LabelValid(caption)
      modifies backend.Target(), s
      ensures Valid()
      ensures Followed(old(s.log), s.log, EnrollmentScript(FidoOnly(policy), operation, caption), r.Ok?)
      ensures SameManaged(old(backend.Stores()), backend.Stores())
      ensures r.Ok? ==> Enrolled(e, root, FidoOnly(policy), caption, None, r.value, f, s, old(Mark()))
    {
      hide SameManaged, AuthenticatorBackend.Stores, AuthenticatorBackend.History, EnrollScript, AssertScript, CredentialFree, WellFormed, LabelValid, Enrolled;
      f := ByPassphrase([]);
      var enroll, assertion := EnrollScript(operation, caption, policy), AssertScript(operation, caption, policy);
      var credential := NewCredential(e, policy, caption, operation, s);
      if credential.Err? {
        Stops(old(s.log), s.log, enroll, assertion);
        return Err(credential.error), f;
      }
      ghost var log, mark := s.log, Mark();
      r, f := WrapUnderFido(e, root, caption, policy, credential.value, operation, s);
      if r.Ok? {
        EnrolledEarlier(e, root, FidoOnly(policy), caption, None, r.value, f, s, old(Mark()), mark);
      }
      Continues(old(s.log), log, s.log, enroll, assertion, r.Ok?);
    }

    /** A record under a security key that only lacks its wrapped root. */
    method PrepareFido(id: RecipientId, caption: Bytes, policy: FidoPolicy, storage: FidoStorage,
                       credential: CredentialMaterial, s: Session)
      returns (r: Outcome<RecipientRecord>)
      requires LabelValid(caption) && DrawnApart(s, [id])
      requires p.onCurve(credential.publicKey) && 1 <= |credential.credentialId| <= MAX_CREDENTIAL_ID
      modifies s`clock
      ensures r.Ok? ==>
                && r.value.Fido? && r.value.Valid(p.onCurve) && r.value.id == id
                && BindingOf(r.value, applicationId)
                   == CredentialBinding(applicationId, id, credential.credentialId, credential.publicKey, policy, caption)
                && Fits(r.value, if storage == Managed then ManagedFido(policy) else FidoOnly(policy), caption, None)
                && RandomlyMade(r.value, s)
    {
      hide Session.Draw, InTurn, DrawnApart, LabelValid;
      ghost var began := s.clock;
      var prfNonce :- s.RandomArray(32);
      ghost var middle := s.clock;
      var nonce :- s.RandomArray(12);
      InTurnAppend(s, [prfNonce], nonce, began, middle, s.clock);
      assert [prfNonce] + [nonce] == [prfNonce, nonce];
      Apart(s, [prfNonce, nonce], began, s.clock);
      return Ok(Fido(id, caption, credential.credentialId, credential.publicKey, policy, storage, prfNonce, nonce, Zeros(48)));
    }

    method WrapUnderFido(e: Envelope, root: Bytes32, caption: Bytes, policy: FidoPolicy, credential: CredentialMaterial,
                         operation: Operation, s: Session)
      returns (r: Outcome<Route>, ghost f: Factors)
      requires Valid() && WellFormed(e, p.onCurve) && e.applicationId == applicationId && LabelValid(caption)
      requires p.onCurve(credential.publicKey) && 1 <= |credential.credentialId| <= MAX_CREDENTIAL_ID
      requires CredentialFree(e.recipients, credential.credentialId)
      modifies backend.Target(), s
      ensures Valid() && backend.Stores() == old(backend.Stores())
      ensures Followed(old(s.log), s.log, AssertScript(operation, caption, policy), r.Ok?)
      ensures r.Ok? ==> Enrolled(e, root, FidoOnly(policy), caption, None, r.value, f, s, old(Mark()))
    {
      hide FirstFreeId, DnsShaped, InTurn, DrawnApart, IdFree, CredentialFree, AssertScript, Wrap, FidoKey, Enrolled,
           PrfInputOf, Fits,
           LabelValid, PrimitiveSet.Sized, Ascending, NoClash, AuthenticatorBackend.Answers, AuthenticatorBackend.Stores,
           RecipientRecord.Valid, RandomlyMade, Given, KeysFrom;
      f := ByPassphrase([]);
      ghost var began := s.clock;
      var id :- UniqueRecipientId(e, s);
      Apart(s, [id], began, s.clock);
      var record :- PrepareFido(id, caption, policy, NonDiscoverable, credential, s);
      var prf :- Evaluate(record, e, operation, s);
      f := ByFido(prf);
      var keys := FidoKeys(FidoKey(p, record, applicationId, e.envelopeId, prf));
      GivenByFido(e, record, f, s, old(Mark()));
      KeysOfFido(record, e.envelopeId, prf);
      CompletesEnrollment(e, root, FidoOnly(policy), caption, None, record, f, s, old(Mark()));
      return Ok(Route(Wrap(p, record, applicationId, e.envelopeId, root, keys), keys)), f;
    }

    /** The random parts of a local-secret route, drawn before anything else. */
    method DrawLocal(e: Envelope, s: Session) returns (r: Outcome<(Bytes32, Bytes32, Bytes32, Bytes12)>)
      requires Ascending(e.recipients)
      modifies s`clock
      ensures r.Ok? ==> IdFree(e.recipients, r.value.0)
      ensures r.Ok? ==> DrawnApart(s, [r.value.0, r.value.1, r.value.2, r.value.3])
      ensures r.Ok? ==> DrawnApart(s, [r.value.0]) && DrawnApart(s, [r.value.2, r.value.3])
    {
      hide FirstFreeId, Session.Draw, InTurn, DrawnApart, IdFree, Ascending;
      ghost var t0 := s.clock;
      var id :- UniqueRecipientId(e, s);
      ghost var t1 := s.clock;
      var secret :- s.RandomArray(32);
      ghost var t2 := s.clock;
      var prfNonce :- s.RandomArray(32);
      ghost var t3 := s.clock;
      var nonce :- s.RandomArray(12);
      Apart(s, [id], t0, t1);
      InTurnAppend(s, [prfNonce], nonce, t2, t3, s.clock);
      assert [prfNonce] + [nonce] == [prfNonce, nonce];
      Apart(s, [prfNonce, nonce], t2, s.clock);
      InTurnAppend(s, [id], secret, t0, t1, t2);
      InTurnAppend(s, [id] + [secret], prfNonce, t0, t2, t3);
      InTurnAppend(s, [id] + [secret] + [prfNonce], nonce, t0, t3, s.clock);
      assert [id] + [secret] + [prfNonce] + [nonce] == [id, secret, prfNonce, nonce];
      Apart(s, [id, secret, prfNonce, nonce], t0, s.clock);
      return Ok((id, secret, prfNonce, nonce));
    }

    method EnrollFidoLocal(e: Envelope, root: Bytes32, caption: Bytes, operation: Operation, s: Session)
      returns (r: Outcome<(Route, Bytes32)>, ghost f: Factors)
      requires Valid() && backend.HasRoom()
      requires WellFormed(e, p.onCurve) && e.applicationId == applicationId && LabelValid(caption)
      modifies backend.Target(), s
      ensures Valid()
      ensures Followed(old(s.log), s.log, EnrollmentScript(FidoPresenceAndLocalSecret, operation, caption), r.Ok?)
      ensures SameManaged(old(backend.Stores()), backend.Stores())
      ensures r.Ok? ==> Enrolled(e, root, FidoPresenceAndLocalSecret, caption, None, r.value.0, f, s, old(Mark()))
                        && f.ByFidoAndSecret? && f.secret == r.value.1
                        && DrawnApart(s, [r.value.0.record.id, r.value.1] + RandomParts(r.value.0.record))
    {
      hide SameManaged, AuthenticatorBackend.History, DnsShaped, DrawnApart, IdFree, CredentialFree, AssertScript, EnrollScript, Wrap, FidoLocalKey, Enrolled, PrfInputOf,
           LabelValid, PrimitiveSet.Sized, Ascending, NoClash, AuthenticatorBackend.Answers, AuthenticatorBackend.Stores;
      f := ByPassphrase([]);
      var enroll, assertion := EnrollScript(operation, caption, Presence), AssertScript(operation, caption, Presence);
      SameManagedReflexive(backend.Stores());
      var drawn :- DrawLocal(e, s);
      var (id, secret, prfNonce, nonce) := drawn;
      assert [id, secret] + [prfNonce, nonce] == [id, secret, prfNonce, nonce];
      var credential := NewCredential(e, Presence, caption, operation, s);
      if credential.Err? {
        Stops(old(s.log), s.log, enroll, assertion);
        return Err(credential.error), f;
      }
      ghost var log, mark := s.log, Mark();
      var record := FidoAndLocalSecret(id, caption, credential.value.credentialId, credential.value.publicKey, prfNonce, nonce, Zeros(48));
      var route;
      route, f := WrapUnderFidoAndSecret(e, root, record, secret, operation, s);
      Continues(old(s.log), log, s.log, enroll, assertion, route.Ok?);
      if route.Ok? {
        EnrolledEarlier(e, root, FidoPresenceAndLocalSecret, caption, None, route.value, f, s, old(Mark()), mark);
      }
      r := if route.Ok? then Ok((route.value, secret)) else Err(route.error);
    }

    method WrapUnderFidoAndSecret(e: Envelope, root: Bytes32, record: RecipientRecord, secret: Bytes32, operation: Operation,
                                  s: Session)
      returns (r: Outcome<Route>, ghost f: Factors)
      requires Valid() && e.applicationId == applicationId
      requires record.FidoAndLocalSecret? && record.Valid(p.onCurve) && RandomlyMade(record, s)
      requires IdFree(e.recipients, record.id) && CredentialFree(e.recipients, record.credentialId)
      modifies backend.Target(), s
      ensures Valid() && backend.Stores() == old(backend.Stores())
      ensures Followed(old(s.log), s.log, AssertScript(operation, record.caption, Presence), r.Ok?)
      ensures r.Ok? ==> Enrolled(e, root, FidoPresenceAndLocalSecret, record.caption, None, r.value, f, s, old(Mark()))
                        && f.ByFidoAndSecret? && f.secret == secret
                        && r.value.record.id == record.id && RandomParts(r.value.record) == RandomParts(record)
    {
      hide IdFree, RandomlyMade, RandomParts, CredentialFree, AssertScript, Wrap, FidoLocalKey, Enrolled, PrfInputOf,
           RecipientRecord.Valid, DnsShaped,
           PrimitiveSet.Sized, AuthenticatorBackend.Answers, AuthenticatorBackend.Stores;
      f := ByPassphrase([]);
      var prf :- Evaluate(record, e, operation, s);
      f := ByFidoAndSecret(prf, secret);
      var keys := FidoAndLocalKeys(FidoLocalKey(p, record, applicationId, e.envelopeId, prf, secret));
      CompletesEnrollment(e, root, FidoPresenceAndLocalSecret, record.caption, None, record, f, s, old(Mark()));
      return Ok(Route(Wrap(p, record, applicationId, e.envelopeId, root, keys), keys)), f;
    }

    /** The passphrase is asked for only after the assertion. */
    method EnrollCombined(e: Envelope, root: Bytes32, caption: Bytes, policy: FidoPolicy, parameters: PassphraseParameters,
                          operation: Operation, s: Session)
      returns (r: Outcome<Route>, ghost f: Factors)
      requires Valid() && backend.HasRoom()
      requires WellFormed(e, p.onCurve) && e.applicationId == applicationId && LabelValid(caption) && parameters.Valid()
      modifies backend.Target(), s
      ensures Valid()
      ensures Followed(old(s.log), s.log, EnrollmentScript(FidoAndPassphrasePolicy(policy), operation, caption), r.Ok?)
      ensures SameManaged(old(backend.Stores()), backend.Stores())
      ensures r.Ok? ==> Enrolled(e, root, FidoAndPassphrasePolicy(policy), caption, Some(parameters), r.value, f, s, old(Mark()))
    {
      hide SameManaged, AuthenticatorBackend.Stores, AuthenticatorBackend.History, EnrollScript, AssertScript, NewPassphraseScript, CredentialFree, WellFormed, LabelValid, Enrolled,
           PassphraseParameters.Valid;
      f := ByPassphrase([]);
      var enroll, rest := EnrollScript(operation, caption, policy),
                          AssertScript(operation, caption, policy) + NewPassphraseScript(operation, caption);
      ConcatAssociative(enroll, AssertScript(operation, caption, policy), NewPassphraseScript(operation, caption));
      var credential := NewCredential(e, policy, caption, operation, s);
      if credential.Err? {
        Stops(old(s.log), s.log, enroll, rest);
        return Err(credential.error), f;
      }
      ghost var log, mark := s.log, Mark();
      r, f := WrapUnderBoth(e, root, caption, policy, parameters, credential.value, operation, s);
      if r.Ok? {
        EnrolledEarlier(e, root, FidoAndPassphrasePolicy(policy), caption, Some(parameters), r.value, f, s, old(Mark()), mark);
      }
      Continues(old(s.log), log, s.log, enroll, rest, r.Ok?);
    }

    /** A combined record that only lacks its wrapped root. */
    method PrepareCombined(e: Envelope, caption: Bytes, policy: FidoPolicy, parameters: PassphraseParameters,
                           credential: CredentialMaterial, s: Session)
      returns (r: Outcome<RecipientRecord>)
      requires Ascending(e.recipients) && LabelValid(caption) && parameters.Valid()
      requires p.onCurve(credential.publicKey) && 1 <= |credential.credentialId| <= MAX_CREDENTIAL_ID
      modifies s`clock
      ensures r.Ok? ==>
                && r.value.FidoAndPassphrase? && r.value.Valid(p.onCurve)
                && r.value.policy == policy && r.value.credentialId == credential.credentialId
                && IdFree(e.recipients, r.value.id) && SaltFree(e.recipients, r.value.kdf.salt)
                && Fits(r.value, FidoAndPassphrasePolicy(policy), caption, Some(parameters))
                && RandomlyMade(r.value, s)
    {
      hide FirstFreeId, FirstFreeSalt, Session.Draw, InTurn, DrawnApart, IdFree, SaltFree, LabelValid, PassphraseParameters.Valid,
           PrimitiveSet.Sized, Ascending;
      ghost var t0 := s.clock;
      var id :- UniqueRecipientId(e, s);
      ghost var t1 := s.clock;
      var prfNonce :- s.RandomArray(32);
      ghost var t2 := s.clock;
      var fidoNonce :- s.RandomArray(12);
      ghost var t3 := s.clock;
      var salt :- UniqueSalt(e, s);
      ghost var t4 := s.clock;
      var nonce :- s.RandomArray(12);
      Apart(s, [id], t0, t1);
      FourApart(s, prfNonce, fidoNonce, salt, nonce, t1, t2, t3, t4, s.clock);
      return Ok(FidoAndPassphrase(id, caption, credential.credentialId, credential.publicKey, policy, prfNonce, fidoNonce,
                                  KdfDescriptor(parameters, salt), nonce, Zeros(64)));
    }

    method WrapUnderBoth(e: Envelope, root: Bytes32, caption: Bytes, policy: FidoPolicy, parameters: PassphraseParameters,
                         credential: CredentialMaterial, operation: Operation, s: Session)
      returns (r: Outcome<Route>, ghost f: Factors)
      requires Valid() && WellFormed(e, p.onCurve) && e.applicationId == applicationId && LabelValid(caption) && parameters.Valid()
      requires p.onCurve(credential.publicKey) && 1 <= |credential.credentialId| <= MAX_CREDENTIAL_ID
      requires CredentialFree(e.recipients, credential.credentialId)
      modifies backend.Target(), s
      ensures Valid() && backend.Stores() == old(backend.Stores())
      ensures Followed(old(s.log), s.log, AssertScript(operation, caption, policy) + NewPassphraseScript(operation, caption), r.Ok?)
      ensures r.Ok? ==> Enrolled(e, root, FidoAndPassphrasePolicy(policy), caption, Some(parameters), r.value, f, s, old(Mark()))
    {
      hide IdFree, SaltFree, CredentialFree, AssertScript, NewPassphraseScript, Wrap, Enrolled, DnsShaped, Fits, RandomlyMade,
           LabelValid, PassphraseParameters.Valid, PrimitiveSet.Sized, Ascending, NoClash, RecipientRecord.Valid, Given, KeysFrom;
      f := ByPassphrase([]);
      var record :- PrepareCombined(e, caption, policy, parameters, credential, s);
      FitsCaption(record, FidoAndPassphrasePolicy(policy), caption, Some(parameters));
      var keys, given := BothKeys(record, e, operation, s);
      if keys.Err? {
        return Err(keys.error), f;
      }
      f := given;
      CompletesEnrollment(e, root, FidoAndPassphrasePolicy(policy), caption, Some(parameters), record, f, s, old(Mark()));
      return Ok(Route(Wrap(p, record, applicationId, e.envelopeId, root, keys.value), keys.value)), f;
    }

    static lemma FitsCaption(r: RecipientRecord, policy: RecipientPolicy, caption: Bytes,
                             parameters: Option<PassphraseParameters>)
      requires Fits(r, policy, caption, parameters)
      ensures r.caption == caption
    {
    }

    static lemma CombinedValid(r: RecipientRecord, onCurve: Bytes -> bool)
      requires r.FidoAndPassphrase? && LabelValid(r.caption) && r.kdf.parameters.Valid()
      requires 1 <= |r.credentialId| <= MAX_CREDENTIAL_ID && onCurve(r.publicKey)
      ensures r.Valid(onCurve)
    {
    }

    /** The two keys of a combined record: first the assertion, then the new passphrase. */
    method BothKeys(r: RecipientRecord, e: Envelope, operation: Operation, s: Session)
      returns (keys: Outcome<RecoveryKeys>, ghost f: Factors)
      requires Valid() && r.FidoAndPassphrase?
      modifies backend.Target(), s
      ensures Valid() && backend.Stores() == old(backend.Stores())
      ensures Followed(old(s.log), s.log, AssertScript(operation, r.caption, r.policy) + NewPassphraseScript(operation, r.caption), keys.Ok?)
      ensures keys.Ok? ==> Suits(r, f) && keys.value == KeysFrom(p, r, applicationId, e.envelopeId, f) && Given(e, r, f, s, old(Mark()))
    {
      hide AssertScript, NewPassphraseScript, PrfInputOf, PassphraseKey, FidoKey, SpokenTwice,
           AuthenticatorBackend.Answers, AuthenticatorBackend.Stores;
      f := ByPassphrase([]);
      var assertion, asking := AssertScript(operation, r.caption, r.policy), NewPassphraseScript(operation, r.caption);
      var prf := Evaluate(r, e, operation, s);
      if prf.Err? {
        Stops(old(s.log), s.log, assertion, asking);
        return Err(prf.error), f;
      }
      ghost var log := s.log;
      var fidoKey := FidoKey(p, r, applicationId, e.envelopeId, prf.value);
      var key, passphrase := NewPassphraseKey(r, e.envelopeId, operation, s);
      Continues(old(s.log), log, s.log, assertion, asking, key.Ok?);
      if key.Err? {
        return Err(key.error), f;
      }
      f := ByFidoAndPassphrase(prf.value, passphrase);
      return Ok(CombinedKeys(key.value, fidoKey)), f;
    }

    // ----- managed enrollment -----

    /**
     A managed credential, and the record for it. Success has added exactly the
     credential of the record; a failure has added nothing or says that it may have.
     */
    method EnrollManagedFido(e: Envelope, root: Bytes32, caption: Bytes, policy: FidoPolicy, operation: Operation, s: Session)
      returns (r: Outcome<(Route, ManagedSession)>, ghost f: Factors)
      requires Valid() && backend.HasRoom()
      requires WellFormed(e, p.onCurve) && e.applicationId == applicationId && LabelValid(caption)
      modifies backend.Target(), s
      ensures Valid()
      ensures FollowedOrUndone(old(s.log), s.log, EnrollmentScript(ManagedFido(policy), operation, caption),
                               TouchScript(Operation.RetireManagedRecipient, caption, policy), r.Ok?)
      ensures r.Ok? ==> Enrolled(e, root, ManagedFido(policy), caption, None, r.value.0, f, s, old(Mark()))
                        && IsAddition(old(backend.Stores()), backend.Stores(), BindingOf(r.value.0.record, applicationId), r.value.1)
      ensures backend.Honest() && r.Err? && r.error != Authenticator(CredentialMayRemain)
              ==> backend.Stores() == old(backend.Stores())
    {
      hide FirstFreeId, InTurn, DrawnApart, IdFree, EnrollScript, TouchScript, Enrolled, LabelValid, PrimitiveSet.Sized,
           Ascending, NoClash, DnsShaped,
           AuthenticatorBackend.Answers, AuthenticatorBackend.Stores, AuthenticatorBackend.HasRoom, AuthenticatorBackend.History,
           IsAddition, FollowedOrUndone;
      f := ByPassphrase([]);
      ghost var before := backend.Stores();
      ghost var enroll, touch, undo := EnrollScript(operation, caption, policy), TouchScript(operation, caption, policy),
                                       TouchScript(Operation.RetireManagedRecipient, caption, policy);
      var id := UniqueRecipientId(e, s);
      if id.Err? {
        OnlyFollowed(old(s.log), s.log, enroll + touch, undo, false);
        return Err(id.error), f;
      }
      Apart(s, [id.value], old(s.clock), s.clock);
      var made := backend.EnrollManaged(p, applicationId, id.value, policy, caption, operation, s);
      if made.Err? {
        StillUndone(old(s.log), s.log, enroll, touch, undo);
        return Err(made.error), f;
      }
      ghost var log, mark := s.log, Mark();
      AllFollowed(old(s.log), log, enroll, undo);
      var finished;
      finished, f := FinishManagedFido(e, root, id.value, caption, policy, operation, made.value, s, before);
      Continues(old(s.log), log, s.log, enroll, touch, finished.Ok?);
      ghost var middle := s.log;
      if finished.Ok? {
        OnlyFollowed(old(s.log), s.log, enroll + touch, undo, true);
        EnrolledEarlier(e, root, ManagedFido(policy), caption, None, finished.value, f, s, old(Mark()), mark);
        return Ok((finished.value, made.value)), f;
      }
      var c := made.value.enrollment.credential;
      var binding := CredentialBinding(applicationId, id.value, c.credentialId, c.publicKey, policy, caption);
      var error := CleanupFailedManaged(made.value, binding, finished.error, s, before);
      FollowedThenUndone(old(s.log), middle, s.log, enroll + touch, undo);
      return Err(error), f;
    }

    method FinishManagedFido(e: Envelope, root: Bytes32, id: RecipientId, caption: Bytes, policy: FidoPolicy,
                             operation: Operation,
                             m: ManagedSession, s: Session, ghost before: Store)
      returns (r: Outcome<Route>, ghost f: Factors)
      requires Valid() && WellFormed(e, p.onCurve) && e.applicationId == applicationId && LabelValid(caption)
      requires IdFree(e.recipients, id) && DrawnApart(s, [id])
      requires var c := m.enrollment.credential;
               && p.onCurve(c.publicKey)
               && IsAddition(before, backend.Stores(),
                             CredentialBinding(applicationId, id, c.credentialId, c.publicKey, policy, caption), m)
      modifies backend.Target(), s
      ensures Valid() && backend.Stores() == old(backend.Stores())
      ensures Followed(old(s.log), s.log, TouchScript(operation, caption, policy), r.Ok?)
      ensures r.Ok? ==>
                && Enrolled(e, root, ManagedFido(policy), caption, None, r.value, f, s, old(Mark()))
                && var c := m.enrollment.credential;
                   BindingOf(r.value.record, applicationId)
                   == CredentialBinding(applicationId, id, c.credentialId, c.publicKey, policy, caption)
    {
      hide IdFree, CredentialFree, TouchScript, Wrap, FidoKey, PrfInputOf, LabelValid, PrimitiveSet.Sized, SetValid, DnsShaped,
           InTurn, DrawnApart, RandomlyMade, Enrolled, Fits, RecipientRecord.Valid,
           AuthenticatorBackend.Answers, AuthenticatorBackend.Stores, IsAddition, WellFormed, Given, KeysFrom;
      f := ByPassphrase([]);
      var c := m.enrollment.credential;
      var _ :- ValidateCredential(e, c.credentialId);
      var record :- PrepareFido(id, caption, policy, Managed, c, s);
      var binding := BindingOf(record, applicationId);
      var prf :- backend.EvaluateManaged(p, m, binding, PrfInputOf(p, record, applicationId, e.envelopeId), operation, s, before);
      f := ByFido(prf);
      var keys := FidoKeys(FidoKey(p, record, applicationId, e.envelopeId, prf));
      GivenByFido(e, record, f, s, old(Mark()));
      KeysOfFido(record, e.envelopeId, prf);
      CompletesEnrollment(e, root, ManagedFido(policy), caption, None, record, f, s, old(Mark()));
      BindingKept(e, root, record, keys);
      return Ok(Route(Wrap(p, record, applicationId, e.envelopeId, root, keys), keys)), f;
    }

    lemma GivenByFido(e: Envelope, r: RecipientRecord, f: Factors, s: Session, since: nat)
      requires r.Fido? && f.ByFido?
      requires backend.Answers(since, BindingOf(r, applicationId), PrfInputOf(p, r, applicationId, e.envelopeId), f.prf)
      ensures Given(e, r, f, s, since)
    {
    }

    lemma KeysOfFido(r: RecipientRecord, envelopeId: Bytes32, prf: Bytes32)
      requires r.Fido?
      ensures KeysFrom(p, r, applicationId, envelopeId, ByFido(prf)) == FidoKeys(FidoKey(p, r, applicationId, envelopeId, prf))
    {
    }

    lemma BindingKept(e: Envelope, root: Bytes32, r: RecipientRecord, keys: RecoveryKeys)
      requires r.UsesCredential() && Matches(r, keys)
      ensures var w := Wrap(p, r, applicationId, e.envelopeId, root, keys);
              w.UsesCredential() && BindingOf(w, applicationId) == BindingOf(r, applicationId)
    {
    }

    /** Keeps the original error if the new credential is gone, and otherwise reports that it may remain. */
    method CleanupFailedManaged(m: ManagedSession, b: CredentialBinding, original: Error, s: Session, ghost before: Store)
      returns (error: Error)
      requires Valid() && IsAddition(before, backend.Stores(), b, m)
      modifies backend.Target(), s
      ensures Valid()
      ensures Followed(old(s.log), s.log, TouchScript(Operation.RetireManagedRecipient, b.caption, b.policy), false)
      ensures error == original || error == Authenticator(CredentialMayRemain)
      ensures backend.Honest() && error != Authenticator(CredentialMayRemain) ==> backend.Stores() == before
    {
      hide IsAddition, TouchScript, AuthenticatorBackend.Stores;
      var gone := backend.CleanupManaged(p, m, b, Operation.RetireManagedRecipient, s, before);
      return if gone.Ok? then original else Authenticator(CredentialMayRemain);
    }

    /** One route, by the policy that the enrollment asks for. */
    method EnrollRecipient(e: Envelope, root: Bytes32, enrollment: Enrollment, operation: Operation, s: Session)
      returns (r: Outcome<(Route, Option<ManagedSession>)>, ghost f: Factors)
      requires Valid() && backend.HasRoom()
      requires WellFormed(e, p.onCurve) && e.applicationId == applicationId && LabelValid(enrollment.caption)
      requires enrollment.parameters.Some? ==> enrollment.parameters.value.Valid()
      modifies backend.Target(), s
      ensures Valid()
      ensures FollowedOrUndone(old(s.log), s.log, EnrollmentScript(enrollment.policy, operation, enrollment.caption),
                               UndoScript(enrollment.policy, enrollment.caption), r.Ok?)
      ensures r.Ok? ==> Enrolled(e, root, enrollment.policy, enrollment.caption, enrollment.parameters, r.value.0, f, s, old(Mark()))
      ensures r.Ok? ==> (r.value.1.Some? <==> enrollment.policy.ManagedFido?)
      ensures enrollment.policy.PassphrasePolicy? && enrollment.parameters.Some? && r.Err? ==> PassphraseFailure(r.error)
      ensures r.Ok? && r.value.1.Some? ==>
                r.value.0.record.IsManaged()
                && IsAddition(old(backend.Stores()), backend.Stores(), BindingOf(r.value.0.record, applicationId), r.value.1.value)
      ensures enrollment.policy.ManagedFido? && backend.Honest() && r.Err? && r.error != Authenticator(CredentialMayRemain)
              ==> backend.Stores() == old(backend.Stores())
      ensures !enrollment.policy.ManagedFido? ==> SameManaged(old(backend.Stores()), backend.Stores())
    {
      hide WellFormed, LabelValid, PassphraseParameters.Valid, IsRoute, Joins, Given, EnrollScript, AssertScript, TouchScript,
           NewPassphraseScript, FollowedOrUndone, Followed, IsAddition, AuthenticatorBackend.Stores, AuthenticatorBackend.HasRoom,
           AuthenticatorBackend.History, SameManaged, KeyProtector.Valid;
      SameManagedReflexive(backend.Stores());
      f := ByPassphrase([]);
      var caption := enrollment.caption;
      ghost var script := EnrollmentScript(enrollment.policy, operation, caption);
      var made: Outcome<Route> := Err(InvalidEnvelope);
      match enrollment.policy {
        case PassphrasePolicy =>
          if enrollment.parameters.None? {
            made := Err(InvalidPassphraseParameters);
            NothingFollowed(s.log, script);
          } else {
            made, f := EnrollPassphrase(e, root, caption, enrollment.parameters.value, operation, s);
          }
        case RecoverySecretPolicy =>
          NothingFollowed(s.log, script);
        case FidoPresenceAndLocalSecret =>
          NothingFollowed(s.log, script);
        case FidoOnly(policy) =>
          made, f := EnrollFido(e, root, caption, policy, operation, s);
        case ManagedFido(policy) =>
          var managed;
          managed, f := EnrollManagedFido(e, root, caption, policy, operation, s);
          r := if managed.Ok? then Ok((managed.value.0, Some(managed.value.1))) else Err(managed.error);
          return r, f;
        case FidoAndPassphrasePolicy(policy) =>
          if enrollment.parameters.None? {
            made := Err(InvalidPassphraseParameters);
            NothingFollowed(s.log, script);
          } else {
            made, f := EnrollCombined(e, root, caption, policy, enrollment.parameters.value, operation, s);
          }
      }
      OnlyFollowed(old(s.log), s.log, script, [], made.Ok?);
      r := if made.Ok? then Ok((made.value, None)) else Err(made.error);
    }

    // ----- staging -----

    /** Encoding and strict decoding. A valid envelope comes back as it was. */
    method Canonicalize(e: Envelope) returns (r: Outcome<Envelope>)
      ensures Envelopes.Valid(e, p.onCurve) ==> r == Ok(e)
      ensures r.Ok? ==> Envelopes.Valid(r.value, p.onCurve)
    {
      hide Encoded, Envelopes.Valid;
      var encoded := Encode(e);
      r := Codec.Decode(encoded, p.onCurve);
      if Envelopes.Valid(e, p.onCurve) {
        assert Codec.IsEncoding(encoded, p.onCurve);
        SurvivesEncoding(e, r.value, p.onCurve);
      }
    }

    /** Authenticates a replacement, and proves that the named record opens it before it is handed out. */
    method StageExistingRecord(staged: KeyEnvelope, id: RecipientId, root: Bytes32, keys: RecoveryKeys, ghost i: nat)
      returns (r: Outcome<Envelope>)
      requires i < |staged.recipients| && staged.recipients[i].id == id
      modifies staged
      ensures var f := Staged(p, old(staged.Value()), old(staged.recipients), root);
              Envelopes.Valid(f, p.onCurve) ==>
                && (r.Ok? <==> Recover(p, f.recipients[i], f.applicationId, f.envelopeId, keys) == Ok(root))
                && (r.Ok? ==> r.value == f)
    {
      hide Mac, Recover, WellFormed, SetValid, PrimitiveSet.Sized, Encoded;
      ghost var f := Staged(p, staged.Value(), staged.recipients, root);
      MacIgnoresMac(p, staged.Value(), f.mac, root);
      staged.mac := Mac(p, staged.Value(), root);
      assert staged.Value() == f;
      var canonical :- Canonicalize(staged.Value());
      ValidAscends(canonical);
      var found :- Envelopes.Find(canonical.recipients, id);
      if canonical == f { OnePlace(f.recipients, i, found); }
      var recovered :- Recover(p, canonical.recipients[found], canonical.applicationId, canonical.envelopeId, keys);
      if recovered != root || canonical.mac != Mac(p, canonical, recovered) {
        return Err(UnlockFailed);
      }
      return Ok(canonical);
    }

    lemma ValidAscends(e: Envelope)
      requires Envelopes.Valid(e, p.onCurve)
      ensures Ascending(e.recipients)
    {
    }

    static lemma OnePlace(rs: seq<RecipientRecord>, i: nat, k: nat)
      requires Ascending(rs) && i < |rs| && k < |rs| && rs[i].id == rs[k].id
      ensures i == k
    {
    }

    method StageRecord(staged: KeyEnvelope, record: RecipientRecord, root: Bytes32, keys: RecoveryKeys)
      returns (r: Outcome<Envelope>)
      requires WellFormed(staged.Value(), p.onCurve) && |staged.recipients| < MAX_RECIPIENTS
      requires record.Valid(p.onCurve) && Joins(staged.recipients, record)
      modifies staged
      ensures var e := old(staged.Value());
              && (r.Ok? <==> Recover(p, record, e.applicationId, e.envelopeId, keys) == Ok(root))
              && (r.Ok? ==> r.value == Staged(p, e, Insert(e.recipients, record), root))
    {
      hide Mac, Recover, PrimitiveSet.Sized, RecipientRecord.Valid, Joins, DnsShaped, NoClash, Ascending, SortById, Insert;
      ghost var e, rs := staged.Value(), staged.recipients;
      staged.recipients := staged.recipients + [record];
      staged.recipients := SortById(staged.recipients);
      SortAfterPush(rs, record);
      SortKeepsAscending(rs);
      InInsert(rs, record);
      assert record in Insert(rs, record);
      ghost var i: nat :| i < |Insert(rs, record)| && Insert(rs, record)[i] == record;
      ghost var f := Staged(p, e, Insert(rs, record), root);
      AddedValid(e, record, f, p.onCurve);
      assert Staged(p, staged.Value(), staged.recipients, root) == f;
      r := StageExistingRecord(staged, record.id, root, keys, i);
    }

    /** Stages a new record; if that fails, a managed credential is cleaned up. */
    method StageEnrollment(e: Envelope, route: Route, root: Bytes32, managed: Option<ManagedSession>, s: Session,
                           ghost f: Factors, ghost before: Store)
      returns (r: Outcome<Envelope>)
      requires Valid() && WellFormed(e, p.onCurve) && |e.recipients| < MAX_RECIPIENTS && e.applicationId == applicationId
      requires IsRoute(p, e, root, route, f) && Joins(e.recipients, route.record)
      requires managed.Some? ==> route.record.IsManaged()
                                 && IsAddition(before, backend.Stores(), BindingOf(route.record, applicationId), managed.value)
      modifies backend.Target(), s
      ensures Valid()
      ensures p.Lawful() ==> r.Ok?
      ensures r.Ok? ==> Changes(p, root, e, Added(route.record, f), r.value)
      ensures r.Ok? || managed.None? ==> unchanged(s) && unchanged(backend.Target())
      ensures managed.Some?
              ==> Followed(old(s.log), s.log, TouchScript(Operation.RetireManagedRecipient, route.record.caption, route.record.policy), false)
      ensures managed.Some? && backend.Honest() && r.Err? && r.error != Authenticator(CredentialMayRemain)
              ==> backend.Stores() == before
    {
      hide Changes, IsRoute, Joins, WellFormed, IsAddition, TouchScript, AuthenticatorBackend.Stores, PrimitiveSet.Sized,
           PrimitiveSet.Lawful, BindingOf, KeyProtector.Valid;
      r := StageRoute(e, route, root, f);
      if r.Err? && managed.Some? {
        if !route.record.IsManaged() {
          assert false;
        } else {
          hide RecipientRecord.UsesCredential;
          var binding := BindingOf(route.record, applicationId);
          var error := CleanupFailedManaged(managed.value, binding, r.error, s, before);
          BindingNames(route.record);
          return Err(error);
        }
      }
    }

    lemma BindingNames(r: RecipientRecord)
      requires r.Fido?
      ensures r.UsesCredential()
      ensures BindingOf(r, applicationId).caption == r.caption && BindingOf(r, applicationId).policy == r.policy
    {
    }

    /** Stages a route; with a lawful cipher this cannot fail. */
    method StageRoute(e: Envelope, route: Route, root: Bytes32, ghost f: Factors) returns (r: Outcome<Envelope>)
      requires WellFormed(e, p.onCurve) && |e.recipients| < MAX_RECIPIENTS
      requires IsRoute(p, e, root, route, f) && Joins(e.recipients, route.record)
      ensures p.Lawful() ==> r.Ok?
      ensures r.Ok? ==> Changes(p, root, e, Added(route.record, f), r.value)
    {
      hide Recover, Insert, Joins, SetValid, PrimitiveSet.Sized, PrimitiveSet.Lawful, Wraps, RecipientRecord.Valid, DnsShaped;
      if p.Lawful() {
        RouteRecovers(e, route, root, f);
      }
      var staged := new KeyEnvelope(e);
      r := StageRecord(staged, route.record, root, route.keys);
    }

    lemma RouteRecovers(e: Envelope, route: Route, root: Bytes32, f: Factors)
      requires p.Lawful() && IsRoute(p, e, root, route, f)
      ensures Recover(p, route.record, e.applicationId, e.envelopeId, route.keys) == Ok(root)
    {
      hide Recover, Wrap, KeysFrom, PrimitiveSet.Lawful, PrimitiveSet.Sized;
      WrapRecovers(p, route.record, e.applicationId, e.envelopeId, root, route.keys);
    }

    // ----- checks that come before anything else -----

    function RequireApplication(e: Envelope): Outcome<()>
    {
      if e.applicationId == applicationId then Ok(()) else Err(ApplicationMismatch)
    }

    function VerifyMac(e: Envelope, root: Bytes32): Outcome<()>
    {
      if e.mac == Mac(p, e, root) then Ok(()) else Err(EnvelopeAuthenticationFailed)
    }

    function RequireAuthenticated(e: Envelope, root: Bytes32): Outcome<()>
    {
      var _ :- RequireApplication(e);
      VerifyMac(e, root)
    }

    function Admit(parameters: Option<PassphraseParameters>): Outcome<()>
    {
      if parameters.None? || limits.Accepts(parameters.value) then Ok(()) else Err(PassphraseLimitExceeded)
    }

    /** Why an addition must be refused before the user is asked for anything. */
    ghost function AddRefusal(e: Envelope, root: Bytes32, parameters: Option<PassphraseParameters>): Option<Error>
    {
      if e.applicationId != applicationId then Some(ApplicationMismatch)
      else if e.mac != Mac(p, e, root) then Some(EnvelopeAuthenticationFailed)
      else if |e.recipients| >= MAX_RECIPIENTS then Some(TooManyRecipients)
      else if parameters.Some? && !limits.Accepts(parameters.value) then Some(PassphraseLimitExceeded)
      else None
    }

    ghost function DedicatedRefusal(e: Envelope, root: Bytes32, caption: Bytes): Option<Error>
    {
      var refusal := AddRefusal(e, root, None);
      if refusal.Some? then refusal else if !LabelValid(caption) then Some(InvalidLabel) else None
    }

    // ----- additions -----

    /**
     A managed credential stands exactly where there was none, and is the one that the
     record names; under any other policy the managed credentials stay as they were.
     */
    ghost predicate StoreTells(policy: RecipientPolicy, before: Store, after: Store, error: Option<Error>, change: Change)
    {
      if !policy.ManagedFido? then SameManaged(before, after) else
        && (backend.Honest() && error.Some? && error.value != Authenticator(CredentialMayRemain) ==> after == before)
        && (error.None? ==> change.Added? && change.record.UsesCredential()
                            && exists m :: IsAddition(before, after, BindingOf(change.record, applicationId), m))
    }

    static lemma ManagedUndo(r: RecipientRecord, policy: RecipientPolicy, caption: Bytes,
                             parameters: Option<PassphraseParameters>)
      requires Fits(r, policy, caption, parameters) && policy.ManagedFido?
      ensures r.Fido? && UndoScript(policy, caption) == TouchScript(Operation.RetireManagedRecipient, r.caption, r.policy)
    {
    }

    /** Enrolls a route and stages the envelope that contains it. */
    method EnrollAndStage(e: Envelope, root: Bytes32, enrollment: Enrollment, operation: Operation, s: Session)
      returns (r: Outcome<(Envelope, RecipientId)>, ghost change: Change)
      requires Valid() && backend.HasRoom()
      requires WellFormed(e, p.onCurve) && |e.recipients| < MAX_RECIPIENTS && e.applicationId == applicationId
      requires LabelValid(enrollment.caption) && (enrollment.parameters.Some? ==> enrollment.parameters.value.Valid())
      modifies backend.Target(), s
      ensures Valid()
      ensures r.Err? ==> change == Unchanged
      ensures p.Lawful() && enrollment.policy.PassphrasePolicy? && enrollment.parameters.Some? && r.Err?
              ==> PassphraseFailure(r.error)
      ensures r.Ok? ==>
                && change.Added? && Changes(p, root, e, change, r.value.0) && r.value.1 == change.record.id
                && Fits(change.record, enrollment.policy, enrollment.caption, enrollment.parameters)
                && RandomlyMade(change.record, s) && Given(e, change.record, change.factors, s, old(Mark()))
      ensures FollowedOrUndone(old(s.log), s.log, EnrollmentScript(enrollment.policy, operation, enrollment.caption),
                               UndoScript(enrollment.policy, enrollment.caption), r.Ok?)
      ensures StoreTells(enrollment.policy, old(backend.Stores()), backend.Stores(), if r.Err? then Some(r.error) else None, change)
    {
      hide EnrollmentScript, FollowedOrUndone, Followed, IsAddition, AuthenticatorBackend.Stores, AuthenticatorBackend.HasRoom,
           SameManaged, KeyProtector.Valid, PassphraseParameters.Valid, LabelValid, WellFormed, Insert, Joins, Wraps, Staged, Given, TouchScript,
           PrimitiveSet.Sized, RecipientRecord.Valid, Fits, UndoScript, BindingOf, Changes, IsRoute, RandomlyMade, DrawnApart;
      change := Unchanged;
      ghost var before := backend.Stores();
      var made, f := EnrollRecipient(e, root, enrollment, operation, s);
      if made.Err? {
        return Err(made.error), change;
      }
      ghost var log := s.log;
      ghost var script, undo := EnrollmentScript(enrollment.policy, operation, enrollment.caption),
                                UndoScript(enrollment.policy, enrollment.caption);
      AllFollowed(old(s.log), log, script, undo);
      var route := made.value.0;
      var staged := StageEnrollment(e, route, root, made.value.1, s, f, before);
      if staged.Err? {
        if made.value.1.None? {
          NothingFollowed(log, undo);
        } else {
          ManagedUndo(route.record, enrollment.policy, enrollment.caption, enrollment.parameters);
        }
        FailedAfterAll(old(s.log), log, s.log, script, undo);
        return Err(staged.error), change;
      }
      change := Added(route.record, f);
      return Ok((staged.value, route.record.id)), change;
    }

    /** Adds a route; a failure leaves the envelope as it was, and a managed credential is not left behind unreported. */
    method AddRecipient(envelope: KeyEnvelope, root: Bytes32, enrollment: Enrollment, s: Session)
      returns (r: Outcome<RecipientId>, ghost change: Change)
      requires Valid() && backend.HasRoom() && Envelopes.Valid(envelope.Value(), p.onCurve)
      requires LabelValid(enrollment.caption) && (enrollment.parameters.Some? ==> enrollment.parameters.value.Valid())
      modifies envelope, backend.Target(), s
      ensures Valid()
      ensures var refusal := AddRefusal(old(envelope.Value()), root, enrollment.parameters);
              refusal.Some? ==> r == Err(refusal.value) && unchanged(s) && unchanged(backend.Target())
      ensures Changes(p, root, old(envelope.Value()), change, envelope.Value())
      ensures r.Err? ==> change == Unchanged
      ensures p.Lawful() && r.Err? && AddRefusal(old(envelope.Value()), root, enrollment.parameters).None?
              && enrollment.policy.PassphrasePolicy? && enrollment.parameters.Some?
              ==> PassphraseFailure(r.error)
      ensures r.Ok? ==>
                && change.Added? && change.record.id == r.value
                && Fits(change.record, enrollment.policy, enrollment.caption, enrollment.parameters)
                && RandomlyMade(change.record, s) && Given(old(envelope.Value()), change.record, change.factors, s, old(Mark()))
      ensures FollowedOrUndone(old(s.log), s.log, EnrollmentScript(enrollment.policy, Operation.AddRecipient, enrollment.caption),
                               UndoScript(enrollment.policy, enrollment.caption), r.Ok?)
      ensures StoreTells(enrollment.policy, old(backend.Stores()), backend.Stores(), if r.Err? then Some(r.error) else None, change)
    {
      hide EnrollmentScript, FollowedOrUndone, IsAddition, SameManaged, AuthenticatorBackend.History, AuthenticatorBackend.Stores, PassphraseParameters.Valid, LabelValid,
           SetValid, Joins, Wraps, Staged, Insert, Given, Mac, PrimitiveSet.Sized, RecipientRecord.Valid, Fits, UndoScript;
      change := Unchanged;
      SameManagedReflexive(backend.Stores());
      NothingDone(s.log, EnrollmentScript(enrollment.policy, Operation.AddRecipient, enrollment.caption),
                  UndoScript(enrollment.policy, enrollment.caption));
      var e := envelope.Value();
      var _ :- RequireAuthenticated(e, root);
      if |e.recipients| >= MAX_RECIPIENTS {
        return Err(TooManyRecipients), change;
      }
      var _ :- Admit(enrollment.parameters);
      var staged;
      staged, change := EnrollAndStage(e, root, enrollment, Operation.AddRecipient, s);
      if staged.Err? {
        return Err(staged.error), change;
      }
      envelope.Assign(staged.value.0);
      return Ok(staged.value.1), change;
    }

    method AddRecoverySecret(envelope: KeyEnvelope, root: Bytes32, caption: Bytes, s: Session)
      returns (r: Outcome<(RecipientId, Bytes32)>, ghost change: Change)
      requires Valid() && Envelopes.Valid(envelope.Value(), p.onCurve)
      modifies envelope, s`clock
      ensures var refusal := DedicatedRefusal(old(envelope.Value()), root, caption);
              refusal.Some? ==> r == Err(refusal.value) && unchanged(s)
      ensures Changes(p, root, old(envelope.Value()), change, envelope.Value())
      ensures r.Err? ==> change == Unchanged
      ensures p.Lawful() && r.Err? && DedicatedRefusal(old(envelope.Value()), root, caption).None?
              ==> r.error == RandomUnavailable
      ensures r.Ok? ==> change.Added? && change.record.RecoverySecret? && change.record.caption == caption
                        && change.record.id == r.value.0 && change.factors == ByRecoverySecret(r.value.1)
                        && DrawnApart(s, [r.value.1, r.value.0] + RandomParts(change.record))
    {
      hide LabelValid, SetValid, Joins, Wraps, Staged, Insert, Mac, PrimitiveSet.Sized, RecipientRecord.Valid, DnsShaped, Given;
      change := Unchanged;
      var e := envelope.Value();
      var _ :- RequireAuthenticated(e, root);
      if |e.recipients| >= MAX_RECIPIENTS {
        return Err(TooManyRecipients), change;
      }
      if !LabelValid(caption) {
        return Err(InvalidLabel), change;
      }
      var made :- NewRecoverySecretRecord(e, root, caption, s);
      var staged :- StageRoute(e, made.0, root, ByRecoverySecret(made.1));
      change := Added(made.0.record, ByRecoverySecret(made.1));
      envelope.Assign(staged);
      return Ok((made.0.record.id, made.1)), change;
    }

    /** Enrolls a local-secret route and stages the envelope that contains it. */
    method EnrollAndStageLocal(e: Envelope, root: Bytes32, caption: Bytes, operation: Operation, s: Session)
      returns (r: Outcome<(Envelope, RecipientId, Bytes32)>, ghost change: Change)
      requires Valid() && backend.HasRoom()
      requires WellFormed(e, p.onCurve) && |e.recipients| < MAX_RECIPIENTS && e.applicationId == applicationId && LabelValid(caption)
      modifies backend.Target(), s
      ensures Valid()
      ensures r.Err? ==> change == Unchanged
      ensures r.Ok? ==>
                && change.Added? && change.record.FidoAndLocalSecret? && change.record.caption == caption
                && change.record.id == r.value.1
                && change.factors.ByFidoAndSecret? && change.factors.secret == r.value.2
                && Changes(p, root, e, change, r.value.0)
                && DrawnApart(s, [r.value.1, r.value.2] + RandomParts(change.record)) && Given(e, change.record, change.factors, s, old(Mark()))
      ensures Followed(old(s.log), s.log, EnrollmentScript(FidoPresenceAndLocalSecret, operation, caption), r.Ok?)
      ensures SameManaged(old(backend.Stores()), backend.Stores())
    {
      hide SameManaged, AuthenticatorBackend.Stores, AuthenticatorBackend.History, EnrollmentScript, LabelValid, WellFormed, Joins, IsRoute, Changes, PrimitiveSet.Sized, PrimitiveSet.Lawful, DnsShaped,
           Given, KeyProtector.Valid, AuthenticatorBackend.HasRoom;
      change := Unchanged;
      var made, f := EnrollFidoLocal(e, root, caption, operation, s);
      if made.Err? {
        return Err(made.error), change;
      }
      var staged :- StageRoute(e, made.value.0, root, f);
      change := Added(made.value.0.record, f);
      return Ok((staged, made.value.0.record.id, made.value.1)), change;
    }

    method AddFidoAndLocalSecret(envelope: KeyEnvelope, root: Bytes32, caption: Bytes, s: Session)
      returns (r: Outcome<(RecipientId, Bytes32)>, ghost change: Change)
      requires Valid() && backend.HasRoom() && Envelopes.Valid(envelope.Value(), p.onCurve)
      modifies envelope, backend.Target(), s
      ensures Valid()
      ensures var refusal := DedicatedRefusal(old(envelope.Value()), root, caption);
              refusal.Some? ==> r == Err(refusal.value) && unchanged(s) && unchanged(backend.Target())
      ensures Changes(p, root, old(envelope.Value()), change, envelope.Value())
      ensures r.Err? ==> change == Unchanged
      ensures r.Ok? ==> change.Added? && change.record.FidoAndLocalSecret? && change.record.caption == caption
                        && change.record.id == r.value.0
                        && change.factors.ByFidoAndSecret? && change.factors.secret == r.value.1
                        && DrawnApart(s, [r.value.0, r.value.1] + RandomParts(change.record)) && Given(old(envelope.Value()), change.record, change.factors, s, old(Mark()))
      ensures Followed(old(s.log), s.log, EnrollmentScript(FidoPresenceAndLocalSecret, Operation.AddRecipient, caption), r.Ok?)
      ensures SameManaged(old(backend.Stores()), backend.Stores())
    {
      hide SameManaged, AuthenticatorBackend.Stores, AuthenticatorBackend.History, EnrollmentScript, LabelValid, SetValid, Joins, Wraps, Staged, Insert, Mac, PrimitiveSet.Sized,
           RecipientRecord.Valid, DnsShaped, Given;
      change := Unchanged;
      var e := envelope.Value();
      SameManagedReflexive(backend.Stores());
      NothingFollowed(s.log, EnrollmentScript(FidoPresenceAndLocalSecret, Operation.AddRecipient, caption));
      var _ :- RequireAuthenticated(e, root);
      if |e.recipients| >= MAX_RECIPIENTS {
        return Err(TooManyRecipients), change;
      }
      if !LabelValid(caption) {
        return Err(InvalidLabel), change;
      }
      var made;
      made, change := EnrollAndStageLocal(e, root, caption, Operation.AddRecipient, s);
      if made.Err? {
        return Err(made.error), change;
      }
      envelope.Assign(made.value.0);
      return Ok((made.value.1, made.value.2)), change;
    }

    // ----- new envelopes -----

    /** The envelope that is being built has no recipient yet. */
    function EmptyEnvelope(envelopeId: Bytes32): Envelope
    {
      Envelope(applicationId, envelopeId, [], Zeros(32))
    }

    lemma EmptyIsWellFormed(envelopeId: Bytes32)
      requires DnsShaped(applicationId)
      ensures WellFormed(EmptyEnvelope(envelopeId), p.onCurve)
    {
    }

    method ProtectRoot(root: Bytes32, enrollment: Enrollment, operation: Operation, s: Session)
      returns (r: Outcome<(Envelope, RecipientId)>, ghost change: Change)
      requires Valid() && backend.HasRoom()
      requires LabelValid(enrollment.caption) && (enrollment.parameters.Some? ==> enrollment.parameters.value.Valid())
      modifies backend.Target(), s
      ensures Valid()
      ensures Admit(enrollment.parameters).Err? ==>
                r == Err(PassphraseLimitExceeded) && unchanged(s) && unchanged(backend.Target())
      ensures r.Err? ==> change == Unchanged
      ensures p.Lawful() && enrollment.policy.PassphrasePolicy? && enrollment.parameters.Some? && r.Err?
              ==> PassphraseFailure(r.error) || r.error == PassphraseLimitExceeded
      ensures r.Ok? ==>
                && change.Added? && Created(p, root, applicationId, change.record, change.factors, r.value.0)
                && r.value.1 == change.record.id
                && Fits(change.record, enrollment.policy, enrollment.caption, enrollment.parameters)
                && DrawnApart(s, [r.value.0.envelopeId])
                && RandomlyMade(change.record, s) && Given(r.value.0, change.record, change.factors, s, old(Mark()))
      ensures FollowedOrUndone(old(s.log), s.log, EnrollmentScript(enrollment.policy, operation, enrollment.caption),
                               UndoScript(enrollment.policy, enrollment.caption), r.Ok?)
      ensures StoreTells(enrollment.policy, old(backend.Stores()), backend.Stores(), if r.Err? then Some(r.error) else None, change)
    {
      hide EnrollmentScript, FollowedOrUndone, IsAddition, SameManaged, AuthenticatorBackend.History, AuthenticatorBackend.Stores, PassphraseParameters.Valid, LabelValid,
           WellFormed, Joins, Wraps, Insert, Mac, PrimitiveSet.Sized, RecipientRecord.Valid, Fits, UndoScript;
      change := Unchanged;
      SameManagedReflexive(backend.Stores());
      NothingDone(s.log, EnrollmentScript(enrollment.policy, operation, enrollment.caption),
                  UndoScript(enrollment.policy, enrollment.caption));
      var _ :- Admit(enrollment.parameters);
      ghost var began := s.clock;
      var envelopeId :- s.RandomArray(32);
      Apart(s, [envelopeId], began, s.clock);
      EmptyIsWellFormed(envelopeId);
      r, change := EnrollAndStage(EmptyEnvelope(envelopeId), root, enrollment, operation, s);
    }

    method CreateRoot(enrollment: Enrollment, s: Session)
      returns (r: Outcome<(Bytes32, Envelope, RecipientId)>, ghost change: Change)
      requires Valid() && backend.HasRoom()
      requires LabelValid(enrollment.caption) && (enrollment.parameters.Some? ==> enrollment.parameters.value.Valid())
      modifies backend.Target(), s
      ensures Valid()
      ensures r.Err? ==> change == Unchanged
      ensures p.Lawful() && enrollment.policy.PassphrasePolicy? && enrollment.parameters.Some? && r.Err?
              ==> PassphraseFailure(r.error) || r.error == PassphraseLimitExceeded
      ensures r.Ok? ==>
                && Ok(r.value.0) == s.Draw(old(s.clock), 32)
                && change.Added? && Created(p, r.value.0, applicationId, change.record, change.factors, r.value.1)
                && r.value.2 == change.record.id
                && Fits(change.record, enrollment.policy, enrollment.caption, enrollment.parameters)
                && DrawnApart(s, [r.value.1.envelopeId])
                && RandomlyMade(change.record, s) && Given(r.value.1, change.record, change.factors, s, old(Mark()))
      ensures FollowedOrUndone(old(s.log), s.log, EnrollmentScript(enrollment.policy, Operation.CreateRoot, enrollment.caption),
                               UndoScript(enrollment.policy, enrollment.caption), r.Ok?)
      ensures StoreTells(enrollment.policy, old(backend.Stores()), backend.Stores(), if r.Err? then Some(r.error) else None, change)
    {
      hide EnrollmentScript, FollowedOrUndone, IsAddition, SameManaged, AuthenticatorBackend.History, AuthenticatorBackend.Stores, PassphraseParameters.Valid, LabelValid,
           Created, Given, PrimitiveSet.Sized, Fits, UndoScript, Session.Draw;
      change := Unchanged;
      SameManagedReflexive(backend.Stores());
      NothingDone(s.log, EnrollmentScript(enrollment.policy, Operation.CreateRoot, enrollment.caption),
                  UndoScript(enrollment.policy, enrollment.caption));
      var root :- s.RandomArray(32);
      var made;
      made, change := ProtectRoot(root, enrollment, Operation.CreateRoot, s);
      r := if made.Ok? then Ok((root, made.value.0, made.value.1)) else Err(made.error);
    }

    method ProtectRootWithRecoverySecret(root: Bytes32, caption: Bytes, s: Session)
      returns (r: Outcome<(Envelope, RecipientId, Bytes32)>, ghost record: RecipientRecord)
      requires Valid()
      modifies s`clock
      ensures !LabelValid(caption) ==> r == Err(InvalidLabel) && unchanged(s)
      ensures p.Lawful() && LabelValid(caption) && r.Err? ==> r.error == RandomUnavailable
      ensures r.Ok? ==> record.RecoverySecret? && record.caption == caption && record.id == r.value.1
                        && Created(p, root, applicationId, record, ByRecoverySecret(r.value.2), r.value.0)
                        && DrawnApart(s, [r.value.2, r.value.1] + RandomParts(record)) && DrawnApart(s, [r.value.0.envelopeId])
    {
      hide LabelValid, WellFormed, Joins, Wraps, Insert, Mac, PrimitiveSet.Sized, RecipientRecord.Valid, DnsShaped, Given;
      record := RecoverySecret(Zeros(32), [], Zeros(12), Zeros(48));
      if !LabelValid(caption) {
        return Err(InvalidLabel), record;
      }
      ghost var began := s.clock;
      var envelopeId :- s.RandomArray(32);
      Apart(s, [envelopeId], began, s.clock);
      var e := EmptyEnvelope(envelopeId);
      EmptyIsWellFormed(envelopeId);
      var made :- NewRecoverySecretRecord(e, root, caption, s);
      var staged :- StageRoute(e, made.0, root, ByRecoverySecret(made.1));
      record := made.0.record;
      return Ok((staged, made.0.record.id, made.1)), record;
    }

    method CreateRootWithRecoverySecret(caption: Bytes, s: Session)
      returns (r: Outcome<(Bytes32, Envelope, RecipientId, Bytes32)>, ghost record: RecipientRecord)
      requires Valid()
      modifies s`clock
      ensures r.Ok? ==> record.RecoverySecret? && record.caption == caption && record.id == r.value.2
                        && Ok(r.value.0) == s.Draw(old(s.clock), 32)
                        && Created(p, r.value.0, applicationId, record, ByRecoverySecret(r.value.3), r.value.1)
                        && DrawnApart(s, [r.value.3, r.value.2] + RandomParts(record)) && DrawnApart(s, [r.value.1.envelopeId])
    {
      hide Created, PrimitiveSet.Sized, Session.Draw;
      record := RecoverySecret(Zeros(32), [], Zeros(12), Zeros(48));
      var root :- s.RandomArray(32);
      var made;
      made, record := ProtectRootWithRecoverySecret(root, caption, s);
      r := if made.Ok? then Ok((root, made.value.0, made.value.1, made.value.2)) else Err(made.error);
    }

    method ProtectRootWithFidoAndLocalSecret(root: Bytes32, caption: Bytes, operation: Operation, s: Session)
      returns (r: Outcome<(Envelope, RecipientId, Bytes32)>, ghost change: Change)
      requires Valid() && backend.HasRoom()
      modifies backend.Target(), s
      ensures Valid()
      ensures !LabelValid(caption) ==> r == Err(InvalidLabel) && unchanged(s) && unchanged(backend.Target())
      ensures r.Ok? ==> change.Added? && change.record.FidoAndLocalSecret? && change.record.caption == caption
                        && change.record.id == r.value.1
                        && change.factors.ByFidoAndSecret? && change.factors.secret == r.value.2
                        && Created(p, root, applicationId, change.record, change.factors, r.value.0)
                        && DrawnApart(s, [r.value.1, r.value.2] + RandomParts(change.record)) && DrawnApart(s, [r.value.0.envelopeId])
                        && Given(r.value.0, change.record, change.factors, s, old(Mark()))
      ensures Followed(old(s.log), s.log, EnrollmentScript(FidoPresenceAndLocalSecret, operation, caption), r.Ok?)
      ensures SameManaged(old(backend.Stores()), backend.Stores())
    {
      hide SameManaged, AuthenticatorBackend.Stores, AuthenticatorBackend.History, EnrollmentScript, LabelValid, WellFormed, Joins,
           Wraps, Insert, Mac, PrimitiveSet.Sized, RecipientRecord.Valid, DnsShaped;
      SameManagedReflexive(backend.Stores());
      change := Unchanged;
      NothingFollowed(s.log, EnrollmentScript(FidoPresenceAndLocalSecret, operation, caption));
      if !LabelValid(caption) {
        return Err(InvalidLabel), change;
      }
      ghost var began := s.clock;
      var envelopeId :- s.RandomArray(32);
      Apart(s, [envelopeId], began, s.clock);
      EmptyIsWellFormed(envelopeId);
      r, change := EnrollAndStageLocal(EmptyEnvelope(envelopeId), root, caption, operation, s);
    }

    method CreateRootWithFidoAndLocalSecret(caption: Bytes, s: Session)
      returns (r: Outcome<(Bytes32, Envelope, RecipientId, Bytes32)>, ghost change: Change)
      requires Valid() && backend.HasRoom()
      modifies backend.Target(), s
      ensures Valid()
      ensures r.Ok? ==> change.Added? && change.record.FidoAndLocalSecret? && change.record.caption == caption
                        && change.record.id == r.value.2
                        && change.factors.ByFidoAndSecret? && change.factors.secret == r.value.3
                        && Ok(r.value.0) == s.Draw(old(s.clock), 32)
                        && Created(p, r.value.0, applicationId, change.record, change.factors, r.value.1)
                        && DrawnApart(s, [r.value.2, r.value.3] + RandomParts(change.record)) && DrawnApart(s, [r.value.1.envelopeId])
                        && Given(r.value.1, change.record, change.factors, s, old(Mark()))
      ensures Followed(old(s.log), s.log, EnrollmentScript(FidoPresenceAndLocalSecret, Operation.CreateRoot, caption), r.Ok?)
      ensures SameManaged(old(backend.Stores()), backend.Stores())
    {
      hide SameManaged, AuthenticatorBackend.Stores, AuthenticatorBackend.History, EnrollmentScript, LabelValid, Created, Given, DrawnApart, InTurn, RandomParts, PrimitiveSet.Sized, Session.Draw;
      change := Unchanged;
      SameManagedReflexive(backend.Stores());
      NothingFollowed(s.log, EnrollmentScript(FidoPresenceAndLocalSecret, Operation.CreateRoot, caption));
      var root :- s.RandomArray(32);
      var made;
      made, change := ProtectRootWithFidoAndLocalSecret(root, caption, Operation.CreateRoot, s);
      r := if made.Ok? then Ok((root, made.value.0, made.value.1, made.value.2)) else Err(made.error);
    }

    // ----- removal -----

    ghost function RemoveRefusal(e: Envelope, root: Bytes32, id: RecipientId): Option<Error>
    {
      if e.applicationId != applicationId then Some(ApplicationMismatch)
      else if IdFree(e.recipients, id) then Some(RecipientNotFound)
      else if |e.recipients| == 1 then Some(WouldRemoveLastRecipient)
      else if e.mac != Mac(p, e, root) then Some(EnvelopeAuthenticationFailed)
      else None
    }

    /** Whatever was added to an envelope can be removed from it again. */
    lemma AddedCanBeRemoved(root: Bytes32, e: Envelope, c: Change, f: Envelope)
      requires e.applicationId == applicationId && e.recipients != []
      requires c.Added? && Changes(p, root, e, c, f)
      ensures RemoveRefusal(f, root, c.record.id) == None
    {
      hide Mac, Wraps, Staged, Joins, RecipientRecord.Valid, IdFree, PrimitiveSet.Sized;
      InsertedIds(e.recipients, c.record, c.record.id);
    }

    method StageRemoval(e: Envelope, index: nat, root: Bytes32) returns (r: Outcome<Envelope>)
      requires index < |e.recipients|
      ensures var f := Staged(p, e, RemoveAt(e.recipients, index), root);
              Envelopes.Valid(f, p.onCurve) ==> r == Ok(f)
    {
      hide Mac, PrimitiveSet.Sized, RemoveAt, WellFormed;
      var staged := new KeyEnvelope(e);
      ghost var f := Staged(p, e, RemoveAt(e.recipients, index), root);
      staged.recipients := RemoveAt(staged.recipients, index);
      MacIgnoresMac(p, staged.Value(), f.mac, root);
      staged.mac := Mac(p, staged.Value(), root);
      assert staged.Value() == f;
      var canonical :- Canonicalize(staged.Value());
      var _ :- VerifyMac(canonical, root);
      return Ok(canonical);
    }

    /** Succeeds exactly when nothing speaks against it, and asks nobody anything. */
    method RemoveRecipient(envelope: KeyEnvelope, root: Bytes32, id: RecipientId) returns (r: Outcome<()>, ghost change: Change)
      requires Envelopes.Valid(envelope.Value(), p.onCurve)
      modifies envelope
      ensures var e := old(envelope.Value());
              var refusal := RemoveRefusal(e, root, id);
              && r == (if refusal.Some? then Err(refusal.value) else Ok(()))
              && (r.Err? ==> change == Unchanged)
              && (r.Ok? ==> change.Removed? && change.index < |e.recipients| && e.recipients[change.index].id == id)
              && Changes(p, root, e, change, envelope.Value())
    {
      hide Mac, PrimitiveSet.Sized, RecipientRecord.Valid, DnsShaped, SetValid, Staged, RemoveAt;
      change := Unchanged;
      var e := envelope.Value();
      var _ :- RequireApplication(e);
      ValidAscends(e);
      var index :- Envelopes.Find(e.recipients, id);
      hide Ascending;
      if |e.recipients| == 1 {
        return Err(WouldRemoveLastRecipient), change;
      }
      var _ :- VerifyMac(e, root);
      RemovedValid(e, index, Staged(p, e, RemoveAt(e.recipients, index), root), p.onCurve);
      var staged := StageRemoval(e, index, root);
      change := Removed(index);
      envelope.Assign(staged.value);
      return Ok(()), change;
    }

    // ----- rewrapping -----

    ghost function RewrapRefusal(e: Envelope, root: Bytes32, id: RecipientId, parameters: Option<PassphraseParameters>): Option<Error>
    {
      if e.applicationId != applicationId then Some(ApplicationMismatch) else
      var i := Position(e.recipients, id);
      if i.None? then Some(RecipientNotFound) else
      var r := e.recipients[i.value];
      if !r.UsesPassphrase() then Some(RecipientDoesNotUsePassphrase)
      else if e.mac != Mac(p, e, root) then Some(EnvelopeAuthenticationFailed)
      else if !limits.Accepts(if parameters.Some? then parameters.value else r.kdf.parameters) then Some(PassphraseLimitExceeded)
      else None
    }

    /** A prepared replacement becomes a route that still only rekeys the old record. */
    lemma CompletesRewrap(e: Envelope, root: Bytes32, previous: RecipientRecord, r: RecipientRecord, f: Factors, s: Session, since: nat)
      requires e.applicationId == applicationId && r.Valid(p.onCurve) && Suits(r, f) && r.UsesPassphrase()
      requires Rekeys(previous, r, r.kdf.parameters) && SaltFree(e.recipients, r.kdf.salt) && Given(e, r, f, s, since)
      ensures var keys := KeysFrom(p, r, applicationId, e.envelopeId, f);
              var w := Wrap(p, r, applicationId, e.envelopeId, root, keys);
              && IsRoute(p, e, root, Route(w, keys), f) && w.UsesPassphrase()
              && Rekeys(previous, w, r.kdf.parameters) && w.kdf == r.kdf && RandomParts(w) == RandomParts(r) && Given(e, w, f, s, since)
    {
      var keys := KeysFrom(p, r, applicationId, e.envelopeId, f);
      var w := Wrap(p, r, applicationId, e.envelopeId, root, keys);
      WrappedIsRoute(p, e, root, r, f);
      BoundRekeys(previous, w, r);
      BoundBinds(w, r, applicationId, f);
      hide PrfInputOf, KeysFrom, Wrap, Bound, RandomParts, DrawnApart, IsRoute, BindingOf, SpokenTwice, Suits, Rekeys,
           AuthenticatorBackend.Answers, RecipientRecord.Valid, PrimitiveSet.Sized;
    }

    static lemma BoundRekeys(previous: RecipientRecord, w: RecipientRecord, r: RecipientRecord)
      requires Bound(w) == Bound(r) && w.caption == r.caption && r.UsesPassphrase() && Rekeys(previous, r, r.kdf.parameters)
      ensures w.UsesPassphrase() && w.kdf == r.kdf && Rekeys(previous, w, r.kdf.parameters)
      ensures RandomParts(w) == RandomParts(r)
    {
    }

    method RewrapPassphraseRecord(e: Envelope, root: Bytes32, previous: RecipientRecord, parameters: PassphraseParameters,
                                  s: Session)
      returns (r: Outcome<Route>, ghost f: Factors)
      requires e.applicationId == applicationId && parameters.Valid() && previous.Passphrase? && LabelValid(previous.caption)
      modifies s`clock, s`log
      ensures Followed(old(s.log), s.log, RewrapScript(previous), r.Ok?)
      ensures r.Err? ==> PassphraseFailure(r.error)
      ensures r.Ok? ==> IsRoute(p, e, root, r.value, f) && r.value.record.UsesPassphrase()
                        && Rekeys(previous, r.value.record, parameters) && SaltFree(e.recipients, r.value.record.kdf.salt)
                        && DrawnApart(s, RandomParts(r.value.record))
                        && Given(e, r.value.record, f, s, old(Mark()))
    {
      hide FirstFreeSalt, FirstOther, InTurn, DrawnApart, Session.Draw, SaltFree, NewPassphraseScript, Wrap, PassphraseKey,
           SpokenTwice, IsRoute,
           LabelValid, PassphraseParameters.Valid, PrimitiveSet.Sized;
      f := ByPassphrase([]);
      assert RewrapScript(previous) == NewPassphraseScript(Operation.RewrapPassphrase, previous.caption);
      ghost var began := s.clock;
      var salt :- UniqueSalt(e, s);
      ghost var middle := s.clock;
      var nonce :- FreshArray(previous.passphraseNonce, s);
      InTurnAppend(s, [salt], nonce, began, middle, s.clock);
      assert [salt] + [nonce] == [salt, nonce];
      Apart(s, [salt, nonce], began, s.clock);
      var record := Passphrase(previous.id, previous.caption, KdfDescriptor(parameters, salt), nonce, Zeros(48));
      var key, passphrase := NewPassphraseKey(record, e.envelopeId, Operation.RewrapPassphrase, s);
      if key.Err? {
        return Err(key.error), f;
      }
      f := ByPassphrase(passphrase);
      var keys := PassphraseKeys(key.value);
      CompletesRewrap(e, root, previous, record, f, s, old(Mark()));
      return Ok(Route(Wrap(p, record, applicationId, e.envelopeId, root, keys), keys)), f;
    }

    method RewrapCombinedRecord(e: Envelope, root: Bytes32, previous: RecipientRecord, parameters: PassphraseParameters,
                                s: Session)
      returns (r: Outcome<Route>, ghost f: Factors)
      requires Valid() && e.applicationId == applicationId && parameters.Valid()
      requires previous.FidoAndPassphrase? && previous.Valid(p.onCurve)
      modifies backend.Target(), s
      ensures Valid() && backend.Stores() == old(backend.Stores())
      ensures Followed(old(s.log), s.log, RewrapScript(previous), r.Ok?)
      ensures r.Ok? ==> IsRoute(p, e, root, r.value, f) && r.value.record.UsesPassphrase()
                        && Rekeys(previous, r.value.record, parameters) && SaltFree(e.recipients, r.value.record.kdf.salt)
                        && DrawnApart(s, RandomParts(r.value.record))
                        && Given(e, r.value.record, f, s, old(Mark()))
    {
      hide FirstFreeSalt, FirstOther, InTurn, DrawnApart, Session.Draw, SaltFree, NewPassphraseScript, AssertScript, Wrap,
           KeysFrom, Given, IsRoute,
           LabelValid, PassphraseParameters.Valid, PrimitiveSet.Sized, AuthenticatorBackend.Stores;
      f := ByPassphrase([]);
      ghost var t0 := s.clock;
      var prfNonce :- FreshArray(previous.prfNonce, s);
      ghost var t1 := s.clock;
      var fidoNonce :- FreshArray(previous.fidoNonce, s);
      ghost var t2 := s.clock;
      var salt :- UniqueSalt(e, s);
      ghost var t3 := s.clock;
      var nonce :- FreshArray(previous.passphraseNonce, s);
      FourApart(s, prfNonce, fidoNonce, salt, nonce, t0, t1, t2, t3, s.clock);
      var record := FidoAndPassphrase(previous.id, previous.caption, previous.credentialId, previous.publicKey, previous.policy, prfNonce, fidoNonce,
                                      KdfDescriptor(parameters, salt), nonce, Zeros(64));
      var keys, given := BothKeys(record, e, Operation.RewrapPassphrase, s);
      if keys.Err? {
        return Err(keys.error), f;
      }
      f := given;
      CombinedValid(record, p.onCurve);
      CompletesRewrap(e, root, previous, record, f, s, old(Mark()));
      return Ok(Route(Wrap(p, record, applicationId, e.envelopeId, root, keys.value), keys.value)), f;
    }

    method StageReplacement(e: Envelope, index: nat, route: Route, root: Bytes32, ghost f: Factors) returns (r: Outcome<Envelope>)
      requires Envelopes.Valid(e, p.onCurve) && index < |e.recipients|
      requires IsRoute(p, e, root, route, f) && route.record.UsesPassphrase()
      requires Rekeys(e.recipients[index], route.record, route.record.kdf.parameters) && SaltFree(e.recipients, route.record.kdf.salt)
      ensures p.Lawful() ==> r.Ok?
      ensures r.Ok? ==> Changes(p, root, e, Rewrapped(index, route.record, f), r.value)
    {
      ReplacementStands(e, index, route, root, f);
      hide Mac, Recover, PrimitiveSet.Sized, PrimitiveSet.Lawful, Envelopes.Valid, Rekeys, SaltFree, Changes, IsRoute, Staged;
      if p.Lawful() {
        RouteRecovers(e, route, root, f);
      }
      var staged := new KeyEnvelope(e);
      staged.recipients := staged.recipients[index := route.record];
      StagedAlike(e, staged.Value(), staged.recipients, root);
      r := StageExistingRecord(staged, route.record.id, root, route.keys, index);
    }

    /** A staged envelope does not depend on the list of records that it replaces. */
    lemma StagedAlike(e: Envelope, d: Envelope, rs: seq<RecipientRecord>, root: Bytes32)
      requires e.applicationId == d.applicationId && e.envelopeId == d.envelopeId && e.mac == d.mac
      ensures Staged(p, e, rs, root) == Staged(p, d, rs, root)
    {
      hide Mac;
    }

    lemma ReplacementStands(e: Envelope, index: nat, route: Route, root: Bytes32, f: Factors)
      requires Envelopes.Valid(e, p.onCurve) && index < |e.recipients|
      requires IsRoute(p, e, root, route, f) && route.record.UsesPassphrase()
      requires Rekeys(e.recipients[index], route.record, route.record.kdf.parameters) && SaltFree(e.recipients, route.record.kdf.salt)
      ensures var g := Staged(p, e, e.recipients[index := route.record], root);
              && Envelopes.Valid(g, p.onCurve) && Changes(p, root, e, Rewrapped(index, route.record, f), g)
              && g.recipients[index] == route.record
    {
      var r := route.record;
      RekeysKeeps(e.recipients[index], r, r.kdf.parameters);
      IsRewrap(e, index, route, root, f);
      hide Changes, Staged, Mac, PrimitiveSet.Sized, Rekeys, SaltFree, Wraps, WellFormed, RecipientRecord.Valid;
      RewrappedValid(e, index, r, Staged(p, e, e.recipients[index := r], root), p.onCurve);
    }

    lemma IsRewrap(e: Envelope, index: nat, route: Route, root: Bytes32, f: Factors)
      requires index < |e.recipients|
      requires IsRoute(p, e, root, route, f) && route.record.UsesPassphrase()
      requires Rekeys(e.recipients[index], route.record, route.record.kdf.parameters) && SaltFree(e.recipients, route.record.kdf.salt)
      ensures Changes(p, root, e, Rewrapped(index, route.record, f), Staged(p, e, e.recipients[index := route.record], root))
    {
      hide Staged, Mac, PrimitiveSet.Sized, Rekeys, SaltFree, Wraps, Joins, Insert, RemoveAt, RecipientRecord.Valid,
           RecipientRecord.UsesPassphrase;
    }

    method RewrapRecord(e: Envelope, index: nat, root: Bytes32, parameters: PassphraseParameters, s: Session)
      returns (r: Outcome<Envelope>, ghost change: Change)
      requires Valid() && Envelopes.Valid(e, p.onCurve) && parameters.Valid() && e.applicationId == applicationId
      requires index < |e.recipients| && e.recipients[index].UsesPassphrase()
      modifies backend.Target(), s
      ensures Valid() && backend.Stores() == old(backend.Stores())
      ensures r.Err? ==> change == Unchanged
      ensures p.Lawful() && e.recipients[index].Passphrase? && r.Err? ==> PassphraseFailure(r.error)
      ensures r.Ok? ==> && change.Rewrapped? && change.index == index
                        && change.record.UsesPassphrase() && change.record.kdf.parameters == parameters
                        && Changes(p, root, e, change, r.value)
                        && DrawnApart(s, RandomParts(change.record)) && Given(e, change.record, change.factors, s, old(Mark()))
      ensures Followed(old(s.log), s.log, RewrapScript(e.recipients[index]), r.Ok?)
    {
      hide PrimitiveSet.Sized, PrimitiveSet.Lawful, DnsShaped, SetValid, RewrapScript, Wraps, Given, PassphraseParameters.Valid,
           SaltFree, Rekeys, Changes, DrawnApart, RandomParts, AuthenticatorBackend.Stores;
      change := Unchanged;
      var current := e.recipients[index];
      var made;
      ghost var f;
      if current.Passphrase? {
        made, f := RewrapPassphraseRecord(e, root, current, parameters, s);
      } else {
        made, f := RewrapCombinedRecord(e, root, current, parameters, s);
      }
      if made.Err? {
        return Err(made.error), change;
      }
      RekeysKeeps(current, made.value.record, parameters);
      var staged :- StageReplacement(e, index, made.value, root, f);
      change := Rewrapped(index, made.value.record, f);
      return Ok(staged), change;
    }

    static lemma RekeysKeeps(previous: RecipientRecord, r: RecipientRecord, parameters: PassphraseParameters)
      requires Rekeys(previous, r, parameters)
      ensures r.id == previous.id && r.UsesPassphrase() && r.kdf.parameters == parameters
    {
    }

    /** Replaces the passphrase of one route under new parameters. */
    method RewrapPassphraseWithParameters(envelope: KeyEnvelope, root: Bytes32, id: RecipientId,
                                          parameters: PassphraseParameters, s: Session)
      returns (r: Outcome<()>, ghost change: Change)
      requires Valid() && Envelopes.Valid(envelope.Value(), p.onCurve) && parameters.Valid()
      modifies envelope, backend.Target(), s
      ensures Valid() && backend.Stores() == old(backend.Stores())
      ensures var refusal := RewrapRefusal(old(envelope.Value()), root, id, Some(parameters));
              refusal.Some? ==> r == Err(refusal.value) && unchanged(s) && unchanged(backend.Target())
      ensures Changes(p, root, old(envelope.Value()), change, envelope.Value())
      ensures r.Err? ==> change == Unchanged
      ensures var e := old(envelope.Value());
              p.Lawful() && r.Err? && RewrapRefusal(e, root, id, Some(parameters)).None? && e.recipients[Position(e.recipients, id).value].Passphrase?
              ==> PassphraseFailure(r.error)
      ensures var e := old(envelope.Value());
              r.Ok? ==> && change.Rewrapped? && Position(e.recipients, id) == Some(change.index)
                        && change.record.kdf.parameters == parameters
                        && DrawnApart(s, RandomParts(change.record)) && Given(e, change.record, change.factors, s, old(Mark()))
      ensures var i := Position(old(envelope.recipients), id);
              i.Some? ==> Followed(old(s.log), s.log, RewrapScript(old(envelope.recipients)[i.value]), r.Ok?)
    {
      hide Mac, PrimitiveSet.Sized, PrimitiveSet.Lawful, DnsShaped, SetValid, RewrapScript, Given, PassphraseParameters.Valid,
           RecipientRecord.Valid, Staged, Wraps, Rekeys, SaltFree, Position, AuthenticatorBackend.Stores;
      change := Unchanged;
      var e := envelope.Value();
      NothingFollowedAtAll(s.log, e.recipients);
      var _ :- RequireApplication(e);
      ValidAscends(e);
      var index :- Envelopes.Find(e.recipients, id);
      OnePosition(e.recipients, index);
      hide Ascending;
      if !e.recipients[index].UsesPassphrase() {
        return Err(RecipientDoesNotUsePassphrase), change;
      }
      var _ :- VerifyMac(e, root);
      var _ :- Admit(Some(parameters));
      var staged;
      staged, change := RewrapRecord(e, index, root, parameters, s);
      if staged.Err? {
        return Err(staged.error), change;
      }
      envelope.Assign(staged.value);
      return Ok(()), change;
    }

    static lemma NothingFollowedAtAll(a: seq<Event>, rs: seq<RecipientRecord>)
      ensures forall i | 0 <= i < |rs| :: Followed(a, a, RewrapScript(rs[i]), false)
    {
    }

    /** Replaces the passphrase of one route and keeps its parameters. */
    method RewrapPassphrase(envelope: KeyEnvelope, root: Bytes32, id: RecipientId, s: Session)
      returns (r: Outcome<()>, ghost change: Change)
      requires Valid() && Envelopes.Valid(envelope.Value(), p.onCurve)
      modifies envelope, backend.Target(), s
      ensures Valid() && backend.Stores() == old(backend.Stores())
      ensures var refusal := RewrapRefusal(old(envelope.Value()), root, id, None);
              refusal.Some? ==> r == Err(refusal.value) && unchanged(s) && unchanged(backend.Target())
      ensures Changes(p, root, old(envelope.Value()), change, envelope.Value())
      ensures r.Err? ==> change == Unchanged
      ensures var e := old(envelope.Value());
              p.Lawful() && r.Err? && RewrapRefusal(e, root, id, None).None? && e.recipients[Position(e.recipients, id).value].Passphrase?
              ==> PassphraseFailure(r.error)
      ensures var e := old(envelope.Value());
              r.Ok? ==> && change.Rewrapped? && Position(e.recipients, id) == Some(change.index)
                        && change.record.kdf.parameters == e.recipients[change.index].kdf.parameters
                        && DrawnApart(s, RandomParts(change.record)) && Given(e, change.record, change.factors, s, old(Mark()))
      ensures var i := Position(old(envelope.recipients), id);
              i.Some? ==> Followed(old(s.log), s.log, RewrapScript(old(envelope.recipients)[i.value]), r.Ok?)
    {
      hide Mac, PrimitiveSet.Sized, PrimitiveSet.Lawful, DnsShaped, SetValid, Staged, RewrapScript, Wraps, Given,
           PassphraseParameters.Valid,
           LabelValid, SaltFree, Position, AuthenticatorBackend.Stores;
      change := Unchanged;
      var e := envelope.Value();
      NothingFollowedAtAll(s.log, e.recipients);
      var _ :- RequireApplication(e);
      ValidAscends(e);
      var index :- Envelopes.Find(e.recipients, id);
      OnePosition(e.recipients, index);
      hide Ascending;
      if !e.recipients[index].UsesPassphrase() {
        return Err(RecipientDoesNotUsePassphrase), change;
      }
      r, change := RewrapPassphraseWithParameters(envelope, root, id, e.recipients[index].kdf.parameters, s);
    }

    // ----- unlocking -----

    /** Why the prompted unlock must be refused before the user is asked for anything. */
    ghost function UnlockRefusal(e: Envelope, id: RecipientId): Option<Error>
    {
      if e.applicationId != applicationId then Some(ApplicationMismatch) else
      var i := Position(e.recipients, id);
      if i.None? then Some(RecipientNotFound) else
      var r := e.recipients[i.value];
      if r.UsesPassphrase() && !limits.Accepts(r.kdf.parameters) then Some(PassphraseLimitExceeded)
      else if r.RecoverySecret? || r.FidoAndLocalSecret? then Some(UnlockFailed)
      else None
    }

    /** What the user and the authenticator gave at an unlock. */
    ghost predicate Presented(e: Envelope, r: RecipientRecord, f: Factors, s: Session, since: nat)
      reads backend.Target()
    {
      && Suits(r, f)
      && (r.UsesPassphrase() ==> Spoken(s, f.passphrase))
      && (r.UsesCredential() ==>
            backend.Answers(since, BindingOf(r, applicationId), PrfInputOf(p, r, applicationId, e.envelopeId), f.prf))
    }

    method OldPassphraseKey(r: RecipientRecord, envelopeId: Bytes32, s: Session)
      returns (key: Outcome<Bytes32>, ghost passphrase: Bytes)
      requires r.UsesPassphrase()
      modifies s`clock, s`log
      ensures Followed(old(s.log), s.log, OldPassphraseScript(Operation.Unlock, r.caption), key.Ok?)
      ensures key.Ok? ==> key.value == PassphraseKey(p, r, applicationId, envelopeId, passphrase) && Spoken(s, passphrase)
      ensures key.Err? ==> OldPassphraseFailure(key.error)
    {
      hide PassphraseKey;
      passphrase := [];
      var given :- s.RequestPassphrase(Operation.Unlock, r.caption, ForUnlock);
      passphrase := given;
      key := DerivePassphraseKey(r, envelopeId, given, s);
    }

    /** The layers of a combined record, the outer one before the passphrase is asked for. */
    method UnlockCombined(e: Envelope, i: nat, s: Session) returns (r: Outcome<Bytes>, ghost presented: Option<Factors>)
      requires Valid() && e.applicationId == applicationId && i < |e.recipients| && e.recipients[i].FidoAndPassphrase?
      modifies backend.Target(), s
      ensures Valid() && backend.Stores() == old(backend.Stores())
      ensures Followed(old(s.log), s.log, UnlockScript(e.recipients[i]), presented.Some?)
      ensures r.Ok? ==> presented.Some?
      ensures presented.Some? ==> Presented(e, e.recipients[i], presented.value, s, old(Mark()))
                                  && r == Open(p, e.recipients[i], e.applicationId, e.envelopeId, presented.value)
      ensures old(backend.History()) <= backend.History() && |backend.History()| <= |old(backend.History())| + 1
      ensures PassphraseNeedsOuterLayer(e, i, old(s.log), s.log, old(Mark()))
    {
      hide AssertScript, OldPassphraseScript, PrfInputOf, PassphraseKey, FidoKey, OpenOuter, OpenInner, Spoken,
           PrimitiveSet.Sized,
           AuthenticatorBackend.Answers, AuthenticatorBackend.Stores;
      presented := None;
      var record := e.recipients[i];
      var assertion, asking := AssertScript(Operation.Unlock, record.caption, record.policy), OldPassphraseScript(Operation.Unlock, record.caption);
      var prf := Evaluate(record, e, Operation.Unlock, s);
      if prf.Err? {
        Stops(old(s.log), s.log, assertion, asking);
        return Err(prf.error), presented;
      }
      ghost var log := s.log;
      var fidoKey := FidoKey(p, record, applicationId, e.envelopeId, prf.value);
      var inner := OpenOuter(p, record, applicationId, e.envelopeId, fidoKey);
      if inner.Err? {
        Stops(old(s.log), s.log, assertion, asking);
        return Err(inner.error), presented;
      }
      var key, passphrase := OldPassphraseKey(record, e.envelopeId, s);
      Continues(old(s.log), log, s.log, assertion, asking, key.Ok?);
      if key.Err? {
        return Err(key.error), presented;
      }
      presented := Some(ByFidoAndPassphrase(prf.value, passphrase));
      r := OpenInner(p, record, applicationId, e.envelopeId, inner.value, key.value);
    }

    /** If the user was asked for anything beyond the assertion, a PRF that it gave had opened the outer layer. */
    ghost predicate PassphraseNeedsOuterLayer(e: Envelope, i: nat, before: seq<Event>, after: seq<Event>, since: nat)
      requires i < |e.recipients| && e.recipients[i].FidoAndPassphrase?
      reads backend.Target()
    {
      var r := e.recipients[i];
      |after| > |before| + |AssertScript(Operation.Unlock, r.caption, r.policy)| ==>
        exists prf: Bytes32 ::
          && backend.Answers(since, BindingOf(r, applicationId), PrfInputOf(p, r, applicationId, e.envelopeId), prf)
          && OpenOuter(p, r, applicationId, e.envelopeId, FidoKey(p, r, applicationId, e.envelopeId, prf)).Ok?
    }

    method UnlockOne(e: Envelope, i: nat, s: Session) returns (r: Outcome<Bytes>, ghost presented: Option<Factors>)
      requires Valid() && e.applicationId == applicationId && i < |e.recipients|
      requires !e.recipients[i].RecoverySecret? && !e.recipients[i].FidoAndLocalSecret?
      modifies backend.Target(), s
      ensures Valid() && backend.Stores() == old(backend.Stores())
      ensures Followed(old(s.log), s.log, UnlockScript(e.recipients[i]), presented.Some?)
      ensures r.Ok? ==> presented.Some?
      ensures e.recipients[i].Passphrase? && presented.None? ==> r.Err? && OldPassphraseFailure(r.error)
      ensures presented.Some? ==> Presented(e, e.recipients[i], presented.value, s, old(Mark()))
                                  && r == Open(p, e.recipients[i], e.applicationId, e.envelopeId, presented.value)
      ensures old(backend.History()) <= backend.History() && |backend.History()| <= |old(backend.History())| + 1
      ensures e.recipients[i].FidoAndPassphrase? ==> PassphraseNeedsOuterLayer(e, i, old(s.log), s.log, old(Mark()))
    {
      hide AssertScript, OldPassphraseScript, PrfInputOf, PassphraseKey, FidoKey, Recover, Spoken, PrimitiveSet.Sized,
           AuthenticatorBackend.Answers, AuthenticatorBackend.Stores, PassphraseNeedsOuterLayer;
      presented := None;
      var record := e.recipients[i];
      if record.Passphrase? {
        assert UnlockScript(record) == OldPassphraseScript(Operation.Unlock, record.caption);
        var key, passphrase := OldPassphraseKey(record, e.envelopeId, s);
        if key.Err? {
          return Err(key.error), presented;
        }
        presented := Some(ByPassphrase(passphrase));
        r := Recover(p, record, applicationId, e.envelopeId, PassphraseKeys(key.value));
      } else if record.Fido? {
        assert UnlockScript(record) == AssertScript(Operation.Unlock, record.caption, record.policy);
        var prf := Evaluate(record, e, Operation.Unlock, s);
        if prf.Err? {
          return Err(prf.error), presented;
        }
        presented := Some(ByFido(prf.value));
        r := Recover(p, record, applicationId, e.envelopeId, FidoKeys(FidoKey(p, record, applicationId, e.envelopeId, prf.value)));
      } else {
        r, presented := UnlockCombined(e, i, s);
      }
    }

    /** A root is only handed out if the whole envelope authenticates under it. */
    function Authenticated(e: Envelope, root: Bytes): (r: Outcome<Bytes>)
      requires |root| == 32
    {
      if e.mac == Mac(p, e, root) then Ok(root) else Err(UnlockFailed)
    }

    /**
     Recovers the root through one recipient. Once every factor has been presented,
     the result is exactly what the record and the MAC say, for better or worse.
     */
    method Unlock(envelope: KeyEnvelope, id: RecipientId, s: Session)
      returns (r: Outcome<Bytes>, ghost presented: Option<Factors>)
      requires Valid() && Envelopes.Valid(envelope.Value(), p.onCurve)
      modifies backend.Target(), s
      ensures Valid() && backend.Stores() == old(backend.Stores())
      ensures var refusal := UnlockRefusal(envelope.Value(), id);
              refusal.Some? ==> r == Err(refusal.value) && unchanged(s) && unchanged(backend.Target())
      ensures r.Ok? ==> presented.Some?
      ensures var e := envelope.Value();
              presented.None? && UnlockRefusal(e, id).None? && e.recipients[Position(e.recipients, id).value].Passphrase?
              ==> r.Err? && OldPassphraseFailure(r.error)
      ensures var e := envelope.Value();
              var i := Position(e.recipients, id);
              i.Some? ==>
                && Followed(old(s.log), s.log, UnlockScript(e.recipients[i.value]), presented.Some?)
                && (presented.Some? ==> Presented(e, e.recipients[i.value], presented.value, s, old(Mark()))
                                        && r == Unlocked(p, e, i.value, presented.value))
                && (e.recipients[i.value].FidoAndPassphrase? ==> PassphraseNeedsOuterLayer(e, i.value, old(s.log), s.log, old(Mark())))
      ensures Position(envelope.recipients, id).None? ==> presented.None?
      ensures old(backend.History()) <= backend.History() && |backend.History()| <= |old(backend.History())| + 1
    {
      hide Mac, Open, PrimitiveSet.Sized, DnsShaped, SetValid, UnlockScript, RecipientRecord.Valid, Position, Presented,
           AuthenticatorBackend.Stores;
      presented := None;
      var e := envelope.Value();
      NothingUnlocked(e, s.log, Mark());
      var _ :- RequireApplication(e);
      ValidAscends(e);
      var index :- Envelopes.Find(e.recipients, id);
      OnePosition(e.recipients, index);
      hide PassphraseNeedsOuterLayer, Ascending, Followed;
      var record := e.recipients[index];
      var _ :- Admit(if record.UsesPassphrase() then Some(record.kdf.parameters) else None);
      if record.RecoverySecret? || record.FidoAndLocalSecret? {
        return Err(UnlockFailed), presented;
      }
      var root;
      root, presented := UnlockOne(e, index, s);
      if root.Err? {
        return root, presented;
      }
      r := Authenticated(e, root.value);
    }

    lemma NothingUnlocked(e: Envelope, a: seq<Event>, since: nat)
      ensures forall i | 0 <= i < |e.recipients| ::
                Followed(a, a, UnlockScript(e.recipients[i]), false)
                && (e.recipients[i].FidoAndPassphrase? ==> PassphraseNeedsOuterLayer(e, i, a, a, since))
    {
    }

    /** Asks nobody: the result is determined by the envelope, the id and the secret. */
    method UnlockWithRecoverySecret(envelope: KeyEnvelope, id: RecipientId, secret: Bytes32) returns (r: Outcome<Bytes>)
      requires Envelopes.Valid(envelope.Value(), p.onCurve)
      ensures var e := envelope.Value();
              var i := Position(e.recipients, id);
              r == if e.applicationId != applicationId then Err(ApplicationMismatch)
                   else if i.None? || !e.recipients[i.value].RecoverySecret? then Err(UnlockFailed)
                   else Unlocked(p, e, i.value, ByRecoverySecret(secret))
    {
      hide Mac, Recover, PrimitiveSet.Sized, DnsShaped, SetValid, RecipientRecord.Valid, Position, RecoverySecretKey;
      var e := envelope.Value();
      var _ :- RequireApplication(e);
      ValidAscends(e);
      var found := Envelopes.Find(e.recipients, id);
      if found.Err? || !e.recipients[found.value].RecoverySecret? {
        if found.Ok? { OnePosition(e.recipients, found.value); }
        return Err(UnlockFailed);
      }
      OnePosition(e.recipients, found.value);
      var record := e.recipients[found.value];
      var key := RecoverySecretKey(p, record, applicationId, e.envelopeId, secret);
      var root :- Recover(p, record, applicationId, e.envelopeId, RecoverySecretKeys(key));
      return Authenticated(e, root);
    }

    method UnlockWithFidoAndLocalSecret(envelope: KeyEnvelope, id: RecipientId, secret: Bytes32, s: Session)
      returns (r: Outcome<Bytes>, ghost prf: Option<Bytes32>)
      requires Valid() && Envelopes.Valid(envelope.Value(), p.onCurve)
      modifies backend.Target(), s
      ensures Valid() && backend.Stores() == old(backend.Stores())
      ensures r.Ok? ==> prf.Some?
      ensures var e := envelope.Value();
              var i := Position(e.recipients, id);
              if e.applicationId != applicationId then r == Err(ApplicationMismatch) && unchanged(s) && unchanged(backend.Target())
              else if i.None? || !e.recipients[i.value].FidoAndLocalSecret? then
                r == Err(UnlockFailed) && unchanged(s) && unchanged(backend.Target())
              else
                && Followed(old(s.log), s.log, UnlockScript(e.recipients[i.value]), prf.Some?)
                && (prf.Some? ==> Presented(e, e.recipients[i.value], ByFidoAndSecret(prf.value, secret), s, old(Mark()))
                                  && r == Unlocked(p, e, i.value, ByFidoAndSecret(prf.value, secret)))
      ensures old(backend.History()) <= backend.History() && |backend.History()| <= |old(backend.History())| + 1
    {
      hide Mac, Recover, PrimitiveSet.Sized, DnsShaped, SetValid, RecipientRecord.Valid, Position, FidoLocalKey, AssertScript,
           PrfInputOf,
           AuthenticatorBackend.Answers, AuthenticatorBackend.Stores;
      prf := None;
      var e := envelope.Value();
      var _ :- RequireApplication(e);
      ValidAscends(e);
      var found := Envelopes.Find(e.recipients, id);
      if found.Err? || !e.recipients[found.value].FidoAndLocalSecret? {
        if found.Ok? { OnePosition(e.recipients, found.value); }
        return Err(UnlockFailed), prf;
      }
      OnePosition(e.recipients, found.value);
      hide Ascending;
      var record := e.recipients[found.value];
      assert UnlockScript(record) == AssertScript(Operation.Unlock, record.caption, Presence);
      var answer := Evaluate(record, e, Operation.Unlock, s);
      if answer.Err? {
        return Err(answer.error), prf;
      }
      prf := Some(answer.value);
      var key := FidoLocalKey(p, record, applicationId, e.envelopeId, answer.value, secret);
      var root := Recover(p, record, applicationId, e.envelopeId, FidoAndLocalKeys(key));
      if root.Err? {
        return root, prf;
      }
      r := Authenticated(e, root.value);
    }

    /**
     What a security key gave at enrollment it gives again, if its PRF is a function of
     what it is asked, as that of the test double is. So an unlock of any sound envelope
     that gets its answer, and the other factor of the record if there is one, recovers the root.
     */
    lemma KeyReopens(root: Bytes32, state: State, i: nat, f: Factors, s: Session, t: Session, prf: PrfRequest -> Bytes32,
                     enrolled: nat, since: nat)
      requires Valid() && backend.Computes(prf)
      requires Sound(p, root, applicationId, state.envelope.envelopeId, state)
      requires i < |state.envelope.recipients| && state.envelope.recipients[i].UsesCredential()
      requires var r := state.envelope.recipients[i];
               && r.id in state.ring && Given(state.envelope, r, state.ring[r.id], s, enrolled)
               && Presented(state.envelope, r, f, t, since) && SameOther(f, state.ring[r.id])
      ensures Unlocked(p, state.envelope, i, f) == Ok(root)
    {
      hide Open, Mac, PrimitiveSet.Sized, PrimitiveSet.Lawful, Envelopes.Valid, RingExact, SameOther, Given, Presented,
           AuthenticatorBackend.Computes, KeyProtector.Valid;
      var e := state.envelope;
      assert RouteOpens(p, root, e, state.ring, i);
      KeyAnswersAgain(e, e.recipients[i], f, state.ring[e.recipients[i].id], s, t, prf, enrolled, since);
    }

    lemma KeyAnswersAgain(e: Envelope, r: RecipientRecord, f: Factors, g: Factors, s: Session, t: Session,
                          prf: PrfRequest -> Bytes32, enrolled: nat, since: nat)
      requires Valid() && backend.Computes(prf) && r.UsesCredential()
      requires Given(e, r, g, s, enrolled) && Presented(e, r, f, t, since) && SameOther(f, g)
      ensures f == g
    {
      hide AuthenticatorBackend.Answers, AuthenticatorBackend.Computes, PrfInputOf, SpokenTwice, Spoken, BindingOf;
      backend.AnswersAgree(p, prf, since, enrolled, BindingOf(r, applicationId), PrfInputOf(p, r, applicationId, e.envelopeId),
                           f.prf, g.prf);
    }

    // ----- managing a credential -----

    ghost function ManagedRefusal(e: Envelope, root: Bytes32, id: RecipientId): Option<Error>
    {
      if e.applicationId != applicationId then Some(ApplicationMismatch)
      else if e.mac != Mac(p, e, root) then Some(EnvelopeAuthenticationFailed) else
      var i := Position(e.recipients, id);
      if i.None? then Some(RecipientNotFound)
      else if !e.recipients[i.value].IsManaged() then Some(RecipientIsNotManaged)
      else None
    }

    /** The managed record that the user named, in an envelope that authenticates. */
    method FindManagedRecord(e: Envelope, root: Bytes32, id: RecipientId) returns (r: Outcome<RecipientRecord>)
      requires Envelopes.Valid(e, p.onCurve)
      ensures var refusal := ManagedRefusal(e, root, id);
              if refusal.Some? then r == Err(refusal.value)
              else Position(e.recipients, id).Some? && r == Ok(e.recipients[Position(e.recipients, id).value]) && r.value.IsManaged()
    {
      hide Mac, PrimitiveSet.Sized, DnsShaped, SetValid, RecipientRecord.Valid, Position;
      var _ :- RequireAuthenticated(e, root);
      ValidAscends(e);
      var index :- Envelopes.Find(e.recipients, id);
      OnePosition(e.recipients, index);
      if !e.recipients[index].IsManaged() {
        return Err(RecipientIsNotManaged);
      }
      return Ok(e.recipients[index]);
    }

    /** Success proves a verified assertion and the one exact management record; nothing is changed. */
    method VerifyManagedRecipient(envelope: KeyEnvelope, root: Bytes32, id: RecipientId, s: Session) returns (r: Outcome<()>)
      requires Valid() && Envelopes.Valid(envelope.Value(), p.onCurve)
      modifies backend.Target(), s
      ensures Valid() && backend.Stores() == old(backend.Stores())
      ensures var refusal := ManagedRefusal(envelope.Value(), root, id);
              if refusal.Some? then r == Err(refusal.value) && unchanged(s) && unchanged(backend.Target())
              else
                var record := envelope.recipients[Position(envelope.recipients, id).value];
                var b := BindingOf(record, applicationId);
                && Followed(old(s.log), s.log, ManageScript(Operation.VerifyManagedRecipient, record.caption, record.policy), r.Ok?)
                && (r.Ok? && backend.NativeChoice? ==> exists h: nat ::
                      backend.native.library.VerifiedOn(h, old(backend.History()), backend.History(), ExpectationOf(b), s, old(s.clock)))
                && (r.Ok? && backend.FakeChoice? ==> backend.fake.FindManaged(backend.fake.selectedDevice, b).Ok?)
    {
      hide Mac, PrimitiveSet.Sized, Envelopes.Valid, Position, ManageScript, Authenticators.VerifiedOn, AuthenticatorBackend.Stores;
      var record :- FindManagedRecord(envelope.Value(), root, id);
      r := backend.VerifyManaged(p, BindingOf(record, applicationId), Operation.VerifyManagedRecipient, s);
    }

    /** Success means a verified assertion, a deletion attempt, and after it a complete list without the credential. */
    method RetireManagedRecipient(envelope: KeyEnvelope, root: Bytes32, id: RecipientId, s: Session) returns (r: Outcome<()>)
      requires Valid() && Envelopes.Valid(envelope.Value(), p.onCurve)
      modifies backend.Target(), s
      ensures Valid()
      ensures var refusal := ManagedRefusal(envelope.Value(), root, id);
              if refusal.Some? then r == Err(refusal.value) && unchanged(s) && unchanged(backend.Target())
              else
                var record := envelope.recipients[Position(envelope.recipients, id).value];
                var b := BindingOf(record, applicationId);
                && Followed(old(s.log), s.log, ManageScript(Operation.RetireManagedRecipient, record.caption, record.policy), r.Ok?)
                && (r.Ok? && backend.NativeChoice? ==> exists h: nat ::
                      backend.native.library.RetiredOn(h, old(backend.History()), backend.History(), ExpectationOf(b), s, old(s.clock)))
                && (r.Ok? && backend.FakeChoice? ==>
                      record.credentialId !in backend.fake.devices[backend.fake.selectedDevice].credentials)
    {
      hide Mac, PrimitiveSet.Sized, Envelopes.Valid, Position, ManageScript, Authenticators.RetiredOn;
      var record :- FindManagedRecord(envelope.Value(), root, id);
      r := backend.RetireManaged(p, BindingOf(record, applicationId), Operation.RetireManagedRecipient, s);
    }
  }
}
