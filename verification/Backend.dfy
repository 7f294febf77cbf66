/** The native backend, and the choice between it and the fake. */
module Backends {
  import opened Wrappers
  import opened Errors
  import opened Bytes
  import opened Identity
  import opened Policy
  import opened NativeErrors
  import opened Inventory
  import opened Sessions
  import opened Crypto
  import opened Requests
  import opened Native
  import Fake

  /** The record that management must show for a managed recipient. */
  function ExpectationOf(b: CredentialBinding): Expectation
  {
    Expectation(b.applicationId, b.recipientId, b.credentialId, b.publicKey, Some(ProtectionOf(b.policy)))
  }

  /** The PRF of a recorded credential on an input. */
  function PrfOf(b: CredentialBinding, input: Bytes32): PrfRequest
  {
    PrfRequest(b.applicationId, b.credentialId, b.publicKey, input, b.policy)
  }

  /** Enrollment and what follows it, or an initial part of that and then an initial part of a cleanup. */
  ghost predicate FollowedOrUndone(before: seq<Event>, after: seq<Event>, script: seq<Event>, cleanup: seq<Event>, ok: bool)
  {
    if ok then after == before + script
    else exists k | 0 <= k <= |script| :: before + script[..k] <= after <= before + script[..k] + cleanup
  }

  lemma OnlyFollowed(before: seq<Event>, after: seq<Event>, script: seq<Event>, cleanup: seq<Event>, ok: bool)
    requires Followed(before, after, script, ok)
    ensures FollowedOrUndone(before, after, script, cleanup, ok)
  {
    if !ok {
      var k := |after| - |before|;
      assert after == before + script[..k];
    }
  }

  lemma FollowedThenUndone(before: seq<Event>, middle: seq<Event>, after: seq<Event>, script: seq<Event>, cleanup: seq<Event>)
    requires Followed(before, middle, script, false) && Followed(middle, after, cleanup, false)
    ensures FollowedOrUndone(before, after, script, cleanup, false)
  {
    var k := |middle| - |before|;
    assert middle == before + script[..k];
  }

  /** Undoing the only addition restores the store. */
  lemma UndoRestores(before: seq<Device>, middle: seq<Device>, after: seq<Device>, h: nat, added: Holding)
    requires Authenticators.OneMore(before, middle, h, added)
    requires Authenticators.Without(middle, after, h, added.resident.credentialId)
    ensures after == before
  {
    DropFresh(before[h].holdings, added);
    assert middle[h].holdings == before[h].holdings + [added];
    assert after[h] == before[h];
  }

  /** A credential that was just added is still listed, so an honest device cannot report it absent. */
  lemma AddedIsListed(before: seq<Device>, after: seq<Device>, h: nat, added: Holding, e: Expectation)
    requires Authenticators.OneMore(before, after, h, added)
    requires e.relyingParty == added.relyingParty && e.credentialId == added.resident.credentialId
    ensures !NoneShares(Listed(after[h].holdings, e.relyingParty), e)
  {
    HeldIsListed(before[h].holdings, added);
    var rs := Listed(after[h].holdings, e.relyingParty);
    assert after[h].holdings == before[h].holdings + [added];
    var i :| 0 <= i < |rs| && rs[i] == added.resident;
    assert e.SharesAnId(rs[i]);
  }

  class NativeBackend {
    const library: Authenticators
    const p: Primitives

    constructor (library: Authenticators, p: Primitives)
      ensures this.library == library && this.p == p
    {
      this.library, this.p := library, p;
    }

    method Select(supports: Capabilities -> bool, s: Session) returns (r: Outcome<nat>)
      modifies library`now, s`clock, s`selections
      ensures s.clock >= old(s.clock)
      ensures r.Ok? ==> r.value < |library.devices| && supports(library.devices[r.value].capabilities)
    {
      var prepared := library.PrepareSelection(supports);
      if prepared.Err? {
        return Err(MapNativeError(prepared.error));
      }
      if |prepared.value| > 1 {
        var _ :- s.SelectAuthenticator();
      }
      var chosen := library.SelectFrom(prepared.value);
      if chosen.Err? {
        return Err(MapNativeError(chosen.error));
      }
      return Ok(chosen.value);
    }

    method Enroll(applicationId: Bytes, policy: FidoPolicy, caption: Bytes, operation: Operation, s: Session)
      returns (r: Outcome<CredentialMaterial>)
      modifies library`now, library`devices, library`history, s
      ensures library.devices == old(library.devices) && old(library.history) <= library.history
      ensures Followed(old(s.log), s.log, EnrollScript(operation, caption, policy), r.Ok?)
      ensures r.Ok? ==>
                && p.onCurve(r.value.publicKey)
                && var made := Enrolled(r.value.credentialId, r.value.publicKey, ProtectionOf(policy), None);
                exists h: nat :: library.EnrolledOn(h, old(library.history), library.history, applicationId, policy, None, made)
    {
      hide Authenticators.EnrolledOn;
      var h :- Select((c: Capabilities) => c.SupportsPolicy(policy), s);
      var _ :- Announce(operation, caption, policy, s);
      var enrolled := library.Enroll(h, applicationId, policy, None, s);
      if enrolled.Err? {
        return Err(MapNativeError(enrolled.error.error));
      }
      var made := enrolled.value;
      library.AttestedProtection(h, old(library.history), library.history, applicationId, policy, None, made);
      if made.protection != ProtectionOf(policy) || !p.onCurve(made.publicKey) {
        return Err(AuthenticatorResponseInvalid);
      }
      assert made == Enrolled(made.credentialId, made.publicKey, ProtectionOf(policy), None);
      return Ok(CredentialMaterial(made.credentialId, made.publicKey));
    }

    /**
     A failure that does not say a credential may remain leaves the store as it was,
     if the device reports its store truly; success has added exactly one credential.
     */
    method EnrollManaged(applicationId: Bytes, recipientId: RecipientId, policy: FidoPolicy, caption: Bytes,
                         operation: Operation, s: Session)
      returns (r: Outcome<(ManagedEnrollment, PendingManaged)>)
      modifies library, s
      ensures |library.devices| == |old(library.devices)| && old(library.history) <= library.history
      ensures FollowedOrUndone(old(s.log), s.log, EnrollScript(operation, caption, policy),
                               TouchScript(RetireManagedRecipient, caption, policy), r.Ok?)
      ensures r.Ok? ==>
                var e, pending := r.value.0, r.value.1;
                && p.onCurve(e.credential.publicKey) && e.policy == policy && e.device == pending.device
                && Authenticators.NewestIs(library.devices, pending.device,
                                           Expectation(applicationId, recipientId, e.credential.credentialId, e.credential.publicKey,
                                                       Some(ProtectionOf(policy))))
                && pending.expectation.credentialId == e.credential.credentialId
                && library.EnrolledOn(pending.device, old(library.history), library.history, applicationId, policy, Some(recipientId),
                                      Enrolled(e.credential.credentialId, e.credential.publicKey, ProtectionOf(policy), Some(pending)))
                && Authenticators.Undoable(old(library.devices), library.devices, pending.device, applicationId, recipientId, pending)
      ensures library.honest && r.Err? && r.error != Authenticator(CredentialMayRemain)
              ==> library.devices == old(library.devices)
    {
      hide Authenticators.EnrolledOn, Authenticators.OneMoreNamed, Authenticators.NewestIs, FollowedOrUndone, EnrollScript,
           TouchScript;
      var script := EnrollScript(operation, caption, policy);
      ghost var cleanup := TouchScript(RetireManagedRecipient, caption, policy);
      var selected := Select((c: Capabilities) => c.SupportsManagedEnrollment(policy), s);
      if selected.Err? {
        OnlyFollowed(old(s.log), s.log, script, cleanup, false);
        return Err(selected.error);
      }
      var h := selected.value;
      var announced := Announce(operation, caption, policy, s);
      if announced.Err? {
        OnlyFollowed(old(s.log), s.log, script, cleanup, false);
        return Err(announced.error);
      }
      ghost var devices := library.devices;
      var enrolled := library.Enroll(h, applicationId, policy, Some(recipientId), s);
      if enrolled.Err? {
        var original := MapNativeError(enrolled.error.error);
        if enrolled.error.pending.None? {
          OnlyFollowed(old(s.log), s.log, script, cleanup, false);
          return Err(original);
        }
        var error := RejectPending(enrolled.error.pending.value, caption, policy, original, s, devices, applicationId, recipientId);
        FollowedThenUndone(old(s.log), old(s.log) + script, s.log, script, cleanup);
        return Err(error);
      }
      var pending := enrolled.value.pending.value;
      library.AttestedProtection(h, old(library.history), library.history, applicationId, policy, Some(recipientId), enrolled.value);
      if enrolled.value.protection != ProtectionOf(policy) || !p.onCurve(enrolled.value.publicKey) {
        var error := RejectPending(pending, caption, policy, AuthenticatorResponseInvalid, s, devices, applicationId, recipientId);
        FollowedThenUndone(old(s.log), old(s.log) + script, s.log, script, cleanup);
        return Err(error);
      }
      var credential := CredentialMaterial(enrolled.value.credentialId, enrolled.value.publicKey);
      OnlyFollowed(old(s.log), s.log, script, cleanup, true);
      return Ok((ManagedEnrollment(credential, policy, h), pending));
    }

    method Announce(operation: Operation, caption: Bytes, policy: FidoPolicy, s: Session) returns (r: Outcome<()>)
      modifies s`clock, s`log
      ensures Followed(old(s.log), s.log, EnrollScript(operation, caption, policy), r.Ok?)
    {
      var _ :- s.RequestPin(operation, caption, EnrollmentCeremony);
      r := s.TouchRequired(operation, caption, EnrollmentCeremony, policy);
    }

    /** The original error if the new credential is gone, and otherwise that it may remain. */
    method RejectPending(pending: PendingManaged, caption: Bytes, policy: FidoPolicy, original: Error, s: Session,
                         ghost before: seq<Device>, ghost applicationId: Bytes, ghost recipientId: RecipientId)
      returns (error: Error)
      requires Authenticators.Undoable(before, library.devices, pending.device, applicationId, recipientId, pending)
      modifies library, s
      ensures |library.devices| == |before| && old(library.history) <= library.history
      ensures Followed(old(s.log), s.log, TouchScript(RetireManagedRecipient, caption, policy), false)
      ensures error == original || error == Authenticator(CredentialMayRemain)
      ensures library.honest && error != Authenticator(CredentialMayRemain) ==> library.devices == before
    {
      var gone := CleanupPending(pending, RetireManagedRecipient, caption, policy, s, before, applicationId, recipientId);
      return if gone.Ok? then original else Authenticator(CredentialMayRemain);
    }

    /** Asks the creating device for the credential, and if it is there deletes it. */
    method CleanupPending(pending: PendingManaged, operation: Operation, caption: Bytes, policy: FidoPolicy, s: Session,
                          ghost before: seq<Device>, ghost applicationId: Bytes, ghost recipientId: RecipientId)
      returns (r: Outcome<()>)
      requires Authenticators.Undoable(before, library.devices, pending.device, applicationId, recipientId, pending)
      modifies library, s
      ensures |library.devices| == |before| && old(library.history) <= library.history
      ensures Followed(old(s.log), s.log, TouchScript(operation, caption, policy), false)
      ensures library.honest && r.Ok? ==> library.devices == before
    {
      ghost var middle := library.devices;
      ghost var holdings := middle[pending.device].holdings;
      ghost var added := holdings[|holdings| - 1];
      AddedIsListed(before, middle, pending.device, added, pending.expectation);
      var found := library.PrepareCleanup(pending.device, pending);
      if found.Err? {
        return Err(MapNativeError(found.error));
      }
      if found.value == Absent {
        return Ok(());
      }
      var _ :- s.TouchRequired(operation, caption, AssertionCeremony, policy);
      var finished := library.FinishCleanup(pending, s);
      if finished.Err? {
        return Err(MapNativeError(finished.error));
      }
      if library.honest {
        if library.devices != middle {
          UndoRestores(before, middle, library.devices, pending.device, added);
        }
      }
      return Ok(());
    }

    /** What is returned is what a verified response to this very call gave for the credential and the input. */
    method Evaluate(b: CredentialBinding, input: Bytes32, operation: Operation, s: Session) returns (r: Outcome<Bytes32>)
      modifies library`now, library`history, s
      ensures Followed(old(s.log), s.log, AssertScript(operation, b.caption, b.policy), r.Ok?)
      ensures old(library.history) <= library.history && |library.history| <= |old(library.history)| + 1
      ensures r.Ok? ==>
                && |library.history| == |old(library.history)| + 1
                && var x := library.history[|old(library.history)|];
                library.Yields(x, PrfOf(b, input), r.value) && Authenticators.FreshChallenge(x, s, old(s.clock))
    {
      hide Authenticators.Yields;
      var h :- Select((c: Capabilities) => c.SupportsPolicy(b.policy), s);
      if b.policy == UserVerification {
        var _ :- s.RequestPin(operation, b.caption, AssertionCeremony);
      }
      var _ :- s.TouchRequired(operation, b.caption, AssertionCeremony, b.policy);
      var result := library.Evaluate(h, PrfOf(b, input), b.policy == UserVerification, s);
      return if result.Ok? then Ok(result.value) else Err(MapNativeError(result.error));
    }

    /** The same under the PIN of the enrollment, and the exact record was seen on the device before the result is used. */
    method EvaluateManaged(device: nat, b: CredentialBinding, input: Bytes32, operation: Operation, s: Session)
      returns (r: Outcome<Bytes32>)
      requires device < |library.devices|
      modifies library`now, library`history, s
      ensures Followed(old(s.log), s.log, TouchScript(operation, b.caption, b.policy), r.Ok?)
      ensures old(library.history) <= library.history
      ensures r.Ok? ==>
                && |library.history| == |old(library.history)| + 2
                && var x, list := library.history[|old(library.history)|], library.history[|old(library.history)| + 1];
                && library.Yields(x, PrfOf(b, input), r.value) && x.device == device && Authenticators.FreshChallenge(x, s, old(s.clock))
                && list.Enumerated? && list.device == device && OneExact(list.residents, ExpectationOf(b))
    {
      hide Authenticators.Yields, OneExact;
      var _ :- s.TouchRequired(operation, b.caption, AssertionCeremony, b.policy);
      var result := library.EvaluateManagedEnrollment(device, PrfOf(b, input), ExpectationOf(b), s);
      return if result.Ok? then Ok(result.value) else Err(MapNativeError(result.error));
    }

    method VerifyManaged(b: CredentialBinding, operation: Operation, s: Session) returns (r: Outcome<()>)
      modifies library`now, library`history, s
      ensures Followed(old(s.log), s.log, ManageScript(operation, b.caption, b.policy), r.Ok?)
      ensures old(library.history) <= library.history
      ensures r.Ok? ==> exists h: nat :: library.VerifiedOn(h, old(library.history), library.history, ExpectationOf(b), s, old(s.clock))
    {
      hide Authenticators.VerifiedOn;
      var h :- Select((c: Capabilities) => c.SupportsManagement(), s);
      var _ :- s.RequestPin(operation, b.caption, AssertionCeremony);
      var _ :- s.TouchRequired(operation, b.caption, AssertionCeremony, b.policy);
      ghost var clock := s.clock;
      var result := library.VerifyManaged(h, ExpectationOf(b), s);
      if result.Ok? {
        library.VerifiedEarlier(h, old(library.history), library.history, ExpectationOf(b), s, old(s.clock), clock);
      }
      return if result.Ok? then Ok(()) else Err(MapNativeError(result.error));
    }

    method RetireManaged(b: CredentialBinding, operation: Operation, s: Session) returns (r: Outcome<()>)
      modifies library, s
      ensures Followed(old(s.log), s.log, ManageScript(operation, b.caption, b.policy), r.Ok?)
      ensures old(library.history) <= library.history
      ensures r.Ok? ==> exists h: nat :: library.RetiredOn(h, old(library.history), library.history, ExpectationOf(b), s, old(s.clock))
      ensures library.devices == old(library.devices)
              || exists h: nat :: Authenticators.Without(old(library.devices), library.devices, h, b.credentialId)
    {
      hide Authenticators.RetiredOn;
      var h :- Select((c: Capabilities) => c.SupportsManagement(), s);
      var _ :- s.RequestPin(operation, b.caption, AssertionCeremony);
      var _ :- s.TouchRequired(operation, b.caption, AssertionCeremony, b.policy);
      ghost var clock := s.clock;
      var result := library.RetireManaged(h, ExpectationOf(b), s);
      if result.Ok? {
        library.RetiredEarlier(h, old(library.history), library.history, ExpectationOf(b), s, old(s.clock), clock);
      }
      return if result.Ok? then Ok(()) else Err(MapNativeError(result.error));
    }
  }

  // ----- the choice of backend -----

  /** A managed credential that was just created, with what undoing it takes. */
  datatype ManagedSession = ManagedSession(enrollment: ManagedEnrollment, pending: Option<PendingManaged>)

  /** What the devices of a backend hold. */
  datatype Store = NativeStore(native: seq<Device>) | FakeStore(fake: seq<Fake.FakeDevice>)

  /** `after` is `before` and one managed credential, the one that `b` names. */
  ghost predicate IsAddition(before: Store, after: Store, b: CredentialBinding, m: ManagedSession)
  {
    match (before, after)
    case (NativeStore(x), NativeStore(y)) =>
      && m.pending.Some? && m.pending.value.expectation.credentialId == b.credentialId
      && Authenticators.NewestIs(y, m.pending.value.device, ExpectationOf(b))
      && Authenticators.Undoable(x, y, m.pending.value.device, b.applicationId, b.recipientId, m.pending.value)
    case (FakeStore(x), FakeStore(y)) =>
      && var d := m.enrollment.device;
      && d < |x| && |y| == |x|
      && b.credentialId !in x[d].credentials && b.credentialId in y[d].credentials
      && var c := y[d].credentials[b.credentialId];
      && c.applicationId == b.applicationId && c.storage == Managed && c.userId == Some(b.recipientId)
      && c.enrollmentPolicy == b.policy && c.publicKey == b.publicKey
      && y == Fake.FakeBackend.With(x, d, b.credentialId, c)
    case _ => false
  }

  /** No managed credential came, went or changed. */
  ghost predicate SameManaged(before: Store, after: Store)
  {
    match (before, after)
    case (NativeStore(x), NativeStore(y)) => x == y
    case (FakeStore(x), FakeStore(y)) =>
      |x| == |y| && forall d | 0 <= d < |x| :: Fake.ManagedShelf(x[d].credentials) == Fake.ManagedShelf(y[d].credentials)
    case _ => false
  }

  lemma SameManagedReflexive(x: Store)
    ensures SameManaged(x, x)
  {
  }

  datatype AuthenticatorBackend = NativeChoice(native: NativeBackend) | FakeChoice(fake: Fake.FakeBackend)
  {
    function Target(): object {
      match this
      case NativeChoice(n) => n.library
      case FakeChoice(f) => f
    }

    ghost predicate Valid(p: Primitives)
      reads Target()
    {
      match this
      case NativeChoice(n) => n.p == p
      case FakeChoice(f) => f.Valid() && f.p == p
    }

    /** Always true of real devices; the test double must have credential numbers left. */
    predicate HasRoom()
      reads Target()
    {
      match this
      case NativeChoice(_) => true
      case FakeChoice(f) => f.HasRoom()
    }

    /** The devices report their stores truly. */
    ghost predicate Honest() {
      NativeChoice? ==> native.library.honest
    }

    ghost function Stores(): Store
      reads Target()
    {
      match this
      case NativeChoice(n) => NativeStore(n.library.devices)
      case FakeChoice(f) => FakeStore(f.devices)
    }

    /** What reached the devices; the test double keeps no such record. */
    ghost function History(): seq<NativeEvent>
      reads Target()
    {
      match this
      case NativeChoice(n) => n.library.history
      case FakeChoice(f) => []
    }

    /**
     A device gave this PRF for this credential and this input: a real one in a verified
     response since `since`, the test double as the PRF of the credential, wherever it is kept.
     */
    ghost predicate Answers(since: nat, b: CredentialBinding, input: Bytes32, prf: Bytes32)
      reads Target()
    {
      match this
      case NativeChoice(n) =>
        exists k | since <= k < |n.library.history| :: n.library.Yields(n.library.history[k], PrfOf(b, input), prf)
      case FakeChoice(f) =>
        exists d | 0 <= d < |f.devices| ::
          b.credentialId in f.devices[d].credentials
          && prf == f.Prf(f.devices[d].credentials[b.credentialId], b.policy, input)
    }

    /** Whatever real devices answered is a function of what they were asked. */
    ghost predicate Computes(prf: PrfRequest -> Bytes32)
      reads Target()
    {
      NativeChoice? ==>
        var library := native.library;
        forall k, q, x | 0 <= k < |library.history| && library.Yields(library.history[k], q, x) :: x == prf(q)
    }

    /** So a device that computes a function, as the test double does, always gives the same answer. */
    lemma AnswersAgree(p: Primitives, prf: PrfRequest -> Bytes32, i: nat, j: nat, b: CredentialBinding, input: Bytes32,
                       x: Bytes32, y: Bytes32)
      requires Valid(p) && Computes(prf) && Answers(i, b, input, x) && Answers(j, b, input, y)
      ensures x == y
    {
      hide Authenticators.Yields;
    }

    lemma AnswersEarlier(i: nat, j: nat, b: CredentialBinding, input: Bytes32, prf: Bytes32)
      requires Answers(j, b, input, prf) && i <= j
      ensures Answers(i, b, input, prf)
    {
      hide Authenticators.Yields;
    }

    method Enroll(p: Primitives, applicationId: Bytes, policy: FidoPolicy, caption: Bytes, operation: Operation, s: Session)
      returns (r: Outcome<CredentialMaterial>)
      requires Valid(p) && HasRoom()
      modifies Target(), s
      ensures Valid(p)
      ensures Followed(old(s.log), s.log, EnrollScript(operation, caption, policy), r.Ok?)
      ensures r.Ok? ==> p.onCurve(r.value.publicKey)
      ensures old(History()) <= History() && SameManaged(old(Stores()), Stores())
    {
      match this
      case NativeChoice(n) =>
        r := n.Enroll(applicationId, policy, caption, operation, s);
      case FakeChoice(f) =>
        r := f.Enroll(applicationId, policy, caption, operation, s);
    }

    method EnrollManaged(p: Primitives, applicationId: Bytes, recipientId: RecipientId, policy: FidoPolicy, caption: Bytes,
                         operation: Operation, s: Session)
      returns (r: Outcome<ManagedSession>)
      requires Valid(p) && HasRoom()
      modifies Target(), s
      ensures Valid(p)
      ensures FollowedOrUndone(old(s.log), s.log, EnrollScript(operation, caption, policy),
                               TouchScript(RetireManagedRecipient, caption, policy), r.Ok?)
      ensures r.Ok? ==>
                var c := r.value.enrollment.credential;
                && p.onCurve(c.publicKey) && r.value.enrollment.policy == policy
                && IsAddition(old(Stores()), Stores(),
                              CredentialBinding(applicationId, recipientId, c.credentialId, c.publicKey, policy, caption), r.value)
      ensures old(History()) <= History()
      ensures Honest() && r.Err? && r.error != Authenticator(CredentialMayRemain) ==> Stores() == old(Stores())
    {
      match this
      case NativeChoice(n) =>
        hide Authenticators.EnrolledOn, Authenticators.NewestIs;
        var made := n.EnrollManaged(applicationId, recipientId, policy, caption, operation, s);
        r := if made.Ok? then Ok(ManagedSession(made.value.0, Some(made.value.1))) else Err(made.error);
      case FakeChoice(f) =>
        hide Fake.CredentialIdOf;
        var made := f.EnrollManaged(applicationId, recipientId, policy, caption, operation, s);
        OnlyFollowed(old(s.log), s.log, EnrollScript(operation, caption, policy),
                     TouchScript(RetireManagedRecipient, caption, policy), made.Ok?);
        r := if made.Ok? then Ok(ManagedSession(made.value, None)) else Err(made.error);
    }

    method Evaluate(p: Primitives, b: CredentialBinding, input: Bytes32, operation: Operation, s: Session)
      returns (r: Outcome<Bytes32>)
      requires Valid(p)
      modifies Target(), s
      ensures Valid(p) && Stores() == old(Stores())
      ensures old(HasRoom()) ==> HasRoom()
      ensures Followed(old(s.log), s.log, AssertScript(operation, b.caption, b.policy), r.Ok?)
      ensures |History()| <= |old(History())| + 1
      ensures old(History()) <= History() && (r.Ok? ==> Answers(|old(History())|, b, input, r.value))
    {
      match this
      case NativeChoice(n) =>
        hide Authenticators.Yields;
        r := n.Evaluate(b, input, operation, s);
      case FakeChoice(f) => r := f.Evaluate(b, input, operation, s);
    }

    method EvaluateManaged(p: Primitives, m: ManagedSession, b: CredentialBinding, input: Bytes32, operation: Operation,
                           s: Session,
                           ghost before: Store)
      returns (r: Outcome<Bytes32>)
      requires Valid(p) && IsAddition(before, Stores(), b, m)
      modifies Target(), s
      ensures Valid(p) && Stores() == old(Stores())
      ensures Followed(old(s.log), s.log, TouchScript(operation, b.caption, b.policy), r.Ok?)
      ensures old(History()) <= History() && (r.Ok? ==> Answers(|old(History())|, b, input, r.value))
    {
      match this
      case NativeChoice(n) =>
        hide Authenticators.Yields;
        r := n.EvaluateManaged(m.pending.value.device, b, input, operation, s);
      case FakeChoice(f) => r := f.EvaluateManaged(m.enrollment.device, b, input, operation, s);
    }

    /** Success means that the new credential is gone and nothing else has changed. */
    method CleanupManaged(p: Primitives, m: ManagedSession, b: CredentialBinding, operation: Operation, s: Session,
                          ghost before: Store)
      returns (r: Outcome<()>)
      requires Valid(p) && IsAddition(before, Stores(), b, m)
      modifies Target(), s
      ensures Valid(p)
      ensures Followed(old(s.log), s.log, TouchScript(operation, b.caption, b.policy), false)
      ensures old(History()) <= History()
      ensures Honest() && r.Ok? ==> Stores() == before
    {
      match this
      case NativeChoice(n) =>
        r := n.CleanupPending(m.pending.value, operation, b.caption, b.policy, s, before.native, b.applicationId, b.recipientId);
      case FakeChoice(f) =>
        r := f.CleanupManaged(m.enrollment.device, b, operation, s);
        if r.Ok? {
          ghost var d := m.enrollment.device;
          assert f.devices == Fake.FakeBackend.Without(old(f.devices), d, b.credentialId);
          assert f.devices[d].credentials == before.fake[d].credentials;
          assert f.devices == before.fake;
        }
    }

    method VerifyManaged(p: Primitives, b: CredentialBinding, operation: Operation, s: Session) returns (r: Outcome<()>)
      requires Valid(p)
      modifies Target(), s
      ensures Valid(p) && Stores() == old(Stores())
      ensures Followed(old(s.log), s.log, ManageScript(operation, b.caption, b.policy), r.Ok?)
      ensures old(History()) <= History()
      ensures r.Ok? && NativeChoice?
              ==> exists h: nat :: native.library.VerifiedOn(h, old(History()), History(), ExpectationOf(b), s, old(s.clock))
      ensures r.Ok? && FakeChoice? ==> fake.FindManaged(fake.selectedDevice, b).Ok?
    {
      match this
      case NativeChoice(n) => r := n.VerifyManaged(b, operation, s);
      case FakeChoice(f) => r := f.VerifyManaged(b, operation, s);
    }

    method RetireManaged(p: Primitives, b: CredentialBinding, operation: Operation, s: Session) returns (r: Outcome<()>)
      requires Valid(p)
      modifies Target(), s
      ensures Valid(p)
      ensures Followed(old(s.log), s.log, ManageScript(operation, b.caption, b.policy), r.Ok?)
      ensures old(History()) <= History()
      ensures r.Ok? && NativeChoice?
              ==> exists h: nat :: native.library.RetiredOn(h, old(History()), History(), ExpectationOf(b), s, old(s.clock))
      ensures r.Ok? && FakeChoice? ==> b.credentialId !in fake.devices[fake.selectedDevice].credentials
    {
      match this
      case NativeChoice(n) => r := n.RetireManaged(b, operation, s);
      case FakeChoice(f) => r := f.RetireManaged(b, operation, s);
    }
  }
}
