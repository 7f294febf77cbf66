/** The deterministic authenticator used to exercise the protector. */
module Fake {
  import opened Wrappers
  import opened Errors
  import opened Bytes
  import opened Identity
  import opened Policy
  import opened Sessions
  import opened Crypto
  import opened Requests

  datatype Counters = Counters(selections: nat, enrollments: nat, assertions: nat, retirements: nat)

  datatype FailurePoint =
    | AtSelection | AtEnrollment | AtManagedEnrollment | AtAssertion | AtRetirement | AtAbsenceCheck | AtVerifiedResponse

  datatype FailureKind = IncompatibleDevice | DeviceFailure(failure: AuthenticatorFailure) | InvalidResponse
  {
    function IntoError(): Error {
      match this
      case IncompatibleDevice => NoCompatibleAuthenticator
      case DeviceFailure(f) => Authenticator(f)
      case InvalidResponse => AuthenticatorResponseInvalid
    }
  }

  type Slot = Option<(FailurePoint, FailureKind)>

  datatype FakeCredential = FakeCredential(applicationId: Bytes, publicKey: Bytes64, enrollmentPolicy: FidoPolicy,
                                           storage: FidoStorage, userId: Option<RecipientId>,
                                           presenceRoot: Bytes32, verifiedRoot: Bytes32)

  type Shelf = map<Bytes, FakeCredential>

  datatype FakeDevice = FakeDevice(credentials: Shelf, managedCapacity: nat)

  const DEFAULT_CAPACITY := 25

  /** The credentials of a shelf that its owner can list. */
  function ManagedOn(shelf: Shelf): set<Bytes>
  {
    set id | id in shelf && shelf[id].storage == Managed
  }

  function ManagedShelf(shelf: Shelf): Shelf
  {
    map id | id in ManagedOn(shelf) :: shelf[id]
  }

  /** At most the queued failure was used up, and only at one of these points. */
  predicate SlotUsed(before: Slot, after: Slot, points: set<FailurePoint>)
  {
    after == before || (before.Some? && before.value.0 in points && after == None)
  }

  predicate QueuedAt(slot: Slot, points: set<FailurePoint>)
  {
    slot.Some? && slot.value.0 in points
  }

  function CredentialIdOf(number: nat): Bytes
  {
    Ascii("fake-credential-format-1") + BigEndian(number, 8)
  }

  lemma CredentialIdInjective(m: nat, n: nat)
    requires m < U64_END && n < U64_END && CredentialIdOf(m) == CredentialIdOf(n)
    ensures m == n
  {
    var prefix := Ascii("fake-credential-format-1");
    SameCut(prefix, prefix, BigEndian(m, 8), BigEndian(n, 8));
    WordSizes();
    ReadsBack(m, 8);
    ReadsBack(n, 8);
  }

  ghost predicate Issued(id: Bytes, next: nat)
  {
    exists n: nat | n < next :: id == CredentialIdOf(n)
  }

  lemma NextIsFresh(next: nat)
    requires next < U64_END
    ensures !Issued(CredentialIdOf(next), next) && Issued(CredentialIdOf(next), next + 1)
  {
    if n: nat :| n < next && CredentialIdOf(next) == CredentialIdOf(n) {
      CredentialIdInjective(next, n);
      assert false;
    }
  }

  class FakeBackend {
    const p: Primitives
    const generator: Bytes64

    var nextId: nat
    var devices: seq<FakeDevice>
    var visibleDevices: nat
    var selectedDevice: nat
    var counters: Counters
    var failNext: Slot

    /** Holds after every call of every method, whatever the order. */
    ghost predicate Valid()
      reads this`nextId, this`devices, this`visibleDevices, this`selectedDevice
    {
      && p.onCurve(generator)
      && selectedDevice < |devices|
      && visibleDevices <= |devices|
      && (selectedDevice < visibleDevices || selectedDevice == 0)
      && nextId < U64_END
      && (forall d, id | 0 <= d < |devices| && id in devices[d].credentials :: Issued(id, nextId))
      && (forall c, d, id | 0 <= c < d < |devices| && id in devices[c].credentials :: id !in devices[d].credentials)
    }

    /** There is a number left for a new credential; running out is a panic of the test double. */
    predicate HasRoom()
      reads this
    {
      nextId + 1 < U64_END
    }

    constructor (p: Primitives, generator: Bytes64)
      requires p.onCurve(generator)
      ensures Valid() && HasRoom()
    {
      this.p, this.generator := p, generator;
      nextId, devices, visibleDevices, selectedDevice := 1, [FakeDevice(map[], DEFAULT_CAPACITY)], 1, 0;
      counters, failNext := Counters(0, 0, 0, 0), None;
    }

    method FailNextWith(point: FailurePoint, failure: FailureKind) returns (queued: bool)
      requires Valid()
      modifies this`failNext
      ensures Valid()
      ensures queued <==> old(failNext).None?
      ensures failNext == if queued then Some((point, failure)) else old(failNext)
    {
      if failNext.Some? {
        return false;
      }
      failNext := Some((point, failure));
      return true;
    }

    method SetCompatibleAuthenticators(count: nat)
      requires Valid()
      modifies this`devices, this`visibleDevices, this`selectedDevice
      ensures Valid() && visibleDevices == count
      ensures old(devices) <= devices && |devices| == if count > |old(devices)| then count else |old(devices)|
      ensures forall d | |old(devices)| <= d < |devices| :: devices[d] == FakeDevice(map[], DEFAULT_CAPACITY)
      ensures selectedDevice == if old(selectedDevice) >= count then 0 else old(selectedDevice)
    {
      while |devices| < count
        invariant Valid() && old(devices) <= devices
        invariant |devices| <= count || devices == old(devices)
        invariant forall d | |old(devices)| <= d < |devices| :: devices[d] == FakeDevice(map[], DEFAULT_CAPACITY)
        invariant visibleDevices == old(visibleDevices) && selectedDevice == old(selectedDevice)
        decreases count - |devices|
      {
        devices := devices + [FakeDevice(map[], DEFAULT_CAPACITY)];
      }
      visibleDevices := count;
      if selectedDevice >= count {
        selectedDevice := 0;
      }
    }

    method ChooseAuthenticator(index: nat) returns (r: Outcome<()>)
      requires Valid()
      modifies this`selectedDevice
      ensures Valid()
      ensures r.Ok? <==> index < visibleDevices
      ensures selectedDevice == if r.Ok? then index else old(selectedDevice)
    {
      if index >= visibleDevices {
        return Err(NoCompatibleAuthenticator);
      }
      selectedDevice := index;
      return Ok(());
    }

    method SetManagedCapacity(capacity: nat)
      requires Valid()
      modifies this`devices
      ensures Valid()
      ensures devices == old(devices)[selectedDevice := old(devices)[selectedDevice].(managedCapacity := capacity)]
    {
      devices := devices[selectedDevice := devices[selectedDevice].(managedCapacity := capacity)];
    }

    method ForgetCredential(id: Bytes)
      requires Valid()
      modifies this`devices
      ensures Valid()
      ensures devices == Without(old(devices), selectedDevice, id)
    {
      devices := Without(devices, selectedDevice, id);
    }

    static function Without(devices: seq<FakeDevice>, d: nat, id: Bytes): seq<FakeDevice>
      requires d < |devices|
    {
      devices[d := devices[d].(credentials := devices[d].credentials - {id})]
    }

    static function With(devices: seq<FakeDevice>, d: nat, id: Bytes, credential: FakeCredential): seq<FakeDevice>
      requires d < |devices|
    {
      devices[d := devices[d].(credentials := devices[d].credentials[id := credential])]
    }

    function CredentialRoot(kind: string, number: nat): Bytes32
    {
      p.sha256(Ascii("fido-key-wrap deterministic test credential") + Ascii(kind) + BigEndian(number, 8))
    }

    function NewCredential(applicationId: Bytes, policy: FidoPolicy, storage: FidoStorage,
                           userId: Option<RecipientId>): FakeCredential
      reads this
    {
      FakeCredential(applicationId, generator, policy, storage, userId,
                     CredentialRoot("presence", nextId), CredentialRoot("verified", nextId))
    }

    method Seed(applicationId: Bytes, policy: FidoPolicy, storage: FidoStorage, userId: Option<RecipientId>)
      returns (credential: CredentialMaterial)
      requires Valid() && HasRoom()
      modifies this`nextId, this`devices
      ensures Valid()
      ensures credential == CredentialMaterial(CredentialIdOf(old(nextId)), generator)
      ensures nextId == old(nextId) + 1
      ensures devices == With(old(devices), selectedDevice, credential.credentialId,
                              old(NewCredential(applicationId, policy, storage, userId)))
      ensures forall d | 0 <= d < |old(devices)| :: credential.credentialId !in old(devices)[d].credentials
    {
      var number := nextId;
      NextIsFresh(number);
      var created := NewCredential(applicationId, policy, storage, userId);
      nextId := nextId + 1;
      var id := CredentialIdOf(number);
      hide CredentialIdOf;
      assert forall i: Bytes | Issued(i, number) :: Issued(i, nextId);
      devices := With(devices, selectedDevice, id, created);
      return CredentialMaterial(id, generator);
    }

    method TakeFailure(point: FailurePoint) returns (failure: Option<FailureKind>)
      modifies this`failNext
      ensures if old(failNext).Some? && old(failNext).value.0 == point
              then failure == Some(old(failNext).value.1) && failNext == None
              else failure == None && failNext == old(failNext)
    {
      if failNext.Some? && failNext.value.0 == point {
        failure := Some(failNext.value.1);
        failNext := None;
      } else {
        failure := None;
      }
    }

    method Select(s: Session) returns (r: Outcome<nat>)
      requires Valid()
      modifies this`counters, this`failNext, s`clock, s`selections
      ensures Valid()
      ensures r.Ok? ==> r.value == selectedDevice && visibleDevices > 0 && failNext == old(failNext)
      ensures SlotUsed(old(failNext), failNext, {AtSelection})
      ensures failNext != old(failNext) ==> r == Err(old(failNext).value.1.IntoError())
      ensures s.selections > old(s.selections) ==> visibleDevices > 1
      ensures counters == old(counters).(selections := old(counters).selections + 1)
    {
      counters := counters.(selections := counters.selections + 1);
      var failure := TakeFailure(AtSelection);
      if failure.Some? {
        return Err(failure.value.IntoError());
      }
      if visibleDevices == 0 {
        return Err(NoCompatibleAuthenticator);
      }
      if visibleDevices > 1 {
        var _ :- s.SelectAuthenticator();
      }
      return Ok(selectedDevice);
    }

    /** The PRF of one credential under one policy. */
    function Prf(credential: FakeCredential, policy: FidoPolicy, input: Bytes32): Bytes32
    {
      p.hmac(if policy == Presence then credential.presenceRoot else credential.verifiedRoot, input)
    }

    /** Chooses the device and announces an enrollment to the user. */
    method BeginEnrollment(policy: FidoPolicy, caption: Bytes, operation: Operation, s: Session) returns (r: Outcome<nat>)
      requires Valid()
      modifies this`counters, this`failNext, s
      ensures Valid()
      ensures Followed(old(s.log), s.log, EnrollScript(operation, caption, policy), r.Ok?)
      ensures r.Ok? ==> r.value == selectedDevice && failNext == old(failNext)
      ensures SlotUsed(old(failNext), failNext, {AtSelection})
      ensures failNext != old(failNext) ==> r == Err(old(failNext).value.1.IntoError())
    {
      hide FakeBackend.Valid;
      var device :- Select(s);
      var _ :- s.RequestPin(operation, caption, EnrollmentCeremony);
      var _ :- s.TouchRequired(operation, caption, EnrollmentCeremony, policy);
      counters := counters.(enrollments := counters.enrollments + 1);
      return Ok(device);
    }

    /** Takes the two failures that any signed exchange can meet. */
    method CheckExchange(point: FailurePoint) returns (r: Outcome<()>)
      modifies this`failNext
      ensures SlotUsed(old(failNext), failNext, {point, AtVerifiedResponse})
      ensures failNext != old(failNext) <==> QueuedAt(old(failNext), {point, AtVerifiedResponse})
      ensures if failNext != old(failNext) then r == Err(old(failNext).value.1.IntoError()) else r == Ok(())
    {
      var failure := TakeFailure(point);
      if failure.Some? {
        return Err(failure.value.IntoError());
      }
      failure := TakeFailure(AtVerifiedResponse);
      if failure.Some? {
        return Err(failure.value.IntoError());
      }
      return Ok(());
    }

    method Enroll(applicationId: Bytes, policy: FidoPolicy, caption: Bytes, operation: Operation, s: Session)
      returns (r: Outcome<CredentialMaterial>)
      requires Valid() && HasRoom()
      modifies this, s
      ensures Valid() && selectedDevice == old(selectedDevice) && visibleDevices == old(visibleDevices)
      ensures |devices| == |old(devices)|
      ensures Followed(old(s.log), s.log, EnrollScript(operation, caption, policy), r.Ok?)
      ensures r.Ok? ==> r.value == CredentialMaterial(CredentialIdOf(old(nextId)), generator)
      ensures devices == if r.Err? then old(devices)
                         else With(old(devices), selectedDevice, CredentialIdOf(old(nextId)),
                                   old(NewCredential(applicationId, policy, NonDiscoverable, None)))
      ensures forall d | 0 <= d < |devices| :: ManagedShelf(devices[d].credentials) == ManagedShelf(old(devices)[d].credentials)
      ensures SlotUsed(old(failNext), failNext, {AtSelection, AtEnrollment, AtVerifiedResponse})
      ensures failNext != old(failNext) ==> r == Err(old(failNext).value.1.IntoError())
    {
      hide CredentialIdOf;
      var device :- BeginEnrollment(policy, caption, operation, s);
      var _ :- CheckExchange(AtEnrollment);
      ghost var shelf, added := devices[device].credentials, NewCredential(applicationId, policy, NonDiscoverable, None);
      var credential := Seed(applicationId, policy, NonDiscoverable, None);
      OrdinaryUnlisted(shelf, credential.credentialId, added);
      return Ok(credential);
    }

    /**
     Creates a managed credential while the device has capacity. The injected failure
     that says a credential may remain does leave one; every other failure creates nothing.
     */
    method EnrollManaged(applicationId: Bytes, recipientId: RecipientId, policy: FidoPolicy, caption: Bytes,
                         operation: Operation, s: Session)
      returns (r: Outcome<ManagedEnrollment>)
      requires Valid() && HasRoom()
      modifies this, s
      ensures Valid() && selectedDevice == old(selectedDevice) && visibleDevices == old(visibleDevices)
      ensures |devices| == |old(devices)|
      ensures Followed(old(s.log), s.log, EnrollScript(operation, caption, policy), r.Ok?)
      ensures r.Ok?
              ==> r.value == ManagedEnrollment(CredentialMaterial(CredentialIdOf(old(nextId)), generator), policy, selectedDevice)
      ensures var added := With(old(devices), selectedDevice, CredentialIdOf(old(nextId)),
                                old(NewCredential(applicationId, policy, Managed, Some(recipientId))));
              if r.Ok? then devices == added
              else devices == old(devices) || (devices == added && r.error == Authenticator(CredentialMayRemain))
      ensures devices != old(devices) ==>
              |ManagedOn(devices[selectedDevice].credentials)| == |ManagedOn(old(devices)[selectedDevice].credentials)| + 1
              && |ManagedOn(devices[selectedDevice].credentials)| <= devices[selectedDevice].managedCapacity
      ensures forall d | 0 <= d < |old(devices)| :: CredentialIdOf(old(nextId)) !in old(devices)[d].credentials
      ensures SlotUsed(old(failNext), failNext, {AtSelection, AtManagedEnrollment})
      ensures failNext != old(failNext) ==> r == Err(old(failNext).value.1.IntoError())
    {
      hide CredentialIdOf;
      NextIsFresh(nextId);
      var device :- BeginEnrollment(policy, caption, operation, s);
      ghost var shelf, created := devices[device].credentials, NewCredential(applicationId, policy, Managed, Some(recipientId));
      ManagedGrows(shelf, CredentialIdOf(nextId), created);
      var used := |ManagedOn(devices[device].credentials)|;
      if used >= devices[device].managedCapacity {
        return Err(Authenticator(CredentialStoreFull));
      }
      var failure := TakeFailure(AtManagedEnrollment);
      if failure.Some? {
        if failure.value == DeviceFailure(CredentialMayRemain) {
          var _ := Seed(applicationId, policy, Managed, Some(recipientId));
        }
        return Err(failure.value.IntoError());
      }
      var credential := Seed(applicationId, policy, Managed, Some(recipientId));
      return Ok(ManagedEnrollment(credential, policy, device));
    }

    static lemma OrdinaryUnlisted(shelf: Shelf, id: Bytes, credential: FakeCredential)
      requires id !in shelf && credential.storage == NonDiscoverable
      ensures ManagedOn(shelf[id := credential]) == ManagedOn(shelf)
      ensures ManagedShelf(shelf[id := credential]) == ManagedShelf(shelf)
    {
      assert ManagedOn(shelf[id := credential]) == ManagedOn(shelf);
    }

    static lemma ManagedGrows(shelf: Shelf, id: Bytes, credential: FakeCredential)
      requires id !in shelf && credential.storage == Managed
      ensures |ManagedOn(shelf[id := credential])| == |ManagedOn(shelf)| + 1
    {
      assert ManagedOn(shelf[id := credential]) == ManagedOn(shelf) + {id};
    }

    method Evaluate(b: CredentialBinding, input: Bytes32, operation: Operation, s: Session) returns (r: Outcome<Bytes32>)
      requires Valid()
      modifies this`counters, this`failNext, s
      ensures Valid()
      ensures Followed(old(s.log), s.log, AssertScript(operation, b.caption, b.policy), r.Ok?)
      ensures r.Ok? ==> var shelf := devices[selectedDevice].credentials;
                        b.credentialId in shelf && r.value == Prf(shelf[b.credentialId], b.policy, input)
      ensures SlotUsed(old(failNext), failNext, {AtSelection, AtAssertion, AtVerifiedResponse})
      ensures failNext != old(failNext) ==> r == Err(old(failNext).value.1.IntoError())
    {
      hide FakeBackend.Valid;
      var device :- Select(s);
      if b.policy == UserVerification {
        var _ :- s.RequestPin(operation, b.caption, AssertionCeremony);
      }
      var _ :- s.TouchRequired(operation, b.caption, AssertionCeremony, b.policy);
      counters := counters.(assertions := counters.assertions + 1);
      s.Note(Asserted);
      var _ :- CheckExchange(AtAssertion);
      if b.credentialId !in devices[device].credentials {
        return Err(Authenticator(CredentialUnavailable));
      }
      var credential := devices[device].credentials[b.credentialId];
      if credential.applicationId != b.applicationId {
        return Err(Authenticator(OperationFailed));
      }
      if credential.publicKey != b.publicKey {
        return Err(AuthenticatorResponseInvalid);
      }
      if credential.enrollmentPolicy == UserVerification && b.policy == Presence {
        return Err(Authenticator(OperationFailed));
      }
      return Ok(Prf(credential, b.policy, input));
    }

    function FindManaged(device: nat, b: CredentialBinding): (r: Outcome<FakeCredential>)
      requires device < |devices|
      reads this
    {
      var shelf := devices[device].credentials;
      if b.credentialId !in shelf then Err(Authenticator(CredentialUnavailable)) else
      var c := shelf[b.credentialId];
      if c.applicationId != b.applicationId || c.storage != Managed || c.userId != Some(b.recipientId)
         || c.enrollmentPolicy != b.policy then Err(Authenticator(CredentialUnavailable))
      else if c.publicKey != b.publicKey then Err(AuthenticatorResponseInvalid)
      else Ok(c)
    }

    method EvaluateManaged(device: nat, b: CredentialBinding, input: Bytes32, operation: Operation, s: Session)
      returns (r: Outcome<Bytes32>)
      requires Valid() && device < |devices|
      modifies this`counters, this`failNext, s
      ensures Valid()
      ensures Followed(old(s.log), s.log, TouchScript(operation, b.caption, b.policy), r.Ok?)
      ensures r.Ok? ==> FindManaged(device, b).Ok? && r.value == Prf(FindManaged(device, b).value, b.policy, input)
      ensures SlotUsed(old(failNext), failNext, {AtAssertion, AtVerifiedResponse})
      ensures failNext != old(failNext) ==> r == Err(old(failNext).value.1.IntoError())
    {
      hide FakeBackend.Valid;
      var _ :- s.TouchRequired(operation, b.caption, AssertionCeremony, b.policy);
      counters := counters.(assertions := counters.assertions + 1);
      s.Note(Asserted);
      var _ :- CheckExchange(AtAssertion);
      var credential :- FindManaged(device, b);
      return Ok(Prf(credential, b.policy, input));
    }

    method TouchAndVerify(device: nat, b: CredentialBinding, operation: Operation, s: Session) returns (r: Outcome<()>)
      requires Valid() && device < |devices|
      modifies this`counters, this`failNext, s
      ensures Valid()
      ensures Followed(old(s.log), s.log, TouchScript(operation, b.caption, b.policy), r.Ok?)
      ensures SlotUsed(old(failNext), failNext, {AtAssertion, AtVerifiedResponse})
      ensures var touched, failing := s.Answer(old(s.clock)), QueuedAt(old(failNext), {AtAssertion, AtVerifiedResponse});
              && (touched.Err? ==> r == Err(touched.error))
              && (touched.Ok? && failing ==> r == Err(old(failNext).value.1.IntoError()))
              && (touched.Ok? && !failing ==> if FindManaged(device, b).Ok? then r == Ok(()) else r == Err(FindManaged(device, b).error))
              && (failNext != old(failNext) <==> touched.Ok? && failing)
    {
      hide FakeBackend.Valid;
      var _ :- s.TouchRequired(operation, b.caption, AssertionCeremony, b.policy);
      counters := counters.(assertions := counters.assertions + 1);
      s.Note(Asserted);
      var _ :- CheckExchange(AtAssertion);
      var _ :- FindManaged(device, b);
      return Ok(());
    }

    method VerifyManaged(b: CredentialBinding, operation: Operation, s: Session) returns (r: Outcome<()>)
      requires Valid()
      modifies this`counters, this`failNext, s
      ensures Valid()
      ensures Followed(old(s.log), s.log, ManageScript(operation, b.caption, b.policy), r.Ok?)
      ensures r.Ok? ==> FindManaged(selectedDevice, b).Ok?
      ensures SlotUsed(old(failNext), failNext, {AtSelection, AtAssertion, AtVerifiedResponse})
    {
      hide FakeBackend.Valid;
      var device :- Select(s);
      var _ :- s.RequestPin(operation, b.caption, AssertionCeremony);
      ghost var asked := s.log;
      r := TouchAndVerify(device, b, operation, s);
      Continues(old(s.log), asked, s.log, [PinAsked(operation, b.caption, AssertionCeremony)],
                TouchScript(operation, b.caption, b.policy), r.Ok?);
    }

    method RetireManaged(b: CredentialBinding, operation: Operation, s: Session) returns (r: Outcome<()>)
      requires Valid()
      modifies this`devices, this`counters, this`failNext, s
      ensures Valid() && selectedDevice == old(selectedDevice)
      ensures Followed(old(s.log), s.log, ManageScript(operation, b.caption, b.policy), r.Ok?)
      ensures devices == old(devices) || devices == Without(old(devices), selectedDevice, b.credentialId)
      ensures r.Ok? ==> old(FindManaged(selectedDevice, b)).Ok? && b.credentialId !in devices[selectedDevice].credentials
      ensures SlotUsed(old(failNext), failNext, {AtSelection, AtAssertion, AtVerifiedResponse, AtRetirement, AtAbsenceCheck})
    {
      var device :- Select(s);
      var _ :- s.RequestPin(operation, b.caption, AssertionCeremony);
      ghost var asked := s.log;
      r := RetireOnDevice(device, b, operation, s);
      Continues(old(s.log), asked, s.log, [PinAsked(operation, b.caption, AssertionCeremony)],
                TouchScript(operation, b.caption, b.policy), r.Ok?);
    }

    method AttemptDeletion(device: nat, id: Bytes) returns (deletion: Outcome<()>)
      requires Valid() && device < |devices|
      modifies this`devices, this`failNext
      ensures Valid()
      ensures if QueuedAt(old(failNext), {AtRetirement})
              then failNext == None && devices == old(devices) && deletion == Err(old(failNext).value.1.IntoError())
              else failNext == old(failNext) && devices == Without(old(devices), device, id) && deletion == Ok(())
    {
      var failure := TakeFailure(AtRetirement);
      if failure.Some? {
        return Err(failure.value.IntoError());
      }
      devices := Without(devices, device, id);
      return Ok(());
    }

    /** How a retirement ends after the touch: by the failure that is queued, and by what the device holds. */
    static ghost function RetirementResult(slot: Slot, found: Outcome<FakeCredential>): Outcome<()>
    {
      if QueuedAt(slot, {AtAssertion, AtVerifiedResponse}) then Err(slot.value.1.IntoError())
      else if found.Err? then Err(found.error)
      else if QueuedAt(slot, {AtRetirement}) || (QueuedAt(slot, {AtAbsenceCheck}) && slot.value.1 == InvalidResponse)
      then Err(slot.value.1.IntoError())
      else if QueuedAt(slot, {AtAbsenceCheck}) then Err(Authenticator(RetirementUncertain))
      else Ok(())
    }

    /** Deletion is judged by the absence check alone, whatever the deletion reported. */
    method RetireOnDevice(device: nat, b: CredentialBinding, operation: Operation, s: Session) returns (r: Outcome<()>)
      requires Valid() && device < |devices|
      modifies this`devices, this`counters, this`failNext, s
      ensures Valid()
      ensures Followed(old(s.log), s.log, TouchScript(operation, b.caption, b.policy), r.Ok?)
      ensures SlotUsed(old(failNext), failNext, {AtAssertion, AtVerifiedResponse, AtRetirement, AtAbsenceCheck})
      ensures var touched := s.Answer(old(s.clock));
              r == if touched.Err? then touched else RetirementResult(old(failNext), old(FindManaged(device, b)))
      ensures var attempted := s.Answer(old(s.clock)).Ok? && old(FindManaged(device, b)).Ok?
                               && !QueuedAt(old(failNext), {AtAssertion, AtVerifiedResponse, AtRetirement});
              devices == if attempted then Without(old(devices), device, b.credentialId) else old(devices)
      ensures r.Ok? ==> old(FindManaged(device, b)).Ok? && b.credentialId !in devices[device].credentials
    {
      hide FakeBackend.Valid;
      var _ :- TouchAndVerify(device, b, operation, s);
      counters := counters.(retirements := counters.retirements + 1);
      var deletion := AttemptDeletion(device, b.credentialId);
      var failure := TakeFailure(AtAbsenceCheck);
      if failure.None? {
        if b.credentialId !in devices[device].credentials {
          return Ok(());
        }
        return if deletion.Ok? then Err(AuthenticatorResponseInvalid) else deletion;
      } else if failure.value.IntoError() == AuthenticatorResponseInvalid {
        return Err(AuthenticatorResponseInvalid);
      } else {
        return Err(Authenticator(RetirementUncertain));
      }
    }

    /** Succeeds only when the credential is gone from the device. */
    method CleanupManaged(device: nat, b: CredentialBinding, operation: Operation, s: Session) returns (r: Outcome<()>)
      requires Valid() && device < |devices|
      modifies this`devices, this`counters, this`failNext, s
      ensures Valid()
      ensures Followed(old(s.log), s.log, TouchScript(operation, b.caption, b.policy), false)
      ensures devices == old(devices) || devices == Without(old(devices), device, b.credentialId)
      ensures r.Ok? ==> FindManaged(device, b).Err?
      ensures SlotUsed(old(failNext), failNext, {AtAssertion, AtVerifiedResponse, AtRetirement, AtAbsenceCheck})
    {
      var found := FindManaged(device, b);
      if found.Ok? {
        r := RetireOnDevice(device, b, operation, s);
      } else if found.error == Authenticator(CredentialUnavailable) {
        r := Ok(());
      } else {
        r := Err(found.error);
      }
    }
  }
}
