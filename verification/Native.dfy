/**
 The adapter over the native library, and the devices behind it. A device answers
 each call with an arbitrary reply; what it keeps in store follows the reply:
 success acts, a definite failure does not, an uncertain status may have acted.
 An honest device also reports its store truly when it enumerates it.
 */
module Native {
  import opened Wrappers
  import opened Bytes
  import opened Policy
  import opened NativeErrors
  import opened Inventory
  import opened Sessions

  type NativeOutcome<+T> = Result<T, NativeError>

  datatype Capabilities = Capabilities(fido2: bool, hmacSecret: bool, credentialProtection: bool, discoverable: bool,
                                       credentialManagement: bool, es256: bool, pinSupported: bool, pinConfigured: bool,
                                       alwaysUv: bool)
  {
    predicate Compatible() {
      fido2 && hmacSecret && credentialProtection && es256 && pinSupported && pinConfigured
    }

    predicate SupportsPolicy(policy: FidoPolicy) {
      Compatible() && (policy == Presence ==> !alwaysUv)
    }

    predicate SupportsManagement() {
      fido2 && es256 && pinSupported && pinConfigured && credentialManagement
    }

    predicate SupportsManagedEnrollment(policy: FidoPolicy) {
      SupportsManagement() && hmacSecret && credentialProtection && discoverable && SupportsPolicy(policy)
    }
  }

  /** A managed credential in store, under its relying party. */
  datatype Holding = Holding(relyingParty: Bytes, resident: Resident)

  datatype Device = Device(capabilities: Capabilities, holdings: seq<Holding>)

  // ----- requests and responses -----

  const AUTHDATA_UP: bv8 := 0x01
  const AUTHDATA_UV: bv8 := 0x04
  const AUTHDATA_BE: bv8 := 0x08
  const AUTHDATA_BS: bv8 := 0x10

  /** User presence, user verification exactly under its policy, and no backup. */
  predicate FlagsMatch(flags: bv8, policy: FidoPolicy)
  {
    var up, uv := flags & AUTHDATA_UP != 0, flags & AUTHDATA_UV != 0;
    var backupEligible, backupState := flags & AUTHDATA_BE != 0, flags & AUTHDATA_BS != 0;
    up && uv == (policy == UserVerification) && !backupEligible && !backupState
  }

  /** The four bits are fixed by the policy, so no response passes under both; the others are free. */
  lemma FlagsExact(flags: bv8, policy: FidoPolicy)
    ensures FlagsMatch(flags, policy) <==> flags & 0x1d == if policy == Presence then 0x01 else 0x05
  {
    assert flags & 0x01 != 0 <==> flags & 0x01 == 0x01;
    assert flags & 0x04 != 0 <==> flags & 0x04 == 0x04;
  }

  /** The PRF of one credential on one input. */
  datatype PrfRequest = PrfRequest(relyingParty: Bytes, credentialId: Bytes, publicKey: Bytes64, salt: Bytes32, policy: FidoPolicy)
  {
    predicate Permits(withPin: bool, alwaysUv: bool) {
      && RelyingPartyValid(relyingParty) && 1 <= |credentialId| <= MAX_CREDENTIAL_ID_BYTES
      && withPin == (policy == UserVerification)
      && !(policy == Presence && alwaysUv)
    }

    function Assertion(challenge: Bytes): AssertionRequest {
      AssertionRequest(relyingParty, challenge, credentialId, Some(salt), policy == UserVerification, policy == UserVerification)
    }
  }

  /** What is sent to a device for one assertion. */
  datatype AssertionRequest = AssertionRequest(relyingParty: Bytes, challenge: Bytes, credentialId: Bytes, salt: Option<Bytes32>,
                                               verifyUser: bool, withPin: bool)

  /** What comes back; nothing of it is believed before it is verified. */
  datatype AssertionResponse = AssertionResponse(count: nat, signature: Bytes, flags: bv8, credentialId: Bytes, secret: Bytes)

  datatype CreationRequest = CreationRequest(relyingParty: Bytes, challenge: Bytes, userId: Bytes,
                                             protection: CredentialProtection, managed: bool)

  datatype Attestation = Attestation(format: Option<string>, certificateNull: bool, certificateLength: nat, signature: Bytes,
                                     flags: bv8)
  {
    /** Whether a certificate comes with the attestation, if its pointer and its length agree on that. */
    function CertificatePresent(): Option<bool> {
      if certificateNull && certificateLength == 0 then Some(false)
      else if !certificateNull && certificateLength > 0 then Some(true)
      else None
    }
  }

  /** Everything a device could say to one call, and whether an uncertain call acted. */
  datatype Reply = Reply(status: int, acted: bool, resident: Resident, attestation: Attestation, assertion: AssertionResponse,
                         reported: seq<Resident>)

  /** The calls that reached device `device`; `at` is when the reply was given. */
  datatype NativeEvent =
    | CredentialReturned(device: nat, at: nat, creation: CreationRequest)
    | AssertionReturned(device: nat, at: nat, request: AssertionRequest)
    | DeleteAttempted(device: nat, credentialId: Bytes)
    | Enumerated(device: nat, residents: seq<Resident>)

  function Listed(holdings: seq<Holding>, relyingParty: Bytes): seq<Resident>
  {
    if holdings == [] then [] else
    (if holdings[0].relyingParty == relyingParty then [holdings[0].resident] else []) + Listed(holdings[1..], relyingParty)
  }

  function Dropped(holdings: seq<Holding>, credentialId: Bytes): seq<Holding>
  {
    if holdings == [] then [] else
    (if holdings[0].resident.credentialId == credentialId then [] else [holdings[0]]) + Dropped(holdings[1..], credentialId)
  }

  predicate Holds(holdings: seq<Holding>, credentialId: Bytes)
  {
    exists i | 0 <= i < |holdings| :: holdings[i].resident.credentialId == credentialId
  }

  lemma {:induction false} DropFresh(holdings: seq<Holding>, h: Holding)
    requires !Holds(holdings, h.resident.credentialId)
    ensures Dropped(holdings + [h], h.resident.credentialId) == holdings
  {
    if holdings == [] {
      assert holdings + [h] == [h] && [h][1..] == [];
    } else {
      assert !Holds(holdings[1..], h.resident.credentialId);
      DropFresh(holdings[1..], h);
      assert holdings[0].resident.credentialId != h.resident.credentialId;
      assert (holdings + [h])[0] == holdings[0] && (holdings + [h])[1..] == holdings[1..] + [h];
    }
  }

  /** A held credential of the relying party is listed. */
  lemma {:induction false} HeldIsListed(holdings: seq<Holding>, h: Holding)
    ensures h.resident in Listed(holdings + [h], h.relyingParty)
  {
    if holdings == [] {
      assert holdings + [h] == [h] && [h][1..] == [];
    } else {
      HeldIsListed(holdings[1..], h);
      assert (holdings + [h])[1..] == holdings[1..] + [h];
    }
  }

  function RetirementOutcome(deletion: NativeOutcome<()>, presence: NativeOutcome<Presence>): (r: NativeOutcome<()>)
    ensures r.Ok? <==> presence == Ok(Absent)
  {
    if presence == Ok(Absent) then Ok(())
    else if presence == Ok(Present) then
      if deletion.Ok? || deletion.error == CredentialNotFound then Err(Protocol) else Err(deletion.error)
    else if presence == Err(CredentialMismatch) then Err(CredentialMismatch)
    else Err(NativeRetirementUncertain)
  }

  /** What enrollment hands back; `pending` is the token for undoing a managed one. */
  datatype PendingManaged = PendingManaged(expectation: Expectation, device: nat)
  datatype Enrolled = Enrolled(credentialId: Bytes, publicKey: Bytes64, protection: CredentialProtection, pending: Option<PendingManaged>)
  datatype EnrollmentFailure = EnrollmentFailure(error: NativeError, pending: Option<PendingManaged>)

  function ProtectionOf(policy: FidoPolicy): CredentialProtection
  {
    if policy == Presence then OptionalWithCredentialId else UserVerificationRequired
  }

  predicate RelyingPartyValid(value: Bytes)
  {
    1 <= |value| <= 253 && forall i | 0 <= i < |value| :: value[i] >= 0x20 && value[i] != 0x7f
  }

  predicate ExpectationValid(e: Expectation)
  {
    RelyingPartyValid(e.relyingParty) && 1 <= |e.userId| <= MAX_USER_ID_BYTES && 1 <= |e.credentialId| <= MAX_CREDENTIAL_ID_BYTES
  }

  class Authenticators {
    const replies: nat -> Reply
    const honest: bool
    /** Whether a response is signed by a key for a request, over the relying party, the challenge and what was asked. */
    const signedBy: (Bytes64, AssertionRequest, AssertionResponse) -> bool
    /** Whether an attestation, with a certificate or without, is one for this new credential. */
    const attests: (CreationRequest, Resident, Attestation, bool) -> bool

    var now: nat
    var devices: seq<Device>
    ghost var history: seq<NativeEvent>

    constructor (replies: nat -> Reply, honest: bool, signedBy: (Bytes64, AssertionRequest, AssertionResponse) -> bool,
                 attests: (CreationRequest, Resident, Attestation, bool) -> bool, devices: seq<Device>)
      ensures this.devices == devices && history == [] && this.honest == honest
    {
      this.replies, this.honest, this.signedBy, this.attests, this.devices := replies, honest, signedBy, attests, devices;
      now, history := 0, [];
    }

    static function Store(devices: seq<Device>, h: nat, holdings: seq<Holding>): (after: seq<Device>)
      requires h < |devices|
    {
      devices[h := devices[h].(holdings := holdings)]
    }

    /** The store with one more credential on device `h`. */
    static predicate OneMore(before: seq<Device>, after: seq<Device>, h: nat, added: Holding)
    {
      && h < |before|
      && !Holds(before[h].holdings, added.resident.credentialId)
      && after == Store(before, h, before[h].holdings + [added])
    }

    static predicate Without(before: seq<Device>, after: seq<Device>, h: nat, credentialId: Bytes)
    {
      h < |before| && after == Store(before, h, Dropped(before[h].holdings, credentialId))
    }

    // ----- what a response proves -----

    /** One statement, signed by the key for this request, with exact flags, from the credential that was asked for. */
    predicate Identifies(a: AssertionResponse, q: AssertionRequest, publicKey: Bytes64, policy: FidoPolicy)
    {
      a.count == 1 && signedBy(publicKey, q, a) && FlagsMatch(a.flags, policy) && a.credentialId == q.credentialId
    }

    /** An assertion that succeeded and proves possession of the key. */
    ghost predicate Proves(x: NativeEvent, publicKey: Bytes64, policy: FidoPolicy)
    {
      && x.AssertionReturned?
      && replies(x.at).status == FIDO_OK && Identifies(replies(x.at).assertion, x.request, publicKey, policy)
    }

    /** Possession of the expected credential, with user verification. */
    ghost predicate ProvesPossession(x: NativeEvent, h: nat, e: Expectation)
    {
      && Proves(x, e.publicKey, UserVerification) && x.device == h
      && x.request == UvAssertion(e, x.request.challenge)
    }

    /** The PRF that was asked for, out of a response that passed every check. */
    ghost predicate Yields(x: NativeEvent, q: PrfRequest, secret: Bytes32)
    {
      && Proves(x, q.publicKey, q.policy)
      && x.request == q.Assertion(x.request.challenge)
      && replies(x.at).assertion.secret == secret
    }

    static ghost predicate FreshChallenge(x: NativeEvent, s: Session, since: nat)
    {
      x.AssertionReturned? && DrawnSince(s, x.request.challenge, since)
    }

    static function UvAssertion(e: Expectation, challenge: Bytes): AssertionRequest
    {
      AssertionRequest(e.relyingParty, challenge, e.credentialId, None, true, true)
    }

    /** The credential that a reply describes; the user id is the one that was asked for. */
    function Made(at: nat, q: CreationRequest): Resident
    {
      replies(at).resident.(userId := q.userId)
    }

    /** A packed ES256 attestation for this credential, with the protection of the policy, made with user verification. */
    predicate Attests(q: CreationRequest, c: Resident, a: Attestation, policy: FidoPolicy)
    {
      && a.format == Some("packed")
      && c.keyType == COSE_ES256 && c.protection == ProtectionOf(policy).Code()
      && a.CertificatePresent().Some? && attests(q, c, a, a.CertificatePresent().value)
      && FlagsMatch(a.flags, UserVerification)
    }

    // ----- what happened between two histories -----

    /** One credential was made as requested and attested, and it is the one that is handed back. */
    ghost predicate EnrolledOn(h: nat, before: seq<NativeEvent>, after: seq<NativeEvent>, relyingParty: Bytes,
                               policy: FidoPolicy,
                               managedUser: Option<Bytes32>, made: Enrolled)
    {
      && |after| == |before| + 1 && before <= after
      && var x := after[|before|];
      && x.CredentialReturned? && x.device == h
      && x.creation.relyingParty == relyingParty && x.creation.protection == ProtectionOf(policy)
      && x.creation.managed == managedUser.Some? && (managedUser.Some? ==> x.creation.userId == managedUser.value)
      && var c := Made(x.at, x.creation);
      && replies(x.at).status == FIDO_OK && Attests(x.creation, c, replies(x.at).attestation, policy)
      && made.credentialId == c.credentialId && made.publicKey == c.publicKey && made.protection == ProtectionOf(policy)
    }

    /** Possession was proved, and then the exact record was on a complete list. */
    ghost predicate VerifiedOn(h: nat, before: seq<NativeEvent>, after: seq<NativeEvent>, e: Expectation, s: Session, since: nat)
    {
      && |after| == |before| + 2 && before <= after
      && ProvesPossession(after[|before|], h, e) && FreshChallenge(after[|before|], s, since)
      && after[|before| + 1].Enumerated? && after[|before| + 1].device == h && OneExact(after[|before| + 1].residents, e)
    }

    /** A deletion was attempted, and then neither id was on a complete list. */
    ghost predicate DeletedOn(h: nat, before: seq<NativeEvent>, after: seq<NativeEvent>, e: Expectation)
    {
      && |after| == |before| + 2 && before <= after
      && after[|before|] == DeleteAttempted(h, e.credentialId)
      && after[|before| + 1].Enumerated? && after[|before| + 1].device == h && NoneShares(after[|before| + 1].residents, e)
    }

    /** Possession was proved, and then the credential was deleted. */
    ghost predicate CleanedOn(h: nat, before: seq<NativeEvent>, after: seq<NativeEvent>, e: Expectation, s: Session, since: nat)
    {
      && |after| == |before| + 3 && before <= after
      && ProvesPossession(after[|before|], h, e) && FreshChallenge(after[|before|], s, since)
      && DeletedOn(h, after[..|before| + 1], after, e)
    }

    /** All of it: possession, the exact record, the deletion, and the absence of both ids, on one device. */
    ghost predicate RetiredOn(h: nat, before: seq<NativeEvent>, after: seq<NativeEvent>, e: Expectation, s: Session, since: nat)
    {
      && |after| == |before| + 4 && before <= after
      && VerifiedOn(h, before, after[..|before| + 2], e, s, since)
      && DeletedOn(h, after[..|before| + 2], after, e)
    }

    lemma AttestedProtection(h: nat, before: seq<NativeEvent>, after: seq<NativeEvent>, relyingParty: Bytes, policy: FidoPolicy,
                             managedUser: Option<Bytes32>, made: Enrolled)
      requires EnrolledOn(h, before, after, relyingParty, policy, managedUser, made)
      ensures made.protection == ProtectionOf(policy)
      ensures forall other: Enrolled | other.(pending := made.pending) == made ::
                EnrolledOn(h, before, after, relyingParty, policy, managedUser, other)
    {
    }

    /** A challenge that was drawn since a later moment was drawn since an earlier one. */
    lemma VerifiedEarlier(h: nat, before: seq<NativeEvent>, after: seq<NativeEvent>, e: Expectation, s: Session, earlier: nat, since: nat)
      requires VerifiedOn(h, before, after, e, s, since) && earlier <= since
      ensures VerifiedOn(h, before, after, e, s, earlier)
    {
    }

    lemma RetiredEarlier(h: nat, before: seq<NativeEvent>, after: seq<NativeEvent>, e: Expectation, s: Session, earlier: nat, since: nat)
      requires RetiredOn(h, before, after, e, s, since) && earlier <= since
      ensures RetiredOn(h, before, after, e, s, earlier)
    {
      VerifiedEarlier(h, before, after[..|before| + 2], e, s, earlier, since);
      hide VerifiedOn, DeletedOn;
    }

    // ----- native calls -----

    method NextReply() returns (reply: Reply)
      modifies this`now
      ensures now == old(now) + 1 && reply == replies(old(now))
    {
      reply := replies(now);
      now := now + 1;
    }

    /** Allocation and setup of a native object. */
    method Setup() returns (r: NativeOutcome<()>)
      modifies this`now
    {
      var reply := NextReply();
      if !reply.acted {
        return Err(AllocationFailed);
      }
      return if reply.status == FIDO_OK then Ok(()) else Err(TranslateStatus(reply.status));
    }

    /** A device never creates a credential under an id it already holds. */
    method MakeCredential(h: nat, q: CreationRequest) returns (status: int, c: Resident, a: Attestation)
      requires h < |devices|
      modifies this`now, this`devices, this`history
      ensures history == old(history) + [CredentialReturned(h, old(now), q)]
      ensures c == Made(old(now), q) && a == replies(old(now)).attestation
      ensures status == FIDO_OK ==> replies(old(now)).status == FIDO_OK
      ensures status == FIDO_OK && q.managed ==> OneMore(old(devices), devices, h, Holding(q.relyingParty, c))
      ensures !q.managed || (status != FIDO_OK && !EnrollmentUncertain(status)) ==> devices == old(devices)
      ensures devices == old(devices) || OneMore(old(devices), devices, h, Holding(q.relyingParty, c))
    {
      history := history + [CredentialReturned(h, now, q)];
      var reply := NextReply();
      status, c, a := reply.status, reply.resident.(userId := q.userId), reply.attestation;
      var isNew := !Holds(devices[h].holdings, c.credentialId);
      if q.managed && status == FIDO_OK && !isNew {
        status := FIDO_ERR_INTERNAL;
      }
      if q.managed && isNew && (status == FIDO_OK || (EnrollmentUncertain(status) && reply.acted)) {
        devices := Store(devices, h, devices[h].holdings + [Holding(q.relyingParty, c)]);
      }
    }

    method GetAssertion(h: nat, q: AssertionRequest, s: Session) returns (status: int, a: AssertionResponse)
      requires h < |devices|
      modifies this`now, this`history, s`log
      ensures history == old(history) + [AssertionReturned(h, old(now), q)] && s.log == old(s.log) + [Asserted]
      ensures status == replies(old(now)).status && a == replies(old(now)).assertion
    {
      history := history + [AssertionReturned(h, now, q)];
      s.Note(Asserted);
      var reply := NextReply();
      status, a := reply.status, reply.assertion;
    }

    method EnumerateResidents(h: nat, relyingParty: Bytes) returns (status: int, residents: seq<Resident>)
      requires h < |devices|
      modifies this`now, this`history
      ensures history == old(history) + (if status == FIDO_OK || status == FIDO_ERR_NO_CREDENTIALS then [Enumerated(h, residents)] else [])
      ensures status == FIDO_ERR_NO_CREDENTIALS ==> residents == []
      ensures honest && (status == FIDO_OK || status == FIDO_ERR_NO_CREDENTIALS)
              ==> residents == Listed(devices[h].holdings, relyingParty)
    {
      var reply := NextReply();
      status := reply.status;
      residents := if honest then Listed(devices[h].holdings, relyingParty) else reply.reported;
      if status == FIDO_ERR_NO_CREDENTIALS {
        if honest && residents != [] {
          status := FIDO_ERR_INTERNAL;
        } else {
          residents := [];
        }
      }
      if status == FIDO_OK || status == FIDO_ERR_NO_CREDENTIALS {
        history := history + [Enumerated(h, residents)];
      }
    }

    method DeleteResident(h: nat, credentialId: Bytes) returns (status: int)
      requires h < |devices|
      modifies this`now, this`devices, this`history
      ensures history == old(history) + [DeleteAttempted(h, credentialId)]
      ensures devices == old(devices) || Without(old(devices), devices, h, credentialId)
      ensures honest && status == FIDO_OK ==> Without(old(devices), devices, h, credentialId)
      ensures honest && status != FIDO_OK && !RetirementUncertainStatus(status) ==> devices == old(devices)
    {
      var reply := NextReply();
      status := reply.status;
      history := history + [DeleteAttempted(h, credentialId)];
      var acts := if honest then status == FIDO_OK || (RetirementUncertainStatus(status) && reply.acted) else reply.acted;
      if acts {
        devices := Store(devices, h, Dropped(devices[h].holdings, credentialId));
      }
    }

    // ----- selection -----

    /** Opens every device and keeps those that support the operation. */
    method PrepareSelection(supports: Capabilities -> bool) returns (r: NativeOutcome<seq<nat>>)
      modifies this`now
      ensures r.Ok?
              ==> r.value != [] && forall i | 0 <= i < |r.value| :: r.value[i] < |devices| && supports(devices[r.value[i]].capabilities)
    {
      if |devices| == 0 {
        return Err(NoAuthenticators);
      }
      var candidates: seq<nat> := [];
      var firstUnavailable: Option<NativeError> := None;
      for h := 0 to |devices|
        invariant forall i | 0 <= i < |candidates| :: candidates[i] < |devices| && supports(devices[candidates[i]].capabilities)
      {
        var reply := NextReply();
        if reply.status != FIDO_OK {
          if firstUnavailable.None? {
            firstUnavailable := Some(TranslateStatus(reply.status));
          }
        } else if supports(devices[h].capabilities) {
          candidates := candidates + [h];
        }
      }
      if candidates == [] {
        return Err(if firstUnavailable.Some? then firstUnavailable.value else NoCompatibleAuthenticators);
      }
      return Ok(candidates);
    }

    /** The only candidate, or whichever the touch ceremony yields. */
    method SelectFrom(candidates: seq<nat>) returns (r: NativeOutcome<nat>)
      requires candidates != []
      modifies this`now
      ensures r.Ok? ==> r.value in candidates
    {
      if |candidates| == 1 {
        return Ok(candidates[0]);
      }
      var reply := NextReply();
      if reply.status != FIDO_OK {
        return Err(TranslateStatus(reply.status));
      }
      return Ok(candidates[|reply.reported| % |candidates|]);
    }

    // ----- the adapter -----

    /** A credential is handed back only if it was attested as the policy demands. */
    function VerifyCredential(q: CreationRequest, c: Resident, a: Attestation, policy: FidoPolicy): (r: NativeOutcome<()>)
      ensures r.Ok? <==> Attests(q, c, a, policy)
      ensures r.Err? ==> r.error == VerificationFailed
    {
      if a.format != Some("packed") then Err(VerificationFailed)
      else if c.keyType != COSE_ES256 || c.protection != ProtectionOf(policy).Code() then Err(VerificationFailed)
      else
        match a.CertificatePresent()
        case None => Err(VerificationFailed)
        case Some(present) =>
          if !attests(q, c, a, present) then Err(VerificationFailed)
          else if !FlagsMatch(a.flags, UserVerification) then Err(VerificationFailed)
          else Ok(())
    }

    method VerifyIdentity(a: AssertionResponse, q: AssertionRequest, publicKey: Bytes64, policy: FidoPolicy)
      returns (r: NativeOutcome<()>)
      modifies this`now
      ensures r.Ok? ==> Identifies(a, q, publicKey, policy)
      ensures r.Err? && r.error != AllocationFailed ==> r.error == VerificationFailed && !Identifies(a, q, publicKey, policy)
    {
      if a.count != 1 {
        return Err(VerificationFailed);
      }
      var key := NextReply();
      if !key.acted {
        return Err(AllocationFailed);
      }
      if !signedBy(publicKey, q, a) {
        return Err(VerificationFailed);
      }
      if !FlagsMatch(a.flags, policy) {
        return Err(VerificationFailed);
      }
      if a.credentialId != q.credentialId {
        return Err(VerificationFailed);
      }
      return Ok(());
    }

    method Enroll(h: nat, relyingParty: Bytes, policy: FidoPolicy, managedUser: Option<Bytes32>, s: Session)
      returns (r: Result<Enrolled, EnrollmentFailure>)
      requires h < |devices|
      modifies this`now, this`devices, this`history, s`clock
      ensures |devices| == |old(devices)| && old(history) <= history
      ensures managedUser.None? ==> devices == old(devices)
      ensures r.Ok? ==> EnrolledOn(h, old(history), history, relyingParty, policy, managedUser, r.value)
      ensures r.Ok? && managedUser.Some? ==>
                && r.value.pending.Some?
                && var e := r.value.pending.value.expectation;
                && e.credentialId == r.value.credentialId && e.publicKey == r.value.publicKey
                && NewestIs(devices, h, e.(protection := Some(ProtectionOf(policy))))
      ensures r.Ok? ==> 1 <= |r.value.credentialId| <= MAX_CREDENTIAL_ID_BYTES
      ensures managedUser.None? ==> (r.Ok? ==> r.value.pending.None?) && (r.Err? ==> r.error.pending.None?)
      ensures managedUser.Some? ==>
              var pending := if r.Ok? then r.value.pending else r.error.pending;
              if pending.Some? then Undoable(old(devices), devices, h, relyingParty, managedUser.value, pending.value)
              else devices == old(devices) || r.error.error == NativeMayRemain
    {
      hide RelyingPartyValid, FlagsMatch, Holds, Attestation.CertificatePresent, EnrollmentUncertain, TranslateStatus, VerifyCredential,
           Capabilities.SupportsManagedEnrollment, Capabilities.SupportsPolicy;
      if !RelyingPartyValid(relyingParty) {
        return Err(EnrollmentFailure(InvalidInput, None));
      }
      var managed := managedUser.Some?;
      if managed && !devices[h].capabilities.SupportsManagedEnrollment(policy) {
        return Err(EnrollmentFailure(CredentialManagementUnsupported, None));
      }
      if !devices[h].capabilities.SupportsPolicy(policy) {
        return Err(EnrollmentFailure(Unsupported, None));
      }
      var challenge := s.RandomArray(32);
      if challenge.Err? {
        return Err(EnrollmentFailure(NativeRandomUnavailable, None));
      }
      var userId: Bytes;
      if managed {
        userId := managedUser.value;
      } else {
        var generated := s.RandomArray(32);
        if generated.Err? {
          return Err(EnrollmentFailure(NativeRandomUnavailable, None));
        }
        userId := generated.value;
      }
      var ready := Setup();
      if ready.Err? {
        return Err(EnrollmentFailure(ready.error, None));
      }
      var q := CreationRequest(relyingParty, challenge.value, userId, ProtectionOf(policy), managed);
      var status, c, a := MakeCredential(h, q);
      if status != FIDO_OK {
        if managed && EnrollmentUncertain(status) {
          return Err(EnrollmentFailure(NativeMayRemain, None));
        }
        return Err(EnrollmentFailure(TranslateStatus(status), None));
      }
      var copied := 1 <= |c.credentialId| <= MAX_CREDENTIAL_ID_BYTES && |c.publicKey| == ES256_PUBLIC_KEY_BYTES;
      var pending: Option<PendingManaged> := None;
      if managed {
        if !copied {
          return Err(EnrollmentFailure(NativeMayRemain, None));
        }
        pending := Some(PendingManaged(Expectation(relyingParty, userId, c.credentialId, c.publicKey, None), h));
      }
      var protection := CredentialProtection.FromCode(c.protection);
      if protection.None? {
        return Err(EnrollmentFailure(VerificationFailed, pending));
      }
      if !copied {
        return Err(EnrollmentFailure(Protocol, pending));
      }
      var verified := VerifyCredential(q, c, a, policy);
      if verified.Err? {
        return Err(EnrollmentFailure(verified.error, pending));
      }
      return Ok(Enrolled(c.credentialId, c.publicKey, protection.value, pending));
    }

    /** The last credential in store is exactly the expected one. */
    static predicate NewestIs(devices: seq<Device>, h: nat, e: Expectation)
    {
      && h < |devices| && devices[h].holdings != []
      && var added := devices[h].holdings[|devices[h].holdings| - 1];
      && added.relyingParty == e.relyingParty && e.Exactly(added.resident)
    }

    /** The token names the one credential that was just added, on the device that added it. */
    static predicate Undoable(before: seq<Device>, after: seq<Device>, h: nat, relyingParty: Bytes, userId: Bytes32,
                              pending: PendingManaged)
    {
      && pending.device == h
      && pending.expectation.relyingParty == relyingParty && pending.expectation.userId == userId
      && pending.expectation.protection.None?
      && OneMoreNamed(before, after, h, relyingParty, userId, pending.expectation.credentialId)
    }

    /** One credential was added to device `h`, under this id and user. */
    static predicate OneMoreNamed(before: seq<Device>, after: seq<Device>, h: nat, relyingParty: Bytes, userId: Bytes32,
                                  credentialId: Bytes)
    {
      && h < |before| && |after| == |before|
      && after[h].holdings != []
      && var added := after[h].holdings[|after[h].holdings| - 1];
      && added.relyingParty == relyingParty && added.resident.userId == userId && added.resident.credentialId == credentialId
      && OneMore(before, after, h, added)
    }

    method ManagedPresence(h: nat, e: Expectation) returns (r: NativeOutcome<Presence>)
      requires h < |devices|
      modifies this`now, this`history
      ensures old(history) <= history
      ensures r.Ok? ==>
                && |history| == |old(history)| + 1 && history[|old(history)|].Enumerated? && history[|old(history)|].device == h
                && var rs := history[|old(history)|].residents;
                if r.value == Absent then NoneShares(rs, e) else OneExact(rs, e)
      ensures honest && r == Ok(Absent) ==> NoneShares(Listed(devices[h].holdings, e.relyingParty), e)
    {
      var _ :- Setup();
      var status, residents := EnumerateResidents(h, e.relyingParty);
      if status == FIDO_ERR_NO_CREDENTIALS {
        return Ok(Absent);
      }
      if status != FIDO_OK {
        return Err(TranslateManagement(status));
      }
      r := Find(residents, e);
    }

    /** A fresh signed assertion for exactly this credential, with user verification. */
    method VerifyAssertion(h: nat, e: Expectation, s: Session) returns (r: NativeOutcome<()>)
      requires h < |devices|
      modifies this`now, this`history, s`clock, s`log
      ensures old(history) <= history && s.clock >= old(s.clock)
      ensures r.Ok? ==> |history| == |old(history)| + 1 && ProvesPossession(history[|old(history)|], h, e)
                        && FreshChallenge(history[|old(history)|], s, old(s.clock))
      ensures Followed(old(s.log), s.log, [Asserted], r.Ok?)
    {
      var challenge := s.RandomArray(32);
      if challenge.Err? {
        return Err(NativeRandomUnavailable);
      }
      var _ :- Setup();
      var q := UvAssertion(e, challenge.value);
      var status, a := GetAssertion(h, q, s);
      if status != FIDO_OK {
        return Err(TranslateStatus(status));
      }
      r := VerifyIdentity(a, q, e.publicKey, UserVerification);
    }

    /** Attempts the deletion and believes only a complete enumeration afterwards. */
    method DeleteManaged(h: nat, e: Expectation) returns (r: NativeOutcome<()>)
      requires h < |devices|
      modifies this`now, this`devices, this`history
      ensures old(history) <= history && (r.Ok? ==> DeletedOn(h, old(history), history, e))
      ensures devices == old(devices) || Without(old(devices), devices, h, e.credentialId)
      ensures honest && r.Ok? ==> NoneShares(Listed(devices[h].holdings, e.relyingParty), e)
    {
      var status := DeleteResident(h, e.credentialId);
      if status != FIDO_OK && !RetirementUncertainStatus(status) {
        return Err(TranslateManagement(status));
      }
      var deletion: NativeOutcome<()> := if status == FIDO_OK then Ok(()) else Err(TranslateManagement(status));
      var presence := ManagedPresence(h, e);
      r := RetirementOutcome(deletion, presence);
    }

    function ValidateManaged(h: nat, e: Expectation): NativeOutcome<()>
      requires h < |devices|
      reads this`devices
    {
      if !devices[h].capabilities.SupportsManagement() then Err(CredentialManagementUnsupported)
      else if !ExpectationValid(e) then Err(InvalidInput)
      else Ok(())
    }

    method VerifyManaged(h: nat, e: Expectation, s: Session) returns (r: NativeOutcome<()>)
      requires h < |devices|
      modifies this`now, this`history, s`clock, s`log
      ensures old(history) <= history
      ensures r.Ok? ==> VerifiedOn(h, old(history), history, e, s, old(s.clock))
      ensures Followed(old(s.log), s.log, [Asserted], r.Ok?)
    {
      hide ProvesPossession, FreshChallenge, OneExact, NoneShares;
      var _ :- ValidateManaged(h, e);
      var _ :- VerifyAssertion(h, e, s);
      var presence :- ManagedPresence(h, e);
      if presence == Absent {
        return Err(CredentialNotFound);
      }
      return Ok(());
    }

    /**
     Success means, in this order: an assertion that proves possession, an exact match,
     an attempted deletion, and a complete enumeration that shows neither id. Nothing
     else is believed, in particular no reply to the deletion.
     */
    method RetireManaged(h: nat, e: Expectation, s: Session) returns (r: NativeOutcome<()>)
      requires h < |devices|
      modifies this`now, this`devices, this`history, s`clock, s`log
      ensures old(history) <= history
      ensures r.Ok? ==> RetiredOn(h, old(history), history, e, s, old(s.clock))
      ensures devices == old(devices) || Without(old(devices), devices, h, e.credentialId)
      ensures honest && r.Ok? ==> NoneShares(Listed(devices[h].holdings, e.relyingParty), e)
      ensures Followed(old(s.log), s.log, [Asserted], r.Ok?)
    {
      var _ :- VerifyManaged(h, e, s);
      ghost var verified := history;
      hide VerifiedOn, DeletedOn, NoneShares, Without;
      r := DeleteManaged(h, e);
      if r.Ok? {
        DeletedLength(h, verified, history, e);
        assert history[..|old(history)| + 2] == verified;
      }
    }

    lemma DeletedLength(h: nat, before: seq<NativeEvent>, after: seq<NativeEvent>, e: Expectation)
      requires DeletedOn(h, before, after, e)
      ensures |after| == |before| + 2 && before <= after
    {
    }

    /** Looks for a just-created credential; only the device that created it is asked. */
    method PrepareCleanup(h: nat, pending: PendingManaged) returns (r: NativeOutcome<Presence>)
      requires h < |devices|
      modifies this`now, this`history
      ensures old(history) <= history
      ensures r.Ok? ==> h == pending.device
      ensures honest && r == Ok(Absent)
              ==> NoneShares(Listed(devices[h].holdings, pending.expectation.relyingParty), pending.expectation)
    {
      if pending.device != h {
        return Err(CredentialMismatch);
      }
      var _ :- ValidateManaged(h, pending.expectation);
      r := ManagedPresence(h, pending.expectation);
    }

    method FinishCleanup(pending: PendingManaged, s: Session) returns (r: NativeOutcome<()>)
      requires pending.device < |devices|
      modifies this`now, this`devices, this`history, s`clock, s`log
      ensures old(history) <= history
      ensures r.Ok? ==> CleanedOn(pending.device, old(history), history, pending.expectation, s, old(s.clock))
      ensures devices == old(devices) || Without(old(devices), devices, pending.device, pending.expectation.credentialId)
      ensures honest && r.Ok?
              ==> NoneShares(Listed(devices[pending.device].holdings, pending.expectation.relyingParty), pending.expectation)
      ensures Followed(old(s.log), s.log, [Asserted], r.Ok?)
    {
      var _ :- VerifyAssertion(pending.device, pending.expectation, s);
      ghost var verified := history;
      hide ProvesPossession, FreshChallenge, DeletedOn, NoneShares, Without;
      r := DeleteManaged(pending.device, pending.expectation);
      if r.Ok? {
        DeletedLength(pending.device, verified, history, pending.expectation);
        assert history[..|old(history)| + 1] == verified;
      }
    }

    /**
     The PRF of one credential. Nothing is sent for a request that the policy does not
     permit, and nothing is returned but the secret of a response that passed every check.
     */
    method Evaluate(h: nat, q: PrfRequest, withPin: bool, s: Session) returns (r: NativeOutcome<Bytes32>)
      requires h < |devices|
      modifies this`now, this`history, s`clock, s`log
      ensures old(history) <= history && |history| <= |old(history)| + 1
      ensures !q.Permits(withPin, devices[h].capabilities.alwaysUv) ==> r.Err? && history == old(history) && unchanged(s)
      ensures r.Ok? ==>
                && |history| == |old(history)| + 1
                && var x := history[|old(history)|];
                Yields(x, q, r.value) && x.device == h && FreshChallenge(x, s, old(s.clock))
      ensures Followed(old(s.log), s.log, [Asserted], r.Ok?)
    {
      hide FlagsMatch, TranslateStatus, Identifies, Session.Draw;
      if !RelyingPartyValid(q.relyingParty) || q.credentialId == [] || |q.credentialId| > MAX_CREDENTIAL_ID_BYTES {
        return Err(InvalidInput);
      }
      if q.policy == Presence && withPin {
        return Err(InvalidInput);
      }
      if q.policy == UserVerification && !withPin {
        return Err(PinRequired);
      }
      if q.policy == Presence && devices[h].capabilities.alwaysUv {
        return Err(Unsupported);
      }
      var challenge := s.RandomArray(32);
      if challenge.Err? {
        return Err(NativeRandomUnavailable);
      }
      var _ :- Setup();
      var request := AssertionRequest(q.relyingParty, challenge.value, q.credentialId, Some(q.salt), q.policy == UserVerification, withPin);
      var status, a := GetAssertion(h, request, s);
      if status != FIDO_OK {
        return Err(TranslateStatus(status));
      }
      var _ :- VerifyIdentity(a, request, q.publicKey, q.policy);
      if |a.secret| != 32 {
        return Err(VerificationFailed);
      }
      return Ok(a.secret);
    }

    /** Evaluates a new managed credential and confirms its record before the result is used. */
    method EvaluateManagedEnrollment(h: nat, q: PrfRequest, e: Expectation, s: Session) returns (r: NativeOutcome<Bytes32>)
      requires h < |devices|
      modifies this`now, this`history, s`clock, s`log
      ensures old(history) <= history
      ensures Followed(old(s.log), s.log, [Asserted], r.Ok?)
      ensures r.Ok? ==>
                && q.credentialId == e.credentialId && q.publicKey == e.publicKey && e.protection == Some(ProtectionOf(q.policy))
                && |history| == |old(history)| + 2
                && var x, list := history[|old(history)|], history[|old(history)| + 1];
                && Yields(x, q, r.value) && x.device == h && FreshChallenge(x, s, old(s.clock))
                && list.Enumerated? && list.device == h && OneExact(list.residents, e)
    {
      hide Yields, FreshChallenge, OneExact, NoneShares;
      var _ :- ValidateManaged(h, e);
      if !(q.relyingParty == e.relyingParty && q.credentialId == e.credentialId && q.publicKey == e.publicKey
           && Some(ProtectionOf(q.policy)) == e.protection) {
        return Err(CredentialMismatch);
      }
      var secret :- Evaluate(h, q, q.policy == UserVerification, s);
      var presence :- ManagedPresence(h, e);
      if presence == Absent {
        return Err(CredentialNotFound);
      }
      return Ok(secret);
    }
  }
}
