/** Recipient policies, Argon2id parameters and the local limits on them. */
module Policy {
  import opened Wrappers
  import opened Bytes

  const MIN_MEMORY_KIB := 65_536
  const MAX_MEMORY_KIB := 262_144
  const MIN_PASSES := 3
  const MAX_PASSES := 6
  const MIN_LANES := 1
  const MAX_LANES := 4
  const MIN_WORK_KIB_PASSES := 196_608
  const DESKTOP_WORK_KIB_PASSES := 786_432
  const MAX_WORK_KIB_PASSES := 1_572_864
  const MAX_LABEL_BYTES := 64

  datatype FidoPolicy = Presence | UserVerification
  {
    function Code(): byte {
      if Presence? then 1 else 2
    }

    static function FromCode(code: nat): Option<FidoPolicy> {
      if code == 1 then Some(Presence) else if code == 2 then Some(UserVerification) else None
    }
  }

  datatype FidoStorage = NonDiscoverable | Managed

  datatype RecipientPolicy =
    | PassphrasePolicy
    | RecoverySecretPolicy
    | FidoOnly(policy: FidoPolicy)
    | ManagedFido(policy: FidoPolicy)
    | FidoAndPassphrasePolicy(policy: FidoPolicy)
    | FidoPresenceAndLocalSecret
  {
    predicate UsesPassphrase() {
      PassphrasePolicy? || FidoAndPassphrasePolicy?
    }
  }

  datatype PassphraseParameters = PassphraseParameters(memoryKib: nat, passes: nat, lanes: nat)
  {
    predicate Valid() {
      && MIN_LANES <= lanes <= MAX_LANES
      && MIN_PASSES <= passes <= MAX_PASSES
      && MIN_MEMORY_KIB <= memoryKib <= MAX_MEMORY_KIB
      && memoryKib >= 8 * lanes
      && memoryKib % (4 * lanes) == 0
    }

    function Work(): nat {
      memoryKib * passes
    }
  }

  const DESKTOP := PassphraseParameters(MAX_MEMORY_KIB, MIN_PASSES, MAX_LANES)

  datatype PassphraseLimits = PassphraseLimits(maxMemoryKib: nat, maxWorkKibPasses: nat)
  {
    predicate Valid() {
      && MIN_MEMORY_KIB <= maxMemoryKib <= MAX_MEMORY_KIB
      && MIN_WORK_KIB_PASSES <= maxWorkKibPasses <= MAX_WORK_KIB_PASSES
    }

    predicate Accepts(parameters: PassphraseParameters) {
      parameters.memoryKib <= maxMemoryKib && parameters.Work() <= maxWorkKibPasses
    }
  }

  const DESKTOP_LIMITS := PassphraseLimits(MAX_MEMORY_KIB, DESKTOP_WORK_KIB_PASSES)
  const PROTOCOL_MAX := PassphraseLimits(MAX_MEMORY_KIB, MAX_WORK_KIB_PASSES)

  /** No limits can be so low as to refuse every valid profile, nor does the protocol ceiling refuse any. */
  lemma LimitsBracketProfiles(limits: PassphraseLimits, parameters: PassphraseParameters)
    requires limits.Valid() && parameters.Valid()
    ensures limits.Accepts(PassphraseParameters(MIN_MEMORY_KIB, MIN_PASSES, MIN_LANES))
    ensures PROTOCOL_MAX.Accepts(parameters)
    ensures DESKTOP.Valid() && DESKTOP_LIMITS.Accepts(DESKTOP)
  {
    assert parameters.Work() <= MAX_WORK_KIB_PASSES by {
      assert parameters.passes in {3, 4, 5, 6};
    }
  }

  /** Printable ASCII, one to 64 bytes, no space at either end. */
  predicate LabelValid(text: Bytes)
  {
    && 1 <= |text| <= MAX_LABEL_BYTES
    && text[0] != 0x20
    && text[|text| - 1] != 0x20
    && forall i | 0 <= i < |text| :: 0x20 <= text[i] <= 0x7e
  }

  /** A request to add one route, as its builders make it. */
  datatype Enrollment = Enrollment(caption: Bytes, policy: RecipientPolicy, parameters: Option<PassphraseParameters>)
  {
    predicate Valid() {
      && LabelValid(caption)
      && !policy.RecoverySecretPolicy?
      && !policy.FidoPresenceAndLocalSecret?
      && (parameters.Some? <==> policy.UsesPassphrase())
      && (parameters.Some? ==> parameters.value.Valid())
    }
  }
}
