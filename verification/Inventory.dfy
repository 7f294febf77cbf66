/** The search of an authenticator's list of managed credentials for one exact record. */
module Inventory {
  import opened Wrappers
  import opened Bytes
  import opened NativeErrors

  const MAX_CREDENTIAL_ID_BYTES := 1024
  const MAX_USER_ID_BYTES := 64
  const ES256_PUBLIC_KEY_BYTES := 64
  const MAX_MANAGED_CREDENTIALS_PER_RP := 1024
  const COSE_ES256 := -7

  datatype CredentialProtection = OptionalWithCredentialId | UserVerificationRequired
  {
    function Code(): int {
      if OptionalWithCredentialId? then 2 else 3
    }

    static function FromCode(code: int): Option<CredentialProtection> {
      if code == 2 then Some(OptionalWithCredentialId) else if code == 3 then Some(UserVerificationRequired) else None
    }
  }

  /** One enumerated credential, as the device reports it. */
  datatype Resident = Resident(credentialId: Bytes, userId: Bytes, keyType: int, protection: int, publicKey: Bytes)
  {
    predicate WellFormed() {
      && 1 <= |credentialId| <= MAX_CREDENTIAL_ID_BYTES
      && 1 <= |userId| <= MAX_USER_ID_BYTES
      && 1 <= |publicKey| <= ES256_PUBLIC_KEY_BYTES
    }
  }

  /** What the record must be; a pending credential does not fix its protection. */
  datatype Expectation = Expectation(relyingParty: Bytes, userId: Bytes, credentialId: Bytes, publicKey: Bytes64,
                                     protection: Option<CredentialProtection>)
  {
    predicate SharesAnId(r: Resident) {
      r.credentialId == credentialId || r.userId == userId
    }

    predicate Exactly(r: Resident) {
      && r.credentialId == credentialId && r.userId == userId
      && r.keyType == COSE_ES256 && r.publicKey == publicKey
      && (protection.Some? ==> r.protection == protection.value.Code())
    }
  }

  datatype Presence = Present | Absent

  ghost predicate NoneShares(rs: seq<Resident>, e: Expectation)
  {
    forall i | 0 <= i < |rs| :: !e.SharesAnId(rs[i])
  }

  /** The exact record is there, and no other record shares either of its ids. */
  ghost predicate OneExact(rs: seq<Resident>, e: Expectation)
  {
    exists i | 0 <= i < |rs| :: e.Exactly(rs[i]) && forall j | 0 <= j < |rs| && j != i :: !e.SharesAnId(rs[j])
  }

  ghost function Verdict(rs: seq<Resident>, e: Expectation): Result<Presence, NativeError>
  {
    if NoneShares(rs, e) then Ok(Absent) else if OneExact(rs, e) then Ok(Present) else Err(CredentialMismatch)
  }

  function ManagedIdentityMatches(r: Resident, e: Expectation): Result<bool, NativeError>
  {
    var idMatches, userMatches := r.credentialId == e.credentialId, r.userId == e.userId;
    if !idMatches && !userMatches then Ok(false)
    else if idMatches && userMatches then Ok(true)
    else Err(CredentialMismatch)
  }

  method Find(rs: seq<Resident>, e: Expectation) returns (r: Result<Presence, NativeError>)
    ensures r == Ok(Present) ==> OneExact(rs, e)
    ensures r == Ok(Absent) ==> NoneShares(rs, e)
    ensures |rs| > MAX_MANAGED_CREDENTIALS_PER_RP ==> r == Err(Protocol)
    ensures |rs| <= MAX_MANAGED_CREDENTIALS_PER_RP && (forall i | 0 <= i < |rs| :: rs[i].WellFormed()) ==> r == Verdict(rs, e)
  {
    if |rs| > MAX_MANAGED_CREDENTIALS_PER_RP {
      return Err(Protocol);
    }
    var found := false;
    ghost var at := 0;
    for index := 0 to |rs|
      invariant !found ==> forall j | 0 <= j < index :: !e.SharesAnId(rs[j])
      invariant found ==> 0 <= at < index && e.Exactly(rs[at]) && forall j | 0 <= j < index && j != at :: !e.SharesAnId(rs[j])
    {
      var credential := rs[index];
      if |credential.credentialId| == 0 || |credential.credentialId| > MAX_CREDENTIAL_ID_BYTES {
        return Err(Protocol);
      }
      if |credential.userId| == 0 || |credential.userId| > MAX_USER_ID_BYTES {
        return Err(Protocol);
      }
      var matches :- ManagedIdentityMatches(credential, e);
      if matches {
        if |credential.publicKey| == 0 || |credential.publicKey| > ES256_PUBLIC_KEY_BYTES {
          return Err(Protocol);
        }
        var protectionMatches := e.protection.None? || credential.protection == e.protection.value.Code();
        if found || credential.keyType != COSE_ES256 || !protectionMatches || credential.publicKey != e.publicKey {
          return Err(CredentialMismatch);
        }
        found, at := true, index;
      }
    }
    return Ok(if found then Present else Absent);
  }

  // ----- the order of the list does not matter -----

  function Others<T>(xs: seq<T>, i: nat): seq<T>
    requires i < |xs|
  {
    xs[..i] + xs[i + 1..]
  }

  lemma OthersAre<T>(xs: seq<T>, i: nat)
    requires i < |xs|
    ensures multiset(xs) == multiset(Others(xs, i)) + multiset{xs[i]}
  {
    assert xs == xs[..i] + [xs[i]] + xs[i + 1..];
  }

  lemma OtherPositions(rs: seq<Resident>, i: nat, e: Expectation)
    requires i < |rs|
    ensures (forall j | 0 <= j < |rs| && j != i :: !e.SharesAnId(rs[j])) <==> NoneShares(Others(rs, i), e)
  {
    var others := Others(rs, i);
    hide Expectation.SharesAnId;
    if forall j | 0 <= j < |rs| && j != i :: !e.SharesAnId(rs[j]) {
      forall k | 0 <= k < |others|
        ensures !e.SharesAnId(others[k])
      {
        var j := if k < i then k else k + 1;
        assert others[k] == rs[j];
      }
    }
    if NoneShares(others, e) {
      forall j | 0 <= j < |rs| && j != i
        ensures !e.SharesAnId(rs[j])
      {
        var k := if j < i then j else j - 1;
        assert others[k] == rs[j];
      }
    }
  }

  ghost predicate OnlySharing(ms: multiset<Resident>, x: Resident, e: Expectation)
  {
    ms[x] == 1 && forall y | y in ms && y != x :: !e.SharesAnId(y)
  }

  /** The record at `i` is the only one that shares an id, told with and without positions. */
  lemma OnlyAt(rs: seq<Resident>, i: nat, e: Expectation)
    requires i < |rs| && e.Exactly(rs[i])
    ensures (forall j | 0 <= j < |rs| && j != i :: !e.SharesAnId(rs[j])) <==> OnlySharing(multiset(rs), rs[i], e)
  {
    var x, others := rs[i], Others(rs, i);
    OthersAre(rs, i);
    OtherPositions(rs, i, e);
    ExactShares(x, e);
    AbsenceByCount(others, e);
    hide Others, NoneShares, Expectation.Exactly, Expectation.SharesAnId;
    if NoneShares(others, e) {
      assert x !in multiset(others);
    }
    if OnlySharing(multiset(rs), x, e) {
      forall y | y in multiset(others)
        ensures !e.SharesAnId(y)
      {
        assert multiset(rs)[y] == multiset(others)[y] + multiset{x}[y];
      }
    }
  }

  lemma ExactShares(x: Resident, e: Expectation)
    ensures e.Exactly(x) ==> e.SharesAnId(x)
  {
  }

  lemma OneExactByCount(rs: seq<Resident>, e: Expectation)
    ensures OneExact(rs, e) <==> exists x | x in multiset(rs) :: e.Exactly(x) && OnlySharing(multiset(rs), x, e)
  {
    hide OnlySharing, Expectation.Exactly, Expectation.SharesAnId;
    if OneExact(rs, e) {
      var i :| 0 <= i < |rs| && e.Exactly(rs[i]) && forall j | 0 <= j < |rs| && j != i :: !e.SharesAnId(rs[j]);
      OnlyAt(rs, i, e);
      assert rs[i] in multiset(rs);
    }
    if x :| x in multiset(rs) && e.Exactly(x) && OnlySharing(multiset(rs), x, e) {
      var i :| 0 <= i < |rs| && rs[i] == x;
      OnlyAt(rs, i, e);
    }
  }

  lemma VerdictIgnoresOrder(rs: seq<Resident>, ss: seq<Resident>, e: Expectation)
    requires multiset(rs) == multiset(ss)
    ensures Verdict(rs, e) == Verdict(ss, e)
  {
    OneExactByCount(rs, e);
    OneExactByCount(ss, e);
    AbsenceByCount(rs, e);
    AbsenceByCount(ss, e);
  }

  lemma AbsenceByCount(rs: seq<Resident>, e: Expectation)
    ensures NoneShares(rs, e) <==> forall x | x in multiset(rs) :: !e.SharesAnId(x)
  {
    forall i | 0 <= i < |rs|
      ensures rs[i] in multiset(rs)
    {
    }
  }
}
