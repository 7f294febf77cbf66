/** The envelope format: records, their encoding, and the strict decoder. */
module Envelopes {
  import opened Wrappers
  import opened Errors
  import opened Bytes
  import opened Cbor
  import opened Identity
  import opened Policy

  const MAGIC: Bytes := [0x46, 0x4b, 0x57, 0x00]
  const FORMAT_VERSION := 1
  const MAX_ENVELOPE_SIZE := 65_536
  const MAX_RECIPIENTS := 32
  const MAX_CREDENTIAL_ID := 1_024

  const PASSPHRASE_SUITE: byte := 1
  const FIDO_SUITE: byte := 2
  const FIDO_AND_PASSPHRASE_SUITE: byte := 3
  const RECOVERY_SECRET_SUITE: byte := 4
  const MANAGED_FIDO_SUITE: byte := 5
  const FIDO_AND_LOCAL_SECRET_SUITE: byte := 6
  const ARGON2ID_KDF: byte := 1

  datatype KdfDescriptor = KdfDescriptor(parameters: PassphraseParameters, salt: Bytes16)

  /** One route to the envelope root. The label is called `caption` here. */
  datatype RecipientRecord =
    | Passphrase(id: RecipientId, caption: Bytes, kdf: KdfDescriptor,
                 passphraseNonce: Bytes12, wrappedRoot: Bytes48)
    | RecoverySecret(id: RecipientId, caption: Bytes, recoveryNonce: Bytes12, wrappedRoot: Bytes48)
    | Fido(id: RecipientId, caption: Bytes, credentialId: Bytes, publicKey: Bytes64, policy: FidoPolicy,
           storage: FidoStorage, prfNonce: Bytes32, fidoNonce: Bytes12, wrappedRoot: Bytes48)
    | FidoAndPassphrase(id: RecipientId, caption: Bytes, credentialId: Bytes, publicKey: Bytes64,
                        policy: FidoPolicy, prfNonce: Bytes32, fidoNonce: Bytes12, kdf: KdfDescriptor,
                        passphraseNonce: Bytes12, combinedRoot: Bytes64)
    | FidoAndLocalSecret(id: RecipientId, caption: Bytes, credentialId: Bytes, publicKey: Bytes64,
                         prfNonce: Bytes32, wrapNonce: Bytes12, wrappedRoot: Bytes48)
  {
    predicate UsesPassphrase() {
      Passphrase? || FidoAndPassphrase?
    }

    predicate UsesCredential() {
      Fido? || FidoAndPassphrase? || FidoAndLocalSecret?
    }

    predicate IsManaged() {
      Fido? && storage == Managed
    }

    function Suite(): byte {
      match this
      case Passphrase(_, _, _, _, _) => PASSPHRASE_SUITE
      case RecoverySecret(_, _, _, _) => RECOVERY_SECRET_SUITE
      case Fido(_, _, _, _, _, storage, _, _, _) => if storage == Managed then MANAGED_FIDO_SUITE else FIDO_SUITE
      case FidoAndPassphrase(_, _, _, _, _, _, _, _, _, _) => FIDO_AND_PASSPHRASE_SUITE
      case FidoAndLocalSecret(_, _, _, _, _, _, _) => FIDO_AND_LOCAL_SECRET_SUITE
    }

    /** What the decoder demands of one record; `onCurve` is the P-256 point check. */
    ghost predicate Valid(onCurve: Bytes -> bool) {
      && LabelValid(caption)
      && (UsesPassphrase() ==> kdf.parameters.Valid())
      && (UsesCredential() ==> 1 <= |credentialId| <= MAX_CREDENTIAL_ID && onCurve(publicKey))
    }
  }

  datatype Envelope = Envelope(applicationId: Bytes, envelopeId: Bytes32, recipients: seq<RecipientRecord>, mac: Bytes32)

  // ----- the set of recipients -----

  ghost predicate Ascending(rs: seq<RecipientRecord>)
  {
    forall i, j | 0 <= i < j < |rs| :: Rank(rs[i].id) < Rank(rs[j].id)
  }

  /** Two records that may not stand in one envelope: same credential, or same salt. */
  predicate Clash(a: RecipientRecord, b: RecipientRecord)
  {
    || (a.UsesCredential() && b.UsesCredential() && a.credentialId == b.credentialId)
    || (a.UsesPassphrase() && b.UsesPassphrase() && a.kdf.salt == b.kdf.salt)
  }

  ghost predicate NoClash(rs: seq<RecipientRecord>)
  {
    forall i, j | 0 <= i < j < |rs| :: !Clash(rs[i], rs[j])
  }

  ghost predicate SetValid(rs: seq<RecipientRecord>)
  {
    Ascending(rs) && NoClash(rs)
  }

  /** An envelope in the making: everything but the presence of a recipient. */
  ghost predicate WellFormed(e: Envelope, onCurve: Bytes -> bool)
  {
    && DnsShaped(e.applicationId)
    && |e.recipients| <= MAX_RECIPIENTS
    && (forall i | 0 <= i < |e.recipients| :: e.recipients[i].Valid(onCurve))
    && SetValid(e.recipients)
  }

  ghost predicate Valid(e: Envelope, onCurve: Bytes -> bool)
  {
    WellFormed(e, onCurve) && e.recipients != []
  }

  method ValidateRecipientSet(rs: seq<RecipientRecord>) returns (ok: bool)
    ensures ok <==> SetValid(rs)
  {
    var i := 0;
    while i + 1 < |rs|
      invariant 0 <= i && (rs != [] ==> i < |rs|)
      invariant forall j, k | 0 <= j < k <= i && k < |rs| :: Rank(rs[j].id) < Rank(rs[k].id)
    {
      LessIsRank(rs[i].id, rs[i + 1].id);
      if !Less(rs[i].id, rs[i + 1].id) {
        assert Rank(rs[i].id) >= Rank(rs[i + 1].id);
        return false;
      }
      i := i + 1;
    }
    i := 0;
    while i < |rs|
      invariant 0 <= i <= |rs|
      invariant forall j, k | 0 <= j < i && j < k < |rs| :: !Clash(rs[j], rs[k])
    {
      var k := i + 1;
      while k < |rs|
        invariant i < k <= |rs|
        invariant forall m | i < m < k :: !Clash(rs[i], rs[m])
      {
        if Clash(rs[i], rs[k]) {
          return false;
        }
        k := k + 1;
      }
      i := i + 1;
    }
    return true;
  }

  /** Position of a recipient in an ascending list, by bisection on byte order. */
  method Find(rs: seq<RecipientRecord>, id: RecipientId) returns (r: Outcome<nat>)
    requires Ascending(rs)
    ensures r.Ok? ==> r.value < |rs| && rs[r.value].id == id
    ensures r.Err? ==> r.error == RecipientNotFound && forall i | 0 <= i < |rs| :: rs[i].id != id
  {
    var low, high := 0, |rs|;
    while low < high
      invariant 0 <= low <= high <= |rs|
      invariant forall i | 0 <= i < low :: Rank(rs[i].id) < Rank(id)
      invariant forall i | high <= i < |rs| :: Rank(id) < Rank(rs[i].id)
    {
      var middle := (low + high) / 2;
      LessIsRank(rs[middle].id, id);
      RanksDiffer(rs[middle].id, id);
      if rs[middle].id == id {
        return Ok(middle);
      } else if Less(rs[middle].id, id) {
        low := middle + 1;
      } else {
        high := middle;
      }
    }
    return Err(RecipientNotFound);
  }

  // ----- what is written -----

  function KdfItems(kdf: KdfDescriptor): seq<Item>
  {
    [Array(5), UInt(ARGON2ID_KDF), UInt(kdf.parameters.memoryKib), UInt(kdf.parameters.passes),
     UInt(kdf.parameters.lanes), Blob(kdf.salt)]
  }

  function PassphraseItems(r: RecipientRecord): (items: seq<Item>)
    requires r.Passphrase?
    ensures |items| == 12
  {
    [Array(6), UInt(PASSPHRASE_SUITE), Blob(r.id), Text(r.caption)] + KdfItems(r.kdf)
    + [Blob(r.passphraseNonce), Blob(r.wrappedRoot)]
  }

  function RecoverySecretItems(r: RecipientRecord): (items: seq<Item>)
    requires r.RecoverySecret?
    ensures |items| == 6
  {
    [Array(5), UInt(RECOVERY_SECRET_SUITE), Blob(r.id), Text(r.caption), Blob(r.recoveryNonce), Blob(r.wrappedRoot)]
  }

  function FidoItems(r: RecipientRecord): (items: seq<Item>)
    requires r.Fido?
    ensures |items| == 10
  {
    [Array(9), UInt(if r.storage == NonDiscoverable then FIDO_SUITE else MANAGED_FIDO_SUITE), Blob(r.id), Text(r.caption),
     Blob(r.credentialId), Blob(r.publicKey), UInt(r.policy.Code()), Blob(r.prfNonce), Blob(r.fidoNonce),
     Blob(r.wrappedRoot)]
  }

  function FidoAndPassphraseItems(r: RecipientRecord): (items: seq<Item>)
    requires r.FidoAndPassphrase?
    ensures |items| == 17
  {
    [Array(11), UInt(FIDO_AND_PASSPHRASE_SUITE), Blob(r.id), Text(r.caption), Blob(r.credentialId), Blob(r.publicKey),
     UInt(r.policy.Code()), Blob(r.prfNonce), Blob(r.fidoNonce)] + KdfItems(r.kdf)
    + [Blob(r.passphraseNonce), Blob(r.combinedRoot)]
  }

  function FidoAndLocalSecretItems(r: RecipientRecord): (items: seq<Item>)
    requires r.FidoAndLocalSecret?
    ensures |items| == 9
  {
    [Array(8), UInt(FIDO_AND_LOCAL_SECRET_SUITE), Blob(r.id), Text(r.caption), Blob(r.credentialId), Blob(r.publicKey),
     Blob(r.prfNonce), Blob(r.wrapNonce), Blob(r.wrappedRoot)]
  }

  function RecordItems(r: RecipientRecord): (items: seq<Item>)
  {
    match r
    case Passphrase(_, _, _, _, _) => PassphraseItems(r)
    case RecoverySecret(_, _, _, _) => RecoverySecretItems(r)
    case Fido(_, _, _, _, _, _, _, _, _) => FidoItems(r)
    case FidoAndPassphrase(_, _, _, _, _, _, _, _, _, _) => FidoAndPassphraseItems(r)
    case FidoAndLocalSecret(_, _, _, _, _, _, _) => FidoAndLocalSecretItems(r)
  }

  function ArrayLengthOf(r: RecipientRecord): nat
  {
    match r
    case Passphrase(_, _, _, _, _) => 6
    case RecoverySecret(_, _, _, _) => 5
    case Fido(_, _, _, _, _, _, _, _, _) => 9
    case FidoAndPassphrase(_, _, _, _, _, _, _, _, _, _) => 11
    case FidoAndLocalSecret(_, _, _, _, _, _, _) => 8
  }

  function RecordGroups(rs: seq<RecipientRecord>): (groups: seq<seq<Item>>)
    ensures |groups| == |rs|
  {
    seq(|rs|, i requires 0 <= i < |rs| => RecordItems(rs[i]))
  }

  function BodyItems(e: Envelope): seq<Item>
  {
    [UInt(FORMAT_VERSION), Text(e.applicationId), Blob(e.envelopeId), Array(|e.recipients|)] + Flatten(RecordGroups(e.recipients))
  }

  function EnvelopeItems(e: Envelope): seq<Item>
  {
    [Array(5)] + BodyItems(e) + [Blob(e.mac)]
  }

  /** The wire form of an envelope. */
  function Encoded(e: Envelope): Bytes
  {
    MAGIC + EncodeItems(EnvelopeItems(e))
  }

  /** What the envelope MAC authenticates. */
  function CanonicalBody(e: Envelope): Bytes
  {
    EncodeItems([Array(4)] + BodyItems(e))
  }

  method EncodeKdf(encoder: Encoder, kdf: KdfDescriptor)
    requires encoder.Valid()
    modifies encoder
    ensures encoder.Valid() && encoder.written == old(encoder.written) + KdfItems(kdf)
  {
    hide EncodeItems;
    encoder.Put(Array(5));
    encoder.Put(UInt(ARGON2ID_KDF));
    encoder.Put(UInt(kdf.parameters.memoryKib));
    encoder.Put(UInt(kdf.parameters.passes));
    encoder.Put(UInt(kdf.parameters.lanes));
    encoder.Put(Blob(kdf.salt));
  }

  method EncodeHeader(encoder: Encoder, length: nat, suite: byte, id: RecipientId, caption: Bytes)
    requires encoder.Valid()
    modifies encoder
    ensures encoder.Valid()
    ensures encoder.written == old(encoder.written) + [Array(length), UInt(suite), Blob(id), Text(caption)]
  {
    hide EncodeItems;
    encoder.Put(Array(length));
    encoder.Put(UInt(suite));
    encoder.Put(Blob(id));
    encoder.Put(Text(caption));
  }

  method EncodePassphrase(encoder: Encoder, r: RecipientRecord)
    requires encoder.Valid() && r.Passphrase?
    modifies encoder
    ensures encoder.Valid() && encoder.written == old(encoder.written) + PassphraseItems(r)
  {
    hide EncodeItems;
    EncodeHeader(encoder, 6, PASSPHRASE_SUITE, r.id, r.caption);
    EncodeKdf(encoder, r.kdf);
    encoder.Put(Blob(r.passphraseNonce));
    encoder.Put(Blob(r.wrappedRoot));
  }

  method EncodeRecoverySecret(encoder: Encoder, r: RecipientRecord)
    requires encoder.Valid() && r.RecoverySecret?
    modifies encoder
    ensures encoder.Valid() && encoder.written == old(encoder.written) + RecoverySecretItems(r)
  {
    hide EncodeItems;
    EncodeHeader(encoder, 5, RECOVERY_SECRET_SUITE, r.id, r.caption);
    encoder.Put(Blob(r.recoveryNonce));
    encoder.Put(Blob(r.wrappedRoot));
  }

  method EncodeFido(encoder: Encoder, r: RecipientRecord)
    requires encoder.Valid() && r.Fido?
    modifies encoder
    ensures encoder.Valid() && encoder.written == old(encoder.written) + FidoItems(r)
  {
    hide EncodeItems;
    var suite := if r.storage == NonDiscoverable then FIDO_SUITE else MANAGED_FIDO_SUITE;
    EncodeHeader(encoder, 9, suite, r.id, r.caption);
    encoder.Put(Blob(r.credentialId));
    encoder.Put(Blob(r.publicKey));
    encoder.Put(UInt(r.policy.Code()));
    encoder.Put(Blob(r.prfNonce));
    encoder.Put(Blob(r.fidoNonce));
    encoder.Put(Blob(r.wrappedRoot));
  }

  method EncodeFidoAndPassphrase(encoder: Encoder, r: RecipientRecord)
    requires encoder.Valid() && r.FidoAndPassphrase?
    modifies encoder
    ensures encoder.Valid() && encoder.written == old(encoder.written) + FidoAndPassphraseItems(r)
  {
    hide EncodeItems;
    EncodeHeader(encoder, 11, FIDO_AND_PASSPHRASE_SUITE, r.id, r.caption);
    encoder.Put(Blob(r.credentialId));
    encoder.Put(Blob(r.publicKey));
    encoder.Put(UInt(r.policy.Code()));
    encoder.Put(Blob(r.prfNonce));
    encoder.Put(Blob(r.fidoNonce));
    EncodeKdf(encoder, r.kdf);
    encoder.Put(Blob(r.passphraseNonce));
    encoder.Put(Blob(r.combinedRoot));
  }

  method EncodeFidoAndLocalSecret(encoder: Encoder, r: RecipientRecord)
    requires encoder.Valid() && r.FidoAndLocalSecret?
    modifies encoder
    ensures encoder.Valid() && encoder.written == old(encoder.written) + FidoAndLocalSecretItems(r)
  {
    hide EncodeItems;
    EncodeHeader(encoder, 8, FIDO_AND_LOCAL_SECRET_SUITE, r.id, r.caption);
    encoder.Put(Blob(r.credentialId));
    encoder.Put(Blob(r.publicKey));
    encoder.Put(Blob(r.prfNonce));
    encoder.Put(Blob(r.wrapNonce));
    encoder.Put(Blob(r.wrappedRoot));
  }

  method EncodeRecipient(encoder: Encoder, r: RecipientRecord)
    requires encoder.Valid()
    modifies encoder
    ensures encoder.Valid() && encoder.written == old(encoder.written) + RecordItems(r)
  {
    hide PassphraseItems, RecoverySecretItems, FidoItems, FidoAndPassphraseItems, FidoAndLocalSecretItems;
    match r
    case Passphrase(_, _, _, _, _) => EncodePassphrase(encoder, r);
    case RecoverySecret(_, _, _, _) => EncodeRecoverySecret(encoder, r);
    case Fido(_, _, _, _, _, _, _, _, _) => EncodeFido(encoder, r);
    case FidoAndPassphrase(_, _, _, _, _, _, _, _, _, _) => EncodeFidoAndPassphrase(encoder, r);
    case FidoAndLocalSecret(_, _, _, _, _, _, _) => EncodeFidoAndLocalSecret(encoder, r);
  }

  method EncodeBodyFields(encoder: Encoder, e: Envelope)
    requires encoder.Valid()
    modifies encoder
    ensures encoder.Valid() && encoder.written == old(encoder.written) + BodyItems(e)
  {
    hide RecordItems, EncodeItems;
    encoder.Put(UInt(FORMAT_VERSION));
    encoder.Put(Text(e.applicationId));
    encoder.Put(Blob(e.envelopeId));
    encoder.Put(Array(|e.recipients|));
    ghost var front, groups := encoder.written, RecordGroups(e.recipients);
    for i := 0 to |e.recipients|
      invariant encoder.Valid() && encoder.written == front + Flatten(groups[..i])
    {
      FlattenConcat(groups[..i], [groups[i]]);
      assert groups[..i + 1] == groups[..i] + [groups[i]];
      assert Flatten([groups[i]]) == groups[i];
      EncodeRecipient(encoder, e.recipients[i]);
    }
    assert groups[..|e.recipients|] == groups;
  }

  method Encode(e: Envelope) returns (output: Bytes)
    ensures output == Encoded(e)
  {
    var encoder := new Encoder();
    encoder.Put(Array(5));
    EncodeBodyFields(encoder, e);
    encoder.Put(Blob(e.mac));
    assert encoder.written == EnvelopeItems(e);
    output := MAGIC;
    output := output + encoder.output;
  }

  method EncodeCanonicalBody(e: Envelope) returns (output: Bytes)
    ensures output == CanonicalBody(e)
  {
    var encoder := new Encoder();
    encoder.Put(Array(4));
    EncodeBodyFields(encoder, e);
    assert encoder.written == [Array(4)] + BodyItems(e);
    output := encoder.output;
  }

  // ----- what is read -----

  /**
   `xs` stands in `items` from `k` on: the hint under which the reading methods
   below must succeed. It plays no part in what they compute.
   */
  ghost predicate StandsAt(xs: seq<Item>, items: seq<Item>, k: nat)
  {
    k + |xs| <= |items| && forall j | 0 <= j < |xs| :: xs[j] == items[k + j]
  }

  ghost predicate KdfAt(items: seq<Item>, k: nat, kdf: KdfDescriptor)
  {
    && k + 6 <= |items|
    && items[k] == Array(5) && items[k + 1] == UInt(ARGON2ID_KDF)
    && items[k + 2] == UInt(kdf.parameters.memoryKib) && items[k + 3] == UInt(kdf.parameters.passes)
    && items[k + 4] == UInt(kdf.parameters.lanes) && items[k + 5] == Blob(kdf.salt)
  }

  ghost predicate PassphraseAt(items: seq<Item>, k: nat, r: RecipientRecord)
    requires r.Passphrase?
  {
    && k + 12 <= |items|
    && items[k + 2] == Blob(r.id) && items[k + 3] == Text(r.caption) && KdfAt(items, k + 4, r.kdf)
    && items[k + 10] == Blob(r.passphraseNonce) && items[k + 11] == Blob(r.wrappedRoot)
  }

  ghost predicate RecoverySecretAt(items: seq<Item>, k: nat, r: RecipientRecord)
    requires r.RecoverySecret?
  {
    && k + 6 <= |items|
    && items[k + 2] == Blob(r.id) && items[k + 3] == Text(r.caption)
    && items[k + 4] == Blob(r.recoveryNonce) && items[k + 5] == Blob(r.wrappedRoot)
  }

  ghost predicate FidoFieldsAt(items: seq<Item>, k: nat, r: RecipientRecord)
    requires r.Fido? || r.FidoAndPassphrase?
  {
    && k + 7 <= |items|
    && items[k] == Blob(r.id) && items[k + 1] == Text(r.caption)
    && items[k + 2] == Blob(r.credentialId) && items[k + 3] == Blob(r.publicKey)
    && items[k + 4] == UInt(r.policy.Code()) && items[k + 5] == Blob(r.prfNonce) && items[k + 6] == Blob(r.fidoNonce)
  }

  ghost predicate FidoAt(items: seq<Item>, k: nat, r: RecipientRecord)
    requires r.Fido?
  {
    k + 10 <= |items| && FidoFieldsAt(items, k + 2, r) && items[k + 9] == Blob(r.wrappedRoot)
  }

  ghost predicate FidoAndPassphraseAt(items: seq<Item>, k: nat, r: RecipientRecord)
    requires r.FidoAndPassphrase?
  {
    && k + 17 <= |items|
    && FidoFieldsAt(items, k + 2, r) && KdfAt(items, k + 9, r.kdf)
    && items[k + 15] == Blob(r.passphraseNonce) && items[k + 16] == Blob(r.combinedRoot)
  }

  ghost predicate FidoAndLocalSecretAt(items: seq<Item>, k: nat, r: RecipientRecord)
    requires r.FidoAndLocalSecret?
  {
    && k + 9 <= |items|
    && items[k + 2] == Blob(r.id) && items[k + 3] == Text(r.caption)
    && items[k + 4] == Blob(r.credentialId) && items[k + 5] == Blob(r.publicKey)
    && items[k + 6] == Blob(r.prfNonce) && items[k + 7] == Blob(r.wrapNonce)
    && items[k + 8] == Blob(r.wrappedRoot)
  }

  /** Where each item of a record stands, and which head and suite code announce it. */
  lemma RecordAt(items: seq<Item>, k: nat, r: RecipientRecord)
    requires StandsAt(RecordItems(r), items, k)
    ensures k + 2 < |items| && items[k] == Array(ArrayLengthOf(r)) && items[k + 1] == UInt(r.Suite())
    ensures r.Passphrase? ==> PassphraseAt(items, k, r) && |RecordItems(r)| == 12
    ensures r.RecoverySecret? ==> RecoverySecretAt(items, k, r) && |RecordItems(r)| == 6
    ensures r.Fido? ==> FidoAt(items, k, r) && |RecordItems(r)| == 10
    ensures r.FidoAndPassphrase? ==> FidoAndPassphraseAt(items, k, r) && |RecordItems(r)| == 17
    ensures r.FidoAndLocalSecret? ==> FidoAndLocalSecretAt(items, k, r) && |RecordItems(r)| == 9
  {
    hide KdfAt;
    var xs := RecordItems(r);
    assert xs[0] == items[k] && xs[1] == items[k + 1];
    if r.UsesPassphrase() {
      KdfStands(items, k, r);
    }
    if r.Passphrase? {
      assert xs[2] == items[k + 2] && xs[3] == items[k + 3] && xs[10] == items[k + 10] &&
             xs[11] == items[k + 11];
    } else if r.RecoverySecret? {
      assert xs[2] == items[k + 2] && xs[3] == items[k + 3] && xs[4] == items[k + 4] &&
             xs[5] == items[k + 5];
    } else if r.Fido? {
      assert xs[2] == items[k + 2] && xs[3] == items[k + 3] && xs[4] == items[k + 4] &&
             xs[5] == items[k + 5] && xs[6] == items[k + 6] && xs[7] == items[k + 7] &&
             xs[8] == items[k + 8] && xs[9] == items[k + 9];
    } else if r.FidoAndPassphrase? {
      assert xs[2] == items[k + 2] && xs[3] == items[k + 3] && xs[4] == items[k + 4] &&
             xs[5] == items[k + 5] && xs[6] == items[k + 6] && xs[7] == items[k + 7] &&
             xs[8] == items[k + 8] && xs[15] == items[k + 15] && xs[16] == items[k + 16];
    } else if r.FidoAndLocalSecret? {
      assert xs[2] == items[k + 2] && xs[3] == items[k + 3] && xs[4] == items[k + 4] &&
             xs[5] == items[k + 5] && xs[6] == items[k + 6] && xs[7] == items[k + 7] &&
             xs[8] == items[k + 8];
    }
  }

  lemma KdfStands(items: seq<Item>, k: nat, r: RecipientRecord)
    requires StandsAt(RecordItems(r), items, k) && r.UsesPassphrase()
    ensures KdfAt(items, if r.Passphrase? then k + 4 else k + 9, r.kdf)
  {
    var xs, n := RecordItems(r), if r.Passphrase? then 4 else 9;
    assert xs[n] == items[k + n] && xs[n + 1] == items[k + n + 1] && xs[n + 2] == items[k + n + 2] &&
           xs[n + 3] == items[k + n + 3] && xs[n + 4] == items[k + n + 4] && xs[n + 5] == items[k + n + 5];
  }

  /** The fields that both suites with a recorded security-key policy begin with. */
  datatype FidoFields = FidoFields(id: RecipientId, caption: Bytes, credentialId: Bytes, publicKey: Bytes64,
                                   policy: FidoPolicy, prfNonce: Bytes32, fidoNonce: Bytes12)

  class RecordReader {
    const onCurve: Bytes -> bool
    const decoder: Decoder

    constructor (decoder: Decoder, onCurve: Bytes -> bool)
      ensures this.decoder == decoder && this.onCurve == onCurve
    {
      this.decoder := decoder;
      this.onCurve := onCurve;
    }

    method ExactBytes(n: nat, ghost items: seq<Item>, ghost k: nat) returns (r: Outcome<Bytes>)
      requires decoder.Valid()
      modifies decoder`position
      ensures decoder.Valid()
      ensures r.Ok? ==> |r.value| == n
      ensures r.Err? ==> r.error == InvalidEnvelope
      ensures old(decoder.Facing(items, k)) && k < |items| && items[k].Blob? && |items[k].bytes| == n
              ==> r == Ok(items[k].bytes) && decoder.Facing(items, k + 1)
    {
      var s := decoder.String(BYTES, items, k);
      if s.None? || |s.value| != n {
        return Err(InvalidEnvelope);
      }
      return Ok(s.value);
    }

    method Code(ghost items: seq<Item>, ghost k: nat) returns (r: Outcome<nat>)
      requires decoder.Valid()
      modifies decoder`position
      ensures decoder.Valid()
      ensures r.Ok? ==> r.value < 256
      ensures r.Err? ==> r.error == InvalidEnvelope
      ensures old(decoder.Facing(items, k)) && k < |items| && items[k].UInt? && items[k].n < 256
              ==> r == Ok(items[k].n) && decoder.Facing(items, k + 1)
    {
      var n := decoder.UInt(255, items, k);
      return if n.Some? then Ok(n.value) else Err(InvalidEnvelope);
    }

    method ReadLabel(ghost items: seq<Item>, ghost k: nat) returns (r: Outcome<Bytes>)
      requires decoder.Valid()
      modifies decoder`position
      ensures decoder.Valid()
      ensures r.Ok? ==> LabelValid(r.value)
      ensures r.Err? ==> r.error == InvalidEnvelope
      ensures old(decoder.Facing(items, k)) && k < |items| && items[k].Text? && LabelValid(items[k].text)
              ==> r == Ok(items[k].text) && decoder.Facing(items, k + 1)
    {
      var s := decoder.String(TEXT, items, k);
      if s.None? || !LabelValid(s.value) {
        return Err(InvalidEnvelope);
      }
      return Ok(s.value);
    }

    method ReadCredentialId(ghost items: seq<Item>, ghost k: nat) returns (r: Outcome<Bytes>)
      requires decoder.Valid()
      modifies decoder`position
      ensures decoder.Valid()
      ensures r.Ok? ==> 1 <= |r.value| <= MAX_CREDENTIAL_ID
      ensures r.Err? ==> r.error == InvalidEnvelope
      ensures old(decoder.Facing(items, k)) && k < |items| && items[k].Blob? && 1 <= |items[k].bytes| <= MAX_CREDENTIAL_ID
              ==> r == Ok(items[k].bytes) && decoder.Facing(items, k + 1)
    {
      var s := decoder.String(BYTES, items, k);
      if s.None? || s.value == [] || |s.value| > MAX_CREDENTIAL_ID {
        return Err(InvalidEnvelope);
      }
      return Ok(s.value);
    }

    method ReadPublicKey(ghost items: seq<Item>, ghost k: nat) returns (r: Outcome<Bytes>)
      requires decoder.Valid()
      modifies decoder`position
      ensures decoder.Valid()
      ensures r.Ok? ==> |r.value| == 64 && onCurve(r.value)
      ensures r.Err? ==> r.error == InvalidEnvelope
      ensures old(decoder.Facing(items, k)) && k < |items| && items[k].Blob? && |items[k].bytes| == 64 && onCurve(items[k].bytes)
              ==> r == Ok(items[k].bytes) && decoder.Facing(items, k + 1)
    {
      var key :- ExactBytes(64, items, k);
      return if onCurve(key) then Ok(key) else Err(InvalidEnvelope);
    }

    method ReadPolicy(ghost items: seq<Item>, ghost k: nat) returns (r: Outcome<FidoPolicy>)
      requires decoder.Valid()
      modifies decoder`position
      ensures decoder.Valid()
      ensures r.Err? ==> r.error == InvalidEnvelope
      ensures forall p: FidoPolicy ::
              (old(decoder.Facing(items, k)) && k < |items| && items[k] == UInt(p.Code())
              ==> r == Ok(p) && decoder.Facing(items, k + 1))
    {
      var code :- Code(items, k);
      var policy := FidoPolicy.FromCode(code);
      return if policy.Some? then Ok(policy.value) else Err(InvalidEnvelope);
    }

    method ReadKdf(ghost items: seq<Item>, ghost k: nat, ghost want: Option<KdfDescriptor>) returns (r: Outcome<KdfDescriptor>)
      requires decoder.Valid()
      modifies decoder`position
      ensures decoder.Valid()
      ensures r.Ok? ==> r.value.parameters.Valid()
      ensures r.Err? ==> r.error == InvalidEnvelope
      ensures want.Some? && want.value.parameters.Valid() && old(decoder.Facing(items, k)) && KdfAt(items, k, want.value)
              ==> r == Ok(want.value) && decoder.Facing(items, k + 6)
    {
      var length := decoder.ArrayLength(items, k);
      if length != Some(5) {
        return Err(InvalidEnvelope);
      }
      var code :- Code(items, k + 1);
      if code != ARGON2ID_KDF {
        return Err(InvalidEnvelope);
      }
      var memory := decoder.UInt(U32_END - 1, items, k + 2);
      if memory.None? {
        return Err(InvalidEnvelope);
      }
      var passes := decoder.UInt(U32_END - 1, items, k + 3);
      if passes.None? {
        return Err(InvalidEnvelope);
      }
      var lanes :- Code(items, k + 4);
      var parameters := PassphraseParameters(memory.value, passes.value, lanes);
      if !parameters.Valid() {
        return Err(InvalidEnvelope);
      }
      var salt :- ExactBytes(16, items, k + 5);
      return Ok(KdfDescriptor(parameters, salt));
    }

    method ReadPassphrase(ghost items: seq<Item>, ghost k: nat, ghost want: Option<RecipientRecord>)
      returns (r: Outcome<RecipientRecord>)
      requires decoder.Valid()
      modifies decoder`position
      ensures decoder.Valid()
      ensures r.Ok? ==> r.value.Passphrase? && r.value.Valid(onCurve)
      ensures r.Err? ==> r.error == InvalidEnvelope
      ensures want.Some? && want.value.Passphrase? && want.value.Valid(onCurve)
              && PassphraseAt(items, k, want.value) && old(decoder.Facing(items, k + 2))
              ==> r == Ok(want.value) && decoder.Facing(items, k + 12)
    {
      hide Decoder.Facing, Decoder.Valid, KdfAt, FidoFieldsAt, LabelValid, PassphraseParameters.Valid;
      var id :- ExactBytes(32, items, k + 2);
      var caption :- ReadLabel(items, k + 3);
      var kdf :- ReadKdf(items, k + 4, if want.Some? && want.value.Passphrase? then Some(want.value.kdf) else None);
      var nonce :- ExactBytes(12, items, k + 10);
      var wrapped :- ExactBytes(48, items, k + 11);
      return Ok(Passphrase(id, caption, kdf, nonce, wrapped));
    }

    method ReadRecoverySecret(ghost items: seq<Item>, ghost k: nat, ghost want: Option<RecipientRecord>)
      returns (r: Outcome<RecipientRecord>)
      requires decoder.Valid()
      modifies decoder`position
      ensures decoder.Valid()
      ensures r.Ok? ==> r.value.RecoverySecret? && r.value.Valid(onCurve)
      ensures r.Err? ==> r.error == InvalidEnvelope
      ensures want.Some? && want.value.RecoverySecret? && want.value.Valid(onCurve)
              && RecoverySecretAt(items, k, want.value) && old(decoder.Facing(items, k + 2))
              ==> r == Ok(want.value) && decoder.Facing(items, k + 6)
    {
      hide Decoder.Facing, Decoder.Valid, KdfAt, FidoFieldsAt, LabelValid, PassphraseParameters.Valid;
      var id :- ExactBytes(32, items, k + 2);
      var caption :- ReadLabel(items, k + 3);
      var nonce :- ExactBytes(12, items, k + 4);
      var wrapped :- ExactBytes(48, items, k + 5);
      return Ok(RecoverySecret(id, caption, nonce, wrapped));
    }

    /** A credential id and its public key. */
    method ReadCredential(ghost items: seq<Item>, ghost k: nat) returns (r: Outcome<(Bytes, Bytes64)>)
      requires decoder.Valid()
      modifies decoder`position
      ensures decoder.Valid()
      ensures r.Ok? ==> 1 <= |r.value.0| <= MAX_CREDENTIAL_ID && onCurve(r.value.1)
      ensures r.Err? ==> r.error == InvalidEnvelope
      ensures old(decoder.Facing(items, k)) && k + 1 < |items| && items[k].Blob? && items[k + 1].Blob?
              && 1 <= |items[k].bytes| <= MAX_CREDENTIAL_ID && |items[k + 1].bytes| == 64 && onCurve(items[k + 1].bytes)
              ==> r == Ok((items[k].bytes, items[k + 1].bytes)) && decoder.Facing(items, k + 2)
    {
      hide Decoder.Facing, Decoder.Valid;
      var credential :- ReadCredentialId(items, k);
      var key :- ReadPublicKey(items, k + 1);
      return Ok((credential, key));
    }

    method ReadFidoFields(ghost items: seq<Item>, ghost k: nat, ghost want: Option<RecipientRecord>)
      returns (r: Outcome<FidoFields>)
      requires decoder.Valid()
      modifies decoder`position
      ensures decoder.Valid()
      ensures r.Ok?
              ==> LabelValid(r.value.caption) && 1 <= |r.value.credentialId| <= MAX_CREDENTIAL_ID && onCurve(r.value.publicKey)
      ensures r.Err? ==> r.error == InvalidEnvelope
      ensures want.Some? && (want.value.Fido? || want.value.FidoAndPassphrase?) && want.value.Valid(onCurve)
              && FidoFieldsAt(items, k, want.value) && old(decoder.Facing(items, k))
              ==> var w := want.value;
                  && r == Ok(FidoFields(w.id, w.caption, w.credentialId, w.publicKey, w.policy, w.prfNonce, w.fidoNonce))
                  && decoder.Facing(items, k + 7)
    {
      hide Decoder.Facing, Decoder.Valid, LabelValid, PassphraseParameters.Valid, FidoPolicy.Code;
      var id :- ExactBytes(32, items, k);
      var caption :- ReadLabel(items, k + 1);
      var credential :- ReadCredential(items, k + 2);
      var policy :- ReadPolicy(items, k + 4);
      var prfNonce :- ExactBytes(32, items, k + 5);
      var fidoNonce :- ExactBytes(12, items, k + 6);
      return Ok(FidoFields(id, caption, credential.0, credential.1, policy, prfNonce, fidoNonce));
    }

    method ReadFido(storage: FidoStorage, ghost items: seq<Item>, ghost k: nat, ghost want: Option<RecipientRecord>)
      returns (r: Outcome<RecipientRecord>)
      requires decoder.Valid()
      modifies decoder`position
      ensures decoder.Valid()
      ensures r.Ok? ==> r.value.Fido? && r.value.storage == storage && r.value.Valid(onCurve)
      ensures r.Err? ==> r.error == InvalidEnvelope
      ensures want.Some? && want.value.Fido? && want.value.storage == storage && want.value.Valid(onCurve)
              && FidoAt(items, k, want.value) && old(decoder.Facing(items, k + 2))
              ==> r == Ok(want.value) && decoder.Facing(items, k + 10)
    {
      hide Decoder.Facing, Decoder.Valid, KdfAt, FidoFieldsAt, LabelValid, PassphraseParameters.Valid;
      var f :- ReadFidoFields(items, k + 2, want);
      var wrapped :- ExactBytes(48, items, k + 9);
      return Ok(Fido(f.id, f.caption, f.credentialId, f.publicKey, f.policy, storage, f.prfNonce, f.fidoNonce, wrapped));
    }

    method ReadFidoAndPassphrase(ghost items: seq<Item>, ghost k: nat, ghost want: Option<RecipientRecord>)
      returns (r: Outcome<RecipientRecord>)
      requires decoder.Valid()
      modifies decoder`position
      ensures decoder.Valid()
      ensures r.Ok? ==> r.value.FidoAndPassphrase? && r.value.Valid(onCurve)
      ensures r.Err? ==> r.error == InvalidEnvelope
      ensures want.Some? && want.value.FidoAndPassphrase? && want.value.Valid(onCurve)
              && FidoAndPassphraseAt(items, k, want.value) && old(decoder.Facing(items, k + 2))
              ==> r == Ok(want.value) && decoder.Facing(items, k + 17)
    {
      hide Decoder.Facing, Decoder.Valid, KdfAt, FidoFieldsAt, LabelValid, PassphraseParameters.Valid;
      var f :- ReadFidoFields(items, k + 2, want);
      var kdf :- ReadKdf(items, k + 9, if want.Some? && want.value.FidoAndPassphrase? then Some(want.value.kdf) else None);
      var nonce :- ExactBytes(12, items, k + 15);
      var wrapped :- ExactBytes(64, items, k + 16);
      return Ok(FidoAndPassphrase(f.id, f.caption, f.credentialId, f.publicKey, f.policy, f.prfNonce, f.fidoNonce,
                                  kdf, nonce, wrapped));
    }

    /** The id and the label of a record. */
    method ReadIdentity(ghost items: seq<Item>, ghost k: nat) returns (r: Outcome<(Bytes32, Bytes)>)
      requires decoder.Valid()
      modifies decoder`position
      ensures decoder.Valid()
      ensures r.Ok? ==> LabelValid(r.value.1)
      ensures r.Err? ==> r.error == InvalidEnvelope
      ensures old(decoder.Facing(items, k)) && k + 1 < |items| && items[k].Blob? && |items[k].bytes| == 32
              && items[k + 1].Text? && LabelValid(items[k + 1].text)
              ==> r == Ok((items[k].bytes, items[k + 1].text)) && decoder.Facing(items, k + 2)
    {
      hide Decoder.Facing, Decoder.Valid, LabelValid;
      var id :- ExactBytes(32, items, k);
      var caption :- ReadLabel(items, k + 1);
      return Ok((id, caption));
    }

    method ReadFidoAndLocalSecret(ghost items: seq<Item>, ghost k: nat, ghost want: Option<RecipientRecord>)
      returns (r: Outcome<RecipientRecord>)
      requires decoder.Valid()
      modifies decoder`position
      ensures decoder.Valid()
      ensures r.Ok? ==> r.value.FidoAndLocalSecret? && r.value.Valid(onCurve)
      ensures r.Err? ==> r.error == InvalidEnvelope
      ensures want.Some? && want.value.FidoAndLocalSecret? && want.value.Valid(onCurve)
              && FidoAndLocalSecretAt(items, k, want.value) && old(decoder.Facing(items, k + 2))
              ==> r == Ok(want.value) && decoder.Facing(items, k + 9)
    {
      hide Decoder.Facing, Decoder.Valid, KdfAt, FidoFieldsAt, LabelValid, PassphraseParameters.Valid;
      var identity :- ReadIdentity(items, k + 2);
      var credential :- ReadCredential(items, k + 4);
      var prfNonce :- ExactBytes(32, items, k + 6);
      var nonce :- ExactBytes(12, items, k + 7);
      var wrapped :- ExactBytes(48, items, k + 8);
      return Ok(FidoAndLocalSecret(identity.0, identity.1, credential.0, credential.1, prfNonce, nonce, wrapped));
    }

    method ReadRecipient(ghost items: seq<Item>, ghost k: nat, ghost want: Option<RecipientRecord>)
      returns (r: Outcome<RecipientRecord>)
      requires decoder.Valid()
      modifies decoder`position
      ensures decoder.Valid()
      ensures r.Ok? ==> r.value.Valid(onCurve)
      ensures r.Err? ==> r.error == InvalidEnvelope
      ensures want.Some? && want.value.Valid(onCurve)
              && StandsAt(RecordItems(want.value), items, k) && old(decoder.Facing(items, k))
              ==> r == Ok(want.value) && decoder.Facing(items, k + |RecordItems(want.value)|)
    {
      ghost var hinted := want.Some? && StandsAt(RecordItems(want.value), items, k);
      if hinted { RecordAt(items, k, want.value); }
      hide Decoder.Facing, StandsAt, RecordItems;
      var length := decoder.ArrayLength(items, k);
      if length.None? {
        return Err(InvalidEnvelope);
      }
      var suite :- Code(items, k + 1);
      if suite == PASSPHRASE_SUITE && length == Some(6) {
        r := ReadPassphrase(items, k, want);
      } else if suite == RECOVERY_SECRET_SUITE && length == Some(5) {
        r := ReadRecoverySecret(items, k, want);
      } else if suite == FIDO_SUITE && length == Some(9) {
        r := ReadFido(NonDiscoverable, items, k, want);
      } else if suite == MANAGED_FIDO_SUITE && length == Some(9) {
        r := ReadFido(Managed, items, k, want);
      } else if suite == FIDO_AND_PASSPHRASE_SUITE && length == Some(11) {
        r := ReadFidoAndPassphrase(items, k, want);
      } else if suite == FIDO_AND_LOCAL_SECRET_SUITE && length == Some(8) {
        r := ReadFidoAndLocalSecret(items, k, want);
      } else {
        r := Err(InvalidEnvelope);
      }
    }
  }
}
