/**
 The independent generator of test vectors. For every valid record and every
 valid set of records, in whatever order they are listed, it writes the bytes
 that the Rust code writes.
 */
module Generator {
  import opened Wrappers
  import opened Bytes
  import opened Cbor
  import opened Identity
  import opened Policy
  import opened Envelopes
  import opened Transcript
  import opened Crypto
  import opened Roster
  import opened Python
  import Codec

  // ----- domains -----

  /** The constants of the generator. */
  function DomainConstant(d: Domain): string
  {
    match d
    case RecipientContext => "fido_key_wrap/format_1/recipient_context"
    case PrfInput => "fido_key_wrap/format_1/prf_input"
    case PassphraseKeyInfo => "fido_key_wrap/format_1/passphrase_key"
    case FidoKeyInfo => "fido_key_wrap/format_1/fido_key"
    case FidoLocalFidoKey => "fido_key_wrap/format_1/fido_local_fido_key"
    case FidoLocalSecretKey => "fido_key_wrap/format_1/fido_local_secret_key"
    case FidoLocalCombinedKey => "fido_key_wrap/format_1/fido_local_combined_key"
    case RecoverySecretKeyInfo => "fido_key_wrap/format_1/recovery_secret_key"
    case PassphraseAad => "fido_key_wrap/format_1/passphrase_aad"
    case FidoAad => "fido_key_wrap/format_1/fido_aad"
    case FidoLocalAad => "fido_key_wrap/format_1/fido_local_aad"
    case RecoverySecretAad => "fido_key_wrap/format_1/recovery_secret_aad"
    case CombinedPassphraseAad => "fido_key_wrap/format_1/combined_passphrase_aad"
    case CombinedFidoAad => "fido_key_wrap/format_1/combined_fido_aad"
    case EnvelopeMacKey => "fido_key_wrap/format_1/envelope_mac_key"
    case EnvelopeMac => "fido_key_wrap/format_1/envelope_mac"
  }

  lemma DomainsAgree(d: Domain)
    ensures Ascii(DomainConstant(d)) == DomainBytes(d) && |DomainBytes(d)| < U32_END
  {
    DomainsDistinct(d, d);
  }

  /** Key information and associated data of the generator: one domain and one context. */
  function Info(d: Domain, context: Bytes): Py<Bytes>
  {
    PyTranscript([Ascii(DomainConstant(d)), context])
  }

  lemma InfosAgree(d: Domain, context: Bytes32)
    ensures Info(d, context) == Ok(Tagged(d, context))
  {
    DomainsAgree(d);
    hide DomainConstant, DomainBytes, PyTranscript, Frame;
    TranscriptsAgree([DomainBytes(d), context]);
  }

  // ----- one record -----

  /** The input of the generator for one record; what a suite does not use is absent. */
  datatype RecordSpec = RecordSpec(
    suite: nat,
    recipientId: Bytes,
    caption: Bytes,
    credentialId: Option<Bytes>,
    publicKey: Option<Bytes>,
    policy: Option<nat>,
    prfNonce: Option<Bytes>,
    fidoNonce: Option<Bytes>,
    prfResult: Option<Bytes>,
    kdf: Option<PassphraseParameters>,
    salt: Option<Bytes>,
    passphraseNonce: Option<Bytes>,
    recoverySecret: Option<Bytes>,
    recoveryNonce: Option<Bytes>,
    localSecret: Option<Bytes>,
    wrapNonce: Option<Bytes>)

  /** How a record and its factors are given to the generator. */
  function SpecOf(r: RecipientRecord, f: Factors): RecordSpec
    requires Suits(r, f)
  {
    match r
    case Passphrase(id, caption, kdf, nonce, _) =>
      RecordSpec(1, id, caption, None, None, None, None, None, None, Some(kdf.parameters), Some(kdf.salt), Some(nonce),
                 None, None, None, None)
    case RecoverySecret(id, caption, nonce, _) =>
      RecordSpec(4, id, caption, None, None, None, None, None, None, None, None, None, Some(f.secret), Some(nonce), None, None)
    case Fido(id, caption, credential, key, policy, storage, prfNonce, nonce, _) =>
      RecordSpec(if storage == Managed then 5 else 2, id, caption, Some(credential), Some(key), Some(policy.Code()), Some(prfNonce),
                 Some(nonce), Some(f.prf), None, None, None, None, None, None, None)
    case FidoAndPassphrase(id, caption, credential, key, policy, prfNonce, fidoNonce, kdf, nonce, _) =>
      RecordSpec(3, id, caption, Some(credential), Some(key), Some(policy.Code()), Some(prfNonce), Some(fidoNonce), Some(f.prf),
                 Some(kdf.parameters), Some(kdf.salt), Some(nonce), None, None, None, None)
    case FidoAndLocalSecret(id, caption, credential, key, prfNonce, nonce, _) =>
      RecordSpec(6, id, caption, Some(credential), Some(key), None, Some(prfNonce), None, Some(f.prf), None, None, None,
                 None, None, Some(f.secret), Some(nonce))
  }

  /** The specification is that of a valid record; the generator has one fixed passphrase. */
  ghost predicate Describes(spec: RecordSpec, r: RecipientRecord, f: Factors, passphrase: Bytes, onCurve: Bytes -> bool)
  {
    && r.Valid(onCurve) && Suits(r, f) && spec == SpecOf(r, f)
    && (f.ByPassphrase? || f.ByFidoAndPassphrase? ==> f.passphrase == passphrase)
  }

  ghost predicate Yields(values: seq<Py<Bytes>>, xs: seq<Bytes>)
  {
    |values| == |xs| && forall i | 0 <= i < |xs| :: values[i] == Ok(xs[i])
  }

  lemma YieldsConcat(v: seq<Py<Bytes>>, x: seq<Bytes>, w: seq<Py<Bytes>>, y: seq<Bytes>)
    requires Yields(v, x) && Yields(w, y)
    ensures Yields(v + w, x + y)
  {
    forall i | 0 <= i < |x + y|
      ensures (v + w)[i] == Ok((x + y)[i])
    {
      if i >= |x| { assert (x + y)[i] == y[i - |x|] && (v + w)[i] == w[i - |x|]; }
    }
  }

  function HeaderValues(spec: RecordSpec, app: Bytes, envelopeId: Bytes): (values: seq<Py<Bytes>>)
  {
    [Ok(Ascii(DomainConstant(RecipientContext))), Ok([1]), OneByte(spec.suite), Ok(app), Ok(envelopeId), Ok(spec.recipientId)]
  }

  function KdfValues(kdf: PassphraseParameters, salt: Bytes): (values: seq<Py<Bytes>>)
  {
    [Ok([ARGON2ID_KDF]), ToBytes(kdf.memoryKib, 4), ToBytes(kdf.passes, 4), OneByte(kdf.lanes), Ok(salt)]
  }

  lemma HeadersAgree(spec: RecordSpec, r: RecipientRecord, app: Bytes, envelopeId: Bytes32)
    requires spec.suite == r.Suite() && spec.recipientId == r.id
    ensures Yields(HeaderValues(spec, app, envelopeId), ContextHeader(r, app, envelopeId))
  {
    DomainsAgree(RecipientContext);
    hide DomainConstant, DomainBytes;
  }

  lemma KdfValuesAgree(kdf: KdfDescriptor)
    requires kdf.parameters.Valid()
    ensures Yields(KdfValues(kdf.parameters, kdf.salt), KdfFields(kdf))
  {
    WordSizes();
    hide Pow256, BigEndian;
  }

  /** The context transcript of a record, built up field by field. */
  method ContextOf(spec: RecordSpec, app: Bytes, envelopeId: Bytes32, passphrase: Bytes, onCurve: Bytes -> bool,
                   ghost r: RecipientRecord, ghost f: Factors)
    returns (transcript: Py<Bytes>)
    ensures Describes(spec, r, f, passphrase, onCurve) && |app| <= 253 ==> transcript == Ok(ContextTranscript(r, app, envelopeId))
  {
    hide HeaderValues, KdfValues, ContextHeader, KdfFields, PyTranscript, RecipientRecord.Valid, Yields, Frame;
    ghost var described := Describes(spec, r, f, passphrase, onCurve) && |app| <= 253;
    var values := HeaderValues(spec, app, envelopeId);
    if described { HeadersAgree(spec, r, app, envelopeId); }
    if spec.suite == 1 {
      if spec.kdf.None? || spec.salt.None? || spec.passphraseNonce.None? {
        return Err(AssertionError);
      }
      values := values + (KdfValues(spec.kdf.value, spec.salt.value) + [Ok(spec.passphraseNonce.value)]);
    } else if spec.suite == 4 {
      if spec.recoverySecret.None? || spec.recoveryNonce.None? {
        return Err(AssertionError);
      }
      values := values + [Ok(spec.caption), Ok(spec.recoveryNonce.value)];
    } else if spec.suite == 6 {
      if spec.credentialId.None? || spec.publicKey.None? || spec.prfNonce.None? || spec.wrapNonce.None? {
        return Err(AssertionError);
      }
      values := values + [Ok(spec.caption), Ok(spec.credentialId.value), Ok(spec.publicKey.value), Ok(spec.prfNonce.value),
                          Ok(spec.wrapNonce.value)];
    } else if spec.suite == 2 || spec.suite == 3 || spec.suite == 5 {
      if spec.credentialId.None? || spec.publicKey.None? || spec.policy.None? || spec.prfNonce.None? || spec.fidoNonce.None? {
        return Err(AssertionError);
      }
      var rest := [Ok(spec.credentialId.value), Ok(spec.publicKey.value), OneByte(spec.policy.value), Ok(spec.prfNonce.value),
                   Ok(spec.fidoNonce.value)];
      if spec.suite == 3 {
        if spec.kdf.None? || spec.salt.None? || spec.passphraseNonce.None? {
          return Err(AssertionError);
        }
        rest := rest + KdfValues(spec.kdf.value, spec.salt.value) + [Ok(spec.passphraseNonce.value)];
      }
      values := values + rest;
    } else {
      return Err(AssertionError);
    }
    if described {
      TailsAgree(spec, r, f, passphrase, onCurve);
      YieldsConcat(HeaderValues(spec, app, envelopeId), ContextHeader(r, app, envelopeId), TailValues(spec), ContextTail(r));
      assert values == HeaderValues(spec, app, envelopeId) + TailValues(spec);
      ContextFramable(r, app, envelopeId, onCurve);
      Collected(values, ContextFields(r, app, envelopeId));
      TranscriptsAgree(ContextFields(r, app, envelopeId));
    }
    var fields :- Collect(values);
    transcript := PyTranscript(fields);
  }

  lemma Collected(values: seq<Py<Bytes>>, xs: seq<Bytes>)
    requires Yields(values, xs)
    ensures Collect(values) == Ok(xs)
  {
    CollectOk(values, xs);
  }

  /** The fields after the header, of a specification that has them all. */
  ghost function TailValues(spec: RecordSpec): seq<Py<Bytes>>
  {
    if spec.suite == 1 then
      if spec.kdf.None? || spec.salt.None? || spec.passphraseNonce.None? then []
      else KdfValues(spec.kdf.value, spec.salt.value) + [Ok(spec.passphraseNonce.value)]
    else if spec.suite == 4 then
      if spec.recoveryNonce.None? then [] else [Ok(spec.caption), Ok(spec.recoveryNonce.value)]
    else if spec.suite == 6 then
      if spec.credentialId.None? || spec.publicKey.None? || spec.prfNonce.None? || spec.wrapNonce.None? then []
      else [Ok(spec.caption), Ok(spec.credentialId.value), Ok(spec.publicKey.value), Ok(spec.prfNonce.value), Ok(spec.wrapNonce.value)]
    else
      if spec.credentialId.None? || spec.publicKey.None? || spec.policy.None? || spec.prfNonce.None? || spec.fidoNonce.None? then []
      else
        [Ok(spec.credentialId.value), Ok(spec.publicKey.value), OneByte(spec.policy.value), Ok(spec.prfNonce.value),
         Ok(spec.fidoNonce.value)]
        + (if spec.suite != 3 then []
           else if spec.kdf.None? || spec.salt.None? || spec.passphraseNonce.None? then []
           else KdfValues(spec.kdf.value, spec.salt.value) + [Ok(spec.passphraseNonce.value)])
  }

  lemma TailsAgree(spec: RecordSpec, r: RecipientRecord, f: Factors, passphrase: Bytes, onCurve: Bytes -> bool)
    requires Describes(spec, r, f, passphrase, onCurve)
    ensures Yields(TailValues(spec), ContextTail(r))
  {
    hide KdfValues, KdfFields;
    if r.UsesPassphrase() {
      KdfValuesAgree(r.kdf);
      YieldsConcat(KdfValues(r.kdf.parameters, r.kdf.salt), KdfFields(r.kdf), [Ok(r.passphraseNonce)], [r.passphraseNonce]);
    }
    if r.FidoAndPassphrase? {
      var front := [r.credentialId, r.publicKey, [r.policy.Code()], r.prfNonce, r.fidoNonce];
      var values: seq<Py<Bytes>> := [Ok(r.credentialId), Ok(r.publicKey), OneByte(r.policy.Code()), Ok(r.prfNonce), Ok(r.fidoNonce)];
      YieldsConcat(values, front, KdfValues(r.kdf.parameters, r.kdf.salt) + [Ok(r.passphraseNonce)], KdfFields(r.kdf) + [r.passphraseNonce]);
      ConcatAssociative(front, KdfFields(r.kdf), [r.passphraseNonce]);
    }
  }

  // ----- keys -----

  method DeriveFor(p: Primitives, d: Domain, ikm: Bytes, salt: Bytes, context: Bytes32) returns (key: Bytes32)
    requires HkdfFollowsRfc(p)
    ensures key == p.hkdf(salt, ikm, Tagged(d, context))
  {
    InfosAgree(d, context);
    hide Info, Tagged, PrimitiveSet.Sized, HkdfFollowsRfc;
    var info := Info(d, context);
    key := DeriveKey(p, ikm, salt, info.value);
  }

  /** The keys of a record, suite by suite. */
  method KeysOf(p: Primitives, spec: RecordSpec, context: Bytes32, envelopeId: Bytes32, passphrase: Bytes,
                ghost app: Bytes, ghost r: RecipientRecord, ghost f: Factors)
    returns (keys: Py<RecoveryKeys>)
    requires HkdfFollowsRfc(p)
    ensures Describes(spec, r, f, passphrase, p.onCurve) && context == Context(p, r, app, envelopeId)
            ==> keys == Ok(KeysFrom(p, r, app, envelopeId, f))
  {
    hide Tagged, Context, RecipientRecord.Valid, PrimitiveSet.Sized, HkdfFollowsRfc;
    if spec.suite == 1 {
      var key :- PassphraseKeyOf(p, spec, context, envelopeId, passphrase);
      return Ok(PassphraseKeys(key));
    } else if spec.suite == 4 {
      if spec.recoverySecret.None? {
        return Err(AssertionError);
      }
      var key := DeriveFor(p, RecoverySecretKeyInfo, spec.recoverySecret.value, envelopeId, context);
      return Ok(RecoverySecretKeys(key));
    } else if spec.suite == 2 || spec.suite == 5 || spec.suite == 3 || spec.suite == 6 {
      if spec.prfResult.None? {
        return Err(AssertionError);
      }
      var fidoKey := DeriveFor(p, if spec.suite == 6 then FidoLocalFidoKey else FidoKeyInfo, spec.prfResult.value, envelopeId, context);
      if spec.suite == 3 {
        var key :- PassphraseKeyOf(p, spec, context, envelopeId, passphrase);
        return Ok(CombinedKeys(key, fidoKey));
      }
      if spec.suite != 6 {
        return Ok(FidoKeys(fidoKey));
      }
      if spec.localSecret.None? {
        return Err(AssertionError);
      }
      var localKey := DeriveFor(p, FidoLocalSecretKey, spec.localSecret.value, envelopeId, context);
      var combined := DeriveFor(p, FidoLocalCombinedKey, fidoKey, localKey, context);
      return Ok(FidoAndLocalKeys(combined));
    } else {
      return Err(AssertionError);
    }
  }

  method PassphraseKeyOf(p: Primitives, spec: RecordSpec, context: Bytes32, envelopeId: Bytes32, passphrase: Bytes)
    returns (key: Py<Bytes32>)
    requires HkdfFollowsRfc(p)
    ensures spec.kdf.Some? && spec.salt.Some? ==>
              key == Ok(p.hkdf(envelopeId, p.argon2(passphrase, spec.salt.value, spec.kdf.value.memoryKib, spec.kdf.value.passes,
                                                    spec.kdf.value.lanes), Tagged(PassphraseKeyInfo, context)))
  {
    hide Tagged, PrimitiveSet.Sized, HkdfFollowsRfc;
    if spec.kdf.None? || spec.salt.None? {
      return Err(AssertionError);
    }
    var argon2Output := p.argon2(passphrase, spec.salt.value, spec.kdf.value.memoryKib, spec.kdf.value.passes, spec.kdf.value.lanes);
    var derived := DeriveFor(p, PassphraseKeyInfo, argon2Output, envelopeId, context);
    return Ok(derived);
  }

  // ----- the wrapped root -----

  /** Encrypts and, as the generator does, asserts that the result decrypts. */
  method Seal(p: Primitives, d: Domain, key: Bytes, nonce: Bytes, message: Bytes, context: Bytes32) returns (sealed: Py<Bytes>)
    ensures p.Lawful() ==> sealed == Ok(p.seal(key, nonce, message, Tagged(d, context)))
    ensures sealed.Ok? ==> |sealed.value| == |message| + 16
  {
    InfosAgree(d, context);
    hide Info, Tagged;
    var aad := Info(d, context).value;
    var wrapped := p.seal(key, nonce, message, aad);
    if p.open(key, nonce, wrapped, aad) != Some(message) {
      return Err(AssertionError);
    }
    return Ok(wrapped);
  }

  // ----- the bytes of one record -----

  function KdfValue(kdf: PassphraseParameters, salt: Bytes): Py<Bytes>
  {
    CborArray([CborUint(ARGON2ID_KDF), CborUint(kdf.memoryKib), CborUint(kdf.passes), CborUint(kdf.lanes), CborBytes(salt)])
  }

  lemma KdfEncodingsAgree(kdf: KdfDescriptor)
    requires kdf.parameters.Valid()
    ensures KdfValue(kdf.parameters, kdf.salt) == Ok(EncodeItems(KdfItems(kdf)))
  {
    var items := [UInt(ARGON2ID_KDF), UInt(kdf.parameters.memoryKib), UInt(kdf.parameters.passes), UInt(kdf.parameters.lanes), Blob(kdf.salt)];
    PlainArrayAgrees(items);
    hide CborArray, EncodeItems;
    assert [Array(5)] + items == KdfItems(kdf);
    assert CborValues(items) == [CborUint(ARGON2ID_KDF), CborUint(kdf.parameters.memoryKib), CborUint(kdf.parameters.passes),
                                 CborUint(kdf.parameters.lanes), CborBytes(kdf.salt)];
  }

  lemma ValuesConcat(a: seq<Item>, b: seq<Item>)
    requires forall i | 0 <= i < |a + b| :: !(a + b)[i].Array?
    ensures forall i | 0 <= i < |a| :: !a[i].Array?
    ensures forall i | 0 <= i < |b| :: !b[i].Array?
    ensures CborValues(a + b) == CborValues(a) + CborValues(b)
  {
    assert forall i | 0 <= i < |a| :: (a + b)[i] == a[i];
    assert forall i | 0 <= i < |b| :: (a + b)[|a| + i] == b[i];
  }

  /** The opening and the credential of a record. */
  lemma BeginningsAgree(spec: RecordSpec, w: RecipientRecord)
    requires w.UsesCredential() && spec.suite == w.Suite() && spec.recipientId == w.id && spec.caption == w.caption
    ensures var items := OpeningItems(w) + [Blob(w.credentialId), Blob(w.publicKey)];
            && (forall i | 0 <= i < |items| :: !items[i].Array?)
            && CborValues(items) == OpeningValues(spec) + CredentialValues(w.credentialId, w.publicKey)
  {
    hide CborUint, CborBytes, CborText, RecipientRecord.Suite;
  }

  function OpeningValues(spec: RecordSpec): seq<Py<Bytes>>
  {
    [CborUint(spec.suite), CborBytes(spec.recipientId), CborText(spec.caption)]
  }

  function OpeningItems(w: RecipientRecord): seq<Item>
  {
    [UInt(w.Suite()), Blob(w.id), Text(w.caption)]
  }

  /** A record whose kdf, if it has one, is a nested array. */
  function PassphraseValue(spec: RecordSpec, kdf: PassphraseParameters, salt: Bytes, nonce: Bytes, wrapped: Bytes): Py<Bytes>
  {
    CborArray(OpeningValues(spec) + [KdfValue(kdf, salt)] + [CborBytes(nonce), CborBytes(wrapped)])
  }

  lemma PassphraseEncodingsAgree(spec: RecordSpec, w: RecipientRecord, f: Factors, passphrase: Bytes, onCurve: Bytes -> bool)
    requires w.Passphrase? && Describes(spec, w, f, passphrase, onCurve)
    ensures PassphraseValue(spec, w.kdf.parameters, w.kdf.salt, w.passphraseNonce, w.wrappedRoot) == Ok(EncodeItems(RecordItems(w)))
  {
    KdfEncodingsAgree(w.kdf);
    var front, back := OpeningItems(w), [Blob(w.passphraseNonce), Blob(w.wrappedRoot)];
    hide CborArray, EncodeItems, KdfValue, KdfItems, CborUint, CborBytes, CborText, PassphraseParameters.Valid, LabelValid;
    assert CborValues(front) == OpeningValues(spec);
    assert CborValues(back) == [CborBytes(w.passphraseNonce), CborBytes(w.wrappedRoot)];
    NestedArrayAgrees(front, KdfItems(w.kdf), back, KdfValue(w.kdf.parameters, w.kdf.salt), front + KdfItems(w.kdf) + back, 6);
    assert [Array(6)] + (front + KdfItems(w.kdf) + back) == PassphraseItems(w);
  }

  function RecoveryValue(spec: RecordSpec, nonce: Bytes, wrapped: Bytes): Py<Bytes>
  {
    CborArray(OpeningValues(spec) + [CborBytes(nonce), CborBytes(wrapped)])
  }

  lemma RecoveryEncodingsAgree(spec: RecordSpec, w: RecipientRecord, f: Factors, passphrase: Bytes, onCurve: Bytes -> bool)
    requires w.RecoverySecret? && Describes(spec, w, f, passphrase, onCurve)
    ensures RecoveryValue(spec, w.recoveryNonce, w.wrappedRoot) == Ok(EncodeItems(RecordItems(w)))
  {
    var items := OpeningItems(w) + [Blob(w.recoveryNonce), Blob(w.wrappedRoot)];
    hide CborArray, EncodeItems, CborUint, CborBytes, CborText, LabelValid;
    assert CborValues(items) == OpeningValues(spec) + [CborBytes(w.recoveryNonce), CborBytes(w.wrappedRoot)];
    PlainArrayAgrees(items);
    assert [Array(5)] + items == RecoverySecretItems(w);
  }

  function CredentialValues(credentialId: Bytes, publicKey: Bytes): seq<Py<Bytes>>
  {
    [CborBytes(credentialId), CborBytes(publicKey)]
  }

  function FidoValue(spec: RecordSpec, credentialId: Bytes, publicKey: Bytes, policy: nat, prfNonce: Bytes, nonce: Bytes,
                     wrapped: Bytes): Py<Bytes>
  {
    CborArray(OpeningValues(spec) + CredentialValues(credentialId, publicKey)
              + [CborUint(policy), CborBytes(prfNonce), CborBytes(nonce), CborBytes(wrapped)])
  }

  lemma FidoEncodingsAgree(spec: RecordSpec, w: RecipientRecord, f: Factors, passphrase: Bytes, onCurve: Bytes -> bool)
    requires w.Fido? && Describes(spec, w, f, passphrase, onCurve)
    ensures FidoValue(spec, w.credentialId, w.publicKey, w.policy.Code(), w.prfNonce, w.fidoNonce, w.wrappedRoot)
            == Ok(EncodeItems(RecordItems(w)))
  {
    BeginningsAgree(spec, w);
    var front := OpeningItems(w) + [Blob(w.credentialId), Blob(w.publicKey)];
    var rest := [UInt(w.policy.Code()), Blob(w.prfNonce), Blob(w.fidoNonce), Blob(w.wrappedRoot)];
    var items := front + rest;
    assert [Array(9)] + items == FidoItems(w);
    assert forall i | 0 <= i < |items| :: !items[i].Array? && items[i].Fits();
    hide CborArray, EncodeItems, CborUint, CborBytes, CborText, LabelValid, OpeningValues, CredentialValues, OpeningItems,
         FidoItems;
    ValuesConcat(front, rest);
    assert CborValues(rest) == [CborUint(w.policy.Code()), CborBytes(w.prfNonce), CborBytes(w.fidoNonce), CborBytes(w.wrappedRoot)];
    PlainArrayAgrees(items);
  }

  function LocalValue(spec: RecordSpec, credentialId: Bytes, publicKey: Bytes, prfNonce: Bytes, nonce: Bytes,
                      wrapped: Bytes): Py<Bytes>
  {
    CborArray(OpeningValues(spec) + CredentialValues(credentialId, publicKey) + [CborBytes(prfNonce), CborBytes(nonce), CborBytes(wrapped)])
  }

  lemma LocalEncodingsAgree(spec: RecordSpec, w: RecipientRecord, f: Factors, passphrase: Bytes, onCurve: Bytes -> bool)
    requires w.FidoAndLocalSecret? && Describes(spec, w, f, passphrase, onCurve)
    ensures LocalValue(spec, w.credentialId, w.publicKey, w.prfNonce, w.wrapNonce, w.wrappedRoot) == Ok(EncodeItems(RecordItems(w)))
  {
    BeginningsAgree(spec, w);
    var front := OpeningItems(w) + [Blob(w.credentialId), Blob(w.publicKey)];
    var rest := [Blob(w.prfNonce), Blob(w.wrapNonce), Blob(w.wrappedRoot)];
    var items := front + rest;
    assert [Array(8)] + items == FidoAndLocalSecretItems(w);
    assert forall i | 0 <= i < |items| :: !items[i].Array? && items[i].Fits();
    hide CborArray, EncodeItems, CborUint, CborBytes, CborText, LabelValid, OpeningValues, CredentialValues, OpeningItems,
         FidoAndLocalSecretItems;
    ValuesConcat(front, rest);
    assert CborValues(rest) == [CborBytes(w.prfNonce), CborBytes(w.wrapNonce), CborBytes(w.wrappedRoot)];
    PlainArrayAgrees(items);
  }

  function CombinedValue(spec: RecordSpec, credentialId: Bytes, publicKey: Bytes, policy: nat, prfNonce: Bytes, fidoNonce: Bytes,
                         kdf: PassphraseParameters, salt: Bytes, nonce: Bytes, wrapped: Bytes): Py<Bytes>
  {
    CborArray(OpeningValues(spec) + CredentialValues(credentialId, publicKey) + [CborUint(policy), CborBytes(prfNonce), CborBytes(fidoNonce)]
              + [KdfValue(kdf, salt)] + [CborBytes(nonce), CborBytes(wrapped)])
  }

  lemma CombinedEncodingsAgree(spec: RecordSpec, w: RecipientRecord, f: Factors, passphrase: Bytes, onCurve: Bytes -> bool)
    requires w.FidoAndPassphrase? && Describes(spec, w, f, passphrase, onCurve)
    ensures CombinedValue(spec, w.credentialId, w.publicKey, w.policy.Code(), w.prfNonce, w.fidoNonce, w.kdf.parameters, w.kdf.salt,
                          w.passphraseNonce, w.combinedRoot) == Ok(EncodeItems(RecordItems(w)))
  {
    KdfEncodingsAgree(w.kdf);
    BeginningsAgree(spec, w);
    var start := OpeningItems(w) + [Blob(w.credentialId), Blob(w.publicKey)];
    var middle := [UInt(w.policy.Code()), Blob(w.prfNonce), Blob(w.fidoNonce)];
    var back := [Blob(w.passphraseNonce), Blob(w.combinedRoot)];
    assert [Array(11)] + (start + middle + KdfItems(w.kdf) + back) == FidoAndPassphraseItems(w);
    assert forall i | 0 <= i < |start + middle| :: !(start + middle)[i].Array? && (start + middle)[i].Fits();
    hide CborArray, EncodeItems, KdfValue, KdfItems, CborUint, CborBytes, CborText, PassphraseParameters.Valid, LabelValid,
         OpeningValues, CredentialValues, OpeningItems, FidoAndPassphraseItems;
    ValuesConcat(start, middle);
    assert CborValues(middle) == [CborUint(w.policy.Code()), CborBytes(w.prfNonce), CborBytes(w.fidoNonce)];
    assert CborValues(back) == [CborBytes(w.passphraseNonce), CborBytes(w.combinedRoot)];
    NestedArrayAgrees(start + middle, KdfItems(w.kdf), back, KdfValue(w.kdf.parameters, w.kdf.salt),
                      start + middle + KdfItems(w.kdf) + back, 11);
  }

  /** The record with its root wrapped still fits the specification. */
  lemma StillDescribes(p: Primitives, spec: RecordSpec, r: RecipientRecord, f: Factors, passphrase: Bytes, app: Bytes,
                       envelopeId: Bytes32,
                       root: Bytes32)
    requires Describes(spec, r, f, passphrase, p.onCurve)
    ensures Describes(spec, Wrap(p, r, app, envelopeId, root, KeysFrom(p, r, app, envelopeId, f)), f, passphrase, p.onCurve)
  {
    WrapKeeps(p, r, app, envelopeId, root, KeysFrom(p, r, app, envelopeId, f));
    hide KeysFrom, RecipientRecord.Valid, PrimitiveSet.Sized, Context, Tagged;
  }

  // ----- building a record -----

  datatype BuiltRecord = BuiltRecord(spec: RecordSpec, contextTranscript: Bytes, encoded: Bytes)

  /** The wrapped record that a described record stands for. */
  ghost function Wrapped(p: Primitives, r: RecipientRecord, f: Factors, app: Bytes, envelopeId: Bytes32, root: Bytes32): RecipientRecord
    requires Suits(r, f)
  {
    Wrap(p, r, app, envelopeId, root, KeysFrom(p, r, app, envelopeId, f))
  }

  /** The last part of `build_record`: wraps the root and writes the record, suite by suite. */
  method EncodeRecord(p: Primitives, spec: RecordSpec, keys: RecoveryKeys, context: Bytes32, root: Bytes32, passphrase: Bytes,
                      ghost app: Bytes, ghost envelopeId: Bytes32, ghost r: RecipientRecord, ghost f: Factors)
    returns (encoded: Py<Bytes>)
    ensures p.Lawful() && Describes(spec, r, f, passphrase, p.onCurve)
            && context == Context(p, r, app, envelopeId) && keys == KeysFrom(p, r, app, envelopeId, f)
            ==> encoded == Ok(EncodeItems(RecordItems(Wrapped(p, r, f, app, envelopeId, root))))
  {
    hide Context, Tagged, KeysFrom, RecipientRecord.Valid, PrimitiveSet.Sized, PrimitiveSet.Lawful, RecordItems, EncodeItems,
         PassphraseValue, RecoveryValue, FidoValue, LocalValue, CombinedValue;
    ghost var described := Describes(spec, r, f, passphrase, p.onCurve);
    if described { StillDescribes(p, spec, r, f, passphrase, app, envelopeId, root); }
    ghost var w := if described then Wrapped(p, r, f, app, envelopeId, root) else r;
    if spec.suite == 1 && keys.PassphraseKeys? {
      if spec.kdf.None? || spec.salt.None? || spec.passphraseNonce.None? {
        return Err(AssertionError);
      }
      var sealed :- Seal(p, PassphraseAad, keys.key, spec.passphraseNonce.value, root, context);
      encoded := PassphraseValue(spec, spec.kdf.value, spec.salt.value, spec.passphraseNonce.value, sealed);
      if described { PassphraseEncodingsAgree(spec, w, f, passphrase, p.onCurve); }
    } else if spec.suite == 4 && keys.RecoverySecretKeys? {
      if spec.recoveryNonce.None? {
        return Err(AssertionError);
      }
      var sealed :- Seal(p, RecoverySecretAad, keys.key, spec.recoveryNonce.value, root, context);
      encoded := RecoveryValue(spec, spec.recoveryNonce.value, sealed);
      if described { RecoveryEncodingsAgree(spec, w, f, passphrase, p.onCurve); }
    } else if (spec.suite == 2 || spec.suite == 5) && keys.FidoKeys? {
      if spec.credentialId.None? || spec.publicKey.None? || spec.policy.None? || spec.prfNonce.None? || spec.fidoNonce.None? {
        return Err(AssertionError);
      }
      var sealed :- Seal(p, FidoAad, keys.key, spec.fidoNonce.value, root, context);
      encoded := FidoValue(spec, spec.credentialId.value, spec.publicKey.value, spec.policy.value, spec.prfNonce.value,
                           spec.fidoNonce.value, sealed);
      if described { FidoEncodingsAgree(spec, w, f, passphrase, p.onCurve); }
    } else if spec.suite == 3 && keys.CombinedKeys? {
      if spec.credentialId.None? || spec.publicKey.None? || spec.policy.None? || spec.prfNonce.None? || spec.fidoNonce.None?
         || spec.kdf.None? || spec.salt.None? || spec.passphraseNonce.None? {
        return Err(AssertionError);
      }
      var inner :- Seal(p, CombinedPassphraseAad, keys.passphrase, spec.passphraseNonce.value, root, context);
      var sealed :- Seal(p, CombinedFidoAad, keys.fido, spec.fidoNonce.value, inner, context);
      encoded := CombinedValue(spec, spec.credentialId.value, spec.publicKey.value, spec.policy.value, spec.prfNonce.value,
                               spec.fidoNonce.value, spec.kdf.value, spec.salt.value, spec.passphraseNonce.value, sealed);
      if described { CombinedEncodingsAgree(spec, w, f, passphrase, p.onCurve); }
    } else if spec.suite == 6 && keys.FidoAndLocalKeys? {
      if spec.credentialId.None? || spec.publicKey.None? || spec.prfNonce.None? || spec.wrapNonce.None? {
        return Err(AssertionError);
      }
      var sealed :- Seal(p, FidoLocalAad, keys.key, spec.wrapNonce.value, root, context);
      encoded := LocalValue(spec, spec.credentialId.value, spec.publicKey.value, spec.prfNonce.value, spec.wrapNonce.value, sealed);
      if described { LocalEncodingsAgree(spec, w, f, passphrase, p.onCurve); }
    } else {
      encoded := Err(AssertionError);
    }
  }

  /** For every valid record, the generator and the Rust code agree on the context transcript and on the bytes of the record. */
  method BuildRecord(p: Primitives, spec: RecordSpec, app: Bytes, envelopeId: Bytes32, root: Bytes32, passphrase: Bytes,
                     ghost r: RecipientRecord, ghost f: Factors)
    returns (built: Py<BuiltRecord>)
    requires HkdfFollowsRfc(p)
    ensures p.Lawful() && Describes(spec, r, f, passphrase, p.onCurve) && |app| <= 253 ==>
              built == Ok(BuiltRecord(spec, ContextTranscript(r, app, envelopeId),
                                      EncodeItems(RecordItems(Wrapped(p, r, f, app, envelopeId, root)))))
  {
    hide Describes, ContextTranscript, KeysFrom, Wrapped, PrimitiveSet.Sized, PrimitiveSet.Lawful, HkdfFollowsRfc, RecordItems,
         EncodeItems;
    var transcript :- ContextOf(spec, app, envelopeId, passphrase, p.onCurve, r, f);
    var context := p.sha256(transcript);
    var keys :- KeysOf(p, spec, context, envelopeId, passphrase, app, r, f);
    var encoded :- EncodeRecord(p, spec, keys, context, root, passphrase, app, envelopeId, r, f);
    return Ok(BuiltRecord(spec, transcript, encoded));
  }

  // ----- building an envelope -----

  /** What the envelope takes from a built record is what the Rust record holds. */
  ghost predicate IsBuilt(b: BuiltRecord, w: RecipientRecord)
  {
    && b.spec.recipientId == w.id
    && b.spec.salt == (if w.UsesPassphrase() then Some(w.kdf.salt) else None)
    && b.spec.credentialId == (if w.UsesCredential() then Some(w.credentialId) else None)
    && b.encoded == EncodeItems(RecordItems(w))
  }

  ghost predicate AllBuilt(bs: seq<BuiltRecord>, ws: seq<RecipientRecord>)
  {
    |bs| == |ws| && forall i | 0 <= i < |ws| :: IsBuilt(bs[i], ws[i])
  }

  lemma BuildsTheRecord(p: Primitives, spec: RecordSpec, r: RecipientRecord, f: Factors, passphrase: Bytes, app: Bytes,
                        envelopeId: Bytes32,
                        root: Bytes32, transcript: Bytes)
    requires Describes(spec, r, f, passphrase, p.onCurve)
    ensures var w := Wrapped(p, r, f, app, envelopeId, root);
            IsBuilt(BuiltRecord(spec, transcript, EncodeItems(RecordItems(w))), w)
  {
    StillDescribes(p, spec, r, f, passphrase, app, envelopeId, root);
    hide Wrapped, KeysFrom, RecordItems, EncodeItems, RecipientRecord.Valid;
  }

  function InsertBuilt(bs: seq<BuiltRecord>, b: BuiltRecord): seq<BuiltRecord>
  {
    if bs == [] || FromBigEndian(b.spec.recipientId) < FromBigEndian(bs[0].spec.recipientId) then [b] + bs
    else [bs[0]] + InsertBuilt(bs[1..], b)
  }

  /** `records.sort(key=...)`: ids are compared as byte strings, which is the order of the numbers they spell. */
  function SortBuilt(bs: seq<BuiltRecord>): seq<BuiltRecord>
  {
    if bs == [] then [] else InsertBuilt(SortBuilt(bs[..|bs| - 1]), bs[|bs| - 1])
  }

  lemma {:induction false} InsertsAgree(bs: seq<BuiltRecord>, ws: seq<RecipientRecord>, b: BuiltRecord, w: RecipientRecord)
    requires AllBuilt(bs, ws) && IsBuilt(b, w)
    ensures AllBuilt(InsertBuilt(bs, b), Insert(ws, w))
    decreases |bs|
  {
    hide RecordItems, EncodeItems, FromBigEndian;
    if bs != [] && Rank(w.id) >= Rank(ws[0].id) {
      InsertsAgree(bs[1..], ws[1..], b, w);
    }
  }

  lemma {:induction false} SortsAgree(bs: seq<BuiltRecord>, ws: seq<RecipientRecord>)
    requires AllBuilt(bs, ws)
    ensures AllBuilt(SortBuilt(bs), SortById(ws))
    decreases |bs|
  {
    hide IsBuilt;
    if bs != [] {
      SortsAgree(bs[..|bs| - 1], ws[..|ws| - 1]);
      InsertsAgree(SortBuilt(bs[..|bs| - 1]), SortById(ws[..|ws| - 1]), bs[|bs| - 1], ws[|ws| - 1]);
    }
  }

  /** A list has as many members as its set of values just when no two are equal. */
  predicate Distinct(bs: seq<BuiltRecord>)
  {
    && (forall i, j | 0 <= i < j < |bs| :: bs[i].spec.recipientId != bs[j].spec.recipientId)
    && (forall i, j | 0 <= i < j < |bs| :: bs[i].spec.salt.None? || bs[i].spec.salt != bs[j].spec.salt)
    && (forall i, j | 0 <= i < j < |bs| :: bs[i].spec.credentialId.None? || bs[i].spec.credentialId != bs[j].spec.credentialId)
  }

  lemma ValidIsDistinct(bs: seq<BuiltRecord>, ws: seq<RecipientRecord>)
    requires AllBuilt(bs, ws) && SetValid(ws)
    ensures Distinct(bs)
  {
    hide RecordItems, EncodeItems, FromBigEndian;
    forall i, j | 0 <= i < j < |bs|
      ensures bs[i].spec.recipientId != bs[j].spec.recipientId
      ensures bs[i].spec.salt.None? || bs[i].spec.salt != bs[j].spec.salt
      ensures bs[i].spec.credentialId.None? || bs[i].spec.credentialId != bs[j].spec.credentialId
    {
      assert IsBuilt(bs[i], ws[i]) && IsBuilt(bs[j], ws[j]);
      assert Rank(ws[i].id) < Rank(ws[j].id) && !Clash(ws[i], ws[j]);
    }
  }

  /** The generator's list of records, which it sorts in place. */
  class RecordList {
    var records: seq<BuiltRecord>

    constructor (records: seq<BuiltRecord>)
      ensures this.records == records
    {
      this.records := records;
    }

    method Sort()
      modifies this
      ensures records == SortBuilt(old(records))
    {
      records := SortBuilt(records);
    }
  }

  function EncodedRecords(bs: seq<BuiltRecord>): Py<Bytes>
  {
    CborArray(seq(|bs|, i requires 0 <= i < |bs| => Ok(bs[i].encoded)))
  }

  /** The records of the envelope, as one array. */
  lemma EncodedRecordsAgree(bs: seq<BuiltRecord>, ws: seq<RecipientRecord>)
    requires AllBuilt(bs, ws) && |ws| < U64_END
    ensures EncodedRecords(bs) == Ok(EncodeItems([Array(|ws|)] + Flatten(RecordGroups(ws))))
  {
    hide RecordItems, EncodeItems, CborArray, Flatten;
    ArraysAgree(seq(|bs|, i requires 0 <= i < |bs| => Ok(bs[i].encoded)), RecordGroups(ws));
  }

  function BodyValue(app: Bytes, envelopeId: Bytes, records: Bytes): Py<Bytes>
  {
    CborArray([CborUint(1), CborText(app), CborBytes(envelopeId)] + [Ok(records)] + [])
  }

  function EnvelopeValue(app: Bytes, envelopeId: Bytes, records: Bytes, mac: Bytes): Py<Bytes>
  {
    CborArray([CborUint(1), CborText(app), CborBytes(envelopeId)] + [Ok(records)] + [CborBytes(mac)])
  }

  lemma BodiesAgree(e: Envelope)
    requires |e.applicationId| <= 253
    ensures var records := EncodeItems([Array(|e.recipients|)] + Flatten(RecordGroups(e.recipients)));
            && BodyValue(e.applicationId, e.envelopeId, records) == Ok(CanonicalBody(e))
            && EnvelopeValue(e.applicationId, e.envelopeId, records, e.mac) == Ok(EncodeItems(EnvelopeItems(e)))
  {
    hide EncodeItems, CborArray, CborUint, CborText, CborBytes, RecordGroups, Flatten;
    var front := [UInt(1), Text(e.applicationId), Blob(e.envelopeId)];
    var nested := [Array(|e.recipients|)] + Flatten(RecordGroups(e.recipients));
    var middle: Py<Bytes> := Ok(EncodeItems(nested));
    assert CborValues(front) == [CborUint(1), CborText(e.applicationId), CborBytes(e.envelopeId)];
    assert CborValues([]) == [];
    assert CborValues([Blob(e.mac)]) == [CborBytes(e.mac)];
    assert front + nested + [] == BodyItems(e);
    assert front + nested + [Blob(e.mac)] == BodyItems(e) + [Blob(e.mac)];
    NestedArrayAgrees(front, nested, [], middle, BodyItems(e), 4);
    NestedArrayAgrees(front, nested, [Blob(e.mac)], middle, BodyItems(e) + [Blob(e.mac)], 5);
    assert [Array(5)] + (BodyItems(e) + [Blob(e.mac)]) == EnvelopeItems(e);
  }

  datatype BuiltEnvelope = BuiltEnvelope(canonicalBody: Bytes, mac: Bytes32, envelope: Bytes)

  /** The envelope fields, from records in any order. */
  method EnvelopeFields(p: Primitives, app: Bytes, envelopeId: Bytes32, root: Bytes32, list: RecordList,
                        ghost ws: seq<RecipientRecord>, ghost e: Envelope)
    returns (built: Py<BuiltEnvelope>)
    requires HkdfFollowsRfc(p)
    modifies list
    ensures Valid(e, p.onCurve) && e.applicationId == app && e.envelopeId == envelopeId && e.mac == Mac(p, e, root)
            && AllBuilt(old(list.records), ws) && multiset(ws) == multiset(e.recipients)
            ==> built == Ok(BuiltEnvelope(CanonicalBody(e), e.mac, Encoded(e)))
  {
    hide AllBuilt, SortBuilt, EncodedRecords, BodyValue, EnvelopeValue, CanonicalBody, EnvelopeItems, EncodeItems,
         RecordGroups, Flatten,
         Frame, PyTranscript, RecipientRecord.Valid, SetValid, Distinct, DnsShaped, PrimitiveSet.Sized, HkdfFollowsRfc, DomainBytes;
    ghost var matching := Valid(e, p.onCurve) && e.applicationId == app && e.envelopeId == envelopeId && e.mac == Mac(p, e, root)
                          && AllBuilt(list.records, ws) && multiset(ws) == multiset(e.recipients);
    if matching { Prepared(list.records, ws, e, p.onCurve); }
    list.Sort();
    if !Distinct(list.records) {
      return Err(AssertionError);
    }
    if matching {
      BodiesAgree(e);
      MacFramesAgree(e, p.onCurve);
    }
    var records :- EncodedRecords(list.records);
    var canonicalBody :- BodyValue(app, envelopeId, records);
    var keyInfo :- PyTranscript([Ascii(DomainConstant(EnvelopeMacKey)), [1], app]);
    var macKey := DeriveKey(p, root, envelopeId, keyInfo);
    var message :- PyTranscript([Ascii(DomainConstant(EnvelopeMac)), [1], canonicalBody]);
    var mac := p.hmac(macKey, message);
    var body :- EnvelopeValue(app, envelopeId, records, mac);
    var envelope := MAGIC + body;
    if matching { Codec.EncodingSize(e, p.onCurve); }
    if |envelope| > 65_536 {
      return Err(AssertionError);
    }
    return Ok(BuiltEnvelope(canonicalBody, mac, envelope));
  }

  /** Sorting any listing of the records of a valid envelope gives its own order. */
  lemma Prepared(bs: seq<BuiltRecord>, ws: seq<RecipientRecord>, e: Envelope, onCurve: Bytes -> bool)
    requires Valid(e, onCurve) && AllBuilt(bs, ws) && multiset(ws) == multiset(e.recipients)
    ensures Distinct(SortBuilt(bs))
    ensures EncodedRecords(SortBuilt(bs)) == Ok(EncodeItems([Array(|e.recipients|)] + Flatten(RecordGroups(e.recipients))))
    ensures |e.applicationId| <= 253
  {
    SortsAgree(bs, ws);
    AnyOrderSorts(ws, e.recipients);
    hide AllBuilt, EncodedRecords, RecordGroups, Flatten, EncodeItems, Distinct, RecipientRecord.Valid, LabelsShaped;
    ValidIsDistinct(SortBuilt(bs), e.recipients);
    EncodedRecordsAgree(SortBuilt(bs), e.recipients);
  }

  lemma AnyOrderSorts(ws: seq<RecipientRecord>, rs: seq<RecipientRecord>)
    requires SetValid(rs) && multiset(ws) == multiset(rs)
    ensures SortById(ws) == rs
  {
    DistinctIds(ws, rs);
    SortAscends(ws);
    hide Ascending, SortById;
    AscendingUnique(SortById(ws), rs);
  }

  /** Another listing of records with distinct ids has distinct ids as well. */
  lemma DistinctIds(ws: seq<RecipientRecord>, rs: seq<RecipientRecord>)
    requires Ascending(rs) && multiset(ws) == multiset(rs)
    ensures forall i, j | 0 <= i < j < |ws| :: ws[i].id != ws[j].id
  {
    forall i, j | 0 <= i < j < |ws|
      ensures ws[i].id != ws[j].id
    {
      NoIdTwice(ws, rs, i, j);
    }
  }

  lemma NoIdTwice(ws: seq<RecipientRecord>, rs: seq<RecipientRecord>, i: nat, j: nat)
    requires Ascending(rs) && multiset(ws) == multiset(rs) && i < j < |ws|
    ensures ws[i].id != ws[j].id
  {
    assert ws[i] in multiset(rs) && ws[j] in multiset(rs);
    var a :| 0 <= a < |rs| && rs[a] == ws[i];
    var b :| 0 <= b < |rs| && rs[b] == ws[j];
    OnceOnly(rs, ws[i]);
    OnceMeansOnePlace(ws, i, j);
  }

  lemma {:induction false} OnceOnly(rs: seq<RecipientRecord>, x: RecipientRecord)
    requires Ascending(rs)
    ensures multiset(rs)[x] <= 1
  {
    if rs != [] {
      AscendingFront(rs);
      OnceOnly(rs[1..], x);
      hide Ascending;
      assert rs == [rs[0]] + rs[1..];
      if x == rs[0] {
        assert x !in rs[1..];
      }
    }
  }

  lemma OnceMeansOnePlace(ws: seq<RecipientRecord>, i: nat, j: nat)
    requires i < j < |ws| && multiset(ws)[ws[i]] <= 1
    ensures ws[i] != ws[j]
  {
    var front, back := ws[..j], ws[j..];
    assert ws == front + back;
    assert front[i] == ws[i] && back[0] == ws[j];
    assert ws[i] in multiset(front) && ws[j] in multiset(back);
  }

  /** The two transcripts of the envelope MAC. */
  lemma MacFramesAgree(e: Envelope, onCurve: Bytes -> bool)
    requires Valid(e, onCurve)
    ensures PyTranscript([Ascii(DomainConstant(EnvelopeMacKey)), [1], e.applicationId])
            == Ok(Frame([DomainBytes(EnvelopeMacKey), [1], e.applicationId]))
    ensures PyTranscript([Ascii(DomainConstant(EnvelopeMac)), [1], CanonicalBody(e)]) == Ok(MacMessage(e))
  {
    DomainsAgree(EnvelopeMacKey);
    DomainsAgree(EnvelopeMac);
    Codec.EncodingSize(e, onCurve);
    hide DomainConstant, DomainBytes, PyTranscript, Frame, CanonicalBody, LabelsShaped, SetValid, RecipientRecord.Valid;
    TranscriptsAgree([DomainBytes(EnvelopeMacKey), [1], e.applicationId]);
    TranscriptsAgree([DomainBytes(EnvelopeMac), [1], CanonicalBody(e)]);
  }
}
