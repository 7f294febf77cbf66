/**
 The cryptographic layer over abstract primitives: contexts, key derivations,
 the wrapping layers, and the whole-envelope MAC.
 */
module Crypto {
  import opened Wrappers
  import opened Errors
  import opened Bytes
  import opened Identity
  import opened Policy
  import opened Envelopes
  import opened Transcript
  import Codec

  // ----- primitives -----

  /** The library functions, of which only the lengths below are used without saying so. */
  datatype PrimitiveSet = PrimitiveSet(
    sha256: Bytes -> Bytes32,
    hkdf: (Bytes, Bytes, Bytes) -> Bytes32,
    hmac: (Bytes, Bytes) -> Bytes32,
    argon2: (Bytes, Bytes, nat, nat, nat) -> Bytes32,
    seal: (Bytes, Bytes, Bytes, Bytes) -> Bytes,
    open: (Bytes, Bytes, Bytes, Bytes) -> Option<Bytes>,
    onCurve: Bytes -> bool)
  {
    /** A ciphertext is its plaintext and a 16-byte tag. */
    ghost predicate Sized() {
      && (forall k, n, m, a :: |seal(k, n, m, a)| == |m| + 16)
      && (forall k, n, c, a :: open(k, n, c, a).Some? ==> |open(k, n, c, a).value| + 16 == |c|)
    }

    /** The one law of the authenticated cipher: what was sealed opens. */
    ghost predicate Lawful() {
      forall k, n, m, a :: open(k, n, seal(k, n, m, a), a) == Some(m)
    }
  }

  type Primitives = p: PrimitiveSet | p.Sized() witness TOY

  /** A cipher that only appends its tag, to show that the law can be met. */
  const TOY: PrimitiveSet := PrimitiveSet(
    b => Zeros(32),
    (salt, ikm, info) => Zeros(32),
    (key, message) => Zeros(32),
    (passphrase, salt, memory, passes, lanes) => Zeros(32),
    (k, n, m, a) => m + Zeros(16),
    (k, n, c, a) => if |c| >= 16 && c[|c| - 16..] == Zeros(16) then Some(c[..|c| - 16]) else None,
    b => true)

  lemma ToyIsLawful()
    ensures TOY.Sized() && TOY.Lawful()
  {
    forall m: Bytes
      ensures (m + Zeros(16))[|m|..] == Zeros(16) && (m + Zeros(16))[..|m|] == m
    {
    }
  }

  // ----- domains -----

  datatype Domain =
    | RecipientContext | PrfInput | PassphraseKeyInfo | FidoKeyInfo | FidoLocalFidoKey | FidoLocalSecretKey
    | FidoLocalCombinedKey | RecoverySecretKeyInfo | PassphraseAad | FidoAad | FidoLocalAad | RecoverySecretAad
    | CombinedPassphraseAad | CombinedFidoAad | EnvelopeMacKey | EnvelopeMac

  function DomainText(d: Domain): string
  {
    match d
    case RecipientContext => "fido_key_wrap/format_1/recipient_context"
    case PrfInput => "fido_key_wrap/format_1/prf_input"
    case PassphraseKeyInfo => "fido_key_wrap/format_1/passphrase_key"
    case FidoKeyInfo => "fido_key_wrap/format_1/fido_key"
    case FidoLocalFidoKey => "fido_key_wrap/format_1/fido_local_fido_key"
    case FidoLocalSecretKey => "fido_key_wrap/format_1/fido_local_secret_key"
    case FidoLocalCombinedKey => "fido_key_wrap/format_1/fido_local_combined_key"
    case RecoverySecretKeyInfo => "fido_key_wrap/format_1/recovery_secret_key"
    case PassphraseAad => "fido_key_wrap/format_1/passphrase_aad"
    case FidoAad => "fido_key_wrap/format_1/fido_aad"
    case FidoLocalAad => "fido_key_wrap/format_1/fido_local_aad"
    case RecoverySecretAad => "fido_key_wrap/format_1/recovery_secret_aad"
    case CombinedPassphraseAad => "fido_key_wrap/format_1/combined_passphrase_aad"
    case CombinedFidoAad => "fido_key_wrap/format_1/combined_fido_aad"
    case EnvelopeMacKey => "fido_key_wrap/format_1/envelope_mac_key"
    case EnvelopeMac => "fido_key_wrap/format_1/envelope_mac"
  }

  function Ascii(text: string): (b: Bytes)
    ensures |b| == |text|
  {
    seq(|text|, i requires 0 <= i < |text| => (text[i] as int) % 256)
  }

  /** The bytes of a domain string. */
  function DomainBytes(d: Domain): Bytes
  {
    Ascii(DomainText(d))
  }

  /** Length, the first byte after the common prefix, and the last byte already tell the sixteen strings apart. */
  function Outline(d: Domain): (int, int, int)
  {
    match d
    case RecipientContext => (40, 'r' as int, 't' as int)
    case PrfInput => (32, 'p' as int, 't' as int)
    case PassphraseKeyInfo => (37, 'p' as int, 'y' as int)
    case FidoKeyInfo => (31, 'f' as int, 'y' as int)
    case FidoLocalFidoKey => (42, 'f' as int, 'y' as int)
    case FidoLocalSecretKey => (44, 'f' as int, 'y' as int)
    case FidoLocalCombinedKey => (46, 'f' as int, 'y' as int)
    case RecoverySecretKeyInfo => (42, 'r' as int, 'y' as int)
    case PassphraseAad => (37, 'p' as int, 'd' as int)
    case FidoAad => (31, 'f' as int, 'd' as int)
    case FidoLocalAad => (37, 'f' as int, 'd' as int)
    case RecoverySecretAad => (42, 'r' as int, 'd' as int)
    case CombinedPassphraseAad => (46, 'c' as int, 'd' as int)
    case CombinedFidoAad => (40, 'c' as int, 'd' as int)
    case EnvelopeMacKey => (39, 'e' as int, 'y' as int)
    case EnvelopeMac => (35, 'e' as int, 'c' as int)
  }

  lemma TextOutline(d: Domain)
    ensures var b := DomainBytes(d); |b| > 23 && Outline(d) == (|b|, b[23], b[|b| - 1])
  {
  }

  lemma DomainsDistinct(a: Domain, b: Domain)
    ensures DomainBytes(a) == DomainBytes(b) <==> a == b
    ensures |DomainBytes(a)| <= 46
  {
    TextOutline(a);
    TextOutline(b);
    hide DomainText, DomainBytes;
    if DomainBytes(a) == DomainBytes(b) {
      assert Outline(a) == Outline(b);
    }
  }

  // ----- recipient contexts -----

  function ContextHeader(r: RecipientRecord, app: Bytes, envelopeId: Bytes32): (fields: seq<Bytes>)
    ensures |fields| == 6
  {
    [DomainBytes(RecipientContext), [1], [r.Suite()], app, envelopeId, r.id]
  }

  function KdfFields(kdf: KdfDescriptor): (fields: seq<Bytes>)
    ensures |fields| == 5
  {
    [[ARGON2ID_KDF], U32(kdf.parameters.memoryKib), U32(kdf.parameters.passes), [kdf.parameters.lanes % 256], kdf.salt]
  }

  function ContextTail(r: RecipientRecord): seq<Bytes>
  {
    match r
    case Passphrase(_, _, kdf, nonce, _) => KdfFields(kdf) + [nonce]
    case RecoverySecret(_, caption, nonce, _) => [caption, nonce]
    case Fido(_, _, credential, key, policy, _, prfNonce, fidoNonce, _) =>
      [credential, key, [policy.Code()], prfNonce, fidoNonce]
    case FidoAndPassphrase(_, _, credential, key, policy, prfNonce, fidoNonce, kdf, nonce, _) =>
      [credential, key, [policy.Code()], prfNonce, fidoNonce] + KdfFields(kdf) + [nonce]
    case FidoAndLocalSecret(_, caption, credential, key, prfNonce, nonce, _) =>
      [caption, credential, key, prfNonce, nonce]
  }

  function ContextFields(r: RecipientRecord, app: Bytes, envelopeId: Bytes32): seq<Bytes>
  {
    ContextHeader(r, app, envelopeId) + ContextTail(r)
  }

  function ContextTranscript(r: RecipientRecord, app: Bytes, envelopeId: Bytes32): Bytes
  {
    Frame(ContextFields(r, app, envelopeId))
  }

  /** The part of a record its context binds: not the wrapped root, and the label in two suites only. */
  function Bound(r: RecipientRecord): RecipientRecord
  {
    match r
    case Passphrase(id, _, kdf, nonce, _) => Passphrase(id, [], kdf, nonce, Zeros(48))
    case RecoverySecret(id, caption, nonce, _) => RecoverySecret(id, caption, nonce, Zeros(48))
    case Fido(id, _, credential, key, policy, storage, prfNonce, nonce, _) =>
      Fido(id, [], credential, key, policy, storage, prfNonce, nonce, Zeros(48))
    case FidoAndPassphrase(id, _, credential, key, policy, prfNonce, fidoNonce, kdf, nonce, _) =>
      FidoAndPassphrase(id, [], credential, key, policy, prfNonce, fidoNonce, kdf, nonce, Zeros(64))
    case FidoAndLocalSecret(id, caption, credential, key, prfNonce, nonce, _) =>
      FidoAndLocalSecret(id, caption, credential, key, prfNonce, nonce, Zeros(48))
  }

  /** The framing of a context can never be refused. */
  lemma ContextFramable(r: RecipientRecord, app: Bytes, envelopeId: Bytes32, onCurve: Bytes -> bool)
    requires r.Valid(onCurve) && |app| <= 253
    ensures Framable(ContextFields(r, app, envelopeId))
  {
    DomainsDistinct(RecipientContext, RecipientContext);
    hide DomainBytes;
    var header: seq<Bytes>, tail: seq<Bytes> := ContextHeader(r, app, envelopeId), ContextTail(r);
    assert forall i | 0 <= i < |header| :: |header[i]| < U32_END;
    assert |tail| <= 11 && forall i | 0 <= i < |tail| :: |tail[i]| < U32_END;
    hide ContextHeader, ContextTail;
    forall i | 0 <= i < |header + tail|
      ensures |(header + tail)[i]| < U32_END
    {
      assert (header + tail)[i] == if i < |header| then header[i] else tail[i - |header|];
    }
  }

  lemma KdfFieldsInjective(k: KdfDescriptor, l: KdfDescriptor)
    requires k.parameters.Valid() && l.parameters.Valid()
    requires KdfFields(k) == KdfFields(l)
    ensures k == l
  {
    var x, y := KdfFields(k), KdfFields(l);
    assert x[1] == y[1] && x[2] == y[2] && x[3] == y[3] && x[4] == y[4];
    hide U32;
    U32Injective(k.parameters.memoryKib, l.parameters.memoryKib);
    U32Injective(k.parameters.passes, l.parameters.passes);
    assert [k.parameters.lanes % 256][0] == [l.parameters.lanes % 256][0];
  }

  lemma TailInjective(r: RecipientRecord, s: RecipientRecord, onCurve: Bytes -> bool)
    requires r.Valid(onCurve) && s.Valid(onCurve)
    requires r.Suite() == s.Suite() && r.id == s.id
    requires ContextTail(r) == ContextTail(s)
    ensures Bound(r) == Bound(s)
  {
    hide KdfFields;
    var x, y := ContextTail(r), ContextTail(s);
    if r.Passphrase? {
      SameCut(KdfFields(r.kdf), KdfFields(s.kdf), [r.passphraseNonce], [s.passphraseNonce]);
      assert [r.passphraseNonce][0] == [s.passphraseNonce][0];
      KdfFieldsInjective(r.kdf, s.kdf);
    } else if r.RecoverySecret? {
      assert x[0] == y[0] && x[1] == y[1];
    } else if r.FidoAndLocalSecret? {
      assert x[0] == y[0] && x[1] == y[1] && x[2] == y[2] && x[3] == y[3] && x[4] == y[4];
    } else {
      var front := (t: RecipientRecord) requires t.Fido? || t.FidoAndPassphrase? =>
        [t.credentialId, t.publicKey, [t.policy.Code()], t.prfNonce, t.fidoNonce];
      assert front(r)[0] == x[0] == y[0] == front(s)[0] && front(r)[1] == x[1] == y[1] == front(s)[1];
      assert front(r)[2] == x[2] == y[2] == front(s)[2];
      assert front(r)[3] == x[3] == y[3] == front(s)[3] && front(r)[4] == x[4] == y[4] == front(s)[4];
      assert [r.policy.Code()][0] == [s.policy.Code()][0];
      if r.FidoAndPassphrase? {
        ConcatAssociative(front(r), KdfFields(r.kdf), [r.passphraseNonce]);
        ConcatAssociative(front(s), KdfFields(s.kdf), [s.passphraseNonce]);
        SameCut(front(r), front(s), KdfFields(r.kdf) + [r.passphraseNonce], KdfFields(s.kdf) + [s.passphraseNonce]);
        SameCut(KdfFields(r.kdf), KdfFields(s.kdf), [r.passphraseNonce], [s.passphraseNonce]);
        assert [r.passphraseNonce][0] == [s.passphraseNonce][0];
        KdfFieldsInjective(r.kdf, s.kdf);
      }
    }
  }

  lemma BoundSharesContext(r: RecipientRecord, s: RecipientRecord)
    requires Bound(r) == Bound(s)
    ensures ContextTail(r) == ContextTail(s) && r.Suite() == s.Suite() && r.id == s.id
  {
  }

  /** Two contexts are the same exactly when everything they bind is. */
  lemma ContextInjective(r: RecipientRecord, appR: Bytes, idR: Bytes32, s: RecipientRecord, appS: Bytes, idS: Bytes32,
                         onCurve: Bytes -> bool)
    requires r.Valid(onCurve) && s.Valid(onCurve) && |appR| <= 253 && |appS| <= 253
    ensures ContextTranscript(r, appR, idR) == ContextTranscript(s, appS, idS)
            <==> appR == appS && idR == idS && Bound(r) == Bound(s)
  {
    ContextFramable(r, appR, idR, onCurve);
    ContextFramable(s, appS, idS, onCurve);
    hide Bound, ContextTail, DomainBytes, Frame, RecipientRecord.Suite, RecipientRecord.Valid;
    FrameInjective(ContextFields(r, appR, idR), ContextFields(s, appS, idS));
    if ContextTranscript(r, appR, idR) == ContextTranscript(s, appS, idS) {
      var x, y := ContextHeader(r, appR, idR), ContextHeader(s, appS, idS);
      SameCut(x, y, ContextTail(r), ContextTail(s));
      assert x[2] == y[2] && x[3] == y[3] && x[4] == y[4] && x[5] == y[5];
      assert [r.Suite()][0] == [s.Suite()][0];
      TailInjective(r, s, onCurve);
    }
    if appR == appS && idR == idS && Bound(r) == Bound(s) {
      BoundSharesContext(r, s);
    }
  }

  /** Transcripts that begin with different domains never coincide. */
  lemma DomainsSeparate(a: Domain, b: Domain, x: seq<Bytes>, y: seq<Bytes>)
    requires Framable([DomainBytes(a)] + x) && Framable([DomainBytes(b)] + y)
    requires Frame([DomainBytes(a)] + x) == Frame([DomainBytes(b)] + y)
    ensures a == b && x == y
  {
    hide Frame, DomainBytes;
    FrameInjective([DomainBytes(a)] + x, [DomainBytes(b)] + y);
    SameCut([DomainBytes(a)], [DomainBytes(b)], x, y);
    assert [DomainBytes(a)][0] == [DomainBytes(b)][0];
    DomainsDistinct(a, b);
  }

  // ----- derived keys -----

  function Context(p: Primitives, r: RecipientRecord, app: Bytes, envelopeId: Bytes32): Bytes32
  {
    p.sha256(ContextTranscript(r, app, envelopeId))
  }

  /** Key information and associated data: one domain and one context. */
  function Tagged(d: Domain, context: Bytes32): Bytes
  {
    Frame([DomainBytes(d), context])
  }

  function PrfInputOf(p: Primitives, r: RecipientRecord, app: Bytes, envelopeId: Bytes32): Bytes32
  {
    p.sha256(Tagged(PrfInput, Context(p, r, app, envelopeId)))
  }

  function PassphraseKey(p: Primitives, r: RecipientRecord, app: Bytes, envelopeId: Bytes32, passphrase: Bytes): Bytes32
    requires r.UsesPassphrase()
  {
    var k := r.kdf;
    var intermediate := p.argon2(passphrase, k.salt, k.parameters.memoryKib, k.parameters.passes, k.parameters.lanes);
    p.hkdf(envelopeId, intermediate, Tagged(PassphraseKeyInfo, Context(p, r, app, envelopeId)))
  }

  function RecoverySecretKey(p: Primitives, r: RecipientRecord, app: Bytes, envelopeId: Bytes32, secret: Bytes32): Bytes32
  {
    p.hkdf(envelopeId, secret, Tagged(RecoverySecretKeyInfo, Context(p, r, app, envelopeId)))
  }

  function FidoKey(p: Primitives, r: RecipientRecord, app: Bytes, envelopeId: Bytes32, prf: Bytes32): Bytes32
  {
    p.hkdf(envelopeId, prf, Tagged(FidoKeyInfo, Context(p, r, app, envelopeId)))
  }

  function FidoLocalKey(p: Primitives, r: RecipientRecord, app: Bytes, envelopeId: Bytes32, prf: Bytes32,
                        secret: Bytes32): Bytes32
  {
    var context := Context(p, r, app, envelopeId);
    var fidoKey := p.hkdf(envelopeId, prf, Tagged(FidoLocalFidoKey, context));
    var localKey := p.hkdf(envelopeId, secret, Tagged(FidoLocalSecretKey, context));
    p.hkdf(localKey, fidoKey, Tagged(FidoLocalCombinedKey, context))
  }

  // ----- wrapping layers -----

  datatype RecoveryKeys =
    | PassphraseKeys(key: Bytes32)
    | RecoverySecretKeys(key: Bytes32)
    | FidoKeys(key: Bytes32)
    | FidoAndLocalKeys(key: Bytes32)
    | CombinedKeys(passphrase: Bytes32, fido: Bytes32)

  predicate Matches(r: RecipientRecord, keys: RecoveryKeys)
  {
    match r
    case Passphrase(_, _, _, _, _) => keys.PassphraseKeys?
    case RecoverySecret(_, _, _, _) => keys.RecoverySecretKeys?
    case Fido(_, _, _, _, _, _, _, _, _) => keys.FidoKeys?
    case FidoAndPassphrase(_, _, _, _, _, _, _, _, _, _) => keys.CombinedKeys?
    case FidoAndLocalSecret(_, _, _, _, _, _, _) => keys.FidoAndLocalKeys?
  }

  /** The record with the root wrapped under its keys: one layer, or two for the combined suite. */
  function Wrap(p: Primitives, r: RecipientRecord, app: Bytes, envelopeId: Bytes32, root: Bytes32,
                keys: RecoveryKeys): RecipientRecord
    requires Matches(r, keys)
  {
    var context := Context(p, r, app, envelopeId);
    match r
    case Passphrase(id, caption, kdf, nonce, _) =>
      Passphrase(id, caption, kdf, nonce, p.seal(keys.key, nonce, root, Tagged(PassphraseAad, context)))
    case RecoverySecret(id, caption, nonce, _) =>
      RecoverySecret(id, caption, nonce, p.seal(keys.key, nonce, root, Tagged(RecoverySecretAad, context)))
    case Fido(id, caption, credential, key, policy, storage, prfNonce, nonce, _) =>
      Fido(id, caption, credential, key, policy, storage, prfNonce, nonce, p.seal(keys.key, nonce, root, Tagged(FidoAad, context)))
    case FidoAndPassphrase(id, caption, credential, key, policy, prfNonce, fidoNonce, kdf, nonce, _) =>
      var inner := p.seal(keys.passphrase, nonce, root, Tagged(CombinedPassphraseAad, context));
      FidoAndPassphrase(id, caption, credential, key, policy, prfNonce, fidoNonce, kdf, nonce,
                        p.seal(keys.fido, fidoNonce, inner, Tagged(CombinedFidoAad, context)))
    case FidoAndLocalSecret(id, caption, credential, key, prfNonce, nonce, _) =>
      FidoAndLocalSecret(id, caption, credential, key, prfNonce, nonce, p.seal(keys.key, nonce, root, Tagged(FidoLocalAad, context)))
  }

  function Opened(o: Option<Bytes>): (r: Outcome<Bytes>)
    ensures r.Ok? ==> o == Some(r.value)
    ensures r.Err? ==> o == None && r.error == UnlockFailed
  {
    if o.Some? then Ok(o.value) else Err(UnlockFailed)
  }

  /** Only the outer layer of a combined record. */
  function OpenOuter(p: Primitives, r: RecipientRecord, app: Bytes, envelopeId: Bytes32,
                     fidoKey: Bytes32): (inner: Outcome<Bytes>)
    requires r.FidoAndPassphrase?
    ensures inner.Ok? ==> |inner.value| == 48
    ensures inner.Err? ==> inner.error == UnlockFailed
  {
    Opened(p.open(fidoKey, r.fidoNonce, r.combinedRoot, Tagged(CombinedFidoAad, Context(p, r, app, envelopeId))))
  }

  function OpenInner(p: Primitives, r: RecipientRecord, app: Bytes, envelopeId: Bytes32, inner: Bytes,
                     passphraseKey: Bytes32): (root: Outcome<Bytes>)
    requires r.FidoAndPassphrase? && |inner| == 48
    ensures root.Ok? ==> |root.value| == 32
    ensures root.Err? ==> root.error == UnlockFailed
  {
    Opened(p.open(passphraseKey, r.passphraseNonce, inner, Tagged(CombinedPassphraseAad, Context(p, r, app, envelopeId))))
  }

  /** Undoes the layers of a record with the keys of its own suite; anything else is refused. */
  function Recover(p: Primitives, r: RecipientRecord, app: Bytes, envelopeId: Bytes32, keys: RecoveryKeys): (root: Outcome<Bytes>)
    ensures root.Ok? ==> |root.value| == 32
  {
    if !Matches(r, keys) then Err(InvalidEnvelope) else
    var context := Context(p, r, app, envelopeId);
    match r
    case Passphrase(_, _, _, nonce, wrapped) => Opened(p.open(keys.key, nonce, wrapped, Tagged(PassphraseAad, context)))
    case RecoverySecret(_, _, nonce, wrapped) => Opened(p.open(keys.key, nonce, wrapped, Tagged(RecoverySecretAad, context)))
    case Fido(_, _, _, _, _, _, _, nonce, wrapped) => Opened(p.open(keys.key, nonce, wrapped, Tagged(FidoAad, context)))
    case FidoAndLocalSecret(_, _, _, _, _, nonce, wrapped) => Opened(p.open(keys.key, nonce, wrapped, Tagged(FidoLocalAad, context)))
    case FidoAndPassphrase(_, _, _, _, _, _, _, _, _, _) =>
      var inner :- OpenOuter(p, r, app, envelopeId, keys.fido);
      OpenInner(p, r, app, envelopeId, inner, keys.passphrase)
  }

  /** Wrapping changes the wrapped root alone, so it keeps the context. */
  lemma WrapKeeps(p: Primitives, r: RecipientRecord, app: Bytes, envelopeId: Bytes32, root: Bytes32, keys: RecoveryKeys)
    requires Matches(r, keys)
    ensures var w := Wrap(p, r, app, envelopeId, root, keys);
            && Bound(w) == Bound(r) && w.caption == r.caption
            && Matches(w, keys) && Context(p, w, app, envelopeId) == Context(p, r, app, envelopeId)
            && (w.UsesPassphrase() <==> r.UsesPassphrase()) && (w.UsesCredential() <==> r.UsesCredential())
            && (w.IsManaged() <==> r.IsManaged())
            && (forall s :: Clash(w, s) == Clash(r, s) && Clash(s, w) == Clash(s, r))
            && (r.Valid(p.onCurve) ==> w.Valid(p.onCurve))
  {
    hide Tagged, Frame;
  }

  /** Every suite recovers the root it wrapped, whatever the primitives, if only the cipher is lawful. */
  lemma WrapRecovers(p: Primitives, r: RecipientRecord, app: Bytes, envelopeId: Bytes32, root: Bytes32, keys: RecoveryKeys)
    requires p.Lawful() && Matches(r, keys)
    ensures Recover(p, Wrap(p, r, app, envelopeId, root, keys), app, envelopeId, keys) == Ok(root)
  {
    WrapKeeps(p, r, app, envelopeId, root, keys);
    hide Context, Tagged, PrimitiveSet.Sized;
  }

  // ----- the whole-envelope MAC -----

  function MacMessage(e: Envelope): Bytes
  {
    Frame([DomainBytes(EnvelopeMac), [1], CanonicalBody(e)])
  }

  function Mac(p: Primitives, e: Envelope, root: Bytes32): Bytes32
  {
    var info := Frame([DomainBytes(EnvelopeMacKey), [1], e.applicationId]);
    p.hmac(p.hkdf(e.envelopeId, root, info), MacMessage(e))
  }

  /** Nor can the framing of the MAC key information or of the MAC message be refused. */
  lemma MacFramable(e: Envelope, onCurve: Bytes -> bool)
    requires WellFormed(e, onCurve)
    ensures Framable([DomainBytes(EnvelopeMacKey), [1], e.applicationId])
    ensures Framable([DomainBytes(EnvelopeMac), [1], CanonicalBody(e)])
  {
    DomainsDistinct(EnvelopeMacKey, EnvelopeMac);
    DomainsDistinct(EnvelopeMac, EnvelopeMacKey);
    Codec.EncodingSize(e, onCurve);
    hide DomainBytes, CanonicalBody, LabelsShaped;
  }

  lemma MacIgnoresMac(p: Primitives, e: Envelope, mac: Bytes32, root: Bytes32)
    ensures Mac(p, e.(mac := mac), root) == Mac(p, e, root)
  {
    Codec.BodyIgnoresMac(e, e.(mac := mac));
    hide BodyItems, Frame;
  }

  /** The authenticated message determines every field and record, labels included. */
  lemma MacMessageInjective(e: Envelope, f: Envelope, onCurve: Bytes -> bool)
    requires WellFormed(e, onCurve) && WellFormed(f, onCurve)
    requires MacMessage(e) == MacMessage(f)
    ensures e.(mac := f.mac) == f
  {
    DomainsDistinct(EnvelopeMac, EnvelopeMac);
    Codec.EncodingSize(e, onCurve);
    Codec.EncodingSize(f, onCurve);
    hide DomainBytes, Frame, CanonicalBody, WellFormed;
    var x, y := [DomainBytes(EnvelopeMac), [1], CanonicalBody(e)], [DomainBytes(EnvelopeMac), [1], CanonicalBody(f)];
    FrameInjective(x, y);
    assert x[2] == y[2];
    Codec.CanonicalBodyInjective(e, f, onCurve);
  }

  // ----- factors -----

  /** What a user presents to open one record. */
  datatype Factors =
    | ByPassphrase(passphrase: Bytes)
    | ByRecoverySecret(secret: Bytes32)
    | ByFido(prf: Bytes32)
    | ByFidoAndSecret(prf: Bytes32, secret: Bytes32)
    | ByFidoAndPassphrase(prf: Bytes32, passphrase: Bytes)

  predicate Suits(r: RecipientRecord, f: Factors)
  {
    match r
    case Passphrase(_, _, _, _, _) => f.ByPassphrase?
    case RecoverySecret(_, _, _, _) => f.ByRecoverySecret?
    case Fido(_, _, _, _, _, _, _, _, _) => f.ByFido?
    case FidoAndPassphrase(_, _, _, _, _, _, _, _, _, _) => f.ByFidoAndPassphrase?
    case FidoAndLocalSecret(_, _, _, _, _, _, _) => f.ByFidoAndSecret?
  }

  function KeysFrom(p: Primitives, r: RecipientRecord, app: Bytes, envelopeId: Bytes32, f: Factors): (keys: RecoveryKeys)
    requires Suits(r, f)
    ensures Matches(r, keys)
  {
    match r
    case Passphrase(_, _, _, _, _) => PassphraseKeys(PassphraseKey(p, r, app, envelopeId, f.passphrase))
    case RecoverySecret(_, _, _, _) => RecoverySecretKeys(RecoverySecretKey(p, r, app, envelopeId, f.secret))
    case Fido(_, _, _, _, _, _, _, _, _) => FidoKeys(FidoKey(p, r, app, envelopeId, f.prf))
    case FidoAndPassphrase(_, _, _, _, _, _, _, _, _, _) =>
      CombinedKeys(PassphraseKey(p, r, app, envelopeId, f.passphrase), FidoKey(p, r, app, envelopeId, f.prf))
    case FidoAndLocalSecret(_, _, _, _, _, _, _) => FidoAndLocalKeys(FidoLocalKey(p, r, app, envelopeId, f.prf, f.secret))
  }

  /** Opens one record with factors of its own suite. */
  function Open(p: Primitives, r: RecipientRecord, app: Bytes, envelopeId: Bytes32, f: Factors): (root: Outcome<Bytes>)
    ensures root.Ok? ==> |root.value| == 32
  {
    if !Suits(r, f) then Err(UnlockFailed) else Recover(p, r, app, envelopeId, KeysFrom(p, r, app, envelopeId, f))
  }

  /** The keys depend on the record through its context and its KDF parameters only. */
  lemma KeysIgnoreRoot(p: Primitives, r: RecipientRecord, s: RecipientRecord, app: Bytes, envelopeId: Bytes32, f: Factors)
    requires Bound(r) == Bound(s) && Suits(r, f)
    ensures Suits(s, f) && KeysFrom(p, r, app, envelopeId, f) == KeysFrom(p, s, app, envelopeId, f)
  {
    BoundSharesContext(r, s);
    hide ContextTail, Frame, Tagged;
  }
}
