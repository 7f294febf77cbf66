/** The encrypted file of the command-line tool: an envelope and a secret sealed under its root. */
module Container {
  import opened Wrappers
  import opened Bytes
  import opened Transcript
  import opened Crypto

  const FILE_MAGIC: Bytes := [0x46, 0x4b, 0x57, 0x00]
  const FORMAT: byte := 1
  const NONCE_BYTES := 12
  const TAG_BYTES := 16
  const MAX_ENVELOPE_BYTES := 65_536
  const MAX_SECRET_BYTES := 1_048_576
  const MAX_CONTAINER_BYTES := 4 + 1 + 4 + MAX_ENVELOPE_BYTES + NONCE_BYTES + 4 + MAX_SECRET_BYTES + TAG_BYTES

  datatype ContainerError = TooLarge | Truncated | NotSupported | InvalidLength | TrailingData | RandomnessUnavailable | NotAuthentic

  datatype SecretFile = SecretFile(envelope: Bytes, nonce: Bytes12, ciphertext: Bytes)
  {
    predicate Valid() {
      EnvelopeLengthValid(|envelope|) && CiphertextLengthValid(|ciphertext|)
    }
  }

  predicate EnvelopeLengthValid(length: nat)
  {
    1 <= length <= MAX_ENVELOPE_BYTES
  }

  predicate CiphertextLengthValid(length: nat)
  {
    TAG_BYTES + 1 <= length <= MAX_SECRET_BYTES + TAG_BYTES
  }

  function Header(f: SecretFile): (b: Bytes)
    ensures |b| == 9
  {
    FILE_MAGIC + [FORMAT] + U32(|f.envelope|)
  }

  function Trailer(f: SecretFile): (b: Bytes)
    ensures |b| == 16 + |f.ciphertext|
  {
    f.nonce + U32(|f.ciphertext|) + f.ciphertext
  }

  /** The bytes of a file. */
  function FileBytes(f: SecretFile): (b: Bytes)
    ensures |b| == 25 + |f.envelope| + |f.ciphertext|
  {
    Header(f) + f.envelope + Trailer(f)
  }

  method Encode(f: SecretFile) returns (output: Bytes)
    ensures output == FileBytes(f)
  {
    hide U32;
    output := FILE_MAGIC;
    output := output + [FORMAT];
    output := output + U32(|f.envelope|);
    output := output + f.envelope;
    ghost var front := output;
    output := output + f.nonce;
    output := output + U32(|f.ciphertext|);
    output := output + f.ciphertext;
    ConcatAssociative(front, f.nonce, U32(|f.ciphertext|));
    ConcatAssociative(front, f.nonce + U32(|f.ciphertext|), f.ciphertext);
  }

  // ----- reading -----

  class ByteCursor {
    const input: Bytes
    var position: nat

    constructor (input: Bytes)
      ensures this.input == input && position == 0
    {
      this.input := input;
      position := 0;
    }

    /** The next bytes, or a refusal that moves nothing. */
    method Take(n: nat) returns (r: Result<Bytes, ContainerError>)
      requires position <= |input|
      modifies this`position
      ensures position <= |input|
      ensures r.Ok? <==> old(position) + n <= |input|
      ensures r.Ok? ==> |r.value| == n && position == old(position) + n && r.value == input[old(position)..position]
      ensures r.Err? ==> r.error == Truncated && position == old(position)
    {
      var end := position + n;
      if end > |input| {
        return Err(Truncated);
      }
      r := Ok(input[position..end]);
      position := end;
    }

    method TakeU32() returns (r: Result<nat, ContainerError>)
      requires position <= |input|
      modifies this`position
      ensures position <= |input|
      ensures r.Ok? <==> old(position) + 4 <= |input|
      ensures r.Ok? ==> position == old(position) + 4 && r.value < U32_END && U32(r.value) == input[old(position)..position]
      ensures r.Err? ==> r.error == Truncated
    {
      var bytes :- Take(4);
      WordSizes();
      WritesBack(bytes);
      return Ok(FromBigEndian(bytes));
    }
  }

  /** Where everything is in the bytes of a file. */
  lemma Layout(f: SecretFile)
    ensures var b, n, e := FileBytes(f), |f.envelope|, |f.ciphertext|;
            && b[0..4] == FILE_MAGIC && b[4..5] == [FORMAT] && b[5..9] == U32(n)
            && b[9..9 + n] == f.envelope && b[9 + n..21 + n] == f.nonce
            && b[21 + n..25 + n] == U32(e) && b[25 + n..25 + n + e] == f.ciphertext
  {
    hide U32;
    var b, n, e := FileBytes(f), |f.envelope|, |f.ciphertext|;
    var h, t := Header(f), Trailer(f);
    assert h[0..4] == FILE_MAGIC && h[4..5] == [FORMAT] && h[5..9] == U32(n);
    assert t[0..12] == f.nonce && t[12..16] == U32(e) && t[16..16 + e] == f.ciphertext;
    hide Header, Trailer;
    assert b[..9] == h && b[9..9 + n] == f.envelope && b[9 + n..] == t;
    Within(b, 0, 9, 0, 4);
    Within(b, 0, 9, 4, 5);
    Within(b, 0, 9, 5, 9);
    assert b[0..9] == h;
    Within(b, 9 + n, 25 + n + e, 0, 12);
    Within(b, 9 + n, 25 + n + e, 12, 16);
    Within(b, 9 + n, 25 + n + e, 16, 16 + e);
    assert b[9 + n..25 + n + e] == t;
  }

  lemma Within(b: Bytes, from: nat, to: nat, i: nat, j: nat)
    requires from <= to <= |b| && i <= j <= to - from
    ensures b[from..to][i..j] == b[from + i..from + j]
  {
    var x, y := b[from..to][i..j], b[from + i..from + j];
    forall k | 0 <= k < j - i
      ensures x[k] == y[k]
    {
      assert x[k] == b[from..to][i + k] == b[from + i + k];
    }
  }

  /** Bytes laid out like a file are the bytes of that file. */
  lemma Reassembled(b: Bytes, f: SecretFile)
    requires |b| == 25 + |f.envelope| + |f.ciphertext|
    requires var n, e := |f.envelope|, |f.ciphertext|;
             && b[0..4] == FILE_MAGIC && b[4..5] == [FORMAT] && b[5..9] == U32(n)
             && b[9..9 + n] == f.envelope && b[9 + n..21 + n] == f.nonce
             && b[21 + n..25 + n] == U32(e) && b[25 + n..25 + n + e] == f.ciphertext
    ensures b == FileBytes(f)
  {
    hide U32;
    var n, e := |f.envelope|, |f.ciphertext|;
    assert b[0..9] == b[0..4] + b[4..5] + b[5..9];
    assert b[9 + n..25 + n + e] == b[9 + n..21 + n] + b[21 + n..25 + n] + b[25 + n..25 + n + e];
    assert b == b[0..9] + b[9..9 + n] + b[9 + n..25 + n + e];
  }

  ghost predicate IsFile(input: Bytes)
  {
    exists f: SecretFile :: f.Valid() && FileBytes(f) == input
  }

  /** Accepts exactly the encodings of valid files. */
  method Decode(input: Bytes) returns (r: Result<SecretFile, ContainerError>)
    ensures r.Ok? <==> IsFile(input)
    ensures r.Ok? ==> r.value.Valid() && FileBytes(r.value) == input
  {
    hide U32, FileBytes;
    r := DecodeFields(input, if IsFile(input) then Some(FileOf(input)) else None);
  }

  ghost function FileOf(input: Bytes): (f: SecretFile)
    requires IsFile(input)
    ensures f.Valid() && FileBytes(f) == input
  {
    var f: SecretFile :| f.Valid() && FileBytes(f) == input;
    f
  }

  /** `want` is the hint that the input is the encoding of that file. */
  method DecodeFields(input: Bytes, ghost want: Option<SecretFile>) returns (r: Result<SecretFile, ContainerError>)
    requires want.Some? ==> want.value.Valid() && FileBytes(want.value) == input
    ensures r.Ok? ==> r.value.Valid() && FileBytes(r.value) == input
    ensures want.Some? ==> r == Ok(want.value)
  {
    hide U32, FileBytes, FromBigEndian;
    if want.Some? { Layout(want.value); }
    if |input| > MAX_CONTAINER_BYTES {
      return Err(TooLarge);
    }
    var cursor := new ByteCursor(input);
    var magic :- cursor.Take(4);
    var format :- cursor.Take(1);
    if magic != FILE_MAGIC || format[0] != FORMAT {
      return Err(NotSupported);
    }
    assert format == [FORMAT];
    var envelopeLength :- cursor.TakeU32();
    if want.Some? { U32Injective(envelopeLength, |want.value.envelope|); }
    if !EnvelopeLengthValid(envelopeLength) {
      return Err(InvalidLength);
    }
    var envelope :- cursor.Take(envelopeLength);
    var nonce :- cursor.Take(NONCE_BYTES);
    var ciphertextLength :- cursor.TakeU32();
    if want.Some? { U32Injective(ciphertextLength, |want.value.ciphertext|); }
    if !CiphertextLengthValid(ciphertextLength) {
      return Err(InvalidLength);
    }
    var ciphertext :- cursor.Take(ciphertextLength);
    if cursor.position != |input| {
      return Err(TrailingData);
    }
    Reassembled(input, SecretFile(envelope, nonce, ciphertext));
    return Ok(SecretFile(envelope, nonce, ciphertext));
  }

  // ----- laws of the encoding -----

  /** No file is a proper prefix of another; in particular encoding is injective. */
  lemma FilesPrefixFree(f: SecretFile, g: SecretFile, rest: Bytes)
    requires f.Valid() && g.Valid()
    requires FileBytes(f) + rest == FileBytes(g)
    ensures f == g && rest == []
  {
    Layout(f);
    Layout(g);
    hide U32, FileBytes;
    var b, c := FileBytes(f), FileBytes(g);
    assert forall i, j | 0 <= i <= j <= |b| :: (b + rest)[i..j] == b[i..j];
    assert c[5..9] == b[5..9];
    U32Injective(|f.envelope|, |g.envelope|);
    var n := |f.envelope|;
    assert c[9..9 + n] == b[9..9 + n] && c[9 + n..21 + n] == b[9 + n..21 + n] && c[21 + n..25 + n] == b[21 + n..25 + n];
    U32Injective(|f.ciphertext|, |g.ciphertext|);
    var e := |f.ciphertext|;
    assert c[25 + n..25 + n + e] == b[25 + n..25 + n + e];
    assert |b| == |c|;
  }

  /** The size limit that is checked first is met exactly by the largest valid file. */
  lemma LimitIsExact(f: SecretFile)
    requires f.Valid()
    ensures |FileBytes(f)| <= MAX_CONTAINER_BYTES
    ensures exists g: SecretFile :: g.Valid() && |FileBytes(g)| == MAX_CONTAINER_BYTES
  {
    var g := SecretFile(Zeros(MAX_ENVELOPE_BYTES), Zeros(12), Zeros(MAX_SECRET_BYTES + TAG_BYTES));
    assert g.Valid() && |FileBytes(g)| == MAX_CONTAINER_BYTES;
  }

  // ----- the secret -----

  const SECRET_KEY_DOMAIN := "fkw-tool/format_1/secret_encryption_key"
  const SECRET_AAD_DOMAIN := "fkw-tool/format_1/secret_aad"

  /** HKDF without a salt, which stands for a salt of zeros (section 2.2 of RFC 5869). */
  function SecretKey(p: Primitives, root: Bytes32, app: Bytes): Bytes32
  {
    p.hkdf(Zeros(32), root, Frame([Ascii(SECRET_KEY_DOMAIN), app]))
  }

  function SecretAad(envelope: Bytes): Bytes
  {
    Frame([Ascii(SECRET_AAD_DOMAIN), envelope])
  }

  method EncryptWithNonce(p: Primitives, root: Bytes32, app: Bytes, envelope: Bytes, plaintext: Bytes, nonce: Bytes12)
    returns (r: Result<SecretFile, ContainerError>)
    ensures r.Ok? <==> EnvelopeLengthValid(|envelope|) && 1 <= |plaintext| <= MAX_SECRET_BYTES
    ensures r.Ok? ==>
              && r.value.Valid() && r.value.envelope == envelope && r.value.nonce == nonce
              && (p.Lawful() ==> Decrypted(p, root, app, r.value) == Ok(plaintext))
  {
    if !EnvelopeLengthValid(|envelope|) {
      return Err(InvalidLength);
    }
    if plaintext == [] || |plaintext| > MAX_SECRET_BYTES {
      return Err(InvalidLength);
    }
    hide SecretKey, SecretAad;
    return Ok(SecretFile(envelope, nonce, p.seal(SecretKey(p, root, app), nonce, plaintext, SecretAad(envelope))));
  }

  /** The secret of a file under a root, for the very envelope it was sealed with. */
  function Decrypted(p: Primitives, root: Bytes32, app: Bytes, f: SecretFile): (r: Result<Bytes, ContainerError>)
    ensures r.Ok? ==> f.Valid() && 1 <= |r.value| <= MAX_SECRET_BYTES
  {
    if !f.Valid() then Err(InvalidLength) else
    var plain := p.open(SecretKey(p, root, app), f.nonce, f.ciphertext, SecretAad(f.envelope));
    if plain.None? then Err(NotAuthentic)
    else if 1 <= |plain.value| <= MAX_SECRET_BYTES then Ok(plain.value) else Err(InvalidLength)
  }

  /** A secret is bound to its exact envelope: different envelopes are sealed under different associated data. */
  lemma AadNamesEnvelope(e: Bytes, f: Bytes)
    requires |e| <= MAX_ENVELOPE_BYTES && |f| <= MAX_ENVELOPE_BYTES && SecretAad(e) == SecretAad(f)
    ensures e == f
  {
    hide Frame, Ascii;
    assert |Ascii(SECRET_AAD_DOMAIN)| == 28;
    FrameInjective([Ascii(SECRET_AAD_DOMAIN), e], [Ascii(SECRET_AAD_DOMAIN), f]);
    assert [Ascii(SECRET_AAD_DOMAIN), e][1] == [Ascii(SECRET_AAD_DOMAIN), f][1];
  }
}
