/** The strict decoder, and the laws of the encoding. */
module Codec {
  import opened Wrappers
  import opened Errors
  import opened Bytes
  import opened Cbor
  import opened Identity
  import opened Policy
  import opened Envelopes

  // ----- every encoded item fits a CBOR head -----

  lemma RecordFits(r: RecipientRecord, onCurve: Bytes -> bool)
    requires r.Valid(onCurve)
    ensures AllFit(RecordItems(r))
  {
  }

  lemma {:induction false} FlattenFits(groups: seq<seq<Item>>)
    requires forall i | 0 <= i < |groups| :: AllFit(groups[i])
    ensures AllFit(Flatten(groups))
  {
    if groups != [] {
      FlattenFits(groups[1..]);
      var first: seq<Item>, rest: seq<Item> := groups[0], Flatten(groups[1..]);
      assert AllFit(first);
      forall i | 0 <= i < |first + rest|
        ensures (first + rest)[i].Fits()
      {
        if i >= |first| { assert (first + rest)[i] == rest[i - |first|]; }
      }
    }
  }

  lemma EnvelopeFits(e: Envelope, onCurve: Bytes -> bool)
    requires WellFormed(e, onCurve)
    ensures AllFit(BodyItems(e)) && AllFit(EnvelopeItems(e)) && AllFit([Array(4)] + BodyItems(e))
  {
    var groups := RecordGroups(e.recipients);
    forall i | 0 <= i < |groups|
      ensures AllFit(groups[i])
    {
      RecordFits(e.recipients[i], onCurve);
    }
    hide RecordItems, RecordGroups;
    FlattenFits(groups);
    var rest := Flatten(groups);
    var body := BodyItems(e);
    forall i | 0 <= i < |body|
      ensures body[i].Fits()
    {
      if i >= 4 { assert body[i] == rest[i - 4]; }
    }
    var items := EnvelopeItems(e);
    forall i | 0 <= i < |items|
      ensures items[i].Fits()
    {
      if 1 <= i <= |body| { assert items[i] == body[i - 1]; }
    }
  }

  // ----- the items determine the records -----

  lemma RecordDetermined(r: RecipientRecord, s: RecipientRecord, items: seq<Item>, k: nat)
    requires StandsAt(RecordItems(r), items, k) && StandsAt(RecordItems(s), items, k)
    ensures r == s
  {
    RecordAt(items, k, r);
    RecordAt(items, k, s);
    hide RecordItems, StandsAt;
    assert r.Suite() == s.Suite();
    if r.Fido? || r.FidoAndPassphrase? {
      assert UInt(r.policy.Code()) == UInt(s.policy.Code());
      assert r.policy == s.policy;
    }
    if r.UsesPassphrase() {
      assert r.kdf == s.kdf;
    }
  }

  lemma StandsSplit(xs: seq<Item>, ys: seq<Item>, items: seq<Item>, k: nat)
    requires StandsAt(xs + ys, items, k)
    ensures StandsAt(xs, items, k) && StandsAt(ys, items, k + |xs|)
  {
    var zs := xs + ys;
    forall j | 0 <= j < |xs|
      ensures xs[j] == items[k + j]
    {
      assert zs[j] == items[k + j];
    }
    forall j | 0 <= j < |ys|
      ensures ys[j] == items[k + |xs| + j]
    {
      assert zs[|xs| + j] == items[k + (|xs| + j)];
    }
  }

  lemma {:induction false} RecordsDetermined(rs: seq<RecipientRecord>, ss: seq<RecipientRecord>, items: seq<Item>, k: nat)
    requires |rs| == |ss|
    requires StandsAt(Flatten(RecordGroups(rs)), items, k) && StandsAt(Flatten(RecordGroups(ss)), items, k)
    ensures rs == ss
    decreases |rs|
  {
    if rs != [] {
      GroupsUnfold(rs);
      GroupsUnfold(ss);
      hide RecordItems, Flatten, RecordGroups, StandsAt;
      StandsSplit(RecordItems(rs[0]), Flatten(RecordGroups(rs[1..])), items, k);
      StandsSplit(RecordItems(ss[0]), Flatten(RecordGroups(ss[1..])), items, k);
      RecordDetermined(rs[0], ss[0], items, k);
      RecordsDetermined(rs[1..], ss[1..], items, k + |RecordItems(rs[0])|);
      assert rs == [rs[0]] + rs[1..] && ss == [ss[0]] + ss[1..];
    }
  }

  lemma GroupsUnfold(rs: seq<RecipientRecord>)
    requires rs != []
    ensures Flatten(RecordGroups(rs)) == RecordItems(rs[0]) + Flatten(RecordGroups(rs[1..]))
  {
    hide RecordItems;
    assert RecordGroups(rs)[1..] == RecordGroups(rs[1..]);
  }

  /** A list that begins with the body of `e` does not begin with any other body. */
  lemma BodyDetermined(e: Envelope, f: Envelope, items: seq<Item>, k: nat)
    requires StandsAt(BodyItems(e), items, k) && StandsAt(BodyItems(f), items, k)
    ensures e.applicationId == f.applicationId && e.envelopeId == f.envelopeId && e.recipients == f.recipients
  {
    hide RecordItems, RecordGroups, Flatten;
    var front := (g: Envelope) => [UInt(FORMAT_VERSION), Text(g.applicationId), Blob(g.envelopeId), Array(|g.recipients|)];
    var xs, ys := BodyItems(e), BodyItems(f);
    assert xs[1] == items[k + 1] == ys[1] && xs[2] == items[k + 2] == ys[2] && xs[3] == items[k + 3] == ys[3];
    StandsSplit(front(e), Flatten(RecordGroups(e.recipients)), items, k);
    StandsSplit(front(f), Flatten(RecordGroups(f.recipients)), items, k);
    RecordsDetermined(e.recipients, f.recipients, items, k + 4);
  }

  lemma PrefixStands(xs: seq<Item>, items: seq<Item>)
    requires xs <= items
    ensures StandsAt(xs, items, 0)
  {
  }

  // ----- laws of the encoding -----

  /** No encoding of a valid envelope is a proper prefix of another; in particular encoding is injective. */
  lemma PrefixFree(e: Envelope, f: Envelope, rest: Bytes, onCurve: Bytes -> bool)
    requires WellFormed(e, onCurve) && WellFormed(f, onCurve)
    requires Encoded(e) + rest == Encoded(f)
    ensures e == f && rest == []
  {
    hide BodyItems, EncodeItems, DnsShaped;
    var xs, ys := EnvelopeItems(e), EnvelopeItems(f);
    EnvelopeFits(e, onCurve);
    EnvelopeFits(f, onCurve);
    assert Encoded(e)[|MAGIC|..] == EncodeItems(xs) && Encoded(f)[|MAGIC|..] == EncodeItems(ys);
    assert (Encoded(e) + rest)[|MAGIC|..] == Encoded(e)[|MAGIC|..] + rest;
    ItemsUnambiguous(xs, ys, rest);
    PrefixStands(xs, ys);
    PrefixStands(ys, ys);
    assert xs == [Array(5)] + (BodyItems(e) + [Blob(e.mac)]) && ys == [Array(5)] + (BodyItems(f) + [Blob(f.mac)]);
    StandsSplit([Array(5)], BodyItems(e) + [Blob(e.mac)], ys, 0);
    StandsSplit([Array(5)], BodyItems(f) + [Blob(f.mac)], ys, 0);
    StandsSplit(BodyItems(e), [Blob(e.mac)], ys, 1);
    StandsSplit(BodyItems(f), [Blob(f.mac)], ys, 1);
    BodyDetermined(e, f, ys, 1);
    BodyIgnoresMac(e, f);
    assert [Blob(e.mac)][0] == ys[1 + |BodyItems(e)|] == [Blob(f.mac)][0];
    EmptyItems();
  }

  lemma EmptyItems()
    ensures EncodeItems([]) == []
  {
  }

  lemma BodyIgnoresMac(e: Envelope, f: Envelope)
    requires e.applicationId == f.applicationId && e.envelopeId == f.envelopeId && e.recipients == f.recipients
    ensures BodyItems(e) == BodyItems(f)
  {
  }

  /** What the MAC authenticates determines everything in the envelope but the MAC. */
  lemma CanonicalBodyInjective(e: Envelope, f: Envelope, onCurve: Bytes -> bool)
    requires WellFormed(e, onCurve) && WellFormed(f, onCurve)
    requires CanonicalBody(e) == CanonicalBody(f)
    ensures e.applicationId == f.applicationId && e.envelopeId == f.envelopeId && e.recipients == f.recipients
  {
    hide BodyItems, EncodeItems, DnsShaped;
    var xs, ys := [Array(4)] + BodyItems(e), [Array(4)] + BodyItems(f);
    EnvelopeFits(e, onCurve);
    EnvelopeFits(f, onCurve);
    assert EncodeItems(xs) + [] == EncodeItems(ys);
    ItemsUnambiguous(xs, ys, []);
    PrefixStands(xs, ys);
    PrefixStands(ys, ys);
    StandsSplit([Array(4)], BodyItems(e), ys, 0);
    StandsSplit([Array(4)], BodyItems(f), ys, 0);
    BodyDetermined(e, f, ys, 1);
  }

  // ----- the decoder -----

  ghost predicate IsEncoding(input: Bytes, onCurve: Bytes -> bool)
  {
    exists e :: Valid(e, onCurve) && Encoded(e) == input
  }

  /**
   Decodes untrusted bytes. It accepts exactly the canonical encodings of valid
   envelopes, although the reads it is made of accept other widths too.
   */
  method Decode(input: Bytes, onCurve: Bytes -> bool) returns (r: Outcome<Envelope>)
    ensures r.Ok? <==> IsEncoding(input, onCurve)
    ensures r.Ok? ==> Valid(r.value, onCurve) && Encoded(r.value) == input
    ensures r.Err? ==> r.error == InvalidEnvelope
  {
    ghost var want := if IsEncoding(input, onCurve) then Some(EncodedFrom(input, onCurve)) else None;
    if want.Some? {
      EncodingSize(want.value, onCurve);
    }
    if |input| > MAX_ENVELOPE_SIZE || |input| < |MAGIC| || input[..|MAGIC|] != MAGIC {
      return Err(InvalidEnvelope);
    }
    var encoded := input[|MAGIC|..];
    r := DecodeItems(encoded, onCurve, want);
    if r.Ok? {
      var again := Encode(r.value);
      if again != input {
        return Err(InvalidEnvelope);
      }
    }
  }

  ghost function EncodedFrom(input: Bytes, onCurve: Bytes -> bool): (e: Envelope)
    requires IsEncoding(input, onCurve)
    ensures Valid(e, onCurve) && Encoded(e) == input
  {
    var e :| Valid(e, onCurve) && Encoded(e) == input;
    e
  }

  ghost predicate OpensWith(items: seq<Item>, e: Envelope)
  {
    && |items| >= 5
    && items[0] == Array(5) && items[1] == UInt(FORMAT_VERSION) && items[2] == Text(e.applicationId)
    && items[3] == Blob(e.envelopeId) && items[4] == Array(|e.recipients|)
  }

  lemma ItemsInPlace(e: Envelope)
    ensures var items := EnvelopeItems(e);
            && OpensWith(items, e)
            && StandsAt(Flatten(RecordGroups(e.recipients)), items, 5)
            && |items| == 6 + |Flatten(RecordGroups(e.recipients))|
            && items[5 + |Flatten(RecordGroups(e.recipients))|] == Blob(e.mac)
  {
    hide RecordGroups, Flatten;
  }

  /** Everything after the magic, up to the comparison with the re-encoding. */
  method DecodeItems(encoded: Bytes, onCurve: Bytes -> bool, ghost want: Option<Envelope>) returns (r: Outcome<Envelope>)
    ensures r.Ok? ==> Valid(r.value, onCurve)
    ensures r.Err? ==> r.error == InvalidEnvelope
    ensures want.Some? && Valid(want.value, onCurve) && encoded == EncodeItems(EnvelopeItems(want.value)) ==> r == Ok(want.value)
  {
    hide EncodeItems, Decoder.Facing, Decoder.Valid, BodyItems, RecordGroups, Flatten, DnsShaped, RecordItems, StandsAt, SetValid,
         RecipientRecord.Valid, EnvelopeItems, AllFit, OpensWith;
    ghost var items := if want.Some? then EnvelopeItems(want.value) else [];
    ghost var hinted := want.Some? && Valid(want.value, onCurve) && encoded == EncodeItems(items);
    ghost var wanted := if want.Some? then want.value.recipients else [];
    var decoder := new Decoder(encoded);
    var reader := new RecordReader(decoder, onCurve);
    if hinted {
      EnvelopeFits(want.value, onCurve);
      ItemsInPlace(want.value);
      FacesAll(decoder, items);
    }
    var opening :- DecodeOpening(reader, items, if hinted then want else None);
    ghost var k := 5 + |Flatten(RecordGroups(wanted))|;
    var recipients :- DecodeRecipients(reader, opening.count, items, if hinted then Some(wanted) else None);
    var mac :- reader.ExactBytes(32, items, k);
    if decoder.position != |encoded| {
      if hinted { NothingLeft(decoder, items); }
      return Err(InvalidEnvelope);
    }
    var distinct := ValidateRecipientSet(recipients);
    if !distinct {
      return Err(InvalidEnvelope);
    }
    return Ok(Envelope(opening.applicationId, opening.envelopeId, recipients, mac));
  }

  /** Reads `count` records; `wanted` is the hint that the items from 5 on encode them. */
  method DecodeRecipients(reader: RecordReader, count: nat, ghost items: seq<Item>, ghost wanted: Option<seq<RecipientRecord>>)
    returns (r: Outcome<seq<RecipientRecord>>)
    requires reader.decoder.Valid()
    modifies reader.decoder`position
    ensures reader.decoder.Valid()
    ensures r.Ok? ==> |r.value| == count && forall j | 0 <= j < count :: r.value[j].Valid(reader.onCurve)
    ensures r.Err? ==> r.error == InvalidEnvelope
    ensures wanted.Some? && |wanted.value| == count && (forall j | 0 <= j < count :: wanted.value[j].Valid(reader.onCurve))
            && StandsAt(Flatten(RecordGroups(wanted.value)), items, 5) && old(reader.decoder.Facing(items, 5))
            ==> r == Ok(wanted.value) && reader.decoder.Facing(items, 5 + |Flatten(RecordGroups(wanted.value))|)
  {
    hide EncodeItems, Decoder.Facing, Decoder.Valid, RecordGroups, Flatten, RecordItems, StandsAt, RecipientRecord.Valid;
    ghost var hinted :=
      && wanted.Some? && |wanted.value| == count
      && (forall j | 0 <= j < count :: wanted.value[j].Valid(reader.onCurve))
      && StandsAt(Flatten(RecordGroups(wanted.value)), items, 5) && reader.decoder.Facing(items, 5);
    ghost var groups := if hinted then RecordGroups(wanted.value) else [];
    ghost var k: nat := 5;
    NoGroups();
    var recipients: seq<RecipientRecord> := [];
    for i := 0 to count
      invariant reader.decoder.Valid() && |recipients| == i
      invariant forall j | 0 <= j < i :: recipients[j].Valid(reader.onCurve)
      invariant hinted ==> recipients == wanted.value[..i]
      invariant hinted ==> k == 5 + |Flatten(groups[..i])| && reader.decoder.Facing(items, k)
    {
      if hinted {
        RecordStands(wanted.value, items, i);
      }
      var record :- reader.ReadRecipient(items, k, if hinted then Some(wanted.value[i]) else None);
      recipients := recipients + [record];
      k := if hinted then k + |RecordItems(wanted.value[i])| else k;
    }
    if hinted { assert groups[..count] == groups && wanted.value[..count] == wanted.value; }
    return Ok(recipients);
  }

  lemma NoGroups()
    ensures Flatten([]) == []
  {
  }

  datatype Opening = Opening(applicationId: Bytes, envelopeId: Bytes32, count: nat)

  /** The items before the records. */
  method DecodeOpening(reader: RecordReader, ghost items: seq<Item>, ghost want: Option<Envelope>) returns (r: Outcome<Opening>)
    requires reader.decoder.Valid()
    modifies reader.decoder`position
    ensures reader.decoder.Valid()
    ensures r.Ok? ==> DnsShaped(r.value.applicationId) && 1 <= r.value.count <= MAX_RECIPIENTS
    ensures r.Err? ==> r.error == InvalidEnvelope
    ensures want.Some? && DnsShaped(want.value.applicationId) && 1 <= |want.value.recipients| <= MAX_RECIPIENTS
            && OpensWith(items, want.value) && old(reader.decoder.Facing(items, 0))
            ==> r == Ok(Opening(want.value.applicationId, want.value.envelopeId, |want.value.recipients|))
                && reader.decoder.Facing(items, 5)
  {
    hide Decoder.Facing, Decoder.Valid, DnsShaped;
    var length := reader.decoder.ArrayLength(items, 0);
    if length != Some(5) {
      return Err(InvalidEnvelope);
    }
    var version :- reader.Code(items, 1);
    if version != FORMAT_VERSION {
      return Err(InvalidEnvelope);
    }
    var text := reader.decoder.String(TEXT, items, 2);
    if text.None? {
      return Err(InvalidEnvelope);
    }
    var application := CheckApplicationId(text.value);
    if application.Err? {
      return Err(InvalidEnvelope);
    }
    var envelopeId :- reader.ExactBytes(32, items, 3);
    var count := reader.decoder.ArrayLength(items, 4);
    if count.None? || !(1 <= count.value <= MAX_RECIPIENTS) {
      return Err(InvalidEnvelope);
    }
    return Ok(Opening(application.value, envelopeId, count.value));
  }

  lemma FacesAll(decoder: Decoder, items: seq<Item>)
    requires decoder.position == 0 && AllFit(items) && decoder.input == EncodeItems(items)
    ensures decoder.Facing(items, 0)
  {
    assert items[0..] == items;
  }

  lemma NothingLeft(decoder: Decoder, items: seq<Item>)
    requires decoder.Facing(items, |items|)
    ensures decoder.position == |decoder.input|
  {
    assert items[|items|..] == [];
  }

  /** Where record `i` of a list of records stands. */
  lemma RecordStands(rs: seq<RecipientRecord>, items: seq<Item>, i: nat)
    requires i < |rs| && StandsAt(Flatten(RecordGroups(rs)), items, 5)
    ensures StandsAt(RecordItems(rs[i]), items, 5 + |Flatten(RecordGroups(rs)[..i])|)
    ensures |Flatten(RecordGroups(rs)[..i + 1])| == |Flatten(RecordGroups(rs)[..i])| + |RecordItems(rs[i])|
  {
    hide RecordItems, StandsAt;
    var groups := RecordGroups(rs);
    var before, at, after := groups[..i], [groups[i]], groups[i + 1..];
    assert groups == before + (at + after) && groups[..i + 1] == before + at;
    FlattenConcat(before, at + after);
    FlattenConcat(at, after);
    FlattenConcat(before, at);
    assert at[1..] == [];
    assert Flatten(at) == groups[i];
    StandsSplit(Flatten(before), Flatten(at + after), items, 5);
    StandsSplit(Flatten(at), Flatten(after), items, 5 + |Flatten(before)|);
  }

  // ----- sizes -----

  lemma ConcatSize(xs: seq<Item>, ys: seq<Item>)
    ensures |EncodeItems(xs + ys)| == |EncodeItems(xs)| + |EncodeItems(ys)|
  {
    EncodeItemsConcat(xs, ys);
  }

  lemma Size2(a: Item, b: Item)
    ensures |EncodeItems([a, b])| == |EncodeItem(a)| + |EncodeItem(b)|
  {
    ConcatSize([a], [b]);
    assert [a] + [b] == [a, b];
    OneItem(a);
    OneItem(b);
  }

  lemma Size3(a: Item, b: Item, c: Item)
    ensures |EncodeItems([a, b, c])| == |EncodeItem(a)| + |EncodeItem(b)| + |EncodeItem(c)|
  {
    ConcatSize([a], [b, c]);
    Size2(b, c);
    assert [a] + [b, c] == [a, b, c];
    OneItem(a);
  }

  lemma KdfSize(kdf: KdfDescriptor)
    requires kdf.parameters.Valid()
    ensures |EncodeItems(KdfItems(kdf))| == 26
  {
    var p := kdf.parameters;
    Size3(Array(5), UInt(ARGON2ID_KDF), UInt(p.memoryKib));
    Size3(UInt(p.passes), UInt(p.lanes), Blob(kdf.salt));
    ConcatSize([Array(5), UInt(ARGON2ID_KDF), UInt(p.memoryKib)], [UInt(p.passes), UInt(p.lanes), Blob(kdf.salt)]);
    assert KdfItems(kdf) == [Array(5), UInt(ARGON2ID_KDF), UInt(p.memoryKib)] + [UInt(p.passes), UInt(p.lanes), Blob(kdf.salt)];
  }

  lemma HeaderSize(length: nat, suite: byte, id: RecipientId, caption: Bytes)
    requires length < 24 && suite < 24 && LabelValid(caption)
    ensures 38 <= |EncodeItems([Array(length), UInt(suite), Blob(id), Text(caption)])| <= 102
  {
    Size2(Array(length), UInt(suite));
    Size2(Blob(id), Text(caption));
    ConcatSize([Array(length), UInt(suite)], [Blob(id), Text(caption)]);
    assert [Array(length), UInt(suite)] + [Blob(id), Text(caption)] == [Array(length), UInt(suite), Blob(id), Text(caption)];
  }

  const MAX_RECORD_SIZE := 1348
  const FRAME_SIZE := 331

  /** The suites with one nonce block after the credential, if any. */
  lemma ShortRecordSize(r: RecipientRecord, onCurve: Bytes -> bool)
    requires r.Valid(onCurve) && (r.RecoverySecret? || r.Passphrase?)
    ensures |EncodeItems(RecordItems(r))| <= MAX_RECORD_SIZE
  {
    hide EncodeItems;
    var header := [Array(ArrayLengthOf(r)), UInt(r.Suite()), Blob(r.id), Text(r.caption)];
    HeaderSize(ArrayLengthOf(r), r.Suite(), r.id, r.caption);
    if r.RecoverySecret? {
      Size2(Blob(r.recoveryNonce), Blob(r.wrappedRoot));
      ConcatSize(header, [Blob(r.recoveryNonce), Blob(r.wrappedRoot)]);
      assert RecordItems(r) == header + [Blob(r.recoveryNonce), Blob(r.wrappedRoot)];
    } else {
      KdfSize(r.kdf);
      Size2(Blob(r.passphraseNonce), Blob(r.wrappedRoot));
      ConcatSize(header, KdfItems(r.kdf));
      ConcatSize(header + KdfItems(r.kdf), [Blob(r.passphraseNonce), Blob(r.wrappedRoot)]);
    }
  }

  lemma FidoRecordSize(r: RecipientRecord, onCurve: Bytes -> bool)
    requires r.Valid(onCurve) && r.Fido?
    ensures |EncodeItems(RecordItems(r))| <= MAX_RECORD_SIZE
  {
    hide EncodeItems;
    var header := [Array(9), UInt(r.Suite()), Blob(r.id), Text(r.caption)];
    HeaderSize(9, r.Suite(), r.id, r.caption);
    var credential := [Blob(r.credentialId), Blob(r.publicKey), UInt(r.policy.Code())];
    var ending := [Blob(r.prfNonce), Blob(r.fidoNonce), Blob(r.wrappedRoot)];
    Size3(Blob(r.credentialId), Blob(r.publicKey), UInt(r.policy.Code()));
    Size3(Blob(r.prfNonce), Blob(r.fidoNonce), Blob(r.wrappedRoot));
    ConcatSize(header, credential);
    ConcatSize(header + credential, ending);
    assert RecordItems(r) == header + credential + ending;
  }

  lemma LocalRecordSize(r: RecipientRecord, onCurve: Bytes -> bool)
    requires r.Valid(onCurve) && r.FidoAndLocalSecret?
    ensures |EncodeItems(RecordItems(r))| <= MAX_RECORD_SIZE
  {
    hide EncodeItems;
    var header := [Array(8), UInt(FIDO_AND_LOCAL_SECRET_SUITE), Blob(r.id), Text(r.caption)];
    HeaderSize(8, FIDO_AND_LOCAL_SECRET_SUITE, r.id, r.caption);
    var credential := [Blob(r.credentialId), Blob(r.publicKey)];
    var ending := [Blob(r.prfNonce), Blob(r.wrapNonce), Blob(r.wrappedRoot)];
    Size2(Blob(r.credentialId), Blob(r.publicKey));
    Size3(Blob(r.prfNonce), Blob(r.wrapNonce), Blob(r.wrappedRoot));
    ConcatSize(header, credential);
    ConcatSize(header + credential, ending);
    assert RecordItems(r) == header + credential + ending;
  }

  lemma CombinedRecordSize(r: RecipientRecord, onCurve: Bytes -> bool)
    requires r.Valid(onCurve) && r.FidoAndPassphrase?
    ensures |EncodeItems(RecordItems(r))| <= MAX_RECORD_SIZE
  {
    hide EncodeItems;
    var header := [Array(11), UInt(FIDO_AND_PASSPHRASE_SUITE), Blob(r.id), Text(r.caption)];
    HeaderSize(11, FIDO_AND_PASSPHRASE_SUITE, r.id, r.caption);
    var credential := [Blob(r.credentialId), Blob(r.publicKey), UInt(r.policy.Code())];
    var nonces, ending := [Blob(r.prfNonce), Blob(r.fidoNonce)], [Blob(r.passphraseNonce), Blob(r.combinedRoot)];
    Size3(Blob(r.credentialId), Blob(r.publicKey), UInt(r.policy.Code()));
    Size2(Blob(r.prfNonce), Blob(r.fidoNonce));
    KdfSize(r.kdf);
    Size2(Blob(r.passphraseNonce), Blob(r.combinedRoot));
    ConcatSize(header, credential);
    ConcatSize(header + credential, nonces);
    ConcatSize(header + credential + nonces, KdfItems(r.kdf));
    ConcatSize(header + credential + nonces + KdfItems(r.kdf), ending);
    hide KdfItems;
    assert RecordItems(r) == header + credential + nonces + KdfItems(r.kdf) + ending;
  }

  lemma RecordSize(r: RecipientRecord, onCurve: Bytes -> bool)
    requires r.Valid(onCurve)
    ensures |EncodeItems(RecordItems(r))| <= MAX_RECORD_SIZE
  {
    hide EncodeItems, RecordItems;
    if r.FidoAndPassphrase? {
      CombinedRecordSize(r, onCurve);
    } else if r.Fido? {
      FidoRecordSize(r, onCurve);
    } else if r.FidoAndLocalSecret? {
      LocalRecordSize(r, onCurve);
    } else {
      ShortRecordSize(r, onCurve);
    }
  }

  lemma {:induction false} RecordsSize(rs: seq<RecipientRecord>, onCurve: Bytes -> bool)
    requires forall i | 0 <= i < |rs| :: rs[i].Valid(onCurve)
    ensures |EncodeItems(Flatten(RecordGroups(rs)))| <= |rs| * MAX_RECORD_SIZE
  {
    if rs != [] {
      hide RecordItems, RecordGroups, EncodeItems, Flatten;
      GroupsUnfold(rs);
      RecordSize(rs[0], onCurve);
      RecordsSize(rs[1..], onCurve);
      ConcatSize(RecordItems(rs[0]), Flatten(RecordGroups(rs[1..])));
    }
  }

  /** The largest envelope is well below the limit that the decoder checks first. */
  lemma EncodingSize(e: Envelope, onCurve: Bytes -> bool)
    requires WellFormed(e, onCurve)
    ensures |Encoded(e)| <= FRAME_SIZE + MAX_RECIPIENTS * MAX_RECORD_SIZE
    ensures |CanonicalBody(e)| < |Encoded(e)| <= 43_467 < MAX_ENVELOPE_SIZE
  {
    hide RecordItems, RecordGroups, EncodeItems, Flatten;
    var records, n := Flatten(RecordGroups(e.recipients)), |e.recipients|;
    RecordsSize(e.recipients, onCurve);
    var front := [UInt(FORMAT_VERSION), Text(e.applicationId), Blob(e.envelopeId), Array(n)];
    Size2(UInt(FORMAT_VERSION), Text(e.applicationId));
    Size2(Blob(e.envelopeId), Array(n));
    ConcatSize([UInt(FORMAT_VERSION), Text(e.applicationId)], [Blob(e.envelopeId), Array(n)]);
    assert front == [UInt(FORMAT_VERSION), Text(e.applicationId)] + [Blob(e.envelopeId), Array(n)];
    ConcatSize(front, records);
    OneItem(Array(5));
    OneItem(Array(4));
    OneItem(Blob(e.mac));
    ConcatSize([Array(5)], BodyItems(e));
    ConcatSize([Array(4)], BodyItems(e));
    ConcatSize([Array(5)] + BodyItems(e), [Blob(e.mac)]);
  }

  lemma OneItem(i: Item)
    ensures |EncodeItems([i])| == |EncodeItem(i)|
  {
    assert [i][1..] == [];
  }
}
