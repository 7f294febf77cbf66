# Verified model of fido-key-wrap

This project models the core of fido-key-wrap in Dafny and proves what its
protocol documentation promises. It follows the code; where the code and its
documentation differ, the difference is noted below.

An *envelope* carries one random 32-byte root to up to 32 *recipients*. Each
recipient record holds the root wrapped under its own factors: a passphrase, a
security key, both, a recovery secret, or a security key with a machine-local
secret. A MAC under a key derived from the root covers the whole envelope.
Recipients are added, removed and rewrapped by staging a complete replacement,
which is assigned only after it has been encoded, strictly decoded, opened and
authenticated again.

## How it is organised

| files | what they model |
|---|---|
| `Wrappers`, `Bytes`, `Cbor`, `Identity`, `Policy` | results and errors, byte strings, the CBOR subset, identities and admissible parameters |
| `Envelope`, `Codec` | records, their encoding, the strict decoder and the laws of the encoding |
| `Transcript`, `Crypto` | length-prefixed framing, recipient contexts, key derivations, wrapping layers and the MAC, over abstract primitives |
| `Session`, `Requests` | one operation's user, random source and memory, and a log of everything asked of the user |
| `Fake`, `NativeErrors`, `Inventory`, `Native`, `Backend`, `Selection` | the test double, the adapter over security keys, both behind one contract, and the choice of a key by touch |
| `Roster`, `Runs` | lists of recipients, the mutations as a state machine, and what any run keeps |
| `Protector`, `Prompts`, `Driver` | every operation of the facade, proved against that state machine, what its prompts amount to, and arbitrary sequences of real calls |
| `Stores`, `SecretService`, `Keychain`, `UserPresence` | the secret stores: one contract, the in-memory specification, and the three native stores under injected faults |
| `Container` | the encrypted file of the command-line tool |
| `Python`, `Generator` | the independent generator of test vectors, proved to write the same bytes |

## What is assumed

- The library primitives are arbitrary functions of the right lengths. Only
  where a statement says so is the cipher *lawful* (what was sealed opens); a
  toy cipher shows that this can be met. Whether a signature or an attestation
  is valid for a request, and whether a point is on the curve, are arbitrary
  predicates; everything else about a response is checked as the code does.
- Randomness, passphrases, prompts and Argon2id memory are arbitrary functions
  of the time they are asked for, so every statement holds for every stream and
  every sequence of failures.
- A security key answers every call with an arbitrary reply. Each call is recorded
  with its request where it reaches the device, and what success means is said of
  the recorded requests and the replies to them. The store of a key follows
  the reply: success acts, a definite failure does not, an uncertain status may
  have acted. That a failed managed enrollment leaves nothing behind
  unreported is proved for keys that also enumerate their store truly
  (`honest`); the statements on retirement do not need this.
- A native secret store is *quiet* when nobody else writes to it and its codes
  mean what they say; a failing add may still have stored the exact value, a
  failing delete may still have acted, and any call may fail. Without it the
  items may change arbitrarily at every call, and nothing is claimed of them.
- The touch ceremony ends because every native call takes some time.
- The library's HKDF is that of RFC 5869 over the library's HMAC; only the
  comparison with the generator, which spells HKDF out, uses this.

## Where code and documentation differ

- `doc/tool-format.md` (line 13) speaks of the exact canonical envelope inside the tool's
  file. The container decoder checks only its length, 1 to 65,536 bytes; the
  envelope decoder is applied later. `Container.Decode` follows the code.
- The deletion reply of a device and the test double are judged differently for
  a record that is still present after "not found"; the two retirement tables
  are modelled separately and are not claimed to be equal.

## Model

| member | source | states |
|---|---|---|
| Runs.RunKeeps | crates/fido-key-wrap/src/protector.rs:369-476 | after any sequence of successful or failed additions, removals and rewraps: same application and envelope id, a valid record set, the MAC of the root, every record opening to the root with its latest factors, and no factors for anyone else |
| Runs.StepKeeps | crates/fido-key-wrap/src/protector.rs:1030-1068 | one mutation of any kind keeps that invariant |
| Runs.CreatedSound | crates/fido-key-wrap/src/protector.rs:578-599 | a newly protected root is in one record that opens to it, so every run starts sound |
| Runs.EveryRouteUnlocks | crates/fido-key-wrap/src/protector.rs:198-291 | at every point of every run the current factors of every recipient unlock the original root, so any two routes agree |
| Runs.AddThenRemove | crates/fido-key-wrap/src/protector.rs:453-476 | removing what was just added restores an authenticated envelope byte for byte, MAC included |
| Runs.RemovalRestores | crates/fido-key-wrap/src/protector.rs:453-476 | the same in terms of the two changes that the protector reports |
| Runs.AddsCommute | crates/fido-key-wrap/src/protector.rs:1214-1224 | two additions of given records give the same envelope in either order |
| Runs.RewrapFrame | crates/fido-key-wrap/src/protector.rs:1057-1068 | a rewrap changes the selected record and the MAC only, under a salt that no record of the envelope used |
| Runs.ChangesKeepValid | crates/fido-key-wrap/src/protector.rs:1226-1260 | every staged replacement of a valid envelope is valid, of the same identity, and carries its own MAC |
| Runs.SurvivesEncoding | crates/fido-key-wrap/src/protector.rs:1464-1475 | two valid envelopes with the same bytes are the same, so a round trip through the bytes can only return what went in |
| Runs.WrapsOpens | crates/fido-key-wrap/src/protector.rs:1402-1430 | a record wrapped under the keys of some factors opens with them to the root that was wrapped, in all six suites |
| Runs.Unlocked | crates/fido-key-wrap/src/protector.rs:286-291 | what an unlock may return: a 32-byte root or a refusal |
| Roster.AscendingUnique | crates/fido-key-wrap/src/envelope.rs:591-597 | an ascending list of records is determined by which records it holds |
| Roster.SortAscends | crates/fido-key-wrap/src/protector.rs:1221-1222 | sorting records with distinct ids by id makes them strictly ascending |
| Roster.SortAfterPush | crates/fido-key-wrap/src/protector.rs:1221-1222 | pushing and sorting is inserting at the right place |
| Roster.InsertAscends | crates/fido-key-wrap/src/protector.rs:1221-1222 | inserting a new id keeps the ids strictly ascending |
| Roster.InsertNoClash | crates/fido-key-wrap/src/protector.rs:1221-1222 | inserting a record with a new credential and salt keeps credentials and salts unique |
| Roster.RemoveAtValid | crates/fido-key-wrap/src/protector.rs:469-470 | removing a record leaves a valid record set |
| Roster.ReplaceValid | crates/fido-key-wrap/src/protector.rs:1058-1063 | replacing a record under its own id by one that clashes with no other leaves a valid record set |
| Roster.InsertThenRemove | crates/fido-key-wrap/src/protector.rs:469-470 | removal undoes insertion on the list |
| Roster.InsertsCommute | crates/fido-key-wrap/src/protector.rs:1221-1222 | the order of two insertions does not matter |
| Protector.KeyProtector.AddRecipient | crates/fido-key-wrap/src/protector.rs:369-394 | refusals come in their order and before any prompt; a failure leaves the envelope as it was; success adds the record that was asked for, randomly made, wrapped under the passphrase that the user gave and the PRF that a device gave in this call; prompts follow the script; a managed credential is left behind only if that is reported, and no other policy touches managed credentials; a passphrase enrollment that is not refused can fail only through user, randomness or memory |
| Protector.KeyProtector.AddRecoverySecret | crates/fido-key-wrap/src/protector.rs:397-414 | adds a route under a secret drawn for it, asking nobody; a failure changes nothing and, if not a refusal, is lack of randomness |
| Protector.KeyProtector.AddFidoAndLocalSecret | crates/fido-key-wrap/src/protector.rs:417-445 | adds a route under what a security key gave in this call and a secret drawn for it; a failure leaves the envelope as it was; no managed credential is touched |
| Protector.KeyProtector.RemoveRecipient | crates/fido-key-wrap/src/protector.rs:453-476 | succeeds exactly when no refusal applies, checked in order, and then removes exactly that record under a new MAC |
| Protector.KeyProtector.AddedCanBeRemoved | crates/fido-key-wrap/src/protector.rs:459-467 | no refusal stands in the way of removing what was just added |
| Protector.KeyProtector.RewrapPassphrase | crates/fido-key-wrap/src/protector.rs:551-564 | rewraps under a new passphrase and the same work; all else as for explicit parameters |
| Protector.KeyProtector.RewrapPassphraseWithParameters | crates/fido-key-wrap/src/protector.rs:567-576 | refusals before prompts; success rekeys the selected record alone: new salt, nonces that differ, the given parameters, the same id, label, credential, key and policy; failure changes nothing |
| Protector.KeyProtector.RewrapRecord | crates/fido-key-wrap/src/protector.rs:1030-1068 | the replacement and its staging: the prompts of a rewrap in order, and the change that results |
| Protector.KeyProtector.RewrapPassphraseRecord | crates/fido-key-wrap/src/protector.rs:1070-1110 | a passphrase record with fresh salt and nonce that wraps the same root |
| Protector.KeyProtector.RewrapCombinedRecord | crates/fido-key-wrap/src/protector.rs:1112-1177 | a combined record with four fresh random values, rekeyed under the PRF that a device gave in this call and then a new passphrase |
| Protector.KeyProtector.CompletesRewrap | crates/fido-key-wrap/src/protector.rs:1101-1109 | filling in the wrapped root still only rekeys the old record |
| Protector.KeyProtector.CreateRoot | crates/fido-key-wrap/src/protector.rs:100-109 | the root is what the random source gave, and comes back with an envelope that wraps it in one route |
| Protector.KeyProtector.ProtectRoot | crates/fido-key-wrap/src/protector.rs:578-599 | an envelope with one route to the root, under a drawn envelope id; the work limit is checked before anything is asked |
| Protector.KeyProtector.CreateRootWithRecoverySecret | crates/fido-key-wrap/src/protector.rs:130-137 | a drawn root in an envelope with one recovery-secret route |
| Protector.KeyProtector.ProtectRootWithRecoverySecret | crates/fido-key-wrap/src/protector.rs:140-156 | an envelope with one recovery-secret route; envelope id, secret, id and nonce drawn apart; bad labels refused first |
| Protector.KeyProtector.ProtectRootWithFidoAndLocalSecret | crates/fido-key-wrap/src/protector.rs:601-621 | an envelope with one route under security key and local secret |
| Protector.KeyProtector.CreateRootWithFidoAndLocalSecret | crates/fido-key-wrap/src/protector.rs:162-175 | a drawn root in an envelope with one route under security key and local secret |
| Protector.KeyProtector.Unlock | crates/fido-key-wrap/src/protector.rs:198-291 | refusals before prompts; prompts in order and at most one assertion; once all factors are given the result is exactly what the record and the MAC say, both ways; the PRF is that of a verified response in this call; in a combined route the user is asked for the passphrase only after such a PRF has opened the outer layer |
| Protector.KeyProtector.UnlockCombined | crates/fido-key-wrap/src/protector.rs:252-284 | assertion, outer layer, passphrase, inner layer, in that order and with a stop at the first failure |
| Protector.KeyProtector.UnlockWithRecoverySecret | crates/fido-key-wrap/src/protector.rs:297-326 | the result is determined by envelope, id and secret; unknown and other recipients are refused alike |
| Protector.KeyProtector.UnlockWithFidoAndLocalSecret | crates/fido-key-wrap/src/protector.rs:329-361 | the same with an assertion in between, asked for only if the recipient is of that kind, and with the PRF of a verified response |
| Protector.KeyProtector.KeyReopens | crates/fido-key-wrap/src/protector.rs:225-284 | if what the devices answered is a function of credential, input and policy, as it is for the test double, the PRF given at enrollment is given again, so with the same passphrase or local secret any route that uses a security key reopens any sound envelope |
| Protector.KeyProtector.VerifyManagedRecipient | crates/fido-key-wrap/src/protector.rs:483-512 | refusals before prompts; success means a response that proves possession with user verification over a challenge drawn in this call, and then one exact management record on the same device; nothing changes |
| Protector.KeyProtector.RetireManagedRecipient | crates/fido-key-wrap/src/protector.rs:519-548 | refusals before prompts; success means, on one device: a response that proves possession over a fresh challenge, the exact record, a deletion attempt, and a last complete list with neither id |
| Protector.KeyProtector.EnrollRecipient | crates/fido-key-wrap/src/protector.rs:623-676 | each policy enrolls the record it names; a managed credential is there exactly on success |
| Protector.KeyProtector.EnrollPassphrase | crates/fido-key-wrap/src/protector.rs:678-715 | a passphrase given twice, one derivation, and a record that wraps the root under it |
| Protector.KeyProtector.NewRecoverySecretRecord | crates/fido-key-wrap/src/protector.rs:717-748 | secret, id and nonce drawn apart, and a record that wraps the root under the secret |
| Protector.KeyProtector.EnrollFido | crates/fido-key-wrap/src/protector.rs:750-788 | enrollment, then an assertion, then a record bound to the new credential and wrapped under the PRF of that assertion; managed credentials stay as they were |
| Protector.KeyProtector.EnrollFidoLocal | crates/fido-key-wrap/src/protector.rs:790-839 | four values drawn apart before the authenticator is touched, and a record under both factors |
| Protector.KeyProtector.EnrollManagedFido | crates/fido-key-wrap/src/protector.rs:841-879 | success has added exactly the credential of the record; a failure has added nothing or says that it may have |
| Protector.KeyProtector.CleanupFailedManaged | crates/fido-key-wrap/src/protector.rs:881-909 | the original error is kept only if the store is as before; otherwise the error says that a credential may remain |
| Protector.KeyProtector.FinishManagedFido | crates/fido-key-wrap/src/protector.rs:912-967 | one touch and no further PIN, and a record that names the pending credential |
| Protector.KeyProtector.EnrollCombined | crates/fido-key-wrap/src/protector.rs:970-1028 | enrollment, assertion and only then the new passphrase; both layers wrap the root |
| Protector.KeyProtector.StageEnrollment | crates/fido-key-wrap/src/protector.rs:1179-1212 | a failed staging undoes a managed credential or reports it; the guard for a managed session without a managed record cannot be reached |
| Protector.KeyProtector.StageRecord | crates/fido-key-wrap/src/protector.rs:1214-1224 | staging a joining record succeeds exactly if its keys recover the root, and gives the sorted, re-authenticated envelope |
| Protector.KeyProtector.StageExistingRecord | crates/fido-key-wrap/src/protector.rs:1226-1260 | a valid replacement is handed out exactly if the named record recovers the root, and then as it was staged |
| Protector.KeyProtector.StageRoute | crates/fido-key-wrap/src/protector.rs:1214-1224 | a route that wraps the root under its own factors cannot fail to be staged if the cipher is lawful |
| Protector.KeyProtector.Canonicalize | crates/fido-key-wrap/src/protector.rs:1464-1475 | a valid envelope comes back unchanged from its own bytes; the size limit never refuses one |
| Protector.KeyProtector.Evaluate | crates/fido-key-wrap/src/protector.rs:1262-1297 | asks once for the PRF of the recorded credential on the input of this record, under its policy, and returns what a verified response to that request gave; no store changes |
| Protector.KeyProtector.UniqueRecipientId | crates/fido-key-wrap/src/protector.rs:1334-1342 | the first of at most 32 draws that is no recipient's id |
| Protector.KeyProtector.UniqueSalt | crates/fido-key-wrap/src/protector.rs:1344-1359 | the first of at most 32 draws that is no salt of the envelope |
| Protector.KeyProtector.FreshArray | crates/fido-key-wrap/src/protector.rs:1487-1495 | the first of at most 32 draws that differs from the old value |
| Protector.KeyProtector.ValidateCredential | crates/fido-key-wrap/src/protector.rs:1361-1374 | accepts exactly credential ids of allowed length that no recipient uses |
| Protector.KeyProtector.RequestNewPassphrase | crates/fido-key-wrap/src/protector.rs:1449-1462 | a passphrase that was given twice in a row, and the error of the first step that failed |
| Protector.KeyProtector.CompletesEnrollment | crates/fido-key-wrap/src/protector.rs:706-713 | a prepared record becomes a route once its root is wrapped, and keeps everything it was prepared with |
| Driver.Perform | crates/fido-key-wrap/src/protector.rs:369-576 | whatever is called on an envelope, and however it ends, what comes of it is one of the changes that a run consists of |
| Driver.Drive | crates/fido-key-wrap/src/protector.rs:369-576 | any list of calls is a run, and at its end every route still opens the root |
| Driver.Lifetime | crates/fido-key-wrap/src/protector.rs:100-109 | after a creation and any list of calls, every route opens the root that was created |
| Driver.AddAndRemove | crates/fido-key-wrap/src/protector.rs:369-476 | an addition and the removal of what it added leave the envelope as it was, however far they get |
| Prompts.EnrollmentDerivesOnce | crates/fido-key-wrap/src/protector.rs:678-715 | no enrollment derives more than one passphrase key, undone or not |
| Prompts.UnlockDerivesOnce | crates/fido-key-wrap/src/protector.rs:198-291 | nor does an unlock or a rewrap |
| Prompts.CombinedAsksPassphraseLast | crates/fido-key-wrap/src/protector.rs:970-1028 | in a combined route the passphrase is never asked for before the security key has answered, at enrollment, unlock and rewrap |
| Prompts.PinMeansVerification | crates/fido-key-wrap/src/backend.rs:447-493 | a recovery assertion asks for a PIN just when its policy is user verification |
| Sessions.InTurnAppend | crates/fido-key-wrap/src/protector.rs:1481-1485 | values drawn one after another come from separate stretches of randomness |
| Sessions.Session.FirstAccepted | crates/fido-key-wrap/src/protector.rs:1487-1495 | what a retry loop gives is not a rejected value, and its only error is lack of randomness |
| Crypto.ContextInjective | crates/fido-key-wrap/src/crypto.rs:364-500 | two context transcripts are equal exactly if suite, application, envelope id and everything bound in the record are, across all suites |
| Crypto.ContextFramable | crates/fido-key-wrap/src/crypto.rs:364-500 | the transcript of a valid record can never be refused |
| Crypto.DomainsSeparate | crates/fido-key-wrap/src/crypto.rs:38-53 | transcripts that begin with different domain strings never coincide |
| Crypto.DomainsDistinct | crates/fido-key-wrap/src/crypto.rs:38-53 | the sixteen domain strings differ and are short |
| Crypto.WrapRecovers | crates/fido-key-wrap/src/crypto.rs:156-334 | every suite recovers the root that it wrapped, whatever the primitives, if the cipher opens what it sealed |
| Crypto.WrapKeeps | crates/fido-key-wrap/src/crypto.rs:156-305 | wrapping changes neither the context of a record nor anything that the set rules look at |
| Crypto.KeysIgnoreRoot | crates/fido-key-wrap/src/crypto.rs:98-154 | derived keys do not depend on the wrapped root |
| Crypto.MacMessageInjective | crates/fido-key-wrap/src/crypto.rs:336-349 | the authenticated message determines every field and record, labels included |
| Crypto.MacIgnoresMac | crates/fido-key-wrap/src/crypto.rs:336-349 | the MAC does not depend on the MAC field |
| Crypto.MacFramable | crates/fido-key-wrap/src/crypto.rs:336-349 | the two MAC transcripts of a valid envelope can never be refused |
| Crypto.ToyIsLawful | crates/fido-key-wrap/src/crypto.rs:660-699 | the law assumed of the cipher can be met |
| Crypto.Recover | crates/fido-key-wrap/src/protector.rs:1402-1430 | recovering gives 32 bytes or a refusal |
| Transcript.Encode | crates/fido-key-wrap/src/transcript.rs:7-29 | succeeds exactly on at most 32 fields of 32-bit length, and then writes the framing; the checked sums cannot overflow |
| Transcript.FrameDecodable | crates/fido-key-wrap/src/transcript.rs:7-29 | a transcript can be cut off the front of a byte string in one way only |
| Transcript.FrameInjective | crates/fido-key-wrap/src/transcript.rs:7-29 | two lists of fields have the same transcript exactly if they are the same |
| Codec.Decode | crates/fido-key-wrap/src/envelope.rs:205-254 | returns an envelope exactly if the input is the canonical encoding of a valid one, and then that one, although the reads accept other widths |
| Codec.DecodeItems | crates/fido-key-wrap/src/envelope.rs:215-246 | reads back every valid envelope, and nothing invalid gets past the set rules |
| Codec.DecodeRecipients | crates/fido-key-wrap/src/envelope.rs:225-232 | reads back the records that were written, one after another |
| Codec.PrefixFree | crates/fido-key-wrap/src/envelope.rs:257-266 | no encoding of a valid envelope is a proper prefix of another; encoding is injective |
| Codec.CanonicalBodyInjective | crates/fido-key-wrap/src/envelope.rs:290-294 | the canonical body determines everything but the MAC |
| Codec.RecordDetermined | crates/fido-key-wrap/src/envelope.rs:371-431 | the items of a record determine the record, suite included |
| Codec.EnvelopeFits | crates/fido-key-wrap/src/envelope.rs:339-369 | every item of a well-formed envelope fits a CBOR head |
| Codec.RecordSize | crates/fido-key-wrap/src/envelope.rs:371-445 | no record takes more than 1,348 bytes |
| Codec.EncodingSize | crates/fido-key-wrap/src/envelope.rs:11-13 | every well-formed envelope encodes to at most 43,467 bytes, below the limit that is checked first |
| Envelopes.ValidateRecipientSet | crates/fido-key-wrap/src/envelope.rs:591-613 | accepts exactly strictly ascending ids with unique credentials and salts |
| Envelopes.Find | crates/fido-key-wrap/src/envelope.rs:296-301 | finds a recipient by bisection, or proves that there is none |
| Envelopes.Encode | crates/fido-key-wrap/src/envelope.rs:257-266 | writes the wire form item by item |
| Envelopes.EncodeCanonicalBody | crates/fido-key-wrap/src/envelope.rs:290-294 | writes what the MAC authenticates |
| Envelopes.EncodeRecipient | crates/fido-key-wrap/src/envelope.rs:371-431 | writes each suite as its list of items |
| Envelopes.RecordReader.ReadRecipient | crates/fido-key-wrap/src/envelope.rs:447-461 | returns only valid records, and reads back every valid record that was written |
| Envelopes.RecordReader.ReadKdf | crates/fido-key-wrap/src/envelope.rs:564-575 | accepts only admissible Argon2id parameters and reads back what was written |
| Envelopes.RecordReader.ReadLabel | crates/fido-key-wrap/src/envelope.rs:577-581 | returns only valid labels |
| Envelopes.RecordReader.ReadCredentialId | crates/fido-key-wrap/src/envelope.rs:583-589 | returns only ids of 1 to 1,024 bytes |
| Cbor.ShortestHeadReads | crates/fido-key-wrap/src/envelope.rs:623-629 | the shortest head reads back its major type and argument |
| Cbor.WideHeadReads | crates/fido-key-wrap/src/envelope.rs:247-251 | a head of any width reads back, shortest or not, which is why the decoder compares bytes |
| Cbor.ItemUnambiguous | crates/fido-key-wrap/src/envelope.rs:339-369 | one item can be cut off the front of a byte string in one way only |
| Cbor.ItemsUnambiguous | crates/fido-key-wrap/src/envelope.rs:339-369 | if one encoded list is a prefix of another, so is the list |
| Cbor.Decoder.UInt | crates/fido-key-wrap/src/envelope.rs:215-222 | reads an unsigned integer within its bound, in any width |
| Cbor.Decoder.String | crates/fido-key-wrap/src/envelope.rs:631-637 | reads a definite string of the wanted kind and nothing beyond the input |
| Cbor.Decoder.ArrayLength | crates/fido-key-wrap/src/envelope.rs:623-629 | reads a definite array length |
| Identity.CheckApplicationId | crates/fido-key-wrap/src/id.rs:22-50 | accepts exactly the identities that the documentation describes position by position |
| Identity.SplitShape | crates/fido-key-wrap/src/id.rs:28-47 | checking label by label is checking the whole text |
| Identity.LessIsRank | crates/fido-key-wrap/src/id.rs:64-66 | byte-array order is the order of the numbers spelled |
| Identity.DecodeText | crates/fido-key-wrap/src/id.rs:103-108 | fills the array with the bytes that the text prints |
| Identity.ParseRecipientId | crates/fido-key-wrap/src/id.rs:93-110 | accepts exactly the texts that are printed, and reads each back |
| Identity.PrintInjective | crates/fido-key-wrap/src/id.rs:78-85 | two identities print alike only if they are equal |
| Policy.LimitsBracketProfiles | crates/fido-key-wrap/src/policy.rs:131-186 | no limits refuse every valid profile, and the protocol ceiling refuses none |
| Fake.CredentialIdInjective | crates/fido-key-wrap/src/backend.rs:910-948 | credential ids of different numbers differ |
| Fake.FakeBackend.Enroll | crates/fido-key-wrap/src/backend.rs:972-1007 | adds one ordinary credential on success and nothing otherwise; the managed credentials of every device stay as they were; a queued failure is consumed only at its own stage |
| Fake.FakeBackend.EnrollManaged | crates/fido-key-wrap/src/backend.rs:1009-1063 | one more managed credential within the capacity, with the recipient as user; only the failure that says so leaves one behind |
| Fake.FakeBackend.Evaluate | crates/fido-key-wrap/src/backend.rs:1065-1121 | answers with the PRF of the named credential on the selected device, on the exact input |
| Fake.FakeBackend.EvaluateManaged | crates/fido-key-wrap/src/backend.rs:1123-1155 | asks for a touch but no PIN, and answers only for the exact managed record |
| Fake.FakeBackend.RetireOnDevice | crates/fido-key-wrap/src/backend.rs:1197-1229 | after the touch, the queued failure and the record on the device decide exactly how it ends, and exactly when the credential is taken off |
| Fake.FakeBackend.CleanupManaged | crates/fido-key-wrap/src/backend.rs:1231-1242 | success leaves no such record; a queued failure is consumed only at a stage of the retirement |
| Fake.FakeBackend.RetireManaged | crates/fido-key-wrap/src/backend.rs:1177-1195 | touches at most the named credential of the selected device; a queued failure is consumed only at its own stage |
| Fake.FakeBackend.VerifyManaged | crates/fido-key-wrap/src/backend.rs:1157-1175 | success means that the exact managed record is on the selected device; nothing is changed but a queued failure of its own stages |
| Fake.FakeBackend.Seed | crates/fido-key-wrap/src/backend.rs:910-948 | the new id is unused on every device |
| Fake.FakeBackend.FailNextWith | crates/fido-key-wrap/src/backend.rs:852-858 | at most one failure is queued |
| Fake.FakeBackend.TakeFailure | crates/fido-key-wrap/src/backend.rs:1288-1294 | a failure is consumed once, and only at its stage |
| Fake.FakeBackend.SetCompatibleAuthenticators | crates/fido-key-wrap/src/backend.rs:860-869 | devices are never lost, and the selected one stays in range |
| Fake.FakeBackend.ChooseAuthenticator | crates/fido-key-wrap/src/backend.rs:871-877 | only a visible device can be selected |
| Fake.FakeBackend.SetManagedCapacity | crates/fido-key-wrap/src/backend.rs:879-883 | changes the capacity of the selected device and nothing else |
| Fake.FakeBackend.ForgetCredential | crates/fido-key-wrap/src/backend.rs:885-890 | takes one credential off the selected device |
| Fake.FakeBackend.ManagedGrows | crates/fido-key-wrap/src/backend.rs:1009-1063 | a managed enrollment raises the managed count by one |
| Fake.FakeBackend.Select | crates/fido-key-wrap/src/backend.rs:950-970 | the user is asked to choose only among several devices |
| Inventory.Find | crates/fido-key-wrap-libfido2/src/native.rs:1560-1604 | on well-formed records the answer is the specification's: present if exactly one record matches and no other shares an id, absent if none shares one, a mismatch otherwise; and no input makes it say more |
| Inventory.VerdictIgnoresOrder | crates/fido-key-wrap-libfido2/src/native.rs:1560-1604 | the answer does not depend on the order of the records |
| Inventory.OneExactByCount | crates/fido-key-wrap-libfido2/src/native.rs:1607-1640 | one exact match is a property of the collection |
| Native.RetirementOutcome | crates/fido-key-wrap-libfido2/src/native.rs:1079-1089 | the outcome is success only if the list shows absence |
| Native.Authenticators.RetireManaged | crates/fido-key-wrap-libfido2/src/native.rs:910-928 | success means, in order and on one device: a response that proves possession over a fresh challenge, an exact match, a deletion attempt, a complete list with neither id; lost replies cannot forge it |
| Native.Authenticators.DeleteManaged | crates/fido-key-wrap-libfido2/src/native.rs:950-978 | believes the last complete list and not the reply to the deletion |
| Native.Authenticators.FinishCleanup | crates/fido-key-wrap-libfido2/src/native.rs:441-455 | success means a response that proves possession over a fresh challenge, a deletion attempt and a last list with neither id |
| Native.Authenticators.PrepareCleanup | crates/fido-key-wrap-libfido2/src/native.rs:930-948 | only the creating device is asked, and absence is believed only of a complete list |
| Native.Authenticators.VerifyManaged | crates/fido-key-wrap-libfido2/src/native.rs:850-855 | success means a response that proves possession over a fresh challenge and then one exact record on the same device |
| Native.Authenticators.VerifyAssertion | crates/fido-key-wrap-libfido2/src/native.rs:992-1040 | success means that the reply to the one request sent had one statement, signed by the expected key for that request, from the expected credential, with user presence and verification and no backup |
| Native.Authenticators.VerifyIdentity | crates/fido-key-wrap-libfido2/src/native.rs:1922-1956 | passes exactly the responses that identify the credential, unless memory runs out |
| Native.FlagsExact | crates/fido-key-wrap-libfido2/src/native.rs:1981-1987 | the policy fixes the four flag bits, so no response passes under both policies |
| Native.Authenticators.GetAssertion | crates/fido-key-wrap-libfido2/src/native.rs:827-832 | the reply of the device to this request, recorded with it |
| Native.Authenticators.ManagedPresence | crates/fido-key-wrap-libfido2/src/native.rs:1042-1069 | an answer rests on one complete list |
| Native.Authenticators.Enroll | crates/fido-key-wrap-libfido2/src/native.rs:666-728 | success hands back the one credential that was made as requested and attested as the policy demands; a managed enrollment that fails hands back a token for the one credential it added, or has added none, or says that one may remain |
| Native.Authenticators.VerifyCredential | crates/fido-key-wrap-libfido2/src/native.rs:1744-1780 | accepts exactly packed ES256 attestations with the protection of the policy, a consistent certificate, a valid signature and exact flags |
| Native.Authenticators.MakeCredential | crates/fido-key-wrap-libfido2/src/native.rs:686-695 | the reply of the device to this request, recorded with it; a definite failure creates nothing |
| Native.Authenticators.Evaluate | crates/fido-key-wrap-libfido2/src/native.rs:761-840 | nothing is sent for a request that its policy does not permit; what is returned is the 32-byte secret of the one response that was asked for, for this credential and salt, signed, from the expected credential and with the flags of the policy |
| Native.Authenticators.EvaluateManagedEnrollment | crates/fido-key-wrap-libfido2/src/native.rs:868-886 | the verified result of a new managed credential is used only after its exact record was seen on the same device |
| Native.Authenticators.PrepareSelection | crates/fido-key-wrap-libfido2/src/native.rs:535-577 | every candidate supports the operation |
| Native.HeldIsListed | crates/fido-key-wrap-libfido2/src/native.rs:1042-1069 | a credential in store is on the list of an honest device |
| Backends.NativeBackend.EnrollManaged | crates/fido-key-wrap/src/backend.rs:351-445 | with devices that report truly, a failure that does not say that a credential may remain has left the store as it was |
| Backends.NativeBackend.CleanupPending | crates/fido-key-wrap/src/backend.rs:531-553 | with devices that report truly, success leaves the store as it was before the enrollment |
| Backends.NativeBackend.RejectPending | crates/fido-key-wrap/src/backend.rs:578-589 | keeps the original error only if the new credential is gone |
| Backends.NativeBackend.Evaluate | crates/fido-key-wrap/src/backend.rs:447-493 | asks for a PIN exactly under user verification, then for a touch, and returns the PRF of a verified response to one request for this credential and input |
| Backends.NativeBackend.EvaluateManaged | crates/fido-key-wrap/src/backend.rs:628-657 | reuses the enrollment PIN: a touch and no PIN prompt; the PRF of a verified response, after which the exact record was seen on the device |
| Backends.NativeBackend.RetireManaged | crates/fido-key-wrap/src/backend.rs:514-528 | success carries the whole retirement argument of one device; at most the named credential is dropped |
| Backends.NativeBackend.VerifyManaged | crates/fido-key-wrap/src/backend.rs:495-512 | success carries the proof of possession and the exact record of one device |
| Backends.NativeBackend.Enroll | crates/fido-key-wrap/src/backend.rs:283-349 | a returned key is on the curve and was attested in this call, and managed stores are untouched |
| Backends.AuthenticatorBackend.EnrollManaged | crates/fido-key-wrap/src/backend.rs:96-124 | the two backends meet one contract: all or reported |
| Backends.AuthenticatorBackend.CleanupManaged | crates/fido-key-wrap/src/backend.rs:184-208 | success means that the store is as before the enrollment, in both backends |
| Backends.AuthenticatorBackend.Evaluate | crates/fido-key-wrap/src/backend.rs:126-136 | changes no store and asks a device at most once; the result is what a device gave in this call for the exact credential and input |
| Backends.AuthenticatorBackend.Enroll | crates/fido-key-wrap/src/backend.rs:77-94 | an ordinary enrollment leaves every managed credential as it was, in both backends |
| Backends.AuthenticatorBackend.AnswersAgree | crates/fido-key-wrap/src/backend.rs:1065-1121 | a device whose PRF is a function of what it is asked, as the test double is, gives one answer for one credential, policy and input |
| Backends.UndoRestores | crates/fido-key-wrap/src/backend.rs:531-553 | dropping the only addition restores the store |
| Backends.AddedIsListed | crates/fido-key-wrap/src/backend.rs:531-553 | an honest device cannot report a new credential absent |
| Selection.Panel.SelectByTouch | crates/fido-key-wrap-libfido2/src/native.rs:1423-1481 | the winner is the first device in turn to report a touch; its timeout is restored and all others are cancelled; every other exit of the polling cancels all; the exit by an expired or oversized deadline during the announcement is the only one that cancels none |
| Selection.Panel.Poll | crates/fido-key-wrap-libfido2/src/native.rs:1441-1480 | polls go round in order, none starts at or after the deadline or waits beyond it by more than the least wait, and the loop ends if each call takes time |
| Selection.Panel.PollOnce | crates/fido-key-wrap-libfido2/src/native.rs:1442-1478 | how one poll ends the ceremony, or does not |
| Selection.Panel.Announce | crates/fido-key-wrap-libfido2/src/native.rs:1427-1440 | each device in order gets a timeout and is asked for a touch; one that cannot be prepared cancels all |
| Selection.Panel.CancelAll | crates/fido-key-wrap-libfido2/src/native.rs:1490-1494 | every device is cancelled |
| Selection.SwapRemoveKeepsOthers | crates/fido-key-wrap-libfido2/src/native.rs:1465-1466 | taking the winner out leaves exactly the others |
| Stores.CreateRefines | crates/fido-key-wrap-platform/src/testing.rs:28-44 | where a truthful native create succeeds or finds other material, the in-memory store does the same; other definite errors leave the entries alone |
| Stores.LoadRefines | crates/fido-key-wrap-platform/src/testing.rs:46-55 | a truthful load agrees with the in-memory store |
| Stores.RemoveRefines | crates/fido-key-wrap-platform/src/testing.rs:57-67 | a truthful removal agrees with the in-memory store |
| Stores.FaultlessVerdicts | crates/fido-key-wrap-platform/src/testing.rs:28-67 | the verdicts of a native store without faults are the answers of the in-memory store |
| Stores.KeysDiffer | crates/fido-key-wrap-platform/src/lib.rs:179-191 | no two applications, recipients or kinds of secret share an entry |
| Stores.MemoryStore.Create | crates/fido-key-wrap-platform/src/testing.rs:28-44 | different material is never replaced; a retry succeeds |
| Stores.MemoryStore.Load | crates/fido-key-wrap-platform/src/testing.rs:46-55 | gives what was stored |
| Stores.MemoryStore.Remove | crates/fido-key-wrap-platform/src/testing.rs:57-67 | removes one entry and touches no other |
| Stores.MemoryStore.RemoveExpected | crates/fido-key-wrap-platform/src/testing.rs:158-173 | removes a recovery secret only for one who shows it |
| SecretService.LinuxStore.Create | crates/fido-key-wrap-platform/src/linux.rs:30-91 | meets the shared contract under any faults of a single-writer collection, and without faults gives the verdict of the in-memory store |
| SecretService.LinuxStore.ReconcileAfterCreateError | crates/fido-key-wrap-platform/src/linux.rs:145-168 | tells truly what an uncertain create has left |
| SecretService.LinuxStore.CleanupAfterFailedCreate | crates/fido-key-wrap-platform/src/linux.rs:194-209 | keeps the error only if the new item is gone |
| SecretService.LinuxStore.Load | crates/fido-key-wrap-platform/src/linux.rs:93-109 | meets the shared contract, and without faults tells missing, ambiguous and corrupt entries apart |
| SecretService.LinuxStore.Remove | crates/fido-key-wrap-platform/src/linux.rs:111-143 | removed and absent are the truth, and only an uncertain state may have changed under an error |
| SecretService.DropOnly | crates/fido-key-wrap-platform/src/linux.rs:124-133 | deleting the only item of a key touches no other key |
| Keychains.MacosStore.Create | crates/fido-key-wrap-platform/src/macos.rs:37-63 | meets the shared contract in both keychains, and without faults gives the verdict of the in-memory store |
| Keychains.MacosStore.Load | crates/fido-key-wrap-platform/src/macos.rs:65-72 | meets the shared contract |
| Keychains.MacosStore.Remove | crates/fido-key-wrap-platform/src/macos.rs:74-91 | meets the shared contract although the deletion reports nothing |
| Keychains.MacosStore.FindItems | crates/fido-key-wrap-platform/src/macos.rs:183-219 | a lookup changes nothing and sees what the kind of keychain shows |
| Keychains.DropKey | crates/fido-key-wrap-platform/src/macos.rs:78-80 | deleting an entry touches no other key |
| UserPresence.UserPresenceStore.Create | crates/fido-key-wrap-platform/src/macos_user_presence.rs:34-48 | meets the shared contract through its verification, reconciliation and cleanup, and without faults gives the verdict of the in-memory store |
| UserPresence.UserPresenceStore.LoadExact | crates/fido-key-wrap-platform/src/macos_user_presence.rs:57-75 | returns a secret only from the one entry under its own fingerprint |
| UserPresence.UserPresenceStore.Load | crates/fido-key-wrap-platform/src/macos_user_presence.rs:50-55 | meets the shared contract |
| UserPresence.UserPresenceStore.Remove | crates/fido-key-wrap-platform/src/macos_user_presence.rs:77-95 | meets the shared contract, and never deletes another secret if fingerprints do not collide; without faults it removes the expected secret and refuses another |
| UserPresence.UserPresenceStore.ReconcileAfterAddError | crates/fido-key-wrap-platform/src/macos_user_presence.rs:164-183 | tells truly what an uncertain add has left |
| UserPresence.UserPresenceStore.CleanupAfterFailedCreate | crates/fido-key-wrap-platform/src/macos_user_presence.rs:185-196 | keeps the error only if nothing is left |
| UserPresence.UserPresenceStore.ReconcileAfterDeleteError | crates/fido-key-wrap-platform/src/macos_user_presence.rs:198-209 | an error other than uncertainty means that the entry is still there |
| UserPresence.UserPresenceStore.ItemLabel | crates/fido-key-wrap-platform/src/macos_user_presence.rs:305-316 | the label is the prefix and the fingerprint in hexadecimal |
| UserPresence.UserPresenceStore.DropByLabel | crates/fido-key-wrap-platform/src/macos_user_presence.rs:293-301 | deleting by label takes the one entry of that fingerprint or nothing |
| Container.Decode | crates/fkw-tool/src/container.rs:117-144 | accepts exactly the encodings of valid files |
| Container.Encode | crates/fkw-tool/src/container.rs:147-164 | writes the bytes of a file field by field |
| Container.FilesPrefixFree | crates/fkw-tool/src/container.rs:117-144 | no file is a proper prefix of another |
| Container.LimitIsExact | crates/fkw-tool/src/container.rs:16-17 | the early size check is met exactly by the largest valid file |
| Container.ByteCursor.Take | crates/fkw-tool/src/container.rs:251-263 | gives the next bytes or refuses and moves nothing |
| Container.ByteCursor.TakeU32 | crates/fkw-tool/src/container.rs:269-275 | reads four bytes as the number they spell |
| Container.EncryptWithNonce | crates/fkw-tool/src/container.rs:43-68 | refuses exactly secrets and envelopes of a wrong length, and what it seals decrypts |
| Container.AadNamesEnvelope | crates/fkw-tool/src/container.rs:194-196 | a secret is bound to its exact envelope |
| Generator.BuildRecord | test-vectors/generate.py:195-628 | for every valid record of every kind, the context transcript and the record bytes of the generator are those of the Rust code |
| Generator.BuildsTheRecord | test-vectors/generate.py:195-628 | what the generator builds for a described record is what an envelope takes from it, so built records can be put together |
| Generator.EnvelopeFields | test-vectors/generate.py:631-694 | from the records of a valid envelope in any order, the generator's canonical body, MAC and envelope are those of the Rust code |
| Generator.AnyOrderSorts | test-vectors/generate.py:637 | sorting any listing of the records of an envelope gives its own order |
| Generator.ContextOf | test-vectors/generate.py:202-305 | the context transcripts agree |
| Generator.KeysOf | test-vectors/generate.py:313-431 | the derived keys agree |
| Generator.EncodeRecord | test-vectors/generate.py:433-626 | the wrapped roots and the record bytes agree |
| Generator.DomainsAgree | test-vectors/generate.py:56-83 | the sixteen domain strings agree |
| Generator.ValidIsDistinct | test-vectors/generate.py:638-648 | the assertions on ids, salts and credentials hold of every valid set |
| Generator.BodiesAgree | test-vectors/generate.py:650-681 | the nested arrays are the flat list of items that the Rust code writes |
| Python.TranscriptsAgree | test-vectors/generate.py:131-135 | the generator frames fields as the Rust code does |
| Python.HeadsAgree | test-vectors/generate.py:157-170 | the generator writes the same shortest heads |
| Python.ArraysAgree | test-vectors/generate.py:186-187 | an array of encoded values is the encoding of its items |
| Python.HkdfSha256 | test-vectors/generate.py:138-154 | the loop computes HKDF-Expand, for up to 255 blocks |
| Python.DeriveKey | test-vectors/generate.py:138-154 | for 32 bytes that is the HKDF of the library |

## Left out

- FFI, library loading and raw-pointer copies: foreign code; a security key is a state machine with status codes.
- The insides of SHA-256, HKDF, HMAC, AES-GCM, Argon2id and P-256: library code, abstract here.
- Zeroization, constant-time comparison and redacted debug output: not functional properties.
- The Python binding, the demo, the terminal prompts, file-system storage and plumbing of the tool: interface code around what is modelled.
- Error texts and diagnostics: single lookups; the error mappings are used but not counted as properties.
- UTF-8 validity of text: every accepted text is ASCII by its own check, so nothing else could be accepted.
- The errors of fallible framing inside the key derivations and the MAC: `Crypto.ContextFramable` and `Crypto.MacFramable` prove that they cannot occur, so those derivations are plain functions.
- A device that overwrites a discoverable credential of the same relying party and user: recipient ids are 32 random bytes, and a modelled device never reuses a credential id.
- The touch ceremony inside the selection of the native adapter, which takes any candidate: the ceremony itself is modelled in `Selection`.
- The drop of devices when a touch ceremony is left by an expired deadline during its announcement: it cancels through destruction, outside the model.
- Exhaustion of the test double's credential numbers: a panic there, a precondition (`HasRoom`) here.
- Poisoned locks of the in-memory stores: they follow a panic elsewhere.
- Display fields that the vector generator prints beside the bytes, and its assertion on the length of the wrapped root, which the length of the cipher's output implies.
- The contents of an envelope inside the tool's file: its decoder checks the length only.
