/**
 What one mutation does to an envelope, and what any sequence of mutations keeps:
 every surviving route opens the root that the envelope was created with.
 */
module Runs {
  import opened Wrappers
  import opened Errors
  import opened Bytes
  import opened Identity
  import opened Policy
  import opened Envelopes
  import opened Crypto
  import opened Roster
  import Codec

  // ----- one mutation -----

  /** The same envelope around another list of records, authenticated afresh. */
  function Staged(p: Primitives, e: Envelope, rs: seq<RecipientRecord>, root: Bytes32): (f: Envelope)
    ensures f.applicationId == e.applicationId && f.envelopeId == e.envelopeId && f.recipients == rs
    ensures f.mac == Mac(p, f, root)
  {
    var f := Envelope(e.applicationId, e.envelopeId, rs, e.mac);
    MacIgnoresMac(p, f, Mac(p, f, root), root);
    f.(mac := Mac(p, f, root))
  }

  /** The record carries the root under the keys that these factors give. */
  ghost predicate Wraps(p: Primitives, r: RecipientRecord, app: Bytes, envelopeId: Bytes32, root: Bytes32, f: Factors)
  {
    Suits(r, f) && r == Wrap(p, r, app, envelopeId, root, KeysFrom(p, r, app, envelopeId, f))
  }

  /** Fit to join the envelope: a new id, and no credential or salt in use. */
  ghost predicate Joins(rs: seq<RecipientRecord>, r: RecipientRecord)
  {
    IdFree(rs, r.id) && forall i | 0 <= i < |rs| :: !Clash(rs[i], r)
  }

  ghost predicate SaltFree(rs: seq<RecipientRecord>, salt: Bytes16)
  {
    forall i | 0 <= i < |rs| && rs[i].UsesPassphrase() :: rs[i].kdf.salt != salt
  }

  ghost predicate CredentialFree(rs: seq<RecipientRecord>, id: Bytes)
  {
    forall i | 0 <= i < |rs| && rs[i].UsesCredential() :: rs[i].credentialId != id
  }

  /** What a rewrap may change in a record: parameters, salt, nonces and the wrapped root. */
  ghost predicate Rekeys(previous: RecipientRecord, replacement: RecipientRecord, parameters: PassphraseParameters)
  {
    && replacement.id == previous.id && replacement.caption == previous.caption
    && replacement.UsesPassphrase() && replacement.kdf.parameters == parameters
    && (previous.Passphrase? ==> replacement.Passphrase? && replacement.passphraseNonce != previous.passphraseNonce)
    && (previous.FidoAndPassphrase? ==>
          && replacement.FidoAndPassphrase?
          && replacement.credentialId == previous.credentialId && replacement.publicKey == previous.publicKey && replacement.policy == previous.policy
          && replacement.prfNonce != previous.prfNonce && replacement.fidoNonce != previous.fidoNonce
          && replacement.passphraseNonce != previous.passphraseNonce)
    && previous.UsesPassphrase()
  }

  datatype Change =
    | Unchanged
    | Added(record: RecipientRecord, factors: Factors)
    | Removed(index: nat)
    | Rewrapped(index: nat, record: RecipientRecord, factors: Factors)

  /** `f` is what the change makes of `e`. */
  ghost predicate Changes(p: Primitives, root: Bytes32, e: Envelope, c: Change, f: Envelope)
  {
    match c
    case Unchanged => f == e
    case Added(r, factors) =>
      && |e.recipients| < MAX_RECIPIENTS && r.Valid(p.onCurve) && Joins(e.recipients, r)
      && Wraps(p, r, e.applicationId, e.envelopeId, root, factors)
      && f == Staged(p, e, Insert(e.recipients, r), root)
    case Removed(i) =>
      && i < |e.recipients| && |e.recipients| >= 2
      && f == Staged(p, e, RemoveAt(e.recipients, i), root)
    case Rewrapped(i, r, factors) =>
      && i < |e.recipients| && r.Valid(p.onCurve) && r.UsesPassphrase()
      && Rekeys(e.recipients[i], r, r.kdf.parameters) && SaltFree(e.recipients, r.kdf.salt)
      && Wraps(p, r, e.applicationId, e.envelopeId, root, factors)
      && f == Staged(p, e, e.recipients[i := r], root)
  }

  lemma AddedValid(e: Envelope, r: RecipientRecord, f: Envelope, onCurve: Bytes -> bool)
    requires WellFormed(e, onCurve) && |e.recipients| < MAX_RECIPIENTS
    requires r.Valid(onCurve) && Joins(e.recipients, r)
    requires f.applicationId == e.applicationId && f.recipients == Insert(e.recipients, r)
    ensures Valid(f, onCurve)
  {
    InsertValid(e.recipients, r);
    var after := Insert(e.recipients, r);
    forall i | 0 <= i < |after|
      ensures after[i].Valid(onCurve)
    {
      assert after[i] in multiset(e.recipients) + multiset{r};
    }
  }

  lemma RemovedValid(e: Envelope, i: nat, f: Envelope, onCurve: Bytes -> bool)
    requires WellFormed(e, onCurve) && i < |e.recipients| && |e.recipients| >= 2
    requires f.applicationId == e.applicationId && f.recipients == RemoveAt(e.recipients, i)
    ensures Valid(f, onCurve)
  {
    RemoveAtValid(e.recipients, i);
    hide RecipientRecord.Valid, SetValid;
    var after := RemoveAt(e.recipients, i);
    forall j | 0 <= j < |after|
      ensures after[j].Valid(onCurve)
    {
      RemovedFrom(e.recipients, i, j);
    }
  }

  lemma RewrapNoClash(rs: seq<RecipientRecord>, i: nat, r: RecipientRecord)
    requires NoClash(rs) && i < |rs| && r.UsesPassphrase()
    requires Rekeys(rs[i], r, r.kdf.parameters) && SaltFree(rs, r.kdf.salt)
    ensures forall k | 0 <= k < |rs| && k != i :: !Clash(rs[k], r)
  {
    forall k | 0 <= k < |rs| && k != i
      ensures !Clash(rs[k], r)
    {
      ClashSymmetric(rs[i], rs[k]);
    }
  }

  lemma RewrappedValid(e: Envelope, i: nat, r: RecipientRecord, f: Envelope, onCurve: Bytes -> bool)
    requires WellFormed(e, onCurve) && i < |e.recipients| && r.Valid(onCurve) && r.UsesPassphrase()
    requires Rekeys(e.recipients[i], r, r.kdf.parameters) && SaltFree(e.recipients, r.kdf.salt)
    requires f.applicationId == e.applicationId && f.recipients == e.recipients[i := r]
    ensures Valid(f, onCurve)
  {
    RewrapNoClash(e.recipients, i, r);
    hide RecipientRecord.Valid, Clash, SaltFree;
    ReplaceValid(e.recipients, i, r);
  }

  /** Every mutation of a valid envelope gives a valid envelope of the same application and identity. */
  lemma ChangesKeepValid(p: Primitives, root: Bytes32, e: Envelope, c: Change, f: Envelope)
    requires Valid(e, p.onCurve) && Changes(p, root, e, c, f)
    ensures Valid(f, p.onCurve) && f.applicationId == e.applicationId && f.envelopeId == e.envelopeId
    ensures !c.Unchanged? ==> f.mac == Mac(p, f, root)
  {
    hide RecipientRecord.Valid, SetValid, Rekeys, SaltFree, Joins, Mac, Wraps, Insert;
    match c
    case Unchanged =>
    case Added(r, _) => AddedValid(e, r, f, p.onCurve);
    case Removed(i) => RemovedValid(e, i, f, p.onCurve);
    case Rewrapped(i, r, _) => RewrappedValid(e, i, r, f, p.onCurve);
  }

  /** A lawful cipher opens what the factors wrapped. */
  lemma WrapsOpens(p: Primitives, r: RecipientRecord, app: Bytes, envelopeId: Bytes32, root: Bytes32, f: Factors)
    requires p.Lawful() && Wraps(p, r, app, envelopeId, root, f)
    ensures Open(p, r, app, envelopeId, f) == Ok(root)
  {
    hide Wrap, Recover, KeysFrom, PrimitiveSet.Sized, PrimitiveSet.Lawful;
    WrapRecovers(p, r, app, envelopeId, root, KeysFrom(p, r, app, envelopeId, f));
  }

  // ----- runs -----

  /** An envelope together with the factors last enrolled for each recipient. */
  datatype State = State(envelope: Envelope, ring: map<RecipientId, Factors>)

  function NextRing(e: Envelope, ring: map<RecipientId, Factors>, c: Change): map<RecipientId, Factors>
  {
    match c
    case Unchanged => ring
    case Added(r, factors) => ring[r.id := factors]
    case Removed(i) => if i < |e.recipients| then ring - {e.recipients[i].id} else ring
    case Rewrapped(_, r, factors) => ring[r.id := factors]
  }

  ghost predicate Step(p: Primitives, root: Bytes32, s: State, c: Change, t: State)
  {
    Changes(p, root, s.envelope, c, t.envelope) && t.ring == NextRing(s.envelope, s.ring, c)
  }

  /** Record `i` opens to the root with the factors on the ring. */
  ghost predicate RouteOpens(p: Primitives, root: Bytes32, e: Envelope, ring: map<RecipientId, Factors>, i: nat)
    requires i < |e.recipients|
  {
    && e.recipients[i].id in ring
    && Open(p, e.recipients[i], e.applicationId, e.envelopeId, ring[e.recipients[i].id]) == Ok(root)
  }

  ghost predicate RoutesOpen(p: Primitives, root: Bytes32, s: State)
  {
    forall i | 0 <= i < |s.envelope.recipients| :: RouteOpens(p, root, s.envelope, s.ring, i)
  }

  /** Nothing is on the ring but the recipients of the envelope. */
  ghost predicate RingExact(s: State)
  {
    forall id :: id in s.ring <==> !IdFree(s.envelope.recipients, id)
  }

  ghost predicate Sound(p: Primitives, root: Bytes32, app: Bytes, envelopeId: Bytes32, s: State)
  {
    && s.envelope.applicationId == app && s.envelope.envelopeId == envelopeId
    && Valid(s.envelope, p.onCurve)
    && s.envelope.mac == Mac(p, s.envelope, root)
    && RoutesOpen(p, root, s)
    && RingExact(s)
  }

  /** A newly protected root: one record, in an envelope that had none. */
  ghost predicate Created(p: Primitives, root: Bytes32, app: Bytes, r: RecipientRecord, factors: Factors, e: Envelope)
  {
    Changes(p, root, Envelope(app, e.envelopeId, [], Zeros(32)), Added(r, factors), e)
  }

  lemma InsertFirst(r: RecipientRecord)
    ensures Insert([], r) == [r]
  {
  }

  lemma OneOnRing(r: RecipientRecord, factors: Factors, s: State)
    requires s.envelope.recipients == [r] && s.ring == map[r.id := factors]
    ensures RingExact(s)
  {
    assert s.envelope.recipients[0].id == r.id;
  }

  lemma CreatedHolds(p: Primitives, root: Bytes32, app: Bytes, r: RecipientRecord, factors: Factors, e: Envelope)
    requires Created(p, root, app, r, factors, e)
    ensures e.applicationId == app && e.recipients == [r] && e.mac == Mac(p, e, root)
    ensures r.Valid(p.onCurve) && Wraps(p, r, app, e.envelopeId, root, factors)
  {
    InsertFirst(r);
    hide Mac, Wraps, RecipientRecord.Valid, Insert, Joins, PrimitiveSet.Sized;
  }

  lemma OneIsValid(e: Envelope, r: RecipientRecord, onCurve: Bytes -> bool)
    requires DnsShaped(e.applicationId) && e.recipients == [r] && r.Valid(onCurve)
    ensures Valid(e, onCurve)
  {
    hide RecipientRecord.Valid, DnsShaped;
  }

  lemma CreatedSound(p: Primitives, root: Bytes32, app: Bytes, r: RecipientRecord, factors: Factors, e: Envelope)
    requires p.Lawful() && DnsShaped(app) && Created(p, root, app, r, factors, e)
    ensures e.recipients == [r]
    ensures Sound(p, root, app, e.envelopeId, State(e, map[r.id := factors]))
  {
    hide Created, Mac, Wraps, RecipientRecord.Valid, DnsShaped, RouteOpens, RoutesOpen, RingExact, Valid,
         PrimitiveSet.Lawful, PrimitiveSet.Sized;
    var s := State(e, map[r.id := factors]);
    CreatedHolds(p, root, app, r, factors, e);
    OneIsValid(e, r, p.onCurve);
    NewRoute(p, root, s, 0, factors);
    AllRoutes(p, root, s);
    OneOnRing(r, factors, s);
  }

  /** A record that is kept, with its factors, is still a route to the root. */
  lemma KeptRoute(p: Primitives, root: Bytes32, s: State, k: nat, t: State, j: nat)
    requires k < |s.envelope.recipients| && j < |t.envelope.recipients|
    requires t.envelope.recipients[j] == s.envelope.recipients[k]
    requires t.envelope.applicationId == s.envelope.applicationId && t.envelope.envelopeId == s.envelope.envelopeId
    requires var id := s.envelope.recipients[k].id; id in s.ring ==> id in t.ring && t.ring[id] == s.ring[id]
    requires RoutesOpen(p, root, s)
    ensures RouteOpens(p, root, t.envelope, t.ring, j)
  {
    hide Open, PrimitiveSet.Sized;
    assert RouteOpens(p, root, s.envelope, s.ring, k);
  }

  /** A record that was just wrapped is a route to the root. */
  lemma NewRoute(p: Primitives, root: Bytes32, t: State, j: nat, factors: Factors)
    requires p.Lawful() && j < |t.envelope.recipients|
    requires var r := t.envelope.recipients[j];
             && r.id in t.ring && t.ring[r.id] == factors
             && Wraps(p, r, t.envelope.applicationId, t.envelope.envelopeId, root, factors)
    ensures RouteOpens(p, root, t.envelope, t.ring, j)
  {
    hide Open, Wraps, PrimitiveSet.Sized, PrimitiveSet.Lawful;
    WrapsOpens(p, t.envelope.recipients[j], t.envelope.applicationId, t.envelope.envelopeId, root, factors);
  }

  lemma AddedRoutes(p: Primitives, root: Bytes32, s: State, r: RecipientRecord, factors: Factors, t: State)
    requires p.Lawful() && RoutesOpen(p, root, s) && Step(p, root, s, Added(r, factors), t)
    ensures RoutesOpen(p, root, t)
  {
    var e, f := s.envelope, t.envelope;
    hide Open, Wraps, Mac, Insert, RoutesOpen, RouteOpens, PrimitiveSet.Lawful, PrimitiveSet.Sized, RecipientRecord.Valid, Clash;
    assert IdFree(e.recipients, r.id) && t.ring == s.ring[r.id := factors];
    InInsert(e.recipients, r);
    forall j | 0 <= j < |f.recipients|
      ensures RouteOpens(p, root, f, t.ring, j)
    {
      if f.recipients[j] == r {
        NewRoute(p, root, t, j, factors);
      } else {
        assert f.recipients[j] in e.recipients;
        var k :| 0 <= k < |e.recipients| && e.recipients[k] == f.recipients[j];
        KeptRoute(p, root, s, k, t, j);
      }
    }
    AllRoutes(p, root, t);
  }

  lemma AllRoutes(p: Primitives, root: Bytes32, t: State)
    requires forall j | 0 <= j < |t.envelope.recipients| :: RouteOpens(p, root, t.envelope, t.ring, j)
    ensures RoutesOpen(p, root, t)
  {
  }

  lemma AddedRing(p: Primitives, root: Bytes32, s: State, r: RecipientRecord, factors: Factors, t: State)
    requires RingExact(s) && Step(p, root, s, Added(r, factors), t)
    ensures RingExact(t)
  {
    hide Wraps, Mac, Insert, RecipientRecord.Valid, Joins, IdFree;
    forall id
      ensures id in t.ring <==> !IdFree(t.envelope.recipients, id)
    {
      InsertedIds(s.envelope.recipients, r, id);
    }
  }

  lemma InsertedIds(rs: seq<RecipientRecord>, r: RecipientRecord, id: RecipientId)
    ensures IdFree(Insert(rs, r), id) <==> IdFree(rs, id) && id != r.id
  {
    InInsert(rs, r);
    var after := Insert(rs, r);
    hide Insert;
    assert r in after;
    if !IdFree(rs, id) {
      var i :| 0 <= i < |rs| && rs[i].id == id;
      assert rs[i] in after;
    }
    if IdFree(rs, id) && id != r.id {
      forall i | 0 <= i < |after| ensures after[i].id != id { assert after[i] in after; }
    }
  }

  lemma RemovedIds(rs: seq<RecipientRecord>, i: nat, id: RecipientId)
    requires Ascending(rs) && i < |rs|
    ensures IdFree(RemoveAt(rs, i), id) <==> IdFree(rs, id) || id == rs[i].id
  {
    hide RemoveAt;
    var after := RemoveAt(rs, i);
    RemovedFromAll(rs, i);
    if !IdFree(rs, id) && id != rs[i].id {
      var k :| 0 <= k < |rs| && rs[k].id == id;
      assert after[if k < i then k else k - 1].id == id;
    }
    if IdFree(rs, id) || id == rs[i].id {
      forall j | 0 <= j < |after|
        ensures after[j].id != id
      {
        RemovedFrom(rs, i, j);
      }
    }
  }

  lemma RemovedFromAll(rs: seq<RecipientRecord>, i: nat)
    requires i < |rs|
    ensures |RemoveAt(rs, i)| == |rs| - 1
    ensures forall k | 0 <= k < i :: RemoveAt(rs, i)[k] == rs[k]
    ensures forall k | i < k < |rs| :: RemoveAt(rs, i)[k - 1] == rs[k]
  {
  }

  lemma RemovedRoutes(p: Primitives, root: Bytes32, s: State, i: nat, t: State)
    requires Ascending(s.envelope.recipients)
    requires RoutesOpen(p, root, s) && Step(p, root, s, Removed(i), t)
    ensures RoutesOpen(p, root, t)
  {
    var e, f := s.envelope, t.envelope;
    hide Open, Mac, RemoveAt, RoutesOpen, RouteOpens, Ascending, PrimitiveSet.Sized;
    assert t.ring == s.ring - {e.recipients[i].id};
    RemovedFromAll(e.recipients, i);
    forall j | 0 <= j < |f.recipients|
      ensures RouteOpens(p, root, f, t.ring, j)
    {
      var k := if j < i then j else j + 1;
      RemovedFrom(e.recipients, i, j);
      DistinctIds(e.recipients, i, k);
      KeptRoute(p, root, s, k, t, j);
    }
    AllRoutes(p, root, t);
  }

  lemma RemovedRing(p: Primitives, root: Bytes32, s: State, i: nat, t: State)
    requires Ascending(s.envelope.recipients) && RingExact(s) && Step(p, root, s, Removed(i), t)
    ensures RingExact(t)
  {
    hide Mac, RemoveAt, IdFree, Ascending;
    forall id
      ensures id in t.ring <==> !IdFree(t.envelope.recipients, id)
    {
      RemovedIds(s.envelope.recipients, i, id);
    }
  }

  lemma DistinctIds(rs: seq<RecipientRecord>, i: nat, k: nat)
    requires Ascending(rs) && i < |rs| && k < |rs| && i != k
    ensures rs[i].id != rs[k].id
  {
  }

  lemma RewrappedRoutes(p: Primitives, root: Bytes32, s: State, i: nat, r: RecipientRecord, factors: Factors, t: State)
    requires p.Lawful() && Ascending(s.envelope.recipients)
    requires RoutesOpen(p, root, s) && Step(p, root, s, Rewrapped(i, r, factors), t)
    ensures RoutesOpen(p, root, t)
  {
    var e, f := s.envelope, t.envelope;
    hide Open, Mac, Wraps, RoutesOpen, RouteOpens, PrimitiveSet.Lawful, PrimitiveSet.Sized, RecipientRecord.Valid, SaltFree,
         Ascending;
    assert r.id == e.recipients[i].id && t.ring == s.ring[r.id := factors];
    forall j | 0 <= j < |f.recipients|
      ensures RouteOpens(p, root, f, t.ring, j)
    {
      if j == i {
        NewRoute(p, root, t, i, factors);
      } else {
        DistinctIds(e.recipients, i, j);
        KeptRoute(p, root, s, j, t, j);
      }
    }
    AllRoutes(p, root, t);
  }

  lemma ReplacedIds(rs: seq<RecipientRecord>, i: nat, r: RecipientRecord, id: RecipientId)
    requires i < |rs| && r.id == rs[i].id
    ensures IdFree(rs[i := r], id) <==> IdFree(rs, id)
    ensures !IdFree(rs, r.id)
  {
    forall k | 0 <= k < |rs|
      ensures rs[i := r][k].id == rs[k].id
    {
    }
  }

  lemma RewrappedRing(p: Primitives, root: Bytes32, s: State, i: nat, r: RecipientRecord, factors: Factors, t: State)
    requires RingExact(s) && Step(p, root, s, Rewrapped(i, r, factors), t)
    ensures RingExact(t)
  {
    hide Mac, Wraps, RecipientRecord.Valid, SaltFree, IdFree;
    assert r.id == s.envelope.recipients[i].id;
    forall id
      ensures id in t.ring <==> !IdFree(t.envelope.recipients, id)
    {
      ReplacedIds(s.envelope.recipients, i, r, id);
    }
  }

  lemma StepKeeps(p: Primitives, root: Bytes32, app: Bytes, envelopeId: Bytes32, s: State, c: Change, t: State)
    requires p.Lawful() && Sound(p, root, app, envelopeId, s) && Step(p, root, s, c, t)
    ensures Sound(p, root, app, envelopeId, t)
  {
    ChangesKeepValid(p, root, s.envelope, c, t.envelope);
    hide Mac, RoutesOpen, RingExact, PrimitiveSet.Lawful;
    match c
    case Unchanged => assert t == s;
    case Added(r, factors) =>
      AddedRoutes(p, root, s, r, factors, t);
      AddedRing(p, root, s, r, factors, t);
    case Removed(i) =>
      RemovedRoutes(p, root, s, i, t);
      RemovedRing(p, root, s, i, t);
    case Rewrapped(i, r, factors) =>
      RewrappedRoutes(p, root, s, i, r, factors, t);
      RewrappedRing(p, root, s, i, r, factors, t);
  }

  ghost predicate IsRun(p: Primitives, root: Bytes32, states: seq<State>, changes: seq<Change>)
  {
    |states| == |changes| + 1 && forall k | 0 <= k < |changes| :: Step(p, root, states[k], changes[k], states[k + 1])
  }

  /** Any mix of additions, removals, rewraps and failures keeps every route open to the same root. */
  lemma {:induction false} RunKeeps(p: Primitives, root: Bytes32, app: Bytes, envelopeId: Bytes32,
                                    states: seq<State>, changes: seq<Change>, n: nat)
    requires p.Lawful() && IsRun(p, root, states, changes) && n < |states|
    requires Sound(p, root, app, envelopeId, states[0])
    ensures Sound(p, root, app, envelopeId, states[n])
  {
    hide Step, Sound, PrimitiveSet.Lawful;
    if n > 0 {
      RunKeeps(p, root, app, envelopeId, states, changes, n - 1);
      StepKeeps(p, root, app, envelopeId, states[n - 1], changes[n - 1], states[n]);
    }
  }

  // ----- unlocking -----

  /** The root that record `i` gives, if the whole envelope authenticates under it. */
  function Unlocked(p: Primitives, e: Envelope, i: nat, f: Factors): (r: Outcome<Bytes>)
    requires i < |e.recipients|
    ensures r.Ok? ==> |r.value| == 32
  {
    var root :- Open(p, e.recipients[i], e.applicationId, e.envelopeId, f);
    if e.mac == Mac(p, e, root) then Ok(root) else Err(UnlockFailed)
  }

  /** Throughout a run, the current factors of every recipient unlock the original root, so any two routes agree. */
  lemma EveryRouteUnlocks(p: Primitives, root: Bytes32, app: Bytes, envelopeId: Bytes32, states: seq<State>, changes: seq<Change>,
                          n: nat, i: nat)
    requires p.Lawful() && IsRun(p, root, states, changes) && n < |states|
    requires Sound(p, root, app, envelopeId, states[0])
    requires i < |states[n].envelope.recipients|
    ensures var e := states[n].envelope;
            && e.recipients[i].id in states[n].ring
            && Unlocked(p, e, i, states[n].ring[e.recipients[i].id]) == Ok(root)
  {
    RunKeeps(p, root, app, envelopeId, states, changes, n);
    hide Open, Mac;
    assert RouteOpens(p, root, states[n].envelope, states[n].ring, i);
  }

  // ----- laws of pairs of mutations -----

  /** Removing what was just added gives back the authenticated envelope, its MAC and its bytes included. */
  lemma AddThenRemove(p: Primitives, root: Bytes32, e: Envelope, r: RecipientRecord, i: nat)
    requires SetValid(e.recipients) && e.mac == Mac(p, e, root) && Joins(e.recipients, r)
    requires i <= |e.recipients| && Insert(e.recipients, r)[i].id == r.id
    ensures var added := Staged(p, e, Insert(e.recipients, r), root);
            var removed := Staged(p, added, RemoveAt(added.recipients, i), root);
            removed == e && Encoded(removed) == Encoded(e)
  {
    hide Mac, Insert, RemoveAt, Encoded, Clash;
    InsertThenRemove(e.recipients, r, i);
    var added := Staged(p, e, Insert(e.recipients, r), root);
    var removed := Staged(p, added, RemoveAt(added.recipients, i), root);
    MacIgnoresMac(p, removed, e.mac, root);
    assert removed.(mac := e.mac) == e;
  }

  /** So a removal of the added recipient, as the protector performs it, restores the envelope. */
  lemma RemovalRestores(p: Primitives, root: Bytes32, e: Envelope, c: Change, f: Envelope, d: Change, g: Envelope)
    requires Valid(e, p.onCurve) && e.mac == Mac(p, e, root)
    requires c.Added? && Changes(p, root, e, c, f)
    requires d.Removed? && d.index < |f.recipients| && f.recipients[d.index].id == c.record.id && Changes(p, root, f, d, g)
    ensures g == e && Encoded(g) == Encoded(e)
  {
    hide Mac, Wraps, Insert, RemoveAt, RecipientRecord.Valid, DnsShaped, Encoded, Clash, Staged;
    AddThenRemove(p, root, e, c.record, d.index);
  }

  /** Two additions of given records commute. */
  lemma AddsCommute(p: Primitives, root: Bytes32, e: Envelope, a: RecipientRecord, b: RecipientRecord)
    requires Valid(e, p.onCurve) && Joins(e.recipients, a) && Joins(e.recipients, b) && a.id != b.id
    ensures var ab := Staged(p, Staged(p, e, Insert(e.recipients, a), root), Insert(Insert(e.recipients, a), b), root);
            var ba := Staged(p, Staged(p, e, Insert(e.recipients, b), root), Insert(Insert(e.recipients, b), a), root);
            ab == ba
  {
    hide Mac, Insert, RecipientRecord.Valid, DnsShaped, Clash;
    InsertsCommute(e.recipients, a, b);
    var ab := Staged(p, Staged(p, e, Insert(e.recipients, a), root), Insert(Insert(e.recipients, a), b), root);
    var ba := Staged(p, Staged(p, e, Insert(e.recipients, b), root), Insert(Insert(e.recipients, b), a), root);
    MacIgnoresMac(p, ab, ba.mac, root);
    assert ab.(mac := ba.mac) == ba;
  }

  /** A rewrap touches the selected record and the MAC, nothing else. */
  lemma RewrapFrame(p: Primitives, root: Bytes32, e: Envelope, i: nat, r: RecipientRecord, factors: Factors, f: Envelope)
    requires Changes(p, root, e, Rewrapped(i, r, factors), f)
    ensures |f.recipients| == |e.recipients| && f.recipients[i] == r
    ensures forall k | 0 <= k < |e.recipients| && k != i :: f.recipients[k] == e.recipients[k]
    ensures forall k | 0 <= k < |e.recipients| && e.recipients[k].UsesPassphrase() :: e.recipients[k].kdf.salt != r.kdf.salt
  {
    hide Mac, Wraps;
  }

  /** A valid envelope always survives its own encoding, because it is far below the size limit and canonical. */
  lemma SurvivesEncoding(e: Envelope, f: Envelope, onCurve: Bytes -> bool)
    requires Valid(e, onCurve) && Valid(f, onCurve) && Encoded(f) == Encoded(e)
    ensures f == e
  {
    hide BodyItems, Encoded, DnsShaped, RecipientRecord.Valid, SetValid;
    assert Encoded(e) + [] == Encoded(f);
    Codec.PrefixFree(e, f, [], onCurve);
  }
}
