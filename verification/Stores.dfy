/** What every store of local factors promises, and the in-memory stores that meet it plainly. */
module Stores {
  import opened Wrappers
  import opened Bytes
  import opened Identity
  import opened Crypto

  const SECRET_BYTES := 32

  datatype StoreError =
    | Unsupported | Unavailable | Locked | AccessDenied | Cancelled | AlreadyExists | Missing | Ambiguous | Corrupt
    | StateUncertain | OperationFailed

  type StoreResult<+T> = Result<T, StoreError>

  datatype Removal = Removed | Absent

  // ----- entries -----

  /** The public identity of an entry. */
  datatype EntryKey = EntryKey(service: Bytes, account: Bytes)

  datatype Item = Item(handle: nat, key: EntryKey, tag: Bytes, secret: Bytes)

  function LocalKey(application: Bytes, recipient: RecipientId): EntryKey
  {
    EntryKey(Ascii("fido-key-wrap.local-secret:") + application, Print(recipient))
  }

  function RecoveryKey(application: Bytes, recipient: RecipientId): EntryKey
  {
    EntryKey(Ascii("fido-key-wrap.recovery-secret:") + application, Print(recipient))
  }

  /** No two applications, recipients or kinds of secret share an entry. */
  lemma KeysDiffer(a: Bytes, x: RecipientId, b: Bytes, y: RecipientId)
    ensures LocalKey(a, x) == LocalKey(b, y) ==> a == b && x == y
    ensures RecoveryKey(a, x) == RecoveryKey(b, y) ==> a == b && x == y
    ensures LocalKey(a, x) != RecoveryKey(b, y)
  {
    var local, recovery := Ascii("fido-key-wrap.local-secret:"), Ascii("fido-key-wrap.recovery-secret:");
    assert (local + a)[14] == 'l' as int && (recovery + b)[14] == 'r' as int;
    if Print(x) == Print(y) { PrintInjective(x, y); }
    if local + a == local + b { SameCut(local, local, a, b); }
    if recovery + a == recovery + b { SameCut(recovery, recovery, a, b); }
  }

  function Kept<T>(s: seq<T>, p: T -> bool): seq<T>
  {
    if s == [] then [] else Kept(s[..|s| - 1], p) + if p(s[|s| - 1]) then [s[|s| - 1]] else []
  }

  function HasKey(key: EntryKey): Item -> bool { (i: Item) => i.key == key }

  function NotHandle(h: nat): Item -> bool { (i: Item) => i.handle != h }

  function ItemsOf(items: seq<Item>, key: EntryKey): seq<Item>
  {
    Kept(items, HasKey(key))
  }

  lemma KeptAppend<T>(s: seq<T>, x: T, p: T -> bool)
    ensures Kept(s + [x], p) == Kept(s, p) + if p(x) then [x] else []
  {
    assert (s + [x])[..|s|] == s;
  }

  lemma {:induction false} KeptAll<T>(s: seq<T>, p: T -> bool)
    requires forall x | x in s :: p(x)
    ensures Kept(s, p) == s
  {
    if s != [] {
      KeptAll(s[..|s| - 1], p);
      assert s == s[..|s| - 1] + [s[|s| - 1]];
    }
  }

  lemma {:induction false} KeptNone<T>(s: seq<T>, p: T -> bool)
    requires forall x | x in s :: !p(x)
    ensures Kept(s, p) == []
  {
    if s != [] {
      KeptNone(s[..|s| - 1], p);
    }
  }

  lemma {:induction false} KeptMember<T>(s: seq<T>, p: T -> bool)
    ensures forall x :: x in Kept(s, p) <==> x in s && p(x)
    ensures |Kept(s, p)| <= |s|
  {
    if s != [] {
      KeptMember(s[..|s| - 1], p);
      assert s == s[..|s| - 1] + [s[|s| - 1]];
    }
  }

  /** Filtering twice, in either order. */
  lemma {:induction false} KeptTwice<T>(s: seq<T>, p: T -> bool, q: T -> bool)
    ensures Kept(Kept(s, p), q) == Kept(Kept(s, q), p)
  {
    if s != [] {
      var init, last := s[..|s| - 1], s[|s| - 1];
      KeptTwice(init, p, q);
      KeptAppend(Kept(init, p), last, q);
      KeptAppend(Kept(init, q), last, p);
      assert Kept(init, p) + [] == Kept(init, p) && Kept(init, q) + [] == Kept(init, q);
    }
  }

  /** Dropping what a key does not select leaves its items alone. */
  lemma DropElsewhere(items: seq<Item>, kept: Item -> bool, key: EntryKey)
    requires forall i | i in items && i.key == key :: kept(i)
    ensures ItemsOf(Kept(items, kept), key) == ItemsOf(items, key)
  {
    KeptTwice(items, kept, HasKey(key));
    KeptMember(items, HasKey(key));
    KeptAll(ItemsOf(items, key), kept);
  }

  /** Dropping all that a key selects leaves it without items. */
  lemma DropHere(items: seq<Item>, kept: Item -> bool, key: EntryKey)
    requires forall i | i in items && i.key == key :: !kept(i)
    ensures ItemsOf(Kept(items, kept), key) == []
  {
    KeptTwice(items, kept, HasKey(key));
    KeptMember(items, HasKey(key));
    KeptNone(ItemsOf(items, key), kept);
  }

  // ----- the shared contract -----

  ghost predicate OthersKept(before: seq<Item>, after: seq<Item>, key: EntryKey)
  {
    forall k | k != key :: ItemsOf(after, k) == ItemsOf(before, k)
  }

  /** A create either changes nothing or adds the one entry, and its result says which. */
  ghost predicate CreateTrue(before: seq<Item>, after: seq<Item>, key: EntryKey, secret: Bytes, r: StoreResult<()>)
  {
    && (after == before
        || (ItemsOf(before, key) == [] && |ItemsOf(after, key)| == 1 && ItemsOf(after, key)[0].secret == secret
            && OthersKept(before, after, key)))
    && (r.Ok? ==> |ItemsOf(after, key)| == 1 && ItemsOf(after, key)[0].secret == secret)
    && (r.Err? && r.error != StateUncertain ==> after == before)
    && (r == Err(AlreadyExists) ==> |ItemsOf(before, key)| == 1 && ItemsOf(before, key)[0].secret != secret)
  }

  ghost predicate LoadTrue(before: seq<Item>, after: seq<Item>, key: EntryKey, r: StoreResult<Bytes>)
  {
    && after == before
    && (r.Ok? ==> |r.value| == SECRET_BYTES && |ItemsOf(before, key)| == 1 && ItemsOf(before, key)[0].secret == r.value)
    && (r == Err(Missing) ==> ItemsOf(before, key) == [])
  }

  /** A removal either changes nothing or removes the one entry, and its result says which. */
  ghost predicate RemoveTrue(before: seq<Item>, after: seq<Item>, key: EntryKey, r: StoreResult<Removal>)
  {
    && (after == before
        || (|ItemsOf(before, key)| == 1 && ItemsOf(after, key) == [] && OthersKept(before, after, key)))
    && (r == Ok(Removed) ==> |ItemsOf(before, key)| == 1 && ItemsOf(after, key) == [])
    && (r == Ok(Absent) ==> ItemsOf(before, key) == [] && after == before)
    && (r.Err? && r.error != StateUncertain ==> after == before)
  }

  /** What a create reports when no call fails. */
  function CreateVerdict(existing: seq<Item>, secret: Bytes): StoreResult<()>
  {
    if existing == [] then Ok(())
    else if |existing| > 1 then Err(Ambiguous)
    else if existing[0].secret == secret then Ok(())
    else if |existing[0].secret| == SECRET_BYTES then Err(AlreadyExists) else Err(Corrupt)
  }

  function LoadVerdict(existing: seq<Item>): StoreResult<Bytes>
  {
    if existing == [] then Err(Missing)
    else if |existing| > 1 then Err(Ambiguous)
    else if |existing[0].secret| == SECRET_BYTES then Ok(existing[0].secret) else Err(Corrupt)
  }

  function RemoveVerdict(existing: seq<Item>): StoreResult<Removal>
  {
    if existing == [] then Ok(Absent) else if |existing| > 1 then Err(Ambiguous) else Ok(Removed)
  }

  // ----- the in-memory stores -----

  type Entries = map<EntryKey, Bytes32>

  function MemoryCreate(m: Entries, key: EntryKey, secret: Bytes32): (Entries, StoreResult<()>)
  {
    if key in m then (m, if m[key] == secret then Ok(()) else Err(AlreadyExists)) else (m[key := secret], Ok(()))
  }

  function MemoryLoad(m: Entries, key: EntryKey): StoreResult<Bytes32>
  {
    if key in m then Ok(m[key]) else Err(Missing)
  }

  function MemoryRemove(m: Entries, key: EntryKey): (Entries, StoreResult<Removal>)
  {
    (m - {key}, Ok(if key in m then Removed else Absent))
  }

  /** Recovery secrets are removed only by one who shows the same secret. */
  function MemoryRemoveExpected(m: Entries, key: EntryKey, expected: Bytes32): (Entries, StoreResult<Removal>)
  {
    if key in m && m[key] != expected then (m, Err(AlreadyExists)) else MemoryRemove(m, key)
  }

  class MemoryStore {
    const application: Bytes
    var entries: map<RecipientId, Bytes32>

    constructor (application: Bytes)
      ensures entries == map[] && this.application == application
    {
      this.application := application;
      entries := map[];
    }

    /** The store as entries under their public identity. */
    ghost predicate Holds(m: Entries)
      reads this
    {
      && (forall r: RecipientId :: r in entries <==> LocalKey(application, r) in m)
      && (forall r: RecipientId | r in entries :: m[LocalKey(application, r)] == entries[r])
    }

    method Create(recipient: RecipientId, secret: Bytes32, ghost m: Entries) returns (r: StoreResult<()>)
      requires Holds(m)
      modifies this
      ensures var (after, result) := MemoryCreate(m, LocalKey(application, recipient), secret);
              Holds(after) && r == result
    {
      ghost var was := entries;
      if recipient in entries {
        return if entries[recipient] == secret then Ok(()) else Err(AlreadyExists);
      }
      entries := entries[recipient := secret];
      hide LocalKey;
      OnlyThisKey(m, recipient);
      return Ok(());
    }

    lemma OnlyThisKey(m: Entries, recipient: RecipientId)
      ensures forall r: RecipientId :: r != recipient ==> LocalKey(application, r) != LocalKey(application, recipient)
    {
      forall r: RecipientId | r != recipient
        ensures LocalKey(application, r) != LocalKey(application, recipient)
      {
        KeysDiffer(application, r, application, recipient);
      }
    }

    method Load(recipient: RecipientId, ghost m: Entries) returns (r: StoreResult<Bytes32>)
      requires Holds(m)
      ensures r == MemoryLoad(m, LocalKey(application, recipient))
    {
      hide LocalKey;
      return if recipient in entries then Ok(entries[recipient]) else Err(Missing);
    }

    method Remove(recipient: RecipientId, ghost m: Entries) returns (r: StoreResult<Removal>)
      requires Holds(m)
      modifies this
      ensures var (after, result) := MemoryRemove(m, LocalKey(application, recipient));
              Holds(after) && r == result
    {
      var present := recipient in entries;
      entries := entries - {recipient};
      hide LocalKey;
      OnlyThisKey(m, recipient);
      return Ok(if present then Removed else Absent);
    }

    method RemoveExpected(recipient: RecipientId, expected: Bytes32, ghost m: Entries) returns (r: StoreResult<Removal>)
      requires Holds(m)
      modifies this
      ensures var (after, result) := MemoryRemoveExpected(m, LocalKey(application, recipient), expected);
              Holds(after) && r == result
    {
      hide LocalKey;
      if recipient !in entries {
        assert m - {LocalKey(application, recipient)} == m;
        return Ok(Absent);
      }
      if entries[recipient] != expected {
        return Err(AlreadyExists);
      }
      entries := entries - {recipient};
      OnlyThisKey(m, recipient);
      return Ok(Removed);
    }
  }

  // ----- refinement -----

  /** The native entries are exactly those of the map. */
  ghost predicate Represents(items: seq<Item>, m: Entries)
  {
    forall key :: RepresentsAt(items, m, key)
  }

  ghost predicate RepresentsAt(items: seq<Item>, m: Entries, key: EntryKey)
  {
    if key in m then |ItemsOf(items, key)| == 1 && ItemsOf(items, key)[0].secret == m[key] else ItemsOf(items, key) == []
  }

  /** Wherever a truthful create succeeds or finds other material, the in-memory store does the same. */
  lemma CreateRefines(before: seq<Item>, after: seq<Item>, key: EntryKey, secret: Bytes32, r: StoreResult<()>, m: Entries)
    requires Represents(before, m) && CreateTrue(before, after, key, secret, r)
    ensures var (next, result) := MemoryCreate(m, key, secret);
            && (r.Ok? || r == Err(AlreadyExists) ==> r == result && Represents(after, next))
            && (r.Err? && r.error != StateUncertain ==> Represents(after, m))
            && (Represents(after, m) || Represents(after, next))
  {
    hide ItemsOf;
    assert RepresentsAt(before, m, key);
    var (next, result) := MemoryCreate(m, key, secret);
    assert r.Ok? ==> r.value == ();
    if after != before {
      forall k
        ensures RepresentsAt(after, next, k)
      {
        assert RepresentsAt(before, m, k);
      }
    }
  }

  lemma LoadRefines(before: seq<Item>, after: seq<Item>, key: EntryKey, r: StoreResult<Bytes>, m: Entries)
    requires Represents(before, m) && LoadTrue(before, after, key, r)
    ensures Represents(after, m)
    ensures r.Ok? || r == Err(Missing) ==> r == MemoryLoad(m, key)
  {
    hide ItemsOf;
    assert RepresentsAt(before, m, key);
  }

  lemma RemoveRefines(before: seq<Item>, after: seq<Item>, key: EntryKey, r: StoreResult<Removal>, m: Entries)
    requires Represents(before, m) && RemoveTrue(before, after, key, r)
    ensures var (next, result) := MemoryRemove(m, key);
            && (r.Ok? ==> r == result && Represents(after, next))
            && (r.Err? && r.error != StateUncertain ==> Represents(after, m))
            && (Represents(after, m) || Represents(after, next))
  {
    hide ItemsOf;
    assert RepresentsAt(before, m, key);
    var (next, result) := MemoryRemove(m, key);
    if r.Ok? {
      match r.value
      case Removed =>
      case Absent =>
    }
    if key !in m {
      assert next == m;
    }
    if after != before {
      forall k
        ensures RepresentsAt(after, next, k)
      {
        assert RepresentsAt(before, m, k);
      }
    }
  }

  /** Without faults a native store answers exactly as the in-memory store does. */
  lemma FaultlessVerdicts(items: seq<Item>, key: EntryKey, secret: Bytes32, m: Entries)
    requires Represents(items, m)
    ensures CreateVerdict(ItemsOf(items, key), secret) == MemoryCreate(m, key, secret).1
    ensures LoadVerdict(ItemsOf(items, key)) == MemoryLoad(m, key)
    ensures RemoveVerdict(ItemsOf(items, key)) == MemoryRemove(m, key).1
  {
    hide ItemsOf;
    assert RepresentsAt(items, m, key);
  }
}
