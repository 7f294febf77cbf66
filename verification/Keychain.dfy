/**
 The macOS stores over the keychain. Every call can fail. If the keychain is quiet,
 nobody else writes to it, a failing add stored the exact value or nothing (and
 nothing under a definite code), a delete acted or not, and "not found" and
 "duplicate" are said only of items; otherwise its items can be anything at every call.
 */
module Keychains {
  import opened Wrappers
  import opened Bytes
  import opened Identity
  import opened Crypto
  import opened Stores

  const SEC_SUCCESS := 0
  const ERR_SEC_DUPLICATE_ITEM := -25_299
  const ERR_SEC_ITEM_NOT_FOUND := -25_300
  const ERR_SEC_AUTH_FAILED := -25_293
  const ERR_SEC_IO := -36
  const ERR_SEC_UNIMPLEMENTED := -4
  const ERR_SEC_USER_CANCELED := -128
  const ERR_SEC_NOT_AVAILABLE := -25_291
  const ERR_SEC_INTERACTION_NOT_ALLOWED := -25_308
  const ERR_SEC_INTERACTION_REQUIRED := -25_315
  const ERR_SEC_DATA_NOT_AVAILABLE := -25_316
  const ERR_SEC_MISSING_ENTITLEMENT := -34_018
  const ERR_SEC_SERVICE_NOT_AVAILABLE := -67_585

  predicate IsDefiniteAddFailure(code: int)
  {
    code == ERR_SEC_MISSING_ENTITLEMENT || code == ERR_SEC_UNIMPLEMENTED
  }

  function MapError(code: int): StoreError
  {
    if code == ERR_SEC_DUPLICATE_ITEM then AlreadyExists
    else if code == ERR_SEC_ITEM_NOT_FOUND then Missing
    else if code == ERR_SEC_USER_CANCELED then Cancelled
    else if code in {ERR_SEC_AUTH_FAILED, ERR_SEC_INTERACTION_NOT_ALLOWED, ERR_SEC_MISSING_ENTITLEMENT} then AccessDenied
    else if code in {ERR_SEC_NOT_AVAILABLE, ERR_SEC_IO} then Unavailable
    else if code == ERR_SEC_UNIMPLEMENTED then Unsupported
    else OperationFailed
  }

  /** The user-presence store sorts some codes differently. */
  function MapPresenceError(code: int): StoreError
  {
    if code == ERR_SEC_DUPLICATE_ITEM then AlreadyExists
    else if code == ERR_SEC_ITEM_NOT_FOUND then Missing
    else if code == ERR_SEC_USER_CANCELED then Cancelled
    else if code in {ERR_SEC_AUTH_FAILED, ERR_SEC_MISSING_ENTITLEMENT} then AccessDenied
    else if code in {ERR_SEC_NOT_AVAILABLE, ERR_SEC_IO, ERR_SEC_INTERACTION_NOT_ALLOWED, ERR_SEC_INTERACTION_REQUIRED,
                     ERR_SEC_DATA_NOT_AVAILABLE, ERR_SEC_SERVICE_NOT_AVAILABLE} then Unavailable
    else if code == ERR_SEC_UNIMPLEMENTED then Unsupported
    else OperationFailed
  }

  /** What becomes of one native call. */
  datatype Fate = Fate(code: int, acted: bool, malformed: bool, others: seq<Item>)

  function NotKey(key: EntryKey): Item -> bool { (i: Item) => i.key != key }

  function NotTagged(key: EntryKey, tag: Bytes): Item -> bool { (i: Item) => !(i.key == key && i.tag == tag) }

  function TaggedItems(items: seq<Item>, key: EntryKey, tag: Bytes): seq<Item>
  {
    Kept(ItemsOf(items, key), (i: Item) => i.tag == tag)
  }

  class Keychain {
    const quiet: bool
    /** A query of the login keychain gives at most one result. */
    const limited: bool
    const fates: nat -> Fate
    var clock: nat
    var items: seq<Item>

    constructor (quiet: bool, limited: bool, fates: nat -> Fate)
      ensures Valid() && items == [] && this.quiet == quiet && this.limited == limited
    {
      this.quiet, this.limited, this.fates := quiet, limited, fates;
      clock, items := 0, [];
    }

    static ghost predicate Unique(items: seq<Item>)
    {
      forall key :: |ItemsOf(items, key)| <= 1
    }

    /** Nobody else writes, and every call does what it is asked. */
    ghost predicate Faultless() {
      quiet && forall k :: fates(k).code == SEC_SUCCESS && !fates(k).malformed
    }

    /** A quiet keychain with limited queries holds one item per key. */
    ghost predicate Valid()
      reads this`items
    {
      quiet && limited ==> Unique(items)
    }

    method Begin() returns (fate: Fate)
      modifies this`clock, this`items
      ensures quiet ==> items == old(items)
      ensures Faultless() ==> fate.code == SEC_SUCCESS && !fate.malformed
    {
      fate := fates(clock);
      clock := clock + 1;
      if !quiet {
        items := fate.others;
      }
    }

    /** A query for items; the results, or a code, or results of the wrong kind. */
    method Query(found: seq<Item> -> seq<Item>) returns (code: int, results: seq<Item>, wellFormed: bool)
      modifies this`clock, this`items
      ensures quiet ==> items == old(items)
      ensures code == SEC_SUCCESS ==> results == found(items)
      ensures quiet ==> code != ERR_SEC_DUPLICATE_ITEM && (code == ERR_SEC_ITEM_NOT_FOUND ==> found(items) == [])
      ensures Faultless() ==> wellFormed && code == if found(items) == [] then ERR_SEC_ITEM_NOT_FOUND else SEC_SUCCESS
    {
      var fate := Begin();
      results := found(items);
      code := fate.code;
      if code == SEC_SUCCESS && results == [] {
        code := ERR_SEC_ITEM_NOT_FOUND;
      }
      if quiet && (code == ERR_SEC_DUPLICATE_ITEM || (code == ERR_SEC_ITEM_NOT_FOUND && results != [])) {
        code := ERR_SEC_IO;
      }
      wellFormed := !fate.malformed;
    }

    /** Looking up the default keychain. */
    method OpenDefault() returns (code: int)
      modifies this`clock, this`items
      ensures quiet ==> items == old(items) && code != ERR_SEC_DUPLICATE_ITEM && code != ERR_SEC_ITEM_NOT_FOUND
      ensures Faultless() ==> code == SEC_SUCCESS
    {
      var fate := Begin();
      code := if quiet && fate.code in {ERR_SEC_DUPLICATE_ITEM, ERR_SEC_ITEM_NOT_FOUND} then ERR_SEC_IO else fate.code;
    }

    /** What a query for a key gives, which in the login keychain is one item at most. */
    function Visible(key: EntryKey): seq<Item> -> seq<Item>
    {
      (s: seq<Item>) => var all := ItemsOf(s, key); if limited && |all| > 1 then all[..1] else all
    }

    /** The keychain refuses a second item under one key. */
    method Add(key: EntryKey, tag: Bytes, secret: Bytes) returns (code: int)
      requires Valid()
      modifies this`clock, this`items
      ensures Valid()
      ensures var item := Item(0, key, tag, secret);
              quiet ==>
                && (code == SEC_SUCCESS ==> ItemsOf(old(items), key) == [] && items == old(items) + [item])
                && (code == ERR_SEC_DUPLICATE_ITEM || IsDefiniteAddFailure(code) ==> items == old(items))
                && (items == old(items) || (ItemsOf(old(items), key) == [] && items == old(items) + [item]))
      ensures Faultless() ==> code == if ItemsOf(old(items), key) == [] then SEC_SUCCESS else ERR_SEC_DUPLICATE_ITEM
    {
      var fate := Begin();
      code := fate.code;
      var item := Item(0, key, tag, secret);
      if ItemsOf(items, key) != [] {
        code := if code == SEC_SUCCESS then ERR_SEC_DUPLICATE_ITEM else code;
      } else if code == SEC_SUCCESS || (fate.acted && code != ERR_SEC_DUPLICATE_ITEM && !IsDefiniteAddFailure(code)) {
        AddedHere(items, item);
        hide Kept, ItemsOf;
        items := items + [item];
      }
    }

    /** Deletes everything that does not pass; a failing delete may have acted. */
    method Delete(passes: Item -> bool) returns (code: int)
      requires Valid()
      modifies this`clock, this`items
      ensures Valid()
      ensures quiet ==> items == old(items) || items == Kept(old(items), passes)
      ensures quiet && code == SEC_SUCCESS ==> items == Kept(old(items), passes)
      ensures quiet ==> code != ERR_SEC_DUPLICATE_ITEM
      ensures Faultless() ==> code == if Kept(old(items), passes) == old(items) then ERR_SEC_ITEM_NOT_FOUND else SEC_SUCCESS
    {
      var fate := Begin();
      code := if quiet && fate.code == ERR_SEC_DUPLICATE_ITEM then ERR_SEC_IO else fate.code;
      if code == SEC_SUCCESS && Kept(items, passes) == items {
        code := ERR_SEC_ITEM_NOT_FOUND;
      } else if code == SEC_SUCCESS || fate.acted {
        StillUnique(items, passes);
        hide Kept;
        items := Kept(items, passes);
      }
    }

    static lemma StillUnique(items: seq<Item>, p: Item -> bool)
      ensures Unique(items) ==> Unique(Kept(items, p))
    {
      if Unique(items) {
        forall key
          ensures |ItemsOf(Kept(items, p), key)| <= 1
        {
          KeptTwice(items, p, HasKey(key));
          KeptMember(ItemsOf(items, key), p);
        }
      }
    }

    static lemma AddedHere(items: seq<Item>, item: Item)
      ensures ItemsOf(items + [item], item.key) == ItemsOf(items, item.key) + [item]
      ensures OthersKept(items, items + [item], item.key)
      ensures ItemsOf(items, item.key) == [] && Unique(items) ==> Unique(items + [item])
    {
      KeptAppend(items, item, HasKey(item.key));
      forall k | k != item.key
        ensures ItemsOf(items + [item], k) == ItemsOf(items, k)
      {
        KeptAppend(items, item, HasKey(k));
        assert ItemsOf(items, k) + [] == ItemsOf(items, k);
      }
      hide Kept;
      if ItemsOf(items, item.key) == [] && Unique(items) {
        forall k
          ensures |ItemsOf(items + [item], k)| <= 1
        {
        }
      }
    }
  }

  /** Deleting all items of a key empties that key and touches no other. */
  lemma DropKey(items: seq<Item>, key: EntryKey)
    ensures ItemsOf(Kept(items, NotKey(key)), key) == []
    ensures OthersKept(items, Kept(items, NotKey(key)), key)
  {
    DropHere(items, NotKey(key), key);
    forall k | k != key
      ensures ItemsOf(Kept(items, NotKey(key)), k) == ItemsOf(items, k)
    {
      DropElsewhere(items, NotKey(key), k);
    }
  }

  /** Deleting the tagged items of a key touches no other key. */
  lemma DropTagged(items: seq<Item>, key: EntryKey, tag: Bytes)
    ensures OthersKept(items, Kept(items, NotTagged(key, tag)), key)
  {
    forall k | k != key
      ensures ItemsOf(Kept(items, NotTagged(key, tag)), k) == ItemsOf(items, k)
    {
      DropElsewhere(items, NotTagged(key, tag), k);
    }
  }

  // ----- the store of local secrets -----

  datatype StoreKind = DataProtection | LoginKeychain

  class MacosStore {
    const application: Bytes
    const kind: StoreKind
    const keychain: Keychain

    constructor (application: Bytes, kind: StoreKind, keychain: Keychain)
      requires kind == LoginKeychain <==> keychain.limited
      ensures this.application == application && this.kind == kind && this.keychain == keychain
    {
      this.application, this.kind, this.keychain := application, kind, keychain;
    }

    function KeyOf(recipient: RecipientId): EntryKey
    {
      LocalKey(application, recipient)
    }

    /** The values under a key; for the login keychain the default keychain is looked up first. */
    method FindItems(key: EntryKey) returns (r: StoreResult<seq<Item>>)
      modifies keychain`clock, keychain`items
      ensures keychain.quiet ==> keychain.items == old(keychain.items)
      ensures keychain.quiet && r.Ok? ==> r.value == keychain.Visible(key)(keychain.items)
      ensures keychain.quiet && r.Err? ==> r.error != AlreadyExists && r.error != Missing && r.error != StateUncertain
      ensures keychain.Faultless() ==> r.Ok?
    {
      hide ItemsOf;
      if kind == LoginKeychain {
        var opening := keychain.OpenDefault();
        if opening != SEC_SUCCESS {
          return Err(MapError(opening));
        }
      }
      var code, results, wellFormed := keychain.Query(keychain.Visible(key));
      if code == ERR_SEC_ITEM_NOT_FOUND {
        return Ok([]);
      }
      if code != SEC_SUCCESS {
        return Err(MapError(code));
      }
      return if wellFormed then Ok(results) else Err(Corrupt);
    }

    method Create(recipient: RecipientId, secret: Bytes32) returns (r: StoreResult<()>)
      requires keychain.Valid()
      modifies keychain
      ensures keychain.Valid()
      ensures keychain.quiet ==> CreateTrue(old(keychain.items), keychain.items, KeyOf(recipient), secret, r)
      ensures keychain.Faultless() ==> r == CreateVerdict(ItemsOf(old(keychain.items), KeyOf(recipient)), secret)
    {
      hide KeyOf, Kept, ItemsOf;
      var key := KeyOf(recipient);
      ghost var before := keychain.items;
      ghost var item := Item(0, key, [], secret);
      Keychain.AddedHere(before, item);
      var code := keychain.Add(key, [], secret);
      if code == SEC_SUCCESS {
        var found := FindItems(key);
        if found.Err? || |found.value| != 1 || found.value[0].secret != secret {
          return Err(StateUncertain);
        }
        return Ok(());
      }
      if code == ERR_SEC_DUPLICATE_ITEM {
        var found :- FindItems(key);
        if found == [] {
          return Err(OperationFailed);
        }
        r := Compare(found, secret);
      } else {
        var found := FindItems(key);
        if found.Err? {
          return Err(StateUncertain);
        }
        if found.value == [] {
          return Err(MapError(code));
        }
        r := Compare(found.value, secret);
      }
    }

    /** What stands in the way of a create, or that it is already there. */
    method Compare(found: seq<Item>, secret: Bytes32) returns (r: StoreResult<()>)
      requires found != []
      ensures r == if |found| > 1 then Err(Ambiguous)
                   else if found[0].secret == secret then Ok(())
                   else if |found[0].secret| == SECRET_BYTES then Err(AlreadyExists) else Err(Corrupt)
    {
      if |found| > 1 {
        return Err(Ambiguous);
      }
      var bytes := found[0].secret;
      return if bytes == secret then Ok(()) else if |bytes| == SECRET_BYTES then Err(AlreadyExists) else Err(Corrupt);
    }

    method Load(recipient: RecipientId) returns (r: StoreResult<Bytes>)
      requires keychain.Valid()
      modifies keychain
      ensures keychain.Valid()
      ensures keychain.quiet ==> LoadTrue(old(keychain.items), keychain.items, KeyOf(recipient), r)
      ensures keychain.Faultless() ==> r == LoadVerdict(ItemsOf(old(keychain.items), KeyOf(recipient)))
    {
      hide KeyOf, Kept, ItemsOf;
      var found :- FindItems(KeyOf(recipient));
      if found == [] {
        return Err(Missing);
      }
      if |found| > 1 {
        return Err(Ambiguous);
      }
      var bytes := found[0].secret;
      return if |bytes| == SECRET_BYTES then Ok(bytes) else Err(Corrupt);
    }

    /** The deletion itself reports nothing, so only a second look tells. */
    method Remove(recipient: RecipientId) returns (r: StoreResult<Removal>)
      requires keychain.Valid()
      modifies keychain
      ensures keychain.Valid()
      ensures keychain.quiet ==> RemoveTrue(old(keychain.items), keychain.items, KeyOf(recipient), r)
      ensures keychain.Faultless() ==> r == RemoveVerdict(ItemsOf(old(keychain.items), KeyOf(recipient)))
    {
      hide KeyOf, Kept, ItemsOf;
      var key := KeyOf(recipient);
      DropKey(keychain.items, key);
      var found :- FindItems(key);
      if found == [] {
        return Ok(Absent);
      }
      if |found| > 1 {
        return Err(Ambiguous);
      }
      var _ := keychain.Delete(NotKey(key));
      var remaining := FindItems(key);
      if remaining.Err? || remaining.value != [] {
        return Err(StateUncertain);
      }
      return Ok(Removed);
    }
  }
}
