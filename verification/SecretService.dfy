/**
 The Linux store over the Secret Service. Every call can fail, and a failing create
 or delete may still have acted. If the collection is quiet, nobody else writes to
 it; otherwise its items can be anything at every call.
 */
module SecretService {
  import opened Wrappers
  import opened Bytes
  import opened Identity
  import opened Stores

  /** Which family a native error belongs to. */
  datatype NativeError = LockedError | PromptError | UnavailableError | UnsupportedError | DeniedError | OtherError

  function MapError(error: NativeError): StoreError
  {
    match error
    case LockedError => Locked
    case PromptError => Cancelled
    case UnavailableError => Unavailable
    case UnsupportedError => Unsupported
    case DeniedError => AccessDenied
    case OtherError => OperationFailed
  }

  /** What becomes of one native call. */
  datatype Fate = Fate(error: Option<NativeError>, acted: bool, others: seq<Item>, bytes: Bytes)

  class Collection {
    const quiet: bool
    const fates: nat -> Fate
    var clock: nat
    var next: nat
    var items: seq<Item>

    constructor (quiet: bool, fates: nat -> Fate)
      ensures Valid() && items == [] && this.quiet == quiet
    {
      this.quiet, this.fates := quiet, fates;
      clock, next, items := 0, 0, [];
    }

    /** Handles are unique as long as nobody else creates any. */
    ghost predicate Valid()
      reads this`next, this`items
    {
      quiet ==> HandlesUnique(items, next)
    }

    /** Nobody else writes and no call fails. */
    ghost predicate Faultless() {
      quiet && forall k :: fates(k).error.None?
    }

    static ghost predicate HandlesUnique(items: seq<Item>, next: nat)
    {
      && (forall i | i in items :: i.handle < next)
      && (forall i, j | 0 <= i < j < |items| :: items[i].handle != items[j].handle)
    }

    method Begin() returns (fate: Fate)
      modifies this`clock, this`items
      ensures quiet ==> items == old(items)
      ensures Faultless() ==> fate.error.None?
    {
      fate := fates(clock);
      clock := clock + 1;
      if !quiet {
        items := fate.others;
      }
    }

    /** Connecting, finding the default collection and unlocking it are calls that only succeed or fail. */
    method Reach() returns (r: StoreResult<()>)
      modifies this`clock, this`items
      ensures quiet ==> items == old(items)
      ensures r.Err? ==> r.error != AlreadyExists && r.error != Missing && r.error != StateUncertain
      ensures Faultless() ==> r.Ok?
    {
      for step := 0 to 5
        invariant quiet ==> items == old(items)
      {
        var fate := Begin();
        if fate.error.Some? {
          return Err(MapError(fate.error.value));
        }
      }
      return Ok(());
    }

    method SearchItems(key: EntryKey) returns (r: Result<seq<Item>, NativeError>)
      modifies this`clock, this`items
      ensures quiet ==> items == old(items)
      ensures r.Ok? ==> r.value == ItemsOf(items, key)
      ensures Faultless() ==> r.Ok?
    {
      var fate := Begin();
      return if fate.error.Some? then Err(fate.error.value) else Ok(ItemsOf(items, key));
    }

    method GetSecret(item: Item) returns (r: Result<Bytes, NativeError>)
      modifies this`clock, this`items
      ensures quiet ==> items == old(items)
      ensures r.Ok? && quiet ==> r.value == item.secret
      ensures Faultless() ==> r.Ok?
    {
      var fate := Begin();
      return if fate.error.Some? then Err(fate.error.value) else Ok(if quiet then item.secret else fate.bytes);
    }

    method CreateItem(key: EntryKey, secret: Bytes) returns (r: Result<Item, NativeError>)
      requires Valid()
      modifies this`clock, this`items, this`next
      ensures Valid()
      ensures var item := Item(old(next), key, [], secret);
              && (r.Ok? ==> r.value == item)
              && (quiet && r.Ok? ==> items == old(items) + [item])
              && (quiet && r.Err? ==> items == old(items) || items == old(items) + [item])
              && (Faultless() ==> r.Ok?)
    {
      var fate := Begin();
      var item := Item(next, key, [], secret);
      if fate.error.None? || fate.acted {
        items := items + [item];
        next := next + 1;
      }
      return if fate.error.Some? then Err(fate.error.value) else Ok(item);
    }

    method Delete(item: Item) returns (r: Result<(), NativeError>)
      requires Valid()
      modifies this`clock, this`items
      ensures Valid()
      ensures quiet && r.Ok? ==> items == Kept(old(items), NotHandle(item.handle))
      ensures quiet && r.Err? ==> items == old(items) || items == Kept(old(items), NotHandle(item.handle))
      ensures Faultless() ==> r.Ok?
    {
      var fate := Begin();
      if fate.error.None? || fate.acted {
        KeptUnique(items, NotHandle(item.handle), next);
        items := Kept(items, NotHandle(item.handle));
      }
      return if fate.error.Some? then Err(fate.error.value) else Ok(());
    }

    static lemma {:induction false} KeptUnique(items: seq<Item>, p: Item -> bool, next: nat)
      ensures HandlesUnique(items, next) ==> HandlesUnique(Kept(items, p), next)
    {
      if items != [] && HandlesUnique(items, next) {
        var init, last := items[..|items| - 1], items[|items| - 1];
        KeptUnique(init, p, next);
        KeptMember(init, p);
        var kept := Kept(init, p);
        forall i | 0 <= i < |kept|
          ensures kept[i].handle != last.handle
        {
          assert kept[i] in init;
          var k :| 0 <= k < |init| && init[k] == kept[i];
          assert items[k] == kept[i];
        }
      }
    }
  }

  // ----- consequences of unique handles -----

  /** Deleting what was just appended restores the items. */
  lemma AppendThenDrop(items: seq<Item>, item: Item, next: nat)
    requires Collection.HandlesUnique(items, next) && item.handle >= next
    ensures Kept(items + [item], NotHandle(item.handle)) == items
  {
    KeptAppend(items, item, NotHandle(item.handle));
    KeptAll(items, NotHandle(item.handle));
    assert items + [] == items;
  }

  lemma AppendedHere(items: seq<Item>, item: Item)
    ensures ItemsOf(items + [item], item.key) == ItemsOf(items, item.key) + [item]
    ensures OthersKept(items, items + [item], item.key)
  {
    KeptAppend(items, item, HasKey(item.key));
    forall k | k != item.key
      ensures ItemsOf(items + [item], k) == ItemsOf(items, k)
    {
      KeptAppend(items, item, HasKey(k));
      assert ItemsOf(items, k) + [] == ItemsOf(items, k);
    }
  }

  lemma {:induction false} HandleNamesItem(items: seq<Item>, next: nat, i: Item, j: Item)
    requires Collection.HandlesUnique(items, next) && i in items && j in items && i.handle == j.handle
    ensures i == j
  {
    var a :| 0 <= a < |items| && items[a] == i;
    var b :| 0 <= b < |items| && items[b] == j;
  }

  /** Deleting the only item of a key empties that key and touches no other. */
  lemma DropOnly(items: seq<Item>, next: nat, item: Item)
    requires Collection.HandlesUnique(items, next) && ItemsOf(items, item.key) == [item]
    ensures ItemsOf(Kept(items, NotHandle(item.handle)), item.key) == []
    ensures OthersKept(items, Kept(items, NotHandle(item.handle)), item.key)
  {
    hide Collection.HandlesUnique;
    var kept := NotHandle(item.handle);
    KeptMember(items, HasKey(item.key));
    assert item in ItemsOf(items, item.key);
    forall i | i in items && i.key == item.key
      ensures !kept(i)
    {
      assert i in ItemsOf(items, item.key);
    }
    DropHere(items, kept, item.key);
    forall k | k != item.key
      ensures ItemsOf(Kept(items, kept), k) == ItemsOf(items, k)
    {
      forall i | i in items && i.key == k
        ensures kept(i)
      {
        if i.handle == item.handle { HandleNamesItem(items, next, i, item); }
      }
      DropElsewhere(items, kept, k);
    }
  }

  // ----- the store -----

  class LinuxStore {
    const application: Bytes
    const collection: Collection

    constructor (application: Bytes, collection: Collection)
      ensures this.application == application && this.collection == collection
    {
      this.application, this.collection := application, collection;
    }

    function KeyOf(recipient: RecipientId): EntryKey
    {
      LocalKey(application, recipient)
    }

    method Create(recipient: RecipientId, secret: Bytes32) returns (r: StoreResult<()>)
      requires collection.Valid()
      modifies collection
      ensures collection.Valid()
      ensures collection.quiet ==> CreateTrue(old(collection.items), collection.items, KeyOf(recipient), secret, r)
      ensures collection.Faultless() ==> r == CreateVerdict(ItemsOf(old(collection.items), KeyOf(recipient)), secret)
    {
      hide KeyOf, Kept, ItemsOf, Collection.HandlesUnique;
      var key := KeyOf(recipient);
      var _ :- collection.Reach();
      var searched := collection.SearchItems(key);
      if searched.Err? {
        return Err(MapError(searched.error));
      }
      var existing := searched.value;
      if |existing| == 1 {
        var bytes := collection.GetSecret(existing[0]);
        if bytes.Err? {
          return Err(MapError(bytes.error));
        }
        return if bytes.value == secret then Ok(())
               else if |bytes.value| == SECRET_BYTES then Err(AlreadyExists) else Err(Corrupt);
      }
      if existing != [] {
        return Err(Ambiguous);
      }
      r := CreateNew(key, secret);
    }

    method CreateNew(key: EntryKey, secret: Bytes32) returns (r: StoreResult<()>)
      requires collection.Valid() && (collection.quiet ==> ItemsOf(collection.items, key) == [])
      modifies collection
      ensures collection.Valid()
      ensures collection.quiet ==> CreateTrue(old(collection.items), collection.items, key, secret, r)
      ensures collection.Faultless() ==> r == Ok(())
    {
      hide Kept, ItemsOf, Collection.HandlesUnique;
      ghost var before := collection.items;
      ghost var item := Item(collection.next, key, [], secret);
      if collection.quiet {
        AppendedHere(before, item);
        AppendThenDrop(before, item, collection.next);
      }
      var made := collection.CreateItem(key, secret);
      if made.Err? {
        r := ReconcileAfterCreateError(key, secret, MapError(made.error), before, item);
        return;
      }
      var created := made.value;
      var readBack := collection.GetSecret(created);
      if readBack.Err? {
        r := CleanupAfterFailedCreate(key, created, MapError(readBack.error), before, secret);
        return;
      }
      if readBack.value != secret {
        r := CleanupAfterFailedCreate(key, created, Corrupt, before, secret);
        return;
      }
      var inventory := collection.SearchItems(key);
      if inventory.Err? {
        r := CleanupAfterFailedCreate(key, created, MapError(inventory.error), before, secret);
        return;
      }
      if |inventory.value| == 1 && inventory.value[0].handle == created.handle {
        return Ok(());
      }
      r := CleanupAfterFailedCreate(key, created, Ambiguous, before, secret);
    }

    /** Looks at what an uncertain create has left behind. */
    method ReconcileAfterCreateError(key: EntryKey, secret: Bytes32, error: StoreError, ghost before: seq<Item>, ghost item: Item)
      returns (r: StoreResult<()>)
      requires collection.Valid() && error != StateUncertain && error != AlreadyExists
      requires collection.quiet ==>
                 && ItemsOf(before, key) == [] && item.key == key && item.secret == secret
                 && ItemsOf(before + [item], key) == [item] && OthersKept(before, before + [item], key)
                 && (collection.items == before || collection.items == before + [item])
      modifies collection
      ensures collection.Valid()
      ensures collection.quiet ==> CreateTrue(before, collection.items, key, secret, r)
    {
      hide Kept, ItemsOf, Collection.HandlesUnique;
      var searched := collection.SearchItems(key);
      if searched.Err? {
        return Err(StateUncertain);
      }
      var items := searched.value;
      if items == [] {
        return Err(error);
      }
      if |items| > 1 {
        return Err(Ambiguous);
      }
      var bytes := collection.GetSecret(items[0]);
      if bytes.Err? {
        return Err(StateUncertain);
      }
      return if bytes.value == secret then Ok(())
             else if |bytes.value| == SECRET_BYTES then Err(AlreadyExists) else Err(Corrupt);
    }

    /** Takes a new item away again, and reports the original error only if it is gone. */
    method CleanupAfterFailedCreate(key: EntryKey, item: Item, error: StoreError, ghost before: seq<Item>, ghost secret: Bytes32)
      returns (r: StoreResult<()>)
      requires collection.Valid() && error != StateUncertain && error != AlreadyExists
      requires collection.quiet ==>
                 && ItemsOf(before, key) == [] && item.key == key && item.secret == secret
                 && ItemsOf(before + [item], key) == [item] && OthersKept(before, before + [item], key)
                 && Kept(before + [item], NotHandle(item.handle)) == before
                 && collection.items == before + [item]
      modifies collection
      ensures collection.Valid()
      ensures collection.quiet ==> CreateTrue(before, collection.items, key, secret, r)
    {
      hide Kept, ItemsOf, Collection.HandlesUnique;
      var _ := collection.Delete(item);
      var remaining := collection.SearchItems(key);
      if remaining.Err? {
        return Err(StateUncertain);
      }
      assert collection.quiet && collection.items == before + [item] ==> remaining.value == [item] && remaining.value[0] == item;
      if exists i | 0 <= i < |remaining.value| :: remaining.value[i].handle == item.handle {
        return Err(StateUncertain);
      }
      return Err(error);
    }

    method Load(recipient: RecipientId) returns (r: StoreResult<Bytes>)
      requires collection.Valid()
      modifies collection
      ensures collection.Valid()
      ensures collection.quiet ==> LoadTrue(old(collection.items), collection.items, KeyOf(recipient), r)
      ensures collection.Faultless() ==> r == LoadVerdict(ItemsOf(old(collection.items), KeyOf(recipient)))
    {
      hide KeyOf, Kept, ItemsOf, Collection.HandlesUnique;
      var _ :- collection.Reach();
      var searched := collection.SearchItems(KeyOf(recipient));
      if searched.Err? {
        return Err(MapError(searched.error));
      }
      var items := searched.value;
      if items == [] {
        return Err(Missing);
      }
      if |items| > 1 {
        return Err(Ambiguous);
      }
      var bytes := collection.GetSecret(items[0]);
      if bytes.Err? {
        return Err(MapError(bytes.error));
      }
      return if |bytes.value| == SECRET_BYTES then Ok(bytes.value) else Err(Corrupt);
    }

    method Remove(recipient: RecipientId) returns (r: StoreResult<Removal>)
      requires collection.Valid()
      modifies collection
      ensures collection.Valid()
      ensures collection.quiet ==> RemoveTrue(old(collection.items), collection.items, KeyOf(recipient), r)
      ensures collection.Faultless() ==> r == RemoveVerdict(ItemsOf(old(collection.items), KeyOf(recipient)))
    {
      hide KeyOf, Kept, ItemsOf, Collection.HandlesUnique;
      var key := KeyOf(recipient);
      var _ :- collection.Reach();
      var searched := collection.SearchItems(key);
      if searched.Err? {
        return Err(MapError(searched.error));
      }
      var items := searched.value;
      if items == [] {
        return Ok(Absent);
      }
      if |items| > 1 {
        return Err(Ambiguous);
      }
      var item := items[0];
      if collection.quiet {
        OnlyItem(collection.items, key, item);
        DropOnly(collection.items, collection.next, item);
      }
      var deleted := collection.Delete(item);
      var remaining := collection.SearchItems(key);
      if remaining.Err? {
        return Err(StateUncertain);
      }
      if remaining.value == [] {
        return Ok(Removed);
      }
      if deleted.Err? && |remaining.value| == 1 && remaining.value[0].handle == item.handle {
        return Err(MapError(deleted.error));
      }
      return Err(StateUncertain);
    }

    static lemma OnlyItem(items: seq<Item>, key: EntryKey, item: Item)
      requires ItemsOf(items, key) == [item]
      ensures item.key == key
    {
      KeptMember(items, HasKey(key));
      assert item in ItemsOf(items, key);
    }
  }
}
