/**
 The macOS store of recovery secrets behind user presence. Each item is labelled
 with a fingerprint of its secret, and deletion selects by that label.
 */
module UserPresence {
  import opened Wrappers
  import opened Bytes
  import opened Identity
  import opened Crypto
  import opened Stores
  import opened Keychains

  const LABEL_PREFIX := "fido key wrap recovery secret "

  class UserPresenceStore {
    const p: Primitives
    const application: Bytes
    const keychain: Keychain

    constructor (p: Primitives, application: Bytes, keychain: Keychain)
      requires !keychain.limited
      ensures this.p == p && this.application == application && this.keychain == keychain
    {
      this.p, this.application, this.keychain := p, application, keychain;
    }

    function LabelOf(secret: Bytes): Bytes
    {
      Ascii(LABEL_PREFIX) + Print(p.sha256(secret))
    }

    /** No two secrets share a fingerprint. */
    ghost predicate Fingerprints()
    {
      forall x: Bytes32, y: Bytes32 :: p.sha256(x) == p.sha256(y) ==> x == y
    }

    function Service(): Bytes
    {
      RecoveryKey(application, Zeros(32)).service
    }

    /** Every item of this service carries the label of its own secret. */
    ghost predicate Labelled(items: seq<Item>)
    {
      forall i | i in items && i.key.service == Service() :: i.tag == LabelOf(i.secret)
    }

    ghost predicate Valid()
      reads keychain`items
    {
      !keychain.limited && (keychain.quiet ==> Labelled(keychain.items))
    }

    function KeyOf(recipient: RecipientId): (key: EntryKey)
      ensures key.service == Service()
    {
      RecoveryKey(application, recipient)
    }

    method ItemLabel(secret: Bytes) returns (text: Bytes)
      ensures text == LabelOf(secret)
    {
      var digest := p.sha256(secret);
      text := Ascii(LABEL_PREFIX);
      for i := 0 to 32
        invariant text == Ascii(LABEL_PREFIX) + Print(digest[..i])
      {
        ghost var so := Print(digest[..i]);
        assert digest[..i + 1][..i] == digest[..i];
        assert Print(digest[..i + 1]) == so + [HexDigit(digest[i] / 16), HexDigit(digest[i] % 16)];
        ConcatAssociative(Ascii(LABEL_PREFIX), so, [HexDigit(digest[i] / 16), HexDigit(digest[i] % 16)]);
        hide Print, Ascii;
        text := text + [HexDigit(digest[i] / 16), HexDigit(digest[i] % 16)];
      }
      assert digest[..32] == digest;
    }

    /** Equal labels mean equal secrets. */
    lemma LabelNamesSecret(x: Bytes32, y: Bytes32)
      requires Fingerprints() && LabelOf(x) == LabelOf(y)
      ensures x == y
    {
      SameCut(Ascii(LABEL_PREFIX), Ascii(LABEL_PREFIX), Print(p.sha256(x)), Print(p.sha256(y)));
      PrintInjective(p.sha256(x), p.sha256(y));
    }

    lemma StillLabelled(items: seq<Item>, passes: Item -> bool)
      requires Labelled(items)
      ensures Labelled(Kept(items, passes))
    {
      KeptMember(items, passes);
    }

    /** The number of items that a query selects. */
    method Count(key: EntryKey, found: seq<Item> -> seq<Item>) returns (r: StoreResult<nat>)
      modifies keychain`clock, keychain`items
      ensures keychain.quiet ==> keychain.items == old(keychain.items)
      ensures keychain.quiet && r.Ok? ==> r.value == |found(keychain.items)|
      ensures r.Err? ==> r.error != StateUncertain
      ensures keychain.quiet && r.Err? ==> r.error != AlreadyExists && r.error != Missing
      ensures keychain.Faultless() ==> r.Ok?
    {
      var code, results, wellFormed := keychain.Query(found);
      if code == ERR_SEC_ITEM_NOT_FOUND {
        return Ok(0);
      }
      if code != SEC_SUCCESS {
        return Err(MapPresenceError(code));
      }
      return if wellFormed then Ok(|results|) else Err(Corrupt);
    }

    function AllOf(key: EntryKey): seq<Item> -> seq<Item> { (s: seq<Item>) => ItemsOf(s, key) }

    function TaggedOf(key: EntryKey, tag: Bytes): seq<Item> -> seq<Item> { (s: seq<Item>) => TaggedItems(s, key, tag) }

    method FindValues(key: EntryKey) returns (r: StoreResult<seq<Item>>)
      modifies keychain`clock, keychain`items
      ensures keychain.quiet ==> keychain.items == old(keychain.items)
      ensures keychain.quiet && r.Ok? ==> r.value == ItemsOf(keychain.items, key)
      ensures keychain.quiet && r.Err? ==> r.error != AlreadyExists && r.error != Missing
      ensures r.Err? ==> r.error != StateUncertain
      ensures keychain.Faultless() ==> r.Ok?
    {
      var code, results, wellFormed := keychain.Query(AllOf(key));
      if code == ERR_SEC_ITEM_NOT_FOUND {
        return Ok([]);
      }
      if code != SEC_SUCCESS {
        return Err(MapPresenceError(code));
      }
      return if wellFormed then Ok(results) else Err(Corrupt);
    }

    /** Exactly one item, of the right length, under the label of its own secret. */
    method LoadExact(key: EntryKey) returns (r: StoreResult<Bytes>)
      requires Valid()
      modifies keychain`clock, keychain`items
      ensures Valid()
      ensures keychain.quiet ==> LoadTrue(old(keychain.items), keychain.items, key, r)
      ensures keychain.Faultless() && key.service == Service() ==> r == LoadVerdict(ItemsOf(old(keychain.items), key))
      ensures keychain.quiet && r.Err? ==> r.error != AlreadyExists
      ensures r.Err? ==> r.error != StateUncertain
    {
      hide ItemsOf, TaggedItems;
      var count :- Count(key, AllOf(key));
      if count == 0 {
        return Err(Missing);
      }
      if count > 1 {
        return Err(Ambiguous);
      }
      var values :- FindValues(key);
      if values == [] {
        return Err(Missing);
      }
      if |values| > 1 {
        return Err(Ambiguous);
      }
      var secret := values[0].secret;
      if |secret| != SECRET_BYTES {
        return Err(Corrupt);
      }
      var tag := ItemLabel(secret);
      if keychain.quiet && key.service == Service() { OwnLabel(keychain.items, key); }
      var named :- Count(key, TaggedOf(key, tag));
      if named == 0 {
        return Err(Corrupt);
      }
      if named > 1 {
        return Err(Ambiguous);
      }
      return Ok(secret);
    }

    /** The only item of a key of this service is the only one under the label of its secret. */
    lemma OwnLabel(items: seq<Item>, key: EntryKey)
      requires Labelled(items) && key.service == Service() && |ItemsOf(items, key)| == 1
      ensures |TaggedItems(items, key, LabelOf(ItemsOf(items, key)[0].secret))| == 1
    {
      var one := ItemsOf(items, key);
      KeptMember(items, HasKey(key));
      assert one[0] in one;
      assert one == [] + [one[0]];
      KeptAppend([], one[0], (i: Item) => i.tag == LabelOf(one[0].secret));
      assert one[..0] == [];
    }

    method Load(recipient: RecipientId) returns (r: StoreResult<Bytes>)
      requires Valid()
      modifies keychain`clock, keychain`items
      ensures Valid()
      ensures keychain.quiet ==> LoadTrue(old(keychain.items), keychain.items, KeyOf(recipient), r)
      ensures keychain.Faultless() ==> r == LoadVerdict(ItemsOf(old(keychain.items), KeyOf(recipient)))
    {
      r := LoadExact(KeyOf(recipient));
    }

    method Create(recipient: RecipientId, secret: Bytes32) returns (r: StoreResult<()>)
      requires Valid()
      modifies keychain
      ensures Valid()
      ensures keychain.quiet ==> CreateTrue(old(keychain.items), keychain.items, KeyOf(recipient), secret, r)
      ensures keychain.Faultless() ==> r == CreateVerdict(ItemsOf(old(keychain.items), KeyOf(recipient)), secret)
    {
      hide KeyOf, LabelOf, Kept, ItemsOf, TaggedItems;
      var key := KeyOf(recipient);
      ghost var before := keychain.items;
      var tag := ItemLabel(secret);
      Keychain.AddedHere(before, Item(0, key, tag, secret));
      var code := keychain.Add(key, tag, secret);
      if code == SEC_SUCCESS {
        var verified := Compare(key, secret, Corrupt);
        if verified.Err? {
          r := CleanupAfterFailedCreate(key, secret, tag, verified.error, before);
          return;
        }
        return Ok(());
      }
      if code == ERR_SEC_DUPLICATE_ITEM {
        r := Compare(key, secret, AlreadyExists);
      } else if IsDefiniteAddFailure(code) {
        r := Err(MapPresenceError(code));
      } else {
        r := ReconcileAfterAddError(key, secret, code, before);
      }
    }

    /** The stored secret, if it can be loaded at all, against the expected one. */
    method Compare(key: EntryKey, secret: Bytes32, different: StoreError) returns (r: StoreResult<()>)
      requires Valid()
      modifies keychain`clock, keychain`items
      ensures Valid()
      ensures keychain.quiet ==>
                && keychain.items == old(keychain.items)
                && (r.Ok? ==> |ItemsOf(keychain.items, key)| == 1 && ItemsOf(keychain.items, key)[0].secret == secret)
                && (r == Err(AlreadyExists) ==> |ItemsOf(keychain.items, key)| == 1 && ItemsOf(keychain.items, key)[0].secret != secret)
      ensures r.Err? ==> r.error != StateUncertain || different == StateUncertain
      ensures keychain.Faultless() && key.service == Service() ==>
                var found := LoadVerdict(ItemsOf(old(keychain.items), key));
                r == if found.Err? then Err(found.error) else if found.value == secret then Ok(()) else Err(different)
      ensures different == Corrupt && keychain.quiet && r.Err? ==> r.error != AlreadyExists
    {
      hide ItemsOf;
      var stored :- LoadExact(key);
      return if stored == secret then Ok(()) else Err(different);
    }

    method ReconcileAfterAddError(key: EntryKey, secret: Bytes32, code: int, ghost before: seq<Item>) returns (r: StoreResult<()>)
      requires Valid() && code != ERR_SEC_DUPLICATE_ITEM
      requires keychain.quiet ==>
                 keychain.items == before
                 || (ItemsOf(before, key) == [] && |ItemsOf(keychain.items, key)| == 1
                     && ItemsOf(keychain.items, key)[0].secret == secret && OthersKept(before, keychain.items, key))
      modifies keychain`clock, keychain`items
      ensures Valid()
      ensures keychain.quiet ==> CreateTrue(before, keychain.items, key, secret, r)
    {
      hide ItemsOf;
      var count := Count(key, AllOf(key));
      if count.Err? {
        return Err(StateUncertain);
      }
      if count.value == 0 {
        return Err(MapPresenceError(code));
      }
      if count.value > 1 {
        return Err(Ambiguous);
      }
      var stored := LoadExact(key);
      if stored.Err? {
        return Err(StateUncertain);
      }
      return if stored.value == secret then Ok(()) else Err(AlreadyExists);
    }

    /** Deletes the new item by its label, and reports the original error only if nothing is left. */
    method CleanupAfterFailedCreate(key: EntryKey, secret: Bytes32, tag: Bytes, error: StoreError, ghost before: seq<Item>)
      returns (r: StoreResult<()>)
      requires Valid() && error != StateUncertain && tag == LabelOf(secret)
      requires keychain.quiet ==>
                 && error != AlreadyExists && ItemsOf(before, key) == []
                 && keychain.items == before + [Item(0, key, tag, secret)]
      modifies keychain
      ensures Valid()
      ensures keychain.quiet ==> CreateTrue(before, keychain.items, key, secret, r)
    {
      hide ItemsOf, Kept, LabelOf;
      ghost var item := Item(0, key, tag, secret);
      if keychain.quiet {
        Keychain.AddedHere(before, item);
        AddThenDrop(before, item);
        StillLabelled(keychain.items, NotTagged(key, tag));
      }
      var _ := keychain.Delete(NotTagged(key, tag));
      var count := Count(key, AllOf(key));
      if count.Err? || count.value != 0 {
        return Err(StateUncertain);
      }
      return Err(error);
    }

    /** Deleting the only item of a key by its label restores the items. */
    static lemma AddThenDrop(items: seq<Item>, item: Item)
      requires ItemsOf(items, item.key) == []
      ensures Kept(items + [item], NotTagged(item.key, item.tag)) == items
    {
      var passes := NotTagged(item.key, item.tag);
      KeptAppend(items, item, passes);
      KeptMember(items, HasKey(item.key));
      forall i | i in items
        ensures passes(i)
      {
        if i.key == item.key { assert i in ItemsOf(items, item.key); }
      }
      KeptAll(items, passes);
      assert items + [] == items;
    }

    /** A removal by one who knows the secret; different material is never deleted. */
    method Remove(recipient: RecipientId, expected: Bytes32) returns (r: StoreResult<Removal>)
      requires Valid()
      modifies keychain
      ensures Valid()
      ensures keychain.quiet ==> RemoveTrue(old(keychain.items), keychain.items, KeyOf(recipient), r)
      ensures keychain.quiet && Fingerprints() && keychain.items != old(keychain.items) ==>
                |ItemsOf(old(keychain.items), KeyOf(recipient))| == 1
                && var gone := ItemsOf(old(keychain.items), KeyOf(recipient))[0].secret;
                   |gone| == SECRET_BYTES ==> gone == expected
      ensures keychain.Faultless() && Fingerprints() ==>
                var existing := ItemsOf(old(keychain.items), KeyOf(recipient));
                && (existing == [] ==> r == Ok(Absent))
                && (|existing| > 1 ==> r == Err(Ambiguous))
                && (|existing| == 1 && |existing[0].secret| == SECRET_BYTES ==>
                      r == if existing[0].secret == expected then Ok(Removed) else Err(AlreadyExists))
    {
      hide KeyOf, LabelOf, Kept, ItemsOf, TaggedItems;
      var key := KeyOf(recipient);
      ghost var before := keychain.items;
      var count :- Count(key, AllOf(key));
      if count == 0 {
        return Ok(Absent);
      }
      if count > 1 {
        return Err(Ambiguous);
      }
      var tag := ItemLabel(expected);
      if keychain.quiet {
        DropByLabel(before, key, expected);
        StillLabelled(before, NotTagged(key, tag));
      }
      var code := keychain.Delete(NotTagged(key, tag));
      if code == SEC_SUCCESS {
        r := ConfirmRemoved(key);
      } else {
        r := ReconcileAfterDeleteError(key, code);
      }
    }

    method ConfirmRemoved(key: EntryKey) returns (r: StoreResult<Removal>)
      modifies keychain`clock, keychain`items
      ensures keychain.quiet ==> keychain.items == old(keychain.items)
      ensures keychain.quiet && r.Ok? ==> r.value == Removed && ItemsOf(keychain.items, key) == []
      ensures r.Err? ==> r.error == StateUncertain
      ensures r != Ok(Absent)
      ensures keychain.Faultless() && ItemsOf(old(keychain.items), key) == [] ==> r == Ok(Removed)
    {
      hide ItemsOf;
      var count := Count(key, AllOf(key));
      return if count.Ok? && count.value == 0 then Ok(Removed) else Err(StateUncertain);
    }

    method ReconcileAfterDeleteError(key: EntryKey, code: int) returns (r: StoreResult<Removal>)
      requires code != SEC_SUCCESS
      modifies keychain`clock, keychain`items
      ensures keychain.Faultless() && |ItemsOf(old(keychain.items), key)| == 1 && code == ERR_SEC_ITEM_NOT_FOUND
              ==> r == Err(AlreadyExists)
      ensures keychain.quiet ==> keychain.items == old(keychain.items)
      ensures keychain.quiet && r.Ok? ==> r.value == Removed && ItemsOf(keychain.items, key) == []
      ensures keychain.quiet && r.Err? && r.error != StateUncertain ==> |ItemsOf(keychain.items, key)| == 1
      ensures r != Ok(Absent)
    {
      hide ItemsOf;
      var count := Count(key, AllOf(key));
      if count.Err? {
        return Err(StateUncertain);
      }
      if count.value == 0 {
        return Ok(Removed);
      }
      if count.value > 1 {
        return Err(StateUncertain);
      }
      return if code == ERR_SEC_ITEM_NOT_FOUND then Err(AlreadyExists) else Err(MapPresenceError(code));
    }

    /**
     With one item under the key, deleting by label either takes that item, and then
     it held the expected secret, or takes nothing.
     */
    lemma DropByLabel(items: seq<Item>, key: EntryKey, expected: Bytes32)
      requires Labelled(items) && key.service == Service() && |ItemsOf(items, key)| == 1
      ensures var item, after := ItemsOf(items, key)[0], Kept(items, NotTagged(key, LabelOf(expected)));
              && OthersKept(items, after, key)
              && (if item.tag == LabelOf(expected) then ItemsOf(after, key) == [] && after != items else after == items)
              && (item.secret == expected ==> item.tag == LabelOf(expected))
              && (Fingerprints() && item.tag == LabelOf(expected) && |item.secret| == SECRET_BYTES ==> item.secret == expected)
    {
      var tag := LabelOf(expected);
      var item, passes := ItemsOf(items, key)[0], NotTagged(key, tag);
      DropTagged(items, key, tag);
      KeptMember(items, HasKey(key));
      assert item in ItemsOf(items, key);
      forall i | i in items && i.key == key
        ensures i == item
      {
        assert i in ItemsOf(items, key);
      }
      if item.tag == tag {
        DropHere(items, passes, key);
        if Fingerprints() && |item.secret| == SECRET_BYTES { LabelNamesSecret(item.secret, expected); }
      } else {
        KeptAll(items, passes);
      }
    }
  }
}
