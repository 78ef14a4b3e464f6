/**
 The category store of `useCategories`: the in-memory list (absent until the
 load effect has run) and the key-value storage it persists to under one key.
 A write to storage may fail; the outcome is a parameter of each operation
 that writes, and a failure is swallowed.
 */
module Store {
  import opened Wrappers
  import opened Categories
  import opened Codec

  const StorageKey: string := "@mbt:categories"

  /** `storage.getString(STORAGE_KEY)`: the stored text, or nothing. */
  function Read(storage: map<string, string>): (r: Option<string>)
    ensures r.Some? <==> StorageKey in storage
    ensures r.Some? ==> r.value == storage[StorageKey]
  {
    if StorageKey in storage then Some(storage[StorageKey]) else None
  }

  /** `storage.set(STORAGE_KEY, JSON.stringify(next))`, when the write succeeds. */
  function AfterWrite(storage: map<string, string>, next: seq<Category>, writeOk: bool): (r: map<string, string>)
    ensures writeOk ==> Read(r) == Some(Encode(next)) && Decode(r[StorageKey]) == Some(next)
    ensures !writeOk ==> r == storage
    ensures forall k :: k != StorageKey ==> (k in r <==> k in storage)
    ensures forall k :: k != StorageKey && k in storage ==> r[k] == storage[k]
  {
    DecodeEncode(next);
    if writeOk then storage[StorageKey := Encode(next)] else storage
  }

  /** The three ways the load effect can go. */
  datatype LoadStep = Seed | Restore(loaded: seq<Category>) | Fallback

  /**
   An absent or empty stored value seeds the defaults; one that parses is
   restored; anything else falls back to the defaults.
   */
  function Classify(raw: Option<string>): (step: LoadStep)
    ensures step.Seed? <==> raw.None? || raw.value == []
    ensures step.Restore? ==> raw == Some(Encode(step.loaded))
  {
    if raw.None? || raw.value == [] then Seed
    else match Decode(raw.value)
      case Some(cs) => Restore(cs)
      case None => Fallback
  }

  /** Which stored values lead to which step. */
  lemma ClassifyCases(raw: Option<string>, cs: seq<Category>)
    ensures Classify(raw) == Seed <==> raw.None? || raw.value == []
    ensures Classify(raw) == Restore(cs) <==> raw == Some(Encode(cs))
    ensures Classify(raw) == Fallback <==>
              raw.Some? && raw.value != [] && forall ds :: raw.value != Encode(ds)
  {
    if raw.Some? {
      DecodeExactly(raw.value, cs);
      if Classify(raw) == Fallback {
        forall ds ensures raw.value != Encode(ds) {
          DecodeExactly(raw.value, ds);
        }
      } else if raw.value != [] {
        var ds := Classify(raw).loaded;
        DecodeExactly(raw.value, ds);
      }
    }
  }

  /** A list that was persisted is what the next load restores. */
  lemma ReloadPersisted(storage: map<string, string>, next: seq<Category>)
    ensures Classify(Read(AfterWrite(storage, next, true))) == Restore(next)
  {
    ClassifyCases(Some(Encode(next)), next);
  }

  class CategoryStore {
    /** `None` until the load effect has run. */
    var categories: Option<seq<Category>>
    /** The key-value store; only `StorageKey` is ever written. */
    var storage: map<string, string>

    /** Memory holds exactly the list that storage decodes to. */
    predicate Synced()
      reads this
    {
      categories.Some? && StorageKey in storage && Decode(storage[StorageKey]) == categories
    }

    /** The hook's first render: nothing loaded yet. */
    constructor (storage: map<string, string>)
      ensures categories == None && this.storage == storage
    {
      categories := None;
      this.storage := storage;
    }

    /** The load effect. */
    method Load(writeOk: bool)
      modifies this
      ensures Classify(Read(old(storage))).Seed? ==>
                categories == Some(DefaultCategories) && storage == AfterWrite(old(storage), DefaultCategories, writeOk)
      ensures Classify(Read(old(storage))).Restore? ==>
                categories == Some(Classify(Read(old(storage))).loaded) && storage == old(storage)
      ensures Classify(Read(old(storage))).Fallback? ==>
                categories == Some(DefaultCategories) && storage == old(storage)
      ensures Classify(Read(old(storage))).Restore? || (Classify(Read(old(storage))).Seed? && writeOk) ==>
                Synced()
      ensures Classify(Read(old(storage))).Fallback? ==> !Synced()
    {
      var raw := Read(storage);
      if raw.Some? && raw.value != [] {
        var parsed := Decode(raw.value);
        if parsed.Some? {
          categories := parsed;
        } else {
          categories := Some(DefaultCategories);
        }
      } else {
        categories := Some(DefaultCategories);
        storage := AfterWrite(storage, DefaultCategories, writeOk);
      }
    }

    /** Memory takes `next` first; the write that follows may fail without effect. */
    method Persist(next: seq<Category>, writeOk: bool)
      modifies this
      ensures categories == Some(next)
      ensures storage == AfterWrite(old(storage), next, writeOk)
      ensures writeOk ==> Synced() && Classify(Read(storage)) == Restore(next)
    {
      categories := Some(next);
      storage := AfterWrite(storage, next, writeOk);
      if writeOk {
        DecodeEncode(next);
        ReloadPersisted(old(storage), next);
      }
    }

    method AddCategory(name: string, writeOk: bool)
      modifies this
      ensures old(categories).None? ==> categories == old(categories) && storage == old(storage)
      ensures old(categories).Some? ==>
                var next := AddedCategory(old(categories).value, name);
                categories == Some(next) && storage == AfterWrite(old(storage), next, writeOk)
      ensures old(categories).Some? && writeOk ==> Synced()
    {
      if categories.None? {
        return;
      }
      Persist(AddedCategory(categories.value, name), writeOk);
    }

    method AddSubcategory(categoryId: string, sub: string, writeOk: bool)
      modifies this
      ensures old(categories).None? ==> categories == old(categories) && storage == old(storage)
      ensures old(categories).Some? ==>
                var next := AddedSubcategory(old(categories).value, categoryId, sub);
                categories == Some(next) && storage == AfterWrite(old(storage), next, writeOk)
      ensures old(categories).Some? && writeOk ==> Synced()
    {
      if categories.None? {
        return;
      }
      Persist(AddedSubcategory(categories.value, categoryId, sub), writeOk);
    }

    method RemoveCategory(categoryId: string, writeOk: bool)
      modifies this
      ensures old(categories).None? ==> categories == old(categories) && storage == old(storage)
      ensures old(categories).Some? ==>
                var next := RemovedCategory(old(categories).value, categoryId);
                categories == Some(next) && storage == AfterWrite(old(storage), next, writeOk)
      ensures old(categories).Some? && writeOk ==> Synced()
    {
      if categories.None? {
        return;
      }
      Persist(RemovedCategory(categories.value, categoryId), writeOk);
    }

    method RemoveSubcategory(categoryId: string, sub: string, writeOk: bool)
      modifies this
      ensures old(categories).None? ==> categories == old(categories) && storage == old(storage)
      ensures old(categories).Some? ==>
                var next := RemovedSubcategory(old(categories).value, categoryId, sub);
                categories == Some(next) && storage == AfterWrite(old(storage), next, writeOk)
      ensures old(categories).Some? && writeOk ==> Synced()
    {
      if categories.None? {
        return;
      }
      Persist(RemovedSubcategory(categories.value, categoryId, sub), writeOk);
    }
  }
}
