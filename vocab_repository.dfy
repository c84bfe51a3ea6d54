/** The local-storage repository (services/VocabRepository.ts): one key
    holds the list of collections, one key per collection holds its
    entries. Each operation reads a list, changes it and writes it back
    under the same key. */
module VocabRepository {
  import opened Types
  import opened Seqs
  import opened EntryLists

  const DataPrefix: string := "slovnik_data_"
  const CollectionsKey: string := "slovnik_collections"

  /** What a storage key holds, as far as the repository can read it:
      a list of collections, a list of entries, or text that does not
      parse (including the empty string). */
  datatype Stored =
    | CollectionList(cols: seq<VocabCollection>)
    | EntryList(entries: seq<VocabEntry>)
    | Unreadable

  type Items = map<string, Stored>

  /** `LS_KEY_DATA_PREFIX + collectionId` */
  function EntriesKey(collectionId: string): (k: string)
    ensures |k| == |DataPrefix| + |collectionId|
    ensures k[..|DataPrefix|] == DataPrefix && k[|DataPrefix|..] == collectionId
  {
    DataPrefix + collectionId
  }

  /** Different collections never share an entries key. */
  lemma EntriesKeyInjective(a: string, b: string)
    requires EntriesKey(a) == EntriesKey(b)
    ensures a == b
  {
    assert a == EntriesKey(a)[|DataPrefix|..];
  }

  /** No entries key collides with the collections key. */
  lemma EntriesKeyNotCollections(collectionId: string)
    ensures EntriesKey(collectionId) != CollectionsKey
  {
    assert EntriesKey(collectionId)[8] == 'd' && CollectionsKey[8] == 'c';
  }

  /** `getLocalStorageCollections`: a missing or unreadable key reads as []. */
  function ReadCollections(items: Items): (cols: seq<VocabCollection>)
    ensures CollectionsKey !in items || !items[CollectionsKey].CollectionList? ==> cols == []
  {
    if CollectionsKey in items && items[CollectionsKey].CollectionList? then items[CollectionsKey].cols else []
  }

  /** `getLocalStorageEntries`: a missing or unreadable key reads as []. */
  function ReadEntries(items: Items, collectionId: string): (es: seq<VocabEntry>)
    ensures EntriesKey(collectionId) !in items || !items[EntriesKey(collectionId)].EntryList? ==> es == []
  {
    var key := EntriesKey(collectionId);
    if key in items && items[key].EntryList? then items[key].entries else []
  }

  /** `saveLocalStorageEntries` */
  function WriteEntries(items: Items, collectionId: string, es: seq<VocabEntry>): Items {
    items[EntriesKey(collectionId) := EntryList(es)]
  }

  /** Writing one collection's entries is read back by that collection and
      by no other, and leaves the collection list alone. */
  lemma ReadAfterWrite(items: Items, collectionId: string, es: seq<VocabEntry>, other: string)
    ensures ReadEntries(WriteEntries(items, collectionId, es), other) ==
      if other == collectionId then es else ReadEntries(items, other)
    ensures ReadCollections(WriteEntries(items, collectionId, es)) == ReadCollections(items)
  {
    EntriesKeyNotCollections(collectionId);
    if other != collectionId && EntriesKey(other) == EntriesKey(collectionId) {
      EntriesKeyInjective(other, collectionId);
    }
  }

  function CollectionIdIsNot(colId: string): VocabCollection -> bool {
    (c: VocabCollection) => c.id != colId
  }

  /** The store after `createCollection(col)`: `unshift` puts it first. */
  function AfterCreateCollection(items: Items, col: VocabCollection): Items {
    items[CollectionsKey := CollectionList([col] + ReadCollections(items))]
  }

  /** The store after `deleteCollection(colId)`: the list without it, and
      its entries key removed. */
  function AfterDeleteCollection(items: Items, colId: string): Items {
    items[CollectionsKey := CollectionList(Filter(ReadCollections(items), CollectionIdIsNot(colId)))]
      - {EntriesKey(colId)}
  }

  function AfterAddEntry(items: Items, colId: string, entry: VocabEntry): Items {
    WriteEntries(items, colId, ReadEntries(items, colId) + [entry])
  }

  /** `updateEntry`: the first entry holding the id is overwritten; when
      none does, nothing is written at all. */
  function AfterUpdateEntry(items: Items, colId: string, entry: VocabEntry): Items {
    var es := ReadEntries(items, colId);
    var index := FindIndex(es, entry.id);
    if index == -1 then items else WriteEntries(items, colId, es[index := entry])
  }

  /** `new Map(updatedEntries.map(e => [e.id, e]))`: later items override
      earlier ones with the same id. */
  function BatchMap(batch: seq<VocabEntry>): (m: map<string, VocabEntry>)
    ensures forall j :: 0 <= j < |batch| ==> batch[j].id in m
    ensures forall k :: k in m ==> m[k].id == k && exists j :: 0 <= j < |batch| && batch[j] == m[k]
  {
    if batch == [] then map[]
    else
      var last := batch[|batch| - 1];
      BatchMap(batch[..|batch| - 1])[last.id := last]
  }

  /** `k` is the first position of `s` holding `id`. */
  predicate IsFirstWithId(s: seq<VocabEntry>, id: string, k: int) {
    0 <= k < |s| && s[k].id == id && forall i :: 0 <= i < k ==> s[i].id != id
  }

  /** No later batch item shares the id of item `j`. */
  predicate IsLastWithId(batch: seq<VocabEntry>, j: int) {
    0 <= j < |batch| && forall j2 :: j < j2 < |batch| ==> batch[j2].id != batch[j].id
  }

  /** The value kept for an id is the last batch item holding it. */
  lemma {:induction false} BatchMapLastWins(batch: seq<VocabEntry>, j: nat)
    requires IsLastWithId(batch, j)
    ensures BatchMap(batch)[batch[j].id] == batch[j]
  {
    if j < |batch| - 1 {
      BatchMapLastWins(batch[..|batch| - 1], j);
    }
  }

  /** `entries.map(entry => updateMap.has(entry.id) ? updateMap.get(entry.id)! : entry)` */
  function ApplyBatch(es: seq<VocabEntry>, m: map<string, VocabEntry>): (r: seq<VocabEntry>)
    ensures |r| == |es|
  {
    seq(|es|, i requires 0 <= i < |es| => if es[i].id in m then m[es[i].id] else es[i])
  }

  function AfterUpdateEntries(items: Items, colId: string, batch: seq<VocabEntry>): Items {
    WriteEntries(items, colId, ApplyBatch(ReadEntries(items, colId), BatchMap(batch)))
  }

  function AfterDeleteEntry(items: Items, colId: string, id: string): Items {
    WriteEntries(items, colId, RemoveId(ReadEntries(items, colId), id))
  }

  /** A new collection goes first; every collection keeps its entries. */
  lemma CreateCollectionPrepends(items: Items, col: VocabCollection, other: string)
    ensures ReadCollections(AfterCreateCollection(items, col)) == [col] + ReadCollections(items)
    ensures ReadEntries(AfterCreateCollection(items, col), other) == ReadEntries(items, other)
  {
    EntriesKeyNotCollections(other);
  }

  /** Deleting a collection removes every collection with that id, keeps
      the others in order, and empties its entries, while every other
      collection keeps its entries. */
  lemma DeleteCollectionSpec(items: Items, colId: string, other: string)
    ensures forall i :: 0 <= i < |ReadCollections(AfterDeleteCollection(items, colId))| ==>
      ReadCollections(AfterDeleteCollection(items, colId))[i].id != colId
    ensures IsSubsequence(ReadCollections(AfterDeleteCollection(items, colId)), ReadCollections(items))
    ensures forall c :: c in ReadCollections(items) && c.id != colId ==> c in ReadCollections(AfterDeleteCollection(items, colId))
    ensures ReadEntries(AfterDeleteCollection(items, colId), colId) == []
    ensures other != colId ==> ReadEntries(AfterDeleteCollection(items, colId), other) == ReadEntries(items, other)
  {
    EntriesKeyNotCollections(colId);
    EntriesKeyNotCollections(other);
    FilterIsSubsequence(ReadCollections(items), CollectionIdIsNot(colId));
    if other != colId && EntriesKey(other) == EntriesKey(colId) {
      EntriesKeyInjective(other, colId);
    }
  }

  /** `addEntry` appends after the existing entries. */
  lemma AddEntryAppends(items: Items, colId: string, entry: VocabEntry)
    ensures ReadEntries(AfterAddEntry(items, colId, entry), colId) == ReadEntries(items, colId) + [entry]
    ensures ReadCollections(AfterAddEntry(items, colId, entry)) == ReadCollections(items)
  {
    ReadAfterWrite(items, colId, ReadEntries(items, colId) + [entry], colId);
  }

  /** `updateEntry` replaces the first holder of the id, length and every
      other position unchanged; without a holder the store is untouched. */
  lemma UpdateEntryReplacesFirst(items: Items, colId: string, entry: VocabEntry)
    ensures (forall i :: 0 <= i < |ReadEntries(items, colId)| ==> ReadEntries(items, colId)[i].id != entry.id) ==>
      AfterUpdateEntry(items, colId, entry) == items
    ensures forall k :: IsFirstWithId(ReadEntries(items, colId), entry.id, k) ==>
      ReadEntries(AfterUpdateEntry(items, colId, entry), colId) == ReadEntries(items, colId)[k := entry]
  {
    var es := ReadEntries(items, colId);
    var index := FindIndex(es, entry.id);
    if index != -1 {
      ReadAfterWrite(items, colId, es[index := entry], colId);
    }
  }

  /** `updateEntries` keeps the length, the order and every position's id:
      it never adds a batch item whose id is absent; a position is replaced
      only when its id is in the batch, and then by the last batch item
      with that id. */
  lemma UpdateEntriesSpec(es: seq<VocabEntry>, batch: seq<VocabEntry>)
    ensures |ApplyBatch(es, BatchMap(batch))| == |es|
    ensures forall i :: 0 <= i < |es| ==> ApplyBatch(es, BatchMap(batch))[i].id == es[i].id
    ensures forall i :: 0 <= i < |es| && (forall j :: 0 <= j < |batch| ==> batch[j].id != es[i].id) ==>
      ApplyBatch(es, BatchMap(batch))[i] == es[i]
    ensures forall i, j :: 0 <= i < |es| && IsLastWithId(batch, j) && batch[j].id == es[i].id ==>
      ApplyBatch(es, BatchMap(batch))[i] == batch[j]
  {
    forall i, j | 0 <= i < |es| && IsLastWithId(batch, j) && batch[j].id == es[i].id
      ensures ApplyBatch(es, BatchMap(batch))[i] == batch[j]
    {
      BatchMapLastWins(batch, j);
    }
  }

  /** Deleting the same id twice leaves the store as deleting it once. */
  lemma DeleteEntryIdempotent(items: Items, colId: string, id: string)
    ensures AfterDeleteEntry(AfterDeleteEntry(items, colId, id), colId, id) == AfterDeleteEntry(items, colId, id)
    ensures forall i :: 0 <= i < |ReadEntries(AfterDeleteEntry(items, colId, id), colId)| ==>
      ReadEntries(AfterDeleteEntry(items, colId, id), colId)[i].id != id
  {
    var once := RemoveId(ReadEntries(items, colId), id);
    ReadAfterWrite(items, colId, once, colId);
    RemoveIdSpec(ReadEntries(items, colId), id);
  }

  /** The browser's local storage, as far as the repository uses it.
      `writable` says whether `setItem` succeeds; it throws when the quota
      is exceeded or storage is disabled, and then nothing is stored. */
  class LocalStore {
    var items: Items
    var writable: bool

    constructor (initial: Items, canWrite: bool)
      ensures items == initial && writable == canWrite
    {
      items := initial;
      writable := canWrite;
    }

    /** `getLocalStorageEntries` */
    method LoadEntries(collectionId: string) returns (es: seq<VocabEntry>)
      ensures es == ReadEntries(items, collectionId)
    {
      var key := EntriesKey(collectionId);
      if key in items && items[key].EntryList? {
        es := items[key].entries;
      } else {
        es := [];
      }
    }

    /** `saveLocalStorageEntries`: a failed `setItem` is caught and logged,
        so the caller carries on with the storage unchanged. */
    method SaveEntries(collectionId: string, es: seq<VocabEntry>)
      modifies this
      ensures writable == old(writable)
      ensures items == if writable then WriteEntries(old(items), collectionId, es) else old(items)
    {
      if writable {
        items := items[EntriesKey(collectionId) := EntryList(es)];
      }
    }

    method GetCollections() returns (cols: seq<VocabCollection>)
      ensures cols == ReadCollections(items)
    {
      if CollectionsKey in items && items[CollectionsKey].CollectionList? {
        cols := items[CollectionsKey].cols;
      } else {
        cols := [];
      }
    }

    /** `createCollection`: a failed `setItem` is not caught, so `ok` is
        false (the returned promise rejects) and nothing is stored. */
    method CreateCollection(col: VocabCollection) returns (ok: bool)
      modifies this
      ensures writable == old(writable) && ok == writable
      ensures items == if ok then AfterCreateCollection(old(items), col) else old(items)
    {
      var cols := GetCollections();
      cols := [col] + cols;
      if !writable {
        return false;
      }
      items := items[CollectionsKey := CollectionList(cols)];
      ok := true;
    }

    /** `deleteCollection`: when `setItem` throws, the entries key is not
        removed either, since `removeItem` comes after it. */
    method DeleteCollection(colId: string) returns (ok: bool)
      modifies this
      ensures writable == old(writable) && ok == writable
      ensures items == if ok then AfterDeleteCollection(old(items), colId) else old(items)
    {
      var cols := GetCollections();
      var filtered := Filter(cols, CollectionIdIsNot(colId));
      if !writable {
        return false;
      }
      items := items[CollectionsKey := CollectionList(filtered)];
      items := items - {EntriesKey(colId)};
      ok := true;
    }

    method GetAllEntries(collectionId: string) returns (es: seq<VocabEntry>)
      ensures es == ReadEntries(items, collectionId)
    {
      es := LoadEntries(collectionId);
    }

    method AddEntry(collectionId: string, entry: VocabEntry)
      modifies this
      ensures writable == old(writable)
      ensures items == if writable then AfterAddEntry(old(items), collectionId, entry) else old(items)
    {
      var es := LoadEntries(collectionId);
      es := es + [entry];
      SaveEntries(collectionId, es);
    }

    method UpdateEntry(collectionId: string, updated: VocabEntry)
      modifies this
      ensures writable == old(writable)
      ensures items == if writable then AfterUpdateEntry(old(items), collectionId, updated) else old(items)
    {
      var es := LoadEntries(collectionId);
      var index := FindIndex(es, updated.id);
      if index != -1 {
        es := es[index := updated];
        SaveEntries(collectionId, es);
      }
    }

    method UpdateEntries(collectionId: string, batch: seq<VocabEntry>)
      modifies this
      ensures writable == old(writable)
      ensures items == if writable then AfterUpdateEntries(old(items), collectionId, batch) else old(items)
    {
      var es := LoadEntries(collectionId);
      var updateMap := BatchMap(batch);
      var newEntries := ApplyBatch(es, updateMap);
      SaveEntries(collectionId, newEntries);
    }

    method DeleteEntry(collectionId: string, id: string)
      modifies this
      ensures writable == old(writable)
      ensures items == if writable then AfterDeleteEntry(old(items), collectionId, id) else old(items)
    {
      var es := LoadEntries(collectionId);
      var filtered := RemoveId(es, id);
      SaveEntries(collectionId, filtered);
    }
  }
}
