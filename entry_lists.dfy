/** The list operations on entries that the context provider and the
    repository share: look-up by id, replace by id, remove by id and
    filter by status. */
module EntryLists {
  import opened Types
  import opened Seqs

  /** No two entries share an id (ids come from `crypto.randomUUID`). */
  predicate UniqueIds(s: seq<VocabEntry>) {
    forall i, j :: 0 <= i < j < |s| ==> s[i].id != s[j].id
  }

  /** `s.findIndex(e => e.id === id)`: the first position holding `id`, or
      -1 when there is none. */
  function FindIndex(s: seq<VocabEntry>, id: string): (r: int)
    ensures -1 <= r < |s|
    ensures r == -1 <==> forall i :: 0 <= i < |s| ==> s[i].id != id
    ensures r >= 0 ==> s[r].id == id && forall i :: 0 <= i < r ==> s[i].id != id
  {
    if s == [] then -1
    else if s[0].id == id then 0
    else
      var k := FindIndex(s[1..], id);
      if k == -1 then -1 else k + 1
  }

  /** `s.find(e => e.id === id)`. */
  function FindFirst(s: seq<VocabEntry>, id: string): (r: Option<VocabEntry>)
    ensures r.None? <==> forall i :: 0 <= i < |s| ==> s[i].id != id
    ensures r.Some? ==> r.value in s && r.value.id == id
    ensures r.Some? ==> exists k :: 0 <= k < |s| && s[k] == r.value && forall i :: 0 <= i < k ==> s[i].id != id
  {
    var k := FindIndex(s, id);
    if k == -1 then None else Some(s[k])
  }

  /** With unique ids, the entry found for an id is the one holding it. */
  lemma FindFirstUnique(s: seq<VocabEntry>, i: nat)
    requires UniqueIds(s) && i < |s|
    ensures FindFirst(s, s[i].id) == Some(s[i])
  {
  }

  /** `s.map(e => e.id === entry.id ? entry : e)`. */
  function ReplaceById(s: seq<VocabEntry>, entry: VocabEntry): (r: seq<VocabEntry>)
    ensures |r| == |s|
    ensures forall i :: 0 <= i < |s| ==> r[i] == if s[i].id == entry.id then entry else s[i]
  {
    seq(|s|, i requires 0 <= i < |s| => if s[i].id == entry.id then entry else s[i])
  }

  /** Replacing by an id nobody holds changes nothing. */
  lemma ReplaceByIdUnknown(s: seq<VocabEntry>, entry: VocabEntry)
    requires forall i :: 0 <= i < |s| ==> s[i].id != entry.id
    ensures ReplaceById(s, entry) == s
  {
  }

  /** Replacing by id keeps every position's id, so unique ids stay unique. */
  lemma ReplaceByIdKeepsIds(s: seq<VocabEntry>, entry: VocabEntry)
    ensures forall i :: 0 <= i < |s| ==> ReplaceById(s, entry)[i].id == s[i].id
    ensures UniqueIds(s) ==> UniqueIds(ReplaceById(s, entry))
  {
  }

  /** With unique ids, replacing by id overwrites the one holder. */
  lemma ReplaceByIdAt(s: seq<VocabEntry>, i: nat, entry: VocabEntry)
    requires UniqueIds(s) && i < |s| && s[i].id == entry.id
    ensures ReplaceById(s, entry) == s[i := entry]
  {
  }

  /** Reads the entry that holds `id` (if any), transforms it with `f`, and
      writes the result over every entry holding `id`: what `toggleReveal`
      and `recordTestResult` do through `updateEntry`. */
  function UpdateMatching(s: seq<VocabEntry>, id: string, f: VocabEntry -> VocabEntry): (r: seq<VocabEntry>)
    ensures |r| == |s|
  {
    match FindFirst(s, id)
    case None => s
    case Some(e) => ReplaceById(s, f(e))
  }

  /** An id nobody holds leaves the list as it was. */
  lemma UpdateMatchingUnknown(s: seq<VocabEntry>, id: string, f: VocabEntry -> VocabEntry)
    requires forall i :: 0 <= i < |s| ==> s[i].id != id
    ensures UpdateMatching(s, id, f) == s
  {
  }

  /** With unique ids and an `f` that keeps ids, exactly the holder of `id`
      is transformed and every other entry is unchanged. */
  lemma UpdateMatchingExact(s: seq<VocabEntry>, id: string, f: VocabEntry -> VocabEntry)
    requires UniqueIds(s)
    requires forall e :: f(e).id == e.id
    ensures forall i :: 0 <= i < |s| ==>
      UpdateMatching(s, id, f)[i] == if s[i].id == id then f(s[i]) else s[i]
    ensures UniqueIds(UpdateMatching(s, id, f))
  {
    var k := FindIndex(s, id);
    if k != -1 {
      FindFirstUnique(s, k);
      ReplaceByIdKeepsIds(s, f(s[k]));
    }
  }

  function IdIsNot(id: string): VocabEntry -> bool {
    (e: VocabEntry) => e.id != id
  }

  /** `s.filter(e => e.id !== id)`. */
  function RemoveId(s: seq<VocabEntry>, id: string): (r: seq<VocabEntry>) {
    Filter(s, IdIsNot(id))
  }

  /** Removing an id drops every entry holding it and keeps all others in
      their order; removing an absent id changes nothing; removing twice is
      removing once. */
  lemma RemoveIdSpec(s: seq<VocabEntry>, id: string)
    ensures forall i :: 0 <= i < |RemoveId(s, id)| ==> RemoveId(s, id)[i].id != id
    ensures forall i :: 0 <= i < |s| && s[i].id != id ==> s[i] in RemoveId(s, id)
    ensures IsSubsequence(RemoveId(s, id), s)
    ensures (forall i :: 0 <= i < |s| ==> s[i].id != id) ==> RemoveId(s, id) == s
    ensures RemoveId(RemoveId(s, id), id) == RemoveId(s, id)
  {
    FilterIsSubsequence(s, IdIsNot(id));
    if forall i :: 0 <= i < |s| ==> s[i].id != id {
      FilterAll(s, IdIsNot(id));
    }
    FilterIdempotent(s, IdIsNot(id));
  }

  /** Removing an id keeps every copy of each entry with another id. */
  lemma RemoveIdCounts(s: seq<VocabEntry>, id: string)
    ensures forall e :: multiset(RemoveId(s, id))[e] == if e.id != id then multiset(s)[e] else 0
  {
    FilterCounts(s, IdIsNot(id));
  }

  function HasStatus(status: VocabStatus): VocabEntry -> bool {
    (e: VocabEntry) => e.status == status
  }

  /** `s.filter(e => e.status === status)`. */
  function FilterStatus(s: seq<VocabEntry>, status: VocabStatus): (r: seq<VocabEntry>) {
    Filter(s, HasStatus(status))
  }

  /** Filtering by status keeps exactly the entries of that status, every
      copy of them, in list order. */
  lemma FilterStatusSpec(s: seq<VocabEntry>, status: VocabStatus)
    ensures forall i :: 0 <= i < |FilterStatus(s, status)| ==> FilterStatus(s, status)[i].status == status
    ensures forall i :: 0 <= i < |s| && s[i].status == status ==> s[i] in FilterStatus(s, status)
    ensures IsSubsequence(FilterStatus(s, status), s)
    ensures forall e :: multiset(FilterStatus(s, status))[e] == if e.status == status then multiset(s)[e] else 0
  {
    FilterIsSubsequence(s, HasStatus(status));
    FilterCounts(s, HasStatus(status));
  }

  /** With unique ids, giving the holder of an id a new record changes the
      number of entries of a status by what the old and the new record
      contribute. */
  lemma StatusCountAfterReplace(s: seq<VocabEntry>, i: nat, entry: VocabEntry, status: VocabStatus)
    requires UniqueIds(s) && i < |s| && s[i].id == entry.id
    ensures |FilterStatus(ReplaceById(s, entry), status)| ==
      |FilterStatus(s, status)| - (if s[i].status == status then 1 else 0) + (if entry.status == status then 1 else 0)
  {
    ReplaceByIdAt(s, i, entry);
    FilterCountUpdate(s, i, entry, HasStatus(status));
  }
}
