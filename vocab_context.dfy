/** The in-memory entry list of the vocabulary provider
    (context/VocabContext.tsx): every operation replaces `entries` with a
    map or a filter of it, keyed by `id`. */
module VocabContext {
  import opened Types
  import opened Seqs
  import opened EntryLists

  /** The record `addEntry` creates: a NEW entry with zero tallies, hidden. */
  function NewEntry(id: string, slovak: string, english: string): (e: VocabEntry)
    ensures e.id == id && e.slovak == slovak && e.english == english
    ensures e.status == NEW && e.correctCount == 0 && e.wrongCount == 0 && !e.isRevealed
    ensures e.sentence.None? && e.lastReviewed.None?
  {
    VocabEntry(id, slovak, english, None, NEW, 0, 0, None, false)
  }

  /** `{ ...entry, isRevealed: !entry.isRevealed }` */
  function FlipReveal(e: VocabEntry): (r: VocabEntry)
    ensures r.isRevealed == !e.isRevealed && r.(isRevealed := e.isRevealed) == e
  {
    e.(isRevealed := !e.isRevealed)
  }

  /** The record `recordTestResult` writes: one more correct or one more
      wrong answer, reviewed at `now`, status untouched. */
  function WithTestResult(e: VocabEntry, isCorrect: bool, now: int): (r: VocabEntry)
    ensures r.correctCount == e.correctCount + (if isCorrect then 1 else 0)
    ensures r.wrongCount == e.wrongCount + (if isCorrect then 0 else 1)
    ensures r.correctCount + r.wrongCount == e.correctCount + e.wrongCount + 1
    ensures r.lastReviewed == Some(now)
    ensures r.(correctCount := e.correctCount, wrongCount := e.wrongCount, lastReviewed := e.lastReviewed) == e
  {
    e.(correctCount := e.correctCount + (if isCorrect then 1 else 0),
       wrongCount := e.wrongCount + (if isCorrect then 0 else 1),
       lastReviewed := Some(now))
  }

  /** The list after `toggleReveal(id)`. */
  function Toggled(s: seq<VocabEntry>, id: string): seq<VocabEntry> {
    UpdateMatching(s, id, FlipReveal)
  }

  /** The list after `recordTestResult(id, isCorrect)` at time `now`. */
  function Recorded(s: seq<VocabEntry>, id: string, isCorrect: bool, now: int): seq<VocabEntry> {
    UpdateMatching(s, id, (e: VocabEntry) => WithTestResult(e, isCorrect, now))
  }

  /** With unique ids, toggling flips `isRevealed` of the holder of `id` and
      of no other entry. */
  lemma ToggleRevealExact(s: seq<VocabEntry>, id: string)
    requires UniqueIds(s)
    ensures |Toggled(s, id)| == |s| && UniqueIds(Toggled(s, id))
    ensures forall i :: 0 <= i < |s| ==>
      Toggled(s, id)[i] == if s[i].id == id then s[i].(isRevealed := !s[i].isRevealed) else s[i]
  {
    UpdateMatchingExact(s, id, FlipReveal);
  }

  /** Toggling twice restores the list. */
  lemma ToggleRevealTwice(s: seq<VocabEntry>, id: string)
    requires UniqueIds(s)
    ensures Toggled(Toggled(s, id), id) == s
  {
    ToggleRevealExact(s, id);
    ToggleRevealExact(Toggled(s, id), id);
  }

  /** Toggling an id nobody holds changes nothing. */
  lemma ToggleRevealUnknown(s: seq<VocabEntry>, id: string)
    requires forall i :: 0 <= i < |s| ==> s[i].id != id
    ensures Toggled(s, id) == s
  {
    UpdateMatchingUnknown(s, id, FlipReveal);
  }

  /** With unique ids, recording a result changes only the holder of `id`:
      exactly one of its tallies grows by one and it is marked reviewed;
      its status is kept. */
  lemma RecordTestResultExact(s: seq<VocabEntry>, id: string, isCorrect: bool, now: int)
    requires UniqueIds(s)
    ensures |Recorded(s, id, isCorrect, now)| == |s|
    ensures forall i :: 0 <= i < |s| ==>
      Recorded(s, id, isCorrect, now)[i] == if s[i].id == id then WithTestResult(s[i], isCorrect, now) else s[i]
    ensures forall i :: 0 <= i < |s| ==> Recorded(s, id, isCorrect, now)[i].status == s[i].status
  {
    UpdateMatchingExact(s, id, (e: VocabEntry) => WithTestResult(e, isCorrect, now));
  }

  /** Recording a result for an id nobody holds changes nothing. */
  lemma RecordTestResultUnknown(s: seq<VocabEntry>, id: string, isCorrect: bool, now: int)
    requires forall i :: 0 <= i < |s| ==> s[i].id != id
    ensures Recorded(s, id, isCorrect, now) == s
  {
    UpdateMatchingUnknown(s, id, (e: VocabEntry) => WithTestResult(e, isCorrect, now));
  }

  predicate IsRevealedLearning(e: VocabEntry) {
    e.status == LEARNING && e.isRevealed
  }

  function Hide(e: VocabEntry): VocabEntry {
    e.(isRevealed := false)
  }

  /** `e` is a revealed LEARNING entry of `s` with `isRevealed` cleared. */
  predicate IsHiddenCopy(s: seq<VocabEntry>, e: VocabEntry) {
    exists i :: 0 <= i < |s| && IsRevealedLearning(s[i]) && e == Hide(s[i])
  }

  /** `toUpdate` of `resetAllRevealed`: the revealed LEARNING entries, in
      list order, each with only `isRevealed` cleared. */
  function RevealedBatch(s: seq<VocabEntry>): (b: seq<VocabEntry>)
    ensures forall k :: 0 <= k < |b| ==> b[k].status == LEARNING && !b[k].isRevealed
    ensures |b| == |Filter(s, IsRevealedLearning)|
    ensures forall k :: 0 <= k < |b| ==> b[k] == Filter(s, IsRevealedLearning)[k].(isRevealed := false)
    ensures forall k :: 0 <= k < |b| ==> IsHiddenCopy(s, b[k])
    ensures forall i :: 0 <= i < |s| && IsRevealedLearning(s[i]) ==> Hide(s[i]) in b
  {
    var hits := Filter(s, IsRevealedLearning);
    RevealedHitsInList(s);
    seq(|hits|, k requires 0 <= k < |hits| => Hide(hits[k]))
  }

  /** Each revealed LEARNING entry found by the filter has its hidden
      copy drawn from the list. */
  lemma RevealedHitsInList(s: seq<VocabEntry>)
    ensures forall k :: 0 <= k < |Filter(s, IsRevealedLearning)| ==>
      IsHiddenCopy(s, Hide(Filter(s, IsRevealedLearning)[k]))
  {
    forall k | 0 <= k < |Filter(s, IsRevealedLearning)|
      ensures IsHiddenCopy(s, Hide(Filter(s, IsRevealedLearning)[k]))
    {
      var e := Filter(s, IsRevealedLearning)[k];
      assert e in s && IsRevealedLearning(e);
      var i :| 0 <= i < |s| && s[i] == e;
      assert IsRevealedLearning(s[i]);
    }
  }

  /** `s.map(e => toUpdate.find(u => u.id === e.id) || e)`. */
  function ApplyFirstMatch(s: seq<VocabEntry>, batch: seq<VocabEntry>): (r: seq<VocabEntry>)
    ensures |r| == |s|
  {
    seq(|s|, i requires 0 <= i < |s| =>
      match FindFirst(batch, s[i].id)
      case Some(u) => u
      case None => s[i])
  }

  /** The list after `resetAllRevealed`: untouched when the batch is empty. */
  function ResetRevealed(s: seq<VocabEntry>): seq<VocabEntry> {
    var batch := RevealedBatch(s);
    if |batch| > 0 then ApplyFirstMatch(s, batch) else s
  }

  /** Nothing is written exactly when no LEARNING entry is revealed. */
  lemma ResetRevealedNoWrite(s: seq<VocabEntry>)
    ensures RevealedBatch(s) == [] <==> forall i :: 0 <= i < |s| ==> !IsRevealedLearning(s[i])
  {
    var hits := Filter(s, IsRevealedLearning);
    assert |RevealedBatch(s)| == |hits|;
    if hits != [] {
      assert hits[0] in s && IsRevealedLearning(hits[0]);
    }
  }

  /** Every revealed LEARNING entry has a hidden copy in the batch. */
  lemma RevealedBatchCovers(s: seq<VocabEntry>, i: nat)
    requires i < |s|
    ensures IsRevealedLearning(s[i]) ==> FindFirst(RevealedBatch(s), s[i].id).Some?
  {
    var hits := Filter(s, IsRevealedLearning);
    if IsRevealedLearning(s[i]) {
      assert s[i] in hits;
      var k :| 0 <= k < |hits| && hits[k] == s[i];
      assert RevealedBatch(s)[k].id == s[i].id;
    }
  }

  /** After the reset no LEARNING entry is revealed, whatever the ids. */
  lemma ResetRevealedHidesLearning(s: seq<VocabEntry>)
    ensures |ResetRevealed(s)| == |s|
    ensures forall i :: 0 <= i < |s| && ResetRevealed(s)[i].status == LEARNING ==> !ResetRevealed(s)[i].isRevealed
  {
    var batch := RevealedBatch(s);
    var hits := Filter(s, IsRevealedLearning);
    if |batch| > 0 {
      forall i | 0 <= i < |s| && ResetRevealed(s)[i].status == LEARNING
        ensures !ResetRevealed(s)[i].isRevealed
      {
        RevealedBatchCovers(s, i);
      }
    } else {
      ResetRevealedNoWrite(s);
    }
  }

  /** With unique ids the reset hides exactly the LEARNING entries and
      leaves NEW and LEARNED entries as they were, even revealed ones. */
  lemma ResetRevealedExact(s: seq<VocabEntry>)
    requires UniqueIds(s)
    ensures |ResetRevealed(s)| == |s|
    ensures forall i :: 0 <= i < |s| ==>
      ResetRevealed(s)[i] == if s[i].status == LEARNING then s[i].(isRevealed := false) else s[i]
  {
    var batch := RevealedBatch(s);
    var hits := Filter(s, IsRevealedLearning);
    ResetRevealedHidesLearning(s);
    if |batch| > 0 {
      forall i | 0 <= i < |s|
        ensures ResetRevealed(s)[i] == if s[i].status == LEARNING then s[i].(isRevealed := false) else s[i]
      {
        match FindFirst(batch, s[i].id)
        case Some(u) =>
          var k :| 0 <= k < |batch| && batch[k] == u;
          assert hits[k] in s;
          var j :| 0 <= j < |s| && s[j] == hits[k];
          assert s[j].id == s[i].id;
          assert j == i;
        case None =>
          RevealedBatchCovers(s, i);
      }
    } else {
      ResetRevealedNoWrite(s);
    }
  }

  /** The provider's state: the entry list of the signed-in user. */
  class VocabStore {
    var entries: seq<VocabEntry>

    constructor ()
      ensures entries == []
    {
      entries := [];
    }

    /** `loadEntries`: the list read from storage replaces the current one. */
    method Load(data: seq<VocabEntry>)
      modifies this
      ensures entries == data
    {
      entries := data;
    }

    /** `addEntry`: the new record, persisted and then reloaded; the reload
        returns the stored list with the record appended. */
    method AddEntry(id: string, slovak: string, english: string) returns (e: VocabEntry)
      modifies this
      ensures e == NewEntry(id, slovak, english)
      ensures entries == old(entries) + [e]
    {
      e := NewEntry(id, slovak, english);
      entries := entries + [e];
    }

    /** `updateEntry`: every entry holding `entry.id` becomes `entry`. */
    method UpdateEntry(entry: VocabEntry)
      modifies this
      ensures entries == ReplaceById(old(entries), entry)
    {
      entries := ReplaceById(entries, entry);
    }

    /** `deleteEntry`: every entry holding `id` is dropped. */
    method DeleteEntry(id: string)
      modifies this
      ensures entries == RemoveId(old(entries), id)
    {
      entries := RemoveId(entries, id);
    }

    /** `getEntriesByStatus`: the entries of `status`, in list order. */
    function GetEntriesByStatus(status: VocabStatus): (r: seq<VocabEntry>)
      reads this
      ensures forall i :: 0 <= i < |r| ==> r[i].status == status
      ensures forall i :: 0 <= i < |entries| && entries[i].status == status ==> entries[i] in r
      ensures IsSubsequence(r, entries)
      ensures forall e :: multiset(r)[e] == if e.status == status then multiset(entries)[e] else 0
    {
      FilterStatusSpec(entries, status);
      FilterStatus(entries, status)
    }

    /** `toggleReveal`: the found entry, flipped, is written by id. */
    method ToggleReveal(id: string)
      modifies this
      ensures entries == Toggled(old(entries), id)
    {
      var found := FindFirst(entries, id);
      if found.Some? {
        UpdateEntry(FlipReveal(found.value));
      }
    }

    /** `resetAllRevealed`: returns the batch handed to the repository,
        empty when nothing was written. */
    method ResetAllRevealed() returns (batch: seq<VocabEntry>)
      modifies this
      ensures batch == RevealedBatch(old(entries))
      ensures entries == ResetRevealed(old(entries))
    {
      batch := RevealedBatch(entries);
      if |batch| > 0 {
        entries := ApplyFirstMatch(entries, batch);
      }
    }

    /** `recordTestResult` at time `now`. */
    method RecordTestResult(id: string, isCorrect: bool, now: int)
      modifies this
      ensures entries == Recorded(old(entries), id, isCorrect, now)
    {
      var found := FindFirst(entries, id);
      if found.Some? {
        UpdateEntry(WithTestResult(found.value, isCorrect, now));
      }
    }
  }
}
