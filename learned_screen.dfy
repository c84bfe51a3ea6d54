/** The screen of LEARNED words (screens/LearnedScreen.tsx): moving a word
    back to learning, the two-step delete, and the test of at most 10
    randomly chosen words. */
module LearnedScreen {
  import opened Types
  import opened Seqs
  import opened EntryLists
  import opened VocabContext

  /** The most words one test of learned words asks. */
  const TestSize: nat := 10

  /** The record `handleMoveBackToLearning` writes: only the status
      changes, to LEARNING. */
  function BackToLearning(word: VocabEntry): (r: VocabEntry)
    ensures r.status == LEARNING
    ensures r.isRevealed == word.isRevealed && r.lastReviewed == word.lastReviewed
    ensures r.correctCount == word.correctCount && r.wrongCount == word.wrongCount
    ensures r.(status := word.status) == word
  {
    word.(status := LEARNING)
  }

  /** Moving back checks no cap: with unique ids the LEARNING list grows by
      one whatever its length, so it can pass the 10 the NEW screen
      enforces. */
  lemma MoveBackSkipsCap(entries: seq<VocabEntry>, i: nat)
    requires UniqueIds(entries) && i < |entries| && entries[i].status == LEARNED
    ensures |FilterStatus(ReplaceById(entries, BackToLearning(entries[i])), LEARNING)|
      == |FilterStatus(entries, LEARNING)| + 1
    ensures |FilterStatus(ReplaceById(entries, BackToLearning(entries[i])), LEARNED)|
      == |FilterStatus(entries, LEARNED)| - 1
  {
    StatusCountAfterReplace(entries, i, BackToLearning(entries[i]), LEARNING);
    StatusCountAfterReplace(entries, i, BackToLearning(entries[i]), LEARNED);
  }

  function Min(a: nat, b: nat): nat {
    if a <= b then a else b
  }

  /** The count on the start button: `Math.min(10, words.length)`. */
  function AdvertisedTestSize(words: seq<VocabEntry>): (r: nat)
    ensures r <= TestSize && r <= |words|
    ensures r == TestSize || r == |words|
  {
    Min(TestSize, |words|)
  }

  /** `shuffled.slice(0, 10)` */
  function TestSelection(shuffled: seq<VocabEntry>): (r: seq<VocabEntry>)
    ensures |r| == Min(TestSize, |shuffled|)
    ensures r <= shuffled
  {
    shuffled[..Min(TestSize, |shuffled|)]
  }

  /** Whatever order the shuffle picks, the test asks as many words as the
      button announces, at most 10, all of them learned words, and with
      unique ids no word twice. */
  lemma TestSelectionSpec(words: seq<VocabEntry>, shuffled: seq<VocabEntry>)
    requires multiset(shuffled) == multiset(words)
    ensures |TestSelection(shuffled)| == AdvertisedTestSize(words) <= TestSize
    ensures forall k :: 0 <= k < |TestSelection(shuffled)| ==> TestSelection(shuffled)[k] in words
    ensures UniqueIds(words) ==> UniqueIds(TestSelection(shuffled))
  {
    assert |shuffled| == |multiset(shuffled)| == |multiset(words)| == |words|;
    var sel := TestSelection(shuffled);
    forall k | 0 <= k < |shuffled| ensures shuffled[k] in words {
      assert shuffled[k] in multiset(shuffled);
    }
    if UniqueIds(words) {
      forall a, b | 0 <= a < b < |shuffled| ensures shuffled[a].id != shuffled[b].id {
        if shuffled[a].id == shuffled[b].id {
          var p :| 0 <= p < |words| && words[p] == shuffled[a];
          var q :| 0 <= q < |words| && words[q] == shuffled[b];
          assert p == q;
          TwiceCounts(shuffled, a, b);
          UniqueDistinct(words);
          DistinctCounts(words, shuffled[a]);
        }
      }
      assert forall k :: 0 <= k < |sel| ==> sel[k] == shuffled[k];
    }
  }

  /** Records with different ids are different records. */
  lemma UniqueDistinct(s: seq<VocabEntry>)
    requires UniqueIds(s)
    ensures Distinct(s)
  {
    forall i, j | 0 <= i < j < |s| ensures s[i] != s[j] {
      assert s[i].id != s[j].id;
    }
  }

  /** The screen's own state next to the provider's list. */
  class Learned {
    const store: VocabStore
    /** The word waiting for delete confirmation. */
    var deletingId: Option<string>
    var isTesting: bool
    var testWords: seq<VocabEntry>

    constructor (store: VocabStore)
      ensures this.store == store
      ensures deletingId.None? && !isTesting && testWords == []
    {
      this.store := store;
      deletingId := None;
      isTesting := false;
      testWords := [];
    }

    /** `handleDeleteSwipe`: the word is only marked; nothing is deleted. */
    method HandleDeleteSwipe(id: string)
      modifies this
      ensures deletingId == Some(id)
      ensures isTesting == old(isTesting) && testWords == old(testWords)
    {
      deletingId := Some(id);
    }

    /** `confirmDelete`: the marked word is deleted and the mark cleared;
        without a mark (or with the empty, falsy id) nothing happens. */
    method ConfirmDelete()
      modifies this, store
      ensures old(deletingId).Some? && old(deletingId).value != [] ==>
        store.entries == RemoveId(old(store.entries), old(deletingId).value) && deletingId.None?
      ensures !(old(deletingId).Some? && old(deletingId).value != []) ==>
        store.entries == old(store.entries) && deletingId == old(deletingId)
      ensures isTesting == old(isTesting) && testWords == old(testWords)
    {
      if deletingId.Some? && deletingId.value != [] {
        store.DeleteEntry(deletingId.value);
        deletingId := None;
      }
    }

    /** `cancelDelete`: the mark is cleared and nothing is deleted. */
    method CancelDelete()
      modifies this
      ensures deletingId.None?
      ensures isTesting == old(isTesting) && testWords == old(testWords)
    {
      deletingId := None;
    }

    /** `handleMoveBackToLearning` */
    method HandleMoveBackToLearning(word: VocabEntry)
      modifies store
      ensures store.entries == ReplaceById(old(store.entries), BackToLearning(word))
    {
      store.UpdateEntry(BackToLearning(word));
    }

    /** `handleStartTest`, where `shuffled` is the random reordering of the
        LEARNED words that `sort(() => Math.random() - 0.5)` produced. */
    method HandleStartTest(shuffled: seq<VocabEntry>)
      requires multiset(shuffled) == multiset(FilterStatus(store.entries, LEARNED))
      modifies this
      ensures isTesting && testWords == TestSelection(shuffled)
      ensures |testWords| == AdvertisedTestSize(FilterStatus(store.entries, LEARNED)) <= TestSize
      ensures forall k :: 0 <= k < |testWords| ==> testWords[k].status == LEARNED && testWords[k] in store.entries
      ensures UniqueIds(store.entries) ==> UniqueIds(testWords)
      ensures deletingId == old(deletingId)
    {
      var words := store.GetEntriesByStatus(LEARNED);
      TestSelectionSpec(words, shuffled);
      if UniqueIds(store.entries) {
        FilterKeepsUniqueIds(store.entries, LEARNED);
      }
      testWords := TestSelection(shuffled);
      isTesting := true;
    }
  }

  /** A filtered list of unique ids has unique ids. */
  lemma FilterKeepsUniqueIds(entries: seq<VocabEntry>, status: VocabStatus)
    requires UniqueIds(entries)
    ensures UniqueIds(FilterStatus(entries, status))
  {
    var r := FilterStatus(entries, status);
    FilterStatusSpec(entries, status);
    SubsequenceKeepsUniqueIds(r, entries);
  }

  lemma {:induction false} SubsequenceKeepsUniqueIds(a: seq<VocabEntry>, b: seq<VocabEntry>)
    requires UniqueIds(b) && IsSubsequence(a, b)
    ensures UniqueIds(a)
    decreases |b|
  {
    if a != [] && b != [] {
      if a[0] == b[0] && IsSubsequence(a[1..], b[1..]) {
        SubsequenceKeepsUniqueIds(a[1..], b[1..]);
        SubsequenceMembers(a[1..], b[1..]);
        forall j | 0 < j < |a| ensures a[0].id != a[j].id {
          assert a[j] in b[1..];
        }
      } else {
        SubsequenceKeepsUniqueIds(a, b[1..]);
      }
    }
  }
}
