/** The screen of LEARNING words (screens/LearningScreen.tsx): the records
    its buttons write, the card tap that reveals a translation, and the
    words handed to the quiz. Each handler is a function from the entry
    list before to the entry list after. */
module LearningScreen {
  import opened Types
  import opened Seqs
  import opened EntryLists
  import opened VocabContext

  /** The record `handleMoveToLearned` writes: status LEARNED and
      `lastReviewed` set to now; `isRevealed` and the counts are kept. */
  function ToLearned(word: VocabEntry, now: int): (r: VocabEntry)
    ensures r.status == LEARNED && r.lastReviewed == Some(now)
    ensures r.isRevealed == word.isRevealed
    ensures r.(status := word.status, lastReviewed := word.lastReviewed) == word
  {
    word.(status := LEARNED, lastReviewed := Some(now))
  }

  /** The record `handleMoveToNew` writes: status NEW and hidden again;
      `lastReviewed` and the counts are kept. */
  function ToNew(word: VocabEntry): (r: VocabEntry)
    ensures r.status == NEW && !r.isRevealed
    ensures r.lastReviewed == word.lastReviewed
    ensures r.(status := word.status, isRevealed := word.isRevealed) == word
  {
    word.(status := NEW, isRevealed := false)
  }

  /** `handleMoveToLearned(word)` on the list. */
  function MoveToLearned(entries: seq<VocabEntry>, word: VocabEntry, now: int): seq<VocabEntry> {
    ReplaceById(entries, ToLearned(word, now))
  }

  /** `handleMoveToNew(word)` on the list. */
  function MoveToNew(entries: seq<VocabEntry>, word: VocabEntry): seq<VocabEntry> {
    ReplaceById(entries, ToNew(word))
  }

  /** Moving the LEARNING word at `i` to LEARNED takes it off this screen
      and puts it on the LEARNED one, and touches no other entry. */
  lemma MoveToLearnedSpec(entries: seq<VocabEntry>, i: nat, now: int)
    requires UniqueIds(entries) && i < |entries| && entries[i].status == LEARNING
    ensures MoveToLearned(entries, entries[i], now) == entries[i := ToLearned(entries[i], now)]
    ensures |FilterStatus(MoveToLearned(entries, entries[i], now), LEARNING)| == |FilterStatus(entries, LEARNING)| - 1
    ensures |FilterStatus(MoveToLearned(entries, entries[i], now), LEARNED)| == |FilterStatus(entries, LEARNED)| + 1
  {
    ReplaceByIdAt(entries, i, ToLearned(entries[i], now));
    StatusCountAfterReplace(entries, i, ToLearned(entries[i], now), LEARNING);
    StatusCountAfterReplace(entries, i, ToLearned(entries[i], now), LEARNED);
  }

  /** Moving the LEARNING word at `i` back to NEW does the same towards the
      NEW screen. */
  lemma MoveToNewSpec(entries: seq<VocabEntry>, i: nat)
    requires UniqueIds(entries) && i < |entries| && entries[i].status == LEARNING
    ensures MoveToNew(entries, entries[i]) == entries[i := ToNew(entries[i])]
    ensures |FilterStatus(MoveToNew(entries, entries[i]), LEARNING)| == |FilterStatus(entries, LEARNING)| - 1
    ensures |FilterStatus(MoveToNew(entries, entries[i]), NEW)| == |FilterStatus(entries, NEW)| + 1
  {
    ReplaceByIdAt(entries, i, ToNew(entries[i]));
    StatusCountAfterReplace(entries, i, ToNew(entries[i]), LEARNING);
    StatusCountAfterReplace(entries, i, ToNew(entries[i]), NEW);
  }

  /** `handleToggle(word)`: `toggleReveal(word.id)`. With unique ids only
      that word's card changes, and only its `isRevealed`. */
  function HandleToggle(entries: seq<VocabEntry>, word: VocabEntry): (r: seq<VocabEntry>)
    ensures UniqueIds(entries) ==>
      && |r| == |entries| && UniqueIds(r)
      && forall i :: 0 <= i < |entries| ==>
        r[i] == if entries[i].id == word.id then entries[i].(isRevealed := !entries[i].isRevealed) else entries[i]
  {
    if UniqueIds(entries) then ToggleRevealExact(entries, word.id); Toggled(entries, word.id)
    else Toggled(entries, word.id)
  }

  /** `words`, the list the screen shows and hands to the quiz. */
  function TestWords(entries: seq<VocabEntry>): seq<VocabEntry> {
    FilterStatus(entries, LEARNING)
  }

  /** The quiz asks every LEARNING word, each as often as it is listed, and
      nothing else, whatever order the shuffle picks. */
  lemma QuizCoversLearning(entries: seq<VocabEntry>, shuffled: seq<VocabEntry>)
    requires multiset(shuffled) == multiset(TestWords(entries))
    ensures |shuffled| == |TestWords(entries)|
    ensures forall k :: 0 <= k < |shuffled| ==> shuffled[k].status == LEARNING && shuffled[k] in entries
    ensures forall i :: 0 <= i < |entries| && entries[i].status == LEARNING ==> entries[i] in shuffled
  {
    FilterStatusSpec(entries, LEARNING);
    assert |shuffled| == |multiset(shuffled)| == |multiset(TestWords(entries))| == |TestWords(entries)|;
    forall k | 0 <= k < |shuffled| ensures shuffled[k] in TestWords(entries) {
      assert shuffled[k] in multiset(shuffled);
    }
    forall i | 0 <= i < |entries| && entries[i].status == LEARNING ensures entries[i] in shuffled {
      assert entries[i] in multiset(TestWords(entries));
    }
  }
}
