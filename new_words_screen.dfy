/** The screen of NEW words (screens/NewWordsScreen.tsx): the add form
    with its validation and duplicate check, the move into learning with
    its cap of 10, deletion, in-place editing, and the search box. */
module NewWordsScreen {
  import opened Types
  import opened Text
  import opened Seqs
  import opened EntryLists
  import opened VocabContext

  /** At most this many words may be LEARNING when one more is moved in. */
  const LearningCap: nat := 10

  /** The two messages of the add form. */
  datatype AddError = EmptyField | Duplicate

  /** What `handleAdd` decides before it writes. */
  datatype AddCheck = Rejected(error: AddError) | Accepted(slovak: string, english: string)

  /** `entries.some(entry => entry.english.toLowerCase().trim() === english.toLowerCase())`,
      with `english` already trimmed. */
  predicate IsDuplicate(entries: seq<VocabEntry>, english: string) {
    exists i :: 0 <= i < |entries| && Trim(Lower(entries[i].english)) == Lower(english)
  }

  /** Two English texts name the same word: equal once trimmed and
      lower-cased. */
  predicate SameEnglish(a: string, b: string) {
    Lower(Trim(a)) == Lower(Trim(b))
  }

  /** The duplicate test, which lower-cases before trimming the stored
      text, finds exactly the entries naming the same word as the input. */
  lemma DuplicateMeansSameEnglish(entries: seq<VocabEntry>, englishInput: string)
    ensures IsDuplicate(entries, Trim(englishInput)) <==>
      exists i :: 0 <= i < |entries| && SameEnglish(entries[i].english, englishInput)
  {
    forall i | 0 <= i < |entries|
      ensures Trim(Lower(entries[i].english)) == Lower(Trim(entries[i].english))
    {
      LowerTrimCommute(entries[i].english);
    }
  }

  /** The checks of `handleAdd` on the raw inputs: both trimmed fields
      must be filled, and no entry of any status may already name the same
      English word; an accepted pair is the trimmed inputs. */
  function CheckAdd(entries: seq<VocabEntry>, slovakInput: string, englishInput: string): (r: AddCheck)
    ensures r == Rejected(EmptyField) <==> Trim(slovakInput) == [] || Trim(englishInput) == []
    ensures r == Rejected(Duplicate) <==>
      && Trim(slovakInput) != [] && Trim(englishInput) != []
      && exists i :: 0 <= i < |entries| && SameEnglish(entries[i].english, englishInput)
    ensures r.Accepted? ==>
      && r.slovak == Trim(slovakInput) && r.english == Trim(englishInput)
      && r.slovak != [] && r.english != []
      && forall i :: 0 <= i < |entries| ==> !SameEnglish(entries[i].english, englishInput)
  {
    DuplicateMeansSameEnglish(entries, englishInput);
    var slovak := Trim(slovakInput);
    var english := Trim(englishInput);
    if slovak == [] || english == [] then Rejected(EmptyField)
    else if IsDuplicate(entries, english) then Rejected(Duplicate)
    else Accepted(slovak, english)
  }

  /** No two entries name the same English word. */
  predicate DistinctEnglish(entries: seq<VocabEntry>) {
    forall i, j :: 0 <= i < j < |entries| ==> !SameEnglish(entries[i].english, entries[j].english)
  }

  /** Adding only what `CheckAdd` accepts keeps the English words of the
      list distinct. */
  lemma AddKeepsEnglishDistinct(entries: seq<VocabEntry>, id: string, slovakInput: string, englishInput: string)
    requires DistinctEnglish(entries)
    requires CheckAdd(entries, slovakInput, englishInput).Accepted?
    ensures
      var r := CheckAdd(entries, slovakInput, englishInput);
      DistinctEnglish(entries + [NewEntry(id, r.slovak, r.english)])
  {
    var r := CheckAdd(entries, slovakInput, englishInput);
    var s := entries + [NewEntry(id, r.slovak, r.english)];
    TrimIdempotent(englishInput);
    forall i, j | 0 <= i < j < |s| ensures !SameEnglish(s[i].english, s[j].english) {
      if j == |entries| {
        assert SameEnglish(s[i].english, s[j].english) == SameEnglish(entries[i].english, englishInput);
      }
    }
  }

  /** The record `handleMoveToLearning` writes: status LEARNING and
      `lastReviewed` set to now, everything else kept. */
  function ToLearning(word: VocabEntry, now: int): (r: VocabEntry)
    ensures r.status == LEARNING && r.lastReviewed == Some(now)
    ensures r.(status := word.status, lastReviewed := word.lastReviewed) == word
  {
    word.(status := LEARNING, lastReviewed := Some(now))
  }

  /** Below the cap, moving any word into learning leaves at most
      `LearningCap` LEARNING entries. */
  lemma MoveKeepsCap(entries: seq<VocabEntry>, word: VocabEntry, now: int)
    requires UniqueIds(entries)
    requires |FilterStatus(entries, LEARNING)| < LearningCap
    ensures |FilterStatus(ReplaceById(entries, ToLearning(word, now)), LEARNING)| <= LearningCap
  {
    var i := FindIndex(entries, word.id);
    if i == -1 {
      ReplaceByIdUnknown(entries, ToLearning(word, now));
    } else {
      StatusCountAfterReplace(entries, i, ToLearning(word, now), LEARNING);
    }
  }

  /** Moving a NEW word adds exactly one LEARNING entry and removes it from
      the NEW ones. */
  lemma MoveCountsNewWord(entries: seq<VocabEntry>, i: nat, now: int)
    requires UniqueIds(entries) && i < |entries| && entries[i].status == NEW
    ensures |FilterStatus(ReplaceById(entries, ToLearning(entries[i], now)), LEARNING)|
      == |FilterStatus(entries, LEARNING)| + 1
    ensures |FilterStatus(ReplaceById(entries, ToLearning(entries[i], now)), NEW)|
      == |FilterStatus(entries, NEW)| - 1
  {
    StatusCountAfterReplace(entries, i, ToLearning(entries[i], now), LEARNING);
    StatusCountAfterReplace(entries, i, ToLearning(entries[i], now), NEW);
  }

  /** The record `saveEdit` writes: the original with the two texts
      replaced. */
  function Edited(original: VocabEntry, slovak: string, english: string): (r: VocabEntry)
    ensures r.slovak == slovak && r.english == english
    ensures r.(slovak := original.slovak, english := original.english) == original
  {
    original.(slovak := slovak, english := english)
  }

  /** `if (!editingId) return`: no id, or the empty id, which is falsy. */
  predicate IsEditing(editingId: Option<string>) {
    editingId.Some? && editingId.value != []
  }

  /** The write `saveEdit` makes once both fields are filled: the NEW
      word holding `id`, if any, gets the two texts. */
  function EditNewWord(entries: seq<VocabEntry>, id: string, slovak: string, english: string): seq<VocabEntry> {
    match FindFirst(FilterStatus(entries, NEW), id)
    case None => entries
    case Some(original) => ReplaceById(entries, Edited(original, slovak, english))
  }

  /** The entry list after `saveEdit`: nothing happens without an edited
      id or with a blank field; otherwise the edit is written with the
      trimmed texts. */
  function SaveEditResult(entries: seq<VocabEntry>, editingId: Option<string>, editSlovak: string, editEnglish: string): seq<VocabEntry> {
    if !IsEditing(editingId) || Trim(editSlovak) == [] || Trim(editEnglish) == [] then entries
    else EditNewWord(entries, editingId.value, Trim(editSlovak), Trim(editEnglish))
  }

  /** With unique ids, editing the NEW word at `i` replaces its two texts
      and changes nothing else. */
  lemma EditNewWordExact(entries: seq<VocabEntry>, i: nat, slovak: string, english: string)
    requires UniqueIds(entries) && i < |entries| && entries[i].status == NEW
    ensures EditNewWord(entries, entries[i].id, slovak, english)
      == entries[i := entries[i].(slovak := slovak, english := english)]
  {
    var id := entries[i].id;
    var newWords := FilterStatus(entries, NEW);
    FilterStatusSpec(entries, NEW);
    var found := FindFirst(newWords, id);
    assert entries[i] in newWords;
    assert found.Some?;
    var j :| 0 <= j < |entries| && entries[j] == found.value;
    assert found.value == entries[i];
    ReplaceByIdAt(entries, i, Edited(entries[i], slovak, english));
  }

  /** Only NEW words are edited: when no NEW word holds the id, nothing is
      written. */
  lemma EditOnlyNewWords(entries: seq<VocabEntry>, id: string, slovak: string, english: string)
    requires forall i :: 0 <= i < |entries| && entries[i].id == id ==> entries[i].status != NEW
    ensures EditNewWord(entries, id, slovak, english) == entries
  {
    var newWords := FilterStatus(entries, NEW);
    FilterStatusSpec(entries, NEW);
    forall k | 0 <= k < |newWords| ensures newWords[k].id != id {
      assert newWords[k] in entries;
    }
  }

  /** With unique ids, an edit keeps every id and every status, so it
      never moves a word between screens. */
  lemma EditKeepsIdsAndStatus(entries: seq<VocabEntry>, id: string, slovak: string, english: string)
    requires UniqueIds(entries)
    ensures |EditNewWord(entries, id, slovak, english)| == |entries|
    ensures UniqueIds(EditNewWord(entries, id, slovak, english))
    ensures forall i :: 0 <= i < |entries| ==>
      && EditNewWord(entries, id, slovak, english)[i].id == entries[i].id
      && EditNewWord(entries, id, slovak, english)[i].status == entries[i].status
  {
    var found := FindFirst(FilterStatus(entries, NEW), id);
    if found.Some? {
      FilterStatusSpec(entries, NEW);
      var entry := Edited(found.value, slovak, english);
      var j :| 0 <= j < |entries| && entries[j] == found.value;
      ReplaceByIdAt(entries, j, entry);
      ReplaceByIdKeepsIds(entries, entry);
    }
  }

  /** The screen's own state next to the provider's list. */
  class NewWords {
    const store: VocabStore
    var slovakInput: string
    var englishInput: string
    var formError: Option<AddError>
    /** The error toast shown when the learning cap is reached. */
    var capReached: bool
    var editingId: Option<string>
    var editSlovak: string
    var editEnglish: string

    constructor (store: VocabStore)
      ensures this.store == store
      ensures slovakInput == [] && englishInput == [] && formError.None? && !capReached
      ensures editingId.None? && editSlovak == [] && editEnglish == []
    {
      this.store := store;
      slovakInput := [];
      englishInput := [];
      formError := None;
      capReached := false;
      editingId := None;
      editSlovak := [];
      editEnglish := [];
    }

    /** `handleAdd`, where `id` is the identifier the provider draws for
        the new record: a rejected pair shows its error and writes nothing;
        an accepted one is added trimmed and the form is cleared. */
    method HandleAdd(id: string)
      modifies this, store
      ensures var r := CheckAdd(old(store.entries), old(slovakInput), old(englishInput));
        && !capReached
        && (r.Rejected? ==>
          formError == Some(r.error) && store.entries == old(store.entries)
          && slovakInput == old(slovakInput) && englishInput == old(englishInput))
        && (r.Accepted? ==>
          formError.None? && store.entries == old(store.entries) + [NewEntry(id, r.slovak, r.english)]
          && slovakInput == [] && englishInput == [])
      ensures editingId == old(editingId) && editSlovak == old(editSlovak) && editEnglish == old(editEnglish)
      ensures UniqueIds(old(store.entries)) && (forall i :: 0 <= i < |old(store.entries)| ==> old(store.entries)[i].id != id)
        ==> UniqueIds(store.entries)
    {
      formError := None;
      capReached := false;
      var check := CheckAdd(store.entries, slovakInput, englishInput);
      match check
      case Rejected(error) =>
        formError := Some(error);
      case Accepted(slovak, english) =>
        Commit(id, slovak, english);
    }

    /** The write of an accepted pair: the record is added and the form
        cleared. */
    method Commit(id: string, slovak: string, english: string)
      modifies this, store
      ensures store.entries == old(store.entries) + [NewEntry(id, slovak, english)]
      ensures slovakInput == [] && englishInput == []
      ensures formError == old(formError) && capReached == old(capReached)
      ensures editingId == old(editingId) && editSlovak == old(editSlovak) && editEnglish == old(editEnglish)
      ensures UniqueIds(old(store.entries)) && (forall i :: 0 <= i < |old(store.entries)| ==> old(store.entries)[i].id != id)
        ==> UniqueIds(store.entries)
    {
      var _ := store.AddEntry(id, slovak, english);
      slovakInput := [];
      englishInput := [];
    }

    /** `handleMoveToLearning` at time `now`: refused with the cap message
        when `LearningCap` words are already LEARNING, otherwise the word
        is written back as LEARNING. Below the cap before, at most at the
        cap after. */
    method HandleMoveToLearning(word: VocabEntry, now: int)
      modifies this, store
      ensures capReached <==> |FilterStatus(old(store.entries), LEARNING)| >= LearningCap
      ensures capReached ==> store.entries == old(store.entries)
      ensures !capReached ==> store.entries == ReplaceById(old(store.entries), ToLearning(word, now))
      ensures UniqueIds(old(store.entries)) && |FilterStatus(old(store.entries), LEARNING)| <= LearningCap
        ==> UniqueIds(store.entries) && |FilterStatus(store.entries, LEARNING)| <= LearningCap
      ensures slovakInput == old(slovakInput) && englishInput == old(englishInput) && formError == old(formError)
      ensures editingId == old(editingId) && editSlovak == old(editSlovak) && editEnglish == old(editEnglish)
    {
      capReached := false;
      var learningCount := |store.GetEntriesByStatus(LEARNING)|;
      if learningCount >= LearningCap {
        capReached := true;
        return;
      }
      if UniqueIds(store.entries) {
        MoveKeepsCap(store.entries, word, now);
        ReplaceByIdKeepsIds(store.entries, ToLearning(word, now));
      }
      store.UpdateEntry(ToLearning(word, now));
    }

    /** `handleDelete` */
    method HandleDelete(id: string)
      modifies store
      ensures store.entries == RemoveId(old(store.entries), id)
    {
      store.DeleteEntry(id);
    }

    /** `startEditing`: the form is filled from the word. */
    method StartEditing(word: VocabEntry)
      modifies this
      ensures editingId == Some(word.id) && editSlovak == word.slovak && editEnglish == word.english
      ensures slovakInput == old(slovakInput) && englishInput == old(englishInput)
      ensures formError == old(formError) && capReached == old(capReached)
    {
      editingId := Some(word.id);
      editSlovak := word.slovak;
      editEnglish := word.english;
    }

    /** `cancelEditing` */
    method CancelEditing()
      modifies this
      ensures editingId.None? && editSlovak == [] && editEnglish == []
      ensures slovakInput == old(slovakInput) && englishInput == old(englishInput)
      ensures formError == old(formError) && capReached == old(capReached)
    {
      editingId := None;
      editSlovak := [];
      editEnglish := [];
    }

    /** Typing into the add form: the two inputs' `onChange`. */
    method TypeAdd(slovak: string, english: string)
      modifies this
      ensures slovakInput == slovak && englishInput == english
      ensures formError == old(formError) && capReached == old(capReached)
      ensures editingId == old(editingId) && editSlovak == old(editSlovak) && editEnglish == old(editEnglish)
    {
      slovakInput := slovak;
      englishInput := english;
    }

    /** Typing into the edit form. */
    method TypeEdit(slovak: string, english: string)
      modifies this
      ensures editSlovak == slovak && editEnglish == english && editingId == old(editingId)
      ensures slovakInput == old(slovakInput) && englishInput == old(englishInput)
      ensures formError == old(formError) && capReached == old(capReached)
    {
      editSlovak := slovak;
      editEnglish := english;
    }

    /** `saveEdit`: the list becomes `SaveEditResult`; the form stays open
        when there is no edited id or a field is blank (the alert case),
        and is closed otherwise, whether or not a NEW word held the id. */
    method SaveEdit()
      modifies this, store
      ensures store.entries == SaveEditResult(old(store.entries), old(editingId), old(editSlovak), old(editEnglish))
      ensures !IsEditing(old(editingId)) || Trim(old(editSlovak)) == [] || Trim(old(editEnglish)) == [] ==>
        editingId == old(editingId) && editSlovak == old(editSlovak) && editEnglish == old(editEnglish)
      ensures IsEditing(old(editingId)) && Trim(old(editSlovak)) != [] && Trim(old(editEnglish)) != [] ==>
        editingId.None? && editSlovak == [] && editEnglish == []
      ensures slovakInput == old(slovakInput) && englishInput == old(englishInput)
      ensures formError == old(formError) && capReached == old(capReached)
    {
      if !IsEditing(editingId) {
        return;
      }
      if Trim(editSlovak) == [] || Trim(editEnglish) == [] {
        return;
      }
      WriteEdit(editingId.value, Trim(editSlovak), Trim(editEnglish));
    }

    /** The part of `saveEdit` after the checks: the NEW word holding `id`
        is written with the texts, and the form is closed. */
    method WriteEdit(id: string, slovak: string, english: string)
      modifies this, store
      ensures store.entries == EditNewWord(old(store.entries), id, slovak, english)
      ensures editingId.None? && editSlovak == [] && editEnglish == []
      ensures slovakInput == old(slovakInput) && englishInput == old(englishInput)
      ensures formError == old(formError) && capReached == old(capReached)
    {
      var newWords := store.GetEntriesByStatus(NEW);
      var original := FindFirst(newWords, id);
      if original.Some? {
        store.UpdateEntry(Edited(original.value, slovak, english));
      }
      CancelEditing();
    }
  }
}
