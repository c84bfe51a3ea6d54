/** The records of the flashcard application (types.ts). */
module Types {

  datatype Option<T> = None | Some(value: T)

  /** The three stages an entry moves through. */
  datatype VocabStatus = NEW | LEARNING | LEARNED

  /** One word pair. `slovak` is the front side, `english` the back side;
      `lastReviewed` is a millisecond timestamp. */
  datatype VocabEntry = VocabEntry(
    id: string,
    slovak: string,
    english: string,
    sentence: Option<string>,
    status: VocabStatus,
    correctCount: nat,
    wrongCount: nat,
    lastReviewed: Option<int>,
    isRevealed: bool)

  /** A named set of entries, stored under its own key. */
  datatype VocabCollection = VocabCollection(id: string, name: string, createdAt: int)

  /** Streak and activity counters; dates are `YYYY-MM-DD` keys. */
  datatype UserStats = UserStats(
    streak: nat,
    lastActiveDate: Option<string>,
    totalActions: nat,
    activityMap: map<string, nat>)
}
