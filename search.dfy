/** The search box every word list has (screens/NewWordsScreen.tsx,
    screens/LearningScreen.tsx, screens/LearnedScreen.tsx): a word stays
    when the lower-cased query occurs in its lower-cased Slovak or English
    text. */
module Search {
  import opened Types
  import opened Text
  import opened Seqs
  import opened EntryLists

  /** `word.slovak.toLowerCase().includes(q.toLowerCase()) ||
      word.english.toLowerCase().includes(q.toLowerCase())` */
  predicate Matches(query: string, word: VocabEntry) {
    Includes(Lower(word.slovak), Lower(query)) || Includes(Lower(word.english), Lower(query))
  }

  function MatchesQuery(query: string): VocabEntry -> bool {
    w => Matches(query, w)
  }

  /** `words.filter(...)`, the list a screen shows. */
  function SearchFilter(words: seq<VocabEntry>, query: string): seq<VocabEntry> {
    Filter(words, MatchesQuery(query))
  }

  /** A word is shown exactly when it matches, as often as it is listed,
      and the shown words keep the list's order. */
  lemma SearchFilterSpec(words: seq<VocabEntry>, query: string)
    ensures forall i :: 0 <= i < |SearchFilter(words, query)| ==> Matches(query, SearchFilter(words, query)[i])
    ensures forall i :: 0 <= i < |words| && Matches(query, words[i]) ==> words[i] in SearchFilter(words, query)
    ensures forall w :: w in SearchFilter(words, query) ==> w in words
    ensures IsSubsequence(SearchFilter(words, query), words)
    ensures forall w :: multiset(SearchFilter(words, query))[w] == if Matches(query, w) then multiset(words)[w] else 0
  {
    FilterIsSubsequence(words, MatchesQuery(query));
    FilterCounts(words, MatchesQuery(query));
  }

  /** A match is an occurrence of the lower-cased query at some offset of
      one of the two lower-cased texts. */
  lemma MatchesOccurrence(query: string, word: VocabEntry)
    ensures Matches(query, word) <==>
      (exists k: nat :: OccursAt(Lower(word.slovak), Lower(query), k))
      || (exists k: nat :: OccursAt(Lower(word.english), Lower(query), k))
  {
    IncludesAt(Lower(word.slovak), Lower(query));
    IncludesAt(Lower(word.english), Lower(query));
  }

  /** The empty query, the box's initial state, shows the whole list. */
  lemma {:induction false} EmptyQueryKeepsAll(words: seq<VocabEntry>)
    ensures SearchFilter(words, []) == words
  {
    forall i | 0 <= i < |words| ensures MatchesQuery([])(words[i]) {
      assert [] <= Lower(words[i].slovak);
    }
    FilterAll(words, MatchesQuery([]));
  }

  /** Letter case in the query does not matter. */
  lemma QueryCaseInsensitive(words: seq<VocabEntry>, query: string)
    ensures SearchFilter(words, Lower(query)) == SearchFilter(words, query)
  {
    LowerIdempotent(query);
    FilterAgree(words, MatchesQuery(Lower(query)), MatchesQuery(query));
  }

  /** What a screen lists: the words of its status that match, each of
      them an entry of that status, in the order of that status's list. */
  lemma ScreenListSpec(entries: seq<VocabEntry>, status: VocabStatus, query: string)
    ensures forall i :: 0 <= i < |SearchFilter(FilterStatus(entries, status), query)| ==>
      var w := SearchFilter(FilterStatus(entries, status), query)[i];
      w.status == status && w in entries && Matches(query, w)
    ensures forall i :: 0 <= i < |entries| && entries[i].status == status && Matches(query, entries[i]) ==>
      entries[i] in SearchFilter(FilterStatus(entries, status), query)
    ensures IsSubsequence(SearchFilter(FilterStatus(entries, status), query), FilterStatus(entries, status))
  {
    FilterStatusSpec(entries, status);
    SearchFilterSpec(FilterStatus(entries, status), query);
  }
}
