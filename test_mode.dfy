/** The typing quiz (components/TestMode.tsx): the words in shuffled
    order, one answer per word, a running tally, and a call to
    `onRecordResult` for every accepted answer. */
module TestMode {
  import opened Types
  import opened Text

  /** `cleanInput === cleanAnswer`: equal after trimming and lower-casing. */
  predicate IsCorrectAnswer(input: string, answer: string) {
    Lower(Trim(input)) == Lower(Trim(answer))
  }

  /** The expected answer itself is always accepted, and the check does not
      depend on which side is which. */
  lemma AnswerReflexiveSymmetric(a: string, b: string)
    ensures IsCorrectAnswer(a, a)
    ensures IsCorrectAnswer(a, b) <==> IsCorrectAnswer(b, a)
  {
  }

  /** Surrounding white space and letter case in the typed answer never
      change the verdict: it is the same as for the cleaned input. */
  lemma AnswerIgnoresCaseAndSpace(input: string, answer: string)
    ensures IsCorrectAnswer(input, answer) <==> IsCorrectAnswer(Trim(Lower(input)), answer)
  {
    var clean := Trim(Lower(input));
    LowerTrimCommute(input);
    LowerTrimCommute(clean);
    TrimIdempotent(Lower(input));
    LowerIdempotent(Trim(input));
    assert Lower(Trim(clean)) == Lower(Trim(input));
  }

  /** Two inputs that clean up to the same text get the same verdict. */
  lemma AnswerCongruence(a: string, b: string, answer: string)
    requires Lower(Trim(a)) == Lower(Trim(b))
    ensures IsCorrectAnswer(a, answer) <==> IsCorrectAnswer(b, answer)
  {
  }

  datatype Feedback = Correct | Wrong

  function Verdict(isCorrect: bool): Feedback {
    if isCorrect then Correct else Wrong
  }

  /** The number of correct results among the recorded ones. */
  function CountCorrect(results: seq<(string, bool)>): (n: nat)
    ensures n <= |results|
  {
    if results == [] then 0
    else CountCorrect(results[..|results| - 1]) + (if results[|results| - 1].1 then 1 else 0)
  }

  class Quiz {
    /** The words handed to the quiz. */
    ghost const words: seq<VocabEntry>
    /** `queue`: the words in the order they are asked, fixed at start. */
    const queue: seq<VocabEntry>
    var currentIndex: nat
    var input: string
    var feedback: Option<Feedback>
    var correct: nat
    var wrong: nat
    var isFinished: bool
    /** The `onRecordResult(id, isCorrect)` calls made so far. */
    ghost var recorded: seq<(string, bool)>

    /** The quiz's invariant: the queue is a reordering of the words; with
        an empty queue nothing happens at all; otherwise the index stays in
        the queue, one result is recorded for every word up to the current
        one once it is answered, in queue order, the tally counts them, and
        the feedback shown is the verdict of the last result. */
    ghost predicate Valid()
      reads this
    {
      && multiset(queue) == multiset(words)
      && (|queue| == 0 ==> currentIndex == 0 && recorded == [] && feedback.None? && !isFinished)
      && (|queue| > 0 ==> currentIndex < |queue|)
      && |recorded| == currentIndex + (if feedback.Some? || isFinished then 1 else 0)
      && (forall i :: 0 <= i < |recorded| && i < |queue| ==> recorded[i].0 == queue[i].id)
      && |recorded| <= |queue|
      && correct == CountCorrect(recorded)
      && correct + wrong == |recorded|
      && (isFinished ==> feedback.None? && currentIndex == |queue| - 1)
      && (feedback.Some? ==> feedback.value == Verdict(recorded[currentIndex].1))
    }

    /** Mounting the quiz: `shuffled` is `[...words].sort(random)`, any
        reordering of the words. */
    constructor (words: seq<VocabEntry>, shuffled: seq<VocabEntry>)
      requires multiset(shuffled) == multiset(words)
      ensures Valid()
      ensures this.words == words && queue == shuffled
      ensures currentIndex == 0 && input == [] && feedback.None? && correct == 0 && wrong == 0 && !isFinished
      ensures recorded == []
    {
      this.words := words;
      queue := shuffled;
      currentIndex := 0;
      input := [];
      feedback := None;
      correct := 0;
      wrong := 0;
      isFinished := false;
      recorded := [];
    }

    /** Typing into the answer field. */
    method Type(text: string)
      requires Valid()
      modifies this
      ensures Valid()
      ensures input == text
      ensures currentIndex == old(currentIndex) && feedback == old(feedback) && correct == old(correct)
      ensures wrong == old(wrong) && isFinished == old(isFinished) && recorded == old(recorded)
    {
      input := text;
    }

    /** The state changes of an accepted answer: the verdict is shown, one
        tally grows, and the result for the current word is recorded. */
    method Accept(isCorrect: bool) returns (call: Option<(string, bool)>)
      requires Valid() && feedback.None? && |queue| > 0 && !isFinished
      modifies this
      ensures Valid()
      ensures input == old(input) && currentIndex == old(currentIndex) && isFinished == old(isFinished)
      ensures call == Some((queue[currentIndex].id, isCorrect))
      ensures feedback == Some(Verdict(isCorrect))
      ensures correct == old(correct) + (if isCorrect then 1 else 0)
      ensures wrong == old(wrong) + (if isCorrect then 0 else 1)
      ensures recorded == old(recorded) + [(queue[currentIndex].id, isCorrect)]
    {
      var currentWord := queue[currentIndex];
      ghost var before := recorded;
      feedback := Some(Verdict(isCorrect));
      correct := correct + (if isCorrect then 1 else 0);
      wrong := wrong + (if isCorrect then 0 else 1);
      recorded := recorded + [(currentWord.id, isCorrect)];
      assert recorded[..|recorded| - 1] == before;
      call := Some((currentWord.id, isCorrect));
    }

    /** `handleSubmit`, reachable only while a question is shown (a
        non-empty queue, not finished) and the submit button is enabled
        (the trimmed input is not empty). Returns the `onRecordResult`
        call it makes, if any. */
    method Submit() returns (call: Option<(string, bool)>)
      requires Valid()
      modifies this
      ensures Valid()
      ensures input == old(input) && currentIndex == old(currentIndex) && isFinished == old(isFinished)
      ensures old(feedback).Some? || |queue| == 0 || old(isFinished) || Trim(old(input)) == [] ==>
        call.None? && feedback == old(feedback) && correct == old(correct) && wrong == old(wrong)
        && recorded == old(recorded)
      ensures !(old(feedback).Some? || |queue| == 0 || old(isFinished) || Trim(old(input)) == []) ==>
        var isCorrect := IsCorrectAnswer(old(input), queue[currentIndex].english);
        && call == Some((queue[currentIndex].id, isCorrect))
        && feedback == Some(Verdict(isCorrect))
        && correct == old(correct) + (if isCorrect then 1 else 0)
        && wrong == old(wrong) + (if isCorrect then 0 else 1)
        && recorded == old(recorded) + [(queue[currentIndex].id, isCorrect)]
    {
      if feedback.Some? || |queue| == 0 || isFinished || Trim(input) == [] {
        return None;
      }
      var currentWord := queue[currentIndex];
      var cleanInput := Lower(Trim(input));
      var cleanAnswer := Lower(Trim(currentWord.english));
      call := Accept(cleanInput == cleanAnswer);
    }

    /** `handleNext`, reachable only through the continue button, which is
        shown while feedback is set: clears the input and the feedback and
        moves on, or finishes after the last word. */
    method Next()
      requires Valid()
      modifies this
      ensures Valid()
      ensures correct == old(correct) && wrong == old(wrong) && recorded == old(recorded)
      ensures old(feedback).None? ==>
        input == old(input) && feedback.None? && currentIndex == old(currentIndex) && isFinished == old(isFinished)
      ensures old(feedback).Some? ==> input == [] && feedback.None?
      ensures old(feedback).Some? && old(currentIndex) < |queue| - 1 ==>
        currentIndex == old(currentIndex) + 1 && !isFinished
      ensures old(feedback).Some? && old(currentIndex) >= |queue| - 1 ==>
        currentIndex == old(currentIndex) && isFinished
    {
      if feedback.None? {
        return;
      }
      input := [];
      feedback := None;
      if currentIndex < |queue| - 1 {
        currentIndex := currentIndex + 1;
      } else {
        isFinished := true;
      }
    }
  }

  /** A finished quiz has recorded exactly one result per queued word, in
      queue order, and its tally adds up to the number of words. */
  lemma FinishedAnsweredAll(q: Quiz)
    requires q.Valid() && q.isFinished
    ensures |q.recorded| == |q.queue| == |q.words|
    ensures forall i :: 0 <= i < |q.queue| ==> q.recorded[i].0 == q.queue[i].id
    ensures q.correct + q.wrong == |q.queue|
  {
    assert |q.queue| == |multiset(q.queue)| == |multiset(q.words)| == |q.words|;
  }
}
