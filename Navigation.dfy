/** The quiz session: the position in the bank, the answers given so far and
    whether the results are showing, with the five handlers that change them.
    Everything shown (progress, scores, type, splits) is a function of this
    state, from module Scoring. */
module Navigation {
  import opened QuizData
  import opened Scoring

  class Quiz {
    /** The static question bank. */
    const bank: seq<Question>
    /** The position of the question on screen while answering. */
    var currentIndex: int
    /** Question id to the value of the option picked. */
    var responses: Responses
    /** Whether the results panel replaces the question card. */
    var showResults: bool

    /** The session invariant: the bank is usable, the position is inside it,
        and every answer is keyed by a question of the bank. */
    ghost predicate Valid()
      reads this
    {
      && ValidBank(bank)
      && 0 <= currentIndex < |bank|
      && responses.Keys <= Ids(bank)
    }

    /** A fresh session: first question, no answers, results hidden. */
    constructor (bank: seq<Question>)
      requires ValidBank(bank)
      ensures Valid()
      ensures this.bank == bank && currentIndex == 0 && responses == map[] && !showResults
    {
      this.bank := bank;
      currentIndex := 0;
      responses := map[];
      showResults := false;
    }

    /** The question on screen: none while the results show, otherwise the
        question at the current position, which the invariant keeps inside the
        bank. */
    function CurrentQuestion(): (q: Option<Question>)
      reads this
      requires Valid()
      ensures q.Some? <==> !showResults
      ensures q.Some? ==> q.value == bank[currentIndex]
      ensures q.Some? ==> q.value in bank && q.value.id in Ids(bank)
    {
      if showResults then None else Some(bank[currentIndex])
    }

    /** The answer already recorded for the question on screen, if any. */
    function SelectedValue(): (v: Option<Choice>)
      reads this
      requires Valid()
      ensures v.Some? <==> CurrentQuestion().Some? && CurrentQuestion().value.id in responses
      ensures v.Some? ==> v.value == responses[CurrentQuestion().value.id]
    {
      match CurrentQuestion()
      case None => None
      case Some(q) => if q.id in responses then Some(responses[q.id]) else None
    }

    /** The progress percentage of this session. Since every answer belongs to a
        question of the bank, the cap at 100 never acts: the value is the
        answered share rounded half up. */
    function SessionProgress(): (p: nat)
      reads this
      requires Valid()
      ensures p <= 100
      ensures |bank| * (2 * p - 1) <= 200 * |responses| < |bank| * (2 * p + 1)
      ensures responses == map[] ==> p == 0
      ensures (forall q | q in bank :: q.id in responses) ==> p == 100
    {
      AnswerCountMeansComplete(bank, responses);
      Progress(|responses|, |bank|)
    }

    /** Records option `v` for question `q`, over any earlier answer to it;
        position and results flag stay. The tally then counts `v` for `q` and
        nothing else for `q`; selecting the value already recorded changes
        nothing. */
    method Select(q: Question, v: Choice)
      requires Valid()
      requires q in bank
      modifies this
      ensures Valid()
      ensures responses == old(responses)[q.id := v]
      ensures currentIndex == old(currentIndex) && showResults == old(showResults)
      ensures q.id in old(responses) && old(responses)[q.id] == v ==> responses == old(responses)
      ensures old(CurrentQuestion()) == Some(q) ==> SelectedValue() == Some(v)
      ensures forall l :: (Scores(bank, responses).Count(l)
        == Scores(bank, old(responses) - {q.id}).Count(l) + (if LetterFor(q.dimension, v) == l then 1 else 0))
    {
      responses := responses[q.id := v];
      forall l ensures Scores(bank, responses).Count(l)
        == Scores(bank, old(responses) - {q.id}).Count(l) + (if LetterFor(q.dimension, v) == l then 1 else 0)
      {
        SelectReflectsLatest(bank, old(responses), q, v, l);
      }
    }

    /** Continue: on the last question, show the results and stay; otherwise
        move one question on. Answers are untouched. */
    method Next()
      requires Valid()
      modifies this
      ensures Valid()
      ensures responses == old(responses)
      ensures old(currentIndex) == |bank| - 1 ==> showResults && currentIndex == old(currentIndex)
      ensures old(currentIndex) != |bank| - 1 ==>
        currentIndex == old(currentIndex) + 1 && showResults == old(showResults)
    {
      if currentIndex == |bank| - 1 {
        showResults := true;
        return;
      }
      currentIndex := if currentIndex + 1 < |bank| - 1 then currentIndex + 1 else |bank| - 1;
    }

    /** Back: one question back, staying on the first one. Answers and the
        results flag are untouched. */
    method Back()
      requires Valid()
      modifies this
      ensures Valid()
      ensures responses == old(responses) && showResults == old(showResults)
      ensures old(currentIndex) == 0 ==> currentIndex == 0
      ensures old(currentIndex) > 0 ==> currentIndex == old(currentIndex) - 1
    {
      currentIndex := if currentIndex - 1 > 0 then currentIndex - 1 else 0;
    }

    /** Jump to question `index` (from the question list, the skip link or the
        return button, all of which pass a position in the bank), leaving the
        results if they were showing. Answers are untouched. */
    method Navigate(index: int)
      requires Valid()
      requires 0 <= index < |bank|
      modifies this
      ensures Valid()
      ensures responses == old(responses)
      ensures currentIndex == index && !showResults
    {
      showResults := false;
      currentIndex := index;
    }

    /** Start over: no answers, first question, results hidden; the type is then
        absent, the progress is 0 and every count is 0. */
    method Reset()
      requires Valid()
      modifies this
      ensures Valid()
      ensures responses == map[] && currentIndex == 0 && !showResults
      ensures PersonalityType(bank, responses) == None
      ensures Progress(|responses|, |bank|) == 0
      ensures Scores(bank, responses) == ZERO_TALLY
    {
      responses := map[];
      currentIndex := 0;
      showResults := false;
      assert |responses| == 0;
      NoAnswers(bank, E, I);
    }
  }
}
