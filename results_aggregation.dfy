/**
 * The per-question results of a survey, as SurveyController.Results and the
 * results block of SurveyController.Edit compute them: the answers to each
 * question gathered from every response, the non-blank text answers of a
 * text question, a count per option of a choice or scale question (zeros
 * included), and the mean of the selected options' Order over the answers of
 * a scale question whose Order is positive. Averages are exact reals.
 */
module ResultsAggregation {
  import opened Wrappers
  import opened SurveyData
  import opened Text
  import Linq

  datatype QuestionResult = QuestionResult(
    questionId: int,
    text: string,
    questionType: QuestionType,
    optionCounts: map<int, int>,
    optionTexts: map<int, string>,
    textAnswers: seq<string>,
    averageScore: real)

  datatype SurveyResults = SurveyResults(
    surveyId: int,
    surveyTitle: string,
    totalResponses: nat,
    creationDate: int,
    questionResults: seq<QuestionResult>)

  predicate AnswersQuestion(a: UserAnswer, questionId: int) {
    a.questionId == questionId
  }

  /** `Responses.SelectMany(r => r.UserAnswers).Where(ua => ua.QuestionId == questionId)`:
      the answers to one question, response by response, in order. */
  function AnswersFor(responses: seq<SurveyResponse>, questionId: int): (r: seq<UserAnswer>)
    ensures forall i :: 0 <= i < |r| ==> r[i].questionId == questionId
    ensures forall i, j :: (0 <= i < |responses| && 0 <= j < |responses[i].userAnswers| && responses[i].userAnswers[j].questionId == questionId
      ==> responses[i].userAnswers[j] in r)
    ensures forall i :: 0 <= i < |r| ==> exists k :: 0 <= k < |responses| && r[i] in responses[k].userAnswers
  {
    if responses == [] then []
    else
      var here := Linq.Filter(responses[0].userAnswers, (a: UserAnswer) => AnswersQuestion(a, questionId));
      var rest := AnswersFor(responses[1..], questionId);
      assert forall i :: 0 <= i < |rest| ==> exists k :: 0 <= k < |responses| && rest[i] in responses[k].userAnswers by {
        forall i | 0 <= i < |rest| ensures exists k :: 0 <= k < |responses| && rest[i] in responses[k].userAnswers {
          var k :| 0 <= k < |responses[1..]| && rest[i] in responses[1..][k].userAnswers;
          assert responses[k + 1] == responses[1..][k];
        }
      }
      assert forall i, j :: (1 <= i < |responses| && 0 <= j < |responses[i].userAnswers| && responses[i].userAnswers[j].questionId == questionId
        ==> responses[i].userAnswers[j] in rest) by {
        forall i, j | 1 <= i < |responses| && 0 <= j < |responses[i].userAnswers| && responses[i].userAnswers[j].questionId == questionId
          ensures responses[i].userAnswers[j] in rest
        {
          assert responses[1..][i - 1] == responses[i];
        }
      }
      here + rest
  }

  /** A further response adds its own answers to the question, after the others. */
  lemma {:induction false} AnswersForAppend(responses: seq<SurveyResponse>, response: SurveyResponse, questionId: int)
    ensures AnswersFor(responses + [response], questionId)
         == AnswersFor(responses, questionId) + Linq.Filter(response.userAnswers, (a: UserAnswer) => AnswersQuestion(a, questionId))
  {
    if responses == [] {
      assert [response][1..] == [];
    } else {
      assert (responses + [response])[1..] == responses[1..] + [response];
      AnswersForAppend(responses[1..], response, questionId);
    }
  }

  // Text questions

  /** `!string.IsNullOrWhiteSpace(a.TextAnswer)`. */
  predicate HasText(a: UserAnswer) {
    a.textAnswer.Some? && !IsBlank(a.textAnswer.value)
  }

  /** `Where(a => !IsNullOrWhiteSpace(a.TextAnswer)).Select(a => a.TextAnswer)`. */
  function TextAnswers(answers: seq<UserAnswer>): (r: seq<string>)
    ensures |r| <= |answers|
    ensures forall i :: 0 <= i < |r| ==> !IsBlank(r[i])
  {
    if answers == [] then []
    else (if HasText(answers[0]) then [answers[0].textAnswer.value] else []) + TextAnswers(answers[1..])
  }

  lemma {:induction false} TextAnswersAppend(a: seq<UserAnswer>, b: seq<UserAnswer>)
    ensures TextAnswers(a + b) == TextAnswers(a) + TextAnswers(b)
  {
    if a == [] {
      assert a + b == b;
    } else {
      assert (a + b)[1..] == a[1..] + b;
      TextAnswersAppend(a[1..], b);
    }
  }

  predicate AnswersWith(a: UserAnswer, t: string) {
    a.textAnswer == Some(t)
  }

  /** Every non-blank text answer appears as often as it was given (duplicates kept);
      a blank one never appears. */
  lemma {:induction false} TextAnswersCount(answers: seq<UserAnswer>, t: string)
    ensures multiset(TextAnswers(answers))[t]
         == if IsBlank(t) then 0 else |Linq.Filter(answers, (a: UserAnswer) => AnswersWith(a, t))|
  {
    if answers != [] {
      TextAnswersCount(answers[1..], t);
      var head := if HasText(answers[0]) then [answers[0].textAnswer.value] else [];
      assert TextAnswers(answers) == head + TextAnswers(answers[1..]);
      assert multiset(TextAnswers(answers)) == multiset(head) + multiset(TextAnswers(answers[1..]));
    }
  }

  // Choice and scale questions

  predicate Selects(a: UserAnswer, optionId: int) {
    a.selectedOptionId == Some(optionId)
  }

  /** `answersForQuestion.Count(a => a.SelectedOptionId == optionId)`. */
  function CountSelecting(answers: seq<UserAnswer>, optionId: int): (n: nat)
    ensures n <= |answers|
  {
    |Linq.Filter(answers, (a: UserAnswer) => Selects(a, optionId))|
  }

  function OptionIds(options: seq<AnswerOption>): set<int> {
    set i | 0 <= i < |options| :: options[i].id
  }

  lemma OptionIdsSnoc(options: seq<AnswerOption>, i: int)
    requires 0 <= i < |options|
    ensures OptionIds(options[..i + 1]) == OptionIds(options[..i]) + {options[i].id}
  {
    assert forall j :: 0 <= j < i ==> options[..i + 1][j] == options[..i][j];
    assert options[..i + 1][i] == options[i];
  }

  /** The option at index `i` is the last one with its id (whose text a dictionary write keeps). */
  predicate LastWithId(options: seq<AnswerOption>, i: int)
    requires 0 <= i < |options|
  {
    LastBefore(options, i, |options|)
  }

  /** No option among those at `i + 1 .. n - 1` has the id of option `i`. */
  predicate LastBefore(options: seq<AnswerOption>, i: int, n: int)
    requires 0 <= i < n <= |options|
  {
    forall j :: i < j < n ==> options[j].id != options[i].id
  }

  /** After the first `n` options: every id has its count, and the text of the last option with it. */
  predicate TallyAgrees(counts: map<int, int>, texts: map<int, string>, options: seq<AnswerOption>, answers: seq<UserAnswer>, n: int)
    requires 0 <= n <= |options|
  {
    && counts.Keys == OptionIds(options[..n]) && texts.Keys == OptionIds(options[..n])
    && CountsAgree(counts, options, answers, n)
    && TextsAgree(texts, options, n)
  }

  predicate CountsAgree(counts: map<int, int>, options: seq<AnswerOption>, answers: seq<UserAnswer>, n: int)
    requires 0 <= n <= |options|
  {
    forall j :: 0 <= j < n ==> options[j].id in counts && counts[options[j].id] == CountSelecting(answers, options[j].id)
  }

  predicate TextsAgree(texts: map<int, string>, options: seq<AnswerOption>, n: int)
    requires 0 <= n <= |options|
  {
    forall j :: 0 <= j < n && LastBefore(options, j, n) ==> options[j].id in texts && texts[options[j].id] == options[j].text
  }

  lemma CountsStep(counts: map<int, int>, options: seq<AnswerOption>, answers: seq<UserAnswer>, n: int)
    requires 0 <= n < |options| && CountsAgree(counts, options, answers, n)
    ensures CountsAgree(counts[options[n].id := CountSelecting(answers, options[n].id)], options, answers, n + 1)
  {
  }

  lemma TextsStep(texts: map<int, string>, options: seq<AnswerOption>, n: int)
    requires 0 <= n < |options| && TextsAgree(texts, options, n)
    ensures TextsAgree(texts[options[n].id := options[n].text], options, n + 1)
  {
    var texts' := texts[options[n].id := options[n].text];
    forall j | 0 <= j < n + 1 && LastBefore(options, j, n + 1)
      ensures options[j].id in texts' && texts'[options[j].id] == options[j].text
    {
      if j < n {
        assert options[n].id != options[j].id;
        assert LastBefore(options, j, n);
      }
    }
  }

  /**
   * The option loop: `OptionTexts[option.Id] = option.Text` and
   * `OptionCounts[option.Id] = Count(...)` for every option of the question.
   */
  method TallyOptions(options: seq<AnswerOption>, answers: seq<UserAnswer>) returns (counts: map<int, int>, texts: map<int, string>)
    ensures counts.Keys == OptionIds(options) && texts.Keys == OptionIds(options)
    ensures forall i :: 0 <= i < |options| ==> counts[options[i].id] == CountSelecting(answers, options[i].id)
    ensures forall i :: 0 <= i < |options| && LastWithId(options, i) ==> texts[options[i].id] == options[i].text
  {
    counts, texts := map[], map[];
    var i := 0;
    while i < |options|
      invariant 0 <= i <= |options|
      invariant TallyAgrees(counts, texts, options, answers, i)
    {
      CountsStep(counts, options, answers, i);
      TextsStep(texts, options, i);
      OptionIdsSnoc(options, i);
      var option := options[i];
      texts := texts[option.id := option.text];
      counts := counts[option.id := CountSelecting(answers, option.id)];
      i := i + 1;
    }
    assert options[..i] == options;
  }

  /** The options of every question of every survey, in store order. */
  function AllOptions(surveys: seq<Survey>): seq<AnswerOption> {
    if surveys == [] then [] else QuestionOptions(surveys[0].questions) + AllOptions(surveys[1..])
  }

  function QuestionOptions(questions: seq<Question>): seq<AnswerOption> {
    if questions == [] then [] else questions[0].options + QuestionOptions(questions[1..])
  }

  /** The UserAnswer.SelectedOption navigation: the stored option with this id, if any. */
  function OptionById(surveys: seq<Survey>, id: int): (r: Option<AnswerOption>)
    ensures r.Some? ==> r.value.id == id
  {
    var all := AllOptions(surveys);
    var k := Linq.FirstIndex(all, (o: AnswerOption) => o.id == id);
    if k < |all| then Some(all[k]) else None
  }

  /** `a.SelectedOption?.Order ?? 0`. */
  function SelectedOrder(surveys: seq<Survey>, a: UserAnswer): int
    requires a.selectedOptionId.Some?
  {
    match OptionById(surveys, a.selectedOptionId.value)
    case Some(o) => o.order
    case None => 0
  }

  /** `Where(a => a.SelectedOptionId.HasValue).Select(a => a.SelectedOption?.Order ?? 0).Where(order => order > 0)`. */
  function ScaleScores(surveys: seq<Survey>, answers: seq<UserAnswer>): (r: seq<int>)
    ensures |r| <= |answers|
    ensures forall i :: 0 <= i < |r| ==> r[i] > 0
  {
    if answers == [] then []
    else
      var a := answers[0];
      var here := if a.selectedOptionId.Some? && SelectedOrder(surveys, a) > 0 then [SelectedOrder(surveys, a)] else [];
      here + ScaleScores(surveys, answers[1..])
  }

  function Sum(s: seq<int>): int {
    if s == [] then 0 else s[0] + Sum(s[1..])
  }

  /** `scaleAnswers.Average()` when there are scores, and the initial 0 otherwise. */
  function Average(s: seq<int>): real {
    if s == [] then 0.0 else Sum(s) as real / |s| as real
  }

  lemma {:induction false} SumBounds(s: seq<int>, lo: int, hi: int)
    requires forall i :: 0 <= i < |s| ==> lo <= s[i] <= hi
    ensures |s| * lo <= Sum(s) <= |s| * hi
  {
    if s != [] {
      SumBounds(s[1..], lo, hi);
    }
  }

  /** The mean lies between any bounds of the scores; in particular it is positive when there are scores. */
  lemma AverageBounds(s: seq<int>, lo: int, hi: int)
    requires s != []
    requires forall i :: 0 <= i < |s| ==> lo <= s[i] <= hi
    ensures lo as real <= Average(s) <= hi as real
  {
    SumBounds(s, lo, hi);
    QuotientBounds(Sum(s), |s|, lo, hi);
  }

  /** A quotient by a positive count lies between the bounds the count times them bounds the dividend by. */
  lemma QuotientBounds(total: int, n: int, lo: int, hi: int)
    requires 0 < n && n * lo <= total <= n * hi
    ensures lo as real <= total as real / n as real <= hi as real
  {
    var q := total as real / n as real;
    assert q * n as real == total as real;
    assert (n * lo) as real == n as real * lo as real;
    assert (n * hi) as real == n as real * hi as real;
  }

  /** What a QuestionResult holds for question `q`, given the answers to it. */
  predicate IsResultFor(r: QuestionResult, q: Question, answers: seq<UserAnswer>, surveys: seq<Survey>) {
    && r.questionId == q.id && r.text == q.text && r.questionType == q.questionType
    && (q.questionType in {ShortText, ParagraphText} ==>
          r.textAnswers == TextAnswers(answers) && r.optionCounts == map[] && r.optionTexts == map[] && r.averageScore == 0.0)
    && (q.questionType in {SingleChoice, MultipleChoice, Scale} ==>
          && r.textAnswers == []
          && r.optionCounts.Keys == OptionIds(q.options) && r.optionTexts.Keys == OptionIds(q.options)
          && (forall i :: 0 <= i < |q.options| ==> r.optionCounts[q.options[i].id] == CountSelecting(answers, q.options[i].id))
          && (forall i :: 0 <= i < |q.options| && LastWithId(q.options, i) ==> r.optionTexts[q.options[i].id] == q.options[i].text))
    && (q.questionType in {SingleChoice, MultipleChoice} ==> r.averageScore == 0.0)
    && (q.questionType == Scale ==> r.averageScore == Average(ScaleScores(surveys, answers)))
  }

  /** The body of the per-question loop of Results and Edit. */
  method AggregateQuestion(q: Question, answers: seq<UserAnswer>, surveys: seq<Survey>) returns (r: QuestionResult)
    ensures IsResultFor(r, q, answers, surveys)
  {
    r := QuestionResult(q.id, q.text, q.questionType, map[], map[], [], 0.0);
    if q.questionType == ShortText || q.questionType == ParagraphText {
      r := r.(textAnswers := TextAnswers(answers));
    } else if q.questionType == SingleChoice || q.questionType == MultipleChoice {
      var counts, texts := TallyOptions(q.options, answers);
      r := r.(optionCounts := counts, optionTexts := texts);
    } else {
      var scores := ScaleScores(surveys, answers);
      if scores != [] {
        r := r.(averageScore := Average(scores));
      }
      var counts, texts := TallyOptions(q.options, answers);
      r := r.(optionCounts := counts, optionTexts := texts);
    }
  }

  /**
   * The question loop: one result per question, in the order given, each
   * computed from the answers to that question in `responses`.
   */
  method AggregateQuestions(questions: seq<Question>, responses: seq<SurveyResponse>, surveys: seq<Survey>)
    returns (results: seq<QuestionResult>)
    ensures |results| == |questions|
    ensures forall i :: 0 <= i < |questions| ==> IsResultFor(results[i], questions[i], AnswersFor(responses, questions[i].id), surveys)
  {
    results := [];
    var i := 0;
    while i < |questions|
      invariant 0 <= i <= |questions| && |results| == i
      invariant forall j :: 0 <= j < i ==> IsResultFor(results[j], questions[j], AnswersFor(responses, questions[j].id), surveys)
    {
      var r := AggregateQuestion(questions[i], AnswersFor(responses, questions[i].id), surveys);
      results := results + [r];
      i := i + 1;
    }
  }

  /** The responses to survey `surveyId` (the Survey.Responses navigation), in store order. */
  function ResponsesOf(responses: seq<SurveyResponse>, surveyId: int): seq<SurveyResponse> {
    Linq.Filter(responses, (r: SurveyResponse) => r.surveyId == surveyId)
  }
}
