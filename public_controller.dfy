/**
 * The anonymous-access pages: the pass page of a published survey and the
 * submission of a response to it. The per-question answer ingestion is not
 * written in the source, so a stored response carries no answers.
 */
module PublicController {
  import opened Wrappers
  import opened SurveyData
  import Linq
  import SurveyController
  import ResultsAggregation

  const SurveyUnavailableMessage := "Опрос не найден или не опубликован."

  /** The part of PassSurveyViewModel the source fills in. */
  datatype PassSurveyView = PassSurveyView(id: int, title: string, description: string, isAnonymous: bool)

  datatype ViewResult = ViewNotFound(message: string) | ViewPass(model: PassSurveyView)

  predicate IsVisible(s: Survey, id: int) {
    s.id == id && s.isPublished
  }

  /** FirstOrDefault(s => s.Id == id && s.IsPublished), as an index (|surveys| when there is none). */
  function IndexOfVisible(surveys: seq<Survey>, id: int): (k: nat)
    ensures k <= |surveys|
    ensures k < |surveys| ==> IsVisible(surveys[k], id)
    ensures forall j :: 0 <= j < k ==> !IsVisible(surveys[j], id)
  {
    Linq.FirstIndex(surveys, (s: Survey) => IsVisible(s, id))
  }

  function PassView(s: Survey): PassSurveyView {
    PassSurveyView(s.id, s.title, s.description, s.isAnonymous)
  }

  /**
   * ViewSurvey: NotFound unless some survey has this id and is published; otherwise
   * the pass page of that survey.
   */
  function ViewSurvey(surveys: seq<Survey>, id: int): (r: ViewResult)
    ensures r.ViewNotFound? <==> forall i :: 0 <= i < |surveys| ==> !IsVisible(surveys[i], id)
    ensures r.ViewNotFound? ==> r.message == SurveyUnavailableMessage
    ensures r.ViewPass? ==>
      exists i :: 0 <= i < |surveys| && IsVisible(surveys[i], id) && r.model == PassView(surveys[i])
  {
    var k := IndexOfVisible(surveys, id);
    if k == |surveys| then ViewNotFound(SurveyUnavailableMessage) else ViewPass(PassView(surveys[k]))
  }

  predicate DistinctIds(surveys: seq<Survey>) {
    forall i, j :: 0 <= i < j < |surveys| ==> surveys[i].id != surveys[j].id
  }

  /** With distinct ids the pass page and the submission use the same gate: the survey
      FindAsync returns exists and is published. */
  lemma ViewSurveyGate(surveys: seq<Survey>, id: int)
    requires DistinctIds(surveys)
    ensures var k := IndexOfSurvey(surveys, id);
      ViewSurvey(surveys, id).ViewPass? <==> k < |surveys| && surveys[k].isPublished
    ensures var k := IndexOfSurvey(surveys, id);
      ViewSurvey(surveys, id).ViewPass? ==> ViewSurvey(surveys, id).model == PassView(surveys[k])
  {
    var k := IndexOfSurvey(surveys, id);
    var v := IndexOfVisible(surveys, id);
    if v < |surveys| {
      assert id in SurveyIds(surveys);
      assert k == v;
    }
  }

  /** After Unpublish (or an admin toggle to false) the pass page of that survey is gone. */
  lemma UnpublishHides(surveys: seq<Survey>, k: nat)
    requires DistinctIds(surveys) && k < |surveys|
    ensures ViewSurvey(SurveyController.SetPublished(surveys, k, false), surveys[k].id).ViewNotFound?
  {
    var t := SurveyController.SetPublished(surveys, k, false);
    forall i | 0 <= i < |t| ensures !IsVisible(t[i], surveys[k].id) {
      if i != k {
        assert t[i] == surveys[i];
        assert surveys[i].id != surveys[k].id;
      }
    }
  }

  datatype SubmitResponseRequest = SubmitResponseRequest(surveyId: int)

  datatype SubmitResult = SubmitNotFound | SubmitThankYou

  /** The stored respondent: none for an anonymous survey, whatever the caller's claim; the claim otherwise. */
  function Respondent(s: Survey, callerId: Option<string>): (r: Option<string>)
    ensures s.isAnonymous ==> r == None
    ensures !s.isAnonymous ==> r == callerId
  {
    if s.isAnonymous then None else callerId
  }

  /**
   * SubmitResponse: NotFound, storing nothing, when the survey is missing or unpublished;
   * otherwise exactly one response is appended, for this survey, with the respondent rule
   * above and no answers.
   */
  method SubmitResponse(db: SurveyDb, model: SubmitResponseRequest, callerId: Option<string>, now: int)
    returns (r: SubmitResult)
    requires db.Valid()
    modifies db`responses, db`nextResponseId
    ensures db.Valid()
    ensures var k := IndexOfSurvey(db.surveys, model.surveyId);
      r == SubmitNotFound <==> k == |db.surveys| || !db.surveys[k].isPublished
    ensures r == SubmitNotFound ==> db.responses == old(db.responses) && db.nextResponseId == old(db.nextResponseId)
    ensures r == SubmitThankYou ==>
      var s := db.surveys[IndexOfSurvey(db.surveys, model.surveyId)];
      && db.responses == old(db.responses)
           + [SurveyResponse(old(db.nextResponseId), model.surveyId, now, Respondent(s, callerId), [])]
      && db.nextResponseId == old(db.nextResponseId) + 1
  {
    var k := IndexOfSurvey(db.surveys, model.surveyId);
    if k == |db.surveys| || !db.surveys[k].isPublished {
      return SubmitNotFound;
    }
    var entry := SurveyResponse(db.nextResponseId, model.surveyId, now, Respondent(db.surveys[k], callerId), []);
    db.responses := db.responses + [entry];
    db.nextResponseId := db.nextResponseId + 1;
    r := SubmitThankYou;
  }

  /** A submission adds no answer to any question's results. */
  lemma SubmissionAddsNoAnswers(responses: seq<SurveyResponse>, entry: SurveyResponse, questionId: int)
    requires entry.userAnswers == []
    ensures ResultsAggregation.AnswersFor(responses + [entry], questionId)
         == ResultsAggregation.AnswersFor(responses, questionId)
  {
    ResultsAggregation.AnswersForAppend(responses, entry, questionId);
    assert Linq.Filter(entry.userAnswers, (a: UserAnswer) => ResultsAggregation.AnswersQuestion(a, questionId)) == [];
  }

  /** A submission raises its survey's response total by one and leaves every other survey's total alone. */
  lemma SubmissionCounts(responses: seq<SurveyResponse>, entry: SurveyResponse, surveyId: int)
    ensures |ResultsAggregation.ResponsesOf(responses + [entry], surveyId)|
         == |ResultsAggregation.ResponsesOf(responses, surveyId)| + (if entry.surveyId == surveyId then 1 else 0)
  {
    Linq.FilterAppend(responses, [entry], (r: SurveyResponse) => r.surveyId == surveyId);
    assert [entry][1..] == [];
  }
}
