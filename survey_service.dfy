/**
 * SurveyService: saving a survey definition (create or update, with the
 * question and option reconcile), changing its publication status, the
 * "has at least one question" publishing check, and deletion. The
 * database is a SurveyDb; every successful call is one atomic commit.
 */
module SurveyService {
  import opened Wrappers
  import opened SurveyData
  import opened Reconcile
  import Linq

  /** The option loop of SaveSurveyAsync for one question. */
  method ReconcileOptionList(stored: seq<AnswerOption>, defs: Option<seq<OptionDefinition>>, nextId: int)
    returns (options: seq<AnswerOption>, next: int)
    ensures Reconciled(options, next) == ReconcileOptions(stored, defs, nextId)
  {
    if defs.None? {
      // A null Options list: every stored option is removed and the loop does not run.
      return [], nextId;
    }
    var ds := defs.value;
    var kept := KeptOptions(stored, ListedOptionIds(ds));
    ghost var start := OptionPass(kept, [], nextId);
    var added: seq<AnswerOption> := [];
    next := nextId;
    var i := 0;
    while i < |ds|
      invariant 0 <= i <= |ds|
      invariant OptionPass(kept, added, next) == OptionsAfter(start, ds[..i])
    {
      var d := ds[i];
      if d.id.Some? && d.id.value > 0 {
        var k := IndexOfOption(kept, d.id.value);
        if k < |kept| {
          kept := kept[k := kept[k].(text := d.text, order := d.order)];
        }
      } else {
        added := added + [AnswerOption(next, d.text, d.order, false)];
        next := next + 1;
      }
      assert ds[..i + 1][..i] == ds[..i];
      i := i + 1;
    }
    assert ds[..i] == ds;
    options := kept + added;
  }

  /** The question loop of SaveSurveyAsync, after the unlisted questions are removed. */
  method ReconcileQuestionList(stored: seq<Question>, defs: seq<QuestionDefinition>, nextQuestionId: int, nextOptionId: int)
    returns (questions: seq<Question>, nextQ: int, nextO: int)
    ensures var p := QuestionsAfter(QuestionPass(KeptQuestions(stored, ListedQuestionIds(defs)), [], nextQuestionId, nextOptionId), defs);
      questions == p.kept + p.added && nextQ == p.nextQuestionId && nextO == p.nextOptionId
  {
    var kept := KeptQuestions(stored, ListedQuestionIds(defs));
    ghost var start := QuestionPass(kept, [], nextQuestionId, nextOptionId);
    var added: seq<Question> := [];
    nextQ, nextO := nextQuestionId, nextOptionId;
    var i := 0;
    while i < |defs|
      invariant 0 <= i <= |defs|
      invariant QuestionPass(kept, added, nextQ, nextO) == QuestionsAfter(start, defs[..i])
    {
      var d := defs[i];
      if d.id.Some? && d.id.value > 0 {
        var k := IndexOfQuestion(kept, d.id.value);
        if k < |kept| {
          var q := kept[k];
          var options, next := ReconcileOptionList(q.options, d.options, nextO);
          kept := kept[k := Question(q.id, d.text, d.questionType, d.isRequired, d.order, options)];
          nextO := next;
        }
      } else {
        var options, next := ReconcileOptionList(NoStoredOptions, d.options, nextO);
        added := added + [Question(nextQ, d.text, d.questionType, d.isRequired, d.order, options)];
        nextQ := nextQ + 1;
        nextO := next;
      }
      assert defs[..i + 1][..i] == defs[..i];
      i := i + 1;
    }
    assert defs[..i] == defs;
    questions := kept + added;
  }

  lemma SurveysValidUpdate(surveys: seq<Survey>, k: nat, s: Survey, ns: int, nq: int, no: int, nq': int, no': int)
    requires SurveysValid(surveys, ns, nq, no) && k < |surveys|
    requires nq <= nq' && no <= no' && s.id == surveys[k].id
    requires QuestionsValid(s.questions, nq', no')
    ensures SurveysValid(surveys[k := s], ns, nq', no')
    ensures SurveyIds(surveys[k := s]) == SurveyIds(surveys)
  {
    var t := surveys[k := s];
    forall i | 0 <= i < |t| ensures QuestionsValid(t[i].questions, nq', no') {
      if i != k {
        var qs := t[i].questions;
        assert forall j :: 0 <= j < |qs| ==> OptionsValid(qs[j].options, no);
      }
    }
    forall x | x in SurveyIds(surveys) ensures x in SurveyIds(t) {
      var i :| 0 <= i < |surveys| && surveys[i].id == x;
      assert t[i].id == x;
    }
    forall x | x in SurveyIds(t) ensures x in SurveyIds(surveys) {
      var i :| 0 <= i < |t| && t[i].id == x;
      assert surveys[i].id == x;
    }
  }

  lemma SurveysValidAppend(surveys: seq<Survey>, s: Survey, ns: int, nq: int, no: int, nq': int, no': int)
    requires SurveysValid(surveys, ns, nq, no) && s.id == ns > 0
    requires nq <= nq' && no <= no' && QuestionsValid(s.questions, nq', no')
    ensures SurveysValid(surveys + [s], ns + 1, nq', no')
    ensures SurveyIds(surveys + [s]) == SurveyIds(surveys) + {s.id}
  {
    var t := surveys + [s];
    forall i | 0 <= i < |t| ensures QuestionsValid(t[i].questions, nq', no') {
      if i < |surveys| {
        var qs := t[i].questions;
        assert forall j :: 0 <= j < |qs| ==> OptionsValid(qs[j].options, no);
      }
    }
    forall x | x in SurveyIds(surveys) ensures x in SurveyIds(t) {
      var i :| 0 <= i < |surveys| && surveys[i].id == x;
      assert t[i].id == x;
    }
    assert t[|surveys|].id == s.id;
  }

  /**
   * SaveSurveyAsync. A positive definition id updates the survey with that id
   * owned by `userId`, and fails with UnauthorizedAccessException, changing
   * nothing, when there is none. Any other id creates a survey owned by
   * `userId`, created at `now`. The result is the survey's id.
   */
  method SaveSurvey(db: SurveyDb, def: SurveyDefinition, userId: string, now: int) returns (r: Result<int, string>)
    requires db.Valid()
    modifies db
    ensures db.Valid()
    ensures r.Failure? <==> RefersToStored(def.id) && IndexOfOwnedSurvey(old(db.surveys), def.id.value, userId) == |old(db.surveys)|
    ensures r.Failure? ==> unchanged(db)
    ensures r.Success? && RefersToStored(def.id) ==>
      var k := IndexOfOwnedSurvey(old(db.surveys), def.id.value, userId);
      var g := ApplyDefinition(old(db.surveys)[k], def, old(db.nextQuestionId), old(db.nextOptionId));
      && r.value == def.id.value
      && db.surveys == old(db.surveys)[k := g.survey]
      && db.nextSurveyId == old(db.nextSurveyId)
      && db.nextQuestionId == g.nextQuestionId && db.nextOptionId == g.nextOptionId
    ensures !RefersToStored(def.id) ==>
      var g := ApplyDefinition(NewSurvey(old(db.nextSurveyId), userId, now), def, old(db.nextQuestionId), old(db.nextOptionId));
      && r == Success(old(db.nextSurveyId))
      && db.surveys == old(db.surveys) + [g.survey]
      && db.nextSurveyId == old(db.nextSurveyId) + 1
      && db.nextQuestionId == g.nextQuestionId && db.nextOptionId == g.nextOptionId
    ensures db.responses == old(db.responses) && db.templates == old(db.templates) && db.users == old(db.users)
    ensures db.roles == old(db.roles) && db.nextResponseId == old(db.nextResponseId)
  {
    var survey: Survey;
    var k: nat;
    if def.id.Some? && def.id.value > 0 {
      k := IndexOfOwnedSurvey(db.surveys, def.id.value, userId);
      if k == |db.surveys| {
        return Failure("UnauthorizedAccessException");
      }
      survey := db.surveys[k];
    } else {
      survey := NewSurvey(db.nextSurveyId, userId, now);
      k := |db.surveys|;
    }
    var before := survey;
    survey := survey.(title := def.title, description := def.description, surveyType := def.surveyType,
                      isAnonymous := def.isAnonymous, endDate := def.endDate, isPublished := def.isPublished);
    var questions, nextQ, nextO := ReconcileQuestionList(survey.questions, def.questions, db.nextQuestionId, db.nextOptionId);
    survey := survey.(questions := questions);
    assert SavedGraph(survey, nextQ, nextO) == ApplyDefinition(before, def, db.nextQuestionId, db.nextOptionId);
    SavedGraphValid(db.surveys, db.nextSurveyId, db.nextQuestionId, db.nextOptionId, k, before, def);
    Commit(db, k, survey, nextQ, nextO);
    r := Success(survey.id);
  }

  /** The graph a save produces from stored survey `k`, or from a new survey when `k` is past the end,
      keeps that survey's id and valid question and option ids under counters that only advance. */
  lemma SavedGraphValid(surveys: seq<Survey>, ns: int, nq: int, no: int, k: nat, before: Survey, def: SurveyDefinition)
    requires SurveysValid(surveys, ns, nq, no) && 0 < nq && 0 < no && k <= |surveys|
    requires k < |surveys| ==> before == surveys[k]
    requires k == |surveys| ==> before.questions == []
    ensures var g := ApplyDefinition(before, def, nq, no);
      && nq <= g.nextQuestionId && no <= g.nextOptionId && g.survey.id == before.id
      && QuestionsValid(g.survey.questions, g.nextQuestionId, g.nextOptionId)
  {
    ApplyDefinitionValid(before, def, nq, no);
    ApplyDefinitionFields(before, def, nq, no);
  }

  /** Replacing survey `k`, or appending a survey with the next id, keeps the surveys and the responses valid. */
  lemma SavedSurveysValid(surveys: seq<Survey>, responses: seq<SurveyResponse>, k: nat, saved: Survey,
                          ns: int, nq: int, no: int, nq': int, no': int, nr: int)
    requires SurveysValid(surveys, ns, nq, no) && ResponsesValid(responses, surveys, nr) && k <= |surveys| && 0 < ns
    requires nq <= nq' && no <= no' && QuestionsValid(saved.questions, nq', no')
    requires k < |surveys| ==> saved.id == surveys[k].id
    requires k == |surveys| ==> saved.id == ns
    ensures var t := if k == |surveys| then surveys + [saved] else surveys[k := saved];
      SurveysValid(t, if k == |surveys| then ns + 1 else ns, nq', no') && ResponsesValid(responses, t, nr)
  {
    var t := if k == |surveys| then surveys + [saved] else surveys[k := saved];
    if k == |surveys| {
      SurveysValidAppend(surveys, saved, ns, nq, no, nq', no');
    } else {
      SurveysValidUpdate(surveys, k, saved, ns, nq, no, nq', no');
    }
    ResponsesValidMoreSurveys(responses, surveys, t, nr);
  }

  /** SaveChangesAsync for a save: the saved graph replaces survey `k`, or is inserted when `k` is past the end. */
  method Commit(db: SurveyDb, k: nat, saved: Survey, nextQ: int, nextO: int)
    requires db.Valid() && k <= |db.surveys|
    requires db.nextQuestionId <= nextQ && db.nextOptionId <= nextO && QuestionsValid(saved.questions, nextQ, nextO)
    requires k < |db.surveys| ==> saved.id == db.surveys[k].id
    requires k == |db.surveys| ==> saved.id == db.nextSurveyId
    modifies db
    ensures db.Valid()
    ensures db.surveys == (if k < |old(db.surveys)| then old(db.surveys)[k := saved] else old(db.surveys) + [saved])
    ensures db.nextSurveyId == (if k < |old(db.surveys)| then old(db.nextSurveyId) else old(db.nextSurveyId) + 1)
    ensures db.nextQuestionId == nextQ && db.nextOptionId == nextO
    ensures db.responses == old(db.responses) && db.templates == old(db.templates) && db.users == old(db.users)
    ensures db.roles == old(db.roles) && db.nextResponseId == old(db.nextResponseId)
  {
    var surveys := if k == |db.surveys| then db.surveys + [saved] else db.surveys[k := saved];
    var nextSurveyId := if k == |db.surveys| then db.nextSurveyId + 1 else db.nextSurveyId;
    SavedSurveysValid(db.surveys, db.responses, k, saved, db.nextSurveyId, db.nextQuestionId, db.nextOptionId, nextQ, nextO, db.nextResponseId);
    db.StoreSurveys(surveys, nextSurveyId, nextQ, nextO);
  }

  /**
   * IsSurveyValidForPublishingAsync: some question belongs to survey `surveyId`
   * whose creator is `userId`.
   */
  predicate IsSurveyValidForPublishing(surveys: seq<Survey>, surveyId: int, userId: string) {
    exists i :: 0 <= i < |surveys| && surveys[i].id == surveyId && surveys[i].creatorId == userId && |surveys[i].questions| > 0
  }

  /** With distinct survey ids, the check is "the caller's survey exists and has a question". */
  lemma ValidForPublishingIff(surveys: seq<Survey>, surveyId: int, userId: string)
    requires forall i, j :: 0 <= i < j < |surveys| ==> surveys[i].id != surveys[j].id
    ensures var k := IndexOfOwnedSurvey(surveys, surveyId, userId);
      IsSurveyValidForPublishing(surveys, surveyId, userId) <==> k < |surveys| && |surveys[k].questions| > 0
  {
    var k := IndexOfOwnedSurvey(surveys, surveyId, userId);
    if IsSurveyValidForPublishing(surveys, surveyId, userId) {
      var i :| 0 <= i < |surveys| && surveys[i].id == surveyId && surveys[i].creatorId == userId && |surveys[i].questions| > 0;
      assert k <= i;
    }
  }

  /**
   * ChangePublicationStatusAsync: false, with no change, when the caller owns no survey
   * with this id, or when publishing a survey without questions; otherwise sets
   * IsPublished and returns true.
   */
  method ChangePublicationStatus(db: SurveyDb, surveyId: int, userId: string, isPublished: bool) returns (ok: bool)
    requires db.Valid()
    modifies db`surveys
    ensures db.Valid()
    ensures var k := IndexOfOwnedSurvey(old(db.surveys), surveyId, userId);
      ok <==> k < |old(db.surveys)| && (isPublished ==> |old(db.surveys)[k].questions| > 0)
    ensures !ok ==> db.surveys == old(db.surveys)
    ensures ok ==> var k := IndexOfOwnedSurvey(old(db.surveys), surveyId, userId);
      db.surveys == old(db.surveys)[k := old(db.surveys)[k].(isPublished := isPublished)]
  {
    var k := IndexOfOwnedSurvey(db.surveys, surveyId, userId);
    if k == |db.surveys| {
      return false;
    }
    ValidForPublishingIff(db.surveys, surveyId, userId);
    if isPublished && !IsSurveyValidForPublishing(db.surveys, surveyId, userId) {
      return false;
    }
    StorePublished(db, k, isPublished);
    ok := true;
  }

  /** SaveChangesAsync after IsPublished of survey `k` is set to `flag`. */
  method StorePublished(db: SurveyDb, k: nat, flag: bool)
    requires db.Valid() && k < |db.surveys|
    modifies db`surveys
    ensures db.Valid()
    ensures db.surveys == old(db.surveys)[k := old(db.surveys)[k].(isPublished := flag)]
  {
    var surveys := db.surveys[k := db.surveys[k].(isPublished := flag)];
    SavedSurveysValid(db.surveys, db.responses, k, db.surveys[k].(isPublished := flag), db.nextSurveyId,
                      db.nextQuestionId, db.nextOptionId, db.nextQuestionId, db.nextOptionId, db.nextResponseId);
    db.StoreSurveyTable(surveys);
  }

  /** The survey list without the survey at index `k`. */
  function RemoveAt<T>(s: seq<T>, k: nat): (r: seq<T>)
    requires k < |s|
    ensures |r| == |s| - 1
    ensures forall i :: 0 <= i < k ==> r[i] == s[i]
    ensures forall i :: k <= i < |r| ==> r[i] == s[i + 1]
  {
    s[..k] + s[k + 1..]
  }

  /** The responses that survive deleting survey `surveyId` (the cascade delete of Survey.Responses). */
  function ResponsesAfterDelete(responses: seq<SurveyResponse>, surveyId: int): seq<SurveyResponse> {
    Linq.Filter(responses, (r: SurveyResponse) => r.surveyId != surveyId)
  }

  lemma {:induction false} ResponsesAfterDeleteDistinct(responses: seq<SurveyResponse>, surveyId: int)
    requires forall i, j :: 0 <= i < j < |responses| ==> responses[i].id != responses[j].id
    ensures var r := ResponsesAfterDelete(responses, surveyId);
      forall i, j :: 0 <= i < j < |r| ==> r[i].id != r[j].id
  {
    if responses != [] {
      ResponsesAfterDeleteDistinct(responses[1..], surveyId);
      var rest := ResponsesAfterDelete(responses[1..], surveyId);
      forall i | 0 <= i < |rest| ensures rest[i].id != responses[0].id {
        var j :| 0 <= j < |responses[1..]| && responses[1..][j] == rest[i];
        assert responses[j + 1] == rest[i];
      }
    }
  }

  lemma SurveysValidRemove(surveys: seq<Survey>, k: nat, ns: int, nq: int, no: int)
    requires SurveysValid(surveys, ns, nq, no) && k < |surveys|
    ensures SurveysValid(RemoveAt(surveys, k), ns, nq, no)
    ensures SurveyIds(RemoveAt(surveys, k)) == SurveyIds(surveys) - {surveys[k].id}
  {
    var t := RemoveAt(surveys, k);
    forall i, j | 0 <= i < j < |t| ensures t[i].id != t[j].id {
      var i' := if i < k then i else i + 1;
      var j' := if j < k then j else j + 1;
      assert t[i] == surveys[i'] && t[j] == surveys[j'];
    }
    forall x | x in SurveyIds(surveys) - {surveys[k].id} ensures x in SurveyIds(t) {
      var i :| 0 <= i < |surveys| && surveys[i].id == x;
      if i < k { assert t[i].id == x; } else { assert i > k; assert t[i - 1].id == x; }
    }
    forall x | x in SurveyIds(t) ensures x in SurveyIds(surveys) - {surveys[k].id} {
      var i :| 0 <= i < |t| && t[i].id == x;
      var i' := if i < k then i else i + 1;
      assert surveys[i'].id == x;
    }
  }

  /**
   * DeleteSurveyAsync: false, deleting nothing, when the caller owns no survey with
   * this id; otherwise removes the survey with its questions and options (they are
   * part of it) and its responses (cascade), and returns true.
   */
  method DeleteSurvey(db: SurveyDb, surveyId: int, userId: string) returns (ok: bool)
    requires db.Valid()
    modifies db`surveys, db`responses
    ensures db.Valid()
    ensures ok <==> IndexOfOwnedSurvey(old(db.surveys), surveyId, userId) < |old(db.surveys)|
    ensures !ok ==> db.surveys == old(db.surveys) && db.responses == old(db.responses)
    ensures ok ==>
      && db.surveys == RemoveAt(old(db.surveys), IndexOfOwnedSurvey(old(db.surveys), surveyId, userId))
      && db.responses == ResponsesAfterDelete(old(db.responses), surveyId)
  {
    var k := IndexOfOwnedSurvey(db.surveys, surveyId, userId);
    if k == |db.surveys| {
      return false;
    }
    SurveysValidRemove(db.surveys, k, db.nextSurveyId, db.nextQuestionId, db.nextOptionId);
    ResponsesAfterDeleteDistinct(db.responses, surveyId);
    db.surveys := RemoveAt(db.surveys, k);
    db.responses := ResponsesAfterDelete(db.responses, surveyId);
    ok := true;
  }
}
