/**
 * The SurveyController actions of the survey builder: the pre-checks of the
 * AJAX save, the constructor page (creating a blank survey, and the results
 * block shown beside the editor), the results page, publishing and
 * unpublishing, the CSV export and creating a survey from a template.
 * The caller's id is `userId`; `None` stands for a request whose user id is
 * null. Timestamps and the export's formatting are parameters.
 */
module SurveyController {
  import opened Wrappers
  import opened SurveyData
  import opened Text
  import Linq
  import Reconcile
  import SurveyService
  import ResultsAggregation
  import CsvExport

  /** The caller's survey with this id (`FirstOrDefault(s => s.Id == id && s.CreatorId == userId)`), as an index. */
  function OwnedIndex(surveys: seq<Survey>, id: int, userId: Option<string>): (k: nat)
    ensures k <= |surveys|
    ensures k < |surveys| ==> surveys[k].id == id && userId == Some(surveys[k].creatorId)
    ensures k == |surveys| <==> forall i :: 0 <= i < |surveys| ==> !(surveys[i].id == id && userId == Some(surveys[i].creatorId))
  {
    if userId.None? then |surveys| else IndexOfOwnedSurvey(surveys, id, userId.value)
  }

  // POST api/surveys/save

  /** The posted SaveSurveyViewModel; its question list may be null. */
  datatype SaveSurveyRequest = SaveSurveyRequest(
    id: Option<int>,
    title: string,
    description: string,
    surveyType: SurveyType,
    isPublished: bool,
    endDate: Option<int>,
    isAnonymous: bool,
    questions: Option<seq<QuestionDefinition>>)

  datatype SaveResult = SaveOk(surveyId: int) | SaveBadRequest(message: string) | SaveUnauthorized | SaveForbid

  const NoDataMessage := "Данные не получены. Проверьте формат отправляемых данных."
  const NoTitleMessage := "Укажите заголовок опроса."

  /** The definition handed to the service, with a null question list read as empty. */
  function Definition(req: SaveSurveyRequest): (def: SurveyDefinition)
    ensures req.questions.None? ==> def.questions == []
    ensures req.questions.Some? ==> def.questions == req.questions.value
    ensures def.id == req.id && def.title == req.title && def.isPublished == req.isPublished
  {
    SurveyDefinition(req.id, req.title, req.description, req.surveyType, req.isPublished,
      req.endDate, req.isAnonymous, req.questions.GetOr([]))
  }

  /** string.IsNullOrEmpty on the caller's id. */
  predicate IsNullOrEmpty(userId: Option<string>) {
    userId.None? || userId.value == []
  }

  /**
   * SaveSurvey (the AJAX save): a null body, a missing user, a blank title and
   * model-state errors are refused in that order without touching the store;
   * then the service saves, and its UnauthorizedAccessException becomes Forbid.
   * `modelErrors` are the "key: message" strings of the invalid model state.
   */
  method SaveSurveyAction(db: SurveyDb, model: Option<SaveSurveyRequest>, userId: Option<string>,
                          modelErrors: seq<string>, now: int) returns (r: SaveResult)
    requires db.Valid()
    modifies db
    ensures db.Valid()
    ensures model.None? ==> r == SaveBadRequest(NoDataMessage)
    ensures model.Some? && IsNullOrEmpty(userId) ==> r == SaveUnauthorized
    ensures model.Some? && !IsNullOrEmpty(userId) && IsBlank(model.value.title) ==> r == SaveBadRequest(NoTitleMessage)
    ensures model.Some? && !IsNullOrEmpty(userId) && !IsBlank(model.value.title) && modelErrors != [] ==>
      r == SaveBadRequest(Join("; ", modelErrors))
    ensures r.SaveBadRequest? || r.SaveUnauthorized? || r.SaveForbid? ==> unchanged(db)
    ensures model.Some? && !IsNullOrEmpty(userId) && !IsBlank(model.value.title) && modelErrors == [] ==>
      (r.SaveForbid? <==> Reconcile.RefersToStored(model.value.id)
                          && IndexOfOwnedSurvey(old(db.surveys), model.value.id.value, userId.value) == |old(db.surveys)|)
    ensures model.Some? && !IsNullOrEmpty(userId) && !IsBlank(model.value.title) && modelErrors == [] ==>
      r.SaveOk? || r.SaveForbid?
    ensures r.SaveOk? && Reconcile.RefersToStored(model.value.id) ==>
      var k := IndexOfOwnedSurvey(old(db.surveys), model.value.id.value, userId.value);
      var g := Reconcile.ApplyDefinition(old(db.surveys)[k], Definition(model.value), old(db.nextQuestionId), old(db.nextOptionId));
      && r.surveyId == model.value.id.value
      && db.surveys == old(db.surveys)[k := g.survey]
      && db.nextSurveyId == old(db.nextSurveyId)
      && db.nextQuestionId == g.nextQuestionId && db.nextOptionId == g.nextOptionId
    ensures r.SaveOk? && !Reconcile.RefersToStored(model.value.id) ==>
      var g := Reconcile.ApplyDefinition(NewSurvey(old(db.nextSurveyId), userId.value, now), Definition(model.value),
                                         old(db.nextQuestionId), old(db.nextOptionId));
      && r.surveyId == old(db.nextSurveyId)
      && db.surveys == old(db.surveys) + [g.survey]
      && db.nextSurveyId == old(db.nextSurveyId) + 1
      && db.nextQuestionId == g.nextQuestionId && db.nextOptionId == g.nextOptionId
    ensures r.SaveOk? ==> exists i :: (0 <= i < |db.surveys| && db.surveys[i].id == r.surveyId
      && Some(db.surveys[i].creatorId) == userId && db.surveys[i].title == model.value.title)
    ensures db.responses == old(db.responses) && db.templates == old(db.templates) && db.users == old(db.users)
    ensures db.roles == old(db.roles) && db.nextResponseId == old(db.nextResponseId)
  {
    if model.None? {
      return SaveBadRequest(NoDataMessage);
    }
    if IsNullOrEmpty(userId) {
      return SaveUnauthorized;
    }
    if IsBlank(model.value.title) {
      return SaveBadRequest(NoTitleMessage);
    }
    if modelErrors != [] {
      return SaveBadRequest(Join("; ", modelErrors));
    }
    var def := Definition(model.value);
    ghost var before := db.surveys;
    ghost var nq, no, ns := db.nextQuestionId, db.nextOptionId, db.nextSurveyId;
    var saved := SurveyService.SaveSurvey(db, def, userId.value, now);
    if saved.Failure? {
      return SaveForbid;
    }
    r := SaveOk(saved.value);
    if Reconcile.RefersToStored(def.id) {
      var k := IndexOfOwnedSurvey(before, def.id.value, userId.value);
      assert db.surveys[k] == Reconcile.ApplyDefinition(before[k], def, nq, no).survey;
    } else {
      var k := |before|;
      assert db.surveys[k] == Reconcile.ApplyDefinition(NewSurvey(ns, userId.value, now), def, nq, no).survey;
    }
  }

  // Publishing

  /** The surveys with survey `k`'s IsPublished set to `flag`. */
  function SetPublished(surveys: seq<Survey>, k: nat, flag: bool): (r: seq<Survey>)
    requires k < |surveys|
    ensures |r| == |surveys| && r[k].isPublished == flag
    ensures forall i :: 0 <= i < |surveys| && i != k ==> r[i] == surveys[i]
    ensures r[k] == surveys[k].(isPublished := flag)
  {
    surveys[k := surveys[k].(isPublished := flag)]
  }

  lemma IndexOfSurveySetPublished(surveys: seq<Survey>, k: nat, flag: bool, id: int)
    requires k < |surveys|
    ensures IndexOfSurvey(SetPublished(surveys, k, flag), id) == IndexOfSurvey(surveys, id)
  {
    var t := SetPublished(surveys, k, flag);
    var a := IndexOfSurvey(surveys, id);
    var b := IndexOfSurvey(t, id);
    assert SurveyIds(t) == SurveyIds(surveys) by {
      forall x | x in SurveyIds(surveys) ensures x in SurveyIds(t) {
        var i :| 0 <= i < |surveys| && surveys[i].id == x;
        assert t[i].id == x;
      }
    }
    IndexOfSurveyFirst(surveys, id);
    IndexOfSurveyFirst(t, id);
  }

  lemma {:induction false} IndexOfSurveyFirst(surveys: seq<Survey>, id: int)
    ensures forall j :: 0 <= j < IndexOfSurvey(surveys, id) ==> surveys[j].id != id
  {
    if surveys != [] && surveys[0].id != id {
      IndexOfSurveyFirst(surveys[1..], id);
      forall j | 1 <= j < IndexOfSurvey(surveys, id) ensures surveys[j].id != id {
        assert surveys[j] == surveys[1..][j - 1];
      }
    }
  }

  datatype PublishResult = Published | PublishNotFound | PublishForbid | PublishEmpty | PublishAlreadyPublished

  /** The BadRequest message of a refused publish, or the success message. */
  function PublishMessage(r: PublishResult): string {
    match r
    case Published => "Опросник успешно опубликован!"
    case PublishNotFound => "Опрос не найден."
    case PublishForbid => ""
    case PublishEmpty => "Нельзя опубликовать пустой опрос. Добавьте хотя бы один вопрос."
    case PublishAlreadyPublished => "Опрос уже опубликован."
  }

  /** Publish's checks, in order: missing, not the creator's, without questions, already published. */
  function PublishCheck(surveys: seq<Survey>, id: int, userId: Option<string>): (r: PublishResult)
    ensures r == PublishNotFound <==> id !in SurveyIds(surveys)
    ensures r == Published <==>
      var k := IndexOfSurvey(surveys, id);
      k < |surveys| && userId == Some(surveys[k].creatorId) && |surveys[k].questions| > 0 && !surveys[k].isPublished
  {
    var k := IndexOfSurvey(surveys, id);
    if k == |surveys| then PublishNotFound
    else if userId != Some(surveys[k].creatorId) then PublishForbid
    else if |surveys[k].questions| == 0 then PublishEmpty
    else if surveys[k].isPublished then PublishAlreadyPublished
    else Published
  }

  /** Publish (POST survey/publish/{id}): sets IsPublished only when every check passes. */
  method Publish(db: SurveyDb, id: int, userId: Option<string>) returns (r: PublishResult)
    requires db.Valid()
    modifies db`surveys
    ensures db.Valid()
    ensures r == PublishCheck(old(db.surveys), id, userId)
    ensures r == Published ==> db.surveys == SetPublished(old(db.surveys), IndexOfSurvey(old(db.surveys), id), true)
    ensures r != Published ==> db.surveys == old(db.surveys)
  {
    r := PublishCheck(db.surveys, id, userId);
    if r == Published {
      var k := IndexOfSurvey(db.surveys, id);
      SurveyService.StorePublished(db, k, true);
    }
  }

  /** A second Publish of the same survey is refused as already published. */
  lemma PublishTwiceRefused(surveys: seq<Survey>, id: int, userId: Option<string>)
    requires PublishCheck(surveys, id, userId) == Published
    ensures PublishCheck(SetPublished(surveys, IndexOfSurvey(surveys, id), true), id, userId) == PublishAlreadyPublished
  {
    IndexOfSurveySetPublished(surveys, IndexOfSurvey(surveys, id), true, id);
  }

  datatype UnpublishResult = Unpublished | UnpublishForbid

  /** Unpublish (POST survey/unpublish/{id}): Forbid for a missing survey or another's; otherwise IsPublished := false. */
  method Unpublish(db: SurveyDb, id: int, userId: Option<string>) returns (r: UnpublishResult)
    requires db.Valid()
    modifies db`surveys
    ensures db.Valid()
    ensures var k := IndexOfSurvey(old(db.surveys), id);
      r == Unpublished <==> k < |old(db.surveys)| && userId == Some(old(db.surveys)[k].creatorId)
    ensures r == Unpublished ==> db.surveys == SetPublished(old(db.surveys), IndexOfSurvey(old(db.surveys), id), false)
    ensures r == UnpublishForbid ==> db.surveys == old(db.surveys)
  {
    var k := IndexOfSurvey(db.surveys, id);
    if k == |db.surveys| || userId != Some(db.surveys[k].creatorId) {
      return UnpublishForbid;
    }
    SurveyService.StorePublished(db, k, false);
    r := Unpublished;
  }

  /** Unpublishing twice leaves the same state as once, and an unpublished survey with questions
      can be published again by its creator. */
  lemma UnpublishIdempotent(surveys: seq<Survey>, id: int, userId: Option<string>)
    requires IndexOfSurvey(surveys, id) < |surveys|
    ensures var k := IndexOfSurvey(surveys, id);
      SetPublished(SetPublished(surveys, k, false), k, false) == SetPublished(surveys, k, false)
    ensures var k := IndexOfSurvey(surveys, id);
      userId == Some(surveys[k].creatorId) && |surveys[k].questions| > 0 ==>
      PublishCheck(SetPublished(surveys, k, false), id, userId) == Published
  {
    var k := IndexOfSurvey(surveys, id);
    IndexOfSurveySetPublished(surveys, k, false, id);
  }

  /** The save path is not gated: a definition with IsPublished set and no questions
      stores a published survey with no questions, which Publish would refuse. */
  lemma SaveBypassesPublishCheck(s: Survey, def: SurveyDefinition, nq: int, no: int)
    requires def.isPublished && def.questions == []
    ensures var saved := Reconcile.ApplyDefinition(s, def, nq, no).survey;
      saved.isPublished && saved.questions == []
  {
    var kept := Reconcile.KeptQuestions(s.questions, Reconcile.ListedQuestionIds(def.questions));
    assert Reconcile.ListedQuestionIds(def.questions) == {};
    Linq.FilterNone(s.questions, (q: Question) => q.id in Reconcile.ListedQuestionIds(def.questions));
    assert Reconcile.QuestionsAfter(Reconcile.QuestionPass(kept, [], nq, no), def.questions) == Reconcile.QuestionPass(kept, [], nq, no);
  }

  // Results and the constructor page

  /**
   * Results (GET survey/results/{id}): NotFound unless the caller created the survey;
   * otherwise the per-question results over its responses, questions in stored order.
   */
  method Results(db: SurveyDb, id: int, userId: Option<string>) returns (r: Option<ResultsAggregation.SurveyResults>)
    ensures r.None? <==> OwnedIndex(db.surveys, id, userId) == |db.surveys|
    ensures r.Some? ==>
      var s := db.surveys[OwnedIndex(db.surveys, id, userId)];
      var responses := ResultsAggregation.ResponsesOf(db.responses, id);
      && r.value.surveyId == id && r.value.surveyTitle == s.title && r.value.creationDate == s.createdDate
      && r.value.totalResponses == |responses|
      && |r.value.questionResults| == |s.questions|
      && forall i :: 0 <= i < |s.questions| ==>
           ResultsAggregation.IsResultFor(r.value.questionResults[i], s.questions[i],
             ResultsAggregation.AnswersFor(responses, s.questions[i].id), db.surveys)
  {
    var k := OwnedIndex(db.surveys, id, userId);
    if k == |db.surveys| {
      return None;
    }
    var s := db.surveys[k];
    var responses := ResultsAggregation.ResponsesOf(db.responses, id);
    var results := ResultsAggregation.AggregateQuestions(s.questions, responses, db.surveys);
    r := Some(ResultsAggregation.SurveyResults(s.id, s.title, |responses|, s.createdDate, results));
  }

  function ByOrder(q: Question): int { q.order }

  /** What the constructor page receives: the survey, its questions by Order, and the results block. */
  datatype EditView = EditView(survey: Survey, questions: seq<Question>, resultsData: Option<ResultsAggregation.SurveyResults>)

  /**
   * Edit (GET survey/edit/{id}) for an existing survey: NotFound unless it exists and the
   * caller created it. The results block is null when the survey has no responses and
   * otherwise follows the Results rules, with the questions in Order.
   */
  method Edit(db: SurveyDb, id: int, userId: Option<string>) returns (r: Option<EditView>)
    ensures var k := IndexOfSurvey(db.surveys, id);
      r.None? <==> k == |db.surveys| || userId != Some(db.surveys[k].creatorId)
    ensures r.Some? ==>
      var s := db.surveys[IndexOfSurvey(db.surveys, id)];
      var responses := ResultsAggregation.ResponsesOf(db.responses, id);
      var ordered := Linq.SortBy(s.questions, ByOrder);
      && r.value.survey == s && r.value.questions == ordered
      && (r.value.resultsData.None? <==> responses == [])
      && (r.value.resultsData.Some? ==>
           var d := r.value.resultsData.value;
           && d.totalResponses == |responses| && |d.questionResults| == |ordered|
           && forall i :: 0 <= i < |ordered| ==>
                ResultsAggregation.IsResultFor(d.questionResults[i], ordered[i],
                  ResultsAggregation.AnswersFor(responses, ordered[i].id), db.surveys))
  {
    var k := IndexOfSurvey(db.surveys, id);
    if k == |db.surveys| || userId != Some(db.surveys[k].creatorId) {
      return None;
    }
    var s := db.surveys[k];
    var responses := ResultsAggregation.ResponsesOf(db.responses, id);
    var ordered := Linq.SortBy(s.questions, ByOrder);
    var resultsData := None;
    if responses != [] {
      var results := ResultsAggregation.AggregateQuestions(ordered, responses, db.surveys);
      resultsData := Some(ResultsAggregation.SurveyResults(s.id, s.title, |responses|, s.createdDate, results));
    }
    r := Some(EditView(s, ordered, resultsData));
  }

  const BlankSurveyTitle := "Новая форма"

  /**
   * Edit with no id: Unauthorized for a missing user; otherwise inserts an unpublished
   * survey titled "Новая форма" with an empty description, owned by the caller, whose
   * Type is left at the unnamed default 0, and redirects to it.
   */
  method CreateBlankSurvey(db: SurveyDb, userId: Option<string>, now: int) returns (r: Option<int>)
    requires db.Valid()
    modifies db`surveys, db`nextSurveyId
    ensures db.Valid()
    ensures r.None? <==> IsNullOrEmpty(userId)
    ensures r.None? ==> db.surveys == old(db.surveys) && db.nextSurveyId == old(db.nextSurveyId)
    ensures r.Some? ==>
      && r.value == old(db.nextSurveyId) && db.nextSurveyId == old(db.nextSurveyId) + 1
      && db.surveys == old(db.surveys) + [NewSurvey(r.value, userId.value, now).(title := BlankSurveyTitle)]
  {
    if IsNullOrEmpty(userId) {
      return None;
    }
    var s := NewSurvey(db.nextSurveyId, userId.value, now).(title := BlankSurveyTitle);
    SurveyService.SurveysValidAppend(db.surveys, s, db.nextSurveyId, db.nextQuestionId, db.nextOptionId,
      db.nextQuestionId, db.nextOptionId);
    db.surveys := db.surveys + [s];
    r := Some(db.nextSurveyId);
    db.nextSurveyId := db.nextSurveyId + 1;
  }

  // GET survey/export/{id}

  datatype ExportResult =
    | ExportNotFound
    | ExportBadRequest(message: string)
    | ExportFile(lines: seq<string>, fileName: string, contentType: string)

  const UnsupportedFormatMessage := "Неподдерживаемый формат экспорта. Используйте 'csv'."
  const CsvContentType := "text/csv; charset=utf-8"


  /**
   * ExportResults: NotFound unless the caller created the survey; the CSV file when
   * the lower-cased format is "csv"; BadRequest otherwise.
   */
  method ExportResults(db: SurveyDb, id: int, userId: Option<string>, format: string,
                       dateText: int -> string, stamp: string, invalid: set<char>) returns (r: ExportResult)
    ensures r == ExportNotFound <==> OwnedIndex(db.surveys, id, userId) == |db.surveys|
    ensures r.ExportBadRequest? <==> OwnedIndex(db.surveys, id, userId) < |db.surveys| && ToLowerAscii(format) != "csv"
    ensures r.ExportBadRequest? ==> r.message == UnsupportedFormatMessage
    ensures r.ExportFile? ==>
      var s := db.surveys[OwnedIndex(db.surveys, id, userId)];
      var responses := ResultsAggregation.ResponsesOf(db.responses, id);
      && r.contentType == CsvContentType
      && r.lines == [CsvExport.HeaderLine(Linq.SortBy(s.questions, CsvExport.ByOrder))]
           + CsvExport.RowLines(s, db.users, Linq.SortBy(responses, CsvExport.StableByDate),
                                Linq.SortBy(s.questions, CsvExport.ByOrder), dateText)
  {
    var k := OwnedIndex(db.surveys, id, userId);
    if k == |db.surveys| {
      return ExportNotFound;
    }
    if ToLowerAscii(format) != "csv" {
      return ExportBadRequest(UnsupportedFormatMessage);
    }
    var responses := ResultsAggregation.ResponsesOf(db.responses, id);
    var lines, fileName := CsvExport.ExportToCsv(db.surveys[k], responses, db.users, dateText, stamp, invalid);
    r := ExportFile(lines, fileName, CsvContentType);
  }

  // POST survey/use-template/{id}

  function TemplateOrder(q: TemplateQuestion): int { q.order }
  function TemplateOptionOrder(o: TemplateAnswerOption): int { o.order }

  /** The options of a copied question: the template's options in Order, numbered from `firstId`. */
  function CopyOptions(options: seq<TemplateAnswerOption>, firstId: int): (r: seq<AnswerOption>)
    ensures |r| == |options|
  {
    if options == [] then []
    else CopyOptions(options[..|options| - 1], firstId) + [AnswerOption(firstId + |options| - 1, options[|options| - 1].text, options[|options| - 1].order, false)]
  }

  /** Copy `j` carries the text and order of template option `j` and the `j`-th id from `firstId`. */
  lemma {:induction false} CopyOptionsAt(options: seq<TemplateAnswerOption>, firstId: int)
    ensures forall j :: 0 <= j < |options| ==>
      CopyOptions(options, firstId)[j] == AnswerOption(firstId + j, options[j].text, options[j].order, false)
  {
    if options != [] {
      CopyOptionsAt(options[..|options| - 1], firstId);
    }
  }

  /** The question copied from template question `q`, with id `id` and option ids from `firstOptionId`. */
  function CopyQuestion(q: TemplateQuestion, id: int, firstOptionId: int): Question {
    Question(id, q.text, q.questionType, true, q.order, CopyOptions(q.answerOptions, firstOptionId))
  }

  /** A template question with its options in Order. */
  function SortOptions(q: TemplateQuestion): TemplateQuestion {
    q.(answerOptions := Linq.SortBy(q.answerOptions, TemplateOptionOrder))
  }

  function SortOptionsAll(questions: seq<TemplateQuestion>): (r: seq<TemplateQuestion>)
    ensures |r| == |questions|
    ensures forall i :: 0 <= i < |questions| ==> r[i] == SortOptions(questions[i])
  {
    if questions == [] then [] else [SortOptions(questions[0])] + SortOptionsAll(questions[1..])
  }

  /** The template's questions as the query loads them (`Include(t => t.Questions.OrderBy(q => q.Order))
      .ThenInclude(q => q.AnswerOptions.OrderBy(o => o.Order))`). */
  function LoadedQuestions(t: SurveyTemplate): (r: seq<TemplateQuestion>)
    ensures |r| == |t.questions|
  {
    SortOptionsAll(Linq.SortBy(t.questions, TemplateOrder))
  }

  /** The loaded questions are in Order, each with its options in Order. */
  lemma LoadedQuestionsOrdered(t: SurveyTemplate)
    ensures Linq.SortedBy(LoadedQuestions(t), TemplateOrder)
    ensures forall i :: 0 <= i < |LoadedQuestions(t)| ==>
      Linq.SortedBy(LoadedQuestions(t)[i].answerOptions, TemplateOptionOrder)
  {
    var ordered := Linq.SortBy(t.questions, TemplateOrder);
    var r := LoadedQuestions(t);
    Linq.SortByPermutes(t.questions, TemplateOrder);
    assert forall i :: 0 <= i < |r| ==> TemplateOrder(r[i]) == TemplateOrder(ordered[i]);
    forall i | 0 <= i < |r| ensures Linq.SortedBy(r[i].answerOptions, TemplateOptionOrder) {
      Linq.SortByPermutes(ordered[i].answerOptions, TemplateOptionOrder);
    }
  }

  function OptionTotal(questions: seq<TemplateQuestion>): (n: nat) {
    if questions == [] then 0 else OptionTotal(questions[..|questions| - 1]) + |questions[|questions| - 1].answerOptions|
  }

  /** The questions copied from a template's questions (already in Order), numbered from the counters. */
  function CopyQuestions(questions: seq<TemplateQuestion>, nextQuestionId: int, nextOptionId: int): (r: seq<Question>)
    ensures |r| == |questions|
  {
    if questions == [] then []
    else
      var front := questions[..|questions| - 1];
      CopyQuestions(front, nextQuestionId, nextOptionId)
        + [CopyQuestion(questions[|questions| - 1], nextQuestionId + |front|, nextOptionId + OptionTotal(front))]
  }

  /** Question `q` copies template question `tq`: same Text, Type and Order, required, and the
      template's options in Order with their Text and Order. */
  predicate CopiedFrom(q: Question, tq: TemplateQuestion) {
    && q.text == tq.text && q.questionType == tq.questionType && q.order == tq.order && q.isRequired
    && |q.options| == |tq.answerOptions|
    && forall j :: 0 <= j < |tq.answerOptions| ==>
         q.options[j].text == tq.answerOptions[j].text && q.options[j].order == tq.answerOptions[j].order
         && !q.options[j].isOther
  }

  /** A copied question copies its template question, and its options take the ids from `firstOptionId` on. */
  lemma CopyQuestionCopied(tq: TemplateQuestion, id: int, firstOptionId: int)
    requires 0 < firstOptionId
    ensures CopiedFrom(CopyQuestion(tq, id, firstOptionId), tq)
    ensures OptionsValid(CopyQuestion(tq, id, firstOptionId).options, firstOptionId + |tq.answerOptions|)
  {
    CopyOptionsAt(tq.answerOptions, firstOptionId);
  }

  /** The i-th copy is the i-th template question copied with the i-th question id and the
      option ids that follow those of the questions before it. */
  lemma {:induction false} CopyQuestionsAt(questions: seq<TemplateQuestion>, nq: int, no: int, i: int)
    requires 0 <= i < |questions|
    ensures CopyQuestions(questions, nq, no)[i] == CopyQuestion(questions[i], nq + i, no + OptionTotal(questions[..i]))
  {
    var front := questions[..|questions| - 1];
    if i < |front| {
      CopyQuestionsAt(front, nq, no, i);
      assert questions[..i] == front[..i] && questions[i] == front[i];
    } else {
      assert questions[..i] == front;
    }
  }

  lemma {:induction false} OptionTotalPrefix(questions: seq<TemplateQuestion>, i: int)
    requires 0 <= i < |questions|
    ensures OptionTotal(questions[..i]) + |questions[i].answerOptions| <= OptionTotal(questions)
  {
    var front := questions[..|questions| - 1];
    if i == |front| {
      assert questions[..i] == front;
    } else {
      OptionTotalPrefix(front, i);
      assert front[..i] == questions[..i] && front[i] == questions[i];
    }
  }

  /** Each copied question copies its template question, and its id is the counter plus its position. */
  lemma CopyQuestionsFaithful(questions: seq<TemplateQuestion>, nq: int, no: int)
    requires 0 < no
    ensures var r := CopyQuestions(questions, nq, no);
      forall i :: 0 <= i < |questions| ==> CopiedFrom(r[i], questions[i]) && r[i].id == nq + i
  {
    forall i | 0 <= i < |questions| ensures CopiedFrom(CopyQuestions(questions, nq, no)[i], questions[i]) {
      CopyQuestionsAt(questions, nq, no, i);
      CopyQuestionCopied(questions[i], nq + i, no + OptionTotal(questions[..i]));
    }
  }

  /** The copies have fresh, distinct ids below the advanced counters. */
  lemma CopyQuestionsValid(questions: seq<TemplateQuestion>, nq: int, no: int)
    requires 0 < nq && 0 < no
    ensures QuestionsValid(CopyQuestions(questions, nq, no), nq + |questions|, no + OptionTotal(questions))
  {
    var r := CopyQuestions(questions, nq, no);
    forall i | 0 <= i < |questions| ensures r[i].id == nq + i && OptionsValid(r[i].options, no + OptionTotal(questions)) {
      CopiedQuestionValid(questions, nq, no, i);
    }
  }

  lemma CopiedQuestionValid(questions: seq<TemplateQuestion>, nq: int, no: int, i: int)
    requires 0 < no && 0 <= i < |questions|
    ensures CopyQuestions(questions, nq, no)[i].id == nq + i
    ensures OptionsValid(CopyQuestions(questions, nq, no)[i].options, no + OptionTotal(questions))
  {
    CopyQuestionsAt(questions, nq, no, i);
    var first := no + OptionTotal(questions[..i]);
    CopyQuestionCopied(questions[i], nq + i, first);
    OptionTotalPrefix(questions, i);
    OptionsValidMonotone(CopyQuestion(questions[i], nq + i, first).options, first + |questions[i].answerOptions|, no + OptionTotal(questions));
  }

  lemma CopyQuestionsSnoc(ordered: seq<TemplateQuestion>, i: int, nq: int, no: int)
    requires 0 <= i < |ordered|
    ensures CopyQuestions(ordered[..i + 1], nq, no)
         == CopyQuestions(ordered[..i], nq, no) + [CopyQuestion(ordered[i], nq + i, no + OptionTotal(ordered[..i]))]
    ensures OptionTotal(ordered[..i + 1]) == OptionTotal(ordered[..i]) + |ordered[i].answerOptions|
  {
    assert ordered[..i + 1][..i] == ordered[..i];
  }

  datatype UseTemplateResult = TemplateUnauthorized | TemplateNotFound | TemplateCopied(surveyId: int)

  function IndexOfTemplate(templates: seq<SurveyTemplate>, id: int): (k: nat)
    ensures k <= |templates|
    ensures k < |templates| ==> templates[k].id == id
    ensures k == |templates| ==> forall i :: 0 <= i < |templates| ==> templates[i].id != id
  {
    Linq.FirstIndex(templates, (t: SurveyTemplate) => t.id == id)
  }

  /** The survey UseTemplate creates from template `t`, before its questions are added. */
  function SurveyFromTemplate(t: SurveyTemplate, id: int, userId: string, now: int): (s: Survey)
    ensures s.id == id && s.creatorId == userId && s.createdDate == now
    ensures !s.isPublished && s.isAnonymous && s.questions == []
    ensures s.title == t.title && s.description == t.description && s.surveyType == t.surveyType
  {
    NewSurvey(id, userId, now).(title := t.title, description := t.description, surveyType := t.surveyType)
  }

  /**
   * UseTemplate: Unauthorized for a missing user, NotFound for an unknown template;
   * otherwise a new unpublished, anonymous survey owned by the caller with one
   * required question per template question (in Order) and the template's options.
   */
  method UseTemplate(db: SurveyDb, id: int, userId: Option<string>, now: int) returns (r: UseTemplateResult)
    requires db.Valid()
    modifies db`surveys, db`nextSurveyId, db`nextQuestionId, db`nextOptionId
    ensures db.Valid()
    ensures r == TemplateUnauthorized <==> IsNullOrEmpty(userId)
    ensures r == TemplateNotFound <==> !IsNullOrEmpty(userId) && IndexOfTemplate(db.templates, id) == |db.templates|
    ensures !r.TemplateCopied? ==> db.surveys == old(db.surveys)
    ensures r.TemplateCopied? ==>
      var t := db.templates[IndexOfTemplate(db.templates, id)];
      var ordered := LoadedQuestions(t);
      && r.surveyId == old(db.nextSurveyId)
      && db.surveys == old(db.surveys)
           + [SurveyFromTemplate(t, r.surveyId, userId.value, now).(questions := CopyQuestions(ordered, old(db.nextQuestionId), old(db.nextOptionId)))]
      && db.nextSurveyId == old(db.nextSurveyId) + 1
      && db.nextQuestionId == old(db.nextQuestionId) + |t.questions|
      && db.nextOptionId == old(db.nextOptionId) + OptionTotal(ordered)
  {
    if IsNullOrEmpty(userId) {
      return TemplateUnauthorized;
    }
    var k := IndexOfTemplate(db.templates, id);
    if k == |db.templates| {
      return TemplateNotFound;
    }
    var newId := AddCopy(db, db.templates[k], userId.value, now);
    r := TemplateCopied(newId);
  }

  /** The copy of template `t` for `userId`: its questions are numbered, then the survey is inserted. */
  method AddCopy(db: SurveyDb, t: SurveyTemplate, userId: string, now: int) returns (newId: int)
    requires db.Valid()
    modifies db`surveys, db`nextSurveyId, db`nextQuestionId, db`nextOptionId
    ensures db.Valid()
    ensures newId == old(db.nextSurveyId)
    ensures db.surveys == old(db.surveys)
      + [SurveyFromTemplate(t, newId, userId, now).(questions := CopyQuestions(LoadedQuestions(t), old(db.nextQuestionId), old(db.nextOptionId)))]
    ensures db.nextSurveyId == old(db.nextSurveyId) + 1
    ensures db.nextQuestionId == old(db.nextQuestionId) + |t.questions|
    ensures db.nextOptionId == old(db.nextOptionId) + OptionTotal(LoadedQuestions(t))
  {
    var ordered := LoadedQuestions(t);
    var questions, nextQ, nextO := CopyTemplateQuestions(ordered, db.nextQuestionId, db.nextOptionId);
    CopyQuestionsValid(ordered, db.nextQuestionId, db.nextOptionId);
    var s := SurveyFromTemplate(t, db.nextSurveyId, userId, now).(questions := questions);
    newId := db.nextSurveyId;
    InsertSurvey(db, s, nextQ, nextO);
  }

  /** SaveChangesAsync for the copy: the new survey is added under the next survey id and the
      counters move past the ids its questions and options took. */
  method InsertSurvey(db: SurveyDb, s: Survey, nextQ: int, nextO: int)
    requires db.Valid() && db.nextQuestionId <= nextQ && db.nextOptionId <= nextO
    requires s.id == db.nextSurveyId && QuestionsValid(s.questions, nextQ, nextO)
    modifies db`surveys, db`nextSurveyId, db`nextQuestionId, db`nextOptionId
    ensures db.Valid()
    ensures db.surveys == old(db.surveys) + [s] && db.nextSurveyId == old(db.nextSurveyId) + 1
    ensures db.nextQuestionId == nextQ && db.nextOptionId == nextO
  {
    SurveyService.SavedSurveysValid(db.surveys, db.responses, |db.surveys|, s, db.nextSurveyId, db.nextQuestionId, db.nextOptionId,
                                    nextQ, nextO, db.nextResponseId);
    db.StoreSurveys(db.surveys + [s], db.nextSurveyId + 1, nextQ, nextO);
  }

  /** The loop over the template's questions (in Order), each taking its ids from the counters. */
  method CopyTemplateQuestions(ordered: seq<TemplateQuestion>, nq: int, no: int) returns (questions: seq<Question>, nextQ: int, nextO: int)
    ensures questions == CopyQuestions(ordered, nq, no)
    ensures nextQ == nq + |ordered| && nextO == no + OptionTotal(ordered)
  {
    questions := [];
    nextQ, nextO := nq, no;
    var i := 0;
    while i < |ordered|
      invariant 0 <= i <= |ordered|
      invariant questions == CopyQuestions(ordered[..i], nq, no)
      invariant nextQ == nq + i && nextO == no + OptionTotal(ordered[..i])
    {
      CopyQuestionsSnoc(ordered, i, nq, no);
      var q := CopyQuestionAt(ordered[i], nextQ, nextO);
      questions := questions + [q];
      nextQ, nextO := nextQ + 1, nextO + |ordered[i].answerOptions|;
      i := i + 1;
    }
    assert ordered[..i] == ordered;
  }

  /** One question of the copy: takes the next question id and as many option ids as it has options. */
  method CopyQuestionAt(tq: TemplateQuestion, id: int, firstOptionId: int) returns (q: Question)
    ensures q == CopyQuestion(tq, id, firstOptionId)
  {
    var source := tq.answerOptions;
    var options := [];
    var j := 0;
    while j < |source|
      invariant 0 <= j <= |source| && |options| == j
      invariant forall m :: 0 <= m < j ==> options[m] == AnswerOption(firstOptionId + m, source[m].text, source[m].order, false)
    {
      options := options + [AnswerOption(firstOptionId + j, source[j].text, source[j].order, false)];
      j := j + 1;
    }
    CopyOptionsAt(source, firstOptionId);
    q := Question(id, tq.text, tq.questionType, true, tq.order, options);
  }
}
