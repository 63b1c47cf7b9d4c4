/**
 * The persistent entities of the survey builder and the in-memory store that
 * stands for the database. A survey owns its questions and a question owns
 * its answer options, so the foreign keys Question.SurveyId and
 * AnswerOption.QuestionId are implied by nesting. Responses refer to their
 * survey by id. Dates are abstract timestamps.
 */
module SurveyData {
  import opened Wrappers

  datatype QuestionType = ShortText | ParagraphText | SingleChoice | MultipleChoice | Scale

  /** Poll = 1, Questionnaire = 2. Unset is the enum's default value 0, which names no member:
      the Type of a Survey constructed without one. */
  datatype SurveyType = Unset | Poll | Questionnaire

  /** Immediately = 1, AfterManualReview = 2. */
  datatype GradePublicationType = Immediately | AfterManualReview

  datatype TestModeSettings = TestModeSettings(
    isTestMode: bool,
    gradePublication: GradePublicationType,
    showIncorrectAnswers: bool,
    showCorrectAnswers: bool,
    showPoints: bool,
    defaultMaxPoints: int)

  /** The property initialisers of a freshly constructed Survey. */
  const DefaultTestMode := TestModeSettings(false, AfterManualReview, true, true, true, 0)

  datatype ThemeSettings = ThemeSettings(
    themeColor: Option<string>,
    backgroundColor: Option<string>,
    headerImagePath: Option<string>,
    headerFontFamily: Option<string>,
    headerFontSize: Option<int>,
    questionFontFamily: Option<string>,
    questionFontSize: Option<int>,
    textFontFamily: Option<string>,
    textFontSize: Option<int>)

  const DefaultTheme := ThemeSettings(
    Some("#673AB7"), Some("#F3E5F5"), None,
    Some("Courier New"), Some(24), Some("Roboto"), Some(12), Some("Roboto"), Some(11))

  datatype AnswerOption = AnswerOption(id: int, text: string, order: int, isOther: bool)

  datatype Question = Question(
    id: int,
    text: string,
    questionType: QuestionType,
    isRequired: bool,
    order: int,
    options: seq<AnswerOption>)

  datatype Survey = Survey(
    id: int,
    title: string,
    description: string,
    surveyType: SurveyType,
    isPublished: bool,
    isAnonymous: bool,
    createdDate: int,
    endDate: Option<int>,
    testMode: TestModeSettings,
    theme: ThemeSettings,
    creatorId: string,
    questions: seq<Question>)

  /** A Survey built by `new Survey { CreatorId, CreatedDate, Questions = new List() }`:
      everything else keeps its initialiser, and Type keeps the default 0. Title and
      description are set by the caller. */
  function NewSurvey(id: int, creatorId: string, createdDate: int): (s: Survey)
    ensures s.id == id && s.creatorId == creatorId && s.createdDate == createdDate
    ensures !s.isPublished && s.isAnonymous && s.questions == [] && s.surveyType == Unset
  {
    Survey(id, "", "", Unset, false, true, createdDate, None, DefaultTestMode, DefaultTheme, creatorId, [])
  }

  datatype UserAnswer = UserAnswer(
    id: int,
    questionId: int,
    textAnswer: Option<string>,
    selectedOptionId: Option<int>)

  datatype SurveyResponse = SurveyResponse(
    id: int,
    surveyId: int,
    submissionDate: int,
    userId: Option<string>,
    userAnswers: seq<UserAnswer>)

  datatype TemplateAnswerOption = TemplateAnswerOption(text: string, order: int)

  datatype TemplateQuestion = TemplateQuestion(
    order: int,
    text: string,
    questionType: QuestionType,
    answerOptions: seq<TemplateAnswerOption>)

  datatype SurveyTemplate = SurveyTemplate(
    id: int,
    title: string,
    description: string,
    surveyType: SurveyType,
    creatorId: string,
    questions: seq<TemplateQuestion>)

  /** An Identity account: its id and the nullable Email, UserName, FirstName and LastName. */
  datatype AppUser = AppUser(
    id: string,
    email: Option<string>,
    userName: Option<string>,
    firstName: Option<string>,
    lastName: Option<string>)

  // The definition the editor posts (SaveSurveyViewModel and its parts).
  // Ids are optional; the editor sends negative temporary ids for new rows.

  datatype OptionDefinition = OptionDefinition(id: Option<int>, text: string, order: int)

  datatype QuestionDefinition = QuestionDefinition(
    id: Option<int>,
    order: int,
    text: string,
    questionType: QuestionType,
    isRequired: bool,
    options: Option<seq<OptionDefinition>>)

  datatype SurveyDefinition = SurveyDefinition(
    id: Option<int>,
    title: string,
    description: string,
    surveyType: SurveyType,
    isPublished: bool,
    endDate: Option<int>,
    isAnonymous: bool,
    questions: seq<QuestionDefinition>)

  // Well-formedness of the stored graph: ids are positive, below the store's
  // identity counters and distinct among siblings.

  predicate OptionsValid(options: seq<AnswerOption>, nextOptionId: int) {
    && (forall i :: 0 <= i < |options| ==> 0 < options[i].id < nextOptionId)
    && (forall i, j :: 0 <= i < j < |options| ==> options[i].id != options[j].id)
  }

  predicate QuestionsValid(questions: seq<Question>, nextQuestionId: int, nextOptionId: int) {
    && (forall i :: 0 <= i < |questions| ==> 0 < questions[i].id < nextQuestionId)
    && (forall i, j :: 0 <= i < j < |questions| ==> questions[i].id != questions[j].id)
    && (forall i :: 0 <= i < |questions| ==> OptionsValid(questions[i].options, nextOptionId))
  }

  predicate SurveysValid(surveys: seq<Survey>, nextSurveyId: int, nextQuestionId: int, nextOptionId: int) {
    && (forall i :: 0 <= i < |surveys| ==> 0 < surveys[i].id < nextSurveyId)
    && (forall i, j :: 0 <= i < j < |surveys| ==> surveys[i].id != surveys[j].id)
    && (forall i :: 0 <= i < |surveys| ==> QuestionsValid(surveys[i].questions, nextQuestionId, nextOptionId))
  }

  function SurveyIds(surveys: seq<Survey>): set<int> {
    set i | 0 <= i < |surveys| :: surveys[i].id
  }

  /** Every response has a fresh id and belongs to a stored survey (the cascade keeps it so). */
  predicate ResponsesValid(responses: seq<SurveyResponse>, surveys: seq<Survey>, nextResponseId: int) {
    && (forall i :: 0 <= i < |responses| ==> 0 < responses[i].id < nextResponseId)
    && (forall i, j :: 0 <= i < j < |responses| ==> responses[i].id != responses[j].id)
    && (forall i :: 0 <= i < |responses| ==> responses[i].surveyId in SurveyIds(surveys))
  }

  /** Responses stay valid when no survey id goes away. */
  lemma ResponsesValidMoreSurveys(responses: seq<SurveyResponse>, surveys: seq<Survey>, surveys': seq<Survey>, nextResponseId: int)
    requires ResponsesValid(responses, surveys, nextResponseId) && SurveyIds(surveys) <= SurveyIds(surveys')
    ensures ResponsesValid(responses, surveys', nextResponseId)
  {
  }

  predicate TemplatesValid(templates: seq<SurveyTemplate>) {
    forall i, j :: 0 <= i < j < |templates| ==> templates[i].id != templates[j].id
  }

  lemma OptionsValidMonotone(options: seq<AnswerOption>, n: int, m: int)
    requires OptionsValid(options, n) && n <= m
    ensures OptionsValid(options, m)
  {
  }

  /** The first survey with this id (DbSet.FindAsync / FirstOrDefault on the key), as an index. */
  function IndexOfSurvey(surveys: seq<Survey>, id: int): (k: nat)
    ensures k <= |surveys|
    ensures k < |surveys| ==> surveys[k].id == id
    ensures k == |surveys| <==> id !in SurveyIds(surveys)
  {
    if surveys == [] then 0
    else if surveys[0].id == id then 0
    else
      assert SurveyIds(surveys) == {surveys[0].id} + SurveyIds(surveys[1..]) by {
        forall x | x in SurveyIds(surveys) ensures x in {surveys[0].id} + SurveyIds(surveys[1..]) {
          var i :| 0 <= i < |surveys| && surveys[i].id == x;
          if i > 0 { assert surveys[1..][i - 1] == surveys[i]; }
        }
      }
      1 + IndexOfSurvey(surveys[1..], id)
  }

  /** The first survey with this id whose creator is `userId`
      (`FirstOrDefault(s => s.Id == id && s.CreatorId == userId)`), as an index. */
  function IndexOfOwnedSurvey(surveys: seq<Survey>, id: int, userId: string): (k: nat)
    ensures k <= |surveys|
    ensures k < |surveys| ==> surveys[k].id == id && surveys[k].creatorId == userId
    ensures k == |surveys| <==> forall i :: 0 <= i < |surveys| ==> !(surveys[i].id == id && surveys[i].creatorId == userId)
  {
    if surveys == [] then 0
    else if surveys[0].id == id && surveys[0].creatorId == userId then 0
    else 1 + IndexOfOwnedSurvey(surveys[1..], id, userId)
  }

  function UserIds(users: seq<AppUser>): set<string> {
    set i | 0 <= i < |users| :: users[i].id
  }

  /** Account ids are distinct and every role member is an account. */
  predicate UsersValid(users: seq<AppUser>, roles: map<string, set<string>>) {
    && (forall i, j :: 0 <= i < j < |users| ==> users[i].id != users[j].id)
    && (forall n :: n in roles ==> roles[n] <= UserIds(users))
  }

  /**
   * The database: the tables the core touches, and the identity counters
   * that hand out the next key of each table when a row is inserted.
   */
  class SurveyDb {
    var surveys: seq<Survey>
    var responses: seq<SurveyResponse>
    var templates: seq<SurveyTemplate>
    var users: seq<AppUser>
    /** Role memberships: normalised role name to the ids of its members. */
    var roles: map<string, set<string>>
    var nextSurveyId: int
    var nextQuestionId: int
    var nextOptionId: int
    var nextResponseId: int

    predicate Valid()
      reads this
    {
      && 0 < nextSurveyId && 0 < nextQuestionId && 0 < nextOptionId && 0 < nextResponseId
      && SurveysValid(surveys, nextSurveyId, nextQuestionId, nextOptionId)
      && ResponsesValid(responses, surveys, nextResponseId)
      && TemplatesValid(templates)
      && UsersValid(users, roles)
    }

    /** SaveChangesAsync of a change to the survey graph: the survey table and the id counters
        take their new values; the other tables are untouched. */
    method StoreSurveys(surveys': seq<Survey>, ns: int, nq: int, no: int)
      requires 0 < ns && 0 < nq && 0 < no && 0 < nextResponseId
      requires SurveysValid(surveys', ns, nq, no) && ResponsesValid(responses, surveys', nextResponseId)
      requires TemplatesValid(templates) && UsersValid(users, roles)
      modifies this`surveys, this`nextSurveyId, this`nextQuestionId, this`nextOptionId
      ensures Valid()
      ensures surveys == surveys' && nextSurveyId == ns && nextQuestionId == nq && nextOptionId == no
    {
      surveys, nextSurveyId, nextQuestionId, nextOptionId := surveys', ns, nq, no;
    }

    /** SaveChangesAsync of a change to surveys that allocates no id. */
    method StoreSurveyTable(surveys': seq<Survey>)
      requires 0 < nextSurveyId && 0 < nextQuestionId && 0 < nextOptionId && 0 < nextResponseId
      requires SurveysValid(surveys', nextSurveyId, nextQuestionId, nextOptionId) && ResponsesValid(responses, surveys', nextResponseId)
      requires TemplatesValid(templates) && UsersValid(users, roles)
      modifies this`surveys
      ensures Valid() && surveys == surveys'
    {
      surveys := surveys';
    }

    constructor (templates: seq<SurveyTemplate>, users: seq<AppUser>, roles: map<string, set<string>>)
      requires TemplatesValid(templates) && UsersValid(users, roles)
      ensures Valid()
      ensures this.surveys == [] && this.responses == []
      ensures this.templates == templates && this.users == users && this.roles == roles
    {
      this.roles := roles;
      this.surveys := [];
      this.responses := [];
      this.templates := templates;
      this.users := users;
      this.nextSurveyId := 1;
      this.nextQuestionId := 1;
      this.nextOptionId := 1;
      this.nextResponseId := 1;
    }
  }
}
