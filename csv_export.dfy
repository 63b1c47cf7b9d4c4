/**
 * SurveyController.ExportToCsv and its helpers EscapeCsvField and
 * EscapeFileName. A record is the list of its cells; a line is the cells
 * joined by ",". SplitRecord reads a line back into raw cells the way
 * section 2 of RFC 4180 lays out a record (a field either holds no comma,
 * quote or line break, or is enclosed in double quotes with every inner
 * quote doubled), so that the column count of a line can be stated.
 */
module CsvExport {
  import opened Wrappers
  import opened SurveyData
  import opened Text
  import Linq

  // Escaping a field (rules 6 and 7 of section 2 of RFC 4180)

  predicate IsSpecial(c: char) {
    c == ',' || c == '"' || c == '\n' || c == '\r'
  }

  /** `field.Contains(",") || field.Contains("\"") || field.Contains("\n") || field.Contains("\r")`. */
  predicate NeedsQuoting(s: string)
    decreases |s|
  {
    s != [] && (IsSpecial(s[0]) || NeedsQuoting(s[1..]))
  }

  /** NeedsQuoting holds exactly when some character is a comma, a quote or a line break. */
  lemma {:induction false} NeedsQuotingIff(s: string)
    ensures NeedsQuoting(s) <==> exists i :: 0 <= i < |s| && IsSpecial(s[i])
  {
    if s != [] {
      NeedsQuotingIff(s[1..]);
      if !IsSpecial(s[0]) && !NeedsQuoting(s[1..]) {
        forall i | 0 <= i < |s| ensures !IsSpecial(s[i]) {
          if i > 0 {
            assert s[i] == s[1..][i - 1];
          }
        }
      }
    }
  }

  /** `s.Replace("\"", "\"\"")`. */
  function DoubleQuotes(s: string): (r: string)
    ensures |r| >= |s|
  {
    if s == [] then [] else (if s[0] == '"' then "\"\"" else [s[0]]) + DoubleQuotes(s[1..])
  }

  /** Every quote of `s` is one of a doubled pair. */
  predicate QuotesPaired(s: string)
    decreases |s|
  {
    if s == [] then true
    else if s[0] == '"' then |s| >= 2 && s[1] == '"' && QuotesPaired(s[2..])
    else QuotesPaired(s[1..])
  }

  predicate IsQuotedField(f: string) {
    |f| >= 2 && f[0] == '"' && f[|f| - 1] == '"' && QuotesPaired(f[1..|f| - 1])
  }

  /** A field as a record may hold it: plain, or quoted with inner quotes doubled. */
  predicate IsSafeField(f: string) {
    !NeedsQuoting(f) || IsQuotedField(f)
  }

  lemma {:induction false} DoubleQuotesPaired(s: string)
    ensures QuotesPaired(DoubleQuotes(s))
  {
    if s != [] {
      DoubleQuotesPaired(s[1..]);
      var t := DoubleQuotes(s[1..]);
      if s[0] == '"' {
        assert ("\"\"" + t)[2..] == t;
      } else {
        assert ([s[0]] + t)[1..] == t;
      }
    }
  }

  /** EscapeCsvField: "" for the empty field, the field itself when it holds no comma,
      quote or line break, and otherwise the field in quotes with its quotes doubled. */
  function EscapeCsvField(field: string): (r: string)
    ensures field == [] ==> r == []
    ensures !NeedsQuoting(field) ==> r == field
    ensures NeedsQuoting(field) ==> IsQuotedField(r)
    ensures IsSafeField(r)
  {
    if field == [] then []
    else if NeedsQuoting(field) then
      DoubleQuotesPaired(field);
      var r := "\"" + DoubleQuotes(field) + "\"";
      assert r[1..|r| - 1] == DoubleQuotes(field);
      r
    else field
  }

  /** Reading a doubled pair back as one quote. */
  function HalveQuotes(s: string): string
    decreases |s|
  {
    if s == [] then []
    else if |s| >= 2 && s[0] == '"' && s[1] == '"' then "\"" + HalveQuotes(s[2..])
    else [s[0]] + HalveQuotes(s[1..])
  }

  /** Strips the enclosing quotes of a quoted field and halves its doubled quotes. */
  function UnescapeCsvField(f: string): string {
    if |f| >= 2 && f[0] == '"' && f[|f| - 1] == '"' then HalveQuotes(f[1..|f| - 1]) else f
  }

  lemma {:induction false} HalveDoubleQuotes(s: string)
    ensures HalveQuotes(DoubleQuotes(s)) == s
  {
    if s != [] {
      HalveDoubleQuotes(s[1..]);
      var t := DoubleQuotes(s[1..]);
      if s[0] == '"' {
        assert ("\"\"" + t)[2..] == t;
      } else {
        assert ([s[0]] + t)[1..] == t;
      }
    }
  }

  /** Unescaping undoes escaping, for every field. */
  lemma EscapeRoundTrip(field: string)
    ensures UnescapeCsvField(EscapeCsvField(field)) == field
  {
    if field != [] && NeedsQuoting(field) {
      var r := EscapeCsvField(field);
      assert r[1..|r| - 1] == DoubleQuotes(field);
      HalveDoubleQuotes(field);
    } else if field != [] {
      assert field[0] != '"' by {
        assert !IsSpecial(field[0]);
      }
    }
  }

  // Reading a record back

  /** The length of a quoted field's body: up to the first quote that is not doubled. */
  function QuotedBodyLength(s: string): (n: nat)
    ensures n <= |s|
    decreases |s|
  {
    if s == [] then 0
    else if s[0] == '"' then (if |s| >= 2 && s[1] == '"' then 2 + QuotedBodyLength(s[2..]) else 0)
    else 1 + QuotedBodyLength(s[1..])
  }

  predicate IsComma(c: char) { c == ',' }

  /** The length of the first field of `s`. */
  function FieldLength(s: string): (n: nat)
    ensures n <= |s|
  {
    if s != [] && s[0] == '"' then
      var q := 2 + QuotedBodyLength(s[1..]);
      if q <= |s| then q else |s|
    else Linq.FirstIndex(s, IsComma)
  }

  /** The raw fields of one record, split at the commas that separate fields. */
  function SplitRecord(s: string): (r: seq<string>)
    ensures |r| >= 1
    decreases |s|
  {
    var n := FieldLength(s);
    if n < |s| then [s[..n]] + SplitRecord(s[n + 1..]) else [s]
  }

  lemma {:induction false} QuotedBodyLengthPaired(b: string, t: string)
    requires QuotesPaired(b)
    requires t == [] || t[0] != '"'
    ensures QuotedBodyLength(b + "\"" + t) == |b|
    decreases |b|
  {
    var s := b + "\"" + t;
    if b == [] {
      assert s == "\"" + t;
    } else if b[0] == '"' {
      assert s[2..] == b[2..] + "\"" + t;
      QuotedBodyLengthPaired(b[2..], t);
    } else {
      assert s[1..] == b[1..] + "\"" + t;
      QuotedBodyLengthPaired(b[1..], t);
    }
  }

  lemma FieldLengthSafe(f: string, t: string)
    requires IsSafeField(f)
    requires t == [] || t[0] == ','
    ensures FieldLength(f + t) == |f|
  {
    var s := f + t;
    if IsQuotedField(f) {
      var b := f[1..|f| - 1];
      assert f == "\"" + b + "\"";
      assert s[1..] == b + "\"" + t;
      QuotedBodyLengthPaired(b, t);
    } else {
      NeedsQuotingIff(f);
      assert forall i :: 0 <= i < |f| ==> !IsComma(s[i]) by {
        forall i | 0 <= i < |f| ensures !IsComma(s[i]) {
          assert s[i] == f[i] && !IsSpecial(f[i]);
        }
      }
      if f != [] {
        assert s[0] == f[0] && !IsSpecial(f[0]);
      }
      var k := Linq.FirstIndex(s, IsComma);
      if t != [] {
        assert IsComma(s[|f|]);
      }
    }
  }

  /** A record of safe fields joined with "," splits back into exactly those fields. */
  lemma {:induction false} SplitJoin(fields: seq<string>)
    requires |fields| >= 1
    requires forall i :: 0 <= i < |fields| ==> IsSafeField(fields[i])
    ensures SplitRecord(Join(",", fields)) == fields
  {
    if |fields| == 1 {
      FieldLengthSafe(fields[0], []);
      assert fields[0] + [] == fields[0];
    } else {
      var f := fields[0];
      var rest := Join(",", fields[1..]);
      var s := Join(",", fields);
      assert s == f + ("," + rest);
      FieldLengthSafe(f, "," + rest);
      assert s[..|f|] == f;
      assert s[|f| + 1..] == rest;
      SplitJoin(fields[1..]);
      assert fields == [f] + fields[1..];
    }
  }

  function EscapeAll(values: seq<string>): (r: seq<string>)
    ensures |r| == |values|
    ensures forall i :: 0 <= i < |values| ==> r[i] == EscapeCsvField(values[i])
  {
    if values == [] then [] else [EscapeCsvField(values[0])] + EscapeAll(values[1..])
  }

  function UnescapeAll(fields: seq<string>): (r: seq<string>)
    ensures |r| == |fields|
    ensures forall i :: 0 <= i < |fields| ==> r[i] == UnescapeCsvField(fields[i])
  {
    if fields == [] then [] else [UnescapeCsvField(fields[0])] + UnescapeAll(fields[1..])
  }

  /** Escaping every value and joining with "," gives a line that reads back as the values. */
  lemma EscapeAllSafe(values: seq<string>)
    ensures forall i :: 0 <= i < |values| ==> IsSafeField(EscapeAll(values)[i])
  {
  }

  lemma UnescapeEscapeAll(values: seq<string>)
    ensures UnescapeAll(EscapeAll(values)) == values
  {
    forall i | 0 <= i < |values| ensures UnescapeCsvField(EscapeCsvField(values[i])) == values[i] {
      EscapeRoundTrip(values[i]);
    }
  }

  lemma RecordRoundTrip(values: seq<string>)
    requires |values| >= 1
    ensures UnescapeAll(SplitRecord(Join(",", EscapeAll(values)))) == values
  {
    EscapeAllSafe(values);
    SplitJoin(EscapeAll(values));
    UnescapeEscapeAll(values);
  }

  // The file name

  /**
   * EscapeFileName: "survey" for an empty title, and otherwise the title with
   * every character of `invalid` (Path.GetInvalidFileNameChars()) replaced by '_'.
   */
  function EscapeFileName(name: string, invalid: set<char>): (r: string)
    ensures name == [] ==> r == "survey"
    ensures name != [] ==> |r| == |name|
    ensures name != [] ==> forall i :: 0 <= i < |name| ==> r[i] == if name[i] in invalid then '_' else name[i]
  {
    if name == [] then "survey"
    else MapChars(name, (c: char) => if c in invalid then '_' else c)
  }

  /** With '_' and the letters of "survey" valid, no invalid character is left and escaping again changes nothing. */
  lemma EscapeFileNameClean(name: string, invalid: set<char>)
    requires '_' !in invalid
    requires forall c :: c in "survey" ==> c !in invalid
    ensures forall i :: 0 <= i < |EscapeFileName(name, invalid)| ==> EscapeFileName(name, invalid)[i] !in invalid
    ensures EscapeFileName(EscapeFileName(name, invalid), invalid) == EscapeFileName(name, invalid)
  {
    var r := EscapeFileName(name, invalid);
    if name == [] {
      assert forall i :: 0 <= i < |r| ==> r[i] in "survey";
    }
  }

  // The export

  const AnonymousRespondent := "Анонимно"
  const MissingEmail := "Не указан"
  const FixedHeaders := ["ID ответа", "Дата отправки", "Email пользователя"]

  /** `question.AnswerOptions.FirstOrDefault(o => o.Id == id)?.Text`. */
  function OptionText(options: seq<AnswerOption>, id: int): Option<string> {
    var k := Linq.FirstIndex(options, (o: AnswerOption) => o.id == id);
    if k < |options| then Some(options[k].text) else None
  }

  /** An option text is found exactly when some option has the id, and it is the text of such an option. */
  lemma OptionTextFound(options: seq<AnswerOption>, id: int)
    ensures OptionText(options, id).Some? <==> exists i :: 0 <= i < |options| && options[i].id == id
    ensures OptionText(options, id).Some? ==>
      exists i :: 0 <= i < |options| && options[i].id == id && options[i].text == OptionText(options, id).value
  {
    var k := Linq.FirstIndex(options, (o: AnswerOption) => o.id == id);
    if k == |options| {
      forall i | 0 <= i < |options| ensures options[i].id != id {
        var p := (o: AnswerOption) => o.id == id;
        assert !p(options[i]);
      }
    }
  }

  /** The MultipleChoice cell's parts: the texts of the known selected options that are not empty, in answer order. */
  function SelectedTexts(options: seq<AnswerOption>, answers: seq<UserAnswer>): seq<string> {
    if answers == [] then []
    else
      var a := answers[0];
      var here := if a.selectedOptionId.Some? && OptionText(options, a.selectedOptionId.value).GetOr([]) != []
        then [OptionText(options, a.selectedOptionId.value).value] else [];
      here + SelectedTexts(options, answers[1..])
  }

  /** At most one part per answer, each a non-empty text of one of the question's options. */
  lemma {:induction false} SelectedTextsOfOptions(options: seq<AnswerOption>, answers: seq<UserAnswer>)
    ensures |SelectedTexts(options, answers)| <= |answers|
    ensures forall i :: 0 <= i < |SelectedTexts(options, answers)| ==>
      SelectedTexts(options, answers)[i] != [] && exists j :: 0 <= j < |options| && options[j].text == SelectedTexts(options, answers)[i]
  {
    if answers != [] {
      SelectedTextsOfOptions(options, answers[1..]);
      var a := answers[0];
      if a.selectedOptionId.Some? {
        OptionTextFound(options, a.selectedOptionId.value);
      }
    }
  }

  /** The answers of one response to one question (`UserAnswers.Where(ua => ua.QuestionId == question.Id)`). */
  function AnswersTo(response: SurveyResponse, questionId: int): seq<UserAnswer> {
    Linq.Filter(response.userAnswers, (a: UserAnswer) => a.questionId == questionId)
  }

  /** The text of the cell for one question, before escaping. */
  function AnswerCell(q: Question, answers: seq<UserAnswer>): string
  {
    if answers == [] then []
    else if q.questionType == ShortText || q.questionType == ParagraphText then answers[0].textAnswer.GetOr([])
    else if q.questionType == MultipleChoice then Join("; ", SelectedTexts(q.options, answers))
    else if answers[0].selectedOptionId.Some? then OptionText(q.options, answers[0].selectedOptionId.value).GetOr([])
    else []
  }

  /** The escaped cell of one response for one question. */
  function QuestionCell(q: Question, response: SurveyResponse): string {
    EscapeCsvField(AnswerCell(q, AnswersTo(response, q.id)))
  }

  /** Each question's cell is a well-formed field that reads back as the answer text. */
  lemma QuestionCellSafe(q: Question, response: SurveyResponse)
    ensures IsSafeField(QuestionCell(q, response))
    ensures UnescapeCsvField(QuestionCell(q, response)) == AnswerCell(q, AnswersTo(response, q.id))
  {
    EscapeRoundTrip(AnswerCell(q, AnswersTo(response, q.id)));
  }

  /** The cell function of one response. */
  function CellOf(response: SurveyResponse): Question -> string {
    (q: Question) => QuestionCell(q, response)
  }

  /** The escaped answer cells of one response, one per question. */
  function AnswerCells(questions: seq<Question>, response: SurveyResponse): seq<string> {
    Linq.Map(questions, CellOf(response))
  }

  /** The response's User navigation: the account whose id is the response's UserId. */
  function UserOf(users: seq<AppUser>, userId: Option<string>): (r: Option<AppUser>)
    ensures r.Some? ==> userId.Some? && r.value.id == userId.value
  {
    if userId.None? then None
    else
      var k := Linq.FirstIndex(users, (u: AppUser) => u.id == userId.value);
      if k < |users| then Some(users[k]) else None
  }

  /** `survey.IsAnonymous || response.User == null ? "Анонимно" : (response.User.Email ?? "Не указан")`. */
  function Respondent(survey: Survey, users: seq<AppUser>, response: SurveyResponse): (r: string)
    ensures survey.isAnonymous ==> r == AnonymousRespondent
    ensures !survey.isAnonymous && UserOf(users, response.userId).None? ==> r == AnonymousRespondent
    ensures !survey.isAnonymous && UserOf(users, response.userId).Some? ==>
      r == UserOf(users, response.userId).value.email.GetOr(MissingEmail)
  {
    if survey.isAnonymous then AnonymousRespondent
    else match UserOf(users, response.userId)
      case None => AnonymousRespondent
      case Some(u) => u.email.GetOr(MissingEmail)
  }

  function HeaderCells(questions: seq<Question>): (r: seq<string>)
    ensures |r| == 3 + |questions|
  {
    FixedHeaders + EscapeAll(QuestionTexts(questions))
  }

  function QuestionTexts(questions: seq<Question>): (r: seq<string>)
    ensures |r| == |questions|
    ensures forall i :: 0 <= i < |questions| ==> r[i] == questions[i].text
  {
    if questions == [] then [] else [questions[0].text] + QuestionTexts(questions[1..])
  }

  /** The cells of a response's line as the source writes them: the respondent cell is not escaped. */
  function RowCellsAsWritten(survey: Survey, users: seq<AppUser>, response: SurveyResponse,
                             questions: seq<Question>, dateText: int -> string): (r: seq<string>)
    ensures |r| == 3 + |questions|
  {
    [IntToString(response.id), dateText(response.submissionDate), Respondent(survey, users, response)]
      + AnswerCells(questions, response)
  }

  /** The cells of a response's line, with the respondent cell escaped like every other free-text cell. */
  function RowCells(survey: Survey, users: seq<AppUser>, response: SurveyResponse,
                    questions: seq<Question>, dateText: int -> string): (r: seq<string>)
    ensures |r| == 3 + |questions|
    ensures r[3..] == AnswerCells(questions, response)
  {
    LeadCells(survey, users, response, dateText) + AnswerCells(questions, response)
  }

  /** The response id, the formatted submission date and the escaped respondent. */
  function LeadCells(survey: Survey, users: seq<AppUser>, response: SurveyResponse, dateText: int -> string): seq<string> {
    [IntToString(response.id), dateText(response.submissionDate), EscapeCsvField(Respondent(survey, users, response))]
  }

  lemma NatToStringPlain(n: nat)
    ensures !NeedsQuoting(NatToString(n))
  {
    var s := NatToString(n);
    forall i | 0 <= i < |s| ensures !IsSpecial(s[i]) {
      assert IsDigit(s[i]);
    }
    NeedsQuotingIff(s);
  }

  lemma IntToStringPlain(n: int)
    ensures !NeedsQuoting(IntToString(n))
  {
    var m := if n < 0 then -n else n;
    NatToStringPlain(m);
    var s := IntToString(n);
    var d := NatToString(m);
    NeedsQuotingIff(d);
    forall i | 0 <= i < |s| ensures !IsSpecial(s[i]) {
      if n < 0 {
        assert s == "-" + d;
        if i > 0 { assert s[i] == d[i - 1]; }
      }
    }
    NeedsQuotingIff(s);
  }

  lemma FixedHeadersPlain()
    ensures forall i :: 0 <= i < |FixedHeaders| ==> !NeedsQuoting(FixedHeaders[i])
  {
    forall i | 0 <= i < |FixedHeaders| ensures !NeedsQuoting(FixedHeaders[i]) {
      var h := FixedHeaders[i];
      forall j | 0 <= j < |h| ensures !IsSpecial(h[j]) {
        assert h[j] in h;
      }
      NeedsQuotingIff(h);
    }
  }

  /** The header line has 3 + #questions columns and reads back as the headers and question texts. */
  lemma HeaderColumns(questions: seq<Question>)
    ensures |SplitRecord(Join(",", HeaderCells(questions)))| == 3 + |questions|
    ensures UnescapeAll(SplitRecord(Join(",", HeaderCells(questions)))) == FixedHeaders + QuestionTexts(questions)
  {
    var values := FixedHeaders + QuestionTexts(questions);
    FixedHeadersPlain();
    assert EscapeAll(values) == HeaderCells(questions) by {
      forall i | 0 <= i < 3 ensures EscapeCsvField(values[i]) == values[i] {
        assert !NeedsQuoting(FixedHeaders[i]);
      }
    }
    RecordRoundTrip(values);
    SplitJoin(HeaderCells(questions));
  }

  /** Every response's line has 3 + #questions columns, whatever the answers and the respondent,
      as long as the formatted date holds no comma, quote or line break. */
  lemma RowColumns(survey: Survey, users: seq<AppUser>, response: SurveyResponse,
                   questions: seq<Question>, dateText: int -> string)
    requires !NeedsQuoting(dateText(response.submissionDate))
    ensures SplitRecord(Join(",", RowCells(survey, users, response, questions, dateText)))
         == RowCells(survey, users, response, questions, dateText)
    ensures |SplitRecord(Join(",", RowCells(survey, users, response, questions, dateText)))| == 3 + |questions|
  {
    IntToStringPlain(response.id);
    forall i | 0 <= i < |questions| ensures IsSafeField(AnswerCells(questions, response)[i]) {
      QuestionCellSafe(questions[i], response);
    }
    SplitJoin(RowCells(survey, users, response, questions, dateText));
  }

  /** As written, an e-mail with a comma adds a column to its line. */
  lemma RespondentCommaShiftsColumns(survey: Survey, users: seq<AppUser>, response: SurveyResponse,
                                     dateText: int -> string)
    requires !NeedsQuoting(dateText(response.submissionDate))
    requires !survey.isAnonymous && UserOf(users, response.userId).Some?
    requires UserOf(users, response.userId).value.email == Some("a,b@c.d")
    ensures |SplitRecord(Join(",", RowCellsAsWritten(survey, users, response, [], dateText)))| == 4
    ensures |SplitRecord(Join(",", RowCells(survey, users, response, [], dateText)))| == 3
  {
    var id := IntToString(response.id);
    var date := dateText(response.submissionDate);
    IntToStringPlain(response.id);
    var written := RowCellsAsWritten(survey, users, response, [], dateText);
    assert written == [id, date, "a,b@c.d"];
    var split := [id, date, "a", "b@c.d"];
    assert split[1..][1..] == ["a", "b@c.d"];
    assert Join(",", ["a", "b@c.d"]) == "a" + "," + "b@c.d" == "a,b@c.d";
    assert Join(",", split[1..]) == date + "," + "a,b@c.d";
    assert written[1..][1..] == ["a,b@c.d"];
    assert Join(",", written[1..]) == date + "," + "a,b@c.d";
    assert Join(",", written) == Join(",", split);
    assert !NeedsQuoting("a") by { assert forall j :: 0 <= j < |"a"| ==> "a"[j] == 'a'; }
    assert !NeedsQuoting("b@c.d") by {
      forall j | 0 <= j < |"b@c.d"| ensures !IsSpecial("b@c.d"[j]) {
        assert "b@c.d"[j] in "b@c.d";
      }
      NeedsQuotingIff("b@c.d");
    }
    SplitJoin(split);
    RowColumns(survey, users, response, [], dateText);
  }

  function StableByDate(r: SurveyResponse): int { r.submissionDate }
  function ByOrder(q: Question): int { q.order }

  /** The download name: "Результаты_", the escaped title, "_", the export stamp and ".csv". */
  function ExportFileName(title: string, invalid: set<char>, stamp: string): string {
    "Результаты_" + EscapeFileName(title, invalid) + "_" + stamp + ".csv"
  }

  /** The header line: the fixed headers, then the escaped question texts. */
  function HeaderLine(questions: seq<Question>): string {
    Join(",", HeaderCells(questions))
  }

  /** The line of one response. */
  function RowLine(survey: Survey, users: seq<AppUser>, response: SurveyResponse,
                   questions: seq<Question>, dateText: int -> string): string {
    Join(",", RowCells(survey, users, response, questions, dateText))
  }

  /** The inner loop of ExportToCsv: the line of one response, one cell per question. */
  method BuildRow(survey: Survey, users: seq<AppUser>, response: SurveyResponse,
                  questions: seq<Question>, dateText: int -> string) returns (line: string)
    ensures line == RowLine(survey, users, response, questions, dateText)
  {
    var cells := [];
    var j := 0;
    while j < |questions|
      invariant 0 <= j <= |questions|
      invariant cells == AnswerCells(questions[..j], response)
    {
      Linq.MapPrefixSnoc(questions, CellOf(response), j);
      cells := cells + [QuestionCell(questions[j], response)];
      j := j + 1;
    }
    assert questions[..j] == questions;
    line := Join(",", LeadCells(survey, users, response, dateText) + cells);
  }

  /** The line function of the responses of one export. */
  function LineOf(survey: Survey, users: seq<AppUser>, questions: seq<Question>, dateText: int -> string): SurveyResponse -> string {
    (response: SurveyResponse) => RowLine(survey, users, response, questions, dateText)
  }

  /** The lines of the responses, in the given order. */
  function RowLines(survey: Survey, users: seq<AppUser>, ordered: seq<SurveyResponse>,
                    questions: seq<Question>, dateText: int -> string): seq<string> {
    Linq.Map(ordered, LineOf(survey, users, questions, dateText))
  }

  /** The outer loop of ExportToCsv: the header line, then one line per response in the given order. */
  method BuildLines(header: string, survey: Survey, ordered: seq<SurveyResponse>, users: seq<AppUser>,
                    questions: seq<Question>, dateText: int -> string) returns (lines: seq<string>)
    ensures lines == [header] + RowLines(survey, users, ordered, questions, dateText)
  {
    lines := [header];
    var i := 0;
    while i < |ordered|
      invariant 0 <= i <= |ordered|
      invariant lines == [header] + RowLines(survey, users, ordered[..i], questions, dateText)
    {
      var line := BuildRow(survey, users, ordered[i], questions, dateText);
      Linq.MapPrefixSnoc(ordered, LineOf(survey, users, questions, dateText), i);
      lines := lines + [line];
      i := i + 1;
    }
    assert ordered[..i] == ordered;
  }

  /**
   * ExportToCsv: the header line, then one line per response in submission
   * order (ties in store order), each holding one cell per question in
   * question order; and the file name. `dateText` formats a timestamp as
   * "yyyy-MM-dd HH:mm:ss", `stamp` is the export time as "yyyyMMdd_HHmmss"
   * and `invalid` is the platform's set of characters not allowed in a file name.
   */
  method ExportToCsv(survey: Survey, responses: seq<SurveyResponse>, users: seq<AppUser>,
                     dateText: int -> string, stamp: string, invalid: set<char>)
    returns (lines: seq<string>, fileName: string)
    ensures lines == [HeaderLine(Linq.SortBy(survey.questions, ByOrder))]
      + RowLines(survey, users, Linq.SortBy(responses, StableByDate), Linq.SortBy(survey.questions, ByOrder), dateText)
    ensures fileName == ExportFileName(survey.title, invalid, stamp)
  {
    var ordered := Linq.SortBy(responses, StableByDate);
    var questions := Linq.SortBy(survey.questions, ByOrder);
    lines := BuildLines(HeaderLine(questions), survey, ordered, users, questions, dateText);
    fileName := ExportFileName(survey.title, invalid, stamp);
  }
}
