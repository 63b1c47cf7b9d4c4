# NovoyaHope survey builder: a Dafny model of its core

NovoyaHope is an ASP.NET survey builder. An author builds a survey of
questions, each with answer options, in an editor. The author publishes the
survey. Respondents fill in published surveys. The author reads the aggregated
results or exports them as CSV. An administrator manages accounts, roles,
surveys and templates.

This project models the logic under those screens:

- **Saving a survey definition** (`SurveyService.SaveSurveyAsync`). The save is a three-way diff between the stored question graph and the posted definition, run once for questions and once per question for answer options:
  - stored rows whose id is not listed are removed;
  - rows whose positive id matches a stored row overwrite it;
  - rows with no id or a non-positive id are appended;
  - rows with a positive id that matches nothing are skipped.
- **Publication state and its gates.** This covers the service's status change and delete, `Publish` / `Unpublish` in the survey controller, the administrator's toggle, and the public controller, which shows and accepts responses only for published surveys.
- **Results.**
  - Per-question aggregation: text answers, per-option counts and the Scale average.
  - The CSV export: field escaping, the row layout and the file name.
- **Template copy** (`UseTemplate`).
- **Administration.**
  - The "never remove the last Administrator" guard in account deletion and role toggling.
  - Paging and search in the listings.
- **Field validators and profile helpers.**
  - `ValidationHelper`: e-mail, phone, password, name, sanitising, length and control characters.
  - `ProfileViewModel`: full name, initials, completeness, password strength and the display helpers.
  - `ImageHelper`: upload checks and file-size units.

The store is the class `SurveyData.SurveyDb`:

- Its fields are sequences of surveys, responses, templates and accounts, a map of role memberships, and the identity counters the database would draw keys from.
- Controller and service actions are methods that change it.
- `SaveChangesAsync` is one atomic commit.
- A survey holds its questions and each question its options.

The editor's save is specified twice:

- as folds over the definition, in `Reconcile`;
- as the loops the service runs, in `SurveyService`, proved equal to the folds.

Pure helpers are functions. Each function is paired with lemmas: round trips (CSV escaping), closed forms (the reconcile folds), idempotence (re-saving a described survey, sanitising, phone formatting) and if-and-only-if characterisations of the validators.

Modules: `Wrappers`, `Text`, `Linq`, `SurveyData`, `Reconcile`, `SurveyService`, `ResultsAggregation`, `CsvExport`, `SurveyController`, `PublicController`, `AdminController`, `ValidationHelper`, `ProfileViewModels`, `ImageHelper`.

## Model

| member | source | states |
|---|---|---|
| SurveyData.NewSurvey | NovoyaHope/Services/SurveyService.cs:42-47 | a created survey has the given id, creator and creation date, no questions, and the entity's initial flags: unpublished and anonymous, with the type left at the enum's unnamed default 0 (Unset) |
| SurveyData.IndexOfSurvey | NovoyaHope/Controllers/SurveyController.cs:398 | FindAsync on the key: the first survey with the id, or the end of the list exactly when no survey has it |
| SurveyData.IndexOfOwnedSurvey | NovoyaHope/Services/SurveyService.cs:163 | the first survey with the id and creator, or the end of the list exactly when the caller owns no survey with that id |
| SurveyData.SurveyDb.StoreSurveys | NovoyaHope/Services/SurveyService.cs:119 | the commit: surveys and counters take their new values, every other table is unchanged, the store stays consistent |
| SurveyData.SurveyDb.StoreSurveyTable | NovoyaHope/Services/SurveyService.cs:174 | a commit that allocates no key changes only the survey table |
| Linq.Filter | NovoyaHope/Services/SurveyService.cs:62-63 | Where: the result is exactly the elements satisfying the predicate, in their original order |
| Linq.FirstIndex | NovoyaHope/Services/SurveyService.cs:73 | FirstOrDefault: the first matching position, and none before it matches |
| Linq.SortByPermutes | NovoyaHope/Controllers/SurveyController.cs:617-618 | OrderBy returns a permutation of its input in key order |
| Linq.SortBySorted | NovoyaHope/Controllers/SurveyController.cs:617-618 | OrderBy leaves a sequence already in key order unchanged |
| Linq.SortByStable | NovoyaHope/Controllers/SurveyController.cs:617-618 | OrderBy is stable: the elements of any one key come out in their input order, so responses with equal dates keep store order |
| Text.TrimFacts | NovoyaHope/Helpers/ValidationHelper.cs:127 | Trim returns an infix that neither starts nor ends with white space, and is empty exactly for blank input |
| Text.TrimIdentity | NovoyaHope/Helpers/ValidationHelper.cs:127 | Trim changes nothing on a string with no white space at either end |
| Text.TrimStartAppend | NovoyaHope/Models/ViewModels/ProfileViewModel.cs:50 | TrimStart of a concatenation strips the first part only if that part is not all white space |
| Text.TrimEndAppend | NovoyaHope/Models/ViewModels/ProfileViewModel.cs:50 | TrimEnd of a concatenation strips the second part only if that part is not all white space |
| Reconcile.OptionsAfter | NovoyaHope/Services/SurveyService.cs:95-115 | the option loop as a fold: the number of kept stored options never changes |
| Reconcile.OptionsAfterShape | NovoyaHope/Services/SurveyService.cs:97-111 | stored options keep their id and IsOther flag; appended options take consecutive ids from the counter |
| Reconcile.ReconcileOptions | NovoyaHope/Services/SurveyService.cs:91-116 | a null Options list removes every stored option and allocates nothing; the option counter never goes back |
| Reconcile.OptionsAfterClosedForm | NovoyaHope/Services/SurveyService.cs:95-115 | the loop equals a closed form: each kept option carries the text and order of the last row naming it, followed by one new option per row without a stored id |
| Reconcile.ReconcileOptionsClosedForm | NovoyaHope/Services/SurveyService.cs:91-115 | the options after the save are the listed stored ones, revised, followed by the new ones, and the counter advances by their number |
| Reconcile.ReconcileOptionsSurvivors | NovoyaHope/Services/SurveyService.cs:91-93 | no unlisted stored option survives, and every listed one survives revised |
| Reconcile.ReconciledIdsListedOrNew | NovoyaHope/Services/SurveyService.cs:91-111 | every option id after the save was listed by the definition or is freshly issued |
| Reconcile.ReconciledKeepsListed | NovoyaHope/Services/SurveyService.cs:100-114 | every listed stored option survives, with the text and order of the last row naming it |
| Reconcile.UnmatchedOptionSkipped | NovoyaHope/Services/SurveyService.cs:100-104 | an option row whose positive id matches no stored option changes nothing: the result is as if the row were absent |
| Reconcile.NewOptionsCarry | NovoyaHope/Services/SurveyService.cs:106-114 | appended options carry, in order, the text and order of the rows without a stored id, with consecutive ids and IsOther false |
| Reconcile.ReconcileOptionsIdempotent | NovoyaHope/Services/SurveyService.cs:91-115 | posting back the options exactly as stored changes nothing and allocates no id |
| Reconcile.DescribedKeepsAllOptions | NovoyaHope/Services/SurveyService.cs:91-93 | describing the stored options lists all of them, so none is removed |
| Reconcile.ReconcileOptionsValid | NovoyaHope/Services/SurveyService.cs:91-115 | option ids stay positive, distinct and below the advanced counter |
| Reconcile.QuestionsAfter | NovoyaHope/Services/SurveyService.cs:66-117 | the question loop as a fold: the number of kept stored questions never changes |
| Reconcile.QuestionsAfterShape | NovoyaHope/Services/SurveyService.cs:66-81 | stored questions keep their ids; appended questions take consecutive ids; the option counter only grows |
| Reconcile.ApplyDefinitionFields | NovoyaHope/Services/SurveyService.cs:52-57 | the six scalar fields come from the definition; the id, creator, creation date, test-mode and theme settings stay; the counters never go back |
| Reconcile.NewQuestionOptions | NovoyaHope/Services/SurveyService.cs:79-80 | a new question's options are its option rows without a stored-looking id; a null list gives none |
| Reconcile.QuestionsAfterKept | NovoyaHope/Services/SurveyService.cs:70-75 | a kept question carries the Text, Type, Order and IsRequired of the last row naming it, and is untouched, options included, when no row names it |
| Reconcile.QuestionsAfterKeptOptions | NovoyaHope/Services/SurveyService.cs:70-117 | a stored question that exactly one row names has its options reconciled once by that row's list: none for a null list, else the listed stored options revised, then one fresh option per new row |
| Reconcile.SaveRevisesNamedQuestion | NovoyaHope/Services/SurveyService.cs:59-117 | after a save, a stored question that exactly one row names is still present with that row's four fields and its options reconciled by that row's list |
| Reconcile.QuestionStepAdded | NovoyaHope/Services/SurveyService.cs:70-87 | a row with a positive id appends nothing; any other row appends exactly one question carrying its fields and new options |
| Reconcile.QuestionsAfterAdded | NovoyaHope/Services/SurveyService.cs:76-87 | the appended questions carry, in order, the rows without a positive id, each with its new options |
| Reconcile.ApplyDefinitionValid | NovoyaHope/Services/SurveyService.cs:62-117 | the save keeps question and option ids positive, distinct among siblings and below the counters |
| Reconcile.SaveRemovesUnlistedQuestions | NovoyaHope/Services/SurveyService.cs:62-64 | every stored question whose id is not listed is gone after the save, its options with it |
| Reconcile.SavedIdsListedOrNew | NovoyaHope/Services/SurveyService.cs:62-81 | every question id after the save was listed or is freshly issued |
| Reconcile.UnmatchedQuestionSkipped | NovoyaHope/Services/SurveyService.cs:70-74 | a question row whose positive id matches no stored question changes nothing: the result is as if the row were absent |
| Reconcile.DescribedKeepsAll | NovoyaHope/Services/SurveyService.cs:62-64 | describing a survey lists every stored question, so none is removed |
| Reconcile.SaveIdempotent | NovoyaHope/Services/SurveyService.cs:52-117 | saving the definition that describes a stored survey leaves the survey and the counters unchanged |
| Reconcile.ReconcileOptionsAsWritten | NovoyaHope/Services/SurveyService.cs:92 | as written, the option pass fails on a question whose option collection is null, that is, a question created in the same save |
| Reconcile.AsWrittenFailsWithNewQuestion | NovoyaHope/Services/SurveyService.cs:79-92 | as written, any save whose definition holds a new question throws, and nothing is committed |
| Reconcile.AsWrittenAgreesWithoutNewQuestions | NovoyaHope/Services/SurveyService.cs:66-117 | without new questions, the code as written and the model agree |
| Reconcile.NewQuestionCounterexample | NovoyaHope/Services/SurveyService.cs:79-92 | the first save of a new survey with one question (temporary id -1) throws as written; the model appends the question with the next id |
| SurveyService.ReconcileOptionList | NovoyaHope/Services/SurveyService.cs:91-116 | the option loop computes exactly ReconcileOptions |
| SurveyService.ReconcileQuestionList | NovoyaHope/Services/SurveyService.cs:62-117 | the removal plus the question loop computes exactly the fold QuestionsAfter over the kept questions |
| SurveyService.SaveSurvey | NovoyaHope/Services/SurveyService.cs:23-121 | (corrected: a new question starts with an empty option list) fails, changing nothing, exactly when a positive id names no survey the caller owns; otherwise replaces that survey, or appends a new one under the next id, with the reconciled graph; responses, templates, users, roles and the response counter untouched; store stays consistent |
| SurveyService.SavedGraphValid | NovoyaHope/Services/SurveyService.cs:28-117 | the saved graph keeps its survey id and valid question and option ids under counters that only advance |
| SurveyService.SavedSurveysValid | NovoyaHope/Services/SurveyService.cs:119 | replacing a survey, or appending one with the next id, keeps surveys and responses consistent |
| SurveyService.Commit | NovoyaHope/Services/SurveyService.cs:119 | the commit replaces or inserts the saved survey, moves the counters, and touches nothing else |
| SurveyService.ValidForPublishingIff | NovoyaHope/Services/SurveyService.cs:178-182 | the publishing check holds exactly when the caller's survey exists and has a question |
| SurveyService.ChangePublicationStatus | NovoyaHope/Services/SurveyService.cs:161-176 | returns false, with no change, for a non-owner or when publishing a survey with no questions; otherwise sets IsPublished of exactly that survey |
| SurveyService.StorePublished | NovoyaHope/Services/SurveyService.cs:173-174 | only survey k's IsPublished changes |
| SurveyService.RemoveAt | NovoyaHope/Services/SurveyService.cs:192 | removing index k shifts the later surveys down by one and keeps the earlier ones |
| SurveyService.ResponsesAfterDeleteDistinct | NovoyaHope/Data/ApplicationDbContext.cs:61-64 | the responses left by the cascade still have distinct ids |
| SurveyService.SurveysValidRemove | NovoyaHope/Services/SurveyService.cs:192-193 | removing a survey keeps the store consistent and drops exactly its id |
| SurveyService.DeleteSurvey | NovoyaHope/Services/SurveyService.cs:186-195 | returns false, deleting nothing, exactly when the caller owns no such survey; otherwise removes that survey and its responses |
| ResultsAggregation.AnswersFor | NovoyaHope/Controllers/SurveyController.cs:468-471 | exactly the answers to this question: every one comes from a response, and every answer to the question is present |
| ResultsAggregation.AnswersForAppend | NovoyaHope/Controllers/SurveyController.cs:468-471 | a further response contributes its own answers to the question, after the others (response order) |
| ResultsAggregation.TextAnswers | NovoyaHope/Controllers/SurveyController.cs:476-479 | no blank text is listed, and no more texts than answers |
| ResultsAggregation.TextAnswersAppend | NovoyaHope/Controllers/SurveyController.cs:476-479 | text answers of concatenated answer lists concatenate (order kept) |
| ResultsAggregation.TextAnswersCount | NovoyaHope/Controllers/SurveyController.cs:476-479 | each non-blank text appears as often as it was answered (duplicates kept); blank ones never |
| ResultsAggregation.CountSelecting | NovoyaHope/Controllers/SurveyController.cs:487-488 | a count never exceeds the number of answers |
| ResultsAggregation.TallyOptions | NovoyaHope/Controllers/SurveyController.cs:484-489 | OptionCounts and OptionTexts have exactly one key per option; each count is the number of answers selecting it, zeros included; each text is that of the last option with the id |
| ResultsAggregation.OptionById | NovoyaHope/Controllers/SurveyController.cs:496 | the SelectedOption navigation yields an option with the selected id |
| ResultsAggregation.ScaleScores | NovoyaHope/Controllers/SurveyController.cs:494-498 | at most one score per answer, and every score is positive |
| ResultsAggregation.AverageBounds | NovoyaHope/Controllers/SurveyController.cs:500-503 | the average lies between any bounds of the scores, so it is positive when there are scores |
| ResultsAggregation.AggregateQuestion | NovoyaHope/Controllers/SurveyController.cs:456-512 | the result of one question follows the rules for its type: texts for text questions, counts for choice questions, counts and the average for Scale |
| ResultsAggregation.AggregateQuestions | NovoyaHope/Controllers/SurveyController.cs:454-515 | one result per question in the order given, each over exactly that question's answers |
| CsvExport.NeedsQuotingIff | NovoyaHope/Controllers/SurveyController.cs:701 | quoting is needed exactly when some character is a comma, a quote, LF or CR |
| CsvExport.EscapeCsvField | NovoyaHope/Controllers/SurveyController.cs:695-709 | empty gives empty; a field needing no quotes is unchanged; otherwise the field is quoted; the result is always a well-formed field |
| CsvExport.HalveDoubleQuotes | NovoyaHope/Controllers/SurveyController.cs:704 | halving doubled quotes undoes the quote doubling |
| CsvExport.EscapeRoundTrip | NovoyaHope/Controllers/SurveyController.cs:695-709 | stripping the outer quotes and halving doubled quotes gives back every field |
| CsvExport.SplitJoin | NovoyaHope/Controllers/SurveyController.cs:626 | a record of well-formed fields joined with "," splits back into exactly those fields |
| CsvExport.RecordRoundTrip | NovoyaHope/Controllers/SurveyController.cs:681-684 | escaping values, joining with "," and reading the line back gives the values |
| CsvExport.EscapeFileName | NovoyaHope/Controllers/SurveyController.cs:711-722 | an empty title gives "survey"; otherwise each invalid character becomes '_' and the rest are kept, with the length unchanged |
| CsvExport.EscapeFileNameClean | NovoyaHope/Controllers/SurveyController.cs:711-722 | no invalid character is left, and escaping again changes nothing |
| CsvExport.OptionTextFound | NovoyaHope/Controllers/SurveyController.cs:674-676 | an option text is found exactly when some option has the id, and it is that option's text |
| CsvExport.SelectedTextsOfOptions | NovoyaHope/Controllers/SurveyController.cs:657-665 | a MultipleChoice cell has at most one part per answer, each a non-empty text of one of the question's options |
| CsvExport.QuestionCellSafe | NovoyaHope/Controllers/SurveyController.cs:641-681 | each question cell is a well-formed field that reads back as the answer text |
| CsvExport.Respondent | NovoyaHope/Controllers/SurveyController.cs:635 | "Анонимно" for an anonymous survey or a missing user; otherwise the user's e-mail, or "Не указан" when there is none |
| CsvExport.HeaderColumns | NovoyaHope/Controllers/SurveyController.cs:624-626 | the header line has 3 + #questions columns and reads back as the fixed headers and the question texts |
| CsvExport.RowCells | NovoyaHope/Controllers/SurveyController.cs:631-682 | (corrected) a row has 3 + #questions cells, the question cells in question order |
| CsvExport.RowCellsAsWritten | NovoyaHope/Controllers/SurveyController.cs:631-682 | a row as written, with the respondent cell unescaped, has 3 + #questions cells |
| CsvExport.RowColumns | NovoyaHope/Controllers/SurveyController.cs:629-684 | every response's line reads back as its cells, with 3 + #questions columns |
| CsvExport.RespondentCommaShiftsColumns | NovoyaHope/Controllers/SurveyController.cs:635 | as written, an e-mail containing a comma adds a column to its line; the corrected row keeps 3 |
| CsvExport.BuildRow | NovoyaHope/Controllers/SurveyController.cs:631-684 | (corrected: the respondent cell is escaped) the inner loop writes exactly the specified line of the response |
| CsvExport.BuildLines | NovoyaHope/Controllers/SurveyController.cs:626-685 | the outer loop writes the header and then one line per response, in order |
| CsvExport.ExportToCsv | NovoyaHope/Controllers/SurveyController.cs:615-693 | (corrected: the respondent cell is escaped) header, then one line per response sorted by submission date (ties in store order), questions sorted by Order; the file name uses the escaped title |
| SurveyController.OwnedIndex | NovoyaHope/Controllers/SurveyController.cs:437 | the caller's survey with the id, or the end exactly when there is none |
| SurveyController.Definition | NovoyaHope/Controllers/SurveyController.cs:346-350 | a null question list is read as empty; id, title and IsPublished are passed on unchanged |
| SurveyController.SaveSurveyAction | NovoyaHope/Controllers/SurveyController.cs:316-386 | null body, missing user, blank title and model errors are refused in that order, changing nothing; Forbid exactly when the service refuses the owner check; (corrected: runs the corrected save) once the checks pass the result is Ok or Forbid; on Ok the store is exactly the reconciled survey written in place, or appended under the next id, with the counters advanced, and responses, templates, users, roles and the response counter untouched; the stored survey has the id, the caller as owner and the title |
| SurveyController.SetPublished | NovoyaHope/Controllers/SurveyController.cs:421 | only survey k changes, and only its IsPublished |
| SurveyController.PublishCheck | NovoyaHope/Controllers/SurveyController.cs:398-419 | NotFound exactly for an unknown id; published exactly when the survey exists, is the caller's, has a question and is not yet published |
| SurveyController.Publish | NovoyaHope/Controllers/SurveyController.cs:393-425 | IsPublished becomes true only when every check passes; otherwise nothing changes |
| SurveyController.PublishTwiceRefused | NovoyaHope/Controllers/SurveyController.cs:416-419 | a second Publish is refused as already published |
| SurveyController.Unpublish | NovoyaHope/Controllers/SurveyController.cs:523-537 | succeeds exactly for the creator of an existing survey and then clears IsPublished; otherwise Forbid and no change |
| SurveyController.UnpublishIdempotent | NovoyaHope/Controllers/SurveyController.cs:523-534 | unpublishing twice equals once, and the creator can publish an unpublished survey with questions again |
| SurveyController.SaveBypassesPublishCheck | NovoyaHope/Controllers/SurveyController.cs:372 | the save path is not gated: it can store a published survey with no questions, which Publish refuses |
| SurveyController.Results | NovoyaHope/Controllers/SurveyController.cs:428-518 | NotFound exactly when the caller did not create the survey; otherwise TotalResponses is the number of its responses, with one result per question in stored order |
| SurveyController.Edit | NovoyaHope/Controllers/SurveyController.cs:76-181 | NotFound unless the survey exists and is the caller's; questions by Order; the results block is null exactly when there are no responses, and otherwise follows the Results rules |
| SurveyController.CreateBlankSurvey | NovoyaHope/Controllers/SurveyController.cs:54-73 | Unauthorized, with no change, for a missing user; otherwise inserts an unpublished "Новая форма" owned by the caller under the next id, its type left at the default 0 (Unset) |
| SurveyController.ExportResults | NovoyaHope/Controllers/SurveyController.cs:589-613 | (corrected: the lines of the corrected ExportToCsv) NotFound unless the caller created the survey; BadRequest exactly when the lower-cased format is not "csv"; otherwise the CSV lines of ExportToCsv |
| SurveyController.CopyOptionsAt | NovoyaHope/Controllers/SurveyController.cs:791-801 | copy j carries template option j's text and order, with the j-th id |
| SurveyController.LoadedQuestionsOrdered | NovoyaHope/Controllers/SurveyController.cs:750-753 | the loaded template questions are in Order, each with its options in Order |
| SurveyController.CopyQuestionCopied | NovoyaHope/Controllers/SurveyController.cs:778-801 | a copied question has the template question's text, type and order, IsRequired true, and its options copied |
| SurveyController.CopyQuestionsAt | NovoyaHope/Controllers/SurveyController.cs:776-802 | the i-th copy uses the i-th question id and the option ids that follow those of earlier questions |
| SurveyController.CopyQuestionsFaithful | NovoyaHope/Controllers/SurveyController.cs:776-802 | one copy per template question, each copying it, with consecutive ids |
| SurveyController.CopyQuestionsValid | NovoyaHope/Controllers/SurveyController.cs:776-802 | the copies have fresh, distinct ids below the advanced counters |
| SurveyController.IndexOfTemplate | NovoyaHope/Controllers/SurveyController.cs:753 | the template with the id, or the end exactly when there is none |
| SurveyController.SurveyFromTemplate | NovoyaHope/Controllers/SurveyController.cs:761-770 | the new survey is the caller's, unpublished and anonymous, with the template's title, description and type |
| SurveyController.UseTemplate | NovoyaHope/Controllers/SurveyController.cs:742-808 | Unauthorized for a missing user and NotFound for an unknown template, with no change; otherwise appends the copy under the next id and advances the counters by the numbers of questions and options |
| SurveyController.AddCopy | NovoyaHope/Controllers/SurveyController.cs:761-804 | the copy is appended with its numbered questions |
| SurveyController.CopyTemplateQuestions | NovoyaHope/Controllers/SurveyController.cs:776-802 | the copy loop computes exactly CopyQuestions and advances the counters |
| SurveyController.CopyQuestionAt | NovoyaHope/Controllers/SurveyController.cs:778-801 | one question's copy, with its options numbered from the counter |
| PublicController.IndexOfVisible | NovoyaHope/Controllers/PublicController.cs:30-33 | the first survey with the id that is published, and none before it |
| PublicController.ViewSurvey | NovoyaHope/Controllers/PublicController.cs:28-51 | NotFound exactly when no survey with the id is published; otherwise the pass page of such a survey |
| PublicController.ViewSurveyGate | NovoyaHope/Controllers/PublicController.cs:30-38 | with distinct ids, the pass page and the submission use the same gate |
| PublicController.UnpublishHides | NovoyaHope/Controllers/PublicController.cs:33-38 | after an unpublish the survey's pass page is NotFound |
| PublicController.Respondent | NovoyaHope/Controllers/PublicController.cs:70 | an anonymous survey stores no respondent whatever the caller; otherwise the caller's claim, which may be null |
| PublicController.SubmitResponse | NovoyaHope/Controllers/PublicController.cs:56-80 | NotFound, storing nothing, exactly for a missing or unpublished survey; otherwise appends exactly one response for the survey with no answers, and earlier responses are kept |
| PublicController.SubmissionAddsNoAnswers | NovoyaHope/Controllers/PublicController.cs:71 | a submission changes no question's answers |
| PublicController.SubmissionCounts | NovoyaHope/Controllers/PublicController.cs:66-76 | a submission raises its own survey's response total by one and no other survey's |
| AdminController.AdministratorKeyNormal | NovoyaHope/Controllers/AdminController.cs:181 | "Administrator" and "administrator" name the same Identity role |
| AdminController.IndexOfUser | NovoyaHope/Controllers/AdminController.cs:134 | FindByIdAsync: the account with the id, or the end exactly when there is none |
| AdminController.WithoutMember | NovoyaHope/Controllers/AdminController.cs:148 | a deleted account leaves every role and no role disappears |
| AdminController.DeleteKeepsAnAdmin | NovoyaHope/Controllers/AdminController.cs:141-148 | deleting anyone but the sole administrator leaves an administrator |
| AdminController.DeleteUser | NovoyaHope/Controllers/AdminController.cs:127-159 | NotFound for an empty or unknown id; refused exactly for the sole administrator; otherwise the delete throws, changing nothing, exactly when a survey or a saved response still refers to the account, and else the account and its memberships go; an administrator always remains |
| AdminController.RemoveAccount | NovoyaHope/Controllers/AdminController.cs:148 | the account and its memberships go, and an administrator remains |
| AdminController.UsersValidRemove | NovoyaHope/Controllers/AdminController.cs:148 | removing an account and its memberships keeps the user store consistent |
| AdminController.Toggled | NovoyaHope/Controllers/AdminController.cs:176-197 | the caller's membership in the role flips, and nothing else changes |
| AdminController.ToggledTwice | NovoyaHope/Controllers/AdminController.cs:176-197 | toggling twice restores the memberships |
| AdminController.LowerCaseRoleDropsLastAdmin | NovoyaHope/Controllers/AdminController.cs:181-190 | as written, posting "administrator" for the sole administrator passes the guard and leaves no administrator |
| AdminController.ToggleKeepsAnAdmin | NovoyaHope/Controllers/AdminController.cs:178-197 | with the guard comparing role names as Identity does, no toggle that goes through leaves the system without an administrator |
| AdminController.ToggleUserRole | NovoyaHope/Controllers/AdminController.cs:163-200 | (corrected: the guard matches the role case-insensitively) BadRequest for empty arguments and NotFound for an unknown account; a member leaves the role unless that would drop the sole administrator; a non-member joins; a role name no stored role matches ends in the uncaught exception of AddToRoleAsync (RoleMissing), with no change; an administrator always remains |
| AdminController.FlipMembership | NovoyaHope/Controllers/AdminController.cs:190-195 | the membership flips and an administrator remains |
| AdminController.ToggleSurveyPublish | NovoyaHope/Controllers/AdminController.cs:265-281 | NotFound exactly for an unknown id; otherwise only IsPublished of that survey is negated, and the message matches the new state |
| AdminController.TogglePublishTwice | NovoyaHope/Controllers/AdminController.cs:273 | toggling twice restores the survey list |
| AdminController.ToggleBypassesQuestionCheck | NovoyaHope/Controllers/AdminController.cs:273 | the toggle publishes a survey without questions, which Publish refuses, and the public can then see it |
| AdminController.DeleteSurvey | NovoyaHope/Controllers/AdminController.cs:248-261 | NotFound exactly for an unknown id; otherwise that survey goes, whoever created it, with its responses |
| AdminController.DeleteSurveyGone | NovoyaHope/Controllers/AdminController.cs:256-257 | after the delete no survey has the id and no response refers to it |
| AdminController.DeleteTemplate | NovoyaHope/Controllers/AdminController.cs:322-335 | NotFound exactly for an unknown id; otherwise that template goes and no template has the id any more |
| AdminController.Page | NovoyaHope/Controllers/AdminController.cs:93-96 | the offset is (page-1)*pageSize wrapped to 32 bits; fails exactly for a size below 1 or a negative wrapped offset; otherwise at most pageSize items, item i being element offset + i, and empty only past the end |
| AdminController.WrapInt32 | NovoyaHope/Controllers/AdminController.cs:94 | the result is in the int range and congruent to the input modulo 2^32, and equal to it when the input is in range |
| AdminController.OffsetWithoutOverflow | NovoyaHope/Controllers/AdminController.cs:93-96 | with no overflow the offset is the product, and a page fails exactly below page 1 |
| AdminController.OffsetWrapsAround | NovoyaHope/Controllers/AdminController.cs:93-96 | page 65538 of size 65536 is page 2, and page 65537 of size 32768 fails: the product wraps |
| AdminController.TotalPages | NovoyaHope/Controllers/AdminController.cs:119 | the ceiling of total / pageSize: the smallest count of pages that holds every item |
| AdminController.PageNonEmptyIff | NovoyaHope/Controllers/AdminController.cs:93-119 | with no overflow of the offset, exactly the pages 1..TotalPages are non-empty |
| AdminController.PageLocates | NovoyaHope/Controllers/AdminController.cs:93-119 | in a list shorter than 2^31, element j is item j % pageSize of page j / pageSize + 1, and that page is within TotalPages |
| AdminController.Listing | NovoyaHope/Controllers/AdminController.cs:92-120 | total, page count and page agree: the page fails exactly as Page does, and without overflow it is non-empty exactly up to the page count |
| AdminController.SearchUsers | NovoyaHope/Controllers/AdminController.cs:83-90 | an empty term keeps everyone; otherwise a user is kept exactly when the term occurs, after the collation's character folding on both sides, in the e-mail, user name, or a non-null first or last name |
| AdminController.SearchIgnoresCase | NovoyaHope/Controllers/AdminController.cs:83-90 | under an upper-casing fold a term matches the same users in lower, upper or mixed case |
| AdminController.UserManagement | NovoyaHope/Controllers/AdminController.cs:79-123 | fails exactly as Page does; the total is the number of matches, and each shown user is stored and matches |
| AdminController.PageOrdered | NovoyaHope/Controllers/AdminController.cs:219-222 | a page of an ordered list is ordered and holds only elements of the list |
| AdminController.SurveysListingShows | NovoyaHope/Controllers/AdminController.cs:205-244 | a survey page is newest first and shows only stored surveys matching the title or description |
| AdminController.TemplatesListingShows | NovoyaHope/Controllers/AdminController.cs:286-318 | a template page is highest id first and shows only stored templates matching the search |
| ValidationHelper.IsValidEmailIff | NovoyaHope/Helpers/ValidationHelper.cs:13-27 | (corrected) accepted exactly when the string is x@y.z, with all three parts non-empty and free of `@` and white space |
| ValidationHelper.IsValidEmailAsWrittenIff | NovoyaHope/Helpers/ValidationHelper.cs:20-21 | as written, the validator accepts what the corrected one accepts, plus those strings followed by one line feed |
| ValidationHelper.TrailingLineFeedAccepted | NovoyaHope/Helpers/ValidationHelper.cs:20 | "a@b.c\n" passes as written although it ends in white space |
| ValidationHelper.CleanPhone | NovoyaHope/Helpers/ValidationHelper.cs:38 | only digits and `+` are kept, and the result is no longer than the input |
| ValidationHelper.IsValidPhoneIff | NovoyaHope/Helpers/ValidationHelper.cs:32-43 | valid exactly when the number holds 10 to 15 decimal digits |
| ValidationHelper.International | NovoyaHope/Helpers/ValidationHelper.cs:57-64 | the prefix rewrite keeps a cleaned number made only of digits and `+` |
| ValidationHelper.CleanWrittenNumber | NovoyaHope/Helpers/ValidationHelper.cs:54-69 | cleaning the written "+7 (XXX) XXX-XX-XX" form gives back the twelve characters it came from |
| ValidationHelper.FormatPhoneRussian | NovoyaHope/Helpers/ValidationHelper.cs:48-73 | an 11-digit number starting with 8 or 7 is written "+7 (XXX) XXX-XX-XX" from its last ten characters |
| ValidationHelper.FormatPhoneOtherwiseUnchanged | NovoyaHope/Helpers/ValidationHelper.cs:57-72 | a number whose cleaned form is neither an 11-character 8/7 number nor a 12-character "+7" number is returned exactly as typed |
| ValidationHelper.FormatPhoneIdempotent | NovoyaHope/Helpers/ValidationHelper.cs:48-73 | formatting a formatted number changes nothing |
| ValidationHelper.ValidatePasswordStrength | NovoyaHope/Helpers/ValidationHelper.cs:78-96 | valid exactly when every rule holds, the length counted in UTF-16 code units; otherwise the message of the first failing rule, in the source's order |
| ValidationHelper.SurrogatePairsCountTwice | NovoyaHope/Helpers/ValidationHelper.cs:83 | "Ab1😀😀" has five characters but seven UTF-16 code units, so it passes the six-character minimum |
| ValidationHelper.PasswordAcceptedIff | NovoyaHope/Helpers/ValidationHelper.cs:78-96 | accepted exactly with at least six UTF-16 code units, a lower-case letter, an upper-case letter and a digit |
| ValidationHelper.RuleMessagesDistinct | NovoyaHope/Helpers/ValidationHelper.cs:81-93 | the messages tell the failing rules apart |
| ValidationHelper.StripTags | NovoyaHope/Helpers/ValidationHelper.cs:122 | the result is no longer than the input and holds only characters of the input |
| ValidationHelper.StripTagsLeavesNoTag | NovoyaHope/Helpers/ValidationHelper.cs:122 | no `<` in the result is followed later by `>` |
| ValidationHelper.SanitizeFacts | NovoyaHope/Helpers/ValidationHelper.cs:116-128 | non-blank input yields text with none of < > " ' and no white space at either end; blank input is returned unchanged |
| ValidationHelper.SanitizeIdempotent | NovoyaHope/Helpers/ValidationHelper.cs:116-128 | sanitising sanitised text changes nothing |
| ValidationHelper.SanitizePlainText | NovoyaHope/Helpers/ValidationHelper.cs:116-128 | text with none of < > " ' is only trimmed |
| ValidationHelper.ValidNameSanitizesToTrim | NovoyaHope/Helpers/ValidationHelper.cs:101-128 | a name IsValidName accepts is stored by SanitizeString trimmed and otherwise as typed |
| ValidationHelper.IsValidLengthBlank | NovoyaHope/Helpers/ValidationHelper.cs:133-139 | blank input is valid exactly for a zero minimum; a negative minimum rejects "" but accepts a longer string |
| ValidationHelper.ControlCharacterCases | NovoyaHope/Helpers/ValidationHelper.cs:144-151 | control characters count only in non-blank input: "\t\n" gives false, a NUL gives true |
| ProfileViewModels.NameOrEmailCases | NovoyaHope/Models/ViewModels/ProfileViewModel.cs:46-53 | both names give "First Last" trimmed; one name gives that name trimmed; none gives the e-mail |
| ProfileViewModels.NameOrEmailTrimmed | NovoyaHope/Models/ViewModels/ProfileViewModel.cs:193-200 | with a name given, the full and display names are not blank and are trimmed at both ends |
| ProfileViewModels.CollectedInitials | NovoyaHope/Models/ViewModels/ProfileViewModel.cs:60-66 | at most two initials, one per non-blank name |
| ProfileViewModels.GetInitials | NovoyaHope/Models/ViewModels/ProfileViewModel.cs:58-72 | the initials are at most two characters |
| ProfileViewModels.InitialsCases | NovoyaHope/Models/ViewModels/ProfileViewModel.cs:58-72 | the upper-cased first characters of the given names; failing those, the upper-cased first character of the e-mail; empty exactly when no name and no e-mail is given |
| ProfileViewModels.GetProfileCompleteness | NovoyaHope/Models/ViewModels/ProfileViewModel.cs:89-101 | 0..100 in steps of 20; 100 exactly when the profile is complete; 0 exactly when every field is blank |
| ProfileViewModels.GetPasswordStrength | NovoyaHope/Models/ViewModels/ProfileViewModel.cs:130-157 | 0 for blank input; otherwise within 0..100 and at least the contribution of the length in UTF-16 code units |
| ProfileViewModels.StrengthNeverCapped | NovoyaHope/Models/ViewModels/ProfileViewModel.cs:156 | the contributions never exceed 100, so the cap never changes the score |
| ProfileViewModels.GetPasswordStrengthText | NovoyaHope/Models/ViewModels/ProfileViewModel.cs:162-171 | the label is one of the four levels |
| ProfileViewModels.StrengthTextMonotone | NovoyaHope/Models/ViewModels/ProfileViewModel.cs:162-171 | a stronger score never gets a weaker label |
| ProfileViewModels.AcceptedPasswordRatedGood | NovoyaHope/Models/ViewModels/ProfileViewModel.cs:130-171 | a password ValidatePasswordStrength accepts scores at least 63 and is rated "Хороший" or better |
| ProfileViewModels.GetDisplayPhone | NovoyaHope/Models/ViewModels/ProfileViewModel.cs:205-208 | the phone is shown only when its owner made it public |
| ImageHelper.GetExtension | NovoyaHope/Helpers/ImageHelper.cs:33 | Path.GetExtension: empty exactly when the name ends in '.' or its last segment holds no '.'; otherwise the suffix from the last '.', which holds no further '.' or separator |
| ImageHelper.RejectionMessagesDiffer | NovoyaHope/Helpers/ImageHelper.cs:65-81 | no rejection message reads "Неизвестная ошибка" |
| ImageHelper.ValidationErrorIff | NovoyaHope/Helpers/ImageHelper.cs:23-81 | the error is "Неизвестная ошибка" exactly when IsValidImage accepts the file |
| ImageHelper.SizeLimitInclusive | NovoyaHope/Helpers/ImageHelper.cs:18-30 | a file of exactly 5 MB passes the size check; one byte more fails |
| ImageHelper.UpperCaseExtensionAccepted | NovoyaHope/Helpers/ImageHelper.cs:33-34 | extensions are compared in lower case: "photo.JPG" is accepted |
| ImageHelper.UpperCaseMimeTypeAccepted | NovoyaHope/Helpers/ImageHelper.cs:47-60 | MIME types are compared in lower case: "image/JPEG" is accepted |
| ImageHelper.SaveProfileImage | NovoyaHope/Helpers/ImageHelper.cs:86-104 | fails exactly for an invalid image, with GetValidationError's message and before any path is formed; otherwise the path is the profile prefix plus an allowed extension |
| ImageHelper.UnitIndex | NovoyaHope/Helpers/ImageHelper.cs:151-164 | the largest k ≤ 3 with bytes ≥ 1024^k, or 0 |
| ImageHelper.UnitIndexUnique | NovoyaHope/Helpers/ImageHelper.cs:151-164 | the characterisation singles out one unit |
| ImageHelper.FormatFileSize | NovoyaHope/Helpers/ImageHelper.cs:151-164 | the loop picks the unit UnitIndex names, and size × 1024^k equals the byte count |

## Left out

- Entity Framework is left out: tracking, `Include` loading and async/await. The store is in-memory sequences, and `SaveChangesAsync` is one atomic commit. Identity keys are drawn from counters in the store.
- Migrations and foreign-key mechanics are left out. The cascade from a survey to its questions, options and responses is modelled as removal with the survey. The foreign keys from surveys (creator) and from responses (respondent) to the account have no delete action, so deleting a referenced account fails in the database; the model returns `UserDeleteThrows` there and changes nothing.
- Sections and Media in a posted definition are not modelled. `SaveSurveyAsync` ignores them.
- `GetSurveyForEditAsync` is not modelled. It is an incomplete mapping stub.
- Per-question answer ingestion on submission is not modelled. The source stores every response with an empty answer list, and the model does the same.
- Identity sign-in, registration and password change (AccountController.cs) and the seed data (DbInitializer.cs) are not part of this model.
- Only the ASP.NET Identity behaviour the admin guards use is modelled: role lookup through the upper-case normalised name, and the membership sets.
- `AdminController.Index` (the dashboard counts) and `Templates` (a plain listing) are not part of this model.
- `SurveyController.Preview`, `Index`, `Save` and `Delete` are not part of this model. They are view plumbing, and the owner-checked delete is `SurveyService.DeleteSurvey`.
- `ProfileViewModel.GetAverageRating` is not part of this model.
- HomeController.cs, Program.cs and the browser scripts are not part of this model. The only fact taken from the editor script is that it posts negative temporary ids for new rows.
- Image file I/O is left out: creating directories, writing, deleting and measuring files. The fresh GUID in a file name is a parameter.
- The "0.##" number rendering in `FormatFileSize` is left out. The model returns the exact quotient and the unit.
- Clocks are parameters: `DateTime.UtcNow` and `DateTime.Now`. Date and time text in the CSV is a function parameter, and the export time stamp is a string parameter.
- `Path.GetInvalidFileNameChars()` depends on the platform and is a set parameter.
- `Path.GetExtension` uses the Windows directory separators '/' and '\\'.
- Regex semantics are stated as explicit character predicates:
  - `\s` and `IsNullOrWhiteSpace` are the .NET white-space characters of the BMP that the model lists;
  - `\d` is the ASCII digits 0-9.
- Culture-dependent case mapping is limited to ASCII letters:
  - `ToLower` and `ToLowerInvariant` are modelled on ASCII letters only;
  - the upper-casing in `GetInitials` is a parameter `upper`;
  - Identity's role-name normaliser is ASCII upper case.
- `double` arithmetic is replaced by `real`: the Scale average, `GetProfileCompleteness` (exact for 0..5 filled fields) and the file-size quotient.
- FormatFileSize: a byte count above 2^53 is not rounded as the source's `double` conversion would round it.
- ProfileViewModels.GetPasswordStrength: the length and the distinct count are over UTF-16 code units, as .NET counts them. The variety bonus uses the exact comparison 10·distinct > 7·length, not the `double` product `length * 0.7`. The two differ only for length 90, 170 and 180 below 200 (distinct counts 63, 119 and 126).
- SurveyController.SaveSurveyAction: exceptions other than the owner check, which the source turns into BadRequest with the exception text, are not modelled. The modelled save does not fail otherwise.
- AdminController.DeleteUser: the "Ошибка при удалении пользователя." branch, an `IdentityResult` failure, is not modelled. The referenced account makes the delete throw instead, which the action does not catch, so no TempData message is set.
- SurveyService.SaveSurvey: the model runs the corrected reconciliation. As written, a save that creates a question throws `ArgumentNullException` (Findings row 1); `Reconcile.AsWrittenFailsWithNewQuestion` states that behaviour.
- SurveyController.SaveSurveyAction: it uses the corrected save. As written, a save with a new question ends in BadRequest "Ошибка при сохранении: …", because the action catches that exception.
- CsvExport.BuildRow: the model escapes the respondent cell. As written, SurveyController.cs:635 writes the e-mail raw, and a comma in it shifts the columns (Findings row 4, `CsvExport.RespondentCommaShiftsColumns`).
- CsvExport.ExportToCsv: its lines use the corrected BuildRow. As written, a raw respondent e-mail can shift the columns of its line.
- CsvExport.ExportToCsv: the bytes of the file are not modelled. The result is the list of lines. `new StreamWriter(stream, Encoding.UTF8)` writes a UTF-8 byte order mark before the header, and `WriteLine` ends each line with the platform's newline ("\r\n" on Windows, "\n" elsewhere).
- SurveyController.ExportResults: it returns the corrected ExportToCsv lines, with the same difference from the code as written.
- AdminController.ToggleUserRole: the model applies the last-administrator guard to every spelling of the role name. As written, "administrator" passes the guard and removes the last administrator (Findings row 2, `AdminController.LowerCaseRoleDropsLastAdmin`).
- ProfileViewModels.GetInitials: it takes the first character of each name. .NET takes the first UTF-16 code unit, which for a name starting outside the BMP is half a surrogate pair; a Dafny `char` cannot hold that.
- SQL Server's case-insensitive collation is modelled by a character-folding parameter `fold` that is applied to both sides of `Contains`. Accent, width and trailing-space rules of the collation are not modelled.
- AdminController.PageNonEmptyIff: it is stated only when the page offset does not overflow. AdminController.PageLocates is stated for lists shorter than 2^31. Past those bounds, `AdminController.Page` states the wrapped behaviour.
- Logging, TempData messages other than those the model returns, and the anti-forgery check are left out.

## Findings

| source | as written | input that shows it | evidently intended | confidence | as-written member | corrected member |
|---|---|---|---|---|---|---|
| NovoyaHope/Services/SurveyService.cs:79-92 | a question created in the save has `AnswerOptions == null` (Question.cs:27), and line 92 calls `.Where` on it | the editor's first save of a survey with one new question (id -1) | a new question starts with an empty option list, and its option rows are appended | not executed | Reconcile.AsWrittenFailsWithNewQuestion, Reconcile.NewQuestionCounterexample | Reconcile.QuestionsAfterAdded |
| NovoyaHope/Controllers/AdminController.cs:181 | the last-administrator guard compares the posted role name with "Administrator" literally, while Identity resolves role names case-insensitively | ToggleUserRole(sole administrator's id, "administrator") | the guard applies to every spelling of the Administrator role | not executed | AdminController.LowerCaseRoleDropsLastAdmin | AdminController.ToggleKeepsAnAdmin |
| NovoyaHope/Helpers/ValidationHelper.cs:20 | `$` also matches before a final line feed, so the pattern accepts a trailing "\n" | "a@b.c\n" | the whole string must be x@y.z with no white space | not executed | ValidationHelper.TrailingLineFeedAccepted | ValidationHelper.IsValidEmailIff |
| NovoyaHope/Controllers/SurveyController.cs:635 | the respondent's e-mail is written without EscapeCsvField | a non-anonymous response whose user's e-mail is "a,b@c.d" | the respondent cell is escaped like every other free-text cell, so each line keeps 3 + #questions columns | not executed | CsvExport.RespondentCommaShiftsColumns | CsvExport.RowColumns |
