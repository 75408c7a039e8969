# DLDA questionnaire store — a Dafny model

DLDA is a web API for a questionnaire. A patient rates a fixed set of questions
on a 0–4 scale, where 0 means no problem and 4 means a very big problem. A
member of staff answers the same questions for the same round. Each round is
an *assessment*. Each binding of a question to an assessment is an *assessment
item*, and it carries both answers, both comments, a staff flag and a skip
marker.

The model covers the in-memory behaviour of the four API controllers over the
database tables, plus the `Difference` property of the staff result row:

- `Data.AppDbContext` is the database. It is a class holding the four tables
  (`users`, `assessments`, `questions`, `assessmentItems`) as sequences of
  records, and one identity counter per table. Its invariant `Valid()` says
  that primary keys are unique and were all handed out by the counter.
- Each controller is a class over that context. Every endpoint that changes
  the database is a method. It names the one table it may change
  (`modifies context`assessmentItems`), keeps `Valid()`, and states the
  resulting table exactly: unchanged with `NotFound` for an unknown id, or the
  found row replaced by an update function, or a row removed or appended.
  The update functions (`WithPatientAnswer`, `WithSkip`, …) state field by
  field what changes and what stays the same.
- Each query endpoint is a function over the tables. Its result is a tagged
  `ActionResult` (`Ok`, `NotFound`, `BadRequest`, `NoContent`, `Created`) or
  a dedicated variant such as `PatientDone`. Lemmas state what the query
  promises: which rows it returns, in what order, and when it fails.
- Shared modules:
  - `Seqs` holds the LINQ operators (`Where`, `Select`, a stable `OrderBy`,
    `FindIndex`, `FirstOrDefault`).
  - `Tables` holds `DbSet.Find`, row replacement and removal, and their
    lemmas.
  - `Text` holds `ToLower`, `Contains` and `IsNullOrWhiteSpace`.

Files: `wrappers.dfy` (Option), `action_results.dfy`, `text.dfy`, `seqs.dfy`,
`tables.dfy`, `models.dfy`, `dtos.dfy`, `data.dfy`, `staff_result_dto.dfy`,
`assessment_item_controller.dfy`, `question_controller.dfy`,
`assessment_controller.dfy`, `user_controller.dfy`.

## Model

| member | source | states |
|---|---|---|
| StaffResultDto.AnswerDifference | DLDA.API/DLDA.API/DTOs/StaffResultDto.cs:27-30 | When both answers are present, the difference is non-negative, is either p−s or s−p, and is 0 exactly when the answers are equal. When either answer is absent, it is -1. |
| StaffResultDto.DifferenceSymmetric | DLDA.API/DLDA.API/DTOs/StaffResultDto.cs:29 | The difference does not change when patient and staff answers swap. |
| StaffResultDto.DifferenceOnScale | DLDA.API/DLDA.API/DTOs/StaffResultDto.cs:29 | For two answers on the 0–4 scale, the difference lies in 0..4. |
| StaffResultDto.ScaledDifference | DLDA.API/DLDA.API/DTOs/StaffResultDto.cs:27-30 | Corrected difference. It lies in -1..4, is -1 exactly when either answer is missing or off the 0–4 scale, and otherwise equals the source's difference. |
| StaffResultDto.SentinelReadAsAnswer | DLDA.API/DLDA.API/DTOs/StaffResultDto.cs:27-30 | A stored -1 patient answer next to a staff answer s in 0..4 gives the source's difference as s+1. The corrected difference gives -1. |
| Models.UsernameOr | DLDA.API/DLDA.API/Controllers/AssessmentItemController.cs:226 | Without a user of that id, the result is the fallback. Otherwise it is the username of a stored user with that id. |
| Tables.Find | DLDA.API/DLDA.API/Controllers/AssessmentItemController.cs:73-77 | `DbSet.Find`: a row is found exactly when the table has that key, and the found row is in the table with that key. |
| Tables.ReplaceFound | DLDA.API/DLDA.API/Controllers/AssessmentItemController.cs:81-84 | After an existing row is updated in place, looking up its id finds the new row, and every other id finds what it found before. |
| Tables.ReplaceMissing | DLDA.API/DLDA.API/Controllers/AssessmentItemController.cs:73-77 | Replacing at an absent id leaves the table unchanged. |
| Tables.ReplaceKeepsKeys | DLDA.API/DLDA.API/Controllers/AssessmentItemController.cs:81-84 | An update that keeps the primary key keeps the keys unique and below the identity counter. |
| Tables.RemoveEffect | DLDA.API/DLDA.API/Controllers/AssessmentItemController.cs:343-346 | Removing an existing id shortens the table by one. Afterwards the id is gone, every row with another key is kept, and no other row appears. |
| Tables.RemoveMissing | DLDA.API/DLDA.API/Controllers/AssessmentItemController.cs:343-344 | Removing an absent id leaves the table unchanged. |
| Tables.RemoveKeepsKeys | DLDA.API/DLDA.API/Controllers/AssessmentItemController.cs:346 | Removal keeps the keys unique and below the identity counter. |
| Tables.AppendKeepsKeys | DLDA.API/DLDA.API/Controllers/AssessmentItemController.cs:315 | Adding a row numbered by the identity counter keeps the keys unique. The counter then moves up by one. |
| Tables.AppendFound | DLDA.API/DLDA.API/Controllers/AssessmentItemController.cs:315 | After the insert, looking up the new id finds the new row, and every other id finds what it found before. |
| Tables.RemoveAt | DLDA.API/DLDA.API/Controllers/AssessmentItemController.cs:346 | With unique keys, removal by id equals deleting that one position. |
| Tables.ReplaceAt | DLDA.API/DLDA.API/Controllers/AssessmentItemController.cs:81-84 | With unique keys, replacement by id equals updating that one position. |
| Seqs.Filter | DLDA.API/DLDA.API/Controllers/AssessmentItemController.cs:135 | `Where`: an element is in the result exactly when it is in the input and satisfies the predicate, and the result is no longer than the input. |
| Seqs.FilterCount | DLDA.API/DLDA.API/Controllers/AssessmentItemController.cs:135 | `Where` keeps each satisfying element exactly as often as it occurs in the input, and drops every other element. So the result's length is the number of matching rows. |
| Seqs.FilterOrder | DLDA.API/DLDA.API/Controllers/AssessmentItemController.cs:135 | `Where` keeps the matching elements in their original order: the result is a subsequence of the input. |
| Seqs.FilterAppend | DLDA.API/DLDA.API/Controllers/QuestionController.cs:135 | `Where` over a table with one more row at the end is the old result, followed by that row when it matches. |
| Seqs.Map | DLDA.API/DLDA.API/Controllers/AssessmentItemController.cs:142-151 | `Select`: the result has the same length, position by position the image, and every member is an image of a member. |
| Seqs.SortBy | DLDA.API/DLDA.API/Controllers/AssessmentItemController.cs:137 | `OrderBy`: the result is a permutation of the input. |
| Seqs.SortBySorted | DLDA.API/DLDA.API/Controllers/AssessmentItemController.cs:137 | `OrderBy` yields keys in non-decreasing order. |
| Seqs.SortByDescending | DLDA.API/DLDA.API/Controllers/AssessmentController.cs:29 | `OrderByDescending`: a permutation of the input with keys in non-increasing order. |
| Seqs.SortByHead | DLDA.API/DLDA.API/Controllers/QuestionController.cs:136-137 | `OrderBy(..).FirstOrDefault()` is the first element, in table order, with the smallest key. |
| Seqs.FindIndex | DLDA.API/DLDA.API/Controllers/QuestionController.cs:192-193 | `List.FindIndex`: -1 exactly when nothing matches. Otherwise it is the first matching position. |
| Seqs.FindIndexInSorted | DLDA.API/DLDA.API/Controllers/QuestionController.cs:189-192 | In a list sorted by key, the first position with key v equals the number of elements with a smaller key. |
| Seqs.FirstOrNone | DLDA.API/DLDA.API/Controllers/AssessmentItemController.cs:272-274 | `FirstOrDefault(p)`: absent exactly when nothing satisfies p. Otherwise it is a member that satisfies p. |
| Text.ToLower | DLDA.API/DLDA.API/Controllers/UserController.cs:44 | Lower-casing keeps the length and maps each character on its own. |
| Text.ContainsAt | DLDA.API/DLDA.API/Controllers/UserController.cs:48 | `Contains` holds exactly when the part occurs at some position. |
| Data.AppDbContext.constructor | DLDA.API/DLDA.API/Data/AppDbContext.cs:12-15 | An empty database of four tables satisfies the key invariant, with every identity counter at 1. |
| AssessmentItemApi.QuestionTextOr | DLDA.API/DLDA.API/Controllers/AssessmentItemController.cs:146 | `Question?.QuestionText ?? fallback`: the fallback when the question is missing, otherwise a stored question's text. |
| AssessmentItemApi.GetPatientAssessmentList | DLDA.API/DLDA.API/Controllers/AssessmentItemController.cs:25-40 | One summary per assessment of the user, newest first. Every such assessment appears, and every summary comes from one. |
| AssessmentItemApi.PatientAnswersSpec | DLDA.API/DLDA.API/Controllers/AssessmentItemController.cs:45-64 | The answer list has one row per item of the assessment, in non-decreasing question id order. Every item has a row, and every row comes from an item of the assessment. |
| AssessmentItemApi.ShownAnswer | DLDA.API/DLDA.API/Controllers/AssessmentItemController.cs:147 | An answer is shown exactly when it is on the 0–4 scale, and it is then shown unchanged. |
| AssessmentItemApi.GetAssessmentOverview | DLDA.API/DLDA.API/Controllers/AssessmentItemController.cs:125-163 | The result is `Ok` or `NotFound`, and it is `NotFound` exactly when no assessment has the id. On `Ok`, the id, `ScaleType`, `IsComplete` and `CreatedAt` of the header are those of a stored assessment with that id. |
| AssessmentItemApi.OverviewSpec | DLDA.API/DLDA.API/Controllers/AssessmentItemController.cs:134-151 | For an existing assessment, the rows are exactly its items, one each, in non-decreasing `Order`. Every row's `Total` is the number of rows. |
| AssessmentItemApi.OverviewAnswersOnScale | DLDA.API/DLDA.API/Controllers/AssessmentItemController.cs:147 | No overview row shows an answer off the 0–4 scale. Each row shows its item's answer exactly when that answer is on the scale. |
| AssessmentItemApi.CreatedSentinelHidden | DLDA.API/DLDA.API/Controllers/AssessmentItemController.cs:147 | An item created without a patient answer stores -1, and its overview row shows no answer. |
| AssessmentItemApi.GetStaffAssessmentOverview | DLDA.API/DLDA.API/Controllers/AssessmentItemController.cs:207-244 | The result is `Ok` or `NotFound`, and it is `NotFound` exactly when no assessment has the id. On `Ok`, the header's id, `UserId` and `CreatedAt` are those of a stored assessment with that id. Its `Username` is its owner's name, or "Okänd" without one. `IsStaffComplete` is false. |
| AssessmentItemApi.StaffOverviewSpec | DLDA.API/DLDA.API/Controllers/AssessmentItemController.cs:216-240 | For an existing assessment, the rows are exactly its items in non-decreasing `Order`, carrying both raw answers. Each row's `Difference` is the corrected difference of its item's answers (see Findings). |
| AssessmentItemApi.CreatedSentinelInStaffDifference | DLDA.API/DLDA.API/Controllers/AssessmentItemController.cs:308 | For an item created without a patient answer, and with staff answer s in 0..4, the `Difference` as written is s+1. The staff overview row, which uses the corrected difference, shows -1. |
| QuestionApi.CreatedWithoutAnswerNeverOffered | DLDA.API/DLDA.API/Controllers/QuestionController.cs:135 | Adding an item created without a patient answer leaves the patient's next question unchanged, because its stored -1 counts as an answer. The patient is never asked that question. |
| AssessmentItemApi.ScaleTypeOf | DLDA.API/DLDA.API/Controllers/AssessmentItemController.cs:282-283 | `assessment?.ScaleType`: absent exactly when no assessment has the id. Otherwise it is that assessment's scale type. |
| AssessmentItemApi.GetQuestionByOrder | DLDA.API/DLDA.API/Controllers/AssessmentItemController.cs:270-297 | `NotFound` when no item has the (assessment, order) pair, or when every such item lacks its question. `Ok` when such an item exists and every such item has its question. On `Ok`, the fields come from a matching item and its question, `Total` is the assessment's item count, and the scale type is the assessment's. |
| AssessmentItemApi.WithPatientAnswer | DLDA.API/DLDA.API/Controllers/AssessmentItemController.cs:81-91 | Stores the answer, the comment and the time, and clears `SkippedByPatient`. Every staff field, the flag, the keys and the order are kept. |
| AssessmentItemApi.WithSkip | DLDA.API/DLDA.API/Controllers/AssessmentItemController.cs:115-116 | Sets `SkippedByPatient` and the time. Both answers, both comments, the flag, the keys and the order are kept. |
| AssessmentItemApi.WithStaffAnswer | DLDA.API/DLDA.API/Controllers/AssessmentItemController.cs:329-332 | Stores the staff answer and comment, the flag or false when none is given, and the time. The patient fields are kept. |
| AssessmentItemApi.NewItem | DLDA.API/DLDA.API/Controllers/AssessmentItemController.cs:304-313 | The new item copies the ids, the staff answer and the flag. It stores the patient answer, or -1 when none is given. It is not skipped, has no comments, has `Order` 0 and is answered at the given time. |
| AssessmentItemApi.WithComplete | DLDA.API/DLDA.API/Controllers/AssessmentItemController.cs:176 | Marks the assessment complete and keeps every other column. |
| AssessmentItemApi.AssessmentItemController.constructor | DLDA.API/DLDA.API/Controllers/AssessmentItemController.cs:13-16 | The controller works on the given context. |
| AssessmentItemApi.AssessmentItemController.UpdatePatientAnswer | DLDA.API/DLDA.API/Controllers/AssessmentItemController.cs:69-104 | An unknown id gives `NotFound` with the table unchanged. Otherwise the result is `NoContent`, and the table is the old one with that item replaced by `WithPatientAnswer`. Only the item table may change, and the key invariant is kept. |
| AssessmentItemApi.AssessmentItemController.SkipQuestion | DLDA.API/DLDA.API/Controllers/AssessmentItemController.cs:110-120 | An unknown id gives `NotFound` with the table unchanged. Otherwise the result is `NoContent`, with the item replaced by `WithSkip`. |
| AssessmentItemApi.AssessmentItemController.CompleteAssessment | DLDA.API/DLDA.API/Controllers/AssessmentItemController.cs:171-180 | An unknown id gives `NotFound` with the table unchanged. Otherwise the result is `NoContent`, with the assessment replaced by `WithComplete`. Only the assessment table may change. |
| AssessmentItemApi.AssessmentItemController.CreateItem | DLDA.API/DLDA.API/Controllers/AssessmentItemController.cs:302-319 | Appends exactly one `NewItem`, numbered by the identity counter, and bumps the counter. Returns `Created` with the new id. |
| AssessmentItemApi.AssessmentItemController.UpdateStaffAnswer | DLDA.API/DLDA.API/Controllers/AssessmentItemController.cs:324-336 | An unknown id gives `NotFound` with the table unchanged. Otherwise the result is `NoContent`, with the item replaced by `WithStaffAnswer`. |
| AssessmentItemApi.AssessmentItemController.DeleteItem | DLDA.API/DLDA.API/Controllers/AssessmentItemController.cs:341-350 | An unknown id gives `NotFound` with the table unchanged. Otherwise the result is `NoContent`, and the table is the old one without that id. |
| QuestionApi.GetQuestionsByCategory | DLDA.API/DLDA.API/Controllers/QuestionController.cs:40-58 | `BadRequest` exactly for a blank category. `NotFound` exactly when no question's category equals it, ignoring case. `Ok` holds a non-empty list in which every row is the DTO of a stored question of that category, and every such question appears. |
| QuestionApi.NewQuestion | DLDA.API/DLDA.API/Controllers/QuestionController.cs:82-88 | The new question copies text, category and activity, and takes the new id and the creation time. |
| QuestionApi.WithQuestionUpdate | DLDA.API/DLDA.API/Controllers/QuestionController.cs:104-106 | Text, category and activity change. The id and the creation time do not. |
| QuestionApi.NextItemSpec | DLDA.API/DLDA.API/Controllers/QuestionController.cs:133-137 | `Where(..).OrderBy(QuestionID).FirstOrDefault()` is absent exactly when nothing qualifies. Otherwise it is a qualifying item with the smallest question id, and the first such item in table order. |
| QuestionApi.PatientNextSpec | DLDA.API/DLDA.API/Controllers/QuestionController.cs:131-149 | `Done` exactly when every item of the assessment has a patient answer. Otherwise the result names an unanswered item of the assessment whose question id is no larger than that of any other unanswered item. |
| QuestionApi.StaffNextSpec | DLDA.API/DLDA.API/Controllers/QuestionController.cs:213-233 | The same two rules on the staff answer, with the item's patient answer and flag in the result. |
| QuestionApi.WithSubmittedPatientAnswer | DLDA.API/DLDA.API/Controllers/QuestionController.cs:159-160 | Stores the patient answer and the time. Every other column is kept. |
| QuestionApi.WithPatientAnswerCleared | DLDA.API/DLDA.API/Controllers/QuestionController.cs:174-175 | Clears the patient answer and sets the time. Every other column is kept. |
| QuestionApi.WithSubmittedStaffAnswer | DLDA.API/DLDA.API/Controllers/QuestionController.cs:243-245 | Stores the staff answer, the time, and the flag or false when none is given. The patient fields are kept. |
| QuestionApi.WithStaffAnswerCleared | DLDA.API/DLDA.API/Controllers/QuestionController.cs:259-260 | Clears the staff answer and sets the time. Every other column is kept. |
| QuestionApi.ReplacedRows | DLDA.API/DLDA.API/Controllers/QuestionController.cs:156-161 | After an in-place update, every row is the new row or an old row with another id. |
| QuestionApi.SubmittedItemNotNext | DLDA.API/DLDA.API/Controllers/QuestionController.cs:135 | After a patient answer is submitted for an item, the next-question query of any assessment never returns that item. |
| QuestionApi.SkippedItemEligible | DLDA.API/DLDA.API/Controllers/QuestionController.cs:174 | After the patient skips an item, its assessment is not done, and the next question's id is at most the skipped item's. |
| QuestionApi.ProgressIndexSpec | DLDA.API/DLDA.API/Controllers/QuestionController.cs:186-193 | The index is -1 exactly when no item of the assessment has the question id. Otherwise it is the number of the assessment's items with a smaller question id, and it is below their count. |
| QuestionApi.PatientProgressSpec | DLDA.API/DLDA.API/Controllers/QuestionController.cs:184-204 | `NotFound` exactly when the question is not among the assessment's items. Otherwise the question number is 1 plus the number of items with a smaller question id, the total is the item count, 1 ≤ number ≤ total, and the text is the question's. |
| QuestionApi.StaffProgressSpec | DLDA.API/DLDA.API/Controllers/QuestionController.cs:269-291 | The same position rules, with the patient answer and flag of an item of that question. |
| QuestionApi.QuestionController.constructor | DLDA.API/DLDA.API/Controllers/QuestionController.cs:13-16 | The controller works on the given context. |
| QuestionApi.QuestionController.CreateQuestion | DLDA.API/DLDA.API/Controllers/QuestionController.cs:80-92 | Appends exactly one `NewQuestion`, numbered by the identity counter, and bumps the counter. Returns `Created` with the new id. |
| QuestionApi.QuestionController.UpdateQuestion | DLDA.API/DLDA.API/Controllers/QuestionController.cs:97-109 | A path/body id mismatch gives `BadRequest`, and an unknown id gives `NotFound`, both with no change. Otherwise the result is `NoContent`, with the question replaced by `WithQuestionUpdate`. |
| QuestionApi.QuestionController.DeleteQuestion | DLDA.API/DLDA.API/Controllers/QuestionController.cs:114-122 | An unknown id gives `NotFound` with no change. Otherwise the result is `NoContent`, with that question removed. |
| QuestionApi.QuestionController.SubmitPatientAnswer | DLDA.API/DLDA.API/Controllers/QuestionController.cs:154-164 | An unknown item gives `NotFound` with no change. Otherwise the result is `Ok`, with the item replaced by `WithSubmittedPatientAnswer`. |
| QuestionApi.QuestionController.SkipPatientQuestion | DLDA.API/DLDA.API/Controllers/QuestionController.cs:169-179 | An unknown item gives `NotFound` with no change. Otherwise the result is `Ok`, with the item replaced by `WithPatientAnswerCleared`. |
| QuestionApi.QuestionController.SubmitStaffAnswer | DLDA.API/DLDA.API/Controllers/QuestionController.cs:238-249 | An unknown item gives `NotFound` with no change. Otherwise the result is `Ok`, with the item replaced by `WithSubmittedStaffAnswer`. |
| QuestionApi.QuestionController.SkipStaffQuestion | DLDA.API/DLDA.API/Controllers/QuestionController.cs:254-264 | An unknown item gives `NotFound` with no change. Otherwise the result is `Ok`, with the item replaced by `WithStaffAnswerCleared`. |
| AssessmentApi.NewestFirstIsOwned | DLDA.API/DLDA.API/Controllers/AssessmentController.cs:27-29 | The user's list is a permutation of the user's assessments in non-increasing `CreatedAt`. An assessment is in it exactly when the user owns it. |
| AssessmentApi.GetAssessmentsForUser | DLDA.API/DLDA.API/Controllers/AssessmentController.cs:25-38 | One DTO per owned assessment, in newest-first order. Every DTO carries the user's id, and every owned assessment appears. |
| AssessmentApi.AllNewestFirst | DLDA.API/DLDA.API/Controllers/AssessmentController.cs:89 | All assessments, as a permutation in non-increasing `CreatedAt`. |
| AssessmentApi.GetAssessments | DLDA.API/DLDA.API/Controllers/AssessmentController.cs:86-98 | One DTO per assessment, in newest-first order, with every assessment present. |
| AssessmentApi.SearchAssessmentsByPatientName | DLDA.API/DLDA.API/Controllers/AssessmentController.cs:103-125 | `NotFound` exactly when no assessment's user name contains the query, ignoring case. Otherwise the result is the non-empty list of search rows. |
| AssessmentApi.SearchNewestFirst | DLDA.API/DLDA.API/Controllers/AssessmentController.cs:108 | Search rows are in non-increasing `CreatedAt`. |
| AssessmentApi.MatchingRowNamesPatient | DLDA.API/DLDA.API/Controllers/AssessmentController.cs:109-118 | The row built from a matching assessment carries its owner's username, which contains the query ignoring case. |
| AssessmentApi.SearchRowMatches | DLDA.API/DLDA.API/Controllers/AssessmentController.cs:105-118 | The row at each position comes from a matching assessment. |
| AssessmentApi.SearchRowsMatch | DLDA.API/DLDA.API/Controllers/AssessmentController.cs:107-116 | Every row's patient name is the username of a stored user with the row's user id, and it contains the query ignoring case. |
| AssessmentApi.SearchComplete | DLDA.API/DLDA.API/Controllers/AssessmentController.cs:107 | Every assessment whose owner's name contains the query has a row. |
| AssessmentApi.NewAssessment | DLDA.API/DLDA.API/Controllers/AssessmentController.cs:63-71 | The new assessment copies `Type`, `ScaleType`, `IsComplete` and `UserId`, and takes the new id and both times. |
| AssessmentApi.WithAssessmentUpdate | DLDA.API/DLDA.API/Controllers/AssessmentController.cs:138-141 | `Type`, `ScaleType`, `IsComplete` and `UpdatedAt` change. The id, `UserId` and `CreatedAt` do not. |
| AssessmentApi.CreatedAssessmentFound | DLDA.API/DLDA.API/Controllers/AssessmentController.cs:73 | After the insert, the new id finds the new assessment, and every other id finds what it found before. |
| AssessmentApi.AssessmentController.constructor | DLDA.API/DLDA.API/Controllers/AssessmentController.cs:13-16 | The controller works on the given context. |
| AssessmentApi.AssessmentController.CreateAssessment | DLDA.API/DLDA.API/Controllers/AssessmentController.cs:61-77 | Appends exactly one `NewAssessment`, numbered by the identity counter, and bumps the counter. Returns `Created` with the new id. |
| AssessmentApi.AssessmentController.UpdateAssessment | DLDA.API/DLDA.API/Controllers/AssessmentController.cs:131-145 | A path/body id mismatch gives `BadRequest`, and an unknown id gives `NotFound`, both with no change. Otherwise the result is `NoContent`, with the row replaced by `WithAssessmentUpdate`. |
| AssessmentApi.AssessmentController.DeleteAssessment | DLDA.API/DLDA.API/Controllers/AssessmentController.cs:150-158 | An unknown id gives `NotFound` with no change. Otherwise the result is `NoContent`, with that assessment removed. |
| UserApi.GetPatients | DLDA.API/DLDA.API/Controllers/UserController.cs:41-59 | Every listed user has a role that lower-cases to "patient". A non-empty search filters by username, ignoring case, and a null or empty search does not. Every listed DTO comes from such a user, and every such user is listed. |
| UserApi.NewUser | DLDA.API/DLDA.API/Controllers/UserController.cs:84-91 | The new user copies username, e-mail and role, and takes the given password hash and creation time. |
| UserApi.WithUserUpdate | DLDA.API/DLDA.API/Controllers/UserController.cs:107-109 | Username, e-mail and role change. The id, the password hash and `CreatedAt` do not. |
| UserApi.UserController.constructor | DLDA.API/DLDA.API/Controllers/UserController.cs:14-17 | The controller works on the given context. |
| UserApi.UserController.CreateUser | DLDA.API/DLDA.API/Controllers/UserController.cs:82-95 | Appends exactly one `NewUser`, numbered by the identity counter, and bumps the counter. Returns `Created` with the new id. |
| UserApi.UserController.UpdateUser | DLDA.API/DLDA.API/Controllers/UserController.cs:100-112 | A path/body id mismatch gives `BadRequest`, and an unknown id gives `NotFound`, both with no change. Otherwise the result is `NoContent`, with the user replaced by `WithUserUpdate`. |
| UserApi.UserController.DeleteUser | DLDA.API/DLDA.API/Controllers/UserController.cs:117-125 | An unknown id gives `NotFound` with no change. Otherwise the result is `NoContent`, with that user removed. |

## Left out

- Persistence: EF Core, `SaveChanges`/`SaveChangesAsync`, `Include` and the async calls. Tables are in-memory sequences, and a navigation property such as `ai.Question` is a lookup of the key in the other table.
- The `try`/`catch` in `UpdatePatientAnswer` that returns status 500 when saving fails. It is a database failure and has no in-memory counterpart.
- Clocks: every `DateTime.UtcNow` is a `now` parameter. `CreateAssessment` takes separate creation and update times, so nothing claims that they are equal. `CreatedAt ?? DateTime.MinValue` is the stored integer time.
- Logging: the `Console.WriteLine` calls.
- BCrypt: `CreateUser` receives the hash of the default password as an opaque string parameter.
- `Text.ToLower`: culture-aware case mapping is not modelled, only ASCII lower-casing.
- Ordering ties: SQL `ORDER BY` leaves the order of equal keys open. The model sorts stably in table order, which is one of the orders the database may return.
- Object identity: EF assigns fields of a tracked entity in place. The model replaces that row of the table with an updated value, so aliasing of one entity through several references is not modelled.
- The `if (item.SkippedByPatient)` block in `UpdatePatientAnswer` never runs, because the flag was set to false on the line before. The model just sets it to false.
- `StaffResultDto.AnswerDifference`: does not model the 32-bit wrap-around of `p − s` or the `OverflowException` of `Math.Abs(int.MinValue)`, because Dafny integers are unbounded. Answers are stored as given, unvalidated, so such values can be stored.
- `StaffResultDto.StaffResultRowDto.Difference` carries no contract of its own. It delegates to the corrected `ScaledDifference`, which differs from the source only for a stored answer off the 0–4 scale (see Findings). The source's expression is `AnswerDifference`.
- The plain projections `GetItems`, `GetItem`, `GetQuestions`, `GetQuestion`, `GetUsers`, `GetUser` and `GetAssessment`. They map one table or one found row to a DTO, and they add nothing that the modelled `Find` and `Select` do not already state.
- `CreatedAtAction` returns the request DTO as its body and a location header. The model returns `Created(id)` with the new id only.
- Data shapes: the shipped `AssessmentItem` model lacks `SkippedByPatient` and `Order`, which the controllers read and write, so the model adds both columns. The DTOs lack `Type` on `AssessmentDto` and the request bodies `PatientAnswerDto`, `StaffAnswerDto` and `SubmitStaffAnswerDto`, so the model gives them the fields the controllers use. The `QuestionDto` returned by `GetQuestionByOrder` is its own record, `QuestionByOrderDto`.
- `QuestionApi.QuestionController.SubmitPatientAnswer`: the request's comment is not stored, as in the source.
- Strings are never null in the model. `(q.Category ?? "")` and `QuestionText ?? ""` are the stored strings, and a missing search text for the assessment search is not modelled.
- Cascade deletes and foreign-key checks of the database. Delete removes one row, and create does not check that the referenced user, assessment or question exists.
- `AuthController`, `StatisticsController` and the GUI controllers are not modelled.
- Query endpoints are functions over the tables rather than methods of the controller classes, because they change nothing. Their properties are stated as lemmas about those functions.

## Findings

| source | as written | input that shows it | evidently intended | confidence | as-written member | corrected member |
|---|---|---|---|---|---|---|
| DLDA.API/DLDA.API/Controllers/AssessmentItemController.cs:308 with DLDA.API/DLDA.API/DTOs/StaffResultDto.cs:27-30 | `CreateItem` stores -1 when no patient answer is given, and the staff overview row then computes `Difference` as \|-1 − s\| = s+1, as if the patient had answered. | `CreateItem` with `PatientAnswer = null` and `StaffAnswer = 2`. The staff overview row for that item shows `Difference = 3`. The item is also never offered by `GetNextUnansweredPatientQuestion`, because -1 counts as an answer there (QuestionApi.CreatedWithoutAnswerNeverOffered). | A missing patient answer gives `Difference = -1`, as the overview already assumes by hiding answers off the 0–4 scale. | not executed | AssessmentItemApi.CreatedSentinelInStaffDifference, StaffResultDto.SentinelReadAsAnswer | StaffResultDto.ScaledDifference |
