# Quiz core of an exam-prep web application, modelled in Dafny

The application serves multiple-choice exam questions to logged-in users,
scores their answers, awards points and shows progress. This project models its logic:

- **Question selection** (`QuestionController.GetNextQuestion`). Question ids from the
  user's 20 most recent answers are excluded. An optional, non-empty category
  narrows the pool. An empty pool is the "No questions available" error. Otherwise the
  question at a random offset in the pool comes back, without its correct ids and
  without its explanation.
- **Answer scoring** (`QuestionController.SubmitAnswer`). The body is validated, the
  question is looked up, and the answer is scored by the length-plus-membership test.
  The reward is 10 points for a correct SINGLE answer and 15 for a correct answer of
  any other type. One answer row is appended and the user's points go up by the reward.
- **Progress aggregation** (`ProgressController.GetDashboard`). From one user's answer
  rows it computes the totals, the rounded accuracy and a per-category breakdown.
  The breakdown is built by a counting loop over the rows.
- **Answer selection on the question card** (`QuestionCard.HandleAnswerClick`). A click
  replaces the selection for SINGLE questions and toggles the id otherwise. The submit
  button is disabled while the selection is empty or a submission is in flight.
- **Cross-origin policy** (`Cors.CheckOrigin`). Requests without an origin are allowed.
  So are listed origins and origins ending in `.onrender.com` or `.render.com`.
  Every other origin is refused.

The database is the class `Schema.Store`. It holds the question table, an append-only
log of answer rows in creation order, and a map from user id to points. The
controllers are methods that take the store, as the source's controllers use a shared
database client. JSON columns are already-parsed sequences. The random draw
`Math.random()` is a parameter `num/den` with `num < den`. Offsets count in the order
of the question table.

Files: `wrappers.dfy` (Option, Result), `lists.dfy` (duplicate-freedom and set-size
facts), `arith.dfy` (division facts), `schema.dfy` (entities and store),
`question_controller.dfy`, `progress_controller.dfy`, `question_card.dfy`, `cors.dfy`.

Where the code departs from the obvious reading, the model follows the code:

- Scoring is not set equality when the selection repeats an id.
  `DuplicateSelectionScoresCorrect` shows `["a","a"]` scoring against `["a","b"]`.
  Set equality is proved only for duplicate-free lists.
- Every question type other than the exact string `SINGLE` earns 15 points.
- An empty `category` filters nothing, because it is falsy in the source.
- An empty origin is allowed, and so is a missing one.
- An empty `FRONTEND_URL` is removed from the allow-list, like an unset one.
- `timeSpent` is stored as given, and as 0 when missing.
- A user id without a user row makes the first write fail on its foreign key.
  Submitting then writes nothing. The dashboard fails for that user.

## Model

| member | source | states |
|---|---|---|
| `Schema.FindQuestion` | backend/src/controllers/questionController.js:74-80 | the lookup returns a question with the given id exactly when the table has one, and with unique ids it is the only such question |
| `Schema.UserHistory` | backend/src/controllers/questionController.js:11-16 | a user's history is no longer than the answer log |
| `Schema.UserHistoryMembers` | backend/src/controllers/questionController.js:11-16 | a user's history holds exactly that user's answer rows |
| `Schema.Store.constructor` | backend/src/controllers/questionController.js:1-3 | a store starts with the given questions and users and an empty answer log, and satisfies its invariant |
| `Schema.Store.CreateUserAnswer` | backend/src/controllers/questionController.js:95-104 | creating an answer row appends exactly that row and changes nothing else; foreign keys stay valid |
| `Schema.Store.IncrementPoints` | backend/src/controllers/questionController.js:107-112 | the increment adds the amount to that user's points only |
| `QuestionController.IsCorrectIsSetEquality` | backend/src/controllers/questionController.js:85-87 | for duplicate-free selection and correct lists, the scoring test holds iff the two id sets are equal |
| `QuestionController.DuplicateSelectionScoresCorrect` | backend/src/controllers/questionController.js:85-87 | the test accepts `["a","a"]` against `["a","b"]` although the sets differ |
| `QuestionController.IsCorrect` | backend/src/controllers/questionController.js:85-87 | a passing selection has the correct list's length and only correct ids; a selection naming any id outside the correct list fails |
| `QuestionController.ScoringExamples` | testing/backend/api.test.js:118-149 | {a,b} against {a,b} passes; {a,c} and {a} fail |
| `QuestionController.SingleSelectionScoring` | backend/src/controllers/questionController.js:85-87 | a one-id selection passes iff the correct list is exactly that id |
| `QuestionController.ScoringOnWellFormedQuestion` | backend/prisma/seed.js:154-161 | on a question of the seeded shape, a duplicate-free selection passes iff it names the correct ids, and for SINGLE iff it equals the one correct id |
| `QuestionController.PointsEarned` | backend/src/controllers/questionController.js:89-92 | points are positive exactly when the answer is correct, and never above 15 |
| `QuestionController.PointsTable` | testing/backend/api.test.js:151-172 | 0 points when wrong, 10 for a correct SINGLE answer, 15 for a correct answer of any other type |
| `QuestionController.RecentQuestionIds` | backend/src/controllers/questionController.js:11-18 | the exclusion list has at most `take` ids |
| `QuestionController.RecentSnoc` | backend/src/controllers/questionController.js:14-15 | appending one of the user's rows puts its question id first in the exclusion list |
| `QuestionController.RecentIsNewestOfHistory` | backend/src/controllers/questionController.js:11-18 | the exclusion list is the question ids of the user's last min(20, n) answers, newest first |
| `QuestionController.JustAnsweredIsExcluded` | backend/src/controllers/questionController.js:11-26 | the question a user just answered is in their exclusion list |
| `QuestionController.SelectionFilter` | backend/src/controllers/questionController.js:20-26 | a question matches the built filter iff it is not recently answered and, when a non-empty category was given, has that category |
| `QuestionController.Pool` | backend/src/controllers/questionController.js:20-28 | the pool is exactly the table's questions that match the filter, and it has no more entries than the table |
| `QuestionController.SkipOffset` | backend/src/controllers/questionController.js:35 | the offset is the floor of draw times count, so it lies in [0, count) for a non-empty pool |
| `QuestionController.SkipOffsetReachesEvery` | backend/src/controllers/questionController.js:35-48 | every offset below the count is drawn by some value of the random parameter, so every pool question can be served |
| `QuestionController.Project` | backend/src/controllers/questionController.js:37-48 | the view keeps the question's id, category and options |
| `QuestionController.ProjectWithholdsAnswers` | backend/src/controllers/questionController.js:40-47 | the view is the same whatever the correct ids and explanation are, so it reveals neither |
| `QuestionController.GetNextQuestion` | backend/src/controllers/questionController.js:5-57 | "No questions available" iff no question is eligible; otherwise it returns the projection of the pool question at the drawn offset, which is not excluded and has the requested category |
| `QuestionController.TimeSpentOrZero` | backend/src/controllers/questionController.js:102 | the stored time is 0 exactly when none or 0 was sent, and otherwise the time sent |
| `QuestionController.SubmitAnswer` | backend/src/controllers/questionController.js:64-119 | the error cases leave the store unchanged; success returns the score, points, correct ids and explanation; it appends exactly one row and adds the points to that user only |
| `QuestionController.SubmitTwice` | backend/src/controllers/questionController.js:95-112 | the same submission twice appends its row twice to the old log, adds twice its points to that user only, and leaves the questions unchanged |
| `ProgressController.RoundPercent` | backend/src/controllers/progressController.js:25-27 | the result is the integer nearest 100*c/t, with halves up, and at most 100 when c <= t |
| `ProgressController.Accuracy` | backend/src/controllers/progressController.js:25-27 | accuracy is 0 with no answers, otherwise the rounded percentage, and within 0..100 whenever correct <= total |
| `ProgressController.AccuracyExamples` | testing/backend/api.test.js:176-192 | 7 of 10 gives 70 and 0 of 0 gives 0 |
| `ProgressController.CountCorrect` | backend/src/controllers/progressController.js:24 | the correct count is at most the number of rows, and equals it iff every row is correct |
| `ProgressController.Categories` | backend/src/controllers/progressController.js:30-40 | there are no more categories than rows |
| `ProgressController.CountInCategory` | backend/src/controllers/progressController.js:30-40 | a category's count is at most the number of rows, and is 0 iff no row of it is counted (with only correct rows counted, iff none of its rows is correct) |
| `ProgressController.FirstIndex` | backend/src/controllers/progressController.js:31-40 | the first row of an answered category: it has that category and no earlier row does |
| `ProgressController.CategoriesInFirstAppearanceOrder` | backend/src/controllers/progressController.js:31-47 | of two categories in the order, the earlier one's first row comes first |
| `ProgressController.CategoriesExact` | backend/src/controllers/progressController.js:31-40 | the category order lists each answered category once and no other |
| `ProgressController.CountOfAbsentCategory` | backend/src/controllers/progressController.js:33-36 | a category that no row has counts 0 |
| `ProgressController.CountOfPresentCategory` | backend/src/controllers/progressController.js:34-39 | a present category has at least one row, and its correct count is at most its total |
| `ProgressController.CategoriesPartitionRows` | backend/src/controllers/progressController.js:30-40 | per-category counts add up to the overall counts |
| `ProgressController.BuildCategoryMap` | backend/src/controllers/progressController.js:30-40 | the loop yields categories in first-appearance order, and for each the number of its rows and of its correct rows |
| `ProgressController.ExpectedBreakdown` | backend/src/controllers/progressController.js:42-47 | the breakdown has one entry per distinct category |
| `ProgressController.BreakdownEntriesBounded` | backend/src/controllers/progressController.js:42-47 | every entry has total >= 1, correct <= total and accuracy within 0..100 |
| `ProgressController.BreakdownCategoriesExact` | backend/src/controllers/progressController.js:30-47 | entries have distinct categories, and a category is listed iff some answer has it |
| `ProgressController.BreakdownTotalsSum` | backend/src/controllers/progressController.js:23-47 | entry totals sum to the number of answers |
| `ProgressController.BreakdownCorrectsSum` | backend/src/controllers/progressController.js:24-47 | entry corrects sum to the number of correct answers |
| `ProgressController.BreakdownExample` | testing/backend/api.test.js:194-217 | (A,T),(A,F),(B,T),(B,T) gives A 2/1 at 50% and B 2/2 at 100% |
| `ProgressController.AnswerRows` | backend/src/controllers/progressController.js:14-21 | one row per answer of the user, in order, carrying its correctness and its question's category |
| `ProgressController.GetDashboard` | backend/src/controllers/progressController.js:5-55 | fails iff the user is unknown; otherwise totalPoints is the stored points, and the totals, accuracy and breakdown are those of the user's rows |
| `QuestionCard.RemoveAll` | frontend/src/components/questions/QuestionCard.jsx:7 | the result is the selection with every occurrence of the id dropped and every other occurrence kept, as multisets |
| `QuestionCard.HandleAnswerClick` | frontend/src/components/questions/QuestionCard.jsx:2-12 | the clicked id ends up selected iff the question is SINGLE or it was unselected; other ids stay iff the question is not SINGLE |
| `QuestionCard.SingleClickReplaces` | frontend/src/components/questions/QuestionCard.jsx:3-4 | a SINGLE click yields exactly [id] |
| `QuestionCard.MultipleClickAppends` | frontend/src/components/questions/QuestionCard.jsx:8-9 | a MULTIPLE click on an unselected id appends it and keeps the prior order |
| `QuestionCard.MultipleClickRemoves` | frontend/src/components/questions/QuestionCard.jsx:6-7 | a MULTIPLE click on a selected id drops every occurrence of it and keeps the other ids around it in order |
| `QuestionCard.ToggleTwice` | frontend/src/components/questions/QuestionCard.jsx:6-10 | two MULTIPLE clicks on an unselected id restore the selection |
| `QuestionCard.ClickKeepsNoDup` | frontend/src/components/questions/QuestionCard.jsx:6-10 | a duplicate-free selection stays duplicate-free |
| `QuestionCard.SubmitDisabled` | frontend/src/components/questions/QuestionCard.jsx:62 | the button is enabled iff something is selected and no submission is in flight |
| `QuestionCard.ClickEnablesSubmit` | frontend/src/components/questions/QuestionCard.jsx:62 | after a click that selects the id, the button is disabled iff a submission is in flight |
| `QuestionCard.DeselectLastDisablesSubmit` | frontend/src/components/questions/QuestionCard.jsx:62 | deselecting the only selected id disables the button |
| `Cors.AllowedOrigins` | backend/src/server.js:34-42 | the exact entries are the four local origins plus the front-end URL when it is set and non-empty; the patterns are the two hosting suffixes |
| `Cors.EndsWith` | backend/src/server.js:57-59 | an origin matches a pattern iff it is some text followed by the pattern's suffix |
| `Cors.AnyMatches` | backend/src/server.js:53-61 | true iff some entry matches the origin |
| `Cors.CheckOrigin` | backend/src/server.js:33-70 | allowed iff the origin is missing or empty, listed, the front-end URL, or ends in `.onrender.com`/`.render.com`; otherwise "Not allowed by CORS" |
| `Cors.UnsetFrontendUrl` | backend/src/server.js:39-42 | an unset and an empty front-end URL give the same policy, and it admits only local and hosted origins |
| `Cors.HostedOriginAllowed` | backend/src/server.js:40-59 | an `.onrender.com` origin is allowed |
| `Cors.LocalOriginAllowed` | backend/src/server.js:34-56 | the local dev origin and a missing origin are allowed |
| `Cors.ForeignOriginRejected` | backend/src/server.js:63-69 | an unlisted host gets the CORS error |

## Left out

- Persistence, SQL and the database client are replaced by the in-memory `Schema.Store`.
- The database schema file is not part of this model. The foreign keys from an answer row to its user and question are assumed.
- The two writes of a submission are not atomic in the source, and a concurrent increment can race. Both are concurrency concerns; the model runs requests one at a time.
- `Math.random()` is the parameter `num/den`. The model does not say which value it draws, and does not model float rounding in draw times count.
- The source does not fix the row order seen by offset reads and unsorted history reads. The model uses table order for questions and creation order for answers.
- JSON parsing and serialisation of the option and answer columns are left out. Request fields of the wrong element type, such as a number inside `selectedAnswers` or a non-numeric `timeSpent`, are left out too.
- GetNextQuestion: the "No questions found" error after the offset read needs a concurrent delete between the count and the read. Requests run one at a time here, so the offset read always hits the counted pool and the model has no such outcome.
- RoundPercent: it computes round-half-up of the exact ratio 100*c/t. The source multiplies floats and can land just below a half. For 57 of 200 it computes 28.499999999999996 and gives 28, where the model gives 29.
- BuildCategoryMap: it keeps categories in first-appearance order. The source collects them in a plain object. There, integer-like names such as "12" come back in numeric order first. Names of inherited object properties such as "constructor" also break the counting there.
- Server errors (500) from a failing database call are left out. DashboardFailed stands only for the missing user row.
- Authentication, routing, logging, the React views and pages, the seed and migration scripts, and the browser test suites are not part of this model.
- Cors: the regular expressions are modelled as suffix tests. `$` without the multiline flag anchors at the end of input, so the two are the same.
- Cors: the model returns the policy's decision. The callback plumbing and the other CORS options (credentials, methods, headers) are left out.
