/**
 * The question endpoints: picking the next question for a user and scoring a
 * submitted answer.
 */
module QuestionController {
  import opened Wrappers
  import opened Lists
  import opened Schema
  import opened Arith

  /** How many of the user's latest answers are excluded from selection. */
  const RECENT_WINDOW: nat := 20

  /** The error responses of both endpoints, with their status and message. */
  datatype ApiError =
    | InvalidAnswerFormat   // 400 "Invalid answer format"
    | QuestionNotFound      // 404 "Question not found"
    | NoQuestionsAvailable  // 404 "No questions available"
    | SubmitFailed          // 500 "Failed to submit answer", a database write was refused

  // ---------------------------------------------------------------- scoring

  /**
   * The scoring test: the lengths agree and every selected id is among the
   * correct ids. This is not set equality when `selected` repeats an id.
   */
  predicate IsCorrect(selected: seq<string>, correct: seq<string>)
    ensures IsCorrect(selected, correct) ==> |selected| == |correct| && Elems(selected) <= Elems(correct)
    ensures (exists i :: 0 <= i < |selected| && selected[i] !in correct) ==> !IsCorrect(selected, correct)
  {
    |selected| == |correct| && forall i :: 0 <= i < |selected| ==> selected[i] in correct
  }

  /** For duplicate-free lists the scoring test is exactly set equality. */
  lemma IsCorrectIsSetEquality(selected: seq<string>, correct: seq<string>)
    requires NoDup(selected) && NoDup(correct)
    ensures IsCorrect(selected, correct) <==> Elems(selected) == Elems(correct)
  {
    NoDupCard(selected);
    NoDupCard(correct);
    var s, c := Elems(selected), Elems(correct);
    if IsCorrect(selected, correct) {
      assert s <= c;
      assert c == s + (c - s);
      assert |c - s| == 0;
    }
    if s == c {
      forall i | 0 <= i < |selected| ensures selected[i] in correct {
        assert selected[i] in s;
      }
    }
  }

  /** Without the duplicate-free assumption the test is weaker than set equality: ["a","a"] scores against ["a","b"]. */
  lemma DuplicateSelectionScoresCorrect()
    ensures IsCorrect(["a", "a"], ["a", "b"])
    ensures Elems(["a", "a"]) != Elems(["a", "b"])
  {
    assert "b" !in Elems(["a", "a"]);
  }

  /** The unit-test cases: {a,b} against {a,b} passes, {a,c} and {a} fail. */
  lemma ScoringExamples()
    ensures IsCorrect(["a", "b"], ["a", "b"])
    ensures !IsCorrect(["a", "c"], ["a", "b"])
    ensures !IsCorrect(["a"], ["a", "b"])
  {
    assert ["a", "c"][1] == "c" && "c" !in ["a", "b"];
  }

  /** A one-id selection scores exactly when the correct list is that one id. */
  lemma SingleSelectionScoring(id: string, correct: seq<string>)
    ensures IsCorrect([id], correct) <==> correct == [id]
  {
    if IsCorrect([id], correct) {
      assert [id][0] in correct;
      assert correct == [correct[0]];
    }
  }

  /**
   * On a question of the seeded shape, a duplicate-free selection scores
   * exactly when it names the correct ids, and a correct answer to a SINGLE
   * question is its one correct id.
   */
  lemma ScoringOnWellFormedQuestion(q: Question, selected: seq<string>)
    requires WellFormedQuestion(q) && NoDup(selected)
    ensures IsCorrect(selected, q.correctAnswers) <==> Elems(selected) == Elems(q.correctAnswers)
    ensures q.qtype == SINGLE ==> (IsCorrect(selected, q.correctAnswers) <==> selected == q.correctAnswers)
  {
    IsCorrectIsSetEquality(selected, q.correctAnswers);
    if q.qtype == SINGLE && IsCorrect(selected, q.correctAnswers) {
      assert |selected| == 1;
      SingleSelectionScoring(selected[0], q.correctAnswers);
      assert selected == [selected[0]];
    }
  }

  /** The reward: nothing for a wrong answer, 10 for a correct SINGLE question, 15 for any other type. */
  function PointsEarned(qtype: string, isCorrect: bool): (p: nat)
    ensures p > 0 <==> isCorrect
    ensures p <= 15
  {
    if isCorrect then (if qtype == SINGLE then 10 else 15) else 0
  }

  /** The reward table, as the unit tests pin it. */
  lemma PointsTable(qtype: string)
    ensures PointsEarned(qtype, false) == 0
    ensures PointsEarned(SINGLE, true) == 10
    ensures PointsEarned("MULTIPLE", true) == 15
    ensures qtype != SINGLE ==> PointsEarned(qtype, true) == 15
  {
  }

  // -------------------------------------------------------------- selection

  /**
   * The question ids of the user's latest `take` answers, newest first: the
   * rows the answer log yields when filtered by user, ordered by creation time
   * descending and cut at `take`.
   */
  function RecentQuestionIds(answers: seq<UserAnswer>, userId: string, take: nat): (ids: seq<string>)
    ensures |ids| <= take
  {
    if answers == [] || take == 0 then []
    else
      var last := answers[|answers| - 1];
      var prefix := answers[..|answers| - 1];
      if last.userId == userId then [last.questionId] + RecentQuestionIds(prefix, userId, take - 1)
      else RecentQuestionIds(prefix, userId, take)
  }

  /** Appending a row puts its question id at the front of the window when it is the user's. */
  lemma RecentSnoc(answers: seq<UserAnswer>, row: UserAnswer, userId: string, take: nat)
    requires take > 0
    ensures RecentQuestionIds(answers + [row], userId, take)
      == if row.userId == userId then [row.questionId] + RecentQuestionIds(answers, userId, take - 1)
         else RecentQuestionIds(answers, userId, take)
  {
    var all := answers + [row];
    assert all[..|all| - 1] == answers && all[|all| - 1] == row;
  }

  /**
   * Against the user's history in creation order: the window holds the last
   * min(take, |history|) rows, newest first.
   */
  lemma {:induction false} RecentIsNewestOfHistory(answers: seq<UserAnswer>, userId: string, take: nat)
    ensures var h := UserHistory(answers, userId);
      var ids := RecentQuestionIds(answers, userId, take);
      && |ids| == (if take < |h| then take else |h|)
      && forall k :: 0 <= k < |ids| ==> ids[k] == h[|h| - 1 - k].questionId
  {
    if answers == [] || take == 0 {
      assert RecentQuestionIds(answers, userId, take) == [];
    } else {
      var last := answers[|answers| - 1];
      var prefix := answers[..|answers| - 1];
      assert answers == prefix + [last];
      UserHistorySnoc(prefix, last, userId);
      RecentSnoc(prefix, last, userId, take);
      var hp := UserHistory(prefix, userId);
      if last.userId == userId {
        RecentIsNewestOfHistory(prefix, userId, take - 1);
        NewestStep(hp, last, RecentQuestionIds(prefix, userId, take - 1), take);
      } else {
        RecentIsNewestOfHistory(prefix, userId, take);
      }
    }
  }

  /** The inductive step of RecentIsNewestOfHistory for a row of the user. */
  lemma NewestStep(hp: seq<UserAnswer>, last: UserAnswer, older: seq<string>, take: nat)
    requires take > 0
    requires |older| == (if take - 1 < |hp| then take - 1 else |hp|)
    requires forall k :: 0 <= k < |older| ==> older[k] == hp[|hp| - 1 - k].questionId
    ensures var h := hp + [last];
      var ids := [last.questionId] + older;
      && |ids| == (if take < |h| then take else |h|)
      && forall k :: 0 <= k < |ids| ==> ids[k] == h[|h| - 1 - k].questionId
  {
    var h := hp + [last];
    var ids := [last.questionId] + older;
    forall k | 0 <= k < |ids| ensures ids[k] == h[|h| - 1 - k].questionId {
      if k > 0 {
        assert ids[k] == older[k - 1];
        assert h[|h| - 1 - k] == hp[|hp| - 1 - (k - 1)];
      }
    }
  }

  /** The question a user has just answered is excluded from their next selection. */
  lemma JustAnsweredIsExcluded(answers: seq<UserAnswer>, row: UserAnswer)
    ensures row.questionId in RecentQuestionIds(answers + [row], row.userId, RECENT_WINDOW)
  {
    var all := answers + [row];
    assert all[|all| - 1] == row && all[..|all| - 1] == answers;
  }

  /** The query filter: ids to exclude, and the category when one was asked for. */
  datatype Where = Where(notIn: seq<string>, category: Option<string>)

  predicate Matches(w: Where, q: Question)
  {
    q.id !in w.notIn && (w.category.Some? ==> q.category == w.category.value)
  }

  /**
   * The filter the endpoint builds: the excluded ids, plus the category when a
   * non-empty one was asked for (an empty one is falsy and filters nothing).
   */
  function SelectionFilter(recent: seq<string>, category: Option<string>): (w: Where)
    ensures forall q :: Matches(w, q) <==> Eligible(q, recent, category)
  {
    Where(recent, if category.Some? && category.value != "" then category else None)
  }

  /** The questions that match a filter, in table order (the fixed order offsets count in). */
  function Pool(questions: seq<Question>, w: Where): (pool: seq<Question>)
    ensures |pool| <= |questions|
    ensures forall q :: q in pool <==> q in questions && Matches(w, q)
  {
    if questions == [] then []
    else
      var rest := Pool(questions[1..], w);
      assert forall q :: q in questions <==> q == questions[0] || q in questions[1..];
      if Matches(w, questions[0]) then [questions[0]] + rest else rest
  }

  /**
   * The random offset: for a draw num/den in [0, 1), the floor of the draw
   * times `count`. It always lies in [0, count).
   */
  function SkipOffset(num: nat, den: nat, count: nat): (skip: nat)
    requires num < den
    ensures count > 0 ==> skip < count
    ensures skip * den <= num * count < (skip + 1) * den
  {
    var skip := num * count / den;
    SkipOffsetBounds(num, den, count, skip);
    skip
  }

  lemma SkipOffsetBounds(num: nat, den: nat, count: nat, skip: nat)
    requires num < den && skip == num * count / den
    ensures count > 0 ==> skip < count
    ensures skip * den <= num * count < (skip + 1) * den
  {
    DivBounds(num * count, den);
    if count > 0 {
      MulStrictLess(num, den, count);
      MulCancelLess(skip, count, den);
    }
  }

  /** Every position of a pool of `count` questions is drawn by some num/den. */
  lemma {:induction false} SkipOffsetReachesEvery(k: nat, count: nat)
    requires k < count
    ensures SkipOffset(k, count, count) == k
  {
    var skip := SkipOffset(k, count, count);
    assert skip * count <= k * count < (skip + 1) * count;
    if skip < k {
      MulMono(count, skip + 1, k);
    } else if skip > k {
      MulMono(count, k + 1, skip);
    }
  }

  /** What the next-question endpoint returns: the question without its correct answers and explanation. */
  datatype QuestionView = QuestionView(
    id: string,
    content: string,
    qtype: string,
    category: string,
    difficulty: string,
    allAnswers: seq<Choice>)

  function Project(q: Question): (v: QuestionView)
    ensures v.id == q.id && v.category == q.category && v.allAnswers == q.allAnswers
  {
    QuestionView(q.id, q.content, q.qtype, q.category, q.difficulty, q.allAnswers)
  }

  /** The view does not depend on the correct answers or the explanation, so it cannot reveal them. */
  lemma ProjectWithholdsAnswers(q: Question, correctAnswers: seq<string>, explanation: string)
    ensures Project(q.(correctAnswers := correctAnswers, explanation := explanation)) == Project(q)
  {
  }

  /** A question may be served: not recently answered, and in the asked-for category if a non-empty one was given. */
  predicate Eligible(q: Question, recent: seq<string>, category: Option<string>)
  {
    q.id !in recent && (category.Some? && category.value != "" ==> q.category == category.value)
  }

  /**
   * The next-question endpoint. `category` is the optional query parameter
   * (an empty one filters nothing, as it is falsy); the random draw is num/den.
   */
  method GetNextQuestion(db: Store, userId: string, category: Option<string>, num: nat, den: nat)
    returns (r: Result<QuestionView, ApiError>)
    requires num < den
    ensures var recent := RecentQuestionIds(db.answers, userId, RECENT_WINDOW);
      r.Err? <==> forall q :: q in db.questions ==> !Eligible(q, recent, category)
    ensures r.Err? ==> r.error == NoQuestionsAvailable
    ensures r.Ok? ==> exists q :: q in db.questions && r.value == Project(q)
    ensures r.Ok? ==> r.value.id !in RecentQuestionIds(db.answers, userId, RECENT_WINDOW)
    ensures r.Ok? && category.Some? && category.value != "" ==> r.value.category == category.value
    ensures r.Ok? ==>
      var pool := Pool(db.questions, SelectionFilter(RecentQuestionIds(db.answers, userId, RECENT_WINDOW), category));
      |pool| > 0 && r.value == Project(pool[SkipOffset(num, den, |pool|)])
  {
    var excludeIds := RecentQuestionIds(db.answers, userId, RECENT_WINDOW);
    var where := Where(excludeIds, None);
    if category.Some? && category.value != "" {
      where := where.(category := category);
    }
    assert where == SelectionFilter(excludeIds, category);
    var pool := Pool(db.questions, where);
    var count := |pool|;
    if count == 0 {
      return Err(NoQuestionsAvailable);
    }
    var skip := SkipOffset(num, den, count);
    var question := pool[skip];
    assert question in pool;
    r := Ok(Project(question));
  }

  // ----------------------------------------------------------- submission

  /** The `selectedAnswers` field of the request body. */
  datatype SelectedField = Absent | NotAnArray | AnArray(ids: seq<string>)

  /** The request body; `timeSpent` is None when the field is missing. */
  datatype SubmitBody = SubmitBody(selectedAnswers: SelectedField, timeSpent: Option<int>)

  datatype SubmitResponse = SubmitResponse(
    isCorrect: bool,
    pointsEarned: nat,
    correctAnswers: seq<string>,
    explanation: string)

  /** A missing or zero time is stored as 0; any other time as given. */
  function TimeSpentOrZero(t: Option<int>): (stored: int)
    ensures stored == 0 <==> (t.None? || t.value == 0)
    ensures stored != 0 ==> t == Some(stored)
  {
    if t.Some? then t.value else 0
  }

  /**
   * The answer endpoint. A body without an array is refused before the
   * lookup, an unknown question id is refused, and an unknown user makes the
   * first write fail on its foreign key; in each case nothing is written.
   * Otherwise one row is appended and only that user's points grow.
   */
  method SubmitAnswer(db: Store, userId: string, questionId: string, body: SubmitBody)
    returns (r: Result<SubmitResponse, ApiError>)
    requires db.Valid()
    modifies db
    ensures db.Valid()
    ensures !body.selectedAnswers.AnArray? ==> r == Err(InvalidAnswerFormat) && unchanged(db)
    ensures body.selectedAnswers.AnArray? && FindQuestion(old(db.questions), questionId).None? ==>
      r == Err(QuestionNotFound) && unchanged(db)
    ensures (body.selectedAnswers.AnArray? && FindQuestion(old(db.questions), questionId).Some?
             && userId !in old(db.points)) ==> r == Err(SubmitFailed) && unchanged(db)
    ensures r.Ok? <==> (body.selectedAnswers.AnArray? && FindQuestion(old(db.questions), questionId).Some?
                        && userId in old(db.points))
    ensures r.Ok? ==>
      var selected := body.selectedAnswers.ids;
      var q := FindQuestion(old(db.questions), questionId).value;
      var ok := IsCorrect(selected, q.correctAnswers);
      var pts := PointsEarned(q.qtype, ok);
      && r.value == SubmitResponse(ok, pts, q.correctAnswers, q.explanation)
      && db.answers == old(db.answers) + [UserAnswer(userId, questionId, selected, ok, pts, TimeSpentOrZero(body.timeSpent))]
      && db.points == old(db.points)[userId := old(db.points)[userId] + pts]
      && db.questions == old(db.questions)
    ensures forall u :: u in old(db.points) ==> u in db.points && db.points[u] >= old(db.points)[u]
    ensures forall u :: u in old(db.points) && u != userId ==> db.points[u] == old(db.points)[u]
  {
    if !body.selectedAnswers.AnArray? {
      return Err(InvalidAnswerFormat);
    }
    var selected := body.selectedAnswers.ids;
    var found := FindQuestion(db.questions, questionId);
    if found.None? {
      return Err(QuestionNotFound);
    }
    var question := found.value;
    if userId !in db.points {
      return Err(SubmitFailed);
    }
    var correctAnswers := question.correctAnswers;
    var isCorrect := IsCorrect(selected, correctAnswers);
    var pointsEarned := PointsEarned(question.qtype, isCorrect);
    db.CreateUserAnswer(UserAnswer(userId, questionId, selected, isCorrect, pointsEarned, TimeSpentOrZero(body.timeSpent)));
    db.IncrementPoints(userId, pointsEarned);
    r := Ok(SubmitResponse(isCorrect, pointsEarned, correctAnswers, question.explanation));
  }

  /**
   * Submissions are not deduplicated: the same answer sent twice is logged
   * twice and rewarded twice.
   */
  method SubmitTwice(db: Store, userId: string, questionId: string, body: SubmitBody)
    returns (first: Result<SubmitResponse, ApiError>, second: Result<SubmitResponse, ApiError>)
    requires db.Valid()
    requires body.selectedAnswers.AnArray? && FindQuestion(db.questions, questionId).Some? && userId in db.points
    modifies db
    ensures first.Ok? && second == first
    ensures db.Valid()
    ensures var row := UserAnswer(userId, questionId, body.selectedAnswers.ids, first.value.isCorrect,
                                  first.value.pointsEarned, TimeSpentOrZero(body.timeSpent));
      db.answers == old(db.answers) + [row, row]
    ensures db.questions == old(db.questions)
    ensures db.points == old(db.points)[userId := old(db.points)[userId] + 2 * first.value.pointsEarned]
  {
    first := SubmitAnswer(db, userId, questionId, body);
    second := SubmitAnswer(db, userId, questionId, body);
  }
}
