/**
 * The persisted entities (Question, UserAnswer and each user's points) and an
 * in-memory store standing in for the database client the controllers share.
 * JSON columns are held as already-parsed sequences.
 */
module Schema {
  import opened Wrappers

  /** One selectable option of a question: an id such as "a" and its text. */
  datatype Choice = Choice(id: string, text: string)

  /** A question row. `qtype` is "SINGLE" or "MULTIPLE" in the seed data; no code restricts it. */
  datatype Question = Question(
    id: string,
    content: string,
    qtype: string,
    category: string,
    difficulty: string,
    allAnswers: seq<Choice>,
    correctAnswers: seq<string>,
    explanation: string)

  /** One submission, as logged by the answer endpoint. */
  datatype UserAnswer = UserAnswer(
    userId: string,
    questionId: string,
    selectedAnswers: seq<string>,
    isCorrect: bool,
    pointsEarned: nat,
    timeSpent: int)

  const SINGLE: string := "SINGLE"

  /**
   * The shape the seeded questions have, which no code enforces: option ids
   * unique, correct ids non-empty, duplicate-free and among the option ids,
   * and exactly one correct id for a SINGLE question.
   */
  predicate WellFormedQuestion(q: Question)
  {
    && (forall i, j :: 0 <= i < j < |q.allAnswers| ==> q.allAnswers[i].id != q.allAnswers[j].id)
    && |q.correctAnswers| > 0
    && (forall i, j :: 0 <= i < j < |q.correctAnswers| ==> q.correctAnswers[i] != q.correctAnswers[j])
    && (forall i :: 0 <= i < |q.correctAnswers| ==> exists k :: 0 <= k < |q.allAnswers| && q.allAnswers[k].id == q.correctAnswers[i])
    && (q.qtype == SINGLE ==> |q.correctAnswers| == 1)
  }

  /** Question ids are primary keys. */
  predicate UniqueIds(questions: seq<Question>)
  {
    forall i, j :: 0 <= i < j < |questions| ==> questions[i].id != questions[j].id
  }

  /** Lookup by primary key (`findUnique`): the first question with that id, if any. */
  function FindQuestion(questions: seq<Question>, id: string): (r: Option<Question>)
    ensures r.Some? ==> r.value in questions && r.value.id == id
    ensures r.None? <==> forall q :: q in questions ==> q.id != id
    ensures r.Some? && UniqueIds(questions) ==>
      forall q :: q in questions && q.id == id ==> q == r.value
  {
    if questions == [] then None
    else if questions[0].id == id then Some(questions[0])
    else
      var rest := FindQuestion(questions[1..], id);
      assert forall q :: q in questions ==> q == questions[0] || q in questions[1..];
      assert UniqueIds(questions) ==> UniqueIds(questions[1..]) by {
        if UniqueIds(questions) {
          forall i, j | 0 <= i < j < |questions[1..]|
            ensures questions[1..][i].id != questions[1..][j].id
          {
            assert questions[1..][i] == questions[i + 1] && questions[1..][j] == questions[j + 1];
          }
        }
      }
      rest
  }

  /**
   * The rows of one user in creation order (oldest first): the rows a
   * `findMany({ where: { userId } })` sees.
   */
  function UserHistory(answers: seq<UserAnswer>, userId: string): (h: seq<UserAnswer>)
    ensures |h| <= |answers|
  {
    if answers == [] then []
    else
      var last := answers[|answers| - 1];
      UserHistory(answers[..|answers| - 1], userId) + (if last.userId == userId then [last] else [])
  }

  /** The history holds exactly that user's rows. */
  lemma {:induction false} UserHistoryMembers(answers: seq<UserAnswer>, userId: string)
    ensures forall a :: a in UserHistory(answers, userId) <==> a in answers && a.userId == userId
  {
    if answers != [] {
      var prefix := answers[..|answers| - 1];
      UserHistoryMembers(prefix, userId);
      assert answers == prefix + [answers[|answers| - 1]];
    }
  }

  /** Appending a row extends the history by that row when it is the user's. */
  lemma UserHistorySnoc(answers: seq<UserAnswer>, row: UserAnswer, userId: string)
    ensures UserHistory(answers + [row], userId)
      == UserHistory(answers, userId) + (if row.userId == userId then [row] else [])
  {
    var all := answers + [row];
    assert all[..|all| - 1] == answers && all[|all| - 1] == row;
  }

  /**
   * The database: the question table, the append-only answer log in creation
   * order, and each registered user's `points` column.
   */
  class Store {
    var questions: seq<Question>
    var answers: seq<UserAnswer>
    var points: map<string, nat>

    /** Primary keys are unique, and every answer row refers to an existing user and question. */
    ghost predicate Valid()
      reads this
    {
      && UniqueIds(questions)
      && forall a :: a in answers ==> a.userId in points && FindQuestion(questions, a.questionId).Some?
    }

    /** A seeded question table and the registered users with their points; no answers yet. */
    constructor (questions: seq<Question>, points: map<string, nat>)
      requires UniqueIds(questions)
      ensures Valid()
      ensures this.questions == questions && this.answers == [] && this.points == points
    {
      this.questions := questions;
      this.answers := [];
      this.points := points;
    }

    /** `userAnswer.create`: appends one row; the foreign keys must hold. */
    method CreateUserAnswer(row: UserAnswer)
      requires Valid()
      requires row.userId in points && FindQuestion(questions, row.questionId).Some?
      modifies this
      ensures Valid()
      ensures answers == old(answers) + [row]
      ensures questions == old(questions) && points == old(points)
    {
      answers := answers + [row];
    }

    /** `user.update({ points: { increment } })` for an existing user. */
    method IncrementPoints(userId: string, amount: nat)
      requires Valid()
      requires userId in points
      modifies this
      ensures Valid()
      ensures points == old(points)[userId := old(points)[userId] + amount]
      ensures questions == old(questions) && answers == old(answers)
    {
      points := points[userId := points[userId] + amount];
    }
  }
}
