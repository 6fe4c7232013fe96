/**
 * The dashboard endpoint: totals, overall accuracy and a per-category
 * breakdown of one user's answers.
 */
module ProgressController {
  import opened Wrappers
  import opened Lists
  import opened Schema
  import opened Arith

  /** One answer row joined with its question's category. */
  datatype Row = Row(category: string, isCorrect: bool)

  /** The per-category counters the aggregation loop keeps. */
  datatype Stats = Stats(total: nat, correct: nat)

  /** One entry of the breakdown. */
  datatype CategoryStats = CategoryStats(category: string, total: nat, correct: nat, accuracy: nat)

  datatype Dashboard = Dashboard(
    totalQuestions: nat,
    correctAnswers: nat,
    accuracy: nat,
    totalPoints: nat,
    categoryBreakdown: seq<CategoryStats>)

  /** The dashboard fails (500) when the user row does not exist. */
  datatype DashboardError = DashboardFailed

  // ------------------------------------------------------------ percentages

  /**
   * 100 * c / t rounded to the nearest integer, halves rounded up: the integer
   * r with r - 1/2 <= 100 * c / t < r + 1/2.
   */
  function RoundPercent(c: nat, t: nat): (r: nat)
    requires t > 0
    ensures 2 * t * r <= 200 * c + t < 2 * t * (r + 1)
    ensures c <= t ==> r <= 100
  {
    var r := (200 * c + t) / (2 * t);
    DivBounds(200 * c + t, 2 * t);
    assert 2 * t * r == r * (2 * t) && 2 * t * (r + 1) == (r + 1) * (2 * t);
    assert c <= t ==> r <= 100 by {
      if c <= t {
        assert 200 * c + t < 101 * (2 * t);
        MulCancelLess(r, 101, 2 * t);
      }
    }
    r
  }

  /** Overall accuracy: 0 when there are no answers. */
  function Accuracy(correct: nat, total: nat): (r: nat)
    ensures total == 0 ==> r == 0
    ensures total > 0 ==> 2 * total * r <= 200 * correct + total < 2 * total * (r + 1)
    ensures correct <= total ==> r <= 100
  {
    if total > 0 then RoundPercent(correct, total) else 0
  }

  /** The unit-test cases: 7 of 10 is 70, none of none is 0, 1 of 2 is 50, 1 of 8 rounds up to 13. */
  lemma AccuracyExamples()
    ensures Accuracy(7, 10) == 70
    ensures Accuracy(0, 0) == 0
    ensures Accuracy(1, 2) == 50
    ensures Accuracy(1, 8) == 13
  {
  }

  // ------------------------------------------------------------- counting

  /** A row counts 1, or, when only correct rows count, 1 exactly if it is correct. */
  function Weight(row: Row, correctOnly: bool): nat
  {
    if correctOnly && !row.isCorrect then 0 else 1
  }

  /** The number of correct rows. */
  function CountCorrect(rows: seq<Row>): (n: nat)
    ensures n <= |rows|
    ensures n == |rows| <==> forall k :: 0 <= k < |rows| ==> rows[k].isCorrect
  {
    if rows == [] then 0
    else
      var prefix := rows[..|rows| - 1];
      assert forall k :: 0 <= k < |prefix| ==> prefix[k] == rows[k];
      CountCorrect(prefix) + (if rows[|rows| - 1].isCorrect then 1 else 0)
  }

  /**
   * The rows of one category, or only its correct rows: one counter serves
   * both, so that each fact about category counts is proved once for the two.
   */
  function CountInCategory(rows: seq<Row>, category: string, correctOnly: bool): (n: nat)
    ensures n <= |rows|
    ensures n == 0 <==>
      forall k :: 0 <= k < |rows| && rows[k].category == category ==> correctOnly && !rows[k].isCorrect
  {
    if rows == [] then 0
    else
      var prefix := rows[..|rows| - 1];
      var last := rows[|rows| - 1];
      assert forall k :: 0 <= k < |prefix| ==> prefix[k] == rows[k];
      CountInCategory(prefix, category, correctOnly)
        + (if last.category == category then Weight(last, correctOnly) else 0)
  }

  /** The distinct categories of the rows, in order of first appearance. */
  function Categories(rows: seq<Row>): (cats: seq<string>)
    ensures |cats| <= |rows|
  {
    if rows == [] then []
    else
      var earlier := Categories(rows[..|rows| - 1]);
      var c := rows[|rows| - 1].category;
      if c in earlier then earlier else earlier + [c]
  }

  /** Some row has this category. */
  predicate Answered(rows: seq<Row>, category: string)
  {
    exists k :: 0 <= k < |rows| && rows[k].category == category
  }

  /** Categories lists each category present in the rows, once, and nothing else. */
  lemma {:induction false} CategoriesExact(rows: seq<Row>)
    ensures NoDup(Categories(rows))
    ensures forall c :: c in Categories(rows) <==> Answered(rows, c)
  {
    if rows != [] {
      var prefix := rows[..|rows| - 1];
      CategoriesExact(prefix);
      forall c ensures c in Categories(rows) <==> Answered(rows, c) {
        if exists k :: 0 <= k < |prefix| && prefix[k].category == c {
          var k :| 0 <= k < |prefix| && prefix[k].category == c;
          assert rows[k].category == c;
        }
        if exists k :: 0 <= k < |rows| && rows[k].category == c {
          var k :| 0 <= k < |rows| && rows[k].category == c;
          if k < |prefix| {
            assert prefix[k].category == c;
          }
        }
      }
    }
  }

  /** The position of the first row of an answered category. */
  function FirstIndex(rows: seq<Row>, category: string): (k: nat)
    requires Answered(rows, category)
    ensures k < |rows| && rows[k].category == category
    ensures forall j :: 0 <= j < k ==> rows[j].category != category
  {
    var prefix := rows[..|rows| - 1];
    assert forall j :: 0 <= j < |prefix| ==> prefix[j] == rows[j];
    if Answered(prefix, category) then FirstIndex(prefix, category) else |rows| - 1
  }

  /** A later row does not move the first row of a category already answered. */
  lemma FirstIndexStable(prefix: seq<Row>, row: Row, category: string)
    requires Answered(prefix, category)
    ensures Answered(prefix + [row], category)
    ensures FirstIndex(prefix + [row], category) == FirstIndex(prefix, category) < |prefix|
  {
    var rows := prefix + [row];
    assert rows[..|rows| - 1] == prefix;
    var k := FirstIndex(prefix, category);
    assert rows[k] == prefix[k];
  }

  /** A row whose category is new is that category's first row. */
  lemma FirstIndexNew(prefix: seq<Row>, row: Row)
    requires !Answered(prefix, row.category)
    ensures Answered(prefix + [row], row.category)
    ensures FirstIndex(prefix + [row], row.category) == |prefix|
  {
    var rows := prefix + [row];
    assert rows[..|rows| - 1] == prefix && rows[|prefix|] == row;
  }

  /** Categories come in the order of their first rows: an earlier entry's first row precedes a later one's. */
  lemma {:induction false} CategoriesInFirstAppearanceOrder(rows: seq<Row>, i: nat, j: nat)
    requires i < j < |Categories(rows)|
    ensures Answered(rows, Categories(rows)[i]) && Answered(rows, Categories(rows)[j])
    ensures FirstIndex(rows, Categories(rows)[i]) < FirstIndex(rows, Categories(rows)[j])
  {
    var prefix := rows[..|rows| - 1];
    var row := rows[|rows| - 1];
    assert rows == prefix + [row];
    var earlier := Categories(prefix);
    var cats := Categories(rows);
    assert cats[i] == earlier[i];
    assert Answered(prefix, earlier[i]) by { CategoriesExact(prefix); }
    FirstIndexStable(prefix, row, earlier[i]);
    if j < |earlier| {
      assert cats[j] == earlier[j];
      CategoriesInFirstAppearanceOrder(prefix, i, j);
      FirstIndexStable(prefix, row, earlier[j]);
    } else {
      assert row.category !in earlier && cats[j] == row.category;
      assert !Answered(prefix, row.category) by { CategoriesExact(prefix); }
      FirstIndexNew(prefix, row);
    }
  }

  /** Only a category that occurs in the rows has a non-zero count. */
  lemma {:induction false} CountOfAbsentCategory(rows: seq<Row>, category: string, correctOnly: bool)
    requires category !in Categories(rows)
    ensures CountInCategory(rows, category, correctOnly) == 0
  {
    if rows != [] {
      CountOfAbsentCategory(rows[..|rows| - 1], category, correctOnly);
    }
  }

  /** Every category that occurs has at least one row, and no more correct rows than rows. */
  lemma {:induction false} CountOfPresentCategory(rows: seq<Row>, category: string)
    ensures CountInCategory(rows, category, true) <= CountInCategory(rows, category, false)
    ensures category in Categories(rows) ==> CountInCategory(rows, category, false) >= 1
  {
    if rows != [] {
      CountOfPresentCategory(rows[..|rows| - 1], category);
    }
  }

  /** The sum of a per-category count over a list of categories. */
  function SumOverCategories(cats: seq<string>, rows: seq<Row>, correctOnly: bool): nat
  {
    if cats == [] then 0
    else SumOverCategories(cats[..|cats| - 1], rows, correctOnly) + CountInCategory(rows, cats[|cats| - 1], correctOnly)
  }

  /** Adding one row raises the sum over a duplicate-free list by that row's weight if its category is listed. */
  lemma {:induction false} SumAfterRow(cats: seq<string>, rows: seq<Row>, row: Row, correctOnly: bool)
    requires NoDup(cats)
    ensures SumOverCategories(cats, rows + [row], correctOnly)
      == SumOverCategories(cats, rows, correctOnly) + (if row.category in cats then Weight(row, correctOnly) else 0)
  {
    var all := rows + [row];
    assert all[..|all| - 1] == rows && all[|all| - 1] == row;
    if cats != [] {
      var init := cats[..|cats| - 1];
      assert NoDup(init) by {
        forall i, j | 0 <= i < j < |init| ensures init[i] != init[j] {
          assert init[i] == cats[i] && init[j] == cats[j];
        }
      }
      SumAfterRow(init, rows, row, correctOnly);
      var last := cats[|cats| - 1];
      assert cats == init + [last];
      assert last !in init by {
        forall k | 0 <= k < |init| ensures init[k] != last {
          assert init[k] == cats[k];
        }
      }
    }
  }

  /** A sum over a list grown by one category grows by that category's count. */
  lemma SumAppend(cats: seq<string>, c: string, rows: seq<Row>, correctOnly: bool)
    ensures SumOverCategories(cats + [c], rows, correctOnly)
      == SumOverCategories(cats, rows, correctOnly) + CountInCategory(rows, c, correctOnly)
  {
    var all := cats + [c];
    assert all[..|all| - 1] == cats && all[|all| - 1] == c;
  }

  /** The category counts add up to the overall counts. */
  lemma {:induction false} CategoriesPartitionRows(rows: seq<Row>, correctOnly: bool)
    ensures SumOverCategories(Categories(rows), rows, correctOnly) == (if correctOnly then CountCorrect(rows) else |rows|)
  {
    if rows != [] {
      var prefix := rows[..|rows| - 1];
      var row := rows[|rows| - 1];
      assert rows == prefix + [row];
      var earlier := Categories(prefix);
      CategoriesPartitionRows(prefix, correctOnly);
      CategoriesExact(prefix);
      SumAfterRow(earlier, prefix, row, correctOnly);
      if row.category !in earlier {
        SumAppend(earlier, row.category, rows, correctOnly);
        CountOfAbsentCategory(prefix, row.category, correctOnly);
      }
    }
  }

  // ------------------------------------------------------------ aggregation

  /**
   * The aggregation loop: walks the rows once and keeps, per category, how many
   * rows and how many correct rows it has seen. `order` is the order in which
   * categories were first added, which is the order the entries come back in.
   */
  method BuildCategoryMap(rows: seq<Row>) returns (order: seq<string>, stats: map<string, Stats>)
    ensures order == Categories(rows)
    ensures forall c :: c in stats <==> c in order
    ensures forall c :: c in stats ==>
      stats[c] == Stats(CountInCategory(rows, c, false), CountInCategory(rows, c, true))
  {
    order := [];
    stats := map[];
    var i := 0;
    while i < |rows|
      invariant 0 <= i <= |rows|
      invariant order == Categories(rows[..i])
      invariant forall c :: c in stats <==> c in order
      invariant forall c :: c in stats ==>
        stats[c] == Stats(CountInCategory(rows[..i], c, false), CountInCategory(rows[..i], c, true))
    {
      var answer := rows[i];
      assert rows[..i + 1][..i] == rows[..i] && rows[..i + 1][i] == answer;
      var category := answer.category;
      if category !in stats {
        CountOfAbsentCategory(rows[..i], category, false);
        CountOfAbsentCategory(rows[..i], category, true);
        stats := stats[category := Stats(0, 0)];
        order := order + [category];
      }
      var s := stats[category];
      stats := stats[category := Stats(s.total + 1, if answer.isCorrect then s.correct + 1 else s.correct)];
      i := i + 1;
    }
    assert rows[..i] == rows;
  }

  /** The breakdown the dashboard promises: one entry per category present, in order of first appearance. */
  function ExpectedBreakdown(rows: seq<Row>): (b: seq<CategoryStats>)
    ensures |b| == |Categories(rows)|
  {
    var cats := Categories(rows);
    seq(|cats|, k requires 0 <= k < |cats| =>
      var t := CountInCategory(rows, cats[k], false);
      var c := CountInCategory(rows, cats[k], true);
      CategoryStats(cats[k], t, c, Accuracy(c, t)))
  }

  /** Every entry has at least one row, no more correct than total, and accuracy within 0..100. */
  lemma BreakdownEntriesBounded(rows: seq<Row>)
    ensures forall e :: e in ExpectedBreakdown(rows) ==>
      e.total >= 1 && e.correct <= e.total && e.accuracy <= 100
  {
    var cats := Categories(rows);
    var b := ExpectedBreakdown(rows);
    forall e | e in b ensures e.total >= 1 && e.correct <= e.total && e.accuracy <= 100 {
      var k :| 0 <= k < |b| && b[k] == e;
      CountOfPresentCategory(rows, cats[k]);
    }
  }

  /** Some breakdown entry is for this category. */
  predicate Listed(b: seq<CategoryStats>, category: string)
  {
    exists k :: 0 <= k < |b| && b[k].category == category
  }

  /** The breakdown names each answered category exactly once, and no other. */
  lemma BreakdownCategoriesExact(rows: seq<Row>)
    ensures var b := ExpectedBreakdown(rows);
      && (forall i, j :: 0 <= i < j < |b| ==> b[i].category != b[j].category)
      && forall c :: Listed(b, c) <==> Answered(rows, c)
  {
    CategoriesExact(rows);
    var b := ExpectedBreakdown(rows);
    var cats := Categories(rows);
    assert forall k :: 0 <= k < |b| ==> b[k].category == cats[k];
    forall c ensures Listed(b, c) <==> c in cats {
      if c in cats {
        var k :| 0 <= k < |cats| && cats[k] == c;
        assert b[k].category == c;
      }
    }
  }

  /** The sum of a breakdown's totals (or corrects). */
  function SumEntries(b: seq<CategoryStats>, correctOnly: bool): nat
  {
    if b == [] then 0
    else SumEntries(b[..|b| - 1], correctOnly) + (if correctOnly then b[|b| - 1].correct else b[|b| - 1].total)
  }

  lemma {:induction false} SumEntriesIsSumOverCategories(rows: seq<Row>, cats: seq<string>, b: seq<CategoryStats>, correctOnly: bool)
    requires |b| == |cats|
    requires forall k :: 0 <= k < |b| ==>
      b[k].total == CountInCategory(rows, cats[k], false) && b[k].correct == CountInCategory(rows, cats[k], true)
    ensures SumEntries(b, correctOnly) == SumOverCategories(cats, rows, correctOnly)
  {
    if b != [] {
      SumEntriesIsSumOverCategories(rows, cats[..|cats| - 1], b[..|b| - 1], correctOnly);
    }
  }

  /** Category totals add up to the number of answers. */
  lemma BreakdownTotalsSum(rows: seq<Row>)
    ensures SumEntries(ExpectedBreakdown(rows), false) == |rows|
  {
    SumEntriesIsSumOverCategories(rows, Categories(rows), ExpectedBreakdown(rows), false);
    CategoriesPartitionRows(rows, false);
  }

  /** Category corrects add up to the number of correct answers. */
  lemma BreakdownCorrectsSum(rows: seq<Row>)
    ensures SumEntries(ExpectedBreakdown(rows), true) == CountCorrect(rows)
  {
    SumEntriesIsSumOverCategories(rows, Categories(rows), ExpectedBreakdown(rows), true);
    CategoriesPartitionRows(rows, true);
  }

  /** The unit-test case: (A,T), (A,F), (B,T), (B,T) gives A 2/1 at 50 and B 2/2 at 100. */
  lemma BreakdownExample()
    ensures ExpectedBreakdown([Row("Category A", true), Row("Category A", false),
                               Row("Category B", true), Row("Category B", true)])
      == [CategoryStats("Category A", 2, 1, 50), CategoryStats("Category B", 2, 2, 100)]
  {
    var a1, a2, b1, b2 := Row("Category A", true), Row("Category A", false), Row("Category B", true), Row("Category B", true);
    var rows := [a1, a2, b1, b2];
    assert rows[..3] == [a1, a2, b1] && [a1, a2, b1][..2] == [a1, a2] && [a1, a2][..1] == [a1] && [a1][..0] == [];
    assert Categories([a1]) == ["Category A"];
    assert Categories([a1, a2]) == ["Category A"];
    assert Categories([a1, a2, b1]) == ["Category A", "Category B"];
    assert Categories(rows) == ["Category A", "Category B"];
    assert CountInCategory([a1, a2], "Category A", false) == 2;
    assert CountInCategory([a1, a2], "Category A", true) == 1;
    assert CountInCategory(rows, "Category A", false) == 2;
    assert CountInCategory(rows, "Category A", true) == 1;
    assert CountInCategory([a1, a2], "Category B", false) == 0;
    assert CountInCategory([a1, a2], "Category B", true) == 0;
    assert CountInCategory(rows, "Category B", false) == 2;
    assert CountInCategory(rows, "Category B", true) == 2;
  }

  // -------------------------------------------------------------- endpoint

  /** The user's answers joined with their questions' categories, in creation order. */
  function AnswerRows(answers: seq<UserAnswer>, questions: seq<Question>, userId: string): (rows: seq<Row>)
    requires forall a :: a in answers ==> FindQuestion(questions, a.questionId).Some?
    ensures var h := UserHistory(answers, userId);
      && |rows| == |h|
      && forall k :: 0 <= k < |h| ==> rows[k].isCorrect == h[k].isCorrect
    ensures var h := UserHistory(answers, userId);
      forall k :: 0 <= k < |h| ==>
        var found := FindQuestion(questions, h[k].questionId);
        found.Some? && rows[k].category == found.value.category
  {
    var h := UserHistory(answers, userId);
    UserHistoryMembers(answers, userId);
    assert forall k :: 0 <= k < |h| ==> h[k] in answers;
    seq(|h|, k requires 0 <= k < |h| => Row(FindQuestion(questions, h[k].questionId).value.category, h[k].isCorrect))
  }

  /**
   * The dashboard endpoint: the stored points of the user (not a sum over the
   * answers), the number of answers and of correct ones, the rounded overall
   * accuracy, and the per-category breakdown.
   */
  method GetDashboard(db: Store, userId: string) returns (r: Result<Dashboard, DashboardError>)
    requires db.Valid()
    ensures r.Err? <==> userId !in db.points
    ensures r.Ok? ==>
      var rows := AnswerRows(db.answers, db.questions, userId);
      && r.value.totalPoints == db.points[userId]
      && r.value.totalQuestions == |UserHistory(db.answers, userId)|
      && r.value.correctAnswers == CountCorrect(rows)
      && r.value.accuracy == Accuracy(CountCorrect(rows), |rows|)
      && r.value.categoryBreakdown == ExpectedBreakdown(rows)
  {
    var answers := AnswerRows(db.answers, db.questions, userId);
    var totalQuestions := |answers|;
    var correctAnswers := CountCorrect(answers);
    var accuracy := Accuracy(correctAnswers, totalQuestions);
    var order, categoryMap := BuildCategoryMap(answers);
    var categoryBreakdown := seq(|order|, k requires 0 <= k < |order| =>
      var s := categoryMap[order[k]];
      CategoryStats(order[k], s.total, s.correct, Accuracy(s.correct, s.total)));
    if userId !in db.points {
      return Err(DashboardFailed);
    }
    r := Ok(Dashboard(totalQuestions, correctAnswers, accuracy, db.points[userId], categoryBreakdown));
  }
}
