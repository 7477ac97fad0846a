/**
 * The SQL Server database the repositories talk to, as seven tables of rows
 * with an identity counter each. The `Database` object is the one piece of
 * state the API changes; the repositories read its tables and replace them.
 */
module Store {
  import opened Common
  import opened Models

  datatype QuizRow = QuizRow(id: int, name: NString, description: NString)
  datatype TopicRow = TopicRow(id: int, quizId: int, name: NString)
  datatype TakerRow = TakerRow(id: int, name: NString, address: NString, email: NString)
  datatype QuizResultRow = QuizResultRow(
    id: int, quizId: int, quizName: NString, takerId: int, takerName: NString, score: int, evaluation: NString)
  datatype TakerQuizRow = TakerQuizRow(id: int, takerId: int, quizId: int)
  datatype TakerAnswerRow = TakerAnswerRow(id: int, takerId: int, questionId: int, answer: NString, status: NString)

  // The primary key of each table, as a function value for the generic helpers below.
  function QuizRowId(r: QuizRow): int { r.id }
  function TopicRowId(r: TopicRow): int { r.id }
  function QuestionRowId(r: Problem): int { r.id }
  function TakerRowId(r: TakerRow): int { r.id }
  function QuizResultRowId(r: QuizResultRow): int { r.id }
  function TakerQuizRowId(r: TakerQuizRow): int { r.id }
  function TakerAnswerRowId(r: TakerAnswerRow): int { r.id }

  // The foreign keys the deletes filter on.
  function TakerQuizQuizId(r: TakerQuizRow): int { r.quizId }
  function TakerQuizTakerId(r: TakerQuizRow): int { r.takerId }
  function TakerAnswerTakerId(r: TakerAnswerRow): int { r.takerId }
  function TakerAnswerQuestionId(r: TakerAnswerRow): int { r.questionId }
  function QuizResultTakerId(r: QuizResultRow): int { r.takerId }

  /**
   * An IDENTITY(1,1) key column: every id is positive and below the next
   * value the counter hands out, and rows are in increasing id order (so no
   * two rows share an id). Stated on the last row, so that it unfolds one
   * row at a time; `IdentityMeans` gives the same as quantified facts.
   */
  ghost predicate Identity<R>(rows: seq<R>, id: R -> int, next: int)
    decreases |rows|
  {
    rows == [] ||
    (0 < id(rows[|rows| - 1]) < next && Identity(rows[..|rows| - 1], id, id(rows[|rows| - 1])))
  }

  /** Every id of the column is positive and below the counter, and ids increase down the table. */
  ghost predicate IdsBelow<R>(rows: seq<R>, id: R -> int, next: int)
  {
    (forall i :: 0 <= i < |rows| ==> 0 < id(rows[i]) < next) &&
    (forall i, j :: 0 <= i < j < |rows| ==> id(rows[i]) < id(rows[j]))
  }

  /** `Identity` is exactly positive ids below the counter, increasing down the table. */
  lemma IdentityMeans<R>(rows: seq<R>, id: R -> int, next: int)
    ensures Identity(rows, id, next) <==> IdsBelow(rows, id, next)
  {
    if Identity(rows, id, next) {
      IdentityGivesIdsBelow(rows, id, next);
    }
    if IdsBelow(rows, id, next) {
      IdsBelowGivesIdentity(rows, id, next);
    }
  }

  lemma {:induction false} IdentityGivesIdsBelow<R>(rows: seq<R>, id: R -> int, next: int)
    requires Identity(rows, id, next)
    ensures IdsBelow(rows, id, next)
    decreases |rows|
  {
    if rows != [] {
      var p, x := rows[..|rows| - 1], rows[|rows| - 1];
      IdentityGivesIdsBelow(p, id, id(x));
      forall i, j | 0 <= i < j < |rows| ensures id(rows[i]) < id(rows[j]) {
        assert rows[i] == p[i];
        if j < |p| {
          assert rows[j] == p[j];
        }
      }
      forall i | 0 <= i < |rows| ensures 0 < id(rows[i]) < next {
        if i < |p| {
          assert rows[i] == p[i];
        }
      }
    }
  }

  lemma {:induction false} IdsBelowGivesIdentity<R>(rows: seq<R>, id: R -> int, next: int)
    requires IdsBelow(rows, id, next)
    ensures Identity(rows, id, next)
    decreases |rows|
  {
    if rows != [] {
      var p, x := rows[..|rows| - 1], rows[|rows| - 1];
      forall i | 0 <= i < |p| ensures 0 < id(p[i]) < id(x) {
        assert p[i] == rows[i];
      }
      forall i, j | 0 <= i < j < |p| ensures id(p[i]) < id(p[j]) {
        assert p[i] == rows[i] && p[j] == rows[j];
      }
      IdsBelowGivesIdentity(p, id, id(x));
    }
  }

  /** `WHERE`: the rows that satisfy `keep`, in table order. */
  function Where<R(!new)>(rows: seq<R>, keep: R -> bool): (r: seq<R>)
    ensures |r| <= |rows|
    ensures forall x :: x in r <==> x in rows && keep(x)
    ensures |r| < |rows| <==> exists i :: 0 <= i < |rows| && !keep(rows[i])
    ensures r == [] <==> forall i :: 0 <= i < |rows| ==> !keep(rows[i])
  {
    if rows == [] then []
    else
      var p := Where(rows[..|rows| - 1], keep);
      assert forall i :: 0 <= i < |rows| - 1 ==> rows[..|rows| - 1][i] == rows[i];
      if keep(rows[|rows| - 1]) then p + [rows[|rows| - 1]] else p
  }

  /** `DELETE FROM ... WHERE key = @k`: the rows whose key is not `k`, in table order. */
  function Without<R(!new)>(rows: seq<R>, key: R -> int, k: int): (r: seq<R>)
    ensures |r| <= |rows|
    ensures forall x :: x in r <==> x in rows && key(x) != k
    ensures |r| < |rows| <==> exists i :: 0 <= i < |rows| && key(rows[i]) == k
  {
    if rows == [] then []
    else
      var p := Without(rows[..|rows| - 1], key, k);
      assert forall i :: 0 <= i < |rows| - 1 ==> rows[..|rows| - 1][i] == rows[i];
      if key(rows[|rows| - 1]) != k then p + [rows[|rows| - 1]] else p
  }

  /** The number of rows `DELETE FROM ... WHERE key = @k` removes. */
  function Deleted<R(!new)>(rows: seq<R>, key: R -> int, k: int): (n: nat)
    ensures n > 0 <==> exists i :: 0 <= i < |rows| && key(rows[i]) == k
  {
    |rows| - |Without(rows, key, k)|
  }

  /** `UPDATE ... SET ... WHERE p`: the rows satisfying `p` become `change` of themselves, the rest stay. */
  function UpdateWhere<R>(rows: seq<R>, p: R -> bool, change: R -> R): (r: seq<R>)
    ensures |r| == |rows|
    ensures forall i :: 0 <= i < |rows| && p(rows[i]) ==> r[i] == change(rows[i])
    ensures forall i :: 0 <= i < |rows| && !p(rows[i]) ==> r[i] == rows[i]
  {
    seq(|rows|, i requires 0 <= i < |rows| => if p(rows[i]) then change(rows[i]) else rows[i])
  }

  /** The number of rows a statement with condition `p` affects. */
  function Count<R>(rows: seq<R>, p: R -> bool): (n: nat)
    ensures n <= |rows|
    ensures n > 0 <==> exists i :: 0 <= i < |rows| && p(rows[i])
  {
    if rows == [] then 0
    else
      assert forall i :: 0 <= i < |rows| - 1 ==> rows[..|rows| - 1][i] == rows[i];
      Count(rows[..|rows| - 1], p) + (if p(rows[|rows| - 1]) then 1 else 0)
  }

  /** `SELECT ... WHERE Id = @id` followed by `SingleOrDefault`. */
  function RowById<R(!new)>(rows: seq<R>, id: R -> int, k: int): (r: Lookup<R>)
    ensures r.Null? <==> forall i :: 0 <= i < |rows| ==> id(rows[i]) != k
    ensures r.Found? ==> r.value in rows && id(r.value) == k
  {
    SingleOrDefault(Where(rows, (x: R) => id(x) == k))
  }

  /** Appending a row with the next identity value keeps the key column an identity column. */
  lemma IdentityAppend<R>(rows: seq<R>, id: R -> int, next: int, row: R)
    requires Identity(rows, id, next) && 0 < next && id(row) == next
    ensures Identity(rows + [row], id, next + 1)
  {
    assert (rows + [row])[..|rows|] == rows;
  }

  /** A larger counter bounds the ids as well. */
  lemma IdentityRaise<R>(rows: seq<R>, id: R -> int, next: int, next': int)
    requires Identity(rows, id, next) && next <= next'
    ensures Identity(rows, id, next')
  {
  }

  /** An update that leaves the key column alone keeps it an identity column. */
  lemma IdentityUpdate<R>(rows: seq<R>, id: R -> int, next: int, p: R -> bool, change: R -> R)
    requires Identity(rows, id, next)
    requires forall r :: id(change(r)) == id(r)
    ensures Identity(UpdateWhere(rows, p, change), id, next)
  {
    var u := UpdateWhere(rows, p, change);
    IdentityMeans(rows, id, next);
    IdentityMeans(u, id, next);
    assert forall i :: 0 <= i < |rows| ==> id(u[i]) == id(rows[i]);
  }

  /** Deleting rows keeps the key column an identity column. */
  lemma {:induction false} IdentityWithout<R(!new)>(rows: seq<R>, id: R -> int, next: int, key: R -> int, k: int)
    requires Identity(rows, id, next)
    ensures Identity(Without(rows, key, k), id, next)
    decreases |rows|
  {
    if rows != [] {
      var p, x := rows[..|rows| - 1], rows[|rows| - 1];
      IdentityWithout(p, id, id(x), key, k);
      var w := Without(p, key, k);
      if key(x) != k {
        assert Without(rows, key, k) == w + [x];
        assert (w + [x])[..|w|] == w;
      } else {
        assert Without(rows, key, k) == w;
        IdentityRaise(w, id, id(x), next);
      }
    }
  }

  /** A table with an identity key has at most one row per id. */
  lemma IdentityRowById<R(!new)>(rows: seq<R>, id: R -> int, next: int, k: int)
    requires Identity(rows, id, next)
    ensures !RowById(rows, id, k).Throws?
    ensures RowById(rows, id, k).Found? <==> exists i :: 0 <= i < |rows| && id(rows[i]) == k
  {
    var w := Where(rows, (y: R) => id(y) == k);
    if |w| > 1 {
      assert w[0] in rows && w[1] in rows;
      IdentityUnique(rows, id, next, w[0], w[1]);
      DistinctWhere(rows, (y: R) => id(y) == k, id, next);
    }
  }

  /** Distinct ids make the rows with one id at most one. */
  lemma {:induction false} DistinctWhere<R(!new)>(rows: seq<R>, keep: R -> bool, id: R -> int, next: int)
    requires Identity(rows, id, next)
    ensures forall i, j :: 0 <= i < j < |Where(rows, keep)| ==> id(Where(rows, keep)[i]) < id(Where(rows, keep)[j])
    decreases |rows|
  {
    if rows != [] {
      var p, x := rows[..|rows| - 1], rows[|rows| - 1];
      DistinctWhere(p, keep, id, id(x));
      var w := Where(p, keep);
      IdentityMeans(p, id, id(x));
      assert forall i :: 0 <= i < |w| ==> w[i] in p;
      if keep(x) {
        assert Where(rows, keep) == w + [x];
      } else {
        assert Where(rows, keep) == w;
      }
    }
  }

  /** In a table with an identity key, two rows with the same id are the same row. */
  lemma IdentityUnique<R>(rows: seq<R>, id: R -> int, next: int, x: R, y: R)
    requires Identity(rows, id, next) && x in rows && y in rows && id(x) == id(y)
    ensures x == y
  {
    IdentityMeans(rows, id, next);
    var i :| 0 <= i < |rows| && rows[i] == x;
    var j :| 0 <= j < |rows| && rows[j] == y;
    assert !(i < j) && !(j < i);
  }

  /** In a table with an identity key, looking a row up by its own id finds that row. */
  lemma IdentityFindsRow<R(!new)>(rows: seq<R>, id: R -> int, next: int, i: int)
    requires Identity(rows, id, next) && 0 <= i < |rows|
    ensures RowById(rows, id, id(rows[i])) == Found(rows[i])
  {
    IdentityRowById(rows, id, next, id(rows[i]));
    IdentityUnique(rows, id, next, RowById(rows, id, id(rows[i])).value, rows[i]);
  }

  /** The database: seven tables and their identity counters. */
  class Database {
    var quizzes: seq<QuizRow>
    var topics: seq<TopicRow>
    var questions: seq<Problem>
    var takers: seq<TakerRow>
    var quizResults: seq<QuizResultRow>
    var takerQuiz: seq<TakerQuizRow>
    var takersAnswers: seq<TakerAnswerRow>

    var nextQuizId: int
    var nextTopicId: int
    var nextQuestionId: int
    var nextTakerId: int
    var nextQuizResultId: int
    var nextTakerQuizId: int
    var nextTakerAnswerId: int

    /** Every table's key column is an identity column. */
    ghost predicate Valid()
      reads this
    {
      0 < nextQuizId && 0 < nextTopicId && 0 < nextQuestionId && 0 < nextTakerId &&
      0 < nextQuizResultId && 0 < nextTakerQuizId && 0 < nextTakerAnswerId &&
      Identity(quizzes, QuizRowId, nextQuizId) &&
      Identity(topics, TopicRowId, nextTopicId) &&
      Identity(questions, QuestionRowId, nextQuestionId) &&
      Identity(takers, TakerRowId, nextTakerId) &&
      Identity(quizResults, QuizResultRowId, nextQuizResultId) &&
      Identity(takerQuiz, TakerQuizRowId, nextTakerQuizId) &&
      Identity(takersAnswers, TakerAnswerRowId, nextTakerAnswerId)
    }

    /** Every table is empty. */
    ghost predicate Empty()
      reads this
    {
      quizzes == [] && topics == [] && questions == [] && takers == [] &&
      quizResults == [] && takerQuiz == [] && takersAnswers == []
    }

    /** An empty database whose identity columns start at 1. */
    constructor ()
      ensures Empty()
      ensures Valid()
    {
      quizzes, topics, questions, takers := [], [], [], [];
      quizResults, takerQuiz, takersAnswers := [], [], [];
      nextQuizId, nextTopicId, nextQuestionId, nextTakerId := 1, 1, 1, 1;
      nextQuizResultId, nextTakerQuizId, nextTakerAnswerId := 1, 1, 1;
    }

    /** `DELETE FROM Quizzes WHERE <key> = @k`, returning the number of rows removed. */
    method DeleteQuizzes(key: QuizRow -> int, k: int) returns (n: nat)
      requires Valid()
      modifies this`quizzes
      ensures Valid()
      ensures quizzes == Without(old(quizzes), key, k)
      ensures n == Deleted(old(quizzes), key, k)
    {
      IdentityWithout(quizzes, QuizRowId, nextQuizId, key, k);
      n := Deleted(quizzes, key, k);
      quizzes := Without(quizzes, key, k);
    }

    /** `DELETE FROM Topics WHERE <key> = @k`, returning the number of rows removed. */
    method DeleteTopics(key: TopicRow -> int, k: int) returns (n: nat)
      requires Valid()
      modifies this`topics
      ensures Valid()
      ensures topics == Without(old(topics), key, k)
      ensures n == Deleted(old(topics), key, k)
    {
      IdentityWithout(topics, TopicRowId, nextTopicId, key, k);
      n := Deleted(topics, key, k);
      topics := Without(topics, key, k);
    }

    /** `DELETE FROM Questions WHERE <key> = @k`, returning the number of rows removed. */
    method DeleteQuestions(key: Problem -> int, k: int) returns (n: nat)
      requires Valid()
      modifies this`questions
      ensures Valid()
      ensures questions == Without(old(questions), key, k)
      ensures n == Deleted(old(questions), key, k)
    {
      IdentityWithout(questions, QuestionRowId, nextQuestionId, key, k);
      n := Deleted(questions, key, k);
      questions := Without(questions, key, k);
    }

    /** `DELETE FROM Takers WHERE <key> = @k`, returning the number of rows removed. */
    method DeleteTakers(key: TakerRow -> int, k: int) returns (n: nat)
      requires Valid()
      modifies this`takers
      ensures Valid()
      ensures takers == Without(old(takers), key, k)
      ensures n == Deleted(old(takers), key, k)
    {
      IdentityWithout(takers, TakerRowId, nextTakerId, key, k);
      n := Deleted(takers, key, k);
      takers := Without(takers, key, k);
    }

    /** `DELETE FROM QuizResults WHERE <key> = @k`, returning the number of rows removed. */
    method DeleteQuizResults(key: QuizResultRow -> int, k: int) returns (n: nat)
      requires Valid()
      modifies this`quizResults
      ensures Valid()
      ensures quizResults == Without(old(quizResults), key, k)
      ensures n == Deleted(old(quizResults), key, k)
    {
      IdentityWithout(quizResults, QuizResultRowId, nextQuizResultId, key, k);
      n := Deleted(quizResults, key, k);
      quizResults := Without(quizResults, key, k);
    }

    /** `DELETE FROM TakerQuiz WHERE <key> = @k`, returning the number of rows removed. */
    method DeleteTakerQuiz(key: TakerQuizRow -> int, k: int) returns (n: nat)
      requires Valid()
      modifies this`takerQuiz
      ensures Valid()
      ensures takerQuiz == Without(old(takerQuiz), key, k)
      ensures n == Deleted(old(takerQuiz), key, k)
    {
      IdentityWithout(takerQuiz, TakerQuizRowId, nextTakerQuizId, key, k);
      n := Deleted(takerQuiz, key, k);
      takerQuiz := Without(takerQuiz, key, k);
    }

    /** `DELETE FROM TakersAnswers WHERE <key> = @k`, returning the number of rows removed. */
    method DeleteTakersAnswers(key: TakerAnswerRow -> int, k: int) returns (n: nat)
      requires Valid()
      modifies this`takersAnswers
      ensures Valid()
      ensures takersAnswers == Without(old(takersAnswers), key, k)
      ensures n == Deleted(old(takersAnswers), key, k)
    {
      IdentityWithout(takersAnswers, TakerAnswerRowId, nextTakerAnswerId, key, k);
      n := Deleted(takersAnswers, key, k);
      takersAnswers := Without(takersAnswers, key, k);
    }
  }
}
