/**
 * Repositories/QuizResultRepository.cs: recording a taker's result on a quiz,
 * the evaluation rule, and the plain reads and writes of QuizResults.
 *
 * The four stored procedures the repository calls with a quiz name and a
 * taker name (the quiz's id, the taker's id, the taker's score and the total
 * score) are not part of this model; they are parameters, as one
 * `ScoreProcedures` value of deterministic functions of the two names.
 */
module QuizResultRepository {
  import opened Common
  import opened Models
  import opened Store
  import opened Fold

  /** The scalar stored procedures, each a function of (quiz name, taker name). */
  datatype ScoreProcedures = ScoreProcedures(
    quizId: (NString, NString) -> int,
    takerId: (NString, NString) -> int,
    quizScores: (NString, NString) -> int,
    totalScore: (NString, NString) -> int)

  /** `GetQuizScores`: `spQuizResult_GetQuizScores`. */
  function GetQuizScores(procs: ScoreProcedures, quizName: NString, takerName: NString): int
  {
    procs.quizScores(quizName, takerName)
  }

  /** `GetQuizId`: `spQuizResult_GetQuizId`. */
  function GetQuizId(procs: ScoreProcedures, quizName: NString, takerName: NString): int
  {
    procs.quizId(quizName, takerName)
  }

  /** `GetTakerId`: `spQuizResult_GetTakerId`. */
  function GetTakerId(procs: ScoreProcedures, quizName: NString, takerName: NString): int
  {
    procs.takerId(quizName, takerName)
  }

  /** `GetTotalScore`: `spQuizResult_GetTotalScore`. */
  function GetTotalScore(procs: ScoreProcedures, quizName: NString, takerName: NString): int
  {
    procs.totalScore(quizName, takerName)
  }

  const Perfect := "Perfect!"
  const Passed := "Passed!"
  const Failed := "Failed"

  /**
   * `GetEvaluation`: "Perfect!" for a full score, "Passed!" for at least half
   * of the total, "Failed" below that. The source compares the integer score
   * with the double `totalScore * 0.5`; here that product is exact.
   */
  function GetEvaluation(procs: ScoreProcedures, quizResult: QuizResult): (e: string)
    ensures e == Perfect || e == Passed || e == Failed
    ensures var score := GetQuizScores(procs, quizResult.quizName, quizResult.takerName);
            var total := GetTotalScore(procs, quizResult.quizName, quizResult.takerName);
            (e == Perfect <==> score == total) &&
            (e == Passed <==> score != total && 2 * score >= total) &&
            (e == Failed <==> score != total && 2 * score < total)
  {
    var totalScore := GetTotalScore(procs, quizResult.quizName, quizResult.takerName);
    var score := GetQuizScores(procs, quizResult.quizName, quizResult.takerName);
    var passingScore := (totalScore as real) * 0.5;
    if score == totalScore then Perfect
    else if score as real >= passingScore then Passed
    else Failed
  }

  /** The rank of an evaluation: Failed below Passed below Perfect. */
  function Rank(e: string): int
  {
    if e == Perfect then 2 else if e == Passed then 1 else 0
  }

  /**
   * For a fixed total, a higher score never earns a lower evaluation, as long
   * as neither score exceeds the total.
   */
  lemma EvaluationMonotone(procs: ScoreProcedures, a: QuizResult, b: QuizResult)
    requires GetTotalScore(procs, a.quizName, a.takerName) == GetTotalScore(procs, b.quizName, b.takerName)
    requires GetQuizScores(procs, a.quizName, a.takerName) <= GetQuizScores(procs, b.quizName, b.takerName)
    requires GetQuizScores(procs, b.quizName, b.takerName) <= GetTotalScore(procs, b.quizName, b.takerName)
    ensures Rank(GetEvaluation(procs, a)) <= Rank(GetEvaluation(procs, b))
  {
  }

  /** The evaluation reads only the two names: the result's id, score and evaluation play no part. */
  lemma EvaluationReadsOnlyNames(procs: ScoreProcedures, a: QuizResult, b: QuizResult)
    requires a.quizName == b.quizName && a.takerName == b.takerName
    ensures GetEvaluation(procs, a) == GetEvaluation(procs, b)
  {
  }

  /** The stored row of `CreateQuizResult`, made from the names and the procedures' answers. */
  function NewResultRow(procs: ScoreProcedures, id: int, quizResult: QuizResult): QuizResultRow
  {
    var quizName, takerName := quizResult.quizName, quizResult.takerName;
    QuizResultRow(id, GetQuizId(procs, quizName, takerName), quizName,
                  GetTakerId(procs, quizName, takerName), takerName,
                  GetQuizScores(procs, quizName, takerName), Some(GetEvaluation(procs, quizResult)))
  }

  /**
   * `CreateQuizResult`: inserts a row whose quiz id, taker id, score and
   * evaluation come from the stored procedures for the two names; the
   * result's own score and evaluation are ignored.
   */
  method CreateQuizResult(db: Database, procs: ScoreProcedures, quizResult: QuizResult) returns (id: int)
    requires db.Valid()
    modifies db`quizResults, db`nextQuizResultId
    ensures db.Valid()
    ensures id == old(db.nextQuizResultId) && id > 0
    ensures forall i :: 0 <= i < |old(db.quizResults)| ==> old(db.quizResults)[i].id != id
    ensures |db.quizResults| == |old(db.quizResults)| + 1 && db.quizResults[..|old(db.quizResults)|] == old(db.quizResults)
    ensures var row := db.quizResults[|old(db.quizResults)|];
            row.id == id && row.quizName == quizResult.quizName && row.takerName == quizResult.takerName &&
            row.quizId == procs.quizId(quizResult.quizName, quizResult.takerName) &&
            row.takerId == procs.takerId(quizResult.quizName, quizResult.takerName) &&
            row.score == procs.quizScores(quizResult.quizName, quizResult.takerName) &&
            row.evaluation == Some(GetEvaluation(procs, quizResult))
  {
    id := db.nextQuizResultId;
    var row := NewResultRow(procs, id, quizResult);
    IdentityMeans(db.quizResults, QuizResultRowId, db.nextQuizResultId);
    IdentityAppend(db.quizResults, QuizResultRowId, db.nextQuizResultId, row);
    db.quizResults := db.quizResults + [row];
    db.nextQuizResultId := id + 1;
  }

  /** What `SELECT * FROM QuizResults` materialises of a row. */
  function ResultOf(r: QuizResultRow): QuizResult
  {
    QuizResult(r.id, r.quizName, r.takerName, r.score, r.evaluation)
  }

  /** `GetAllQuizResult`: every row of QuizResults, in table order. */
  function GetAllQuizResult(results: seq<QuizResultRow>): (rs: seq<QuizResult>)
    ensures |rs| == |results|
    ensures forall i :: 0 <= i < |rs| ==>
              rs[i].id == results[i].id && rs[i].quizName == results[i].quizName &&
              rs[i].takerName == results[i].takerName && rs[i].score == results[i].score &&
              rs[i].evaluation == results[i].evaluation
  {
    Map(results, ResultOf)
  }

  /** `GetQuizResultById`: the result with that id, or null. */
  function GetQuizResultById(results: seq<QuizResultRow>, id: int): (r: Lookup<QuizResult>)
    ensures r.Null? <==> forall i :: 0 <= i < |results| ==> results[i].id != id
    ensures r.Found? ==> exists i :: 0 <= i < |results| && results[i].id == id && r.value == ResultOf(results[i])
  {
    MapLookup(RowById(results, QuizResultRowId, id), ResultOf)
  }

  /** With identity keys `GetQuizResultById` never meets two rows. */
  lemma GetQuizResultByIdNeverThrows(results: seq<QuizResultRow>, next: int, id: int)
    requires Identity(results, QuizResultRowId, next)
    ensures GetQuizResultById(results, id).Found? <==> exists i :: 0 <= i < |results| && results[i].id == id
    ensures !GetQuizResultById(results, id).Throws?
  {
    IdentityRowById(results, QuizResultRowId, next, id);
  }

  /** `UpdateQuizResult`: sets Score and Evaluation of the row with that id; true iff a row was affected. */
  method UpdateQuizResult(db: Database, quizResult: QuizResult) returns (changed: bool)
    requires db.Valid()
    modifies db`quizResults
    ensures db.Valid()
    ensures |db.quizResults| == |old(db.quizResults)|
    ensures forall i :: 0 <= i < |db.quizResults| ==>
              db.quizResults[i] == if old(db.quizResults)[i].id == quizResult.id
                                   then old(db.quizResults)[i].(score := quizResult.score, evaluation := quizResult.evaluation)
                                   else old(db.quizResults)[i]
    ensures changed <==> exists i :: 0 <= i < |old(db.quizResults)| && old(db.quizResults)[i].id == quizResult.id
  {
    var isResult := (r: QuizResultRow) => r.id == quizResult.id;
    var setScore := (r: QuizResultRow) => r.(score := quizResult.score, evaluation := quizResult.evaluation);
    var rowsAffected := Count(db.quizResults, isResult);
    IdentityUpdate(db.quizResults, QuizResultRowId, db.nextQuizResultId, isResult, setScore);
    db.quizResults := UpdateWhere(db.quizResults, isResult, setScore);
    changed := rowsAffected > 0;
  }

  /** `DeleteQuizResult`: removes the result with that id; true iff a row was removed. */
  method DeleteQuizResult(db: Database, id: int) returns (removed: bool)
    requires db.Valid()
    modifies db`quizResults
    ensures db.Valid()
    ensures db.quizResults == Without(old(db.quizResults), QuizResultRowId, id)
    ensures removed <==> exists i :: 0 <= i < |old(db.quizResults)| && old(db.quizResults)[i].id == id
  {
    var rowsAffected := db.DeleteQuizResults(QuizResultRowId, id);
    removed := rowsAffected > 0;
  }

  /**
   * `CheckTakerHasAnswers`: runs the total-score procedure, so a taker
   * "has answers" exactly when the total score is not 0.
   */
  function CheckTakerHasAnswers(procs: ScoreProcedures, quizName: NString, takerName: NString): int
  {
    procs.totalScore(quizName, takerName)
  }
}
