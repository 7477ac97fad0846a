/**
 * Controllers/QuizResultsController.cs: the `api/quizresults` endpoints.
 * Reads are functions of the QuizResults table, writes are methods on the
 * database; an exception from a call below becomes the catch block's 500.
 */
module QuizResultsController {
  import opened Common
  import opened Models
  import opened Store
  import opened Responses
  import opened QuizResultMappings
  import QuizResultRepository
  import QuizResultService

  /** The view of a stored result: its id, names, score and evaluation. */
  function ViewOf(row: QuizResultRow): QuizResultDto
  {
    QuizResultDto(row.id, row.quizName, row.takerName, row.score, row.evaluation)
  }

  /** In a valid QuizResults table, looking a stored result up by its id answers that result's view. */
  lemma FindsStoredResult(results: seq<QuizResultRow>, next: int, i: int)
    requires Identity(results, QuizResultRowId, next) && 0 <= i < |results|
    ensures QuizResultService.GetQuizResultById(results, results[i].id) == Found(ViewOf(results[i]))
  {
    IdentityFindsRow(results, QuizResultRowId, next, i);
  }

  /**
   * `CreateQuizResult`: 400 and no change when the total-score procedure
   * answers 0 for the two names; otherwise a result is stored whose score
   * and evaluation come from the procedures, and the answer is 200 with that
   * stored result read back by its new id.
   */
  method CreateQuizResult(db: Database, procs: QuizResultRepository.ScoreProcedures, quizResult: QuizResultCreationDto)
    returns (r: Response<QuizResultDto>)
    requires db.Valid()
    modifies db`quizResults, db`nextQuizResultId
    ensures r.BadRequest? <==> procs.totalScore(quizResult.quizName, quizResult.takerName) == 0
    ensures r.BadRequest? ==>
              r.reason == NoAnswers && db.quizResults == old(db.quizResults) &&
              db.nextQuizResultId == old(db.nextQuizResultId)
    ensures !r.BadRequest? ==>
              var row := QuizResultRepository.NewResultRow(procs, old(db.nextQuizResultId), FromCreationDto(quizResult));
              r == Ok(ViewOf(row)) && db.quizResults == old(db.quizResults) + [row]
    ensures db.Valid()
  {
    var checkTakerAnswers := QuizResultRepository.CheckTakerHasAnswers(procs, quizResult.quizName, quizResult.takerName);
    if checkTakerAnswers == 0 {
      r := BadRequest(NoAnswers);
      return;
    }
    ghost var before := db.quizResults;
    var newQuizResult := QuizResultService.CreateQuizResult(db, procs, quizResult);
    ghost var row := QuizResultRepository.NewResultRow(procs, newQuizResult.id, FromCreationDto(quizResult));
    assert db.quizResults[|before|] == row;
    assert db.quizResults == before + [row];
    FindsStoredResult(db.quizResults, db.nextQuizResultId, |before|);
    var getNewQuizResult := QuizResultService.GetQuizResultById(db.quizResults, newQuizResult.id);
    r := Ok(getNewQuizResult.value);
  }

  /** `GetAllQuizResult`: always 200, with one view per stored result in table order, even when there are none. */
  function GetAllQuizResult(results: seq<QuizResultRow>): (r: Response<seq<QuizResultDto>>)
    ensures r.Ok? && |r.body| == |results|
    ensures forall i :: 0 <= i < |results| ==> r.body[i] == ViewOf(results[i])
  {
    Ok(QuizResultService.GetAllQuizResult(results))
  }

  /** `GetQuizResultById`: 500 when the read threw; 404 when no result has the id; else 200 with it. */
  function GetQuizResultById(id: int, results: seq<QuizResultRow>): (r: Response<QuizResultDto>)
    ensures r.ServerError? <==> QuizResultRepository.GetQuizResultById(results, id).Throws?
    ensures r.NotFound? <==> forall i :: 0 <= i < |results| ==> results[i].id != id
    ensures r.NotFound? ==> r.reason == QuizResultNotFound(id)
    ensures r.Ok? ==> exists i :: 0 <= i < |results| && results[i].id == id && r.body == ViewOf(results[i])
    ensures r.Ok? || r.NotFound? || r.ServerError?
  {
    var quizResult := QuizResultService.GetQuizResultById(results, id);
    match quizResult
    case Throws => ServerError
    case Null => NotFound(QuizResultNotFound(id))
    case Found(v) => Ok(v)
  }

  /** Over a valid QuizResults table the read by id never answers 500, and a stored result is shown as stored. */
  lemma GetQuizResultByIdOfTable(results: seq<QuizResultRow>, next: int, id: int)
    requires Identity(results, QuizResultRowId, next)
    ensures !GetQuizResultById(id, results).ServerError?
    ensures forall i :: 0 <= i < |results| && results[i].id == id ==> GetQuizResultById(id, results) == Ok(ViewOf(results[i]))
  {
    QuizResultRepository.GetQuizResultByIdNeverThrows(results, next, id);
    forall i | 0 <= i < |results| && results[i].id == id
      ensures GetQuizResultById(id, results) == Ok(ViewOf(results[i]))
    {
      FindsStoredResult(results, next, i);
    }
  }

  /** `after` is `before` with the score and evaluation of the result with the id replaced. */
  ghost predicate ResultRescored(before: seq<QuizResultRow>, after: seq<QuizResultRow>, id: int, dto: QuizResultUpdateDto)
  {
    |after| == |before| &&
    forall i :: 0 <= i < |after| ==>
      after[i] == if before[i].id == id then before[i].(score := dto.score, evaluation := dto.evaluation) else before[i]
  }

  /**
   * After `UpdateQuizResult` rescored the result at index `k` in a valid
   * QuizResults table, a read by its id finds its names with the new score
   * and evaluation.
   */
  lemma RescoredResultFound(before: seq<QuizResultRow>, after: seq<QuizResultRow>, next: int, k: int, dto: QuizResultUpdateDto)
    requires 0 <= k < |before| && Identity(after, QuizResultRowId, next)
    requires ResultRescored(before, after, before[k].id, dto)
    ensures QuizResultService.GetQuizResultById(after, before[k].id) ==
              Found(QuizResultDto(before[k].id, before[k].quizName, before[k].takerName, dto.score, dto.evaluation))
  {
    FindsStoredResult(after, next, k);
  }

  /**
   * `UpdateQuizResult`: 404 and no change when no result has the id;
   * otherwise its score and evaluation are replaced and the answer is 200
   * with the result read back: its names, the new score and evaluation.
   */
  method UpdateQuizResult(db: Database, id: int, quizResultsToUpdate: QuizResultUpdateDto) returns (r: Response<QuizResultDto>)
    requires db.Valid()
    modifies db`quizResults
    ensures r.NotFound? <==> forall i :: 0 <= i < |old(db.quizResults)| ==> old(db.quizResults)[i].id != id
    ensures r.NotFound? ==> r.reason == QuizResultNotFound(id) && db.quizResults == old(db.quizResults)
    ensures !r.NotFound? ==>
              ResultRescored(old(db.quizResults), db.quizResults, id, quizResultsToUpdate) &&
              exists k :: 0 <= k < |old(db.quizResults)| && old(db.quizResults)[k].id == id &&
                r == Ok(QuizResultDto(id, old(db.quizResults)[k].quizName, old(db.quizResults)[k].takerName,
                                      quizResultsToUpdate.score, quizResultsToUpdate.evaluation))
    ensures db.Valid()
  {
    QuizResultRepository.GetQuizResultByIdNeverThrows(db.quizResults, db.nextQuizResultId, id);
    var quizResult := QuizResultService.GetQuizResultById(db.quizResults, id);
    if quizResult.Null? {
      r := NotFound(QuizResultNotFound(id));
      return;
    }
    ghost var before := db.quizResults;
    ghost var k :| 0 <= k < |before| && before[k].id == id;
    var _ := QuizResultService.UpdateQuizResult(db, id, quizResultsToUpdate);
    RescoredResultFound(before, db.quizResults, db.nextQuizResultId, k, quizResultsToUpdate);
    var getUpdatedQuizResult := QuizResultService.GetQuizResultById(db.quizResults, id);
    r := Ok(getUpdatedQuizResult.value);
  }

  /**
   * `DeleteQuizResult`: 404 and no change when no result has the id;
   * otherwise the result is removed, after which a read by id finds nothing.
   */
  method DeleteQuizResult(db: Database, id: int) returns (r: Response<Confirmation>)
    requires db.Valid()
    modifies db`quizResults
    ensures r.NotFound? <==> forall i :: 0 <= i < |old(db.quizResults)| ==> old(db.quizResults)[i].id != id
    ensures r.NotFound? || r == Ok(QuizResultDeleted(id))
    ensures r.NotFound? ==> r.reason == QuizResultNotFound(id) && db.quizResults == old(db.quizResults)
    ensures r.Ok? ==>
              db.quizResults == Without(old(db.quizResults), QuizResultRowId, id) &&
              QuizResultService.GetQuizResultById(db.quizResults, id).Null?
    ensures db.Valid()
  {
    QuizResultRepository.GetQuizResultByIdNeverThrows(db.quizResults, db.nextQuizResultId, id);
    var quizResult := QuizResultService.GetQuizResultById(db.quizResults, id);
    if quizResult.Null? {
      r := NotFound(QuizResultNotFound(id));
      return;
    }
    var _ := QuizResultService.DeleteQuizResult(db, id);
    r := Ok(QuizResultDeleted(id));
  }
}
