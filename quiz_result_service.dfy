/**
 * Services/QuizResultService.cs: the quiz result service maps request bodies
 * to results, calls the repository and maps what comes back to views.
 */
module QuizResultService {
  import opened Common
  import opened Models
  import opened Store
  import opened Fold
  import opened QuizResultMappings
  import QuizResultRepository

  /**
   * `CreateQuizResult`: stores a result for the two names and answers the
   * request mapped to a result with the new id. The view's score is 0 and its
   * evaluation null: it is not the stored row, whose score and evaluation the
   * repository derived.
   */
  method CreateQuizResult(db: Database, procs: QuizResultRepository.ScoreProcedures, quizResultToCreate: QuizResultCreationDto)
    returns (view: QuizResultDto)
    requires db.Valid()
    modifies db`quizResults, db`nextQuizResultId
    ensures db.Valid()
    ensures view == QuizResultDto(old(db.nextQuizResultId), quizResultToCreate.quizName, quizResultToCreate.takerName, 0, None)
    ensures view.id > 0 && forall i :: 0 <= i < |old(db.quizResults)| ==> old(db.quizResults)[i].id != view.id
    ensures |db.quizResults| == |old(db.quizResults)| + 1 && db.quizResults[..|old(db.quizResults)|] == old(db.quizResults)
    ensures var row := db.quizResults[|old(db.quizResults)|];
            var qn, tn := quizResultToCreate.quizName, quizResultToCreate.takerName;
            row.id == view.id && row.quizName == qn && row.takerName == tn &&
            row.quizId == procs.quizId(qn, tn) && row.takerId == procs.takerId(qn, tn) &&
            row.score == procs.quizScores(qn, tn) &&
            row.evaluation == Some(QuizResultRepository.GetEvaluation(procs, FromCreationDto(quizResultToCreate)))
  {
    var quizResultModel := FromCreationDto(quizResultToCreate);
    var id := QuizResultRepository.CreateQuizResult(db, procs, quizResultModel);
    quizResultModel := quizResultModel.(id := id);
    view := ToQuizResultDto(quizResultModel);
  }

  /** `GetAllQuizResult`: one view per row of QuizResults, in table order. */
  function GetAllQuizResult(results: seq<QuizResultRow>): (views: seq<QuizResultDto>)
    ensures |views| == |results|
    ensures forall i :: 0 <= i < |views| ==>
              views[i] == QuizResultDto(results[i].id, results[i].quizName, results[i].takerName, results[i].score, results[i].evaluation)
  {
    Map(QuizResultRepository.GetAllQuizResult(results), ToQuizResultDto)
  }

  /** `GetQuizResultById`: null exactly when no row has the id; otherwise that row's view. */
  function GetQuizResultById(results: seq<QuizResultRow>, id: int): (r: Lookup<QuizResultDto>)
    ensures r.Null? <==> forall i :: 0 <= i < |results| ==> results[i].id != id
    ensures r.Throws? <==> QuizResultRepository.GetQuizResultById(results, id).Throws?
    ensures r.Found? ==> exists i :: 0 <= i < |results| && results[i].id == id &&
                           r.value == QuizResultDto(id, results[i].quizName, results[i].takerName, results[i].score, results[i].evaluation)
  {
    MapLookup(QuizResultRepository.GetQuizResultById(results, id), ToQuizResultDto)
  }

  /**
   * `UpdateQuizResult`: sets score and evaluation of the result with that id
   * and answers them under that id, with null names.
   */
  method UpdateQuizResult(db: Database, id: int, quizResultToUpdate: QuizResultUpdateDto) returns (view: QuizResultDto)
    requires db.Valid()
    modifies db`quizResults
    ensures db.Valid()
    ensures view == QuizResultDto(id, None, None, quizResultToUpdate.score, quizResultToUpdate.evaluation)
    ensures |db.quizResults| == |old(db.quizResults)|
    ensures forall i :: 0 <= i < |db.quizResults| ==>
              db.quizResults[i] == if old(db.quizResults)[i].id == id
                                   then old(db.quizResults)[i].(score := quizResultToUpdate.score, evaluation := quizResultToUpdate.evaluation)
                                   else old(db.quizResults)[i]
  {
    var quizResultModel := FromUpdateDto(quizResultToUpdate);
    quizResultModel := quizResultModel.(id := id);
    var _ := QuizResultRepository.UpdateQuizResult(db, quizResultModel);
    view := ToQuizResultDto(quizResultModel);
  }

  /** `DeleteQuizResult`: the repository's delete and its answer, passed through. */
  method DeleteQuizResult(db: Database, id: int) returns (removed: bool)
    requires db.Valid()
    modifies db`quizResults
    ensures db.Valid()
    ensures db.quizResults == Without(old(db.quizResults), QuizResultRowId, id)
    ensures removed <==> exists i :: 0 <= i < |old(db.quizResults)| && old(db.quizResults)[i].id == id
  {
    removed := QuizResultRepository.DeleteQuizResult(db, id);
  }
}
