/**
 * Services/TakerService.cs: the taker service maps request bodies to takers,
 * calls the repository and maps what comes back to views, propagating null.
 */
module TakerService {
  import opened Common
  import opened Models
  import opened Store
  import opened Fold
  import opened TakerMappings
  import TakerRepository

  /** `CreateTaker`: stores the taker and answers its view with the new id. */
  method CreateTaker(db: Database, takerToCreate: TakerCreationDto) returns (view: TakerDto)
    requires db.Valid()
    modifies db`takers, db`nextTakerId
    ensures db.Valid()
    ensures view == TakerDto(old(db.nextTakerId), takerToCreate.name, takerToCreate.address, takerToCreate.email)
    ensures view.id > 0 && forall i :: 0 <= i < |old(db.takers)| ==> old(db.takers)[i].id != view.id
    ensures db.takers == old(db.takers) + [TakerRow(view.id, takerToCreate.name, takerToCreate.address, takerToCreate.email)]
  {
    var takerModel := ToTaker(takerToCreate);
    var id := TakerRepository.CreateTaker(db, takerModel);
    takerModel := takerModel.(id := id);
    view := ToTakerDto(takerModel);
  }

  /** `GetAllTakers()`: one view per distinct taker of the rows, in first-seen order, from its first row. */
  function GetAllTakers(rows: seq<TakerRepository.TakerQuizJoinRow>): (views: seq<TakerDto>)
    ensures |views| == |Keys(rows, TakerRepository.QuizRowKey)|
    ensures forall i :: 0 <= i < |views| ==>
              var k := Keys(rows, TakerRepository.QuizRowKey)[i];
              0 <= IndexOfKey(rows, TakerRepository.QuizRowKey, k) &&
              var first := rows[IndexOfKey(rows, TakerRepository.QuizRowKey, k)].taker;
              views[i] == TakerDto(first.id, first.name, first.address, first.email)
  {
    TakerRepository.GetAllFold(rows);
    Map(TakerRepository.GetAll(rows), ToTakerDto)
  }

  /**
   * `GetAllTakers(quizId)`: every taker of the rows as a `TakerQuizDto`; the
   * mapping throws (`None`) unless every taker appears in exactly one row.
   */
  function GetAllTakersByQuizId(rows: seq<TakerRepository.TakerQuizJoinRow>): (views: Option<seq<TakerQuizDto>>)
    ensures views.Some? <==>
              forall i :: 0 <= i < |Keys(rows, TakerRepository.QuizRowKey)| ==>
                |Matching(rows, TakerRepository.QuizRowKey, Keys(rows, TakerRepository.QuizRowKey)[i])| == 1
    ensures views.Some? ==> |views.value| == |Keys(rows, TakerRepository.QuizRowKey)|
  {
    TakerRepository.GetAllFold(rows);
    ToTakerQuizDtos(TakerRepository.GetAllByQuizId(rows))
  }

  /**
   * When no taker appears in two rows (no pair was linked twice), the
   * mapping succeeds with one view per row, named after the row's quiz.
   */
  lemma GetAllTakersByQuizIdDistinct(rows: seq<TakerRepository.TakerQuizJoinRow>)
    requires forall i, j :: 0 <= i < j < |rows| ==> rows[i].taker.id != rows[j].taker.id
    ensures GetAllTakersByQuizId(rows).Some?
    ensures |GetAllTakersByQuizId(rows).value| == |rows|
    ensures forall i :: 0 <= i < |rows| ==>
              GetAllTakersByQuizId(rows).value[i] ==
                TakerQuizDto(rows[i].taker.id, rows[i].taker.name, rows[i].taker.address, rows[i].taker.email, rows[i].quiz.name)
  {
    var key := TakerRepository.QuizRowKey;
    UniqueKeys(rows, key);
    TakerRepository.GetAllFold(rows);
    var ts := TakerRepository.GetAllByQuizId(rows);
    forall i | 0 <= i < |rows|
      ensures ts[i] == TakerRepository.TakerOf(rows[i].taker).(quizzes := [rows[i].quiz])
    {
      assert Keys(rows, key)[i] == key(rows[i]);
    }
  }

  /** `GetTakerById`: null exactly when no taker row has the id; a found taker has no quizzes. */
  function GetTakerById(takers: seq<TakerRow>, id: int): (r: Lookup<TakerQuizzesDto>)
    ensures r.Null? <==> TakerRepository.GetTaker(takers, id).Null?
    ensures r.Null? <==> forall i :: 0 <= i < |takers| ==> takers[i].id != id
    ensures r.Throws? <==> TakerRepository.GetTaker(takers, id).Throws?
    ensures r.Found? ==> r.value.id == id && r.value.quizzes == [] &&
                         TakerRow(id, r.value.name, r.value.address, r.value.email) in takers
  {
    MapLookup(TakerRepository.GetTaker(takers, id), ToTakerQuizzesDto)
  }

  /** `GetTakerWithQuizById`: null exactly when the query has no rows; otherwise every row's quiz. */
  function GetTakerWithQuizById(rows: seq<TakerRepository.TakerQuizJoinRow>): (r: Lookup<TakerQuizzesDto>)
    ensures r.Null? <==> rows == []
    ensures MixedKeys(rows, TakerRepository.QuizRowKey) ==> r.Throws?
    ensures SingleKeyed(rows, TakerRepository.QuizRowKey) ==>
              r == Found(TakerQuizzesDto(rows[0].taker.id, rows[0].taker.name, rows[0].taker.address, rows[0].taker.email,
                                         Map(rows, TakerRepository.QuizOfRow)))
  {
    TakerRepository.GetTakerWithQuizFold(rows);
    MapLookup(TakerRepository.GetTakerWithQuiz(rows), ToTakerQuizzesDto)
  }

  /** `GetTakerWithQuizResultById`: null exactly when the query has no rows; otherwise every row's result. */
  function GetTakerWithQuizResultById(rows: seq<TakerRepository.TakerResultJoinRow>): (r: Lookup<TakerQuizResultDto>)
    ensures r.Null? <==> rows == []
    ensures MixedKeys(rows, TakerRepository.ResultRowKey) ==> r.Throws?
    ensures SingleKeyed(rows, TakerRepository.ResultRowKey) ==> r.Found?
    ensures r.Found? ==>
              r.value == TakerQuizResultDto(rows[0].taker.id, rows[0].taker.name, rows[0].taker.address, rows[0].taker.email,
                                            Map(rows, TakerRepository.ResultOfRow))
  {
    TakerRepository.GetTakerWithQuizResultFold(rows);
    MapLookup(TakerRepository.GetTakerWithQuizResult(rows), ToTakerQuizResultDto)
  }

  /** `GetTakerAnswersById`: null exactly when the query has no rows; otherwise every row's answer. */
  function GetTakerAnswersById(rows: seq<TakerRepository.TakerAnswerJoinRow>): (r: Lookup<TakerAnswersDto>)
    ensures r.Null? <==> rows == []
    ensures MixedKeys(rows, TakerRepository.AnswerRowKey) ==> r.Throws?
    ensures SingleKeyed(rows, TakerRepository.AnswerRowKey) ==> r.Found?
    ensures r.Found? ==>
              r.value == TakerAnswersDto(rows[0].taker.id, rows[0].taker.name, rows[0].taker.address, rows[0].taker.email,
                                         Map(rows, TakerRepository.AnswerOfRow))
  {
    TakerRepository.GetTakerAnswersFold(rows);
    MapLookup(TakerRepository.GetTakerAnswers(rows), ToTakerAnswersDto)
  }

  /** `DeleteTaker`: the repository's cascading delete and its answer, passed through. */
  method DeleteTaker(db: Database, id: int) returns (removed: bool)
    requires db.Valid()
    modifies db`takers, db`takerQuiz, db`takersAnswers, db`quizResults
    ensures db.Valid()
    ensures db.takers == Without(old(db.takers), TakerRowId, id)
    ensures db.takerQuiz == Without(old(db.takerQuiz), TakerQuizTakerId, id)
    ensures db.takersAnswers == Without(old(db.takersAnswers), TakerAnswerTakerId, id)
    ensures db.quizResults == Without(old(db.quizResults), QuizResultTakerId, id)
    ensures removed <==> |db.takers| < |old(db.takers)| || |db.takerQuiz| < |old(db.takerQuiz)| ||
                         |db.takersAnswers| < |old(db.takersAnswers)| || |db.quizResults| < |old(db.quizResults)|
  {
    removed := TakerRepository.DeleteTaker(db, id);
  }

  /**
   * `UpdateTaker`: updates the taker with that id and the taker name of its
   * results, and answers the request's fields under that id whatever the
   * repository reported.
   */
  method UpdateTaker(db: Database, id: int, takerToUpdate: TakerCreationDto) returns (view: TakerDto)
    requires db.Valid()
    modifies db`takers, db`quizResults
    ensures db.Valid()
    ensures view == TakerDto(id, takerToUpdate.name, takerToUpdate.address, takerToUpdate.email)
    ensures |db.takers| == |old(db.takers)|
    ensures forall i :: 0 <= i < |db.takers| ==>
              db.takers[i] == if old(db.takers)[i].id == id
                              then TakerRow(id, takerToUpdate.name, takerToUpdate.address, takerToUpdate.email)
                              else old(db.takers)[i]
    ensures |db.quizResults| == |old(db.quizResults)|
    ensures forall i :: 0 <= i < |db.quizResults| ==>
              db.quizResults[i] == if old(db.quizResults)[i].takerId == id
                                   then old(db.quizResults)[i].(takerName := takerToUpdate.name)
                                   else old(db.quizResults)[i]
  {
    var takerModel := ToTaker(takerToUpdate);
    takerModel := takerModel.(id := id);
    var _ := TakerRepository.UpdateTaker(db, takerModel);
    view := ToTakerDto(takerModel);
  }

  /** `LetTakerTakeQuiz`: the repository's insert of the link, passed through. */
  method LetTakerTakeQuiz(db: Database, takerId: int, quizId: int) returns (id: int)
    requires db.Valid()
    modifies db`takerQuiz, db`nextTakerQuizId
    ensures db.Valid()
    ensures id == old(db.nextTakerQuizId) && id > 0
    ensures db.takerQuiz == old(db.takerQuiz) + [TakerQuizRow(id, takerId, quizId)]
    ensures HasTakerTakenQuiz(db.takerQuiz, takerId, quizId)
  {
    id := TakerRepository.LetTakerTakeQuiz(db, takerId, quizId);
  }

  /**
   * `HasTakerTakenQuiz`: the repository's check, passed through. A true
   * answer means a link row holds the pair; when no link id is 0 the
   * converse holds too.
   */
  function HasTakerTakenQuiz(links: seq<TakerQuizRow>, takerId: int, quizId: int): (b: bool)
    ensures b == TakerRepository.HasTakerTakenQuiz(links, takerId, quizId)
    ensures b ==> exists i :: 0 <= i < |links| && links[i].takerId == takerId && links[i].quizId == quizId
    ensures (forall i :: 0 <= i < |links| ==> links[i].id != 0) ==>
              (b <== exists i :: 0 <= i < |links| && links[i].takerId == takerId && links[i].quizId == quizId)
  {
    var hits := Where(links, (r: TakerQuizRow) => r.takerId == takerId && r.quizId == quizId);
    assert hits != [] ==> hits[0] in links;
    TakerRepository.HasTakerTakenQuiz(links, takerId, quizId)
  }
}
