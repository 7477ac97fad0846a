/**
 * Controllers/TakersController.cs: the `api/takers` endpoints. Each read is a
 * function of the tables and of the rows its stored procedures return, each
 * write a method on the database; an exception from a call below becomes the
 * catch block's 500.
 */
module TakersController {
  import opened Common
  import opened Models
  import opened Store
  import opened Fold
  import opened Responses
  import QuizRepository
  import TakerRepository
  import QuizService
  import TakerService

  /** What `GET api/takers` lists: every taker, or the takers of a quiz. */
  datatype TakerListing = AllTakers(takers: seq<TakerDto>) | ByQuiz(takersWithQuiz: seq<TakerQuizDto>)

  /** In a valid Takers table, looking a stored taker up by its id answers that taker with no quizzes. */
  lemma FindsStoredTaker(takers: seq<TakerRow>, next: int, row: TakerRow)
    requires Identity(takers, TakerRowId, next) && row in takers
    ensures TakerService.GetTakerById(takers, row.id) == Found(TakerQuizzesDto(row.id, row.name, row.address, row.email, []))
  {
    var i :| 0 <= i < |takers| && takers[i] == row;
    TakerRepository.GetTakerNeverThrows(takers, next, row.id);
    var v := TakerService.GetTakerById(takers, row.id).value;
    IdentityUnique(takers, TakerRowId, next, TakerRow(row.id, v.name, v.address, v.email), row);
  }

  /** Some row of the Takers table has the id. */
  ghost predicate TakerExists(takers: seq<TakerRow>, id: int)
  {
    exists i :: 0 <= i < |takers| && takers[i].id == id
  }

  /** `after` is `before` with the fields of the taker with the id replaced by those of `dto`. */
  ghost predicate TakerUpdated(before: seq<TakerRow>, after: seq<TakerRow>, id: int, dto: TakerCreationDto)
  {
    |after| == |before| &&
    forall i :: 0 <= i < |after| ==>
      after[i] == if before[i].id == id then TakerRow(id, dto.name, dto.address, dto.email) else before[i]
  }

  /** `after` is `before` with the taker name of the results of the taker with the id replaced. */
  ghost predicate TakerNameUpdated(before: seq<QuizResultRow>, after: seq<QuizResultRow>, id: int, name: NString)
  {
    |after| == |before| &&
    forall i :: 0 <= i < |after| ==>
      after[i] == if before[i].takerId == id then before[i].(takerName := name) else before[i]
  }

  /**
   * After `UpdateTaker` changed the taker with the id in a valid Takers
   * table, a read by that id finds the new fields.
   */
  lemma UpdatedTakerFound(before: seq<TakerRow>, after: seq<TakerRow>, next: int, id: int, dto: TakerCreationDto)
    requires Identity(after, TakerRowId, next) && TakerExists(before, id) && TakerUpdated(before, after, id, dto)
    ensures TakerService.GetTakerById(after, id) == Found(TakerQuizzesDto(id, dto.name, dto.address, dto.email, []))
  {
    var k :| 0 <= k < |before| && before[k].id == id;
    FindsStoredTaker(after, next, after[k]);
  }

  /** `CreateTaker`: 201 with the new taker, which the route it names (`GetTakerById`) then finds. */
  method CreateTaker(db: Database, taker: TakerCreationDto) returns (r: Response<TakerDto>)
    requires db.Valid()
    modifies db`takers, db`nextTakerId
    ensures db.Valid()
    ensures r == Created(TakerDto(old(db.nextTakerId), taker.name, taker.address, taker.email))
    ensures db.takers == old(db.takers) + [TakerRow(r.body.id, taker.name, taker.address, taker.email)]
    ensures TakerService.GetTakerById(db.takers, r.body.id) ==
              Found(TakerQuizzesDto(r.body.id, taker.name, taker.address, taker.email, []))
  {
    var newTaker := TakerService.CreateTaker(db, taker);
    assert db.takers[|db.takers| - 1] == TakerRow(newTaker.id, taker.name, taker.address, taker.email);
    FindsStoredTaker(db.takers, db.nextTakerId, TakerRow(newTaker.id, taker.name, taker.address, taker.email));
    r := Created(newTaker);
  }

  /**
   * `GetAllTakers`: 404 when a quiz id is given and no quiz has it; without a
   * quiz id 204 when there are no takers and else 200 with every taker; with
   * an existing quiz 200 with its takers, even when there are none. Every
   * read runs first, so a throwing one (a taker of the quiz listed twice)
   * answers 500 whatever the quiz id.
   */
  function GetAllTakers(quizId: int, quizzes: seq<QuizRow>,
                        allRows: seq<TakerRepository.TakerQuizJoinRow>, quizRows: seq<TakerRepository.TakerQuizJoinRow>)
    : (r: Response<TakerListing>)
    ensures r.ServerError? <==>
              QuizService.GetQuizById(quizzes, quizId).Throws? || TakerService.GetAllTakersByQuizId(quizRows).None?
    ensures r.NotFound? <==>
              !r.ServerError? && quizId != 0 && forall i :: 0 <= i < |quizzes| ==> quizzes[i].id != quizId
    ensures r.NotFound? ==> r.reason == QuizNotFound(quizId)
    ensures r.NoContent? <==> !r.ServerError? && quizId == 0 && allRows == []
    ensures r.Ok? && r.body.AllTakers? ==>
              quizId == 0 && r.body.takers == TakerService.GetAllTakers(allRows) && r.body.takers != []
    ensures r.Ok? && r.body.ByQuiz? ==>
              quizId != 0 && r.body.takersWithQuiz == TakerService.GetAllTakersByQuizId(quizRows).value &&
              exists i :: 0 <= i < |quizzes| && quizzes[i].id == quizId
    ensures r.Ok? || r.NotFound? || r.NoContent? || r.ServerError?
  {
    var takers := TakerService.GetAllTakers(allRows);
    var quiz := QuizService.GetQuizById(quizzes, quizId);
    var takersWithQuiz := TakerService.GetAllTakersByQuizId(quizRows);
    assert takers == [] <==> allRows == [] by {
      if allRows != [] { assert TakerRepository.QuizRowKey(allRows[0]) in Keys(allRows, TakerRepository.QuizRowKey); }
    }
    if quiz.Throws? || takersWithQuiz.None? then ServerError
    else if quiz.Null? && quizId != 0 then NotFound(QuizNotFound(quizId))
    else if quizId == 0 && takers == [] then NoContent
    else if quizId == 0 then Ok(AllTakers(takers))
    else Ok(ByQuiz(takersWithQuiz.value))
  }

  /**
   * For an existing quiz whose takers each took it once, the listing is 200
   * with one entry per row, named after the row's quiz; with no rows it is
   * 200 with an empty list, not 204.
   */
  lemma GetAllTakersOfQuiz(quizId: int, quizzes: seq<QuizRow>, next: int,
                           allRows: seq<TakerRepository.TakerQuizJoinRow>, quizRows: seq<TakerRepository.TakerQuizJoinRow>)
    requires Identity(quizzes, QuizRowId, next)
    requires quizId != 0 && exists i :: 0 <= i < |quizzes| && quizzes[i].id == quizId
    requires forall i, j :: 0 <= i < j < |quizRows| ==> quizRows[i].taker.id != quizRows[j].taker.id
    ensures var r := GetAllTakers(quizId, quizzes, allRows, quizRows);
            r.Ok? && r.body.ByQuiz? && |r.body.takersWithQuiz| == |quizRows| &&
            forall i :: 0 <= i < |quizRows| ==>
              r.body.takersWithQuiz[i] ==
                TakerQuizDto(quizRows[i].taker.id, quizRows[i].taker.name, quizRows[i].taker.address,
                             quizRows[i].taker.email, quizRows[i].quiz.name)
  {
    QuizRepository.GetQuizNeverThrows(quizzes, next, quizId);
    TakerService.GetAllTakersByQuizIdDistinct(quizRows);
  }

  /**
   * `GetTaker`: 404 when neither the taker nor a taker/quiz row exists; 200
   * with the taker and its quizzes when there are rows, else with the taker
   * and no quizzes; 500 when a read threw.
   */
  function GetTaker(id: int, takers: seq<TakerRow>, rows: seq<TakerRepository.TakerQuizJoinRow>): (r: Response<TakerQuizzesDto>)
    ensures r.ServerError? <==>
              TakerService.GetTakerById(takers, id).Throws? || MixedKeys(rows, TakerRepository.QuizRowKey)
    ensures r.NotFound? <==> rows == [] && forall i :: 0 <= i < |takers| ==> takers[i].id != id
    ensures r.NotFound? ==> r.reason == TakerNotFound(id)
    ensures r.Ok? && rows != [] ==>
              r.body == TakerQuizzesDto(rows[0].taker.id, rows[0].taker.name, rows[0].taker.address, rows[0].taker.email,
                                        Map(rows, TakerRepository.QuizOfRow))
    ensures r.Ok? && rows == [] ==>
              r.body.id == id && r.body.quizzes == [] &&
              TakerRow(id, r.body.name, r.body.address, r.body.email) in takers
    ensures r.Ok? || r.NotFound? || r.ServerError?
  {
    var taker := TakerService.GetTakerById(takers, id);
    var takerWithQuiz := TakerService.GetTakerWithQuizById(rows);
    KeysTrichotomy(rows, TakerRepository.QuizRowKey);
    if taker.Throws? || takerWithQuiz.Throws? then ServerError
    else if taker.Null? && takerWithQuiz.Null? then NotFound(TakerNotFound(id))
    else if takerWithQuiz.Found? then Ok(takerWithQuiz.value)
    else Ok(taker.value)
  }

  /**
   * `GetTakerQuizResults`: 404 when the taker is missing and there are no
   * rows; 204 when it exists without results; 200 with every row's result.
   */
  function GetTakerQuizResults(id: int, takers: seq<TakerRow>, rows: seq<TakerRepository.TakerResultJoinRow>)
    : (r: Response<TakerQuizResultDto>)
    ensures r.ServerError? <==>
              TakerService.GetTakerById(takers, id).Throws? || MixedKeys(rows, TakerRepository.ResultRowKey)
    ensures r.NotFound? <==>
              !TakerService.GetTakerById(takers, id).Throws? && rows == [] &&
              forall i :: 0 <= i < |takers| ==> takers[i].id != id
    ensures r.NotFound? ==> r.reason == TakerNotFound(id)
    ensures r.NoContent? <==>
              !TakerService.GetTakerById(takers, id).Throws? && rows == [] &&
              exists i :: 0 <= i < |takers| && takers[i].id == id
    ensures r.Ok? ==>
              SingleKeyed(rows, TakerRepository.ResultRowKey) &&
              r.body == TakerQuizResultDto(rows[0].taker.id, rows[0].taker.name, rows[0].taker.address, rows[0].taker.email,
                                           Map(rows, TakerRepository.ResultOfRow))
  {
    var taker := TakerService.GetTakerById(takers, id);
    var takerQuizResult := TakerService.GetTakerWithQuizResultById(rows);
    if taker.Throws? then ServerError
    else SubResource(taker.Found?, takerQuizResult, TakerNotFound(id))
  }

  /**
   * `GetTakerAnswers`: 404 when the taker is missing and there are no rows;
   * 204 when it exists without answers; 200 with every row's answer.
   */
  function GetTakerAnswers(id: int, takers: seq<TakerRow>, rows: seq<TakerRepository.TakerAnswerJoinRow>)
    : (r: Response<TakerAnswersDto>)
    ensures r.ServerError? <==>
              TakerService.GetTakerById(takers, id).Throws? || MixedKeys(rows, TakerRepository.AnswerRowKey)
    ensures r.NotFound? <==>
              !TakerService.GetTakerById(takers, id).Throws? && rows == [] &&
              forall i :: 0 <= i < |takers| ==> takers[i].id != id
    ensures r.NotFound? ==> r.reason == TakerNotFound(id)
    ensures r.NoContent? <==>
              !TakerService.GetTakerById(takers, id).Throws? && rows == [] &&
              exists i :: 0 <= i < |takers| && takers[i].id == id
    ensures r.Ok? ==>
              SingleKeyed(rows, TakerRepository.AnswerRowKey) &&
              r.body == TakerAnswersDto(rows[0].taker.id, rows[0].taker.name, rows[0].taker.address, rows[0].taker.email,
                                        Map(rows, TakerRepository.AnswerOfRow))
  {
    var taker := TakerService.GetTakerById(takers, id);
    var takerAnswers := TakerService.GetTakerAnswersById(rows);
    if taker.Throws? then ServerError
    else SubResource(taker.Found?, takerAnswers, TakerNotFound(id))
  }

  /**
   * `UpdateTaker`: 404 and no change when no taker has the id; otherwise the
   * taker and the taker name of its results are updated and the answer is
   * 200 with the new taker, which a read by id then finds.
   */
  method UpdateTaker(db: Database, id: int, takerToBeUpdated: TakerCreationDto) returns (r: Response<TakerDto>)
    requires db.Valid()
    modifies db`takers, db`quizResults
    ensures db.Valid()
    ensures r.NotFound? <==> !TakerExists(old(db.takers), id)
    ensures r.NotFound? || r.Ok?
    ensures r.NotFound? ==>
              r.reason == TakerNotFound(id) && db.takers == old(db.takers) && db.quizResults == old(db.quizResults)
    ensures r.Ok? ==>
              r.body == TakerDto(id, takerToBeUpdated.name, takerToBeUpdated.address, takerToBeUpdated.email)
    ensures r.Ok? ==> TakerUpdated(old(db.takers), db.takers, id, takerToBeUpdated)
    ensures r.Ok? ==> TakerNameUpdated(old(db.quizResults), db.quizResults, id, takerToBeUpdated.name)
  {
    TakerRepository.GetTakerNeverThrows(db.takers, db.nextTakerId, id);
    var taker := TakerService.GetTakerById(db.takers, id);
    if taker.Null? {
      r := NotFound(TakerNotFound(id));
    } else {
      var updatedTaker := TakerService.UpdateTaker(db, id, takerToBeUpdated);
      r := Ok(updatedTaker);
    }
  }

  /**
   * `DeleteTaker`: 404 and no change when no taker has the id; otherwise the
   * taker, its quiz links, its answers and its results are removed, after
   * which a read by id finds nothing.
   */
  method DeleteTaker(db: Database, id: int) returns (r: Response<Confirmation>)
    requires db.Valid()
    modifies db`takers, db`takerQuiz, db`takersAnswers, db`quizResults
    ensures db.Valid()
    ensures r.NotFound? <==> forall i :: 0 <= i < |old(db.takers)| ==> old(db.takers)[i].id != id
    ensures r.NotFound? || r == Ok(TakerDeleted(id))
    ensures r.NotFound? ==>
              r.reason == TakerNotFound(id) && db.takers == old(db.takers) && db.takerQuiz == old(db.takerQuiz) &&
              db.takersAnswers == old(db.takersAnswers) && db.quizResults == old(db.quizResults)
    ensures r.Ok? ==>
              db.takers == Without(old(db.takers), TakerRowId, id) &&
              db.takerQuiz == Without(old(db.takerQuiz), TakerQuizTakerId, id) &&
              db.takersAnswers == Without(old(db.takersAnswers), TakerAnswerTakerId, id) &&
              db.quizResults == Without(old(db.quizResults), QuizResultTakerId, id) &&
              TakerService.GetTakerById(db.takers, id).Null?
  {
    TakerRepository.GetTakerNeverThrows(db.takers, db.nextTakerId, id);
    var taker := TakerService.GetTakerById(db.takers, id);
    if taker.Null? {
      r := NotFound(TakerNotFound(id));
      return;
    }
    var _ := TakerService.DeleteTaker(db, id);
    r := Ok(TakerDeleted(id));
  }

  /** No (taker, quiz) pair is linked twice. */
  ghost predicate DistinctLinks(links: seq<TakerQuizRow>)
  {
    forall i, j :: 0 <= i < j < |links| ==> !(links[i].takerId == links[j].takerId && links[i].quizId == links[j].quizId)
  }

  /** Linking a pair that the check finds untaken keeps every pair linked at most once. */
  lemma LinkingUntakenKeepsDistinct(links: seq<TakerQuizRow>, next: int, takerId: int, quizId: int)
    requires Identity(links, TakerQuizRowId, next) && DistinctLinks(links)
    requires !TakerService.HasTakerTakenQuiz(links, takerId, quizId)
    ensures DistinctLinks(links + [TakerQuizRow(next, takerId, quizId)])
  {
    TakerRepository.HasTakerTakenQuizExact(links, next, takerId, quizId);
    var l := links + [TakerQuizRow(next, takerId, quizId)];
    forall i, j | 0 <= i < j < |l|
      ensures !(l[i].takerId == l[j].takerId && l[i].quizId == l[j].quizId)
    {
      if j == |links| {
        assert l[i] == links[i];
      }
    }
  }

  /**
   * The stored procedure that `GetTakerWithQuizById` runs, as a function of
   * the tables it reads and of the taker id; its body is not part of this
   * model.
   */
  type TakerQuizQuery = (seq<TakerRow>, seq<TakerQuizRow>, seq<QuizRow>, int) -> seq<TakerRepository.TakerQuizJoinRow>

  /** Some row of the Quizzes table has the id. */
  ghost predicate QuizExists(quizzes: seq<QuizRow>, id: int)
  {
    exists i :: 0 <= i < |quizzes| && quizzes[i].id == id
  }

  /** Some link pairs the taker with the quiz. */
  ghost predicate PairLinked(links: seq<TakerQuizRow>, takerId: int, quizId: int)
  {
    exists i :: 0 <= i < |links| && links[i].takerId == takerId && links[i].quizId == quizId
  }

  /**
   * The guards of `LetTakerTakeQuiz`, in the order it tests them: 500 when a
   * read threw; 404 naming what is missing, the taker, the quiz or both; 400
   * when the taker already took the quiz; `None` when the link goes ahead.
   */
  function LinkCheck(taker: Lookup<TakerQuizzesDto>, quiz: Lookup<QuizDto>, hasTakerTakenQuiz: bool, takerId: int, quizId: int)
    : (r: Option<Response<Option<TakerQuizzesDto>>>)
    ensures r == Some(ServerError) <==> taker.Throws? || quiz.Throws?
    ensures r == Some(NotFound(TakerAndQuizNotFound(takerId, quizId))) <==> taker.Null? && quiz.Null?
    ensures r == Some(NotFound(TakerNotFound(takerId))) <==> taker.Null? && quiz.Found?
    ensures r == Some(NotFound(QuizNotFound(quizId))) <==> taker.Found? && quiz.Null?
    ensures r == Some(BadRequest(QuizAlreadyTaken(takerId, quizId))) <==> taker.Found? && quiz.Found? && hasTakerTakenQuiz
    ensures r.None? <==> taker.Found? && quiz.Found? && !hasTakerTakenQuiz
  {
    if taker.Throws? || quiz.Throws? then Some(ServerError)
    else if taker.Null? && quiz.Null? then Some(NotFound(TakerAndQuizNotFound(takerId, quizId)))
    else if taker.Null? then Some(NotFound(TakerNotFound(takerId)))
    else if quiz.Null? then Some(NotFound(QuizNotFound(quizId)))
    else if hasTakerTakenQuiz then Some(BadRequest(QuizAlreadyTaken(takerId, quizId)))
    else None
  }

  /**
   * Over tables with identity keys the guards of `LetTakerTakeQuiz` never
   * answer 500, answer 404 exactly for a missing taker or quiz, 400 exactly
   * when the pair is already linked, and let the link go ahead otherwise.
   */
  lemma LinkCheckOfTables(takers: seq<TakerRow>, nextTaker: int, quizzes: seq<QuizRow>, nextQuiz: int,
                          links: seq<TakerQuizRow>, nextLink: int, takerId: int, quizId: int)
    requires Identity(takers, TakerRowId, nextTaker) && Identity(quizzes, QuizRowId, nextQuiz)
    requires Identity(links, TakerQuizRowId, nextLink)
    ensures var r := LinkCheck(TakerService.GetTakerById(takers, takerId), QuizService.GetQuizById(quizzes, quizId),
                               TakerService.HasTakerTakenQuiz(links, takerId, quizId), takerId, quizId);
            r != Some(ServerError) &&
            (r == Some(NotFound(TakerAndQuizNotFound(takerId, quizId))) <==>
               !TakerExists(takers, takerId) && !QuizExists(quizzes, quizId)) &&
            (r == Some(NotFound(TakerNotFound(takerId))) <==> !TakerExists(takers, takerId) && QuizExists(quizzes, quizId)) &&
            (r == Some(NotFound(QuizNotFound(quizId))) <==> TakerExists(takers, takerId) && !QuizExists(quizzes, quizId)) &&
            (r == Some(BadRequest(QuizAlreadyTaken(takerId, quizId))) <==>
               TakerExists(takers, takerId) && QuizExists(quizzes, quizId) && PairLinked(links, takerId, quizId)) &&
            (r.None? <==> TakerExists(takers, takerId) && QuizExists(quizzes, quizId) && !PairLinked(links, takerId, quizId))
  {
    TakerRepository.GetTakerNeverThrows(takers, nextTaker, takerId);
    QuizRepository.GetQuizNeverThrows(quizzes, nextQuiz, quizId);
    TakerRepository.HasTakerTakenQuizExact(links, nextLink, takerId, quizId);
  }

  /** The answer to the re-read after linking: 500 when it threw, else 200 with the taker or a null body. */
  function ReadBack(takerWithQuiz: Lookup<TakerQuizzesDto>): Response<Option<TakerQuizzesDto>>
  {
    match takerWithQuiz
    case Throws => ServerError
    case Null => Ok(None)
    case Found(v) => Ok(Some(v))
  }

  /**
   * `LetTakerTakeQuiz`: the answer of the guards, with no change, when one
   * of them stops the request (`LinkCheckOfTables` says which); otherwise one
   * link is added and the answer is the taker re-read with its quizzes
   * (`None` is a null body); `LinkingUntakenKeepsDistinct` shows that the
   * added link never pairs a taker and a quiz twice.
   */
  method LetTakerTakeQuiz(db: Database, takerId: int, quizId: int, takerQuizzes: TakerQuizQuery)
    returns (r: Response<Option<TakerQuizzesDto>>)
    requires db.Valid()
    modifies db`takerQuiz, db`nextTakerQuizId
    ensures var check := LinkCheck(TakerService.GetTakerById(db.takers, takerId), QuizService.GetQuizById(db.quizzes, quizId),
                                   TakerService.HasTakerTakenQuiz(old(db.takerQuiz), takerId, quizId), takerId, quizId);
            (check.Some? ==> r == check.value && db.takerQuiz == old(db.takerQuiz)) &&
            (check.None? ==>
               db.takerQuiz == old(db.takerQuiz) + [TakerQuizRow(old(db.nextTakerQuizId), takerId, quizId)] &&
               r == ReadBack(TakerService.GetTakerWithQuizById(takerQuizzes(db.takers, db.takerQuiz, db.quizzes, takerId))))
    ensures db.Valid()
  {
    var taker := TakerService.GetTakerById(db.takers, takerId);
    var quiz := QuizService.GetQuizById(db.quizzes, quizId);
    var hasTakerTakenQuiz := TakerService.HasTakerTakenQuiz(db.takerQuiz, takerId, quizId);
    var check := LinkCheck(taker, quiz, hasTakerTakenQuiz, takerId, quizId);
    if check.Some? {
      r := check.value;
      return;
    }
    var _ := TakerService.LetTakerTakeQuiz(db, takerId, quizId);
    var takerWithQuiz := TakerService.GetTakerWithQuizById(takerQuizzes(db.takers, db.takerQuiz, db.quizzes, takerId));
    r := ReadBack(takerWithQuiz);
  }
}
