/**
 * Controllers/QuizController.cs: the `api/quizzes` endpoints. Each read is a
 * function of the tables and of the rows its stored procedures return, each
 * write a method on the database; an exception from a call below becomes the
 * catch block's 500.
 */
module QuizController {
  import opened Common
  import opened Models
  import opened Store
  import opened Fold
  import opened Responses
  import QuizRepository
  import TopicRepository
  import TakerRepository
  import QuizService
  import TopicService
  import TakerService

  /** What `GET api/quizzes` lists: every quiz, the quizzes of a topic, or those of a taker. */
  datatype QuizListing =
    | AllQuizzes(quizzes: seq<QuizDto>)
    | ByTopic(withTopic: seq<QuizTopicDto>)
    | ByTaker(withTaker: seq<QuizTakerDto>)

  /** The number of entries a listing holds. */
  function ListingSize(l: QuizListing): nat
  {
    match l
    case AllQuizzes(qs) => |qs|
    case ByTopic(qs) => |qs|
    case ByTaker(qs) => |qs|
  }

  /** What `GET api/quizzes/{id}` shows: the quiz with its topics, or the quiz alone. */
  datatype QuizView = WithTopics(withTopics: QuizTopicsDto) | Plain(plain: QuizDto)

  /** In a valid Quizzes table, looking a stored quiz up by its id answers that quiz's view. */
  lemma FindsStoredQuiz(quizzes: seq<QuizRow>, next: int, row: QuizRow)
    requires Identity(quizzes, QuizRowId, next) && row in quizzes
    ensures QuizService.GetQuizById(quizzes, row.id) == Found(QuizDto(row.id, row.name, row.description))
  {
    var i :| 0 <= i < |quizzes| && quizzes[i] == row;
    QuizRepository.GetQuizNeverThrows(quizzes, next, row.id);
    var v := QuizService.GetQuizById(quizzes, row.id).value;
    IdentityUnique(quizzes, QuizRowId, next, QuizRow(row.id, v.name, v.description), row);
  }

  /** `CreateQuiz`: 201 with the new quiz, which the route it names (`GetQuizById`) then finds. */
  method CreateQuiz(db: Database, quiz: QuizCreationDto) returns (r: Response<QuizDto>)
    requires db.Valid()
    modifies db`quizzes, db`nextQuizId
    ensures db.Valid()
    ensures r == Created(QuizDto(old(db.nextQuizId), quiz.name, quiz.description))
    ensures db.quizzes == old(db.quizzes) + [QuizRow(r.body.id, quiz.name, quiz.description)]
    ensures QuizService.GetQuizById(db.quizzes, r.body.id) == Found(r.body)
  {
    var newQuiz := QuizService.CreateQuiz(db, quiz);
    assert db.quizzes[|db.quizzes| - 1] == QuizRow(newQuiz.id, quiz.name, quiz.description);
    FindsStoredQuiz(db.quizzes, db.nextQuizId, QuizRow(newQuiz.id, quiz.name, quiz.description));
    r := Created(newQuiz);
  }

  /**
   * `GetAllQuizzes`: 400 when both filters are given; 404 for a filter that
   * names a missing topic or taker; 204 when there are no quizzes at all; 404
   * when the named topic or taker has no quiz; else 200 with the filtered
   * listing, or every quiz when no filter names an existing entity.
   */
  function GetAllQuizzes(topicId: int, takerId: int, quizzes: seq<QuizRow>, topics: seq<TopicRow>, takers: seq<TakerRow>,
                         topicRows: seq<QuizRepository.QuizTopicRow>, takerRows: seq<QuizRepository.QuizTakerRow>)
    : (r: Response<QuizListing>)
    ensures r == BadRequest(BothFiltersGiven) <==> topicId != 0 && takerId != 0
    ensures r.ServerError? <==>
              !(topicId != 0 && takerId != 0) &&
              (TopicRepository.GetTopic(topics, topicId).Throws? || TakerRepository.GetTaker(takers, takerId).Throws?)
    ensures r == NotFound(TopicNotFound(topicId)) ==>
              topicId != 0 && forall i :: 0 <= i < |topics| ==> topics[i].id != topicId
    ensures topicId != 0 && takerId == 0 && !TakerRepository.GetTaker(takers, 0).Throws? &&
            (forall i :: 0 <= i < |topics| ==> topics[i].id != topicId) ==>
              r == NotFound(TopicNotFound(topicId))
    ensures r == NotFound(TakerNotFound(takerId)) ==>
              takerId != 0 && forall i :: 0 <= i < |takers| ==> takers[i].id != takerId
    ensures takerId != 0 && topicId == 0 && !TopicRepository.GetTopic(topics, 0).Throws? &&
            (forall i :: 0 <= i < |takers| ==> takers[i].id != takerId) ==>
              r == NotFound(TakerNotFound(takerId))
    ensures r.NoContent? ==> quizzes == []
    ensures quizzes == [] ==>
              r.BadRequest? || r.ServerError? || r == NotFound(TopicNotFound(topicId)) ||
              r == NotFound(TakerNotFound(takerId)) || r.NoContent?
    ensures r == NotFound(TopicHasNoQuizzes) ==>
              quizzes != [] && QuizService.GetAllQuizzesByTopicId(topicRows) == [] &&
              exists i :: 0 <= i < |topics| && topics[i].id == topicId
    ensures r == NotFound(TakerHasNoQuizzes) ==>
              quizzes != [] && QuizService.GetAllQuizzesByTakerId(takerRows) == [] &&
              exists i :: 0 <= i < |takers| && takers[i].id == takerId
    ensures r.Ok? ==> ListingSize(r.body) > 0
    ensures r.Ok? && r.body.ByTopic? ==>
              r.body.withTopic == QuizService.GetAllQuizzesByTopicId(topicRows) &&
              exists i :: 0 <= i < |topics| && topics[i].id == topicId
    ensures r.Ok? && r.body.ByTaker? ==>
              r.body.withTaker == QuizService.GetAllQuizzesByTakerId(takerRows) &&
              exists i :: 0 <= i < |takers| && takers[i].id == takerId
    ensures r.Ok? && r.body.AllQuizzes? ==>
              r.body.quizzes == QuizService.GetAllQuizzes(quizzes) &&
              (forall i :: 0 <= i < |topics| ==> topics[i].id != topicId) &&
              (forall i :: 0 <= i < |takers| ==> takers[i].id != takerId)
    ensures r.BadRequest? ==> r.reason == BothFiltersGiven
    ensures r.NotFound? ==>
              r.reason == TopicNotFound(topicId) || r.reason == TakerNotFound(takerId) ||
              r.reason == TopicHasNoQuizzes || r.reason == TakerHasNoQuizzes
    ensures topicId == 0 && takerId == 0 && quizzes != [] &&
            TopicService.GetTopicById(topics, 0).Null? && TakerService.GetTakerById(takers, 0).Null? ==>
              r == Ok(AllQuizzes(QuizService.GetAllQuizzes(quizzes)))
  {
    if topicId != 0 && takerId != 0 then BadRequest(BothFiltersGiven)
    else
      var all := QuizService.GetAllQuizzes(quizzes);
      var topic := TopicService.GetTopicById(topics, topicId);
      var taker := TakerService.GetTakerById(takers, takerId);
      var quizWithTopic := QuizService.GetAllQuizzesByTopicId(topicRows);
      var quizWithTaker := QuizService.GetAllQuizzesByTakerId(takerRows);
      if topic.Throws? || taker.Throws? then ServerError
      else if topic.Null? && topicId != 0 then NotFound(TopicNotFound(topicId))
      else if taker.Null? && takerId != 0 then NotFound(TakerNotFound(takerId))
      else if (topicId == 0 && all == []) || (takerId == 0 && all == []) then NoContent
      else if topic.Found? && quizWithTopic == [] then NotFound(TopicHasNoQuizzes)
      else if taker.Found? && quizWithTaker == [] then NotFound(TakerHasNoQuizzes)
      else if topic.Found? then Ok(ByTopic(quizWithTopic))
      else if taker.Found? then Ok(ByTaker(quizWithTaker))
      else assert topicId == 0 && all != []; Ok(AllQuizzes(all))
  }

  /** Over tables with identity keys no lookup of `GetAllQuizzes` throws, so it never answers 500. */
  lemma GetAllQuizzesNeverFails(topicId: int, takerId: int, quizzes: seq<QuizRow>, topics: seq<TopicRow>, nextTopic: int,
                                takers: seq<TakerRow>, nextTaker: int,
                                topicRows: seq<QuizRepository.QuizTopicRow>, takerRows: seq<QuizRepository.QuizTakerRow>)
    requires Identity(topics, TopicRowId, nextTopic) && Identity(takers, TakerRowId, nextTaker)
    ensures !GetAllQuizzes(topicId, takerId, quizzes, topics, takers, topicRows, takerRows).ServerError?
  {
    TopicRepository.GetTopicNeverThrows(topics, nextTopic, topicId);
    TakerRepository.GetTakerNeverThrows(takers, nextTaker, takerId);
  }

  /**
   * Filtering by an existing topic over the join of Quizzes and Topics:
   * with quizzes stored, the answer is 200 with exactly one entry, the
   * topic's own quiz under the topic's name, or 404 "not associated" when the
   * topic's quiz is no longer in the table.
   */
  lemma GetAllQuizzesOfTopic(topicId: int, quizzes: seq<QuizRow>, topics: seq<TopicRow>, nextTopic: int,
                             takers: seq<TakerRow>, nextTaker: int,
                             topicRows: seq<QuizRepository.QuizTopicRow>, takerRows: seq<QuizRepository.QuizTakerRow>)
    requires Identity(topics, TopicRowId, nextTopic) && Identity(takers, TakerRowId, nextTaker)
    requires QuizRepository.JoinedOnTopic(topicRows, quizzes, topics, topicId)
    requires topicId != 0 && quizzes != []
    requires exists i :: 0 <= i < |topics| && topics[i].id == topicId
    ensures var r := GetAllQuizzes(topicId, 0, quizzes, topics, takers, topicRows, takerRows);
            (r == NotFound(TopicHasNoQuizzes) || (r.Ok? && r.body.ByTopic?)) &&
            (r == NotFound(TopicHasNoQuizzes) <==>
               !exists q, tp :: q in quizzes && tp in topics && tp.id == topicId && tp.quizId == q.id) &&
            (r.Ok? ==> |r.body.withTopic| == 1 &&
                       exists tp :: tp in topics && tp.id == topicId &&
                         r.body.withTopic[0].id == tp.quizId && r.body.withTopic[0].topicName == tp.name) &&
            (r.Ok? ==> exists q, tp :: q in quizzes && tp in topics && tp.id == topicId && q.id == tp.quizId &&
                         r.body.withTopic == [QuizTopicDto(q.id, q.name, q.description, tp.name)])
  {
    TopicRepository.GetTopicNeverThrows(topics, nextTopic, topicId);
    TakerRepository.GetTakerNeverThrows(takers, nextTaker, 0);
    IdentityMeans(takers, TakerRowId, nextTaker);
    GetAllQuizzesOfFoundTopic(topicId, quizzes, topics, takers, topicRows, takerRows);
    QuizRepository.GetAllQuizByTopicIdJoined(topicRows, quizzes, topics, nextTopic, topicId);
    var repo := QuizRepository.GetAllQuizByTopicId(topicRows);
    var views := QuizService.GetAllQuizzesByTopicId(topicRows);
    if |repo| == 1 {
      var q, tp :| q in quizzes && tp in topics && tp.id == topicId && q.id == tp.quizId &&
                   repo == [QuizRepository.QuizOf(q).(topics := [TopicDto(tp.id, tp.name)])];
      TopicViewOfOneQuiz(topicRows, q, tp);
    }
  }

  /** A topic listing that holds one quiz with one topic shows that quiz under the topic's name. */
  lemma TopicViewOfOneQuiz(topicRows: seq<QuizRepository.QuizTopicRow>, q: QuizRow, tp: TopicRow)
    requires QuizRepository.GetAllQuizByTopicId(topicRows) == [QuizRepository.QuizOf(q).(topics := [TopicDto(tp.id, tp.name)])]
    ensures QuizService.GetAllQuizzesByTopicId(topicRows) == [QuizTopicDto(q.id, q.name, q.description, tp.name)]
  {
    var views := QuizService.GetAllQuizzesByTopicId(topicRows);
    assert views[0] == QuizTopicDto(q.id, q.name, q.description, tp.name);
  }

  /** With the topic found and no taker filter, the answer depends only on the topic's listing. */
  lemma GetAllQuizzesOfFoundTopic(topicId: int, quizzes: seq<QuizRow>, topics: seq<TopicRow>, takers: seq<TakerRow>,
                                  topicRows: seq<QuizRepository.QuizTopicRow>, takerRows: seq<QuizRepository.QuizTakerRow>)
    requires topicId != 0 && quizzes != []
    requires TopicService.GetTopicById(topics, topicId).Found? && TakerService.GetTakerById(takers, 0).Null?
    ensures GetAllQuizzes(topicId, 0, quizzes, topics, takers, topicRows, takerRows) ==
              if QuizService.GetAllQuizzesByTopicId(topicRows) == [] then NotFound(TopicHasNoQuizzes)
              else Ok(ByTopic(QuizService.GetAllQuizzesByTopicId(topicRows)))
  {
    assert QuizService.GetAllQuizzes(quizzes) != [];
  }

  /** With the taker found and no topic filter, the answer depends only on the taker's listing. */
  lemma GetAllQuizzesOfFoundTaker(takerId: int, quizzes: seq<QuizRow>, topics: seq<TopicRow>, takers: seq<TakerRow>,
                                  topicRows: seq<QuizRepository.QuizTopicRow>, takerRows: seq<QuizRepository.QuizTakerRow>)
    requires takerId != 0 && quizzes != []
    requires TakerService.GetTakerById(takers, takerId).Found? && TopicService.GetTopicById(topics, 0).Null?
    ensures GetAllQuizzes(0, takerId, quizzes, topics, takers, topicRows, takerRows) ==
              if QuizService.GetAllQuizzesByTakerId(takerRows) == [] then NotFound(TakerHasNoQuizzes)
              else Ok(ByTaker(QuizService.GetAllQuizzesByTakerId(takerRows)))
  {
    assert QuizService.GetAllQuizzes(quizzes) != [];
  }

  /**
   * Filtering by an existing taker over tables with identity keys: with
   * quizzes stored, the answer is 200 with the taker's quizzes, or 404 "not
   * associated" exactly when the taker's listing is empty.
   */
  lemma GetAllQuizzesOfTaker(takerId: int, quizzes: seq<QuizRow>, topics: seq<TopicRow>, nextTopic: int,
                             takers: seq<TakerRow>, nextTaker: int,
                             topicRows: seq<QuizRepository.QuizTopicRow>, takerRows: seq<QuizRepository.QuizTakerRow>)
    requires Identity(topics, TopicRowId, nextTopic) && Identity(takers, TakerRowId, nextTaker)
    requires quizzes != [] && exists i :: 0 <= i < |takers| && takers[i].id == takerId
    ensures GetAllQuizzes(0, takerId, quizzes, topics, takers, topicRows, takerRows) ==
              if QuizService.GetAllQuizzesByTakerId(takerRows) == [] then NotFound(TakerHasNoQuizzes)
              else Ok(ByTaker(QuizService.GetAllQuizzesByTakerId(takerRows)))
  {
    TopicRepository.GetTopicNeverThrows(topics, nextTopic, 0);
    TakerRepository.GetTakerNeverThrows(takers, nextTaker, takerId);
    IdentityMeans(topics, TopicRowId, nextTopic);
    IdentityMeans(takers, TakerRowId, nextTaker);
    GetAllQuizzesOfFoundTaker(takerId, quizzes, topics, takers, topicRows, takerRows);
  }

  /**
   * Without filters, over tables with identity keys (so no topic or taker
   * has id 0): 204 exactly when there are no quizzes, else 200 with every quiz.
   */
  lemma GetAllQuizzesUnfiltered(quizzes: seq<QuizRow>, topics: seq<TopicRow>, nextTopic: int,
                                takers: seq<TakerRow>, nextTaker: int,
                                topicRows: seq<QuizRepository.QuizTopicRow>, takerRows: seq<QuizRepository.QuizTakerRow>)
    requires Identity(topics, TopicRowId, nextTopic) && Identity(takers, TakerRowId, nextTaker)
    ensures GetAllQuizzes(0, 0, quizzes, topics, takers, topicRows, takerRows) ==
              if quizzes == [] then NoContent else Ok(AllQuizzes(QuizService.GetAllQuizzes(quizzes)))
  {
    TopicRepository.GetTopicNeverThrows(topics, nextTopic, 0);
    TakerRepository.GetTakerNeverThrows(takers, nextTaker, 0);
    IdentityMeans(topics, TopicRowId, nextTopic);
    IdentityMeans(takers, TakerRowId, nextTaker);
  }

  /**
   * `GetQuiz`: 404 when neither the quiz nor a quiz/topic row exists; 200
   * with the quiz and its topics when there are rows, else with the quiz
   * alone; 500 when a read threw.
   */
  function GetQuiz(id: int, quizzes: seq<QuizRow>, topicRows: seq<QuizRepository.QuizTopicRow>): (r: Response<QuizView>)
    ensures r.ServerError? <==>
              QuizService.GetQuizById(quizzes, id).Throws? || MixedKeys(topicRows, QuizRepository.TopicRowKey)
    ensures r.NotFound? <==> topicRows == [] && forall i :: 0 <= i < |quizzes| ==> quizzes[i].id != id
    ensures r.NotFound? ==> r.reason == QuizNotFound(id)
    ensures r.Ok? && r.body.WithTopics? ==>
              SingleKeyed(topicRows, QuizRepository.TopicRowKey) &&
              r.body.withTopics == QuizTopicsDto(topicRows[0].quiz.id, topicRows[0].quiz.name, topicRows[0].quiz.description,
                                                 Map(topicRows, QuizRepository.TopicOfRow))
    ensures r.Ok? && r.body.Plain? ==>
              topicRows == [] && r.body.plain.id == id && QuizRow(id, r.body.plain.name, r.body.plain.description) in quizzes
    ensures r.Ok? || r.NotFound? || r.ServerError?
  {
    var quiz := QuizService.GetQuizById(quizzes, id);
    var quizWithTopics := QuizService.GetQuizByIdWithTopics(topicRows);
    KeysTrichotomy(topicRows, QuizRepository.TopicRowKey);
    if quiz.Throws? || quizWithTopics.Throws? then ServerError
    else if quiz.Null? && quizWithTopics.Null? then NotFound(QuizNotFound(id))
    else if quizWithTopics.Found? then Ok(WithTopics(quizWithTopics.value))
    else Ok(Plain(quiz.value))
  }

  /** Over a valid Quizzes table the quiz read never throws: a stored quiz without topics is shown alone. */
  lemma GetQuizWithoutTopics(id: int, quizzes: seq<QuizRow>, next: int, row: QuizRow)
    requires Identity(quizzes, QuizRowId, next) && row in quizzes && row.id == id
    ensures GetQuiz(id, quizzes, []) == Ok(Plain(QuizDto(id, row.name, row.description)))
  {
    FindsStoredQuiz(quizzes, next, row);
  }

  /**
   * `GetQuizByIdWithTakers`: 404 when the quiz is missing and there are no
   * rows; 204 when it exists without takers; 200 with its distinct takers.
   */
  function GetQuizByIdWithTakers(id: int, quizzes: seq<QuizRow>, rows: seq<QuizRepository.QuizTakerRow>)
    : (r: Response<QuizTakersDto>)
    ensures r.ServerError? <==> MixedKeys(rows, QuizRepository.TakerRowKey)
    ensures r.NotFound? <==> rows == [] && !(id != 0 && exists i :: 0 <= i < |quizzes| && quizzes[i].id == id)
    ensures r.NotFound? ==> r.reason == QuizNotFound(id)
    ensures r.NoContent? <==> rows == [] && id != 0 && exists i :: 0 <= i < |quizzes| && quizzes[i].id == id
    ensures r.Ok? <==> SingleKeyed(rows, QuizRepository.TakerRowKey)
    ensures r.Ok? ==>
              r.body == QuizTakersDto(rows[0].quiz.id, rows[0].quiz.name, rows[0].quiz.description,
                              DistinctBy(Map(rows, QuizRepository.TakerOfRow), QuizRepository.TakerId)) &&
              forall i, j :: 0 <= i < j < |r.body.takers| ==> r.body.takers[i].id != r.body.takers[j].id
  {
    var quiz := QuizService.GetQuizByIdWithTakers(rows);
    var checker := QuizService.CheckQuizById(quizzes, id);
    KeysTrichotomy(rows, QuizRepository.TakerRowKey);
    SubResource(checker, quiz, QuizNotFound(id))
  }

  /**
   * `GetQuizByIdWithQuizResults`: 404 when the quiz is missing and there are
   * no rows; 204 when it exists without results; 200 with its distinct results.
   */
  function GetQuizByIdWithQuizResults(id: int, quizzes: seq<QuizRow>, rows: seq<QuizRepository.QuizResultJoinRow>)
    : (r: Response<QuizQuizResultDto>)
    ensures r.ServerError? <==> MixedKeys(rows, QuizRepository.ResultRowKey)
    ensures r.NotFound? <==> rows == [] && !(id != 0 && exists i :: 0 <= i < |quizzes| && quizzes[i].id == id)
    ensures r.NotFound? ==> r.reason == QuizNotFound(id)
    ensures r.NoContent? <==> rows == [] && id != 0 && exists i :: 0 <= i < |quizzes| && quizzes[i].id == id
    ensures r.Ok? <==> SingleKeyed(rows, QuizRepository.ResultRowKey)
    ensures r.Ok? ==>
              r.body == QuizQuizResultDto(rows[0].quiz.id, rows[0].quiz.name, rows[0].quiz.description,
                              DistinctBy(Map(rows, QuizRepository.ResultOfRow), QuizRepository.ResultId)) &&
              forall i, j :: 0 <= i < j < |r.body.quizResults| ==> r.body.quizResults[i].id != r.body.quizResults[j].id
  {
    var quiz := QuizService.GetQuizByIdWithQuizResults(rows);
    var checker := QuizService.CheckQuizById(quizzes, id);
    KeysTrichotomy(rows, QuizRepository.ResultRowKey);
    SubResource(checker, quiz, QuizNotFound(id))
  }

  /**
   * `UpdateQuiz`: 404 and no change when no quiz has the id; otherwise the
   * quiz and the quiz name of its results are updated and the answer is 200
   * with the new quiz, which a read by id then finds.
   */
  method UpdateQuiz(db: Database, id: int, quiz: QuizCreationDto) returns (r: Response<QuizDto>)
    requires db.Valid()
    modifies db`quizzes, db`quizResults
    ensures db.Valid()
    ensures r.NotFound? <==> forall i :: 0 <= i < |old(db.quizzes)| ==> old(db.quizzes)[i].id != id
    ensures r.NotFound? || r.Ok?
    ensures r.NotFound? ==>
              r.reason == QuizNotFound(id) && db.quizzes == old(db.quizzes) && db.quizResults == old(db.quizResults)
    ensures r.Ok? ==>
              r.body == QuizDto(id, quiz.name, quiz.description) &&
              QuizService.GetQuizById(db.quizzes, id) == Found(r.body)
    ensures r.Ok? ==>
              |db.quizzes| == |old(db.quizzes)| &&
              (forall i :: 0 <= i < |db.quizzes| ==>
                 db.quizzes[i] == if old(db.quizzes)[i].id == id then QuizRow(id, quiz.name, quiz.description) else old(db.quizzes)[i]) &&
              |db.quizResults| == |old(db.quizResults)| &&
              (forall i :: 0 <= i < |db.quizResults| ==>
                 db.quizResults[i] == if old(db.quizResults)[i].quizId == id
                                      then old(db.quizResults)[i].(quizName := quiz.name)
                                      else old(db.quizResults)[i])
  {
    QuizRepository.CheckQuizIdExact(db.quizzes, db.nextQuizId, id);
    var doesQuizExist := QuizService.CheckQuizById(db.quizzes, id);
    if !doesQuizExist {
      r := NotFound(QuizNotFound(id));
      return;
    }
    ghost var k :| 0 <= k < |db.quizzes| && db.quizzes[k].id == id;
    var updatedQuiz := QuizService.UpdateQuiz(db, id, quiz);
    FindsStoredQuiz(db.quizzes, db.nextQuizId, db.quizzes[k]);
    r := Ok(updatedQuiz);
  }

  /**
   * `DeleteQuiz`: 404 and no change when no quiz has the id; otherwise the
   * quiz and its taker links are removed, after which a read by id finds
   * nothing.
   */
  method DeleteQuiz(db: Database, id: int) returns (r: Response<Confirmation>)
    requires db.Valid()
    modifies db`quizzes, db`takerQuiz
    ensures db.Valid()
    ensures r.NotFound? <==> forall i :: 0 <= i < |old(db.quizzes)| ==> old(db.quizzes)[i].id != id
    ensures r.NotFound? || r == Ok(DeleteSuccessful)
    ensures r.NotFound? ==> r.reason == QuizNotFound(id) && db.quizzes == old(db.quizzes) && db.takerQuiz == old(db.takerQuiz)
    ensures r.Ok? ==>
              db.quizzes == Without(old(db.quizzes), QuizRowId, id) &&
              db.takerQuiz == Without(old(db.takerQuiz), TakerQuizQuizId, id) &&
              QuizService.GetQuizById(db.quizzes, id).Null? && !QuizService.CheckQuizById(db.quizzes, id)
  {
    QuizRepository.CheckQuizIdExact(db.quizzes, db.nextQuizId, id);
    var doesQuizExist := QuizService.CheckQuizById(db.quizzes, id);
    if !doesQuizExist {
      r := NotFound(QuizNotFound(id));
      return;
    }
    var _ := QuizService.DeleteQuiz(db, id);
    r := Ok(DeleteSuccessful);
  }
}
