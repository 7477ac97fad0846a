/**
 * Services/QuizService.cs: the quiz service maps request bodies to quizzes,
 * calls the repository and maps what comes back to views, propagating null.
 */
module QuizService {
  import opened Common
  import opened Models
  import opened Store
  import opened Fold
  import opened QuizMappings
  import QuizRepository

  /** `CreateQuiz`: stores the quiz and answers its view with the new id. */
  method CreateQuiz(db: Database, quizToCreate: QuizCreationDto) returns (view: QuizDto)
    requires db.Valid()
    modifies db`quizzes, db`nextQuizId
    ensures db.Valid()
    ensures view == QuizDto(old(db.nextQuizId), quizToCreate.name, quizToCreate.description)
    ensures view.id > 0 && forall i :: 0 <= i < |old(db.quizzes)| ==> old(db.quizzes)[i].id != view.id
    ensures db.quizzes == old(db.quizzes) + [QuizRow(view.id, quizToCreate.name, quizToCreate.description)]
  {
    var quizModel := ToQuiz(quizToCreate);
    var id := QuizRepository.CreateQuiz(db, quizModel);
    quizModel := quizModel.(id := id);
    view := ToQuizDto(quizModel);
  }

  /** `GetAllQuizzes`: one view per quiz row, in table order. */
  function GetAllQuizzes(quizzes: seq<QuizRow>): (views: seq<QuizDto>)
    ensures |views| == |quizzes|
    ensures forall i :: 0 <= i < |views| ==> views[i] == QuizDto(quizzes[i].id, quizzes[i].name, quizzes[i].description)
  {
    Map(QuizRepository.GetAllQuiz(quizzes), ToQuizDto)
  }

  /** `GetAllQuizzesByTopicId`: the repository's quizzes mapped one-to-one, in order. */
  function GetAllQuizzesByTopicId(rows: seq<QuizRepository.QuizTopicRow>): (views: seq<QuizTopicDto>)
    ensures |views| == |QuizRepository.GetAllQuizByTopicId(rows)|
    ensures forall i :: 0 <= i < |views| ==>
              QuizRepository.GetAllQuizByTopicId(rows)[i].topics != [] &&
              views[i] == ToQuizTopicDto(QuizRepository.GetAllQuizByTopicId(rows)[i])
  {
    QuizRepository.GetAllQuizByTopicIdTopics(rows);
    ToQuizTopicDtos(QuizRepository.GetAllQuizByTopicId(rows))
  }

  /**
   * Each view of `GetAllQuizzesByTopicId` shows the quiz of the first row of
   * its quiz id and, as topic name, the topic of that same row.
   */
  lemma GetAllQuizzesByTopicIdViews(rows: seq<QuizRepository.QuizTopicRow>)
    ensures |GetAllQuizzesByTopicId(rows)| == |Keys(rows, QuizRepository.TopicRowKey)|
    ensures forall i :: 0 <= i < |GetAllQuizzesByTopicId(rows)| ==>
              var k := Keys(rows, QuizRepository.TopicRowKey)[i];
              0 <= IndexOfKey(rows, QuizRepository.TopicRowKey, k) &&
              var first := rows[IndexOfKey(rows, QuizRepository.TopicRowKey, k)];
              GetAllQuizzesByTopicId(rows)[i] ==
                QuizTopicDto(first.quiz.id, first.quiz.name, first.quiz.description, first.topic.name)
  {
    var ks := Keys(rows, QuizRepository.TopicRowKey);
    QuizRepository.GetAllQuizByTopicIdFold(rows);
    forall i | 0 <= i < |ks|
      ensures 0 <= IndexOfKey(rows, QuizRepository.TopicRowKey, ks[i]) &&
              var first := rows[IndexOfKey(rows, QuizRepository.TopicRowKey, ks[i])];
              GetAllQuizzesByTopicId(rows)[i] ==
                QuizTopicDto(first.quiz.id, first.quiz.name, first.quiz.description, first.topic.name)
    {
      var m := Matching(rows, QuizRepository.TopicRowKey, ks[i]);
      KeyListedIffIndexed(rows, QuizRepository.TopicRowKey, ks[i]);
      MatchingStartsAtFirst(rows, QuizRepository.TopicRowKey, ks[i]);
      DistinctByHead(Map(m, QuizRepository.TopicOfRow), QuizRepository.TopicId);
    }
  }

  /** `GetAllQuizzesByTakerId`: the repository's quizzes mapped one-to-one, in order. */
  function GetAllQuizzesByTakerId(rows: seq<QuizRepository.QuizTakerRow>): (views: seq<QuizTakerDto>)
    ensures |views| == |QuizRepository.GetAllQuizByTakerId(rows)|
    ensures forall i :: 0 <= i < |views| ==>
              QuizRepository.GetAllQuizByTakerId(rows)[i].takers != [] &&
              views[i] == ToQuizTakerDto(QuizRepository.GetAllQuizByTakerId(rows)[i])
  {
    QuizRepository.GetAllQuizByTakerIdFold(rows);
    ToQuizTakerDtos(QuizRepository.GetAllQuizByTakerId(rows))
  }

  /**
   * Each view of `GetAllQuizzesByTakerId` shows the quiz of the first row of
   * its quiz id and, as taker name, the taker of that same row.
   */
  lemma GetAllQuizzesByTakerIdViews(rows: seq<QuizRepository.QuizTakerRow>)
    ensures |GetAllQuizzesByTakerId(rows)| == |Keys(rows, QuizRepository.TakerRowKey)|
    ensures forall i :: 0 <= i < |GetAllQuizzesByTakerId(rows)| ==>
              var k := Keys(rows, QuizRepository.TakerRowKey)[i];
              0 <= IndexOfKey(rows, QuizRepository.TakerRowKey, k) &&
              var first := rows[IndexOfKey(rows, QuizRepository.TakerRowKey, k)];
              GetAllQuizzesByTakerId(rows)[i] ==
                QuizTakerDto(first.quiz.id, first.quiz.name, first.quiz.description, first.taker.name)
  {
    var ks := Keys(rows, QuizRepository.TakerRowKey);
    QuizRepository.GetAllQuizByTakerIdFold(rows);
    forall i | 0 <= i < |ks|
      ensures 0 <= IndexOfKey(rows, QuizRepository.TakerRowKey, ks[i]) &&
              var first := rows[IndexOfKey(rows, QuizRepository.TakerRowKey, ks[i])];
              GetAllQuizzesByTakerId(rows)[i] ==
                QuizTakerDto(first.quiz.id, first.quiz.name, first.quiz.description, first.taker.name)
    {
      var m := Matching(rows, QuizRepository.TakerRowKey, ks[i]);
      KeyListedIffIndexed(rows, QuizRepository.TakerRowKey, ks[i]);
      MatchingStartsAtFirst(rows, QuizRepository.TakerRowKey, ks[i]);
      DistinctByHead(Map(m, QuizRepository.TakerOfRow), QuizRepository.TakerId);
    }
  }

  /** `GetQuizById`: null exactly when no quiz row has the id; otherwise that row's view. */
  function GetQuizById(quizzes: seq<QuizRow>, id: int): (r: Lookup<QuizDto>)
    ensures r.Null? <==> QuizRepository.GetQuiz(quizzes, id).Null?
    ensures r.Null? <==> forall i :: 0 <= i < |quizzes| ==> quizzes[i].id != id
    ensures r.Throws? <==> QuizRepository.GetQuiz(quizzes, id).Throws?
    ensures r.Found? ==> r.value.id == id && QuizRow(id, r.value.name, r.value.description) in quizzes
  {
    MapLookup(QuizRepository.GetQuiz(quizzes, id), ToQuizDto)
  }

  /**
   * `GetQuizByIdWithTopics`: null exactly when the query has no rows;
   * otherwise the first row's quiz with every row's topic.
   */
  function GetQuizByIdWithTopics(rows: seq<QuizRepository.QuizTopicRow>): (r: Lookup<QuizTopicsDto>)
    ensures r.Null? <==> rows == []
    ensures MixedKeys(rows, QuizRepository.TopicRowKey) ==> r.Throws?
    ensures SingleKeyed(rows, QuizRepository.TopicRowKey) ==>
              r == Found(QuizTopicsDto(rows[0].quiz.id, rows[0].quiz.name, rows[0].quiz.description,
                                       Map(rows, QuizRepository.TopicOfRow)))
  {
    QuizRepository.GetQuizByIdWithTopicsFold(rows);
    MapLookup(QuizRepository.GetQuizByIdWithTopics(rows), ToQuizTopicsDto)
  }

  /**
   * `GetQuizByIdWithTakers`: null exactly when the query has no rows;
   * otherwise the first row's quiz with one taker per distinct taker id.
   */
  function GetQuizByIdWithTakers(rows: seq<QuizRepository.QuizTakerRow>): (r: Lookup<QuizTakersDto>)
    ensures r.Null? <==> rows == []
    ensures MixedKeys(rows, QuizRepository.TakerRowKey) ==> r.Throws?
    ensures SingleKeyed(rows, QuizRepository.TakerRowKey) ==>
              r == Found(QuizTakersDto(rows[0].quiz.id, rows[0].quiz.name, rows[0].quiz.description,
                                       DistinctBy(Map(rows, QuizRepository.TakerOfRow), QuizRepository.TakerId)))
    ensures r.Found? ==> forall i, j :: 0 <= i < j < |r.value.takers| ==> r.value.takers[i].id != r.value.takers[j].id
  {
    QuizRepository.GetQuizWithTakersFold(rows);
    MapLookup(QuizRepository.GetQuizWithTakers(rows), ToQuizTakersDto)
  }

  /**
   * `GetQuizByIdWithQuizResults`: null exactly when the query has no rows;
   * otherwise the first row's quiz with one result per distinct result id.
   */
  function GetQuizByIdWithQuizResults(rows: seq<QuizRepository.QuizResultJoinRow>): (r: Lookup<QuizQuizResultDto>)
    ensures r.Null? <==> rows == []
    ensures MixedKeys(rows, QuizRepository.ResultRowKey) ==> r.Throws?
    ensures SingleKeyed(rows, QuizRepository.ResultRowKey) ==>
              r == Found(QuizQuizResultDto(rows[0].quiz.id, rows[0].quiz.name, rows[0].quiz.description,
                                           DistinctBy(Map(rows, QuizRepository.ResultOfRow), QuizRepository.ResultId)))
    ensures r.Found? ==>
              forall i, j :: 0 <= i < j < |r.value.quizResults| ==> r.value.quizResults[i].id != r.value.quizResults[j].id
  {
    QuizRepository.GetQuizWithQuizResultsFold(rows);
    MapLookup(QuizRepository.GetQuizWithQuizResults(rows), ToQuizQuizResultDto)
  }

  /**
   * `UpdateQuiz`: updates the quiz with that id and the quiz name of its
   * results, and answers the request's fields under that id whatever the
   * repository reported.
   */
  method UpdateQuiz(db: Database, id: int, quizToUpdate: QuizCreationDto) returns (view: QuizDto)
    requires db.Valid()
    modifies db`quizzes, db`quizResults
    ensures db.Valid()
    ensures view == QuizDto(id, quizToUpdate.name, quizToUpdate.description)
    ensures |db.quizzes| == |old(db.quizzes)|
    ensures forall i :: 0 <= i < |db.quizzes| ==>
              db.quizzes[i] == if old(db.quizzes)[i].id == id
                               then QuizRow(id, quizToUpdate.name, quizToUpdate.description)
                               else old(db.quizzes)[i]
    ensures |db.quizResults| == |old(db.quizResults)|
    ensures forall i :: 0 <= i < |db.quizResults| ==>
              db.quizResults[i] == if old(db.quizResults)[i].quizId == id
                                   then old(db.quizResults)[i].(quizName := quizToUpdate.name)
                                   else old(db.quizResults)[i]
  {
    var quizModel := ToQuiz(quizToUpdate);
    quizModel := quizModel.(id := id);
    var _ := QuizRepository.UpdateQuiz(db, quizModel);
    view := ToQuizDto(quizModel);
  }

  /** `DeleteQuiz`: the repository's delete and its answer, passed through. */
  method DeleteQuiz(db: Database, id: int) returns (removed: bool)
    requires db.Valid()
    modifies db`quizzes, db`takerQuiz
    ensures db.Valid()
    ensures db.quizzes == Without(old(db.quizzes), QuizRowId, id)
    ensures db.takerQuiz == Without(old(db.takerQuiz), TakerQuizQuizId, id)
    ensures removed <==> (exists i :: 0 <= i < |old(db.quizzes)| && old(db.quizzes)[i].id == id) ||
                         (exists i :: 0 <= i < |old(db.takerQuiz)| && old(db.takerQuiz)[i].quizId == id)
  {
    removed := QuizRepository.DeleteQuiz(db, id);
  }

  /** `CheckQuizById`: the repository's existence check, passed through. */
  function CheckQuizById(quizzes: seq<QuizRow>, id: int): (b: bool)
    ensures b == QuizRepository.CheckQuizId(quizzes, id)
    ensures b <==> id != 0 && exists i :: 0 <= i < |quizzes| && quizzes[i].id == id
  {
    QuizRepository.CheckQuizId(quizzes, id)
  }
}
