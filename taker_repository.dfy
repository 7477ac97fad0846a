/**
 * Repositories/TakerRepository.cs: taker reads (plain and with quizzes,
 * results or answers), taker writes, and the TakerQuiz link set.
 *
 * Every with-relations read here comes from a stored procedure whose text is
 * not visible, so its rows are a parameter. Unlike the quiz folds, these
 * folds keep duplicate children.
 */
module TakerRepository {
  import opened Common
  import opened Models
  import opened Store
  import opened Fold

  // ---------------------------------------------------------------------------
  // Rows of the with-relations procedures

  datatype TakerQuizJoinRow = TakerQuizJoinRow(taker: TakerRow, quiz: QuizDto)
  datatype TakerResultJoinRow = TakerResultJoinRow(taker: TakerRow, quiz: QuizDto, result: QuizResultsForTakerDto)
  datatype TakerAnswerJoinRow = TakerAnswerJoinRow(taker: TakerRow, question: Problem, answer: TakerAnswer)

  /** The taker Dapper materialises from the taker columns: relation lists empty. */
  function TakerOf(r: TakerRow): Taker
  {
    Taker(r.id, r.name, r.address, r.email, [], [], [])
  }

  /** `MapTakerQuiz`: the per-row callback that adds the row's quiz to the row's taker. */
  function MapTakerQuiz(taker: Taker, quiz: QuizDto): Taker
  {
    taker.(quizzes := taker.quizzes + [quiz])
  }

  /** The callback of `GetTakerWithQuizResult`: adds the row's quiz and the row's result. */
  function MapTakerQuizResult(taker: Taker, quiz: QuizDto, result: QuizResultsForTakerDto): Taker
  {
    taker.(quizzes := taker.quizzes + [quiz], quizResults := taker.quizResults + [result])
  }

  /** The callback of `GetTakerAnswers`: the answer takes the question's text, then is added. */
  function MapTakerAnswer(taker: Taker, question: Problem, answer: TakerAnswer): Taker
  {
    taker.(takerAnswers := taker.takerAnswers + [answer.(question := question.question)])
  }

  // Keys, children and per-row mappings, as function values for the fold.
  function TakerId(t: Taker): int { t.id }
  function QuizzesOf(t: Taker): seq<QuizDto> { t.quizzes }
  function ResultsOf(t: Taker): seq<QuizResultsForTakerDto> { t.quizResults }
  function AnswersOf(t: Taker): seq<TakerAnswer> { t.takerAnswers }

  function QuizRowTaker(r: TakerQuizJoinRow): Taker { MapTakerQuiz(TakerOf(r.taker), r.quiz) }
  function QuizRowKey(r: TakerQuizJoinRow): int { r.taker.id }
  function QuizOfRow(r: TakerQuizJoinRow): QuizDto { r.quiz }

  function ResultRowTaker(r: TakerResultJoinRow): Taker { MapTakerQuizResult(TakerOf(r.taker), r.quiz, r.result) }
  function ResultRowKey(r: TakerResultJoinRow): int { r.taker.id }
  function QuizOfResultRow(r: TakerResultJoinRow): QuizDto { r.quiz }
  function ResultOfRow(r: TakerResultJoinRow): QuizResultsForTakerDto { r.result }

  function AnswerRowTaker(r: TakerAnswerJoinRow): Taker { MapTakerAnswer(TakerOf(r.taker), r.question, r.answer) }
  function AnswerRowKey(r: TakerAnswerJoinRow): int { r.taker.id }
  function AnswerOfRow(r: TakerAnswerJoinRow): TakerAnswer { r.answer.(question := r.question.question) }

  // The group selectors: the first taker of a group with the group's children.
  function MergeQuizzes(first: Taker, group: seq<Taker>): Taker
  {
    first.(quizzes := SelectMany(group, QuizzesOf))
  }

  function MergeQuizzesAndResults(first: Taker, group: seq<Taker>): Taker
  {
    first.(quizzes := SelectMany(group, QuizzesOf), quizResults := SelectMany(group, ResultsOf))
  }

  function MergeAnswers(first: Taker, group: seq<Taker>): Taker
  {
    first.(takerAnswers := SelectMany(group, AnswersOf))
  }

  // ---------------------------------------------------------------------------
  // Reads

  /** `GetAll`: the taker/quiz fold over the rows of `spTaker_GetAllTakers`. */
  function GetAll(rows: seq<TakerQuizJoinRow>): seq<Taker>
  {
    FoldGroups(Map(rows, QuizRowTaker), TakerId, MergeQuizzes)
  }

  /** `GetAllByQuizId`: the same fold over the rows of `spTaker_GetAllByQuizId`. */
  function GetAllByQuizId(rows: seq<TakerQuizJoinRow>): seq<Taker>
  {
    GetAll(rows)
  }

  /**
   * One taker per distinct taker id of the rows, in first-seen order; each
   * is the taker of its first row with the quizzes of all its rows in row
   * order, duplicates kept, so it lists exactly as many quizzes as it has rows.
   */
  lemma GetAllFold(rows: seq<TakerQuizJoinRow>)
    ensures |GetAll(rows)| == |Keys(rows, QuizRowKey)|
    ensures forall i :: 0 <= i < |Keys(rows, QuizRowKey)| ==>
              var k := Keys(rows, QuizRowKey)[i];
              0 <= IndexOfKey(rows, QuizRowKey, k) &&
              GetAll(rows)[i] ==
                TakerOf(rows[IndexOfKey(rows, QuizRowKey, k)].taker).(quizzes := Map(Matching(rows, QuizRowKey, k), QuizOfRow)) &&
              |GetAll(rows)[i].quizzes| == |Matching(rows, QuizRowKey, k)|
  {
    var ks := Keys(rows, QuizRowKey);
    FoldOfRows(rows, QuizRowTaker, TakerId, QuizRowKey, MergeQuizzes);
    forall i | 0 <= i < |ks|
      ensures SelectMany(Map(Matching(rows, QuizRowKey, ks[i]), QuizRowTaker), QuizzesOf) ==
                Map(Matching(rows, QuizRowKey, ks[i]), QuizOfRow)
    {
      SelectManyOfSingletons(Matching(rows, QuizRowKey, ks[i]), QuizRowTaker, QuizzesOf, QuizOfRow);
    }
  }

  /** `GetTaker`: the scalar columns of the taker with that id, through `QuerySingleOrDefault`. */
  function GetTaker(takers: seq<TakerRow>, id: int): (r: Lookup<Taker>)
    ensures r.Null? <==> forall i :: 0 <= i < |takers| ==> takers[i].id != id
    ensures r.Found? ==> TakerRow(id, r.value.name, r.value.address, r.value.email) in takers && r.value.id == id
    ensures r.Found? ==> r.value.quizzes == [] && r.value.takerAnswers == [] && r.value.quizResults == []
  {
    MapLookup(RowById(takers, TakerRowId, id), TakerOf)
  }

  /** With identity keys `GetTaker` never meets two rows. */
  lemma GetTakerNeverThrows(takers: seq<TakerRow>, next: int, id: int)
    requires Identity(takers, TakerRowId, next)
    ensures GetTaker(takers, id).Found? <==> exists i :: 0 <= i < |takers| && takers[i].id == id
    ensures !GetTaker(takers, id).Throws?
  {
    IdentityRowById(takers, TakerRowId, next, id);
  }

  /** `GetTakerWithQuiz`: the taker/quiz fold, then `SingleOrDefault`. */
  function GetTakerWithQuiz(rows: seq<TakerQuizJoinRow>): Lookup<Taker>
  {
    SingleOrDefault(FoldGroups(Map(rows, QuizRowTaker), TakerId, MergeQuizzes))
  }

  /** Null for no rows, an exception for two takers, else the taker of the first row with every row's quiz. */
  lemma GetTakerWithQuizFold(rows: seq<TakerQuizJoinRow>)
    ensures GetTakerWithQuiz(rows).Null? <==> rows == []
    ensures MixedKeys(rows, QuizRowKey) ==> GetTakerWithQuiz(rows).Throws?
    ensures SingleKeyed(rows, QuizRowKey) ==>
              GetTakerWithQuiz(rows) == Found(TakerOf(rows[0].taker).(quizzes := Map(rows, QuizOfRow)))
  {
    SingleOrDefaultOfFold(rows, QuizRowTaker, TakerId, QuizRowKey, MergeQuizzes);
    SelectManyOfSingletons(rows, QuizRowTaker, QuizzesOf, QuizOfRow);
  }

  /** `GetTakerWithQuizResult`: the fold of quizzes and results side by side, then `SingleOrDefault`. */
  function GetTakerWithQuizResult(rows: seq<TakerResultJoinRow>): Lookup<Taker>
  {
    SingleOrDefault(FoldGroups(Map(rows, ResultRowTaker), TakerId, MergeQuizzesAndResults))
  }

  /**
   * Null for no rows, an exception for two takers; otherwise the quizzes and
   * the results have one entry per row, and entry `i` of each comes from row `i`.
   */
  lemma GetTakerWithQuizResultFold(rows: seq<TakerResultJoinRow>)
    ensures GetTakerWithQuizResult(rows).Null? <==> rows == []
    ensures MixedKeys(rows, ResultRowKey) ==> GetTakerWithQuizResult(rows).Throws?
    ensures GetTakerWithQuizResult(rows).Found? ==>
              var t := GetTakerWithQuizResult(rows).value;
              t == TakerOf(rows[0].taker).(quizzes := t.quizzes, quizResults := t.quizResults) &&
              |t.quizzes| == |t.quizResults| == |rows| &&
              forall i :: 0 <= i < |rows| ==> t.quizzes[i] == rows[i].quiz && t.quizResults[i] == rows[i].result
    ensures SingleKeyed(rows, ResultRowKey) ==> GetTakerWithQuizResult(rows).Found?
  {
    SingleOrDefaultOfFold(rows, ResultRowTaker, TakerId, ResultRowKey, MergeQuizzesAndResults);
    SelectManyOfSingletons(rows, ResultRowTaker, QuizzesOf, QuizOfResultRow);
    SelectManyOfSingletons(rows, ResultRowTaker, ResultsOf, ResultOfRow);
  }

  /** `GetTakerAnswers`: the answer fold, then `SingleOrDefault`. */
  function GetTakerAnswers(rows: seq<TakerAnswerJoinRow>): Lookup<Taker>
  {
    SingleOrDefault(FoldGroups(Map(rows, AnswerRowTaker), TakerId, MergeAnswers))
  }

  /**
   * Null for no rows, an exception for two takers; otherwise one answer per
   * row, in row order, whose Question is overwritten with the joined
   * question's text.
   */
  lemma GetTakerAnswersFold(rows: seq<TakerAnswerJoinRow>)
    ensures GetTakerAnswers(rows).Null? <==> rows == []
    ensures MixedKeys(rows, AnswerRowKey) ==> GetTakerAnswers(rows).Throws?
    ensures GetTakerAnswers(rows).Found? ==>
              var t := GetTakerAnswers(rows).value;
              t == TakerOf(rows[0].taker).(takerAnswers := t.takerAnswers) &&
              |t.takerAnswers| == |rows| &&
              forall i :: 0 <= i < |rows| ==> t.takerAnswers[i] == rows[i].answer.(question := rows[i].question.question)
    ensures SingleKeyed(rows, AnswerRowKey) ==> GetTakerAnswers(rows).Found?
  {
    SingleOrDefaultOfFold(rows, AnswerRowTaker, TakerId, AnswerRowKey, MergeAnswers);
    SelectManyOfSingletons(rows, AnswerRowTaker, AnswersOf, AnswerOfRow);
  }

  /**
   * `HasTakerTakenQuiz`: `ExecuteScalar<bool>` over the matching TakerQuiz
   * rows converts the first column (the link id) of the first row, and
   * yields false when there is no row.
   */
  function HasTakerTakenQuiz(links: seq<TakerQuizRow>, takerId: int, quizId: int): bool
  {
    var hits := Where(links, (r: TakerQuizRow) => r.takerId == takerId && r.quizId == quizId);
    hits != [] && hits[0].id != 0
  }

  /** Link ids are identity values, so the check is true iff the pair is linked. */
  lemma HasTakerTakenQuizExact(links: seq<TakerQuizRow>, next: int, takerId: int, quizId: int)
    requires Identity(links, TakerQuizRowId, next)
    ensures HasTakerTakenQuiz(links, takerId, quizId) <==>
              exists i :: 0 <= i < |links| && links[i].takerId == takerId && links[i].quizId == quizId
  {
    var hits := Where(links, (r: TakerQuizRow) => r.takerId == takerId && r.quizId == quizId);
    IdentityMeans(links, TakerQuizRowId, next);
    if hits != [] {
      assert hits[0] in links;
      var i :| 0 <= i < |links| && links[i] == hits[0];
      assert TakerQuizRowId(links[i]) > 0;
    }
  }

  // ---------------------------------------------------------------------------
  // Writes

  /** `CreateTaker`: inserts the scalar columns and returns the new identity value. */
  method CreateTaker(db: Database, taker: Taker) returns (id: int)
    requires db.Valid()
    modifies db`takers, db`nextTakerId
    ensures db.Valid()
    ensures id == old(db.nextTakerId) && id > 0
    ensures forall i :: 0 <= i < |old(db.takers)| ==> old(db.takers)[i].id != id
    ensures db.takers == old(db.takers) + [TakerRow(id, taker.name, taker.address, taker.email)]
  {
    id := db.nextTakerId;
    var row := TakerRow(id, taker.name, taker.address, taker.email);
    IdentityMeans(db.takers, TakerRowId, db.nextTakerId);
    IdentityAppend(db.takers, TakerRowId, db.nextTakerId, row);
    db.takers := db.takers + [row];
    db.nextTakerId := id + 1;
  }

  /**
   * `UpdateTaker`: sets Name, Address and Email of the taker with that id and
   * TakerName of every result of that taker; true iff some row of either
   * table was affected.
   */
  method UpdateTaker(db: Database, taker: Taker) returns (changed: bool)
    requires db.Valid()
    modifies db`takers, db`quizResults
    ensures db.Valid()
    ensures |db.takers| == |old(db.takers)|
    ensures forall i :: 0 <= i < |db.takers| ==>
              db.takers[i] == if old(db.takers)[i].id == taker.id
                              then TakerRow(taker.id, taker.name, taker.address, taker.email)
                              else old(db.takers)[i]
    ensures |db.quizResults| == |old(db.quizResults)|
    ensures forall i :: 0 <= i < |db.quizResults| ==>
              db.quizResults[i] == if old(db.quizResults)[i].takerId == taker.id
                                   then old(db.quizResults)[i].(takerName := taker.name)
                                   else old(db.quizResults)[i]
    ensures changed <==> (exists i :: 0 <= i < |old(db.takers)| && old(db.takers)[i].id == taker.id) ||
                         (exists i :: 0 <= i < |old(db.quizResults)| && old(db.quizResults)[i].takerId == taker.id)
  {
    var isTaker := (r: TakerRow) => r.id == taker.id;
    var ofTaker := (r: QuizResultRow) => r.takerId == taker.id;
    var setDetails := (r: TakerRow) => r.(name := taker.name, address := taker.address, email := taker.email);
    var setName := (r: QuizResultRow) => r.(takerName := taker.name);
    var rowsAffected := Count(db.takers, isTaker) + Count(db.quizResults, ofTaker);
    IdentityUpdate(db.takers, TakerRowId, db.nextTakerId, isTaker, setDetails);
    IdentityUpdate(db.quizResults, QuizResultRowId, db.nextQuizResultId, ofTaker, setName);
    db.takers := UpdateWhere(db.takers, isTaker, setDetails);
    db.quizResults := UpdateWhere(db.quizResults, ofTaker, setName);
    changed := rowsAffected > 0;
  }

  /**
   * `DeleteTaker`: removes the taker with that id together with its quiz
   * links, answers and results (the cascade documented for the stored
   * procedure); true iff some row was removed.
   */
  method DeleteTaker(db: Database, id: int) returns (removed: bool)
    requires db.Valid()
    modifies db`takers, db`takerQuiz, db`takersAnswers, db`quizResults
    ensures db.takers == Without(old(db.takers), TakerRowId, id)
    ensures db.takerQuiz == Without(old(db.takerQuiz), TakerQuizTakerId, id)
    ensures db.takersAnswers == Without(old(db.takersAnswers), TakerAnswerTakerId, id)
    ensures db.quizResults == Without(old(db.quizResults), QuizResultTakerId, id)
    ensures removed <==> |db.takers| < |old(db.takers)| || |db.takerQuiz| < |old(db.takerQuiz)| ||
                         |db.takersAnswers| < |old(db.takersAnswers)| || |db.quizResults| < |old(db.quizResults)|
    ensures db.Valid()
  {
    var takers := db.DeleteTakers(TakerRowId, id);
    var links := db.DeleteTakerQuiz(TakerQuizTakerId, id);
    var answers := db.DeleteTakersAnswers(TakerAnswerTakerId, id);
    var results := db.DeleteQuizResults(QuizResultTakerId, id);
    removed := takers + links + answers + results > 0;
  }

  /**
   * `LetTakerTakeQuiz`: inserts the (takerId, quizId) link, whether or not it
   * is already there, and returns the new link id; afterwards the pair counts
   * as taken.
   */
  method LetTakerTakeQuiz(db: Database, takerId: int, quizId: int) returns (id: int)
    requires db.Valid()
    modifies db`takerQuiz, db`nextTakerQuizId
    ensures db.Valid()
    ensures id == old(db.nextTakerQuizId) && id > 0
    ensures db.takerQuiz == old(db.takerQuiz) + [TakerQuizRow(id, takerId, quizId)]
    ensures HasTakerTakenQuiz(db.takerQuiz, takerId, quizId)
  {
    id := db.nextTakerQuizId;
    var row := TakerQuizRow(id, takerId, quizId);
    IdentityAppend(db.takerQuiz, TakerQuizRowId, db.nextTakerQuizId, row);
    db.takerQuiz := db.takerQuiz + [row];
    db.nextTakerQuizId := id + 1;
    HasTakerTakenQuizExact(db.takerQuiz, db.nextTakerQuizId, takerId, quizId);
    assert db.takerQuiz[|db.takerQuiz| - 1] == row;
  }
}
