/**
 * Repositories/QuizRepository.cs: the quiz reads (plain and with relations)
 * and the quiz writes.
 *
 * A with-relations read runs a query whose rows each carry one quiz and one
 * child; Dapper builds a fresh quiz per row and the mapping callback adds
 * that row's child to it, then the rows are folded by quiz id. The query
 * text of the stored procedures is not visible, so their rows are a
 * parameter; for the one join whose SQL is visible (`GetAllQuizByTopicId`)
 * a predicate says what the rows are.
 */
module QuizRepository {
  import opened Common
  import opened Models
  import opened Store
  import opened Fold

  // ---------------------------------------------------------------------------
  // Rows of the with-relations queries, split on `Id` into a quiz and a child

  datatype QuizTopicRow = QuizTopicRow(quiz: QuizRow, topic: TopicDto)
  datatype QuizTakerRow = QuizTakerRow(quiz: QuizRow, taker: TakerDto)
  datatype QuizResultJoinRow = QuizResultJoinRow(quiz: QuizRow, result: QuizResultsForQuiz)

  /** The quiz Dapper materialises from the quiz columns: relation lists empty. */
  function QuizOf(r: QuizRow): Quiz
  {
    Quiz(r.id, r.name, r.description, [], [], [])
  }

  /** `MapQuizTopic`: the per-row callback that adds the row's topic to the row's quiz. */
  function MapQuizTopic(quiz: Quiz, topic: TopicDto): Quiz
  {
    quiz.(topics := quiz.topics + [topic])
  }

  /** The callback of `GetQuizWithTakers` and `GetAllQuizByTakerId`. */
  function MapQuizTaker(quiz: Quiz, taker: TakerDto): Quiz
  {
    quiz.(takers := quiz.takers + [taker])
  }

  /** The callback of `GetQuizWithQuizResults`. */
  function MapQuizResult(quiz: Quiz, result: QuizResultsForQuiz): Quiz
  {
    quiz.(quizResults := quiz.quizResults + [result])
  }

  // Keys, children and per-row mappings, as function values for the fold.
  function QuizId(q: Quiz): int { q.id }
  function TopicsOf(q: Quiz): seq<TopicDto> { q.topics }
  function TakersOf(q: Quiz): seq<TakerDto> { q.takers }
  function ResultsOf(q: Quiz): seq<QuizResultsForQuiz> { q.quizResults }
  function TopicId(t: TopicDto): int { t.id }
  function TakerId(t: TakerDto): int { t.id }
  function ResultId(r: QuizResultsForQuiz): int { r.id }

  function TopicRowQuiz(r: QuizTopicRow): Quiz { MapQuizTopic(QuizOf(r.quiz), r.topic) }
  function TopicRowKey(r: QuizTopicRow): int { r.quiz.id }
  function TopicOfRow(r: QuizTopicRow): TopicDto { r.topic }

  function TakerRowQuiz(r: QuizTakerRow): Quiz { MapQuizTaker(QuizOf(r.quiz), r.taker) }
  function TakerRowKey(r: QuizTakerRow): int { r.quiz.id }
  function TakerOfRow(r: QuizTakerRow): TakerDto { r.taker }

  function ResultRowQuiz(r: QuizResultJoinRow): Quiz { MapQuizResult(QuizOf(r.quiz), r.result) }
  function ResultRowKey(r: QuizResultJoinRow): int { r.quiz.id }
  function ResultOfRow(r: QuizResultJoinRow): QuizResultsForQuiz { r.result }

  // The group selectors: the first quiz of a group with the group's children.
  function MergeTopics(first: Quiz, group: seq<Quiz>): Quiz
  {
    first.(topics := SelectMany(group, TopicsOf))
  }

  function MergeDistinctTopics(first: Quiz, group: seq<Quiz>): Quiz
  {
    first.(topics := DistinctBy(SelectMany(group, TopicsOf), TopicId))
  }

  function MergeDistinctTakers(first: Quiz, group: seq<Quiz>): Quiz
  {
    first.(takers := DistinctBy(SelectMany(group, TakersOf), TakerId))
  }

  function MergeDistinctResults(first: Quiz, group: seq<Quiz>): Quiz
  {
    first.(quizResults := DistinctBy(SelectMany(group, ResultsOf), ResultId))
  }

  // ---------------------------------------------------------------------------
  // Reads

  /** `GetQuiz`: the quiz row with that id, through `QuerySingleOrDefault`. */
  function GetQuiz(quizzes: seq<QuizRow>, id: int): (r: Lookup<Quiz>)
    ensures r.Null? <==> forall i :: 0 <= i < |quizzes| ==> quizzes[i].id != id
    ensures r.Found? ==> r.value == QuizOf(QuizRow(id, r.value.name, r.value.description)) &&
                         QuizRow(id, r.value.name, r.value.description) in quizzes
  {
    MapLookup(RowById(quizzes, QuizRowId, id), QuizOf)
  }

  /** With identity keys `GetQuiz` never meets two rows. */
  lemma GetQuizNeverThrows(quizzes: seq<QuizRow>, next: int, id: int)
    requires Identity(quizzes, QuizRowId, next)
    ensures GetQuiz(quizzes, id).Found? <==> exists i :: 0 <= i < |quizzes| && quizzes[i].id == id
    ensures !GetQuiz(quizzes, id).Throws?
  {
    IdentityRowById(quizzes, QuizRowId, next, id);
  }

  /** `GetQuizByIdWithTopics`: the topic fold, then `SingleOrDefault`. */
  function GetQuizByIdWithTopics(rows: seq<QuizTopicRow>): Lookup<Quiz>
  {
    SingleOrDefault(FoldGroups(Map(rows, TopicRowQuiz), QuizId, MergeTopics))
  }

  /**
   * No rows give null; rows of one quiz give that quiz (scalars from the
   * first row) with every row's topic in row order, duplicates kept; rows of
   * two quizzes make `SingleOrDefault` throw.
   */
  lemma GetQuizByIdWithTopicsFold(rows: seq<QuizTopicRow>)
    ensures GetQuizByIdWithTopics(rows).Null? <==> rows == []
    ensures SingleKeyed(rows, TopicRowKey) ==>
              GetQuizByIdWithTopics(rows) == Found(QuizOf(rows[0].quiz).(topics := Map(rows, TopicOfRow)))
    ensures MixedKeys(rows, TopicRowKey) ==> GetQuizByIdWithTopics(rows).Throws?
  {
    SingleOrDefaultOfFold(rows, TopicRowQuiz, QuizId, TopicRowKey, MergeTopics);
    SelectManyOfSingletons(rows, TopicRowQuiz, TopicsOf, TopicOfRow);
  }

  /** `GetQuizWithTakers`: the taker fold with duplicate takers dropped, then `SingleOrDefault`. */
  function GetQuizWithTakers(rows: seq<QuizTakerRow>): Lookup<Quiz>
  {
    SingleOrDefault(FoldGroups(Map(rows, TakerRowQuiz), QuizId, MergeDistinctTakers))
  }

  /**
   * Null for no rows, an exception for two quizzes, and otherwise the quiz of
   * the first row with one taker per distinct taker id (the first row's
   * taker of that id, in first-seen order): taker ids are pairwise distinct
   * and every row's taker id is listed.
   */
  lemma GetQuizWithTakersFold(rows: seq<QuizTakerRow>)
    ensures GetQuizWithTakers(rows).Null? <==> rows == []
    ensures MixedKeys(rows, TakerRowKey) ==> GetQuizWithTakers(rows).Throws?
    ensures SingleKeyed(rows, TakerRowKey) ==>
              GetQuizWithTakers(rows) ==
                Found(QuizOf(rows[0].quiz).(takers := DistinctBy(Map(rows, TakerOfRow), TakerId)))
    ensures GetQuizWithTakers(rows).Found? ==>
              var ts := GetQuizWithTakers(rows).value.takers;
              (forall i, j :: 0 <= i < j < |ts| ==> ts[i].id != ts[j].id) &&
              (forall i :: 0 <= i < |rows| ==> exists j :: 0 <= j < |ts| && ts[j].id == rows[i].taker.id)
  {
    SingleOrDefaultOfFold(rows, TakerRowQuiz, QuizId, TakerRowKey, MergeDistinctTakers);
    if SingleKeyed(rows, TakerRowKey) {
      SelectManyOfSingletons(rows, TakerRowQuiz, TakersOf, TakerOfRow);
      DistinctTakersOfRows(rows);
    }
  }

  /** The takers of the rows, duplicates by id dropped: ids pairwise distinct, every row's taker id listed. */
  lemma DistinctTakersOfRows(rows: seq<QuizTakerRow>)
    ensures var ts := DistinctBy(Map(rows, TakerOfRow), TakerId);
            (forall i, j :: 0 <= i < j < |ts| ==> ts[i].id != ts[j].id) &&
            (forall i :: 0 <= i < |rows| ==> exists j :: 0 <= j < |ts| && ts[j].id == rows[i].taker.id)
  {
    var ts := Map(rows, TakerOfRow);
    DistinctByIdsUnique(ts, TakerId);
    assert forall i :: 0 <= i < |rows| ==> TakerId(ts[i]) == rows[i].taker.id;
  }

  /** `GetQuizWithQuizResults`: the result fold with duplicate results dropped, then `SingleOrDefault`. */
  function GetQuizWithQuizResults(rows: seq<QuizResultJoinRow>): Lookup<Quiz>
  {
    SingleOrDefault(FoldGroups(Map(rows, ResultRowQuiz), QuizId, MergeDistinctResults))
  }

  /** As for takers: one quiz result per distinct result id, the first one, ids pairwise distinct. */
  lemma GetQuizWithQuizResultsFold(rows: seq<QuizResultJoinRow>)
    ensures GetQuizWithQuizResults(rows).Null? <==> rows == []
    ensures MixedKeys(rows, ResultRowKey) ==> GetQuizWithQuizResults(rows).Throws?
    ensures SingleKeyed(rows, ResultRowKey) ==>
              GetQuizWithQuizResults(rows) ==
                Found(QuizOf(rows[0].quiz).(quizResults := DistinctBy(Map(rows, ResultOfRow), ResultId)))
    ensures GetQuizWithQuizResults(rows).Found? ==>
              var rs := GetQuizWithQuizResults(rows).value.quizResults;
              (forall i, j :: 0 <= i < j < |rs| ==> rs[i].id != rs[j].id) &&
              (forall i :: 0 <= i < |rows| ==> exists j :: 0 <= j < |rs| && rs[j].id == rows[i].result.id)
  {
    SingleOrDefaultOfFold(rows, ResultRowQuiz, QuizId, ResultRowKey, MergeDistinctResults);
    if SingleKeyed(rows, ResultRowKey) {
      SelectManyOfSingletons(rows, ResultRowQuiz, ResultsOf, ResultOfRow);
      DistinctResultsOfRows(rows);
    }
  }

  /** The results of the rows, duplicates by id dropped: ids pairwise distinct, every row's result id listed. */
  lemma DistinctResultsOfRows(rows: seq<QuizResultJoinRow>)
    ensures var rs := DistinctBy(Map(rows, ResultOfRow), ResultId);
            (forall i, j :: 0 <= i < j < |rs| ==> rs[i].id != rs[j].id) &&
            (forall i :: 0 <= i < |rows| ==> exists j :: 0 <= j < |rs| && rs[j].id == rows[i].result.id)
  {
    var rs := Map(rows, ResultOfRow);
    DistinctByIdsUnique(rs, ResultId);
    assert forall i :: 0 <= i < |rows| ==> ResultId(rs[i]) == rows[i].result.id;
  }

  /** `GetAllQuiz`: every quiz row, in table order, without relations. */
  function GetAllQuiz(quizzes: seq<QuizRow>): (qs: seq<Quiz>)
    ensures |qs| == |quizzes|
    ensures forall i :: 0 <= i < |qs| ==>
              QuizRow(qs[i].id, qs[i].name, qs[i].description) == quizzes[i] &&
              qs[i].topics == [] && qs[i].takers == [] && qs[i].quizResults == []
  {
    Map(quizzes, QuizOf)
  }

  /** `GetAllQuizByTopicId`: the topic fold, one quiz per group, duplicate topics dropped. */
  function GetAllQuizByTopicId(rows: seq<QuizTopicRow>): seq<Quiz>
  {
    FoldGroups(Map(rows, TopicRowQuiz), QuizId, MergeDistinctTopics)
  }

  /**
   * One quiz per distinct quiz id of the rows, in first-seen order; each is
   * the quiz of its first row with the topics of its rows, duplicates by
   * topic id dropped (first kept).
   */
  lemma GetAllQuizByTopicIdFold(rows: seq<QuizTopicRow>)
    ensures |GetAllQuizByTopicId(rows)| == |Keys(rows, TopicRowKey)|
    ensures forall i :: 0 <= i < |Keys(rows, TopicRowKey)| ==>
              var k := Keys(rows, TopicRowKey)[i];
              0 <= IndexOfKey(rows, TopicRowKey, k) &&
              GetAllQuizByTopicId(rows)[i] ==
                QuizOf(rows[IndexOfKey(rows, TopicRowKey, k)].quiz).(
                  topics := DistinctBy(Map(Matching(rows, TopicRowKey, k), TopicOfRow), TopicId))
  {
    var ks := Keys(rows, TopicRowKey);
    FoldOfRows(rows, TopicRowQuiz, QuizId, TopicRowKey, MergeDistinctTopics);
    forall i | 0 <= i < |ks|
      ensures SelectMany(Map(Matching(rows, TopicRowKey, ks[i]), TopicRowQuiz), TopicsOf) ==
                Map(Matching(rows, TopicRowKey, ks[i]), TopicOfRow)
    {
      SelectManyOfSingletons(Matching(rows, TopicRowKey, ks[i]), TopicRowQuiz, TopicsOf, TopicOfRow);
    }
  }

  /** Every quiz `GetAllQuizByTopicId` lists has a non-empty topic list with distinct ids. */
  lemma GetAllQuizByTopicIdTopics(rows: seq<QuizTopicRow>)
    ensures forall i :: 0 <= i < |GetAllQuizByTopicId(rows)| ==>
              var ts := GetAllQuizByTopicId(rows)[i].topics;
              ts != [] && forall a, b :: 0 <= a < b < |ts| ==> ts[a].id != ts[b].id
  {
    var ks := Keys(rows, TopicRowKey);
    GetAllQuizByTopicIdFold(rows);
    forall i | 0 <= i < |ks|
      ensures GetAllQuizByTopicId(rows)[i].topics != []
      ensures forall a, b :: 0 <= a < b < |GetAllQuizByTopicId(rows)[i].topics| ==>
                GetAllQuizByTopicId(rows)[i].topics[a].id != GetAllQuizByTopicId(rows)[i].topics[b].id
    {
      var m := Matching(rows, TopicRowKey, ks[i]);
      KeyListedIffIndexed(rows, TopicRowKey, ks[i]);
      MatchingStartsAtFirst(rows, TopicRowKey, ks[i]);
      DistinctByIdsUnique(Map(m, TopicOfRow), TopicId);
    }
  }

  /**
   * The rows of `SELECT q.Id, q.Name, q.Description, tp.Id, tp.Name FROM
   * Quizzes q INNER JOIN Topics tp ON tp.QuizId = q.Id WHERE tp.Id = @Id`:
   * each row pairs a quiz with a topic of that id that belongs to it, and
   * every such pair appears.
   */
  ghost predicate JoinedOnTopic(rows: seq<QuizTopicRow>, quizzes: seq<QuizRow>, topics: seq<TopicRow>, id: int)
  {
    (forall i :: 0 <= i < |rows| ==>
       rows[i].quiz in quizzes &&
       exists tp :: tp in topics && tp.id == id && tp.quizId == rows[i].quiz.id && rows[i].topic == TopicDto(tp.id, tp.name)) &&
    (forall q, tp :: q in quizzes && tp in topics && tp.id == id && tp.quizId == q.id ==>
       QuizTopicRow(q, TopicDto(tp.id, tp.name)) in rows)
  }

  /**
   * Topic ids are unique and a topic belongs to one quiz, so filtering quizzes
   * by a topic yields at most one quiz: none when no topic with that id
   * belongs to an existing quiz, and otherwise the topic's quiz listing just
   * that topic.
   */
  lemma GetAllQuizByTopicIdJoined(rows: seq<QuizTopicRow>, quizzes: seq<QuizRow>, topics: seq<TopicRow>, next: int, id: int)
    requires JoinedOnTopic(rows, quizzes, topics, id)
    requires Identity(topics, TopicRowId, next)
    ensures |GetAllQuizByTopicId(rows)| <= 1
    ensures GetAllQuizByTopicId(rows) == [] <==>
              !exists q, tp :: q in quizzes && tp in topics && tp.id == id && tp.quizId == q.id
    ensures |GetAllQuizByTopicId(rows)| == 1 ==>
              exists tp :: tp in topics && tp.id == id &&
                GetAllQuizByTopicId(rows)[0].id == tp.quizId &&
                GetAllQuizByTopicId(rows)[0].topics == [TopicDto(tp.id, tp.name)]
    ensures |GetAllQuizByTopicId(rows)| == 1 ==>
              exists q, tp :: q in quizzes && tp in topics && tp.id == id && q.id == tp.quizId &&
                GetAllQuizByTopicId(rows) == [QuizOf(q).(topics := [TopicDto(tp.id, tp.name)])]
  {
    if rows == [] {
      GetAllQuizByTopicIdFold(rows);
      assert Keys(rows, TopicRowKey) == [];
    } else {
      var tp := JoinedRowsShareTopic(rows, quizzes, topics, next, id);
      GetAllQuizByTopicIdOfOneTopic(rows, tp);
      assert rows[0] in rows;
      assert rows[0].quiz in quizzes;
    }
  }

  /** Rows that all carry one topic, and so its quiz, fold to that quiz listing just that topic. */
  lemma GetAllQuizByTopicIdOfOneTopic(rows: seq<QuizTopicRow>, tp: TopicRow)
    requires rows != []
    requires forall i :: 0 <= i < |rows| ==> rows[i].quiz.id == tp.quizId && rows[i].topic == TopicDto(tp.id, tp.name)
    ensures GetAllQuizByTopicId(rows) == [QuizOf(rows[0].quiz).(topics := [TopicDto(tp.id, tp.name)])]
  {
    var ts := Map(rows, TopicOfRow);
    assert forall i :: 0 <= i < |ts| ==> TopicId(ts[i]) == TopicId(ts[0]);
    DistinctByOfSingleKeyed(ts, TopicId);
    OneKey(rows, TopicRowKey, tp.quizId);
    GetAllQuizByTopicIdFold(rows);
    var r := GetAllQuizByTopicId(rows);
    assert Keys(rows, TopicRowKey)[0] == tp.quizId;
    assert r[0] == QuizOf(rows[0].quiz).(topics := DistinctBy(ts, TopicId));
  }

  /** All rows of the join carry the one topic with that id, and so its quiz. */
  lemma JoinedRowsShareTopic(rows: seq<QuizTopicRow>, quizzes: seq<QuizRow>, topics: seq<TopicRow>, next: int, id: int)
    returns (tp: TopicRow)
    requires JoinedOnTopic(rows, quizzes, topics, id)
    requires Identity(topics, TopicRowId, next)
    requires rows != []
    ensures tp in topics && tp.id == id
    ensures forall i :: 0 <= i < |rows| ==> rows[i].quiz.id == tp.quizId && rows[i].topic == TopicDto(tp.id, tp.name)
  {
    assert rows[0] in rows;
    tp :| tp in topics && tp.id == id && tp.quizId == rows[0].quiz.id && rows[0].topic == TopicDto(tp.id, tp.name);
    forall i | 0 <= i < |rows|
      ensures rows[i].quiz.id == tp.quizId && rows[i].topic == TopicDto(tp.id, tp.name)
    {
      var tpi :| tpi in topics && tpi.id == id && tpi.quizId == rows[i].quiz.id && rows[i].topic == TopicDto(tpi.id, tpi.name);
      IdentityUnique(topics, TopicRowId, next, tpi, tp);
    }
  }

  /** `GetAllQuizByTakerId`: the taker fold, one quiz per group, duplicate takers dropped. */
  function GetAllQuizByTakerId(rows: seq<QuizTakerRow>): seq<Quiz>
  {
    FoldGroups(Map(rows, TakerRowQuiz), QuizId, MergeDistinctTakers)
  }

  /**
   * One quiz per distinct quiz id of the rows, in first-seen order; each is
   * the quiz of its first row with the takers of its rows, duplicates by
   * taker id dropped (first kept), so its taker list is non-empty.
   */
  lemma GetAllQuizByTakerIdFold(rows: seq<QuizTakerRow>)
    ensures |GetAllQuizByTakerId(rows)| == |Keys(rows, TakerRowKey)|
    ensures forall i :: 0 <= i < |Keys(rows, TakerRowKey)| ==>
              var k := Keys(rows, TakerRowKey)[i];
              0 <= IndexOfKey(rows, TakerRowKey, k) &&
              GetAllQuizByTakerId(rows)[i] ==
                QuizOf(rows[IndexOfKey(rows, TakerRowKey, k)].quiz).(
                  takers := DistinctBy(Map(Matching(rows, TakerRowKey, k), TakerOfRow), TakerId)) &&
              GetAllQuizByTakerId(rows)[i].takers != []
  {
    var ks := Keys(rows, TakerRowKey);
    FoldOfRows(rows, TakerRowQuiz, QuizId, TakerRowKey, MergeDistinctTakers);
    forall i | 0 <= i < |ks|
      ensures SelectMany(Map(Matching(rows, TakerRowKey, ks[i]), TakerRowQuiz), TakersOf) ==
                Map(Matching(rows, TakerRowKey, ks[i]), TakerOfRow)
      ensures DistinctBy(Map(Matching(rows, TakerRowKey, ks[i]), TakerOfRow), TakerId) != []
    {
      var m := Matching(rows, TakerRowKey, ks[i]);
      SelectManyOfSingletons(m, TakerRowQuiz, TakersOf, TakerOfRow);
      KeyListedIffIndexed(rows, TakerRowKey, ks[i]);
      MatchingStartsAtFirst(rows, TakerRowKey, ks[i]);
      DistinctByIdsUnique(Map(m, TakerOfRow), TakerId);
    }
  }

  /**
   * `CheckQuizId`: `ExecuteScalar<bool>` over `SELECT * FROM Quizzes WHERE
   * Id = @Id` converts the first column (the id) of the first row, and
   * yields false when there is no row.
   */
  function CheckQuizId(quizzes: seq<QuizRow>, id: int): (b: bool)
    ensures b <==> id != 0 && exists i :: 0 <= i < |quizzes| && quizzes[i].id == id
  {
    var hits := Where(quizzes, (r: QuizRow) => r.id == id);
    assert hits != [] ==> hits[0] in hits;
    hits != [] && hits[0].id != 0
  }

  /** Identity ids are never 0, so `CheckQuizId` is exactly "a quiz with that id exists". */
  lemma CheckQuizIdExact(quizzes: seq<QuizRow>, next: int, id: int)
    requires Identity(quizzes, QuizRowId, next)
    ensures CheckQuizId(quizzes, id) <==> exists i :: 0 <= i < |quizzes| && quizzes[i].id == id
  {
    IdentityMeans(quizzes, QuizRowId, next);
    if exists i :: 0 <= i < |quizzes| && quizzes[i].id == id {
      var i :| 0 <= i < |quizzes| && quizzes[i].id == id;
      assert QuizRowId(quizzes[i]) > 0;
    }
  }

  // ---------------------------------------------------------------------------
  // Writes

  /** `CreateQuiz`: inserts the quiz's name and description and returns the new identity value. */
  method CreateQuiz(db: Database, quiz: Quiz) returns (id: int)
    requires db.Valid()
    modifies db`quizzes, db`nextQuizId
    ensures db.Valid()
    ensures id == old(db.nextQuizId) && id > 0
    ensures forall i :: 0 <= i < |old(db.quizzes)| ==> old(db.quizzes)[i].id != id
    ensures db.quizzes == old(db.quizzes) + [QuizRow(id, quiz.name, quiz.description)]
  {
    id := db.nextQuizId;
    var row := QuizRow(id, quiz.name, quiz.description);
    IdentityMeans(db.quizzes, QuizRowId, db.nextQuizId);
    IdentityAppend(db.quizzes, QuizRowId, db.nextQuizId, row);
    db.quizzes := db.quizzes + [row];
    db.nextQuizId := id + 1;
  }

  /**
   * `UpdateQuiz`: sets Name and Description of the quiz with that id and
   * QuizName of every result of that quiz; true iff some row of either table
   * was affected.
   */
  method UpdateQuiz(db: Database, quiz: Quiz) returns (changed: bool)
    requires db.Valid()
    modifies db`quizzes, db`quizResults
    ensures db.Valid()
    ensures |db.quizzes| == |old(db.quizzes)|
    ensures forall i :: 0 <= i < |db.quizzes| ==>
              db.quizzes[i] == if old(db.quizzes)[i].id == quiz.id
                               then old(db.quizzes)[i].(name := quiz.name, description := quiz.description)
                               else old(db.quizzes)[i]
    ensures |db.quizResults| == |old(db.quizResults)|
    ensures forall i :: 0 <= i < |db.quizResults| ==>
              db.quizResults[i] == if old(db.quizResults)[i].quizId == quiz.id
                                   then old(db.quizResults)[i].(quizName := quiz.name)
                                   else old(db.quizResults)[i]
    ensures changed <==> (exists i :: 0 <= i < |old(db.quizzes)| && old(db.quizzes)[i].id == quiz.id) ||
                         (exists i :: 0 <= i < |old(db.quizResults)| && old(db.quizResults)[i].quizId == quiz.id)
  {
    var isQuiz := (r: QuizRow) => r.id == quiz.id;
    var ofQuiz := (r: QuizResultRow) => r.quizId == quiz.id;
    var setDetails := (r: QuizRow) => r.(name := quiz.name, description := quiz.description);
    var setName := (r: QuizResultRow) => r.(quizName := quiz.name);
    var rowsAffected := Count(db.quizzes, isQuiz) + Count(db.quizResults, ofQuiz);
    IdentityUpdate(db.quizzes, QuizRowId, db.nextQuizId, isQuiz, setDetails);
    IdentityUpdate(db.quizResults, QuizResultRowId, db.nextQuizResultId, ofQuiz, setName);
    db.quizzes := UpdateWhere(db.quizzes, isQuiz, setDetails);
    db.quizResults := UpdateWhere(db.quizResults, ofQuiz, setName);
    changed := rowsAffected > 0;
  }

  /**
   * `DeleteQuiz`: removes the quiz with that id and its taker links (the
   * cascade documented for the stored procedure); true iff some row was
   * removed.
   */
  method DeleteQuiz(db: Database, id: int) returns (removed: bool)
    requires db.Valid()
    modifies db`quizzes, db`takerQuiz
    ensures db.Valid()
    ensures db.quizzes == Without(old(db.quizzes), QuizRowId, id)
    ensures db.takerQuiz == Without(old(db.takerQuiz), TakerQuizQuizId, id)
    ensures removed <==> (exists i :: 0 <= i < |old(db.quizzes)| && old(db.quizzes)[i].id == id) ||
                         (exists i :: 0 <= i < |old(db.takerQuiz)| && old(db.takerQuiz)[i].quizId == id)
  {
    var quizzes := db.DeleteQuizzes(QuizRowId, id);
    var links := db.DeleteTakerQuiz(TakerQuizQuizId, id);
    removed := quizzes + links > 0;
  }
}
