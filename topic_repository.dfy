/**
 * Repositories/TopicRepository.cs: topic reads (with their questions, by
 * quiz, plain) and topic writes.
 *
 * `GetAllTopics` and `GetTopicWithQuestion` run visible inner joins of
 * Topics and Questions; their rows are a parameter and a predicate says they
 * are the join. `GetAllTopicsByQuizId` runs a stored procedure whose rows
 * are a parameter.
 */
module TopicRepository {
  import opened Common
  import opened Models
  import opened Store
  import opened Fold

  /** A row of `Topics t INNER JOIN Questions q ON q.TopicId = t.Id`, all columns. */
  datatype TopicQuestionRow = TopicQuestionRow(topic: TopicRow, question: Problem)

  /** A row of `spTopic_GetAllTopicsByQuizId`, split into the topic part and the quiz part. */
  datatype TopicQuizJoinRow = TopicQuizJoinRow(topic: TopicQuizDto, quiz: QuizRow)

  /** The topic Dapper materialises from the topic columns: no questions yet. */
  function TopicOf(r: TopicRow): Topic
  {
    Topic(r.id, r.name, [])
  }

  /** `MapTopicQuestions`: the per-row callback that adds the row's question to the row's topic. */
  function MapTopicQuestions(topic: Topic, question: Problem): Topic
  {
    topic.(questions := topic.questions + [question])
  }

  /**
   * The question `GetAllTopics` reads: its query selects `q.Id, q.Question,
   * q.CorrectAnswer` but not `q.TopicId`, so TopicId keeps its default 0.
   */
  function SelectedQuestion(q: Problem): Problem
  {
    Problem(q.id, 0, q.question, q.correctAnswer)
  }

  // Keys, children and per-row mappings, as function values for the fold.
  function TopicId(t: Topic): int { t.id }
  function QuestionsOf(t: Topic): seq<Problem> { t.questions }
  function RowKey(r: TopicQuestionRow): int { r.topic.id }

  function ListedRowTopic(r: TopicQuestionRow): Topic { MapTopicQuestions(TopicOf(r.topic), SelectedQuestion(r.question)) }
  function ListedQuestionOfRow(r: TopicQuestionRow): Problem { SelectedQuestion(r.question) }

  function FullRowTopic(r: TopicQuestionRow): Topic { MapTopicQuestions(TopicOf(r.topic), r.question) }
  function QuestionOfRow(r: TopicQuestionRow): Problem { r.question }

  /** The group selector: the first topic of a group with the questions of the whole group. */
  function MergeQuestions(first: Topic, group: seq<Topic>): Topic
  {
    first.(questions := SelectMany(group, QuestionsOf))
  }

  /** The rows are exactly the inner join of the two tables on `q.TopicId = t.Id`. */
  ghost predicate InnerJoined(rows: seq<TopicQuestionRow>, topics: seq<TopicRow>, questions: seq<Problem>)
  {
    (forall i :: 0 <= i < |rows| ==>
       rows[i].topic in topics && rows[i].question in questions && rows[i].question.topicId == rows[i].topic.id) &&
    (forall t, q :: t in topics && q in questions && q.topicId == t.id ==> TopicQuestionRow(t, q) in rows)
  }

  /** The rows are exactly that join restricted by `WHERE t.Id = @Id`. */
  ghost predicate InnerJoinedOn(rows: seq<TopicQuestionRow>, topics: seq<TopicRow>, questions: seq<Problem>, id: int)
  {
    (forall i :: 0 <= i < |rows| ==>
       rows[i].topic in topics && rows[i].question in questions &&
       rows[i].question.topicId == rows[i].topic.id && rows[i].topic.id == id) &&
    (forall t, q :: t in topics && q in questions && q.topicId == t.id && t.id == id ==> TopicQuestionRow(t, q) in rows)
  }

  // ---------------------------------------------------------------------------
  // Reads

  /** `GetAllTopics`: the topic/question fold over the join. */
  function GetAllTopics(rows: seq<TopicQuestionRow>): seq<Topic>
  {
    FoldGroups(Map(rows, ListedRowTopic), TopicId, MergeQuestions)
  }

  /**
   * One topic per distinct topic id of the rows, in first-seen order; each
   * is the topic of its first row with the questions of all its rows in row
   * order, duplicates kept.
   */
  lemma GetAllTopicsFold(rows: seq<TopicQuestionRow>)
    ensures |GetAllTopics(rows)| == |Keys(rows, RowKey)|
    ensures forall i :: 0 <= i < |Keys(rows, RowKey)| ==>
              var k := Keys(rows, RowKey)[i];
              0 <= IndexOfKey(rows, RowKey, k) &&
              GetAllTopics(rows)[i] ==
                TopicOf(rows[IndexOfKey(rows, RowKey, k)].topic).(questions := Map(Matching(rows, RowKey, k), ListedQuestionOfRow))
  {
    var ks := Keys(rows, RowKey);
    FoldOfRows(rows, ListedRowTopic, TopicId, RowKey, MergeQuestions);
    forall i | 0 <= i < |ks|
      ensures SelectMany(Map(Matching(rows, RowKey, ks[i]), ListedRowTopic), QuestionsOf) ==
                Map(Matching(rows, RowKey, ks[i]), ListedQuestionOfRow)
    {
      SelectManyOfSingletons(Matching(rows, RowKey, ks[i]), ListedRowTopic, QuestionsOf, ListedQuestionOfRow);
    }
  }

  /**
   * Over the inner join, every listed topic is a topic of the table that has
   * at least one question, and every topic with a question is listed: a
   * topic without questions never appears.
   */
  lemma GetAllTopicsJoined(rows: seq<TopicQuestionRow>, topics: seq<TopicRow>, questions: seq<Problem>)
    requires InnerJoined(rows, topics, questions)
    ensures forall i :: 0 <= i < |GetAllTopics(rows)| ==>
              (exists t :: t in topics && t.id == GetAllTopics(rows)[i].id && t.name == GetAllTopics(rows)[i].name) &&
              (exists q :: q in questions && q.topicId == GetAllTopics(rows)[i].id)
    ensures forall t, q :: t in topics && q in questions && q.topicId == t.id ==>
              exists i :: 0 <= i < |GetAllTopics(rows)| && GetAllTopics(rows)[i].id == t.id
  {
    var r := GetAllTopics(rows);
    forall i | 0 <= i < |r|
      ensures (exists t :: t in topics && t.id == r[i].id && t.name == r[i].name) &&
              (exists q :: q in questions && q.topicId == r[i].id)
    {
      var j := ListedTopicRow(rows, i);
      assert rows[j].topic in topics && rows[j].question in questions;
    }
    forall t, q | t in topics && q in questions && q.topicId == t.id
      ensures exists i :: 0 <= i < |r| && r[i].id == t.id
    {
      RowListed(rows, TopicQuestionRow(t, q));
    }
  }

  /** A row's topic id is listed. */
  lemma RowListed(rows: seq<TopicQuestionRow>, row: TopicQuestionRow)
    requires row in rows
    ensures exists i :: 0 <= i < |GetAllTopics(rows)| && GetAllTopics(rows)[i].id == row.topic.id
  {
    var j :| 0 <= j < |rows| && rows[j] == row;
    var i := TopicOfRowListed(rows, j);
  }

  /** Each listed topic carries the id and name of some row's topic. */
  lemma ListedTopicRow(rows: seq<TopicQuestionRow>, i: int) returns (j: int)
    requires 0 <= i < |GetAllTopics(rows)|
    ensures 0 <= j < |rows|
    ensures GetAllTopics(rows)[i].id == rows[j].topic.id && GetAllTopics(rows)[i].name == rows[j].topic.name
  {
    GetAllTopicsFold(rows);
    j := IndexOfKey(rows, RowKey, Keys(rows, RowKey)[i]);
  }

  /** Each row's topic id is listed. */
  lemma TopicOfRowListed(rows: seq<TopicQuestionRow>, j: int) returns (i: int)
    requires 0 <= j < |rows|
    ensures 0 <= i < |GetAllTopics(rows)| && GetAllTopics(rows)[i].id == rows[j].topic.id
  {
    var ks := Keys(rows, RowKey);
    GetAllTopicsFold(rows);
    assert RowKey(rows[j]) in ks;
    i :| 0 <= i < |ks| && ks[i] == rows[j].topic.id;
  }

  /** `GetTopicWithQuestion`: the topic/question fold over the filtered join, then `SingleOrDefault`. */
  function GetTopicWithQuestion(rows: seq<TopicQuestionRow>): Lookup<Topic>
  {
    SingleOrDefault(FoldGroups(Map(rows, FullRowTopic), TopicId, MergeQuestions))
  }

  /** Null for no rows, an exception for two topics, else the first row's topic with every row's question. */
  lemma GetTopicWithQuestionFold(rows: seq<TopicQuestionRow>)
    ensures GetTopicWithQuestion(rows).Null? <==> rows == []
    ensures MixedKeys(rows, RowKey) ==> GetTopicWithQuestion(rows).Throws?
    ensures SingleKeyed(rows, RowKey) ==>
              GetTopicWithQuestion(rows) == Found(TopicOf(rows[0].topic).(questions := Map(rows, QuestionOfRow)))
  {
    SingleOrDefaultOfFold(rows, FullRowTopic, TopicId, RowKey, MergeQuestions);
    SelectManyOfSingletons(rows, FullRowTopic, QuestionsOf, QuestionOfRow);
  }

  /**
   * Over the join filtered on the id, the result is null exactly when no
   * topic with that id has a question; otherwise it is found (never an
   * exception) and every question it lists belongs to that topic.
   */
  lemma GetTopicWithQuestionJoined(rows: seq<TopicQuestionRow>, topics: seq<TopicRow>, questions: seq<Problem>, id: int)
    requires InnerJoinedOn(rows, topics, questions, id)
    ensures GetTopicWithQuestion(rows).Null? <==>
              !exists t, q :: t in topics && q in questions && t.id == id && q.topicId == id
    ensures !GetTopicWithQuestion(rows).Throws?
    ensures GetTopicWithQuestion(rows).Found? ==>
              var topic := GetTopicWithQuestion(rows).value;
              topic.id == id && topic.questions != [] &&
              forall j :: 0 <= j < |topic.questions| ==> topic.questions[j] in questions && topic.questions[j].topicId == id
  {
    GetTopicWithQuestionFold(rows);
    if rows != [] {
      assert SingleKeyed(rows, RowKey);
      assert rows[0].topic in topics && rows[0].question in questions;
    }
  }

  /** `GetTopic`: the scalar columns of the topic with that id, through `QuerySingleOrDefault`. */
  function GetTopic(topics: seq<TopicRow>, id: int): (r: Lookup<Topic>)
    ensures r.Null? <==> forall i :: 0 <= i < |topics| ==> topics[i].id != id
    ensures r.Found? ==> r.value.id == id && r.value.questions == [] &&
                         exists i :: 0 <= i < |topics| && topics[i].id == id && topics[i].name == r.value.name
  {
    MapLookup(RowById(topics, TopicRowId, id), TopicOf)
  }

  /** With identity keys `GetTopic` never meets two rows. */
  lemma GetTopicNeverThrows(topics: seq<TopicRow>, next: int, id: int)
    requires Identity(topics, TopicRowId, next)
    ensures GetTopic(topics, id).Found? <==> exists i :: 0 <= i < |topics| && topics[i].id == id
    ensures !GetTopic(topics, id).Throws?
  {
    IdentityRowById(topics, TopicRowId, next, id);
  }

  /** The callback of `GetAllTopicsByQuizId`: the topic part takes the quiz part's name. */
  function TopicWithQuizName(r: TopicQuizJoinRow): TopicQuizDto
  {
    r.topic.(quizName := r.quiz.name)
  }

  /** `GetAllTopicsByQuizId`: one entry per row, not grouped, each named after its row's quiz. */
  function GetAllTopicsByQuizId(rows: seq<TopicQuizJoinRow>): (ts: seq<TopicQuizDto>)
    ensures |ts| == |rows|
    ensures forall i :: 0 <= i < |ts| ==>
              ts[i].quizName == rows[i].quiz.name && ts[i].id == rows[i].topic.id && ts[i].name == rows[i].topic.name
  {
    Map(rows, TopicWithQuizName)
  }

  // ---------------------------------------------------------------------------
  // Writes

  /** `CreateTopic`: inserts the given quiz id and the topic's name and returns the new identity value. */
  method CreateTopic(db: Database, topic: Topic, quizId: int) returns (id: int)
    requires db.Valid()
    modifies db`topics, db`nextTopicId
    ensures db.Valid()
    ensures id == old(db.nextTopicId) && id > 0
    ensures forall i :: 0 <= i < |old(db.topics)| ==> old(db.topics)[i].id != id
    ensures db.topics == old(db.topics) + [TopicRow(id, quizId, topic.name)]
  {
    id := db.nextTopicId;
    var row := TopicRow(id, quizId, topic.name);
    IdentityMeans(db.topics, TopicRowId, db.nextTopicId);
    IdentityAppend(db.topics, TopicRowId, db.nextTopicId, row);
    db.topics := db.topics + [row];
    db.nextTopicId := id + 1;
  }

  /** `UpdateTopic`: sets only Name of the topic with that id; true iff a row was affected. */
  method UpdateTopic(db: Database, topic: Topic) returns (changed: bool)
    requires db.Valid()
    modifies db`topics
    ensures db.Valid()
    ensures |db.topics| == |old(db.topics)|
    ensures forall i :: 0 <= i < |db.topics| ==>
              db.topics[i] == if old(db.topics)[i].id == topic.id
                              then old(db.topics)[i].(name := topic.name)
                              else old(db.topics)[i]
    ensures changed <==> exists i :: 0 <= i < |old(db.topics)| && old(db.topics)[i].id == topic.id
  {
    var isTopic := (r: TopicRow) => r.id == topic.id;
    var setName := (r: TopicRow) => r.(name := topic.name);
    var rowsAffected := Count(db.topics, isTopic);
    IdentityUpdate(db.topics, TopicRowId, db.nextTopicId, isTopic, setName);
    db.topics := UpdateWhere(db.topics, isTopic, setName);
    changed := rowsAffected != 0;
  }

  /** `DeleteTopic`: removes the topic with that id; true iff a row was removed. */
  method DeleteTopic(db: Database, id: int) returns (removed: bool)
    requires db.Valid()
    modifies db`topics
    ensures db.Valid()
    ensures db.topics == Without(old(db.topics), TopicRowId, id)
    ensures removed <==> exists i :: 0 <= i < |old(db.topics)| && old(db.topics)[i].id == id
  {
    var rowsAffected := db.DeleteTopics(TopicRowId, id);
    removed := rowsAffected != 0;
  }
}
