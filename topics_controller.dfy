/**
 * Controllers/TopicsController.cs: the `api/topics` endpoints. Reads are
 * functions of the Topics table and of the rows their queries return, writes
 * are methods on the database; an exception from a call below becomes the
 * catch block's 500.
 */
module TopicsController {
  import opened Common
  import opened Models
  import opened Store
  import opened Fold
  import opened Responses
  import QuizRepository
  import TopicRepository
  import QuizService
  import TopicService

  /** Every topic names a quiz that is in the Quizzes table. */
  ghost predicate TopicsReferenceQuizzes(topics: seq<TopicRow>, quizzes: seq<QuizRow>)
  {
    forall i :: 0 <= i < |topics| ==> exists j :: 0 <= j < |quizzes| && quizzes[j].id == topics[i].quizId
  }

  /** In a valid Topics table, looking a stored topic up by its id answers that topic's view. */
  lemma FindsStoredTopic(topics: seq<TopicRow>, next: int, i: int)
    requires Identity(topics, TopicRowId, next) && 0 <= i < |topics|
    ensures TopicService.GetTopicById(topics, topics[i].id) == Found(TopicDto(topics[i].id, topics[i].name))
  {
    IdentityFindsRow(topics, TopicRowId, next, i);
  }

  /**
   * `CreateTopic`, as written: the quiz lookup is started but never awaited,
   * so the value compared with null is the pending task, which is never null;
   * the 404 branch is dead. The topic is always stored under the given quiz
   * id and the answer is 201 with the new topic, which the route it names
   * (`GetTopicById`) then finds.
   */
  method CreateTopic(db: Database, topic: TopicCreationDto, quizId: int) returns (r: Response<TopicDto>)
    requires db.Valid()
    modifies db`topics, db`nextTopicId
    ensures db.Valid()
    ensures r == Created(TopicDto(old(db.nextTopicId), topic.name))
    ensures db.topics == old(db.topics) + [TopicRow(r.body.id, quizId, topic.name)]
    ensures TopicService.GetTopicById(db.topics, r.body.id) == Found(r.body)
  {
    var newTopic := TopicService.CreateTopic(db, topic, quizId);
    FindsStoredTopic(db.topics, db.nextTopicId, |db.topics| - 1);
    r := Created(newTopic);
  }

  /**
   * What `CreateTopic` as written does to a store whose topics all name an
   * existing quiz: given a quiz id no quiz has, the stored topic names a
   * missing quiz.
   */
  lemma CreateTopicDangles(topics: seq<TopicRow>, quizzes: seq<QuizRow>, id: int, quizId: int, name: NString)
    requires forall j :: 0 <= j < |quizzes| ==> quizzes[j].id != quizId
    ensures !TopicsReferenceQuizzes(topics + [TopicRow(id, quizId, name)], quizzes)
  {
    var added := topics + [TopicRow(id, quizId, name)];
    assert added[|topics|].quizId == quizId;
  }

  /**
   * `CreateTopic` with the quiz lookup awaited, as its 404 branch intends:
   * 404 and no change when no quiz has the id; otherwise the topic is
   * created as above. Topics that all name existing quizzes still do.
   */
  method CreateTopicChecked(db: Database, topic: TopicCreationDto, quizId: int) returns (r: Response<TopicDto>)
    requires db.Valid()
    modifies db`topics, db`nextTopicId
    ensures r.NotFound? <==> forall j :: 0 <= j < |db.quizzes| ==> db.quizzes[j].id != quizId
    ensures r.NotFound? || r.Created?
    ensures r.NotFound? ==>
              r.reason == QuizNotFound(quizId) && db.topics == old(db.topics) && db.nextTopicId == old(db.nextTopicId)
    ensures r.Created? ==>
              r.body == TopicDto(old(db.nextTopicId), topic.name) &&
              db.topics == old(db.topics) + [TopicRow(r.body.id, quizId, topic.name)] &&
              TopicService.GetTopicById(db.topics, r.body.id) == Found(r.body)
    ensures TopicsReferenceQuizzes(old(db.topics), db.quizzes) ==> TopicsReferenceQuizzes(db.topics, db.quizzes)
    ensures db.Valid()
  {
    QuizRepository.GetQuizNeverThrows(db.quizzes, db.nextQuizId, quizId);
    var quiz := QuizService.GetQuizById(db.quizzes, quizId);
    if quiz.Null? {
      r := NotFound(QuizNotFound(quizId));
      return;
    }
    r := CreateTopic(db, topic, quizId);
    if TopicsReferenceQuizzes(old(db.topics), db.quizzes) {
      AppendKeepsReferences(old(db.topics), db.quizzes, TopicRow(r.body.id, quizId, topic.name));
    }
  }

  /** Adding a topic that names an existing quiz keeps every topic's quiz in the table. */
  lemma AppendKeepsReferences(topics: seq<TopicRow>, quizzes: seq<QuizRow>, row: TopicRow)
    requires TopicsReferenceQuizzes(topics, quizzes)
    requires exists j :: 0 <= j < |quizzes| && quizzes[j].id == row.quizId
    ensures TopicsReferenceQuizzes(topics + [row], quizzes)
  {
    var added := topics + [row];
    forall i | 0 <= i < |added|
      ensures exists j :: 0 <= j < |quizzes| && quizzes[j].id == added[i].quizId
    {
      if i < |topics| {
        assert added[i] == topics[i];
      }
    }
  }

  /** What `GET api/topics` lists: every topic, or the topics of one quiz. */
  datatype TopicListing = AllTopics(topics: seq<TopicDto>) | InQuiz(inQuiz: seq<TopicQuizDto>)

  /**
   * `GetAllTopics`: 500 when the quiz lookup threw; 404 when a quiz id is
   * given and no quiz has it; without a quiz id, 204 when no topic is listed
   * and else 200 with every listed topic; with an existing quiz, 200 with
   * that quiz's topics even when there are none.
   */
  function GetAllTopics(quizId: int, quizzes: seq<QuizRow>, topicRows: seq<TopicRepository.TopicQuestionRow>,
                        quizRows: seq<TopicRepository.TopicQuizJoinRow>): (r: Response<TopicListing>)
    ensures r.ServerError? <==> QuizRepository.GetQuiz(quizzes, quizId).Throws?
    ensures r.NotFound? <==> !r.ServerError? && quizId != 0 && forall j :: 0 <= j < |quizzes| ==> quizzes[j].id != quizId
    ensures r.NotFound? ==> r.reason == QuizNotFound(quizId)
    ensures r.NoContent? <==> !r.ServerError? && quizId == 0 && Keys(topicRows, TopicRepository.RowKey) == []
    ensures r.Ok? && r.body.AllTopics? <==> !r.ServerError? && quizId == 0 && Keys(topicRows, TopicRepository.RowKey) != []
    ensures r.Ok? && r.body.AllTopics? ==>
              |r.body.topics| == |Keys(topicRows, TopicRepository.RowKey)| &&
              forall i :: 0 <= i < |r.body.topics| ==>
                var k := Keys(topicRows, TopicRepository.RowKey)[i];
                0 <= IndexOfKey(topicRows, TopicRepository.RowKey, k) &&
                var first := topicRows[IndexOfKey(topicRows, TopicRepository.RowKey, k)].topic;
                r.body.topics[i] == TopicDto(first.id, first.name) && first.id == k
    ensures r.Ok? && r.body.InQuiz? ==>
              quizId != 0 && (exists j :: 0 <= j < |quizzes| && quizzes[j].id == quizId) &&
              |r.body.inQuiz| == |quizRows| &&
              forall i :: 0 <= i < |quizRows| ==>
                r.body.inQuiz[i] == TopicQuizDto(quizRows[i].topic.id, quizRows[i].topic.name, quizRows[i].quiz.name)
    ensures r.Ok? || r.NotFound? || r.NoContent? || r.ServerError?
  {
    var topics := TopicService.GetAllTopics(topicRows);
    var quiz := QuizService.GetQuizById(quizzes, quizId);
    var topicsInQuiz := TopicService.GetAllTopicsByQuizId(quizRows);
    if quiz.Throws? then ServerError
    else if quiz.Null? && quizId != 0 then NotFound(QuizNotFound(quizId))
    else if quizId == 0 && topics == [] then NoContent
    else if quizId == 0 then Ok(AllTopics(topics))
    else Ok(InQuiz(topicsInQuiz))
  }

  /**
   * Without a quiz id, over the inner join of Topics and Questions and a
   * valid Quizzes table: 204 exactly when no topic has a question, else 200
   * listing topics that each have one.
   */
  lemma GetAllTopicsOverJoin(quizzes: seq<QuizRow>, nextQuiz: int, topicRows: seq<TopicRepository.TopicQuestionRow>,
                             topics: seq<TopicRow>, questions: seq<Problem>, quizRows: seq<TopicRepository.TopicQuizJoinRow>)
    requires Identity(quizzes, QuizRowId, nextQuiz)
    requires TopicRepository.InnerJoined(topicRows, topics, questions)
    ensures var r := GetAllTopics(0, quizzes, topicRows, quizRows);
            (r.NoContent? || (r.Ok? && r.body.AllTopics?)) &&
            (r.NoContent? <==> !exists t, q :: t in topics && q in questions && q.topicId == t.id) &&
            (r.Ok? ==> forall i :: 0 <= i < |r.body.topics| ==> exists q :: q in questions && q.topicId == r.body.topics[i].id)
  {
    QuizRepository.GetQuizNeverThrows(quizzes, nextQuiz, 0);
    var ks := Keys(topicRows, TopicRepository.RowKey);
    if topicRows != [] {
      assert TopicRepository.RowKey(topicRows[0]) in ks;
      assert topicRows[0].topic in topics && topicRows[0].question in questions;
    }
    var r := GetAllTopics(0, quizzes, topicRows, quizRows);
    if r.Ok? {
      forall i | 0 <= i < |r.body.topics|
        ensures exists q :: q in questions && q.topicId == r.body.topics[i].id
      {
        assert ks[i] in ks;
        var j :| 0 <= j < |topicRows| && TopicRepository.RowKey(topicRows[j]) == ks[i];
        assert topicRows[j].question in questions;
      }
    }
  }

  /** What `GET api/topics/{id}` shows: the topic with its questions, or the topic alone. */
  datatype TopicView = WithQuestions(withQuestions: Topic) | Plain(plain: TopicDto)

  /**
   * `GetTopic`: 500 when a read threw; 404 when no topic has the id; 200
   * with the topic and its questions when the join has rows, else with the
   * topic alone.
   */
  function GetTopic(id: int, topics: seq<TopicRow>, rows: seq<TopicRepository.TopicQuestionRow>): (r: Response<TopicView>)
    ensures r.ServerError? <==> TopicRepository.GetTopic(topics, id).Throws? || MixedKeys(rows, TopicRepository.RowKey)
    ensures r.NotFound? <==> !r.ServerError? && forall i :: 0 <= i < |topics| ==> topics[i].id != id
    ensures r.NotFound? ==> r.reason == TopicNotFound(id)
    ensures r.Ok? && r.body.WithQuestions? ==>
              SingleKeyed(rows, TopicRepository.RowKey) &&
              r.body.withQuestions == Topic(rows[0].topic.id, rows[0].topic.name, Map(rows, TopicRepository.QuestionOfRow))
    ensures r.Ok? && r.body.Plain? ==>
              rows == [] && r.body.plain.id == id &&
              exists i :: 0 <= i < |topics| && topics[i].id == id && topics[i].name == r.body.plain.name
    ensures r.Ok? || r.NotFound? || r.ServerError?
  {
    var topic := TopicService.GetTopicById(topics, id);
    var topicWithQuestion := TopicService.GetTopicWithQuestion(rows);
    KeysTrichotomy(rows, TopicRepository.RowKey);
    if topic.Throws? || topicWithQuestion.Throws? then ServerError
    else if topic.Null? then NotFound(TopicNotFound(id))
    else if topicWithQuestion.Found? then Ok(WithQuestions(topicWithQuestion.value))
    else Ok(Plain(topic.value))
  }

  /**
   * Over a valid Topics table and the join filtered on the id, `GetTopic`
   * never answers 500: 404 exactly when the topic is missing, its questions
   * exactly when it has one, all of them its own, and the topic alone
   * otherwise.
   */
  lemma GetTopicOverJoin(id: int, topics: seq<TopicRow>, next: int, questions: seq<Problem>,
                         rows: seq<TopicRepository.TopicQuestionRow>)
    requires Identity(topics, TopicRowId, next)
    requires TopicRepository.InnerJoinedOn(rows, topics, questions, id)
    ensures var r := GetTopic(id, topics, rows);
            !r.ServerError? &&
            (r.NotFound? <==> forall i :: 0 <= i < |topics| ==> topics[i].id != id) &&
            (r.Ok? && r.body.WithQuestions? <==> exists t, q :: t in topics && q in questions && t.id == id && q.topicId == id) &&
            (r.Ok? && r.body.WithQuestions? ==>
               var topic := r.body.withQuestions;
               topic.id == id && topic.questions != [] &&
               forall j :: 0 <= j < |topic.questions| ==> topic.questions[j] in questions && topic.questions[j].topicId == id)
  {
    TopicRepository.GetTopicNeverThrows(topics, next, id);
    TopicRepository.GetTopicWithQuestionJoined(rows, topics, questions, id);
    if rows != [] {
      assert rows[0].topic in topics && rows[0].topic.id == id;
    }
  }

  /** `after` is `before` with the topic with the id renamed to `name`. */
  ghost predicate TopicRenamed(before: seq<TopicRow>, after: seq<TopicRow>, id: int, name: NString)
  {
    |after| == |before| &&
    forall i :: 0 <= i < |after| ==> after[i] == if before[i].id == id then before[i].(name := name) else before[i]
  }

  /**
   * After `UpdateTopic` renamed the topic with the id in a valid Topics
   * table, a read by that id finds the new name.
   */
  lemma UpdatedTopicFound(before: seq<TopicRow>, after: seq<TopicRow>, next: int, id: int, name: NString)
    requires Identity(after, TopicRowId, next) && TopicRenamed(before, after, id, name)
    requires exists i :: 0 <= i < |before| && before[i].id == id
    ensures TopicService.GetTopicById(after, id) == Found(TopicDto(id, name))
  {
    var k :| 0 <= k < |before| && before[k].id == id;
    FindsStoredTopic(after, next, k);
  }

  /**
   * `UpdateTopic`: 404 and no change when no topic has the id; otherwise the
   * topic is renamed and the answer is 200 with its id and new name.
   */
  method UpdateTopic(db: Database, id: int, topicToBeUpdated: TopicCreationDto) returns (r: Response<TopicDto>)
    requires db.Valid()
    modifies db`topics
    ensures r.NotFound? <==> forall i :: 0 <= i < |old(db.topics)| ==> old(db.topics)[i].id != id
    ensures r.NotFound? ==> r.reason == TopicNotFound(id) && db.topics == old(db.topics)
    ensures !r.NotFound? ==>
              r == Ok(TopicDto(id, topicToBeUpdated.name)) && TopicRenamed(old(db.topics), db.topics, id, topicToBeUpdated.name)
    ensures db.Valid()
  {
    TopicRepository.GetTopicNeverThrows(db.topics, db.nextTopicId, id);
    var topic := TopicService.GetTopicById(db.topics, id);
    if topic.Null? {
      r := NotFound(TopicNotFound(id));
      return;
    }
    var updatedTopic := TopicService.UpdateTopic(db, id, topicToBeUpdated);
    r := Ok(updatedTopic);
  }

  /**
   * `DeleteTopic`: 404 and no change when no topic has the id; otherwise the
   * topic is removed, after which a read by id finds nothing.
   */
  method DeleteTopic(db: Database, id: int) returns (r: Response<Confirmation>)
    requires db.Valid()
    modifies db`topics
    ensures db.Valid()
    ensures r.NotFound? <==> forall i :: 0 <= i < |old(db.topics)| ==> old(db.topics)[i].id != id
    ensures r.NotFound? || r == Ok(TopicDeleted(id))
    ensures r.NotFound? ==> r.reason == TopicNotFound(id) && db.topics == old(db.topics)
    ensures r.Ok? ==> db.topics == Without(old(db.topics), TopicRowId, id) && TopicService.GetTopicById(db.topics, id).Null?
  {
    TopicRepository.GetTopicNeverThrows(db.topics, db.nextTopicId, id);
    var topic := TopicService.GetTopicById(db.topics, id);
    if topic.Null? {
      r := NotFound(TopicNotFound(id));
      return;
    }
    var _ := TopicService.DeleteTopic(db, id);
    r := Ok(TopicDeleted(id));
  }
}
