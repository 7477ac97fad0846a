/**
 * Services/TopicService.cs: the topic service maps request bodies to topics,
 * calls the repository and maps what comes back to views, propagating null.
 *
 * The topic mapping profile is not part of this model; its maps are taken to
 * copy the like-named members, as the other profiles do.
 */
module TopicService {
  import opened Common
  import opened Models
  import opened Store
  import opened Fold
  import TopicRepository

  /** `Map<Topic>(TopicCreationDto)`: the name, no id yet, no questions. */
  function ToTopic(dto: TopicCreationDto): Topic
  {
    Topic(0, dto.name, [])
  }

  /** `Map<TopicDto>(Topic)`: the id and the name. */
  function ToTopicDto(t: Topic): TopicDto
  {
    TopicDto(t.id, t.name)
  }

  /** `CreateTopic`: stores the topic under the quiz and answers its view with the new id. */
  method CreateTopic(db: Database, topicToCreate: TopicCreationDto, quizId: int) returns (view: TopicDto)
    requires db.Valid()
    modifies db`topics, db`nextTopicId
    ensures db.Valid()
    ensures view == TopicDto(old(db.nextTopicId), topicToCreate.name)
    ensures view.id > 0 && forall i :: 0 <= i < |old(db.topics)| ==> old(db.topics)[i].id != view.id
    ensures db.topics == old(db.topics) + [TopicRow(view.id, quizId, topicToCreate.name)]
  {
    var topicModel := ToTopic(topicToCreate);
    var id := TopicRepository.CreateTopic(db, topicModel, quizId);
    topicModel := topicModel.(id := id);
    view := ToTopicDto(topicModel);
  }

  /** `GetAllTopics()`: one view per distinct topic of the join, in first-seen order, from its first row. */
  function GetAllTopics(rows: seq<TopicRepository.TopicQuestionRow>): (views: seq<TopicDto>)
    ensures |views| == |Keys(rows, TopicRepository.RowKey)|
    ensures forall i :: 0 <= i < |views| ==>
              var k := Keys(rows, TopicRepository.RowKey)[i];
              0 <= IndexOfKey(rows, TopicRepository.RowKey, k) &&
              var first := rows[IndexOfKey(rows, TopicRepository.RowKey, k)].topic;
              views[i] == TopicDto(first.id, first.name)
  {
    TopicRepository.GetAllTopicsFold(rows);
    Map(TopicRepository.GetAllTopics(rows), ToTopicDto)
  }

  /** `GetAllTopics(quizId)`: the repository's rows, one view per row, unchanged. */
  function GetAllTopicsByQuizId(rows: seq<TopicRepository.TopicQuizJoinRow>): (views: seq<TopicQuizDto>)
    ensures |views| == |rows|
    ensures forall i :: 0 <= i < |views| ==>
              views[i] == TopicQuizDto(rows[i].topic.id, rows[i].topic.name, rows[i].quiz.name)
  {
    TopicRepository.GetAllTopicsByQuizId(rows)
  }

  /** `GetTopicById`: null exactly when no topic row has the id. */
  function GetTopicById(topics: seq<TopicRow>, id: int): (r: Lookup<TopicDto>)
    ensures r.Null? <==> forall i :: 0 <= i < |topics| ==> topics[i].id != id
    ensures r.Throws? <==> TopicRepository.GetTopic(topics, id).Throws?
    ensures r.Found? ==> r.value.id == id && exists i :: 0 <= i < |topics| && topics[i].id == id && topics[i].name == r.value.name
  {
    MapLookup(TopicRepository.GetTopic(topics, id), ToTopicDto)
  }

  /** `GetTopicWithQuestion`: the repository's topic with its questions, passed through. */
  function GetTopicWithQuestion(rows: seq<TopicRepository.TopicQuestionRow>): (r: Lookup<Topic>)
    ensures r.Null? <==> rows == []
    ensures MixedKeys(rows, TopicRepository.RowKey) ==> r.Throws?
    ensures SingleKeyed(rows, TopicRepository.RowKey) ==>
              r == Found(TopicRepository.TopicOf(rows[0].topic).(questions := Map(rows, TopicRepository.QuestionOfRow)))
  {
    TopicRepository.GetTopicWithQuestionFold(rows);
    TopicRepository.GetTopicWithQuestion(rows)
  }

  /** `UpdateTopic`: renames the topic with that id and answers the request's name under that id. */
  method UpdateTopic(db: Database, id: int, topicUpdate: TopicCreationDto) returns (view: TopicDto)
    requires db.Valid()
    modifies db`topics
    ensures db.Valid()
    ensures view == TopicDto(id, topicUpdate.name)
    ensures |db.topics| == |old(db.topics)|
    ensures forall i :: 0 <= i < |db.topics| ==>
              db.topics[i] == if old(db.topics)[i].id == id then old(db.topics)[i].(name := topicUpdate.name) else old(db.topics)[i]
  {
    var topicModel := ToTopic(topicUpdate);
    topicModel := topicModel.(id := id);
    var _ := TopicRepository.UpdateTopic(db, topicModel);
    view := ToTopicDto(topicModel);
  }

  /** `DeleteTopic`: the repository's delete and its answer, passed through. */
  method DeleteTopic(db: Database, id: int) returns (removed: bool)
    requires db.Valid()
    modifies db`topics
    ensures db.Valid()
    ensures db.topics == Without(old(db.topics), TopicRowId, id)
    ensures removed <==> exists i :: 0 <= i < |old(db.topics)| && old(db.topics)[i].id == id
  {
    removed := TopicRepository.DeleteTopic(db, id);
  }
}
