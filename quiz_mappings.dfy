/**
 * Mappings/QuizMappings.cs: the quiz projections of the mapping profile.
 * Every quiz view carries the scalar fields of `QuizDto`; the list views
 * carry one relation list over unchanged; the single-name views read the
 * first element of a relation list.
 */
module QuizMappings {
  import opened Common
  import opened Models

  /** QuizCreationDto → Quiz: name and description; the id stays 0 for the service to set. */
  function ToQuiz(dto: QuizCreationDto): (q: Quiz)
    ensures q.id == 0 && q.name == dto.name && q.description == dto.description
    ensures q.topics == [] && q.takers == [] && q.quizResults == []
  {
    Quiz(0, dto.name, dto.description, [], [], [])
  }

  /** Quiz → QuizDto: id, name and description; the relations are dropped. */
  function ToQuizDto(q: Quiz): (d: QuizDto)
    ensures d.id == q.id && d.name == q.name && d.description == q.description
  {
    QuizDto(q.id, q.name, q.description)
  }

  /** Quiz → QuizTopicDto: the scalars plus the name of the first topic, which must exist. */
  function ToQuizTopicDto(q: Quiz): (d: QuizTopicDto)
    requires q.topics != []
    ensures QuizDto(d.id, d.name, d.description) == ToQuizDto(q)
    ensures d.topicName == q.topics[0].name
  {
    QuizTopicDto(q.id, q.name, q.description, q.topics[0].name)
  }

  /** Quiz → QuizTakerDto: the scalars plus the name of the first taker, which must exist. */
  function ToQuizTakerDto(q: Quiz): (d: QuizTakerDto)
    requires q.takers != []
    ensures QuizDto(d.id, d.name, d.description) == ToQuizDto(q)
    ensures d.takerName == q.takers[0].name
  {
    QuizTakerDto(q.id, q.name, q.description, q.takers[0].name)
  }

  /** Quiz → QuizTakersDto: the scalars and the takers, unchanged. */
  function ToQuizTakersDto(q: Quiz): (d: QuizTakersDto)
    ensures QuizDto(d.id, d.name, d.description) == ToQuizDto(q) && d.takers == q.takers
  {
    QuizTakersDto(q.id, q.name, q.description, q.takers)
  }

  /** Quiz → QuizTopicsDto: the scalars and the topics, unchanged. */
  function ToQuizTopicsDto(q: Quiz): (d: QuizTopicsDto)
    ensures QuizDto(d.id, d.name, d.description) == ToQuizDto(q) && d.topics == q.topics
  {
    QuizTopicsDto(q.id, q.name, q.description, q.topics)
  }

  /** Quiz → QuizQuizResultDto: the scalars and the quiz results, unchanged. */
  function ToQuizQuizResultDto(q: Quiz): (d: QuizQuizResultDto)
    ensures QuizDto(d.id, d.name, d.description) == ToQuizDto(q) && d.quizResults == q.quizResults
  {
    QuizQuizResultDto(q.id, q.name, q.description, q.quizResults)
  }

  /** A list of quizzes mapped one-to-one, in order, to `QuizTopicDto`. */
  function ToQuizTopicDtos(qs: seq<Quiz>): (ds: seq<QuizTopicDto>)
    requires forall i :: 0 <= i < |qs| ==> qs[i].topics != []
    ensures |ds| == |qs| && forall i :: 0 <= i < |qs| ==> ds[i] == ToQuizTopicDto(qs[i])
  {
    seq(|qs|, i requires 0 <= i < |qs| && qs[i].topics != [] => ToQuizTopicDto(qs[i]))
  }

  /** A list of quizzes mapped one-to-one, in order, to `QuizTakerDto`. */
  function ToQuizTakerDtos(qs: seq<Quiz>): (ds: seq<QuizTakerDto>)
    requires forall i :: 0 <= i < |qs| ==> qs[i].takers != []
    ensures |ds| == |qs| && forall i :: 0 <= i < |qs| ==> ds[i] == ToQuizTakerDto(qs[i])
  {
    seq(|qs|, i requires 0 <= i < |qs| && qs[i].takers != [] => ToQuizTakerDto(qs[i]))
  }
}
