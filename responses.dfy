/**
 * What the controllers answer: an HTTP status with its body. The messages of
 * the 404 and 400 answers are represented by what they report, not by their
 * text; the fixed 500 message is the `ServerError` answer itself.
 */
module Responses {
  import opened Common


  /** What a 404 or 400 answer reports. */
  datatype Reason =
    | QuizNotFound(quizId: int)
    | TopicNotFound(topicId: int)
    | TakerNotFound(takerId: int)
    | TakerAndQuizNotFound(takerId: int, quizId: int)
    | QuizResultNotFound(quizResultId: int)
    | TopicHasNoQuizzes
    | TakerHasNoQuizzes
    | BothFiltersGiven
    | QuizAlreadyTaken(takerId: int, quizId: int)
    | NoAnswers

  /** The confirmation text a successful delete answers with. */
  datatype Confirmation =
    | DeleteSuccessful
    | TakerDeleted(takerId: int)
    | TopicDeleted(topicId: int)
    | QuizResultDeleted(quizResultId: int)

  /**
   * An action result: 200 with a body, 201 with a body, 204, 404, 400, or
   * the 500 the catch blocks answer when a call below throws.
   */
  datatype Response<+T> =
    | Ok(body: T)
    | Created(body: T)
    | NoContent
    | NotFound(reason: Reason)
    | BadRequest(reason: Reason)
    | ServerError

  /**
   * The answer of a read below an entity (a quiz's takers, a taker's
   * results): 500 when the read threw; 404 with `missing` when the entity is
   * missing and the read found nothing; 204 when only the read found nothing;
   * else 200 with what it found, whether or not the entity was seen.
   */
  function SubResource<T>(entityExists: bool, view: Lookup<T>, missing: Reason): (r: Response<T>)
    ensures r.ServerError? <==> view.Throws?
    ensures r.NotFound? <==> !entityExists && view.Null?
    ensures r.NotFound? ==> r.reason == missing
    ensures r.NoContent? <==> entityExists && view.Null?
    ensures r.Ok? <==> view.Found?
    ensures r.Ok? ==> r.body == view.value
  {
    match view
    case Throws => ServerError
    case Null => if !entityExists then NotFound(missing) else NoContent
    case Found(v) => Ok(v)
  }
}
