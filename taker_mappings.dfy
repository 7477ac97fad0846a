/**
 * Mappings/TakerMappings.cs: the taker projections of the mapping profile.
 * Every taker view carries the scalar fields of `TakerDto`; the list views
 * carry one relation list over unchanged; `TakerQuizDto` reads the name of
 * the taker's only quiz through `Single()`, which throws unless there is
 * exactly one.
 */
module TakerMappings {
  import opened Common
  import opened Models

  /** TakerCreationDto → Taker: name, address and email; the id stays 0 for the service to set. */
  function ToTaker(dto: TakerCreationDto): (t: Taker)
    ensures t.id == 0 && t.name == dto.name && t.address == dto.address && t.email == dto.email
    ensures t.quizzes == [] && t.takerAnswers == [] && t.quizResults == []
  {
    Taker(0, dto.name, dto.address, dto.email, [], [], [])
  }

  /** Taker → TakerDto: id, name, address and email; the relations are dropped. */
  function ToTakerDto(t: Taker): (d: TakerDto)
    ensures d.id == t.id && d.name == t.name && d.address == t.address && d.email == t.email
  {
    TakerDto(t.id, t.name, t.address, t.email)
  }

  /**
   * Taker → TakerQuizDto: the scalars plus the name of the only quiz; `None`
   * is the exception `Single()` raises when the taker has no quiz or several.
   */
  function ToTakerQuizDto(t: Taker): (d: Option<TakerQuizDto>)
    ensures d.Some? <==> |t.quizzes| == 1
    ensures d.Some? ==> TakerDto(d.value.id, d.value.name, d.value.address, d.value.email) == ToTakerDto(t) &&
                        d.value.quizName == t.quizzes[0].name
  {
    if |t.quizzes| == 1 then Some(TakerQuizDto(t.id, t.name, t.address, t.email, t.quizzes[0].name)) else None
  }

  /** Taker → TakerQuizzesDto: the scalars and the quizzes, unchanged. */
  function ToTakerQuizzesDto(t: Taker): (d: TakerQuizzesDto)
    ensures TakerDto(d.id, d.name, d.address, d.email) == ToTakerDto(t) && d.quizzes == t.quizzes
  {
    TakerQuizzesDto(t.id, t.name, t.address, t.email, t.quizzes)
  }

  /** Taker → TakerQuizResultDto: the scalars and the quiz results, unchanged. */
  function ToTakerQuizResultDto(t: Taker): (d: TakerQuizResultDto)
    ensures TakerDto(d.id, d.name, d.address, d.email) == ToTakerDto(t) && d.quizResults == t.quizResults
  {
    TakerQuizResultDto(t.id, t.name, t.address, t.email, t.quizResults)
  }

  /** Taker → TakerAnswersDto: the scalars and the answers, unchanged. */
  function ToTakerAnswersDto(t: Taker): (d: TakerAnswersDto)
    ensures TakerDto(d.id, d.name, d.address, d.email) == ToTakerDto(t) && d.takerAnswers == t.takerAnswers
  {
    TakerAnswersDto(t.id, t.name, t.address, t.email, t.takerAnswers)
  }

  /**
   * A list of takers mapped one-to-one to `TakerQuizDto`; the whole mapping
   * fails as soon as one taker does not have exactly one quiz.
   */
  function ToTakerQuizDtos(ts: seq<Taker>): (ds: Option<seq<TakerQuizDto>>)
    ensures ds.Some? <==> forall i :: 0 <= i < |ts| ==> |ts[i].quizzes| == 1
    ensures ds.Some? ==> |ds.value| == |ts| && forall i :: 0 <= i < |ts| ==> Some(ds.value[i]) == ToTakerQuizDto(ts[i])
  {
    if ts == [] then Some([])
    else
      var init := ToTakerQuizDtos(ts[..|ts| - 1]);
      var last := ToTakerQuizDto(ts[|ts| - 1]);
      if init.Some? && last.Some? then Some(init.value + [last.value]) else None
  }
}
