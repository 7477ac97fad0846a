/**
 * Mappings/QuizResultMappings.cs: one outbound copy and two inbound copies
 * that fill only the fields their request body has, leaving the rest at the
 * defaults (id 0, score 0, null strings).
 */
module QuizResultMappings {
  import opened Common
  import opened Models

  /** QuizResult → QuizResultDto: every field copied. */
  function ToQuizResultDto(r: QuizResult): (d: QuizResultDto)
    ensures d.id == r.id && d.quizName == r.quizName && d.takerName == r.takerName
    ensures d.score == r.score && d.evaluation == r.evaluation
  {
    QuizResultDto(r.id, r.quizName, r.takerName, r.score, r.evaluation)
  }

  /** QuizResultUpdateDto → QuizResult: score and evaluation only; id 0 and null names. */
  function FromUpdateDto(dto: QuizResultUpdateDto): (r: QuizResult)
    ensures r.id == 0 && r.quizName == None && r.takerName == None
    ensures r.score == dto.score && r.evaluation == dto.evaluation
  {
    QuizResult(0, None, None, dto.score, dto.evaluation)
  }

  /** QuizResultCreationDto → QuizResult: the two names only; id 0, score 0, null evaluation. */
  function FromCreationDto(dto: QuizResultCreationDto): (r: QuizResult)
    ensures r.id == 0 && r.quizName == dto.quizName && r.takerName == dto.takerName
    ensures r.score == 0 && r.evaluation == None
  {
    QuizResult(0, dto.quizName, dto.takerName, 0, None)
  }
}
