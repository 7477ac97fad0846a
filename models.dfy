/**
 * The entities of the quiz API (Models/) and the data-transfer shapes the
 * services return (Dtos/). Strings are nullable, as in the source.
 *
 * Some DTO classes are not part of this model's source files (QuizDto,
 * QuizCreationDto, QuizTopicDto, QuizTakerDto, QuizTopicsDto, QuizTakersDto,
 * TopicDto, TopicQuizDto, TakerDto, TakerCreationDto, TakerQuizDto,
 * QuizResultsForQuiz, QuizResultsForTakerDto); their fields are the ones the
 * code reads and writes, plus the columns their names suggest.
 */
module Models {
  import opened Common

  /** A question (Models/Question.cs, class Problem); also a row of the Questions table. */
  datatype Problem = Problem(id: int, topicId: int, question: NString, correctAnswer: NString)

  /** A topic as listed inside a quiz. */
  datatype TopicDto = TopicDto(id: int, name: NString)

  /** A taker as listed inside a quiz. */
  datatype TakerDto = TakerDto(id: int, name: NString, address: NString, email: NString)

  /** A quiz without relations; also what a taker's quiz list holds. */
  datatype QuizDto = QuizDto(id: int, name: NString, description: NString)

  /** A quiz result as listed inside a quiz. */
  datatype QuizResultsForQuiz = QuizResultsForQuiz(id: int, takerName: NString, score: int, evaluation: NString)

  /** A quiz result as listed inside a taker. */
  datatype QuizResultsForTakerDto = QuizResultsForTakerDto(id: int, quizName: NString, score: int, evaluation: NString)

  /** Models/Quiz.cs. */
  datatype Quiz = Quiz(
    id: int, name: NString, description: NString,
    topics: seq<TopicDto>, takers: seq<TakerDto>, quizResults: seq<QuizResultsForQuiz>)

  /** Models/Topic.cs. */
  datatype Topic = Topic(id: int, name: NString, questions: seq<Problem>)

  /** Models/TakerAnswer.cs. */
  datatype TakerAnswer = TakerAnswer(id: int, question: NString, answer: NString, status: NString)

  /** Models/Taker.cs. */
  datatype Taker = Taker(
    id: int, name: NString, address: NString, email: NString,
    quizzes: seq<QuizDto>, takerAnswers: seq<TakerAnswer>, quizResults: seq<QuizResultsForTakerDto>)

  /** Models/QuizResult.cs. */
  datatype QuizResult = QuizResult(id: int, quizName: NString, takerName: NString, score: int, evaluation: NString)

  // Request bodies

  datatype QuizCreationDto = QuizCreationDto(name: NString, description: NString)
  datatype TakerCreationDto = TakerCreationDto(name: NString, address: NString, email: NString)
  datatype TopicCreationDto = TopicCreationDto(name: NString)
  datatype QuizResultCreationDto = QuizResultCreationDto(quizName: NString, takerName: NString)
  datatype QuizResultUpdateDto = QuizResultUpdateDto(score: int, evaluation: NString)

  // Response views

  datatype QuizTopicDto = QuizTopicDto(id: int, name: NString, description: NString, topicName: NString)
  datatype QuizTakerDto = QuizTakerDto(id: int, name: NString, description: NString, takerName: NString)
  datatype QuizTopicsDto = QuizTopicsDto(id: int, name: NString, description: NString, topics: seq<TopicDto>)
  datatype QuizTakersDto = QuizTakersDto(id: int, name: NString, description: NString, takers: seq<TakerDto>)
  datatype QuizQuizResultDto = QuizQuizResultDto(
    id: int, name: NString, description: NString, quizResults: seq<QuizResultsForQuiz>)

  datatype TakerQuizDto = TakerQuizDto(id: int, name: NString, address: NString, email: NString, quizName: NString)
  datatype TakerQuizzesDto = TakerQuizzesDto(
    id: int, name: NString, address: NString, email: NString, quizzes: seq<QuizDto>)
  datatype TakerQuizResultDto = TakerQuizResultDto(
    id: int, name: NString, address: NString, email: NString, quizResults: seq<QuizResultsForTakerDto>)
  datatype TakerAnswersDto = TakerAnswersDto(
    id: int, name: NString, address: NString, email: NString, takerAnswers: seq<TakerAnswer>)

  /** A topic listed under its quiz, with the quiz's name. */
  datatype TopicQuizDto = TopicQuizDto(id: int, name: NString, quizName: NString)

  datatype QuizResultDto = QuizResultDto(id: int, quizName: NString, takerName: NString, score: int, evaluation: NString)
}
