/**
 * Repositories/QuestionRepository.cs: the reads and writes of the Questions
 * table. No service or controller of this model calls it.
 */
module QuestionRepository {
  import opened Common
  import opened Models
  import opened Store

  /** `CreateQuestion`: inserts the question's topic id and texts and returns the new identity value. */
  method CreateQuestion(db: Database, question: Problem) returns (id: int)
    requires db.Valid()
    modifies db`questions, db`nextQuestionId
    ensures db.Valid()
    ensures id == old(db.nextQuestionId) && id > 0
    ensures forall i :: 0 <= i < |old(db.questions)| ==> old(db.questions)[i].id != id
    ensures db.questions == old(db.questions) + [question.(id := id)]
  {
    id := db.nextQuestionId;
    var row := Problem(id, question.topicId, question.question, question.correctAnswer);
    IdentityMeans(db.questions, QuestionRowId, db.nextQuestionId);
    IdentityAppend(db.questions, QuestionRowId, db.nextQuestionId, row);
    db.questions := db.questions + [row];
    db.nextQuestionId := id + 1;
  }

  /** `GetAllQuestions`: the whole table, in table order. */
  function GetAllQuestions(questions: seq<Problem>): (r: seq<Problem>)
    ensures |r| == |questions|
    ensures forall i :: 0 <= i < |r| ==> r[i] == questions[i]
  {
    questions
  }

  /** `GetAllQuestionsByTopicId`: exactly the questions of the topic, in table order. */
  function GetAllQuestionsByTopicId(questions: seq<Problem>, id: int): (r: seq<Problem>)
    ensures forall q :: q in r <==> q in questions && q.topicId == id
    ensures r == [] <==> forall i :: 0 <= i < |questions| ==> questions[i].topicId != id
  {
    Where(questions, (q: Problem) => q.topicId == id)
  }

  /**
   * The per-topic listings split the full listing: every listed question
   * appears in the listing of its own topic, and a topic's listing holds only
   * questions of the full listing that belong to it.
   */
  lemma TopicListingsCoverAll(questions: seq<Problem>)
    ensures forall i :: 0 <= i < |GetAllQuestions(questions)| ==>
              GetAllQuestions(questions)[i] in GetAllQuestionsByTopicId(questions, GetAllQuestions(questions)[i].topicId)
    ensures forall id, q :: q in GetAllQuestionsByTopicId(questions, id) ==> q in GetAllQuestions(questions) && q.topicId == id
  {
    forall i | 0 <= i < |GetAllQuestions(questions)|
      ensures GetAllQuestions(questions)[i] in GetAllQuestionsByTopicId(questions, GetAllQuestions(questions)[i].topicId)
    {
      assert GetAllQuestions(questions)[i] in questions;
    }
  }

  /** `GetQuestionById`: the question with that id, or null. */
  function GetQuestionById(questions: seq<Problem>, id: int): (r: Lookup<Problem>)
    ensures r.Null? <==> forall i :: 0 <= i < |questions| ==> questions[i].id != id
    ensures r.Found? ==> r.value in questions && r.value.id == id
  {
    RowById(questions, QuestionRowId, id)
  }

  /** With identity keys `GetQuestionById` never meets two rows. */
  lemma GetQuestionByIdNeverThrows(questions: seq<Problem>, next: int, id: int)
    requires Identity(questions, QuestionRowId, next)
    ensures GetQuestionById(questions, id).Found? <==> exists i :: 0 <= i < |questions| && questions[i].id == id
    ensures !GetQuestionById(questions, id).Throws?
  {
    IdentityRowById(questions, QuestionRowId, next, id);
  }

  /** `UpdateQuestion`: sets the text and the correct answer of the question with that id; its topic stays. */
  method UpdateQuestion(db: Database, question: Problem) returns (changed: bool)
    requires db.Valid()
    modifies db`questions
    ensures db.Valid()
    ensures |db.questions| == |old(db.questions)|
    ensures forall i :: 0 <= i < |db.questions| ==>
              db.questions[i] == if old(db.questions)[i].id == question.id
                                 then old(db.questions)[i].(question := question.question, correctAnswer := question.correctAnswer)
                                 else old(db.questions)[i]
    ensures changed <==> exists i :: 0 <= i < |old(db.questions)| && old(db.questions)[i].id == question.id
  {
    var isQuestion := (r: Problem) => r.id == question.id;
    var setTexts := (r: Problem) => r.(question := question.question, correctAnswer := question.correctAnswer);
    var rowsAffected := Count(db.questions, isQuestion);
    IdentityUpdate(db.questions, QuestionRowId, db.nextQuestionId, isQuestion, setTexts);
    db.questions := UpdateWhere(db.questions, isQuestion, setTexts);
    changed := rowsAffected > 0;
  }

  /**
   * `DeleteQuestion`: removes the answers given to the question, then the
   * question; true iff either statement removed a row, so an orphan answer
   * alone also reports success.
   */
  method DeleteQuestion(db: Database, id: int) returns (removed: bool)
    requires db.Valid()
    modifies db`takersAnswers, db`questions
    ensures db.Valid()
    ensures db.takersAnswers == Without(old(db.takersAnswers), TakerAnswerQuestionId, id)
    ensures db.questions == Without(old(db.questions), QuestionRowId, id)
    ensures removed <==> (exists i :: 0 <= i < |old(db.questions)| && old(db.questions)[i].id == id) ||
                         (exists i :: 0 <= i < |old(db.takersAnswers)| && old(db.takersAnswers)[i].questionId == id)
  {
    var answers := db.DeleteTakersAnswers(TakerAnswerQuestionId, id);
    var questions := db.DeleteQuestions(QuestionRowId, id);
    removed := answers + questions > 0;
  }
}
