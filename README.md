# Quiz API core, modelled in Dafny

The quiz API is a CRUD web service over seven SQL tables: Quizzes, Topics, Questions, Takers, TakerQuiz (which taker took which quiz), TakersAnswers and QuizResults. Each resource has three layers:

- a **repository** runs SQL or a stored procedure through Dapper;
- a **service** maps models to views with AutoMapper profiles;
- a **controller** chooses the HTTP answer.

This project models those layers:

- **Store** (`store.dfy`). A `Database` class holds the seven tables as `seq` fields, plus one identity counter per table. Its invariant `Valid()` says every id column behaves as an SQL identity: ids are positive, strictly increasing and below the next value.
- **Repositories.** Writes are methods on the database. Their `modifies` frames name the columns they touch, and their contracts give the whole new table. Reads are functions of the tables, or of the rows a query returns.
- **Relational folds** (`fold.dfy`). Dapper multi-mapping followed by `GroupBy(id).Select(first, SelectMany children)` is one generic `FoldGroups`. `DistinctBy` covers the folds that drop duplicate children by id. Lemmas relate both to the reference definitions `Keys`, `Matching` and `IndexOfKey`: one output per distinct key, in first-seen order, from the group's first row, with the children of all its rows.
- **Lookups.** LINQ `SingleOrDefault` yields `Lookup<T> = Null | Found | Throws`. Controllers turn `Throws` into the catch block's 500.
- **Services and mapping profiles** are projections. They propagate null and assign ids.
- **Controllers** return a `Response` datatype: Ok, Created, NoContent, NotFound, BadRequest or ServerError, with a `Reason` in place of the message text. Read endpoints are functions. Write endpoints are methods, and their guards leave the store unchanged.

Where the controllers' documented response codes (the `<response code="…">` comments, such as the 201 at QuizApi/QuizApi/Controllers/QuizResultsController.cs:41) and the code differ, the model follows the code:

- filtered topic and taker listings answer 200 even when they are empty;
- `CreateQuizResult` answers 200 with the record read back, not 201;
- `CreateTopic` never answers 404 (see Findings).

## Model

| member | source | states |
|---|---|---|
| Common.SingleOrDefault | QuizApi/QuizApi/Repositories/QuizRepository.cs:59-64 | null for no elements, the element for exactly one, an exception for more |
| Fold.GroupByIsKeyedMatching | QuizApi/QuizApi/Repositories/QuizRepository.cs:59-64 | grouping yields one group per distinct key, in first-seen order; the group of a key holds exactly the elements with that key, in input order |
| Fold.KeysInFirstSeenOrder | QuizApi/QuizApi/Repositories/QuizRepository.cs:59 | groups come out in the order in which their keys first occur |
| Fold.FoldOfRows | QuizApi/QuizApi/Repositories/QuizRepository.cs:59-64 | the fold gives one output per distinct row key, merged from the first row with that key and all rows with that key |
| Fold.SingleOrDefaultOfFold | QuizApi/QuizApi/Repositories/QuizRepository.cs:59-64 | a single-parent fold is null iff there are no rows; when every row has the same key it is that key's merged group; rows with two keys make it throw |
| Fold.DistinctByKeepsFirsts | QuizApi/QuizApi/Repositories/QuizRepository.cs:84-88 | duplicate removal keeps one element per distinct id, in first-seen order, and the one kept is the first with that id |
| Fold.DistinctByIdsUnique | QuizApi/QuizApi/Repositories/QuizRepository.cs:84-88 | the kept ids are pairwise distinct, every input id is still present, and non-empty input stays non-empty |
| QuizRepository.GetQuiz | QuizApi/QuizApi/Repositories/QuizRepository.cs:37-45 | null iff no quiz row has the id; a found quiz is the row with that id, without relations |
| QuizRepository.GetQuizNeverThrows | QuizApi/QuizApi/Repositories/QuizRepository.cs:37-45 | over identity ids the lookup never throws, and it finds a quiz iff a row has the id |
| QuizRepository.GetQuizByIdWithTopicsFold | QuizApi/QuizApi/Repositories/QuizRepository.cs:47-66 | null for no rows; for one quiz, the first row's quiz with every row's topic in row order and duplicates kept; rows of two quizzes throw |
| QuizRepository.GetQuizWithTakersFold | QuizApi/QuizApi/Repositories/QuizRepository.cs:68-92 | the first row's quiz with one taker per distinct taker id (the first seen); taker ids are pairwise distinct and every row's taker is listed |
| QuizRepository.GetQuizWithQuizResultsFold | QuizApi/QuizApi/Repositories/QuizRepository.cs:94-118 | as for takers: one quiz result per distinct result id, the first kept, ids pairwise distinct |
| QuizRepository.GetAllQuiz | QuizApi/QuizApi/Repositories/QuizRepository.cs:120-128 | every quiz row, in table order, without relations |
| QuizRepository.GetAllQuizByTopicIdFold | QuizApi/QuizApi/Repositories/QuizRepository.cs:130-157 | one quiz per distinct quiz id, in first-seen order, each with its rows' topics and duplicate topic ids dropped |
| QuizRepository.GetAllQuizByTopicIdTopics | QuizApi/QuizApi/Repositories/QuizRepository.cs:149-153 | every listed quiz has a non-empty topic list with distinct ids |
| QuizRepository.GetAllQuizByTopicIdJoined | QuizApi/QuizApi/Repositories/QuizRepository.cs:130-157 | over the join on a topic id, the result is empty when no such topic belongs to an existing quiz; otherwise it is exactly one stored quiz, with its id, name and description, and the topic belongs to it and is the only one listed |
| QuizRepository.GetAllQuizByTakerIdFold | QuizApi/QuizApi/Repositories/QuizRepository.cs:159-185 | one quiz per distinct quiz id, with its rows' takers and duplicate taker ids dropped, so each taker list is non-empty |
| QuizRepository.CheckQuizId | QuizApi/QuizApi/Repositories/QuizRepository.cs:199-207 | the scalar read of the id column is true iff a row has the id and the id is not 0 |
| QuizRepository.CheckQuizIdExact | QuizApi/QuizApi/Repositories/QuizRepository.cs:199-207 | over identity ids the check is true iff a quiz with the id exists |
| QuizRepository.CreateQuiz | QuizApi/QuizApi/Repositories/QuizRepository.cs:26-35 | appends the name and description under a fresh id, which is returned; no other table changes |
| QuizRepository.UpdateQuiz | QuizApi/QuizApi/Repositories/QuizRepository.cs:187-197 | sets name and description of the quiz with the id, and the quiz name of that quiz's results; nothing else changes; true iff a row of either table matched |
| QuizRepository.DeleteQuiz | QuizApi/QuizApi/Repositories/QuizRepository.cs:209-218 | removes the quiz and its taker links; true iff a row was removed |
| TakerRepository.GetAllFold | QuizApi/QuizApi/Repositories/TakerRepository.cs:36-54 | one taker per distinct taker id, in first-seen order, with the quizzes of all its rows and duplicates kept, so it lists as many quizzes as it has rows |
| TakerRepository.GetTaker | QuizApi/QuizApi/Repositories/TakerRepository.cs:77-85 | null iff no taker row has the id; a found taker has that row's scalars and empty quizzes, answers and results |
| TakerRepository.GetTakerNeverThrows | QuizApi/QuizApi/Repositories/TakerRepository.cs:77-85 | over identity ids the lookup never throws, and it finds a taker iff a row has the id |
| TakerRepository.GetTakerWithQuizFold | QuizApi/QuizApi/Repositories/TakerRepository.cs:87-107 | null for no rows; rows of two takers throw; otherwise the first row's taker with every row's quiz |
| TakerRepository.GetTakerWithQuizResultFold | QuizApi/QuizApi/Repositories/TakerRepository.cs:109-134 | null for no rows; otherwise quizzes and results each have one entry per row, and entry i of both comes from row i |
| TakerRepository.GetTakerAnswersFold | QuizApi/QuizApi/Repositories/TakerRepository.cs:136-160 | null for no rows; otherwise one answer per row, whose question text is overwritten with the joined question's text |
| TakerRepository.HasTakerTakenQuizExact | QuizApi/QuizApi/Repositories/TakerRepository.cs:200-208 | the check is true iff a link row holds exactly that (taker, quiz) pair |
| TakerRepository.CreateTaker | QuizApi/QuizApi/Repositories/TakerRepository.cs:25-34 | appends the scalars under a fresh id, which is returned |
| TakerRepository.UpdateTaker | QuizApi/QuizApi/Repositories/TakerRepository.cs:162-172 | sets name, address and email of the taker, and the taker name of its results; nothing else changes; true iff some row matched |
| TakerRepository.DeleteTaker | QuizApi/QuizApi/Repositories/TakerRepository.cs:174-187 | removes the taker, its links, its answers and its results; true iff some table lost a row |
| TakerRepository.LetTakerTakeQuiz | QuizApi/QuizApi/Repositories/TakerRepository.cs:189-198 | appends the link under a fresh id without a duplicate check; afterwards the pair counts as taken |
| TopicRepository.GetAllTopicsFold | QuizApi/QuizApi/Repositories/TopicRepository.cs:36-52 | one topic per distinct topic id, in first-seen order, from its first row, with the questions of all its rows and duplicates kept |
| TopicRepository.GetAllTopicsJoined | QuizApi/QuizApi/Repositories/TopicRepository.cs:36-52 | over the inner join, every listed topic is a stored topic with a question, and every topic with a question is listed; a topic without questions never appears |
| TopicRepository.GetTopicWithQuestionFold | QuizApi/QuizApi/Repositories/TopicRepository.cs:54-74 | null for no rows, an exception for two topics, else the first row's topic with every row's question |
| TopicRepository.GetTopicWithQuestionJoined | QuizApi/QuizApi/Repositories/TopicRepository.cs:54-74 | over the join filtered on the id: null iff the topic is absent or has no question; never throws; every listed question belongs to the topic |
| TopicRepository.GetTopic | QuizApi/QuizApi/Repositories/TopicRepository.cs:76-84 | null iff no topic row has the id; a found topic carries that id and a stored name, and no questions |
| TopicRepository.GetTopicNeverThrows | QuizApi/QuizApi/Repositories/TopicRepository.cs:76-84 | over identity ids the lookup never throws, and it finds a topic iff a row has the id |
| TopicRepository.GetAllTopicsByQuizId | QuizApi/QuizApi/Repositories/TopicRepository.cs:86-101 | one entry per row, not grouped, each carrying its row's topic and its row's quiz name |
| TopicRepository.CreateTopic | QuizApi/QuizApi/Repositories/TopicRepository.cs:25-34 | appends the given quiz id and name under a fresh id, which is returned |
| TopicRepository.UpdateTopic | QuizApi/QuizApi/Repositories/TopicRepository.cs:103-112 | renames the topic with the id and leaves its quiz id and every other row alone; true iff a row matched |
| TopicRepository.DeleteTopic | QuizApi/QuizApi/Repositories/TopicRepository.cs:114-126 | removes the topic with the id; true iff a row was removed |
| QuizResultRepository.GetEvaluation | QuizApi/QuizApi/Repositories/QuizResultRepository.cs:139-154 | always one of the three strings: "Perfect!" iff score equals total, "Passed!" iff otherwise 2·score ≥ total, "Failed" iff otherwise 2·score < total |
| QuizResultRepository.EvaluationMonotone | QuizApi/QuizApi/Repositories/QuizResultRepository.cs:139-154 | for one total, a higher score (not above the total) never earns a lower evaluation |
| QuizResultRepository.EvaluationReadsOnlyNames | QuizApi/QuizApi/Repositories/QuizResultRepository.cs:139-154 | the evaluation depends only on the quiz and taker names |
| QuizResultRepository.CreateQuizResult | QuizApi/QuizApi/Repositories/QuizResultRepository.cs:25-47 | appends a row under a fresh id whose quiz id, taker id, score and evaluation come from the procedures for the two names; the argument's score and evaluation are ignored |
| QuizResultRepository.GetAllQuizResult | QuizApi/QuizApi/Repositories/QuizResultRepository.cs:58-66 | every result, in table order |
| QuizResultRepository.GetQuizResultById | QuizApi/QuizApi/Repositories/QuizResultRepository.cs:68-76 | null iff no row has the id; a found result is a row with that id |
| QuizResultRepository.GetQuizResultByIdNeverThrows | QuizApi/QuizApi/Repositories/QuizResultRepository.cs:68-76 | over identity ids the lookup never throws |
| QuizResultRepository.UpdateQuizResult | QuizApi/QuizApi/Repositories/QuizResultRepository.cs:78-85 | changes only score and evaluation of the row with the id; true iff a row matched |
| QuizResultRepository.DeleteQuizResult | QuizApi/QuizApi/Repositories/QuizResultRepository.cs:49-56 | removes only the row with the id; true iff one was removed |
| QuestionRepository.CreateQuestion | QuizApi/QuizApi/Repositories/QuestionRepository.cs:21-30 | appends topic id, text and correct answer under a fresh id, which is returned |
| QuestionRepository.GetAllQuestions | QuizApi/QuizApi/Repositories/QuestionRepository.cs:32-40 | every question row, in table order |
| QuestionRepository.TopicListingsCoverAll | QuizApi/QuizApi/Repositories/QuestionRepository.cs:32-49 | every question of the full listing appears in its own topic's listing, and a topic's listing holds only its own questions from the full listing |
| QuestionRepository.GetAllQuestionsByTopicId | QuizApi/QuizApi/Repositories/QuestionRepository.cs:41-49 | exactly the questions of that topic; empty iff the topic has none |
| QuestionRepository.GetQuestionById | QuizApi/QuizApi/Repositories/QuestionRepository.cs:51-59 | null iff no question has the id; a found question is stored with that id |
| QuestionRepository.GetQuestionByIdNeverThrows | QuizApi/QuizApi/Repositories/QuestionRepository.cs:51-59 | over identity ids the lookup never throws |
| QuestionRepository.UpdateQuestion | QuizApi/QuizApi/Repositories/QuestionRepository.cs:61-68 | changes text and correct answer of the question with the id; its topic id stays; true iff a row matched |
| QuestionRepository.DeleteQuestion | QuizApi/QuizApi/Repositories/QuestionRepository.cs:69-79 | removes the answers to the question, then the question; true iff either removed a row |
| QuizMappings.ToQuiz | QuizApi/QuizApi/Mappings/QuizMappings.cs:13 | name and description copied; id 0 for the service to set; no relations |
| QuizMappings.ToQuizDto | QuizApi/QuizApi/Mappings/QuizMappings.cs:14 | id, name and description kept |
| QuizMappings.ToQuizTopicDto | QuizApi/QuizApi/Mappings/QuizMappings.cs:15 | the quiz scalars plus the name of the first topic, defined only when there is a topic |
| QuizMappings.ToQuizTakerDto | QuizApi/QuizApi/Mappings/QuizMappings.cs:16 | the quiz scalars plus the name of the first taker, defined only when there is a taker |
| QuizMappings.ToQuizTakersDto | QuizApi/QuizApi/Mappings/QuizMappings.cs:17 | the quiz scalars and the takers, unchanged |
| QuizMappings.ToQuizTopicsDto | QuizApi/QuizApi/Mappings/QuizMappings.cs:18 | the quiz scalars and the topics, unchanged |
| QuizMappings.ToQuizQuizResultDto | QuizApi/QuizApi/Mappings/QuizMappings.cs:19 | the quiz scalars and the results, unchanged |
| QuizMappings.ToQuizTopicDtos | QuizApi/QuizApi/Mappings/QuizMappings.cs:15 | a list mapped one to one, in order |
| QuizMappings.ToQuizTakerDtos | QuizApi/QuizApi/Mappings/QuizMappings.cs:16 | a list mapped one to one, in order |
| TakerMappings.ToTaker | QuizApi/QuizApi/Mappings/TakerMappings.cs:11 | name, address and email copied; id 0 for the service to set; no relations |
| TakerMappings.ToTakerDto | QuizApi/QuizApi/Mappings/TakerMappings.cs:12 | id, name, address and email kept |
| TakerMappings.ToTakerQuizDto | QuizApi/QuizApi/Mappings/TakerMappings.cs:13-14 | succeeds iff the taker has exactly one quiz, and then carries that quiz's name |
| TakerMappings.ToTakerQuizzesDto | QuizApi/QuizApi/Mappings/TakerMappings.cs:15 | the taker scalars and the quizzes, unchanged |
| TakerMappings.ToTakerQuizResultDto | QuizApi/QuizApi/Mappings/TakerMappings.cs:16 | the taker scalars and the results, unchanged |
| TakerMappings.ToTakerAnswersDto | QuizApi/QuizApi/Mappings/TakerMappings.cs:17 | the taker scalars and the answers, unchanged |
| TakerMappings.ToTakerQuizDtos | QuizApi/QuizApi/Mappings/TakerMappings.cs:13-14 | the list maps iff every taker has exactly one quiz, and then one to one, in order |
| QuizResultMappings.ToQuizResultDto | QuizApi/QuizApi/Mappings/QuizResultMappings.cs:11 | every field copied |
| QuizResultMappings.FromUpdateDto | QuizApi/QuizApi/Mappings/QuizResultMappings.cs:12 | score and evaluation only; id 0 and null names |
| QuizResultMappings.FromCreationDto | QuizApi/QuizApi/Mappings/QuizResultMappings.cs:13 | the two names only; id 0, score 0, null evaluation |
| QuizService.CreateQuiz | QuizApi/QuizApi/Services/QuizService.cs:19-26 | the view carries the new id and the input fields, and the quiz is stored |
| QuizService.GetAllQuizzes | QuizApi/QuizApi/Services/QuizService.cs:28-33 | one view per quiz row, in table order |
| QuizService.GetAllQuizzesByTopicId | QuizApi/QuizApi/Services/QuizService.cs:35-40 | the repository's quizzes mapped one to one, in order |
| QuizService.GetAllQuizzesByTopicIdViews | QuizApi/QuizApi/Services/QuizService.cs:35-40 | each view shows the quiz of the first row of its quiz id, and that row's topic name |
| QuizService.GetAllQuizzesByTakerId | QuizApi/QuizApi/Services/QuizService.cs:42-47 | the repository's quizzes mapped one to one, in order |
| QuizService.GetAllQuizzesByTakerIdViews | QuizApi/QuizApi/Services/QuizService.cs:42-47 | each view shows the quiz of the first row of its quiz id, and that row's taker name |
| QuizService.GetQuizById | QuizApi/QuizApi/Services/QuizService.cs:49-55 | null iff the repository's read is null; an exception stays one; a found view is a stored quiz with the id |
| QuizService.GetQuizByIdWithTopics | QuizApi/QuizApi/Services/QuizService.cs:56-62 | null iff the query has no rows; otherwise the first row's quiz with every row's topic |
| QuizService.GetQuizByIdWithTakers | QuizApi/QuizApi/Services/QuizService.cs:63-69 | null iff the query has no rows; otherwise one taker per distinct taker id |
| QuizService.GetQuizByIdWithQuizResults | QuizApi/QuizApi/Services/QuizService.cs:71-77 | null iff the query has no rows; otherwise one result per distinct result id |
| QuizService.UpdateQuiz | QuizApi/QuizApi/Services/QuizService.cs:79-86 | answers the argument id with the input fields, whatever the repository reported, after the two-table update |
| QuizService.DeleteQuiz | QuizApi/QuizApi/Services/QuizService.cs:88-91 | the repository's delete and its boolean, unchanged |
| QuizService.CheckQuizById | QuizApi/QuizApi/Services/QuizService.cs:93-96 | the repository's existence check, unchanged |
| TakerService.CreateTaker | QuizApi/QuizApi/Services/TakerService.cs:19-26 | the view carries the new id and the input fields, and the taker is stored |
| TakerService.GetAllTakers | QuizApi/QuizApi/Services/TakerService.cs:28-32 | one view per distinct taker, in first-seen order, from its first row |
| TakerService.GetAllTakersByQuizId | QuizApi/QuizApi/Services/TakerService.cs:34-38 | the mapping succeeds iff every taker appears in exactly one row |
| TakerService.GetAllTakersByQuizIdDistinct | QuizApi/QuizApi/Services/TakerService.cs:34-38 | when no taker appears in two rows, one view per row, named after the row's quiz |
| TakerService.GetTakerById | QuizApi/QuizApi/Services/TakerService.cs:40-46 | null iff the repository's read is null; a found taker has no quizzes |
| TakerService.GetTakerWithQuizById | QuizApi/QuizApi/Services/TakerService.cs:48-54 | null iff the query has no rows; otherwise every row's quiz |
| TakerService.GetTakerWithQuizResultById | QuizApi/QuizApi/Services/TakerService.cs:56-62 | null iff the query has no rows; rows of two takers throw; otherwise the first row's taker (id, name, address, email) with every row's result, in row order |
| TakerService.GetTakerAnswersById | QuizApi/QuizApi/Services/TakerService.cs:64-70 | null iff the query has no rows; rows of two takers throw; otherwise the first row's taker (id, name, address, email) with every row's answer, its question text taken from the joined question |
| TakerService.DeleteTaker | QuizApi/QuizApi/Services/TakerService.cs:72-75 | the cascade: the taker, its links, its answers and its results are removed, and nothing else; true iff some table lost a row |
| TakerService.UpdateTaker | QuizApi/QuizApi/Services/TakerService.cs:77-85 | answers the argument id with the input fields, whatever the repository reported |
| TakerService.LetTakerTakeQuiz | QuizApi/QuizApi/Services/TakerService.cs:87-90 | the repository's link insert, unchanged |
| TakerService.HasTakerTakenQuiz | QuizApi/QuizApi/Services/TakerService.cs:92-95 | true only when a link row holds the pair; when no link id is 0, true exactly when one does |
| TopicService.CreateTopic | QuizApi/QuizApi/Services/TopicService.cs:20-27 | the view carries the new id and the input name, and the topic is stored under the quiz id |
| TopicService.GetAllTopics | QuizApi/QuizApi/Services/TopicService.cs:29-33 | one view per distinct topic, in first-seen order, from its first row |
| TopicService.GetAllTopicsByQuizId | QuizApi/QuizApi/Services/TopicService.cs:35-39 | one view per row, unchanged |
| TopicService.GetTopicById | QuizApi/QuizApi/Services/TopicService.cs:41-47 | null iff no topic has the id; an exception stays one; a found view has a stored name |
| TopicService.GetTopicWithQuestion | QuizApi/QuizApi/Services/TopicService.cs:49-52 | the repository's topic, unmapped: null iff no rows, found as the first row's topic with every question when the rows share one topic |
| TopicService.UpdateTopic | QuizApi/QuizApi/Services/TopicService.cs:54-62 | answers the argument id with the input name after renaming |
| TopicService.DeleteTopic | QuizApi/QuizApi/Services/TopicService.cs:64-67 | the repository's delete and its boolean, unchanged |
| QuizResultService.CreateQuizResult | QuizApi/QuizApi/Services/QuizResultService.cs:18-26 | the view has the new id and the input names, but score 0 and a null evaluation; the stored row holds the derived values |
| QuizResultService.GetAllQuizResult | QuizApi/QuizApi/Services/QuizResultService.cs:28-32 | one view per result, in table order |
| QuizResultService.GetQuizResultById | QuizApi/QuizApi/Services/QuizResultService.cs:34-40 | null iff no result has the id; an exception stays one; a found view is that row's |
| QuizResultService.UpdateQuizResult | QuizApi/QuizApi/Services/QuizResultService.cs:42-50 | the view has the argument id, the input score and evaluation, and null names |
| QuizResultService.DeleteQuizResult | QuizApi/QuizApi/Services/QuizResultService.cs:51-54 | the repository's delete and its boolean, unchanged |
| Responses.SubResource | QuizApi/QuizApi/Controllers/TakersController.cs:223-228 | 500 iff the nested read threw; 404 iff the entity is missing and the read is null; 204 iff only the read is null; else 200 with it |
| QuizController.FindsStoredQuiz | QuizApi/QuizApi/Controllers/QuizController.cs:53-57 | in a valid table, the route a created quiz names finds that quiz |
| QuizController.CreateQuiz | QuizApi/QuizApi/Controllers/QuizController.cs:53-57 | 201 with the new quiz, which is stored and which a read by its id finds |
| QuizController.GetAllQuizzes | QuizApi/QuizApi/Controllers/QuizController.cs:100-135 | 400, with its reason, iff both filters are given; 404 only with one of the four reasons, for a missing topic or taker or for one without quizzes; 204 only when there are no quizzes; without filters and with quizzes stored, 200 with every quiz; 200 listings are non-empty and of the kind the filters select |
| QuizController.GetAllQuizzesNeverFails | QuizApi/QuizApi/Controllers/QuizController.cs:100-135 | over identity ids the listing never answers 500 |
| QuizController.GetAllQuizzesOfTopic | QuizApi/QuizApi/Controllers/QuizController.cs:119-128 | filtering by an existing topic gives 404 iff the topic's quiz is gone, and otherwise 200 with one entry: that stored quiz's id, name and description plus the topic's name |
| QuizController.GetAllQuizzesOfFoundTaker | QuizApi/QuizApi/Controllers/QuizController.cs:115-130 | with the taker found, no topic filter and quizzes stored, 404 "not associated" iff the taker's listing is empty, else 200 with it |
| QuizController.GetAllQuizzesOfTaker | QuizApi/QuizApi/Controllers/QuizController.cs:100-135 | over identity ids, filtering by an existing taker with quizzes stored answers 404 "not associated" iff its listing is empty, else 200 with that listing |
| QuizController.GetAllQuizzesUnfiltered | QuizApi/QuizApi/Controllers/QuizController.cs:100-135 | over identity ids, without filters: 204 iff there are no quizzes, else 200 with every quiz |
| QuizController.GetQuiz | QuizApi/QuizApi/Controllers/QuizController.cs:179-199 | 404 only when both reads are null; prefers the view with topics; 500 iff a read threw |
| QuizController.GetQuizWithoutTopics | QuizApi/QuizApi/Controllers/QuizController.cs:186-192 | a stored quiz without topics is shown alone |
| QuizController.GetQuizByIdWithTakers | QuizApi/QuizApi/Controllers/QuizController.cs:235-253 | 404 iff the quiz is missing and there are no rows; 204 iff it exists without takers; the 200 body is the first row's quiz (id, name and description) with its takers, kept DistinctBy id |
| QuizController.GetQuizByIdWithQuizResults | QuizApi/QuizApi/Controllers/QuizController.cs:289-307 | 404 iff the quiz is missing and there are no rows; 204 iff it exists without results; the 200 body is the first row's quiz (id, name and description) with its results, kept DistinctBy id |
| QuizController.UpdateQuiz | QuizApi/QuizApi/Controllers/QuizController.cs:337-355 | 404 and no change iff the quiz is missing; otherwise the two-table update and 200 with the quiz that a read then finds |
| QuizController.DeleteQuiz | QuizApi/QuizApi/Controllers/QuizController.cs:378-395 | 404 and no change iff the quiz is missing; otherwise the quiz and its links are gone and a read finds nothing |
| TakersController.FindsStoredTaker | QuizApi/QuizApi/Controllers/TakersController.cs:51-63 | in a valid table, looking up a stored taker by its id answers that taker |
| TakersController.UpdatedTakerFound | QuizApi/QuizApi/Controllers/TakersController.cs:328-345 | after an update, a read by the id finds the new fields |
| TakersController.CreateTaker | QuizApi/QuizApi/Controllers/TakersController.cs:51-63 | 201 with the new taker, which is stored and which a read by its id finds |
| TakersController.GetAllTakers | QuizApi/QuizApi/Controllers/TakersController.cs:101-125 | 404 for a quiz id no quiz has; without a quiz id, 204 iff there are no takers, else 200 with all; with a quiz, 200 even when empty; 500 iff a read threw |
| TakersController.GetAllTakersOfQuiz | QuizApi/QuizApi/Controllers/TakersController.cs:117-118 | for an existing quiz whose takers each took it once, 200 with one entry per row, and 200 with an empty list when there are none |
| TakersController.GetTaker | QuizApi/QuizApi/Controllers/TakersController.cs:159-179 | 404 only when both reads are null; prefers the view with quizzes; 500 iff a read threw |
| TakersController.GetTakerQuizResults | QuizApi/QuizApi/Controllers/TakersController.cs:216-235 | 500 iff a read threw; 404 iff the taker is missing and there are no rows; 204 iff it exists without results; else 200 with the rows' one taker, its name, address and email, and every row's result |
| TakersController.GetTakerAnswers | QuizApi/QuizApi/Controllers/TakersController.cs:278-297 | 500 iff a read threw; 404 iff the taker is missing and there are no rows; 204 iff it exists without answers; else 200 with the rows' one taker, its name, address and email, and every row's answer |
| TakersController.UpdateTaker | QuizApi/QuizApi/Controllers/TakersController.cs:328-345 | 404 and no change iff the taker is missing; otherwise the taker and its results' taker name are updated and the answer is 200 with the new fields |
| TakersController.DeleteTaker | QuizApi/QuizApi/Controllers/TakersController.cs:367-384 | 404 and no change iff the taker is missing; otherwise the taker, links, answers and results are gone and a read finds nothing |
| TakersController.LinkCheck | QuizApi/QuizApi/Controllers/TakersController.cs:428-436 | the guards in source order: both missing, taker missing, quiz missing, then already taken, each answered exactly in its case |
| TakersController.LinkCheckOfTables | QuizApi/QuizApi/Controllers/TakersController.cs:428-436 | over identity ids the guards never answer 500; 404 exactly for a missing taker or quiz; 400 exactly when the pair is linked |
| TakersController.LinkingUntakenKeepsDistinct | QuizApi/QuizApi/Controllers/TakersController.cs:435-441 | linking a pair that the check found untaken keeps every pair linked at most once |
| TakersController.LetTakerTakeQuiz | QuizApi/QuizApi/Controllers/TakersController.cs:420-448 | when a guard stops the request, its answer with no change; otherwise exactly one link is added and the answer is the taker read back with its quizzes |
| TopicsController.FindsStoredTopic | QuizApi/QuizApi/Controllers/TopicsController.cs:53-70 | in a valid table, the route a created topic names finds that topic |
| TopicsController.CreateTopic | QuizApi/QuizApi/Controllers/TopicsController.cs:53-70 | as written: always 201; the topic is stored under the given quiz id, whether or not that quiz exists, and a read by its id finds it |
| TopicsController.CreateTopicDangles | QuizApi/QuizApi/Controllers/TopicsController.cs:57-62 | creating under a quiz id that no quiz has leaves a topic naming a missing quiz |
| TopicsController.CreateTopicChecked | QuizApi/QuizApi/Controllers/TopicsController.cs:53-70 | corrected: 404 and no change iff no quiz has the id; otherwise 201 as above; topics that all name existing quizzes still do |
| TopicsController.GetAllTopics | QuizApi/QuizApi/Controllers/TopicsController.cs:104-127 | 500 iff the quiz read threw; 404 iff a quiz id is given and missing; without a quiz id, 204 iff no topic is listed, else 200 with one entry per distinct topic, in first-seen order, giving the id and name from its first row; with a quiz, 200 with its topics even when empty |
| TopicsController.GetAllTopicsOverJoin | QuizApi/QuizApi/Controllers/TopicsController.cs:115-119 | without a quiz id, 204 iff no topic has a question; otherwise 200, and every listed topic has a question |
| TopicsController.GetTopic | QuizApi/QuizApi/Controllers/TopicsController.cs:153-173 | 404 iff the plain read is null; prefers the view with questions; 500 iff a read threw |
| TopicsController.GetTopicOverJoin | QuizApi/QuizApi/Controllers/TopicsController.cs:153-173 | over a valid table: never 500; 404 iff the topic is missing; questions shown iff it has one, all of them its own |
| TopicsController.UpdatedTopicFound | QuizApi/QuizApi/Controllers/TopicsController.cs:202-219 | after a rename, a read by the id finds the new name |
| TopicsController.UpdateTopic | QuizApi/QuizApi/Controllers/TopicsController.cs:202-219 | 404 and no change iff the topic is missing; otherwise only its name changes and the answer is 200 with the id and the new name |
| TopicsController.DeleteTopic | QuizApi/QuizApi/Controllers/TopicsController.cs:241-258 | 404 and no change iff the topic is missing; otherwise it is gone, a read finds nothing, and the answer confirms the id |
| QuizResultsController.FindsStoredResult | QuizApi/QuizApi/Controllers/QuizResultsController.cs:140-155 | in a valid table, looking up a stored result by its id answers that result |
| QuizResultsController.CreateQuizResult | QuizApi/QuizApi/Controllers/QuizResultsController.cs:50-70 | 400 and no change iff the total score for the two names is 0; otherwise exactly one derived row is added and the answer is 200, not 201, with that row read back |
| QuizResultsController.GetAllQuizResult | QuizApi/QuizApi/Controllers/QuizResultsController.cs:108-112 | always 200, one view per result, even when there are none |
| QuizResultsController.GetQuizResultById | QuizApi/QuizApi/Controllers/QuizResultsController.cs:140-155 | 404 iff no result has the id; 500 iff the read threw; else 200 with the stored result |
| QuizResultsController.GetQuizResultByIdOfTable | QuizApi/QuizApi/Controllers/QuizResultsController.cs:140-155 | over a valid table, never 500, and a stored result is shown as stored |
| QuizResultsController.RescoredResultFound | QuizApi/QuizApi/Controllers/QuizResultsController.cs:184-201 | after a rescore, a read by the id finds the names with the new score and evaluation |
| QuizResultsController.UpdateQuizResult | QuizApi/QuizApi/Controllers/QuizResultsController.cs:184-201 | 404 and no change iff the result is missing; otherwise only score and evaluation change, and the answer is 200 with the record read back |
| QuizResultsController.DeleteQuizResult | QuizApi/QuizApi/Controllers/QuizResultsController.cs:225-242 | 404 and no change iff the result is missing; otherwise it is gone, a read finds nothing, and the answer confirms the id |

## Left out

- Stored-procedure bodies and SQL text are not visible. Each procedure read takes its result rows as a parameter. Each visible join takes its rows as a parameter, with a predicate saying they are the inner join. The four score procedures of QuizResultRepository are deterministic functions of the two names.
- Delete cascades follow only the stored-procedure documentation in the interface files: a quiz takes its taker links; a taker takes its links, answers and results. DeleteTopic removes only the topic row. What the database does to that topic's questions is not part of this model.
- The database schema, its foreign keys and its constraints are not part of this model. Identity columns are modelled by the `Valid()` invariant; database errors such as constraint violations or lost connections are left out. So a write never answers 500 here, and the 500 answers come only from the exceptions the model raises (a `SingleOrDefault` over two groups, `Single()` in the TakerQuizDto mapping).
- async/await, connection handling and the internals of Dapper multi-mapping: every call completes in order. The one exception is the un-awaited lookup in `CreateTopic`, which is modelled as having no effect.
- Logging and message texts: a `Reason` value names what a 404 or 400 reports. `CreatedAtRoute` is modelled by its status and body, without the location header.
- Program.cs (dependency injection, Swagger, the HTTP pipeline) and the DTO validation attributes, which the framework applies before the core runs.
- Floating point: `GetEvaluation` compares `2 * score` with the total, which equals the source's comparison with `totalScore * 0.5` for integer operands.
- Several DTO classes and the topic mapping profile are not part of this model. Their fields are the ones the code uses, and the topic maps copy like-named members.
- Concurrency and the non-atomic two-statement updates.
- TakersController.LetTakerTakeQuiz: the answer body is an optional taker, because the source's `Ok(null)` is `Ok(None)` here. The ensures does not repeat that pairs stay distinct; `LinkingUntakenKeepsDistinct` states that.
- TakersController.UpdateTaker: the ensures does not restate the read-back; `UpdatedTakerFound` states it.
- TopicsController.UpdateTopic: the ensures does not restate the read-back; `UpdatedTopicFound` states it.
- TopicService.GetAllTopics: the property that topics without questions are not listed is stated on the repository fold (`TopicRepository.GetAllTopicsJoined`) and on the controller (`TopicsController.GetAllTopicsOverJoin`), not on the service.
- TakerRepository.DeleteTaker: the boolean is stated as "some table lost a row", which is how the source counts affected rows across the cascade.
- QuestionRepository: no service or controller calls it, so it is modelled at the repository level only.
- The interface files (`I*.cs`) only carry documentation. They are cited for the cascades and are not modelled as code.

## Findings

| source | as written | input that shows it | evidently intended | confidence | as-written member | corrected member |
|---|---|---|---|---|---|---|
| QuizApi/QuizApi/Controllers/TopicsController.cs:57-60 | `GetQuizById(quizId)` is not awaited, so `quiz == null` tests a task, which is never null; the 404 branch is dead, and a topic is created under any quiz id | `POST api/topics?quizId=7` when no quiz has id 7 creates a topic that names quiz 7 | 404 "Quiz not found" and no topic when no quiz has the id | not executed; high, since the unawaited task is a non-null reference | TopicsController.CreateTopic, TopicsController.CreateTopicDangles | TopicsController.CreateTopicChecked |
