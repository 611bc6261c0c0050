# BrainThrust learning-progress and assessment engine, in Dafny

This project models the core of the BrainThrust e-learning backend: the rules
that decide what a learner may complete and what a learner has completed.

- **Content hierarchy.** The catalog holds subjects, their topics and the
  topics' lessons. Every read goes through the global soft-delete filter.
- **Completion cascade.** The learning-progress repository marks a lesson
  completed, then re-derives topic and subject completion from counts.
- **Second upsert.** The learning-progress service has a non-cascading
  upsert, which the lesson-completion endpoint uses. It also holds the
  id-ordered queries the endpoint's gate is built from.
- **Lesson-completion gate.** The endpoint runs a fixed sequence of
  early-exit checks: user, lesson, enrollment, earlier lessons, earlier
  topics, quiz. The lesson lookup joins the lesson's topic and subject, so
  a lesson under a soft-deleted topic or subject is not found.
- **Quizzes.** One quiz per topic. Questions carry 3 to 5 options and an
  answer key. A submission is graded into an attempt and answer rows.
  Learners get a view without the answer key.
- **Enrollment.** A small state machine per (user, subject): absent,
  active, removed.
- **Database context.** Each save rewrites the tracked entries first: audit
  stamps, and a physical delete turned into a soft delete.
- **Accounts.** The password policy; registration with the
  first-user-is-admin rule; profile update; the password-reset token
  lifecycle.
- **Mappers.** The user, subject, topic and lesson mappers.

Tables are sequences of rows in storage order. `FirstOrDefault` is "the first
row satisfying the predicate". Every catalog, quiz, enrollment and user read
skips rows whose `IsDeleted` flag is set, as the query filter does.

State is modelled in two layers:

- Where the source updates state, a class holds the table as a `seq` field.
  Its methods are proved equal to a specification function of the old state:
  `LearningProgressRepository`, `LearningProgressService`,
  `LearningProgressController`, `QuizRepository`, `QuizService`,
  `QuestionStore`, `EnrollmentController`, `UserController` and
  `ChangeTracker`.
- The lemmas state what those functions mean: invariants kept, iff
  characterisations, round trips, idempotence and concrete cases.

Outside inputs are parameters:

- the clock (`now`);
- the signed-in user id (`Option<int>`, `None` when there is no claim);
- password hashes and salts;
- the random reset token;
- the next identity value of a table.

Files, one module each:

- `common.dfy`: nullable values, C# string tests, first-match, filter,
  ordering.
- `entities.dfy`: the persisted records and the filtered lookups.
- `db_context.dfy`: `HandleSoftDelete`, both save paths, the query filter.
- `progress_store.dfy`: the progress-row tables and the two upserts.
- `progress_repository.dfy`: the cascading completion writer.
- `progress_service.dfy`: the non-cascading upsert and the gate's queries.
- `progress_gate.dfy`: the lesson-completion endpoint.
- `question.dfy`: `GetCorrectOption`, option validation, `AddQuestionAsync`.
- `question_mapper.dfy`, `quiz_mapper.dfy`: the question and quiz views.
- `quiz_repository.dfy`: quiz creation, deletion, submission and grading.
- `quiz_service.dfy`: the quiz service.
- `enrollment.dfy`: the enrollment controller.
- `password.dfy`: the password policy.
- `user_mapper.dfy`, `users.dfy`: the user mapper and the user controller
  rules.
- `catalog_mappers.dfy`: the subject, topic and lesson mappers.

## Model

| member | source | states |
|---|---|---|
| Common.ToLower | src/Mappers/UserMapper.cs:28 | lowercasing keeps the length and maps every character by the ASCII lower-case rule |
| Common.ToLowerIdempotent | src/Controllers/UserController.cs:101-108 | lowercasing an already lowercased email changes nothing, so the stored email equals its own lowercase form |
| Common.FindFirst | src/Models/Entities/Question.cs:28 | `FirstOrDefault`: the index found satisfies the predicate and no earlier element does; none is found iff no element satisfies it |
| Common.Filter | src/Data/ApplicationDbContext.cs:61-73 | `Where`: an element is kept iff it is in the input and satisfies the predicate |
| Common.SortBy | src/Services/LearningProgressService.cs:94-100 | `OrderBy`: the result is sorted by the key and is a permutation of the input |
| Common.LatestBy | src/Services/LearningProgressService.cs:67-73 | `OrderByDescending(..).FirstOrDefault()`: none only on an empty input; otherwise an element whose key is at least every key (missing keys lowest), the first such |
| Entities.FindSubject | src/Controllers/EnrollmentController.cs:134-139 | returns a visible subject with the id, and none iff every row with that id is soft-deleted |
| Entities.FindTopic | src/Repositories/Classes/LearningProgressRepository.cs:93-96 | returns a visible topic with the id, and none iff every row with that id is soft-deleted |
| Entities.FindLesson | src/Repositories/Classes/LearningProgressRepository.cs:42-45 | returns a visible lesson with the id, and none iff every row with that id is soft-deleted |
| Entities.FindLessonUnique | src/Data/ApplicationDbContext.cs:61-73 | with unique ids, the lookup of a visible lesson's id returns that very lesson |
| Entities.FindTopicUnique | src/Data/ApplicationDbContext.cs:61-73 | with unique ids, the lookup of a visible topic's id returns that very topic |
| Entities.QuizOfTopic | src/Repositories/Classes/QuizRepository.cs:19-22 | the topic's quiz is a visible quiz of that topic; none iff every quiz row of the topic is soft-deleted |
| Entities.QuizById | src/Repositories/Classes/QuizRepository.cs:61-68 | the quiz found is visible and has the id; none iff every row with the id is soft-deleted |
| Entities.QuizQuestions | src/Repositories/Classes/QuizRepository.cs:61-63 | the loaded `Questions` are exactly the visible questions of the quiz |
| Entities.FindQuestion | src/Repositories/Classes/QuizRepository.cs:102-106 | a question is found by id alone, from any quiz; none iff every row with the id is soft-deleted |
| DbContext.HandledAll | src/Data/ApplicationDbContext.cs:88-108 | every entry is rewritten by the per-state rule, in place and in order |
| DbContext.HandledEffect | src/Data/ApplicationDbContext.cs:94-105 | Added entries get both stamps; Modified entries get a new `Modified` and keep `Created`; Deleted entries become Modified, flagged and dated, other fields kept; other states are untouched; no entry stays Deleted and no key changes |
| DbContext.ReplaceById | src/Data/ApplicationDbContext.cs:98-105 | an update by key replaces exactly the rows with that key |
| DbContext.PendingCount | src/Data/ApplicationDbContext.cs:76-86 | the count a save returns is at most the number of entries, and 0 iff no entry is Added, Modified or Deleted |
| DbContext.AcceptedAll | src/Data/ApplicationDbContext.cs:76-86 | after a save every entry is accepted, in place and in order |
| DbContext.PersistKeepsRows | src/Data/ApplicationDbContext.cs:101-105 | once no entry is Deleted, persisting removes no stored row |
| DbContext.Query | src/Data/ApplicationDbContext.cs:61-73 | a read sees a row iff it is stored and not soft-deleted, unless it ignores filters, in which case it sees the table |
| DbContext.SoftDeleteHidesRow | src/Data/ApplicationDbContext.cs:61-105 | removing a row keeps it stored, flagged and dated; a filtered read no longer sees its key; an unfiltered read still does |
| DbContext.ChangeTracker.constructor | src/Data/ApplicationDbContext.cs:76-86 | starts with no tracked entries over the given table |
| DbContext.ChangeTracker.Track | src/Data/ApplicationDbContext.cs:76-86 | tracking appends one entry |
| DbContext.ChangeTracker.HandleSoftDelete | src/Data/ApplicationDbContext.cs:88-108 | the loop leaves exactly `HandledAll` of the old entries |
| DbContext.ChangeTracker.SaveChanges | src/Data/ApplicationDbContext.cs:76-86 | both save paths rewrite, persist and accept; they return the number written, and no previously stored row disappears |
| ProgressStore.FindRow | src/Repositories/Classes/LearningProgressRepository.cs:18-19 | the first row with the (user, entity) key, or none iff no row has it |
| ProgressStore.GrowsTransitive | src/Repositories/Classes/LearningProgressRepository.cs:16-142 | "rows never removed, re-keyed or un-completed" composes across steps |
| ProgressStore.GrowsKeepsCompleted | src/Repositories/Classes/LearningProgressRepository.cs:16-142 | a completed (user, entity) stays completed as the table grows |
| ProgressStore.Upsert | src/Repositories/Classes/LearningProgressRepository.cs:18-36 | the repository's upsert: a key already present is updated in place, otherwise one completed row is appended; afterwards a row with the key is completed and dated now (also on a repeat call); other rows and unique keys are kept |
| ProgressStore.MarkOnce | src/Services/LearningProgressService.cs:21-50 | the service's upsert: a missing row is appended completed; afterwards the key is completed; other rows and unique keys are kept |
| ProgressStore.UpsertsDivergeOnRepeat | src/Services/LearningProgressService.cs:43-47 | on an already completed key the service's upsert changes nothing, while the repository's moves the date to now |
| ProgressStore.UpsertsAgreeOnFirstCompletion | src/Services/LearningProgressService.cs:26-42 | on a missing or incomplete key both upserts give the same table |
| ProgressStore.UpsertIdempotent | src/Repositories/Classes/LearningProgressRepository.cs:18-36 | repeating the repository's upsert at the same instant changes nothing |
| ProgressStore.MarkOnceIdempotent | src/Services/LearningProgressService.cs:21-50 | repeating the service's upsert at any later instant changes nothing |
| ProgressStore.LastVisited | src/Services/LearningProgressService.cs:67-73 | one of the user's rows whose completion date is the latest (undated rows count lowest); none iff the user has no row |
| ProgressRepository.LessonIds | src/Repositories/Classes/LearningProgressRepository.cs:57-60 | projects the lesson ids in order |
| ProgressRepository.TopicIds | src/Repositories/Classes/LearningProgressRepository.cs:107-110 | projects the topic ids in order |
| ProgressRepository.CountsMatchIff | src/Repositories/Classes/LearningProgressRepository.cs:57-68 | with distinct ids, "distinct completed count equals total count" holds iff every id has a completed row for the user |
| ProgressRepository.TopicCountMeansDone | src/Repositories/Classes/LearningProgressRepository.cs:57-68 | the topic's count check holds iff every visible lesson of the topic is completed by the user |
| ProgressRepository.SubjectCountMeansDone | src/Repositories/Classes/LearningProgressRepository.cs:107-118 | the subject's count check holds iff every visible topic of the subject is completed by the user |
| ProgressRepository.SubjectStep | src/Repositories/Classes/LearningProgressRepository.cs:105-142 | `MarkSubjectCompleted` only grows the tables, keeps unique keys, and touches the subject table alone |
| ProgressRepository.TopicStep | src/Repositories/Classes/LearningProgressRepository.cs:55-103 | `MarkTopicCompleted` only grows the tables, keeps unique keys, and leaves the lesson table alone |
| ProgressRepository.LessonStep | src/Repositories/Classes/LearningProgressRepository.cs:16-53 | `MarkLessonCompleted` only grows the tables, keeps unique keys, and leaves the lesson completed |
| ProgressRepository.SubjectStepMeaning | src/Repositories/Classes/LearningProgressRepository.cs:105-142 | the subject row is upserted iff all visible topics of the subject are completed; otherwise nothing changes |
| ProgressRepository.TopicStepMeaning | src/Repositories/Classes/LearningProgressRepository.cs:55-103 | the topic row is upserted iff all visible lessons of the topic are completed; otherwise nothing changes, not even the subject table |
| ProgressRepository.LessonStepCascade | src/Repositories/Classes/LearningProgressRepository.cs:42-101 | one call: the lesson is upserted; the topic row is upserted iff the lesson is visible and every visible lesson of its topic id is now done, even when that topic is soft-deleted; the subject changes only then, and iff the topic is visible and the subject's visible topics are all done |
| ProgressRepository.LessonStepIdempotent | src/Repositories/Classes/LearningProgressRepository.cs:16-142 | marking the same lesson twice at the same instant equals marking it once |
| ProgressRepository.SubjectOfLessonMeaning | src/Repositories/Classes/LearningProgressRepository.cs:145-152 | the subject reached through a lesson's visible topic is the subject iff the lesson and topic are visible and linked to it |
| ProgressRepository.UserProgress | src/Repositories/Classes/LearningProgressRepository.cs:145-152 | returns exactly the user's lesson rows whose visible lesson lies in a visible topic of the subject |
| ProgressRepository.LastVisitedOfVisible | src/Repositories/Classes/LearningProgressRepository.cs:154-161 | the required `Include(Lesson)` joins the filtered Lessons: none iff the user has no row of a visible lesson; otherwise such a row whose completion date is the latest among them (undated rows lowest) |
| ProgressRepository.LastVisitedSkipsHiddenLesson | src/Repositories/Classes/LearningProgressRepository.cs:154-161 | a later row of a soft-deleted lesson is skipped by the repository's query but returned by the service's, which has no join |
| ProgressRepository.LearningProgressRepository.constructor | src/Repositories/Classes/LearningProgressRepository.cs:11-14 | holds the given catalog and progress tables |
| ProgressRepository.LearningProgressRepository.MarkLessonCompleted | src/Repositories/Classes/LearningProgressRepository.cs:16-53 | returns true and leaves exactly `LessonStep` of the old tables; unique keys kept |
| ProgressRepository.LearningProgressRepository.MarkTopicCompleted | src/Repositories/Classes/LearningProgressRepository.cs:55-103 | leaves exactly `TopicStep` of the old tables |
| ProgressRepository.LearningProgressRepository.MarkSubjectCompleted | src/Repositories/Classes/LearningProgressRepository.cs:105-142 | leaves exactly `SubjectStep` of the old tables |
| ProgressRepository.LearningProgressRepository.GetUserProgress | src/Repositories/Classes/LearningProgressRepository.cs:145-152 | returns the rows `UserProgress` characterises |
| ProgressRepository.LearningProgressRepository.GetLastVisitedLesson | src/Repositories/Classes/LearningProgressRepository.cs:154-161 | returns the row `LastVisitedOfVisible` characterises: the latest among the user's rows whose lesson is visible |
| ProgressService.GetPreviousLessons | src/Services/LearningProgressService.cs:94-100 | exactly the visible lessons of the topic with a smaller id, ascending by id |
| ProgressService.GetPreviousTopics | src/Services/LearningProgressService.cs:110-116 | exactly the visible topics of the subject with a smaller id, ascending by id |
| ProgressService.GetLessonsByTopic | src/Services/LearningProgressService.cs:118-124 | exactly the visible lessons of the topic, ascending by id |
| ProgressService.IdOrderIsStrict | src/Services/LearningProgressService.cs:94-100 | with unique ids, the earlier lessons come in strictly increasing id order |
| ProgressService.GetUserCompletedLessons | src/Services/LearningProgressService.cs:102-108 | an id is listed iff the user has a completed row for it and its visible lesson belongs to the topic |
| ProgressService.CompletedListMeaning | src/Services/LearningProgressService.cs:102-108 | a visible lesson is in its own topic's list iff the user completed it, and in no other topic's list |
| ProgressService.GetLessonById | src/Services/LearningProgressService.cs:78-84 | a found lesson is visible, has the id, and comes with its visible topic, whose subject is visible too; the required `Include`s join against the filtered tables |
| ProgressService.GetLessonByIdMeans | src/Services/LearningProgressService.cs:78-84 | with unique ids, a lesson is found iff the lesson, its topic and its subject are all visible |
| ProgressService.IsUserEnrolledInSubject | src/Services/LearningProgressService.cs:89-93 | true iff a non-deleted enrollment exists for (user, subject) |
| ProgressService.GetUserQuizSubmission | src/Services/LearningProgressService.cs:136-142 | the user's submission for the quiz with the latest `Created`; none iff there is none |
| ProgressService.LearningProgressService.constructor | src/Services/LearningProgressService.cs:13-16 | holds the given tables |
| ProgressService.LearningProgressService.MarkLessonCompleted | src/Services/LearningProgressService.cs:21-50 | returns true and leaves exactly `MarkOnce` of the old lesson table, unique keys kept |
| ProgressService.LearningProgressService.GetLastVisitedLesson | src/Services/LearningProgressService.cs:67-73 | returns the latest row `LastVisited` characterises |
| ProgressGate.OrderingChecks | src/Controllers/LearningProgressController.cs:62-98 | after enrollment, only the ordering and quiz refusals or a decision to proceed can come out |
| ProgressGate.GateOrder | src/Controllers/LearningProgressController.cs:35-59 | 401 iff no user; 404 iff the joined lookup finds no lesson (lesson, topic or subject soft-deleted or absent); 403 exactly when the found lesson's subject has no active enrollment; checked in that order before any ordering check; the "topic not found" 400 is never given, and the decision never claims a write |
| ProgressGate.HiddenParentNotFound | src/Controllers/LearningProgressController.cs:42-47 | with unique ids, a visible lesson whose topic or subject is soft-deleted is answered 404, whatever the user's enrollment and progress |
| ProgressGate.GateProceedMeans | src/Controllers/LearningProgressController.cs:42-98 | proceeding implies the lesson, its topic and its subject are visible, enrollment and every earlier lesson of the topic completed; also no earlier topic of the subject has a visible lesson (see Findings) |
| ProgressGate.EarlierLessonNotInCurrentList | src/Controllers/LearningProgressController.cs:63-79 | a lesson of an earlier topic is listed among the earlier topics' lessons but never in the current topic's completed list |
| ProgressGate.EarlierTopicAlwaysBlocks | src/Controllers/LearningProgressController.cs:63-79 | as written, any earlier topic with a visible lesson refuses the call, whatever the user completed |
| ProgressGate.GateCorrectedProceedMeans | src/Controllers/LearningProgressController.cs:71-79 | with each earlier topic checked against its own completed list, proceeding implies every lesson of every earlier topic is completed |
| ProgressGate.GateCorrectionIsLocal | src/Controllers/LearningProgressController.cs:71-79 | the written and the corrected gate differ only through the earlier-topic refusal |
| ProgressGate.ExampleLookups | src/Controllers/LearningProgressController.cs:42-59 | in the example, lesson 20 is found with topic 2, user 7's enrollment is found, and topic 2 has no quiz |
| ProgressGate.ExampleReachesOrdering | src/Controllers/LearningProgressController.cs:35-59 | in the example, both gates pass authentication, lookup and enrollment and come down to the ordering checks |
| ProgressGate.ExampleOrderingQueries | src/Services/LearningProgressService.cs:94-124 | in the example, lesson 20 has no earlier lesson, topic 1 is the only earlier topic, and lesson 10 is its only lesson |
| ProgressGate.ExampleCompletedLists | src/Services/LearningProgressService.cs:102-108 | in the example, lesson 10 is in topic 1's completed list and not in topic 2's |
| ProgressGate.ExampleShowsDefect | src/Controllers/LearningProgressController.cs:63-79 | the written gate refuses lesson 20 with "previous topics" although its only earlier lesson is completed |
| ProgressGate.ExampleCorrectedProceeds | src/Controllers/LearningProgressController.cs:71-79 | the corrected gate lets the same request through |
| ProgressGate.QuizRefusalMeans | src/Controllers/LearningProgressController.cs:82-98 | for a visible lesson, the quiz refusal of the ordering checks means the lesson is completed and the quiz has no passing latest submission |
| ProgressGate.QuizBlocksOnlyRepeatCalls | src/Controllers/LearningProgressController.cs:82-98 | a quiz refusal happens only for an already completed lesson, when the quiz has no submission or the latest scored below 60 |
| ProgressGate.LearningProgressController.constructor | src/Controllers/LearningProgressController.cs:33-114 | holds the service |
| ProgressGate.FindIncompleteTopic | src/Controllers/LearningProgressController.cs:71-79 | the loop over the earlier topics refuses iff some earlier topic fails the lesson test |
| ProgressGate.LearningProgressController.Decide | src/Controllers/LearningProgressController.cs:35-98 | the checks, run in order over the current tables, give exactly the `Gate` decision (404 for a lesson whose topic or subject is soft-deleted) and write nothing |
| ProgressGate.LearningProgressController.MarkLessonCompleted | src/Controllers/LearningProgressController.cs:33-114 | answers the gate's refusal or 200; writes exactly the service's upsert only when every check passes (so nothing for a lesson whose topic or subject is soft-deleted), and nothing otherwise |
| Questions.GetCorrectOption | src/Models/Entities/Question.cs:26-29 | an option whose id is `CorrectOptionId`, the first such in collection order; none iff no option has it |
| Questions.ValidateQuestionOptions | src/Services/Classes/QuestionService.cs:22-38 | accepted iff 3 to 5 options and the key is listed; "at least 3" iff the list is null or below 3; "at most 5" iff above 5; first failure wins |
| Questions.ValidatedHasCorrectOption | src/Services/Classes/QuestionService.cs:34-37 | a validated question has 3 to 5 options and its correct option resolves |
| Questions.ValidationIgnoresTexts | src/Services/Classes/QuestionService.cs:22-38 | relabelling option texts never changes the validation outcome |
| Questions.QuestionStore.constructor | src/Services/Classes/QuestionService.cs:10-13 | starts with no questions, all validated |
| Questions.QuestionStore.AddQuestionAsync | src/Services/Classes/QuestionService.cs:15-20 | the outcome is the validation's; the question is appended iff accepted; "every stored question is valid" is preserved |
| Questions.SixOptionsRejected | Tests/Services/QuestionServiceTest.cs:41-63 | six options are refused with "at most 5" |
| Questions.UnlistedCorrectOptionRejected | Tests/Services/QuestionServiceTest.cs:66-85 | a key of 99 among ids 1 to 3 is refused as not listed |
| Questions.ThreeOptionsAccepted | Tests/Services/QuestionServiceTest.cs:88-107 | three options with key 2 are accepted and the key resolves to option 2 |
| Questions.LessThanThreeFixtureAccepted | Tests/Services/QuestionServiceTest.cs:20-38 | the fixture of the "fewer than three" test (three options) is accepted, so the expected rejection cannot occur (see Findings) |
| Questions.FewerThanThreeRejected | src/Services/QuestionService.cs:24-27 | a null list or fewer than 3 options is refused with "at least 3", whatever the key, e.g. two options |
| QuestionMapper.ToQuestionDto | src/Mappers/QuestionMapper.cs:10-25 | keeps ids, text and key; option ids and texts in order; `CorrectOption` is the text of the first option with the key's id, or null |
| QuestionMapper.NewOptions | src/Mappers/QuestionMapper.cs:36-40 | one unsaved option per request option, in order |
| QuestionMapper.RebuildOptions | src/Mappers/QuestionMapper.cs:59-66 | the rebuild loop produces exactly `NewOptions` of the request |
| QuestionMapper.IdOfText | src/Mappers/QuestionMapper.cs:42-46 | the id of the first option with the text; none iff no option has it |
| QuestionMapper.ToQuestion | src/Mappers/QuestionMapper.cs:28-49 | text and quiz copied; one option per request option in order, texts copied, ids 0; a matched answer text sets the key to that option's id |
| QuestionMapper.ToQuestionKeyIsZero | src/Mappers/QuestionMapper.cs:36-46 | since unsaved options all carry id 0, the resolved key is 0 matched or not |
| QuestionMapper.ToQuestionKeyResolvesToFirst | src/Mappers/QuestionMapper.cs:28-49 | hence a fresh question validates iff it has 3 to 5 options, and its view reports the first option as correct |
| QuestionMapper.UpdateQuestionFromDto | src/Mappers/QuestionMapper.cs:52-76 | null or empty text keeps the text; options are rebuilt only for a non-empty list; the key changes only to the id of a matched non-empty answer text; id, quiz and score kept |
| QuestionMapper.UpdateIdempotent | src/Mappers/QuestionMapper.cs:52-76 | applying the same update twice equals applying it once |
| QuestionMapper.UpdateKeyRoundTrip | src/Mappers/QuestionMapper.cs:68-75 | keeping the options (distinct ids) and naming one of their texts makes the view report exactly that text as correct |
| QuestionMapper.UpdateWithNewOptionsKeyIsZero | src/Mappers/QuestionMapper.cs:59-75 | naming a text of the new options sets the key to 0, the id of every unsaved option |
| QuizMapper.OptionsOf | src/Mappers/QuizMapper.cs:41-45 | options map one-to-one, in order, keeping id and text |
| QuizMapper.ToQuizDto | src/Mappers/QuizMapper.cs:10-28 | keeps id, title and topic; questions map one-to-one in order with id, text and options |
| QuizMapper.ToQuizDtoWithoutAnswers | src/Mappers/QuizMapper.cs:30-48 | keeps id, title and topic and one entry per question |
| QuizMapper.EntryPointsAgree | src/Mappers/QuizMapper.cs:10-48 | the two entry points give the same view of every quiz |
| QuizMapper.ViewHidesAnswerKey | src/Mappers/QuizMapper.cs:37-46 | questions differing only in answer key and score give the same learner view |
| QuizMapper.LearnerViewIsAuthorViewWithoutKey | src/Mappers/QuizMapper.cs:30-48 | each learner entry is the author's question view with the key fields dropped |
| QuizRepositories.AnswerError | src/Repositories/Classes/QuizRepository.cs:100-112 | an answer is accepted iff its question exists (by id alone) and the option belongs to that question; otherwise one of those two errors |
| QuizRepositories.CorrectCount | src/Repositories/Classes/QuizRepository.cs:114-131 | the number of correct answers, at most the number submitted |
| QuizRepositories.FirstError | src/Repositories/Classes/QuizRepository.cs:100-112 | none iff every answer is accepted; otherwise the error of the first rejected answer |
| QuizRepositories.FirstErrorAt | src/Repositories/Classes/QuizRepository.cs:100-112 | the error at the first failing index is the one reported |
| QuizRepositories.PassedIff | src/Repositories/Classes/QuizRepository.cs:141-142 | passing (score at least 60) is exactly `100 c >= 60 t` |
| QuizRepositories.TruncatedScore | src/Repositories/Classes/QuizRepository.cs:151 | the `(int)` cast of the score is the integer percentage `(100 c) / t` |
| QuizRepositories.Precheck | src/Repositories/Classes/QuizRepository.cs:55-82 | the call gets past the early checks iff the request is present, the quiz is visible, it has questions, and the answer list is non-null and non-empty |
| QuizRepositories.AnswerRows | src/Repositories/Classes/QuizRepository.cs:117-126 | one answer row per answer, in order, under the attempt, with score 0 |
| QuizRepositories.Submit | src/Repositories/Classes/QuizRepository.cs:53-156 | the quiz, question and option tables never change; an early failure changes nothing; a rejection stores no answer row; a success stores one row per answer |
| QuizRepositories.SubmittedMeans | src/Repositories/Classes/QuizRepository.cs:84-155 | success iff the early checks and every answer pass; then answers are echoed in order, counts add up to the answers, `t` is the question count, pass is `100 c >= 60 t`, score is `(100 c)/t`, and one graded attempt plus its rows are stored |
| QuizRepositories.RejectedAnswerKeepsHeader | src/Repositories/Classes/QuizRepository.cs:84-112 | a rejected answer leaves the zero-count, not-passed attempt header stored and no answer row |
| QuizRepositories.SubmitRejectedAt | src/Repositories/Classes/QuizRepository.cs:100-112 | with the first bad answer at i, the outcome is its error with only the header stored |
| QuizRepositories.SubmitRejectedLate | src/Repositories/Classes/QuizRepository.cs:84-112 | a late rejection leaves exactly the header stored |
| QuizRepositories.SubmitAccepted | src/Repositories/Classes/QuizRepository.cs:84-155 | a full success stores the graded attempt and the answer rows and returns its response |
| QuizRepositories.ScoreExamples | src/Repositories/Classes/QuizRepository.cs:141-151 | 3 of 4 is 75 and passes, 2 of 4 is 50 and fails, 3 of 5 is exactly 60 and passes, 2 of 3 reports 66 |
| QuizRepositories.Repeat | src/Repositories/Classes/QuizRepository.cs:100-138 | k copies of one answer |
| QuizRepositories.RepeatedAnswerCounts | src/Repositories/Classes/QuizRepository.cs:100-131 | an accepted answer sent k times is accepted and, when correct, counted k times |
| QuizRepositories.RepeatedAnswerScoresTwoHundred | src/Repositories/Classes/QuizRepository.cs:128-142 | sending one correct answer twice per question scores 200 and passes |
| QuizRepositories.OtherQuizQuestionAccepted | src/Repositories/Classes/QuizRepository.cs:102-126 | the right answer to another quiz's question is accepted, counted and stored under this quiz and attempt |
| QuizRepositories.GradeEach | src/Repositories/Classes/QuizRepository.cs:100-138 | the loop stops with the first answer's error, or else gives the correct count, counters adding up, the queued rows and the echoed answers |
| QuizRepositories.QuizRepository.constructor | src/Repositories/Classes/QuizRepository.cs:14-17 | holds the given tables |
| QuizRepositories.QuizRepository.CreateQuiz | src/Repositories/Classes/QuizRepository.cs:24-35 | the outcome is `AddQuiz`'s; the quiz is appended and the identity advanced exactly on success |
| QuizRepositories.QuizRepository.SubmitQuiz | src/Repositories/Classes/QuizRepository.cs:53-156 | the outcome and the new tables are exactly `Submit` of the old ones |
| QuizRepositories.QuizRepository.DeleteQuiz | src/Repositories/Classes/QuizRepository.cs:43-50 | soft-deletes the topic's visible quiz; true iff there was one |
| QuizRepositories.AddQuiz | src/Repositories/Classes/QuizRepository.cs:24-35 | created iff the topic is visible and no stored row (deleted or not) holds it in the unique index; the new row gets the next id and is visible |
| QuizRepositories.AddQuizKeepsIndexUnique | Migrations/20250320124102_InitialMigrations.cs:430-434 | creation keeps the `TopicId` index unique and at most one visible quiz per topic |
| QuizRepositories.NoQuizAfterDelete | Migrations/20250320124102_InitialMigrations.cs:430-434 | after a topic's quiz is deleted no visible quiz remains, yet creating one is refused by the index |
| QuizRepositories.DeleteQuizOfTopic | src/Repositories/Classes/QuizRepository.cs:43-50 | only the topic's visible quiz changes, and only its deletion flag and date |
| QuizRepositories.DeleteHidesQuiz | src/Repositories/Classes/QuizRepository.cs:43-50 | a delete hides the topic's quiz from filtered reads, keeps the row stored and keeps one quiz per topic |
| QuizServices.CreateQuizMeans | src/Services/Classes/QuizService.cs:35-62 | created iff the request is present, the topic visible and not indexed; the quiz is the next visible row; the repository's topic check never fails after the service's |
| QuizServices.CreatedViewIsEmpty | src/Services/Classes/QuizService.cs:54-61 | the returned view is the new quiz with no questions |
| QuizServices.OneQuizPerTopicKept | src/Services/Classes/QuizService.cs:47-52 | creation keeps one quiz per topic, and a second quiz for a topic with a visible one is refused |
| QuizServices.NewTitle | src/Services/Classes/QuizService.cs:81 | a null or blank request title keeps the old one, any other replaces it |
| QuizServices.RetitleQuiz | src/Services/Classes/QuizService.cs:78-83 | only the topic's visible quiz changes, and only its title |
| QuizServices.RetitleKeepsQuizzes | src/Services/Classes/QuizService.cs:72-84 | other topics' quizzes are unchanged; the topic's quiz is retitled; a repeat changes nothing; one quiz per topic is kept |
| QuizServices.UpdateOutcome | src/Services/Classes/QuizService.cs:72-84 | an error iff the request is null; false iff the topic has no visible quiz |
| QuizServices.GetQuizByTopicId | src/Services/Classes/QuizService.cs:64-70 | a view iff the topic has a visible quiz, for that topic, with no questions loaded |
| QuizServices.TakeQuizShowsNoQuestions | src/Services/Classes/QuizService.cs:92-98 | a view iff the topic has a visible quiz, the same for every user, with no questions |
| QuizServices.AuthorAndLearnerReadsAgree | src/Services/Classes/QuizService.cs:64-98 | the author's and the learner's reads of a topic's quiz return the same view |
| QuizServices.TakeQuizWithQuestionsMeans | src/Mappers/QuizMapper.cs:30-48 | with questions loaded, every visible question of the quiz is shown in order with its options and without its key, for any user |
| QuizServices.TakeQuizDropsQuestions | src/Repositories/Classes/QuizRepository.cs:19-22 | for a quiz with a visible question the view handed out lists none, while the loaded view lists it |
| QuizServices.MapResponse | src/Services/Classes/QuizService.cs:107-118 | only the message is recomputed; every other field is copied |
| QuizServices.MapResponseMeans | src/Services/Classes/QuizService.cs:111 | the message depends on the pass flag alone, and the repository's responses pass through unchanged |
| QuizServices.MapOutcome | src/Services/Classes/QuizService.cs:101-119 | success iff the repository succeeded; its exception passes through |
| QuizServices.QuizService.constructor | src/Services/Classes/QuizService.cs:18-28 | holds the repository and the topics |
| QuizServices.QuizService.CreateQuiz | src/Services/Classes/QuizService.cs:35-62 | succeeds exactly as `CreateQuizOutcome` and then appends the quiz and returns its view; on failure nothing changes |
| QuizServices.QuizService.UpdateQuizByTopicId | src/Services/Classes/QuizService.cs:72-84 | answers `UpdateOutcome` and leaves exactly `RetitleQuiz` of the old quizzes |
| QuizServices.QuizService.DeleteQuizByTopicId | src/Services/Classes/QuizService.cs:86-90 | soft-deletes the topic's visible quiz; true iff there was one |
| QuizServices.QuizService.SubmitQuiz | src/Services/Classes/QuizService.cs:101-119 | a null request is refused with no change; otherwise the repository's `Submit` mapped |
| Enrollments.RecordOf | src/Controllers/EnrollmentController.cs:141-145 | the first record of the (user, subject) pair, deleted or not, or none iff there is none |
| Enrollments.EnrolledIffActive | src/Controllers/EnrollmentController.cs:110-145 | while each (user, subject) pair has at most one record (the table's key is its own `Id`, so this is an invariant `EnrollMeans` shows enrolling keeps, not a constraint), "is enrolled" is exactly the active state of the pair's record |
| Enrollments.IsUserEnrolledInCubject | src/Controllers/EnrollmentController.cs:99-116 | unauthorised iff no user; otherwise true iff an active record of the pair exists |
| Enrollments.EnrollMeans | src/Controllers/EnrollmentController.cs:123-164 | absent becomes active by a new record, removed becomes active in place, active is refused; no user or unknown subject changes nothing; other pairs unchanged; still at most one record per pair |
| Enrollments.UnenrollMeans | src/Controllers/EnrollmentController.cs:171-195 | only an active pair is unenrolled, becoming removed and dated in place; absent or removed keys give NotFound with no change; other pairs unchanged; still at most one record per pair |
| Enrollments.UnenrollThenEnrollRestores | src/Controllers/EnrollmentController.cs:141-190 | unenrolling then enrolling restores the same record: same table length, pair active |
| Enrollments.EnrollmentController.constructor | src/Controllers/EnrollmentController.cs:26-31 | holds the catalog and the enrollments |
| Enrollments.EnrollmentController.EnrollUser | src/Controllers/EnrollmentController.cs:123-164 | outcome and table are exactly `Enroll` of the old table |
| Enrollments.EnrollmentController.DeleteEnrollment | src/Controllers/EnrollmentController.cs:171-195 | outcome and table are exactly `Unenroll` of the old table |
| Passwords.ScanMeans | src/Services/PasswordValidator.cs:10-13 | each flag of the one-pass scan is set iff a character of its class occurs |
| Passwords.IsValid | src/Services/PasswordValidator.cs:5-17 | valid iff present and all five conditions hold; null, empty or blank is invalid |
| Passwords.PolicyNotBlank | src/Services/PasswordValidator.cs:7 | a password meeting the policy is never blank |
| Passwords.ShortPasswordInvalid | src/Services/PasswordValidator.cs:14-16 | fewer than 8 characters is invalid |
| Passwords.AppendKeepsValid | src/Services/PasswordValidator.cs:10-16 | appending any character to a valid password keeps it valid |
| Passwords.MissingClassInvalid | src/Services/PasswordValidator.cs:13 | letters and digits only is invalid however long |
| Passwords.Samples | src/Services/PasswordValidator.cs:5-17 | "Passw0rd!" is valid, "password1!" is not |
| UserMapper.ToUserDto | src/Mappers/UserMapper.cs:9-19 | copies the names, email, phone and address |
| UserMapper.ViewHidesSecrets | src/Mappers/UserMapper.cs:9-19 | users differing only in credentials, role or token have the same view |
| UserMapper.ToUser | src/Mappers/UserMapper.cs:22-33 | email lowercased, names and credentials copied, role "User" iff the flag is set, no token, not deleted |
| UserMapper.ToUserRoleIsInverted | src/Mappers/UserMapper.cs:31 | the flag set gives "User", unset gives "Admin" |
| UserMapper.Patch | src/Mappers/UserMapper.cs:38-39 | a null or empty value keeps the field, any other replaces it |
| UserMapper.PatchOptional | src/Mappers/UserMapper.cs:40-41 | the same rule for a nullable field |
| UserMapper.UpdateUserFromDto | src/Mappers/UserMapper.cs:36-44 | only the names, phone and address can change |
| UserMapper.UpdateUserPatchRule | src/Mappers/UserMapper.cs:38-41 | each of the four fields follows the patch rule, and the update is idempotent |
| UserMapper.ChangePasswordFromDto | src/Mappers/UserMapper.cs:47-53 | only hash and salt change, to the given ones |
| UserMapper.ResetPasswordFromDto | src/Mappers/UserMapper.cs:55-63 | new hash and salt, token and expiry cleared, nothing else changes |
| UserMapper.ResetIsChangeAndClear | src/Mappers/UserMapper.cs:47-63 | a reset is a change plus clearing the token; it is idempotent |
| Users.RegisterMeans | src/Controllers/UserController.cs:99-134 | conflict iff the lowercased email is in use (before the password); weak password refused; the new user is stored lowercased, Admin iff no visible admin existed; nothing stored otherwise; no two visible users come to share a lowercased email |
| Users.ReregisterAfterDelete | src/Controllers/UserController.cs:101-134 | a deleted user's email is registered again, and a second row with the same email is stored beside the deleted one |
| Users.FirstUserIsAdmin | src/Controllers/UserController.cs:118-127 | the first user to register becomes Admin |
| Users.RegisterAgreesWithToUser | src/Controllers/UserController.cs:118-130 | the stored user is the mapper's `ToUser` with the flag meaning "an admin exists" |
| Users.FindUser | src/Controllers/UserController.cs:179-184 | the visible user with the id, or none iff there is none |
| Users.Coalesce | src/Controllers/UserController.cs:187-190 | `??`: a present value wins, null keeps the old one |
| Users.UpdateProfileMeans | src/Controllers/UserController.cs:165-196 | 401 without a claim; only the caller's four profile fields change; null keeps and anything else, even empty, overwrites; no other user changes |
| Users.ProfileRulesDifferOnEmpty | src/Controllers/UserController.cs:187-190 | an empty first name is stored by the controller but ignored by the mapper |
| Users.FindByEmail | src/Controllers/UserController.cs:265-266 | a visible user with the same lowercased email; none iff the email is not in use |
| Users.FindByToken | src/Controllers/UserController.cs:285-286 | the first visible user holding the token; none iff no visible user holds it |
| Users.TokenLifecycle | src/Controllers/UserController.cs:261-305 | an issued token expires in one hour and resets that user's password within it; the reset clears token and expiry; the same token is then refused |
| Users.ExpiredTokenRefused | src/Controllers/UserController.cs:287-290 | a token past its expiry is refused and nothing changes |
| Users.NullTokenResetsUserWithoutToken | src/Controllers/UserController.cs:285-290 | as written, a null token resets a user who has no pending token (see Findings) |
| Users.ResetCheckedMeans | src/Controllers/UserController.cs:285-299 | with the intended check, only the visible holder of a given token, before its expiry, is reset; a null token changes nothing |
| Users.ResetCheckedAgrees | src/Controllers/UserController.cs:285-299 | for a given token, with expiries paired to tokens, the intended check equals the written one |
| Users.UserController.constructor | src/Controllers/UserController.cs:22-28 | holds the users and the identity counter |
| Users.UserController.RegisterUser | src/Controllers/UserController.cs:99-134 | outcome and table are exactly `Register`; the identity advances only on success |
| Users.UserController.UpdateUser | src/Controllers/UserController.cs:165-196 | outcome and table are exactly `UpdateProfile` |
| Users.UserController.ForgotPassword | src/Controllers/UserController.cs:261-275 | outcome and table are exactly `Forgot` |
| Users.UserController.ResetPassword | src/Controllers/UserController.cs:280-305 | outcome and table are exactly `Reset` |
| CatalogMappers.ToSubjectDto | src/Mappers/SubjectMapper.cs:8-16 | copies id, title and description |
| CatalogMappers.ToSubject | src/Mappers/SubjectMapper.cs:18-25 | copies title and description; no thumbnail; not deleted and no deletion date |
| CatalogMappers.SubjectRoundTrip | src/Mappers/SubjectMapper.cs:8-25 | creating then viewing a subject returns the requested title and description |
| CatalogMappers.UpdateSubjectFromDto | src/Mappers/SubjectMapper.cs:28-38 | title, description and thumbnail change only for a non-blank value; the deletion flag only when given; id and deletion date kept |
| CatalogMappers.SubjectPatchLaws | src/Mappers/SubjectMapper.cs:28-38 | a request of blanks and nulls changes nothing; any update is idempotent |
| CatalogMappers.SubjectRestore | src/Mappers/SubjectMapper.cs:34-37 | a given false flag restores a deleted subject but leaves its deletion date in place: the result equals that on the subject with only the flag cleared, and differs from a never-deleted subject whenever a date was set |
| CatalogMappers.ToTopicDto | src/Mappers/TopicMapper.cs:9-19 | copies the fields; lesson ids are those of the loaded lessons in order, empty when not loaded |
| CatalogMappers.TopicViewListsLessons | src/Mappers/TopicMapper.cs:17 | an id is listed iff some loaded lesson has it |
| CatalogMappers.ToTopic | src/Mappers/TopicMapper.cs:23-31 | copies title and description under the subject; not deleted |
| CatalogMappers.UpdateTopicFromDto | src/Mappers/TopicMapper.cs:34-46 | title and description change only for a non-empty value; id, subject and flag kept |
| CatalogMappers.TopicPatchLaws | src/Mappers/TopicMapper.cs:36-45 | idempotent; a blank title does overwrite, an empty one does not |
| CatalogMappers.ToLessonDto | src/Mappers/LessonMapper.cs:8-18 | copies every field of the view |
| CatalogMappers.ToLesson | src/Mappers/LessonMapper.cs:20-29 | copies the fields under the topic; not deleted |
| CatalogMappers.LessonRoundTrip | src/Mappers/LessonMapper.cs:8-29 | creating then viewing a lesson returns the requested fields and topic |
| CatalogMappers.UpdateLessonFromDto | src/Mappers/LessonMapper.cs:31-41 | title, content and video change only for a non-empty value; id, topic and flag kept |
| CatalogMappers.LessonPatchLaws | src/Mappers/LessonMapper.cs:31-41 | idempotent; a full update gives exactly the requested view |

## Left out

- Asynchrony, concurrency, transactions and logging are not modelled. Each
  call runs alone on a snapshot of the tables.
- Outside inputs are parameters: the clock, password hashing and salting,
  the random reset token, and the signed-in user id (read from the JWT
  claims). Email sending, JWT issuing and `Login` are not modelled.
- `DateTime` values are integers on one clock, with no time zones.
- `TotalScore` is a `double` in the source; the model uses an exact real.
  Rounding of the division is not modelled; the pass test and the `(int)`
  cast are stated on the exact value. The stored score can therefore be one
  lower in the program than in the model: 29 correct of 50 gives
  `0.58 * 100 = 57.99999999999999` as a double, stored as 57, where the
  model stores 58 (so do 29, 57 and 58 of 100). The values in
  `QuizRepositories.ScoreExamples` are among those that agree, but such
  values do not carry over in general.
- `ToLower`, `char.IsWhiteSpace`, `char.IsUpper`, `char.IsLower`,
  `char.IsDigit` and `char.IsLetterOrDigit` cover ASCII characters only;
  Unicode categories are not modelled.
- Entity Framework navigation loading is given explicitly. Examples are
  `Question.Options`, `Quiz.Questions` and `Topic.Lessons` (an `Option` for
  "not loaded"). Lazy loading and change tracking of navigations are not
  modelled. Foreign-key failures at save time are not modelled; the one
  unique index the schema creates, on `Quizzes.TopicId`, is. The
  `Users.Email` index declared in `UserConfiguration` is never applied by
  the context, so the model has none.
- The answer rows' `Score` column (present in the table, absent from the
  entity) is written as 0. The gate's quiz check reads a per-submission
  score as a field of the submission.
- The mappers' in-place updates (`UpdateFromDto`, `UpdateTopicFromDto`,
  `UpdateLessonFromDto`, `UpdateQuestionFromDto`, `UpdateUserFromDto`,
  `ChangePasswordFromDto`, `ResetPasswordFromDto`) are functions from the
  record before to the record after. Aliasing of the entity object is not
  modelled.
- `UpdateQuestionFromDto` clears the options collection and adds new
  options. The orphaned option rows left in the database are not modelled.
- The `Created`/`Modified` audit stamps appear only on `DbContext.Row`. The
  entity datatypes carry the fields the core reads (`created` of a
  submission).
- User controller actions `GetUsers`, `GetUser`, `Login`, `DeleteUser` and
  `ChangePassword` are not part of this model. The mapper's
  `ChangePasswordFromDto`, which `ChangePassword` uses, is modelled.
- Enrollment controller actions `GetEnrollments` and `GetUserEnrollments`
  are listing endpoints and are not part of this model.
- The service's `GetUserProgress` is not modelled; the endpoint never calls
  it.
- The controller's "Lesson topic not found" 400 branch is dead: the lookup
  it follows, `ProgressService.GetLessonById`, only finds a lesson together
  with its visible topic. The gate has no such branch, and `GateOrder`
  proves `LessonTopicMissing` is never answered.
- The controller actions wrapping `GetUserProgress` and
  `GetLastVisitedLesson` are not modelled. They only map a null result to
  404.
- The 500 responses produced by catching exceptions are not modelled. The
  controller's exception handler is outside the gate decision.
- `UpdateQuiz` in the repository and the service's save result are taken as
  "one row modified". The DTO and entity classes appear only as the
  datatypes above. `Dashboard`, logging, e-mail and the remaining
  repositories are not part of this model.
- ProgressGate.GateProceedMeans: it states the consequence of the
  as-written earlier-topic check. That check refuses whenever an earlier
  topic has any lesson, and is weaker than the evidently intended
  "every earlier lesson completed". The intended statement is
  `GateCorrectedProceedMeans`.

## Findings

| source | as written | input that shows it | evidently intended | confidence | as-written member | corrected member |
|---|---|---|---|---|---|---|
| src/Controllers/LearningProgressController.cs:63-79 | each earlier topic's lessons are checked against the completed list of the CURRENT topic, which never contains them | subject 1 with topics 1 and 2, lessons 10 (topic 1) and 20 (topic 2); user 7 enrolled and has completed lesson 10; marking lesson 20 is refused with "previous topics" | check each earlier topic against that topic's own completed lessons | high, not executed | ProgressGate.ExampleShowsDefect | ProgressGate.GateCorrectedProceedMeans |
| Tests/Services/QuestionServiceTest.cs:20-38 | the "fewer than three options" test builds a question with three options and a listed key, and expects the "at least 3" error | options Paris, London, Berlin with key 1: validation accepts it | a fixture with two options, which is refused with "at least 3" | high, not executed | Questions.LessThanThreeFixtureAccepted | Questions.FewerThanThreeRejected |
| src/Services/Classes/QuizService.cs:92-98 | the learner's view is built from `GetQuizByTopicId`, which loads the quiz row without `Include(q => q.Questions)` | any topic whose quiz has a visible question: the view lists no questions | load the quiz's questions, so the learner sees them without their answer key | medium, not executed | QuizServices.TakeQuizDropsQuestions | QuizServices.TakeQuizWithQuestionsMeans |
| src/Controllers/UserController.cs:285-290 | the user is looked up by `PasswordResetToken == request.Token`, and a null expiry never compares as expired | a request with a null token, and a user with no pending reset: that user's password is replaced | refuse a missing token and a missing expiry | low, not executed | Users.NullTokenResetsUserWithoutToken | Users.ResetCheckedMeans |
