/** The quiz service: one quiz per topic on creation, title-only updates,
    the learner's view of a topic's quiz, and the mapping of a graded
    submission to its response. Quizzes are read through the repository's
    `GetQuizByTopicId`, which loads the quiz row alone: no `Include` brings
    its questions along. */
module QuizServices {
  import opened Common
  import opened Entities
  import opened QuizRepositories
  import opened QuizMapper

  datatype CreateQuizDto = CreateQuizDto(title: Option<string>, topicId: int)
  datatype UpdateQuizDto = UpdateQuizDto(title: Option<string>)

  /** The exceptions the service throws or lets through. */
  datatype ServiceError =
    | ArgumentNull                         // ArgumentNullException on a null DTO
    | TopicNotFound                        // "The provided TopicId does not exist."
    | QuizAlreadyExists                    // "A quiz already exists for this topic."
    | RepositoryRefused(createError: CreateQuizError)
    | SubmissionRejected(quizError: QuizError)

  datatype ServiceResult<T> = Ok(value: T) | Err(error: ServiceError)

  // ---- CreateQuiz ----

  /** `CreateQuiz`: the topic must exist and hold no visible quiz; the new
      quiz carries only the title and the topic, and is returned through
      `ToQuizDto` with its empty question list. */
  function CreateQuizOutcome(topics: seq<Topic>, quizzes: seq<Quiz>, nextQuizId: int, dto: Option<CreateQuizDto>): (r: ServiceResult<Quiz>)
  {
    if dto.None? then Err(ArgumentNull)
    else if !TopicExists(topics, dto.value.topicId) then Err(TopicNotFound)
    else if QuizOfTopic(quizzes, dto.value.topicId).Some? then Err(QuizAlreadyExists)
    else match AddQuiz(topics, quizzes, nextQuizId, Quiz(0, dto.value.topicId, dto.value.title, false, None))
         case QuizCreated(q) => Ok(q)
         case NotCreated(e) => Err(RepositoryRefused(e))
  }

  /** A quiz is created exactly when the request is present, its topic is
      visible and no stored quiz row, deleted or not, holds the topic; it is
      then the next row, visible, with the requested title and topic. The
      repository's own topic check never fails after the service's, and a
      visible quiz is reported as such rather than as an index violation. */
  lemma CreateQuizMeans(topics: seq<Topic>, quizzes: seq<Quiz>, nextQuizId: int, dto: Option<CreateQuizDto>)
    ensures var r := CreateQuizOutcome(topics, quizzes, nextQuizId, dto);
      && (r.Ok? <==> dto.Some? && TopicExists(topics, dto.value.topicId) && !TopicIndexed(quizzes, dto.value.topicId))
      && (r.Ok? ==> r.value == Quiz(nextQuizId, dto.value.topicId, dto.value.title, false, None))
      && r != Err(RepositoryRefused(InvalidTopic))
      && (r == Err(RepositoryRefused(TopicIndexTaken)) ==> QuizOfTopic(quizzes, dto.value.topicId).None?)
  {
    if dto.Some? && QuizOfTopic(quizzes, dto.value.topicId).Some? {
      assert QuizOfTopic(quizzes, dto.value.topicId).value in quizzes;
    }
  }

  /** The view `CreateQuiz` returns: the new quiz, with no questions. */
  lemma CreatedViewIsEmpty(topics: seq<Topic>, quizzes: seq<Quiz>, nextQuizId: int, dto: Option<CreateQuizDto>)
    requires CreateQuizOutcome(topics, quizzes, nextQuizId, dto).Ok?
    ensures var view := ToQuizDto(CreateQuizOutcome(topics, quizzes, nextQuizId, dto).value, []);
      view == QuizView(nextQuizId, dto.value.title, dto.value.topicId, [])
  {
    CreateQuizMeans(topics, quizzes, nextQuizId, dto);
  }

  /** One quiz per topic: under the unique index, creation keeps at most
      one visible quiz for each topic, and a second quiz for a topic that
      already has a visible one is refused. */
  lemma OneQuizPerTopicKept(topics: seq<Topic>, quizzes: seq<Quiz>, nextQuizId: int, dto: Option<CreateQuizDto>)
    requires UniqueTopicIndex(quizzes)
    ensures var r := CreateQuizOutcome(topics, quizzes, nextQuizId, dto);
      var after := if r.Ok? then quizzes + [r.value] else quizzes;
      && UniqueTopicIndex(after) && OneQuizPerTopic(after)
      && (dto.Some? && QuizOfTopic(quizzes, dto.value.topicId).Some? ==> r.Err?)
  {
    var r := CreateQuizOutcome(topics, quizzes, nextQuizId, dto);
    if dto.Some? {
      AddQuizKeepsIndexUnique(topics, quizzes, nextQuizId, Quiz(0, dto.value.topicId, dto.value.title, false, None));
    }
    if r.Err? {
      forall i, j | 0 <= i < j < |quizzes| && !quizzes[i].isDeleted && !quizzes[j].isDeleted
        ensures quizzes[i].topicId != quizzes[j].topicId
      {
      }
    }
  }

  // ---- UpdateQuizByTopicId ----

  /** The title kept by an update: a null or blank request title keeps the
      old one. */
  function NewTitle(current: Option<string>, requested: Option<string>): (r: Option<string>)
    ensures IsNullOrWhiteSpace(requested) ==> r == current
    ensures !IsNullOrWhiteSpace(requested) ==> r == requested
  {
    if IsNullOrWhiteSpace(requested) then current else requested
  }

  /** The quizzes after `UpdateQuizByTopicId`: the topic's visible quiz, if
      any, gets the new title and nothing else changes. */
  function RetitleQuiz(quizzes: seq<Quiz>, topicId: int, title: Option<string>): (r: seq<Quiz>)
    ensures |r| == |quizzes|
    ensures forall i :: 0 <= i < |quizzes| && r[i] != quizzes[i] ==>
      QuizOfTopic(quizzes, topicId) == Some(quizzes[i]) && r[i] == quizzes[i].(title := NewTitle(quizzes[i].title, title))
    ensures QuizOfTopic(quizzes, topicId).None? ==> r == quizzes
  {
    match FindFirst(quizzes, (q: Quiz) => q.topicId == topicId && !q.isDeleted)
    case None => quizzes
    case Some(i) => quizzes[i := quizzes[i].(title := NewTitle(quizzes[i].title, title))]
  }

  /** The update changes no topic, id or deletion flag, so the visible quiz
      of every topic is the same row before and after, retitled for the
      updated topic; updating with the same request twice changes nothing
      the second time. */
  lemma RetitleKeepsQuizzes(quizzes: seq<Quiz>, topicId: int, title: Option<string>)
    ensures var after := RetitleQuiz(quizzes, topicId, title);
      && (forall other :: other != topicId ==> QuizOfTopic(after, other) == QuizOfTopic(quizzes, other))
      && (QuizOfTopic(quizzes, topicId).Some? ==>
            QuizOfTopic(after, topicId) == Some(QuizOfTopic(quizzes, topicId).value.(title := NewTitle(QuizOfTopic(quizzes, topicId).value.title, title))))
      && RetitleQuiz(after, topicId, title) == after
      && (OneQuizPerTopic(quizzes) ==> OneQuizPerTopic(after))
  {
    var after := RetitleQuiz(quizzes, topicId, title);
    var p := (q: Quiz) => q.topicId == topicId && !q.isDeleted;
    match FindFirst(quizzes, p)
    case None =>
    case Some(k) =>
      forall other | other != topicId ensures QuizOfTopic(after, other) == QuizOfTopic(quizzes, other) {
        var po := (q: Quiz) => q.topicId == other && !q.isDeleted;
        var a := FindFirst(after, po);
        var b := FindFirst(quizzes, po);
        assert forall i :: 0 <= i < |quizzes| ==> (po(after[i]) <==> po(quizzes[i]));
        if a.Some? { assert after[a.value] == quizzes[a.value]; }
        if b.Some? { assert after[b.value] == quizzes[b.value]; }
      }
      var f := FindFirst(after, p);
      assert forall i :: 0 <= i < |quizzes| ==> (p(after[i]) <==> p(quizzes[i]));
      assert f == Some(k);
  }

  /** The outcome of `UpdateQuizByTopicId`: a null request is refused, an
      unknown topic gives false, and otherwise the save reports the
      modified row. */
  function UpdateOutcome(quizzes: seq<Quiz>, topicId: int, dto: Option<UpdateQuizDto>): (r: ServiceResult<bool>)
    ensures r.Err? <==> dto.None?
    ensures r == Ok(false) <==> dto.Some? && QuizOfTopic(quizzes, topicId).None?
  {
    if dto.None? then Err(ArgumentNull)
    else Ok(QuizOfTopic(quizzes, topicId).Some?)
  }

  // ---- GetQuizByTopicId and TakeQuizByTopic ----

  /** `GetQuizByTopicId`: the author's view of the topic's visible quiz,
      loaded without its questions. */
  function GetQuizByTopicId(quizzes: seq<Quiz>, topicId: int): (r: Option<QuizView>)
    ensures r.None? <==> QuizOfTopic(quizzes, topicId).None?
    ensures r.Some? ==> r.value.questions == [] && r.value.topicId == topicId
  {
    match QuizOfTopic(quizzes, topicId)
    case None => None
    case Some(q) => Some(ToQuizDto(q, []))
  }

  /** `TakeQuizByTopic`, as written: the quiz row is loaded without its
      questions, so the learner's view lists none. */
  function TakeQuizByTopic(quizzes: seq<Quiz>, topicId: int, userId: int): (r: Option<QuizView>)
  {
    match QuizOfTopic(quizzes, topicId)
    case None => None
    case Some(q) => Some(ToQuizDtoWithoutAnswers(q, []))
  }

  /** As written, the learner's view exists exactly when the topic has a
      visible quiz, depends on no user (no enrollment or progress check),
      and lists no questions whatever the quiz holds. */
  lemma TakeQuizShowsNoQuestions(quizzes: seq<Quiz>, topicId: int, userId: int, otherUser: int)
    ensures var r := TakeQuizByTopic(quizzes, topicId, userId);
      && (r.None? <==> QuizOfTopic(quizzes, topicId).None?)
      && r == TakeQuizByTopic(quizzes, topicId, otherUser)
      && (r.Some? ==> r.value.questions == [] && r.value.id == QuizOfTopic(quizzes, topicId).value.id)
  {
  }

  /** The author's read and the learner's read of a topic's quiz return the
      same view, for every user. */
  lemma AuthorAndLearnerReadsAgree(quizzes: seq<Quiz>, topicId: int, userId: int)
    ensures GetQuizByTopicId(quizzes, topicId) == TakeQuizByTopic(quizzes, topicId, userId)
  {
    match QuizOfTopic(quizzes, topicId)
    case None =>
    case Some(q) => EntryPointsAgree(q, []);
  }

  /** The view with the quiz's questions loaded, as the mapper intends. */
  function TakeQuizWithQuestions(quizzes: seq<Quiz>, questions: seq<Question>, topicId: int, userId: int): (r: Option<QuizView>)
  {
    match QuizOfTopic(quizzes, topicId)
    case None => None
    case Some(q) => Some(ToQuizDtoWithoutAnswers(q, QuizQuestions(questions, q.id)))
  }

  /** With the questions loaded, the learner sees every visible question
      of the quiz, in table order, with its options and without its answer
      key, independently of who asks. */
  lemma TakeQuizWithQuestionsMeans(quizzes: seq<Quiz>, questions: seq<Question>, topicId: int, userId: int, otherUser: int)
    ensures var r := TakeQuizWithQuestions(quizzes, questions, topicId, userId);
      && (r.None? <==> QuizOfTopic(quizzes, topicId).None?)
      && r == TakeQuizWithQuestions(quizzes, questions, topicId, otherUser)
      && (r.Some? ==>
            var quiz := QuizOfTopic(quizzes, topicId).value;
            var shown := QuizQuestions(questions, quiz.id);
            && |r.value.questions| == |shown|
            && (forall i :: 0 <= i < |shown| ==>
                  r.value.questions[i] == QuestionSummary(shown[i].id, shown[i].questionText, OptionsOf(shown[i].options)))
            && (forall q :: q in questions && q.quizId == quiz.id && !q.isDeleted ==>
                  exists i :: 0 <= i < |shown| && r.value.questions[i].id == q.id))
  {
    match QuizOfTopic(quizzes, topicId)
    case None =>
    case Some(quiz) =>
      var shown := QuizQuestions(questions, quiz.id);
      var view := ToQuizDtoWithoutAnswers(quiz, shown);
      EntryPointsAgree(quiz, shown);
      forall q | q in questions && q.quizId == quiz.id && !q.isDeleted
        ensures exists i :: 0 <= i < |shown| && view.questions[i].id == q.id
      {
        var i :| 0 <= i < |shown| && shown[i] == q;
        assert view.questions[i].id == q.id;
      }
  }

  /** The defect: for a topic whose quiz has a visible question, the view
      handed out lists none, while the loaded view lists it. */
  lemma TakeQuizDropsQuestions(quizzes: seq<Quiz>, questions: seq<Question>, topicId: int, userId: int)
    requires QuizOfTopic(quizzes, topicId).Some?
    requires exists q :: q in questions && q.quizId == QuizOfTopic(quizzes, topicId).value.id && !q.isDeleted
    ensures TakeQuizByTopic(quizzes, topicId, userId).value.questions == []
    ensures TakeQuizWithQuestions(quizzes, questions, topicId, userId).value.questions != []
  {
    var quiz := QuizOfTopic(quizzes, topicId).value;
    var q :| q in questions && q.quizId == quiz.id && !q.isDeleted;
    assert q in QuizQuestions(questions, quiz.id);
  }

  // ---- SubmitQuiz ----

  /** The service's response: the message chosen from the pass flag alone,
      every other field copied from the repository's response. */
  function MapResponse(resp: SubmitResponse): (r: SubmitResponse)
    ensures r.(message := resp.message) == resp
  {
    resp.(message := PassMessage(resp.isPassed))
  }

  /** The message depends on the pass flag only, and the repository's own
      responses come through unchanged. */
  lemma MapResponseMeans(a: SubmitResponse, b: SubmitResponse, t: QuizTables, dto: Option<SubmitQuizDto>, userId: int, now: Time)
    ensures a.isPassed == b.isPassed ==> MapResponse(a).message == MapResponse(b).message
    ensures a.isPassed != b.isPassed ==> MapResponse(a).message != MapResponse(b).message
    ensures var out := Submit(t, dto, userId, now).0;
      out.Submitted? ==> MapResponse(out.response) == out.response
  {
    SubmittedMeans(t, dto, userId, now);
  }

  /** The service's outcome for a present request. */
  function MapOutcome(out: SubmitOutcome): (r: ServiceResult<SubmitResponse>)
    ensures r.Ok? <==> out.Submitted?
    ensures out.Rejected? ==> r == Err(SubmissionRejected(out.error))
  {
    match out
    case Submitted(resp) => Ok(MapResponse(resp))
    case Rejected(e) => Err(SubmissionRejected(e))
  }

  /** `QuizService` over the quiz repository and the topics table. */
  class QuizService {
    const repository: QuizRepository
    const topics: seq<Topic>

    constructor (repository: QuizRepository, topics: seq<Topic>)
      ensures this.repository == repository && this.topics == topics
    {
      this.repository := repository;
      this.topics := topics;
    }

    /** `CreateQuiz(dto)`; on success the view of the new quiz. */
    method CreateQuiz(dto: Option<CreateQuizDto>) returns (r: ServiceResult<QuizView>)
      modifies repository`quizzes, repository`nextQuizId
      ensures var out := CreateQuizOutcome(topics, old(repository.quizzes), old(repository.nextQuizId), dto);
        && (r.Ok? <==> out.Ok?)
        && (r.Ok? ==> r.value == ToQuizDto(out.value, []) && repository.quizzes == old(repository.quizzes) + [out.value]
                      && repository.nextQuizId == old(repository.nextQuizId) + 1)
        && (r.Err? ==> r == Err(out.error) && repository.quizzes == old(repository.quizzes)
                       && repository.nextQuizId == old(repository.nextQuizId))
    {
      if dto.None? {
        return Err(ArgumentNull);
      }
      if !TopicExists(topics, dto.value.topicId) {
        return Err(TopicNotFound);
      }
      var existing := QuizOfTopic(repository.quizzes, dto.value.topicId);
      if existing.Some? {
        return Err(QuizAlreadyExists);
      }
      var quiz := Quiz(0, dto.value.topicId, dto.value.title, false, None);
      var created := repository.CreateQuiz(topics, quiz);
      if created.NotCreated? {
        return Err(RepositoryRefused(created.error));
      }
      r := Ok(ToQuizDto(created.quiz, []));
    }

    /** `UpdateQuizByTopicId(topicId, dto)`. */
    method UpdateQuizByTopicId(topicId: int, dto: Option<UpdateQuizDto>) returns (r: ServiceResult<bool>)
      modifies repository`quizzes
      ensures r == UpdateOutcome(old(repository.quizzes), topicId, dto)
      ensures repository.quizzes == if dto.None? then old(repository.quizzes)
                                    else RetitleQuiz(old(repository.quizzes), topicId, dto.value.title)
    {
      if dto.None? {
        return Err(ArgumentNull);
      }
      var k := FindFirst(repository.quizzes, (q: Quiz) => q.topicId == topicId && !q.isDeleted);
      if k.None? {
        return Ok(false);
      }
      var i := k.value;
      var quiz := repository.quizzes[i];
      repository.quizzes := repository.quizzes[i := quiz.(title := NewTitle(quiz.title, dto.value.title))];
      r := Ok(true);
    }

    /** `DeleteQuizByTopicId(topicId)`, passed to the repository. */
    method DeleteQuizByTopicId(topicId: int, now: Time) returns (ok: bool)
      modifies repository`quizzes
      ensures repository.quizzes == DeleteQuizOfTopic(old(repository.quizzes), topicId, now)
      ensures ok <==> QuizOfTopic(old(repository.quizzes), topicId).Some?
    {
      ok := repository.DeleteQuiz(topicId, now);
    }

    /** `SubmitQuiz(dto, userId)`: a null request is refused before the
        repository is called. */
    method SubmitQuiz(dto: Option<SubmitQuizDto>, userId: int, now: Time) returns (r: ServiceResult<SubmitResponse>)
      modifies repository
      ensures dto.None? ==> r == Err(ArgumentNull) && unchanged(repository)
      ensures dto.Some? ==>
        && r == MapOutcome(Submit(old(repository.Tables()), dto, userId, now).0)
        && repository.Tables() == Submit(old(repository.Tables()), dto, userId, now).1
    {
      if dto.None? {
        return Err(ArgumentNull);
      }
      var out := repository.SubmitQuiz(dto, userId, now);
      r := MapOutcome(out);
    }
  }
}
