/** The lesson-completion endpoint: a fixed sequence of early-exit checks,
    then the service's upsert. */
module ProgressGate {
  import opened Common
  import opened Entities
  import opened ProgressStore
  import opened ProgressService

  /** The endpoint's responses. `Proceed` is the decision to write; the
      handler turns it into `Marked` (200) or `MarkFailed` (404). */
  datatype Outcome =
    | Unauthorized               // 401
    | LessonNotFound             // 404
    | LessonTopicMissing         // 400, never produced: a found lesson comes with its topic
    | NotEnrolled                // 403
    | PreviousLessonsIncomplete  // 400
    | PreviousTopicsIncomplete   // 400
    | QuizNotPassed              // 400
    | Proceed
    | Marked                     // 200
    | MarkFailed                 // 404

  const PassMark: int := 60

  /** The tables the gate reads. */
  datatype Tables = Tables(
    cat: Catalog,
    lessonRows: seq<ProgressRow>,
    enrollments: seq<Enrollment>,
    quizzes: seq<Quiz>,
    submissions: seq<QuizSubmission>)

  /** `lessons.Any(l => !completed.Contains(l.Id))`. */
  predicate AnyIncomplete(lessons: seq<Lesson>, completed: seq<int>) {
    exists l :: l in lessons && l.id !in completed
  }

  /** The quiz check: the topic has a quiz, every lesson of the topic is
      already in the completed list, and the latest submission is missing
      or scored below the pass mark. */
  predicate QuizBlocks(t: Tables, userId: int, topicId: int, completed: seq<int>) {
    match QuizOfTopic(t.quizzes, topicId)
    case None => false
    case Some(quiz) =>
      && (forall l :: l in GetLessonsByTopic(t.cat, topicId) ==> l.id in completed)
      && match GetUserQuizSubmission(t.submissions, userId, quiz.id)
         case None => true
         case Some(sub) => sub.score < PassMark
  }

  /** The earlier-topic check as written: some earlier topic has a lesson
      missing from the given completed list. */
  predicate EarlierTopicsBlock(cat: Catalog, previousTopics: seq<Topic>, completed: seq<int>) {
    exists pt :: pt in previousTopics && TopicIncomplete(cat, pt, completed)
  }

  /** One topic's test in that check. */
  predicate TopicIncomplete(cat: Catalog, pt: Topic, completed: seq<int>) {
    AnyIncomplete(GetLessonsByTopic(cat, pt.id), completed)
  }

  /** The earlier-topic check as evidently intended: some earlier topic has
      a lesson missing from that topic's own completed list. */
  predicate EarlierTopicsBlockOwn(cat: Catalog, rows: seq<ProgressRow>, u: int, previousTopics: seq<Topic>) {
    exists pt :: pt in previousTopics
                 && AnyIncomplete(GetLessonsByTopic(cat, pt.id), GetUserCompletedLessons(cat, rows, u, pt.id))
  }

  /** The checks after enrollment: earlier lessons, earlier topics, quiz.
      `corrected` selects the intended earlier-topic check. */
  function OrderingChecks(t: Tables, u: int, lesson: Lesson, topic: Topic, corrected: bool): (r: Outcome)
    ensures r.PreviousLessonsIncomplete? || r.PreviousTopicsIncomplete? || r.QuizNotPassed? || r.Proceed?
  {
    var completed := GetUserCompletedLessons(t.cat, t.lessonRows, u, lesson.topicId);
    var previousTopics := GetPreviousTopics(t.cat, lesson.topicId, topic.subjectId);
    if AnyIncomplete(GetPreviousLessons(t.cat, lesson.id, lesson.topicId), completed) then PreviousLessonsIncomplete
    else if (if corrected then EarlierTopicsBlockOwn(t.cat, t.lessonRows, u, previousTopics)
             else EarlierTopicsBlock(t.cat, previousTopics, completed))
    then PreviousTopicsIncomplete
    else if QuizBlocks(t, u, lesson.topicId, completed) then QuizNotPassed
    else Proceed
  }

  /** The checks on a found lesson and its loaded topic: enrollment, then
      the ordering checks. The "topic not found" test is left out: the
      lookup never returns a lesson without its topic. */
  function LessonChecks(t: Tables, u: int, lesson: Lesson, topic: Topic, corrected: bool): Outcome {
    if !IsUserEnrolledInSubject(t.enrollments, u, topic.subjectId) then NotEnrolled
    else OrderingChecks(t, u, lesson, topic, corrected)
  }

  function Decide(t: Tables, userId: Option<int>, lessonId: int, corrected: bool): Outcome {
    if userId.None? then Unauthorized
    else match GetLessonById(t.cat, lessonId)
      case None => LessonNotFound
      case Some((lesson, topic)) => LessonChecks(t, userId.value, lesson, topic, corrected)
  }

  /** The decision as written: earlier topics are checked against the
      completed list of the CURRENT topic. */
  function Gate(t: Tables, userId: Option<int>, lessonId: int): Outcome {
    Decide(t, userId, lessonId, false)
  }

  /** The decision as evidently intended. */
  function GateCorrected(t: Tables, userId: Option<int>, lessonId: int): Outcome {
    Decide(t, userId, lessonId, true)
  }

  /** The checks run in their fixed order: authentication, the lesson
      lookup, enrollment, and only then the ordering and quiz checks. An
      enrolled user's request can fail only on those later checks, a
      non-enrolled user's request fails with 403 whatever their progress,
      and the "topic not found" answer is never given. */
  lemma GateOrder(t: Tables, userId: Option<int>, lessonId: int)
    ensures var r := Gate(t, userId, lessonId);
      && (userId.None? <==> r == Unauthorized)
      && (userId.Some? && GetLessonById(t.cat, lessonId).None? <==> r == LessonNotFound)
      && (r == NotEnrolled <==>
            userId.Some? && GetLessonById(t.cat, lessonId).Some?
            && !IsEnrolled(t.enrollments, userId.value, GetLessonById(t.cat, lessonId).value.1.subjectId))
      && r != LessonTopicMissing && r != Marked && r != MarkFailed
  {
    if userId.Some? {
      match GetLessonById(t.cat, lessonId) {
        case None =>
        case Some((lesson, topic)) =>
          var r := OrderingChecks(t, userId.value, lesson, topic, false);
      }
    }
  }

  /** Under the primary-key constraint, a request for a visible lesson whose
      topic or subject is soft-deleted is answered 404, like a request for a
      lesson that does not exist, whatever the user's enrollment and
      progress. */
  lemma HiddenParentNotFound(t: Tables, u: int, l: Lesson)
    requires WellFormed(t.cat)
    requires l in t.cat.lessons && !l.isDeleted
    requires forall tp :: tp in t.cat.topics && tp.id == l.topicId ==>
      tp.isDeleted || forall s :: s in t.cat.subjects && s.id == tp.subjectId ==> s.isDeleted
    ensures Gate(t, Some(u), l.id) == LessonNotFound
  {
    GetLessonByIdMeans(t.cat, l.id);
    if Reachable(t.cat, l.id) {
      var l', tp, s :| l' in t.cat.lessons && !l'.isDeleted && l'.id == l.id
        && tp in t.cat.topics && !tp.isDeleted && tp.id == l'.topicId
        && s in t.cat.subjects && !s.isDeleted && s.id == tp.subjectId;
      FindLessonUnique(t.cat, l);
      FindLessonUnique(t.cat, l');
      assert false;
    }
  }

  /** What a `Proceed` decision guarantees, under the primary-key
      constraint: the lesson, its topic and its subject are visible, the
      user is enrolled in the lesson's subject, has
      completed every visible lesson of the topic with a smaller id, no
      earlier topic of the subject has a visible lesson, and if the topic
      has a quiz and all its lessons are completed, the latest submission
      scored at least 60. */
  lemma GateProceedMeans(t: Tables, u: int, lessonId: int)
    requires WellFormed(t.cat)
    requires Gate(t, Some(u), lessonId) == Proceed
    ensures var (lesson, topic) := GetLessonById(t.cat, lessonId).value;
      && lesson in t.cat.lessons && !lesson.isDeleted && lesson.id == lessonId
      && topic in t.cat.topics && !topic.isDeleted && topic.id == lesson.topicId
      && FindSubject(t.cat, topic.subjectId).Some?
      && IsEnrolled(t.enrollments, u, topic.subjectId)
      && (forall l :: l in t.cat.lessons && !l.isDeleted && l.topicId == lesson.topicId && l.id < lessonId
            ==> IsCompletedFor(t.lessonRows, u, l.id))
      && (forall pt, l :: pt in t.cat.topics && !pt.isDeleted && pt.subjectId == topic.subjectId && pt.id < topic.id
            && l in t.cat.lessons && !l.isDeleted && l.topicId == pt.id
            ==> false)
  {
    var (lesson, topic) := GetLessonById(t.cat, lessonId).value;
    var completed := GetUserCompletedLessons(t.cat, t.lessonRows, u, lesson.topicId);
    forall l | l in t.cat.lessons && !l.isDeleted && l.topicId == lesson.topicId && l.id < lessonId
      ensures IsCompletedFor(t.lessonRows, u, l.id)
    {
      assert l in GetPreviousLessons(t.cat, lesson.id, lesson.topicId);
      CompletedListMeaning(t.cat, t.lessonRows, u, l);
    }
    forall pt, l | pt in t.cat.topics && !pt.isDeleted && pt.subjectId == topic.subjectId && pt.id < topic.id
      && l in t.cat.lessons && !l.isDeleted && l.topicId == pt.id
      ensures false
    {
      EarlierLessonNotInCurrentList(t, u, lesson, topic, pt, l);
    }
  }

  /** A lesson of an earlier topic is never in the current topic's completed list. */
  lemma EarlierLessonNotInCurrentList(t: Tables, u: int, lesson: Lesson, topic: Topic, pt: Topic, l: Lesson)
    requires WellFormed(t.cat)
    requires lesson in t.cat.lessons && !lesson.isDeleted
    requires topic in t.cat.topics && !topic.isDeleted && topic.id == lesson.topicId
    requires pt in t.cat.topics && !pt.isDeleted && pt.subjectId == topic.subjectId && pt.id < topic.id
    requires l in t.cat.lessons && !l.isDeleted && l.topicId == pt.id
    ensures pt in GetPreviousTopics(t.cat, lesson.topicId, topic.subjectId)
    ensures l in GetLessonsByTopic(t.cat, pt.id)
    ensures l.id !in GetUserCompletedLessons(t.cat, t.lessonRows, u, lesson.topicId)
  {
    CompletedListMeaning(t.cat, t.lessonRows, u, l);
  }

  /** The defect: once the earlier checks pass, any earlier topic of the
      subject that has a visible lesson blocks the call, however much of it
      the user has completed. Only the lowest-id topic of a subject (or
      topics preceded by empty ones) can ever be progressed through. */
  lemma EarlierTopicAlwaysBlocks(t: Tables, u: int, lessonId: int, pt: Topic, l: Lesson)
    requires WellFormed(t.cat)
    requires GetLessonById(t.cat, lessonId).Some?
    requires var (lesson, topic) := GetLessonById(t.cat, lessonId).value;
      && IsEnrolled(t.enrollments, u, topic.subjectId)
      && !AnyIncomplete(GetPreviousLessons(t.cat, lesson.id, lesson.topicId),
                        GetUserCompletedLessons(t.cat, t.lessonRows, u, lesson.topicId))
      && pt in t.cat.topics && !pt.isDeleted && pt.subjectId == topic.subjectId && pt.id < topic.id
    requires l in t.cat.lessons && !l.isDeleted && l.topicId == pt.id
    ensures Gate(t, Some(u), lessonId) == PreviousTopicsIncomplete
  {
    var (lesson, topic) := GetLessonById(t.cat, lessonId).value;
    EarlierLessonNotInCurrentList(t, u, lesson, topic, pt, l);
  }

  /** With the correction, a `Proceed` decision means every visible lesson of
      every earlier topic of the subject is completed by the user. */
  lemma GateCorrectedProceedMeans(t: Tables, u: int, lessonId: int)
    requires WellFormed(t.cat)
    requires GateCorrected(t, Some(u), lessonId) == Proceed
    ensures var (lesson, topic) := GetLessonById(t.cat, lessonId).value;
      && lesson in t.cat.lessons && !lesson.isDeleted && lesson.id == lessonId
      && topic in t.cat.topics && !topic.isDeleted && topic.id == lesson.topicId
      && FindSubject(t.cat, topic.subjectId).Some?
      && IsEnrolled(t.enrollments, u, topic.subjectId)
      && (forall l :: l in t.cat.lessons && !l.isDeleted && l.topicId == lesson.topicId && l.id < lessonId
            ==> IsCompletedFor(t.lessonRows, u, l.id))
      && (forall pt, l :: pt in t.cat.topics && !pt.isDeleted && pt.subjectId == topic.subjectId && pt.id < topic.id
            && l in t.cat.lessons && !l.isDeleted && l.topicId == pt.id
            ==> IsCompletedFor(t.lessonRows, u, l.id))
  {
    var (lesson, topic) := GetLessonById(t.cat, lessonId).value;
    forall l | l in t.cat.lessons && !l.isDeleted && l.topicId == lesson.topicId && l.id < lessonId
      ensures IsCompletedFor(t.lessonRows, u, l.id)
    {
      assert l in GetPreviousLessons(t.cat, lesson.id, lesson.topicId);
      CompletedListMeaning(t.cat, t.lessonRows, u, l);
    }
    forall pt, l | pt in t.cat.topics && !pt.isDeleted && pt.subjectId == topic.subjectId && pt.id < topic.id
      && l in t.cat.lessons && !l.isDeleted && l.topicId == pt.id
      ensures IsCompletedFor(t.lessonRows, u, l.id)
    {
      assert pt in GetPreviousTopics(t.cat, lesson.topicId, topic.subjectId);
      assert l in GetLessonsByTopic(t.cat, pt.id);
      CompletedListMeaning(t.cat, t.lessonRows, u, l);
    }
  }

  /** The two decisions differ only in the earlier-topic check. */
  lemma GateCorrectionIsLocal(t: Tables, userId: Option<int>, lessonId: int)
    ensures Gate(t, userId, lessonId) != GateCorrected(t, userId, lessonId) ==>
      Gate(t, userId, lessonId) == PreviousTopicsIncomplete || GateCorrected(t, userId, lessonId) == PreviousTopicsIncomplete
  {
  }

  /** A concrete case: subject 1 has topics 1 and 2, with lessons 10 and 20;
      user 7 is enrolled and has completed lesson 10. The written gate
      refuses lesson 20; the corrected gate lets it through. */
  function Example(): Tables {
    Tables(
      Catalog(
        [Subject(1, "Maths", None, None, false, None)],
        [Topic(1, 1, None, None, false), Topic(2, 1, None, None, false)],
        [Lesson(10, 1, "Counting", None, None, false), Lesson(20, 2, "Adding", None, None, false)]),
      [ProgressRow(7, 10, true, Some(0))],
      [Enrollment(7, 1, false, None)],
      [],
      [])
  }

  lemma ExampleLookups()
    ensures GetLessonById(Example().cat, 20) == Some((Example().cat.lessons[1], Example().cat.topics[1]))
    ensures IsUserEnrolledInSubject(Example().enrollments, 7, 1)
    ensures QuizOfTopic(Example().quizzes, 2) == None
  {
    var t := Example();
    assert t.enrollments[0] in t.enrollments;
  }

  /** Both gates reach the ordering checks for user 7 and lesson 20. */
  lemma ExampleReachesOrdering(corrected: bool)
    ensures Decide(Example(), Some(7), 20, corrected)
      == OrderingChecks(Example(), 7, Example().cat.lessons[1], Example().cat.topics[1], corrected)
  {
    ExampleLookups();
  }

  lemma ExampleOrderingQueries()
    ensures GetPreviousLessons(Example().cat, 20, 2) == []
    ensures forall pt :: pt in GetPreviousTopics(Example().cat, 2, 1) <==> pt == Example().cat.topics[0]
    ensures forall l :: l in GetLessonsByTopic(Example().cat, 1) <==> l == Example().cat.lessons[0]
  {
  }

  lemma ExampleCompletedLists()
    ensures 10 !in GetUserCompletedLessons(Example().cat, Example().lessonRows, 7, 2)
    ensures 10 in GetUserCompletedLessons(Example().cat, Example().lessonRows, 7, 1)
  {
    var t := Example();
    assert FindLesson(t.cat, 10) == Some(t.cat.lessons[0]);
    assert t.lessonRows[0] in t.lessonRows;
  }

  /** The written gate refuses lesson 20: lesson 10 of the earlier topic is
      looked for in topic 2's completed list. */
  lemma ExampleShowsDefect()
    ensures Gate(Example(), Some(7), 20) == PreviousTopicsIncomplete
  {
    var t := Example();
    ExampleReachesOrdering(false);
    ExampleOrderingQueries();
    ExampleCompletedLists();
    var completed := GetUserCompletedLessons(t.cat, t.lessonRows, 7, 2);
    var previousTopics := GetPreviousTopics(t.cat, 2, 1);
    assert !AnyIncomplete(GetPreviousLessons(t.cat, 20, 2), completed);
    assert t.cat.topics[0] in previousTopics && t.cat.lessons[0] in GetLessonsByTopic(t.cat, 1);
    assert TopicIncomplete(t.cat, t.cat.topics[0], completed);
    assert OrderingChecks(t, 7, t.cat.lessons[1], t.cat.topics[1], false) == PreviousTopicsIncomplete;
  }

  /** The corrected gate lets the same request through. */
  lemma ExampleCorrectedProceeds()
    ensures GateCorrected(Example(), Some(7), 20) == Proceed
  {
    var t := Example();
    ExampleReachesOrdering(true);
    ExampleOrderingQueries();
    ExampleCompletedLists();
    var completed := GetUserCompletedLessons(t.cat, t.lessonRows, 7, 2);
    var previousTopics := GetPreviousTopics(t.cat, 2, 1);
    assert !AnyIncomplete(GetPreviousLessons(t.cat, 20, 2), completed);
    assert !EarlierTopicsBlockOwn(t.cat, t.lessonRows, 7, previousTopics);
    assert !QuizBlocks(t, 7, 2, completed);
    assert OrderingChecks(t, 7, t.cat.lessons[1], t.cat.topics[1], true) == Proceed;
  }

  /** The quiz check can refuse only a lesson that is already completed: it
      applies once every lesson of the topic, the requested one included, is
      in the completed list. */
  lemma QuizBlocksOnlyRepeatCalls(t: Tables, u: int, lessonId: int)
    requires WellFormed(t.cat)
    requires Gate(t, Some(u), lessonId) == QuizNotPassed
    ensures IsCompletedFor(t.lessonRows, u, lessonId)
    ensures var lesson := GetLessonById(t.cat, lessonId).value.0;
      var quiz := QuizOfTopic(t.quizzes, lesson.topicId);
      && quiz.Some?
      && (GetUserQuizSubmission(t.submissions, u, quiz.value.id).None?
          || GetUserQuizSubmission(t.submissions, u, quiz.value.id).value.score < PassMark)
  {
    var found := GetLessonById(t.cat, lessonId);
    assert found.Some?;
    var lesson, topic := found.value.0, found.value.1;
    assert LessonChecks(t, u, lesson, topic, false) == QuizNotPassed;
    QuizRefusalMeans(t, u, lesson, topic);
  }

  /** The quiz refusal of the ordering checks, for a given visible lesson. */
  lemma QuizRefusalMeans(t: Tables, u: int, lesson: Lesson, topic: Topic)
    requires WellFormed(t.cat)
    requires lesson in t.cat.lessons && !lesson.isDeleted
    requires OrderingChecks(t, u, lesson, topic, false) == QuizNotPassed
    ensures IsCompletedFor(t.lessonRows, u, lesson.id)
    ensures var quiz := QuizOfTopic(t.quizzes, lesson.topicId);
      && quiz.Some?
      && (GetUserQuizSubmission(t.submissions, u, quiz.value.id).None?
          || GetUserQuizSubmission(t.submissions, u, quiz.value.id).value.score < PassMark)
  {
    var completed := GetUserCompletedLessons(t.cat, t.lessonRows, u, lesson.topicId);
    assert QuizBlocks(t, u, lesson.topicId, completed);
    assert lesson in GetLessonsByTopic(t.cat, lesson.topicId);
    CompletedListMeaning(t.cat, t.lessonRows, u, lesson);
  }

  /** The controller's loop over the earlier topics: true as soon as one of
      them fails `incomplete`. */
  method FindIncompleteTopic(previousTopics: seq<Topic>, incomplete: Topic -> bool) returns (blocked: bool)
    ensures blocked <==> exists pt :: pt in previousTopics && incomplete(pt)
  {
    var i := 0;
    while i < |previousTopics|
      invariant 0 <= i <= |previousTopics|
      invariant forall k :: 0 <= k < i ==> !incomplete(previousTopics[k])
    {
      if incomplete(previousTopics[i]) {
        assert previousTopics[i] in previousTopics;
        return true;
      }
      i := i + 1;
    }
    return false;
  }

  /** `LearningProgressController`: the endpoint over the service. */
  class LearningProgressController {
    const service: LearningProgressService

    constructor (s: LearningProgressService)
      ensures service == s
    {
      service := s;
    }

    function Snapshot(): Tables
      reads service
    {
      Tables(service.catalog, service.lessonProgresses, service.enrollments, service.quizzes, service.submissions)
    }

    /** The checks of `Gate`, in the controller's order, with the
        earlier-topic search as a loop; nothing is written. */
    method Decide(userId: Option<int>, lessonId: int) returns (decision: Outcome)
      ensures decision == Gate(Snapshot(), userId, lessonId)
    {
      if userId.None? { return Unauthorized; }
      var u := userId.value;
      var cat := service.catalog;
      var found := GetLessonById(cat, lessonId);
      if found.None? { return LessonNotFound; }
      var (lesson, topic) := found.value;
      var isUserEnrolled := IsUserEnrolledInSubject(service.enrollments, u, topic.subjectId);
      if !isUserEnrolled { return NotEnrolled; }

      var previousLessons := GetPreviousLessons(cat, lesson.id, lesson.topicId);
      var completedLessons := GetUserCompletedLessons(cat, service.lessonProgresses, u, lesson.topicId);
      if AnyIncomplete(previousLessons, completedLessons) { return PreviousLessonsIncomplete; }

      var previousTopics := GetPreviousTopics(cat, lesson.topicId, topic.subjectId);
      var blocked := FindIncompleteTopic(previousTopics, pt => TopicIncomplete(cat, pt, completedLessons));
      assert blocked == EarlierTopicsBlock(cat, previousTopics, completedLessons);
      if blocked { return PreviousTopicsIncomplete; }

      if QuizBlocks(Snapshot(), u, lesson.topicId, completedLessons) { return QuizNotPassed; }
      decision := Proceed;
    }

    /** `MarkLessonCompleted`: the checks of `Gate`, then the write, which
        happens only when every check passes. */
    method MarkLessonCompleted(userId: Option<int>, lessonId: int, now: Time) returns (outcome: Outcome)
      requires service.Valid()
      modifies service`lessonProgresses
      ensures service.Valid()
      ensures Gate(old(Snapshot()), userId, lessonId) == Proceed ==> outcome == Marked
      ensures Gate(old(Snapshot()), userId, lessonId) != Proceed ==> outcome == Gate(old(Snapshot()), userId, lessonId)
      ensures service.lessonProgresses ==
        if outcome == Marked then MarkOnce(old(service.lessonProgresses), userId.value, lessonId, now)
        else old(service.lessonProgresses)
    {
      outcome := Decide(userId, lessonId);
      if outcome == Proceed {
        var isMarked := service.MarkLessonCompleted(lessonId, userId.value, now);
        outcome := if isMarked then Marked else MarkFailed;
      }
    }
  }
}
