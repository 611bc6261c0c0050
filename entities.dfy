/** The persisted records of the e-learning backend, and the catalog reads
    that go through the global soft-delete query filter. */
module Entities {
  import opened Common

  // ---- Content hierarchy: Subject (1) -> Topic (N) -> Lesson (N) ----

  datatype Subject = Subject(
    id: int,
    title: string,
    description: Option<string>,
    thumbnailUrl: Option<string>,
    isDeleted: bool,
    dateDeleted: Option<Time>)

  datatype Topic = Topic(
    id: int,
    subjectId: int,
    title: Option<string>,
    description: Option<string>,
    isDeleted: bool)

  datatype Lesson = Lesson(
    id: int,
    topicId: int,
    title: string,
    content: Option<string>,
    videoUrl: Option<string>,
    isDeleted: bool)

  /** The catalog tables, each in storage order, soft-deleted rows included. */
  datatype Catalog = Catalog(subjects: seq<Subject>, topics: seq<Topic>, lessons: seq<Lesson>)

  /** Id is the primary key of every catalog table. */
  ghost predicate WellFormed(cat: Catalog) {
    && (forall i, j :: 0 <= i < j < |cat.subjects| ==> cat.subjects[i].id != cat.subjects[j].id)
    && (forall i, j :: 0 <= i < j < |cat.topics| ==> cat.topics[i].id != cat.topics[j].id)
    && (forall i, j :: 0 <= i < j < |cat.lessons| ==> cat.lessons[i].id != cat.lessons[j].id)
  }

  // ---- Quizzes ----

  datatype QuestionOption = QuestionOption(id: int, questionId: int, text: Option<string>, isDeleted: bool)

  /** A question with its `Options` collection, in collection order. */
  datatype Question = Question(
    id: int,
    quizId: int,
    questionText: Option<string>,
    options: seq<QuestionOption>,
    correctOptionId: int,
    score: int,
    isDeleted: bool)

  datatype Quiz = Quiz(id: int, topicId: int, title: Option<string>, isDeleted: bool, dateDeleted: Option<Time>)

  /** One graded submission event. */
  datatype QuizAttempt = QuizAttempt(
    id: int,
    userId: int,
    quizId: int,
    totalQuestions: int,
    correctAnswers: int,
    incorrectAnswers: int,
    totalScore: real,
    isPassed: bool)

  /** One answer recorded within an attempt. `score` stands for the
      `Score` column of the table, which the entity class does not declare;
      `created` is the audit timestamp the progress gate orders by. */
  datatype QuizSubmission = QuizSubmission(
    userId: int,
    quizId: int,
    questionId: int,
    selectedOptionId: Option<int>,
    attemptId: int,
    score: int,
    created: Time)

  // ---- Enrollment (its own Id is not modelled; records are found by user and subject) ----

  datatype Enrollment = Enrollment(userId: int, subjectId: int, isDeleted: bool, dateDeleted: Option<Time>)

  // ---- Reads through the soft-delete query filter ----

  /** `Subjects.FindAsync(id)`: the non-deleted subject with that id. */
  function FindSubject(cat: Catalog, id: int): (r: Option<Subject>)
    ensures r.Some? ==> r.value in cat.subjects && r.value.id == id && !r.value.isDeleted
    ensures r.None? <==> forall s :: s in cat.subjects && s.id == id ==> s.isDeleted
  {
    match FindFirst(cat.subjects, (s: Subject) => s.id == id && !s.isDeleted)
    case None => None
    case Some(i) => Some(cat.subjects[i])
  }

  /** `Topics.FirstOrDefault(t => t.Id == id)`. */
  function FindTopic(cat: Catalog, id: int): (r: Option<Topic>)
    ensures r.Some? ==> r.value in cat.topics && r.value.id == id && !r.value.isDeleted
    ensures r.None? <==> forall t :: t in cat.topics && t.id == id ==> t.isDeleted
  {
    match FindFirst(cat.topics, (t: Topic) => t.id == id && !t.isDeleted)
    case None => None
    case Some(i) => Some(cat.topics[i])
  }

  /** `Lessons.FirstOrDefault(l => l.Id == id)`. */
  function FindLesson(cat: Catalog, id: int): (r: Option<Lesson>)
    ensures r.Some? ==> r.value in cat.lessons && r.value.id == id && !r.value.isDeleted
    ensures r.None? <==> forall l :: l in cat.lessons && l.id == id ==> l.isDeleted
  {
    match FindFirst(cat.lessons, (l: Lesson) => l.id == id && !l.isDeleted)
    case None => None
    case Some(i) => Some(cat.lessons[i])
  }

  /** Under the primary-key constraint, a visible row with the id is the one found. */
  lemma FindLessonUnique(cat: Catalog, l: Lesson)
    requires WellFormed(cat)
    requires l in cat.lessons && !l.isDeleted
    ensures FindLesson(cat, l.id) == Some(l)
  {
    var r := FindLesson(cat, l.id);
    var i :| 0 <= i < |cat.lessons| && cat.lessons[i] == l;
    var j :| 0 <= j < |cat.lessons| && cat.lessons[j] == r.value;
    assert i == j;
  }

  lemma FindTopicUnique(cat: Catalog, t: Topic)
    requires WellFormed(cat)
    requires t in cat.topics && !t.isDeleted
    ensures FindTopic(cat, t.id) == Some(t)
  {
    var r := FindTopic(cat, t.id);
    var i :| 0 <= i < |cat.topics| && cat.topics[i] == t;
    var j :| 0 <= j < |cat.topics| && cat.topics[j] == r.value;
    assert i == j;
  }

  /** `Quizzes.FirstOrDefault(q => q.TopicId == topicId)`. */
  function QuizOfTopic(quizzes: seq<Quiz>, topicId: int): (r: Option<Quiz>)
    ensures r.Some? ==> r.value in quizzes && r.value.topicId == topicId && !r.value.isDeleted
    ensures r.None? <==> forall q :: q in quizzes && q.topicId == topicId ==> q.isDeleted
  {
    match FindFirst(quizzes, (q: Quiz) => q.topicId == topicId && !q.isDeleted)
    case None => None
    case Some(i) => Some(quizzes[i])
  }

  /** `Quizzes.FirstOrDefault(q => q.Id == id)`. */
  function QuizById(quizzes: seq<Quiz>, id: int): (r: Option<Quiz>)
    ensures r.Some? ==> r.value in quizzes && r.value.id == id && !r.value.isDeleted
    ensures r.None? <==> forall q :: q in quizzes && q.id == id ==> q.isDeleted
  {
    match FindFirst(quizzes, (q: Quiz) => q.id == id && !q.isDeleted)
    case None => None
    case Some(i) => Some(quizzes[i])
  }

  /** The quiz's `Questions` navigation: its non-deleted questions, in table order. */
  function QuizQuestions(questions: seq<Question>, quizId: int): (r: seq<Question>)
    ensures forall q :: q in r <==> q in questions && q.quizId == quizId && !q.isDeleted
  {
    Filter(questions, (q: Question) => q.quizId == quizId && !q.isDeleted)
  }

  /** `Questions.FindAsync(id)`: by id only, whatever quiz the question belongs to. */
  function FindQuestion(questions: seq<Question>, id: int): (r: Option<Question>)
    ensures r.Some? ==> r.value in questions && r.value.id == id && !r.value.isDeleted
    ensures r.None? <==> forall q :: q in questions && q.id == id ==> q.isDeleted
  {
    match FindFirst(questions, (q: Question) => q.id == id && !q.isDeleted)
    case None => None
    case Some(i) => Some(questions[i])
  }

  /** `Options.AnyAsync(o => o.Id == optionId && o.QuestionId == questionId)`. */
  predicate OptionExists(options: seq<QuestionOption>, optionId: int, questionId: int) {
    exists o :: o in options && o.id == optionId && o.questionId == questionId && !o.isDeleted
  }

  /** `Enrollments.AnyAsync(e => e.UserId == u && e.SubjectId == s && !e.IsDeleted)`. */
  predicate IsEnrolled(enrollments: seq<Enrollment>, userId: int, subjectId: int) {
    exists e :: e in enrollments && e.userId == userId && e.subjectId == subjectId && !e.isDeleted
  }
}
