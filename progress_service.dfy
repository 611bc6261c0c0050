/** The learning-progress service that the lesson-completion endpoint uses:
    a non-cascading lesson upsert, and the read queries the gate is built
    from. All reads go through the soft-delete filter. */
module ProgressService {
  import opened Common
  import opened Entities
  import opened ProgressStore

  function LessonId(l: Lesson): int { l.id }
  function TopicId(t: Topic): int { t.id }

  /** `GetPreviousLessons`: the visible lessons of the topic with a smaller
      id, ascending by id. */
  function GetPreviousLessons(cat: Catalog, lessonId: int, topicId: int): (r: seq<Lesson>)
    ensures SortedBy(r, LessonId)
    ensures forall l :: l in r <==> l in cat.lessons && !l.isDeleted && l.topicId == topicId && l.id < lessonId
  {
    var f := Filter(cat.lessons, (l: Lesson) => !l.isDeleted && l.topicId == topicId && l.id < lessonId);
    SortByMembers(f, LessonId);
    SortBy(f, LessonId)
  }

  /** `GetPreviousTopics`: the visible topics of the subject with a smaller
      id, ascending by id. */
  function GetPreviousTopics(cat: Catalog, topicId: int, subjectId: int): (r: seq<Topic>)
    ensures SortedBy(r, TopicId)
    ensures forall t :: t in r <==> t in cat.topics && !t.isDeleted && t.subjectId == subjectId && t.id < topicId
  {
    var f := Filter(cat.topics, (t: Topic) => !t.isDeleted && t.subjectId == subjectId && t.id < topicId);
    SortByMembers(f, TopicId);
    SortBy(f, TopicId)
  }

  /** `GetLessonsByTopic`: the visible lessons of the topic, ascending by id. */
  function GetLessonsByTopic(cat: Catalog, topicId: int): (r: seq<Lesson>)
    ensures SortedBy(r, LessonId)
    ensures forall l :: l in r <==> l in cat.lessons && !l.isDeleted && l.topicId == topicId
  {
    var f := Filter(cat.lessons, (l: Lesson) => !l.isDeleted && l.topicId == topicId);
    SortByMembers(f, LessonId);
    SortBy(f, LessonId)
  }

  /** Under the primary-key constraint the id order is strict. */
  lemma IdOrderIsStrict(cat: Catalog, lessonId: int, topicId: int)
    requires WellFormed(cat)
    ensures var r := GetPreviousLessons(cat, lessonId, topicId);
      forall i, j :: 0 <= i < j < |r| ==> r[i].id < r[j].id
  {
    var r := GetPreviousLessons(cat, lessonId, topicId);
    forall i, j | 0 <= i < j < |r| ensures r[i].id < r[j].id {
      assert r[i] in r && r[j] in r;
      assert multiset(r)[r[i]] >= 1;
      if r[i].id == r[j].id {
        var a :| 0 <= a < |cat.lessons| && cat.lessons[a] == r[i];
        var b :| 0 <= b < |cat.lessons| && cat.lessons[b] == r[j];
        assert a == b;
        CountTwo(r, i, j);
        var f := Filter(cat.lessons, (l: Lesson) => !l.isDeleted && l.topicId == topicId && l.id < lessonId);
        FilterKeepsDistinct(cat.lessons, (l: Lesson) => !l.isDeleted && l.topicId == topicId && l.id < lessonId, LessonId);
        DistinctOnce(f, LessonId, r[i]);
        assert false;
      }
    }
  }

  lemma CountTwo<T>(s: seq<T>, i: int, j: int)
    requires 0 <= i < j < |s| && s[i] == s[j]
    ensures multiset(s)[s[i]] >= 2
  {
    var x := s[i];
    assert s == s[..i] + [x] + s[i + 1..j] + [x] + s[j + 1..];
  }

  lemma {:induction false} DistinctOnce<T>(s: seq<T>, key: T -> int, x: T)
    requires DistinctBy(s, key)
    ensures multiset(s)[x] <= 1
  {
    if s != [] {
      var tail := s[1..];
      assert DistinctBy(tail, key) by {
        forall i, j | 0 <= i < j < |tail| ensures key(tail[i]) != key(tail[j]) {
          assert tail[i] == s[i + 1] && tail[j] == s[j + 1];
        }
      }
      DistinctOnce(tail, key, x);
      assert s == [s[0]] + tail;
      if s[0] == x {
        assert x !in tail by {
          forall k | 0 <= k < |tail| ensures tail[k] != x {
            assert tail[k] == s[k + 1];
          }
        }
      }
    }
  }

  /** `GetUserCompletedLessons`: the lesson ids of the user's completed rows
      whose lesson (visible) belongs to the topic, one per row. */
  function GetUserCompletedLessons(cat: Catalog, rows: seq<ProgressRow>, userId: int, topicId: int): (r: seq<int>)
    ensures forall id :: id in r <==>
      exists p :: p in rows && p.userId == userId && p.isCompleted && p.entityId == id
                  && FindLesson(cat, id).Some? && FindLesson(cat, id).value.topicId == topicId
  {
    var f := Filter(rows, (p: ProgressRow) =>
      p.userId == userId && p.isCompleted
      && match FindLesson(cat, p.entityId) case None => false case Some(l) => l.topicId == topicId);
    var r := seq(|f|, i requires 0 <= i < |f| => f[i].entityId);
    assert forall id :: id in r ==> exists p :: p in f && p.entityId == id by {
      forall id | id in r ensures exists p :: p in f && p.entityId == id {
        var i :| 0 <= i < |r| && r[i] == id;
        assert f[i] in f;
      }
    }
    assert forall p :: p in f ==> p.entityId in r by {
      forall p | p in f ensures p.entityId in r {
        var i :| 0 <= i < |f| && f[i] == p;
        assert r[i] == p.entityId;
      }
    }
    r
  }

  /** Under the primary-key constraint, a visible lesson of the topic is in
      the completed list iff the user has a completed row for it. */
  lemma CompletedListMeaning(cat: Catalog, rows: seq<ProgressRow>, userId: int, l: Lesson)
    requires WellFormed(cat)
    requires l in cat.lessons && !l.isDeleted
    ensures l.id in GetUserCompletedLessons(cat, rows, userId, l.topicId) <==> IsCompletedFor(rows, userId, l.id)
    ensures forall topicId :: topicId != l.topicId ==> l.id !in GetUserCompletedLessons(cat, rows, userId, topicId)
  {
    FindLessonUnique(cat, l);
    if IsCompletedFor(rows, userId, l.id) {
      var i :| 0 <= i < |rows| && HasKey(rows[i], userId, l.id) && rows[i].isCompleted;
      assert rows[i] in rows;
    }
  }

  /** A visible lesson with the id whose topic and whose topic's subject
      are both visible: the row the joined lookup can return. */
  ghost predicate Reachable(cat: Catalog, lessonId: int) {
    exists l, tp, s :: l in cat.lessons && !l.isDeleted && l.id == lessonId
      && tp in cat.topics && !tp.isDeleted && tp.id == l.topicId
      && s in cat.subjects && !s.isDeleted && s.id == tp.subjectId
  }

  /** `GetLessonByIdAsync`: the lesson with its topic loaded by
      `Include(Topic).ThenInclude(Subject)`. Both navigations are required
      (`TopicId` and `SubjectId` are not nullable), so they are inner joins
      against the filtered Topics and Subjects: a lesson whose topic or
      subject is soft-deleted is not found, and a found lesson always comes
      with its topic. */
  function GetLessonById(cat: Catalog, lessonId: int): (r: Option<(Lesson, Topic)>)
    ensures r.Some? ==>
      var (l, tp) := r.value;
      && l in cat.lessons && !l.isDeleted && l.id == lessonId
      && tp in cat.topics && !tp.isDeleted && tp.id == l.topicId
      && FindSubject(cat, tp.subjectId).Some?
    ensures r.Some? ==> Reachable(cat, lessonId)
  {
    match FindLesson(cat, lessonId)
    case None => None
    case Some(l) =>
      match FindTopic(cat, l.topicId)
      case None => None
      case Some(tp) =>
        if FindSubject(cat, tp.subjectId).None? then None
        else
          assert FindSubject(cat, tp.subjectId).value in cat.subjects;
          Some((l, tp))
  }

  /** Under the primary-key constraint the lookup finds a lesson exactly
      when the lesson, its topic and its subject are all visible. */
  lemma GetLessonByIdMeans(cat: Catalog, lessonId: int)
    requires WellFormed(cat)
    ensures GetLessonById(cat, lessonId).Some? <==> Reachable(cat, lessonId)
  {
    if Reachable(cat, lessonId) {
      var l, tp, s :| l in cat.lessons && !l.isDeleted && l.id == lessonId
        && tp in cat.topics && !tp.isDeleted && tp.id == l.topicId
        && s in cat.subjects && !s.isDeleted && s.id == tp.subjectId;
      FindLessonUnique(cat, l);
      FindTopicUnique(cat, tp);
    }
  }

  /** `IsUserEnrolledInSubject`: `Any` over the enrollments. */
  function IsUserEnrolledInSubject(enrollments: seq<Enrollment>, userId: int, subjectId: int): (r: bool)
    ensures r <==> IsEnrolled(enrollments, userId, subjectId)
  {
    FindFirst(enrollments, (e: Enrollment) => e.userId == userId && e.subjectId == subjectId && !e.isDeleted).Some?
  }

  /** `GetUserQuizSubmission`: the user's submission for the quiz with the
      latest `Created`, or none. */
  function GetUserQuizSubmission(subs: seq<QuizSubmission>, userId: int, quizId: int): (r: Option<QuizSubmission>)
    ensures r.None? <==> forall s :: s in subs ==> !(s.userId == userId && s.quizId == quizId)
    ensures r.Some? ==> r.value in subs && r.value.userId == userId && r.value.quizId == quizId
    ensures r.Some? ==> forall s :: s in subs && s.userId == userId && s.quizId == quizId ==> s.created <= r.value.created
  {
    var mine := Filter(subs, (s: QuizSubmission) => s.userId == userId && s.quizId == quizId);
    match LatestBy(mine, (s: QuizSubmission) => Some(s.created))
    case None => None
    case Some(i) =>
      assert forall s :: s in mine ==> s.created <= mine[i].created by {
        forall s | s in mine ensures s.created <= mine[i].created {
          var j :| 0 <= j < |mine| && mine[j] == s;
        }
      }
      assert mine[i] in mine;
      Some(mine[i])
  }

  /** The service's view of the context. Only the lesson progress table is
      written here. */
  class LearningProgressService {
    const catalog: Catalog
    const enrollments: seq<Enrollment>
    const quizzes: seq<Quiz>
    const submissions: seq<QuizSubmission>
    var lessonProgresses: seq<ProgressRow>

    ghost predicate Valid()
      reads this
    {
      UniqueKeys(lessonProgresses)
    }

    constructor (cat: Catalog, es: seq<Enrollment>, qs: seq<Quiz>, subs: seq<QuizSubmission>, rows: seq<ProgressRow>)
      requires UniqueKeys(rows)
      ensures Valid()
      ensures catalog == cat && enrollments == es && quizzes == qs && submissions == subs && lessonProgresses == rows
    {
      catalog := cat;
      enrollments := es;
      quizzes := qs;
      submissions := subs;
      lessonProgresses := rows;
    }

    /** `MarkLessonCompleted(lessonId, userId)`: add, complete, or leave an
        already-completed row alone. The save writes the one changed row, so
        the result is always true. */
    method MarkLessonCompleted(lessonId: int, userId: int, now: Time) returns (ok: bool)
      requires Valid()
      modifies this`lessonProgresses
      ensures Valid() && ok
      ensures lessonProgresses == MarkOnce(old(lessonProgresses), userId, lessonId, now)
    {
      var found := FindRow(lessonProgresses, userId, lessonId);
      if found.None? {
        lessonProgresses := lessonProgresses + [ProgressRow(userId, lessonId, true, Some(now))];
      } else if !lessonProgresses[found.value].isCompleted {
        var i := found.value;
        lessonProgresses := lessonProgresses[i := lessonProgresses[i].(isCompleted := true, dateCompleted := Some(now))];
      } else {
        return true;
      }
      ok := true;
    }

    method GetLastVisitedLesson(userId: int) returns (r: Option<ProgressRow>)
      ensures r == LastVisited(lessonProgresses, userId)
    {
      r := LastVisited(lessonProgresses, userId);
    }
  }
}
