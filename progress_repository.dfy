/** The cascading completion writer: marking a lesson upserts its row, then
    re-derives topic completion from counts of completed lesson ids, and on
    success subject completion from counts of completed topic ids. Every
    catalog read passes through the soft-delete filter, so deleted lessons
    and topics drop out of the counts. */
module ProgressRepository {
  import opened Common
  import opened Entities
  import opened ProgressStore

  /** The three progress tables together. */
  datatype Progress = Progress(lessons: seq<ProgressRow>, topics: seq<ProgressRow>, subjects: seq<ProgressRow>)

  predicate ProgressValid(p: Progress) {
    UniqueKeys(p.lessons) && UniqueKeys(p.topics) && UniqueKeys(p.subjects)
  }

  predicate ProgressGrows(before: Progress, after: Progress) {
    Grows(before.lessons, after.lessons) && Grows(before.topics, after.topics) && Grows(before.subjects, after.subjects)
  }

  // ---- Catalog reads (soft-delete filtered) ----

  /** `Lessons.Where(l => l.Id == lessonId).Select(l => l.TopicId).FirstOrDefault()`: 0 when no visible lesson. */
  function TopicIdOfLesson(cat: Catalog, lessonId: int): int {
    match FindLesson(cat, lessonId)
    case None => 0
    case Some(l) => l.topicId
  }

  /** `Topics.Where(t => t.Id == topicId).Select(t => t.SubjectId).FirstOrDefault()`: 0 when no visible topic. */
  function SubjectIdOfTopic(cat: Catalog, topicId: int): int {
    match FindTopic(cat, topicId)
    case None => 0
    case Some(t) => t.subjectId
  }

  function LessonIds(ls: seq<Lesson>): (r: seq<int>)
    ensures |r| == |ls| && forall i :: 0 <= i < |ls| ==> r[i] == ls[i].id
  {
    seq(|ls|, i requires 0 <= i < |ls| => ls[i].id)
  }

  function TopicIds(ts: seq<Topic>): (r: seq<int>)
    ensures |r| == |ts| && forall i :: 0 <= i < |ts| ==> r[i] == ts[i].id
  {
    seq(|ts|, i requires 0 <= i < |ts| => ts[i].id)
  }

  /** `Lessons.Where(l => l.TopicId == topicId).Select(l => l.Id)`. */
  function LessonIdsOfTopic(cat: Catalog, topicId: int): seq<int> {
    LessonIds(Filter(cat.lessons, (l: Lesson) => !l.isDeleted && l.topicId == topicId))
  }

  /** `Topics.Where(t => t.SubjectId == subjectId).Select(t => t.Id)`. */
  function TopicIdsOfSubject(cat: Catalog, subjectId: int): seq<int> {
    TopicIds(Filter(cat.topics, (t: Topic) => !t.isDeleted && t.subjectId == subjectId))
  }

  /** `progress.Where(p => p.UserId == userId && p.IsCompleted && ids.Contains(p.<Entity>Id)).Select(..).Distinct()`. */
  function CompletedAmong(rows: seq<ProgressRow>, userId: int, ids: seq<int>): set<int> {
    set i | 0 <= i < |rows| && rows[i].userId == userId && rows[i].isCompleted && rows[i].entityId in ids :: rows[i].entityId
  }

  /** `completed.Count == all.Count`. */
  predicate CountsMatch(rows: seq<ProgressRow>, userId: int, ids: seq<int>) {
    |CompletedAmong(rows, userId, ids)| == |ids|
  }

  // ---- What the counts mean ----

  /** Every visible lesson of the topic has a completed row for the user. */
  predicate TopicDone(cat: Catalog, lessonRows: seq<ProgressRow>, userId: int, topicId: int) {
    forall l :: l in cat.lessons && !l.isDeleted && l.topicId == topicId ==> IsCompletedFor(lessonRows, userId, l.id)
  }

  /** Every visible topic of the subject has a completed row for the user. */
  predicate SubjectDone(cat: Catalog, topicRows: seq<ProgressRow>, userId: int, subjectId: int) {
    forall t :: t in cat.topics && !t.isDeleted && t.subjectId == subjectId ==> IsCompletedFor(topicRows, userId, t.id)
  }

  /** With distinct ids, the count comparison holds iff every id has a
      completed row for the user. */
  lemma CountsMatchIff(rows: seq<ProgressRow>, userId: int, ids: seq<int>)
    requires DistinctBy(ids, (x: int) => x)
    ensures CountsMatch(rows, userId, ids) <==> forall k :: 0 <= k < |ids| ==> IsCompletedFor(rows, userId, ids[k])
  {
    var a := CompletedAmong(rows, userId, ids);
    var b := Elements(ids);
    DistinctElements(ids);
    assert a <= b;
    if forall k :: 0 <= k < |ids| ==> IsCompletedFor(rows, userId, ids[k]) {
      forall x | x in b ensures x in a {
        var k :| 0 <= k < |ids| && ids[k] == x;
        var i :| 0 <= i < |rows| && HasKey(rows[i], userId, x) && rows[i].isCompleted;
        assert rows[i].entityId in ids;
      }
      assert a == b;
    }
    if CountsMatch(rows, userId, ids) {
      SubsetOfSameSize(a, b);
      forall k | 0 <= k < |ids| ensures IsCompletedFor(rows, userId, ids[k]) {
        assert ids[k] in b;
        var i :| 0 <= i < |rows| && rows[i].userId == userId && rows[i].isCompleted
                 && rows[i].entityId in ids && rows[i].entityId == ids[k];
        assert HasKey(rows[i], userId, ids[k]);
      }
    }
  }

  /** Under the primary-key constraint, the topic's count check is exactly
      "all its visible lessons are completed". A topic whose lessons are all
      deleted counts as complete. */
  lemma TopicCountMeansDone(cat: Catalog, rows: seq<ProgressRow>, userId: int, topicId: int)
    requires WellFormed(cat)
    ensures CountsMatch(rows, userId, LessonIdsOfTopic(cat, topicId)) <==> TopicDone(cat, rows, userId, topicId)
  {
    var p := (l: Lesson) => !l.isDeleted && l.topicId == topicId;
    var f := Filter(cat.lessons, p);
    var ids := LessonIdsOfTopic(cat, topicId);
    FilterKeepsDistinct(cat.lessons, p, (l: Lesson) => l.id);
    assert DistinctBy(ids, (x: int) => x);
    CountsMatchIff(rows, userId, ids);
    if CountsMatch(rows, userId, ids) {
      forall l | l in cat.lessons && !l.isDeleted && l.topicId == topicId ensures IsCompletedFor(rows, userId, l.id) {
        assert l in f;
        var k :| 0 <= k < |f| && f[k] == l;
        assert ids[k] == l.id;
      }
    }
    if TopicDone(cat, rows, userId, topicId) {
      forall k | 0 <= k < |ids| ensures IsCompletedFor(rows, userId, ids[k]) {
        assert f[k] in f;
      }
    }
  }

  lemma SubjectCountMeansDone(cat: Catalog, rows: seq<ProgressRow>, userId: int, subjectId: int)
    requires WellFormed(cat)
    ensures CountsMatch(rows, userId, TopicIdsOfSubject(cat, subjectId)) <==> SubjectDone(cat, rows, userId, subjectId)
  {
    var p := (t: Topic) => !t.isDeleted && t.subjectId == subjectId;
    var f := Filter(cat.topics, p);
    var ids := TopicIdsOfSubject(cat, subjectId);
    FilterKeepsDistinct(cat.topics, p, (t: Topic) => t.id);
    assert DistinctBy(ids, (x: int) => x);
    CountsMatchIff(rows, userId, ids);
    if CountsMatch(rows, userId, ids) {
      forall t | t in cat.topics && !t.isDeleted && t.subjectId == subjectId ensures IsCompletedFor(rows, userId, t.id) {
        assert t in f;
        var k :| 0 <= k < |f| && f[k] == t;
        assert ids[k] == t.id;
      }
    }
    if SubjectDone(cat, rows, userId, subjectId) {
      forall k | 0 <= k < |ids| ensures IsCompletedFor(rows, userId, ids[k]) {
        assert f[k] in f;
      }
    }
  }

  // ---- The cascade, as functions of the tables ----

  /** `MarkSubjectCompleted`. */
  function SubjectStep(cat: Catalog, p: Progress, userId: int, subjectId: int, now: Time): (r: Progress)
    ensures ProgressGrows(p, r)
    ensures ProgressValid(p) ==> ProgressValid(r)
    ensures r.lessons == p.lessons && r.topics == p.topics
  {
    if CountsMatch(p.topics, userId, TopicIdsOfSubject(cat, subjectId))
    then p.(subjects := Upsert(p.subjects, userId, subjectId, now))
    else p
  }

  /** `MarkTopicCompleted`: the subject step runs only after the topic was upserted. */
  function TopicStep(cat: Catalog, p: Progress, userId: int, topicId: int, now: Time): (r: Progress)
    ensures ProgressGrows(p, r)
    ensures ProgressValid(p) ==> ProgressValid(r)
    ensures r.lessons == p.lessons
  {
    if CountsMatch(p.lessons, userId, LessonIdsOfTopic(cat, topicId)) then
      var p1 := p.(topics := Upsert(p.topics, userId, topicId, now));
      var subjectId := SubjectIdOfTopic(cat, topicId);
      if subjectId > 0 then
        GrowsTransitive(p.subjects, p1.subjects, SubjectStep(cat, p1, userId, subjectId, now).subjects);
        SubjectStep(cat, p1, userId, subjectId, now)
      else p1
    else p
  }

  /** `MarkLessonCompleted`: upsert the lesson row, then cascade when the
      lesson's topic id is positive. */
  function LessonStep(cat: Catalog, p: Progress, userId: int, lessonId: int, now: Time): (r: Progress)
    ensures ProgressGrows(p, r)
    ensures ProgressValid(p) ==> ProgressValid(r)
    ensures IsCompletedFor(r.lessons, userId, lessonId)
  {
    var p1 := p.(lessons := Upsert(p.lessons, userId, lessonId, now));
    var topicId := TopicIdOfLesson(cat, lessonId);
    if topicId > 0 then TopicStep(cat, p1, userId, topicId, now) else p1
  }

  /** The subject row is upserted iff every visible topic of the subject is
      completed; otherwise nothing changes. */
  lemma SubjectStepMeaning(cat: Catalog, p: Progress, userId: int, subjectId: int, now: Time)
    requires WellFormed(cat)
    ensures SubjectStep(cat, p, userId, subjectId, now) ==
      if SubjectDone(cat, p.topics, userId, subjectId)
      then p.(subjects := Upsert(p.subjects, userId, subjectId, now))
      else p
  {
    SubjectCountMeansDone(cat, p.topics, userId, subjectId);
  }

  /** The topic row is upserted iff every visible lesson of the topic is
      completed; when it is not, the subject table is not touched either. */
  lemma TopicStepMeaning(cat: Catalog, p: Progress, userId: int, topicId: int, now: Time)
    requires WellFormed(cat)
    ensures TopicStep(cat, p, userId, topicId, now).topics ==
      if TopicDone(cat, p.lessons, userId, topicId) then Upsert(p.topics, userId, topicId, now) else p.topics
    ensures !TopicDone(cat, p.lessons, userId, topicId) ==> TopicStep(cat, p, userId, topicId, now) == p
  {
    TopicCountMeansDone(cat, p.lessons, userId, topicId);
  }

  /** The topic completed by a lesson call, if any: the topic id of the
      visible lesson (the topic itself is not checked, so a soft-deleted
      topic counts too), once that topic's visible lessons are all
      completed. */
  predicate CascadesToTopic(cat: Catalog, lessonRows: seq<ProgressRow>, userId: int, lessonId: int) {
    TopicIdOfLesson(cat, lessonId) > 0 && TopicDone(cat, lessonRows, userId, TopicIdOfLesson(cat, lessonId))
  }

  /** The whole cascade of one call: the lesson row is upserted; the topic
      row is upserted iff the lesson is visible, with a positive topic id,
      and the visible lessons of that topic are now all completed, whether
      or not the topic itself is soft-deleted; the subject row can change
      only in that case, and then iff the topic is visible and all visible
      topics of its subject are completed. */
  lemma LessonStepCascade(cat: Catalog, p: Progress, userId: int, lessonId: int, now: Time)
    requires WellFormed(cat)
    ensures LessonStep(cat, p, userId, lessonId, now).lessons == Upsert(p.lessons, userId, lessonId, now)
    ensures LessonStep(cat, p, userId, lessonId, now).topics ==
      if CascadesToTopic(cat, Upsert(p.lessons, userId, lessonId, now), userId, lessonId)
      then Upsert(p.topics, userId, TopicIdOfLesson(cat, lessonId), now)
      else p.topics
    ensures !CascadesToTopic(cat, Upsert(p.lessons, userId, lessonId, now), userId, lessonId) ==>
      LessonStep(cat, p, userId, lessonId, now).subjects == p.subjects
    ensures CascadesToTopic(cat, Upsert(p.lessons, userId, lessonId, now), userId, lessonId) ==>
      var subjectId := SubjectIdOfTopic(cat, TopicIdOfLesson(cat, lessonId));
      var r := LessonStep(cat, p, userId, lessonId, now);
      r.subjects == if subjectId > 0 && SubjectDone(cat, r.topics, userId, subjectId)
                    then Upsert(p.subjects, userId, subjectId, now) else p.subjects
  {
    var r := LessonStep(cat, p, userId, lessonId, now);
    var p1 := p.(lessons := Upsert(p.lessons, userId, lessonId, now));
    var topicId := TopicIdOfLesson(cat, lessonId);
    if topicId > 0 {
      assert r == TopicStep(cat, p1, userId, topicId, now);
      TopicCountMeansDone(cat, p1.lessons, userId, topicId);
      if TopicDone(cat, p1.lessons, userId, topicId) {
        var p2 := p1.(topics := Upsert(p1.topics, userId, topicId, now));
        var subjectId := SubjectIdOfTopic(cat, topicId);
        if subjectId > 0 {
          assert r == SubjectStep(cat, p2, userId, subjectId, now);
          SubjectCountMeansDone(cat, p2.topics, userId, subjectId);
        } else {
          assert r == p2;
        }
      } else {
        assert r == p1;
      }
    } else {
      assert r == p1;
    }
  }

  /** Marking the same lesson twice at the same instant is the same as
      marking it once. */
  lemma LessonStepIdempotent(cat: Catalog, p: Progress, userId: int, lessonId: int, now: Time)
    ensures LessonStep(cat, LessonStep(cat, p, userId, lessonId, now), userId, lessonId, now)
         == LessonStep(cat, p, userId, lessonId, now)
  {
    var r := LessonStep(cat, p, userId, lessonId, now);
    var p1 := p.(lessons := Upsert(p.lessons, userId, lessonId, now));
    UpsertIdempotent(p.lessons, userId, lessonId, now);
    var topicId := TopicIdOfLesson(cat, lessonId);
    if topicId > 0 && CountsMatch(p1.lessons, userId, LessonIdsOfTopic(cat, topicId)) {
      UpsertIdempotent(p.topics, userId, topicId, now);
      var p2 := p1.(topics := Upsert(p1.topics, userId, topicId, now));
      var subjectId := SubjectIdOfTopic(cat, topicId);
      if subjectId > 0 && CountsMatch(p2.topics, userId, TopicIdsOfSubject(cat, subjectId)) {
        UpsertIdempotent(p.subjects, userId, subjectId, now);
      }
    }
  }

  /** The subject of a lesson, through its visible topic. */
  function SubjectOfLesson(cat: Catalog, lessonId: int): Option<int> {
    match FindLesson(cat, lessonId)
    case None => None
    case Some(l) =>
      match FindTopic(cat, l.topicId)
      case None => None
      case Some(t) => Some(t.subjectId)
  }

  /** The lesson is visible and belongs to a visible topic of the subject. */
  ghost predicate InSubject(cat: Catalog, lessonId: int, subjectId: int) {
    exists l, t :: l in cat.lessons && !l.isDeleted && l.id == lessonId
                && t in cat.topics && !t.isDeleted && t.id == l.topicId && t.subjectId == subjectId
  }

  lemma SubjectOfLessonMeaning(cat: Catalog, lessonId: int, subjectId: int)
    requires WellFormed(cat)
    ensures SubjectOfLesson(cat, lessonId) == Some(subjectId) <==> InSubject(cat, lessonId, subjectId)
  {
    if InSubject(cat, lessonId, subjectId) {
      var l, t :| l in cat.lessons && !l.isDeleted && l.id == lessonId
                && t in cat.topics && !t.isDeleted && t.id == l.topicId && t.subjectId == subjectId;
      FindLessonUnique(cat, l);
      FindTopicUnique(cat, t);
    }
  }

  /** `GetUserProgress`: the user's lesson rows whose lesson belongs to a
      topic of the subject, both visible. */
  function UserProgress(cat: Catalog, rows: seq<ProgressRow>, userId: int, subjectId: int): (r: seq<ProgressRow>)
    ensures forall x :: x in r ==> x in rows && x.userId == userId
    ensures WellFormed(cat) ==> forall x :: x in r <==> x in rows && x.userId == userId && InSubject(cat, x.entityId, subjectId)
  {
    var r := Filter(rows, (x: ProgressRow) => x.userId == userId && SubjectOfLesson(cat, x.entityId) == Some(subjectId));
    assert WellFormed(cat) ==> forall x :: x in r <==> x in rows && x.userId == userId && InSubject(cat, x.entityId, subjectId) by {
      if WellFormed(cat) {
        forall x ensures x in r <==> x in rows && x.userId == userId && InSubject(cat, x.entityId, subjectId) {
          SubjectOfLessonMeaning(cat, x.entityId, subjectId);
        }
      }
    }
    r
  }

  /** A visible lesson with the id exists. */
  ghost predicate LessonVisible(cat: Catalog, lessonId: int) {
    exists l :: l in cat.lessons && !l.isDeleted && l.id == lessonId
  }

  /** The repository's `GetLastVisitedLesson`. Its `Include(lp => lp.Lesson)`
      follows a required navigation, so it is an inner join against the
      filtered Lessons: only rows whose lesson is visible take part, and the
      latest of those by `DateCompleted` is returned. */
  function LastVisitedOfVisible(cat: Catalog, rows: seq<ProgressRow>, userId: int): (r: Option<ProgressRow>)
    ensures r.None? <==> forall p :: p in rows && p.userId == userId ==> !LessonVisible(cat, p.entityId)
    ensures r.Some? ==> r.value in rows && r.value.userId == userId && LessonVisible(cat, r.value.entityId)
    ensures r.Some? ==>
      forall p :: p in rows && p.userId == userId && LessonVisible(cat, p.entityId) ==> AtMost(p.dateCompleted, r.value.dateCompleted)
  {
    var joined := Filter(rows, (p: ProgressRow) => FindLesson(cat, p.entityId).Some?);
    assert forall p :: p in joined <==> p in rows && LessonVisible(cat, p.entityId) by {
      forall p ensures p in joined <==> p in rows && LessonVisible(cat, p.entityId) {
        if FindLesson(cat, p.entityId).Some? {
          assert FindLesson(cat, p.entityId).value in cat.lessons;
        }
      }
    }
    LastVisited(joined, userId)
  }

  /** A row of a soft-deleted lesson is skipped however late it is: of a
      user's two rows, the later one for a soft-deleted lesson and the
      earlier one for a visible lesson, the repository returns the earlier,
      while the service's query, which has no join, returns the later. */
  lemma LastVisitedSkipsHiddenLesson(cat: Catalog, hidden: ProgressRow, shown: ProgressRow)
    requires hidden.userId == shown.userId
    requires !LessonVisible(cat, hidden.entityId) && LessonVisible(cat, shown.entityId)
    requires !AtMost(hidden.dateCompleted, shown.dateCompleted)
    ensures LastVisitedOfVisible(cat, [hidden, shown], shown.userId) == Some(shown)
    ensures LastVisited([hidden, shown], shown.userId) == Some(hidden)
  {
    var rows := [hidden, shown];
    assert rows[1] in rows;
    var q := LastVisited(rows, shown.userId);
    assert rows[0] in rows;
    assert AtMost(rows[0].dateCompleted, q.value.dateCompleted);
  }

  /** Holds the three progress tables of the context; the catalog is read
      only. */
  class LearningProgressRepository {
    const catalog: Catalog
    var lessonProgresses: seq<ProgressRow>
    var topicProgresses: seq<ProgressRow>
    var subjectProgresses: seq<ProgressRow>

    function State(): Progress
      reads this
    {
      Progress(lessonProgresses, topicProgresses, subjectProgresses)
    }

    ghost predicate Valid()
      reads this
    {
      ProgressValid(State())
    }

    constructor (cat: Catalog, initial: Progress)
      requires ProgressValid(initial)
      ensures Valid() && catalog == cat && State() == initial
    {
      catalog := cat;
      lessonProgresses := initial.lessons;
      topicProgresses := initial.topics;
      subjectProgresses := initial.subjects;
    }

    method MarkLessonCompleted(userId: int, lessonId: int, now: Time) returns (ok: bool)
      requires Valid()
      modifies this
      ensures Valid() && ok
      ensures State() == LessonStep(catalog, old(State()), userId, lessonId, now)
    {
      var existing := FindRow(lessonProgresses, userId, lessonId);
      if existing.Some? {
        var i := existing.value;
        lessonProgresses := lessonProgresses[i := lessonProgresses[i].(isCompleted := true, dateCompleted := Some(now))];
      } else {
        lessonProgresses := lessonProgresses + [ProgressRow(userId, lessonId, true, Some(now))];
      }
      var topicId := TopicIdOfLesson(catalog, lessonId);
      if topicId > 0 {
        MarkTopicCompleted(userId, topicId, now);
      }
      ok := true;
    }

    method MarkTopicCompleted(userId: int, topicId: int, now: Time)
      requires Valid()
      modifies this
      ensures Valid()
      ensures State() == TopicStep(catalog, old(State()), userId, topicId, now)
    {
      var allLessons := LessonIdsOfTopic(catalog, topicId);
      var completedLessons := CompletedAmong(lessonProgresses, userId, allLessons);
      if |completedLessons| == |allLessons| {
        var existing := FindRow(topicProgresses, userId, topicId);
        if existing.None? {
          topicProgresses := topicProgresses + [ProgressRow(userId, topicId, true, Some(now))];
        } else {
          var i := existing.value;
          topicProgresses := topicProgresses[i := topicProgresses[i].(isCompleted := true, dateCompleted := Some(now))];
        }
        var subjectId := SubjectIdOfTopic(catalog, topicId);
        if subjectId > 0 {
          MarkSubjectCompleted(userId, subjectId, now);
        }
      }
    }

    method MarkSubjectCompleted(userId: int, subjectId: int, now: Time)
      requires Valid()
      modifies this
      ensures Valid()
      ensures State() == SubjectStep(catalog, old(State()), userId, subjectId, now)
    {
      var allTopics := TopicIdsOfSubject(catalog, subjectId);
      var completedTopics := CompletedAmong(topicProgresses, userId, allTopics);
      if |completedTopics| == |allTopics| {
        var existing := FindRow(subjectProgresses, userId, subjectId);
        if existing.None? {
          subjectProgresses := subjectProgresses + [ProgressRow(userId, subjectId, true, Some(now))];
        } else {
          var i := existing.value;
          subjectProgresses := subjectProgresses[i := subjectProgresses[i].(isCompleted := true, dateCompleted := Some(now))];
        }
      }
    }

    method GetUserProgress(userId: int, subjectId: int) returns (r: seq<ProgressRow>)
      ensures r == UserProgress(catalog, lessonProgresses, userId, subjectId)
    {
      r := UserProgress(catalog, lessonProgresses, userId, subjectId);
    }

    method GetLastVisitedLesson(userId: int) returns (r: Option<ProgressRow>)
      ensures r == LastVisitedOfVisible(catalog, lessonProgresses, userId)
    {
      r := LastVisitedOfVisible(catalog, lessonProgresses, userId);
    }
  }
}
