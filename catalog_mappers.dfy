/** The subject, topic and lesson mappers: views, new records from create
    requests, and the patch-style updates, where a field the request leaves
    null or empty (blank, for subjects) keeps its old value. The in-place
    updates are given as the record before and after. */
module CatalogMappers {
  import opened Common
  import opened Entities

  // ---- Subjects ----

  datatype SubjectView = SubjectView(id: int, title: string, description: Option<string>)
  datatype CreateSubjectDto = CreateSubjectDto(title: string, description: Option<string>)
  datatype UpdateSubjectDto = UpdateSubjectDto(
    title: Option<string>,
    description: Option<string>,
    thumbnailUrl: Option<string>,
    isDeleted: Option<bool>)

  function ToSubjectDto(s: Subject): (r: SubjectView)
    ensures r.id == s.id && r.title == s.title && r.description == s.description
  {
    SubjectView(s.id, s.title, s.description)
  }

  /** A new, unsaved subject with the requested title and description. */
  function ToSubject(dto: CreateSubjectDto): (r: Subject)
    ensures r.title == dto.title && r.description == dto.description
    ensures r.thumbnailUrl.None? && !r.isDeleted && r.dateDeleted.None?
  {
    Subject(0, dto.title, dto.description, None, false, None)
  }

  /** Creating and viewing a subject round-trips the title and description. */
  lemma SubjectRoundTrip(dto: CreateSubjectDto)
    ensures var v := ToSubjectDto(ToSubject(dto)); v.title == dto.title && v.description == dto.description
  {
  }

  /** `UpdateFromDto`: title, description and thumbnail change only for a
      non-blank value; the deletion flag only when one is given. The
      deletion date is never touched. */
  function UpdateSubjectFromDto(s: Subject, dto: UpdateSubjectDto): (r: Subject)
    ensures r.id == s.id
    ensures r.title == if IsNullOrWhiteSpace(dto.title) then s.title else dto.title.value
    ensures r.description == if IsNullOrWhiteSpace(dto.description) then s.description else dto.description
    ensures r.thumbnailUrl == if IsNullOrWhiteSpace(dto.thumbnailUrl) then s.thumbnailUrl else dto.thumbnailUrl
    ensures r.isDeleted == if dto.isDeleted.Some? then dto.isDeleted.value else s.isDeleted
    ensures r.dateDeleted == s.dateDeleted
  {
    var title := if !IsNullOrWhiteSpace(dto.title) then dto.title.value else s.title;
    var description := if !IsNullOrWhiteSpace(dto.description) then dto.description else s.description;
    var thumbnail := if !IsNullOrWhiteSpace(dto.thumbnailUrl) then dto.thumbnailUrl else s.thumbnailUrl;
    var deleted := if dto.isDeleted.Some? then dto.isDeleted.value else s.isDeleted;
    s.(title := title, description := description, thumbnailUrl := thumbnail, isDeleted := deleted)
  }

  /** An update request with nothing in it leaves the subject as it was, and
      any update applied twice equals the update applied once. */
  lemma SubjectPatchLaws(s: Subject, dto: UpdateSubjectDto)
    ensures UpdateSubjectFromDto(s, UpdateSubjectDto(None, Some(" "), Some(""), None)) == s
    ensures UpdateSubjectFromDto(UpdateSubjectFromDto(s, dto), dto) == UpdateSubjectFromDto(s, dto)
  {
  }

  /** A request with `IsDeleted = false` restores a deleted subject, but the
      restored subject keeps the deletion date it was given: it equals the
      result on the live subject with the same stale date, and differs from
      a live subject that was never deleted. */
  lemma SubjectRestore(s: Subject, dto: UpdateSubjectDto)
    requires s.isDeleted && dto.isDeleted == Some(false)
    ensures !UpdateSubjectFromDto(s, dto).isDeleted
    ensures UpdateSubjectFromDto(s, dto).dateDeleted == s.dateDeleted
    ensures UpdateSubjectFromDto(s.(isDeleted := false), dto) == UpdateSubjectFromDto(s, dto)
    ensures s.dateDeleted.Some? ==>
      UpdateSubjectFromDto(s.(isDeleted := false, dateDeleted := None), dto) != UpdateSubjectFromDto(s, dto)
  {
  }

  // ---- Topics ----

  datatype TopicView = TopicView(id: int, title: Option<string>, description: Option<string>, subjectId: int, lessonIds: seq<int>)
  datatype CreateTopicDto = CreateTopicDto(title: Option<string>, description: Option<string>)
  datatype UpdateTopicDto = UpdateTopicDto(title: Option<string>, description: Option<string>)

  /** `ToTopicDto`; `lessons` is the `Lessons` navigation, `None` when null. */
  function ToTopicDto(t: Topic, lessons: Option<seq<Lesson>>): (r: TopicView)
    ensures r.id == t.id && r.title == t.title && r.description == t.description && r.subjectId == t.subjectId
    ensures lessons.None? ==> r.lessonIds == []
    ensures lessons.Some? ==> |r.lessonIds| == |lessons.value|
    ensures lessons.Some? ==> forall i :: 0 <= i < |lessons.value| ==> r.lessonIds[i] == lessons.value[i].id
  {
    var ids := match lessons
      case None => []
      case Some(ls) => seq(|ls|, i requires 0 <= i < |ls| => ls[i].id);
    TopicView(t.id, t.title, t.description, t.subjectId, ids)
  }

  /** The lesson ids listed are exactly those of the loaded lessons. */
  lemma TopicViewListsLessons(t: Topic, lessons: seq<Lesson>)
    ensures forall id :: id in ToTopicDto(t, Some(lessons)).lessonIds <==> exists l :: l in lessons && l.id == id
  {
    var ids := ToTopicDto(t, Some(lessons)).lessonIds;
    forall id ensures id in ids <==> exists l :: l in lessons && l.id == id {
      if id in ids {
        var i :| 0 <= i < |ids| && ids[i] == id;
        assert lessons[i] in lessons;
      }
      if exists l :: l in lessons && l.id == id {
        var l :| l in lessons && l.id == id;
        var i :| 0 <= i < |lessons| && lessons[i] == l;
        assert ids[i] == id;
      }
    }
  }

  /** A new topic under the given subject. */
  function ToTopic(dto: CreateTopicDto, subjectId: int): (r: Topic)
    ensures r.subjectId == subjectId && r.title == dto.title && r.description == dto.description && !r.isDeleted
  {
    Topic(0, subjectId, dto.title, dto.description, false)
  }

  /** `UpdateTopicFromDto`: title and description change only for a
      non-empty value; the same record comes back. */
  function UpdateTopicFromDto(t: Topic, dto: UpdateTopicDto): (r: Topic)
    ensures r.id == t.id && r.subjectId == t.subjectId && r.isDeleted == t.isDeleted
    ensures r.title == if IsNullOrEmpty(dto.title) then t.title else dto.title
    ensures r.description == if IsNullOrEmpty(dto.description) then t.description else dto.description
  {
    var title := if !IsNullOrEmpty(dto.title) then dto.title else t.title;
    var description := if !IsNullOrEmpty(dto.description) then dto.description else t.description;
    t.(title := title, description := description)
  }

  /** A topic update is idempotent, and a blank title (not empty) does
      overwrite: the topic rule tests emptiness, not white space. */
  lemma TopicPatchLaws(t: Topic, dto: UpdateTopicDto)
    ensures UpdateTopicFromDto(UpdateTopicFromDto(t, dto), dto) == UpdateTopicFromDto(t, dto)
    ensures UpdateTopicFromDto(t, UpdateTopicDto(Some(" "), None)).title == Some(" ")
    ensures UpdateTopicFromDto(t, UpdateTopicDto(Some(""), None)) == t
  {
  }

  // ---- Lessons ----

  datatype LessonView = LessonView(id: int, title: string, content: Option<string>, videoUrl: Option<string>, topicId: int)
  datatype CreateLessonDto = CreateLessonDto(title: string, content: Option<string>, videoUrl: Option<string>)
  datatype UpdateLessonDto = UpdateLessonDto(title: Option<string>, content: Option<string>, videoUrl: Option<string>)

  function ToLessonDto(l: Lesson): (r: LessonView)
    ensures r.id == l.id && r.title == l.title && r.content == l.content && r.videoUrl == l.videoUrl && r.topicId == l.topicId
  {
    LessonView(l.id, l.title, l.content, l.videoUrl, l.topicId)
  }

  /** A new lesson under the given topic. */
  function ToLesson(dto: CreateLessonDto, topicId: int): (r: Lesson)
    ensures r.topicId == topicId && r.title == dto.title && r.content == dto.content && r.videoUrl == dto.videoUrl
    ensures !r.isDeleted
  {
    Lesson(0, topicId, dto.title, dto.content, dto.videoUrl, false)
  }

  /** Creating and viewing a lesson round-trips its fields and topic. */
  lemma LessonRoundTrip(dto: CreateLessonDto, topicId: int)
    ensures ToLessonDto(ToLesson(dto, topicId)) == LessonView(0, dto.title, dto.content, dto.videoUrl, topicId)
  {
  }

  /** `UpdateLessonFromDto`: title, content and video change only for a
      non-empty value; id and topic never change. */
  function UpdateLessonFromDto(l: Lesson, dto: UpdateLessonDto): (r: Lesson)
    ensures r.id == l.id && r.topicId == l.topicId && r.isDeleted == l.isDeleted
    ensures r.title == if IsNullOrEmpty(dto.title) then l.title else dto.title.value
    ensures r.content == if IsNullOrEmpty(dto.content) then l.content else dto.content
    ensures r.videoUrl == if IsNullOrEmpty(dto.videoUrl) then l.videoUrl else dto.videoUrl
  {
    var title := if !IsNullOrEmpty(dto.title) then dto.title.value else l.title;
    var content := if !IsNullOrEmpty(dto.content) then dto.content else l.content;
    var video := if !IsNullOrEmpty(dto.videoUrl) then dto.videoUrl else l.videoUrl;
    l.(title := title, content := content, videoUrl := video)
  }

  /** Updating a lesson keeps it in its topic, is idempotent, and an update
      carrying every field produces exactly the requested view. */
  lemma LessonPatchLaws(l: Lesson, dto: UpdateLessonDto)
    ensures UpdateLessonFromDto(UpdateLessonFromDto(l, dto), dto) == UpdateLessonFromDto(l, dto)
    ensures !IsNullOrEmpty(dto.title) && !IsNullOrEmpty(dto.content) && !IsNullOrEmpty(dto.videoUrl) ==>
      ToLessonDto(UpdateLessonFromDto(l, dto)) == LessonView(l.id, dto.title.value, dto.content, dto.videoUrl, l.topicId)
  {
  }
}
