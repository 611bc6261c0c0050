/** The three progress tables (LessonProgresses, TopicProgresses,
    SubjectProgresses) share one shape, and the two "mark completed" upserts
    of the code base differ only in what a repeat call does. */
module ProgressStore {
  import opened Common

  /** A progress row; `entityId` is the LessonId, TopicId or SubjectId. The
      tables' key is a surrogate `Id`, so one row per (user, entity) is an
      invariant the writers keep (`UniqueKeys`), not a constraint. */
  datatype ProgressRow = ProgressRow(userId: int, entityId: int, isCompleted: bool, dateCompleted: Option<Time>)

  predicate HasKey(p: ProgressRow, userId: int, entityId: int) {
    p.userId == userId && p.entityId == entityId
  }

  predicate UniqueKeys(rows: seq<ProgressRow>) {
    forall i, j :: 0 <= i < j < |rows| ==> !HasKey(rows[j], rows[i].userId, rows[i].entityId)
  }

  /** The user has a completed row for the entity. */
  predicate IsCompletedFor(rows: seq<ProgressRow>, userId: int, entityId: int) {
    exists i :: 0 <= i < |rows| && HasKey(rows[i], userId, entityId) && rows[i].isCompleted
  }

  /** `FirstOrDefault(p => p.UserId == userId && p.<Entity>Id == entityId)`. */
  function FindRow(rows: seq<ProgressRow>, userId: int, entityId: int): (r: Option<nat>)
    ensures r.Some? ==> r.value < |rows| && HasKey(rows[r.value], userId, entityId)
    ensures r.Some? ==> forall j :: 0 <= j < r.value ==> !HasKey(rows[j], userId, entityId)
    ensures r.None? <==> forall j :: 0 <= j < |rows| ==> !HasKey(rows[j], userId, entityId)
  {
    FindFirst(rows, (p: ProgressRow) => HasKey(p, userId, entityId))
  }

  /** Rows are never removed, re-keyed or un-completed. */
  predicate Grows(before: seq<ProgressRow>, after: seq<ProgressRow>) {
    && |before| <= |after|
    && forall i :: 0 <= i < |before| ==>
         && after[i].userId == before[i].userId
         && after[i].entityId == before[i].entityId
         && (before[i].isCompleted ==> after[i].isCompleted)
  }

  lemma GrowsTransitive(a: seq<ProgressRow>, b: seq<ProgressRow>, c: seq<ProgressRow>)
    requires Grows(a, b) && Grows(b, c)
    ensures Grows(a, c)
  {
  }

  lemma GrowsKeepsCompleted(before: seq<ProgressRow>, after: seq<ProgressRow>, userId: int, entityId: int)
    requires Grows(before, after)
    requires IsCompletedFor(before, userId, entityId)
    ensures IsCompletedFor(after, userId, entityId)
  {
    var i :| 0 <= i < |before| && HasKey(before[i], userId, entityId) && before[i].isCompleted;
    assert HasKey(after[i], userId, entityId) && after[i].isCompleted;
  }

  /** The repository's upsert: the first row with the key, if any, is set
      completed and its date refreshed to now on every call; otherwise a
      completed row is appended. The result holds exactly one row for the
      key when the table held at most one. */
  function Upsert(rows: seq<ProgressRow>, userId: int, entityId: int, now: Time): (r: seq<ProgressRow>)
    ensures Grows(rows, r)
    ensures |r| == |rows| <==> exists i :: 0 <= i < |rows| && HasKey(rows[i], userId, entityId)
    ensures |r| == |rows| + 1 <==> forall i :: 0 <= i < |rows| ==> !HasKey(rows[i], userId, entityId)
    ensures |r| == |rows| + 1 ==> r[|rows|] == ProgressRow(userId, entityId, true, Some(now))
    ensures forall i :: 0 <= i < |rows| && !HasKey(rows[i], userId, entityId) ==> r[i] == rows[i]
    ensures exists i :: 0 <= i < |r| && HasKey(r[i], userId, entityId)
                        && r[i].isCompleted && r[i].dateCompleted == Some(now)
    ensures UniqueKeys(rows) ==> UniqueKeys(r)
  {
    match FindRow(rows, userId, entityId)
    case Some(i) => rows[i := rows[i].(isCompleted := true, dateCompleted := Some(now))]
    case None => rows + [ProgressRow(userId, entityId, true, Some(now))]
  }

  /** The service's upsert: a missing row is added completed, an incomplete
      row is completed with the date set, and an already-completed row is
      left exactly as it was. */
  function MarkOnce(rows: seq<ProgressRow>, userId: int, entityId: int, now: Time): (r: seq<ProgressRow>)
    ensures Grows(rows, r)
    ensures |r| <= |rows| + 1
    ensures |r| == |rows| + 1 ==> r[|rows|] == ProgressRow(userId, entityId, true, Some(now))
    ensures forall i :: 0 <= i < |rows| && !HasKey(rows[i], userId, entityId) ==> r[i] == rows[i]
    ensures IsCompletedFor(r, userId, entityId)
    ensures UniqueKeys(rows) ==> UniqueKeys(r)
  {
    match FindRow(rows, userId, entityId)
    case Some(i) =>
      if rows[i].isCompleted then rows
      else rows[i := rows[i].(isCompleted := true, dateCompleted := Some(now))]
    case None => rows + [ProgressRow(userId, entityId, true, Some(now))]
  }

  /** Under unique keys, an already-completed record makes the service's
      upsert a no-op, while the repository's upsert moves its date to now. */
  lemma UpsertsDivergeOnRepeat(rows: seq<ProgressRow>, userId: int, entityId: int, now: Time)
    requires UniqueKeys(rows)
    requires IsCompletedFor(rows, userId, entityId)
    ensures MarkOnce(rows, userId, entityId, now) == rows
    ensures |Upsert(rows, userId, entityId, now)| == |rows|
    ensures forall i :: 0 <= i < |rows| && HasKey(rows[i], userId, entityId) ==>
              Upsert(rows, userId, entityId, now)[i] == rows[i].(dateCompleted := Some(now))
  {
    var k :| 0 <= k < |rows| && HasKey(rows[k], userId, entityId) && rows[k].isCompleted;
    assert FindRow(rows, userId, entityId) == Some(k);
  }

  /** When the two upserts agree: on a missing or an incomplete record. */
  lemma UpsertsAgreeOnFirstCompletion(rows: seq<ProgressRow>, userId: int, entityId: int, now: Time)
    requires forall i :: 0 <= i < |rows| && HasKey(rows[i], userId, entityId) ==> !rows[i].isCompleted
    ensures MarkOnce(rows, userId, entityId, now) == Upsert(rows, userId, entityId, now)
  {
  }

  /** Repeating the repository's upsert at the same instant changes nothing. */
  lemma UpsertIdempotent(rows: seq<ProgressRow>, userId: int, entityId: int, now: Time)
    ensures Upsert(Upsert(rows, userId, entityId, now), userId, entityId, now) == Upsert(rows, userId, entityId, now)
  {
    var once := Upsert(rows, userId, entityId, now);
    match FindRow(rows, userId, entityId)
    case Some(i) =>
      assert FindRow(once, userId, entityId) == Some(i);
    case None =>
      assert FindRow(once, userId, entityId) == Some(|rows|);
  }

  /** Repeating the service's upsert, at any later instant, changes nothing. */
  lemma MarkOnceIdempotent(rows: seq<ProgressRow>, userId: int, entityId: int, now: Time, later: Time)
    ensures MarkOnce(MarkOnce(rows, userId, entityId, now), userId, entityId, later) == MarkOnce(rows, userId, entityId, now)
  {
    var once := MarkOnce(rows, userId, entityId, now);
    match FindRow(rows, userId, entityId)
    case Some(i) =>
      assert FindRow(once, userId, entityId) == Some(i);
    case None =>
      assert FindRow(once, userId, entityId) == Some(|rows|);
  }

  /** The service's `GetLastVisitedLesson`: among the user's rows, ordered by
      `DateCompleted` descending with missing dates last, the first. */
  function LastVisited(rows: seq<ProgressRow>, userId: int): (r: Option<ProgressRow>)
    ensures r.None? <==> forall p :: p in rows ==> p.userId != userId
    ensures r.Some? ==> r.value in rows && r.value.userId == userId
    ensures r.Some? ==> forall p :: p in rows && p.userId == userId ==> AtMost(p.dateCompleted, r.value.dateCompleted)
  {
    var mine := Filter(rows, (p: ProgressRow) => p.userId == userId);
    match LatestBy(mine, (p: ProgressRow) => p.dateCompleted)
    case None => None
    case Some(i) =>
      assert forall p :: p in mine ==> AtMost(p.dateCompleted, mine[i].dateCompleted) by {
        forall p | p in mine ensures AtMost(p.dateCompleted, mine[i].dateCompleted) {
          var j :| 0 <= j < |mine| && mine[j] == p;
        }
      }
      assert mine[i] in mine;
      Some(mine[i])
  }
}
