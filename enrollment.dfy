/** The enrollment state machine of the enrollment controller. The table's
    primary key is its own `Id`; nothing in the schema stops two records of
    the same (user, subject), but the controller never writes a second one,
    so one record per pair is an invariant it keeps (`OnePerPair`). The
    record of a pair is absent, active, or soft-deleted
    ("removed"). Enrolling creates a record or restores a removed one, and
    unenrolling soft-deletes an active one: no record is ever physically
    removed or duplicated. The signed-in user comes in as a parameter, none
    for an unauthenticated request. */
module Enrollments {
  import opened Common
  import opened Entities

  datatype EnrollmentState = Absent | Active | Removed

  predicate HasKey(e: Enrollment, userId: int, subjectId: int) {
    e.userId == userId && e.subjectId == subjectId
  }

  /** The record of the key, looked up with the query filters ignored. */
  function RecordOf(enrollments: seq<Enrollment>, userId: int, subjectId: int): (r: Option<nat>)
    ensures r.Some? ==> r.value < |enrollments| && HasKey(enrollments[r.value], userId, subjectId)
    ensures r.None? <==> forall e :: e in enrollments ==> !HasKey(e, userId, subjectId)
  {
    FindFirst(enrollments, (e: Enrollment) => HasKey(e, userId, subjectId))
  }

  function StateOf(enrollments: seq<Enrollment>, userId: int, subjectId: int): EnrollmentState {
    match RecordOf(enrollments, userId, subjectId)
    case None => Absent
    case Some(i) => if enrollments[i].isDeleted then Removed else Active
  }

  /** At most one record per (user, subject): not a database constraint, an
    invariant that enrolling keeps by restoring a removed record in place
    rather than adding a second one. */
  predicate OnePerPair(enrollments: seq<Enrollment>) {
    forall i, j :: 0 <= i < j < |enrollments| ==>
      !(enrollments[i].userId == enrollments[j].userId && enrollments[i].subjectId == enrollments[j].subjectId)
  }

  /** With one record per pair, the filtered "is enrolled" query is the active state. */
  lemma EnrolledIffActive(enrollments: seq<Enrollment>, userId: int, subjectId: int)
    requires OnePerPair(enrollments)
    ensures IsEnrolled(enrollments, userId, subjectId) <==> StateOf(enrollments, userId, subjectId) == Active
  {
    match RecordOf(enrollments, userId, subjectId)
    case None =>
    case Some(k) =>
      if IsEnrolled(enrollments, userId, subjectId) {
        var e :| e in enrollments && HasKey(e, userId, subjectId) && !e.isDeleted;
        var i :| 0 <= i < |enrollments| && enrollments[i] == e;
        assert i == k;
      } else {
        assert enrollments[k] in enrollments;
      }
  }

  // ---- IsUserEnrolledInCubject ----

  /** `IsUserEnrolledInCubject`: none when unauthenticated, else whether an
      active record exists (Ok) or not (NotFound). */
  function IsUserEnrolledInCubject(enrollments: seq<Enrollment>, user: Option<int>, subjectId: int): (r: Option<bool>)
    ensures r.None? <==> user.None?
    ensures r.Some? ==> (r.value <==> exists e :: e in enrollments && HasKey(e, user.value, subjectId) && !e.isDeleted)
  {
    if user.None? then None
    else Some(FindFirst(enrollments, (e: Enrollment) => HasKey(e, user.value, subjectId) && !e.isDeleted).Some?)
  }

  // ---- EnrollUser ----

  datatype EnrollResult = EnrollUnauthorized | SubjectNotFound | Reenrolled | AlreadyEnrolled | Enrolled

  /** `EnrollUser`: the outcome and the table afterwards. */
  function Enroll(cat: Catalog, enrollments: seq<Enrollment>, user: Option<int>, subjectId: int): (r: (EnrollResult, seq<Enrollment>))
  {
    if user.None? then (EnrollUnauthorized, enrollments)
    else if FindSubject(cat, subjectId).None? then (SubjectNotFound, enrollments)
    else match RecordOf(enrollments, user.value, subjectId)
      case Some(i) =>
        if enrollments[i].isDeleted then (Reenrolled, enrollments[i := enrollments[i].(isDeleted := false, dateDeleted := None)])
        else (AlreadyEnrolled, enrollments)
      case None => (Enrolled, enrollments + [Enrollment(user.value, subjectId, false, None)])
  }

  /** No other key's state changes when a table changes only at index `k`,
      where the record keeps its key, or grows by a record of a new key. */
  lemma OthersUnchangedAt(before: seq<Enrollment>, after: seq<Enrollment>, k: nat, u: int, s: int)
    requires k < |before| && |after| == |before|
    requires forall j :: 0 <= j < |before| && j != k ==> after[j] == before[j]
    requires HasKey(before[k], u, s) && HasKey(after[k], u, s)
    ensures forall u', s' :: (u', s') != (u, s) ==> StateOf(after, u', s') == StateOf(before, u', s')
  {
    forall u', s' | (u', s') != (u, s) ensures StateOf(after, u', s') == StateOf(before, u', s') {
      var p := (e: Enrollment) => HasKey(e, u', s');
      assert forall j :: 0 <= j < |before| ==> (p(after[j]) <==> p(before[j]));
      var a := RecordOf(after, u', s');
      var b := RecordOf(before, u', s');
      if a.Some? { assert a.value != k; }
      if b.Some? { assert b.value != k; }
    }
  }

  lemma OthersUnchangedAppend(before: seq<Enrollment>, e: Enrollment)
    ensures forall u', s' :: (u', s') != (e.userId, e.subjectId) ==> StateOf(before + [e], u', s') == StateOf(before, u', s')
  {
    var after := before + [e];
    forall u', s' | (u', s') != (e.userId, e.subjectId) ensures StateOf(after, u', s') == StateOf(before, u', s') {
      var a := RecordOf(after, u', s');
      var b := RecordOf(before, u', s');
      if a.Some? { assert a.value < |before|; }
      if b.Some? { assert after[b.value] == before[b.value]; }
    }
  }

  /** The enroll transitions: an unauthenticated call or an unknown subject
      changes nothing; an absent key becomes active by a new record, a
      removed one becomes active in place, and an active one is refused;
      every other pair keeps its state and there is still one record per pair. */
  lemma EnrollMeans(cat: Catalog, enrollments: seq<Enrollment>, user: Option<int>, subjectId: int)
    requires OnePerPair(enrollments)
    ensures var (r, after) := Enroll(cat, enrollments, user, subjectId);
      && (r == EnrollUnauthorized <==> user.None?)
      && (r == SubjectNotFound <==> user.Some? && FindSubject(cat, subjectId).None?)
      && (r in {EnrollUnauthorized, SubjectNotFound, AlreadyEnrolled} ==> after == enrollments)
      && (user.Some? && FindSubject(cat, subjectId).Some? ==>
            var before := StateOf(enrollments, user.value, subjectId);
            && r == (match before case Absent => Enrolled case Removed => Reenrolled case Active => AlreadyEnrolled)
            && StateOf(after, user.value, subjectId) == Active
            && |after| == |enrollments| + (if before == Absent then 1 else 0)
            && forall u, s :: (u, s) != (user.value, subjectId) ==> StateOf(after, u, s) == StateOf(enrollments, u, s))
      && OnePerPair(after)
  {
    var (r, after) := Enroll(cat, enrollments, user, subjectId);
    if user.Some? && FindSubject(cat, subjectId).Some? {
      var u := user.value;
      match RecordOf(enrollments, u, subjectId)
      case Some(k) =>
        if enrollments[k].isDeleted {
          OthersUnchangedAt(enrollments, after, k, u, subjectId);
          assert RecordOf(after, u, subjectId) == Some(k);
          forall i, j | 0 <= i < j < |after|
            ensures !(after[i].userId == after[j].userId && after[i].subjectId == after[j].subjectId)
          {
            assert after[i].userId == enrollments[i].userId && after[j].userId == enrollments[j].userId;
          }
        }
      case None =>
        var e := Enrollment(u, subjectId, false, None);
        OthersUnchangedAppend(enrollments, e);
        assert e in after;
        forall i, j | 0 <= i < j < |after|
          ensures !(after[i].userId == after[j].userId && after[i].subjectId == after[j].subjectId)
        {
          if j == |enrollments| { assert after[i] in enrollments; }
        }
    }
  }

  // ---- DeleteEnrollment ----

  datatype UnenrollResult = UnenrollUnauthorized | EnrollmentNotFound | Unenrolled

  /** `DeleteEnrollment`: the lookup goes through the soft-delete filter, so
      only an active record is found; it is flagged and dated. */
  function Unenroll(enrollments: seq<Enrollment>, user: Option<int>, subjectId: int, now: Time): (r: (UnenrollResult, seq<Enrollment>))
  {
    if user.None? then (UnenrollUnauthorized, enrollments)
    else match FindFirst(enrollments, (e: Enrollment) => HasKey(e, user.value, subjectId) && !e.isDeleted)
      case None => (EnrollmentNotFound, enrollments)
      case Some(i) => (Unenrolled, enrollments[i := enrollments[i].(isDeleted := true, dateDeleted := Some(now))])
  }

  /** The unenroll transitions: only an active key is affected, and it
      becomes removed with the deletion date, keeping its record; absent and
      removed keys give NotFound and change nothing. */
  lemma UnenrollMeans(enrollments: seq<Enrollment>, user: Option<int>, subjectId: int, now: Time)
    requires OnePerPair(enrollments)
    ensures var (r, after) := Unenroll(enrollments, user, subjectId, now);
      && (r == UnenrollUnauthorized <==> user.None?)
      && (r != Unenrolled ==> after == enrollments)
      && (user.Some? ==>
            && (r == Unenrolled <==> StateOf(enrollments, user.value, subjectId) == Active)
            && (r == Unenrolled ==>
                  && StateOf(after, user.value, subjectId) == Removed
                  && after[RecordOf(after, user.value, subjectId).value].dateDeleted == Some(now)
                  && |after| == |enrollments|
                  && forall u, s :: (u, s) != (user.value, subjectId) ==> StateOf(after, u, s) == StateOf(enrollments, u, s)))
      && OnePerPair(after)
  {
    var (r, after) := Unenroll(enrollments, user, subjectId, now);
    if user.Some? {
      var u := user.value;
      EnrolledIffActive(enrollments, u, subjectId);
      var f := FindFirst(enrollments, (e: Enrollment) => HasKey(e, u, subjectId) && !e.isDeleted);
      if f.Some? {
        var k := f.value;
        assert enrollments[k] in enrollments;
        OthersUnchangedAt(enrollments, after, k, u, subjectId);
        assert RecordOf(after, u, subjectId) == Some(k);
        forall i, j | 0 <= i < j < |after|
          ensures !(after[i].userId == after[j].userId && after[i].subjectId == after[j].subjectId)
        {
          assert after[i].userId == enrollments[i].userId && after[j].userId == enrollments[j].userId;
        }
      }
    }
  }

  /** Unenrolling and enrolling again restores the same record in place:
      the table has the same length and the key is active again. */
  lemma UnenrollThenEnrollRestores(cat: Catalog, enrollments: seq<Enrollment>, userId: int, subjectId: int, now: Time)
    requires OnePerPair(enrollments)
    requires StateOf(enrollments, userId, subjectId) == Active
    requires FindSubject(cat, subjectId).Some?
    ensures var (r1, mid) := Unenroll(enrollments, Some(userId), subjectId, now);
      var (r2, after) := Enroll(cat, mid, Some(userId), subjectId);
      && r1 == Unenrolled && r2 == Reenrolled
      && |after| == |enrollments|
      && StateOf(after, userId, subjectId) == Active
  {
    UnenrollMeans(enrollments, Some(userId), subjectId, now);
    var (r1, mid) := Unenroll(enrollments, Some(userId), subjectId, now);
    EnrollMeans(cat, mid, Some(userId), subjectId);
  }

  /** `EnrollmentController` over the Enrollments table, with the catalog
      it looks subjects up in. */
  class EnrollmentController {
    var enrollments: seq<Enrollment>
    const catalog: Catalog

    constructor (catalog: Catalog, enrollments: seq<Enrollment>)
      ensures this.catalog == catalog && this.enrollments == enrollments
    {
      this.catalog := catalog;
      this.enrollments := enrollments;
    }

    method EnrollUser(user: Option<int>, subjectId: int) returns (r: EnrollResult)
      modifies this
      ensures (r, enrollments) == Enroll(catalog, old(enrollments), user, subjectId)
    {
      if user.None? {
        return EnrollUnauthorized;
      }
      var subject := FindSubject(catalog, subjectId);
      if subject.None? {
        return SubjectNotFound;
      }
      var existing := RecordOf(enrollments, user.value, subjectId);
      if existing.Some? {
        var i := existing.value;
        if enrollments[i].isDeleted {
          enrollments := enrollments[i := enrollments[i].(isDeleted := false, dateDeleted := None)];
          return Reenrolled;
        }
        return AlreadyEnrolled;
      }
      enrollments := enrollments + [Enrollment(user.value, subjectId, false, None)];
      r := Enrolled;
    }

    method DeleteEnrollment(user: Option<int>, subjectId: int, now: Time) returns (r: UnenrollResult)
      modifies this
      ensures (r, enrollments) == Unenroll(old(enrollments), user, subjectId, now)
    {
      if user.None? {
        return UnenrollUnauthorized;
      }
      var found := FindFirst(enrollments, (e: Enrollment) => HasKey(e, user.value, subjectId) && !e.isDeleted);
      if found.None? || enrollments[found.value].isDeleted {
        return EnrollmentNotFound;
      }
      var i := found.value;
      enrollments := enrollments[i := enrollments[i].(isDeleted := true, dateDeleted := Some(now))];
      r := Unenrolled;
    }
  }
}
