/** The enrolment table and the repository queries the services rely on, as pure
    functions over the sequence of stored rows. A row's id is its index. */
module EnrollmentRepository {
  import opened Wrappers
  import opened Enrollments

  type Table = seq<Enrollment>

  /** `countActiveEnrollmentsByCourse`: rows of the course in APPLIED or APPROVED. */
  function CountActive(db: Table, courseId: nat): (n: nat)
    ensures n <= |db|
  {
    if |db| == 0 then 0
    else CountActive(db[..|db| - 1], courseId)
         + (if db[|db| - 1].courseId == courseId && IsActive(db[|db| - 1]) then 1 else 0)
  }

  /** `countApprovedEnrollmentsByCourse`: rows of the course in APPROVED. */
  function CountApproved(db: Table, courseId: nat): (n: nat)
    ensures n <= |db|
  {
    if |db| == 0 then 0
    else CountApproved(db[..|db| - 1], courseId)
         + (if db[|db| - 1].courseId == courseId && IsApproved(db[|db| - 1]) then 1 else 0)
  }

  /** `existsByStudentIdAndCourseId` / `existsByStudentAndCourse`: any row of the pair,
      whatever its status. */
  predicate ExistsPair(db: Table, studentId: nat, courseId: nat) {
    exists i | 0 <= i < |db| :: IsPair(db[i], studentId, courseId)
  }

  predicate IsPair(e: Enrollment, studentId: nat, courseId: nat) {
    e.studentId == studentId && e.courseId == courseId
  }

  /** The table's unique constraint on (student_id, course_id). */
  predicate UniquePairs(db: Table) {
    forall i, j | 0 <= i < j < |db| :: !IsPair(db[j], db[i].studentId, db[i].courseId)
  }

  /** The active rows of a course, as a set of row ids: the reference the counter is checked against. */
  function ActiveIds(db: Table, courseId: nat): set<nat> {
    set i: nat | i < |db| && db[i].courseId == courseId && IsActive(db[i])
  }

  /** The active ids of a table are those of its prefix, plus the last row's id when that
      row is active in the course. */
  lemma ActiveIdsSnoc(db: Table, courseId: nat)
    requires |db| > 0
    ensures var last := |db| - 1;
            && last !in ActiveIds(db[..last], courseId)
            && ActiveIds(db, courseId)
               == ActiveIds(db[..last], courseId)
                  + (if db[last].courseId == courseId && IsActive(db[last]) then {last} else {})
  {
    var last := |db| - 1;
    var init := db[..last];
    forall i: nat | i < last
      ensures init[i] == db[i]
    {
    }
  }

  /** The recursive counter equals the size of the set of active row ids. */
  lemma {:induction false} CountActiveIsCardinality(db: Table, courseId: nat)
    ensures CountActive(db, courseId) == |ActiveIds(db, courseId)|
  {
    if |db| > 0 {
      CountActiveIsCardinality(db[..|db| - 1], courseId);
      ActiveIdsSnoc(db, courseId);
    } else {
      assert ActiveIds(db, courseId) == {};
    }
  }

  /** Approved rows are a subset of active rows. */
  lemma {:induction false} ApprovedAtMostActive(db: Table, courseId: nat)
    ensures CountApproved(db, courseId) <= CountActive(db, courseId)
  {
    if |db| > 0 {
      ApprovedAtMostActive(db[..|db| - 1], courseId);
    }
  }

  /** Saving a row changes the active count of its own course by at most one and no other course's. */
  lemma CountActiveAppend(db: Table, e: Enrollment, courseId: nat)
    ensures CountActive(db + [e], courseId)
            == CountActive(db, courseId) + (if e.courseId == courseId && IsActive(e) then 1 else 0)
  {
    assert (db + [e])[..|db|] == db;
  }

  /** Overwriting row `id` (a status change) moves only that row's course count. */
  lemma {:induction false} CountActiveUpdate(db: Table, id: nat, e: Enrollment, courseId: nat)
    requires id < |db|
    requires e.courseId == db[id].courseId
    ensures CountActive(db[id := e], courseId)
            == CountActive(db, courseId)
               - (if db[id].courseId == courseId && IsActive(db[id]) then 1 else 0)
               + (if e.courseId == courseId && IsActive(e) then 1 else 0)
  {
    var db' := db[id := e];
    if id == |db| - 1 {
      assert db'[..|db'| - 1] == db[..|db| - 1];
    } else {
      assert db'[..|db'| - 1] == db[..|db| - 1][id := e];
      CountActiveUpdate(db[..|db| - 1], id, e, courseId);
    }
  }

  /** Enrolment counts are per course: a change to a row of course A leaves course B's count alone. */
  lemma CountsArePerCourse(db: Table, id: nat, e: Enrollment, other: nat)
    requires id < |db| && e.courseId == db[id].courseId && other != e.courseId
    ensures CountActive(db[id := e], other) == CountActive(db, other)
    ensures CountActive(db + [e], other) == CountActive(db, other)
  {
    CountActiveUpdate(db, id, e, other);
    CountActiveAppend(db, e, other);
  }

  /** Appending a row whose pair is not yet present keeps the unique constraint. */
  lemma InsertKeepsUnique(db: Table, e: Enrollment)
    requires UniquePairs(db) && !ExistsPair(db, e.studentId, e.courseId)
    ensures UniquePairs(db + [e])
    ensures ExistsPair(db + [e], e.studentId, e.courseId)
  {
    var db' := db + [e];
    assert IsPair(db'[|db|], e.studentId, e.courseId);
    forall i, j | 0 <= i < j < |db'|
      ensures !IsPair(db'[j], db'[i].studentId, db'[i].courseId)
    {
      if j == |db| {
        assert !IsPair(db[i], e.studentId, e.courseId);
      }
    }
  }

  /** A status change keeps the row's pair, so the pair still exists afterwards:
      a cancelled enrolment still blocks a new one. */
  lemma UpdateKeepsPairs(db: Table, id: nat, e: Enrollment, s: nat, c: nat)
    requires id < |db| && IsPair(e, db[id].studentId, db[id].courseId)
    ensures ExistsPair(db[id := e], s, c) <==> ExistsPair(db, s, c)
    ensures UniquePairs(db) ==> UniquePairs(db[id := e])
  {
    var db' := db[id := e];
    if ExistsPair(db, s, c) {
      var i :| 0 <= i < |db| && IsPair(db[i], s, c);
      assert IsPair(db'[i], s, c);
    }
    if ExistsPair(db', s, c) {
      var i :| 0 <= i < |db'| && IsPair(db'[i], s, c);
      assert IsPair(db[i], s, c);
    }
    if UniquePairs(db) {
      forall i, j | 0 <= i < j < |db'|
        ensures !IsPair(db'[j], db'[i].studentId, db'[i].courseId)
      {
        assert !IsPair(db[j], db[i].studentId, db[i].courseId);
      }
    }
  }
}
