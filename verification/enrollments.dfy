/** The enrolment entity and its status machine. The entity's transitions carry no
    guards of their own; which transition is legal is decided by the service layer. */
module Enrollments {
  import opened Wrappers

  datatype EnrollmentStatus = Applied | Approved | Cancelled | Rejected

  /** The enum constant's name, as the JSON view sees it. */
  function StatusName(s: EnrollmentStatus): string {
    match s
    case Applied => "APPLIED"
    case Approved => "APPROVED"
    case Cancelled => "CANCELLED"
    case Rejected => "REJECTED"
  }

  /** Timestamps are instants supplied by the caller; `None` is a null column. */
  datatype Enrollment = Enrollment(
    studentId: nat,
    courseId: nat,
    status: EnrollmentStatus,
    approvedAt: Option<int>,
    cancelledAt: Option<int>,
    reason: Option<string>)

  function NewEnrollment(studentId: nat, courseId: nat): (e: Enrollment)
    ensures e.status == Applied && e.studentId == studentId && e.courseId == courseId
    ensures e.approvedAt.None? && e.cancelledAt.None? && e.reason.None?
  {
    Enrollment(studentId, courseId, Applied, None, None, None)
  }

  function Approve(e: Enrollment, now: int): (r: Enrollment)
    ensures r.status == Approved && r.approvedAt == Some(now) && r.reason.None?
    ensures r.studentId == e.studentId && r.courseId == e.courseId && r.cancelledAt == e.cancelledAt
  {
    e.(status := Approved, approvedAt := Some(now), reason := None)
  }

  function Cancel(e: Enrollment, reason: Option<string>, now: int): (r: Enrollment)
    ensures r.status == Cancelled && r.cancelledAt == Some(now) && r.reason == reason
    ensures r.studentId == e.studentId && r.courseId == e.courseId && r.approvedAt == e.approvedAt
  {
    e.(status := Cancelled, cancelledAt := Some(now), reason := reason)
  }

  function Reject(e: Enrollment, reason: Option<string>, now: int): (r: Enrollment)
    ensures r.status == Rejected && r.cancelledAt == Some(now) && r.reason == reason
    ensures r.studentId == e.studentId && r.courseId == e.courseId && r.approvedAt == e.approvedAt
  {
    e.(status := Rejected, cancelledAt := Some(now), reason := reason)
  }

  predicate IsActive(e: Enrollment) {
    e.status == Applied || e.status == Approved
  }

  predicate IsApproved(e: Enrollment) {
    e.status == Approved
  }

  /** Approved is one of the two active states; cancelled and rejected are the inactive ones. */
  lemma StatusClassification(e: Enrollment)
    ensures IsApproved(e) ==> IsActive(e)
    ensures !IsActive(e) <==> e.status in {Cancelled, Rejected}
    ensures IsActive(Approve(e, 0)) && IsActive(NewEnrollment(e.studentId, e.courseId))
  {
  }

  /** The transitions apply from every state, including the terminal ones: the entity
      alone would let a cancelled enrolment be approved again. */
  lemma TransitionsAreUnguarded(e: Enrollment, reason: Option<string>, now: int)
    ensures e.status == Cancelled ==> IsActive(Approve(e, now))
    ensures !IsActive(Cancel(e, reason, now)) && !IsActive(Reject(e, reason, now))
    ensures IsActive(Approve(Cancel(e, reason, now), now))
  {
  }
}
