/** The course entity: capacity bounds, default status, enrolability and the date-range check. */
module Courses {
  import opened Wrappers

  datatype CourseStatus = Scheduled | InProgress | Completed | Cancelled

  /** The Korean description each course status carries. */
  function StatusDescription(s: CourseStatus): string {
    match s
    case Scheduled => "개설예정"
    case InProgress => "진행중"
    case Completed => "종료"
    case Cancelled => "취소"
  }

  /** Dates are day numbers; `None` is a null column. `currentStudents` is the
      denormalised enrolment counter the services read and write. */
  datatype Course = Course(
    id: nat,
    courseName: string,
    description: string,
    instructorId: nat,
    maxStudents: int,
    startDate: Option<int>,
    endDate: Option<int>,
    status: CourseStatus,
    currentStudents: int)

  const MinCapacity: int := 1
  const MaxCapacity: int := 100

  /** The bean-validation bound on `maxStudents`. */
  predicate CapacityInRange(maxStudents: int) {
    MinCapacity <= maxStudents <= MaxCapacity
  }

  /** The six-argument constructor: every new course starts SCHEDULED with no students. */
  function NewCourse(id: nat, name: string, description: string, instructorId: nat,
                     maxStudents: int, startDate: Option<int>, endDate: Option<int>): (c: Course)
    ensures c.status == Scheduled && c.currentStudents == 0
    ensures c.id == id && c.courseName == name && c.description == description
    ensures c.instructorId == instructorId && c.maxStudents == maxStudents
    ensures c.startDate == startDate && c.endDate == endDate
  {
    Course(id, name, description, instructorId, maxStudents, startDate, endDate, Scheduled, 0)
  }

  /** A course accepts enrolments while it is scheduled or running. */
  predicate CanEnroll(c: Course) {
    c.status == Scheduled || c.status == InProgress
  }

  /** Both dates present and the start not after the end; one-day courses are valid.
      The entity and the request DTO use this same test. */
  predicate IsValidDateRange(startDate: Option<int>, endDate: Option<int>) {
    startDate.Some? && endDate.Some? && startDate.value <= endDate.value
  }

  lemma CanEnrollExactlyOpenStatuses(c: Course)
    ensures CanEnroll(c) <==> c.status !in {Completed, Cancelled}
  {
  }

  /** A valid range names a non-empty span of days; a missing date is never valid. */
  lemma ValidDateRangeMeaning(startDate: Option<int>, endDate: Option<int>)
    ensures IsValidDateRange(startDate, endDate) <==>
            (exists s, e :: startDate == Some(s) && endDate == Some(e) && e - s + 1 >= 1)
    ensures forall d :: IsValidDateRange(Some(d), Some(d))
  {
    if IsValidDateRange(startDate, endDate) {
      var s, e := startDate.value, endDate.value;
      assert startDate == Some(s) && endDate == Some(e) && e - s + 1 >= 1;
    }
  }

  function IncreaseCurrentStudents(c: Course): (r: Course)
    ensures r.currentStudents == c.currentStudents + 1
    ensures r == c.(currentStudents := r.currentStudents)
  {
    c.(currentStudents := c.currentStudents + 1)
  }

  function DecreaseCurrentStudents(c: Course): (r: Course)
    ensures r.currentStudents == c.currentStudents - 1
    ensures r == c.(currentStudents := r.currentStudents)
  {
    c.(currentStudents := c.currentStudents - 1)
  }
}
