/** `CourseService`: creating, updating, deleting and looking up courses, and changing a
    course's status. The service keeps course names unique by checking before it writes;
    the table itself has no unique constraint on the name. */
module CourseService {
  import opened Wrappers
  import opened Text
  import opened Courses
  import opened Enrollments
  import opened EnrollmentRepository
  import MemberService
  import EnrollmentService

  /** The create/update request body. Dates are day numbers; `None` is a missing date. */
  datatype CourseRequest = CourseRequest(
    courseName: string,
    description: string,
    instructorId: nat,
    maxStudents: int,
    startDate: Option<int>,
    endDate: Option<int>)

  const BadDateRange: string := "강의 시작일은 종료일보다 이전이어야 합니다"
  const StartInPast: string := "강의 시작일은 현재 날짜 이후여야 합니다"
  const DuplicateNamePrefix: string := "이미 존재하는 강의명입니다: "
  const InstructorNotFoundPrefix: string := "강사를 찾을 수 없습니다: "
  const NotInstructorPrefix: string := "강사 권한이 없는 회원입니다: "
  const HasStudents: string := "수강생이 있는 강의는 삭제할 수 없습니다"

  type Catalog = map<nat, Course>

  /** `existsByCourseName`. */
  predicate NameTaken(courses: Catalog, name: string) {
    exists id | id in courses :: courses[id].courseName == name
  }

  /** No two stored courses share a name. */
  predicate UniqueNames(courses: Catalog) {
    forall i, j | i in courses && j in courses && i != j :: courses[i].courseName != courses[j].courseName
  }

  /** Every enrolment row names a stored course. */
  predicate RowsReferenceCourses(db: EnrollmentService.Db) {
    forall i | 0 <= i < |db.enrollments| :: db.enrollments[i].courseId in db.courses
  }

  // ---------------------------------------------------------------------------
  // Request validation

  /** The two conditions the request's dates must meet. */
  predicate DatesAcceptable(req: CourseRequest, today: int) {
    IsValidDateRange(req.startDate, req.endDate) && req.startDate.value >= today
  }

  /** `validateCourseRequest`: the date range is checked first; only a well-formed range
      has its start compared with today, so a missing date never reaches that comparison. */
  function ValidateCourseRequest(req: CourseRequest, today: int): (r: Option<string>)
    ensures r.None? <==> DatesAcceptable(req, today)
    ensures !IsValidDateRange(req.startDate, req.endDate) ==> r == Some(BadDateRange)
    ensures IsValidDateRange(req.startDate, req.endDate) && req.startDate.value < today ==> r == Some(StartInPast)
  {
    if !IsValidDateRange(req.startDate, req.endDate) then Some(BadDateRange)
    else if req.startDate.value < today then Some(StartInPast)
    else None
  }

  /** The member exists and is an instructor. */
  predicate IsInstructor(members: MemberService.MemberTable, id: nat) {
    id < |members| && members[id].memberType == MemberService.Instructor
  }

  /** The instructor lookup followed by the member-type check. */
  function CheckInstructor(members: MemberService.MemberTable, id: nat): (r: Option<string>)
    ensures r.None? <==> IsInstructor(members, id)
    ensures id >= |members| ==> r == Some(InstructorNotFoundPrefix + NatToString(id))
    ensures id < |members| && members[id].memberType != MemberService.Instructor ==>
              r == Some(NotInstructorPrefix + members[id].name)
  {
    if id >= |members| then Some(InstructorNotFoundPrefix + NatToString(id))
    else if members[id].memberType != MemberService.Instructor then Some(NotInstructorPrefix + members[id].name)
    else None
  }

  // ---------------------------------------------------------------------------
  // Create

  /** All of `createCourse`'s checks pass. */
  predicate Creatable(db: EnrollmentService.Db, req: CourseRequest, today: int) {
    && DatesAcceptable(req, today)
    && !NameTaken(db.courses, req.courseName)
    && IsInstructor(db.members, req.instructorId)
  }

  /** `createCourse`: dates, then the name, then the instructor; the new course is stored
      under the id the database assigns, which is one not yet in use. */
  function CreateCourse(db: EnrollmentService.Db, req: CourseRequest, today: int, newId: nat): (r: Result<(EnrollmentService.Db, Course)>)
    requires newId !in db.courses
    ensures r.Ok? <==> Creatable(db, req, today)
    ensures !DatesAcceptable(req, today) ==> r.Err? && Some(r.msg) == ValidateCourseRequest(req, today)
    ensures DatesAcceptable(req, today) && NameTaken(db.courses, req.courseName) ==>
              r == Err(DuplicateNamePrefix + req.courseName)
    ensures DatesAcceptable(req, today) && !NameTaken(db.courses, req.courseName) && !IsInstructor(db.members, req.instructorId) ==>
              r.Err? && Some(r.msg) == CheckInstructor(db.members, req.instructorId)
    ensures r.Ok? ==> var (db', c) := r.value;
              && c.id == newId && c.status == Scheduled && c.currentStudents == 0
              && c.courseName == req.courseName && c.description == req.description
              && c.instructorId == req.instructorId && c.maxStudents == req.maxStudents
              && c.startDate == req.startDate && c.endDate == req.endDate
              && db'.courses.Keys == db.courses.Keys + {newId} && db'.courses[newId] == c
              && (forall id | id in db.courses :: db'.courses[id] == db.courses[id])
              && db'.members == db.members && db'.enrollments == db.enrollments
  {
    var invalid := ValidateCourseRequest(req, today);
    if invalid.Some? then Err(invalid.value)
    else if NameTaken(db.courses, req.courseName) then Err(DuplicateNamePrefix + req.courseName)
    else
      var bad := CheckInstructor(db.members, req.instructorId);
      if bad.Some? then Err(bad.value)
      else
        var c := NewCourse(newId, req.courseName, req.description, req.instructorId,
                           req.maxStudents, req.startDate, req.endDate);
        Ok((db.(courses := db.courses[newId := c]), c))
  }

  /** Creating a course keeps names unique, and a second request with the same name is
      refused with the duplicate-name error. */
  lemma CreateKeepsUniqueNames(db: EnrollmentService.Db, req: CourseRequest, today: int, newId: nat, req2: CourseRequest, newId2: nat)
    requires newId !in db.courses && UniqueNames(db.courses)
    ensures var r := CreateCourse(db, req, today, newId);
            r.Ok? ==> UniqueNames(r.value.0.courses)
    ensures var r := CreateCourse(db, req, today, newId);
            r.Ok? && req2.courseName == req.courseName && DatesAcceptable(req2, today) && newId2 !in r.value.0.courses ==>
              CreateCourse(r.value.0, req2, today, newId2) == Err(DuplicateNamePrefix + req.courseName)
  {
    var r := CreateCourse(db, req, today, newId);
    if r.Ok? {
      var cs := r.value.0.courses;
      forall i, j | i in cs && j in cs && i != j
        ensures cs[i].courseName != cs[j].courseName
      {
        if i == newId {
          assert db.courses[j].courseName != req.courseName;
        } else if j == newId {
          assert db.courses[i].courseName != req.courseName;
        }
      }
      assert cs[newId].courseName == req.courseName;
    }
  }

  /** With no row naming the course at all, its active count is zero. */
  lemma {:induction false} CountActiveOfUnreferenced(t: Table, courseId: nat)
    requires forall i | 0 <= i < |t| :: t[i].courseId != courseId
    ensures CountActive(t, courseId) == 0
  {
    if |t| > 0 {
      CountActiveOfUnreferenced(t[..|t| - 1], courseId);
    }
  }

  /** A freshly created course is found again with no enrolments counted against it. */
  lemma CreatedCourseIsFound(db: EnrollmentService.Db, req: CourseRequest, today: int, newId: nat)
    requires newId !in db.courses && RowsReferenceCourses(db)
    ensures var r := CreateCourse(db, req, today, newId);
            r.Ok? ==> GetCourseById(r.value.0, newId) == Ok((r.value.1, 0))
  {
    var r := CreateCourse(db, req, today, newId);
    if r.Ok? {
      CountActiveOfUnreferenced(db.enrollments, newId);
    }
  }

  // ---------------------------------------------------------------------------
  // Read

  /** `getCourseById`: the stored course together with its live count of APPLIED and
      APPROVED enrolments, which need not equal the stored counter. */
  function GetCourseById(db: EnrollmentService.Db, courseId: nat): (r: Result<(Course, nat)>)
    ensures r.Ok? <==> courseId in db.courses
    ensures r.Err? ==> r.msg == EnrollmentService.CourseNotFoundPrefix + NatToString(courseId)
    ensures r.Ok? ==> r.value.0 == db.courses[courseId]
                      && r.value.1 == |ActiveIds(db.enrollments, courseId)|
  {
    if courseId !in db.courses then Err(EnrollmentService.CourseNotFoundPrefix + NatToString(courseId))
    else
      CountActiveIsCardinality(db.enrollments, courseId);
      Ok((db.courses[courseId], CountActive(db.enrollments, courseId)))
  }

  // ---------------------------------------------------------------------------
  // Update

  /** The course's own current name is not a conflict; any other stored name is. */
  predicate NameConflicts(courses: Catalog, courseId: nat, name: string)
    requires courseId in courses
  {
    courses[courseId].courseName != name && NameTaken(courses, name)
  }

  /** `updateCourse`: the course must exist, then the dates, then the name, then the
      instructor; the editable fields are overwritten, while the id, the status and the
      student counter are kept. */
  function UpdateCourse(db: EnrollmentService.Db, courseId: nat, req: CourseRequest, today: int): (r: Result<EnrollmentService.Db>)
    ensures courseId !in db.courses ==> r == Err(EnrollmentService.CourseNotFoundPrefix + NatToString(courseId))
    ensures r.Ok? <==> courseId in db.courses && DatesAcceptable(req, today)
                       && !NameConflicts(db.courses, courseId, req.courseName)
                       && IsInstructor(db.members, req.instructorId)
    ensures courseId in db.courses && !DatesAcceptable(req, today) ==>
              r.Err? && Some(r.msg) == ValidateCourseRequest(req, today)
    ensures courseId in db.courses && DatesAcceptable(req, today) && NameConflicts(db.courses, courseId, req.courseName) ==>
              r == Err(DuplicateNamePrefix + req.courseName)
    ensures r.Ok? ==> var old_ := db.courses[courseId];
              && r.value.courses.Keys == db.courses.Keys
              && r.value.courses[courseId] == old_.(courseName := req.courseName, description := req.description,
                                                    instructorId := req.instructorId, maxStudents := req.maxStudents,
                                                    startDate := req.startDate, endDate := req.endDate)
              && (forall id | id in db.courses && id != courseId :: r.value.courses[id] == db.courses[id])
              && r.value.members == db.members && r.value.enrollments == db.enrollments
  {
    if courseId !in db.courses then Err(EnrollmentService.CourseNotFoundPrefix + NatToString(courseId))
    else
      var invalid := ValidateCourseRequest(req, today);
      if invalid.Some? then Err(invalid.value)
      else if NameConflicts(db.courses, courseId, req.courseName) then Err(DuplicateNamePrefix + req.courseName)
      else
        var bad := CheckInstructor(db.members, req.instructorId);
        if bad.Some? then Err(bad.value)
        else
          var c := db.courses[courseId];
          var c' := c.(courseName := req.courseName, description := req.description,
                       instructorId := req.instructorId, maxStudents := req.maxStudents,
                       startDate := req.startDate, endDate := req.endDate);
          Ok(db.(courses := db.courses[courseId := c']))
  }

  /** An update keeps names unique, and resubmitting a course's own name is never a conflict. */
  lemma UpdateKeepsUniqueNames(db: EnrollmentService.Db, courseId: nat, req: CourseRequest, today: int)
    requires UniqueNames(db.courses)
    ensures var r := UpdateCourse(db, courseId, req, today);
            r.Ok? ==> UniqueNames(r.value.courses)
    ensures courseId in db.courses && req.courseName == db.courses[courseId].courseName ==>
              !NameConflicts(db.courses, courseId, req.courseName)
  {
    var r := UpdateCourse(db, courseId, req, today);
    if r.Ok? {
      var cs := r.value.courses;
      var own := db.courses[courseId].courseName;
      forall i, j | i in cs && j in cs && i != j
        ensures cs[i].courseName != cs[j].courseName
      {
        if i == courseId {
          if req.courseName != own {
            assert db.courses[j].courseName != req.courseName;
          } else {
            assert db.courses[j].courseName != own;
          }
        } else if j == courseId {
          if req.courseName != own {
            assert db.courses[i].courseName != req.courseName;
          } else {
            assert db.courses[i].courseName != own;
          }
        }
      }
    }
  }

  // ---------------------------------------------------------------------------
  // Delete

  /** `deleteCourse`: a course with any APPLIED or APPROVED enrolment is kept. */
  function DeleteCourse(db: EnrollmentService.Db, courseId: nat): (r: Result<EnrollmentService.Db>)
    ensures r.Ok? <==> courseId in db.courses && CountActive(db.enrollments, courseId) == 0
    ensures courseId !in db.courses ==> r == Err(EnrollmentService.CourseNotFoundPrefix + NatToString(courseId))
    ensures courseId in db.courses && CountActive(db.enrollments, courseId) > 0 ==> r == Err(HasStudents)
    ensures r.Ok? ==> r.value.courses.Keys == db.courses.Keys - {courseId}
                      && (forall id | id in r.value.courses :: r.value.courses[id] == db.courses[id])
                      && r.value.members == db.members && r.value.enrollments == db.enrollments
  {
    if courseId !in db.courses then Err(EnrollmentService.CourseNotFoundPrefix + NatToString(courseId))
    else if CountActive(db.enrollments, courseId) > 0 then Err(HasStudents)
    else Ok(db.(courses := db.courses - {courseId}))
  }

  /** A deleted course had no active enrolment row, and a course with one cannot be deleted. */
  lemma DeleteLeavesNoActiveRow(db: EnrollmentService.Db, courseId: nat)
    ensures DeleteCourse(db, courseId).Ok? ==>
              forall i | 0 <= i < |db.enrollments| && db.enrollments[i].courseId == courseId :: !IsActive(db.enrollments[i])
    ensures (exists i | 0 <= i < |db.enrollments| :: db.enrollments[i].courseId == courseId && IsActive(db.enrollments[i])) ==>
              DeleteCourse(db, courseId).Err?
  {
    CountActiveIsCardinality(db.enrollments, courseId);
    if exists i | 0 <= i < |db.enrollments| :: db.enrollments[i].courseId == courseId && IsActive(db.enrollments[i]) {
      var i :| 0 <= i < |db.enrollments| && db.enrollments[i].courseId == courseId && IsActive(db.enrollments[i]);
      assert (i as nat) in ActiveIds(db.enrollments, courseId);
    }
  }

  // ---------------------------------------------------------------------------
  // Status

  /** `updateCourseStatus`: any status may be set from any status; no other field moves. */
  function UpdateCourseStatus(db: EnrollmentService.Db, courseId: nat, status: CourseStatus): (r: Result<EnrollmentService.Db>)
    ensures r.Ok? <==> courseId in db.courses
    ensures r.Err? ==> r.msg == EnrollmentService.CourseNotFoundPrefix + NatToString(courseId)
    ensures r.Ok? ==> r.value.courses.Keys == db.courses.Keys && r.value.courses[courseId].status == status
  {
    if courseId !in db.courses then Err(EnrollmentService.CourseNotFoundPrefix + NatToString(courseId))
    else Ok(db.(courses := db.courses[courseId := db.courses[courseId].(status := status)]))
  }

  /** Only the status column of the named course changes; setting the same status twice
      is the same as setting it once; the transition table is unrestricted, so a closed
      course can be reopened. */
  lemma StatusUpdateIsLocal(db: EnrollmentService.Db, courseId: nat, status: CourseStatus, other: CourseStatus)
    requires courseId in db.courses
    ensures var db' := UpdateCourseStatus(db, courseId, status).value;
            && db'.courses[courseId] == db.courses[courseId].(status := status)
            && (forall id | id in db.courses && id != courseId :: db'.courses[id] == db.courses[id])
            && db'.members == db.members && db'.enrollments == db.enrollments
            && UpdateCourseStatus(db', courseId, status) == Ok(db')
            && UpdateCourseStatus(db', courseId, other).value == UpdateCourseStatus(db, courseId, other).value
            && (UniqueNames(db.courses) ==> UniqueNames(db'.courses))
  {
    var db' := UpdateCourseStatus(db, courseId, status).value;
    assert db'.courses[courseId := db'.courses[courseId].(status := status)] == db'.courses;
    assert db'.courses[courseId := db'.courses[courseId].(status := other)]
        == db.courses[courseId := db.courses[courseId].(status := other)];
  }

  /** Closing a course (completing or cancelling it) makes every enrolment request for it
      fail validation; the status check runs before the start-date check. */
  lemma ClosedCourseRefusesEnrollment(db: EnrollmentService.Db, courseId: nat, status: CourseStatus, studentId: nat, today: int)
    requires courseId in db.courses && (status == Completed || status == CourseStatus.Cancelled)
    ensures var db' := UpdateCourseStatus(db, courseId, status).value;
            var c := db'.courses[courseId];
            EnrollmentService.ValidateEnrollmentBasic(db'.enrollments, studentId, courseId, c, today).Some?
  {
  }
}
