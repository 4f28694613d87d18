/** `EnrollmentService`: eligibility checks, the synchronous admission path, the queue
    paths, the write-behind drain of the admission queue, and the status transitions
    requested by students, instructors and administrators. */
module EnrollmentService {
  import opened Wrappers
  import opened Text
  import opened Courses
  import opened Enrollments
  import opened EnrollmentRepository
  import MemberService
  import opened CapacityStore
  import opened AdmissionGate
  import RedisConcurrency
  import opened EnrollmentQueue

  /** The database the service reads and writes: members by id, courses by id, and the
      enrolment table. */
  datatype Db = Db(members: MemberService.MemberTable, courses: map<nat, Course>, enrollments: Table)

  /** What a call leaves behind in the database and in Redis, and what it returns or throws. */
  datatype Change<T> = Change(db: Db, rs: HashStore, result: Result<T>)

  const MemberNotFoundPrefix: string := "회원을 찾을 수 없습니다: "
  const StudentNotFoundPrefix: string := "학생을 찾을 수 없습니다: "
  const CourseNotFoundPrefix: string := "강의를 찾을 수 없습니다: "
  const EnrollmentNotFoundPrefix: string := "수강신청을 찾을 수 없습니다: "
  const QueueResultNotFoundPrefix: string := "큐 결과를 찾을 수 없습니다: "
  const QueueResultFailedPrefix: string := "큐 결과 처리 실패: "
  const CancelQueueFailedPrefix: string := "취소 큐 결과 처리 실패: "
  const AlreadyEnrolled: string := "이미 수강신청한 강의입니다"
  const BadCourseStatusPrefix: string := "수강신청할 수 없는 강의 상태입니다: "
  const AlreadyStarted: string := "이미 시작된 강의는 수강신청할 수 없습니다"
  const OwnCourse: string := "자신이 강사인 강의는 수강신청할 수 없습니다"
  const NotActive: string := "이미 취소되었거나 거절된 수강신청입니다"
  const ApproveOnlyApplied: string := "신청 상태의 수강신청만 승인할 수 있습니다"
  const RejectOnlyApplied: string := "신청 상태의 수강신청만 거절할 수 있습니다"
  const CapacityFull: string := "강의 정원이 초과되었습니다"
  const EmptyCourseList: string := "수강신청할 강의 목록이 비어있습니다"
  const UnknownCourseName: string := "알 수 없는 강의"

  /** A placeholder for the message of the NullPointerException a course without a start
      date raises; the JVM decides the real text. */
  const MissingStartDate: string := "NullPointerException"

  // ---------------------------------------------------------------------------
  // Eligibility

  /** The four eligibility conditions, all of which must hold. */
  predicate Eligible(t: Table, studentId: nat, courseId: nat, c: Course, today: int) {
    && !ExistsPair(t, studentId, courseId)
    && c.status == Scheduled
    && c.startDate.Some? && c.startDate.value >= today
    && c.instructorId != studentId
  }

  /** `validateEnrollmentBasic`: the checks run in order and the first that fails names
      the error; the capacity is left to the admission gate. */
  function ValidateEnrollmentBasic(t: Table, studentId: nat, courseId: nat, c: Course, today: int): (r: Option<string>)
    ensures r.None? <==> Eligible(t, studentId, courseId, c, today)
    ensures ExistsPair(t, studentId, courseId) ==> r == Some(AlreadyEnrolled)
    ensures !ExistsPair(t, studentId, courseId) && c.status != Scheduled ==>
              r == Some(BadCourseStatusPrefix + StatusDescription(c.status))
    ensures !ExistsPair(t, studentId, courseId) && c.status == Scheduled && c.startDate.None? ==>
              r == Some(MissingStartDate)
    ensures (!ExistsPair(t, studentId, courseId) && c.status == Scheduled && c.startDate.Some?
             && c.startDate.value < today) ==> r == Some(AlreadyStarted)
    ensures (!ExistsPair(t, studentId, courseId) && c.status == Scheduled && c.startDate.Some?
             && c.startDate.value >= today && c.instructorId == studentId) ==> r == Some(OwnCourse)
  {
    if ExistsPair(t, studentId, courseId) then Some(AlreadyEnrolled)
    else if c.status != Scheduled then Some(BadCourseStatusPrefix + StatusDescription(c.status))
    else if c.startDate.None? then Some(MissingStartDate)
    else if c.startDate.value < today then Some(AlreadyStarted)
    else if c.instructorId == studentId then Some(OwnCourse)
    else None
  }

  /** The status check admits SCHEDULED courses only: a running course, which the entity's
      own `canEnroll` accepts, is refused with its Korean description; and a cancelled
      enrolment still blocks a new one for the same pair. */
  lemma ScheduledOnlyValidation(t: Table, studentId: nat, courseId: nat, c: Course, today: int)
    requires !ExistsPair(t, studentId, courseId) && c.status == InProgress
    ensures CanEnroll(c)
    ensures ValidateEnrollmentBasic(t, studentId, courseId, c, today) == Some(BadCourseStatusPrefix + "진행중")
    ensures forall id | 0 <= id < |t| && IsPair(t[id], studentId, courseId) ::
              ValidateEnrollmentBasic(t, studentId, courseId, c, today) != None
  {
  }

  /** A member may be refused only for a reason that concerns this pair, this course or
      this date: the other members' enrolments and the other courses do not matter. */
  lemma ValidationIsLocal(t: Table, e: Enrollment, studentId: nat, courseId: nat, c: Course, today: int)
    requires !IsPair(e, studentId, courseId)
    ensures ValidateEnrollmentBasic(t + [e], studentId, courseId, c, today)
            == ValidateEnrollmentBasic(t, studentId, courseId, c, today)
  {
    if ExistsPair(t, studentId, courseId) {
      var i :| 0 <= i < |t| && IsPair(t[i], studentId, courseId);
      assert IsPair((t + [e])[i], studentId, courseId);
    }
    if ExistsPair(t + [e], studentId, courseId) {
      var i :| 0 <= i < |t + [e]| && IsPair((t + [e])[i], studentId, courseId);
      assert IsPair(t[i], studentId, courseId);
    }
  }

  /** The member and the course exist and the eligibility checks pass. */
  predicate Admissible(db: Db, studentId: nat, courseId: nat, today: int) {
    && studentId < |db.members|
    && courseId in db.courses
    && ValidateEnrollmentBasic(db.enrollments, studentId, courseId, db.courses[courseId], today).None?
  }

  /** The first error the lookups and checks before the admission gate raise, if any. */
  function Precheck(db: Db, studentId: nat, courseId: nat, today: int): (r: Option<string>)
    ensures r.None? <==> Admissible(db, studentId, courseId, today)
    ensures studentId >= |db.members| ==> r == Some(MemberNotFoundPrefix + NatToString(studentId))
    ensures studentId < |db.members| && courseId !in db.courses ==>
              r == Some(CourseNotFoundPrefix + NatToString(courseId))
    ensures studentId < |db.members| && courseId in db.courses ==>
              r == ValidateEnrollmentBasic(db.enrollments, studentId, courseId, db.courses[courseId], today)
  {
    if studentId >= |db.members| then Some(MemberNotFoundPrefix + NatToString(studentId))
    else if courseId !in db.courses then Some(CourseNotFoundPrefix + NatToString(courseId))
    else ValidateEnrollmentBasic(db.enrollments, studentId, courseId, db.courses[courseId], today)
  }

  /** The approved row an admission path saves. */
  function ApprovedRow(studentId: nat, courseId: nat, now: int): (e: Enrollment)
    ensures e.status == Approved && IsPair(e, studentId, courseId) && IsActive(e)
  {
    Approve(NewEnrollment(studentId, courseId), now)
  }

  // ---------------------------------------------------------------------------
  // Synchronous admission

  /** `enrollCourse`: look up the member and the course, validate, run the admission
      script through the retry loop, and save one APPROVED row only when it granted a
      seat. The database snapshot the bootstrap reads is taken from `db`. */
  method EnrollCourse(db: Db, rs: HashStore, studentId: nat, courseId: nat, today: int, now: int,
                      interleaved: seq<seq<Step>>, fault: Option<nat>)
    returns (db': Db, rs': HashStore, replies: seq<Reply>, r: Result<Enrollment>)
    ensures r.Err? ==> db' == db
    ensures !Admissible(db, studentId, courseId, today) ==>
              rs' == rs && replies == [] && r == Err(Precheck(db, studentId, courseId, today).value)
    ensures r.Ok? <==> Admissible(db, studentId, courseId, today) && Grants(replies) == 1
    ensures r.Ok? ==>
              r.value == ApprovedRow(studentId, courseId, now)
              && db' == db.(enrollments := db.enrollments + [r.value])
    ensures UniquePairs(db.enrollments) ==> UniquePairs(db'.enrollments)
    ensures r.Ok? ==>
              var h := Get(rs', courseId);
              h.currentStudents.Some? && h.maxStudents.Some? && h.currentStudents.value <= h.maxStudents.value
    ensures Admissible(db, studentId, courseId, today) && interleaved == [] && fault.None? && courseId !in rs ==>
              var c := db.courses[courseId];
              var n := CountActive(db.enrollments, courseId);
              (n < c.maxStudents ==> r.Ok?) && (n >= c.maxStudents ==> r == Err(CapacityFull))
  {
    var pre := Precheck(db, studentId, courseId, today);
    if pre.Some? {
      return db, rs, [], Err(pre.value);
    }
    var c := db.courses[courseId];
    var out;
    rs', replies, out := RedisConcurrency.ExecuteEnrollmentLuaScript(
      rs, courseId, Snapshot(Some(c), CountActive(db.enrollments, courseId)), interleaved, fault);
    if !out.success {
      return db, rs', replies, Err(RedisConcurrency.ToKorean(out.message));
    }
    var e := ApprovedRow(studentId, courseId, now);
    if UniquePairs(db.enrollments) {
      InsertKeepsUnique(db.enrollments, e);
    }
    db' := db.(enrollments := db.enrollments + [e]);
    r := Ok(e);
  }

  // ---------------------------------------------------------------------------
  // Queue paths

  /** `enrollCourseWithQueue`: the same lookups and checks, then `enqueueEnrollmentRequest`;
      the queue id is returned whatever the script answered. */
  method EnrollCourseWithQueue(db: Db, st: QueueState, queueId: string, studentId: nat, courseId: nat,
                               today: int, interleaved: seq<seq<Step>>, fault: Option<nat>,
                               storeFault: StoreFault, errorWriteFails: bool, errorText: string)
    returns (st': QueueState, r: Result<string>)
    requires queueId !in st.results
    ensures !Admissible(db, studentId, courseId, today) ==>
              st' == st && r == Err(Precheck(db, studentId, courseId, today).value)
    ensures Admissible(db, studentId, courseId, today) ==>
              && r == Ok(queueId)
              && (!errorWriteFails ==> queueId in st'.results)
              && (queueId in st'.results ==> EnrollRecordFits(st'.results[queueId], studentId, courseId, errorText))
              && (st'.queue == st.queue + [QueueItem(queueId, studentId, courseId)] || st'.queue == st.queue)
              && (st'.queue != st.queue ==>
                    && studentId in Get(st'.courses, courseId).students
                    && queueId in st'.results && st'.results[queueId].status == StatusSuccess)
    ensures Admissible(db, studentId, courseId, today) && interleaved == [] && fault.None?
            && storeFault == NoStoreFault && !NotFoundFor(QueuedEnroll(studentId), Get(st.courses, courseId)) ==>
              var h := Get(st.courses, courseId);
              (st'.queue != st.queue <==> h.currentStudents.value < h.maxStudents.value)
  {
    var pre := Precheck(db, studentId, courseId, today);
    if pre.Some? {
      return st, Err(pre.value);
    }
    var c := db.courses[courseId];
    var replies, id;
    st', replies, id := EnqueueEnrollmentRequest(st, queueId, studentId, courseId,
      Snapshot(Some(c), CountActive(db.enrollments, courseId)), interleaved, fault, storeFault, errorWriteFails, errorText);
    r := Ok(id);
  }

  /** `processQueueResult`: turn a granted queue result into an APPROVED row, then
      bootstrap the course hash from the new active count (a failing bootstrap is only
      logged). Every failure is rethrown with the `큐 결과 처리 실패: ` prefix. */
  function ProcessQueueResult(db: Db, rs: HashStore, st: QueueState, queueId: string, now: int,
                              syncFails: bool): (r: Change<Enrollment>)
    ensures r.result.Err? ==> r.db == db && r.rs == rs
    ensures r.result.Err? ==> |QueueResultFailedPrefix| <= |r.result.msg|
                              && r.result.msg[..|QueueResultFailedPrefix|] == QueueResultFailedPrefix
    ensures queueId !in st.results ==>
              r.result == Err(QueueResultFailedPrefix + QueueResultNotFoundPrefix + queueId)
    ensures queueId in st.results && !st.results[queueId].success ==>
              r.result == Err(QueueResultFailedPrefix + RedisConcurrency.ToKorean(st.results[queueId].message))
    ensures r.result.Ok? <==>
              queueId in st.results && st.results[queueId].success
              && st.results[queueId].studentId < |db.members| && st.results[queueId].courseId in db.courses
              && !ExistsPair(db.enrollments, st.results[queueId].studentId, st.results[queueId].courseId)
    ensures r.result.Ok? ==>
              var q := st.results[queueId];
              && r.result.value == ApprovedRow(q.studentId, q.courseId, now)
              && r.db == db.(enrollments := db.enrollments + [r.result.value])
              && (UniquePairs(db.enrollments) ==> UniquePairs(r.db.enrollments))
    ensures r.result.Ok? && !syncFails ==>
              var q := st.results[queueId];
              r.rs == Sync(rs, q.courseId, ConcurrencyServiceSync,
                           Snapshot(Some(db.courses[q.courseId]), CountActive(r.db.enrollments, q.courseId)))
  {
    if queueId !in st.results then Change(db, rs, Err(QueueResultFailedPrefix + QueueResultNotFoundPrefix + queueId))
    else
      var q := st.results[queueId];
      if !q.success then Change(db, rs, Err(QueueResultFailedPrefix + RedisConcurrency.ToKorean(q.message)))
      else if q.studentId >= |db.members| then
        Change(db, rs, Err(QueueResultFailedPrefix + StudentNotFoundPrefix + NatToString(q.studentId)))
      else if q.courseId !in db.courses then
        Change(db, rs, Err(QueueResultFailedPrefix + CourseNotFoundPrefix + NatToString(q.courseId)))
      else if ExistsPair(db.enrollments, q.studentId, q.courseId) then
        Change(db, rs, Err(QueueResultFailedPrefix + AlreadyEnrolled))
      else
        var e := ApprovedRow(q.studentId, q.courseId, now);
        assert UniquePairs(db.enrollments) ==> UniquePairs(db.enrollments + [e]) by {
          if UniquePairs(db.enrollments) {
            InsertKeepsUnique(db.enrollments, e);
          }
        }
        var db' := db.(enrollments := db.enrollments + [e]);
        var snapshot := Snapshot(Some(db.courses[q.courseId]), CountActive(db'.enrollments, q.courseId));
        Change(db', if syncFails then rs else Sync(rs, q.courseId, ConcurrencyServiceSync, snapshot), Ok(e))
  }

  /** `cancelEnrollmentWithQueue`: look the enrolment up and hand its pair to
      `enqueueCancelRequest`; the enrolment row itself is not touched here. */
  method CancelEnrollmentWithQueue(db: Db, st: QueueState, queueId: string, enrollmentId: nat,
                                   reason: Option<string>, interleaved: seq<seq<Step>>,
                                   fault: Option<nat>, storeFault: bool, errorWriteFails: bool,
                                   errorText: string, writeErrorText: string)
    returns (st': QueueState, r: Result<string>)
    requires queueId !in st.results
    ensures enrollmentId >= |db.enrollments| ==>
              st' == st && r == Err(EnrollmentNotFoundPrefix + NatToString(enrollmentId))
    ensures enrollmentId < |db.enrollments| ==>
              && st'.queue == st.queue
              && (r.Ok? <==> queueId in st'.results)
              && (r.Err? ==> r == Err(writeErrorText) && errorWriteFails && st'.results == st.results)
              && (r.Ok? ==>
                    && r.value == queueId && st'.results[queueId].CancelResult?
                    && st'.results[queueId].studentId == db.enrollments[enrollmentId].studentId
                    && st'.results[queueId].courseId == db.enrollments[enrollmentId].courseId)
    ensures enrollmentId < |db.enrollments| && fault.None? && !storeFault ==>
              r == Ok(queueId) && st'.results[queueId].status == StatusCancelProcessed
  {
    if enrollmentId >= |db.enrollments| {
      return st, Err(EnrollmentNotFoundPrefix + NatToString(enrollmentId));
    }
    var e := db.enrollments[enrollmentId];
    var c := if e.courseId in db.courses then Some(db.courses[e.courseId]) else None;
    var replies;
    st', replies, r := EnqueueCancelRequest(st, queueId, e.studentId, e.courseId, reason,
      Snapshot(c, CountActive(db.enrollments, e.courseId)), interleaved, fault, storeFault, errorWriteFails,
      errorText, writeErrorText);
  }

  /** `processCancelQueueResult`: a successful cancellation result cancels the enrolment
      (whatever its status) and lowers the course counter when it is positive; every
      failure is rethrown with the `취소 큐 결과 처리 실패: ` prefix. */
  function ProcessCancelQueueResult(db: Db, success: bool, message: string, reason: Option<string>,
                                    enrollmentId: nat, now: int): (r: Result<Db>)
    requires enrollmentId < |db.enrollments| ==> db.enrollments[enrollmentId].courseId in db.courses
    ensures !success ==> r == Err(CancelQueueFailedPrefix + RedisConcurrency.ToKorean(message))
    ensures success && enrollmentId >= |db.enrollments| ==>
              r == Err(CancelQueueFailedPrefix + EnrollmentNotFoundPrefix + NatToString(enrollmentId))
    ensures r.Ok? <==> success && enrollmentId < |db.enrollments|
    ensures r.Ok? ==>
              var e := db.enrollments[enrollmentId];
              r.value.enrollments == db.enrollments[enrollmentId := Cancel(e, reason, now)]
              && r.value.members == db.members
              && r.value.courses == db.courses[e.courseId := Floored(db.courses[e.courseId])]
  {
    if !success then Err(CancelQueueFailedPrefix + RedisConcurrency.ToKorean(message))
    else if enrollmentId >= |db.enrollments| then
      Err(CancelQueueFailedPrefix + EnrollmentNotFoundPrefix + NatToString(enrollmentId))
    else
      var e := db.enrollments[enrollmentId];
      var c := db.courses[e.courseId];
      Ok(db.(enrollments := db.enrollments[enrollmentId := Cancel(e, reason, now)],
             courses := db.courses[e.courseId := Floored(c)]))
  }

  /** The course counter after a cancellation: lowered by one when it is positive. */
  function Floored(c: Course): (r: Course)
    ensures c.currentStudents > 0 ==> r == DecreaseCurrentStudents(c)
    ensures c.currentStudents <= 0 ==> r == c
    ensures c.currentStudents >= 0 ==> r.currentStudents >= 0
  {
    if c.currentStudents > 0 then DecreaseCurrentStudents(c) else c
  }

  // ---------------------------------------------------------------------------
  // The write-behind drain of the admission queue

  /** The member and the course a queue item names both exist. */
  predicate Known(db: Db, item: QueueItem) {
    item.studentId < |db.members| && item.courseId in db.courses
  }

  /** The table holds a row for the item's pair. */
  predicate Served(t: Table, item: QueueItem) {
    ExistsPair(t, item.studentId, item.courseId)
  }

  /** What `processDbQueue` does with one popped item: a missing member or course makes
      the body throw and the item is dropped; a pair already in the table only marks the
      result completed; otherwise an APPROVED row is saved and the result marked. */
  datatype Fate = Dropped | Duplicate | Inserted

  function FateOf(db: Db, item: QueueItem): (f: Fate)
    ensures f == Dropped <==> !Known(db, item)
    ensures f == Duplicate <==> Known(db, item) && Served(db.enrollments, item)
  {
    if !Known(db, item) then Dropped
    else if Served(db.enrollments, item) then Duplicate
    else Inserted
  }

  function ServeItem(db: Db, st: QueueState, item: QueueItem, now: int): (r: (Db, QueueState))
    ensures r.0.members == db.members && r.0.courses == db.courses && r.1.queue == st.queue
    ensures r.1.courses == st.courses && r.1.results.Keys == st.results.Keys
    ensures FateOf(db, item) == Inserted ==>
              r.0.enrollments == db.enrollments + [ApprovedRow(item.studentId, item.courseId, now)]
    ensures FateOf(db, item) != Inserted ==> r.0 == db
  {
    match FateOf(db, item)
    case Dropped => (db, st)
    case Duplicate => (db, MarkCompleted(st, item.queueId))
    case Inserted =>
      (db.(enrollments := db.enrollments + [ApprovedRow(item.studentId, item.courseId, now)]),
       MarkCompleted(st, item.queueId))
  }

  /** The drain as written, item by item from the head of the list: the new database,
      the queue state and the number of saved rows. */
  function Drain(db: Db, st: QueueState, now: int): (Db, QueueState, nat)
    decreases |st.queue|
  {
    if |st.queue| == 0 then (db, st, 0)
    else
      var item := st.queue[0];
      var s := ServeItem(db, st.(queue := st.queue[1..]), item, now);
      var rest := Drain(s.0, s.1, now);
      (rest.0, rest.1, rest.2 + if FateOf(db, item) == Inserted then 1 else 0)
  }

  /** The drain empties the list, saves at most one APPROVED row per item after the rows
      already there, and changes neither members, courses, Redis counts nor the set of
      result records. */
  lemma {:induction false} DrainShape(db: Db, st: QueueState, now: int)
    ensures var r := Drain(db, st, now);
            && r.1.queue == [] && r.1.courses == st.courses && r.1.results.Keys == st.results.Keys
            && r.2 <= |st.queue|
            && r.0.members == db.members && r.0.courses == db.courses
            && |r.0.enrollments| == |db.enrollments| + r.2
            && r.0.enrollments[..|db.enrollments|] == db.enrollments
            && forall k | |db.enrollments| <= k < |r.0.enrollments| :: r.0.enrollments[k].status == Approved
    decreases |st.queue|
  {
    if |st.queue| > 0 {
      var item := st.queue[0];
      var s := ServeItem(db, st.(queue := st.queue[1..]), item, now);
      DrainShape(s.0, s.1, now);
      var r := Drain(s.0, s.1, now);
      assert r.0.enrollments[..|s.0.enrollments|][..|db.enrollments|] == r.0.enrollments[..|db.enrollments|];
      assert s.0.enrollments[..|db.enrollments|] == db.enrollments;
    }
  }

  /** The drain never saves a second row for a pair. */
  lemma {:induction false} DrainKeepsUnique(db: Db, st: QueueState, now: int)
    requires UniquePairs(db.enrollments)
    ensures UniquePairs(Drain(db, st, now).0.enrollments)
    decreases |st.queue|
  {
    if |st.queue| > 0 {
      var item := st.queue[0];
      var s := ServeItem(db, st.(queue := st.queue[1..]), item, now);
      if FateOf(db, item) == Inserted {
        InsertKeepsUnique(db.enrollments, ApprovedRow(item.studentId, item.courseId, now));
      }
      DrainKeepsUnique(s.0, s.1, now);
    }
  }

  lemma ServedPersists(t: Table, u: Table, item: QueueItem)
    requires |t| <= |u| && u[..|t|] == t && Served(t, item)
    ensures Served(u, item)
  {
    var i :| 0 <= i < |t| && IsPair(t[i], item.studentId, item.courseId);
    assert u[i] == t[i];
  }

  /** Every item whose member and course exist has its pair in the table afterwards. */
  lemma {:induction false} DrainServesKnown(db: Db, st: QueueState, now: int)
    ensures forall i | 0 <= i < |st.queue| && Known(db, st.queue[i]) :: Served(Drain(db, st, now).0.enrollments, st.queue[i])
    decreases |st.queue|
  {
    if |st.queue| > 0 {
      var item := st.queue[0];
      var s := ServeItem(db, st.(queue := st.queue[1..]), item, now);
      var r := Drain(s.0, s.1, now);
      DrainServesKnown(s.0, s.1, now);
      DrainShape(s.0, s.1, now);
      if Known(db, item) {
        if FateOf(db, item) == Inserted {
          assert IsPair(s.0.enrollments[|db.enrollments|], item.studentId, item.courseId);
        }
        ServedPersists(s.0.enrollments, r.0.enrollments, item);
      }
      forall i | 0 < i < |st.queue| && Known(db, st.queue[i])
        ensures Served(r.0.enrollments, st.queue[i])
      {
        assert st.queue[i] == s.1.queue[i - 1];
      }
    }
  }

  /** `processDbQueue`: pop items until the list is empty and serve each; the count of
      saved rows is returned. */
  method ProcessDbQueue(db: Db, st: QueueState, now: int) returns (db': Db, st': QueueState, processed: nat)
    ensures (db', st', processed) == Drain(db, st, now)
    ensures st'.queue == [] && processed <= |st.queue| && st'.courses == st.courses
    ensures db'.members == db.members && db'.courses == db.courses
    ensures |db'.enrollments| == |db.enrollments| + processed && db'.enrollments[..|db.enrollments|] == db.enrollments
    ensures UniquePairs(db.enrollments) ==> UniquePairs(db'.enrollments)
    ensures forall i | 0 <= i < |st.queue| && Known(db, st.queue[i]) :: Served(db'.enrollments, st.queue[i])
  {
    DrainShape(db, st, now);
    DrainServesKnown(db, st, now);
    if UniquePairs(db.enrollments) {
      DrainKeepsUnique(db, st, now);
    }
    ghost var whole := Drain(db, st, now);
    db', st', processed := db, st, 0;
    while true
      invariant Drain(db', st', now).0 == whole.0 && Drain(db', st', now).1 == whole.1
      invariant processed + Drain(db', st', now).2 == whole.2
      decreases |st'.queue|
    {
      var p := Pop(st');
      if p.1.None? {
        break;
      }
      var item := p.1.value;
      var fate := FateOf(db', item);
      if fate == Dropped {
        st' := p.0;
      } else if fate == Duplicate {
        st' := MarkCompleted(p.0, item.queueId);
      } else {
        db' := db'.(enrollments := db'.enrollments + [ApprovedRow(item.studentId, item.courseId, now)]);
        st' := MarkCompleted(p.0, item.queueId);
        processed := processed + 1;
      }
    }
  }

  /** The items a drain that keeps failed items would leave in the list, in order. */
  function Kept(db: Db, items: seq<QueueItem>): (r: seq<QueueItem>)
    ensures forall x :: x in r <==> x in items && !Known(db, x)
    ensures |r| <= |items|
    decreases |items|
  {
    if |items| == 0 then []
    else (if Known(db, items[0]) then [] else [items[0]]) + Kept(db, items[1..])
  }

  lemma {:induction false} KeptIgnoresEnrollments(a: Db, b: Db, items: seq<QueueItem>)
    requires a.members == b.members && a.courses == b.courses
    ensures Kept(a, items) == Kept(b, items)
    decreases |items|
  {
    if |items| > 0 {
      KeptIgnoresEnrollments(a, b, items[1..]);
    }
  }

  /** The drain with failed items left in the list, as its comment says they are: the
      database and the result records end up as with the drain as written, and the list
      keeps exactly the items whose member or course is missing. */
  function DrainRetaining(db: Db, st: QueueState, now: int): (Db, QueueState, nat)
    decreases |st.queue|
  {
    if |st.queue| == 0 then (db, st, 0)
    else
      var item := st.queue[0];
      var s := ServeItem(db, st.(queue := st.queue[1..]), item, now);
      var rest := DrainRetaining(s.0, s.1, now);
      if FateOf(db, item) == Dropped then (rest.0, rest.1.(queue := [item] + rest.1.queue), rest.2)
      else (rest.0, rest.1, rest.2 + if FateOf(db, item) == Inserted then 1 else 0)
  }

  lemma {:induction false} DrainRetainingAgrees(db: Db, st: QueueState, now: int)
    ensures var r := DrainRetaining(db, st, now);
            var w := Drain(db, st, now);
            r.0 == w.0 && r.2 == w.2 && r.1 == w.1.(queue := Kept(db, st.queue))
    decreases |st.queue|
  {
    if |st.queue| > 0 {
      var item := st.queue[0];
      var s := ServeItem(db, st.(queue := st.queue[1..]), item, now);
      DrainRetainingAgrees(s.0, s.1, now);
      KeptIgnoresEnrollments(s.0, db, s.1.queue);
    }
  }

  /** With failed items kept, no admitted request is lost: every item of the list is
      afterwards either served in the table or still waiting in the list. */
  lemma NoItemLost(db: Db, st: QueueState, now: int)
    ensures var r := DrainRetaining(db, st, now);
            forall i | 0 <= i < |st.queue| :: Served(r.0.enrollments, st.queue[i]) || st.queue[i] in r.1.queue
  {
    DrainRetainingAgrees(db, st, now);
    DrainServesKnown(db, st, now);
  }

  /** The drain as written loses an item whose member or course is missing: it is gone
      from the list, no row is saved for it, and its result record keeps the SUCCESS the
      client was given; the corrected drain keeps it in the list. */
  lemma DrainLosesUnknownItem(db: Db, st: QueueState, item: QueueItem, now: int)
    requires st.queue == [item] && !Known(db, item)
    ensures var w := Drain(db, st, now);
            w.1.queue == [] && w.0 == db && w.2 == 0 && w.1.results == st.results
    ensures DrainRetaining(db, st, now).1.queue == [item]
  {
  }

  // ---------------------------------------------------------------------------
  // Status transitions

  /** `cancelEnrollment` as written: only an active enrolment can be cancelled; the row
      is cancelled with the reason, the course counter is lowered when positive, and the
      Redis count gets a plain `HINCRBY -1` (a failing Redis call is only logged). */
  function CancelEnrollment(db: Db, rs: HashStore, id: nat, reason: Option<string>, now: int,
                            redisFails: bool): (r: Change<Enrollment>)
    requires id < |db.enrollments| ==> db.enrollments[id].courseId in db.courses
    ensures id >= |db.enrollments| ==> r == Change(db, rs, Err(EnrollmentNotFoundPrefix + NatToString(id)))
    ensures id < |db.enrollments| && !IsActive(db.enrollments[id]) ==> r == Change(db, rs, Err(NotActive))
    ensures r.result.Ok? <==> id < |db.enrollments| && IsActive(db.enrollments[id])
    ensures r.result.Ok? ==>
              var e := db.enrollments[id];
              && r.result.value == Cancel(e, reason, now)
              && r.db == Db(db.members, db.courses[e.courseId := Floored(db.courses[e.courseId])],
                            db.enrollments[id := r.result.value])
              && (redisFails ==> r.rs == rs)
              && (!redisFails ==> r.rs == Put(rs, e.courseId, HIncrBy(Get(rs, e.courseId), -1)))
  {
    if id >= |db.enrollments| then Change(db, rs, Err(EnrollmentNotFoundPrefix + NatToString(id)))
    else
      var e := db.enrollments[id];
      if !IsActive(e) then Change(db, rs, Err(NotActive))
      else
        var e' := Cancel(e, reason, now);
        var db' := Db(db.members, db.courses[e.courseId := Floored(db.courses[e.courseId])], db.enrollments[id := e']);
        Change(db', if redisFails then rs else Put(rs, e.courseId, HIncrBy(Get(rs, e.courseId), -1)), Ok(e'))
  }

  /** `cancelEnrollment` with the Redis count lowered by `decreaseCourseStudents`, the
      floor decrement both Redis services already provide, instead of a raw HINCRBY. */
  function CancelEnrollmentFloored(db: Db, rs: HashStore, id: nat, reason: Option<string>, now: int,
                                   redisFails: bool): (r: Change<Enrollment>)
    requires id < |db.enrollments| ==> db.enrollments[id].courseId in db.courses
    ensures r.db == CancelEnrollment(db, rs, id, reason, now, redisFails).db
    ensures r.result == CancelEnrollment(db, rs, id, reason, now, redisFails).result
    ensures r.result.Ok? && !redisFails ==> r.rs == DecreaseCourseStudents(rs, db.enrollments[id].courseId)
    ensures r.result.Err? || redisFails ==> r.rs == rs
  {
    var w := CancelEnrollment(db, rs, id, reason, now, redisFails);
    if w.result.Ok? && !redisFails then Change(w.db, DecreaseCourseStudents(rs, db.enrollments[id].courseId), w.result)
    else w
  }

  /** A cancellation frees exactly one seat of its own course in the active count, and
      the course counter never goes below zero. */
  lemma CancelReleasesSeat(db: Db, rs: HashStore, id: nat, reason: Option<string>, now: int, redisFails: bool)
    requires id < |db.enrollments| ==> db.enrollments[id].courseId in db.courses
    ensures var r := CancelEnrollment(db, rs, id, reason, now, redisFails);
            r.result.Ok? ==>
              var cid := db.enrollments[id].courseId;
              && CountActive(r.db.enrollments, cid) == CountActive(db.enrollments, cid) - 1
              && (db.courses[cid].currentStudents >= 0 ==> r.db.courses[cid].currentStudents >= 0)
              && (UniquePairs(db.enrollments) ==> UniquePairs(r.db.enrollments))
  {
    var r := CancelEnrollment(db, rs, id, reason, now, redisFails);
    if r.result.Ok? {
      var e := db.enrollments[id];
      CountActiveUpdate(db.enrollments, id, r.result.value, e.courseId);
      UpdateKeepsPairs(db.enrollments, id, r.result.value, e.studentId, e.courseId);
    }
  }

  /** The raw decrement on a course that has no hash in Redis creates one holding only
      `currentStudents = -1`, with no TTL. The bootstrap never overwrites a present count
      and every admission script refuses a hash without `maxStudents`, so from then on
      every admission through the retry loop ends in three COURSE_NOT_FOUND replies. */
  lemma CancelStrandsUncachedCourse(db: Db, rs: HashStore, id: nat, reason: Option<string>, now: int,
                                    b: Bootstrapper, snapshot: Snapshot, s: Script)
    requires id < |db.enrollments| && db.enrollments[id].courseId in db.courses
    requires IsActive(db.enrollments[id]) && db.enrollments[id].courseId !in rs
    requires IsEnrollment(s)
    ensures var r := CancelEnrollment(db, rs, id, reason, now, false);
            var cid := db.enrollments[id].courseId;
            && r.result.Ok?
            && Get(r.rs, cid) == Absent.(currentStudents := Some(-1))
            && Stuck(s, Get(r.rs, cid))
            && var q := Retry(Sync(r.rs, cid, b, snapshot), Attempts(cid, s, b, snapshot, [], None), 0);
               |q.replies| == MaxAttempts && Grants(q.replies) == 0
  {
    var r := CancelEnrollment(db, rs, id, reason, now, false);
    var cid := db.enrollments[id].courseId;
    RetryOutcomes(r.rs, cid, s, b, snapshot);
    var q := Retry(Sync(r.rs, cid, b, snapshot), Attempts(cid, s, b, snapshot, [], None), 0);
    GrantsOfRetry(q.replies);
  }

  /** With the floor decrement a cancellation never creates a hash, never makes a count
      negative, and never leaves behind a hash that the admission scripts cannot use when
      the one before was usable or missing. */
  lemma FlooredCancelKeepsHashUsable(db: Db, rs: HashStore, id: nat, reason: Option<string>, now: int,
                                     redisFails: bool, s: Script)
    requires id < |db.enrollments| ==> db.enrollments[id].courseId in db.courses
    requires id < |db.enrollments| && !Stuck(s, Get(rs, db.enrollments[id].courseId))
    requires Get(rs, db.enrollments[id].courseId).currentStudents.Some? ==>
               Get(rs, db.enrollments[id].courseId).currentStudents.value >= 0
    ensures var r := CancelEnrollmentFloored(db, rs, id, reason, now, redisFails);
            var cid := db.enrollments[id].courseId;
            && (cid !in rs ==> Get(r.rs, cid) == Absent)
            && (Get(r.rs, cid).currentStudents.Some? ==> Get(r.rs, cid).currentStudents.value >= 0)
            && !Stuck(s, Get(r.rs, cid))
  {
    DecreaseNeverNegative(rs, db.enrollments[id].courseId);
  }

  /** `approveEnrollment`: only an APPLIED enrolment, and only while the course counter
      is below the capacity; the row becomes APPROVED and the counter goes up by one. */
  function ApproveEnrollment(db: Db, id: nat, now: int): (r: Result<Db>)
    requires id < |db.enrollments| ==> db.enrollments[id].courseId in db.courses
    ensures id >= |db.enrollments| ==> r == Err(EnrollmentNotFoundPrefix + NatToString(id))
    ensures id < |db.enrollments| && db.enrollments[id].status != Applied ==> r == Err(ApproveOnlyApplied)
    ensures (id < |db.enrollments| && db.enrollments[id].status == Applied
             && db.courses[db.enrollments[id].courseId].currentStudents
                >= db.courses[db.enrollments[id].courseId].maxStudents) ==> r == Err(CapacityFull)
    ensures r.Ok? ==>
              var e := db.enrollments[id];
              var c := db.courses[e.courseId];
              && e.status == Applied && c.currentStudents < c.maxStudents
              && r.value == Db(db.members, db.courses[e.courseId := IncreaseCurrentStudents(c)],
                               db.enrollments[id := Approve(e, now)])
  {
    if id >= |db.enrollments| then Err(EnrollmentNotFoundPrefix + NatToString(id))
    else
      var e := db.enrollments[id];
      if e.status != Applied then Err(ApproveOnlyApplied)
      else
        var c := db.courses[e.courseId];
        if c.currentStudents >= c.maxStudents then Err(CapacityFull)
        else Ok(Db(db.members, db.courses[e.courseId := IncreaseCurrentStudents(c)], db.enrollments[id := Approve(e, now)]))
  }

  /** Approval keeps the course counter within the capacity and does not change the
      active count (APPLIED and APPROVED are both active). */
  lemma ApproveKeepsCounterWithinCapacity(db: Db, id: nat, now: int)
    requires id < |db.enrollments| ==> db.enrollments[id].courseId in db.courses
    ensures var r := ApproveEnrollment(db, id, now);
            r.Ok? ==>
              var cid := db.enrollments[id].courseId;
              && r.value.courses[cid].currentStudents <= r.value.courses[cid].maxStudents
              && r.value.courses[cid].currentStudents == db.courses[cid].currentStudents + 1
              && CountActive(r.value.enrollments, cid) == CountActive(db.enrollments, cid)
  {
    var r := ApproveEnrollment(db, id, now);
    if r.Ok? {
      var e := db.enrollments[id];
      CountActiveUpdate(db.enrollments, id, Approve(e, now), e.courseId);
    }
  }

  /** `rejectEnrollment`: only an APPLIED enrolment; it becomes REJECTED with the reason. */
  function RejectEnrollment(db: Db, id: nat, reason: Option<string>, now: int): (r: Result<Db>)
    ensures id >= |db.enrollments| ==> r == Err(EnrollmentNotFoundPrefix + NatToString(id))
    ensures id < |db.enrollments| && db.enrollments[id].status != Applied ==> r == Err(RejectOnlyApplied)
    ensures r.Ok? <==> id < |db.enrollments| && db.enrollments[id].status == Applied
    ensures r.Ok? ==> r.value == db.(enrollments := db.enrollments[id := Reject(db.enrollments[id], reason, now)])
  {
    if id >= |db.enrollments| then Err(EnrollmentNotFoundPrefix + NatToString(id))
    else if db.enrollments[id].status != Applied then Err(RejectOnlyApplied)
    else Ok(db.(enrollments := db.enrollments[id := Reject(db.enrollments[id], reason, now)]))
  }

  /** A rejection takes one enrolment out of its course's active count and no other's. */
  lemma RejectFreesSeat(db: Db, id: nat, reason: Option<string>, now: int, other: nat)
    ensures var r := RejectEnrollment(db, id, reason, now);
            r.Ok? ==>
              var cid := db.enrollments[id].courseId;
              && CountActive(r.value.enrollments, cid) == CountActive(db.enrollments, cid) - 1
              && (other != cid ==> CountActive(r.value.enrollments, other) == CountActive(db.enrollments, other))
  {
    var r := RejectEnrollment(db, id, reason, now);
    if r.Ok? {
      var e := db.enrollments[id];
      CountActiveUpdate(db.enrollments, id, Reject(e, reason, now), e.courseId);
      CountActiveUpdate(db.enrollments, id, Reject(e, reason, now), other);
    }
  }

  // ---------------------------------------------------------------------------
  // Bulk admission

  datatype Failure = Failure(courseId: nat, courseName: string, message: string)

  datatype BulkResult = BulkResult(studentId: nat, totalRequested: nat, successCount: nat, failureCount: nat,
                                   successes: seq<Enrollment>, failures: seq<Failure>)

  /** The ids at the positions where `tags` holds `b`, in order. */
  function Picks(ids: seq<nat>, tags: seq<bool>, b: bool): seq<nat>
    requires |tags| == |ids|
    decreases |ids|
  {
    if |ids| == 0 then []
    else (if tags[0] == b then [ids[0]] else []) + Picks(ids[1..], tags[1..], b)
  }

  /** Every id goes to exactly one side. */
  lemma {:induction false} PicksPartition(ids: seq<nat>, tags: seq<bool>)
    requires |tags| == |ids|
    ensures |Picks(ids, tags, true)| + |Picks(ids, tags, false)| == |ids|
    ensures multiset(Picks(ids, tags, true)) + multiset(Picks(ids, tags, false)) == multiset(ids)
    decreases |ids|
  {
    if |ids| > 0 {
      PicksPartition(ids[1..], tags[1..]);
      assert ids == [ids[0]] + ids[1..];
    }
  }

  lemma PicksSnoc(ids: seq<nat>, tags: seq<bool>, id: nat, tag: bool, b: bool)
    requires |tags| == |ids|
    ensures Picks(ids + [id], tags + [tag], b) == Picks(ids, tags, b) + (if tag == b then [id] else [])
    decreases |ids|
  {
    if |ids| > 0 {
      assert (ids + [id])[1..] == ids[1..] + [id];
      assert (tags + [tag])[1..] == tags[1..] + [tag];
      PicksSnoc(ids[1..], tags[1..], id, tag, b);
    }
  }

  function EnrollmentCourse(e: Enrollment): nat { e.courseId }
  function FailureCourse(f: Failure): nat { f.courseId }

  /** The course ids of a list of successes or failures, in order. */
  function CourseIdsOf<T>(xs: seq<T>, courseOf: T -> nat): (r: seq<nat>)
    ensures |r| == |xs| && forall i | 0 <= i < |xs| :: r[i] == courseOf(xs[i])
  {
    if |xs| == 0 then [] else CourseIdsOf(xs[..|xs| - 1], courseOf) + [courseOf(xs[|xs| - 1])]
  }

  /** The name a failure reports: the course's own, or `알 수 없는 강의` for an unknown id. */
  function NameOrUnknown(db: Db, courseId: nat): string {
    if courseId in db.courses then db.courses[courseId].courseName else UnknownCourseName
  }

  /** The saved rows among the per-item outcomes, in order. */
  function Oks(outs: seq<Result<Enrollment>>): seq<Enrollment> {
    if |outs| == 0 then []
    else Oks(outs[..|outs| - 1]) + (if outs[|outs| - 1].Ok? then [outs[|outs| - 1].value] else [])
  }

  /** The failure entries the refused items make, in order, each with the item's message. */
  function FailuresOf(db: Db, ids: seq<nat>, outs: seq<Result<Enrollment>>): seq<Failure>
    requires |ids| == |outs|
  {
    if |outs| == 0 then []
    else
      var n := |outs| - 1;
      FailuresOf(db, ids[..n], outs[..n])
      + (if outs[n].Err? then [Failure(ids[n], NameOrUnknown(db, ids[n]), outs[n].msg)] else [])
  }

  /** The database the i-th item of the bulk loop runs against: the rows of the items
      before it have been saved. */
  function Before(db: Db, outs: seq<Result<Enrollment>>, i: nat): Db
    requires i <= |outs|
  {
    db.(enrollments := db.enrollments + Oks(outs[..i]))
  }

  /** What `enrollCourse` promises about one call on `cur`, with the script replies it got. */
  predicate ItemMatches(cur: Db, studentId: nat, id: nat, today: int, now: int,
                        o: Result<Enrollment>, replies: seq<Reply>)
  {
    && (!Admissible(cur, studentId, id, today) ==> o == Err(Precheck(cur, studentId, id, today).value) && replies == [])
    && (o.Ok? <==> Admissible(cur, studentId, id, today) && Grants(replies) == 1)
    && (o.Ok? ==> o.value == ApprovedRow(studentId, id, now))
  }

  /** Item i got outcome `outs[i]` and script replies `replies[i]`, as `enrollCourse` on
      the database after the earlier items would give them. */
  predicate ItemsMatch(db: Db, studentId: nat, today: int, now: int, done: seq<nat>,
                       outs: seq<Result<Enrollment>>, replies: seq<seq<Reply>>)
  {
    && |outs| == |done| && |replies| == |done|
    && forall i | 0 <= i < |done| :: ItemMatches(Before(db, outs, i), studentId, done[i], today, now, outs[i], replies[i])
  }

  /** `tags` says which items succeeded. */
  predicate TagsMatch(tags: seq<bool>, outs: seq<Result<Enrollment>>) {
    |tags| == |outs| && forall i | 0 <= i < |outs| :: tags[i] == outs[i].Ok?
  }

  /** The saved rows are approvals of this member, and each failure names its course as
      the database knows it. */
  predicate RowsShaped(db: Db, studentId: nat, now: int, successes: seq<Enrollment>, failures: seq<Failure>) {
    && (forall k | 0 <= k < |successes| :: successes[k] == ApprovedRow(studentId, successes[k].courseId, now))
    && (forall k | 0 <= k < |failures| :: failures[k].courseName == NameOrUnknown(db, failures[k].courseId))
  }

  /** The success and failure lists are the outcomes' rows and failure entries, in order. */
  predicate Listed(db: Db, done: seq<nat>, tags: seq<bool>, outs: seq<Result<Enrollment>>,
                   successes: seq<Enrollment>, failures: seq<Failure>)
  {
    && |outs| == |done| && TagsMatch(tags, outs)
    && successes == Oks(outs) && failures == FailuresOf(db, done, outs)
  }

  /** The course ids of the two lists are the tagged and the untagged items, in order. */
  predicate Picked(done: seq<nat>, tags: seq<bool>, successes: seq<Enrollment>, failures: seq<Failure>) {
    && |tags| == |done|
    && CourseIdsOf(successes, EnrollmentCourse) == Picks(done, tags, true)
    && CourseIdsOf(failures, FailureCourse) == Picks(done, tags, false)
  }

  /** The success and failure lists file the outcomes in order, and `tags` says which
      items succeeded. */
  predicate Filed(db: Db, studentId: nat, now: int, done: seq<nat>, tags: seq<bool>, outs: seq<Result<Enrollment>>,
                  successes: seq<Enrollment>, failures: seq<Failure>)
  {
    && Listed(db, done, tags, outs, successes, failures)
    && Picked(done, tags, successes, failures)
    && RowsShaped(db, studentId, now, successes, failures)
  }

  /** What the bulk loop has established after the course ids `done`, starting from `db`. */
  predicate BulkSoFar(db: Db, cur: Db, studentId: nat, today: int, now: int, done: seq<nat>, tags: seq<bool>,
                      outs: seq<Result<Enrollment>>, replies: seq<seq<Reply>>,
                      successes: seq<Enrollment>, failures: seq<Failure>)
  {
    && ItemsMatch(db, studentId, today, now, done, outs, replies)
    && Filed(db, studentId, now, done, tags, outs, successes, failures)
    && cur == db.(enrollments := db.enrollments + successes)
    && (UniquePairs(db.enrollments) ==> UniquePairs(cur.enrollments))
  }

  lemma ItemsMatchSnoc(db: Db, studentId: nat, today: int, now: int, done: seq<nat>,
                       outs: seq<Result<Enrollment>>, replies: seq<seq<Reply>>,
                       id: nat, o: Result<Enrollment>, got: seq<Reply>)
    requires ItemsMatch(db, studentId, today, now, done, outs, replies)
    requires ItemMatches(db.(enrollments := db.enrollments + Oks(outs)), studentId, id, today, now, o, got)
    ensures ItemsMatch(db, studentId, today, now, done + [id], outs + [o], replies + [got])
  {
    var outs' := outs + [o];
    assert outs'[..|outs|] == outs;
    forall i | 0 <= i < |outs|
      ensures Before(db, outs', i) == Before(db, outs, i)
    {
      assert outs'[..i] == outs[..i];
    }
  }

  lemma TagsMatchSnoc(tags: seq<bool>, outs: seq<Result<Enrollment>>, o: Result<Enrollment>)
    requires TagsMatch(tags, outs)
    ensures TagsMatch(tags + [o.Ok?], outs + [o])
  {
  }

  lemma ListsSnoc(db: Db, done: seq<nat>, outs: seq<Result<Enrollment>>, id: nat, o: Result<Enrollment>)
    requires |outs| == |done|
    ensures Oks(outs + [o]) == Oks(outs) + (if o.Ok? then [o.value] else [])
    ensures FailuresOf(db, done + [id], outs + [o])
            == FailuresOf(db, done, outs) + (if o.Err? then [Failure(id, NameOrUnknown(db, id), o.msg)] else [])
  {
    assert (outs + [o])[..|outs|] == outs;
    assert (done + [id])[..|done|] == done;
  }

  lemma CourseIdsSnoc<T>(xs: seq<T>, courseOf: T -> nat, extra: seq<T>)
    requires |extra| <= 1
    ensures CourseIdsOf(xs + extra, courseOf)
            == CourseIdsOf(xs, courseOf) + (if |extra| == 1 then [courseOf(extra[0])] else [])
  {
    if |extra| == 0 {
      assert xs + extra == xs;
    } else {
      assert (xs + extra)[..|xs|] == xs;
    }
  }

  lemma RowsShapedSnoc(db: Db, studentId: nat, now: int, successes: seq<Enrollment>, failures: seq<Failure>,
                       oks: seq<Enrollment>, errs: seq<Failure>)
    requires RowsShaped(db, studentId, now, successes, failures) && RowsShaped(db, studentId, now, oks, errs)
    ensures RowsShaped(db, studentId, now, successes + oks, failures + errs)
  {
  }

  lemma ListedSnoc(db: Db, done: seq<nat>, tags: seq<bool>, outs: seq<Result<Enrollment>>,
                   successes: seq<Enrollment>, failures: seq<Failure>, id: nat, o: Result<Enrollment>)
    requires Listed(db, done, tags, outs, successes, failures)
    ensures Listed(db, done + [id], tags + [o.Ok?], outs + [o],
                   successes + (if o.Ok? then [o.value] else []),
                   failures + (if o.Err? then [Failure(id, NameOrUnknown(db, id), o.msg)] else []))
  {
    TagsMatchSnoc(tags, outs, o);
    ListsSnoc(db, done, outs, id, o);
  }

  lemma PickedSnoc(done: seq<nat>, tags: seq<bool>, successes: seq<Enrollment>, failures: seq<Failure>,
                   id: nat, oks: seq<Enrollment>, errs: seq<Failure>)
    requires Picked(done, tags, successes, failures)
    requires (|oks| == 1 && |errs| == 0 && oks[0].courseId == id) || (|oks| == 0 && |errs| == 1 && errs[0].courseId == id)
    ensures Picked(done + [id], tags + [|oks| == 1], successes + oks, failures + errs)
  {
    PicksSnoc(done, tags, id, |oks| == 1, true);
    PicksSnoc(done, tags, id, |oks| == 1, false);
    CourseIdsSnoc(successes, EnrollmentCourse, oks);
    CourseIdsSnoc(failures, FailureCourse, errs);
  }

  lemma FiledSnoc(db: Db, studentId: nat, now: int, done: seq<nat>, tags: seq<bool>, outs: seq<Result<Enrollment>>,
                  successes: seq<Enrollment>, failures: seq<Failure>, id: nat, o: Result<Enrollment>)
    requires Filed(db, studentId, now, done, tags, outs, successes, failures)
    requires o.Ok? ==> o.value == ApprovedRow(studentId, id, now)
    ensures Filed(db, studentId, now, done + [id], tags + [o.Ok?], outs + [o],
                  successes + (if o.Ok? then [o.value] else []),
                  failures + (if o.Err? then [Failure(id, NameOrUnknown(db, id), o.msg)] else []))
  {
    var oks: seq<Enrollment> := if o.Ok? then [o.value] else [];
    var errs: seq<Failure> := if o.Err? then [Failure(id, NameOrUnknown(db, id), o.msg)] else [];
    ListedSnoc(db, done, tags, outs, successes, failures, id, o);
    PickedSnoc(done, tags, successes, failures, id, oks, errs);
    assert RowsShaped(db, studentId, now, oks, errs);
    RowsShapedSnoc(db, studentId, now, successes, failures, oks, errs);
  }

  /** The bulk invariant survives one more item whose outcome is that of `enrollCourse`. */
  lemma BulkSoFarSnoc(db: Db, cur: Db, cur': Db, studentId: nat, today: int, now: int, done: seq<nat>, tags: seq<bool>,
                      outs: seq<Result<Enrollment>>, replies: seq<seq<Reply>>,
                      successes: seq<Enrollment>, failures: seq<Failure>,
                      id: nat, o: Result<Enrollment>, got: seq<Reply>)
    requires BulkSoFar(db, cur, studentId, today, now, done, tags, outs, replies, successes, failures)
    requires ItemMatches(cur, studentId, id, today, now, o, got)
    requires o.Err? ==> cur' == cur
    requires o.Ok? ==> cur' == cur.(enrollments := cur.enrollments + [o.value])
    requires UniquePairs(cur.enrollments) ==> UniquePairs(cur'.enrollments)
    ensures BulkSoFar(db, cur', studentId, today, now, done + [id], tags + [o.Ok?], outs + [o], replies + [got],
                      successes + (if o.Ok? then [o.value] else []),
                      failures + (if o.Err? then [Failure(id, NameOrUnknown(db, id), o.msg)] else []))
  {
    assert cur == db.(enrollments := db.enrollments + Oks(outs));
    ItemsMatchSnoc(db, studentId, today, now, done, outs, replies, id, o, got);
    FiledSnoc(db, studentId, now, done, tags, outs, successes, failures, id, o);
    SavedSnoc(db, cur, cur', successes, o);
  }

  lemma SavedSnoc(db: Db, cur: Db, cur': Db, successes: seq<Enrollment>, o: Result<Enrollment>)
    requires cur == db.(enrollments := db.enrollments + successes)
    requires o.Err? ==> cur' == cur
    requires o.Ok? ==> cur' == cur.(enrollments := cur.enrollments + [o.value])
    ensures cur' == db.(enrollments := db.enrollments + (successes + (if o.Ok? then [o.value] else [])))
  {
    if o.Ok? {
      assert cur.enrollments + [o.value] == db.enrollments + (successes + [o.value]);
    } else {
      assert successes + [] == successes;
    }
  }

  /** One iteration of the bulk loop: admit one more course id and file the outcome.
      `done'` is `done` with the new id. */
  method EnrollNext(db: Db, cur: Db, rs: HashStore, studentId: nat, id: nat, today: int, now: int,
                    done: seq<nat>, done': seq<nat>, tags: seq<bool>, outs: seq<Result<Enrollment>>,
                    replies: seq<seq<Reply>>, successes: seq<Enrollment>, failures: seq<Failure>)
    returns (cur': Db, rs': HashStore, tags': seq<bool>, outs': seq<Result<Enrollment>>,
             replies': seq<seq<Reply>>, successes': seq<Enrollment>, failures': seq<Failure>)
    requires BulkSoFar(db, cur, studentId, today, now, done, tags, outs, replies, successes, failures)
    requires done' == done + [id]
    ensures BulkSoFar(db, cur', studentId, today, now, done', tags', outs', replies', successes', failures')
    ensures |outs'| == |outs| + 1 && outs'[..|outs|] == outs
    ensures ItemMatches(cur, studentId, id, today, now, outs'[|outs|], replies'[|outs|])
  {
    var got, one;
    cur', rs', got, one := EnrollCourse(cur, rs, studentId, id, today, now, [], None);
    assert ItemMatches(cur, studentId, id, today, now, one, got);
    BulkSoFarSnoc(db, cur, cur', studentId, today, now, done, tags, outs, replies, successes, failures, id, one, got);
    tags', outs', replies' := tags + [one.Ok?], outs + [one], replies + [got];
    successes' := successes + (if one.Ok? then [one.value] else []);
    failures' := failures + (if one.Err? then [Failure(id, NameOrUnknown(db, id), one.msg)] else []);
    assert outs'[..|outs|] == outs;
  }

  /** Read item by item, the bulk outcome is that of `enrollCourse` on the database after
      the earlier items: an item succeeds exactly when it passes the checks there and the
      script grants it a seat, an item refused by the checks carries their message, and a
      failure entry carries its item's message. */
  lemma BulkItemOutcome(db: Db, cur: Db, studentId: nat, today: int, now: int, done: seq<nat>, tags: seq<bool>,
                        outs: seq<Result<Enrollment>>, replies: seq<seq<Reply>>,
                        successes: seq<Enrollment>, failures: seq<Failure>, i: nat)
    requires BulkSoFar(db, cur, studentId, today, now, done, tags, outs, replies, successes, failures)
    requires i < |done|
    ensures tags[i] <==> Admissible(Before(db, outs, i), studentId, done[i], today) && Grants(replies[i]) == 1
    ensures !Admissible(Before(db, outs, i), studentId, done[i], today) ==>
              !tags[i] && outs[i] == Err(Precheck(Before(db, outs, i), studentId, done[i], today).value)
    ensures !tags[i] ==> Failure(done[i], NameOrUnknown(db, done[i]), outs[i].msg) in failures
  {
    assert ItemMatches(Before(db, outs, i), studentId, done[i], today, now, outs[i], replies[i]);
    if !tags[i] {
      FailuresOfContains(db, done, outs, i);
    }
  }

  lemma {:induction false} FailuresOfContains(db: Db, ids: seq<nat>, outs: seq<Result<Enrollment>>, i: nat)
    requires |ids| == |outs| && i < |outs| && outs[i].Err?
    ensures Failure(ids[i], NameOrUnknown(db, ids[i]), outs[i].msg) in FailuresOf(db, ids, outs)
    decreases |outs|
  {
    var n := |outs| - 1;
    if i < n {
      FailuresOfContains(db, ids[..n], outs[..n], i);
    }
  }

  /** The loop of `enrollMultipleCourses`: every course id in order through `enrollCourse`. */
  method EnrollEach(db: Db, rs: HashStore, studentId: nat, courseIds: seq<nat>, today: int, now: int)
    returns (db': Db, rs': HashStore, tags: seq<bool>, outs: seq<Result<Enrollment>>, replies: seq<seq<Reply>>,
             successes: seq<Enrollment>, failures: seq<Failure>)
    ensures BulkSoFar(db, db', studentId, today, now, courseIds, tags, outs, replies, successes, failures)
  {
    db', rs', tags, outs, replies, successes, failures := db, rs, [], [], [], [], [];
    var i := 0;
    while i < |courseIds|
      invariant 0 <= i <= |courseIds|
      invariant BulkSoFar(db, db', studentId, today, now, courseIds[..i], tags, outs, replies, successes, failures)
    {
      db', rs', tags, outs, replies, successes, failures :=
        EnrollNext(db, db', rs', studentId, courseIds[i], today, now, courseIds[..i], courseIds[..i + 1],
                   tags, outs, replies, successes, failures);
      i := i + 1;
    }
    assert courseIds[..i] == courseIds;
  }

  /** `enrollMultipleCourses`: an empty list is refused; otherwise every course id is run
      through `enrollCourse` in order, and lands in the success list or, with the course
      name (or `알 수 없는 강의` when the course does not exist) and the error message, in
      the failure list. A failure does not undo earlier successes. Each call runs without
      other clients' steps and without a thrown script. `outs` and `replies` are the
      per-item outcomes and script replies. */
  method EnrollMultipleCourses(db: Db, rs: HashStore, studentId: nat, courseIds: seq<nat>, today: int, now: int)
    returns (db': Db, rs': HashStore, r: Result<BulkResult>, tags: seq<bool>,
             outs: seq<Result<Enrollment>>, replies: seq<seq<Reply>>)
    ensures |courseIds| == 0 ==> db' == db && rs' == rs && r == Err(EmptyCourseList)
    ensures |courseIds| > 0 ==> r.Ok?
    ensures r.Ok? ==>
              var b := r.value;
              && b.studentId == studentId && b.totalRequested == |courseIds|
              && b.successCount == |b.successes| && b.failureCount == |b.failures|
              && b.successCount + b.failureCount == b.totalRequested
              && BulkSoFar(db, db', studentId, today, now, courseIds, tags, outs, replies, b.successes, b.failures)
    ensures UniquePairs(db.enrollments) ==> UniquePairs(db'.enrollments)
  {
    if |courseIds| == 0 {
      return db, rs, Err(EmptyCourseList), [], [], [];
    }
    var successes, failures;
    db', rs', tags, outs, replies, successes, failures := EnrollEach(db, rs, studentId, courseIds, today, now);
    PicksPartition(courseIds, tags);
    r := Ok(BulkResult(studentId, |courseIds|, |successes|, |failures|, successes, failures));
  }
}
