/** `RedisConcurrencyService`: the synchronous admission path. It bootstraps the course
    hash from the active-enrolment count (with a 2-minute TTL), runs the admission
    script with up to three attempts, and turns the script's status into a Korean message. */
module RedisConcurrency {
  import opened Wrappers
  import opened Courses
  import opened CapacityStore
  import opened AdmissionGate

  /** `syncCourseToRedisIfNeeded` of this service: the hash of an existing course whose
      count field is missing is seeded from the active-enrolment count, gets the course's
      capacity and identity, and a 2-minute TTL; anything else is left alone. */
  lemma SyncSeedsActiveCount(rs: HashStore, courseId: nat, db: Snapshot)
    ensures var r := Sync(rs, courseId, ConcurrencyServiceSync, db);
            && (db.course.Some? && Get(rs, courseId).currentStudents.None? ==>
                  var h := Get(r, courseId);
                  && h.currentStudents == Some(db.activeCount as int)
                  && h.maxStudents == Some(db.course.value.maxStudents)
                  && h.courseId == Some(courseId)
                  && h.courseName == Some(db.course.value.courseName)
                  && h.instructorId == Some(db.course.value.instructorId)
                  && h.ttl == Some(CacheTtlMinutes)
                  && WellFormed(h) == (db.activeCount <= db.course.value.maxStudents))
            && (db.course.None? || Get(rs, courseId).currentStudents.Some? ==> r == rs)
  {
  }

  /** `executeEnrollmentLuaScript`: the retry loop around this service's admission script. */
  method ExecuteEnrollmentLuaScript(rs0: HashStore, courseId: nat, db: Snapshot,
                                    interleaved: seq<seq<Step>>, fault: Option<nat>)
    returns (rs: HashStore, replies: seq<Reply>, out: Outcome)
    ensures |replies| <= MaxAttempts && Grants(replies) <= 1
    ensures out.success <==> Grants(replies) == 1
    ensures out.success ==>
              out.message == "SUCCESS"
              && Get(rs, courseId).currentStudents == out.newCount
              && out.newCount.Some? && Get(rs, courseId).maxStudents.Some?
              && out.newCount.value <= Get(rs, courseId).maxStudents.value
    ensures fault.Some? && fault.value == 0 ==> out == ErrorOutcome
    ensures interleaved == [] && fault.None? && courseId !in rs0 && db.course.Some? ==>
              var max := db.course.value.maxStudents;
              && (db.activeCount < max ==>
                    out == Outcome(true, "SUCCESS", Some(db.activeCount + 1))
                    && Get(rs, courseId).ttl == Some(CacheTtlMinutes))
              && (db.activeCount >= max ==> out == Outcome(false, "CAPACITY_EXCEEDED", Some(db.activeCount as int)))
    ensures interleaved == [] && fault.None? && courseId !in rs0 && db.course.None? ==>
              rs == rs0 && |replies| == MaxAttempts && out == Outcome(false, "COURSE_NOT_FOUND", Some(0))
  {
    rs, replies, out := RunWithRetry(rs0, courseId, DirectEnroll, ConcurrencyServiceSync, db, interleaved, fault);
  }

  const UnknownErrorPrefix: string := "알 수 없는 오류가 발생했습니다: "

  /** `convertRedisMessageToKorean`. */
  function ToKorean(message: string): (k: string)
    ensures message == "SUCCESS" ==> k == "수강신청이 완료되었습니다"
    ensures message == "CAPACITY_EXCEEDED" ==> k == "강의 정원이 초과되었습니다"
    ensures message == "COURSE_NOT_FOUND" ==> k == "강의 정보를 찾을 수 없습니다"
    ensures message == "SCRIPT_EXECUTION_ERROR" ==> k == "시스템 오류가 발생했습니다"
    ensures !IsKnownMessage(message) ==> k == UnknownErrorPrefix + message
  {
    match message
    case "SUCCESS" => "수강신청이 완료되었습니다"
    case "CAPACITY_EXCEEDED" => "강의 정원이 초과되었습니다"
    case "COURSE_NOT_FOUND" => "강의 정보를 찾을 수 없습니다"
    case "SCRIPT_EXECUTION_ERROR" => "시스템 오류가 발생했습니다"
    case _ => UnknownErrorPrefix + message
  }

  predicate IsKnownMessage(message: string) {
    message in {"SUCCESS", "CAPACITY_EXCEEDED", "COURSE_NOT_FOUND", "SCRIPT_EXECUTION_ERROR"}
  }

  /** No two messages are translated alike, so the Korean text still tells every status
      apart; and only unknown messages get the generic prefix. */
  lemma ToKoreanInjective(a: string, b: string)
    ensures ToKorean(a) == ToKorean(b) ==> a == b
    ensures IsKnownMessage(a) <==> !(|UnknownErrorPrefix| <= |ToKorean(a)| && ToKorean(a)[..|UnknownErrorPrefix|] == UnknownErrorPrefix)
  {
    if !IsKnownMessage(a) && !IsKnownMessage(b) && ToKorean(a) == ToKorean(b) {
      assert a == ToKorean(a)[|UnknownErrorPrefix|..];
    }
    if !IsKnownMessage(a) {
      assert ToKorean(a)[..|UnknownErrorPrefix|] == UnknownErrorPrefix;
    }
  }

  /** Every status the retry loop can report has its own fixed translation. */
  lemma OutcomeMessagesAreKnown(r: Reply)
    requires r.code != NoStudentsToDecrease
    ensures IsKnownMessage(FromReply(r).message) && IsKnownMessage(ErrorOutcome.message)
  {
  }
}
