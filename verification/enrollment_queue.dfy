/** `EnrollmentQueueService`: admission and cancellation through the queue service's
    scripts, the per-request result records, the FIFO list of admitted requests waiting
    for their database insert, and the status lookups. */
module EnrollmentQueue {
  import opened Wrappers
  import opened CapacityStore
  import opened AdmissionGate

  /** One entry of the `enrollment:queue` list. Every entry is written with status
      PENDING_DB_INSERT, which nothing reads, so it is not a field here. */
  datatype QueueItem = QueueItem(queueId: string, studentId: nat, courseId: nat)

  /** The record stored under `enrollment:result:<queueId>`. Admission writes it as a JSON
      string, cancellation as a hash; the difference matters to `markDbQueueItemCompleted`,
      which reads only string values. */
  datatype ResultRecord =
    | EnrollResult(studentId: nat, courseId: nat, success: bool, message: string,
                   newCount: Option<int>, status: string)
    | CancelResult(studentId: nat, courseId: nat, success: bool, message: string,
                   newCount: Option<int>, reason: Option<string>, status: string)

  /** The Redis state the queue service works on. */
  datatype QueueState = QueueState(courses: HashStore, results: map<string, ResultRecord>, queue: seq<QueueItem>)

  const StatusSuccess: string := "SUCCESS"
  const StatusFailed: string := "FAILED"
  const StatusError: string := "ERROR"
  const StatusDbCompleted: string := "DB_COMPLETED"
  const StatusCancelProcessed: string := "CANCEL_PROCESSED"
  const StatusCancelFailed: string := "CANCEL_FAILED"
  const StatusNotFound: string := "NOT_FOUND"

  const ProcessingErrorPrefix: string := "처리 중 오류 발생: "
  const CancelFailedPrefix: string := "CANCEL_FAILED: "

  /** `executeEnrollmentLuaScript` of this service: the retry loop around the queue
      service's admission script (which also records the student in the hash), with the
      hash seeded from the course's counter column. */
  method ExecuteEnrollmentLuaScript(rs0: HashStore, studentId: nat, courseId: nat, db: Snapshot,
                                    interleaved: seq<seq<Step>>, fault: Option<nat>)
    returns (rs: HashStore, replies: seq<Reply>, out: Outcome)
    ensures |replies| <= MaxAttempts && Grants(replies) <= 1
    ensures out.success <==> Grants(replies) == 1
    ensures out.success ==>
              out.message == "SUCCESS" && studentId in Get(rs, courseId).students
              && Get(rs, courseId).currentStudents == out.newCount
              && out.newCount.Some? && Get(rs, courseId).maxStudents.Some?
              && out.newCount.value <= Get(rs, courseId).maxStudents.value
    ensures interleaved == [] && fault.None? && courseId !in rs0 && db.course.Some? ==>
              var c := db.course.value;
              && (c.currentStudents < c.maxStudents ==>
                    out == Outcome(true, "SUCCESS", Some(c.currentStudents + 1))
                    && Get(rs, courseId).ttl.None?)
              && (c.currentStudents >= c.maxStudents ==>
                    out == Outcome(false, "CAPACITY_EXCEEDED", Some(c.currentStudents)))
  {
    rs, replies, out := RunWithRetry(rs0, courseId, QueuedEnroll(studentId), QueueServiceSync, db, interleaved, fault);
  }

  /** Which write of the admission path throws after the script has answered: the
      result record, or the push of the request onto the list. */
  datatype StoreFault = NoStoreFault | ResultWriteFails | PushFails

  /** The record an admission request leaves is about that request, and its status
      agrees with its flag. */
  predicate EnrollRecordFits(r: ResultRecord, studentId: nat, courseId: nat, errorText: string) {
    && r.EnrollResult? && r.studentId == studentId && r.courseId == courseId
    && r.status in {StatusSuccess, StatusFailed, StatusError}
    && (r.status == StatusSuccess <==> r.success)
    && (r.status == StatusError ==> r.message == ProcessingErrorPrefix + errorText && r.newCount.None?)
  }

  /** `enqueueEnrollmentRequest`. `queueId` is the fresh UUID the method draws. `fault`
      makes the k-th script run throw. `storeFault` makes a write of the request path throw
      after the script has answered, and `errorWriteFails` makes the catch block's own
      write of the ERROR record throw too; that second exception is swallowed. `errorText`
      is the message of the exception the catch block handles. The queue id is always
      returned. */
  method EnqueueEnrollmentRequest(st: QueueState, queueId: string, studentId: nat, courseId: nat,
                                  db: Snapshot, interleaved: seq<seq<Step>>, fault: Option<nat>,
                                  storeFault: StoreFault, errorWriteFails: bool, errorText: string)
    returns (st': QueueState, replies: seq<Reply>, id: string)
    requires queueId !in st.results
    ensures id == queueId
    ensures |replies| <= MaxAttempts && Grants(replies) <= 1
    ensures queueId in st'.results ==>
              st'.results == st.results[queueId := st'.results[queueId]]
              && EnrollRecordFits(st'.results[queueId], studentId, courseId, errorText)
    ensures queueId !in st'.results ==> st'.results == st.results && errorWriteFails
    ensures !errorWriteFails ==> queueId in st'.results
    // the list grows by this request exactly on an undisturbed grant
    ensures st'.queue == st.queue + [QueueItem(queueId, studentId, courseId)] || st'.queue == st.queue
    ensures st'.queue != st.queue <==> Grants(replies) == 1 && storeFault == NoStoreFault
    ensures st'.queue != st.queue ==>
              queueId in st'.results && st'.results[queueId].status == StatusSuccess
              && st'.results[queueId].newCount == Get(st'.courses, courseId).currentStudents
    ensures queueId in st'.results && st'.results[queueId].status == StatusSuccess ==> Grants(replies) == 1
    ensures queueId in st'.results && st'.results[queueId].status == StatusFailed ==>
              Grants(replies) == 0 && storeFault != ResultWriteFails
    ensures fault.None? && storeFault == NoStoreFault ==>
              queueId in st'.results && st'.results[queueId].status != StatusError
    // a granted seat is taken in the hash, whatever happens to the bookkeeping
    ensures Grants(replies) == 1 ==>
              replies[|replies| - 1].flag == 1
              && GrantRecorded(QueuedEnroll(studentId), Get(st'.courses, courseId), FromReply(replies[|replies| - 1]))
    // ERROR after a grant: the seat stays consumed in Redis, nothing is queued
    ensures Grants(replies) == 1 && storeFault != NoStoreFault ==>
              && st'.queue == st.queue && studentId in Get(st'.courses, courseId).students
              && (!errorWriteFails ==> queueId in st'.results && st'.results[queueId].status == StatusError)
              && (errorWriteFails && storeFault == PushFails ==>
                    queueId in st'.results && st'.results[queueId].status == StatusSuccess)
    // undisturbed against a usable hash: one script run decides, by the free seats
    ensures interleaved == [] && fault.None? && !NotFoundFor(QueuedEnroll(studentId), Get(st.courses, courseId)) ==>
              var h := Get(st.courses, courseId);
              var run := RunScript(QueuedEnroll(studentId), h);
              && replies == [run.1] && st'.courses == Put(st.courses, courseId, run.0)
              && (Grants(replies) == 1 <==> h.currentStudents.value < h.maxStudents.value)
  {
    var rs, out;
    rs, replies, out := RunWithRetry(st.courses, courseId, QueuedEnroll(studentId), QueueServiceSync, db, interleaved, fault);
    id := queueId;
    if interleaved == [] && fault.None? && !NotFoundFor(QueuedEnroll(studentId), Get(st.courses, courseId)) {
      RetryOnUsableHash(st.courses, courseId, QueuedEnroll(studentId), QueueServiceSync, db);
      RunScriptContract(QueuedEnroll(studentId), Get(st.courses, courseId));
    }
    var errorRecord := EnrollResult(studentId, courseId, false, ProcessingErrorPrefix + errorText, None, StatusError);
    if out == ErrorOutcome || storeFault == ResultWriteFails {
      var results := if errorWriteFails then st.results else st.results[queueId := errorRecord];
      st' := QueueState(rs, results, st.queue);
    } else {
      var status := if out.success then StatusSuccess else StatusFailed;
      var record := EnrollResult(studentId, courseId, out.success, out.message, out.newCount, status);
      if out.success && storeFault == PushFails {
        var kept := if errorWriteFails then record else errorRecord;
        st' := QueueState(rs, st.results[queueId := kept], st.queue);
      } else {
        var queue := if out.success then st.queue + [QueueItem(queueId, studentId, courseId)] else st.queue;
        st' := QueueState(rs, st.results[queueId := record], queue);
      }
    }
  }

  /** `enqueueCancelRequest`: the retry loop around the cancellation script. The outcome
      is recorded as CANCEL_PROCESSED whatever the script answered. When the script or
      the result write throws (`fault`, `storeFault`), the catch block records
      CANCEL_FAILED instead. Unlike the admission path, that catch block's own write is
      not guarded: when it throws too (`errorWriteFails`), the exception, with message
      `writeErrorText`, escapes and no queue id is returned. Nothing is queued. */
  method EnqueueCancelRequest(st: QueueState, queueId: string, studentId: nat, courseId: nat,
                              reason: Option<string>, db: Snapshot, interleaved: seq<seq<Step>>,
                              fault: Option<nat>, storeFault: bool, errorWriteFails: bool,
                              errorText: string, writeErrorText: string)
    returns (st': QueueState, replies: seq<Reply>, r: Result<string>)
    requires queueId !in st.results
    ensures st'.queue == st.queue
    ensures |replies| <= MaxAttempts && Grants(replies) <= 1
    ensures r.Err? <==> queueId !in st'.results
    ensures r.Err? ==> r == Err(writeErrorText) && st'.results == st.results && errorWriteFails
                       && (storeFault || fault == Some(|replies|))
    ensures r.Ok? ==>
              var rec := st'.results[queueId];
              && r.value == queueId && st'.results == st.results[queueId := rec]
              && rec.CancelResult? && rec.studentId == studentId && rec.courseId == courseId && rec.reason == reason
              && rec.status in {StatusCancelProcessed, StatusCancelFailed}
              && (rec.success ==> rec.status == StatusCancelProcessed && Grants(replies) == 1
                                  && rec.newCount == Get(st'.courses, courseId).currentStudents)
              && (rec.status == StatusCancelFailed ==>
                    (storeFault || fault == Some(|replies|)) && rec.message == CancelFailedPrefix + errorText)
    ensures fault.None? && !storeFault ==>
              r == Ok(queueId) && st'.results[queueId].status == StatusCancelProcessed
              && (st'.results[queueId].success <==> Grants(replies) == 1)
    // a released seat is released in the hash, whatever happens to the bookkeeping
    ensures Grants(replies) == 1 ==>
              replies[|replies| - 1].flag == 1
              && GrantRecorded(Cancellation(studentId), Get(st'.courses, courseId), FromReply(replies[|replies| - 1]))
    // undisturbed against a usable hash: one script run decides, by the enrolled count
    ensures interleaved == [] && fault.None? && !NotFoundFor(Cancellation(studentId), Get(st.courses, courseId)) ==>
              var h := Get(st.courses, courseId);
              var run := RunScript(Cancellation(studentId), h);
              && replies == [run.1] && st'.courses == Put(st.courses, courseId, run.0)
              && (Grants(replies) == 1 <==> h.currentStudents.value > 0)
  {
    var rs, out;
    rs, replies, out := RunWithRetry(st.courses, courseId, Cancellation(studentId), QueueServiceSync, db, interleaved, fault);
    if interleaved == [] && fault.None? && !NotFoundFor(Cancellation(studentId), Get(st.courses, courseId)) {
      RetryOnUsableHash(st.courses, courseId, Cancellation(studentId), QueueServiceSync, db);
      RunScriptContract(Cancellation(studentId), Get(st.courses, courseId));
    }
    if out == ErrorOutcome || storeFault {
      if errorWriteFails {
        st', r := QueueState(rs, st.results, st.queue), Err(writeErrorText);
      } else {
        var failed := CancelResult(studentId, courseId, false, CancelFailedPrefix + errorText, None, reason, StatusCancelFailed);
        st', r := QueueState(rs, st.results[queueId := failed], st.queue), Ok(queueId);
      }
    } else {
      var record := CancelResult(studentId, courseId, out.success, out.message, out.newCount, reason, StatusCancelProcessed);
      st', r := QueueState(rs, st.results[queueId := record], st.queue), Ok(queueId);
    }
  }

  /** `getNextDbQueueItem`: take the head of the list; an empty list yields nothing. */
  function Pop(st: QueueState): (r: (QueueState, Option<QueueItem>))
    ensures |st.queue| == 0 ==> r == (st, None)
    ensures |st.queue| > 0 ==>
              r.1 == Some(st.queue[0]) && r.0 == st.(queue := st.queue[1..])
              && [st.queue[0]] + r.0.queue == st.queue
  {
    if |st.queue| == 0 then (st, None) else (st.(queue := st.queue[1..]), Some(st.queue[0]))
  }

  /** Two records describe the same request with the same answer, whatever their status. */
  predicate SameRequest(a: ResultRecord, b: ResultRecord) {
    a.EnrollResult? == b.EnrollResult? && a.studentId == b.studentId && a.courseId == b.courseId
    && a.success == b.success && a.message == b.message && a.newCount == b.newCount
  }

  /** `markDbQueueItemCompleted`: an admission result record becomes DB_COMPLETED; a
      missing record, or a cancellation record (a hash, which the string read rejects),
      is left as it is. */
  function MarkCompleted(st: QueueState, queueId: string): (r: QueueState)
    ensures r.courses == st.courses && r.queue == st.queue
    ensures queueId in st.results && st.results[queueId].EnrollResult? ==>
              r.results.Keys == st.results.Keys
              && r.results[queueId].EnrollResult? && r.results[queueId].status == StatusDbCompleted
              && SameRequest(r.results[queueId], st.results[queueId])
              && forall q | q in st.results && q != queueId :: r.results[q] == st.results[q]
    ensures !(queueId in st.results && st.results[queueId].EnrollResult?) ==> r == st
  {
    if queueId in st.results && st.results[queueId].EnrollResult? then
      var e := st.results[queueId];
      st.(results := st.results[queueId := EnrollResult(e.studentId, e.courseId, e.success, e.message, e.newCount, StatusDbCompleted)])
    else st
  }

  /** `getEnrollmentStatus`: the stored status, or NOT_FOUND when there is no record. Every
      record this service writes carries a status, so the UNKNOWN answer for a record
      without one does not arise. */
  function GetStatus(st: QueueState, queueId: string): (s: string)
    ensures queueId !in st.results ==> s == StatusNotFound
    ensures KnownStatuses(st) ==> (queueId in st.results <==> s != StatusNotFound)
  {
    if queueId in st.results then st.results[queueId].status else StatusNotFound
  }

  /** Every status any writer stores differs from NOT_FOUND. */
  predicate KnownStatuses(st: QueueState) {
    forall q | q in st.results ::
      st.results[q].status in {StatusSuccess, StatusFailed, StatusError, StatusDbCompleted,
                               StatusCancelProcessed, StatusCancelFailed}
  }

  /** Marking completion is idempotent and moves an admission record to DB_COMPLETED;
      the status lookup then reports exactly that. */
  lemma MarkCompletedSemantics(st: QueueState, queueId: string)
    requires KnownStatuses(st)
    ensures MarkCompleted(MarkCompleted(st, queueId), queueId) == MarkCompleted(st, queueId)
    ensures KnownStatuses(MarkCompleted(st, queueId))
    ensures GetStatus(MarkCompleted(st, queueId), queueId) == StatusDbCompleted <==>
              queueId in st.results && (st.results[queueId].EnrollResult? || st.results[queueId].status == StatusDbCompleted)
    ensures forall q :: q != queueId ==> GetStatus(MarkCompleted(st, queueId), q) == GetStatus(st, q)
  {
  }

  /** Popping `n` times: the items in the order they came out. */
  function PopMany(st: QueueState, n: nat): (r: (QueueState, seq<QueueItem>))
    decreases n
  {
    if n == 0 then (st, [])
    else
      var first := Pop(st);
      if first.1.None? then (first.0, [])
      else
        var rest := PopMany(first.0, n - 1);
        (rest.0, [first.1.value] + rest.1)
  }

  /** First in, first out: requests appended by successive admissions come out of the
      list in the order they were appended, after everything that was already waiting. */
  lemma {:induction false} FifoOrder(st: QueueState, added: seq<QueueItem>)
    ensures var st1 := st.(queue := st.queue + added);
            var out := PopMany(st1, |st1.queue|);
            out.1 == st.queue + added && out.0.queue == []
            && out.0.courses == st.courses && out.0.results == st.results
  {
    DrainAll(st.(queue := st.queue + added));
  }

  lemma {:induction false} DrainAll(st: QueueState)
    ensures PopMany(st, |st.queue|).1 == st.queue
    ensures PopMany(st, |st.queue|).0 == st.(queue := [])
    decreases |st.queue|
  {
    if |st.queue| > 0 {
      var first := Pop(st);
      DrainAll(first.0);
    }
  }

}
