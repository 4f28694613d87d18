# Seat admission and cache consistency in wb-edutask

This project models, in Dafny, how the wb-edutask course-enrolment system decides who gets a seat.
It also models how the system keeps its Redis copy of each course's head count in step with the database.
The main invariant is that no sequence of admissions, in any interleaving, grants more seats than a course has.
The project proves that invariant along with the properties around it.

## What is modelled

**Redis side**
- **The course hash `course:<id>`** (`CapacityStore`).
  - The hash has the fields `currentStudents`, `maxStudents`, `courseId`, `courseName`, `instructorId`, the `student_<id>` markers, and a time to live.
  - The single-command operations on it are HINCRBY, expiry and the read-then-write `decreaseCourseStudents`.
- **The three Lua scripts** (`AdmissionGate`).
  - Redis runs each script as one indivisible step, so each is modelled as one pure transition.
  - The scripts are:
    - the admission script of `RedisConcurrencyService`;
    - the admission script of `EnrollmentQueueService`, which also records `student_<id>`;
    - the cancellation script of `EnrollmentQueueService`.
  - The same module covers:
    - the two `syncCourseToRedisIfNeeded` bootstrappers;
    - the bounded three-attempt retry loop;
    - arbitrary interleavings of whole steps from other clients.
- **The two Redis services** (`RedisConcurrency`, `EnrollmentQueue`).
  - Their entry points: the retry loops, enqueue and cancel requests, result records, the FIFO admission list, completion marking and the status lookup.
  - The status-to-Korean message translation.

**Database side**
- **The enrolment status machine** (`Enrollments`).
- **The course entity** (`Courses`).
- **The repository counts** (`EnrollmentRepository`), modelled as pure functions over the sequence of rows. A row's id is its index.

**Services**
- **`EnrollmentService`** (`EnrollmentService`): validation, synchronous admission, the queue paths, the write-behind drain `processDbQueue`, cancel/approve/reject and bulk admission.
- **`CourseStatsScheduler`** (`CourseStats`): the token-owned lease, the `course:\d+` key filter and id extraction, and the reconciliation pass.
- **`CourseRankingService`** (`CourseRanking`):
  - the sorted sets, as sequences ordered by score and then by member name;
  - the bounded top-40 update;
  - trimming;
  - scores, as exact rationals;
  - the backfill of the first page.
- **`CourseService`** (`CourseService`): create, read, update, delete and status change.
- **`MemberService`** (`MemberService`): registration and lookups.

**Browser helpers**
- **Sign-up page** (`SignupForm`): phone formatting and validation, the password rule, and the password-confirmation check.
- **Enrolment page** (`EnrollmentView`): `escapeHtml`, the status label, the cancel button, and the status and search filters.

**Conventions**
- The clock ("today", "now"), UUIDs (queue ids and lease tokens) and the new course's identity value are parameters.
- Exceptions thrown inside the retry loop are a `fault` parameter naming the attempt that throws.
- A failing Redis call that the code only logs is a boolean parameter. So are the failing writes of the queue paths: the result record, the list push, and the catch block's own write.
- Queue ids are fresh: the enqueue methods require that no record exists yet under the id, as a random UUID ensures.

**Where the model follows the code rather than the documentation**
- **Course counter.** `Course.java` declares no `currentStudents` field, although the services call `getCurrentStudents`, `setCurrentStudents`, `increaseCurrentStudents` and `decreaseCurrentStudents`.
  - The model gives `Course` a plain integer field `currentStudents` with the ±1 semantics those callers use.
- **`enrollCourse` never moves the counter.** `enrollCourse` calls `CourseRepository.incrementCurrentStudents`, which the repository does not declare.
  - `CourseRepository.incrementCurrentStudents` is not part of this model, so the model's `enrollCourse` leaves the counter alone.
- **SCHEDULED-only validation.** The eligibility check admits SCHEDULED courses only (`EnrollmentService.java:446`).
  - The course entity's `canEnroll` also accepts IN_PROGRESS, and the service tests expect an IN_PROGRESS course to be admitted.
  - The model follows the service code, and `EnrollmentService.ScheduledOnlyValidation` states the resulting refusal.
- **Client and server password rules differ.** The sign-up page accepts passwords of any length from six characters up, while the member entity caps them at ten (`SignupForm.PageAcceptsLongPassword`).
- **The retry loop's last reply.** After a third COURSE_NOT_FOUND the loop returns that reply's own refusal, not a system error.
- **No set-if-absent.** Both bootstrappers check and then write; neither is a set-if-absent.
- **The queue bootstrap.** The queue service's bootstrap seeds the count from the course's counter column and sets no time to live.
- **What the reconciler compares.** It compares the active count against the database column, not against the Redis value.

## Model

| member | source | states |
|---|---|---|
| CapacityStore.HIncrBy | src/main/java/com/wb/edutask/service/EnrollmentService.java:365-367 | HINCRBY reads an absent count as 0, adds the delta, and changes no other field. |
| CapacityStore.Expire | src/main/java/com/wb/edutask/service/RedisConcurrencyService.java:108-110 | A key with a TTL disappears when it runs out; a key without one stays; other keys are untouched. |
| CapacityStore.DecreaseCourseStudents | src/main/java/com/wb/edutask/service/RedisConcurrencyService.java:196-215 | Absent count: no-op. Count ≤ 0: unchanged. Positive count: exactly one less. No other course changes. |
| CapacityStore.DecreaseNeverNegative | src/main/java/com/wb/edutask/service/RedisConcurrencyService.java:200-211 | The floor decrement never makes a non-negative count negative, and a zero count is left as it is. |
| AdmissionGate.RunScript | src/main/java/com/wb/edutask/service/RedisConcurrencyService.java:39-65 | The flag is 1 iff the code is SUCCESS. COURSE_NOT_FOUND is answered exactly when a field the script needs is missing, and then with `(0, COURSE_NOT_FOUND, 0)` and the hash unchanged. |
| AdmissionGate.RunScriptContract | src/main/java/com/wb/edutask/service/EnrollmentQueueService.java:47-105 | Refusals change nothing. CAPACITY_EXCEEDED returns the count when it is ≥ max. A granted admission is below max, adds one and records `student_<id>`. NO_STUDENTS_TO_DECREASE means count ≤ 0. A granted cancellation lowers the count by one and removes the student. No other field changes. |
| AdmissionGate.Sync | src/main/java/com/wb/edutask/service/RedisConcurrencyService.java:84-120 | Writes only when the course exists and `currentStudents` is absent. Seeds the count, capacity and identity, and keeps the other fields. Never overwrites a present count. Touches only this course. |
| AdmissionGate.SyncIdempotent | src/main/java/com/wb/edutask/service/EnrollmentQueueService.java:358-389 | A second bootstrap, with any snapshot, changes nothing after a successful first one; repeating the same bootstrap is a no-op. |
| AdmissionGate.NoOverselling | src/main/java/com/wb/edutask/service/RedisConcurrencyService.java:57-64 | Under any interleaving of script runs, bootstraps, decrements and expiries, a count that ends above its cached capacity was already above it at the start, or some bootstrap seeded it above capacity. A store within capacity therefore stays within it unless a bootstrap seeds an over-capacity snapshot. |
| AdmissionGate.GrantWithinCapacity | src/main/java/com/wb/edutask/service/RedisConcurrencyService.java:57-64 | A granted admission happens only below capacity. It adds exactly one, keeps the capacity and leaves the hash within capacity. |
| AdmissionGate.StepOverCapacity | src/main/java/com/wb/edutask/service/RedisConcurrencyService.java:84-120 | A single step can push a course over capacity only if it already was over, or if the step is a bootstrap seeding above capacity. |
| AdmissionGate.WellFormedPreserved | src/main/java/com/wb/edutask/service/EnrollmentQueueService.java:85-104 | A hash that ends malformed was malformed at the start, or some step was the unfloored HINCRBY on it or a bootstrap seeding outside 0..capacity. Without those steps a well-formed store stays well formed. |
| AdmissionGate.StepMalformed | src/main/java/com/wb/edutask/service/EnrollmentService.java:365-367 | A single step can break a hash only if it was already broken, or if the step is the raw HINCRBY on it or a bootstrap seeding outside 0..capacity. |
| AdmissionGate.EnrollThenCancelRestores | src/main/java/com/wb/edutask/service/EnrollmentQueueService.java:47-105 | Admitting a new student below capacity and then cancelling them returns the hash exactly to where it was. The cancellation reports the old count. |
| AdmissionGate.RawDecrementStrandsRecord | src/main/java/com/wb/edutask/service/EnrollmentService.java:365-367 | The raw decrement on a missing hash leaves `currentStudents = -1` with no TTL. No bootstrap repairs that hash, no expiry removes it, and every admission script answers COURSE_NOT_FOUND against it. |
| AdmissionGate.ExactlyCapacityGranted | src/test/java/com/wb/edutask/service/ConcurrencyTest.java:156-157 | From `current ≤ max`, any sequence of admission runs grants exactly the first `max − current` callers, with counts `current+1, …`. All later callers get CAPACITY_EXCEEDED. |
| AdmissionGate.FiftyCallersFiveSeats | src/test/java/com/wb/edutask/service/ConcurrencyTest.java:251-252 | Capacity 5: fifty callers get exactly five grants with counts 1..5, and ten callers also get exactly five. |
| AdmissionGate.EndToEndScenario | src/main/java/com/wb/edutask/service/EnrollmentQueueService.java:65-104 | Capacity 3: three admissions, one refusal, a cancellation back to 2, then a readmission at 3. |
| AdmissionGate.FromReply | src/main/java/com/wb/edutask/service/RedisConcurrencyService.java:163-171 | `success` is true iff the script's first element is 1. |
| AdmissionGate.RetryContract | src/main/java/com/wb/edutask/service/RedisConcurrencyService.java:133-161 | At most three replies, all but the last COURSE_NOT_FOUND. A throw ends the loop and follows only COURSE_NOT_FOUND. Without a fault, the loop stops on the first decisive reply. |
| AdmissionGate.RetryLastReply | src/main/java/com/wb/edutask/service/RedisConcurrencyService.java:163-180 | The reply that ends the loop sets its flag exactly on SUCCESS, and a grant is recorded in the hash the loop leaves behind. |
| AdmissionGate.RetryLoop | src/main/java/com/wb/edutask/service/RedisConcurrencyService.java:133-161 | The imperative loop computes exactly the recursive `Retry` definition. |
| AdmissionGate.RunWithRetry | src/main/java/com/wb/edutask/service/RedisConcurrencyService.java:129-189 | At most three runs; re-sync only after COURSE_NOT_FOUND; at most one grant. An exception yields SCRIPT_EXECUTION_ERROR and never a grant. Success iff the last reply granted, and then the hash holds the reported count within capacity. |
| AdmissionGate.GrantsOfRetry | src/main/java/com/wb/edutask/service/RedisConcurrencyService.java:153-161 | In a run of COURSE_NOT_FOUND replies only the last reply can grant. |
| AdmissionGate.RetryOutcomes | src/main/java/com/wb/edutask/service/RedisConcurrencyService.java:133-161 | A stuck hash, or a course missing from the database, gives exactly three COURSE_NOT_FOUND replies and no grant. A well-formed or missing hash of an existing course is decided by the first run. |
| AdmissionGate.RetryOnUsableHash | src/main/java/com/wb/edutask/service/RedisConcurrencyService.java:133-161 | Against a hash the script can use, the first attempt decides: one run, written back, with no bootstrap. |
| AdmissionGate.Retry | src/main/java/com/wb/edutask/service/RedisConcurrencyService.java:137-161 | The loop as a recursive definition: a throw ends it, COURSE_NOT_FOUND retries while attempts remain, and any other reply ends it. `AdmissionGate.RetryLoop` and `AdmissionGate.RetryContract` state what it computes. |
| AdmissionGate.AttemptOnce | src/main/java/com/wb/edutask/service/RedisConcurrencyService.java:138-154 | One attempt returns the script's reply, writes back its hash, and bootstraps again only after COURSE_NOT_FOUND. |
| AdmissionGate.RunAll | src/test/java/com/wb/edutask/service/ConcurrencyTest.java:122-138 | Callers served one script run at a time get one reply each, in order. |
| RedisConcurrency.SyncSeedsActiveCount | src/main/java/com/wb/edutask/service/RedisConcurrencyService.java:93-116 | This service's bootstrap seeds the active-enrolment count and the course's capacity and identity, with a 2-minute TTL. Otherwise it leaves the store alone. |
| RedisConcurrency.ExecuteEnrollmentLuaScript | src/main/java/com/wb/edutask/service/RedisConcurrencyService.java:129-189 | At most three runs and one grant. A success is "SUCCESS" with the new count within capacity. Against an uncached existing course, success iff active < max, with count active+1 and a 2-minute TTL. A missing course ends in COURSE_NOT_FOUND after three runs and changes nothing. |
| RedisConcurrency.ToKorean | src/main/java/com/wb/edutask/service/RedisConcurrencyService.java:223-231 | The four known codes map to fixed messages; any other code maps to the default prefix followed by the code. |
| RedisConcurrency.ToKoreanInjective | src/main/java/com/wb/edutask/service/RedisConcurrencyService.java:223-231 | Different codes get different messages, and exactly the unknown codes get the generic prefix. |
| RedisConcurrency.OutcomeMessagesAreKnown | src/main/java/com/wb/edutask/service/RedisConcurrencyService.java:163-188 | Every status the admission loop can return has its own fixed translation. |
| EnrollmentQueue.ExecuteEnrollmentLuaScript | src/main/java/com/wb/edutask/service/EnrollmentQueueService.java:127-198 | The queue service's retry loop: at most one grant. A grant records the student and holds the count within capacity. An uncached course is seeded from its counter column with no TTL. |
| EnrollmentQueue.EnqueueEnrollmentRequest | src/main/java/com/wb/edutask/service/EnrollmentQueueService.java:207-326 | The queue id is always returned. A record for the request is written unless the catch block's own write fails. Its status is SUCCESS iff granted, FAILED only on a refusal, and ERROR with the prefixed message on an exception. The request is appended iff a seat was granted and no write failed. A granted seat stays taken in the hash even when the bookkeeping fails, and then nothing is queued. Undisturbed against a usable hash, one run decides: granted iff count < capacity. |
| EnrollmentQueue.EnqueueCancelRequest | src/main/java/com/wb/edutask/service/EnrollmentQueueService.java:542-634 | Records CANCEL_PROCESSED with the script's answer. If the script or the write throws, it records CANCEL_FAILED with the prefixed message. If that write throws too, the error escapes, with no record and no id. A released seat removes the student and leaves a count ≥ 0. Undisturbed against a usable hash: released iff count > 0. Nothing is queued. |
| EnrollmentQueue.Pop | src/main/java/com/wb/edutask/service/EnrollmentQueueService.java:495-507 | An empty list yields nothing and changes nothing; otherwise the head is removed and returned. |
| EnrollmentQueue.MarkCompleted | src/main/java/com/wb/edutask/service/EnrollmentQueueService.java:514-532 | An admission record becomes DB_COMPLETED with its other fields kept. A missing record, or a cancellation hash, is left alone. No other record changes. |
| EnrollmentQueue.GetStatus | src/main/java/com/wb/edutask/service/EnrollmentQueueService.java:397-404 | A missing record gives NOT_FOUND. For stores this service writes, NOT_FOUND means exactly that the record is missing. |
| EnrollmentQueue.MarkCompletedSemantics | src/main/java/com/wb/edutask/service/EnrollmentQueueService.java:514-527 | Marking is idempotent. The lookup then reports DB_COMPLETED exactly for admission records, and the other ids are unaffected. |
| EnrollmentQueue.FifoOrder | src/main/java/com/wb/edutask/service/EnrollmentQueueService.java:288 | Items pushed at the tail come out of the head after the waiting ones, in push order, and the list ends empty. |
| EnrollmentQueue.DrainAll | src/main/java/com/wb/edutask/service/EnrollmentQueueService.java:495-507 | Popping as often as the list is long returns the whole list in order and leaves it empty. |
| Courses.NewCourse | src/main/java/com/wb/edutask/entity/Course.java:135-144 | A new course is SCHEDULED with no students, and carries the given fields. |
| Courses.CanEnrollExactlyOpenStatuses | src/main/java/com/wb/edutask/entity/Course.java:151-153 | `canEnroll` holds iff the status is neither COMPLETED nor CANCELLED. |
| Courses.ValidDateRangeMeaning | src/main/java/com/wb/edutask/entity/Course.java:160-162 | The range is valid iff both dates are present and span at least one day; a one-day course is valid. |
| Courses.CanEnroll | src/main/java/com/wb/edutask/entity/Course.java:151-153 | Scheduled or running. `Courses.CanEnrollExactlyOpenStatuses` states it as "not completed or cancelled". |
| Courses.IsValidDateRange | src/main/java/com/wb/edutask/entity/Course.java:160-162 | Both dates are present and the start is not after the end. `Courses.ValidDateRangeMeaning` states its meaning. |
| Courses.IncreaseCurrentStudents | src/main/java/com/wb/edutask/service/EnrollmentService.java:401-402 | The counter goes up by one and nothing else changes. |
| Courses.DecreaseCurrentStudents | src/main/java/com/wb/edutask/service/EnrollmentService.java:359-360 | The counter goes down by one and nothing else changes. |
| Enrollments.NewEnrollment | src/main/java/com/wb/edutask/entity/Enrollment.java:115-119 | A new enrolment is APPLIED with no timestamps and no reason. |
| Enrollments.Approve | src/main/java/com/wb/edutask/entity/Enrollment.java:124-128 | The row becomes APPROVED, `approvedAt` is stamped and the reason is cleared; the pair is kept. |
| Enrollments.Cancel | src/main/java/com/wb/edutask/entity/Enrollment.java:135-139 | The row becomes CANCELLED, `cancelledAt` is stamped and the reason stored; the pair is kept. |
| Enrollments.Reject | src/main/java/com/wb/edutask/entity/Enrollment.java:146-150 | The row becomes REJECTED, `cancelledAt` is stamped and the reason stored; the pair is kept. |
| Enrollments.StatusClassification | src/main/java/com/wb/edutask/entity/Enrollment.java:157-168 | Approved implies active, and inactive means exactly CANCELLED or REJECTED. |
| Enrollments.TransitionsAreUnguarded | src/main/java/com/wb/edutask/entity/Enrollment.java:124-150 | The entity lets any state move to any other, so a cancelled enrolment can be approved again. |
| EnrollmentRepository.CountActiveIsCardinality | src/main/java/com/wb/edutask/repository/EnrollmentRepository.java:160-161 | The active count is the number of the course's rows that are APPLIED or APPROVED. |
| EnrollmentRepository.CountActive | src/main/java/com/wb/edutask/repository/EnrollmentRepository.java:160-161 | Counts the course's APPLIED or APPROVED rows and never exceeds the table size. |
| EnrollmentRepository.ExistsPair | src/main/java/com/wb/edutask/repository/EnrollmentRepository.java:50-59 | Some row has the pair, whatever its status. |
| EnrollmentRepository.ApprovedAtMostActive | src/main/java/com/wb/edutask/repository/EnrollmentRepository.java:142-143 | The approved count never exceeds the active count. |
| EnrollmentRepository.CountActiveUpdate | src/main/java/com/wb/edutask/repository/EnrollmentRepository.java:160-161 | A status change of one row moves its course's active count by exactly the change in that row's activity. |
| EnrollmentRepository.CountsArePerCourse | src/main/java/com/wb/edutask/repository/EnrollmentRepository.java:160-161 | Adding or changing a row of course A leaves course B's count alone. |
| EnrollmentRepository.InsertKeepsUnique | src/main/java/com/wb/edutask/entity/Enrollment.java:36-37 | Saving a row whose pair is new keeps the (student, course) constraint. |
| EnrollmentRepository.UpdateKeepsPairs | src/main/java/com/wb/edutask/repository/EnrollmentRepository.java:50-59 | A status change keeps pair existence whatever the status, so a cancelled enrolment still blocks a new one. It also keeps the constraint. |
| EnrollmentService.ValidateEnrollmentBasic | src/main/java/com/wb/edutask/service/EnrollmentService.java:439-461 | Passes iff the pair is new, the course is SCHEDULED, the start is not before today and the requester is not the instructor. The first failing check, in that order, names the error. |
| EnrollmentService.ScheduledOnlyValidation | src/main/java/com/wb/edutask/service/EnrollmentService.java:446-448 | An IN_PROGRESS course, which `canEnroll` accepts, is refused with its Korean description. |
| EnrollmentService.ValidationIsLocal | src/main/java/com/wb/edutask/service/EnrollmentService.java:441-443 | Other pairs' rows never change a validation verdict. |
| EnrollmentService.Precheck | src/main/java/com/wb/edutask/service/EnrollmentService.java:60-67 | A missing member, then a missing course, then the validation, each with its own message. |
| EnrollmentService.EnrollCourse | src/main/java/com/wb/edutask/service/EnrollmentService.java:56-107 | Exactly one APPROVED row is saved iff the checks pass and the script grants. On failure nothing is written and the translated message is raised. Pairs stay unique. An uncached course admits iff active < capacity. |
| EnrollmentService.EnrollCourseWithQueue | src/main/java/com/wb/edutask/service/EnrollmentService.java:115-135 | A failed check writes nothing to Redis. Otherwise the queue id is returned, and any record written belongs to the request. The request is queued only with the student recorded in the hash. Undisturbed against a usable hash, it is queued iff a seat was free. |
| EnrollmentService.ProcessQueueResult | src/main/java/com/wb/edutask/service/EnrollmentService.java:146-208 | A missing result, a failed result or an existing pair raises with the prefix and writes nothing. Otherwise exactly one APPROVED row is saved, then the hash is bootstrapped. |
| EnrollmentService.CancelEnrollmentWithQueue | src/main/java/com/wb/edutask/service/EnrollmentService.java:533-549 | An unknown enrolment is refused. Otherwise the row's pair goes to the cancellation request. The queue id comes back iff a record was written; if not, the escaped error does. Nothing is queued. |
| EnrollmentService.ProcessCancelQueueResult | src/main/java/com/wb/edutask/service/EnrollmentService.java:558-590 | A failed result or unknown enrolment raises with the prefix. Otherwise the row is cancelled and the counter lowered when positive. |
| EnrollmentService.Floored | src/main/java/com/wb/edutask/service/EnrollmentService.java:358-362 | The counter drops by one only when positive, and so never turns negative. |
| EnrollmentService.ServeItem | src/main/java/com/wb/edutask/service/EnrollmentService.java:221-266 | One popped item: a missing member or course drops it; an existing pair is only marked; otherwise one APPROVED row is saved and the result is marked. |
| EnrollmentService.DrainShape | src/main/java/com/wb/edutask/service/EnrollmentService.java:216-278 | The drain empties the list and appends at most one APPROVED row per item. It changes no member, course, Redis count or result key. |
| EnrollmentService.DrainKeepsUnique | src/main/java/com/wb/edutask/service/EnrollmentService.java:240-248 | The drain never saves a second row for a pair. |
| EnrollmentService.DrainServesKnown | src/main/java/com/wb/edutask/service/EnrollmentService.java:221-261 | Every item whose member and course exist has its pair in the table afterwards. |
| EnrollmentService.ProcessDbQueue | src/main/java/com/wb/edutask/service/EnrollmentService.java:216-278 | The loop computes the drain. `processedCount` ≤ items popped and the list ends empty. Old rows are kept and pairs stay unique. |
| EnrollmentService.Kept | src/main/java/com/wb/edutask/service/EnrollmentService.java:262-265 | The items a failure-keeping drain retains are exactly those whose member or course is missing. |
| EnrollmentService.DrainRetaining | src/main/java/com/wb/edutask/service/EnrollmentService.java:216-270 | The drain with failed items pushed back, as the code's comment promises. `EnrollmentService.DrainRetainingAgrees` and `EnrollmentService.NoItemLost` state what it keeps. |
| EnrollmentService.DrainRetainingAgrees | src/main/java/com/wb/edutask/service/EnrollmentService.java:262-265 | The corrected drain matches the drain as written on the database and results, and differs only in the list it leaves. |
| EnrollmentService.NoItemLost | src/main/java/com/wb/edutask/service/EnrollmentService.java:262-265 | With failures kept, every item is afterwards either served in the table or still in the list. |
| EnrollmentService.DrainLosesUnknownItem | src/main/java/com/wb/edutask/service/EnrollmentService.java:262-265 | The drain as written drops an unknown item: no row, no list entry, and its result record still says SUCCESS. |
| EnrollmentService.CancelEnrollment | src/main/java/com/wb/edutask/service/EnrollmentService.java:343-377 | Only an active row can be cancelled, with its reason. The counter is lowered when positive. The Redis count gets an unfloored HINCRBY −1 unless the Redis call fails. |
| EnrollmentService.CancelEnrollmentFloored | src/main/java/com/wb/edutask/service/EnrollmentService.java:364-371 | Same database effect and result as `cancelEnrollment`, with the Redis count lowered by the floor decrement. |
| EnrollmentService.CancelReleasesSeat | src/main/java/com/wb/edutask/service/EnrollmentService.java:349-362 | A cancellation frees exactly one active seat of its course and keeps the counter non-negative and pairs unique. |
| EnrollmentService.CancelStrandsUncachedCourse | src/main/java/com/wb/edutask/service/EnrollmentService.java:364-367 | Cancelling in an uncached course creates a hash `{currentStudents: -1}`, after which every admission ends in three COURSE_NOT_FOUND replies. |
| EnrollmentService.FlooredCancelKeepsHashUsable | src/main/java/com/wb/edutask/service/RedisConcurrencyService.java:196-215 | With the floor decrement, no hash is created and no count turns negative. A usable hash stays usable. |
| EnrollmentService.ApproveEnrollment | src/main/java/com/wb/edutask/service/EnrollmentService.java:386-408 | Only an APPLIED row, and only while counter < capacity. The row becomes APPROVED and the counter goes up by one. |
| EnrollmentService.ApproveKeepsCounterWithinCapacity | src/main/java/com/wb/edutask/service/EnrollmentService.java:396-402 | After approval the counter is ≤ capacity and the active count is unchanged. |
| EnrollmentService.RejectEnrollment | src/main/java/com/wb/edutask/service/EnrollmentService.java:418-430 | Only an APPLIED row; it becomes REJECTED with the reason, and nothing else changes. |
| EnrollmentService.RejectFreesSeat | src/main/java/com/wb/edutask/service/EnrollmentService.java:422-427 | A rejection lowers its own course's active count by one and no other course's. |
| EnrollmentService.PicksPartition | src/main/java/com/wb/edutask/service/EnrollmentService.java:480-515 | The success and failure id lists together are a permutation of the requested ids. |
| EnrollmentService.EnrollNext | src/main/java/com/wb/edutask/service/EnrollmentService.java:480-510 | One bulk step runs `enrollCourse` on the database after the earlier items. It files the outcome as a success, or as a failure with its message, and keeps the bulk invariant. |
| EnrollmentService.EnrollMultipleCourses | src/main/java/com/wb/edutask/service/EnrollmentService.java:470-523 | An empty list is refused. Each id lands in exactly one list, in input order, and successCount + failureCount = totalRequested. Each item's outcome is the one `enrollCourse` gives on the database after the earlier items. Failures carry the course name (or `알 수 없는 강의`) and the item's message. |
| EnrollmentService.BulkItemOutcome | src/main/java/com/wb/edutask/service/EnrollmentService.java:480-504 | Item i succeeds iff it passes the checks on the database after the earlier items and the script grants it a seat. An item refused by the checks carries their message, and every failed item appears in the failure list with its message. |
| CourseStats.SetIfAbsent | src/main/java/com/wb/edutask/service/CourseStatsScheduler.java:56-63 | The lease is taken iff nobody holds it, and then it holds this runner's token. |
| CourseStats.Unlock | src/main/java/com/wb/edutask/service/CourseStatsScheduler.java:39-44 | The lock is deleted iff it holds this runner's token; otherwise nothing changes and the reply is 0. |
| CourseStats.LeaseExclusive | src/main/java/com/wb/edutask/service/CourseStatsScheduler.java:155-168 | While A holds the lease, B cannot take it or release it; A's release lets B take it. |
| CourseStats.PiecesRoundTrip | src/main/java/com/wb/edutask/service/CourseStatsScheduler.java:176-185 | Splitting on colons and joining again gives the key back, and no piece holds a colon. |
| CourseStats.DropTrailingEmpty | src/main/java/com/wb/edutask/service/CourseStatsScheduler.java:178 | Java's split drops exactly the trailing empty pieces. |
| CourseStats.Split | src/main/java/com/wb/edutask/service/CourseStatsScheduler.java:178 | `split(":")` is the colon pieces without the trailing empty ones. `CourseStats.PiecesRoundTrip` and `CourseStats.DropTrailingEmpty` state its laws. |
| CourseStats.IsCourseKey | src/main/java/com/wb/edutask/service/CourseStatsScheduler.java:93-95 | The filter `course:\d+`: the prefix and then one or more digits, with nothing else after them. |
| CourseStats.ExtractCourseIdFromKey | src/main/java/com/wb/edutask/service/CourseStatsScheduler.java:176-185 | Fewer than two pieces is an error. Otherwise the second piece is parsed, and a non-number is an error. |
| CourseStats.ExtractFromCourseKey | src/main/java/com/wb/edutask/service/CourseStatsScheduler.java:93-116 | Every `course:\d+` key parses to the id it names, and the key of course `id` passes the filter. |
| CourseStats.RankingKeysExcluded | src/main/java/com/wb/edutask/service/CourseStatsScheduler.java:93-95 | The ranking keys do not pass the `course:\d+` filter. |
| CourseStats.CorrectKey | src/main/java/com/wb/edutask/service/CourseStatsScheduler.java:106-136 | For a reconciled key the column becomes the active count. Redis is refreshed with a 2-minute TTL only if the column had drifted. Other keys change nothing. |
| CourseStats.Refreshed | src/main/java/com/wb/edutask/service/CourseStatsScheduler.java:128-131 | The corrected hash has the given count and a fresh 2-minute TTL, and keeps the capacity, identity and students. |
| CourseStats.PerformCorrection | src/main/java/com/wb/edutask/service/CourseStatsScheduler.java:83-148 | Afterwards every named existing course has column = active count and nothing else changes. A hash changes exactly when its column drifted. |
| CourseStats.RedisOnlyDriftSurvives | src/main/java/com/wb/edutask/service/CourseStatsScheduler.java:123-132 | When the column already equals the active count, the pass writes nothing, whatever Redis holds. |
| CourseStats.StrandedHashNeverExpires | src/main/java/com/wb/edutask/service/CourseStatsScheduler.java:123-136 | A stranded `-1` hash survives every pass that finds the column right, and never expires. |
| CourseStats.CorrectKeyBoth | src/main/java/com/wb/edutask/service/CourseStatsScheduler.java:119-136 | Comparing Redis as well leaves both the column and the Redis count equal to the active count. |
| CourseStats.CorrectKeyBothSettles | src/main/java/com/wb/edutask/service/CourseStatsScheduler.java:119-136 | The corrected pass settles both counts and is idempotent. |
| CourseStats.CorrectCurrentStudentsData | src/main/java/com/wb/edutask/service/CourseStatsScheduler.java:54-77 | The pass runs iff the lease was free; otherwise nothing is touched. Release frees only our own token. After a run every named course's column equals its active count. A drifted course's Redis count is rewritten with a fresh TTL. Unnamed courses, their hashes and the non-counter fields are left alone. |
| CourseRanking.CalculateScore | src/main/java/com/wb/edutask/service/CourseRankingService.java:248-257 | `applicants` gives the count; `remaining` gives count/max when max > 0, else 0; any other sort gives 0. |
| CourseRanking.RateBounds | src/main/java/com/wb/edutask/service/CourseRankingService.java:168 | A course within capacity has a rate in [0, 1] that grows with the count. |
| CourseRanking.Rate | src/main/java/com/wb/edutask/service/CourseRankingService.java:168 | The fill rate is count/max, or 0 when max ≤ 0. `CourseRanking.RateBounds` bounds it. |
| CourseRanking.GetRankingKey | src/main/java/com/wb/edutask/service/CourseRankingService.java:297-313 | There is a key iff the sort is supported; any other sort is an error. |
| CourseRanking.RankingKeysDistinct | src/main/java/com/wb/edutask/service/CourseRankingService.java:307-313 | The two supported sorts use different keys. |
| CourseRanking.MemberKeyInjective | src/main/java/com/wb/edutask/service/CourseRankingService.java:167 | Different courses have different member names. |
| CourseRanking.RemoveKeepsValid | src/main/java/com/wb/edutask/service/CourseRankingService.java:222-223 | ZREM keeps the set sorted and distinct, and shrinks it by one iff the member was present. |
| CourseRanking.Remove | src/main/java/com/wb/edutask/service/CourseRankingService.java:222 | ZREM keeps exactly the entries of other members and never grows the set. |
| CourseRanking.Insert | src/main/java/com/wb/edutask/service/CourseRankingService.java:226 | Insertion adds exactly the entry and keeps the set sorted and distinct. |
| CourseRanking.ZAdd | src/main/java/com/wb/edutask/service/CourseRankingService.java:194-203 | The member ends with the new score; the size grows only when the member was absent. |
| CourseRanking.UpdateZSetIfRelevant | src/main/java/com/wb/edutask/service/CourseRankingService.java:191-239 | A present member is overwritten at the same size. An absent member is inserted when size < 40. A full set replaces its lowest member only on a strictly higher score, and is otherwise unchanged. The set stays valid and ≤ 40. |
| CourseRanking.UpdatesStayBounded | src/main/java/com/wb/edutask/service/CourseRankingService.java:39 | Any sequence of updates keeps a set of ≤ 40 members at ≤ 40. |
| CourseRanking.UpdateCourseRanking | src/main/java/com/wb/edutask/service/CourseRankingService.java:165-182 | Both sets stay valid, present members get the new count and rate, and the rate equals `calculateScore("remaining")`. |
| CourseRanking.TrimZSet | src/main/java/com/wb/edutask/service/CourseRankingService.java:264-275 | Beyond 40, exactly the lowest-ranked `size − 40` are removed; otherwise the set is unchanged. |
| CourseRanking.TopIds | src/main/java/com/wb/edutask/service/CourseRankingService.java:75-76 | ZREVRANGE returns the highest-ranked ids first. |
| CourseRanking.Additional | src/main/java/com/wb/edutask/service/CourseRankingService.java:101-116 | At most k courses, all from the page and none already cached. |
| CourseRanking.Backfill | src/main/java/com/wb/edutask/service/CourseRankingService.java:94-142 | With n < 20 cached ids it adds at most 20 − n uncached page courses after the cached ids. The set stays valid and within 40. |
| CourseRanking.InOrder | src/main/java/com/wb/edutask/service/CourseRankingService.java:133-139 | Courses come back in the order of the ids, skipping ones the database no longer has. |
| CourseService.ValidateCourseRequest | src/main/java/com/wb/edutask/service/CourseService.java:269-279 | The date range is checked first (start == end is fine), then the start is compared with today. |
| CourseService.CheckInstructor | src/main/java/com/wb/edutask/service/CourseService.java:53-59 | Passes iff the member exists and is an instructor, with a separate message for each failure. |
| CourseService.CreateCourse | src/main/java/com/wb/edutask/service/CourseService.java:44-75 | Succeeds iff the dates, the name and the instructor checks pass, in that order. The new course is SCHEDULED with no students and the request's fields, and nothing else changes. |
| CourseService.CreateKeepsUniqueNames | src/main/java/com/wb/edutask/service/CourseService.java:49-51 | Creation keeps names unique, and a second course with the same name is refused. |
| CourseService.CreatedCourseIsFound | src/main/java/com/wb/edutask/service/CourseService.java:85-92 | A new course is found again with zero enrolments. |
| CourseService.GetCourseById | src/main/java/com/wb/edutask/service/CourseService.java:85-92 | The stored course plus `currentEnrollments` equal to the number of active rows; a missing id is an error. |
| CourseService.UpdateCourse | src/main/java/com/wb/edutask/service/CourseService.java:190-224 | Existence, then the dates, the name (its own name allowed) and the instructor. The editable fields are overwritten; id, status and counter are kept. |
| CourseService.UpdateKeepsUniqueNames | src/main/java/com/wb/edutask/service/CourseService.java:199-202 | An update keeps names unique, and a course's own name never conflicts. |
| CourseService.DeleteCourse | src/main/java/com/wb/edutask/service/CourseService.java:232-243 | Removes the course iff it exists and has no active enrolment; nothing else changes. |
| CourseService.DeleteLeavesNoActiveRow | src/main/java/com/wb/edutask/service/CourseService.java:237-242 | A deleted course had no active row, and any active row blocks deletion. |
| CourseService.UpdateCourseStatus | src/main/java/com/wb/edutask/service/CourseService.java:253-261 | An existing course gets the new status. |
| CourseService.StatusUpdateIsLocal | src/main/java/com/wb/edutask/service/CourseService.java:253-261 | Only that course's status changes. The update is idempotent, any status can follow any other, and names stay unique. |
| CourseService.ClosedCourseRefusesEnrollment | src/main/java/com/wb/edutask/service/EnrollmentService.java:446-448 | After a course is completed or cancelled, every enrolment request for it fails validation. |
| MemberService.RegisterMember | src/main/java/com/wb/edutask/service/MemberService.java:38-63 | A duplicate e-mail is refused first, then a duplicate phone, each with its message. On success the member is appended and nothing else changes. |
| MemberService.RegisterKeepsUnique | src/main/java/com/wb/edutask/service/MemberService.java:40-59 | A registration keeps e-mails and phones unique. |
| MemberService.RegisterAllKeepsUnique | src/main/java/com/wb/edutask/service/MemberService.java:38-59 | After any sequence of registrations no two members share an e-mail or phone, and earlier members are kept. |
| MemberService.FindByEmail | src/main/java/com/wb/edutask/service/MemberService.java:72-75 | Empty iff no member has the e-mail; otherwise a stored member with it. |
| MemberService.FindByEmailUnique | src/main/java/com/wb/edutask/service/MemberService.java:72-75 | With unique e-mails the lookup returns the one member that has it. |
| Wrappers.FindById | src/main/java/com/wb/edutask/service/MemberService.java:84-87 | Empty iff the id is unknown; otherwise the stored row. Members and enrolments are both looked up this way, since a row's id is its index. |
| MemberService.RegisteredIsFound | src/test/java/com/wb/edutask/service/MemberServiceTest.java:131-189 | A registered member is found again by e-mail and by id. |
| SignupForm.FormatPhoneNumber | src/main/resources/static/js/signup.js:231-244 | 11 digits become 3-4-4; 4–6 digits become 3-rest; 0–3 or 7–10 digits stay bare. |
| SignupForm.PhoneDigitsOf | src/main/resources/static/js/signup.js:232-236 | Only digits remain, at most eleven. |
| SignupForm.FormatOnlyInsertsDashes | src/main/resources/static/js/signup.js:232-244 | Removing the dashes from the output gives back exactly the kept digits. |
| SignupForm.FormatAlphabet | src/main/resources/static/js/signup.js:238-241 | The output holds nothing but digits and dashes. |
| SignupForm.FormatIdempotent | src/main/resources/static/js/signup.js:232-244 | Formatting a formatted value returns it unchanged. |
| SignupForm.FormattedIsValidIff | src/main/resources/static/js/signup.js:258-261 | A formatted value passes `isValidPhoneNumber` iff eleven digits starting with 010 were typed. |
| SignupForm.IsValidPhoneNumber | src/main/resources/static/js/signup.js:258-261 | `010-`, four digits, a dash, four digits and nothing else. `SignupForm.FormattedIsValidIff` states when a formatted value passes. |
| SignupForm.IsValidPassword | src/main/resources/static/js/signup.js:266-270 | A lowercase and an uppercase letter, a digit, at least six code units, no line terminator and no upper bound. `SignupForm.CheckPassword` computes it. |
| SignupForm.DigitsAreKept | src/main/resources/static/js/signup.js:232-236 | Up to eleven typed digits are kept unchanged. |
| SignupForm.ServerRuleIsStricter | src/main/java/com/wb/edutask/entity/Member.java:42-44 | Every password the server accepts passes the page's check. |
| SignupForm.PageAcceptsLongPassword | src/main/resources/static/js/signup.js:266-270 | The page accepts an 11-character password that the server's 10-character cap refuses. |
| SignupForm.CheckPassword | src/main/resources/static/js/signup.js:266-270 | A single scan returns true iff the password has a lowercase letter, an uppercase letter and a digit, at least six units, and no line terminator. |
| SignupForm.ValidatePasswordMatch | src/main/resources/static/js/signup.js:192-206 | Fails iff it shows the mismatch message. An empty confirmation is left untouched; an equal one clears the error. |
| SignupForm.MatchFailsOnlyOnMismatch | src/main/resources/static/js/signup.js:197-206 | Fails iff the confirmation is non-empty and differs from the password. |
| EnrollmentView.EscapeText | src/main/resources/static/js/enrollment.js:427-434 | The output has no raw markup character, and markup-free text is unchanged. |
| EnrollmentView.EscapeHtml | src/main/resources/static/js/enrollment.js:423-434 | null or undefined gives ""; the output never has raw `& < > " '`. |
| EnrollmentView.EscapeRoundTrip | src/main/resources/static/js/enrollment.js:427-434 | Decoding the entities gives exactly the original text. |
| EnrollmentView.EscapeInjective | src/main/resources/static/js/enrollment.js:427-434 | Different texts never escape to the same markup. |
| EnrollmentView.GetEnrollmentStatusText | src/main/resources/static/js/enrollment.js:318-324 | APPROVED and CANCELLED get fixed labels; any other value is returned unchanged. |
| EnrollmentView.StatusLabelsDistinct | src/main/resources/static/js/enrollment.js:318-324 | The four server statuses get pairwise different labels. |
| EnrollmentView.CancelButtonWithinServerRule | src/main/resources/static/js/enrollment.js:207 | The button shows iff APPROVED, only for rows the server would cancel; APPLIED rows get none. |
| EnrollmentView.CanCancel | src/main/resources/static/js/enrollment.js:207 | The button is shown for the status `APPROVED` only. |
| EnrollmentView.InstructorNameOf | src/main/resources/static/js/enrollment.js:185-187 | The nested name if truthy, else the flat name if truthy, else "". |
| EnrollmentView.Filter | src/main/resources/static/js/enrollment.js:176-192 | Keeps exactly the cards that pass the test, in order; keeps all when all pass. |
| EnrollmentView.FilterIsSubsequence | src/main/resources/static/js/enrollment.js:176-192 | The filtered list is an order-preserving sub-list of the input. |
| EnrollmentView.FiltersCommute | src/main/resources/static/js/enrollment.js:175-192 | Two filters give the same list in either order. |
| EnrollmentView.FilterByStatus | src/main/resources/static/js/enrollment.js:175-180 | `all` keeps every card; any other value keeps exactly the cards with that status. |
| EnrollmentView.FilterBySearch | src/main/resources/static/js/enrollment.js:182-192 | A card is kept iff the trimmed, lowercased term is empty or occurs in the lowercased name, description or instructor. |
| EnrollmentView.DisplayedCards | src/main/resources/static/js/enrollment.js:171-192 | A card is shown iff it passes both filters. |
| EnrollmentView.FilterOrderIrrelevant | src/main/resources/static/js/enrollment.js:175-192 | Searching first and then filtering by status shows the same list. |
| EnrollmentView.BlankSearchKeepsAll | src/main/resources/static/js/enrollment.js:182-183 | A search box holding only white space hides nothing. |
| Text.ParseLongOfNatToString | src/main/java/com/wb/edutask/service/CourseStatsScheduler.java:182 | Parsing the decimal rendering of an id gives the id back. |
| Text.ParseLong | src/main/java/com/wb/edutask/service/CourseStatsScheduler.java:182 | A result means the text was non-empty, and an all-digit text parses to its decimal value. |

## Left out

**Infrastructure**
- HTTP controllers, exception mapping, configuration and seed data: these do routing and setup only.
- JSON (de)serialisation of queue entries and result records: entries are modelled as records directly.
- The `keys()` scans: the scan result is a parameter.
- The hash-versus-string dispatch in `readResult`: not modelled.
- Paging and listing queries (`getAllCourses`, `getEnrollmentsBy*`, searches): these are read-only.
- The JPQL sort of the ranking fallback: the database page is a parameter.
- `CourseRepository.findByIdInOrderByField` is not part of this model. `CourseRanking.InOrder` states the order it is used for.

**Parameters and timing**
- Clocks, UUIDs and the new course's identity value are parameters.
- The 50 ms pause between retries and the 2-minute timing of TTLs are not modelled. Expiry is an explicit step.

**Concurrency and failures**
- Real threads: concurrency is modelled as interleavings of whole steps.
- Non-atomic read-then-write sequences:
  - Bootstraps, `decreaseCourseStudents`, `updateZSetIfRelevant` and the reconciliation scan are each modelled as one step.
  - Races inside them are not covered.
- Exceptions thrown by the database inside a per-key reconciliation step or a bulk item are not modelled. Missing courses and bad keys are modelled.

**Arithmetic, text and characters**
- Redis stores hash fields as strings. Every writer here writes decimal integers, so counts are numbers.
- Course keys with leading zeros, such as `course:007`, name the same id as `course:7`. Such keys are never written, so their handling is not modelled.
- IEEE-754 rounding of the fill rate: scores are exact rationals.
- 64-bit overflow in `Long.parseLong`: not modelled.
- Unicode case mapping: `Text.Lower` lowercases ASCII letters only, while JavaScript's `toLowerCase` maps all of Unicode.
- The enrolment page's search is modelled with that ASCII mapping.

**Things the database or other code would do**
- Bean validation of names, capacities (1..100) and e-mail format runs before the service is called. `Courses.CapacityInRange` states the capacity rule; the services do not recheck it.
- The database's foreign key on course deletion is not modelled. The service's own guard (`CourseService.DeleteCourse`) is.
- The `escapeHtml` copies in `app.js`, `members.js` and `course-register.js` are the same function without the null guard.
- The other DOM, fetch and modal code of the two pages is not modelled.

**Weakened contracts**
- EnrollmentQueue.GetStatus: the UNKNOWN answer for a record without a status is not modelled, because every record the service writes carries one.
- EnrollmentService.EnrollMultipleCourses: each bulk item runs without interleaved steps or thrown scripts.
- AdmissionGate.NoOverselling: capacity means the capacity cached in the hash. `updateCourse` can lower a course's capacity below its active count. The queue service's hash has no TTL and then keeps the old capacity, and a later bootstrap can seed a count above the new one. The lemma names such bootstraps as the only way over capacity; it does not rule them out.
- EnrollmentService.ValidateEnrollmentBasic: a course without a start date is refused with the placeholder message `MissingStartDate`. The code reaches a NullPointerException there, whose message (null, or a JVM-generated `Cannot invoke …` text) is what the bulk failure list would carry.
- CourseStats.PerformCorrection: a per-key exception that skips one key is not modelled. Only missing courses and non-matching keys are skipped.

## Findings

| source | as written | input that shows it | evidently intended | confidence | as-written member | corrected member |
|---|---|---|---|---|---|---|
| src/main/java/com/wb/edutask/service/EnrollmentService.java:364-367 | `cancelEnrollment` lowers the Redis count with a plain `HINCRBY currentStudents -1`, with no floor and no existence check. | Cancel an active enrolment of a course whose hash has expired or was never cached. The hash `{currentStudents: -1}` appears with no TTL and no `maxStudents`. The bootstrap never overwrites a present count. Every later admission to that course fails with COURSE_NOT_FOUND three times. | Lower the Redis count with the floor decrement `decreaseCourseStudents` that both Redis services already provide. | not executed | EnrollmentService.CancelStrandsUncachedCourse | EnrollmentService.CancelEnrollmentFloored (proved: EnrollmentService.FlooredCancelKeepsHashUsable) |
| src/main/java/com/wb/edutask/service/EnrollmentService.java:262-265 | A queue item whose body throws has already been popped and is not pushed back, although the comment says failed items stay in the queue. | The queue holds one item whose course was deleted after admission. After the drain the list is empty, no row was saved, and the result record still says SUCCESS. | Keep the failing item in the list, so that no admitted request is lost. | not executed | EnrollmentService.DrainLosesUnknownItem | EnrollmentService.DrainRetaining (proved: EnrollmentService.NoItemLost) |
| src/main/java/com/wb/edutask/service/CourseStatsScheduler.java:123-136 | The Redis count is rewritten only when the database column has drifted. | Column = active count = 3 while Redis holds 5, or the stranded −1 above. The pass writes nothing, and the wrong Redis count keeps refusing or stranding admissions. | Reconcile Redis against the active count as well. | not executed | CourseStats.RedisOnlyDriftSurvives | CourseStats.CorrectKeyBoth (proved: CourseStats.CorrectKeyBothSettles) |
