/** The atomic admission gate: the three Lua scripts, each of which Redis runs as one
    indivisible step, the two cache bootstrappers that seed a course hash, the bounded
    retry loop both Redis services wrap around a script, and the capacity invariant
    over arbitrary interleavings of whole steps. */
module AdmissionGate {
  import opened Wrappers
  import opened Courses
  import opened CapacityStore

  /** The status strings the scripts return. */
  datatype Code = Success | CapacityExceeded | CourseNotFound | NoStudentsToDecrease

  function CodeName(c: Code): string {
    match c
    case Success => "SUCCESS"
    case CapacityExceeded => "CAPACITY_EXCEEDED"
    case CourseNotFound => "COURSE_NOT_FOUND"
    case NoStudentsToDecrease => "NO_STUDENTS_TO_DECREASE"
  }

  /** A script's three-element reply `{flag, code, count}`. */
  datatype Reply = Reply(flag: int, code: Code, count: int)

  /** Which script a caller runs: the concurrency service's admission script, the queue
      service's admission script (which also records `student_<id>`), or the queue
      service's cancellation script. */
  datatype Script = DirectEnroll | QueuedEnroll(studentId: nat) | Cancellation(studentId: nat)

  predicate IsEnrollment(s: Script) {
    s.DirectEnroll? || s.QueuedEnroll?
  }

  /** The script finds the hash unusable and answers COURSE_NOT_FOUND. The concurrency
      service's script also needs the `courseId` field; the queue service's scripts do not. */
  predicate NotFoundFor(s: Script, h: CourseHash) {
    match s
    case DirectEnroll => h.currentStudents.None? || h.maxStudents.None? || h.courseId.None?
    case QueuedEnroll(_) => h.currentStudents.None? || h.maxStudents.None?
    case Cancellation(_) => h.currentStudents.None?
  }

  /** One run of a script against the hash: the new hash and the reply.
      `RunScriptContract` states what each run does. */
  function RunScript(s: Script, h: CourseHash): (r: (CourseHash, Reply))
    ensures r.1.flag == 1 <==> r.1.code == Success
    ensures r.1.code == CourseNotFound <==> NotFoundFor(s, h)
    ensures r.1.code == CourseNotFound ==> r == (h, Reply(0, CourseNotFound, 0))
  {
    if NotFoundFor(s, h) then (h, Reply(0, CourseNotFound, 0))
    else
      var cur := h.currentStudents.value;
      match s
      case DirectEnroll =>
        if cur >= h.maxStudents.value then (h, Reply(0, CapacityExceeded, cur))
        else (HIncrBy(h, 1), Reply(1, Success, cur + 1))
      case QueuedEnroll(student) =>
        if cur >= h.maxStudents.value then (h, Reply(0, CapacityExceeded, cur))
        else (HIncrBy(h, 1).(students := h.students + {student}), Reply(1, Success, cur + 1))
      case Cancellation(student) =>
        if cur <= 0 then (h, Reply(0, NoStudentsToDecrease, cur))
        else (HIncrBy(h, -1).(students := h.students - {student}), Reply(1, Success, cur - 1))
  }

  /** What one script run does: a refusal changes nothing; an admission is granted only
      below the capacity and raises the count by one; a cancellation is granted only above
      zero and lowers it by one; the student set follows the `student_<id>` fields; and no
      other field changes. */
  lemma RunScriptContract(s: Script, h: CourseHash)
    ensures var r := RunScript(s, h);
      && (r.1.code != Success ==> r.0 == h)
      && (r.1.code == CapacityExceeded ==>
            IsEnrollment(s) && r.1.count == h.currentStudents.value >= h.maxStudents.value)
      && (r.1.code == NoStudentsToDecrease ==>
            s.Cancellation? && r.1.count == h.currentStudents.value <= 0)
      && (r.1.code == Success && IsEnrollment(s) ==>
            h.currentStudents.value < h.maxStudents.value
            && r.1.count == h.currentStudents.value + 1
            && r.0.currentStudents == Some(r.1.count))
      && (r.1.code == Success && s.Cancellation? ==>
            h.currentStudents.value > 0
            && r.1.count == h.currentStudents.value - 1
            && r.0.currentStudents == Some(r.1.count))
      && r.0.maxStudents == h.maxStudents && r.0.courseId == h.courseId && r.0.ttl == h.ttl
      && r.0.courseName == h.courseName && r.0.instructorId == h.instructorId
      && (r.1.code == Success && s.QueuedEnroll? ==> r.0.students == h.students + {s.studentId})
      && (r.1.code == Success && s.Cancellation? ==> r.0.students == h.students - {s.studentId})
      && (s.DirectEnroll? ==> r.0.students == h.students)
  {
  }

  /** Cancellation undoes a queued admission: a student admitted by the queue service's
      script and then cancelled by its cancellation script leaves the hash exactly as it
      was before the admission. */
  lemma EnrollThenCancelRestores(h: CourseHash, student: nat)
    requires !NotFoundFor(QueuedEnroll(student), h) && student !in h.students
    requires 0 <= h.currentStudents.value < h.maxStudents.value
    ensures var admitted := RunScript(QueuedEnroll(student), h);
            var cancelled := RunScript(Cancellation(student), admitted.0);
            && admitted.1.code == Success && student in admitted.0.students
            && cancelled.1 == Reply(1, Success, h.currentStudents.value)
            && cancelled.0 == h
  {
    var admitted := RunScript(QueuedEnroll(student), h);
    RunScriptContract(QueuedEnroll(student), h);
    RunScriptContract(Cancellation(student), admitted.0);
    var cancelled := RunScript(Cancellation(student), admitted.0);
    assert admitted.0.students - {student} == h.students;
    assert cancelled.0.currentStudents == h.currentStudents;
  }

  // ---------------------------------------------------------------------------
  // Bootstrapping a course hash from the database

  /** The two copies of `syncCourseToRedisIfNeeded`: the concurrency service seeds the
      count from the active-enrolment query and gives the key a 2-minute TTL; the queue
      service seeds it from the course's counter column and sets no TTL. */
  datatype Bootstrapper = ConcurrencyServiceSync | QueueServiceSync

  const CacheTtlMinutes: nat := 2

  /** What the database answers during one call: the course row (if any) and its
      active-enrolment count. */
  datatype Snapshot = Snapshot(course: Option<Course>, activeCount: nat)

  function SeedValue(b: Bootstrapper, db: Snapshot): int
    requires db.course.Some?
  {
    match b
    case ConcurrencyServiceSync => db.activeCount
    case QueueServiceSync => db.course.value.currentStudents
  }

  /** The hash after `putAll` of the course's fields (other fields such as the
      `student_<id>` entries survive the merge). */
  function Seeded(h: CourseHash, courseId: nat, b: Bootstrapper, db: Snapshot): CourseHash
    requires db.course.Some?
  {
    var c := db.course.value;
    h.(currentStudents := Some(SeedValue(b, db)),
       maxStudents := Some(c.maxStudents),
       courseId := Some(courseId),
       courseName := Some(c.courseName),
       instructorId := Some(c.instructorId),
       ttl := if b == ConcurrencyServiceSync then Some(CacheTtlMinutes) else h.ttl)
  }

  /** `syncCourseToRedisIfNeeded`: write the hash only when the course exists and the
      `currentStudents` field is absent. This is a read followed by a separate write. */
  function Sync(rs: HashStore, courseId: nat, b: Bootstrapper, db: Snapshot): (r: HashStore)
    ensures db.course.None? ==> r == rs
    ensures Get(rs, courseId).currentStudents.Some? ==> r == rs
    ensures db.course.Some? && Get(rs, courseId).currentStudents.None? ==>
              Get(r, courseId) == Seeded(Get(rs, courseId), courseId, b, db)
              && Get(r, courseId).currentStudents == Some(SeedValue(b, db))
    ensures Get(r, courseId).currentStudents.Some? <==>
              (Get(rs, courseId).currentStudents.Some? || db.course.Some?)
    ensures forall id :: id != courseId ==> Get(r, id) == Get(rs, id)
  {
    var h := Get(rs, courseId);
    if db.course.None? || h.currentStudents.Some? then rs
    else Put(rs, courseId, Seeded(h, courseId, b, db))
  }

  /** Bootstrapping twice is bootstrapping once, and an existing record is never overwritten. */
  lemma SyncIdempotent(rs: HashStore, courseId: nat, b: Bootstrapper, db: Snapshot, b2: Bootstrapper, db2: Snapshot)
    ensures Sync(Sync(rs, courseId, b, db), courseId, b2, db2)
            == Sync(rs, courseId, b, db) || db.course.None?
    ensures Sync(Sync(rs, courseId, b, db), courseId, b, db) == Sync(rs, courseId, b, db)
  {
  }

  // ---------------------------------------------------------------------------
  // Interleavings of whole steps and the capacity invariant

  /** One indivisible step some client performs on the course hashes. `RawDecrement`
      is the `HINCRBY currentStudents -1` of the direct cancel path. */
  datatype Step =
    | Run(courseId: nat, script: Script)
    | Bootstrap(courseId: nat, b: Bootstrapper, db: Snapshot)
    | Decrease(courseId: nat)
    | RawDecrement(courseId: nat)
    | TtlExpires(courseId: nat)

  function Apply(rs: HashStore, step: Step): HashStore {
    match step
    case Run(id, s) => Put(rs, id, RunScript(s, Get(rs, id)).0)
    case Bootstrap(id, b, db) => Sync(rs, id, b, db)
    case Decrease(id) => DecreaseCourseStudents(rs, id)
    case RawDecrement(id) => Put(rs, id, HIncrBy(Get(rs, id), -1))
    case TtlExpires(id) => Expire(rs, id)
  }

  function ApplyAll(rs: HashStore, steps: seq<Step>): HashStore
    decreases |steps|
  {
    if |steps| == 0 then rs else ApplyAll(Apply(rs, steps[0]), steps[1..])
  }

  /** The count never exceeds the capacity recorded beside it (an absent count reads
      as 0, as HINCRBY reads it). */
  predicate WithinCapacity(h: CourseHash) {
    h.maxStudents.Some? ==> h.currentStudents.GetOr(0) <= h.maxStudents.value
  }

  ghost predicate Bounded(rs: HashStore) {
    forall id :: WithinCapacity(Get(rs, id))
  }

  /** A hash that has a count also has everything the scripts read, and the count is
      between zero and the capacity. */
  predicate WellFormed(h: CourseHash) {
    h.currentStudents.Some? ==>
      h.maxStudents.Some? && h.courseId.Some?
      && 0 <= h.currentStudents.value <= h.maxStudents.value
  }

  ghost predicate AllWellFormed(rs: HashStore) {
    forall id :: WellFormed(Get(rs, id))
  }

  /** The step is a bootstrap of course `id` whose seed exceeds the capacity it writes
      beside it. The database can hold such a course: `updateCourse` stores a new
      `maxStudents` without comparing it with the enrolments already counted. */
  predicate SeedsOverCapacity(step: Step, id: nat) {
    && step.Bootstrap? && step.courseId == id && step.db.course.Some?
    && SeedValue(step.b, step.db) > step.db.course.value.maxStudents
  }

  /** The step is a bootstrap of course `id` whose seed lies outside `0..capacity`. */
  predicate SeedsOutsideCapacity(step: Step, id: nat) {
    && step.Bootstrap? && step.courseId == id && step.db.course.Some?
    && !(0 <= SeedValue(step.b, step.db) <= step.db.course.value.maxStudents)
  }

  /** A script grant never lifts a count above its cached capacity: an admission is
      granted only from a count below `maxStudents`. */
  lemma GrantWithinCapacity(s: Script, h: CourseHash)
    ensures var r := RunScript(s, h);
            r.1.code == Success && IsEnrollment(s) ==>
              h.currentStudents.value < h.maxStudents.value
              && r.0.currentStudents == Some(h.currentStudents.value + 1)
              && r.0.maxStudents == h.maxStudents
              && WithinCapacity(r.0)
  {
    RunScriptContract(s, h);
  }

  /** Only a bootstrap that seeds above the capacity can take a hash above its capacity. */
  lemma StepOverCapacity(rs: HashStore, step: Step, id: nat)
    ensures !WithinCapacity(Get(Apply(rs, step), id)) ==>
              !WithinCapacity(Get(rs, id)) || SeedsOverCapacity(step, id)
  {
    if id == step.courseId {
      match step
      case Run(_, s) =>
        RunScriptContract(s, Get(rs, id));
      case Bootstrap(_, b, db) =>
      case Decrease(_) =>
      case RawDecrement(_) =>
      case TtlExpires(_) =>
    }
  }

  /** No overselling, in any interleaving of script runs, bootstraps, decrements, raw
      decrements and expiries: a count that ends above its cached capacity was already
      above it at the start, or some bootstrap seeded it above. Grants never do it. In
      particular a bounded store stays bounded while no bootstrap seeds above capacity. */
  lemma {:induction false} NoOverselling(rs: HashStore, steps: seq<Step>)
    ensures forall id :: !WithinCapacity(Get(ApplyAll(rs, steps), id)) ==>
              !WithinCapacity(Get(rs, id)) || exists k | 0 <= k < |steps| :: SeedsOverCapacity(steps[k], id)
    ensures Bounded(rs) && (forall k, id | 0 <= k < |steps| :: !SeedsOverCapacity(steps[k], id)) ==>
              Bounded(ApplyAll(rs, steps))
    decreases |steps|
  {
    if |steps| > 0 {
      var rs1 := Apply(rs, steps[0]);
      NoOverselling(rs1, steps[1..]);
      forall id | !WithinCapacity(Get(ApplyAll(rs, steps), id))
        ensures !WithinCapacity(Get(rs, id)) || exists k | 0 <= k < |steps| :: SeedsOverCapacity(steps[k], id)
      {
        StepOverCapacity(rs, steps[0], id);
        if !WithinCapacity(Get(rs1, id)) {
          if !WithinCapacity(Get(rs, id)) {
          } else {
            assert SeedsOverCapacity(steps[0], id);
          }
        } else {
          var k :| 0 <= k < |steps[1..]| && SeedsOverCapacity(steps[1..][k], id);
          assert SeedsOverCapacity(steps[k + 1], id);
        }
      }
    }
  }

  /** Only a raw decrement, or a bootstrap that seeds outside `0..capacity`, can make a
      well-formed hash malformed. */
  lemma StepMalformed(rs: HashStore, step: Step, id: nat)
    ensures !WellFormed(Get(Apply(rs, step), id)) ==>
              !WellFormed(Get(rs, id)) || step == RawDecrement(id) || SeedsOutsideCapacity(step, id)
  {
    if id == step.courseId {
      match step
      case Run(_, s) =>
        RunScriptContract(s, Get(rs, id));
      case Bootstrap(_, b, db) =>
      case Decrease(_) =>
      case RawDecrement(_) =>
      case TtlExpires(_) =>
    }
  }

  /** A hash that ends malformed was malformed at the start, or met the unfloored
      decrement, or was seeded outside `0..capacity`; every other step keeps it well
      formed. */
  lemma {:induction false} WellFormedPreserved(rs: HashStore, steps: seq<Step>)
    ensures forall id :: !WellFormed(Get(ApplyAll(rs, steps), id)) ==>
              || !WellFormed(Get(rs, id))
              || exists k | 0 <= k < |steps| :: steps[k] == RawDecrement(id) || SeedsOutsideCapacity(steps[k], id)
    ensures AllWellFormed(rs)
            && (forall k, id | 0 <= k < |steps| :: steps[k] != RawDecrement(id) && !SeedsOutsideCapacity(steps[k], id)) ==>
              AllWellFormed(ApplyAll(rs, steps))
    decreases |steps|
  {
    if |steps| > 0 {
      var rs1 := Apply(rs, steps[0]);
      WellFormedPreserved(rs1, steps[1..]);
      forall id | !WellFormed(Get(ApplyAll(rs, steps), id))
        ensures || !WellFormed(Get(rs, id))
                || exists k | 0 <= k < |steps| :: steps[k] == RawDecrement(id) || SeedsOutsideCapacity(steps[k], id)
      {
        StepMalformed(rs, steps[0], id);
        if !WellFormed(Get(rs1, id)) {
          if !WellFormed(Get(rs, id)) {
          } else {
            assert steps[0] == RawDecrement(id) || SeedsOutsideCapacity(steps[0], id);
          }
        } else {
          var k :| 0 <= k < |steps[1..]| && (steps[1..][k] == RawDecrement(id) || SeedsOutsideCapacity(steps[1..][k], id));
          assert steps[k + 1] == steps[1..][k];
        }
      }
    }
  }

  /** The unfloored decrement on a course whose hash is missing creates a hash holding
      only `currentStudents = -1`, with no time to live. The hash is not well formed, no
      bootstrap repairs it (the count field is present), no expiry removes it, and every
      admission script answers COURSE_NOT_FOUND against it. */
  lemma RawDecrementStrandsRecord(rs: HashStore, id: nat, s: Script, b: Bootstrapper, db: Snapshot)
    requires id !in rs
    requires IsEnrollment(s)
    ensures var r := Apply(rs, RawDecrement(id));
            && Get(r, id).currentStudents == Some(-1)
            && Get(r, id).ttl.None?
            && !WellFormed(Get(r, id))
            && Stuck(s, Get(r, id))
            && Sync(r, id, b, db) == r
            && Expire(r, id) == r
            && RunScript(s, Get(r, id)).1.code == CourseNotFound
  {
  }

  // ---------------------------------------------------------------------------
  // Many callers against one record

  function RunAll(h: CourseHash, scripts: seq<Script>): (r: (CourseHash, seq<Reply>))
    ensures |r.1| == |scripts|
    decreases |scripts|
  {
    if |scripts| == 0 then (h, [])
    else
      var first := RunScript(scripts[0], h);
      var rest := RunAll(first.0, scripts[1..]);
      (rest.0, [first.1] + rest.1)
  }

  /** The number of granting replies. */
  function Grants(replies: seq<Reply>): nat
    decreases |replies|
  {
    if |replies| == 0 then 0 else (if replies[0].flag == 1 then 1 else 0) + Grants(replies[1..])
  }

  function Min(a: int, b: int): int { if a <= b then a else b }

  /** Whatever the arrival order and whichever students call, admission runs against a
      record with `current <= max` grant exactly the first `max - current` callers, with
      counts `current+1, current+2, ...`, and refuse the rest. */
  lemma {:induction false} ExactlyCapacityGranted(h: CourseHash, scripts: seq<Script>)
    requires h.currentStudents.Some? && h.maxStudents.Some? && h.courseId.Some?
    requires h.currentStudents.value <= h.maxStudents.value
    requires forall k | 0 <= k < |scripts| :: IsEnrollment(scripts[k])
    ensures var cur, max := h.currentStudents.value, h.maxStudents.value;
            var r := RunAll(h, scripts);
            && (forall k | 0 <= k < |scripts| :: r.1[k].flag == 1 <==> k < max - cur)
            && (forall k | 0 <= k < |scripts| && r.1[k].flag == 1 :: r.1[k] == Reply(1, Success, cur + k + 1))
            && (forall k | 0 <= k < |scripts| && r.1[k].flag != 1 :: r.1[k].code == CapacityExceeded)
            && r.0.currentStudents == Some(cur + Min(|scripts|, max - cur))
            && Grants(r.1) == Min(|scripts|, max - cur)
    decreases |scripts|
  {
    if |scripts| > 0 {
      var first := RunScript(scripts[0], h);
      ExactlyCapacityGranted(first.0, scripts[1..]);
      var r := RunAll(h, scripts);
      var rest := RunAll(first.0, scripts[1..]);
      assert r.1 == [first.1] + rest.1;
      assert r.1[1..] == rest.1;
      forall k | 1 <= k < |scripts|
        ensures r.1[k] == rest.1[k - 1]
      {
      }
    }
  }

  /** The stress case: capacity 5, fifty concurrent callers, exactly five grants, with counts 1..5. */
  lemma FiftyCallersFiveSeats(h: CourseHash)
    requires h.currentStudents == Some(0) && h.maxStudents == Some(5) && h.courseId.Some?
    ensures var r := RunAll(h, seq(50, _ => DirectEnroll));
            Grants(r.1) == 5 && r.0.currentStudents == Some(5)
            && forall k | 0 <= k < 5 :: r.1[k] == Reply(1, Success, k + 1)
    ensures Grants(RunAll(h, seq(10, _ => DirectEnroll)).1) == 5
  {
    ExactlyCapacityGranted(h, seq(50, _ => DirectEnroll));
    ExactlyCapacityGranted(h, seq(10, _ => DirectEnroll));
  }

  /** Capacity 3: A, B and C are admitted with counts 1, 2, 3; D is refused; A's
      cancellation brings the count to 2; D's retry is admitted with count 3. */
  lemma EndToEndScenario(h: CourseHash, a: nat, b: nat, c: nat, d: nat)
    requires h.currentStudents == Some(0) && h.maxStudents == Some(3) && h.courseId.Some?
    ensures var r1 := RunScript(QueuedEnroll(a), h);
            var r2 := RunScript(QueuedEnroll(b), r1.0);
            var r3 := RunScript(QueuedEnroll(c), r2.0);
            var r4 := RunScript(QueuedEnroll(d), r3.0);
            var r5 := RunScript(Cancellation(a), r4.0);
            var r6 := RunScript(QueuedEnroll(d), r5.0);
            && r1.1 == Reply(1, Success, 1) && r2.1 == Reply(1, Success, 2) && r3.1 == Reply(1, Success, 3)
            && r4.1 == Reply(0, CapacityExceeded, 3)
            && r5.1 == Reply(1, Success, 2) && r5.0.currentStudents == Some(2)
            && r6.1 == Reply(1, Success, 3)
  {
  }

  // ---------------------------------------------------------------------------
  // The bounded retry loop

  /** The map both services return to their callers. */
  datatype Outcome = Outcome(success: bool, message: string, newCount: Option<int>)

  const MaxAttempts: nat := 3
  const ScriptExecutionError: string := "SCRIPT_EXECUTION_ERROR"

  /** What any exception thrown inside the loop turns into: a refusal. */
  const ErrorOutcome: Outcome := Outcome(false, ScriptExecutionError, None)

  function FromReply(r: Reply): (o: Outcome)
    ensures o.success <==> r.flag == 1
    ensures o != ErrorOutcome
  {
    Outcome(r.flag == 1, CodeName(r.code), Some(r.count))
  }

  /** A granting outcome is reflected in the hash it leaves behind: the hash holds the
      reported count, an admission stays within the capacity and records a queued
      student, a cancellation removes the student and never goes below zero. */
  predicate GrantRecorded(s: Script, h: CourseHash, out: Outcome) {
    out.success ==>
      && out.newCount.Some? && h.currentStudents == out.newCount
      && (IsEnrollment(s) ==> h.maxStudents.Some? && out.newCount.value <= h.maxStudents.value)
      && (s.QueuedEnroll? ==> s.studentId in h.students)
      && (s.Cancellation? ==> s.studentId !in h.students && out.newCount.value >= 0)
  }

  lemma RunScriptRecordsGrant(s: Script, h: CourseHash)
    ensures var run := RunScript(s, h); GrantRecorded(s, run.0, FromReply(run.1))
  {
  }

  /** The record is unusable for the script and no bootstrap will repair it, because its
      count field is already present. */
  predicate Stuck(s: Script, h: CourseHash) {
    h.currentStudents.Some? && NotFoundFor(s, h)
  }

  /** One attempt of the retry loop: run the script, write the hash back, and after a
      COURSE_NOT_FOUND reply bootstrap again. */
  function AttemptOnce(rs: HashStore, courseId: nat, script: Script, b: Bootstrapper, db: Snapshot): (r: (HashStore, Reply))
    ensures r.1 == RunScript(script, Get(rs, courseId)).1
    ensures r.1.code != CourseNotFound ==> Get(r.0, courseId) == RunScript(script, Get(rs, courseId)).0
  {
    var run := RunScript(script, Get(rs, courseId));
    var rs1 := Put(rs, courseId, run.0);
    if run.1.code != CourseNotFound then (rs1, run.1) else (Sync(rs1, courseId, b, db), run.1)
  }

  /** What one attempt of the loop came to: it threw, leaving the store as other clients
      left it, or the script answered. */
  datatype Attempt = Threw(rs: HashStore) | Answered(rs: HashStore, reply: Reply)

  /** The k-th attempt: other clients' steps `interleaved[k]` land first; then the
      attempt throws if `fault` names it, and otherwise runs the script once. */
  function AttemptAt(courseId: nat, script: Script, b: Bootstrapper, db: Snapshot,
                     interleaved: seq<seq<Step>>, fault: Option<nat>, rs: HashStore, k: nat): (r: Attempt)
    ensures r.Threw? <==> fault == Some(k)
  {
    var rs1 := if k < |interleaved| then ApplyAll(rs, interleaved[k]) else rs;
    if fault == Some(k) then Threw(rs1)
    else
      var a := AttemptOnce(rs1, courseId, script, b, db);
      Answered(a.0, a.1)
  }

  /** The attempts of one call to the loop, as a function of the store and the attempt
      number. */
  function Attempts(courseId: nat, script: Script, b: Bootstrapper, db: Snapshot,
                    interleaved: seq<seq<Step>>, fault: Option<nat>): (HashStore, nat) -> Attempt
  {
    (rs: HashStore, k: nat) => AttemptAt(courseId, script, b, db, interleaved, fault, rs, k)
  }

  /** An answered attempt is honest about its reply: the flag is set exactly on SUCCESS,
      COURSE_NOT_FOUND carries no count, and a grant is recorded in the hash it leaves
      behind. */
  predicate Honest(courseId: nat, script: Script, a: Attempt) {
    a.Answered? ==>
      && (a.reply.flag == 1 <==> a.reply.code == Success)
      && (a.reply.code == CourseNotFound ==> a.reply == Reply(0, CourseNotFound, 0))
      && GrantRecorded(script, Get(a.rs, courseId), FromReply(a.reply))
  }

  /** Every attempt is honest and throws exactly when `fault` names it. */
  ghost predicate WellBehaved(next: (HashStore, nat) -> Attempt, courseId: nat, script: Script, fault: Option<nat>) {
    forall rs: HashStore, k: nat :: (next(rs, k).Threw? <==> fault == Some(k)) && Honest(courseId, script, next(rs, k))
  }

  lemma AttemptsWellBehaved(courseId: nat, script: Script, b: Bootstrapper, db: Snapshot,
                            interleaved: seq<seq<Step>>, fault: Option<nat>)
    ensures WellBehaved(Attempts(courseId, script, b, db, interleaved, fault), courseId, script, fault)
  {
    forall rs: HashStore, k: nat
      ensures Honest(courseId, script, AttemptAt(courseId, script, b, db, interleaved, fault, rs, k))
    {
      var rs1 := if k < |interleaved| then ApplyAll(rs, interleaved[k]) else rs;
      RunScriptRecordsGrant(script, Get(rs1, courseId));
    }
  }

  /** What the retry loop has done from attempt `attempt` on: the final store, the replies
      in order, and whether an attempt threw. */
  datatype RetryRun = RetryRun(rs: HashStore, replies: seq<Reply>, faulted: bool)

  /** The retry loop from attempt `attempt` on, as a recursive definition: a thrown
      attempt ends the loop, a COURSE_NOT_FOUND reply leads to the next attempt while
      attempts remain, and any other reply ends it. */
  function Retry(rs: HashStore, next: (HashStore, nat) -> Attempt, attempt: nat): RetryRun
    decreases MaxAttempts - attempt
  {
    if attempt >= MaxAttempts then RetryRun(rs, [], false)
    else
      match next(rs, attempt)
      case Threw(rs1) => RetryRun(rs1, [], true)
      case Answered(rs1, reply) =>
        if reply.code != CourseNotFound then RetryRun(rs1, [reply], false)
        else
          var rest := Retry(rs1, next, attempt + 1);
          RetryRun(rest.rs, [reply] + rest.replies, rest.faulted)
  }

  /** What every run of the retry loop guarantees: at most three replies, all but the
      last COURSE_NOT_FOUND; a thrown attempt is the one `fault` names and follows only
      COURSE_NOT_FOUND replies; without a fault the loop ends on a decisive reply or after
      the third attempt; and a grant is recorded in the hash left behind. */
  lemma {:induction false} RetryContract(rs: HashStore, next: (HashStore, nat) -> Attempt, attempt: nat,
                                         courseId: nat, script: Script, fault: Option<nat>)
    requires WellBehaved(next, courseId, script, fault)
    ensures var q := Retry(rs, next, attempt);
            var n := |q.replies|;
            && (attempt >= MaxAttempts ==> q == RetryRun(rs, [], false))
            && (attempt + n <= MaxAttempts || attempt >= MaxAttempts)
            && (forall k | 0 <= k < n - 1 :: q.replies[k] == Reply(0, CourseNotFound, 0))
            && (q.faulted ==>
                  fault == Some(attempt + n) && forall k | 0 <= k < n :: q.replies[k] == Reply(0, CourseNotFound, 0))
            && (attempt < MaxAttempts && fault == Some(attempt) ==> q.faulted && q.replies == [])
            && (fault.None? || fault.value < attempt ==> !q.faulted)
            && (attempt < MaxAttempts && !q.faulted ==> n >= 1)
            && (!q.faulted && attempt + n < MaxAttempts ==> q.replies[n - 1].code != CourseNotFound)
    decreases MaxAttempts - attempt
  {
    if attempt < MaxAttempts {
      var a := next(rs, attempt);
      assert Honest(courseId, script, a);
      if a.Answered? && a.reply.code == CourseNotFound {
        RetryContract(a.rs, next, attempt + 1, courseId, script, fault);
      }
    }
  }

  /** The reply that ends the loop is honest: its flag is set exactly on SUCCESS, and a
      grant is recorded in the hash the loop leaves behind. */
  lemma {:induction false} RetryLastReply(rs: HashStore, next: (HashStore, nat) -> Attempt, attempt: nat,
                                          courseId: nat, script: Script, fault: Option<nat>)
    requires WellBehaved(next, courseId, script, fault)
    ensures var q := Retry(rs, next, attempt);
            var n := |q.replies|;
            && (n >= 1 ==> (q.replies[n - 1].flag == 1 <==> q.replies[n - 1].code == Success))
            && (!q.faulted && n >= 1 ==> GrantRecorded(script, Get(q.rs, courseId), FromReply(q.replies[n - 1])))
    decreases MaxAttempts - attempt
  {
    if attempt < MaxAttempts {
      var a := next(rs, attempt);
      assert Honest(courseId, script, a);
      if a.Answered? && a.reply.code == CourseNotFound {
        RetryLastReply(a.rs, next, attempt + 1, courseId, script, fault);
        var rest := Retry(a.rs, next, attempt + 1);
        if |rest.replies| >= 1 {
          assert Retry(rs, next, attempt).replies[|rest.replies|] == rest.replies[|rest.replies| - 1];
        }
      }
    }
  }

  /** The loop itself: attempt after attempt until one throws, one answers with anything
      but COURSE_NOT_FOUND, or three have run. */
  method RetryLoop(rs0: HashStore, next: (HashStore, nat) -> Attempt)
    returns (rs: HashStore, replies: seq<Reply>, faulted: bool)
    ensures RetryRun(rs, replies, faulted) == Retry(rs0, next, 0)
  {
    rs, replies, faulted := rs0, [], false;
    var attempt := 0;
    ghost var whole := Retry(rs, next, attempt);
    assert replies + whole.replies == whole.replies;
    while attempt < MaxAttempts
      invariant 0 <= attempt <= MaxAttempts
      invariant var r := Retry(rs, next, attempt);
                whole == RetryRun(r.rs, replies + r.replies, r.faulted)
    {
      var a := next(rs, attempt);
      match a
      case Threw(rs1) =>
        assert replies + [] == replies;
        rs, faulted := rs1, true;
        return;
      case Answered(rs1, reply) =>
        ghost var rest := Retry(rs1, next, attempt + 1);
        rs, replies := rs1, replies + [reply];
        if reply.code != CourseNotFound {
          return;
        }
        assert whole.replies == replies + rest.replies;
        attempt := attempt + 1;
    }
    assert replies + [] == replies;
  }

  /** The sync-then-run loop of `executeEnrollmentLuaScript`, `enqueueEnrollmentRequest`
      and `enqueueCancelRequest`: bootstrap, run the script, and only after a
      COURSE_NOT_FOUND reply bootstrap again and retry, at most three runs in all.
      `interleaved[k]` are other clients' steps that land between the k-th bootstrap and
      the k-th run; `fault == Some(k)` makes the k-th run throw, and the caller then sees
      SCRIPT_EXECUTION_ERROR. The 50 ms pause between runs is not modelled. */
  method RunWithRetry(rs0: HashStore, courseId: nat, script: Script, b: Bootstrapper, db: Snapshot,
                      interleaved: seq<seq<Step>>, fault: Option<nat>)
    returns (rs: HashStore, replies: seq<Reply>, out: Outcome)
    ensures |replies| <= MaxAttempts
    ensures forall k | 0 <= k < |replies| - 1 :: replies[k].code == CourseNotFound
    ensures out == ErrorOutcome || (|replies| >= 1 && out == FromReply(replies[|replies| - 1]))
    ensures out == ErrorOutcome ==>
              fault == Some(|replies|) && forall k | 0 <= k < |replies| :: replies[k].code == CourseNotFound
    ensures fault == Some(0) ==> out == ErrorOutcome && replies == []
    ensures fault.None? ==> out != ErrorOutcome
    ensures out != ErrorOutcome && |replies| < MaxAttempts ==> replies[|replies| - 1].code != CourseNotFound
    ensures out.success ==> replies[|replies| - 1].code == Success
    ensures out.success <==> Grants(replies) == 1
    ensures Grants(replies) <= 1
    ensures GrantRecorded(script, Get(rs, courseId), out)
    ensures RetryRun(rs, replies, out == ErrorOutcome)
            == Retry(Sync(rs0, courseId, b, db), Attempts(courseId, script, b, db, interleaved, fault), 0)
  {
    var next := Attempts(courseId, script, b, db, interleaved, fault);
    var faulted;
    rs, replies, faulted := RetryLoop(Sync(rs0, courseId, b, db), next);
    AttemptsWellBehaved(courseId, script, b, db, interleaved, fault);
    RetryContract(Sync(rs0, courseId, b, db), next, 0, courseId, script, fault);
    RetryLastReply(Sync(rs0, courseId, b, db), next, 0, courseId, script, fault);
    GrantsOfRetry(replies);
    if faulted {
      out := ErrorOutcome;
    } else {
      out := FromReply(replies[|replies| - 1]);
    }
  }

  /** Only the last of a run of COURSE_NOT_FOUND replies can grant. */
  lemma {:induction false} GrantsOfRetry(replies: seq<Reply>)
    requires forall k | 0 <= k < |replies| - 1 :: replies[k] == Reply(0, CourseNotFound, 0)
    ensures Grants(replies) == if |replies| > 0 && replies[|replies| - 1].flag == 1 then 1 else 0
    decreases |replies|
  {
    if |replies| > 1 {
      GrantsOfRetry(replies[1..]);
    }
  }

  /** A stuck record stays stuck: every remaining attempt answers COURSE_NOT_FOUND and
      the store does not change. */
  lemma {:induction false} RetryOnStuck(rs: HashStore, courseId: nat, script: Script, b: Bootstrapper,
                                        db: Snapshot, attempt: nat)
    requires attempt <= MaxAttempts
    requires Stuck(script, Get(rs, courseId))
    ensures var q := Retry(rs, Attempts(courseId, script, b, db, [], None), attempt);
            q.rs == rs && |q.replies| == MaxAttempts - attempt
            && forall k | 0 <= k < |q.replies| :: q.replies[k] == Reply(0, CourseNotFound, 0)
    decreases MaxAttempts - attempt
  {
    if attempt < MaxAttempts {
      RetryOnStuck(rs, courseId, script, b, db, attempt + 1);
    }
  }

  /** A course missing from the database never gets a hash: with an unusable hash every
      attempt answers COURSE_NOT_FOUND and the store does not change. */
  lemma {:induction false} RetryOnMissingCourse(rs: HashStore, courseId: nat, script: Script,
                                                b: Bootstrapper, db: Snapshot, attempt: nat)
    requires attempt <= MaxAttempts
    requires db.course.None? && NotFoundFor(script, Get(rs, courseId))
    ensures var q := Retry(rs, Attempts(courseId, script, b, db, [], None), attempt);
            q.rs == rs && |q.replies| == MaxAttempts - attempt
            && forall k | 0 <= k < |q.replies| :: q.replies[k] == Reply(0, CourseNotFound, 0)
    decreases MaxAttempts - attempt
  {
    if attempt < MaxAttempts {
      RetryOnMissingCourse(rs, courseId, script, b, db, attempt + 1);
    }
  }

  /** Undisturbed, against a hash the script can use, the loop is one run of the script:
      no bootstrap writes (the count is present) and the first reply is decisive. */
  lemma RetryOnUsableHash(rs0: HashStore, courseId: nat, script: Script, b: Bootstrapper, db: Snapshot)
    requires !NotFoundFor(script, Get(rs0, courseId))
    ensures var run := RunScript(script, Get(rs0, courseId));
            Retry(Sync(rs0, courseId, b, db), Attempts(courseId, script, b, db, [], None), 0)
              == RetryRun(Put(rs0, courseId, run.0), [run.1], false)
  {
    assert Sync(rs0, courseId, b, db) == rs0;
  }

  /** Liveness of the bounded retry, in the three undisturbed cases: a stuck record gives
      three COURSE_NOT_FOUND replies; a missing course gives three and changes nothing; a
      well-formed or missing hash of an existing course is decided by the first run. */
  lemma RetryOutcomes(rs0: HashStore, courseId: nat, script: Script, b: Bootstrapper, db: Snapshot)
    ensures Stuck(script, Get(rs0, courseId)) ==>
              var q := Retry(Sync(rs0, courseId, b, db), Attempts(courseId, script, b, db, [], None), 0);
              |q.replies| == MaxAttempts && forall k | 0 <= k < |q.replies| :: q.replies[k] == Reply(0, CourseNotFound, 0)
    ensures db.course.None? && NotFoundFor(script, Get(rs0, courseId)) ==>
              var q := Retry(Sync(rs0, courseId, b, db), Attempts(courseId, script, b, db, [], None), 0);
              q.rs == rs0 && |q.replies| == MaxAttempts
              && forall k | 0 <= k < |q.replies| :: q.replies[k] == Reply(0, CourseNotFound, 0)
    ensures db.course.Some? && WellFormed(Get(rs0, courseId)) ==>
              var q := Retry(Sync(rs0, courseId, b, db), Attempts(courseId, script, b, db, [], None), 0);
              |q.replies| == 1 && q.replies[0].code != CourseNotFound
    ensures db.course.Some? && Get(rs0, courseId).currentStudents.None? ==>
              var run := RunScript(script, Seeded(Get(rs0, courseId), courseId, b, db));
              Retry(Sync(rs0, courseId, b, db), Attempts(courseId, script, b, db, [], None), 0)
                == RetryRun(Put(Sync(rs0, courseId, b, db), courseId, run.0), [run.1], false)
  {
    var rs := Sync(rs0, courseId, b, db);
    if Stuck(script, Get(rs0, courseId)) {
      RetryOnStuck(rs, courseId, script, b, db, 0);
    }
    if db.course.None? && NotFoundFor(script, Get(rs0, courseId)) {
      RetryOnMissingCourse(rs, courseId, script, b, db, 0);
    }
  }
}
