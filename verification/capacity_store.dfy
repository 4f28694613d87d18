/** The Redis hash `course:<id>` that backs the admission gate, and the single-command
    operations the services run on it outside the Lua scripts. */
module CapacityStore {
  import opened Wrappers

  /** The fields of one course hash. Redis stores them as strings; every writer in the
      system writes decimal integers, so the numeric fields are kept as numbers.
      `students` holds the ids of the `student_<id>` fields; `ttl` is the key's
      remaining time to live in minutes, `None` for a key that never expires. */
  datatype CourseHash = CourseHash(
    currentStudents: Option<int>,
    maxStudents: Option<int>,
    courseId: Option<nat>,
    courseName: Option<string>,
    instructorId: Option<nat>,
    students: set<nat>,
    ttl: Option<nat>)

  /** What every Redis read sees for a key that does not exist. */
  const Absent: CourseHash := CourseHash(None, None, None, None, None, {}, None)

  /** The course hashes, keyed by course id. A missing key reads as `Absent`. */
  type HashStore = map<nat, CourseHash>

  function Get(rs: HashStore, courseId: nat): CourseHash {
    if courseId in rs then rs[courseId] else Absent
  }

  /** Writes a hash back; a write that changes nothing leaves the store as it was. */
  function Put(rs: HashStore, courseId: nat, h: CourseHash): (r: HashStore)
    ensures Get(r, courseId) == h
    ensures forall id :: id != courseId ==> Get(r, id) == Get(rs, id)
  {
    if h == Get(rs, courseId) then rs else rs[courseId := h]
  }

  /** HINCRBY on `currentStudents`: an absent field counts as 0, and an absent key is
      created (without a time to live). */
  function HIncrBy(h: CourseHash, delta: int): (r: CourseHash)
    ensures r.currentStudents == Some(h.currentStudents.GetOr(0) + delta)
    ensures r == h.(currentStudents := r.currentStudents)
  {
    h.(currentStudents := Some(h.currentStudents.GetOr(0) + delta))
  }

  /** The key's time to live runs out. A key without a TTL never expires. */
  function Expire(rs: HashStore, courseId: nat): (r: HashStore)
    ensures Get(rs, courseId).ttl.Some? ==> Get(r, courseId) == Absent
    ensures Get(rs, courseId).ttl.None? ==> r == rs
    ensures forall id :: id != courseId ==> Get(r, id) == Get(rs, id)
  {
    if Get(rs, courseId).ttl.Some? then rs - {courseId} else rs
  }

  /** `decreaseCourseStudents` (the same code in both Redis services): read the field,
      write back one less only when it is positive; an absent field is left absent.
      The read and the write are two commands, not one atomic step. */
  function DecreaseCourseStudents(rs: HashStore, courseId: nat): (r: HashStore)
    ensures Get(rs, courseId).currentStudents.None? ==> r == rs
    ensures Get(rs, courseId).currentStudents.Some? && Get(rs, courseId).currentStudents.value <= 0 ==> r == rs
    ensures Get(rs, courseId).currentStudents.Some? && Get(rs, courseId).currentStudents.value > 0 ==>
              Get(r, courseId) == Get(rs, courseId).(currentStudents := Some(Get(rs, courseId).currentStudents.value - 1))
    ensures forall id :: id != courseId ==> Get(r, id) == Get(rs, id)
  {
    var h := Get(rs, courseId);
    if h.currentStudents.Some? && h.currentStudents.value > 0 then
      Put(rs, courseId, h.(currentStudents := Some(h.currentStudents.value - 1)))
    else rs
  }

  /** The floor decrement never produces a negative count: starting from a count that
      is not negative, the result is not negative, and a zero stays zero. */
  lemma DecreaseNeverNegative(rs: HashStore, courseId: nat)
    requires Get(rs, courseId).currentStudents.Some? ==> Get(rs, courseId).currentStudents.value >= 0
    ensures var h' := Get(DecreaseCourseStudents(rs, courseId), courseId);
            h'.currentStudents.Some? ==> h'.currentStudents.value >= 0
    ensures Get(rs, courseId).currentStudents == Some(0) ==> DecreaseCourseStudents(rs, courseId) == rs
  {
  }
}
