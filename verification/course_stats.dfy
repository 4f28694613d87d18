/** `CourseStatsScheduler`: a periodic pass, guarded by a Redis lease, that brings each
    cached course's `currentStudents` column back to the active-enrolment count. */
module CourseStats {
  import opened Wrappers
  import opened Text
  import opened Courses
  import opened EnrollmentRepository
  import opened CapacityStore
  import AdmissionGate

  // ---------------------------------------------------------------------------
  // The lease

  const LockKey: string := "lock:course-stats-sync"
  const LeaseSeconds: nat := 50

  /** The value of the lock key: the token of the runner holding the lease, if any. */
  type Lock = Option<string>

  /** SET NX: the lease is taken only when nobody holds it. */
  function SetIfAbsent(lock: Lock, token: string): (r: (Lock, bool))
    ensures r.1 <==> lock.None?
    ensures r.1 ==> r.0 == Some(token)
    ensures !r.1 ==> r.0 == lock
  {
    if lock.None? then (Some(token), true) else (lock, false)
  }

  /** The unlock script: delete the key only when it still holds this runner's token;
      the reply is the number of keys deleted. */
  function Unlock(lock: Lock, token: string): (r: (Lock, int))
    ensures r.1 == 1 <==> lock == Some(token)
    ensures r.1 == 1 ==> r.0.None?
    ensures r.1 != 1 ==> r.1 == 0 && r.0 == lock
  {
    if lock == Some(token) then (None, 1) else (lock, 0)
  }

  /** While one runner holds the lease no other runner acquires it, and no other runner's
      unlock takes it away; the holder's own unlock frees it for the next runner. */
  lemma LeaseExclusive(a: string, b: string)
    requires a != b
    ensures var held := SetIfAbsent(None, a).0;
            && held == Some(a)
            && SetIfAbsent(held, b) == (held, false)
            && Unlock(held, b) == (held, 0)
            && Unlock(held, a) == (None, 1)
            && SetIfAbsent(Unlock(held, a).0, b) == (Some(b), true)
  {
  }

  // ---------------------------------------------------------------------------
  // Keys

  /** The pieces of `s` between colons, empty pieces included. */
  function Pieces(s: string): (r: seq<string>)
    ensures |r| >= 1
    decreases |s|
  {
    if |s| == 0 then [""]
    else
      var rest := Pieces(s[1..]);
      if s[0] == ':' then [""] + rest else [[s[0]] + rest[0]] + rest[1..]
  }

  /** The pieces joined back with colons. */
  function Join(parts: seq<string>): string
    decreases |parts|
  {
    if |parts| == 0 then ""
    else if |parts| == 1 then parts[0]
    else parts[0] + ":" + Join(parts[1..])
  }

  /** Splitting and joining again gives the key back, and no piece holds a colon. */
  lemma {:induction false} PiecesRoundTrip(s: string)
    ensures Join(Pieces(s)) == s
    ensures forall i | 0 <= i < |Pieces(s)| :: ':' !in Pieces(s)[i]
    decreases |s|
  {
    if |s| > 0 {
      PiecesRoundTrip(s[1..]);
      var rest := Pieces(s[1..]);
      if s[0] != ':' {
        if |rest| == 1 {
          assert Join(Pieces(s)) == [s[0]] + rest[0];
        } else {
          assert Pieces(s)[1..] == rest[1..];
          assert Join(Pieces(s)) == ([s[0]] + rest[0]) + ":" + Join(rest[1..]);
        }
      }
      assert s == [s[0]] + s[1..];
    }
  }

  lemma {:induction false} PiecesOfColonFree(a: string, b: string)
    requires ':' !in a
    ensures Pieces(a + ":" + b) == [a] + Pieces(b)
    decreases |a|
  {
    if |a| > 0 {
      assert (a + ":" + b)[1..] == a[1..] + ":" + b;
      PiecesOfColonFree(a[1..], b);
      assert [a[0]] + a[1..] == a;
    } else {
      assert (a + ":" + b)[1..] == b;
    }
  }

  lemma {:induction false} PiecesOfNoColon(s: string)
    requires ':' !in s
    ensures Pieces(s) == [s]
    decreases |s|
  {
    if |s| > 0 {
      PiecesOfNoColon(s[1..]);
      assert [s[0]] + s[1..] == s;
    }
  }

  /** Java's `split(":")`: the pieces with the trailing empty ones removed. */
  function Split(s: string): (r: seq<string>)
  {
    DropTrailingEmpty(Pieces(s))
  }

  function DropTrailingEmpty(parts: seq<string>): (r: seq<string>)
    ensures |r| <= |parts| && r == parts[..|r|]
    ensures |r| > 0 ==> r[|r| - 1] != ""
    ensures forall i | |r| <= i < |parts| :: parts[i] == ""
    decreases |parts|
  {
    if |parts| == 0 then []
    else if parts[|parts| - 1] == "" then DropTrailingEmpty(parts[..|parts| - 1])
    else parts
  }

  const CoursePrefix: string := "course:"
  const BadKeyPrefix: string := "잘못된 Redis 키 형식: "

  /** The key filter `course:\d+`: the prefix and then one or more digits, nothing else. */
  predicate IsCourseKey(key: string) {
    |key| > |CoursePrefix| && key[..|CoursePrefix|] == CoursePrefix && AllDigits(key[|CoursePrefix|..])
  }

  /** The course id a course key names. */
  function KeyId(key: string): nat
    requires IsCourseKey(key)
  {
    DigitsValue(key[|CoursePrefix|..])
  }

  /** `extractCourseIdFromKey`: parse the second colon-separated piece; fewer than two
      pieces is an error, and so is a second piece that is not a number. */
  function ExtractCourseIdFromKey(key: string): (r: Result<int>)
    ensures |Split(key)| < 2 ==> r == Err(BadKeyPrefix + key)
    ensures |Split(key)| >= 2 ==> (r.Ok? <==> ParseLong(Split(key)[1]).Some?)
    ensures r.Ok? ==> r.value == ParseLong(Split(key)[1]).value
  {
    var parts := Split(key);
    if |parts| >= 2 then
      match ParseLong(parts[1])
      case Some(v) => Ok(v)
      case None => Err("For input string: \"" + parts[1] + "\"")
    else Err(BadKeyPrefix + key)
  }

  /** Every key the filter lets through parses to the id it names, and the key of course
      `id` is let through and parses to `id`. */
  lemma ExtractFromCourseKey(key: string, id: nat)
    ensures IsCourseKey(key) ==> ExtractCourseIdFromKey(key) == Ok(KeyId(key) as int)
    ensures IsCourseKey(CoursePrefix + NatToString(id)) && KeyId(CoursePrefix + NatToString(id)) == id
  {
    if IsCourseKey(key) {
      var digits := key[|CoursePrefix|..];
      assert key == "course" + ":" + digits;
      PiecesOfColonFree("course", digits);
      PiecesOfNoColon(digits);
      assert Pieces(key) == ["course", digits];
    }
    var k := CoursePrefix + NatToString(id);
    assert k[|CoursePrefix|..] == NatToString(id);
    DigitsValueOfNatToString(id);
  }

  /** The ranking keys share the `course:` prefix and are filtered out. */
  lemma RankingKeysExcluded()
    ensures !IsCourseKey("course:ranking:applicants") && !IsCourseKey("course:ranking:rate")
  {
    assert !IsDigit("course:ranking:applicants"[|CoursePrefix|..][0]);
    assert !IsDigit("course:ranking:rate"[|CoursePrefix|..][0]);
  }

  // ---------------------------------------------------------------------------
  // The correction pass

  /** The Redis hash after a correction: the count field set and a fresh 2-minute TTL. */
  function Refreshed(h: CourseHash, count: int): (r: CourseHash)
    ensures r.currentStudents == Some(count) && r.ttl == Some(AdmissionGate.CacheTtlMinutes)
    ensures r.maxStudents == h.maxStudents && r.courseId == h.courseId && r.students == h.students
  {
    h.(currentStudents := Some(count), ttl := Some(AdmissionGate.CacheTtlMinutes))
  }

  /** The key names an existing course, so the pass looks at it. */
  predicate Reconciles(courses: map<nat, Course>, key: string) {
    IsCourseKey(key) && KeyId(key) in courses
  }

  /** Some key of the scan names course `id`. */
  predicate Named(keys: seq<string>, id: nat) {
    exists k | 0 <= k < |keys| :: IsCourseKey(keys[k]) && KeyId(keys[k]) == id
  }

  /** One key of `performCorrection` as written: the key's id is the one
      `extractCourseIdFromKey` returns (`ExtractFromCourseKey`); the column and the Redis
      count are both rewritten only when the column differs from the active count. */
  function CorrectKey(courses: map<nat, Course>, t: Table, rs: HashStore, key: string): (r: (map<nat, Course>, HashStore))
    ensures r.0.Keys == courses.Keys
    ensures !Reconciles(courses, key) ==> r == (courses, rs)
    ensures Reconciles(courses, key) ==>
              var id := KeyId(key);
              var n := CountActive(t, id);
              && r.0 == courses[id := courses[id].(currentStudents := n)]
              && (courses[id].currentStudents != n ==> r.1 == Put(rs, id, Refreshed(Get(rs, id), n)))
              && (courses[id].currentStudents == n ==> r.1 == rs)
  {
    if !IsCourseKey(key) then (courses, rs)
    else
      var id := KeyId(key);
      if id !in courses then (courses, rs)
      else
        var n := CountActive(t, id);
        if n != courses[id].currentStudents then
          (courses[id := courses[id].(currentStudents := n)], Put(rs, id, Refreshed(Get(rs, id), n)))
        else (courses, rs)
  }

  lemma NamedSnoc(keys: seq<string>, key: string)
    ensures forall id :: Named(keys + [key], id) <==> Named(keys, id) || (IsCourseKey(key) && KeyId(key) == id)
  {
    forall id
      ensures Named(keys + [key], id) <==> Named(keys, id) || (IsCourseKey(key) && KeyId(key) == id)
    {
      if Named(keys + [key], id) && !(IsCourseKey(key) && KeyId(key) == id) {
        var k :| 0 <= k < |keys| + 1 && IsCourseKey((keys + [key])[k]) && KeyId((keys + [key])[k]) == id;
        assert keys[k] == (keys + [key])[k];
      }
      if Named(keys, id) {
        var k :| 0 <= k < |keys| && IsCourseKey(keys[k]) && KeyId(keys[k]) == id;
        assert (keys + [key])[k] == keys[k];
      }
      if IsCourseKey(key) && KeyId(key) == id {
        assert (keys + [key])[|keys|] == key;
      }
    }
  }

  /** The column the pass leaves for a course: the active count when a key names it. */
  ghost predicate ColumnsSettled(courses: map<nat, Course>, t: Table, keys: seq<string>, courses': map<nat, Course>) {
    && courses'.Keys == courses.Keys
    && (forall id | id in courses ::
          courses'[id] == courses[id].(currentStudents := courses'[id].currentStudents))
    && (forall id | id in courses && Named(keys, id) :: courses'[id].currentStudents == CountActive(t, id))
    && (forall id | id in courses && !Named(keys, id) :: courses'[id] == courses[id])
  }

  /** The hash the pass leaves for a course: refreshed exactly when a key names it and
      its column had drifted. */
  ghost predicate HashesSettled(courses: map<nat, Course>, t: Table, rs: HashStore, keys: seq<string>, rs': HashStore) {
    && (forall id | id in courses && Named(keys, id) ::
          Get(rs', id) == if courses[id].currentStudents != CountActive(t, id)
                          then Refreshed(Get(rs, id), CountActive(t, id)) else Get(rs, id))
    && (forall id | !(id in courses && Named(keys, id)) :: Get(rs', id) == Get(rs, id))
  }

  lemma CorrectKeyColumns(courses: map<nat, Course>, t: Table, done: seq<string>, key: string,
                          cur: map<nat, Course>, rs: HashStore)
    requires ColumnsSettled(courses, t, done, cur)
    ensures ColumnsSettled(courses, t, done + [key], CorrectKey(cur, t, rs, key).0)
  {
    NamedSnoc(done, key);
  }

  lemma CorrectKeyHashes(courses: map<nat, Course>, t: Table, rs: HashStore, done: seq<string>, key: string,
                         cur: map<nat, Course>, rs1: HashStore)
    requires ColumnsSettled(courses, t, done, cur) && HashesSettled(courses, t, rs, done, rs1)
    ensures HashesSettled(courses, t, rs, done + [key], CorrectKey(cur, t, rs1, key).1)
  {
    NamedSnoc(done, key);
    var r := CorrectKey(cur, t, rs1, key);
    if IsCourseKey(key) && KeyId(key) in courses {
      var id := KeyId(key);
      var n := CountActive(t, id);
      if Named(done, id) {
        assert cur[id].currentStudents == n;
        assert r.1 == rs1;
      } else {
        assert cur[id] == courses[id];
      }
    }
  }

  /** `performCorrection` over the keys the scan returned, in the order given. Afterwards
      every named existing course has its column equal to its active count; the Redis
      hash of a course changes exactly when its column had drifted; everything else is
      left alone. */
  method PerformCorrection(courses: map<nat, Course>, t: Table, rs: HashStore, keys: seq<string>)
    returns (courses': map<nat, Course>, rs': HashStore)
    ensures courses'.Keys == courses.Keys
    ensures forall id | id in courses ::
              courses'[id] == courses[id].(currentStudents := courses'[id].currentStudents)
    ensures forall id | id in courses && Named(keys, id) :: courses'[id].currentStudents == CountActive(t, id)
    ensures forall id | id in courses && !Named(keys, id) :: courses'[id] == courses[id]
    ensures forall id | id in courses && Named(keys, id) ::
              Get(rs', id) == if courses[id].currentStudents != CountActive(t, id)
                              then Refreshed(Get(rs, id), CountActive(t, id)) else Get(rs, id)
    ensures forall id | !(id in courses && Named(keys, id)) :: Get(rs', id) == Get(rs, id)
  {
    courses', rs' := courses, rs;
    var i := 0;
    while i < |keys|
      invariant 0 <= i <= |keys|
      invariant ColumnsSettled(courses, t, keys[..i], courses')
      invariant HashesSettled(courses, t, rs, keys[..i], rs')
    {
      var key := keys[i];
      CorrectKeyColumns(courses, t, keys[..i], key, courses', rs');
      CorrectKeyHashes(courses, t, rs, keys[..i], key, courses', rs');
      var step := CorrectKey(courses', t, rs', key);
      courses', rs' := step.0, step.1;
      assert keys[..i + 1] == keys[..i] + [key];
      i := i + 1;
    }
    assert keys[..i] == keys;
  }

  /** A drift in Redis alone is left as it is: with the column already equal to the
      active count, the pass writes nothing, whatever the Redis count says. */
  lemma RedisOnlyDriftSurvives(courses: map<nat, Course>, t: Table, rs: HashStore, id: nat)
    requires id in courses && courses[id].currentStudents == CountActive(t, id)
    ensures CorrectKey(courses, t, rs, CoursePrefix + NatToString(id)) == (courses, rs)
  {
    ExtractFromCourseKey(CoursePrefix + NatToString(id), id);
  }

  /** A hash stranded by a raw decrement (only the count field, no TTL) survives every pass
      that finds the column right, and so never expires. */
  lemma StrandedHashNeverExpires(courses: map<nat, Course>, t: Table, rs: HashStore, id: nat)
    requires id in courses && courses[id].currentStudents == CountActive(t, id)
    requires Get(rs, id) == Absent.(currentStudents := Some(-1))
    ensures var r := CorrectKey(courses, t, rs, CoursePrefix + NatToString(id));
            Expire(r.1, id) == rs && Get(r.1, id).currentStudents == Some(-1)
  {
    RedisOnlyDriftSurvives(courses, t, rs, id);
  }

  /** One key with the Redis count compared as well: the column is fixed when it has
      drifted, and the hash is refreshed when either the column or the Redis count has. */
  function CorrectKeyBoth(courses: map<nat, Course>, t: Table, rs: HashStore, key: string): (r: (map<nat, Course>, HashStore))
    ensures r.0 == CorrectKey(courses, t, rs, key).0
    ensures !Reconciles(courses, key) ==> r == (courses, rs)
    ensures Reconciles(courses, key) ==>
              var id := KeyId(key);
              var n := CountActive(t, id);
              && r.0[id].currentStudents == n
              && Get(r.1, id).currentStudents == Some(n)
              && (courses[id].currentStudents == n && Get(rs, id).currentStudents == Some(n) ==> r.1 == rs)
              && forall other :: other != id ==> Get(r.1, other) == Get(rs, other)
  {
    var w := CorrectKey(courses, t, rs, key);
    if !Reconciles(courses, key) then w
    else
      var id := KeyId(key);
      var n := CountActive(t, id);
      if Get(w.1, id).currentStudents == Some(n) then w
      else (w.0, Put(rs, id, Refreshed(Get(rs, id), n)))
  }

  /** With both counts compared, every pass leaves column and Redis count equal to the
      active count for the key's course, which is the state the pass is meant to reach. */
  lemma CorrectKeyBothSettles(courses: map<nat, Course>, t: Table, rs: HashStore, id: nat)
    requires id in courses
    ensures var key := CoursePrefix + NatToString(id);
            var r := CorrectKeyBoth(courses, t, rs, key);
            && r.0[id].currentStudents == CountActive(t, id)
            && Get(r.1, id).currentStudents == Some(CountActive(t, id) as int)
            && CorrectKeyBoth(r.0, t, r.1, key) == r
  {
    ExtractFromCourseKey(CoursePrefix + NatToString(id), id);
  }

  // ---------------------------------------------------------------------------
  // The scheduled run

  /** `correctCurrentStudentsData`: take the lease with a fresh token or return at once;
      otherwise run the pass and release the lease in any case. `takeover` is the token of
      another runner that took the lease after ours ran out during the pass. */
  method CorrectCurrentStudentsData(lock: Lock, token: string, courses: map<nat, Course>, t: Table,
                                    rs: HashStore, keys: seq<string>, takeover: Option<string>)
    returns (lock': Lock, courses': map<nat, Course>, rs': HashStore, ran: bool)
    ensures ran <==> lock.None?
    ensures !ran ==> lock' == lock && courses' == courses && rs' == rs
    ensures ran && takeover.None? ==> lock'.None?
    ensures ran && takeover.Some? && takeover != Some(token) ==> lock' == takeover
    ensures courses'.Keys == courses.Keys
    ensures forall id | id in courses ::
              courses'[id] == courses[id].(currentStudents := courses'[id].currentStudents)
    ensures ran ==> forall id | id in courses && Named(keys, id) :: courses'[id].currentStudents == CountActive(t, id)
    ensures forall id | id in courses && !Named(keys, id) :: courses'[id] == courses[id]
    // a drifted course gets its Redis count rewritten with a fresh TTL; other hashes stay
    ensures ran ==> forall id | id in courses && Named(keys, id) ::
              Get(rs', id) == if courses[id].currentStudents != CountActive(t, id)
                              then Refreshed(Get(rs, id), CountActive(t, id)) else Get(rs, id)
    ensures forall id | !(id in courses && Named(keys, id)) :: Get(rs', id) == Get(rs, id)
  {
    var acquired := SetIfAbsent(lock, token);
    if !acquired.1 {
      return lock, courses, rs, false;
    }
    courses', rs' := PerformCorrection(courses, t, rs, keys);
    var held := if takeover.Some? then takeover else acquired.0;
    var released := Unlock(held, token);
    lock', ran := released.0, true;
  }
}
