/** `CourseRankingService`: two bounded sorted sets (ZSETs) that cache the first page of
    the course list sorted by applicants and by fill rate, kept up to date on every
    admission and backfilled from the database when they run short. */
module CourseRanking {
  import opened Wrappers
  import opened Text
  import opened Courses

  const RankingApplicants: string := "course:ranking:applicants"
  const RankingRate: string := "course:ranking:rate"
  const MaxSize: nat := 40
  const FirstPageSize: nat := 20
  const UnsupportedSortPrefix: string := "지원하지 않는 정렬 기준: "

  // ---------------------------------------------------------------------------
  // Scores and keys

  /** `calculateScore`: the applicant count, the fill rate (0 for a non-positive
      capacity), or 0 for any other sort. Scores are exact rationals here. */
  function CalculateScore(sortBy: string, c: Course): (r: real)
    ensures sortBy == "applicants" ==> r == c.currentStudents as real
    ensures sortBy == "remaining" && c.maxStudents > 0 ==> r * (c.maxStudents as real) == c.currentStudents as real
    ensures sortBy == "remaining" && c.maxStudents <= 0 ==> r == 0.0
    ensures sortBy != "applicants" && sortBy != "remaining" ==> r == 0.0
  {
    if sortBy == "applicants" then c.currentStudents as real
    else if sortBy == "remaining" then Rate(c.currentStudents, c.maxStudents)
    else 0.0
  }

  /** The fill rate `updateCourseRanking` computes. */
  function Rate(current: int, max: int): real {
    if max > 0 then (current as real) / (max as real) else 0.0
  }

  /** A course within its capacity has a rate between 0 and 1, and a fuller course ranks
      higher on both keys. */
  lemma RateBounds(current: int, max: int, current2: int)
    requires max > 0 && 0 <= current <= current2 <= max
    ensures 0.0 <= Rate(current, max) <= Rate(current2, max) <= 1.0
  {
  }

  /** `isZSetSupported`. */
  predicate IsZSetSupported(sortBy: string) {
    sortBy == "applicants" || sortBy == "remaining"
  }

  /** `getRankingKey`: one key per supported sort, an error for any other. */
  function GetRankingKey(sortBy: string): (r: Result<string>)
    ensures r.Ok? <==> IsZSetSupported(sortBy)
    ensures !r.Ok? ==> r == Err(UnsupportedSortPrefix + sortBy)
  {
    match sortBy
    case "applicants" => Ok(RankingApplicants)
    case "remaining" => Ok(RankingRate)
    case _ => Err(UnsupportedSortPrefix + sortBy)
  }

  /** The two sorts use two different keys, so the caches never mix. */
  lemma RankingKeysDistinct(a: string, b: string)
    requires GetRankingKey(a).Ok? && GetRankingKey(b).Ok?
    ensures GetRankingKey(a) == GetRankingKey(b) <==> a == b
  {
  }

  /** `getRankedCourses` reads the cache only for page 0 of a supported sort. */
  predicate UsesCache(page: nat, sortBy: string) {
    page == 0 && IsZSetSupported(sortBy)
  }

  // ---------------------------------------------------------------------------
  // Member order

  /** The member name of a course in both sets. */
  function MemberKey(id: nat): string {
    "course:" + NatToString(id)
  }

  lemma MemberKeyInjective(a: nat, b: nat)
    ensures MemberKey(a) == MemberKey(b) ==> a == b
  {
    if MemberKey(a) == MemberKey(b) {
      assert NatToString(a) == MemberKey(a)[7..] == MemberKey(b)[7..] == NatToString(b);
      DigitsValueOfNatToString(a);
      DigitsValueOfNatToString(b);
    }
  }

  /** Lexicographic order on strings, the order Redis uses among equal scores. */
  predicate StrLess(a: string, b: string)
    decreases |a|
  {
    if |a| == 0 then |b| > 0
    else if |b| == 0 then false
    else a[0] < b[0] || (a[0] == b[0] && StrLess(a[1..], b[1..]))
  }

  lemma {:induction false} StrLessIrreflexive(a: string)
    ensures !StrLess(a, a)
    decreases |a|
  {
    if |a| > 0 {
      StrLessIrreflexive(a[1..]);
    }
  }

  lemma {:induction false} StrLessTransitive(a: string, b: string, c: string)
    requires StrLess(a, b) && StrLess(b, c)
    ensures StrLess(a, c)
    decreases |a|
  {
    if |a| > 0 && a[0] == b[0] && b[0] == c[0] {
      StrLessTransitive(a[1..], b[1..], c[1..]);
    }
  }

  lemma {:induction false} StrLessTotal(a: string, b: string)
    requires a != b
    ensures StrLess(a, b) || StrLess(b, a)
    decreases |a|
  {
    if |a| > 0 && |b| > 0 && a[0] == b[0] {
      assert a == [a[0]] + a[1..] && b == [b[0]] + b[1..];
      StrLessTotal(a[1..], b[1..]);
    }
  }

  /** One member of a sorted set with its score. */
  datatype Entry = Entry(member: nat, score: real)

  /** Redis's order: by score, then by member name. */
  predicate Below(x: Entry, y: Entry) {
    x.score < y.score || (x.score == y.score && StrLess(MemberKey(x.member), MemberKey(y.member)))
  }

  lemma BelowIrreflexive(x: Entry)
    ensures !Below(x, x)
  {
    StrLessIrreflexive(MemberKey(x.member));
  }

  lemma BelowTransitive(x: Entry, y: Entry, z: Entry)
    requires Below(x, y) && Below(y, z)
    ensures Below(x, z)
  {
    if x.score == y.score == z.score {
      StrLessTransitive(MemberKey(x.member), MemberKey(y.member), MemberKey(z.member));
    }
  }

  lemma BelowTotal(x: Entry, y: Entry)
    requires x.member != y.member
    ensures Below(x, y) || Below(y, x)
  {
    MemberKeyInjective(x.member, y.member);
    StrLessTotal(MemberKey(x.member), MemberKey(y.member));
  }

  // ---------------------------------------------------------------------------
  // The sorted set

  /** A sorted set as Redis keeps it: entries from lowest to highest rank. */
  type ZSet = seq<Entry>

  predicate Sorted(z: ZSet) {
    forall i, j | 0 <= i < j < |z| :: Below(z[i], z[j])
  }

  predicate Distinct(z: ZSet) {
    forall i, j | 0 <= i < j < |z| :: z[i].member != z[j].member
  }

  /** The invariant of every stored set: ordered, and one entry per member. */
  predicate Valid(z: ZSet) {
    Sorted(z) && Distinct(z)
  }

  predicate InSet(z: ZSet, m: nat) {
    exists i | 0 <= i < |z| :: z[i].member == m
  }

  /** ZREM. */
  function Remove(z: ZSet, m: nat): (r: ZSet)
    ensures forall x :: x in r <==> x in z && x.member != m
    ensures |r| <= |z|
    decreases |z|
  {
    if |z| == 0 then []
    else if z[0].member == m then Remove(z[1..], m)
    else [z[0]] + Remove(z[1..], m)
  }

  lemma HeadBelowRest(z: ZSet, x: Entry)
    requires Sorted(z) && |z| > 0 && x in z[1..]
    ensures Below(z[0], x)
  {
    var j :| 0 <= j < |z[1..]| && z[1..][j] == x;
    assert z[j + 1] == x;
  }

  lemma HeadDistinctFromRest(z: ZSet, x: Entry)
    requires Distinct(z) && |z| > 0 && x in z[1..]
    ensures x.member != z[0].member
  {
    var j :| 0 <= j < |z[1..]| && z[1..][j] == x;
    assert z[j + 1] == x;
  }

  lemma InSetUncons(z: ZSet, m: nat)
    requires |z| > 0
    ensures InSet(z, m) <==> z[0].member == m || InSet(z[1..], m)
  {
    if InSet(z, m) && z[0].member != m {
      var i :| 0 <= i < |z| && z[i].member == m;
      assert z[1..][i - 1].member == m;
    }
    if InSet(z[1..], m) {
      var i :| 0 <= i < |z[1..]| && z[1..][i].member == m;
      assert z[i + 1].member == m;
    }
  }

  lemma {:induction false} RemoveSorted(z: ZSet, m: nat)
    requires Sorted(z)
    ensures Sorted(Remove(z, m))
    decreases |z|
  {
    if |z| > 0 {
      RemoveSorted(z[1..], m);
      if z[0].member != m {
        var rest := Remove(z[1..], m);
        var r := [z[0]] + rest;
        forall i, j | 0 <= i < j < |r| ensures Below(r[i], r[j]) {
          if i == 0 {
            assert r[j] in rest;
            HeadBelowRest(z, r[j]);
          } else {
            assert r[i] == rest[i - 1] && r[j] == rest[j - 1];
          }
        }
      }
    }
  }

  lemma {:induction false} RemoveDistinct(z: ZSet, m: nat)
    requires Distinct(z)
    ensures Distinct(Remove(z, m))
    decreases |z|
  {
    if |z| > 0 {
      RemoveDistinct(z[1..], m);
      if z[0].member != m {
        var rest := Remove(z[1..], m);
        var r := [z[0]] + rest;
        forall i, j | 0 <= i < j < |r| ensures r[i].member != r[j].member {
          if i == 0 {
            assert r[j] in rest;
            HeadDistinctFromRest(z, r[j]);
          } else {
            assert r[i] == rest[i - 1] && r[j] == rest[j - 1];
          }
        }
      }
    }
  }

  lemma {:induction false} RemoveLength(z: ZSet, m: nat)
    requires Distinct(z)
    ensures |Remove(z, m)| == if InSet(z, m) then |z| - 1 else |z|
    decreases |z|
  {
    if |z| > 0 {
      RemoveLength(z[1..], m);
      InSetUncons(z, m);
      if z[0].member == m && InSet(z[1..], m) {
        var i :| 0 <= i < |z[1..]| && z[1..][i].member == m;
        HeadDistinctFromRest(z, z[1..][i]);
      }
    }
  }

  /** Removing a member keeps the set valid and shrinks it by one exactly when the
      member was there. */
  lemma RemoveKeepsValid(z: ZSet, m: nat)
    requires Valid(z)
    ensures Valid(Remove(z, m)) && !InSet(Remove(z, m), m)
    ensures |Remove(z, m)| == if InSet(z, m) then |z| - 1 else |z|
  {
    RemoveSorted(z, m);
    RemoveDistinct(z, m);
    RemoveLength(z, m);
  }

  /** Insertion at the entry's place in the order. */
  function Insert(z: ZSet, e: Entry): (r: ZSet)
    ensures forall x :: x in r <==> x in z || x == e
    ensures |r| == |z| + 1
    ensures Sorted(z) && !InSet(z, e.member) ==> Sorted(r)
    ensures Distinct(z) && !InSet(z, e.member) ==> Distinct(r)
    decreases |z|
  {
    if |z| == 0 then [e]
    else if Below(e, z[0]) then
      var r := [e] + z;
      assert Sorted(z) && !InSet(z, e.member) ==> Sorted(r) by {
        if Sorted(z) && !InSet(z, e.member) {
          forall i, j | 0 <= i < j < |r| ensures Below(r[i], r[j]) {
            if i == 0 && j > 1 {
              BelowTransitive(e, z[0], z[j - 1]);
            }
          }
        }
      }
      assert Distinct(z) && !InSet(z, e.member) ==> Distinct(r) by {
        if Distinct(z) && !InSet(z, e.member) {
          forall i, j | 0 <= i < j < |r| ensures r[i].member != r[j].member {
            if i == 0 {
              assert z[j - 1] == r[j];
            }
          }
        }
      }
      r
    else
      var rest := Insert(z[1..], e);
      var r := [z[0]] + rest;
      assert !InSet(z, e.member) ==> !InSet(z[1..], e.member) by {
        if InSet(z[1..], e.member) {
          var i :| 0 <= i < |z[1..]| && z[1..][i].member == e.member;
          assert z[i + 1].member == e.member;
        }
      }
      assert forall x :: x in z[1..] ==> x in z;
      assert Sorted(z) && !InSet(z, e.member) ==> Sorted(r) by {
        if Sorted(z) && !InSet(z, e.member) {
          assert z[0].member != e.member;
          BelowTotal(e, z[0]);
          forall j | 1 <= j < |r| ensures Below(r[0], r[j]) {
            assert r[j] in rest;
            if r[j] != e {
              var k :| 0 <= k < |z[1..]| && z[1..][k] == r[j];
              assert z[k + 1] == r[j];
            }
          }
        }
      }
      assert Distinct(z) && !InSet(z, e.member) ==> Distinct(r) by {
        if Distinct(z) && !InSet(z, e.member) {
          forall j | 1 <= j < |r| ensures r[0].member != r[j].member {
            assert r[j] in rest;
            if r[j] != e {
              var k :| 0 <= k < |z[1..]| && z[1..][k] == r[j];
              assert z[k + 1] == r[j];
            }
          }
        }
      }
      r
  }

  /** ZADD: the member ends up with the new score, whether or not it was there. */
  function ZAdd(z: ZSet, m: nat, score: real): (r: ZSet)
    ensures forall x :: x in r <==> (x in z && x.member != m) || x == Entry(m, score)
    ensures Valid(z) ==> Valid(r)
    ensures Valid(z) ==> |r| == if InSet(z, m) then |z| else |z| + 1
  {
    if Valid(z) then RemoveKeepsValid(z, m); Insert(Remove(z, m), Entry(m, score))
    else Insert(Remove(z, m), Entry(m, score))
  }

  /** The first entry is the lowest-ranked one (ZRANGE 0 0). */
  lemma LowestFirst(z: ZSet, i: nat)
    requires Sorted(z) && 0 < i < |z|
    ensures z[0].score <= z[i].score && Below(z[0], z[i])
  {
  }

  /** `updateZSetIfRelevant`: a member already present gets its new score; an absent one
      is added while there is room, and otherwise replaces the lowest-ranked member only
      with a strictly higher score. */
  function UpdateZSetIfRelevant(z: ZSet, m: nat, score: real): (r: ZSet)
    requires Valid(z)
    ensures Valid(r)
    ensures InSet(z, m) ==>
              |r| == |z| && forall x :: x in r <==> (x in z && x.member != m) || x == Entry(m, score)
    ensures !InSet(z, m) && |z| < MaxSize ==>
              |r| == |z| + 1 && forall x :: x in r <==> x in z || x == Entry(m, score)
    ensures !InSet(z, m) && |z| >= MaxSize && score > z[0].score ==>
              |r| == |z| && forall x :: x in r <==> (x in z && x != z[0]) || x == Entry(m, score)
    ensures !InSet(z, m) && |z| >= MaxSize && score <= z[0].score ==> r == z
    ensures |z| <= MaxSize ==> |r| <= MaxSize
  {
    if InSet(z, m) then ZAdd(z, m, score)
    else if |z| < MaxSize then ZAdd(z, m, score)
    else
      var lowest := z[0];
      if score > lowest.score then
        var r := ZAdd(Remove(z, lowest.member), m, score);
        assert forall x | x in z :: x.member == lowest.member <==> x == lowest by {
          forall x | x in z ensures x.member == lowest.member <==> x == lowest {
            var i :| 0 <= i < |z| && z[i] == x;
          }
        }
        assert InSet(z, lowest.member) by { assert z[0].member == lowest.member; }
        RemoveKeepsValid(z, lowest.member);
        r
      else z
  }

  /** Starting from a set within the bound, no sequence of updates takes it past 40. */
  lemma {:induction false} UpdatesStayBounded(z: ZSet, updates: seq<Entry>)
    requires Valid(z) && |z| <= MaxSize
    ensures Valid(ApplyUpdates(z, updates)) && |ApplyUpdates(z, updates)| <= MaxSize
    decreases |updates|
  {
    if |updates| > 0 {
      UpdatesStayBounded(UpdateZSetIfRelevant(z, updates[0].member, updates[0].score), updates[1..]);
    }
  }

  function ApplyUpdates(z: ZSet, updates: seq<Entry>): ZSet
    requires Valid(z)
    decreases |updates|
  {
    if |updates| == 0 then z
    else ApplyUpdates(UpdateZSetIfRelevant(z, updates[0].member, updates[0].score), updates[1..])
  }

  /** `updateCourseRanking`: the applicant set gets the count, the rate set the rate. */
  function UpdateCourseRanking(applicants: ZSet, rate: ZSet, courseId: nat, current: int, max: int): (r: (ZSet, ZSet))
    requires Valid(applicants) && Valid(rate)
    ensures Valid(r.0) && Valid(r.1)
    ensures InSet(applicants, courseId) ==> Entry(courseId, current as real) in r.0
    ensures InSet(rate, courseId) ==> Entry(courseId, Rate(current, max)) in r.1
    ensures forall c: Course | c.id == courseId && c.currentStudents == current && c.maxStudents == max ::
              Rate(current, max) == CalculateScore("remaining", c)
  {
    (UpdateZSetIfRelevant(applicants, courseId, current as real),
     UpdateZSetIfRelevant(rate, courseId, Rate(current, max)))
  }

  /** `trimZSet`: beyond 40 members, remove the lowest-ranked ones. */
  function TrimZSet(z: ZSet): (r: ZSet)
    ensures |z| > MaxSize ==> |r| == MaxSize
    ensures |z| <= MaxSize ==> r == z
    ensures r == z[|z| - |r|..]
    ensures Sorted(z) ==> forall i, j | 0 <= i < |z| - |r| <= j < |z| :: Below(z[i], z[j])
  {
    if |z| > MaxSize then z[|z| - MaxSize..] else z
  }

  /** ZREVRANGE 0 n-1: the ids of the `n` highest-ranked members, highest first. */
  function TopIds(z: ZSet, n: nat): (r: seq<nat>)
    ensures |r| == if n <= |z| then n else |z|
    ensures forall i | 0 <= i < |r| :: r[i] == z[|z| - 1 - i].member
    decreases n
  {
    if n == 0 || |z| == 0 then []
    else
      var last := z[|z| - 1].member;
      [last] + TopIds(z[..|z| - 1], n - 1)
  }

  /** The cached first page is in descending score order. */
  lemma TopIdsDescending(z: ZSet, n: nat, i: nat, j: nat)
    requires Sorted(z) && i < j < |TopIds(z, n)|
    ensures Below(z[|z| - 1 - j], z[|z| - 1 - i])
  {
  }

  // ---------------------------------------------------------------------------
  // The first page

  /** Course ids of a database page, in its order. */
  function IdsOf(cs: seq<Course>): (r: seq<nat>)
    ensures |r| == |cs| && forall i | 0 <= i < |cs| :: r[i] == cs[i].id
  {
    if |cs| == 0 then [] else [cs[0].id] + IdsOf(cs[1..])
  }

  /** The courses of `page` whose ids are not cached, in page order, at most `k` of them. */
  function Additional(page: seq<Course>, cached: seq<nat>, k: nat): (r: seq<Course>)
    ensures |r| <= k
    ensures forall c | c in r :: c in page && c.id !in cached
    decreases |page|
  {
    if |page| == 0 || k == 0 then []
    else if page[0].id in cached then Additional(page[1..], cached, k)
    else [page[0]] + Additional(page[1..], cached, k - 1)
  }

  /** The number of page entries not cached. */
  function Fresh(page: seq<Course>, cached: seq<nat>): nat
    decreases |page|
  {
    if |page| == 0 then 0 else (if page[0].id in cached then 0 else 1) + Fresh(page[1..], cached)
  }

  lemma {:induction false} AdditionalFills(page: seq<Course>, cached: seq<nat>, k: nat)
    ensures |Additional(page, cached, k)| == if Fresh(page, cached) <= k then Fresh(page, cached) else k
    decreases |page|
  {
    if |page| > 0 && k > 0 {
      AdditionalFills(page[1..], cached, if page[0].id in cached then k else k - 1);
    }
  }

  /** The backfill of `getZSetRanking`: when fewer than 20 ids are cached, the database's
      page (fetched with twice the shortfall) supplies up to the shortfall of uncached
      courses; each is added to the set with its score, the set is trimmed, and the page
      lists the cached ids first and the added ones after, in database order. */
  function Backfill(z: ZSet, sortBy: string, cached: seq<nat>, page: seq<Course>): (r: (ZSet, seq<nat>))
    requires Valid(z)
    ensures Valid(r.0)
    ensures |cached| >= FirstPageSize ==> r == (z, cached)
    ensures |r.1| >= |cached| && r.1[..|cached|] == cached
    ensures |cached| < FirstPageSize ==> |r.1| <= FirstPageSize
    ensures |cached| < FirstPageSize && Fresh(page, cached) >= FirstPageSize - |cached| ==> |r.1| == FirstPageSize
    ensures forall i | |cached| <= i < |r.1| :: r.1[i] !in cached && r.1[i] in IdsOf(page)
    ensures |z| <= MaxSize ==> |r.0| <= MaxSize
  {
    if |cached| >= FirstPageSize then (z, cached)
    else
      var extra := Additional(page, cached, FirstPageSize - |cached|);
      AdditionalFills(page, cached, FirstPageSize - |cached|);
      var z' := AddAll(z, sortBy, extra);
      var ids := cached + IdsOf(extra);
      assert forall i | |cached| <= i < |ids| :: ids[i] == extra[i - |cached|].id;
      assert forall c | c in extra :: c.id in IdsOf(page) by {
        forall c | c in extra ensures c.id in IdsOf(page) {
          var k :| 0 <= k < |page| && page[k] == c;
          assert IdsOf(page)[k] == c.id;
        }
      }
      (TrimZSet(z'), ids)
  }

  /** ZADD of every course with its score. */
  function AddAll(z: ZSet, sortBy: string, cs: seq<Course>): (r: ZSet)
    requires Valid(z)
    ensures Valid(r)
    ensures |r| <= |z| + |cs|
    decreases |cs|
  {
    if |cs| == 0 then z
    else AddAll(ZAdd(z, cs[0].id, CalculateScore(sortBy, cs[0])), sortBy, cs[1..])
  }

  /** The page's courses in the order of `ids`, skipping ids the database no longer has. */
  function InOrder(ids: seq<nat>, catalog: map<nat, Course>): (r: seq<Course>)
    ensures |r| <= |ids|
    ensures forall c | c in r :: c.id in catalog && catalog[c.id] == c
    ensures (forall i | 0 <= i < |ids| :: ids[i] in catalog && catalog[ids[i]].id == ids[i]) ==>
              |r| == |ids| && forall i | 0 <= i < |ids| :: r[i] == catalog[ids[i]]
    decreases |ids|
  {
    if |ids| == 0 then []
    else
      var rest := InOrder(ids[1..], catalog);
      if ids[0] in catalog && catalog[ids[0]].id == ids[0] then [catalog[ids[0]]] + rest else rest
  }
}
