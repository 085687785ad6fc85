/** Enrollment bookkeeping as pure functions: inserting one enrollment per
    resolvable course code (app.py:65-69, app.py:103-107) and reconciling a
    student's enrollments with a submitted list of course codes
    (app.py:94-107), with the lemmas that say what the result contains. */
module Reconciliation {
  import opened Schema

  ghost predicate Distinct<T>(s: seq<T>) {
    forall i, j :: 0 <= i < j < |s| ==> s[i] != s[j]
  }

  // ----- Python's list.remove -----

  /** The position of the first occurrence of `x`. */
  function IndexOf(s: seq<string>, x: string): (k: nat)
    requires x in s
    ensures k < |s| && s[k] == x && x !in s[..k]
  {
    if s[0] == x then 0
    else
      var k := IndexOf(s[1..], x);
      assert s[..k + 1] == [s[0]] + s[1..][..k];
      k + 1
  }

  /** `s.remove(x)`: the first occurrence of `x` is taken out, nothing else. */
  function RemoveFirst(s: seq<string>, x: string): (r: seq<string>)
    requires x in s
    ensures multiset(r) == multiset(s) - multiset{x}
    ensures |r| == |s| - 1
  {
    var k := IndexOf(s, x);
    assert s == s[..k] + [x] + s[k + 1..];
    s[..k] + s[k + 1..]
  }

  lemma RemoveFirstOthers(s: seq<string>, x: string, y: string)
    requires x in s && y != x
    ensures y in RemoveFirst(s, x) <==> y in s
  {
    assert multiset(RemoveFirst(s, x))[y] == multiset(s)[y];
  }

  // ----- the student's current enrollments, each with its course code -----

  /** One enrollment the student holds, with the code of its course. */
  datatype Entry = Entry(enrollmentId: nat, courseCode: string)

  /** `enrollment.ECourse.course_code`; blank when the row or its course is
      missing, a value the handlers never read (they fail first). */
  function CodeOf(e: Enrollments, c: Courses, id: nat): string {
    if id in e && e[id].courseId in c then c[e[id].courseId].courseCode else ""
  }

  /** Every enrollment in `ids` exists and points at an existing course. */
  predicate ResolvesAll(e: Enrollments, c: Courses, ids: seq<nat>) {
    forall k :: 0 <= k < |ids| ==> ids[k] in e && e[ids[k]].courseId in c
  }

  function Entries(e: Enrollments, c: Courses, ids: seq<nat>): seq<Entry> {
    seq(|ids|, k requires 0 <= k < |ids| => Entry(ids[k], CodeOf(e, c, ids[k])))
  }

  function Ids(es: seq<Entry>): seq<nat> {
    seq(|es|, k requires 0 <= k < |es| => es[k].enrollmentId)
  }

  function Codes(es: seq<Entry>): seq<string> {
    seq(|es|, k requires 0 <= k < |es| => es[k].courseCode)
  }

  /** The course codes of student `sid`'s enrollments, in enrollment order. */
  function StudentCodes(e: Enrollments, c: Courses, sid: nat, n: nat): seq<string> {
    Codes(Entries(e, c, MatchingIds(e, ByStudent(sid), n)))
  }

  lemma CodesConcat(a: seq<Entry>, b: seq<Entry>)
    ensures Codes(a + b) == Codes(a) + Codes(b)
  {
    assert forall k :: 0 <= k < |a + b| ==> Codes(a + b)[k] == (Codes(a) + Codes(b))[k];
  }

  lemma EntriesConcat(e: Enrollments, c: Courses, a: seq<nat>, b: seq<nat>)
    ensures Entries(e, c, a + b) == Entries(e, c, a) + Entries(e, c, b)
  {
    assert forall k :: 0 <= k < |a + b| ==> Entries(e, c, a + b)[k] == (Entries(e, c, a) + Entries(e, c, b))[k];
  }

  /** Entries whose codes agree with table `e` are rebuilt from their ids. */
  lemma EntriesOfIds(e: Enrollments, c: Courses, xs: seq<Entry>)
    requires forall x :: x in xs ==> CodeOf(e, c, x.enrollmentId) == x.courseCode
    ensures Entries(e, c, Ids(xs)) == xs
  {
    forall k | 0 <= k < |xs| ensures Entries(e, c, Ids(xs))[k] == xs[k] {
      assert xs[k] in xs;
    }
  }

  /** With every enrollment pointing at an existing course, every query's
      rows resolve. */
  lemma ReferencedResolve(e: Enrollments, s: Students, c: Courses, f: Column, n: nat)
    requires References(e, s, c)
    ensures ResolvesAll(e, c, MatchingIds(e, f, n))
  {
    var ids := MatchingIds(e, f, n);
    MatchingMembers(e, f, n);
    forall k | 0 <= k < |ids| ensures ids[k] in e && e[ids[k]].courseId in c {
      assert ids[k] in ids;
    }
  }

  // ----- the loop over the student's enrollments (app.py:97-101) -----

  /** What that loop leaves: the entries it keeps, the ids it deletes, and
      what is left of the submitted list. */
  datatype Swept = Swept(kept: seq<Entry>, dropped: set<nat>, rest: seq<string>)

  /** Each held enrollment whose code is still in the list is kept and one
      occurrence of its code is removed from the list; any other is deleted. */
  function Sweep(held: seq<Entry>, selected: seq<string>): Swept
    decreases |held|
  {
    if held == [] then Swept([], {}, selected)
    else
      var x := held[0];
      if x.courseCode in selected then
        var r := Sweep(held[1..], RemoveFirst(selected, x.courseCode));
        Swept([x] + r.kept, r.dropped, r.rest)
      else
        var r := Sweep(held[1..], selected);
        Swept(r.kept, {x.enrollmentId} + r.dropped, r.rest)
  }

  /** Every submitted code is accounted for exactly once: either it matched a
      kept enrollment or it is still in the list. */
  lemma {:induction false} SweepBalance(held: seq<Entry>, selected: seq<string>)
    ensures multiset(Codes(Sweep(held, selected).kept)) + multiset(Sweep(held, selected).rest) == multiset(selected)
    decreases |held|
  {
    if held != [] {
      var x := held[0];
      if x.courseCode in selected {
        var s' := RemoveFirst(selected, x.courseCode);
        var r := Sweep(held[1..], s');
        SweepBalance(held[1..], s');
        CodesConcat([x], r.kept);
        assert Codes([x]) == [x.courseCode];
        assert Sweep(held, selected).kept == [x] + r.kept;
        assert multiset(Codes(Sweep(held, selected).kept)) == multiset{x.courseCode} + multiset(Codes(r.kept));
        assert x.courseCode in multiset(selected);
        assert multiset(selected) == multiset{x.courseCode} + multiset(s');
      } else {
        SweepBalance(held[1..], selected);
      }
    }
  }

  /** Kept entries and deleted ids come from the held enrollments. */
  lemma {:induction false} SweepParts(held: seq<Entry>, selected: seq<string>)
    ensures forall x :: x in Sweep(held, selected).kept ==> x in held
    ensures forall id :: id in Sweep(held, selected).dropped ==> id in Ids(held)
    decreases |held|
  {
    if held != [] {
      var x := held[0];
      var s' := if x.courseCode in selected then RemoveFirst(selected, x.courseCode) else selected;
      SweepParts(held[1..], s');
      assert Ids(held) == [x.enrollmentId] + Ids(held[1..]);
    }
  }

  /** A sequence without repeats stays so without its head, and its head
      does not occur again. */
  lemma DistinctTail<T>(s: seq<T>)
    requires s != [] && Distinct(s)
    ensures Distinct(s[1..]) && s[0] !in s[1..]
  {
    forall k | 0 <= k < |s| - 1 ensures s[1..][k] != s[0] {
      assert s[1..][k] == s[k + 1];
    }
  }

  lemma IdsCodesTail(held: seq<Entry>)
    requires held != []
    ensures Ids(held[1..]) == Ids(held)[1..] && Ids(held)[0] == held[0].enrollmentId
    ensures Codes(held[1..]) == Codes(held)[1..] && Codes(held)[0] == held[0].courseCode
  {
  }

  /** With distinct ids, the held ids minus the deleted ones are exactly the
      kept entries' ids, in the same order. */
  lemma {:induction false} SweepWithout(held: seq<Entry>, selected: seq<string>)
    requires Distinct(Ids(held))
    ensures Without(Ids(held), Sweep(held, selected).dropped) == Ids(Sweep(held, selected).kept)
    decreases |held|
  {
    if held != [] {
      var x := held[0];
      var s' := if x.courseCode in selected then RemoveFirst(selected, x.courseCode) else selected;
      var r := Sweep(held[1..], s');
      var ids, tail := Ids(held), Ids(held[1..]);
      assert ids[0] == x.enrollmentId && ids[1..] == tail by {
        IdsCodesTail(held);
      }
      assert Distinct(tail) && x.enrollmentId !in tail by {
        DistinctTail(ids);
      }
      assert Without(tail, r.dropped) == Ids(r.kept) by {
        SweepWithout(held[1..], s');
      }
      var keep := x.courseCode in selected;
      assert keep ==> x.enrollmentId !in r.dropped by {
        SweepParts(held[1..], s');
      }
      assert ids == [x.enrollmentId] + tail;
      SweepWithoutStep(x, tail, r, keep);
    }
  }

  /** One step of SweepWithout: the head entry is either kept, and its id is
      then not among the deleted ones, or deleted. */
  lemma SweepWithoutStep(x: Entry, tail: seq<nat>, r: Swept, keep: bool)
    requires x.enrollmentId !in tail
    requires Without(tail, r.dropped) == Ids(r.kept)
    requires keep ==> x.enrollmentId !in r.dropped
    ensures keep ==> Without([x.enrollmentId] + tail, r.dropped) == Ids([x] + r.kept)
    ensures !keep ==> Without([x.enrollmentId] + tail, {x.enrollmentId} + r.dropped) == Ids(r.kept)
  {
    var ids := [x.enrollmentId] + tail;
    assert ids[0] == x.enrollmentId && ids[1..] == tail;
    if keep {
      assert Ids([x] + r.kept) == [x.enrollmentId] + Ids(r.kept);
    } else {
      WithoutAbsent(tail, r.dropped, x.enrollmentId);
      assert {x.enrollmentId} + r.dropped == r.dropped + {x.enrollmentId};
    }
  }

  /** When the student holds each course code at most once, an enrollment is
      deleted exactly when its code is not in the submitted list. */
  lemma {:induction false} SweepDistinct(held: seq<Entry>, selected: seq<string>)
    requires Distinct(Ids(held)) && Distinct(Codes(held))
    ensures forall k :: 0 <= k < |held| ==>
      (held[k].enrollmentId in Sweep(held, selected).dropped <==> held[k].courseCode !in selected)
    decreases |held|
  {
    if held != [] {
      var x := held[0];
      var s' := if x.courseCode in selected then RemoveFirst(selected, x.courseCode) else selected;
      var r := Sweep(held[1..], s');
      var tail := held[1..];
      IdsCodesTail(held);
      DistinctTail(Ids(held));
      DistinctTail(Codes(held));
      SweepDistinct(tail, s');
      SweepParts(tail, s');
      assert Sweep(held, selected).dropped == if x.courseCode in selected then r.dropped else {x.enrollmentId} + r.dropped;
      forall k | 1 <= k < |held|
        ensures held[k].enrollmentId in Sweep(held, selected).dropped <==> held[k].courseCode !in selected
      {
        assert held[k] == tail[k - 1];
        assert Ids(tail)[k - 1] == held[k].enrollmentId && Codes(tail)[k - 1] == held[k].courseCode;
        if x.courseCode in selected {
          RemoveFirstOthers(selected, x.courseCode, held[k].courseCode);
        }
      }
    }
  }

  // ----- inserting one enrollment per resolvable code -----

  /** The submitted codes that name an existing course, in submitted order. */
  function Resolvable(c: Courses, codes: seq<string>): seq<string> {
    if codes == [] then []
    else (if CodeTaken(c, codes[0]) then [codes[0]] else []) + Resolvable(c, codes[1..])
  }

  /** Each existing course's code is counted as often as it was submitted,
      every other code not at all. */
  lemma {:induction false} ResolvableCount(c: Courses, codes: seq<string>)
    ensures forall x :: multiset(Resolvable(c, codes))[x] == if CodeTaken(c, x) then multiset(codes)[x] else 0
    decreases |codes|
  {
    if codes != [] {
      ResolvableCount(c, codes[1..]);
      assert codes == [codes[0]] + codes[1..];
    }
  }

  /** For each code, in order, that resolves to a course: one new enrollment
      of `sid` in that course with the next free id; unresolved codes are
      skipped. Returns the new table and the next free id. */
  function Enroll(e: Enrollments, sid: nat, c: Courses, codes: seq<string>, n: nat): (Enrollments, nat)
    requires CodesDistinct(c)
    decreases |codes|
  {
    if codes == [] then (e, n)
    else match FindCourse(c, codes[0])
      case None => Enroll(e, sid, c, codes[1..], n)
      case Some(cid) => Enroll(e[n := Enrollment(n, sid, cid)], sid, c, codes[1..], n + 1)
  }

  /** Enroll hands out one id per resolvable code. */
  lemma {:induction false} EnrollNext(e: Enrollments, sid: nat, c: Courses, codes: seq<string>, n: nat)
    requires CodesDistinct(c)
    ensures Enroll(e, sid, c, codes, n).1 == n + |Resolvable(c, codes)|
    decreases |codes|
  {
    if codes != [] {
      match FindCourse(c, codes[0])
      case None =>
        EnrollNext(e, sid, c, codes[1..], n);
      case Some(cid) =>
        EnrollNext(e[n := Enrollment(n, sid, cid)], sid, c, codes[1..], n + 1);
    }
  }

  /** Its rows are the old ones and those with the ids it handed out. */
  lemma {:induction false} EnrollDomain(e: Enrollments, sid: nat, c: Courses, codes: seq<string>, n: nat)
    requires CodesDistinct(c)
    ensures var (e2, n2) := Enroll(e, sid, c, codes, n);
      n <= n2 && forall id :: id in e2 <==> id in e || n <= id < n2
    decreases |codes|
  {
    if codes != [] {
      match FindCourse(c, codes[0])
      case None =>
        EnrollDomain(e, sid, c, codes[1..], n);
      case Some(cid) =>
        EnrollDomain(e[n := Enrollment(n, sid, cid)], sid, c, codes[1..], n + 1);
    }
  }

  /** Rows below `n` are left alone. */
  lemma {:induction false} EnrollKeeps(e: Enrollments, sid: nat, c: Courses, codes: seq<string>, n: nat)
    requires CodesDistinct(c)
    ensures var e2 := Enroll(e, sid, c, codes, n).0;
      forall id :: id in e && id < n ==> id in e2 && e2[id] == e[id]
    decreases |codes|
  {
    if codes != [] {
      match FindCourse(c, codes[0])
      case None =>
        EnrollKeeps(e, sid, c, codes[1..], n);
      case Some(cid) =>
        EnrollKeeps(e[n := Enrollment(n, sid, cid)], sid, c, codes[1..], n + 1);
    }
  }

  /** Row `n + k` enrolls `sid` in the course of the k-th resolvable code. */
  lemma {:induction false} EnrollRow(e: Enrollments, sid: nat, c: Courses, codes: seq<string>, n: nat, k: nat)
    requires CodesDistinct(c)
    requires k < |Resolvable(c, codes)|
    ensures var e2 := Enroll(e, sid, c, codes, n).0;
      && n + k in e2 && e2[n + k].enrollmentId == n + k && e2[n + k].studentId == sid
      && e2[n + k].courseId in c && c[e2[n + k].courseId].courseCode == Resolvable(c, codes)[k]
    decreases |codes|
  {
    match FindCourse(c, codes[0])
    case None =>
      EnrollRow(e, sid, c, codes[1..], n, k);
    case Some(cid) =>
      var e1 := e[n := Enrollment(n, sid, cid)];
      if k == 0 {
        EnrollKeeps(e1, sid, c, codes[1..], n + 1);
      } else {
        EnrollRow(e1, sid, c, codes[1..], n + 1, k - 1);
      }
  }

  /** Every row Enroll adds is an enrollment of `sid` in an existing course,
      stored under its own id. */
  lemma EnrollNew(e: Enrollments, sid: nat, c: Courses, codes: seq<string>, n: nat)
    requires CodesDistinct(c)
    ensures var (e2, n2) := Enroll(e, sid, c, codes, n);
      forall id :: n <= id < n2 ==>
        id in e2 && e2[id].enrollmentId == id && e2[id].studentId == sid && e2[id].courseId in c
  {
    var (e2, n2) := Enroll(e, sid, c, codes, n);
    EnrollNext(e, sid, c, codes, n);
    forall id | n <= id < n2
      ensures id in e2 && e2[id].enrollmentId == id && e2[id].studentId == sid && e2[id].courseId in c
    {
      EnrollRow(e, sid, c, codes, n, id - n);
    }
  }

  /** The new rows of Enroll, read back, carry the resolvable codes in order. */
  lemma EnrolledCodes(e: Enrollments, sid: nat, c: Courses, codes: seq<string>, n: nat)
    requires CodesDistinct(c)
    ensures var (e2, n2) := Enroll(e, sid, c, codes, n);
      n <= n2 && Codes(Entries(e2, c, Range(n, n2))) == Resolvable(c, codes)
  {
    var (e2, n2) := Enroll(e, sid, c, codes, n);
    var res := Resolvable(c, codes);
    EnrollNext(e, sid, c, codes, n);
    var ids := Range(n, n2);
    var got := Codes(Entries(e2, c, ids));
    forall k | 0 <= k < |res| ensures got[k] == res[k] {
      assert ids[k] == n + k by {
        RangeAt(n, n2);
      }
      EnrollRow(e, sid, c, codes, n, k);
    }
  }

  /** After Enroll, the query for `sid` answers the old rows of `sid`
      followed by the new ones. */
  lemma EnrolledIds(e: Enrollments, sid: nat, c: Courses, codes: seq<string>, n: nat)
    requires CodesDistinct(c)
    requires forall id :: id in e ==> id < n
    ensures var (e2, n2) := Enroll(e, sid, c, codes, n);
      n <= n2 && MatchingIds(e2, ByStudent(sid), n2) == MatchingIds(e, ByStudent(sid), n) + Range(n, n2)
  {
    var (e2, n2) := Enroll(e, sid, c, codes, n);
    EnrollDomain(e, sid, c, codes, n);
    EnrollKeeps(e, sid, c, codes, n);
    EnrollNew(e, sid, c, codes, n);
    MatchingExtend(e2, ByStudent(sid), n, n2);
    MatchingAgree(e2, e, ByStudent(sid), n);
  }

  // ----- page create student, the enrollment part (app.py:65-69) -----

  /** A student who held no enrollment ends up with one enrollment per
      submitted code that names a course, in submitted order. */
  lemma CreatedEnrollments(e: Enrollments, sid: nat, c: Courses, codes: seq<string>, n: nat)
    requires CodesDistinct(c)
    requires forall id :: id in e ==> id < n && e[id].studentId != sid
    ensures var (e2, n2) := Enroll(e, sid, c, codes, n);
      StudentCodes(e2, c, sid, n2) == Resolvable(c, codes)
  {
    var (e2, n2) := Enroll(e, sid, c, codes, n);
    MatchingNone(e, ByStudent(sid), n);
    EnrolledIds(e, sid, c, codes, n);
    EnrolledCodes(e, sid, c, codes, n);
    assert MatchingIds(e2, ByStudent(sid), n2) == Range(n, n2);
  }

  // ----- page update student, the enrollment part (app.py:94-107) -----

  /** The table `update_student` leaves, and the next free id. */
  function Reconciled(e: Enrollments, c: Courses, sid: nat, selected: seq<string>, n: nat): (Enrollments, nat)
    requires CodesDistinct(c)
    requires forall id :: id in e ==> id < n
  {
    var held := Entries(e, c, MatchingIds(e, ByStudent(sid), n));
    var r := Sweep(held, selected);
    Enroll(e - r.dropped, sid, c, r.rest, n)
  }

  /** The held entries are the student's enrollments with distinct ids. */
  lemma HeldFacts(e: Enrollments, c: Courses, sid: nat, n: nat)
    ensures var ids := MatchingIds(e, ByStudent(sid), n);
      && Ids(Entries(e, c, ids)) == ids
      && Distinct(ids)
      && (forall id :: id in ids <==> id < n && id in e && e[id].studentId == sid)
  {
    var ids := MatchingIds(e, ByStudent(sid), n);
    MatchingIncreasing(e, ByStudent(sid), n);
    MatchingMembers(e, ByStudent(sid), n);
    assert Ids(Entries(e, c, ids)) == ids;
  }

  /** After reconciliation the student's enrollments are the kept ones, in
      their old order, followed by the new ones. */
  lemma ReconciledIds(e: Enrollments, c: Courses, sid: nat, selected: seq<string>, n: nat)
    requires CodesDistinct(c)
    requires forall id :: id in e ==> id < n
    ensures var held := Entries(e, c, MatchingIds(e, ByStudent(sid), n));
      var r := Sweep(held, selected);
      var (e2, n2) := Reconciled(e, c, sid, selected, n);
      n <= n2 && MatchingIds(e2, ByStudent(sid), n2) == Ids(r.kept) + Range(n, n2)
  {
    var ids := MatchingIds(e, ByStudent(sid), n);
    var held := Entries(e, c, ids);
    var r := Sweep(held, selected);
    HeldFacts(e, c, sid, n);
    EnrolledIds(e - r.dropped, sid, c, r.rest, n);
    MatchingAfterDelete(e, ByStudent(sid), n, r.dropped);
    SweepWithout(held, selected);
  }

  /** ... and their codes are the kept codes followed by the resolvable
      leftovers of the submitted list. */
  lemma ReconciledRows(e: Enrollments, c: Courses, sid: nat, selected: seq<string>, n: nat)
    requires CodesDistinct(c)
    requires forall id :: id in e ==> id < n
    ensures var held := Entries(e, c, MatchingIds(e, ByStudent(sid), n));
      var r := Sweep(held, selected);
      var (e2, n2) := Reconciled(e, c, sid, selected, n);
      StudentCodes(e2, c, sid, n2) == Codes(r.kept) + Resolvable(c, r.rest)
  {
    var ids := MatchingIds(e, ByStudent(sid), n);
    var held := Entries(e, c, ids);
    var r := Sweep(held, selected);
    var e1 := e - r.dropped;
    var (e2, n2) := Reconciled(e, c, sid, selected, n);
    assert (e2, n2) == Enroll(e1, sid, c, r.rest, n);
    assert MatchingIds(e2, ByStudent(sid), n2) == Ids(r.kept) + Range(n, n2) by {
      ReconciledIds(e, c, sid, selected, n);
    }
    assert Codes(Entries(e2, c, Range(n, n2))) == Resolvable(c, r.rest) by {
      EnrolledCodes(e1, sid, c, r.rest, n);
    }
    assert Entries(e2, c, Ids(r.kept)) == r.kept by {
      KeptRowsSurvive(e, c, sid, selected, n);
      EntriesOfIds(e2, c, r.kept);
    }
    EntriesConcat(e2, c, Ids(r.kept), Range(n, n2));
    CodesConcat(r.kept, Entries(e2, c, Range(n, n2)));
  }

  /** A kept enrollment is still there afterwards, unchanged, with its course. */
  lemma KeptRowsSurvive(e: Enrollments, c: Courses, sid: nat, selected: seq<string>, n: nat)
    requires CodesDistinct(c)
    requires forall id :: id in e ==> id < n
    ensures var held := Entries(e, c, MatchingIds(e, ByStudent(sid), n));
      var r := Sweep(held, selected);
      var (e2, n2) := Reconciled(e, c, sid, selected, n);
      forall x :: x in r.kept ==>
        && x.enrollmentId in e && x.enrollmentId in e2 && e2[x.enrollmentId] == e[x.enrollmentId]
        && CodeOf(e2, c, x.enrollmentId) == x.courseCode
  {
    var ids := MatchingIds(e, ByStudent(sid), n);
    var held := Entries(e, c, ids);
    var r := Sweep(held, selected);
    var e1 := e - r.dropped;
    var (e2, n2) := Reconciled(e, c, sid, selected, n);
    assert e2 == Enroll(e1, sid, c, r.rest, n).0;
    assert Ids(held) == ids && Distinct(ids) by {
      HeldFacts(e, c, sid, n);
    }
    forall x | x in r.kept
      ensures x.enrollmentId in e && x.enrollmentId in e2 && e2[x.enrollmentId] == e[x.enrollmentId]
      ensures CodeOf(e2, c, x.enrollmentId) == x.courseCode
    {
      var id := x.enrollmentId;
      assert x in held by {
        SweepParts(held, selected);
      }
      var k :| 0 <= k < |held| && held[k] == x;
      assert ids[k] == id && x.courseCode == CodeOf(e, c, id);
      assert id in e by {
        MatchingMembers(e, ByStudent(sid), n);
        assert ids[k] in ids;
      }
      assert id !in r.dropped by {
        SweepWithout(held, selected);
        WithoutMembers(ids, r.dropped);
        var j :| 0 <= j < |r.kept| && r.kept[j] == x;
        assert Ids(r.kept)[j] == id;
      }
      assert e2[id] == e[id] by {
        EnrollKeeps(e1, sid, c, r.rest, n);
      }
    }
  }

  /** Under ResolvesAll, every kept code names an existing course. */
  lemma KeptResolve(e: Enrollments, c: Courses, ids: seq<nat>, selected: seq<string>)
    requires ResolvesAll(e, c, ids)
    ensures forall y :: y in Codes(Sweep(Entries(e, c, ids), selected).kept) ==> CodeTaken(c, y)
  {
    var held := Entries(e, c, ids);
    var kept := Sweep(held, selected).kept;
    SweepParts(held, selected);
    forall y | y in Codes(kept) ensures CodeTaken(c, y) {
      var j :| 0 <= j < |kept| && Codes(kept)[j] == y;
      assert kept[j] in kept;
      var k :| 0 <= k < |held| && held[k] == kept[j];
      assert ids[k] in e && e[ids[k]].courseId in c;
    }
  }

  /** Codes that all resolve, together with a leftover list, balancing the
      submitted list: adding the resolvable leftovers gives the resolvable
      submissions. */
  lemma BalanceResolved(c: Courses, kept: seq<string>, rest: seq<string>, selected: seq<string>)
    requires forall y :: y in kept ==> CodeTaken(c, y)
    requires multiset(kept) + multiset(rest) == multiset(selected)
    ensures multiset(kept + Resolvable(c, rest)) == multiset(Resolvable(c, selected))
  {
    ResolvableCount(c, rest);
    ResolvableCount(c, selected);
    forall y ensures multiset(kept + Resolvable(c, rest))[y] == multiset(Resolvable(c, selected))[y] {
      if !CodeTaken(c, y) {
        assert y !in kept;
      }
    }
  }

  /** The reconciliation result: afterwards the student holds, course code by
      course code and counting repeats, exactly the submitted codes that name
      an existing course. */
  lemma ReconciledSelection(e: Enrollments, c: Courses, sid: nat, selected: seq<string>, n: nat)
    requires CodesDistinct(c)
    requires forall id :: id in e ==> id < n
    requires ResolvesAll(e, c, MatchingIds(e, ByStudent(sid), n))
    ensures var (e2, n2) := Reconciled(e, c, sid, selected, n);
      multiset(StudentCodes(e2, c, sid, n2)) == multiset(Resolvable(c, selected))
  {
    var ids := MatchingIds(e, ByStudent(sid), n);
    var held := Entries(e, c, ids);
    var r := Sweep(held, selected);
    ReconciledRows(e, c, sid, selected, n);
    SweepBalance(held, selected);
    KeptResolve(e, c, ids, selected);
    BalanceResolved(c, Codes(r.kept), r.rest, selected);
  }

  /** Read as sets: a code is held afterwards exactly when it was submitted
      and names an existing course. */
  lemma ReconciledCodeSet(e: Enrollments, c: Courses, sid: nat, selected: seq<string>, n: nat, code: string)
    requires CodesDistinct(c)
    requires forall id :: id in e ==> id < n
    requires ResolvesAll(e, c, MatchingIds(e, ByStudent(sid), n))
    ensures var (e2, n2) := Reconciled(e, c, sid, selected, n);
      code in StudentCodes(e2, c, sid, n2) <==> code in selected && CodeTaken(c, code)
  {
    var (e2, n2) := Reconciled(e, c, sid, selected, n);
    ReconciledSelection(e, c, sid, selected, n);
    ResolvableCount(c, selected);
    assert code in StudentCodes(e2, c, sid, n2) <==> multiset(StudentCodes(e2, c, sid, n2))[code] > 0;
  }

  /** When the student holds each course at most once, an enrollment whose
      code was submitted survives unchanged (same id, same row) and one whose
      code was not submitted is deleted. */
  lemma ReconciledKeeps(e: Enrollments, c: Courses, sid: nat, selected: seq<string>, n: nat, id: nat)
    requires CodesDistinct(c)
    requires forall i :: i in e ==> i < n
    requires Distinct(StudentCodes(e, c, sid, n))
    requires id in e && e[id].studentId == sid
    ensures var (e2, n2) := Reconciled(e, c, sid, selected, n);
      && (id in e2 <==> CodeOf(e, c, id) in selected)
      && (id in e2 ==> e2[id] == e[id])
  {
    var ids := MatchingIds(e, ByStudent(sid), n);
    var held := Entries(e, c, ids);
    var r := Sweep(held, selected);
    HeldFacts(e, c, sid, n);
    SweepDistinct(held, selected);
    EnrollDomain(e - r.dropped, sid, c, r.rest, n);
    EnrollKeeps(e - r.dropped, sid, c, r.rest, n);
    assert id in ids;
    var k :| 0 <= k < |ids| && ids[k] == id;
    assert held[k].enrollmentId == id && held[k].courseCode == CodeOf(e, c, id);
  }

  /** Enrollments of every other student are untouched, and no row of another
      student appears. */
  lemma ReconciledOthers(e: Enrollments, c: Courses, sid: nat, selected: seq<string>, n: nat)
    requires CodesDistinct(c)
    requires forall id :: id in e ==> id < n
    ensures var (e2, n2) := Reconciled(e, c, sid, selected, n);
      && (forall id :: id in e && e[id].studentId != sid ==> id in e2 && e2[id] == e[id])
      && (forall id :: id in e2 && e2[id].studentId != sid ==> id in e && e2[id] == e[id])
  {
    var ids := MatchingIds(e, ByStudent(sid), n);
    var held := Entries(e, c, ids);
    var r := Sweep(held, selected);
    HeldFacts(e, c, sid, n);
    SweepParts(held, selected);
    EnrollDomain(e - r.dropped, sid, c, r.rest, n);
    EnrollKeeps(e - r.dropped, sid, c, r.rest, n);
    EnrollNew(e - r.dropped, sid, c, r.rest, n);
  }

  /** Enroll keeps the table keyed and pointing at existing rows. */
  lemma EnrollKeyed(e: Enrollments, s: Students, sid: nat, c: Courses, codes: seq<string>,
                    n: nat, ns: nat, nc: nat)
    requires CodesDistinct(c) && CoursesKeyed(c, nc)
    requires EnrollmentsKeyed(e, n, ns, nc) && 0 < n && sid < ns
    ensures var (e2, n2) := Enroll(e, sid, c, codes, n);
      && n <= n2 && EnrollmentsKeyed(e2, n2, ns, nc)
      && (References(e, s, c) && sid in s ==> References(e2, s, c))
  {
    EnrollDomain(e, sid, c, codes, n);
    EnrollKeeps(e, sid, c, codes, n);
    EnrollNew(e, sid, c, codes, n);
  }

  /** So does reconciliation. */
  lemma ReconciledKeyed(e: Enrollments, s: Students, c: Courses, sid: nat, selected: seq<string>,
                        n: nat, ns: nat, nc: nat)
    requires CodesDistinct(c) && CoursesKeyed(c, nc)
    requires EnrollmentsKeyed(e, n, ns, nc) && 0 < n && sid < ns
    ensures var (e2, n2) := Reconciled(e, c, sid, selected, n);
      && n <= n2 && EnrollmentsKeyed(e2, n2, ns, nc)
      && (References(e, s, c) && sid in s ==> References(e2, s, c))
  {
    var held := Entries(e, c, MatchingIds(e, ByStudent(sid), n));
    var r := Sweep(held, selected);
    assert Reconciled(e, c, sid, selected, n) == Enroll(e - r.dropped, sid, c, r.rest, n);
    assert EnrollmentsKeyed(e - r.dropped, n, ns, nc);
    assert References(e, s, c) ==> References(e - r.dropped, s, c);
    EnrollKeyed(e - r.dropped, s, sid, c, r.rest, n, ns, nc);
  }
}
