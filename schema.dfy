/** The three tables of the enrollment manager (app.py:14-34) as values:
    one record type per table, each table a map from primary key to row,
    the invariants the schema declares, and the queries the handlers issue. */
module Schema {

  datatype Option<+T> = None | Some(value: T)

  /** A row of table `student`; `last_name` is the one nullable column. */
  datatype Student = Student(studentId: nat, rollNumber: string, firstName: string, lastName: Option<string>)

  /** A row of table `course`; `course_description` is the one nullable column. */
  datatype Course = Course(courseId: nat, courseCode: string, courseName: string, courseDescription: Option<string>)

  /** A row of table `enrollments`: the join row between one student and one course. */
  datatype Enrollment = Enrollment(enrollmentId: nat, studentId: nat, courseId: nat)

  type Students = map<nat, Student>
  type Courses = map<nat, Course>
  type Enrollments = map<nat, Enrollment>

  /** The `filter_by` conditions the handlers issue against `enrollments`. */
  datatype Column = ByStudent(studentId: nat) | ByCourse(courseId: nat)

  predicate Selects(f: Column, r: Enrollment) {
    match f
    case ByStudent(s) => r.studentId == s
    case ByCourse(c) => r.courseId == c
  }

  // ----- what the schema and the id generator guarantee -----

  /** Every student is stored under its own id, and every id was handed out before `next`. */
  ghost predicate StudentsKeyed(s: Students, next: nat) {
    forall id :: id in s ==> s[id].studentId == id && 0 < id < next
  }

  ghost predicate CoursesKeyed(c: Courses, next: nat) {
    forall id :: id in c ==> c[id].courseId == id && 0 < id < next
  }

  /** Enrollment ids are keys handed out before `next`; the ids an enrollment
      refers to were handed out when it was inserted, even if that student or
      course has since been deleted. */
  ghost predicate EnrollmentsKeyed(e: Enrollments, next: nat, nextStudent: nat, nextCourse: nat) {
    forall id :: id in e ==>
      e[id].enrollmentId == id && 0 < id < next && e[id].studentId < nextStudent && e[id].courseId < nextCourse
  }

  /** `roll_number` is declared `unique=True` (app.py:17). */
  ghost predicate RollNumbersDistinct(s: Students) {
    forall a, b :: a in s && b in s && a != b ==> s[a].rollNumber != s[b].rollNumber
  }

  /** `course_code` is declared `unique=True` (app.py:24). */
  ghost predicate CodesDistinct(c: Courses) {
    forall a, b :: a in c && b in c && a != b ==> c[a].courseCode != c[b].courseCode
  }

  /** Every enrollment points at an existing student and an existing course. */
  ghost predicate References(e: Enrollments, s: Students, c: Courses) {
    forall id :: id in e ==> e[id].studentId in s && e[id].courseId in c
  }

  // ----- lookups by unique key -----

  /** `Student.query.filter_by(roll_number=roll).first()` finds a row. */
  predicate RollTaken(s: Students, roll: string) {
    exists id :: id in s && s[id].rollNumber == roll
  }

  /** A student other than `sid` already holds `roll`. */
  predicate RollTakenByOther(s: Students, roll: string, sid: nat) {
    exists id :: id in s && id != sid && s[id].rollNumber == roll
  }

  /** `Course.query.filter_by(course_code=code).first()` finds a row. */
  predicate CodeTaken(c: Courses, code: string) {
    exists id :: id in c && c[id].courseCode == code
  }

  /** A course other than `cid` already holds `code`. */
  predicate CodeTakenByOther(c: Courses, code: string, cid: nat) {
    exists id :: id in c && id != cid && c[id].courseCode == code
  }

  /** The id of the course whose code is `code`; there is at most one because
      course codes are unique. */
  function FindCourse(c: Courses, code: string): (r: Option<nat>)
    requires CodesDistinct(c)
    ensures r.Some? <==> CodeTaken(c, code)
    ensures r.Some? ==> r.value in c && c[r.value].courseCode == code
  {
    if CodeTaken(c, code) then
      var id :| id in c && c[id].courseCode == code; Some(id)
    else None
  }

  /** The course found is the one course holding the code. */
  lemma FindCourseUnique(c: Courses, code: string, id: nat)
    requires CodesDistinct(c)
    requires id in c && c[id].courseCode == code
    ensures FindCourse(c, code) == Some(id)
  {
  }

  // ----- filter_by(...).all() on enrollments -----

  ghost predicate Increasing(s: seq<nat>) {
    forall i, j :: 0 <= i < j < |s| ==> s[i] < s[j]
  }

  /** The ids of the enrollments below `n` that `f` selects, in ascending id
      order. The queries carry no ORDER BY, so this order is an assumption:
      it is the order of a full scan of the table, which is what SQLite does
      while `enrollments` has no index on its filtered columns. */
  function MatchingIds(e: Enrollments, f: Column, n: nat): seq<nat> {
    if n == 0 then [] else MatchingIds(e, f, n - 1) + Tail(e, f, n - 1)
  }

  /** The one-row answer for id `id` alone. */
  function Tail(e: Enrollments, f: Column, id: nat): seq<nat> {
    if id in e && Selects(f, e[id]) then [id] else []
  }

  /** The query returns exactly the selected rows below `n`. */
  lemma {:induction false} MatchingMembers(e: Enrollments, f: Column, n: nat)
    ensures forall id :: id in MatchingIds(e, f, n) <==> id < n && id in e && Selects(f, e[id])
    decreases n
  {
    if n > 0 {
      MatchingMembers(e, f, n - 1);
    }
  }

  /** A query no row below `n` satisfies answers nothing. */
  lemma {:induction false} MatchingNone(e: Enrollments, f: Column, n: nat)
    requires forall id :: id < n && id in e ==> !Selects(f, e[id])
    ensures MatchingIds(e, f, n) == []
    decreases n
  {
    if n > 0 {
      MatchingNone(e, f, n - 1);
    }
  }

  /** ... in strictly ascending order. */
  lemma {:induction false} MatchingIncreasing(e: Enrollments, f: Column, n: nat)
    ensures Increasing(MatchingIds(e, f, n))
    decreases n
  {
    if n > 0 {
      MatchingIncreasing(e, f, n - 1);
      MatchingMembers(e, f, n - 1);
      var prefix := MatchingIds(e, f, n - 1);
      forall k | 0 <= k < |prefix| ensures prefix[k] < n - 1 {
        assert prefix[k] in prefix;
      }
    }
  }

  /** The consecutive ids `lo`, ..., `hi - 1`. */
  function Range(lo: nat, hi: nat): (r: seq<nat>)
    requires lo <= hi
    ensures |r| == hi - lo
    decreases hi - lo
  {
    if lo == hi then [] else Range(lo, hi - 1) + [hi - 1]
  }

  lemma {:induction false} RangeAt(lo: nat, hi: nat)
    requires lo <= hi
    ensures forall k :: 0 <= k < hi - lo ==> Range(lo, hi)[k] == lo + k
    decreases hi - lo
  {
    if lo < hi {
      RangeAt(lo, hi - 1);
    }
  }

  /** `ids` with every element of `gone` left out, order kept. */
  function Without(ids: seq<nat>, gone: set<nat>): seq<nat> {
    if ids == [] then []
    else (if ids[0] in gone then [] else [ids[0]]) + Without(ids[1..], gone)
  }

  lemma {:induction false} WithoutMembers(ids: seq<nat>, gone: set<nat>)
    ensures forall id :: id in Without(ids, gone) <==> id in ids && id !in gone
    decreases |ids|
  {
    if ids != [] {
      WithoutMembers(ids[1..], gone);
      assert ids == [ids[0]] + ids[1..];
    }
  }

  lemma {:induction false} WithoutConcat(a: seq<nat>, b: seq<nat>, gone: set<nat>)
    ensures Without(a + b, gone) == Without(a, gone) + Without(b, gone)
    decreases |a|
  {
    if a == [] {
      assert a + b == b;
    } else {
      assert (a + b)[0] == a[0];
      assert (a + b)[1..] == a[1..] + b;
      WithoutConcat(a[1..], b, gone);
      var h := if a[0] in gone then [] else [a[0]];
      assert Without(a + b, gone) == h + (Without(a[1..], gone) + Without(b, gone));
      assert h + (Without(a[1..], gone) + Without(b, gone)) == (h + Without(a[1..], gone)) + Without(b, gone);
    }
  }

  /** Leaving out an id that does not occur changes nothing. */
  lemma {:induction false} WithoutAbsent(ids: seq<nat>, gone: set<nat>, x: nat)
    requires x !in ids
    ensures Without(ids, gone + {x}) == Without(ids, gone)
    decreases |ids|
  {
    if ids != [] {
      assert x != ids[0];
      WithoutAbsent(ids[1..], gone, x);
    }
  }

  /** Deleting the rows `gone` and querying again is the old answer with
      `gone` left out. */
  lemma {:induction false} MatchingAfterDelete(e: Enrollments, f: Column, n: nat, gone: set<nat>)
    ensures MatchingIds(e - gone, f, n) == Without(MatchingIds(e, f, n), gone)
    decreases n
  {
    if n > 0 {
      var a, t := MatchingIds(e, f, n - 1), Tail(e, f, n - 1);
      assert MatchingIds(e - gone, f, n - 1) == Without(a, gone) by {
        MatchingAfterDelete(e, f, n - 1, gone);
      }
      assert Tail(e - gone, f, n - 1) == Without(t, gone) by {
        if t != [] {
          assert t[1..] == [];
        }
      }
      WithoutConcat(a, t, gone);
    }
  }

  /** Two tables that agree below `n` answer every query below `n` alike. */
  lemma {:induction false} MatchingAgree(a: Enrollments, b: Enrollments, f: Column, n: nat)
    requires forall id :: id < n ==> (id in a <==> id in b)
    requires forall id :: id < n && id in a ==> a[id] == b[id]
    ensures MatchingIds(a, f, n) == MatchingIds(b, f, n)
    decreases n
  {
    if n > 0 {
      MatchingAgree(a, b, f, n - 1);
    }
  }

  /** When every id in [lo, hi) is a row that `f` selects, the query up to
      `hi` is the query up to `lo` followed by those ids. */
  lemma {:induction false} MatchingExtend(e: Enrollments, f: Column, lo: nat, hi: nat)
    requires lo <= hi
    requires forall id :: lo <= id < hi ==> id in e && Selects(f, e[id])
    ensures MatchingIds(e, f, hi) == MatchingIds(e, f, lo) + Range(lo, hi)
    decreases hi - lo
  {
    if lo < hi {
      MatchingExtend(e, f, lo, hi - 1);
      var a, b := MatchingIds(e, f, lo), Range(lo, hi - 1);
      assert Tail(e, f, hi - 1) == [hi - 1];
      assert MatchingIds(e, f, hi) == (a + b) + [hi - 1];
      assert Range(lo, hi) == b + [hi - 1];
      assert (a + b) + [hi - 1] == a + (b + [hi - 1]);
    }
  }
}
