/** The application state of the enrollment manager (the three tables and
    their id counters) as one object, with one method per state-changing
    handler of app.py and one function per read-only JSON handler. */
module App {
  import opened Schema
  import opened Reconciliation

  /** What a page handler reports (through `flash`) before it redirects. */
  datatype Notice =
    | Saved      // "... added / updated / deleted successfully"
    | Duplicate  // "Roll number already exists" / "Course code already exists"
    | Missing    // "Student not found" / "Course not found"
    | Crashed    // an exception escapes the handler and the request fails

  /** The status and body of a JSON API response. */
  datatype Reply<T> =
    | Ok(body: T)                    // 200
    | Created(body: T)               // 201
    | BadRequest(errorCode: string)  // 400 with an `error_code`
    | NotFound                       // 404
    | Conflict                       // 409
    | ServerError                    // 500: an exception escapes, the transaction is rolled back

  /** The insert loops of app.py:65-69 and app.py:103-107: one new
      enrollment of `sid` for each code, in order, that names a course. */
  method InsertEnrollments(e: Enrollments, sid: nat, c: Courses, codes: seq<string>, n: nat)
    returns (e2: Enrollments, n2: nat)
    requires CodesDistinct(c)
    ensures (e2, n2) == Enroll(e, sid, c, codes, n)
  {
    e2, n2 := e, n;
    var i := 0;
    while i < |codes|
      invariant 0 <= i <= |codes|
      invariant Enroll(e2, sid, c, codes[i..], n2) == Enroll(e, sid, c, codes, n)
    {
      assert codes[i..][0] == codes[i] && codes[i..][1..] == codes[i + 1..];
      var found := FindCourse(c, codes[i]);
      if found.Some? {
        e2 := e2[n2 := Enrollment(n2, sid, found.value)];
        n2 := n2 + 1;
      }
      i := i + 1;
    }
  }

  /** The loop of app.py:97-101 over the enrollments `ids` of one student:
      keep the ones whose course code is still in `selected`, striking one
      occurrence of it, and delete the others. It fails, deciding nothing,
      as soon as an enrollment's course is missing. */
  method SweepEnrollments(e: Enrollments, c: Courses, ids: seq<nat>, selected: seq<string>)
    returns (resolved: bool, table: Enrollments, rest: seq<string>)
    requires forall k :: 0 <= k < |ids| ==> ids[k] in e
    ensures resolved <==> ResolvesAll(e, c, ids)
    ensures resolved ==>
      var r := Sweep(Entries(e, c, ids), selected);
      table == e - r.dropped && rest == r.rest
  {
    ghost var held := Entries(e, c, ids);
    ghost var kept: seq<Entry>, dropped: set<nat> := [], {};
    table, rest := e, selected;
    var i := 0;
    while i < |ids|
      invariant 0 <= i <= |ids|
      invariant ResolvesAll(e, c, ids[..i])
      invariant table == e - dropped
      invariant var r := Sweep(held[i..], rest);
        Sweep(held, selected) == Swept(kept + r.kept, dropped + r.dropped, r.rest)
    {
      var id := ids[i];
      var cid := e[id].courseId;
      if cid !in c {
        return false, table, rest;
      }
      var code := c[cid].courseCode;
      assert held[i..][0] == held[i] == Entry(id, code) && held[i..][1..] == held[i + 1..];
      assert ids[..i + 1] == ids[..i] + [id];
      if code in rest {
        rest := RemoveFirst(rest, code);
        kept := kept + [held[i]];
      } else {
        table := table - {id};
        dropped := dropped + {id};
      }
      i := i + 1;
    }
    assert ids[..i] == ids && held[i..] == [];
    resolved := true;
  }

  /** The enrollment part of `update_student` (app.py:94-107): query the
      student's enrollments, sweep them against the submitted codes, insert
      what is left. */
  method Reconcile(e: Enrollments, c: Courses, sid: nat, selected: seq<string>, n: nat)
    returns (resolved: bool, e2: Enrollments, n2: nat)
    requires CodesDistinct(c)
    requires forall id :: id in e ==> id < n
    ensures resolved <==> ResolvesAll(e, c, MatchingIds(e, ByStudent(sid), n))
    ensures resolved ==> (e2, n2) == Reconciled(e, c, sid, selected, n)
  {
    var ids := MatchingIds(e, ByStudent(sid), n);
    MatchingMembers(e, ByStudent(sid), n);
    var remaining, rest;
    resolved, remaining, rest := SweepEnrollments(e, c, ids, selected);
    e2, n2 := e, n;
    if resolved {
      e2, n2 := InsertEnrollments(remaining, sid, c, rest, n);
    }
  }

  class Store {
    var students: Students
    var courses: Courses
    var enrollments: Enrollments
    /** The ids the database hands out next (rowids start at 1). */
    var nextStudentId: nat
    var nextCourseId: nat
    var nextEnrollmentId: nat

    /** What the schema and the id generator guarantee at every commit. */
    ghost predicate Valid()
      reads this
    {
      && 0 < nextStudentId && 0 < nextCourseId && 0 < nextEnrollmentId
      && StudentsKeyed(students, nextStudentId)
      && CoursesKeyed(courses, nextCourseId)
      && EnrollmentsKeyed(enrollments, nextEnrollmentId, nextStudentId, nextCourseId)
      && RollNumbersDistinct(students)
      && CodesDistinct(courses)
    }

    /** No enrollment refers to a deleted student or course. The page
        handlers keep this; the API deletes can break it. */
    ghost predicate Referential()
      reads this
    {
      References(enrollments, students, courses)
    }

    /** An empty database. */
    constructor ()
      ensures Valid() && Referential()
      ensures students == map[] && courses == map[] && enrollments == map[]
      ensures nextStudentId == 1 && nextCourseId == 1 && nextEnrollmentId == 1
    {
      students, courses, enrollments := map[], map[], map[];
      nextStudentId, nextCourseId, nextEnrollmentId := 1, 1, 1;
    }

    // ===== page handlers =====

    /** `create_student` (app.py:48-73): refuse a taken roll number; otherwise
        insert the student and one enrollment per submitted code that names a
        course, skipping the others. The new student's id is the one the
        session flush assigns before the enrollment loop runs. */
    method CreateStudent(roll: string, first: string, last: string, codes: seq<string>) returns (notice: Notice)
      requires Valid()
      modifies this
      ensures Valid()
      ensures old(Referential()) ==> Referential()
      ensures notice == (if RollTaken(old(students), roll) then Duplicate else Saved)
      ensures notice == Duplicate ==> unchanged(this)
      ensures notice == Saved ==>
        var sid := old(nextStudentId);
        && students == old(students)[sid := Student(sid, roll, first, Some(last))]
        && nextStudentId == sid + 1
        && courses == old(courses) && nextCourseId == old(nextCourseId)
        && (enrollments, nextEnrollmentId) == Enroll(old(enrollments), sid, courses, codes, old(nextEnrollmentId))
        && nextEnrollmentId == old(nextEnrollmentId) + |Resolvable(courses, codes)|
        && (forall id :: id in old(enrollments) ==> id in enrollments && enrollments[id] == old(enrollments)[id])
        && StudentCodes(enrollments, courses, sid, nextEnrollmentId) == Resolvable(courses, codes)
    {
      if RollTaken(students, roll) {
        return Duplicate;
      }
      var sid := nextStudentId;
      ghost var referential := Referential();
      students := students[sid := Student(sid, roll, first, Some(last))];
      nextStudentId := sid + 1;
      assert StudentsKeyed(students, nextStudentId) && RollNumbersDistinct(students);
      assert EnrollmentsKeyed(enrollments, nextEnrollmentId, nextStudentId, nextCourseId);
      assert referential ==> Referential();
      ghost var e0, n0 := enrollments, nextEnrollmentId;
      var table, next := InsertEnrollments(enrollments, sid, courses, codes, nextEnrollmentId);
      assert EnrollmentsKeyed(table, next, nextStudentId, nextCourseId) && n0 <= next
          && (referential ==> References(table, students, courses)) by {
        EnrollKeyed(e0, students, sid, courses, codes, n0, nextStudentId, nextCourseId);
      }
      assert next == n0 + |Resolvable(courses, codes)| by {
        EnrollNext(e0, sid, courses, codes, n0);
      }
      assert forall id :: id in e0 ==> id in table && table[id] == e0[id] by {
        EnrollKeeps(e0, sid, courses, codes, n0);
      }
      assert StudentCodes(table, courses, sid, next) == Resolvable(courses, codes) by {
        CreatedEnrollments(e0, sid, courses, codes, n0);
      }
      enrollments, nextEnrollmentId := table, next;
      notice := Saved;
    }

    /** `update_student` (app.py:78-111). The names are committed first
        (app.py:91), so they stay even when the rest fails. Then each of the
        student's enrollments, in id order, is kept if its course code is
        still in the submitted list (one occurrence of the code is struck from
        the list) and deleted otherwise; each code left in the list that names
        a course gets a new enrollment. The course code is read through the
        `ECourse` relationship (app.py:33); the `enrollment.course` written at
        app.py:98 names no attribute, and this model follows the evident
        intent. When an enrollment's course has been deleted (only the API
        delete allows that) its `ECourse` is None, reading its code raises,
        and the uncommitted enrollment changes are rolled back. */
    method UpdateStudent(sid: nat, first: string, last: string, selected: seq<string>) returns (notice: Notice)
      requires Valid()
      modifies this
      ensures Valid()
      ensures old(Referential()) ==> Referential()
      ensures courses == old(courses) && nextStudentId == old(nextStudentId) && nextCourseId == old(nextCourseId)
      ensures notice == Missing <==> sid !in old(students)
      ensures notice == Missing ==> unchanged(this)
      ensures sid in old(students) ==>
        students == old(students)[sid := old(students)[sid].(firstName := first, lastName := Some(last))]
      ensures notice == Crashed <==>
        sid in old(students) && !ResolvesAll(old(enrollments), courses, MatchingIds(old(enrollments), ByStudent(sid), old(nextEnrollmentId)))
      ensures notice == Crashed ==> enrollments == old(enrollments) && nextEnrollmentId == old(nextEnrollmentId)
      ensures old(Referential()) && sid in old(students) ==> notice == Saved
      ensures notice == Saved ==>
        && (enrollments, nextEnrollmentId) == Reconciled(old(enrollments), courses, sid, selected, old(nextEnrollmentId))
        && multiset(StudentCodes(enrollments, courses, sid, nextEnrollmentId)) == multiset(Resolvable(courses, selected))
        && (forall id :: id in old(enrollments) && old(enrollments)[id].studentId != sid ==>
              id in enrollments && enrollments[id] == old(enrollments)[id])
        && (forall id :: id in enrollments && enrollments[id].studentId != sid ==> id in old(enrollments))
    {
      if sid !in students {
        return Missing;
      }
      ghost var referential := Referential();
      if referential {
        ReferencedResolve(enrollments, students, courses, ByStudent(sid), nextEnrollmentId);
      }
      students := students[sid := students[sid].(firstName := first, lastName := Some(last))];
      assert Valid();
      assert referential ==> Referential();

      ghost var e0, n := enrollments, nextEnrollmentId;
      var resolved, table, next := Reconcile(enrollments, courses, sid, selected, nextEnrollmentId);
      if !resolved {
        return Crashed;
      }
      enrollments, nextEnrollmentId := table, next;
      notice := Saved;
      ReconciledKeyed(e0, students, courses, sid, selected, n, nextStudentId, nextCourseId);
      ReconciledSelection(e0, courses, sid, selected, n);
      ReconciledOthers(e0, courses, sid, selected, n);
    }

    /** Delete every enrollment `f` selects: the loops of app.py:121-124 and
        app.py:213-216 over the rows the query returns. */
    method DeleteEnrollments(f: Column)
      requires Valid()
      modifies this
      ensures Valid()
      ensures students == old(students) && courses == old(courses)
      ensures nextStudentId == old(nextStudentId) && nextCourseId == old(nextCourseId)
      ensures nextEnrollmentId == old(nextEnrollmentId)
      ensures forall id :: id in enrollments <==> id in old(enrollments) && !Selects(f, old(enrollments)[id])
      ensures forall id :: id in enrollments ==> enrollments[id] == old(enrollments)[id]
    {
      var ids := MatchingIds(enrollments, f, nextEnrollmentId);
      MatchingMembers(enrollments, f, nextEnrollmentId);
      var table := enrollments;
      var i := 0;
      while i < |ids|
        invariant 0 <= i <= |ids|
        invariant forall id :: id in table <==> id in enrollments && id !in ids[..i]
        invariant forall id :: id in table ==> table[id] == enrollments[id]
      {
        assert ids[..i + 1] == ids[..i] + [ids[i]];
        table := table - {ids[i]};
        i := i + 1;
      }
      assert ids[..i] == ids;
      enrollments := table;
    }

    /** `delete_student` (app.py:115-132): the student's enrollments, then
        the student. */
    method DeleteStudent(sid: nat) returns (notice: Notice)
      requires Valid()
      modifies this
      ensures Valid()
      ensures old(Referential()) ==> Referential()
      ensures notice == (if sid in old(students) then Saved else Missing)
      ensures notice == Missing ==> unchanged(this)
      ensures courses == old(courses)
      ensures nextStudentId == old(nextStudentId) && nextCourseId == old(nextCourseId)
      ensures nextEnrollmentId == old(nextEnrollmentId)
      ensures notice == Saved ==>
        && students == old(students) - {sid}
        && (forall id :: id in enrollments <==> id in old(enrollments) && old(enrollments)[id].studentId != sid)
        && (forall id :: id in enrollments ==> enrollments[id] == old(enrollments)[id])
    {
      if sid !in students {
        return Missing;
      }
      DeleteEnrollments(ByStudent(sid));
      students := students - {sid};
      notice := Saved;
    }

    /** `delete_course` (app.py:207-224): the course's enrollments, then the
        course. app.py:213 queries `courseourse.course_id`, an undefined
        name; this model follows the cascade the comment at app.py:212
        describes and filters on the course's own id. */
    method DeleteCourse(cid: nat) returns (notice: Notice)
      requires Valid()
      modifies this
      ensures Valid()
      ensures old(Referential()) ==> Referential()
      ensures notice == (if cid in old(courses) then Saved else Missing)
      ensures notice == Missing ==> unchanged(this)
      ensures students == old(students)
      ensures nextStudentId == old(nextStudentId) && nextCourseId == old(nextCourseId)
      ensures nextEnrollmentId == old(nextEnrollmentId)
      ensures notice == Saved ==>
        && courses == old(courses) - {cid}
        && (forall id :: id in enrollments <==> id in old(enrollments) && old(enrollments)[id].courseId != cid)
        && (forall id :: id in enrollments ==> enrollments[id] == old(enrollments)[id])
    {
      if cid !in courses {
        return Missing;
      }
      DeleteEnrollments(ByCourse(cid));
      courses := courses - {cid};
      notice := Saved;
    }

    /** `create_course` (app.py:166-186): refuse a taken code, otherwise
        insert the course. */
    method CreateCourse(code: string, name: string, desc: string) returns (notice: Notice)
      requires Valid()
      modifies this
      ensures Valid()
      ensures old(Referential()) ==> Referential()
      ensures notice == (if CodeTaken(old(courses), code) then Duplicate else Saved)
      ensures notice == Duplicate ==> unchanged(this)
      ensures notice == Saved ==>
        var cid := old(nextCourseId);
        && courses == old(courses)[cid := Course(cid, code, name, Some(desc))]
        && nextCourseId == cid + 1
      ensures students == old(students) && enrollments == old(enrollments)
      ensures nextStudentId == old(nextStudentId) && nextEnrollmentId == old(nextEnrollmentId)
    {
      if CodeTaken(courses, code) {
        return Duplicate;
      }
      var cid := nextCourseId;
      courses := courses[cid := Course(cid, code, name, Some(desc))];
      nextCourseId := cid + 1;
      notice := Saved;
    }

    /** `update_course` (app.py:188-205): name and description are
        overwritten; the code is left as it is. */
    method UpdateCourse(cid: nat, name: string, desc: string) returns (notice: Notice)
      requires Valid()
      modifies this
      ensures Valid()
      ensures old(Referential()) ==> Referential()
      ensures notice == (if cid in old(courses) then Saved else Missing)
      ensures notice == Missing ==> unchanged(this)
      ensures notice == Saved ==>
        courses == old(courses)[cid := old(courses)[cid].(courseName := name, courseDescription := Some(desc))]
      ensures students == old(students) && enrollments == old(enrollments)
      ensures nextStudentId == old(nextStudentId) && nextCourseId == old(nextCourseId)
      ensures nextEnrollmentId == old(nextEnrollmentId)
    {
      if cid !in courses {
        return Missing;
      }
      courses := courses[cid := courses[cid].(courseName := name, courseDescription := Some(desc))];
      notice := Saved;
    }

    // ===== JSON API: courses =====
    // Arguments arrive parsed; `None` is a JSON null or an omitted optional
    // argument. A required argument missing altogether is refused by the
    // request parser before the handler runs.

    /** `CourseResource.get` (app.py:227-237). */
    function CourseGet(cid: nat): (r: Reply<Course>)
      reads this
      ensures r.Ok? <==> cid in courses
      ensures r.Ok? ==> r.body == courses[cid]
      ensures r.NotFound? <==> cid !in courses
    {
      if cid in courses then Ok(courses[cid]) else NotFound
    }

    /** `CourseResource.put` (app.py:239-259): all three columns are
        overwritten. A null name or code breaks NOT NULL and a code another
        course holds breaks UNIQUE; the commit then raises outside any
        `try`, the request fails and nothing changes. */
    method CoursePut(cid: nat, name: Option<string>, code: Option<string>, desc: Option<string>) returns (r: Reply<Course>)
      requires Valid()
      modifies this
      ensures Valid()
      ensures old(Referential()) ==> Referential()
      ensures r.NotFound? <==> cid !in old(courses)
      ensures r.ServerError? <==>
        cid in old(courses) && (name.None? || code.None? || CodeTakenByOther(old(courses), code.value, cid))
      ensures r.Ok? || r.NotFound? || r.ServerError?
      ensures !r.Ok? ==> unchanged(this)
      ensures r.Ok? ==>
        && r.body == Course(cid, code.value, name.value, desc)
        && courses == old(courses)[cid := r.body]
        && CourseGet(cid) == r
      ensures students == old(students) && enrollments == old(enrollments)
      ensures nextStudentId == old(nextStudentId) && nextCourseId == old(nextCourseId)
      ensures nextEnrollmentId == old(nextEnrollmentId)
    {
      if cid !in courses {
        return NotFound;
      }
      if name.None? || code.None? || CodeTakenByOther(courses, code.value, cid) {
        return ServerError;
      }
      var row := Course(cid, code.value, name.value, desc);
      courses := courses[cid := row];
      r := Ok(row);
    }

    /** `CourseResource.delete` (app.py:261-268): the course row alone; its
        enrollments stay and now point at nothing (SQLite does not enforce
        foreign keys unless asked to). */
    method CourseDelete(cid: nat) returns (r: Reply<()>)
      requires Valid()
      modifies this
      ensures Valid()
      ensures r == (if cid in old(courses) then Ok(()) else NotFound)
      ensures r.NotFound? ==> unchanged(this)
      ensures r.Ok? ==> courses == old(courses) - {cid}
      ensures r.Ok? ==>
        (Referential() <==> old(Referential()) && forall id :: id in enrollments ==> enrollments[id].courseId != cid)
      ensures students == old(students) && enrollments == old(enrollments)
      ensures nextStudentId == old(nextStudentId) && nextCourseId == old(nextCourseId)
      ensures nextEnrollmentId == old(nextEnrollmentId)
    {
      if cid !in courses {
        return NotFound;
      }
      courses := courses - {cid};
      r := Ok(());
    }

    /** `CourseListResource.post` (app.py:273-302): a null or empty code is
        refused with COURSE002, a taken code with 409; otherwise the course
        is inserted, and a null name breaks NOT NULL at the commit, which the
        handler rolls back and reports as COURSE001. */
    method CourseListPost(name: Option<string>, code: Option<string>, desc: Option<string>) returns (r: Reply<Course>)
      requires Valid()
      modifies this
      ensures Valid()
      ensures old(Referential()) ==> Referential()
      ensures r == BadRequest("COURSE002") <==> code.None? || code.value == ""
      ensures r == Conflict <==> code.Some? && code.value != "" && CodeTaken(old(courses), code.value)
      ensures r == BadRequest("COURSE001") <==>
        code.Some? && code.value != "" && !CodeTaken(old(courses), code.value) && name.None?
      ensures r.Created? <==>
        code.Some? && code.value != "" && !CodeTaken(old(courses), code.value) && name.Some?
      ensures !r.Created? ==> unchanged(this)
      ensures r.Created? ==>
        var cid := old(nextCourseId);
        && r.body == Course(cid, code.value, name.value, desc)
        && courses == old(courses)[cid := r.body]
        && nextCourseId == cid + 1
        && CourseGet(cid) == Ok(r.body)
      ensures students == old(students) && enrollments == old(enrollments)
      ensures nextStudentId == old(nextStudentId) && nextEnrollmentId == old(nextEnrollmentId)
    {
      if code.None? || code.value == "" {
        return BadRequest("COURSE002");
      }
      if CodeTaken(courses, code.value) {
        return Conflict;
      }
      if name.None? {
        return BadRequest("COURSE001");
      }
      var cid := nextCourseId;
      var row := Course(cid, code.value, name.value, desc);
      courses := courses[cid := row];
      nextCourseId := cid + 1;
      r := Created(row);
    }

    // ===== JSON API: students =====

    /** `StudentResource.get` (app.py:307-317). */
    function StudentGet(sid: nat): (r: Reply<Student>)
      reads this
      ensures r.Ok? <==> sid in students
      ensures r.Ok? ==> r.body == students[sid]
      ensures r.NotFound? <==> sid !in students
    {
      if sid in students then Ok(students[sid]) else NotFound
    }

    /** `StudentResource.put` (app.py:319-339): all three columns are
        overwritten; `roll_number` is an optional argument, so leaving it out
        writes null. A null first name or roll number breaks NOT NULL and a
        roll number another student holds breaks UNIQUE; the commit then
        raises, the request fails and nothing changes. */
    method StudentPut(sid: nat, first: Option<string>, last: Option<string>, roll: Option<string>) returns (r: Reply<Student>)
      requires Valid()
      modifies this
      ensures Valid()
      ensures old(Referential()) ==> Referential()
      ensures r.NotFound? <==> sid !in old(students)
      ensures r.ServerError? <==>
        sid in old(students) && (first.None? || roll.None? || RollTakenByOther(old(students), roll.value, sid))
      ensures r.Ok? || r.NotFound? || r.ServerError?
      ensures !r.Ok? ==> unchanged(this)
      ensures r.Ok? ==>
        && r.body == Student(sid, roll.value, first.value, last)
        && students == old(students)[sid := r.body]
        && StudentGet(sid) == r
      ensures courses == old(courses) && enrollments == old(enrollments)
      ensures nextStudentId == old(nextStudentId) && nextCourseId == old(nextCourseId)
      ensures nextEnrollmentId == old(nextEnrollmentId)
    {
      if sid !in students {
        return NotFound;
      }
      if first.None? || roll.None? || RollTakenByOther(students, roll.value, sid) {
        return ServerError;
      }
      var row := Student(sid, roll.value, first.value, last);
      students := students[sid := row];
      r := Ok(row);
    }

    /** `StudentResource.delete` (app.py:341-348): the student row alone;
        its enrollments stay. */
    method StudentDelete(sid: nat) returns (r: Reply<()>)
      requires Valid()
      modifies this
      ensures Valid()
      ensures r == (if sid in old(students) then Ok(()) else NotFound)
      ensures r.NotFound? ==> unchanged(this)
      ensures r.Ok? ==> students == old(students) - {sid}
      ensures r.Ok? ==>
        (Referential() <==> old(Referential()) && forall id :: id in enrollments ==> enrollments[id].studentId != sid)
      ensures courses == old(courses) && enrollments == old(enrollments)
      ensures nextStudentId == old(nextStudentId) && nextCourseId == old(nextCourseId)
      ensures nextEnrollmentId == old(nextEnrollmentId)
    {
      if sid !in students {
        return NotFound;
      }
      students := students - {sid};
      r := Ok(());
    }

    /** `StudentListResource.post` (app.py:353-382): a null or empty roll
        number is refused with STUDENT001, a taken one with 409; otherwise
        the student is inserted, and a null first name breaks NOT NULL at the
        commit, which the handler rolls back and reports as STUDENT002. */
    method StudentListPost(first: Option<string>, last: Option<string>, roll: Option<string>) returns (r: Reply<Student>)
      requires Valid()
      modifies this
      ensures Valid()
      ensures old(Referential()) ==> Referential()
      ensures r == BadRequest("STUDENT001") <==> roll.None? || roll.value == ""
      ensures r == Conflict <==> roll.Some? && roll.value != "" && RollTaken(old(students), roll.value)
      ensures r == BadRequest("STUDENT002") <==>
        roll.Some? && roll.value != "" && !RollTaken(old(students), roll.value) && first.None?
      ensures r.Created? <==>
        roll.Some? && roll.value != "" && !RollTaken(old(students), roll.value) && first.Some?
      ensures !r.Created? ==> unchanged(this)
      ensures r.Created? ==>
        var sid := old(nextStudentId);
        && r.body == Student(sid, roll.value, first.value, last)
        && students == old(students)[sid := r.body]
        && nextStudentId == sid + 1
        && StudentGet(sid) == Ok(r.body)
      ensures courses == old(courses) && enrollments == old(enrollments)
      ensures nextCourseId == old(nextCourseId) && nextEnrollmentId == old(nextEnrollmentId)
    {
      if roll.None? || roll.value == "" {
        return BadRequest("STUDENT001");
      }
      if RollTaken(students, roll.value) {
        return Conflict;
      }
      if first.None? {
        return BadRequest("STUDENT002");
      }
      var sid := nextStudentId;
      var row := Student(sid, roll.value, first.value, last);
      students := students[sid := row];
      nextStudentId := sid + 1;
      r := Created(row);
    }

    // ===== JSON API: enrollments =====

    /** The `course_id` argument (an integer, or null) names a course. */
    predicate HasCourse(cid: Option<int>)
      reads this
    {
      cid.Some? && 0 <= cid.value && cid.value as nat in courses
    }

    /** `EnrollmentResource.post` (app.py:400-428): the course is checked
        before the student, so a missing course is reported as ENROLLMENT001
        even when the student is missing too. app.py:416 passes the keywords
        `student_id` and `course_id`, which name no column of the model
        (app.py:31-32 call them `estudent_id` and `ecourse_id`); this model
        follows the evident intent and inserts the enrollment. */
    method EnrollmentPost(sid: nat, cid: Option<int>) returns (r: Reply<Enrollment>)
      requires Valid()
      modifies this
      ensures Valid()
      ensures old(Referential()) ==> Referential()
      ensures r == BadRequest("ENROLLMENT001") <==> !old(HasCourse(cid))
      ensures r == BadRequest("ENROLLMENT002") <==> old(HasCourse(cid)) && sid !in old(students)
      ensures r.Created? <==> old(HasCourse(cid)) && sid in old(students)
      ensures !r.Created? ==> unchanged(this)
      ensures r.Created? ==>
        var eid := old(nextEnrollmentId);
        && r.body == Enrollment(eid, sid, cid.value as nat)
        && enrollments == old(enrollments)[eid := r.body]
        && nextEnrollmentId == eid + 1
      ensures students == old(students) && courses == old(courses)
      ensures nextStudentId == old(nextStudentId) && nextCourseId == old(nextCourseId)
    {
      if !HasCourse(cid) {
        return BadRequest("ENROLLMENT001");
      }
      if sid !in students {
        return BadRequest("ENROLLMENT002");
      }
      var eid := nextEnrollmentId;
      var row := Enrollment(eid, sid, cid.value as nat);
      enrollments := enrollments[eid := row];
      nextEnrollmentId := eid + 1;
      r := Created(row);
    }
  }

  // ===== walk-throughs =====

  /** Two codes that both name a course both survive Resolvable. */
  lemma ResolvableBoth(c: Courses, x: string, y: string)
    requires CodeTaken(c, x) && CodeTaken(c, y)
    ensures Resolvable(c, [x, y]) == [x, y]
  {
    var xy, ys := [x, y], [y];
    assert ys[0] == y && ys[1..] == [];
    assert Resolvable(c, ys) == [y] + Resolvable(c, []);
    assert xy[0] == x && xy[1..] == ys;
    assert Resolvable(c, xy) == [x] + Resolvable(c, ys);
  }

  /** Create course CS101, create it again, read it back, delete it and read
      it once more. */
  method CourseWalkthrough() returns (created: Reply<Course>, again: Reply<Course>, read: Reply<Course>,
                                      deleted: Reply<()>, gone: Reply<Course>)
    ensures created == Created(Course(1, "CS101", "Intro to CS", None))
    ensures again == Conflict
    ensures read == Ok(created.body)
    ensures deleted == Ok(())
    ensures gone == NotFound
  {
    var store := new Store();
    created := store.CourseListPost(Some("Intro to CS"), Some("CS101"), None);
    assert store.courses[1].courseCode == "CS101";
    again := store.CourseListPost(Some("Intro to CS"), Some("CS101"), None);
    read := store.CourseGet(1);
    deleted := store.CourseDelete(1);
    gone := store.CourseGet(1);
  }

  /** A student created with courses A and B is updated to the selection B,
      C: afterwards the student holds exactly B and C, the enrollment in B is
      the same row as before, and the one in A is gone. */
  method SelectionWalkthrough() returns (before: seq<string>, after: seq<string>, sameB: bool, goneA: bool)
    ensures before == ["A", "B"]
    ensures multiset(after) == multiset{"B", "C"}
    ensures sameB && goneA
  {
    var store := WithCoursesABC();
    var _ := store.CreateStudent("R1", "Ada", "Lovelace", ["A", "B"]);
    EnrolledAB(store.courses);
    before := StudentCodes(store.enrollments, store.courses, 1, store.nextEnrollmentId);
    var _ := store.UpdateStudent(1, "Ada", "Lovelace", ["B", "C"]);
    ReselectedBC(store.courses);
    ReselectedKeepsB(store.courses);
    after := StudentCodes(store.enrollments, store.courses, 1, store.nextEnrollmentId);
    sameB := 2 in store.enrollments && store.enrollments[2] == Enrollment(2, 1, 2);
    goneA := 1 !in store.enrollments;
  }

  /** The courses A, B and C under the ids 1, 2 and 3. */
  function CoursesABC(): Courses {
    map[1 := Course(1, "A", "Algebra", Some("")), 2 := Course(2, "B", "Biology", Some("")),
        3 := Course(3, "C", "Chemistry", Some(""))]
  }

  /** The enrollments of student 1 in A and B, as ids 1 and 2. */
  function EnrollmentsAB(): Enrollments {
    map[1 := Enrollment(1, 1, 1), 2 := Enrollment(2, 1, 2)]
  }

  /** Enrolling a new student 1 in A and B. */
  lemma EnrolledAB(c: Courses)
    requires c == CoursesABC()
    ensures CodesDistinct(c)
    ensures Enroll(map[], 1, c, ["A", "B"], 1) == (EnrollmentsAB(), 3)
    ensures Resolvable(c, ["A", "B"]) == ["A", "B"]
  {
    assert c[1].courseCode == "A" && c[2].courseCode == "B" && c[3].courseCode == "C";
    FindCourseUnique(c, "A", 1);
    FindCourseUnique(c, "B", 2);
    assert ["A", "B"][1..] == ["B"];
    ResolvableBoth(c, "A", "B");
  }

  /** Student 1's enrollments in A and B, read back. */
  lemma HeldAB(c: Courses)
    requires c == CoursesABC()
    ensures MatchingIds(EnrollmentsAB(), ByStudent(1), 3) == [1, 2]
    ensures StudentCodes(EnrollmentsAB(), c, 1, 3) == ["A", "B"]
    ensures ResolvesAll(EnrollmentsAB(), c, [1, 2])
  {
    var e := EnrollmentsAB();
    MatchingNone(e, ByStudent(1), 1);
    MatchingExtend(e, ByStudent(1), 1, 3);
    RangeAt(1, 3);
    assert Range(1, 3) == [1, 2];
    assert Entries(e, c, [1, 2]) == [Entry(1, "A"), Entry(2, "B")];
  }

  /** Reselecting B and C for student 1 leaves B and C ... */
  lemma ReselectedBC(c: Courses)
    requires c == CoursesABC()
    ensures CodesDistinct(c)
    ensures var (e2, n2) := Reconciled(EnrollmentsAB(), c, 1, ["B", "C"], 3);
      multiset(StudentCodes(e2, c, 1, n2)) == multiset{"B", "C"}
  {
    EnrolledAB(c);
    HeldAB(c);
    assert c[2].courseCode == "B" && c[3].courseCode == "C";
    ResolvableBoth(c, "B", "C");
    ReconciledSelection(EnrollmentsAB(), c, 1, ["B", "C"], 3);
  }

  /** ... with the enrollment in B kept as it was and the one in A deleted. */
  lemma ReselectedKeepsB(c: Courses)
    requires c == CoursesABC()
    ensures CodesDistinct(c)
    ensures var (e2, n2) := Reconciled(EnrollmentsAB(), c, 1, ["B", "C"], 3);
      2 in e2 && e2[2] == Enrollment(2, 1, 2) && 1 !in e2
  {
    EnrolledAB(c);
    HeldAB(c);
    ReconciledKeeps(EnrollmentsAB(), c, 1, ["B", "C"], 3, 2);
    ReconciledKeeps(EnrollmentsAB(), c, 1, ["B", "C"], 3, 1);
  }

  /** A new database holding the courses A, B and C (ids 1, 2, 3). */
  method WithCoursesABC() returns (store: Store)
    ensures fresh(store) && store.Valid() && store.Referential()
    ensures store.students == map[] && store.enrollments == map[]
    ensures store.nextStudentId == 1 && store.nextEnrollmentId == 1
    ensures store.courses == CoursesABC()
  {
    store := new Store();
    var _ := store.CreateCourse("A", "Algebra", "");
    assert store.courses[1].courseCode == "A";
    var _ := store.CreateCourse("B", "Biology", "");
    assert store.courses[2].courseCode == "B";
    var _ := store.CreateCourse("C", "Chemistry", "");
  }
}
