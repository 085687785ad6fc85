# Student–course enrollment manager, modelled in Dafny

The application keeps three tables in SQLite: `student`, `course` and
`enrollments`. An enrollment is the join row between one student and one
course. Two front ends change them: server-rendered form pages and a JSON
API. This project models the enrollment bookkeeping of `app.py` as a state
machine over those tables and proves what each handler does to them.

- `schema.dfy` (module `Schema`): the three row types, and the tables as maps
  from primary key to row. It also holds the invariants the schema declares:
  unique roll numbers, unique course codes, rows stored under their own id.
  It models the queries the handlers issue: lookup by unique key, and
  `filter_by(...).all()` on enrollments, taken to return rows in ascending id
  order (see "## Left out").
- `reconcile.dfy` (module `Reconciliation`): the enrollment loops as pure
  functions, with the lemmas that say what their results contain.
  - `Enroll`: one new enrollment per submitted code that names a course.
  - `Sweep`: the pass over a student's enrollments that keeps or deletes each
    one, striking the first occurrence of each kept code from the list, as
    Python's `list.remove` does.
  - `Reconciled`: the whole update, the sweep followed by the inserts.
- `store.dfy` (module `App`): the class `Store`. It holds the three maps and
  the three id counters. It has one method per state-changing handler and one
  function per read-only JSON handler. The insert and sweep loops of the
  student handlers are module-level methods, proved equal to the functions
  above. The cascade loops of the page deletes are `Store.DeleteEnrollments`,
  whose contract states directly which rows go. Two
  walkthroughs drive the store through complete scenarios:
  - create a course, create it again, read it, delete it, read it again;
  - select courses {A, B}, then reselect {B, C}.

The inputs of a request are the parameters of each method. For a JSON
argument, `None` stands for null, or for an optional argument that was left
out. The methods return what the handler reports:
- a page handler flashes a notice (`Saved`, `Duplicate`, `Missing`) and
  redirects, or `Crashed` when an exception escapes;
- an API handler answers with a status and a body (`Ok`, `Created`,
  `BadRequest` with its `error_code`, `NotFound`, `Conflict`, `ServerError`).

Ids are handed out by counters that start at 1. Two predicates describe the
store:
- `Valid()`: every table is keyed by its own ids, the counters are ahead of
  every id in use, and roll numbers and course codes are each pairwise
  distinct. Every handler keeps it.
- `Referential()`: every enrollment points at an existing student and
  course. The page handlers keep it. The API deletes do not cascade, so they
  can break it, and their contracts say exactly when.

Three lines of `app.py` cannot run as written. The model follows their
evident intent, and each is noted in a comment at the method:
- app.py:98 reads `enrollment.course`, but the relationship is `ECourse`
  (app.py:33).
- app.py:213 reads the undefined name `courseourse`.
- app.py:416 passes `student_id`/`course_id`, but the columns are
  `estudent_id`/`ecourse_id`.

The page deletes cascade to enrollments (app.py:121-124, app.py:213-216).
The API deletes (app.py:261-268, app.py:341-348) remove the row alone.

## Model

| member | source | states |
|---|---|---|
| Schema.FindCourse | app.py:66 | the code lookup finds a course exactly when some course holds that code, and the course it finds holds it |
| Schema.FindCourseUnique | app.py:24 | because codes are unique, the lookup finds the one course holding the code |
| Schema.MatchingMembers | app.py:95 | the enrollment query returns exactly the rows below the counter whose column matches |
| Schema.MatchingIncreasing | app.py:95 | the query returns its rows in strictly ascending id order, without repeats |
| Schema.MatchingNone | app.py:95 | a query that no row satisfies returns nothing |
| Schema.MatchingAfterDelete | app.py:101 | deleting a set of rows and querying again gives the old answer with those rows left out, order kept |
| Schema.MatchingAgree | app.py:95 | two tables that agree below the counter answer every query alike |
| Schema.MatchingExtend | app.py:106-107 | appending matching rows with the next ids extends the query's answer by those ids in order |
| Schema.WithoutMembers | app.py:101 | an id survives the removal of a set exactly when it was present and is not in the set |
| Schema.WithoutConcat | app.py:101 | removal distributes over concatenation |
| Schema.RangeAt | app.py:106 | the ids handed out from `lo` are consecutive |
| Reconciliation.IndexOf | app.py:99 | the found position holds the code, and no earlier position does |
| Reconciliation.RemoveFirst | app.py:99 | `list.remove` takes out exactly one occurrence of the code: the remaining multiset is the old one minus that code |
| Reconciliation.RemoveFirstOthers | app.py:99 | every other code is still present after the removal exactly when it was before |
| Reconciliation.ReferencedResolve | app.py:95-98 | when every enrollment points at an existing course, every enrollment the query returns has a course code to compare |
| Reconciliation.SweepBalance | app.py:97-101 | every submitted code is accounted for exactly once: it matched a kept enrollment or it is still in the list |
| Reconciliation.SweepParts | app.py:97-101 | kept entries and deleted ids all come from the student's enrollments |
| Reconciliation.SweepWithout | app.py:97-101 | the student's ids minus the deleted ones are exactly the kept ones, in order |
| Reconciliation.SweepDistinct | app.py:97-101 | when the student holds each code once, an enrollment is deleted exactly when its code was not submitted |
| Reconciliation.ResolvableCount | app.py:103-105 | each code naming a course survives as often as it was submitted; every other code is skipped |
| Reconciliation.EnrollNext | app.py:65-69 | the insert loop hands out one new id per submitted code that names a course |
| Reconciliation.EnrollDomain | app.py:65-69 | after the insert loop the rows are the old ones plus exactly the newly handed-out ids |
| Reconciliation.EnrollKeeps | app.py:65-69 | the insert loop leaves every existing row as it was |
| Reconciliation.EnrollRow | app.py:66-69 | the k-th new row enrolls the student in the course of the k-th resolvable code |
| Reconciliation.EnrollNew | app.py:68 | every new row is the student's, in an existing course, stored under its own id |
| Reconciliation.EnrolledCodes | app.py:65-69 | read back, the new rows carry the resolvable codes in submitted order |
| Reconciliation.EnrolledIds | app.py:65-69 | after the inserts the student's query answers the old rows followed by the new ones |
| Reconciliation.CreatedEnrollments | app.py:62-71 | a new student ends up enrolled in the submitted codes that name a course, once each per submission, in order; codes that name no course are skipped |
| Reconciliation.HeldFacts | app.py:95 | the student's enrollments are distinct ids, and they are exactly that student's rows |
| Reconciliation.ReconciledIds | app.py:94-107 | afterwards the student's enrollments are the kept ones in their old order, followed by the new ones |
| Reconciliation.ReconciledRows | app.py:94-107 | afterwards the student's course codes are the kept codes followed by the resolvable leftover codes |
| Reconciliation.KeptRowsSurvive | app.py:97-99 | a kept enrollment still exists afterwards with its row unchanged, so its course code reads the same |
| Reconciliation.KeptResolve | app.py:97-99 | every kept code names an existing course |
| Reconciliation.BalanceResolved | app.py:103-107 | kept codes plus the resolvable leftovers balance the resolvable submissions |
| Reconciliation.ReconciledSelection | app.py:94-107 | afterwards the student's course codes, counted with repeats, are exactly the submitted codes that name a course |
| Reconciliation.ReconciledCodeSet | app.py:94-107 | as sets: a code is held afterwards exactly when it was submitted and names a course |
| Reconciliation.ReconciledKeeps | app.py:97-101 | when the student holds each code once, an enrollment survives exactly when its code was submitted, with the same id and the same row |
| Reconciliation.ReconciledOthers | app.py:94-107 | enrollments of other students are untouched, and no row of another student appears |
| Reconciliation.EnrollKeyed | app.py:65-69 | the inserts keep the table keyed by fresh ids and keep every row pointing at an existing student and course |
| Reconciliation.ReconciledKeyed | app.py:94-107 | so does the whole reconciliation |
| App.InsertEnrollments | app.py:65-69 | the insert loop computes exactly `Enroll` |
| App.SweepEnrollments | app.py:97-101 | the loop gets through exactly when every enrollment's course exists, and then deletes and leaves exactly what `Sweep` says |
| App.Reconcile | app.py:94-107 | the enrollment part of the update succeeds exactly when the student's enrollments all resolve, and then yields `Reconciled` |
| App.Store.constructor | app.py:14-34 | an empty database: valid, referential, counters at 1 |
| App.Store.CreateStudent | app.py:48-73 | a taken roll number changes nothing; otherwise it adds exactly one student with a fresh id, plus one enrollment per submitted code that names a course; existing rows are untouched; validity and referential integrity are kept |
| App.Store.UpdateStudent | app.py:78-111 | an unknown id changes nothing; a known id has its names overwritten; when every enrollment resolves, the student's codes become the resolvable submitted codes and other students' enrollments are untouched; an enrollment whose course is gone makes the request fail with no enrollment change; under referential integrity it always succeeds |
| App.Store.DeleteEnrollments | app.py:121-124 | exactly the rows the filter selects are deleted; the others are unchanged |
| App.Store.DeleteStudent | app.py:115-132 | an unknown id changes nothing; otherwise the student and every enrollment referencing it are removed, and nothing else changes |
| App.Store.DeleteCourse | app.py:207-224 | an unknown id changes nothing; otherwise the course and every enrollment referencing it are removed, and nothing else changes |
| App.Store.CreateCourse | app.py:166-186 | a taken code changes nothing; otherwise exactly one course with a fresh id is added |
| App.Store.UpdateCourse | app.py:188-205 | an unknown id changes nothing; otherwise name and description are overwritten and the code is kept |
| App.Store.CourseGet | app.py:227-237 | the course row when the id exists, otherwise 404 |
| App.Store.CoursePut | app.py:239-259 | unknown id gives 404; a null name or code, or a code another course holds, makes the commit fail with nothing changed; otherwise all three columns are overwritten and a GET returns the new row |
| App.Store.CourseDelete | app.py:261-268 | unknown id gives 404 with no change; otherwise the course row alone is removed, and referential integrity survives exactly when no enrollment pointed at it |
| App.Store.CourseListPost | app.py:273-302 | null or empty code gives COURSE002, a taken code gives 409, a null name gives COURSE001; none of these inserts anything; otherwise exactly one course with the submitted fields is inserted, returned with 201 and readable by GET |
| App.Store.StudentGet | app.py:307-317 | the student row when the id exists, otherwise 404 |
| App.Store.StudentPut | app.py:319-339 | unknown id gives 404; a null first name or roll number, or a roll number another student holds, makes the commit fail with nothing changed; otherwise the three columns are overwritten and a GET returns the new row |
| App.Store.StudentDelete | app.py:341-348 | unknown id gives 404 with no change; otherwise the student row alone is removed, and referential integrity survives exactly when no enrollment pointed at it |
| App.Store.StudentListPost | app.py:353-382 | null or empty roll number gives STUDENT001, a taken one gives 409, a null first name gives STUDENT002; none of these inserts anything; otherwise exactly one student with the submitted fields is inserted, returned with 201 and readable by GET |
| App.Store.EnrollmentPost | app.py:400-428 | a missing course gives ENROLLMENT001, even when the student is missing too; an existing course with a missing student gives ENROLLMENT002; neither inserts anything; otherwise exactly one enrollment with a fresh id is inserted and returned with 201 |
| App.CourseWalkthrough | app.py:227-302 | create CS101 gives 201 with id 1, a second create gives 409, GET returns the row, DELETE gives 200, and a second GET gives 404 |
| App.SelectionWalkthrough | app.py:48-111 | a student created with {A, B} and updated to {B, C} holds exactly {B, C}; B is the same enrollment row as before and A is gone |
| App.EnrolledAB | app.py:65-69 | creating the student with A and B inserts enrollments 1 and 2 |
| App.HeldAB | app.py:95 | the student's query then returns enrollments 1 and 2, with codes A and B |
| App.ReselectedBC | app.py:94-107 | reselecting B and C leaves exactly the codes B and C |
| App.ReselectedKeepsB | app.py:97-101 | the enrollment in B keeps its row, and the one in A is deleted |
| App.WithCoursesABC | app.py:166-186 | three course creates give courses A, B and C under ids 1 to 3 |

## Left out

- Flask plumbing is not modelled: routing, `render_template`, `flash`, `redirect`/`url_for` and form parsing. Form fields and parsed arguments are parameters, and notices and replies are results. The redirect to the unknown endpoint `courses` at app.py:184 is left out too. It fails only after the commit, so `CreateCourse` reports `Saved`.
- The request parser is not modelled. It refuses a missing required argument with 400 before the handler runs, and it coerces types. Arguments arrive already parsed, and `None` stands for a JSON null.
- The SQLAlchemy session is not modelled: autoflush, commit and rollback. Each handler applies its changes at once. The one commit that matters is app.py:91, which the model reflects: `UpdateStudent` keeps the new names when the enrollment part fails.
- Storage failures that do not follow from the data are not modelled. This means a disk or connection error at a commit, and so the `ENROLLMENT003` branch (app.py:426-428). The NOT NULL failures that the data does determine become `COURSE001` and `STUDENT002`.
- `withdraw_course` (app.py:145-159) is not modelled. It uses `student` before assigning it, and it calls `query.get` with two arguments, so its intended behaviour cannot be determined.
- `EnrollmentResource.get` (app.py:387-397) and `EnrollmentListResource.delete` (app.py:433-440) are not modelled. They filter on columns that do not exist.
- The list and view pages are not modelled: `student_details`, `view_courses`, `view_student`, and the GET branches that render forms. They only read and render.
- The race between the uniqueness check and the insert of two concurrent requests is not modelled. The model is sequential.
- Id reuse is not modelled. The `autoincrement=True` of app.py:16, app.py:23 and app.py:30 does not make SQLAlchemy emit SQLite's `AUTOINCREMENT` keyword for these integer primary keys, so SQLite gives a new row the largest id in the table plus one (1 when the table is empty), and an id freed by deleting the newest row is handed out again. The model's counters never go back. Only the API deletes leave enrollments behind, and a reused id then attaches those orphaned enrollments to the new row. For example, an API delete of the newest course leaves its enrollments in place; a new course then gets the same id and its code; an update of an affected student then deletes or keeps those enrollments by the new code instead of crashing. The members on the next lines are stated under the model's counters and do not hold with id reuse after an API delete.
- CreateStudent: its enrolled codes equal the resolvable submitted codes only when no orphaned enrollment carries the new student's id; with id reuse they would include the orphans' codes.
- CreatedEnrollments: holds only for a student id that no enrollment carries, which the model's counters ensure and SQLite's id reuse does not.
- UpdateStudent: its split between crash and success, and its `Reconciled` result, assume that freed ids are never handed out again.
- CreateCourse, CourseListPost, StudentListPost, EnrollmentPost: the new row gets the counter's id, which can differ from the id SQLite would give once the newest row of that table has been deleted (for enrollments a page delete already does that).
- The order of query results is an assumption. The enrollment queries (app.py:95, app.py:121, app.py:213) have no ORDER BY, so SQLite leaves the order undefined. The model takes ascending id order, the order of a full scan while `enrollments` has no index on `estudent_id` or `ecourse_id`. The order decides which of two enrollments in the same course the update keeps: with enrollments 1 and 2 both in A and the selection [A], the model keeps 1. It is also the "old order" of ReconciledIds.
- UpdateStudent, DeleteCourse, EnrollmentPost: model the evident intent of app.py:98, app.py:213 and app.py:416. As written, the first raises for any student who has an enrollment (after the names are committed). The second raises for any existing course and deletes nothing. The third raises before inserting.
