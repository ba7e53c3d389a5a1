/** The enrolment gateway over the `student_courses` join table. */
module StudentCoursesImpl {
  import opened Tables
  import opened Store

  /**
   * `addStudentToCourse`: the student is appended to the course's list, with
   * no check for an earlier entry; the caller is expected to have checked.
   * Both rows must exist: a missing course is dereferenced, a missing student
   * would be added as a null entry. Appending to a loaded list touches no
   * store, so the `PersistenceException` handler cannot fire.
   */
  method AddStudentToCourse(db: School, studentId: string, courseId: string) returns (ok: bool)
    requires db.Valid() && studentId in db.students.rows && courseId in db.courses.rows
    modifies db
    ensures db.Valid()
    ensures ok
    ensures db.roster == Enrol(old(db.roster), courseId, studentId)
    ensures db.groups == old(db.groups) && db.students == old(db.students) && db.courses == old(db.courses)
  {
    db.EnrolStudent(courseId, studentId);
    ok := true;
  }

  /**
   * `removeStudentFromCourse`: one entry of the student leaves the course's
   * list (none, if it was not there). Only the course is dereferenced.
   */
  method RemoveStudentFromCourse(db: School, studentId: string, courseId: string) returns (ok: bool)
    requires db.Valid() && courseId in db.courses.rows
    modifies db
    ensures db.Valid()
    ensures ok
    ensures db.roster == Withdraw(old(db.roster), courseId, studentId)
    ensures db.groups == old(db.groups) && db.students == old(db.students) && db.courses == old(db.courses)
  {
    db.WithdrawStudent(courseId, studentId);
    ok := true;
  }

  /** `studentEnrolledOnCourse`: list membership; only the course is dereferenced. */
  function StudentEnrolledOnCourse(db: School, studentId: string, courseId: string): (r: bool)
    reads db
    requires db.Valid() && courseId in db.courses.rows
    ensures r <==> studentId in db.roster[courseId]
  {
    Enrolled(db.roster, studentId, courseId)
  }

  /**
   * `deleteAll`: clears the lists of the courses that have students, drops
   * every group reference and every group, then every student and every
   * course. `fault` stands for the store rejecting one of the bulk
   * statements, which the handler turns into `false`.
   */
  method DeleteAll(db: School, fault: bool) returns (ok: bool)
    requires db.Valid()
    modifies db
    ensures db.Valid()
    ensures ok == !fault
    ensures fault ==> db.groups == old(db.groups) && db.students == old(db.students)
                      && db.courses == old(db.courses) && db.roster == old(db.roster)
    ensures !fault ==> db.groups.rows == map[] && db.students.rows == map[]
                       && db.courses.rows == map[] && db.roster == map[]
  {
    if fault {
      return false;
    }
    ClearCourseLists(db);
    db.ClearGroups();
    db.ClearStudents();
    db.ClearCourses();
    ok := true;
  }

  /**
   * The first step of `deleteAll`: every course that has students, in
   * listing order, has its list cleared.
   */
  method ClearCourseLists(db: School)
    requires db.Valid()
    modifies db
    ensures db.Valid()
    ensures db.roster == EmptyRosters(old(db.roster))
    ensures db.groups == old(db.groups) && db.students == old(db.students) && db.courses == old(db.courses)
  {
    var ids := db.courses.order;
    var i := 0;
    while i < |ids|
      invariant 0 <= i <= |ids|
      invariant db.Valid() && db.courses == old(db.courses) && db.courses.order == ids
      invariant db.groups == old(db.groups) && db.students == old(db.students)
      invariant db.roster.Keys == old(db.roster).Keys
      invariant forall j :: 0 <= j < i ==> db.roster[ids[j]] == []
    {
      if db.roster[ids[i]] != [] {
        db.ClearRoster(ids[i]);
      }
      i := i + 1;
    }
    assert forall c :: c in db.roster ==> c in ids;
  }
}
