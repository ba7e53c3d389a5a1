/** The enrolment service over the student and course repositories. */
module SchoolService {
  import opened Wrappers
  import opened Seqs
  import opened Tables
  import opened Store

  /**
   * `studentEnrolledOnCourse`: the student is looked up first, then the
   * course; either missing is `NotFound`; otherwise list membership.
   */
  function StudentEnrolledOnCourse(db: School, studentId: string, courseId: string): (r: Result<bool>)
    reads db
    requires db.Valid()
    ensures studentId !in db.students.rows ==> r == Err(NotFound)
    ensures studentId in db.students.rows && courseId !in db.courses.rows ==> r == Err(NotFound)
    ensures studentId in db.students.rows && courseId in db.courses.rows ==>
              r == Ok(studentId in db.roster[courseId])
  {
    if Get(db.students, studentId).None? then Err(NotFound)
    else if Get(db.courses, courseId).None? then Err(NotFound)
    else Ok(Enrolled(db.roster, studentId, courseId))
  }

  /**
   * `addStudentToCourse`: checks the student, then the course, then that
   * the pair is not enrolled yet; appends the student to the course's list
   * (the matching add on the student's inverse list is not stored) and
   * checks the enrolment afterwards.
   */
  method AddStudentToCourse(db: School, studentId: string, courseId: string) returns (r: Result<bool>)
    requires db.Valid()
    modifies db
    ensures db.Valid()
    ensures studentId !in old(db.students.rows) ==> r == Err(NotFound)
    ensures studentId in old(db.students.rows) && courseId !in old(db.courses.rows) ==> r == Err(NotFound)
    ensures studentId in old(db.students.rows) && courseId in old(db.courses.rows) ==>
              r == if Enrolled(old(db.roster), studentId, courseId) then Err(InvalidArgument) else Ok(true)
    ensures r.Ok? ==> db.roster == Enrol(old(db.roster), courseId, studentId)
    ensures r.Ok? ==> CoursesOf(db.roster, studentId) == CoursesOf(old(db.roster), studentId) + {courseId}
    ensures r.Err? ==> db.roster == old(db.roster)
    ensures db.groups == old(db.groups) && db.students == old(db.students) && db.courses == old(db.courses)
  {
    if Get(db.students, studentId).None? {
      return Err(NotFound);
    }
    if Get(db.courses, courseId).None? {
      return Err(NotFound);
    }
    if StudentEnrolledOnCourse(db, studentId, courseId) == Ok(true) {
      return Err(InvalidArgument);
    }
    ghost var before := db.roster;
    db.EnrolStudent(courseId, studentId);
    CoursesOfEnrol(before, courseId, studentId);
    if StudentEnrolledOnCourse(db, studentId, courseId) != Ok(true) {
      return Err(IllegalState);
    }
    r := Ok(true);
  }

  /**
   * `removeStudentFromCourse`: the same two lookups, then `InvalidArgument`
   * unless the pair is enrolled; one entry leaves the course's list. The
   * check afterwards fails when the list held the student twice: the
   * transaction is then rolled back and the call fails `IllegalState`.
   */
  method RemoveStudentFromCourse(db: School, studentId: string, courseId: string) returns (r: Result<bool>)
    requires db.Valid()
    modifies db
    ensures db.Valid()
    ensures studentId !in old(db.students.rows) ==> r == Err(NotFound)
    ensures studentId in old(db.students.rows) && courseId !in old(db.courses.rows) ==> r == Err(NotFound)
    ensures studentId in old(db.students.rows) && courseId in old(db.courses.rows) ==>
              r == if !Enrolled(old(db.roster), studentId, courseId) then Err(InvalidArgument)
                   else if Count(old(db.roster)[courseId], studentId) >= 2 then Err(IllegalState)
                   else Ok(true)
    ensures r.Ok? ==> db.roster == Withdraw(old(db.roster), courseId, studentId)
    ensures r.Ok? ==> !Enrolled(db.roster, studentId, courseId)
    ensures r.Ok? ==> CoursesOf(db.roster, studentId) == CoursesOf(old(db.roster), studentId) - {courseId}
    ensures r.Err? ==> db.roster == old(db.roster)
    ensures db.groups == old(db.groups) && db.students == old(db.students) && db.courses == old(db.courses)
  {
    if Get(db.students, studentId).None? {
      return Err(NotFound);
    }
    if Get(db.courses, courseId).None? {
      return Err(NotFound);
    }
    if StudentEnrolledOnCourse(db, studentId, courseId) != Ok(true) {
      return Err(InvalidArgument);
    }
    var saved := db.roster;
    db.WithdrawStudent(courseId, studentId);
    StillPresentAfterRemove(saved[courseId], studentId);
    if StudentEnrolledOnCourse(db, studentId, courseId) == Ok(true) {
      db.RestoreRoster(saved);
      return Err(IllegalState);
    }
    CoursesOfWithdraw(saved, courseId, studentId);
    r := Ok(true);
  }

  /**
   * `deleteAll`: every student goes (taking its join rows), then every
   * course; groups stay. The later test that both tables are empty
   * always passes.
   */
  method DeleteAll(db: School)
    requires db.Valid()
    modifies db
    ensures db.Valid()
    ensures db.students.rows == map[] && db.courses.rows == map[] && db.roster == map[]
    ensures db.groups == old(db.groups)
  {
    db.ClearStudents();
    db.ClearCourses();
    assert Values(db.students) == [] && Values(db.courses) == [];
  }
}
