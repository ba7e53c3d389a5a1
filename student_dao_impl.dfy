/** The student gateway over the entity manager. */
module StudentDaoImpl {
  import opened Wrappers
  import opened Seqs
  import opened Tables
  import opened Courses
  import opened Students
  import opened Store

  /** `deleteById`: false for an unknown id; otherwise the row goes and the call reports it gone. */
  method DeleteById(db: School, id: string) returns (ok: bool)
    requires db.Valid()
    modifies db
    ensures db.Valid()
    ensures ok <==> id in old(db.students.rows)
    ensures ok ==> id !in db.students.rows
    ensures ok ==> db.students == Delete(old(db.students), id) && db.roster == DropStudent(old(db.roster), id)
    ensures !ok ==> db.students == old(db.students) && db.roster == old(db.roster)
    ensures db.groups == old(db.groups) && db.courses == old(db.courses)
  {
    if id !in db.students.rows {
      return false;
    }
    db.RemoveStudent(id);
    ok := id !in db.students.rows;
  }

  /**
   * `update`: false for an unknown id; otherwise a merge that replaces every
   * field. `fault` stands for a store error; a group reference the store does
   * not hold is rejected by the store as well.
   */
  method Update(db: School, st: Student, fault: bool) returns (ok: bool)
    requires db.Valid()
    modifies db
    ensures db.Valid()
    ensures ok <==> st.id in old(db.students.rows) && !fault && GroupRefOk(old(db.groups), st)
    ensures ok ==> db.students == Put(old(db.students), st.id, st) && db.students.rows[st.id] == st
    ensures !ok ==> db.students == old(db.students)
    ensures db.groups == old(db.groups) && db.courses == old(db.courses) && db.roster == old(db.roster)
  {
    if st.id !in db.students.rows {
      return false;
    }
    if fault || !GroupRefOk(db.groups, st) {
      return false;
    }
    db.PutStudent(st);
    ok := true;
  }

  /** `deleteAll`: every student goes (with its join rows) unless the store rejects the statement. */
  method DeleteAll(db: School, fault: bool) returns (ok: bool)
    requires db.Valid()
    modifies db
    ensures db.Valid()
    ensures ok == !fault
    ensures ok ==> db.students.rows == map[] && db.roster == EmptyRosters(old(db.roster))
    ensures !ok ==> db.students == old(db.students) && db.roster == old(db.roster)
    ensures db.groups == old(db.groups) && db.courses == old(db.courses)
  {
    if fault {
      return false;
    }
    db.ClearStudents();
    ok := true;
  }

  /** `getAll`: every student, in table order. */
  function GetAll(db: School): (r: seq<Student>)
    reads db
    requires db.Valid()
    ensures |r| == |db.students.rows|
    ensures forall st :: st in r <==> st in db.students.rows.Values
  {
    SizeIsLength(db.students);
    forall st ensures st in Values(db.students) <==> st in db.students.rows.Values {
      ValuesAreRows(db.students, st);
    }
    Values(db.students)
  }

  /** `getById`: the stored student with that id, or empty. */
  function GetById(db: School, id: string): (r: Option<Student>)
    reads db
    requires db.Valid()
    ensures r.Some? <==> id in db.students.rows
    ensures r.Some? ==> r.value == db.students.rows[id] && r.value.id == id
  {
    Get(db.students, id)
  }

  /** `existsById` agrees with `getById`. */
  function ExistsById(db: School, id: string): (r: bool)
    reads db
    requires db.Valid()
    ensures r <==> GetById(db, id).Some?
  {
    id in db.students.rows
  }

  /** `save`: a persist, which the model takes as insert-or-overwrite; `fault` stands for a store error. */
  method Save(db: School, st: Student, fault: bool) returns (ok: bool)
    requires db.Valid()
    modifies db
    ensures db.Valid()
    ensures ok <==> !fault && GroupRefOk(old(db.groups), st)
    ensures ok ==> db.students == Put(old(db.students), st.id, st) && db.students.rows[st.id] == st
    ensures !ok ==> db.students == old(db.students)
    ensures db.groups == old(db.groups) && db.courses == old(db.courses) && db.roster == old(db.roster)
  {
    if fault || !GroupRefOk(db.groups, st) {
      return false;
    }
    db.PutStudent(st);
    ok := true;
  }

  /** `getAllIds`: the ids of `getAll`, position by position. */
  function GetAllIds(db: School): (r: seq<string>)
    reads db
    requires db.Valid()
    ensures |r| == |GetAll(db)|
    ensures forall i :: 0 <= i < |r| ==> r[i] == GetAll(db)[i].id
    ensures Distinct(r)
  {
    db.students.order
  }

  /** Join rows pairing `studentId` with a course in `courseIds` that is called `name`. */
  function JoinRowCount(courseIds: seq<string>, courses: Table<Course>, roster: Roster,
                        studentId: string, name: string): (n: nat)
    requires forall c :: c in courseIds ==> c in courses.rows && c in roster
    ensures n > 0 <==> exists c :: c in courseIds && courses.rows[c].name == name && studentId in roster[c]
    decreases |courseIds|
  {
    if courseIds == [] then 0
    else
      var c := courseIds[0];
      (if courses.rows[c].name == name then Count(roster[c], studentId) else 0)
      + JoinRowCount(courseIds[1..], courses, roster, studentId, name)
  }

  function Repeat(st: Student, n: nat): (r: seq<Student>)
    ensures |r| == n && forall i :: 0 <= i < n ==> r[i] == st
  {
    seq(n, _ => st)
  }

  /**
   * The result rows of `s INNER JOIN s.courses c WHERE c.name = name`:
   * for the students in `ids`, each one once per matching join row.
   */
  function JoinByCourseName(ids: seq<string>, students: Table<Student>, courseIds: seq<string>,
                            courses: Table<Course>, roster: Roster, name: string): (r: seq<Student>)
    requires forall s :: s in ids ==> s in students.rows
    requires forall c :: c in courseIds ==> c in courses.rows && c in roster
    ensures forall st :: st in r <==>
              exists s :: s in ids && students.rows[s] == st
                          && JoinRowCount(courseIds, courses, roster, s, name) > 0
    decreases |ids|
  {
    if ids == [] then []
    else
      var s := ids[0];
      var rest := JoinByCourseName(ids[1..], students, courseIds, courses, roster, name);
      var here := Repeat(students.rows[s], JoinRowCount(courseIds, courses, roster, s, name));
      assert forall t :: t in ids <==> t == s || t in ids[1..] by {
        assert ids == [s] + ids[1..];
      }
      assert forall st :: st in here <==>
               students.rows[s] == st && JoinRowCount(courseIds, courses, roster, s, name) > 0 by {
        forall st | st in here ensures students.rows[s] == st {
          var i :| 0 <= i < |here| && here[i] == st;
        }
        if JoinRowCount(courseIds, courses, roster, s, name) > 0 {
          assert here[0] == students.rows[s];
        }
      }
      assert forall st :: st in here + rest <==> st in here || st in rest;
      here + rest
  }

  /**
   * `findAllStudentsByCourseName`: the students enrolled in a course called
   * `courseName`, one result row per matching enrolment.
   */
  function FindAllStudentsByCourseName(db: School, courseName: string): (r: seq<Student>)
    reads db
    requires db.Valid()
    ensures forall st :: st in r <==>
              st in db.students.rows.Values
              && exists c :: c in db.courses.rows && db.courses.rows[c].name == courseName
                             && Enrolled(db.roster, st.id, c)
  {
    JoinByCourseName(db.students.order, db.students, db.courses.order, db.courses, db.roster, courseName)
  }
}
