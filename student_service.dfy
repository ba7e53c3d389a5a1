/** The student service over the student, course and group repositories. */
module StudentService {
  import opened Wrappers
  import opened Seqs
  import opened Tables
  import opened Students
  import opened Groups
  import opened Courses
  import opened Store
  import StudentDaoImpl

  /** `getAllIds`: `findAll` mapped to ids, which is the table's key order. */
  function GetAllIds(db: School): (r: seq<string>)
    reads db
    requires db.Valid()
    ensures |r| == |Values(db.students)| && forall i :: 0 <= i < |r| ==> r[i] == Values(db.students)[i].id
    ensures forall id :: id in r <==> id in db.students.rows
    ensures Distinct(r)
  {
    var sts := Values(db.students);
    var ids := seq(|sts|, i requires 0 <= i < |sts| => sts[i].id);
    assert ids == db.students.order;
    ids
  }

  /**
   * `saveStudentWithOwnId`: `IllegalState` when the id is already taken,
   * with nothing saved; otherwise `save`.
   */
  method SaveStudentWithOwnId(db: School, st: Student) returns (r: Result<bool>)
    requires db.Valid()
    modifies db
    ensures db.Valid()
    ensures r == if st.id in old(db.students.rows) then Err(IllegalState)
                 else if !GroupRefOk(old(db.groups), st) then Err(StoreError)
                 else Ok(true)
    ensures r.Ok? ==> db.students == Put(old(db.students), st.id, st)
    ensures r.Err? ==> db.students == old(db.students)
    ensures db.groups == old(db.groups) && db.courses == old(db.courses) && db.roster == old(db.roster)
  {
    if st.id in GetAllIds(db) {
      return Err(IllegalState);
    }
    r := Save(db, st);
  }

  /**
   * `save`: the repository's save, an insert-or-overwrite that accepts a
   * taken id; afterwards the id exists and holds the saved student. A
   * reference to a group that is not stored violates the foreign key: the
   * store raises an exception that nothing catches, and the transaction
   * rolls back.
   */
  method Save(db: School, st: Student) returns (r: Result<bool>)
    requires db.Valid()
    modifies db
    ensures db.Valid()
    ensures r == if GroupRefOk(old(db.groups), st) then Ok(true) else Err(StoreError)
    ensures r.Ok? ==> db.students == Put(old(db.students), st.id, st) && GetById(db, st.id) == Ok(st)
    ensures r.Err? ==> db.students == old(db.students)
    ensures db.groups == old(db.groups) && db.courses == old(db.courses) && db.roster == old(db.roster)
  {
    if !GroupRefOk(db.groups, st) {
      return Err(StoreError);
    }
    db.PutStudent(st);
    if !ExistsById(db, st.id) {
      return Err(IllegalState);
    }
    r := Ok(true);
  }

  /**
   * `deleteAll`: `NotFound` when there are no students. Otherwise every
   * group is saved back (clearing its member list, the inverse side, stores
   * nothing), every student is saved without its group, every course is
   * saved without students, and then all students are deleted.
   */
  method DeleteAll(db: School) returns (r: Result<bool>)
    requires db.Valid()
    modifies db
    ensures db.Valid()
    ensures r == if old(db.students.rows) == map[] then Err(NotFound) else Ok(true)
    ensures r.Ok? ==> db.students.rows == map[] && db.roster == EmptyRosters(old(db.roster))
    ensures r.Err? ==> db.students == old(db.students) && db.roster == old(db.roster)
    ensures db.groups == old(db.groups) && db.courses == old(db.courses)
  {
    var students := Values(db.students);
    var groups := Values(db.groups);
    var courses := Values(db.courses);
    EmptyIff(db.students);
    if students == [] {
      return Err(NotFound);
    }
    SaveGroupsBack(db, groups);
    UngroupEach(db, students);
    ClearEachRoster(db, courses);
    db.ClearStudents();
    if Values(db.students) != [] {
      return Err(IllegalState);
    }
    r := Ok(true);
  }

  /** The first loop of `deleteAll`: each group saved back unchanged. */
  method SaveGroupsBack(db: School, groups: seq<Group>)
    requires db.Valid() && groups == Values(db.groups)
    modifies db
    ensures db.Valid()
    ensures db.groups == old(db.groups) && db.students == old(db.students)
    ensures db.courses == old(db.courses) && db.roster == old(db.roster)
  {
    var i := 0;
    while i < |groups|
      invariant 0 <= i <= |groups|
      invariant db.Valid() && groups == Values(db.groups)
      invariant db.groups == old(db.groups) && db.students == old(db.students)
      invariant db.courses == old(db.courses) && db.roster == old(db.roster)
    {
      PutSame(db.groups, groups[i].id);
      db.PutGroup(groups[i]);
      i := i + 1;
    }
  }

  /** The students table with the rows whose keys are in `done` ungrouped. */
  ghost function UngroupSome(t: Table<Student>, done: set<string>): Table<Student> {
    Table(map k | k in t.rows :: if k in done then t.rows[k].(groupId := None) else t.rows[k], t.order)
  }

  lemma UngroupStep(t: Table<Student>, done: set<string>, k: string, pre: Table<Student>, post: Table<Student>)
    requires WellFormed(t) && k in t.rows && pre == UngroupSome(t, done)
    requires WellFormed(pre) && post == Put(pre, k, t.rows[k].(groupId := None))
    ensures post == UngroupSome(t, done + {k})
  {
    assert pre.rows.Keys == t.rows.Keys;
    assert pre.rows[k := t.rows[k].(groupId := None)] == UngroupSome(t, done + {k}).rows;
  }

  lemma UngroupDone(t: Table<Student>, done: set<string>)
    requires WellFormed(t) && t.rows.Keys <= done
    ensures UngroupSome(t, done) == UngroupAll(t)
  {
    assert UngroupSome(t, done).rows == UngroupAll(t).rows;
  }

  /** The second loop of `deleteAll`: each student saved without a group. */
  method UngroupEach(db: School, students: seq<Student>)
    requires db.Valid() && students == Values(db.students)
    modifies db
    ensures db.Valid()
    ensures db.students == UngroupAll(old(db.students))
    ensures db.groups == old(db.groups) && db.courses == old(db.courses) && db.roster == old(db.roster)
  {
    ghost var before := db.students;
    ghost var done: set<string> := {};
    assert UngroupSome(before, {}).rows == before.rows;
    assert Elements(before.order[..0]) == {};
    var i := 0;
    while i < |students|
      invariant 0 <= i <= |students|
      invariant db.Valid() && db.students == UngroupSome(before, done)
      invariant WellFormed(before) && students == Values(before)
      invariant forall k :: k in before.rows ==> before.rows[k].id == k
      invariant db.groups == old(db.groups) && db.courses == old(db.courses) && db.roster == old(db.roster)
      invariant done == Elements(before.order[..i])
    {
      var st := students[i];
      assert before.order[i] in before.rows && st == before.rows[before.order[i]];
      assert st.id == before.order[i] by {
        assert before.rows[before.order[i]].id == before.order[i];
      }
      ghost var pre := db.students;
      db.PutStudent(st.(groupId := None));
      UngroupStep(before, done, st.id, pre, db.students);
      ElementsSnoc(before.order, i);
      done := done + {st.id};
      i := i + 1;
    }
    assert before.rows.Keys <= done by {
      assert before.order[..i] == before.order;
    }
    UngroupDone(before, done);
  }

  /** The third loop of `deleteAll`: each course merged back with a null `students` list. */
  method ClearEachRoster(db: School, courses: seq<Course>)
    requires db.Valid() && courses == Values(db.courses)
    modifies db
    ensures db.Valid()
    ensures db.roster == EmptyRosters(old(db.roster))
    ensures db.groups == old(db.groups) && db.students == old(db.students) && db.courses == old(db.courses)
  {
    var i := 0;
    while i < |courses|
      invariant 0 <= i <= |courses|
      invariant db.Valid() && db.courses == old(db.courses) && db.roster.Keys == old(db.roster).Keys
      invariant db.groups == old(db.groups) && db.students == old(db.students)
      invariant forall j :: 0 <= j < i ==> db.roster[db.courses.order[j]] == []
    {
      var c := courses[i];
      assert c.id == db.courses.order[i] by {
        assert db.courses.rows[db.courses.order[i]].id == db.courses.order[i];
      }
      PutSame(db.courses, c.id);
      db.MergeCourse(c);
      i := i + 1;
    }
    assert forall c :: c in db.roster ==> c in db.courses.order;
  }

  /**
   * `update`: `NotFound` for an unknown id; otherwise the row is
   * overwritten, unless its group reference is dangling, as for `save`.
   */
  method Update(db: School, st: Student) returns (r: Result<bool>)
    requires db.Valid()
    modifies db
    ensures db.Valid()
    ensures r == if st.id !in old(db.students.rows) then Err(NotFound)
                 else if !GroupRefOk(old(db.groups), st) then Err(StoreError)
                 else Ok(true)
    ensures r.Ok? ==> db.students == Put(old(db.students), st.id, st) && GetById(db, st.id) == Ok(st)
    ensures r.Err? ==> db.students == old(db.students)
    ensures db.groups == old(db.groups) && db.courses == old(db.courses) && db.roster == old(db.roster)
  {
    if !ExistsById(db, st.id) {
      return Err(NotFound);
    }
    if !GroupRefOk(db.groups, st) {
      return Err(StoreError);
    }
    db.PutStudent(st);
    if !ExistsById(db, st.id) {
      return Err(IllegalState);
    }
    r := Ok(true);
  }

  /**
   * `deleteById`: false for an unknown id. Otherwise the student leaves
   * every course it is on (one removal per entry of the student's course
   * list), then the row is deleted; the result is whether the id is gone.
   */
  method DeleteById(db: School, id: string) returns (ok: bool)
    requires db.Valid()
    modifies db
    ensures db.Valid()
    ensures ok <==> id in old(db.students.rows)
    ensures ok ==> id !in db.students.rows && db.students == Delete(old(db.students), id)
    ensures ok ==> db.roster == DropStudent(old(db.roster), id) && CoursesOf(db.roster, id) == {}
    ensures !ok ==> db.students == old(db.students) && db.roster == old(db.roster)
    ensures db.groups == old(db.groups) && db.courses == old(db.courses)
  {
    if GetById(db, id).Err? {
      return false;
    }
    var courseIds := db.courses.order;
    var i := 0;
    while i < |courseIds|
      invariant 0 <= i <= |courseIds|
      invariant db.Valid() && db.courses == old(db.courses) && courseIds == db.courses.order
      invariant db.groups == old(db.groups) && db.students == old(db.students)
      invariant DropStudent(db.roster, id) == DropStudent(old(db.roster), id)
    {
      var c := courseIds[i];
      while Enrolled(db.roster, id, c)
        invariant db.Valid() && db.courses == old(db.courses)
        invariant db.groups == old(db.groups) && db.students == old(db.students)
        invariant DropStudent(db.roster, id) == DropStudent(old(db.roster), id)
        decreases |db.roster[c]|
      {
        DropAfterWithdraw(db.roster, c, id);
        db.WithdrawStudent(c, id);
      }
      i := i + 1;
    }
    db.RemoveStudent(id);
    ok := !ExistsById(db, id);
  }

  /** `existsById` agrees with `getById`. */
  function ExistsById(db: School, id: string): (r: bool)
    reads db
    requires db.Valid()
    ensures r <==> GetById(db, id).Ok?
  {
    id in db.students.rows
  }

  /** `getAllStudents`: every student, or `NotFound` when there are none. */
  function GetAllStudents(db: School): (r: Result<seq<Student>>)
    reads db
    requires db.Valid()
    ensures r.Err? <==> db.students.rows == map[]
    ensures r.Err? ==> r.error == NotFound
    ensures r.Ok? ==> |r.value| == |db.students.rows| && forall st :: st in r.value <==> st in db.students.rows.Values
  {
    EmptyIff(db.students);
    SizeIsLength(db.students);
    forall st ensures st in Values(db.students) <==> st in db.students.rows.Values {
      ValuesAreRows(db.students, st);
    }
    if Values(db.students) == [] then Err(NotFound) else Ok(Values(db.students))
  }

  /** `getById`: the stored student, or `NotFound`. */
  function GetById(db: School, id: string): (r: Result<Student>)
    reads db
    requires db.Valid()
    ensures r.Ok? <==> id in db.students.rows
    ensures r.Ok? ==> r.value == db.students.rows[id] && r.value.id == id
    ensures r.Err? ==> r.error == NotFound
  {
    match Get(db.students, id)
    case None => Err(NotFound)
    case Some(st) => Ok(st)
  }

  /** Some course the student is on is called `name`. */
  predicate HasCourseNamed(courses: Table<Course>, roster: Roster, studentId: string, name: string)
    requires roster.Keys == courses.rows.Keys
  {
    exists c :: c in roster && studentId in roster[c] && courses.rows[c].name == name
  }

  /** The students of `sts`, in order, that have a course called `name`. */
  function HavingCourseNamed(sts: seq<Student>, courses: Table<Course>, roster: Roster, name: string): (r: seq<Student>)
    requires roster.Keys == courses.rows.Keys
    ensures forall st :: st in r <==> st in sts && HasCourseNamed(courses, roster, st.id, name)
    ensures |r| <= |sts|
    decreases |sts|
  {
    if sts == [] then []
    else
      var rest := HavingCourseNamed(sts[1..], courses, roster, name);
      assert forall st :: st in sts <==> st == sts[0] || st in sts[1..] by {
        assert sts == [sts[0]] + sts[1..];
      }
      if HasCourseNamed(courses, roster, sts[0].id, name) then [sts[0]] + rest else rest
  }

  /** Filtering keeps a list free of repeats. */
  lemma {:induction false} HavingCourseNamedDistinct(sts: seq<Student>, courses: Table<Course>, roster: Roster, name: string)
    requires roster.Keys == courses.rows.Keys && Distinct(sts)
    ensures Distinct(HavingCourseNamed(sts, courses, roster, name))
    decreases |sts|
  {
    if sts != [] {
      HavingCourseNamedDistinct(sts[1..], courses, roster, name);
    }
  }

  /** A student table keyed by id lists each student once. */
  lemma StudentsListedOnce(students: Table<Student>)
    requires WellFormed(students) && forall k :: k in students.rows ==> students.rows[k].id == k
    ensures Distinct(Values(students))
  {
    var vs := Values(students);
    forall i, j | 0 <= i < j < |vs| ensures vs[i] != vs[j] {
      assert vs[i].id == students.order[i] && vs[j].id == students.order[j];
    }
  }

  /**
   * `findAllStudentsByCourseName`: the students, in table order and each
   * once, whose course list has a course with exactly that name; `NotFound`
   * when there are none.
   */
  function FindAllStudentsByCourseName(db: School, courseName: string): (r: Result<seq<Student>>)
    reads db
    requires db.Valid()
    ensures r.Ok? ==> forall st :: st in r.value <==>
              st in db.students.rows.Values && HasCourseNamed(db.courses, db.roster, st.id, courseName)
    ensures r.Err? <==> forall st :: st in db.students.rows.Values ==> !HasCourseNamed(db.courses, db.roster, st.id, courseName)
    ensures r.Err? ==> r.error == NotFound
    ensures r.Ok? ==> Distinct(r.value)
  {
    forall st ensures st in Values(db.students) <==> st in db.students.rows.Values {
      ValuesAreRows(db.students, st);
    }
    StudentsListedOnce(db.students);
    HavingCourseNamedDistinct(Values(db.students), db.courses, db.roster, courseName);
    var found := HavingCourseNamed(Values(db.students), db.courses, db.roster, courseName);
    if found == [] then Err(NotFound)
    else
      assert found[0] in found;
      Ok(found)
  }

  /**
   * The service's filter and the gateway's join find the same students; the
   * join may list a student once per matching enrolment, the filter lists
   * each once.
   */
  lemma FilterMatchesJoin(db: School, courseName: string)
    requires db.Valid()
    ensures FindAllStudentsByCourseName(db, courseName).Err? <==>
              StudentDaoImpl.FindAllStudentsByCourseName(db, courseName) == []
    ensures FindAllStudentsByCourseName(db, courseName).Ok? ==>
              forall st :: st in FindAllStudentsByCourseName(db, courseName).value <==>
                           st in StudentDaoImpl.FindAllStudentsByCourseName(db, courseName)
  {
    var join := StudentDaoImpl.FindAllStudentsByCourseName(db, courseName);
    forall st | st in db.students.rows.Values
      ensures HasCourseNamed(db.courses, db.roster, st.id, courseName) <==> st in join
    {
      if HasCourseNamed(db.courses, db.roster, st.id, courseName) {
        var c :| c in db.roster && st.id in db.roster[c] && db.courses.rows[c].name == courseName;
        assert Enrolled(db.roster, st.id, c);
      }
    }
    if join != [] {
      assert join[0] in join;
    }
  }
}
