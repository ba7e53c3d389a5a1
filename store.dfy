/**
 * The relational store behind the entity manager and the repositories:
 * three entity tables and the `student_courses` join table.
 */
module Store {
  import opened Wrappers
  import opened Seqs
  import opened Tables
  import opened Groups
  import opened Courses
  import opened Students

  /**
   * The join table, kept as each course's `students` list (the owning side):
   * course id to the ids of its students, in list order. A `List` may hold
   * a student twice; nothing in the store forbids it.
   */
  type Roster = map<string, seq<string>>

  /** A student's group reference is empty or names a stored group. */
  predicate GroupRefOk(groups: Table<Group>, st: Student) {
    st.groupId.None? || st.groupId.value in groups.rows
  }

  /** Referential integrity of the whole store, and each row stored under its own id. */
  ghost predicate Consistent(groups: Table<Group>, students: Table<Student>, courses: Table<Course>, roster: Roster) {
    && WellFormed(groups) && WellFormed(students) && WellFormed(courses)
    && (forall k :: k in groups.rows ==> groups.rows[k].id == k)
    && (forall k :: k in students.rows ==> students.rows[k].id == k)
    && (forall k :: k in courses.rows ==> courses.rows[k].id == k)
    && (forall k :: k in students.rows ==> GroupRefOk(groups, students.rows[k]))
    && roster.Keys == courses.rows.Keys
    && (forall c, s :: c in roster && s in roster[c] ==> s in students.rows)
  }

  /** `course.getStudents().contains(student)`. */
  predicate Enrolled(roster: Roster, studentId: string, courseId: string) {
    courseId in roster && studentId in roster[courseId]
  }

  /** `course.getStudents().add(student)`: appended, without looking for an earlier entry. */
  function Enrol(roster: Roster, courseId: string, studentId: string): (r: Roster)
    requires courseId in roster
    ensures r.Keys == roster.Keys
    ensures r[courseId] == roster[courseId] + [studentId]
    ensures Enrolled(r, studentId, courseId)
    ensures forall c :: c in roster && c != courseId ==> r[c] == roster[c]
  {
    roster[courseId := roster[courseId] + [studentId]]
  }

  /** `course.getStudents().remove(student)`: one entry of the student leaves that course's list. */
  function Withdraw(roster: Roster, courseId: string, studentId: string): (r: Roster)
    requires courseId in roster
    ensures r.Keys == roster.Keys
    ensures multiset(r[courseId]) == multiset(roster[courseId]) - multiset{studentId}
    ensures r[courseId] == RemoveFirst(roster[courseId], studentId)
    ensures forall c :: c in roster && c != courseId ==> r[c] == roster[c]
  {
    roster[courseId := RemoveFirst(roster[courseId], studentId)]
  }

  /** Enrolling a student who was not on the course and withdrawing again restores the roster. */
  lemma WithdrawUndoesEnrol(roster: Roster, courseId: string, studentId: string)
    requires courseId in roster && !Enrolled(roster, studentId, courseId)
    ensures Withdraw(Enrol(roster, courseId, studentId), courseId, studentId) == roster
  {
    RemoveFirstUndoesAppend(roster[courseId], studentId);
  }

  /** The join rows of a deleted student go with it (the schema is taken to cascade the delete). */
  function DropStudent(roster: Roster, studentId: string): (r: Roster)
    ensures r.Keys == roster.Keys
    ensures forall c :: c in r ==> r[c] == Without(roster[c], studentId)
    ensures forall c, s :: Enrolled(r, s, c) <==> Enrolled(roster, s, c) && s != studentId
  {
    map c | c in roster :: Without(roster[c], studentId)
  }

  /** Withdrawing a student from a course before deleting it leaves the same join table. */
  lemma DropAfterWithdraw(roster: Roster, courseId: string, studentId: string)
    requires courseId in roster
    ensures DropStudent(Withdraw(roster, courseId, studentId), studentId) == DropStudent(roster, studentId)
  {
    WithoutAfterRemoveFirst(roster[courseId], studentId);
  }

  /** The inverse side, `student.getCourses()`: the courses whose list holds the student. */
  function CoursesOf(roster: Roster, studentId: string): (cs: set<string>)
    ensures forall c :: c in cs <==> Enrolled(roster, studentId, c)
  {
    set c | c in roster && studentId in roster[c]
  }

  /** Enrolling a student adds exactly that course to the student's courses. */
  lemma CoursesOfEnrol(roster: Roster, courseId: string, studentId: string)
    requires courseId in roster
    ensures CoursesOf(Enrol(roster, courseId, studentId), studentId) == CoursesOf(roster, studentId) + {courseId}
  {
  }

  /** Enrolling one student leaves every other student's courses as they were. */
  lemma CoursesOfEnrolOther(roster: Roster, courseId: string, studentId: string, other: string)
    requires courseId in roster && other != studentId
    ensures CoursesOf(Enrol(roster, courseId, studentId), other) == CoursesOf(roster, other)
  {
    var r := Enrol(roster, courseId, studentId);
    forall c ensures c in CoursesOf(r, other) <==> c in CoursesOf(roster, other) {
      if c == courseId {
        assert other in r[c] <==> other in roster[c] by {
          assert r[c] == roster[c] + [studentId];
        }
      }
    }
  }

  /** Withdrawing the only entry of a student removes exactly that course from the student's courses. */
  lemma CoursesOfWithdraw(roster: Roster, courseId: string, studentId: string)
    requires courseId in roster && Count(roster[courseId], studentId) == 1
    ensures CoursesOf(Withdraw(roster, courseId, studentId), studentId) == CoursesOf(roster, studentId) - {courseId}
  {
    CountIsMultiplicity(roster[courseId], studentId);
    var r := Withdraw(roster, courseId, studentId);
    assert multiset(r[courseId])[studentId] == 0;
    assert studentId !in r[courseId];
  }

  /** A deleted student is on no course. */
  lemma CoursesOfDrop(roster: Roster, studentId: string)
    ensures CoursesOf(DropStudent(roster, studentId), studentId) == {}
  {
  }

  /** Every course keeps its row and loses all its students. */
  function EmptyRosters(roster: Roster): (r: Roster)
    ensures r.Keys == roster.Keys
    ensures forall c, s :: !Enrolled(r, s, c)
  {
    map c | c in roster :: []
  }

  /** The ids of the students whose group reference is `groupId`: the group's `students` list. */
  function Members(students: Table<Student>, groupId: string): (ids: set<string>)
    ensures forall k :: k in ids <==> k in students.rows && students.rows[k].groupId == Some(groupId)
  {
    set k | k in students.rows && students.rows[k].groupId == Some(groupId)
  }

  /** A student belongs to at most one group: the member sets of two groups are disjoint. */
  lemma MembersDisjoint(students: Table<Student>, g1: string, g2: string)
    requires g1 != g2
    ensures Members(students, g1) * Members(students, g2) == {}
  {
    forall k | k in Members(students, g1) ensures k !in Members(students, g2) {
    }
  }

  /** Every stored student with a group is a member of exactly that group. */
  lemma MembersCover(students: Table<Student>, k: string)
    requires k in students.rows && students.rows[k].groupId.Some?
    ensures k in Members(students, students.rows[k].groupId.value)
    ensures forall g :: k in Members(students, g) <==> students.rows[k].groupId == Some(g)
  {
  }

  /** The member students lose their reference to a deleted group (the schema is taken to set the reference to null). */
  function Ungroup(students: Table<Student>, groupId: string): (r: Table<Student>)
    requires WellFormed(students)
    ensures WellFormed(r) && r.order == students.order && r.rows.Keys == students.rows.Keys
    ensures forall k :: k in r.rows ==>
              r.rows[k] == if students.rows[k].groupId == Some(groupId) then students.rows[k].(groupId := None)
                           else students.rows[k]
    ensures Members(r, groupId) == {}
  {
    Table(map k | k in students.rows ::
            if students.rows[k].groupId == Some(groupId) then students.rows[k].(groupId := None) else students.rows[k],
          students.order)
  }

  /** Every student loses its group reference. */
  function UngroupAll(students: Table<Student>): (r: Table<Student>)
    requires WellFormed(students)
    ensures WellFormed(r) && r.order == students.order && r.rows.Keys == students.rows.Keys
    ensures forall k :: k in r.rows ==> r.rows[k] == students.rows[k].(groupId := None)
  {
    Table(map k | k in students.rows :: students.rows[k].(groupId := None), students.order)
  }

  /** Deleting a group and ungrouping its members keeps the store consistent. */
  lemma RemoveGroupConsistent(groups: Table<Group>, students: Table<Student>, courses: Table<Course>,
                              roster: Roster, id: string)
    requires Consistent(groups, students, courses, roster)
    ensures Consistent(Delete(groups, id), Ungroup(students, id), courses, roster)
  {
    var gs, sts := Delete(groups, id), Ungroup(students, id);
    forall k | k in sts.rows ensures sts.rows[k].id == k && GroupRefOk(gs, sts.rows[k]) {
      assert sts.rows[k].id == students.rows[k].id;
    }
  }

  /** Taking one entry off a course's list keeps the store consistent. */
  lemma WithdrawConsistent(groups: Table<Group>, students: Table<Student>, courses: Table<Course>,
                           roster: Roster, courseId: string, studentId: string)
    requires Consistent(groups, students, courses, roster) && courseId in roster
    ensures Consistent(groups, students, courses, Withdraw(roster, courseId, studentId))
  {
    var r := Withdraw(roster, courseId, studentId);
    forall c, s | c in r && s in r[c] ensures s in students.rows {
      if c == courseId {
        assert multiset(r[c])[s] > 0;
        assert s in roster[c];
      }
    }
  }

  /**
   * The store. Each method is one store operation that the gateways and the
   * repositories issue; each keeps the store consistent and states its
   * whole effect on the four tables.
   */
  class School {
    var groups: Table<Group>
    var students: Table<Student>
    var courses: Table<Course>
    var roster: Roster

    ghost predicate Valid()
      reads this
    {
      Consistent(groups, students, courses, roster)
    }

    constructor ()
      ensures Valid()
      ensures groups.rows == map[] && students.rows == map[] && courses.rows == map[] && roster == map[]
    {
      groups, students, courses := Empty(), Empty(), Empty();
      roster := map[];
    }

    /** Insert or overwrite a group row. */
    method PutGroup(g: Group)
      requires Valid()
      modifies this
      ensures Valid()
      ensures groups == Put(old(groups), g.id, g)
      ensures students == old(students) && courses == old(courses) && roster == old(roster)
    {
      groups := Put(groups, g.id, g);
    }

    /** Insert or overwrite a student row; its group must exist (foreign key). */
    method PutStudent(st: Student)
      requires Valid() && GroupRefOk(groups, st)
      modifies this
      ensures Valid()
      ensures students == Put(old(students), st.id, st)
      ensures groups == old(groups) && courses == old(courses) && roster == old(roster)
    {
      students := Put(students, st.id, st);
    }

    /** Insert or overwrite a course row; a new course starts with no students. */
    method PutCourse(c: Course)
      requires Valid()
      modifies this
      ensures Valid()
      ensures courses == Put(old(courses), c.id, c)
      ensures roster == if c.id in old(roster) then old(roster) else old(roster)[c.id := []]
      ensures groups == old(groups) && students == old(students)
    {
      courses := Put(courses, c.id, c);
      if c.id !in roster {
        roster := roster[c.id := []];
      }
    }

    /**
     * Merge a course whose `students` list is null: the row is inserted or
     * overwritten, and since that list is the owning side of the join, the
     * course is left with no join rows.
     */
    method MergeCourse(c: Course)
      requires Valid()
      modifies this
      ensures Valid()
      ensures courses == Put(old(courses), c.id, c)
      ensures roster == old(roster)[c.id := []]
      ensures groups == old(groups) && students == old(students)
    {
      courses := Put(courses, c.id, c);
      roster := roster[c.id := []];
    }

    /** Delete a group row; its members are left without a group. */
    method RemoveGroup(id: string)
      requires Valid()
      modifies this
      ensures Valid()
      ensures groups == Delete(old(groups), id)
      ensures students == Ungroup(old(students), id)
      ensures courses == old(courses) && roster == old(roster)
    {
      RemoveGroupConsistent(groups, students, courses, roster, id);
      groups := Delete(groups, id);
      students := Ungroup(students, id);
    }

    /** Delete a student row together with its join rows. */
    method RemoveStudent(id: string)
      requires Valid()
      modifies this
      ensures Valid()
      ensures students == Delete(old(students), id)
      ensures roster == DropStudent(old(roster), id)
      ensures groups == old(groups) && courses == old(courses)
    {
      students := Delete(students, id);
      roster := DropStudent(roster, id);
    }

    /** Delete a course row together with its join rows. */
    method RemoveCourse(id: string)
      requires Valid()
      modifies this
      ensures Valid()
      ensures courses == Delete(old(courses), id)
      ensures roster == old(roster) - {id}
      ensures groups == old(groups) && students == old(students)
    {
      courses := Delete(courses, id);
      roster := roster - {id};
    }

    /** `DELETE FROM Group`: no group is left and no student keeps a group. */
    method ClearGroups()
      requires Valid()
      modifies this
      ensures Valid()
      ensures groups == Empty() && students == UngroupAll(old(students))
      ensures courses == old(courses) && roster == old(roster)
    {
      groups := Empty();
      students := UngroupAll(students);
    }

    /** `DELETE FROM Student`: no student is left and every course loses its students. */
    method ClearStudents()
      requires Valid()
      modifies this
      ensures Valid()
      ensures students == Empty() && roster == EmptyRosters(old(roster))
      ensures groups == old(groups) && courses == old(courses)
    {
      students := Empty();
      roster := EmptyRosters(roster);
    }

    /** `DELETE FROM Course`: no course and no join row is left. */
    method ClearCourses()
      requires Valid()
      modifies this
      ensures Valid()
      ensures courses == Empty() && roster == map[]
      ensures groups == old(groups) && students == old(students)
    {
      courses := Empty();
      roster := map[];
    }

    /** `course.getStudents().add(student)` on a stored course and student. */
    method EnrolStudent(courseId: string, studentId: string)
      requires Valid() && courseId in courses.rows && studentId in students.rows
      modifies this
      ensures Valid()
      ensures roster == Enrol(old(roster), courseId, studentId)
      ensures groups == old(groups) && students == old(students) && courses == old(courses)
    {
      roster := Enrol(roster, courseId, studentId);
    }

    /** `course.getStudents().remove(student)` on a stored course. */
    method WithdrawStudent(courseId: string, studentId: string)
      requires Valid() && courseId in courses.rows
      modifies this
      ensures Valid()
      ensures roster == Withdraw(old(roster), courseId, studentId)
      ensures groups == old(groups) && students == old(students) && courses == old(courses)
    {
      WithdrawConsistent(groups, students, courses, roster, courseId, studentId);
      roster := Withdraw(roster, courseId, studentId);
    }

    /** `course.setStudents(null)` followed by a save: the course keeps its row and loses its students. */
    method ClearRoster(courseId: string)
      requires Valid() && courseId in courses.rows
      modifies this
      ensures Valid()
      ensures roster == old(roster)[courseId := []]
      ensures groups == old(groups) && students == old(students) && courses == old(courses)
    {
      roster := roster[courseId := []];
    }

    /** A rolled-back transaction puts back the join table it started from. */
    method RestoreRoster(saved: Roster)
      requires Valid() && Consistent(groups, students, courses, saved)
      modifies this
      ensures Valid()
      ensures roster == saved
      ensures groups == old(groups) && students == old(students) && courses == old(courses)
    {
      roster := saved;
    }
  }
}
