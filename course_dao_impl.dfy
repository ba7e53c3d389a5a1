/** The course gateway over the entity manager. */
module CourseDaoImpl {
  import opened Wrappers
  import opened Seqs
  import opened Tables
  import opened Courses
  import opened Store

  /**
   * `deleteById`: the course must exist (removing a missing one is an
   * illegal argument); its join rows go with it. No handler.
   */
  method DeleteById(db: School, id: string) returns (ok: bool)
    requires db.Valid() && id in db.courses.rows
    modifies db
    ensures db.Valid()
    ensures ok
    ensures db.courses == Delete(old(db.courses), id) && db.roster == old(db.roster) - {id}
    ensures db.groups == old(db.groups) && db.students == old(db.students)
  {
    db.RemoveCourse(id);
    ok := id !in db.courses.rows;
  }

  /**
   * `update`: a merge of a course whose `students` list is null, which
   * inserts or overwrites the row and leaves the course with no join rows.
   * `fault` stands for a store error.
   */
  method Update(db: School, c: Course, fault: bool) returns (ok: bool)
    requires db.Valid()
    modifies db
    ensures db.Valid()
    ensures ok == !fault
    ensures ok ==> db.courses == Put(old(db.courses), c.id, c) && db.courses.rows[c.id] == c
    ensures ok ==> db.roster == old(db.roster)[c.id := []] && !exists s :: Enrolled(db.roster, s, c.id)
    ensures !ok ==> db.courses == old(db.courses) && db.roster == old(db.roster)
    ensures db.groups == old(db.groups) && db.students == old(db.students)
  {
    if fault {
      return false;
    }
    db.MergeCourse(c);
    ok := true;
  }

  /** `deleteAll`: every course goes, with all join rows. */
  method DeleteAll(db: School, fault: bool) returns (ok: bool)
    requires db.Valid()
    modifies db
    ensures db.Valid()
    ensures ok == !fault
    ensures ok ==> db.courses.rows == map[] && db.roster == map[]
    ensures !ok ==> db.courses == old(db.courses) && db.roster == old(db.roster)
    ensures db.groups == old(db.groups) && db.students == old(db.students)
  {
    if fault {
      return false;
    }
    db.ClearCourses();
    ok := true;
  }

  /** `getAll`: every course, in table order. */
  function GetAll(db: School): (r: seq<Course>)
    reads db
    requires db.Valid()
    ensures |r| == |db.courses.rows|
    ensures forall c :: c in r <==> c in db.courses.rows.Values
  {
    SizeIsLength(db.courses);
    forall c ensures c in Values(db.courses) <==> c in db.courses.rows.Values {
      ValuesAreRows(db.courses, c);
    }
    Values(db.courses)
  }

  /** `getById`: the stored course with that id, or empty. */
  function GetById(db: School, id: string): (r: Option<Course>)
    reads db
    requires db.Valid()
    ensures r.Some? <==> id in db.courses.rows
    ensures r.Some? ==> r.value == db.courses.rows[id] && r.value.id == id
  {
    Get(db.courses, id)
  }

  /** `save`: a persist, taken as insert-or-overwrite; `fault` stands for a store error. */
  method Save(db: School, c: Course, fault: bool) returns (ok: bool)
    requires db.Valid()
    modifies db
    ensures db.Valid()
    ensures ok == !fault
    ensures ok ==> db.courses == Put(old(db.courses), c.id, c) && db.courses.rows[c.id] == c
    ensures ok ==> db.roster == if c.id in old(db.roster) then old(db.roster) else old(db.roster)[c.id := []]
    ensures !ok ==> db.courses == old(db.courses) && db.roster == old(db.roster)
    ensures db.groups == old(db.groups) && db.students == old(db.students)
  {
    if fault {
      return false;
    }
    db.PutCourse(c);
    ok := true;
  }

  /** `existsById` agrees with `getById`. */
  function ExistsById(db: School, id: string): (r: bool)
    reads db
    requires db.Valid()
    ensures r <==> GetById(db, id).Some?
  {
    id in db.courses.rows
  }

  /** `getAllIds`: the ids of `getAll`, position by position. */
  function GetAllIds(db: School): (r: seq<string>)
    reads db
    requires db.Valid()
    ensures |r| == |GetAll(db)|
    ensures forall i :: 0 <= i < |r| ==> r[i] == GetAll(db)[i].id
    ensures Distinct(r)
  {
    db.courses.order
  }
}
