/** The course service over the course repository. */
module CourseService {
  import opened Wrappers
  import opened Seqs
  import opened Tables
  import opened Courses
  import opened Store

  /**
   * `save`: the repository's save, a merge of a course whose `students`
   * list is null; afterwards the id exists, holds the course, and has no
   * join rows.
   */
  method Save(db: School, c: Course) returns (r: Result<bool>)
    requires db.Valid()
    modifies db
    ensures db.Valid()
    ensures r == Ok(true)
    ensures db.courses == Put(old(db.courses), c.id, c) && GetById(db, c.id) == Ok(c)
    ensures db.roster == old(db.roster)[c.id := []]
    ensures db.groups == old(db.groups) && db.students == old(db.students)
  {
    db.MergeCourse(c);
    if !ExistsById(db, c.id) {
      return Err(IllegalState);
    }
    r := Ok(true);
  }

  /** `deleteAll`: every course goes; the result is whether none is left, which always holds. */
  method DeleteAll(db: School) returns (ok: bool)
    requires db.Valid()
    modifies db
    ensures db.Valid()
    ensures ok
    ensures db.courses.rows == map[] && db.roster == map[] && GetAllCourses(db) == Err(NotFound)
    ensures db.groups == old(db.groups) && db.students == old(db.students)
  {
    db.ClearCourses();
    ok := Values(db.courses) == [];
  }

  /**
   * `update`: `NotFound` for an unknown id; otherwise the merge of `save`:
   * the course's fields are overwritten and its join rows go.
   */
  method Update(db: School, c: Course) returns (r: Result<bool>)
    requires db.Valid()
    modifies db
    ensures db.Valid()
    ensures r == if c.id in old(db.courses.rows) then Ok(true) else Err(NotFound)
    ensures r.Ok? ==> db.courses == Put(old(db.courses), c.id, c) && GetById(db, c.id) == Ok(c)
    ensures r.Ok? ==> db.roster == old(db.roster)[c.id := []]
    ensures r.Err? ==> db.courses == old(db.courses) && db.roster == old(db.roster)
    ensures db.groups == old(db.groups) && db.students == old(db.students)
  {
    if !ExistsById(db, c.id) {
      return Err(NotFound);
    }
    db.MergeCourse(c);
    if !ExistsById(db, c.id) {
      return Err(IllegalState);
    }
    r := Ok(true);
  }

  /**
   * `deleteById`: false for an unknown id; otherwise the course row goes
   * with its join rows and the result is whether the id is gone.
   */
  method DeleteById(db: School, id: string) returns (ok: bool)
    requires db.Valid()
    modifies db
    ensures db.Valid()
    ensures ok <==> id in old(db.courses.rows)
    ensures ok ==> GetById(db, id) == Err(NotFound)
    ensures ok ==> db.courses == Delete(old(db.courses), id) && db.roster == old(db.roster) - {id}
    ensures !ok ==> db.courses == old(db.courses) && db.roster == old(db.roster)
    ensures db.groups == old(db.groups) && db.students == old(db.students)
  {
    if GetById(db, id).Err? {
      return false;
    }
    db.RemoveCourse(id);
    ok := !ExistsById(db, id);
  }

  /** `existsById` agrees with `getById`. */
  function ExistsById(db: School, id: string): (r: bool)
    reads db
    requires db.Valid()
    ensures r <==> GetById(db, id).Ok?
  {
    id in db.courses.rows
  }

  /** `getAllCourses`: every course, or `NotFound` when there are none. */
  function GetAllCourses(db: School): (r: Result<seq<Course>>)
    reads db
    requires db.Valid()
    ensures r.Err? <==> db.courses.rows == map[]
    ensures r.Err? ==> r.error == NotFound
    ensures r.Ok? ==> |r.value| == |db.courses.rows| && forall c :: c in r.value <==> c in db.courses.rows.Values
  {
    EmptyIff(db.courses);
    SizeIsLength(db.courses);
    forall c ensures c in Values(db.courses) <==> c in db.courses.rows.Values {
      ValuesAreRows(db.courses, c);
    }
    if Values(db.courses) == [] then Err(NotFound) else Ok(Values(db.courses))
  }

  /** `getById`: the stored course, or `NotFound`. */
  function GetById(db: School, id: string): (r: Result<Course>)
    reads db
    requires db.Valid()
    ensures r.Ok? <==> id in db.courses.rows
    ensures r.Ok? ==> r.value == db.courses.rows[id] && r.value.id == id
    ensures r.Err? ==> r.error == NotFound
  {
    match Get(db.courses, id)
    case None => Err(NotFound)
    case Some(c) => Ok(c)
  }

  /** The ids of a list of courses, position by position. */
  function Ids(cs: seq<Course>): (r: seq<string>)
    ensures |r| == |cs| && forall i :: 0 <= i < |cs| ==> r[i] == cs[i].id
  {
    seq(|cs|, i requires 0 <= i < |cs| => cs[i].id)
  }

  /** `getAllIds`: `findAll` mapped to ids, which is the table's key order. */
  function GetAllIds(db: School): (r: seq<string>)
    reads db
    requires db.Valid()
    ensures r == Ids(Values(db.courses))
    ensures forall id :: id in r <==> id in db.courses.rows
    ensures Distinct(r)
  {
    var ids := Ids(Values(db.courses));
    assert ids == db.courses.order;
    ids
  }

  /** Saving three courses with ids "1", "2", "3" into an empty store gives exactly those ids. */
  lemma SeededIds(a: Course, b: Course, c: Course)
    requires a.id == "1" && b.id == "2" && c.id == "3"
    ensures Ids(Values(PutAll(Empty(), [a.id, b.id, c.id], [a, b, c]))) == ["1", "2", "3"]
  {
    var keys := [a.id, b.id, c.id];
    var es := [a, b, c];
    PutAllFresh(Empty(), keys, es);
    PutAllRows(Empty(), keys, es);
    var t := PutAll(Empty(), keys, es);
    var vs := Values(t);
    assert vs[0] == a && vs[1] == b && vs[2] == c;
  }

  /** A store whose course table is those three saves answers `getAllIds` with exactly their ids. */
  lemma SeededStoreIds(db: School, a: Course, b: Course, c: Course)
    requires a.id == "1" && b.id == "2" && c.id == "3"
    requires db.Valid() && db.courses == PutAll(Empty(), [a.id, b.id, c.id], [a, b, c])
    ensures GetAllIds(db) == ["1", "2", "3"]
  {
    SeededIds(a, b, c);
  }
}
