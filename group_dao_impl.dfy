/** The group gateway over the entity manager. */
module GroupDaoImpl {
  import opened Wrappers
  import opened Seqs
  import opened Tables
  import opened Groups
  import opened Students
  import opened Store

  /**
   * `deleteById`: the group must exist (removing a missing one is an
   * illegal argument the handler does not catch). Its members lose their
   * group reference; `fault` stands for a store error.
   */
  method DeleteById(db: School, id: string, fault: bool) returns (ok: bool)
    requires db.Valid() && id in db.groups.rows
    modifies db
    ensures db.Valid()
    ensures ok == !fault
    ensures ok ==> id !in db.groups.rows
    ensures ok ==> db.groups == Delete(old(db.groups), id) && db.students == Ungroup(old(db.students), id)
    ensures !ok ==> db.groups == old(db.groups) && db.students == old(db.students)
    ensures db.courses == old(db.courses) && db.roster == old(db.roster)
  {
    if fault {
      return false;
    }
    db.RemoveGroup(id);
    ok := id !in db.groups.rows;
  }

  /** `update`: a merge, taken as insert-or-overwrite; `fault` stands for a store error. */
  method Update(db: School, g: Group, fault: bool) returns (ok: bool)
    requires db.Valid()
    modifies db
    ensures db.Valid()
    ensures ok == !fault
    ensures ok ==> db.groups == Put(old(db.groups), g.id, g) && db.groups.rows[g.id] == g
    ensures !ok ==> db.groups == old(db.groups)
    ensures db.students == old(db.students) && db.courses == old(db.courses) && db.roster == old(db.roster)
  {
    if fault {
      return false;
    }
    db.PutGroup(g);
    ok := true;
  }

  /** `deleteAll`: every group goes and no student keeps a group reference. */
  method DeleteAll(db: School, fault: bool) returns (ok: bool)
    requires db.Valid()
    modifies db
    ensures db.Valid()
    ensures ok == !fault
    ensures ok ==> db.groups.rows == map[] && db.students == UngroupAll(old(db.students))
    ensures !ok ==> db.groups == old(db.groups) && db.students == old(db.students)
    ensures db.courses == old(db.courses) && db.roster == old(db.roster)
  {
    if fault {
      return false;
    }
    db.ClearGroups();
    ok := true;
  }

  /** `getAll`: every group, in table order. */
  function GetAll(db: School): (r: seq<Group>)
    reads db
    requires db.Valid()
    ensures |r| == |db.groups.rows|
    ensures forall g :: g in r <==> g in db.groups.rows.Values
  {
    SizeIsLength(db.groups);
    forall g ensures g in Values(db.groups) <==> g in db.groups.rows.Values {
      ValuesAreRows(db.groups, g);
    }
    Values(db.groups)
  }

  /** `getById`: the stored group with that id, or empty. */
  function GetById(db: School, id: string): (r: Option<Group>)
    reads db
    requires db.Valid()
    ensures r.Some? <==> id in db.groups.rows
    ensures r.Some? ==> r.value == db.groups.rows[id] && r.value.id == id
  {
    Get(db.groups, id)
  }

  /**
   * `save`: a persist, taken as insert-or-overwrite, then a lookup of the
   * id; no handler, so the result is whether the row is now there.
   */
  method Save(db: School, g: Group) returns (ok: bool)
    requires db.Valid()
    modifies db
    ensures db.Valid()
    ensures ok
    ensures db.groups == Put(old(db.groups), g.id, g) && db.groups.rows[g.id] == g
    ensures db.students == old(db.students) && db.courses == old(db.courses) && db.roster == old(db.roster)
  {
    db.PutGroup(g);
    ok := g.id in db.groups.rows;
  }

  /** `existsById` agrees with `getById`. */
  function ExistsById(db: School, id: string): (r: bool)
    reads db
    requires db.Valid()
    ensures r <==> GetById(db, id).Some?
  {
    id in db.groups.rows
  }

  /**
   * The groups of `gs`, in order, whose member count (by the students'
   * group references) is at most `n`; a group with no members counts 0.
   */
  function AtMostMembers(gs: seq<Group>, students: Table<Student>, n: int): (r: seq<Group>)
    ensures forall g :: g in r <==> g in gs && |Members(students, g.id)| <= n
    ensures |r| <= |gs|
    decreases |gs|
  {
    if gs == [] then []
    else
      var rest := AtMostMembers(gs[1..], students, n);
      assert forall g :: g in gs <==> g == gs[0] || g in gs[1..] by {
        assert gs == [gs[0]] + gs[1..];
      }
      if |Members(students, gs[0].id)| <= n then [gs[0]] + rest else rest
  }

  /** The result keeps table order: it is a subsequence of the groups. */
  lemma {:induction false} AtMostMembersKeepsOrder(gs: seq<Group>, students: Table<Student>, n: int)
    ensures IsSubsequence(AtMostMembers(gs, students, n), gs)
    decreases |gs|
  {
    if gs != [] {
      AtMostMembersKeepsOrder(gs[1..], students, n);
    }
  }

  ghost predicate IsSubsequence<T>(r: seq<T>, s: seq<T>)
    decreases |s|
  {
    if r == [] then true
    else if s == [] then false
    else if r[0] == s[0] then IsSubsequence(r[1..], s[1..])
    else IsSubsequence(r, s[1..])
  }

  /** `findAllGroupsWithLessOrEqualStudentsNumber`: the left join grouped by group, filtered on the count. */
  function FindAllGroupsWithLessOrEqualStudentsNumber(db: School, studentNumber: int): (r: seq<Group>)
    reads db
    requires db.Valid()
    ensures forall g :: g in r <==> g in db.groups.rows.Values && |Members(db.students, g.id)| <= studentNumber
  {
    forall g ensures g in Values(db.groups) <==> g in db.groups.rows.Values {
      ValuesAreRows(db.groups, g);
    }
    AtMostMembers(Values(db.groups), db.students, studentNumber)
  }

  /** `getAllIds`: the ids of `getAll`, position by position. */
  function GetAllIds(db: School): (r: seq<string>)
    reads db
    requires db.Valid()
    ensures |r| == |GetAll(db)|
    ensures forall i :: 0 <= i < |r| ==> r[i] == GetAll(db)[i].id
    ensures Distinct(r)
  {
    db.groups.order
  }
}
