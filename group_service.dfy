/** The group service over the group gateway. */
module GroupService {
  import opened Wrappers
  import opened Tables
  import opened Groups
  import opened Students
  import opened Store
  import GroupDaoImpl

  /** `save`: `IllegalState` if the gateway reports failure, which never happens. */
  method Save(db: School, g: Group) returns (r: Result<bool>)
    requires db.Valid()
    modifies db
    ensures db.Valid()
    ensures r == Ok(true)
    ensures db.groups == Put(old(db.groups), g.id, g) && GetById(db, g.id) == Ok(g)
    ensures db.students == old(db.students) && db.courses == old(db.courses) && db.roster == old(db.roster)
  {
    var wasCreated := GroupDaoImpl.Save(db, g);
    if !wasCreated {
      return Err(IllegalState);
    }
    r := Ok(true);
  }

  /** `deleteAll`: `IllegalState` when the gateway's delete fails; otherwise no group is left. */
  method DeleteAll(db: School, fault: bool) returns (r: Result<bool>)
    requires db.Valid()
    modifies db
    ensures db.Valid()
    ensures r == if fault then Err(IllegalState) else Ok(true)
    ensures r.Ok? ==> db.groups.rows == map[] && GetAllGroups(db) == Err(NotFound)
    ensures r.Ok? ==> db.students == UngroupAll(old(db.students))
    ensures r.Err? ==> db.groups == old(db.groups) && db.students == old(db.students)
    ensures db.courses == old(db.courses) && db.roster == old(db.roster)
  {
    var wereDeleted := GroupDaoImpl.DeleteAll(db, fault);
    if !wereDeleted {
      return Err(IllegalState);
    }
    r := Ok(true);
  }

  /**
   * `update`: `NotFound` for an unknown id before the store is touched;
   * `IllegalState` when the gateway's merge fails.
   */
  method Update(db: School, g: Group, fault: bool) returns (r: Result<bool>)
    requires db.Valid()
    modifies db
    ensures db.Valid()
    ensures r == if g.id !in old(db.groups.rows) then Err(NotFound)
                 else if fault then Err(IllegalState) else Ok(true)
    ensures r.Ok? ==> db.groups == Put(old(db.groups), g.id, g) && GetById(db, g.id) == Ok(g)
    ensures r.Err? ==> db.groups == old(db.groups)
    ensures db.students == old(db.students) && db.courses == old(db.courses) && db.roster == old(db.roster)
  {
    if !ExistsById(db, g.id) {
      return Err(NotFound);
    }
    var wasUpdated := GroupDaoImpl.Update(db, g, fault);
    if !wasUpdated {
      return Err(IllegalState);
    }
    r := Ok(true);
  }

  /**
   * `deleteById`: `NotFound` for an unknown id; `IllegalState` when the
   * gateway's remove fails; otherwise the group is gone, members or not.
   */
  method DeleteById(db: School, id: string, fault: bool) returns (r: Result<bool>)
    requires db.Valid()
    modifies db
    ensures db.Valid()
    ensures r == if id !in old(db.groups.rows) then Err(NotFound)
                 else if fault then Err(IllegalState) else Ok(true)
    ensures r.Ok? ==> GetById(db, id) == Err(NotFound) && db.groups == Delete(old(db.groups), id)
    ensures r.Ok? ==> db.students == Ungroup(old(db.students), id)
    ensures r.Err? ==> db.groups == old(db.groups) && db.students == old(db.students)
    ensures db.courses == old(db.courses) && db.roster == old(db.roster)
  {
    if !ExistsById(db, id) {
      return Err(NotFound);
    }
    var wasDeleted := GroupDaoImpl.DeleteById(db, id, fault);
    if !wasDeleted {
      return Err(IllegalState);
    }
    r := Ok(true);
  }

  /** `existsById` agrees with `getById`. */
  function ExistsById(db: School, id: string): (r: bool)
    reads db
    requires db.Valid()
    ensures r <==> GetById(db, id).Ok?
  {
    GroupDaoImpl.ExistsById(db, id)
  }

  /** `getAllGroups`: every group, or `NotFound` when there are none. */
  function GetAllGroups(db: School): (r: Result<seq<Group>>)
    reads db
    requires db.Valid()
    ensures r.Err? <==> db.groups.rows == map[]
    ensures r.Err? ==> r.error == NotFound
    ensures r.Ok? ==> r.value == GroupDaoImpl.GetAll(db)
    ensures r.Ok? ==> forall g :: g in r.value <==> g in db.groups.rows.Values
  {
    var groups := GroupDaoImpl.GetAll(db);
    if groups == [] then Err(NotFound) else Ok(groups)
  }

  /** `getById`: the stored group, or `NotFound`. */
  function GetById(db: School, id: string): (r: Result<Group>)
    reads db
    requires db.Valid()
    ensures r.Ok? <==> id in db.groups.rows
    ensures r.Ok? ==> r.value == db.groups.rows[id] && r.value.id == id
    ensures r.Err? ==> r.error == NotFound
  {
    match GroupDaoImpl.GetById(db, id)
    case None => Err(NotFound)
    case Some(g) => Ok(g)
  }

  /**
   * `findAllGroupsWithLessOrEqualsStudentCount`: `InvalidArgument` for a
   * negative count before any query; `NotFound` for an empty result;
   * otherwise the gateway's result unchanged.
   */
  function FindAllGroupsWithLessOrEqualsStudentCount(db: School, studentCount: int): (r: Result<seq<Group>>)
    reads db
    requires db.Valid()
    ensures studentCount < 0 ==> r == Err(InvalidArgument)
    ensures studentCount >= 0 ==>
              r == if GroupDaoImpl.FindAllGroupsWithLessOrEqualStudentsNumber(db, studentCount) == [] then Err(NotFound)
                   else Ok(GroupDaoImpl.FindAllGroupsWithLessOrEqualStudentsNumber(db, studentCount))
    ensures r.Ok? ==> forall g :: g in r.value <==>
              g in db.groups.rows.Values && |Members(db.students, g.id)| <= studentCount
  {
    if studentCount < 0 then Err(InvalidArgument)
    else
      var result := GroupDaoImpl.FindAllGroupsWithLessOrEqualStudentsNumber(db, studentCount);
      if result == [] then Err(NotFound) else Ok(result)
  }

  /** The seeded groups: "1" and "2", in that order. */
  function SeededGroups(): (t: Table<Group>)
    ensures WellFormed(t) && t.order == ["1", "2"]
  {
    Table(map["1" := Group("1", "Group A"), "2" := Group("2", "Group B")], ["1", "2"])
  }

  /** The seeded students: 1, 2 and 4 in group 1, 3 in group 2. */
  function SeededStudents(): (t: Table<Student>)
    ensures WellFormed(t) && t.order == ["1", "2", "3", "4"]
  {
    Table(map["1" := Student("1", Some("1"), "A", "A"), "2" := Student("2", Some("1"), "B", "B"),
              "3" := Student("3", Some("2"), "C", "C"), "4" := Student("4", Some("1"), "D", "D")],
          ["1", "2", "3", "4"])
  }

  /** On the seeded data, a threshold of 2 finds exactly group 2. */
  lemma ThresholdOfTwo()
    ensures GroupDaoImpl.AtMostMembers(Values(SeededGroups()), SeededStudents(), 2) == [Group("2", "Group B")]
  {
    var a, b := Group("1", "Group A"), Group("2", "Group B");
    SeededMembers();
    SeededListing();
    var gs := Values(SeededGroups());
    assert gs[1..] == [b] && gs[1..][1..] == [];
  }

  /** A store holding the seeded groups and students answers a threshold of 2 with group 2 alone. */
  lemma SeededStoreThresholdOfTwo(db: School)
    requires db.Valid() && db.groups == SeededGroups() && db.students == SeededStudents()
    ensures FindAllGroupsWithLessOrEqualsStudentCount(db, 2) == Ok([Group("2", "Group B")])
  {
    ThresholdOfTwo();
  }

  lemma SeededMembers()
    ensures |Members(SeededStudents(), "1")| == 3 && |Members(SeededStudents(), "2")| == 1
  {
    SeededMembersOf("1", {"1", "2", "4"});
    SeededMembersOf("2", {"3"});
  }

  lemma SeededMembersOf(groupId: string, ids: set<string>)
    requires groupId == "1" || groupId == "2"
    requires ids == if groupId == "1" then {"1", "2", "4"} else {"3"}
    ensures Members(SeededStudents(), groupId) == ids
  {
    var t := SeededStudents();
    forall k ensures k in Members(t, groupId) <==> k in ids {
      if k in t.rows {
        assert k == "1" || k == "2" || k == "3" || k == "4";
      }
    }
  }

  lemma SeededListing()
    ensures Values(SeededGroups()) == [Group("1", "Group A"), Group("2", "Group B")]
  {
  }
}
