/**
 * The sample-data generator. `java.util.Random` draws and generated UUIDs
 * are parameters: each draw is the value `nextInt` returned, each UUID the
 * id a new entity received.
 */
module GenerateService {
  import opened Wrappers
  import opened Seqs
  import opened Tables
  import opened Groups
  import opened Courses
  import opened Students
  import opened Store
  import StudentCoursesImpl
  import StudentDaoImpl
  import GroupDaoImpl
  import CourseDaoImpl

  /**
   * `deleteAll`: the enrolment gateway's `deleteAll`, then the group
   * gateway's; both results are ignored. `fault1` and `fault2` stand for
   * the store rejecting each of them.
   */
  method DeleteAll(db: School, fault1: bool, fault2: bool)
    requires db.Valid()
    modifies db
    ensures db.Valid()
    ensures !fault1 ==> db.groups.rows == map[] && db.students.rows == map[]
                        && db.courses.rows == map[] && db.roster == map[]
    ensures fault1 && !fault2 ==> db.groups.rows == map[] && db.students == UngroupAll(old(db.students))
                                  && db.courses == old(db.courses) && db.roster == old(db.roster)
    ensures fault1 && fault2 ==> db.groups == old(db.groups) && db.students == old(db.students)
                                 && db.courses == old(db.courses) && db.roster == old(db.roster)
  {
    var _ := StudentCoursesImpl.DeleteAll(db, fault1);
    var _ := GroupDaoImpl.DeleteAll(db, fault2);
  }

  // ---------------------------------------------------------------- names

  const Letters := "ABCDEFGHIJKLMNOPQRSTUVWXYZ"
  const Digits := "0123456789"

  /** Four draws: two letter indices, then two digit indices. */
  predicate NameDraws(d: seq<nat>) {
    |d| == 4 && d[0] < |Letters| && d[1] < |Letters| && d[2] < |Digits| && d[3] < |Digits|
  }

  /** The name four draws produce. */
  function NameFromDraws(d: seq<nat>): (name: string)
    requires NameDraws(d)
    ensures |name| == 5
  {
    [Letters[d[0]], Letters[d[1]], '-', Digits[d[2]], Digits[d[3]]]
  }

  predicate IsUpper(c: char) { 'A' <= c <= 'Z' }
  predicate IsDigit(c: char) { '0' <= c <= '9' }

  /** Two capital letters, a hyphen, two digits. */
  predicate NameFormat(s: string) {
    |s| == 5 && IsUpper(s[0]) && IsUpper(s[1]) && s[2] == '-' && IsDigit(s[3]) && IsDigit(s[4])
  }

  lemma LetterCode(i: nat)
    requires i < |Letters|
    ensures Letters[i] == (65 + i) as char
  {
  }

  lemma DigitCode(i: nat)
    requires i < |Digits|
    ensures Digits[i] == (48 + i) as char
  {
  }

  /** Every generated name has the format. */
  lemma NameHasFormat(d: seq<nat>)
    requires NameDraws(d)
    ensures NameFormat(NameFromDraws(d))
  {
    LetterCode(d[0]);
    LetterCode(d[1]);
    DigitCode(d[2]);
    DigitCode(d[3]);
  }

  /** Every name of the format is generated by exactly one choice of draws. */
  lemma FormatIsGenerated(s: string)
    requires NameFormat(s)
    ensures exists d :: NameDraws(d) && NameFromDraws(d) == s
  {
    var d: seq<nat> := [s[0] as int - 65, s[1] as int - 65, s[3] as int - 48, s[4] as int - 48];
    LetterCode(d[0]);
    LetterCode(d[1]);
    DigitCode(d[2]);
    DigitCode(d[3]);
    assert NameFromDraws(d) == s;
  }

  /** Different draws give different names. */
  lemma NameInjective(d: seq<nat>, e: seq<nat>)
    requires NameDraws(d) && NameDraws(e) && NameFromDraws(d) == NameFromDraws(e)
    ensures d == e
  {
    var n := NameFromDraws(d);
    assert n[0] == Letters[d[0]] == Letters[e[0]] && n[1] == Letters[d[1]] == Letters[e[1]];
    assert n[3] == Digits[d[2]] == Digits[e[2]] && n[4] == Digits[d[3]] == Digits[e[3]];
    LetterCode(d[0]); LetterCode(e[0]); LetterCode(d[1]); LetterCode(e[1]);
    DigitCode(d[2]); DigitCode(e[2]); DigitCode(d[3]); DigitCode(e[3]);
  }

  /** `generateRandomName`: two letters appended, a hyphen, two digits. */
  method GenerateRandomName(draws: seq<nat>) returns (name: string)
    requires NameDraws(draws)
    ensures name == NameFromDraws(draws)
  {
    name := "";
    var i := 0;
    while i < 2
      invariant 0 <= i <= 2 && name == NameFromDraws(draws)[..i]
    {
      name := name + [Letters[draws[i]]];
      i := i + 1;
    }
    name := name + "-";
    i := 0;
    while i < 2
      invariant 0 <= i <= 2 && name == NameFromDraws(draws)[..3 + i]
    {
      name := name + [Digits[draws[2 + i]]];
      i := i + 1;
    }
  }

  // --------------------------------------------------------------- groups

  const GroupCount := 10

  /** The groups `generateGroups` builds from its draws and UUIDs, in order. */
  function NewGroups(draws: seq<seq<nat>>, uuids: seq<string>): (gs: seq<Group>)
    requires |draws| == |uuids| && forall i :: 0 <= i < |draws| ==> NameDraws(draws[i])
    ensures |gs| == |uuids|
    ensures forall i :: 0 <= i < |gs| ==> gs[i] == NewNamedGroup(NameFromDraws(draws[i]), uuids[i])
  {
    seq(|uuids|, i requires 0 <= i < |uuids| => NewNamedGroup(NameFromDraws(draws[i]), uuids[i]))
  }

  /** One step of a saving loop: the table after one more save is the run one longer. */
  lemma PutAllStep<E>(t: Table<E>, keys: seq<string>, es: seq<E>, i: nat, before: Table<E>, after: Table<E>)
    requires WellFormed(t) && |keys| == |es| && i < |keys|
    requires before == PutAll(t, keys[..i], es[..i]) && after == Put(before, keys[i], es[i])
    ensures after == PutAll(t, keys[..i + 1], es[..i + 1])
  {
    PutAllSnoc(t, keys, es, i);
  }

  lemma PutAllSnoc<E>(t: Table<E>, keys: seq<string>, es: seq<E>, i: nat)
    requires WellFormed(t) && |keys| == |es| && i < |keys|
    ensures PutAll(t, keys[..i + 1], es[..i + 1]) == Put(PutAll(t, keys[..i], es[..i]), keys[i], es[i])
  {
    assert keys[..i + 1][..i] == keys[..i] && es[..i + 1][..i] == es[..i];
  }

  /** `generateGroups`: ten groups with generated names, saved in turn; a save never fails. */
  method GenerateGroups(db: School, draws: seq<seq<nat>>, uuids: seq<string>) returns (r: Result<()>)
    requires db.Valid()
    requires |draws| == GroupCount && |uuids| == GroupCount
    requires forall i :: 0 <= i < |draws| ==> NameDraws(draws[i])
    modifies db
    ensures db.Valid()
    ensures r == Ok(())
    ensures db.groups == PutAll(old(db.groups), uuids, NewGroups(draws, uuids))
    ensures db.students == old(db.students) && db.courses == old(db.courses) && db.roster == old(db.roster)
  {
    var gs := NewGroups(draws, uuids);
    var i := 0;
    while i < GroupCount
      invariant 0 <= i <= GroupCount
      invariant db.Valid() && db.groups == PutAll(old(db.groups), uuids[..i], gs[..i])
      invariant db.students == old(db.students) && db.courses == old(db.courses) && db.roster == old(db.roster)
    {
      var groupName := GenerateRandomName(draws[i]);
      ghost var before := db.groups;
      var wasSaved := GroupDaoImpl.Save(db, NewNamedGroup(groupName, uuids[i]));
      if !wasSaved {
        return Err(IllegalState);
      }
      PutAllStep(old(db.groups), uuids, gs, i, before, db.groups);
      i := i + 1;
    }
    assert uuids[..GroupCount] == uuids && gs[..GroupCount] == gs;
    r := Ok(());
  }

  /** With fresh, distinct UUIDs there are exactly ten more groups, each with a well-formed name. */
  lemma GeneratedGroups(t: Table<Group>, draws: seq<seq<nat>>, uuids: seq<string>)
    requires WellFormed(t) && |draws| == GroupCount && |uuids| == GroupCount
    requires forall i :: 0 <= i < |draws| ==> NameDraws(draws[i])
    requires Distinct(uuids) && forall i :: 0 <= i < |uuids| ==> uuids[i] !in t.rows
    ensures |PutAll(t, uuids, NewGroups(draws, uuids)).order| == |t.order| + GroupCount
    ensures forall i :: 0 <= i < GroupCount ==>
              uuids[i] in PutAll(t, uuids, NewGroups(draws, uuids)).rows
              && NameFormat(PutAll(t, uuids, NewGroups(draws, uuids)).rows[uuids[i]].groupName)
  {
    var gs := NewGroups(draws, uuids);
    PutAllFresh(t, uuids, gs);
    PutAllRows(t, uuids, gs);
    forall i | 0 <= i < GroupCount ensures NameFormat(gs[i].groupName) {
      NameHasFormat(draws[i]);
    }
  }

  // -------------------------------------------------------------- courses

  const CourseNames: seq<string> := ["Math", "Biology", "Chemistry", "Physics", "History",
                                    "English", "Art", "Computer Science", "Economics", "Music"]

  /** The courses `generateCourses` builds: each listed name, described as the name followed by "Basics". */
  function NewCourses(uuids: seq<string>): (cs: seq<Course>)
    requires |uuids| == |CourseNames|
    ensures |cs| == |CourseNames|
    ensures forall i :: 0 <= i < |cs| ==>
              cs[i].id == uuids[i] && cs[i].name == CourseNames[i] && cs[i].description == CourseNames[i] + "Basics"
  {
    seq(|uuids|, i requires 0 <= i < |uuids| => NewNamedCourse(CourseNames[i], CourseNames[i] + "Basics", uuids[i]))
  }

  /** The index of the first store fault, or the length when there is none. */
  function FirstFault(faults: seq<bool>): (k: nat)
    ensures k <= |faults|
    ensures forall j :: 0 <= j < k ==> !faults[j]
    ensures k < |faults| ==> faults[k]
    decreases |faults|
  {
    if faults == [] || faults[0] then 0 else 1 + FirstFault(faults[1..])
  }

  /** New course ids start with no students; other lists stay as they were. */
  ghost predicate RostersAfterSaves(before: Roster, after: Roster) {
    && before.Keys <= after.Keys
    && forall c :: c in after ==> after[c] == if c in before then before[c] else []
  }

  /**
   * `generateCourses`: the ten courses saved in turn; the first save the
   * store rejects ends the run with `IllegalState`, and the earlier saves
   * stay.
   */
  method GenerateCourses(db: School, uuids: seq<string>, faults: seq<bool>) returns (r: Result<()>)
    requires db.Valid() && |uuids| == |CourseNames| && |faults| == |CourseNames|
    modifies db
    ensures db.Valid()
    ensures r == if FirstFault(faults) < |faults| then Err(IllegalState) else Ok(())
    ensures db.courses == PutAll(old(db.courses), uuids[..FirstFault(faults)], NewCourses(uuids)[..FirstFault(faults)])
    ensures RostersAfterSaves(old(db.roster), db.roster)
    ensures db.groups == old(db.groups) && db.students == old(db.students)
  {
    var cs := NewCourses(uuids);
    var i := 0;
    while i < |CourseNames|
      invariant 0 <= i <= |CourseNames| && i <= FirstFault(faults)
      invariant db.Valid() && db.courses == PutAll(old(db.courses), uuids[..i], cs[..i])
      invariant RostersAfterSaves(old(db.roster), db.roster)
      invariant db.groups == old(db.groups) && db.students == old(db.students)
    {
      var name := CourseNames[i];
      ghost var before := db.courses;
      var wasSaved := CourseDaoImpl.Save(db, NewNamedCourse(name, name + "Basics", uuids[i]), faults[i]);
      if !wasSaved {
        return Err(IllegalState);
      }
      PutAllStep(old(db.courses), uuids, cs, i, before, db.courses);
      i := i + 1;
    }
    assert uuids[..i] == uuids[..FirstFault(faults)] && cs[..i] == cs[..FirstFault(faults)];
    r := Ok(());
  }

  // ------------------------------------------------------------- students

  const StudentCount := 200

  const FirstNames: seq<string> := [
    "Liam", "Olivia", "Noah", "Emma", "Oliver", "Ava", "Elijah", "Charlotte", "William", "Sophia",
    "James", "Amelia", "Benjamin", "Isabella", "Lucas", "Mia", "Henry", "Evelyn", "Alexander", "Harper"]

  const LastNames: seq<string> := [
    "Smith", "Johnson", "Williams", "Brown", "Jones", "Garcia", "Miller", "Davis", "Rodriguez", "Martinez",
    "Hernandez", "Lopez", "Gonzalez", "Wilson", "Anderson", "Thomas", "Taylor", "Moore", "Jackson", "Martin"]

  /** Per student: a first-name index, a last-name index and a group index into `groupIds`. */
  predicate StudentDraws(firstDraws: seq<nat>, lastDraws: seq<nat>, groupDraws: seq<nat>, groupCount: nat, n: nat) {
    && |firstDraws| == n && |lastDraws| == n && |groupDraws| == n
    && (forall i :: 0 <= i < n ==> firstDraws[i] < |FirstNames| && lastDraws[i] < |LastNames|)
    && (forall i :: 0 <= i < n ==> groupDraws[i] < groupCount)
  }

  /** The students `generateStudents` builds, in order. */
  function NewStudents(groupIds: seq<string>, firstDraws: seq<nat>, lastDraws: seq<nat>,
                       groupDraws: seq<nat>, uuids: seq<string>): (sts: seq<Student>)
    requires StudentDraws(firstDraws, lastDraws, groupDraws, |groupIds|, |uuids|)
    ensures |sts| == |uuids|
    ensures forall i :: 0 <= i < |sts| ==>
              sts[i] == Student(uuids[i], Some(groupIds[groupDraws[i]]), FirstNames[firstDraws[i]], LastNames[lastDraws[i]])
  {
    seq(|uuids|, i requires 0 <= i < |uuids| =>
          Student(uuids[i], Some(groupIds[groupDraws[i]]), FirstNames[firstDraws[i]], LastNames[lastDraws[i]]))
  }

  /**
   * `generateStudents`: 200 students, each with drawn first and last names
   * and a group drawn from the stored group ids, saved in turn. With no
   * groups the group draw fails (`InvalidArgument`) before anything is
   * saved; the first save the store rejects ends the run with
   * `IllegalState`, and the earlier saves stay.
   */
  method GenerateStudents(db: School, firstDraws: seq<nat>, lastDraws: seq<nat>, groupDraws: seq<nat>,
                          uuids: seq<string>, faults: seq<bool>) returns (r: Result<()>)
    requires db.Valid() && |uuids| == StudentCount && |faults| == StudentCount
    requires db.groups.order != [] ==> StudentDraws(firstDraws, lastDraws, groupDraws, |db.groups.order|, StudentCount)
    modifies db
    ensures db.Valid()
    ensures old(db.groups.order) == [] ==> r == Err(InvalidArgument) && db.students == old(db.students)
    ensures old(db.groups.order) != [] ==>
              && r == (if FirstFault(faults) < |faults| then Err(IllegalState) else Ok(()))
              && db.students == PutAll(old(db.students), uuids[..FirstFault(faults)],
                                       NewStudents(old(db.groups.order), firstDraws, lastDraws, groupDraws, uuids)[..FirstFault(faults)])
    ensures db.groups == old(db.groups) && db.courses == old(db.courses) && db.roster == old(db.roster)
  {
    if db.groups.order == [] {
      return Err(InvalidArgument);
    }
    var sts := NewStudents(db.groups.order, firstDraws, lastDraws, groupDraws, uuids);
    var i := 0;
    while i < StudentCount
      invariant 0 <= i <= StudentCount && i <= FirstFault(faults)
      invariant db.Valid() && db.students == PutAll(old(db.students), uuids[..i], sts[..i])
      invariant db.groups == old(db.groups) && db.courses == old(db.courses) && db.roster == old(db.roster)
    {
      var firstName := FirstNames[firstDraws[i]];
      var lastName := LastNames[lastDraws[i]];
      var groupIds := GroupDaoImpl.GetAllIds(db);
      var groupId := groupIds[groupDraws[i]];
      var group := GroupDaoImpl.GetById(db, groupId);
      if group.None? {
        return Err(IllegalState);
      }
      ghost var before := db.students;
      var wasSaved := StudentDaoImpl.Save(db, Student(uuids[i], Some(group.value.id), firstName, lastName), faults[i]);
      if !wasSaved {
        return Err(IllegalState);
      }
      PutAllStep(old(db.students), uuids, sts, i, before, db.students);
      i := i + 1;
    }
    assert uuids[..i] == uuids[..FirstFault(faults)] && sts[..i] == sts[..FirstFault(faults)];
    r := Ok(());
  }

  /** Every generated student belongs to a stored group and has names from the fixed lists. */
  lemma GeneratedStudentsWellFormed(groupIds: seq<string>, firstDraws: seq<nat>, lastDraws: seq<nat>,
                                    groupDraws: seq<nat>, uuids: seq<string>)
    requires StudentDraws(firstDraws, lastDraws, groupDraws, |groupIds|, |uuids|)
    ensures forall st :: st in NewStudents(groupIds, firstDraws, lastDraws, groupDraws, uuids) ==>
              st.groupId.Some? && st.groupId.value in groupIds && st.firstName in FirstNames && st.lastName in LastNames
  {
    var sts := NewStudents(groupIds, firstDraws, lastDraws, groupDraws, uuids);
    forall st | st in sts
      ensures st.groupId.Some? && st.groupId.value in groupIds && st.firstName in FirstNames && st.lastName in LastNames
    {
      var i :| 0 <= i < |sts| && sts[i] == st;
    }
  }

  // ---------------------------------------------------------- enrolments

  /**
   * A pick: for the j-th course of a student, an index into the course ids
   * not yet given to that student. `assignStudentsToCourses` draws over all
   * course ids and draws again on a repeat; a pick names the draw that was kept.
   */
  predicate Pick(pick: seq<nat>, courseCount: nat) {
    1 <= |pick| <= 3 && forall j :: 0 <= j < |pick| ==> pick[j] < courseCount - j
  }

  /** The courses a pick selects, in order, from `remaining`; an index out of range ends the choice. */
  function Choose(remaining: seq<string>, pick: seq<nat>): (cs: seq<string>)
    ensures |cs| <= |pick|
    ensures forall c :: c in cs ==> c in remaining
    decreases |pick|
  {
    if pick == [] || pick[0] >= |remaining| then []
    else
      var c := remaining[pick[0]];
      RemoveFirstSubset(remaining, c);
      [c] + Choose(RemoveFirst(remaining, c), pick[1..])
  }

  /** A pick whose every index is in range selects one course per index. */
  lemma {:induction false} ChooseLength(remaining: seq<string>, pick: seq<nat>)
    requires forall j :: 0 <= j < |pick| ==> pick[j] < |remaining| - j
    ensures |Choose(remaining, pick)| == |pick|
    decreases |pick|
  {
    if pick != [] {
      var c := remaining[pick[0]];
      assert forall j :: 0 <= j < |pick[1..]| ==> pick[1..][j] == pick[j + 1];
      ChooseLength(RemoveFirst(remaining, c), pick[1..]);
    }
  }

  /** From a list without repeats, a pick selects no course twice. */
  lemma {:induction false} ChooseDistinct(remaining: seq<string>, pick: seq<nat>)
    requires Distinct(remaining)
    ensures Distinct(Choose(remaining, pick))
    decreases |pick|
  {
    if pick != [] && pick[0] < |remaining| {
      var c := remaining[pick[0]];
      var rest := RemoveFirst(remaining, c);
      RemoveFirstDistinct(remaining, c);
      RemoveFirstOfDistinct(remaining, c);
      ChooseDistinct(rest, pick[1..]);
      DistinctCons(c, Choose(rest, pick[1..]));
    }
  }

  /** The enrolments of one student, as (course, student) pairs. */
  function Pairs(studentId: string, cs: seq<string>): (ps: seq<(string, string)>)
    ensures |ps| == |cs| && forall k :: 0 <= k < |cs| ==> ps[k] == (cs[k], studentId)
  {
    seq(|cs|, k requires 0 <= k < |cs| => (cs[k], studentId))
  }

  predicate Picks(picks: seq<seq<nat>>, studentCount: nat, courseCount: nat) {
    |picks| == studentCount && forall i :: 0 <= i < |picks| ==> Pick(picks[i], courseCount)
  }

  /** The enrolments made for the first `n` students, in order. */
  function PlanUpTo(studentIds: seq<string>, courseIds: seq<string>, picks: seq<seq<nat>>, n: nat): seq<(string, string)>
    requires n <= |studentIds| == |picks|
  {
    if n == 0 then []
    else PlanUpTo(studentIds, courseIds, picks, n - 1) + Pairs(studentIds[n - 1], Choose(courseIds, picks[n - 1]))
  }

  /** Every enrolment `assignStudentsToCourses` makes, in order. */
  function Plan(studentIds: seq<string>, courseIds: seq<string>, picks: seq<seq<nat>>): seq<(string, string)>
    requires |picks| == |studentIds|
  {
    PlanUpTo(studentIds, courseIds, picks, |studentIds|)
  }

  /** A run of `addStudentToCourse` calls, one per pair; a course missing from the roster is skipped. */
  function EnrolAll(roster: Roster, ps: seq<(string, string)>): (r: Roster)
    ensures r.Keys == roster.Keys
    decreases |ps|
  {
    if ps == [] then roster
    else
      var n := |ps| - 1;
      var before := EnrolAll(roster, ps[..n]);
      if ps[n].0 in before then before[ps[n].0 := before[ps[n].0] + [ps[n].1]] else before
  }

  lemma EnrolAllSnoc(roster: Roster, ps: seq<(string, string)>, p: (string, string))
    requires p.0 in roster
    ensures EnrolAll(roster, ps + [p]) == Enrol(EnrolAll(roster, ps), p.0, p.1)
  {
    assert (ps + [p])[..|ps|] == ps;
  }

  /** After a run of enrolments a pair is enrolled exactly when it was before or the run enrolled it. */
  lemma {:induction false} EnrolAllEnrolled(roster: Roster, ps: seq<(string, string)>, s: string, c: string)
    ensures Enrolled(EnrolAll(roster, ps), s, c) <==> Enrolled(roster, s, c) || ((c, s) in ps && c in roster)
    decreases |ps|
  {
    if ps != [] {
      var n := |ps| - 1;
      EnrolAllEnrolled(roster, ps[..n], s, c);
      assert ps == ps[..n] + [ps[n]];
    }
  }

  lemma PairsMember(studentId: string, cs: seq<string>, c: string, s: string)
    ensures (c, s) in Pairs(studentId, cs) <==> s == studentId && c in cs
  {
    var ps := Pairs(studentId, cs);
    if c in cs && s == studentId {
      var k :| 0 <= k < |cs| && cs[k] == c;
      assert ps[k] == (c, s);
    }
  }

  /** In the plan for the first `n` students, a student is paired with exactly the courses its own pick selects. */
  lemma {:induction false} PlanPairsOf(studentIds: seq<string>, courseIds: seq<string>, picks: seq<seq<nat>>,
                                       n: nat, i: nat, c: string)
    requires n <= |studentIds| == |picks| && Distinct(studentIds) && i < |studentIds|
    ensures (c, studentIds[i]) in PlanUpTo(studentIds, courseIds, picks, n) <==> i < n && c in Choose(courseIds, picks[i])
    decreases n
  {
    if n > 0 {
      var s := studentIds[i];
      var earlier := PlanUpTo(studentIds, courseIds, picks, n - 1);
      var last := Pairs(studentIds[n - 1], Choose(courseIds, picks[n - 1]));
      assert (c, s) in earlier + last <==> (c, s) in earlier || (c, s) in last;
      PairsMember(studentIds[n - 1], Choose(courseIds, picks[n - 1]), c, s);
      assert s == studentIds[n - 1] <==> i == n - 1;
      PlanPairsOf(studentIds, courseIds, picks, n - 1, i, c);
    }
  }

  /**
   * Each student gains the courses its pick selects: between one and three,
   * none twice, all of them stored courses.
   */
  lemma AssignedCourses(roster: Roster, studentIds: seq<string>, courseIds: seq<string>, picks: seq<seq<nat>>, i: nat)
    requires Picks(picks, |studentIds|, |courseIds|) && Distinct(studentIds) && Distinct(courseIds)
    requires i < |studentIds| && forall c :: c in courseIds ==> c in roster
    ensures CoursesOf(EnrolAll(roster, Plan(studentIds, courseIds, picks)), studentIds[i])
            == CoursesOf(roster, studentIds[i]) + Elements(Choose(courseIds, picks[i]))
    ensures 1 <= |Elements(Choose(courseIds, picks[i]))| <= 3
    ensures forall c :: c in Choose(courseIds, picks[i]) ==> c in courseIds
  {
    var ps := Plan(studentIds, courseIds, picks);
    var s := studentIds[i];
    forall c ensures c in CoursesOf(EnrolAll(roster, ps), s) <==> c in CoursesOf(roster, s) || c in Choose(courseIds, picks[i]) {
      EnrolAllEnrolled(roster, ps, s, c);
      PlanPairsOf(studentIds, courseIds, picks, |studentIds|, i, c);
    }
    ChooseDistinct(courseIds, picks[i]);
    ChooseLength(courseIds, picks[i]);
    DistinctCardinality(Choose(courseIds, picks[i]));
  }

  /** Two runs of enrolments in a row are one run. */
  lemma {:induction false} EnrolAllAppend(roster: Roster, ps: seq<(string, string)>, qs: seq<(string, string)>)
    ensures EnrolAll(EnrolAll(roster, ps), qs) == EnrolAll(roster, ps + qs)
    decreases |qs|
  {
    if qs == [] {
      assert ps + qs == ps;
    } else {
      var n := |qs| - 1;
      EnrolAllAppend(roster, ps, qs[..n]);
      assert (ps + qs)[..|ps| + n] == ps + qs[..n];
      assert (ps + qs)[|ps| + n] == qs[n];
    }
  }

  lemma PairsSnoc(studentId: string, cs: seq<string>, c: string)
    ensures Pairs(studentId, cs + [c]) == Pairs(studentId, cs) + [(c, studentId)]
  {
  }

  /** One step of the inner loop: the next chosen course is the one the next draw names. */
  lemma ChooseStep(remaining: seq<string>, pick: seq<nat>, j: nat)
    requires j < |pick| && pick[j] < |remaining|
    ensures Choose(remaining, pick[j..])
            == [remaining[pick[j]]] + Choose(RemoveFirst(remaining, remaining[pick[j]]), pick[j + 1..])
  {
    assert pick[j..][0] == pick[j] && pick[j..][1..] == pick[j + 1..];
  }

  /** The inner loop of `assignStudentsToCourses`: one student's picked courses, enrolled in turn. */
  method EnrolPicked(db: School, studentId: string, courseIds: seq<string>, pick: seq<nat>) returns (ok: bool)
    requires db.Valid() && studentId in db.students.rows && courseIds == db.courses.order
    requires Pick(pick, |courseIds|)
    modifies db
    ensures db.Valid() && ok
    ensures db.roster == EnrolAll(old(db.roster), Pairs(studentId, Choose(courseIds, pick)))
    ensures db.groups == old(db.groups) && db.students == old(db.students) && db.courses == old(db.courses)
  {
    var remaining := courseIds;
    ghost var done: seq<string> := [];
    var j := 0;
    assert pick[0..] == pick;
    while j < |pick|
      invariant 0 <= j <= |pick|
      invariant forall k :: j <= k < |pick| ==> pick[k] < |remaining| - (k - j)
      invariant done + Choose(remaining, pick[j..]) == Choose(courseIds, pick)
      invariant forall c :: c in remaining ==> c in courseIds
      invariant db.Valid() && courseIds == db.courses.order
      invariant db.groups == old(db.groups) && db.students == old(db.students) && db.courses == old(db.courses)
      invariant db.roster == EnrolAll(old(db.roster), Pairs(studentId, done))
    {
      var courseId := remaining[pick[j]];
      ChooseStep(remaining, pick, j);
      ghost var later := Choose(RemoveFirst(remaining, courseId), pick[j + 1..]);
      assert (done + [courseId]) + later == Choose(courseIds, pick);
      RemoveFirstSubset(remaining, courseId);
      assert forall k :: j + 1 <= k < |pick| ==> pick[k] < |RemoveFirst(remaining, courseId)| - (k - (j + 1));
      PairsSnoc(studentId, done, courseId);
      EnrolAllSnoc(old(db.roster), Pairs(studentId, done), (courseId, studentId));
      remaining := RemoveFirst(remaining, courseId);
      var wasAdded := StudentCoursesImpl.AddStudentToCourse(db, studentId, courseId);
      if !wasAdded {
        return false;
      }
      done := done + [courseId];
      j := j + 1;
    }
    assert pick[j..] == [];
    assert done == Choose(courseIds, pick);
    ok := true;
  }

  lemma PlanStep(r0: Roster, studentIds: seq<string>, courseIds: seq<string>, picks: seq<seq<nat>>, i: nat, before: Roster, after: Roster)
    requires i < |studentIds| == |picks|
    requires before == EnrolAll(r0, PlanUpTo(studentIds, courseIds, picks, i))
    requires after == EnrolAll(before, Pairs(studentIds[i], Choose(courseIds, picks[i])))
    ensures after == EnrolAll(r0, PlanUpTo(studentIds, courseIds, picks, i + 1))
  {
    EnrolAllAppend(r0, PlanUpTo(studentIds, courseIds, picks, i), Pairs(studentIds[i], Choose(courseIds, picks[i])));
  }

  /** The outer loop of `assignStudentsToCourses`, over a non-empty course list. */
  method EnrolPlan(db: School, studentIds: seq<string>, courseIds: seq<string>, picks: seq<seq<nat>>)
    requires db.Valid() && studentIds == db.students.order && courseIds == db.courses.order
    requires Picks(picks, |studentIds|, |courseIds|)
    modifies db
    ensures db.Valid()
    ensures db.roster == EnrolAll(old(db.roster), Plan(studentIds, courseIds, picks))
    ensures db.groups == old(db.groups) && db.students == old(db.students) && db.courses == old(db.courses)
  {
    var i := 0;
    while i < |studentIds|
      invariant 0 <= i <= |studentIds| && db.Valid()
      invariant db.groups == old(db.groups) && db.students == old(db.students) && db.courses == old(db.courses)
      invariant db.roster == EnrolAll(old(db.roster), PlanUpTo(studentIds, courseIds, picks, i))
    {
      assert Pick(picks[i], |courseIds|);
      assert studentIds[i] in db.students.rows by {
        assert WellFormed(db.students);
      }
      ghost var before := db.roster;
      var _ := EnrolPicked(db, studentIds[i], courseIds, picks[i]);
      PlanStep(old(db.roster), studentIds, courseIds, picks, i, before, db.roster);
      i := i + 1;
    }
  }

  /**
   * `assignStudentsToCourses`: for each stored student, in order, one to
   * three courses chosen from the stored course ids, none twice, each
   * enrolled through the enrolment gateway. With no courses the first
   * course draw fails (`InvalidArgument`) and nothing is enrolled.
   */
  method AssignStudentsToCourses(db: School, picks: seq<seq<nat>>) returns (r: Result<()>)
    requires db.Valid()
    requires db.courses.order != [] ==> Picks(picks, |db.students.order|, |db.courses.order|)
    modifies db
    ensures db.Valid()
    ensures old(db.courses.order) == [] ==>
              r == (if old(db.students.order) == [] then Ok(()) else Err(InvalidArgument)) && db.roster == old(db.roster)
    ensures old(db.courses.order) != [] ==>
              r == Ok(()) && db.roster == EnrolAll(old(db.roster), Plan(old(db.students.order), old(db.courses.order), picks))
    ensures db.groups == old(db.groups) && db.students == old(db.students) && db.courses == old(db.courses)
  {
    var studentIds := StudentDaoImpl.GetAllIds(db);
    var courseIds := CourseDaoImpl.GetAllIds(db);
    if courseIds == [] {
      // the first student's first draw is over an empty range
      return if studentIds == [] then Ok(()) else Err(InvalidArgument);
    }
    EnrolPlan(db, studentIds, courseIds, picks);
    r := Ok(());
  }
}
