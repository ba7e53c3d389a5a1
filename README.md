# School records: groups, students, courses and enrolments

A Dafny model of the persistence and service layer of the SpringBootJpa
school application. It covers:

- the `Group` and `Course` entities (constructors, `equals`, `hashCode`,
  `toString`);
- the four gateways over the entity manager: `StudentCoursesImpl`,
  `StudentDaoImpl`, `GroupDaoImpl` and `CourseDaoImpl`;
- the five services: `SchoolService`, `StudentService`, `GroupService`,
  `CourseService` and `GenerateService`.

The relational store is one class, `Store.School`. It has three entity
tables and the `student_courses` join table:

- each entity table is a `Tables.Table`: rows by id, plus the order in which
  ids were first stored, so that `findAll` and `getAllIds` return
  well-defined lists;
- the join table is a map from a course id to the course's `students` list.
  That list is the owning side of the many-to-many mapping and may hold a
  student twice.

`Store.Consistent` is the store's integrity invariant:

- every row is stored under its own id;
- every student's group exists;
- every course has a roster;
- every rostered student exists.

`School.Valid()` states that invariant. Every method of `School`, and every
gateway and service method, requires it and keeps it.

The gateway and service operations are module-level methods on a `School`.
Each states its whole effect on the four tables, its result, and its error
cases. Java exceptions become results:

| Java exception | result |
|---|---|
| `NoSuchElementException` | `Err(NotFound)` |
| `IllegalArgumentException` | `Err(InvalidArgument)` |
| `IllegalStateException` | `Err(IllegalState)` |
| a `PersistenceException` no one catches (a dangling group reference) | `Err(StoreError)` |

Queries are functions that read the store.

Three things the code depends on are inputs of the model:

- the store's failures, which are `PersistenceException`s that the gateways
  catch and turn into `false`. Each such failure is a `fault` flag;
- the random draws of `GenerateService`;
- the UUIDs minted by the one-argument entity constructors.

## Model

| member | source | states |
|---|---|---|
| Groups.NewGroup | src/main/java/ua/foxminded/springbootjdbcapi/model/Group.java:41-44 | the group keeps the given id and name |
| Groups.NewNamedGroup | src/main/java/ua/foxminded/springbootjdbcapi/model/Group.java:46-48 | the group keeps the name; its id is the supplied UUID |
| Groups.Equals | src/main/java/ua/foxminded/springbootjdbcapi/model/Group.java:50-56 | definition: `equals` compares id and group name; what that means is `Groups.EqualsIsValueEquality` |
| Groups.EqualsIsValueEquality | src/main/java/ua/foxminded/springbootjdbcapi/model/Group.java:50-56 | `equals` holds exactly when id and name agree, which is value equality of the model |
| Groups.HashCode | src/main/java/ua/foxminded/springbootjdbcapi/model/Group.java:58-61 | `Objects.hash(id, groupName)` lies in the Java `int` range |
| Groups.HashCodeAgreesWithEquals | src/main/java/ua/foxminded/springbootjdbcapi/model/Group.java:58-61 | equal groups have equal hash codes |
| Groups.HashCodeSample | src/main/java/ua/foxminded/springbootjdbcapi/model/Group.java:58-61 | `Objects.hash("1", "A")` is 2545, i.e. 31 * (31 + 49) + 65 |
| Groups.ToString | src/main/java/ua/foxminded/springbootjdbcapi/model/Group.java:33-39 | definition: `toString` renders id and group name inside quotes; `Groups.ToStringSample` and `Groups.ToStringInjective` state what it gives |
| Groups.ToStringSample | src/main/java/ua/foxminded/springbootjdbcapi/model/Group.java:33-39 | the exact rendering of a sample group |
| Groups.ToStringInjective | src/main/java/ua/foxminded/springbootjdbcapi/model/Group.java:33-39 | two groups with the same rendering are equal, when neither id holds an apostrophe |
| Courses.NewCourse | src/main/java/ua/foxminded/springbootjdbcapi/model/Course.java:45-49 | the course keeps the given id, name and description |
| Courses.NewNamedCourse | src/main/java/ua/foxminded/springbootjdbcapi/model/Course.java:51-53 | the course keeps name and description; its id is the supplied UUID |
| Courses.Equals | src/main/java/ua/foxminded/springbootjdbcapi/model/Course.java:55-61 | definition: `equals` compares id, name and description; what that means is `Courses.EqualsIsValueEquality` |
| Courses.EqualsIsValueEquality | src/main/java/ua/foxminded/springbootjdbcapi/model/Course.java:55-61 | `equals` holds exactly when id, name and description agree |
| Courses.HashCode | src/main/java/ua/foxminded/springbootjdbcapi/model/Course.java:63-66 | `Objects.hash(id, name, description)` lies in the Java `int` range |
| Courses.HashCodeAgreesWithEquals | src/main/java/ua/foxminded/springbootjdbcapi/model/Course.java:63-66 | equal courses have equal hash codes |
| Courses.ToString | src/main/java/ua/foxminded/springbootjdbcapi/model/Course.java:68-75 | definition: `toString` renders the three fields inside quotes; `Courses.ToStringInjective` states what it identifies |
| Courses.ToStringInjective | src/main/java/ua/foxminded/springbootjdbcapi/model/Course.java:68-75 | two courses with the same rendering are equal, when no id or name holds an apostrophe |
| Store.Enrol | src/main/java/ua/foxminded/springbootjdbcapi/dao/implementation/StudentCoursesImpl.java:26 | the student is appended to that course's list; afterwards it is enrolled; no other list changes |
| Store.Enrolled | src/main/java/ua/foxminded/springbootjdbcapi/dao/implementation/StudentCoursesImpl.java:47-52 | definition: `course.getStudents().contains(student)` on the join table; used by every enrolment contract |
| Store.Withdraw | src/main/java/ua/foxminded/springbootjdbcapi/dao/implementation/StudentCoursesImpl.java:39 | `List.remove(Object)` on that course's list: the list becomes `Seqs.RemoveFirst` of the old one, so exactly one entry of the student leaves; no other list changes |
| Store.WithdrawUndoesEnrol | src/main/java/ua/foxminded/springbootjdbcapi/dao/implementation/StudentCoursesImpl.java:21-44 | adding a student who was not on a course and removing it again restores the join table |
| Store.DropStudent | src/main/java/ua/foxminded/springbootjdbcapi/dao/implementation/StudentDaoImpl.java:22-30 | every list loses all entries of the deleted student; a pair stays enrolled iff it was and is another student |
| Store.DropAfterWithdraw | src/main/java/ua/foxminded/springbootjdbcapi/service/StudentService.java:109-113 | removing the student from a course before deleting it gives the same join table as deleting it outright |
| Store.CoursesOf | src/main/java/ua/foxminded/springbootjdbcapi/model/Course.java:37-43 | definition: `student.getCourses()` as the set of courses whose list holds the student; its behaviour under the join-table operations is the four `CoursesOf…` lemmas |
| Store.CoursesOfEnrol | src/main/java/ua/foxminded/springbootjdbcapi/dao/implementation/StudentCoursesImpl.java:21-31 | adding the student to a course adds exactly that course to the student's courses |
| Store.CoursesOfEnrolOther | src/main/java/ua/foxminded/springbootjdbcapi/dao/implementation/StudentCoursesImpl.java:21-31 | adding one student to a course leaves every other student's courses as they were |
| Store.CoursesOfWithdraw | src/main/java/ua/foxminded/springbootjdbcapi/dao/implementation/StudentCoursesImpl.java:34-44 | removing a student listed once on a course takes exactly that course out of its courses |
| Store.CoursesOfDrop | src/main/java/ua/foxminded/springbootjdbcapi/dao/implementation/StudentDaoImpl.java:22-30 | after a student's join rows are dropped it has no courses |
| Store.EmptyRosters | src/main/java/ua/foxminded/springbootjdbcapi/dao/implementation/StudentDaoImpl.java:47-54 | every course keeps its entry and nobody is enrolled anywhere |
| Store.Members | src/main/java/ua/foxminded/springbootjdbcapi/model/Group.java:30-31 | definition: `group.getStudents()` as the set of stored students referring to the group; `Store.MembersDisjoint` and `Store.MembersCover` state how the sets partition the grouped students |
| Store.MembersDisjoint | src/main/java/ua/foxminded/springbootjdbcapi/model/Group.java:30-31 | two different groups have no member in common |
| Store.MembersCover | src/main/java/ua/foxminded/springbootjdbcapi/model/Group.java:30-31 | a grouped student is a member of its own group and of no other |
| Store.Ungroup | src/main/java/ua/foxminded/springbootjdbcapi/dao/implementation/GroupDaoImpl.java:24-32 | members of the deleted group lose their reference, others are unchanged; the group has no members left |
| Store.UngroupAll | src/main/java/ua/foxminded/springbootjdbcapi/dao/implementation/StudentCoursesImpl.java:66 | every student loses its group reference and nothing else changes |
| Store.RemoveGroupConsistent | src/main/java/ua/foxminded/springbootjdbcapi/dao/implementation/GroupDaoImpl.java:24-32 | deleting a group and ungrouping its members keeps referential integrity |
| Store.WithdrawConsistent | src/main/java/ua/foxminded/springbootjdbcapi/dao/implementation/StudentCoursesImpl.java:34-44 | removing an entry from a course's list keeps referential integrity |
| Store.School.PutGroup | src/main/java/ua/foxminded/springbootjdbcapi/dao/implementation/GroupDaoImpl.java:69-75 | insert or overwrite a group row; the other tables unchanged; integrity kept |
| Store.School.PutStudent | src/main/java/ua/foxminded/springbootjdbcapi/dao/implementation/StudentDaoImpl.java:69-76 | insert or overwrite a student row whose group exists; the other tables unchanged |
| Store.School.PutCourse | src/main/java/ua/foxminded/springbootjdbcapi/dao/implementation/CourseDaoImpl.java:64-71 | insert or overwrite a course row; a new course starts with an empty list |
| Store.School.MergeCourse | src/main/java/ua/foxminded/springbootjdbcapi/dao/implementation/CourseDaoImpl.java:31-38 | `merge` of a course whose `students` list is null: the row is inserted or overwritten and that course's list becomes empty; the other tables unchanged; integrity kept |
| Store.School.RemoveGroup | src/main/java/ua/foxminded/springbootjdbcapi/dao/implementation/GroupDaoImpl.java:24-32 | the group row goes and its members are ungrouped |
| Store.School.RemoveStudent | src/main/java/ua/foxminded/springbootjdbcapi/dao/implementation/StudentDaoImpl.java:22-30 | the student row goes together with its join rows |
| Store.School.RemoveCourse | src/main/java/ua/foxminded/springbootjdbcapi/dao/implementation/CourseDaoImpl.java:22-27 | the course row goes together with its join rows |
| Store.School.ClearGroups | src/main/java/ua/foxminded/springbootjdbcapi/dao/implementation/StudentCoursesImpl.java:66-67 | no group is left and no student keeps a group |
| Store.School.ClearStudents | src/main/java/ua/foxminded/springbootjdbcapi/dao/implementation/StudentCoursesImpl.java:68 | no student is left and every course's list is empty |
| Store.School.ClearCourses | src/main/java/ua/foxminded/springbootjdbcapi/dao/implementation/StudentCoursesImpl.java:69 | no course and no join row is left |
| Store.School.EnrolStudent | src/main/java/ua/foxminded/springbootjdbcapi/dao/implementation/StudentCoursesImpl.java:26 | the join table becomes `Enrol` of the old one; entity tables unchanged |
| Store.School.WithdrawStudent | src/main/java/ua/foxminded/springbootjdbcapi/dao/implementation/StudentCoursesImpl.java:39 | the join table becomes `Withdraw` of the old one; entity tables unchanged |
| Store.School.ClearRoster | src/main/java/ua/foxminded/springbootjdbcapi/service/StudentService.java:71-74 | one course's list becomes empty; everything else unchanged |
| Store.School.RestoreRoster | src/main/java/ua/foxminded/springbootjdbcapi/service/SchoolService.java:48-50 | a rolled-back transaction puts back the join table it started from |
| Tables.PutAllFresh | src/main/java/ua/foxminded/springbootjdbcapi/service/GenerateService.java:61-70 | a run of saves of fresh, distinct ids adds exactly those ids, at the end of the listing, and keeps every earlier row |
| Tables.Get | src/main/java/ua/foxminded/springbootjdbcapi/dao/implementation/GroupDaoImpl.java:63-65 | `em.find`: present exactly for a stored key, and then that key's row |
| Tables.Put | src/main/java/ua/foxminded/springbootjdbcapi/dao/implementation/GroupDaoImpl.java:69-75 | `persist`/`merge`: the rows gain or overwrite that key; a new key goes to the end of the listing, an old one keeps its place; the table stays well formed |
| Tables.Delete | src/main/java/ua/foxminded/springbootjdbcapi/dao/implementation/GroupDaoImpl.java:24-32 | `em.remove`: the key leaves the rows and the listing, the other keys keep their order |
| Tables.Values | src/main/java/ua/foxminded/springbootjdbcapi/dao/implementation/GroupDaoImpl.java:57-60 | a whole-entity query: one row per listed key, in listing order |
| Seqs.RemoveFirst | src/main/java/ua/foxminded/springbootjdbcapi/dao/implementation/StudentCoursesImpl.java:39 | `List.remove(Object)`: one copy of the element leaves (none when absent, and then the list is unchanged); `Seqs.RemoveFirstSplits` states which copy and that the order is kept |
| Seqs.RemoveFirstSplits | src/main/java/ua/foxminded/springbootjdbcapi/dao/implementation/StudentCoursesImpl.java:39 | the first occurrence is the one removed: the result is the list before it followed by the list after it, in order |
| StudentCoursesImpl.AddStudentToCourse | src/main/java/ua/foxminded/springbootjdbcapi/dao/implementation/StudentCoursesImpl.java:21-31 | both rows must exist; the student is appended to the course's list and `true` returned |
| StudentCoursesImpl.RemoveStudentFromCourse | src/main/java/ua/foxminded/springbootjdbcapi/dao/implementation/StudentCoursesImpl.java:34-44 | the course must exist; one entry of the student leaves its list and `true` returned |
| StudentCoursesImpl.StudentEnrolledOnCourse | src/main/java/ua/foxminded/springbootjdbcapi/dao/implementation/StudentCoursesImpl.java:47-52 | true exactly when the course's list holds the student |
| StudentCoursesImpl.DeleteAll | src/main/java/ua/foxminded/springbootjdbcapi/dao/implementation/StudentCoursesImpl.java:56-75 | without a store failure every table ends empty and `true` is returned; with one nothing changes and `false` is returned |
| StudentCoursesImpl.ClearCourseLists | src/main/java/ua/foxminded/springbootjdbcapi/dao/implementation/StudentCoursesImpl.java:58-60 | clearing the list of every course empties the whole join table and changes nothing else |
| StudentDaoImpl.DeleteById | src/main/java/ua/foxminded/springbootjdbcapi/dao/implementation/StudentDaoImpl.java:22-30 | `true` exactly for a stored id; then the row and its join rows are gone; otherwise nothing changes |
| StudentDaoImpl.Update | src/main/java/ua/foxminded/springbootjdbcapi/dao/implementation/StudentDaoImpl.java:34-43 | `true` exactly when the row exists, its group exists and the store accepts the merge; then the row is replaced |
| StudentDaoImpl.DeleteAll | src/main/java/ua/foxminded/springbootjdbcapi/dao/implementation/StudentDaoImpl.java:47-54 | without a fault no student is left and every list is empty; `false` and no change on a fault |
| StudentDaoImpl.GetAll | src/main/java/ua/foxminded/springbootjdbcapi/dao/implementation/StudentDaoImpl.java:57-60 | one entry per stored student and exactly the stored students |
| StudentDaoImpl.GetById | src/main/java/ua/foxminded/springbootjdbcapi/dao/implementation/StudentDaoImpl.java:63-65 | present exactly for a stored id, and then that id's row |
| StudentDaoImpl.Save | src/main/java/ua/foxminded/springbootjdbcapi/dao/implementation/StudentDaoImpl.java:69-76 | `true` unless the store rejects it (or the group is missing); then the row is stored under its id |
| StudentDaoImpl.ExistsById | src/main/java/ua/foxminded/springbootjdbcapi/dao/implementation/StudentDaoImpl.java:79-81 | agrees with `getById` being present |
| StudentDaoImpl.GetAllIds | src/main/java/ua/foxminded/springbootjdbcapi/dao/implementation/StudentDaoImpl.java:84-87 | the ids of `getAll`, position by position, with no repeats |
| StudentDaoImpl.JoinRowCount | src/main/java/ua/foxminded/springbootjdbcapi/dao/implementation/StudentDaoImpl.java:92-96 | positive exactly when some course of that name lists the student |
| StudentDaoImpl.JoinByCourseName | src/main/java/ua/foxminded/springbootjdbcapi/dao/implementation/StudentDaoImpl.java:92-96 | a student appears in the join exactly when one of its join rows names a course with that name |
| StudentDaoImpl.FindAllStudentsByCourseName | src/main/java/ua/foxminded/springbootjdbcapi/dao/implementation/StudentDaoImpl.java:91-101 | a student is in the result exactly when it is enrolled on a course with that name |
| GroupDaoImpl.DeleteById | src/main/java/ua/foxminded/springbootjdbcapi/dao/implementation/GroupDaoImpl.java:24-32 | the group must exist; without a fault it goes and its members are ungrouped; `false` and no change on a fault |
| GroupDaoImpl.Update | src/main/java/ua/foxminded/springbootjdbcapi/dao/implementation/GroupDaoImpl.java:36-43 | without a fault the row is stored under its id; `false` and no change on a fault |
| GroupDaoImpl.DeleteAll | src/main/java/ua/foxminded/springbootjdbcapi/dao/implementation/GroupDaoImpl.java:47-54 | without a fault no group is left and every student is ungrouped; `false` and no change on a fault |
| GroupDaoImpl.GetAll | src/main/java/ua/foxminded/springbootjdbcapi/dao/implementation/GroupDaoImpl.java:57-60 | one entry per stored group and exactly the stored groups |
| GroupDaoImpl.GetById | src/main/java/ua/foxminded/springbootjdbcapi/dao/implementation/GroupDaoImpl.java:63-65 | present exactly for a stored id, and then that id's row |
| GroupDaoImpl.Save | src/main/java/ua/foxminded/springbootjdbcapi/dao/implementation/GroupDaoImpl.java:69-75 | the row is stored under its id and `true` returned |
| GroupDaoImpl.ExistsById | src/main/java/ua/foxminded/springbootjdbcapi/dao/implementation/GroupDaoImpl.java:78-80 | agrees with `getById` being present |
| GroupDaoImpl.AtMostMembers | src/main/java/ua/foxminded/springbootjdbcapi/dao/implementation/GroupDaoImpl.java:86-96 | a group is kept exactly when it has at most `n` members; no longer than its input |
| GroupDaoImpl.AtMostMembersKeepsOrder | src/main/java/ua/foxminded/springbootjdbcapi/dao/implementation/GroupDaoImpl.java:86-96 | the kept groups are a subsequence of the listing, in listing order |
| GroupDaoImpl.FindAllGroupsWithLessOrEqualStudentsNumber | src/main/java/ua/foxminded/springbootjdbcapi/dao/implementation/GroupDaoImpl.java:84-97 | a group is in the result exactly when it is stored and has at most `studentNumber` members |
| GroupDaoImpl.GetAllIds | src/main/java/ua/foxminded/springbootjdbcapi/dao/implementation/GroupDaoImpl.java:100-103 | the ids of `getAll`, position by position, with no repeats |
| CourseDaoImpl.DeleteById | src/main/java/ua/foxminded/springbootjdbcapi/dao/implementation/CourseDaoImpl.java:22-27 | the course must exist; its row and its join rows go and `true` is returned |
| CourseDaoImpl.Update | src/main/java/ua/foxminded/springbootjdbcapi/dao/implementation/CourseDaoImpl.java:31-38 | without a fault the row is stored under its id and the course is left with no join rows (a merged course's list is null); `false` and no change on a fault |
| CourseDaoImpl.DeleteAll | src/main/java/ua/foxminded/springbootjdbcapi/dao/implementation/CourseDaoImpl.java:42-49 | without a fault no course and no join row is left; `false` and no change on a fault |
| CourseDaoImpl.GetAll | src/main/java/ua/foxminded/springbootjdbcapi/dao/implementation/CourseDaoImpl.java:52-55 | one entry per stored course and exactly the stored courses |
| CourseDaoImpl.GetById | src/main/java/ua/foxminded/springbootjdbcapi/dao/implementation/CourseDaoImpl.java:58-60 | present exactly for a stored id, and then that id's row |
| CourseDaoImpl.Save | src/main/java/ua/foxminded/springbootjdbcapi/dao/implementation/CourseDaoImpl.java:64-71 | without a fault the row is stored under its id (a new course gets an empty list); `false` and no change on a fault |
| CourseDaoImpl.ExistsById | src/main/java/ua/foxminded/springbootjdbcapi/dao/implementation/CourseDaoImpl.java:74-76 | agrees with `getById` being present |
| CourseDaoImpl.GetAllIds | src/main/java/ua/foxminded/springbootjdbcapi/dao/implementation/CourseDaoImpl.java:79-82 | the ids of `getAll`, position by position, with no repeats |
| SchoolService.StudentEnrolledOnCourse | src/main/java/ua/foxminded/springbootjdbcapi/service/SchoolService.java:87-98 | `NotFound` for a missing student, then for a missing course; otherwise whether the course's list holds the student |
| SchoolService.AddStudentToCourse | src/main/java/ua/foxminded/springbootjdbcapi/service/SchoolService.java:25-53 | `NotFound` for a missing student or course, `InvalidArgument` if already enrolled, else enrolled, its courses gain exactly that course, and `true`; no change on an error |
| SchoolService.RemoveStudentFromCourse | src/main/java/ua/foxminded/springbootjdbcapi/service/SchoolService.java:55-84 | `NotFound`, `InvalidArgument` if not enrolled, `IllegalState` (rolled back) when the list holds the student twice, else no longer enrolled, its courses lose exactly that course, and `true` |
| SchoolService.DeleteAll | src/main/java/ua/foxminded/springbootjdbcapi/service/SchoolService.java:100-108 | no student, no course and no join row is left; groups unchanged |
| StudentService.GetAllIds | src/main/java/ua/foxminded/springbootjdbcapi/service/StudentService.java:141-143 | the ids of the listing, position by position: exactly the stored ids, no repeats |
| StudentService.SaveStudentWithOwnId | src/main/java/ua/foxminded/springbootjdbcapi/service/StudentService.java:30-37 | `IllegalState` for an id already stored; `StoreError` and no change when the group does not exist; otherwise the row is inserted and `true` |
| StudentService.Save | src/main/java/ua/foxminded/springbootjdbcapi/service/StudentService.java:39-49 | `StoreError` and no change when the group does not exist; otherwise the row is stored under its id, can be fetched back, and `true` |
| StudentService.DeleteAll | src/main/java/ua/foxminded/springbootjdbcapi/service/StudentService.java:51-84 | `NotFound` when there are no students; otherwise no student is left and every course's list is empty |
| StudentService.SaveGroupsBack | src/main/java/ua/foxminded/springbootjdbcapi/service/StudentService.java:61-64 | saving each group back changes nothing in the store |
| StudentService.UngroupEach | src/main/java/ua/foxminded/springbootjdbcapi/service/StudentService.java:66-69 | after the loop every student has lost its group and nothing else changed |
| StudentService.ClearEachRoster | src/main/java/ua/foxminded/springbootjdbcapi/service/StudentService.java:71-74 | merging each course with a null list: afterwards every course's list is empty and nothing else changed |
| StudentService.Update | src/main/java/ua/foxminded/springbootjdbcapi/service/StudentService.java:86-100 | `NotFound` for an unknown id, `StoreError` and no change when the group does not exist, otherwise the row is replaced and can be fetched back |
| StudentService.DeleteById | src/main/java/ua/foxminded/springbootjdbcapi/service/StudentService.java:102-119 | `true` exactly for a stored id; then the row and all its join rows are gone; otherwise no change |
| StudentService.ExistsById | src/main/java/ua/foxminded/springbootjdbcapi/service/StudentService.java:121-123 | agrees with `getById` succeeding |
| StudentService.GetAllStudents | src/main/java/ua/foxminded/springbootjdbcapi/service/StudentService.java:125-131 | `NotFound` exactly when there are no students; otherwise exactly the stored students |
| StudentService.GetById | src/main/java/ua/foxminded/springbootjdbcapi/service/StudentService.java:133-139 | the row exactly for a stored id, `NotFound` otherwise |
| StudentService.HasCourseNamed | src/main/java/ua/foxminded/springbootjdbcapi/service/StudentService.java:145-156 | definition: some course with exactly that name lists the student; `StudentService.FilterMatchesJoin` ties it to the gateway's join |
| StudentService.HavingCourseNamed | src/main/java/ua/foxminded/springbootjdbcapi/service/StudentService.java:145-156 | a student is kept exactly when it is enrolled on a course with that name |
| StudentService.HavingCourseNamedDistinct | src/main/java/ua/foxminded/springbootjdbcapi/service/StudentService.java:145-156 | filtering a list without repeats gives a list without repeats |
| StudentService.StudentsListedOnce | src/main/java/ua/foxminded/springbootjdbcapi/service/StudentService.java:145-156 | a student table keyed by id lists each student once |
| StudentService.FindAllStudentsByCourseName | src/main/java/ua/foxminded/springbootjdbcapi/service/StudentService.java:145-156 | `NotFound` exactly when no stored student is enrolled on such a course; otherwise exactly those students, each once |
| StudentService.FilterMatchesJoin | src/main/java/ua/foxminded/springbootjdbcapi/service/StudentService.java:145-156 | the service's answer holds the same students as the gateway's join, and fails exactly when the join is empty |
| GroupService.Save | src/main/java/ua/foxminded/springbootjdbcapi/service/GroupService.java:24-33 | the row is stored under its id, can be fetched back, and `true` |
| GroupService.DeleteAll | src/main/java/ua/foxminded/springbootjdbcapi/service/GroupService.java:35-43 | `IllegalState` and no change on a store fault; otherwise no group is left and students are ungrouped |
| GroupService.Update | src/main/java/ua/foxminded/springbootjdbcapi/service/GroupService.java:45-56 | `NotFound` for an unknown id, `IllegalState` on a fault, otherwise the row is replaced |
| GroupService.DeleteById | src/main/java/ua/foxminded/springbootjdbcapi/service/GroupService.java:59-70 | `NotFound` for an unknown id, `IllegalState` on a fault, otherwise the group is gone and its members ungrouped |
| GroupService.ExistsById | src/main/java/ua/foxminded/springbootjdbcapi/service/GroupService.java:72-74 | agrees with `getById` succeeding |
| GroupService.GetAllGroups | src/main/java/ua/foxminded/springbootjdbcapi/service/GroupService.java:76-84 | `NotFound` exactly when there are no groups; otherwise the gateway's listing |
| GroupService.GetById | src/main/java/ua/foxminded/springbootjdbcapi/service/GroupService.java:86-94 | the row exactly for a stored id, `NotFound` otherwise |
| GroupService.FindAllGroupsWithLessOrEqualsStudentCount | src/main/java/ua/foxminded/springbootjdbcapi/service/GroupService.java:96-107 | `InvalidArgument` for a negative count, `NotFound` for an empty answer, otherwise the groups with at most that many members |
| GroupService.ThresholdOfTwo | src/test/java/ua/foxminded/springbootjdbcapi/service/GroupServiceImplTest.java:141-151 | on the seeded groups and students, the groups with at most two members are exactly `Group("2", "Group B")` |
| GroupService.SeededStoreThresholdOfTwo | src/main/java/ua/foxminded/springbootjdbcapi/service/GroupService.java:96-107 | a store holding the seeded groups and students answers `findAllGroupsWithLessOrEqualsStudentCount(2)` with `Group("2", "Group B")` alone |
| CourseService.Save | src/main/java/ua/foxminded/springbootjdbcapi/service/CourseService.java:23-33 | the row is stored under its id, can be fetched back, the course is left with no join rows (a merged course's list is null), and `true` |
| CourseService.DeleteAll | src/main/java/ua/foxminded/springbootjdbcapi/service/CourseService.java:35-40 | no course and no join row is left; the listing then fails with `NotFound` |
| CourseService.Update | src/main/java/ua/foxminded/springbootjdbcapi/service/CourseService.java:42-53 | `NotFound` and no change for an unknown id, otherwise the row is replaced, can be fetched back, and the course is left with no join rows |
| CourseService.DeleteById | src/main/java/ua/foxminded/springbootjdbcapi/service/CourseService.java:55-72 | `true` exactly for a stored id; then the course and its join rows are gone; otherwise no change |
| CourseService.ExistsById | src/main/java/ua/foxminded/springbootjdbcapi/service/CourseService.java:74-76 | agrees with `getById` succeeding |
| CourseService.GetAllCourses | src/main/java/ua/foxminded/springbootjdbcapi/service/CourseService.java:78-84 | `NotFound` exactly when there are no courses; otherwise exactly the stored courses |
| CourseService.GetById | src/main/java/ua/foxminded/springbootjdbcapi/service/CourseService.java:86-92 | the row exactly for a stored id, `NotFound` otherwise |
| CourseService.Ids | src/main/java/ua/foxminded/springbootjdbcapi/service/CourseService.java:94-96 | `map(Course::getId)`: the i-th id is the i-th course's id |
| CourseService.GetAllIds | src/main/java/ua/foxminded/springbootjdbcapi/service/CourseService.java:94-96 | the ids of the listing: exactly the stored ids, no repeats |
| CourseService.SeededIds | src/test/java/ua/foxminded/springbootjdbcapi/service/CourseServiceImplTest.java:185-198 | after seeding courses "1", "2", "3" the id listing is `["1", "2", "3"]` |
| CourseService.SeededStoreIds | src/main/java/ua/foxminded/springbootjdbcapi/service/CourseService.java:94-96 | a store whose course table is those three saves answers `getAllIds` with `["1", "2", "3"]` |
| GenerateService.DeleteAll | src/main/java/ua/foxminded/springbootjdbcapi/service/GenerateService.java:34-37 | the effect of the two gateway calls for each combination of their store faults |
| GenerateService.NameFromDraws | src/main/java/ua/foxminded/springbootjdbcapi/service/GenerateService.java:40-59 | the five-character name given by four draws: two letters, a hyphen, two digits |
| GenerateService.NameHasFormat | src/main/java/ua/foxminded/springbootjdbcapi/service/GenerateService.java:40-59 | every generated name is two capital letters, a hyphen and two digits |
| GenerateService.FormatIsGenerated | src/main/java/ua/foxminded/springbootjdbcapi/service/GenerateService.java:40-59 | every string of that format is generated by some draws |
| GenerateService.NameInjective | src/main/java/ua/foxminded/springbootjdbcapi/service/GenerateService.java:40-59 | different draws give different names |
| GenerateService.GenerateRandomName | src/main/java/ua/foxminded/springbootjdbcapi/service/GenerateService.java:40-59 | the loop builds the name the draws determine |
| GenerateService.NewGroups | src/main/java/ua/foxminded/springbootjdbcapi/service/GenerateService.java:61-70 | the i-th group is named from the i-th draws and identified by the i-th UUID |
| GenerateService.GenerateGroups | src/main/java/ua/foxminded/springbootjdbcapi/service/GenerateService.java:61-70 | the ten groups, named from the draws and identified by the UUIDs, are saved in turn |
| GenerateService.GeneratedGroups | src/main/java/ua/foxminded/springbootjdbcapi/service/GenerateService.java:61-70 | with fresh distinct UUIDs, ten new groups appear, each with a well-formed name |
| GenerateService.NewCourses | src/main/java/ua/foxminded/springbootjdbcapi/service/GenerateService.java:72-77 | the i-th course has the i-th name and description name + "Basics" |
| GenerateService.FirstFault | src/main/java/ua/foxminded/springbootjdbcapi/service/GenerateService.java:76-82 | the index of the first rejected save, or the count when none is rejected |
| GenerateService.GenerateCourses | src/main/java/ua/foxminded/springbootjdbcapi/service/GenerateService.java:72-83 | the courses before the first rejected save are saved; that rejection gives `IllegalState` |
| GenerateService.NewStudents | src/main/java/ua/foxminded/springbootjdbcapi/service/GenerateService.java:96-106 | the i-th student gets the i-th UUID, the drawn group and the drawn names |
| GenerateService.GenerateStudents | src/main/java/ua/foxminded/springbootjdbcapi/service/GenerateService.java:85-111 | `InvalidArgument` with no group; otherwise the students before the first rejected save are saved, `IllegalState` on that rejection |
| GenerateService.GeneratedStudentsWellFormed | src/main/java/ua/foxminded/springbootjdbcapi/service/GenerateService.java:96-106 | every generated student has a stored group and names from the two lists |
| GenerateService.Pick | src/main/java/ua/foxminded/springbootjdbcapi/service/GenerateService.java:118-126 | definition: one to three draws (`nextInt(3) + 1`), the j-th an index into the courses not yet assigned |
| GenerateService.Choose | src/main/java/ua/foxminded/springbootjdbcapi/service/GenerateService.java:121-126 | at most one course per draw, each from the remaining ones |
| GenerateService.ChooseLength | src/main/java/ua/foxminded/springbootjdbcapi/service/GenerateService.java:121-126 | with every draw in range, one course per draw |
| GenerateService.ChooseDistinct | src/main/java/ua/foxminded/springbootjdbcapi/service/GenerateService.java:118-126 | no course is assigned to a student twice |
| GenerateService.EnrolAll | src/main/java/ua/foxminded/springbootjdbcapi/service/GenerateService.java:128 | a run of `addStudentToCourse` calls; every course keeps its entry in the join table |
| GenerateService.EnrolAllEnrolled | src/main/java/ua/foxminded/springbootjdbcapi/service/GenerateService.java:128 | after a run of enrolments a pair is enrolled iff it was or the run names it on a stored course |
| GenerateService.PlanUpTo | src/main/java/ua/foxminded/springbootjdbcapi/service/GenerateService.java:117-134 | definition: the enrolments of the first `n` students, in order |
| GenerateService.Plan | src/main/java/ua/foxminded/springbootjdbcapi/service/GenerateService.java:117-134 | definition: every enrolment of the outer loop, in order; `GenerateService.PlanPairsOf` states which pairs it holds |
| GenerateService.PlanPairsOf | src/main/java/ua/foxminded/springbootjdbcapi/service/GenerateService.java:117-134 | the plan enrols a student on a course exactly when that student's draws chose it |
| GenerateService.AssignedCourses | src/main/java/ua/foxminded/springbootjdbcapi/service/GenerateService.java:117-134 | each student is newly enrolled on exactly the chosen courses: between one and three distinct existing courses |
| GenerateService.EnrolPicked | src/main/java/ua/foxminded/springbootjdbcapi/service/GenerateService.java:121-133 | one student's inner loop enrols the student on the chosen courses, in order |
| GenerateService.EnrolPlan | src/main/java/ua/foxminded/springbootjdbcapi/service/GenerateService.java:117-134 | the outer loop makes exactly the planned enrolments |
| GenerateService.AssignStudentsToCourses | src/main/java/ua/foxminded/springbootjdbcapi/service/GenerateService.java:113-135 | with no course, `InvalidArgument` if there are students; otherwise the join table gains exactly the planned enrolments |

## Left out

- **Transactions and flushing.** A failed post-check in an `@Transactional` service method rolls the transaction back; the model returns the error with the store as it was (`Store.School.RestoreRoster` restores the join table). Commit timing, flushes and the persistence context's caching are not modelled.
- **Store faults.** A `PersistenceException` the gateways catch is a `fault` flag, and the rejected statement changes nothing. Which statement of a multi-statement `deleteAll` fails, and what a provider leaves behind, is not modelled.
- **Schema rules.** The schema's `ON DELETE` rules belong to the database and are not part of the model. The model takes it that:
  - deleting a student or course row removes its join rows;
  - deleting a group clears its members' group references.
- **Upsert.** JPA `persist`, `merge` and the repositories' `save` are all insert-or-overwrite of the entity row. A `persist` of an existing id (an `EntityExistsException`) is not modelled.
- **`CascadeType.REMOVE` on `Course.students`.** Deleting a course would also remove its students through this cascade. The model deletes only the course row and its join rows.
- **Null references.** Null fields, null arguments and null list entries are left out. Where the gateway dereferences a missing row, the model makes the row's existence a precondition:
  - `CourseDaoImpl.deleteById`;
  - `GroupDaoImpl.deleteById`;
  - the `StudentCoursesImpl` operations.
- CourseDaoImpl.Update, CourseService.Save, CourseService.Update, StudentService.ClearEachRoster: the course passed in is taken to carry a null `students` list, as every course built by the `Course` constructors does (and as `course.setStudents(null)` makes it in `StudentService.java:71-74`). A `merge` of such a course empties its join rows, because `Course.students` is the owning side. A course argument that carries a non-null list, and the `CascadeType.MERGE` onto the students in it, are not modelled. `CourseDaoImpl.save` is a `persist`, which keeps the join rows of a course already stored.
- StudentService.SaveStudentWithOwnId, StudentService.Save, StudentService.Update: a student whose group is not stored violates the foreign key, and the service lets that persistence exception escape. The model returns `Err(StoreError)` with no change instead of raising it.
- **`LIKE`.** The pattern match in `findAllStudentsByCourseName` is modelled as string equality: a name without `%` or `_`.
- **Hashing.** `String.hashCode` is computed over the characters as Dafny holds them. That equals Java's UTF-16 code units for text in the Basic Multilingual Plane.
- **Inputs instead of effects.** `Random` and `UUID.randomUUID()` are inputs:
  - each draw is a number below the bound passed to `nextInt`;
  - each UUID is a string given in advance.
- **The course draw.** The rejection loop that redraws an already-assigned course (`GenerateService.java:123-125`) is replaced by an index into the courses not yet assigned to that student. The distribution of draws is not modelled.
- **Fewer than three courses.** `GenerateService.Pick` requires each draw to fit in the remaining courses, so the case where the redraw loop can never end is outside the model.
- **Empty lists in the generator.**
  - `GenerateService.GenerateStudents` checks for an empty group list before its loop. The Java throws in the first iteration, before any save, so nothing has changed when the error comes.
  - `GenerateService.AssignStudentsToCourses` does the same for an empty course list.
- **Dead checks.** The `wasSaved` / `wasAdded` checks in `GenerateService` are modelled as dead branches wherever the called gateway cannot report `false`.
- **Inverse sides.** The inverse lists `Group.students` and `Student.courses` are derived from the owning side, not stored. `student.getCourses().add/remove` in `SchoolService` has no separate effect.
- **`HashSet` of assigned courses.** This set in `assignStudentsToCourses` is implicit in the remaining-course list.
- CourseService.DeleteById: states only the checked outcome. Removing from `course.getStudents()` while iterating it, as `CourseService.java:62-64` does, raises `ConcurrentModificationException` for lists of one student or of three or more; that failure is not modelled.
- SchoolService.DeleteAll: the Java method is `void`; its `IllegalStateException` post-check can never fire, so the model has no result.
- **Stale code.** `model/Student.java` (a stale record), the row mappers and the `Dao`/`DAO`/`*DAO` interfaces are not part of this model. The `Student` entity is modelled from its use in the gateways and services: an id, a group reference and two names.
- **Application entry point.** `SchoolApplication` (the console menu) is not part of this model.
