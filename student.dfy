/** The `Student` entity as the services use it. */
module Students {
  import opened Wrappers

  /**
   * A student row: its id, the id of its group (the `group` reference, or no
   * group), and its names. The student's `courses` list is the inverse side
   * of `Course.students`; the store derives it from the course rosters.
   */
  datatype Student = Student(id: string, groupId: Option<string>, firstName: string, lastName: string)
}
