/** The `Course` entity: an identity, a name and a description. */
module Courses {
  import opened JavaText

  /**
   * The persistent fields compared by `Course.equals`. The entity's
   * `students` list (the owning side of the enrolment join table) is kept by
   * the store, course by course, not in this value.
   */
  datatype Course = Course(id: string, name: string, description: string)

  /** `new Course(id, name, description)` keeps all three arguments as given. */
  function NewCourse(id: string, name: string, description: string): (c: Course)
    ensures c.id == id && c.name == name && c.description == description
  {
    Course(id, name, description)
  }

  /** `new Course(name, description)`: the id is a freshly generated UUID string, passed in as `uuid`. */
  function NewNamedCourse(name: string, description: string, uuid: string): (c: Course)
    ensures c.name == name && c.description == description && c == NewCourse(uuid, name, description)
  {
    NewCourse(uuid, name, description)
  }

  /** `Course.equals`: same id, name and description. */
  predicate Equals(a: Course, b: Course) {
    a.id == b.id && a.name == b.name && a.description == b.description
  }

  /** `equals` is exactly value equality of the three compared fields. */
  lemma EqualsIsValueEquality(a: Course, b: Course)
    ensures Equals(a, b) <==> a == b
  {
  }

  /** `Course.hashCode()`, that is `Objects.hash(id, name, description)`, as a Java `int`. */
  function HashCode(c: Course): (h: int)
    ensures -TwoTo31 <= h < TwoTo31
  {
    ToInt32(ObjectsHashBits([StringHashBits(c.id), StringHashBits(c.name), StringHashBits(c.description)]))
  }

  /** Equal courses hash equally. */
  lemma HashCodeAgreesWithEquals(a: Course, b: Course)
    requires Equals(a, b)
    ensures HashCode(a) == HashCode(b)
  {
  }

  /** `Course.toString()`. */
  function ToString(c: Course): string {
    "Course{id='" + (c.id + ("', name='" + (c.name + ("', description='" + (c.description + "'}")))))
  }

  /** The rendering identifies the course whenever id and name hold no apostrophe. */
  lemma ToStringInjective(a: Course, b: Course)
    requires '\'' !in a.id && '\'' !in b.id && '\'' !in a.name && '\'' !in b.name
    requires ToString(a) == ToString(b)
    ensures a == b
  {
    var p, m1, m2, q := "Course{id='", "', name='", "', description='", "'}";
    var ta, tb := m2 + (a.description + q), m2 + (b.description + q);
    var ra, rb := m1 + (a.name + ta), m1 + (b.name + tb);
    CancelPrefix(p, a.id + ra, b.id + rb);
    SplitAtQuote(a.id, ra, b.id, rb);
    CancelPrefix(m1, a.name + ta, b.name + tb);
    SplitAtQuote(a.name, ta, b.name, tb);
    assert a.description == ta[|m2|..|ta| - |q|];
    assert b.description == tb[|m2|..|tb| - |q|];
  }
}
