/** The `Group` entity: an identity and a display name. */
module Groups {
  import opened JavaText

  /**
   * The persistent fields compared by `Group.equals`. The entity's `students`
   * list is the inverse side of `Student.group` and is not stored here: the
   * store derives it from the students' group references.
   */
  datatype Group = Group(id: string, groupName: string)

  /** `new Group(id, groupName)` keeps both arguments as given. */
  function NewGroup(id: string, groupName: string): (g: Group)
    ensures g.id == id && g.groupName == groupName
  {
    Group(id, groupName)
  }

  /** `new Group(groupName)`: the id is a freshly generated UUID string, passed in as `uuid`. */
  function NewNamedGroup(groupName: string, uuid: string): (g: Group)
    ensures g.groupName == groupName && g == NewGroup(uuid, groupName)
  {
    NewGroup(uuid, groupName)
  }

  /** `Group.equals`: same id and same name. */
  predicate Equals(a: Group, b: Group) {
    a.id == b.id && a.groupName == b.groupName
  }

  /** `equals` is exactly value equality of the two compared fields. */
  lemma EqualsIsValueEquality(a: Group, b: Group)
    ensures Equals(a, b) <==> a == b
  {
  }

  /** `Group.hashCode()`, that is `Objects.hash(id, groupName)`, as a Java `int`. */
  function HashCode(g: Group): (h: int)
    ensures -TwoTo31 <= h < TwoTo31
  {
    ToInt32(ObjectsHashBits([StringHashBits(g.id), StringHashBits(g.groupName)]))
  }

  /** Equal groups hash equally. */
  lemma HashCodeAgreesWithEquals(a: Group, b: Group)
    requires Equals(a, b)
    ensures HashCode(a) == HashCode(b)
  {
  }

  /** `Objects.hash("1", "A")` is 31 * (31 * 1 + 49) + 65. */
  lemma HashCodeSample()
    ensures HashCode(Group("1", "A")) == 2545
  {
    assert StringHashBits("1") == 49 by {
      assert "1"[..0] == [];
    }
    assert StringHashBits("A") == 65 by {
      assert "A"[..0] == [];
    }
    var hs := [49, 65];
    assert hs[..1][..0] == [];
    assert ObjectsHashBits(hs[..1]) == 80;
  }

  /** `Group.toString()`. */
  function ToString(g: Group): string {
    "Group{id='" + (g.id + ("', groupName='" + (g.groupName + "'}")))
  }

  lemma ToStringSample()
    ensures ToString(Group("1", "Group A")) == "Group{id='1', groupName='Group A'}"
  {
  }

  /** The rendering identifies the group whenever the id holds no apostrophe. */
  lemma ToStringInjective(a: Group, b: Group)
    requires '\'' !in a.id && '\'' !in b.id
    requires ToString(a) == ToString(b)
    ensures a == b
  {
    var p, m, q := "Group{id='", "', groupName='", "'}";
    var ra, rb := m + (a.groupName + q), m + (b.groupName + q);
    CancelPrefix(p, a.id + ra, b.id + rb);
    SplitAtQuote(a.id, ra, b.id, rb);
    assert a.groupName == ra[|m|..|ra| - |q|];
    assert b.groupName == rb[|m|..|rb| - |q|];
  }
}
