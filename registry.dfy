/** getPropertyNames: the property names of every project that has this
    publisher, drawn from the whole server. */
module Registry {
  import opened JavaLang
  import opened Configuration

  /** One project of the server, as far as the registry cares: the publisher
      of this kind on its publisher list, if it has one. */
  type Project = Option<Publisher>

  /** The name a project contributes: its publisher's property, if both exist. */
  function NameOf(project: Project): (names: seq<string>)
    ensures |names| <= 1
    ensures names != [] <==> project.Some? && project.value.property.Some?
    ensures names != [] ==> names[0] == project.value.property.value
  {
    if project.Some? && project.value.property.Some? then [project.value.property.value] else []
  }

  /** The registry, projects taken in order and duplicates kept. */
  function RegisteredNames(projects: seq<Project>): seq<string> {
    if projects == [] then []
    else RegisteredNames(projects[..|projects| - 1]) + NameOf(projects[|projects| - 1])
  }

  /** Registering is a homomorphism over project lists: the names of a longer
      list are the names of its parts in order, none dropped or merged. */
  lemma {:induction false} RegisteredNamesAppend(a: seq<Project>, b: seq<Project>)
    ensures RegisteredNames(a + b) == RegisteredNames(a) + RegisteredNames(b)
    decreases |b|
  {
    if b != [] {
      var b' := b[..|b| - 1];
      assert (a + b)[..|a + b| - 1] == a + b';
      RegisteredNamesAppend(a, b');
    } else {
      assert a + b == a;
    }
  }

  /** A name is registered exactly when some project's publisher has it as
      its property. */
  lemma {:induction false} RegisteredNamesMembers(projects: seq<Project>, name: string)
    ensures name in RegisteredNames(projects) <==>
      exists i :: 0 <= i < |projects| && projects[i].Some? && projects[i].value.property == Some(name)
  {
    if projects != [] {
      var init := projects[..|projects| - 1];
      RegisteredNamesMembers(init, name);
      assert forall i :: 0 <= i < |init| ==> init[i] == projects[i];
    }
  }

  /** getPropertyNames: one pass over the projects, appending each non-null
      property. */
  method GetPropertyNames(projects: seq<Project>) returns (names: seq<string>)
    ensures names == RegisteredNames(projects)
  {
    names := [];
    for i := 0 to |projects|
      invariant names == RegisteredNames(projects[..i])
    {
      assert projects[..i + 1][..i] == projects[..i];
      var publisher := projects[i];
      if publisher.Some? {
        var property := publisher.value.property;
        if property.Some? {
          names := names + [property.value];
        }
      }
    }
    assert projects[..|projects|] == projects;
  }
}
