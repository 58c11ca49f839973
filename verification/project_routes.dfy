/**
 * The project routes (lib/routes/project.js): record validation, creation
 * with the 409 duplicate check and `_.compact` of the app areas, the
 * present-and-truthy merge of `updateOne`, and deletion.
 *
 * A project document is looked up by `find({ name })`; the store is the
 * table of documents keyed by name. String fields that JavaScript could
 * see as `undefined`, `null` or `''` are all `""` here: every branch of the
 * routes treats the three alike.
 */
module ProjectRoutes {
  import opened Optional
  import opened Http

  /** A stored project. `appAreas` is `None` for a stored `null`. */
  datatype Project = Project(name: string, description: string, appAreas: Option<seq<string>>)

  /** A request body. `appAreas` is `None` when the key is absent or `null`. */
  datatype ProjectBody = ProjectBody(name: string, description: string, appAreas: Option<seq<string>>)

  /** `getRequiredKeys()`: the keys a new project must carry with a truthy value. */
  const RequiredKeys: seq<string> := ["name"]

  /** `project[key]` for the string keys of a body; any other key reads as missing. */
  function Field(body: ProjectBody, key: string): string
  {
    if key == "name" then body.name
    else if key == "description" then body.description
    else ""
  }

  /** `isValidProjectRecord`: a body is accepted exactly when it exists and has a non-empty name. */
  function IsValidProjectRecord(project: Option<ProjectBody>): (r: bool)
    ensures r <==> project.Some? && project.value.name != ""
  {
    if project.None? then false
    else
      var hasRequiredKeys := forall key :: key in RequiredKeys ==> Field(project.value, key) != "";
      assert "name" in RequiredKeys && forall key :: key in RequiredKeys ==> key == "name";
      hasRequiredKeys
  }

  /** `_.compact` on a list of strings: drops the falsy (empty) ones, keeps the others in order. */
  function Compact(xs: seq<string>): (r: seq<string>)
    ensures forall x :: x in r <==> x in xs && x != ""
    ensures |r| <= |xs|
  {
    if xs == [] then []
    else (if xs[0] == "" then [] else [xs[0]]) + Compact(xs[1..])
  }

  /** Compacting distributes over concatenation, so the order of the kept elements is the original one. */
  lemma {:induction false} CompactAppend(a: seq<string>, b: seq<string>)
    ensures Compact(a + b) == Compact(a) + Compact(b)
  {
    if a == [] {
      assert a + b == b;
    } else {
      assert (a + b)[1..] == a[1..] + b;
      CompactAppend(a[1..], b);
    }
  }

  /** A list with no empty string is left as it is; hence compacting twice is compacting once. */
  lemma {:induction false} CompactClean(xs: seq<string>)
    requires "" !in xs
    ensures Compact(xs) == xs
  {
    if xs != [] {
      CompactClean(xs[1..]);
    }
  }

  /** `_.compact` is idempotent. */
  lemma CompactIdempotent(xs: seq<string>)
    ensures Compact(Compact(xs)) == Compact(xs)
  {
    CompactClean(Compact(xs));
  }

  /** The document `createOne` saves for a valid body. */
  function NewProject(body: ProjectBody): (p: Project)
    ensures p.name == body.name && p.description == body.description
    ensures p.appAreas.Some? && "" !in p.appAreas.value
    ensures forall x :: x in p.appAreas.value <==> body.appAreas.Some? && x in body.appAreas.value && x != ""
  {
    Project(body.name, body.description, Some(Compact(body.appAreas.GetOr([]))))
  }

  /**
   * The three `if`s of `updateOne`: a field is overwritten only when the
   * body has it with a truthy value; a present `appAreas` list replaces the
   * old one whole, without compacting.
   */
  function Merge(p: Project, body: ProjectBody): Project
  {
    Project(if body.name != "" then body.name else p.name,
            if body.description != "" then body.description else p.description,
            if body.appAreas.Some? then body.appAreas else p.appAreas)
  }

  /** Applying the same update body twice changes nothing more. */
  lemma MergeIdempotent(p: Project, body: ProjectBody)
    ensures Merge(Merge(p, body), body) == Merge(p, body)
  {
  }

  /** A body with no truthy field leaves the project as it was. */
  lemma MergeEmptyBody(p: Project)
    ensures Merge(p, ProjectBody("", "", None)) == p
  {
  }

  /** Every field of the merged project comes from the body when the body sets it, from the project otherwise. */
  lemma MergeFields(p: Project, body: ProjectBody)
    ensures Merge(p, body).name == (if body.name != "" then body.name else p.name)
    ensures Merge(p, body).name != "" <==> body.name != "" || p.name != ""
    ensures Merge(p, body).description == (if body.description != "" then body.description else p.description)
    ensures body.appAreas.Some? ==> Merge(p, body).appAreas == body.appAreas
    ensures body.appAreas.None? ==> Merge(p, body).appAreas == p.appAreas
  {
  }

  /** No two documents of a collection share a name. */
  predicate UniqueNames(coll: seq<Project>)
  {
    forall i, j :: 0 <= i < j < |coll| ==> coll[i].name != coll[j].name
  }

  /** The index of the first document named `name`, as `projects[0]` of `find({ name })`; `|coll|` when none. */
  function FindFirst(coll: seq<Project>, name: string): (i: nat)
    ensures i <= |coll|
    ensures i < |coll| ==> coll[i].name == name
    ensures forall j :: 0 <= j < i ==> coll[j].name != name
  {
    if coll == [] then 0
    else if coll[0].name == name then 0
    else 1 + FindFirst(coll[1..], name)
  }

  /**
   * `updateOne` as written, on the collection of documents: the first
   * document named `findName` is merged with the body and saved, whatever
   * name the body gives it.
   */
  function UpdateInCollection(coll: seq<Project>, findName: string, body: ProjectBody): (r: seq<Project>)
    ensures |r| == |coll|
    ensures FindFirst(coll, findName) == |coll| ==> r == coll
    ensures forall j :: 0 <= j < |coll| && j != FindFirst(coll, findName) ==> r[j] == coll[j]
    ensures FindFirst(coll, findName) < |coll| ==>
              r[FindFirst(coll, findName)] == Merge(coll[FindFirst(coll, findName)], body)
  {
    var i := FindFirst(coll, findName);
    if i == |coll| then coll else coll[i := Merge(coll[i], body)]
  }

  /**
   * Renaming a project onto the name of another one leaves two documents
   * with that name: nothing in `updateOne` checks the new name.
   */
  lemma RenameBreaksUniqueNames(coll: seq<Project>, findName: string, body: ProjectBody)
    requires UniqueNames(coll)
    requires FindFirst(coll, findName) < |coll|
    requires body.name != "" && body.name != findName
    requires exists j :: 0 <= j < |coll| && coll[j].name == body.name
    ensures !UniqueNames(UpdateInCollection(coll, findName, body))
  {
    var i := FindFirst(coll, findName);
    var j :| 0 <= j < |coll| && coll[j].name == body.name;
    var r := UpdateInCollection(coll, findName, body);
    assert r[i].name == body.name;
    assert i != j;
    assert r[j].name == body.name;
    if i < j {
      assert !(r[i].name != r[j].name);
    } else {
      assert !(r[j].name != r[i].name);
    }
  }

  /** Two projects `a` and `b`; renaming `a` to `b` gives two projects named `b`. */
  lemma RenameOntoExistingName()
    ensures var coll := [Project("a", "", Some([])), Project("b", "", Some([]))];
            && UniqueNames(coll)
            && UpdateInCollection(coll, "a", ProjectBody("b", "", None)) == [Project("b", "", Some([])), Project("b", "", Some([]))]
            && !UniqueNames(UpdateInCollection(coll, "a", ProjectBody("b", "", None)))
  {
    var coll := [Project("a", "", Some([])), Project("b", "", Some([]))];
    assert FindFirst(coll, "a") == 0;
    assert coll[1].name == "b";
    RenameBreaksUniqueNames(coll, "a", ProjectBody("b", "", None));
  }

  /** The project collection, one document per name. */
  class ProjectStore {
    var projects: map<string, Project>

    /** Each document is filed under its own name. */
    ghost predicate Valid()
      reads this
    {
      forall n :: n in projects ==> projects[n].name == n
    }

    /** An empty collection. */
    constructor ()
      ensures projects == map[] && Valid()
    {
      projects := map[];
    }

    /** `getOne`: the project of that name, if there is one (200), or none (404). */
    function GetOne(name: string): (r: Option<Project>)
      reads this
      requires Valid()
      ensures r.Some? <==> name in projects
      ensures r.Some? ==> r.value.name == name && r.value == projects[name]
    {
      if name in projects then Some(projects[name]) else None
    }

    /**
     * `createOne`: 400 for an invalid body, 409 when the name is taken,
     * otherwise 201 and the new document with its app areas compacted.
     * An existing project is never touched.
     */
    method CreateOne(body: ProjectBody) returns (status: Status)
      requires Valid()
      modifies this
      ensures Valid()
      ensures forall n :: n in old(projects) ==> n in projects && projects[n] == old(projects)[n]
      ensures !IsValidProjectRecord(Some(body)) ==> status == BadRequest && projects == old(projects)
      ensures IsValidProjectRecord(Some(body)) && body.name in old(projects) ==>
                status == Conflict && projects == old(projects)
      ensures IsValidProjectRecord(Some(body)) && body.name !in old(projects) ==>
                status == Created && projects == old(projects)[body.name := NewProject(body)]
    {
      if !IsValidProjectRecord(Some(body)) {
        status := BadRequest;
      } else if body.name in projects {
        status := Conflict;
      } else {
        projects := projects[body.name := NewProject(body)];
        status := Created;
      }
    }

    /**
     * `updateOne`: 404 when no project has `findName`; otherwise the
     * present-and-truthy fields of the body are merged in and the project is
     * saved (200). A rename onto the name of another project is refused
     * with 409 and changes nothing, so names stay unique.
     */
    method UpdateOne(findName: string, body: ProjectBody) returns (status: Status)
      requires Valid()
      modifies this
      ensures Valid()
      ensures findName !in old(projects) ==> status == NotFound && projects == old(projects)
      ensures findName in old(projects) ==>
                var merged := Merge(old(projects)[findName], body);
                if merged.name != findName && merged.name in old(projects) then
                  status == Conflict && projects == old(projects)
                else
                  && status == Ok
                  && projects == (old(projects) - {findName})[merged.name := merged]
                  && |projects| == |old(projects)|
    {
      if findName !in projects {
        status := NotFound;
        return;
      }
      var merged := Merge(projects[findName], body);
      if merged.name != findName && merged.name in projects {
        status := Conflict;
        return;
      }
      var rest := projects - {findName};
      assert |rest| == |projects| - 1;
      assert merged.name !in rest;
      projects := rest[merged.name := merged];
      status := Ok;
    }

    /** `deleteOne`: 404 when no project has the name, otherwise that project alone is removed (200). */
    method DeleteOne(name: string) returns (status: Status)
      requires Valid()
      modifies this
      ensures Valid()
      ensures name !in old(projects) ==> status == NotFound && projects == old(projects)
      ensures name in old(projects) ==> status == Ok && projects == old(projects) - {name}
    {
      if name !in projects {
        status := NotFound;
      } else {
        projects := projects - {name};
        status := Ok;
      }
    }
  }
}
