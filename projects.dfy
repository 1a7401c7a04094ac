/** projects.json: projects are created by name, de-duplicated on the exact name, and numbered `p001`, ... */
module Projects {
  import opened Model
  import opened DisplayIds

  function ProjectIds(projects: seq<Project>): (ids: seq<string>)
    ensures |ids| == |projects| && forall i :: 0 <= i < |projects| ==> ids[i] == projects[i].projectId
  {
    seq(|projects|, i requires 0 <= i < |projects| => projects[i].projectId)
  }

  predicate HasName(projects: seq<Project>, name: string)
  {
    exists i :: 0 <= i < |projects| && projects[i].name == name
  }

  predicate NamesUnique(projects: seq<Project>)
  {
    forall i, j :: 0 <= i < j < |projects| ==> projects[i].name != projects[j].name
  }

  predicate IdsUnique(projects: seq<Project>)
  {
    forall i, j :: 0 <= i < j < |projects| ==> projects[i].projectId != projects[j].projectId
  }

  method GetNextProjectID(projects: seq<Project>) returns (id: string)
    ensures id == NextId("p", ProjectIds(projects))
    ensures MaxSuffix("p", ProjectIds(projects)) < MaxInt64 ==> forall i :: 0 <= i < |projects| ==> projects[i].projectId != id
  {
    id := NextIdScan("p", ProjectIds(projects));
    if MaxSuffix("p", ProjectIds(projects)) < MaxInt64 {
      NextIdFresh("p", ProjectIds(projects));
    }
  }

  /** Adds a project unless one with the same name exists; the new project gets the next `p` ID. */
  method InsertProjectToJson(projects: seq<Project>, project: Project) returns (updated: seq<Project>)
    ensures HasName(projects, project.name) ==> updated == projects
    ensures !HasName(projects, project.name) ==>
      updated == projects + [project.(projectId := NextId("p", ProjectIds(projects)))]
    ensures HasName(updated, project.name)
    ensures NamesUnique(projects) ==> NamesUnique(updated)
    ensures MaxSuffix("p", ProjectIds(projects)) < MaxInt64 && IdsUnique(projects) ==> IdsUnique(updated)
  {
    var i := 0;
    while i < |projects|
      invariant 0 <= i <= |projects|
      invariant forall j :: 0 <= j < i ==> projects[j].name != project.name
    {
      if project.name == projects[i].name {
        return projects;
      }
      i := i + 1;
    }
    var newId := GetNextProjectID(projects);
    updated := projects + [project.(projectId := newId)];
    assert updated[|projects|].name == project.name;
  }
}
