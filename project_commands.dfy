/**
 * The `project` subcommands: `new` creates a project by name, `add` joins a
 * note to a project and records the project's name on the note, `list`
 * counts each project's notes, and `show` lists a project's notes.
 */
module ProjectCommands {
  import opened Wrappers
  import opened Seqs
  import opened Model
  import opened Disk
  import opened DisplayIds
  import opened Projects
  import opened ProjectNotes

  /** `createNewProject`: a project with an empty ID and the name, through the name de-duplicating insert. */
  method CreateNewProject(projectName: string, projects: seq<Project>) returns (updated: seq<Project>)
    ensures HasName(projects, projectName) ==> updated == projects
    ensures !HasName(projects, projectName) ==>
      updated == projects + [Project(NextId("p", ProjectIds(projects)), "", projectName)]
    ensures NamesUnique(projects) ==> NamesUnique(updated)
  {
    updated := InsertProjectToJson(projects, Project("", "", projectName));
  }

  // ---------------------------------------------------------------------------
  // add

  function ProjectIdIs(projectId: string): Project -> bool
  {
    (p: Project) => p.projectId == projectId
  }

  /** The pair inserted unless it is there already. */
  function WithPair(projectNotes: seq<ProjectNote>, pn: ProjectNote): seq<ProjectNote>
  {
    if HasPair(projectNotes, pn) then projectNotes else projectNotes + [pn]
  }

  /**
   * `addNoteToProject`: the first project with the ID and the first note
   * with the display ID; a missing project is reported before a missing
   * note, and neither error inserts anything. Otherwise the pair (project
   * ID, the note's timestamp ID) is inserted unless present.
   */
  function NoteToProject(noteId: string, projectId: string, projects: seq<Project>, notes: seq<Note>, projectNotes: seq<ProjectNote>)
    : Result<(Note, Project, seq<ProjectNote>)>
  {
    match FirstIndex(projects, ProjectIdIs(projectId))
    case None => Err("project not found")
    case Some(p) =>
      match FirstIndex(notes, SeqIdIs(noteId))
      case None => Err("note not found")
      case Some(n) => Ok((notes[n], projects[p], WithPair(projectNotes, ProjectNote(projects[p].projectId, notes[n].id))))
  }

  method AddNoteToProject(noteId: string, projectId: string, projects: seq<Project>, notes: seq<Note>, projectNotes: seq<ProjectNote>)
    returns (r: Result<(Note, Project, seq<ProjectNote>)>)
    ensures r == NoteToProject(noteId, projectId, projects, notes, projectNotes)
  {
    var matchedProject := Project("", "", "");
    var foundProject := false;
    var i := 0;
    while i < |projects|
      invariant 0 <= i <= |projects|
      invariant forall j :: 0 <= j < i ==> !ProjectIdIs(projectId)(projects[j])
    {
      if projectId == projects[i].projectId {
        assert FirstIndex(projects, ProjectIdIs(projectId)) == Some(i);
        matchedProject := projects[i];
        foundProject := true;
        break;
      }
      i := i + 1;
    }
    var matchedNote := Note("", "", "", "", "", "", "", "", "", false, false);
    var foundNote := false;
    i := 0;
    while i < |notes|
      invariant 0 <= i <= |notes|
      invariant forall j :: 0 <= j < i ==> !SeqIdIs(noteId)(notes[j])
    {
      if noteId == notes[i].seqId {
        assert FirstIndex(notes, SeqIdIs(noteId)) == Some(i);
        matchedNote := notes[i];
        foundNote := true;
        break;
      }
      i := i + 1;
    }
    if !foundProject {
      return Err("project not found");
    }
    if !foundNote {
      return Err("note not found");
    }
    var updated := InsertProjectNoteToJson(projectNotes, ProjectNote(matchedProject.projectId, matchedNote.id));
    return Ok((matchedNote, matchedProject, updated));
  }

  /** The adding is refused exactly when no project has the ID or no note has the display ID; it never duplicates a pair. */
  lemma NoteToProjectErrors(noteId: string, projectId: string, projects: seq<Project>, notes: seq<Note>, projectNotes: seq<ProjectNote>)
    ensures NoteToProject(noteId, projectId, projects, notes, projectNotes).Err? <==>
      (forall j :: 0 <= j < |projects| ==> projects[j].projectId != projectId)
      || (forall j :: 0 <= j < |notes| ==> notes[j].seqId != noteId)
    ensures (forall j :: 0 <= j < |projects| ==> projects[j].projectId != projectId) ==>
      NoteToProject(noteId, projectId, projects, notes, projectNotes) == Err("project not found")
    ensures NoteToProject(noteId, projectId, projects, notes, projectNotes).Ok? ==>
      var (note, project, pns) := NoteToProject(noteId, projectId, projects, notes, projectNotes).value;
      note.seqId == noteId && note in notes && project.projectId == projectId && project in projects
      && ProjectNote(projectId, note.id) in pns && projectNotes <= pns && |pns| <= |projectNotes| + 1
      && (PairsUnique(projectNotes) ==> PairsUnique(pns))
  {
    var r := NoteToProject(noteId, projectId, projects, notes, projectNotes);
    if r.Ok? {
      var (note, project, pns) := r.value;
      var pn := ProjectNote(projectId, note.id);
      if HasPair(projectNotes, pn) {
        var k :| 0 <= k < |projectNotes| && projectNotes[k].noteId == pn.noteId && projectNotes[k].projectId == pn.projectId;
        assert projectNotes[k] == pn;
      } else {
        assert pns[|projectNotes|] == pn;
        if PairsUnique(projectNotes) {
          forall a, b | 0 <= a < b < |pns|
            ensures pns[a] != pns[b]
          {
            if b == |projectNotes| {
              assert pns[a] == projectNotes[a];
            }
          }
        }
      }
    }
    if exists p :: 0 <= p < |projects| && projects[p].projectId == projectId {
      var p :| 0 <= p < |projects| && projects[p].projectId == projectId;
      assert ProjectIdIs(projectId)(projects[p]);
    }
    if exists j :: 0 <= j < |notes| && notes[j].seqId == noteId {
      var j :| 0 <= j < |notes| && notes[j].seqId == noteId;
      assert SeqIdIs(noteId)(notes[j]);
    }
  }

  /** What `project add` leaves behind. */
  datatype ProjectState = ProjectState(notes: seq<Note>, projectNotes: seq<ProjectNote>, disk: Disk)

  /** The state after a step of the `add` loop, and whether the command ended there (an error or an exit). */
  datatype AddOutcome = AddOutcome(state: ProjectState, stopped: bool)

  /**
   * One step of the `add` loop at row `i`: a row with another display ID is
   * skipped. Otherwise the pair is inserted (the note being the first with
   * that display ID), that note's file is re-read, and both row `i` and the
   * file's header take the project's name. An insert error stops the loop;
   * a missing or unparsable file ends the process, after the pair is saved.
   */
  function AddStep(noteId: string, projectId: string, projects: seq<Project>, c: Config, st: ProjectState, i: nat): (r: AddOutcome)
    requires i < |st.notes|
    ensures |r.state.notes| == |st.notes|
  {
    if st.notes[i].seqId != noteId then AddOutcome(st, false)
    else match NoteToProject(noteId, projectId, projects, st.notes, st.projectNotes)
      case Err(_) => AddOutcome(st, true)
      case Ok((note, project, pns)) =>
        var p := NotePath(c.zettelDir, note.id);
        if p !in st.disk.files || st.disk.files[p].Malformed? then AddOutcome(st.(projectNotes := pns), true)
        else
          var h := AsNoteHeader(st.disk.files[p].header);
          AddOutcome(ProjectState(
            st.notes[i := st.notes[i].(projectName := project.name)], pns,
            Write(st.disk, p, Parsed(h.(projectName := project.name), st.disk.files[p].body))), false)
  }

  /** The `add` loop over rows `0..k`. */
  function AddRun(noteId: string, projectId: string, projects: seq<Project>, c: Config, st: ProjectState, k: nat): (r: AddOutcome)
    requires k <= |st.notes|
    ensures |r.state.notes| == |st.notes|
  {
    if k == 0 then AddOutcome(st, false)
    else
      var prev := AddRun(noteId, projectId, projects, c, st, k - 1);
      if prev.stopped then prev else AddStep(noteId, projectId, projects, c, prev.state, k - 1)
  }

  lemma {:induction false} AddRunStops(noteId: string, projectId: string, projects: seq<Project>, c: Config, st: ProjectState, k: nat, m: nat)
    requires k <= m <= |st.notes|
    requires AddRun(noteId, projectId, projects, c, st, k).stopped
    ensures AddRun(noteId, projectId, projects, c, st, m) == AddRun(noteId, projectId, projects, c, st, k)
    decreases m
  {
    if m > k {
      AddRunStops(noteId, projectId, projects, c, st, k, m - 1);
    }
  }

  /** `project add`. */
  method ProjectAdd(noteId: string, projectId: string, projects: seq<Project>, c: Config, st: ProjectState) returns (r: AddOutcome)
    ensures r == AddRun(noteId, projectId, projects, c, st, |st.notes|)
  {
    var state := st;
    var i := 0;
    while i < |st.notes|
      invariant 0 <= i <= |st.notes|
      invariant AddRun(noteId, projectId, projects, c, st, i) == AddOutcome(state, false)
    {
      var step := AddRow(noteId, projectId, projects, c, state, i);
      AddRunNext(noteId, projectId, projects, c, st, i, state);
      if step.stopped {
        AddRunStops(noteId, projectId, projects, c, st, i + 1, |st.notes|);
        return step;
      }
      state := step.state;
      i := i + 1;
    }
    return AddOutcome(state, false);
  }

  /** One more row of the `add` loop, after rows that did not stop it. */
  lemma AddRunNext(noteId: string, projectId: string, projects: seq<Project>, c: Config, st: ProjectState, i: nat, state: ProjectState)
    requires i < |st.notes| && |state.notes| == |st.notes|
    requires AddRun(noteId, projectId, projects, c, st, i) == AddOutcome(state, false)
    ensures AddRun(noteId, projectId, projects, c, st, i + 1) == AddStep(noteId, projectId, projects, c, state, i)
  {
  }

  /** The body of the `add` loop on row `i`. */
  method AddRow(noteId: string, projectId: string, projects: seq<Project>, c: Config, st: ProjectState, i: nat) returns (r: AddOutcome)
    requires i < |st.notes|
    ensures r == AddStep(noteId, projectId, projects, c, st, i)
  {
    var notes := st.notes;
    if noteId != notes[i].seqId {
      return AddOutcome(st, false);
    }
    var added := AddNoteToProject(noteId, projectId, projects, notes, st.projectNotes);
    if added.Err? {
      return AddOutcome(st, true);
    }
    var (note, project, pns) := added.value;
    var p := NotePath(c.zettelDir, note.id);
    if p !in st.disk.files || st.disk.files[p].Malformed? {
      return AddOutcome(st.(projectNotes := pns), true);
    }
    var content := st.disk.files[p];
    var frontMatter := AsNoteHeader(content.header);
    notes := notes[i := notes[i].(projectName := project.name)];
    frontMatter := frontMatter.(projectName := project.name);
    return AddOutcome(ProjectState(notes, pns, Write(st.disk, p, Parsed(frontMatter, content.body))), false);
  }

  /** Rows before the only row with the display ID pass through the loop unchanged. */
  lemma {:induction false} AddRunBefore(noteId: string, projectId: string, projects: seq<Project>, c: Config, st: ProjectState, k: nat)
    requires k <= |st.notes|
    requires forall j :: 0 <= j < k ==> st.notes[j].seqId != noteId
    ensures AddRun(noteId, projectId, projects, c, st, k) == AddOutcome(st, false)
  {
    if k > 0 {
      AddRunBefore(noteId, projectId, projects, c, st, k - 1);
    }
  }

  /** Rows after it pass through too, as long as the display ID stays unique. */
  lemma {:induction false} AddRunAfter(noteId: string, projectId: string, projects: seq<Project>, c: Config, st: ProjectState, i: nat, k: nat, mid: ProjectState)
    requires i < k <= |st.notes|
    requires |mid.notes| == |st.notes|
    requires forall j :: i < j < |st.notes| ==> mid.notes[j].seqId != noteId
    requires AddRun(noteId, projectId, projects, c, st, i + 1) == AddOutcome(mid, false)
    ensures AddRun(noteId, projectId, projects, c, st, k) == AddOutcome(mid, false)
    decreases k
  {
    if k > i + 1 {
      AddRunAfter(noteId, projectId, projects, c, st, i, k - 1, mid);
    }
  }

  /**
   * With exactly one row carrying the display ID, a known project and a
   * parsable file, `project add` joins that note to the project, names the
   * project in its row and header, and touches no other row.
   */
  lemma ProjectAddEffect(noteId: string, projectId: string, projects: seq<Project>, c: Config, st: ProjectState, i: nat)
    requires i < |st.notes| && st.notes[i].seqId == noteId
    requires forall j :: 0 <= j < |st.notes| && j != i ==> st.notes[j].seqId != noteId
    requires exists p :: 0 <= p < |projects| && projects[p].projectId == projectId
    requires NotePath(c.zettelDir, st.notes[i].id) in st.disk.files && st.disk.files[NotePath(c.zettelDir, st.notes[i].id)].Parsed?
    ensures var r := AddRun(noteId, projectId, projects, c, st, |st.notes|);
      var p := NotePath(c.zettelDir, st.notes[i].id);
      var name := projects[FirstIndex(projects, ProjectIdIs(projectId)).value].name;
      !r.stopped
      && r.state.notes == st.notes[i := st.notes[i].(projectName := name)]
      && r.state.projectNotes == WithPair(st.projectNotes, ProjectNote(projectId, st.notes[i].id))
      && p in r.state.disk.files && r.state.disk.files[p].Parsed? && r.state.disk.files[p].header.projectName == name
  {
    var p :| 0 <= p < |projects| && projects[p].projectId == projectId;
    assert ProjectIdIs(projectId)(projects[p]);
    AddRunBefore(noteId, projectId, projects, c, st, i);
    assert FirstIndex(st.notes, SeqIdIs(noteId)) == Some(i) by {
      assert SeqIdIs(noteId)(st.notes[i]);
    }
    var mid := AddRun(noteId, projectId, projects, c, st, i + 1).state;
    AddRunAfter(noteId, projectId, projects, c, st, i, |st.notes|, mid);
  }

  /** An unknown project changes nothing, whatever the rows. */
  lemma {:induction false} UnknownProjectChangesNothing(noteId: string, projectId: string, projects: seq<Project>, c: Config, st: ProjectState, k: nat)
    requires k <= |st.notes|
    requires forall p :: 0 <= p < |projects| ==> projects[p].projectId != projectId
    ensures AddRun(noteId, projectId, projects, c, st, k).state == st
  {
    if k > 0 {
      UnknownProjectChangesNothing(noteId, projectId, projects, c, st, k - 1);
    }
  }

  // ---------------------------------------------------------------------------
  // list

  function EdgeProjectIs(projectId: string): ProjectNote -> bool
  {
    (pn: ProjectNote) => pn.projectId == projectId
  }

  /** The rows of `project list`: each project, in order, with the number of edges to it. */
  function ProjectRows(projects: seq<Project>, projectNotes: seq<ProjectNote>): (rows: seq<(Project, nat)>)
    ensures |rows| == |projects|
  {
    seq(|projects|, i requires 0 <= i < |projects| => (projects[i], Count(projectNotes, EdgeProjectIs(projects[i].projectId))))
  }

  function CountOf(m: map<string, nat>, id: string): nat
  {
    if id in m then m[id] else 0
  }

  /**
   * `project list`: the number in the heading is that of the edges, not of
   * the projects; each row is a project with its edge count.
   */
  method ListProjects(projects: seq<Project>, projectNotes: seq<ProjectNote>) returns (shown: nat, rows: seq<(Project, nat)>)
    ensures shown == |projectNotes|
    ensures rows == ProjectRows(projects, projectNotes)
  {
    var projectNoteCount: map<string, nat> := map[];
    var i := 0;
    while i < |projectNotes|
      invariant 0 <= i <= |projectNotes|
      invariant forall id :: CountOf(projectNoteCount, id) == Count(projectNotes[..i], EdgeProjectIs(id))
    {
      var pn := projectNotes[i];
      assert projectNotes[..i + 1] == projectNotes[..i] + [pn];
      forall id
        ensures Count(projectNotes[..i + 1], EdgeProjectIs(id)) == Count(projectNotes[..i], EdgeProjectIs(id)) + (if pn.projectId == id then 1 else 0)
      {
        FilterSnoc(projectNotes[..i], pn, EdgeProjectIs(id));
      }
      projectNoteCount := projectNoteCount[pn.projectId := CountOf(projectNoteCount, pn.projectId) + 1];
      i := i + 1;
    }
    assert projectNotes[..i] == projectNotes;
    shown := |projectNotes|;
    rows := [];
    i := 0;
    while i < |projects|
      invariant 0 <= i <= |projects|
      invariant rows == ProjectRows(projects[..i], projectNotes)
    {
      rows := rows + [(projects[i], CountOf(projectNoteCount, projects[i].projectId))];
      i := i + 1;
    }
    assert projects[..i] == projects;
  }

  /** The sum of the counts of the rows. */
  function Tally(rows: seq<(Project, nat)>): nat
  {
    if rows == [] then 0 else Tally(rows[..|rows| - 1]) + rows[|rows| - 1].1
  }

  /** How many projects carry the ID. */
  function Hits(projects: seq<Project>, projectId: string): nat
  {
    if projects == [] then 0
    else Hits(projects[..|projects| - 1], projectId) + (if projects[|projects| - 1].projectId == projectId then 1 else 0)
  }

  lemma {:induction false} TallySnoc(projects: seq<Project>, projectNotes: seq<ProjectNote>, pn: ProjectNote)
    ensures Tally(ProjectRows(projects, projectNotes + [pn])) == Tally(ProjectRows(projects, projectNotes)) + Hits(projects, pn.projectId)
    decreases |projects|
  {
    if projects != [] {
      var init := projects[..|projects| - 1];
      var last := projects[|projects| - 1];
      TallySnoc(init, projectNotes, pn);
      assert ProjectRows(projects, projectNotes + [pn])[..|projects| - 1] == ProjectRows(init, projectNotes + [pn]);
      assert ProjectRows(projects, projectNotes)[..|projects| - 1] == ProjectRows(init, projectNotes);
      FilterSnoc(projectNotes, pn, EdgeProjectIs(last.projectId));
    }
  }

  lemma {:induction false} HitsOne(projects: seq<Project>, projectId: string)
    requires IdsUnique(projects)
    ensures Hits(projects, projectId) == (if exists p :: 0 <= p < |projects| && projects[p].projectId == projectId then 1 else 0)
    decreases |projects|
  {
    if projects != [] {
      var init := projects[..|projects| - 1];
      HitsOne(init, projectId);
      if exists p :: 0 <= p < |init| && init[p].projectId == projectId {
        var p :| 0 <= p < |init| && init[p].projectId == projectId;
        assert projects[p] == init[p];
      }
      if exists p :: 0 <= p < |projects| && projects[p].projectId == projectId {
        var p :| 0 <= p < |projects| && projects[p].projectId == projectId;
        if p < |init| {
          assert init[p] == projects[p];
        }
      }
    }
  }

  /**
   * When the project IDs are unique and every edge names a known project,
   * the per-project counts add up to the heading's number; otherwise the
   * heading counts edges that no row shows.
   */
  lemma {:induction false} CountsAddUp(projects: seq<Project>, projectNotes: seq<ProjectNote>)
    requires IdsUnique(projects)
    requires forall e :: 0 <= e < |projectNotes| ==> exists p :: 0 <= p < |projects| && projects[p].projectId == projectNotes[e].projectId
    ensures Tally(ProjectRows(projects, projectNotes)) == |projectNotes|
    decreases |projectNotes|
  {
    if projectNotes == [] {
      ZeroTally(projects);
    } else {
      var init := projectNotes[..|projectNotes| - 1];
      var last := projectNotes[|projectNotes| - 1];
      assert projectNotes == init + [last];
      forall e | 0 <= e < |init|
        ensures exists p :: 0 <= p < |projects| && projects[p].projectId == init[e].projectId
      {
        assert init[e] == projectNotes[e];
      }
      CountsAddUp(projects, init);
      TallySnoc(projects, init, last);
      HitsOne(projects, last.projectId);
    }
  }

  lemma {:induction false} ZeroTally(projects: seq<Project>)
    ensures Tally(ProjectRows(projects, [])) == 0
    decreases |projects|
  {
    if projects != [] {
      var init := projects[..|projects| - 1];
      assert ProjectRows(projects, [])[..|projects| - 1] == ProjectRows(init, []);
      ZeroTally(init);
    }
  }

  // ---------------------------------------------------------------------------
  // show

  /** The title `noteMap` gives a timestamp ID: that of the last row with the ID. */
  function TitleMap(notes: seq<Note>): (m: map<string, string>)
  {
    if notes == [] then map[]
    else TitleMap(notes[..|notes| - 1])[notes[|notes| - 1].id := notes[|notes| - 1].title]
  }

  /**
   * `project show`: an unknown project ends the process; otherwise the
   * project and, per edge to it in order, the note's timestamp ID with its
   * title, or none when no row has the ID ("(Note not found)").
   */
  function Shown(projectId: string, projects: seq<Project>, projectNotes: seq<ProjectNote>, notes: seq<Note>)
    : Option<(Project, seq<(string, Option<string>)>)>
  {
    match FirstIndex(projects, ProjectIdIs(projectId))
    case None => None
    case Some(p) =>
      var ids := Filter(projectNotes, EdgeProjectIs(projectId));
      var m := TitleMap(notes);
      Some((projects[p], seq(|ids|, i requires 0 <= i < |ids| => (ids[i].noteId, if ids[i].noteId in m then Some(m[ids[i].noteId]) else None))))
  }

  method ShowProject(projectId: string, projects: seq<Project>, projectNotes: seq<ProjectNote>, notes: seq<Note>)
    returns (r: Option<(Project, seq<(string, Option<string>)>)>)
    ensures r == Shown(projectId, projects, projectNotes, notes)
  {
    var project := Project("", "", "");
    var foundProject := false;
    var i := 0;
    while i < |projects|
      invariant 0 <= i <= |projects|
      invariant forall j :: 0 <= j < i ==> !ProjectIdIs(projectId)(projects[j])
    {
      if projects[i].projectId == projectId {
        assert FirstIndex(projects, ProjectIdIs(projectId)) == Some(i);
        project := projects[i];
        foundProject := true;
        break;
      }
      i := i + 1;
    }
    if !foundProject {
      return None;
    }
    var noteIDs: seq<ProjectNote> := [];
    i := 0;
    while i < |projectNotes|
      invariant 0 <= i <= |projectNotes|
      invariant noteIDs == Filter(projectNotes[..i], EdgeProjectIs(projectId))
    {
      FilterSnoc(projectNotes[..i], projectNotes[i], EdgeProjectIs(projectId));
      assert projectNotes[..i + 1] == projectNotes[..i] + [projectNotes[i]];
      if projectNotes[i].projectId == projectId {
        noteIDs := noteIDs + [projectNotes[i]];
      }
      i := i + 1;
    }
    assert projectNotes[..i] == projectNotes;
    var noteMap: map<string, string> := map[];
    i := 0;
    while i < |notes|
      invariant 0 <= i <= |notes|
      invariant noteMap == TitleMap(notes[..i])
    {
      assert notes[..i + 1][..i] == notes[..i];
      noteMap := noteMap[notes[i].id := notes[i].title];
      i := i + 1;
    }
    assert notes[..i] == notes;
    var rows: seq<(string, Option<string>)> := [];
    i := 0;
    while i < |noteIDs|
      invariant 0 <= i <= |noteIDs|
      invariant |rows| == i
      invariant forall j :: 0 <= j < i ==>
        rows[j] == (noteIDs[j].noteId, if noteIDs[j].noteId in noteMap then Some(noteMap[noteIDs[j].noteId]) else None)
    {
      var noteId := noteIDs[i].noteId;
      if noteId in noteMap {
        rows := rows + [(noteId, Some(noteMap[noteId]))];
      } else {
        rows := rows + [(noteId, None)];
      }
      i := i + 1;
    }
    assert rows == seq(|noteIDs|, j requires 0 <= j < |noteIDs| =>
      (noteIDs[j].noteId, if noteIDs[j].noteId in noteMap then Some(noteMap[noteIDs[j].noteId]) else None));
    return Some((project, rows));
  }

  /** The title map holds exactly the rows' timestamp IDs. */
  lemma {:induction false} TitleMapKeys(notes: seq<Note>, id: string)
    ensures id in TitleMap(notes) <==> exists i :: 0 <= i < |notes| && notes[i].id == id
    decreases |notes|
  {
    if notes != [] {
      var init := notes[..|notes| - 1];
      TitleMapKeys(init, id);
      if notes[|notes| - 1].id != id {
        if exists i :: 0 <= i < |notes| && notes[i].id == id {
          var i :| 0 <= i < |notes| && notes[i].id == id;
          assert init[i] == notes[i];
        }
        if exists i :: 0 <= i < |init| && init[i].id == id {
          var i :| 0 <= i < |init| && init[i].id == id;
          assert notes[i] == init[i];
        }
      }
    }
  }

  /** The title map holds exactly the rows' timestamp IDs, each with the title of the last row carrying it. */
  lemma {:induction false} TitleMapLast(notes: seq<Note>, id: string)
    ensures id in TitleMap(notes) <==> exists i :: 0 <= i < |notes| && notes[i].id == id
    ensures id in TitleMap(notes) ==> exists i :: (0 <= i < |notes| && notes[i].id == id && TitleMap(notes)[id] == notes[i].title
      && forall j :: i < j < |notes| ==> notes[j].id != id)
    decreases |notes|
  {
    TitleMapKeys(notes, id);
    if notes != [] && id in TitleMap(notes) {
      var init := notes[..|notes| - 1];
      var last := |notes| - 1;
      if notes[last].id == id {
        assert TitleMap(notes)[id] == notes[last].title;
      } else {
        TitleMapLast(init, id);
        var i :| 0 <= i < |init| && init[i].id == id && TitleMap(init)[id] == init[i].title
          && forall j :: i < j < |init| ==> init[j].id != id;
        assert notes[i] == init[i];
        assert forall j :: i < j < |notes| ==> notes[j].id != id by {
          forall j | i < j < |notes|
            ensures notes[j].id != id
          {
            if j < last {
              assert notes[j] == init[j];
            }
          }
        }
      }
    }
  }

  /**
   * A known project's listing has one line per edge to it, in order; a
   * line has a title exactly when some row has the note's timestamp ID.
   */
  lemma ShownLines(projectId: string, projects: seq<Project>, projectNotes: seq<ProjectNote>, notes: seq<Note>)
    ensures Shown(projectId, projects, projectNotes, notes).None? <==> forall p :: 0 <= p < |projects| ==> projects[p].projectId != projectId
    ensures Shown(projectId, projects, projectNotes, notes).Some? ==>
      var lines := Shown(projectId, projects, projectNotes, notes).value.1;
      |lines| == Count(projectNotes, EdgeProjectIs(projectId))
      && (forall k :: 0 <= k < |lines| ==> ProjectNote(projectId, lines[k].0) in projectNotes)
      && (forall k :: 0 <= k < |lines| ==> (lines[k].1.Some? <==> exists i :: 0 <= i < |notes| && notes[i].id == lines[k].0))
  {
    if exists p :: 0 <= p < |projects| && projects[p].projectId == projectId {
      var p :| 0 <= p < |projects| && projects[p].projectId == projectId;
      assert ProjectIdIs(projectId)(projects[p]);
    }
    var r := Shown(projectId, projects, projectNotes, notes);
    if r.Some? {
      var ids := Filter(projectNotes, EdgeProjectIs(projectId));
      var lines := r.value.1;
      forall k | 0 <= k < |lines|
        ensures ProjectNote(projectId, lines[k].0) in projectNotes
        ensures lines[k].1.Some? <==> exists i :: 0 <= i < |notes| && notes[i].id == lines[k].0
      {
        assert ids[k] in ids;
        FilterMembership(projectNotes, EdgeProjectIs(projectId), ids[k]);
        assert ids[k] == ProjectNote(projectId, lines[k].0);
        TitleMapLast(notes, lines[k].0);
      }
    }
  }
}
