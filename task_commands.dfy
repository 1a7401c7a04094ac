/**
 * The `task` subcommands. A task is a note of type `task` with a row in
 * tasks.json that names the note by its timestamp ID. `new` writes both,
 * `list` shows the task notes with their rows, `update` sets a task's
 * status, and `remove` and `archive` find the task's note by comparing the
 * task's note ID with the notes' display IDs.
 */
module TaskCommands {
  import opened Wrappers
  import opened Seqs
  import opened Text
  import opened Model
  import opened Disk
  import opened DisplayIds
  import opened Storage
  import opened Tags
  import opened Tasks
  import opened Query
  import opened Clock
  import opened Listing
  import opened NoteCommands

  /** What the task commands touch: the note collections and tasks.json. */
  datatype TaskZettel = TaskZettel(zettel: Zettel, tasks: seq<Task>)

  // ---------------------------------------------------------------------------
  // new

  /** The header of a new task file: the note header with the status `Not started`. */
  function TaskHeader(id: string, title: string, tags: seq<string>, stamp: string): FrontMatter
  {
    NewHeader(id, title, "task", tags, stamp).(status := Some("Not started"))
  }

  function TaskDoc(t: Instant, title: string, tags: seq<string>): Doc
  {
    Parsed(TaskHeader(TimestampId(t), title, tags, Stamp(t)), TrimSpace("## " + title))
  }

  /**
   * `createNewTask`: writes the task file, appends the note row under the
   * next display ID and appends a task row, with status `Not Started`, under
   * the next task ID. The task row is passed with an empty ID, so it is
   * skipped when some task already has an empty ID.
   */
  method CreateNewTask(title: string, tags: seq<string>, t: Instant, c: Config, notes: seq<Note>, tasks: seq<Task>, disk: Disk)
    returns (path: Path, note: Note, updatedNotes: seq<Note>, updatedTasks: seq<Task>, written: Disk)
    ensures path == NotePath(c.zettelDir, TimestampId(t))
    ensures note == NewRow(TimestampId(t), title, "task", Stamp(t))
    ensures written == Write(disk, path, TaskDoc(t, title, tags))
    ensures updatedNotes == notes + [note.(seqId := NextId("n", SeqIds(notes)))]
    ensures HasId(tasks, "") ==> updatedTasks == tasks
    ensures !HasId(tasks, "") ==> updatedTasks == tasks + [Task(NextId("task-", TaskIds(tasks)), TimestampId(t), "Not Started")]
  {
    var noteId := TimestampId(t);
    var createdAt := Stamp(t);
    path := NotePath(c.zettelDir, noteId);
    written := Write(disk, path, TaskDoc(t, title, tags));
    note := NewRow(noteId, title, "task", createdAt);
    updatedNotes := InsertNoteToJson(notes, note);
    updatedTasks := InsertTaskToJson(tasks, Task("", noteId, "Not Started"));
  }

  /**
   * `task new`: creates the `--tag` names, the file and both rows, joins the
   * note to the tags and lets the editor run. Unlike the note commands it
   * does not refresh the row from the edited file.
   */
  method TaskNew(title: string, taskTags: seq<string>, t: Instant, edited: Option<Doc>, c: Config, z: TaskZettel)
    returns (after: TaskZettel)
    ensures z.zettel.tags <= after.zettel.tags
    ensures forall k :: 0 <= k < |taskTags| ==> HasName(after.zettel.tags, taskTags[k])
    ensures after.zettel.noteTags == TagEdges(TimestampId(t), taskTags, after.zettel.tags, z.zettel.noteTags)
    ensures after.zettel.notes == z.zettel.notes + [NewRow(TimestampId(t), title, "task", Stamp(t)).(seqId := NextId("n", SeqIds(z.zettel.notes)))]
    ensures !HasId(z.tasks, "") ==> after.tasks == z.tasks + [Task(NextId("task-", TaskIds(z.tasks)), TimestampId(t), "Not Started")]
    ensures HasId(z.tasks, "") ==> after.tasks == z.tasks
    ensures after.zettel.disk == AfterEditor(
      Write(z.zettel.disk, NotePath(c.zettelDir, TimestampId(t)), TaskDoc(t, title, taskTags)),
      NotePath(c.zettelDir, TimestampId(t)), edited)
  {
    var tags := z.zettel.tags;
    if |taskTags| > 0 {
      tags := CreateNewTag(taskTags, tags);
    }
    var path, note, notes, tasks, disk := CreateNewTask(title, taskTags, t, c, z.zettel.notes, z.tasks, z.zettel.disk);
    var noteTags := InsertTagEdges(note.id, taskTags, tags, z.zettel.noteTags);
    disk := AfterEditor(disk, path, edited);
    return TaskZettel(Zettel(notes, tags, noteTags, disk), tasks);
  }

  // ---------------------------------------------------------------------------
  // list

  /** The note-ID-to-task map of the list command: a later row with the same note ID replaces an earlier one. */
  function TaskMapOf(tasks: seq<Task>): map<string, Task>
  {
    if tasks == [] then map[]
    else TaskMapOf(tasks[..|tasks| - 1])[tasks[|tasks| - 1].noteId := tasks[|tasks| - 1]]
  }

  /** A note ID is in the map exactly when some task names it, and it maps to the last such task. */
  lemma {:induction false} TaskMapOfLast(tasks: seq<Task>, noteId: string)
    ensures noteId in TaskMapOf(tasks) <==> exists i :: 0 <= i < |tasks| && tasks[i].noteId == noteId
    ensures noteId in TaskMapOf(tasks) ==>
      exists i :: (0 <= i < |tasks| && TaskMapOf(tasks)[noteId] == tasks[i] && tasks[i].noteId == noteId
        && forall j :: i < j < |tasks| ==> tasks[j].noteId != noteId)
  {
    if tasks != [] {
      var init := tasks[..|tasks| - 1];
      var last := tasks[|tasks| - 1];
      TaskMapOfLast(init, noteId);
      if last.noteId != noteId && noteId in TaskMapOf(init) {
        var i :| 0 <= i < |init| && TaskMapOf(init)[noteId] == init[i] && init[i].noteId == noteId
          && forall j :: i < j < |init| ==> init[j].noteId != noteId;
        assert tasks[i] == init[i];
      }
      if (exists i :: 0 <= i < |tasks| && tasks[i].noteId == noteId) && last.noteId != noteId {
        var i :| 0 <= i < |tasks| && tasks[i].noteId == noteId;
        assert init[i] == tasks[i];
      }
    }
  }

  /**
   * The type and soft-state test of the task list: a task note with a task
   * row; with `--trash` a note that is not deleted is skipped, with
   * `--archive` a note that is not archived is skipped, and what is left is
   * skipped when it is deleted.
   */
  function TaskKept(taskMap: map<string, Task>, trash: bool, archive: bool): Note -> bool
  {
    (n: Note) =>
      n.noteType == "task" && n.id in taskMap
      && if trash && !n.deleted then false
         else if archive && !n.archived then false
         else !n.deleted
  }

  /** The rows the task list keeps from `notes`, each with its task, in note order. */
  function TaskRows(
    notes: seq<Note>, taskMap: map<string, Task>, display: map<string, seq<string>>, trash: bool, archive: bool,
    filterTags: seq<string>, fromDate: string, toDate: string): seq<(Task, Note)>
  {
    if notes == [] then []
    else
      var rest := TaskRows(notes[..|notes| - 1], taskMap, display, trash, archive, filterTags, fromDate, toDate);
      var n := notes[|notes| - 1];
      if TaskKept(taskMap, trash, archive)(n) && Passes(filterTags, fromDate, toDate, display)(n)
      then rest + [(taskMap[n.id], n)]
      else rest
  }

  /** What `task list` shows, before paging. */
  function TaskList(
    notes: seq<Note>, tasks: seq<Task>, noteTags: seq<NoteTag>, tags: seq<Tag>, trash: bool, archive: bool,
    filterTags: seq<string>, fromDate: string, toDate: string): seq<(Task, Note)>
  {
    TaskRows(notes, TaskMapOf(tasks), Display(notes, noteTags, tags), trash, archive, filterTags, fromDate, toDate)
  }

  /** A row is listed exactly when its note is one of `notes` passing both tests, paired with the note's task. */
  lemma {:induction false} TaskRowsMembership(
    notes: seq<Note>, taskMap: map<string, Task>, display: map<string, seq<string>>, trash: bool, archive: bool,
    filterTags: seq<string>, fromDate: string, toDate: string)
    ensures forall k :: 0 <= k < |TaskRows(notes, taskMap, display, trash, archive, filterTags, fromDate, toDate)| ==>
      var row := TaskRows(notes, taskMap, display, trash, archive, filterTags, fromDate, toDate)[k];
      row.1 in notes && TaskKept(taskMap, trash, archive)(row.1) && Passes(filterTags, fromDate, toDate, display)(row.1)
      && row.0 == taskMap[row.1.id]
    ensures forall n :: n in notes && TaskKept(taskMap, trash, archive)(n) && Passes(filterTags, fromDate, toDate, display)(n) ==>
      exists k :: 0 <= k < |TaskRows(notes, taskMap, display, trash, archive, filterTags, fromDate, toDate)|
        && TaskRows(notes, taskMap, display, trash, archive, filterTags, fromDate, toDate)[k].1 == n
  {
    if notes != [] {
      var init := notes[..|notes| - 1];
      var n := notes[|notes| - 1];
      var rest := TaskRows(init, taskMap, display, trash, archive, filterTags, fromDate, toDate);
      var rows := TaskRows(notes, taskMap, display, trash, archive, filterTags, fromDate, toDate);
      TaskRowsMembership(init, taskMap, display, trash, archive, filterTags, fromDate, toDate);
      assert notes == init + [n];
      assert rest <= rows;
      forall k | 0 <= k < |rows|
        ensures rows[k].1 in notes
      {
        if k < |rest| {
          assert rows[k] == rest[k];
          assert rest[k].1 in init;
        }
      }
      forall m | m in notes && TaskKept(taskMap, trash, archive)(m) && Passes(filterTags, fromDate, toDate, display)(m)
        ensures exists k :: 0 <= k < |rows| && rows[k].1 == m
      {
        if m in init {
          var k :| 0 <= k < |rest| && rest[k].1 == m;
          assert rows[k] == rest[k];
        } else {
          assert m == n;
          assert rows[|rows| - 1].1 == m;
        }
      }
    }
  }

  /**
   * `--trash` lists no task at all: a deleted note passes the first test,
   * falls through to the last branch and is skipped there for being deleted.
   */
  lemma {:induction false} TrashListsNothing(
    notes: seq<Note>, taskMap: map<string, Task>, display: map<string, seq<string>>, archive: bool,
    filterTags: seq<string>, fromDate: string, toDate: string)
    ensures TaskRows(notes, taskMap, display, true, archive, filterTags, fromDate, toDate) == []
  {
    if notes != [] {
      TrashListsNothing(notes[..|notes| - 1], taskMap, display, archive, filterTags, fromDate, toDate);
    }
  }

  /**
   * Everything the task list shows is a live task note of the store paired
   * with the last task row naming it; with `--archive` the note is archived;
   * the tag and date tests hold. Conversely, with no tag and date filters,
   * every live task note that some task row names is shown.
   */
  lemma TaskListSound(
    notes: seq<Note>, tasks: seq<Task>, noteTags: seq<NoteTag>, tags: seq<Tag>, trash: bool, archive: bool,
    filterTags: seq<string>, fromDate: string, toDate: string, k: nat)
    requires k < |TaskList(notes, tasks, noteTags, tags, trash, archive, filterTags, fromDate, toDate)|
    ensures var row := TaskList(notes, tasks, noteTags, tags, trash, archive, filterTags, fromDate, toDate)[k];
      row.1 in notes && row.1.noteType == "task" && !row.1.deleted && (archive ==> row.1.archived)
      && row.0 in tasks && row.0.noteId == row.1.id
      && (filterTags == [] || TagsMatch(TagNamesOf(noteTags, tags, row.1.id), filterTags))
      && IsWithinDateRange(row.1.createdAt, fromDate, toDate)
  {
    var display := Display(notes, noteTags, tags);
    TaskRowsMembership(notes, TaskMapOf(tasks), display, trash, archive, filterTags, fromDate, toDate);
    var row := TaskList(notes, tasks, noteTags, tags, trash, archive, filterTags, fromDate, toDate)[k];
    TaskMapOfLast(tasks, row.1.id);
    assert row.1.id in NoteIds(notes);
    assert TagsOf(display, row.1.id) == TagNamesOf(noteTags, tags, row.1.id);
  }

  lemma TaskListComplete(
    notes: seq<Note>, tasks: seq<Task>, noteTags: seq<NoteTag>, tags: seq<Tag>, n: Note, i: nat)
    requires n in notes && n.noteType == "task" && !n.deleted
    requires i < |tasks| && tasks[i].noteId == n.id
    ensures exists k :: (0 <= k < |TaskList(notes, tasks, noteTags, tags, false, false, [], "", "")|
      && TaskList(notes, tasks, noteTags, tags, false, false, [], "", "")[k].1 == n)
  {
    TaskMapOfLast(tasks, n.id);
    var display := Display(notes, noteTags, tags);
    TaskRowsMembership(notes, TaskMapOf(tasks), display, false, false, [], "", "");
    assert TaskKept(TaskMapOf(tasks), false, false)(n);
    assert Passes([], "", "", display)(n);
    var rows := TaskRows(notes, TaskMapOf(tasks), display, false, false, [], "", "");
    var k :| 0 <= k < |rows| && rows[k].1 == n;
    assert TaskList(notes, tasks, noteTags, tags, false, false, [], "", "")[k].1 == n;
  }

  /** The filter loop of `task list`, with the maps it builds first. */
  method ListTasks(
    notes: seq<Note>, tasks: seq<Task>, noteTags: seq<NoteTag>, tags: seq<Tag>, trash: bool, archive: bool,
    filterTags: seq<string>, fromDate: string, toDate: string)
    returns (rows: seq<(Task, Note)>)
    ensures rows == TaskList(notes, tasks, noteTags, tags, trash, archive, filterTags, fromDate, toDate)
  {
    var taskMap := BuildTaskMap(tasks);
    var display := BuildTagDisplay(notes, noteTags, tags);
    DisplayIsBuilt(notes, noteTags, tags, display);
    rows := FilterTasks(notes, taskMap, display, trash, archive, filterTags, fromDate, toDate);
  }

  /** The loop over the notes of `task list`, keeping each task that passes the filters. */
  method FilterTasks(
    notes: seq<Note>, taskMap: map<string, Task>, display: map<string, seq<string>>, trash: bool, archive: bool,
    filterTags: seq<string>, fromDate: string, toDate: string)
    returns (rows: seq<(Task, Note)>)
    ensures rows == TaskRows(notes, taskMap, display, trash, archive, filterTags, fromDate, toDate)
  {
    rows := [];
    var i := 0;
    while i < |notes|
      invariant 0 <= i <= |notes|
      invariant rows == TaskRows(notes[..i], taskMap, display, trash, archive, filterTags, fromDate, toDate)
    {
      assert notes[..i + 1][..i] == notes[..i];
      var keep := KeepsTask(notes[i], taskMap, display, trash, archive, filterTags, fromDate, toDate);
      if keep {
        rows := rows + [(taskMap[notes[i].id], notes[i])];
      }
      i := i + 1;
    }
    assert notes[..i] == notes;
  }

  /** The task map of `task list`: each note ID to the last task row that names it. */
  method BuildTaskMap(tasks: seq<Task>) returns (taskMap: map<string, Task>)
    ensures taskMap == TaskMapOf(tasks)
  {
    taskMap := map[];
    var i := 0;
    while i < |tasks|
      invariant 0 <= i <= |tasks|
      invariant taskMap == TaskMapOf(tasks[..i])
    {
      assert tasks[..i + 1][..i] == tasks[..i];
      taskMap := taskMap[tasks[i].noteId := tasks[i]];
      i := i + 1;
    }
    assert tasks[..i] == tasks;
  }

  /** The tests of the filter loop of `task list`, on one note. */
  method KeepsTask(
    note: Note, taskMap: map<string, Task>, display: map<string, seq<string>>, trash: bool, archive: bool,
    filterTags: seq<string>, fromDate: string, toDate: string)
    returns (keep: bool)
    ensures keep == (TaskKept(taskMap, trash, archive)(note) && Passes(filterTags, fromDate, toDate, display)(note))
  {
    keep := note.noteType == "task" && note.id in taskMap;
    if keep {
      if trash && !note.deleted {
        keep := false;
      } else if archive && !note.archived {
        keep := false;
      } else if note.deleted {
        keep := false;
      }
    }
    if keep && |filterTags| > 0 {
      keep := HasTags(TagsOf(display, note.id), filterTags);
    }
    if keep && !IsWithinDateRange(note.createdAt, fromDate, toDate) {
      keep := false;
    }
  }

  /** `task list`: the rows, then the pages; the task pager has no single-page early exit. */
  method TaskListCommand(
    notes: seq<Note>, tasks: seq<Task>, noteTags: seq<NoteTag>, tags: seq<Tag>, trash: bool, archive: bool,
    filterTags: seq<string>, fromDate: string, toDate: string, limit: int, answers: seq<string>)
    returns (rows: seq<(Task, Note)>, windows: seq<(int, int)>, ending: Ending)
    ensures rows == TaskList(notes, tasks, noteTags, tags, trash, archive, filterTags, fromDate, toDate)
    ensures (windows, ending) == Pages(|rows|, PageSize(limit, |rows|), None, answers)
  {
    rows := ListTasks(notes, tasks, noteTags, tags, trash, archive, filterTags, fromDate, toDate);
    windows, ending := Paginate(|rows|, PageSize(limit, |rows|), None, answers);
  }

  /**
   * A new task is the last row of the plain task list, with status
   * `Not Started`, while its file says `Not started`; provided no task row
   * has an empty ID and the editor left a file behind.
   */
  lemma NewTaskListed(title: string, taskTags: seq<string>, t: Instant, notes: seq<Note>, tasks: seq<Task>, noteTags: seq<NoteTag>, tags: seq<Tag>)
    requires !HasId(tasks, "")
    ensures var row := NewRow(TimestampId(t), title, "task", Stamp(t)).(seqId := NextId("n", SeqIds(notes)));
      var task := Task(NextId("task-", TaskIds(tasks)), TimestampId(t), "Not Started");
      var listed := TaskList(notes + [row], tasks + [task], noteTags, tags, false, false, [], "", "");
      |listed| > 0 && listed[|listed| - 1] == (task, row)
      && TaskDoc(t, title, taskTags).header.status == Some("Not started") && task.status != "Not started"
  {
    var row := NewRow(TimestampId(t), title, "task", Stamp(t)).(seqId := NextId("n", SeqIds(notes)));
    var task := Task(NextId("task-", TaskIds(tasks)), TimestampId(t), "Not Started");
    var all := notes + [row];
    var m := TaskMapOf(tasks + [task]);
    var display := Display(all, noteTags, tags);
    assert all[..|all| - 1] == notes;
    assert m == TaskMapOf(tasks)[row.id := task] by {
      assert (tasks + [task])[..|tasks|] == tasks;
    }
    assert TaskKept(m, false, false)(row);
    assert Passes([], "", "", display)(row);
    var rest := TaskRows(notes, m, display, false, false, [], "", "");
    assert TaskRows(all, m, display, false, false, [], "", "") == rest + [(task, row)];
    SpellingsDiffer();
  }

  /** The two spellings of the initial status differ in the case of one letter. */
  lemma SpellingsDiffer()
    ensures "Not Started" != "Not started"
  {
    assert "Not Started"[4] == 'S' && "Not started"[4] == 's';
  }

  // ---------------------------------------------------------------------------
  // remove and archive

  function TaskIdIs(taskId: string): Task -> bool
  {
    (t: Task) => t.id == taskId
  }

  /** The note ID of the first task with the ID; an unknown task leaves it empty. */
  function TaskNoteId(tasks: seq<Task>, taskId: string): string
  {
    match FirstIndex(tasks, TaskIdIs(taskId))
    case None => ""
    case Some(i) => tasks[i].noteId
  }

  method FindTaskNoteId(tasks: seq<Task>, taskId: string) returns (noteId: string)
    ensures noteId == TaskNoteId(tasks, taskId)
  {
    noteId := "";
    var i := 0;
    while i < |tasks|
      invariant 0 <= i <= |tasks|
      invariant forall j :: 0 <= j < i ==> !TaskIdIs(taskId)(tasks[j])
    {
      if tasks[i].id == taskId {
        assert FirstIndex(tasks, TaskIdIs(taskId)) == Some(i);
        return tasks[i].noteId;
      }
      i := i + 1;
    }
  }

  /**
   * `MoveTaskToTrash` once the note ID is known: the first row whose display
   * ID equals it has its file's task header flagged deleted, written back and
   * moved to the trash, and only then the row flagged. A missing or
   * unparsable file, or a failed move, is an error.
   */
  function TaskTrashed(s: Store, noteId: string, c: Config): (r: Outcome)
    ensures r.store.noteTags == s.noteTags
    ensures |r.store.notes| == |s.notes|
  {
    match FindBySeqId(s.notes, noteId)
    case None => Outcome(s, false)
    case Some(i) =>
      var src := NotePath(c.zettelDir, s.notes[i].id);
      var dst := NotePath(c.trash.trashDir, s.notes[i].id);
      if src !in s.disk.files || s.disk.files[src].Malformed? then Outcome(s, true)
      else
        var doc := s.disk.files[src];
        var written := Write(s.disk, src, Parsed(AsTaskHeader(doc.header).(deleted := true), doc.body));
        match Rename(written, src, dst)
        case Err(_) => Outcome(s.(disk := written), true)
        case Ok(moved) => Outcome(Store(s.notes[i := s.notes[i].(deleted := true)], s.noteTags, moved), false)
  }

  method MoveTaskToTrash(taskId: string, tasks: seq<Task>, c: Config, s: Store) returns (after: Store, failed: bool)
    ensures Outcome(after, failed) == TaskTrashed(s, TaskNoteId(tasks, taskId), c)
  {
    var noteId := FindTaskNoteId(tasks, taskId);
    var notes := s.notes;
    var i := 0;
    while i < |notes|
      invariant 0 <= i <= |notes|
      invariant forall j :: 0 <= j < i ==> notes[j].seqId != noteId
    {
      if noteId == notes[i].seqId {
        var originalPath := NotePath(c.zettelDir, notes[i].id);
        var deletedPath := NotePath(c.trash.trashDir, notes[i].id);
        if originalPath !in s.disk.files || s.disk.files[originalPath].Malformed? {
          return s, true;
        }
        var doc := s.disk.files[originalPath];
        var disk := Write(s.disk, originalPath, Parsed(AsTaskHeader(doc.header).(deleted := true), doc.body));
        var moved := Rename(disk, originalPath, deletedPath);
        if moved.Err? {
          return s.(disk := disk), true;
        }
        notes := notes[i := notes[i].(deleted := true)];
        return Store(notes, s.noteTags, moved.value), false;
      }
      i := i + 1;
    }
    return s, false;
  }

  /**
   * Trashing a task's note does to the rows and edges what trashing a note
   * does; only the header written differs, keeping the task's status.
   */
  lemma TaskTrashLikeNoteTrash(s: Store, noteId: string, c: Config)
    ensures TaskTrashed(s, noteId, c).failed == Trashed(s, noteId, c).failed
    ensures TaskTrashed(s, noteId, c).store.notes == Trashed(s, noteId, c).store.notes
    ensures TaskTrashed(s, noteId, c).store.disk.files.Keys == Trashed(s, noteId, c).store.disk.files.Keys
  {
  }

  /**
   * A task names its note by timestamp ID, which is all digits, while the
   * trash and the purge look rows up by display ID, which starts with `n`.
   * In a store whose display IDs all start with `n`, removing a task whose
   * note ID is all digits, or an unknown task, moves no file and changes no
   * row; the purge still drops the tag edges of the task's note, which are
   * filtered by that same timestamp ID.
   */
  lemma TaskRemoveMissesNote(s: Store, tasks: seq<Task>, taskId: string, c: Config)
    requires forall j :: 0 <= j < |s.notes| ==> |s.notes[j].seqId| > 0 && s.notes[j].seqId[0] == 'n'
    requires forall j :: 0 <= j < |tasks| ==> AllDigits(tasks[j].noteId)
    ensures TaskTrashed(s, TaskNoteId(tasks, taskId), c) == Outcome(s, false)
    ensures var r := Purged(s, TaskNoteId(tasks, taskId), c);
      !r.failed && r.store.notes == s.notes && r.store.disk == s.disk
      && forall e :: e in r.store.noteTags <==> e in s.noteTags && e.noteId != TaskNoteId(tasks, taskId)
  {
    var noteId := TaskNoteId(tasks, taskId);
    assert noteId == "" || AllDigits(noteId);
    forall j | 0 <= j < |s.notes|
      ensures s.notes[j].seqId != noteId
    {
      if noteId != "" {
        assert IsDigit(noteId[0]);
      }
    }
    RemoveMatchingFiles(s.disk, s.notes, noteId, c.zettelDir);
    assert PurgePaths(s.notes, noteId, c.zettelDir) == {};
    var (d, ok) := RemoveMatching(s.disk, s.notes, noteId, c.zettelDir);
    assert d.files == s.disk.files;
    assert d == s.disk;
    FilterKeepsAll(s.notes, NotSeqId(noteId));
    forall e
      ensures e in Filter(s.noteTags, EdgeNotFor(noteId)) <==> e in s.noteTags && e.noteId != noteId
    {
      FilterMembership(s.noteTags, EdgeNotFor(noteId), e);
    }
  }

  /**
   * `task remove`: purges with its own `--force` flag, else trashes. A purge
   * leaves the task row in tasks.json; neither changes tasks.json.
   */
  method TaskRemove(force: bool, taskId: string, tasks: seq<Task>, c: Config, s: Store) returns (after: Store, fatal: bool)
    ensures force ==> Outcome(after, fatal) == Purged(s, TaskNoteId(tasks, taskId), c)
    ensures !force ==> Outcome(after, fatal) == TaskTrashed(s, TaskNoteId(tasks, taskId), c)
  {
    if force {
      var noteId := FindTaskNoteId(tasks, taskId);
      after, fatal := DeleteNotePermanently(noteId, c, s);
    } else {
      after, fatal := MoveTaskToTrash(taskId, tasks, c, s);
    }
  }

  /**
   * `task archive` once the note ID is known: the task header is flagged
   * archived, written back and moved to the archive directory, and the row
   * flagged whether or not the move succeeded. A missing or unparsable file
   * ends the command with nothing saved.
   */
  function TaskArchived(s: Store, noteId: string, c: Config): (r: Store)
    ensures r.noteTags == s.noteTags
    ensures |r.notes| == |s.notes|
  {
    match FindBySeqId(s.notes, noteId)
    case None => s
    case Some(i) =>
      var src := NotePath(c.zettelDir, s.notes[i].id);
      var dst := NotePath(c.archiveDir, s.notes[i].id);
      if src !in s.disk.files || s.disk.files[src].Malformed? then s
      else
        var doc := s.disk.files[src];
        var written := Write(s.disk, src, Parsed(AsTaskHeader(doc.header).(archived := true), doc.body));
        var disk := match Rename(written, src, dst) case Ok(moved) => moved case Err(_) => written;
        Store(s.notes[i := s.notes[i].(archived := true)], s.noteTags, disk)
  }

  method ArchiveTask(taskId: string, tasks: seq<Task>, c: Config, s: Store) returns (after: Store)
    ensures after == TaskArchived(s, TaskNoteId(tasks, taskId), c)
  {
    var noteId := FindTaskNoteId(tasks, taskId);
    var notes := s.notes;
    var i := 0;
    while i < |notes|
      invariant 0 <= i <= |notes|
      invariant forall j :: 0 <= j < i ==> notes[j].seqId != noteId
    {
      if noteId == notes[i].seqId {
        var originalPath := NotePath(c.zettelDir, notes[i].id);
        var archivedPath := NotePath(c.archiveDir, notes[i].id);
        if originalPath !in s.disk.files || s.disk.files[originalPath].Malformed? {
          return s;
        }
        var doc := s.disk.files[originalPath];
        var disk := Write(s.disk, originalPath, Parsed(AsTaskHeader(doc.header).(archived := true), doc.body));
        var moved := Rename(disk, originalPath, archivedPath);
        if moved.Ok? {
          disk := moved.value;
        }
        notes := notes[i := notes[i].(archived := true)];
        return Store(notes, s.noteTags, disk);
      }
      i := i + 1;
    }
    return s;
  }

  /** Archiving a task's note flags the same row as archiving a note does, and keeps the task's status in its header. */
  lemma TaskArchiveLikeNoteArchive(s: Store, noteId: string, c: Config)
    ensures TaskArchived(s, noteId, c).notes == Archived(s, noteId, c).notes
    ensures TaskArchived(s, noteId, c).disk.files.Keys == Archived(s, noteId, c).disk.files.Keys
  {
  }

  // ---------------------------------------------------------------------------
  // update

  /** tasks.json, notes.json and the files after `task update`, and whether it ended the process. */
  datatype TaskOutcome = TaskOutcome(tasks: seq<Task>, notes: seq<Note>, disk: Disk, fatal: bool)

  /** Whether the file of the note holds a task header with the status. */
  predicate HasStatus(d: Disk, c: Config, noteId: string, status: string)
  {
    var p := NotePath(c.zettelDir, noteId);
    p in d.files && d.files[p].Parsed? && d.files[p].header.status == Some(status)
  }

  /**
   * The inner loop of `task update` over `notes[..k]` for one task: each row
   * with the task's note ID has its file's status set and is stamped `now`;
   * a file that is missing or does not parse ends the process.
   */
  function RefreshNotes(notes: seq<Note>, disk: Disk, k: nat, noteId: string, status: string, now: string, c: Config)
    : (r: (seq<Note>, Disk, bool))
    requires k <= |notes|
    ensures |r.0| == |notes|
    ensures forall j :: k <= j < |notes| ==> r.0[j] == notes[j]
    ensures !r.2 ==> forall j :: 0 <= j < k ==>
      r.0[j] == if notes[j].id == noteId then notes[j].(updatedAt := now) else notes[j]
    ensures !r.2 ==> forall j :: 0 <= j < k && notes[j].id == noteId ==> HasStatus(r.1, c, noteId, status)
    ensures forall id :: HasStatus(disk, c, id, status) ==> HasStatus(r.1, c, id, status)
  {
    if k == 0 then (notes, disk, false)
    else
      var (ns, d, fatal) := RefreshNotes(notes, disk, k - 1, noteId, status, now, c);
      if fatal || notes[k - 1].id != noteId then (ns, d, fatal)
      else
        var p := NotePath(c.zettelDir, notes[k - 1].id);
        if p !in d.files || d.files[p].Malformed? then (ns, d, true)
        else (ns[k - 1 := ns[k - 1].(updatedAt := now)],
              Write(d, p, Parsed(AsTaskHeader(d.files[p].header).(status := Some(status)), d.files[p].body)), false)
  }

  /** The outer loop of `task update` over `tasks[..k]`. */
  function StatusRun(tasks: seq<Task>, k: nat, taskId: string, status: string, now: string, c: Config, notes: seq<Note>, disk: Disk)
    : (r: TaskOutcome)
    requires k <= |tasks|
    ensures |r.tasks| == |tasks| && |r.notes| == |notes|
    ensures forall j :: k <= j < |tasks| ==> r.tasks[j] == tasks[j]
  {
    if k == 0 then TaskOutcome(tasks, notes, disk, false)
    else
      var prev := StatusRun(tasks, k - 1, taskId, status, now, c, notes, disk);
      if prev.fatal || tasks[k - 1].id != taskId then prev
      else
        var (ns, d, fatal) := RefreshNotes(prev.notes, prev.disk, |prev.notes|, tasks[k - 1].noteId, status, now, c);
        TaskOutcome(prev.tasks[k - 1 := prev.tasks[k - 1].(status := status)], ns, d, fatal)
  }

  /**
   * `task update`: an empty status is fatal before anything is read; a
   * missing or unparsable file is fatal, with the files written so far left
   * as they are and neither JSON file saved; an unknown task ID is only
   * logged.
   */
  function StatusUpdated(taskId: string, status: string, now: string, c: Config, tasks: seq<Task>, notes: seq<Note>, disk: Disk)
    : (r: TaskOutcome)
  {
    if status == "" then TaskOutcome(tasks, notes, disk, true)
    else
      var run := StatusRun(tasks, |tasks|, taskId, status, now, c, notes, disk);
      if run.fatal then TaskOutcome(tasks, notes, run.disk, true) else run
  }

  /** Once the inner loop has failed, the rest of it changes nothing. */
  lemma {:induction false} RefreshFatalStays(notes: seq<Note>, disk: Disk, k: nat, m: nat, noteId: string, status: string, now: string, c: Config)
    requires k <= m <= |notes|
    requires RefreshNotes(notes, disk, k, noteId, status, now, c).2
    ensures RefreshNotes(notes, disk, m, noteId, status, now, c) == RefreshNotes(notes, disk, k, noteId, status, now, c)
    decreases m
  {
    if m > k {
      RefreshFatalStays(notes, disk, k, m - 1, noteId, status, now, c);
    }
  }

  /** Once the outer loop has failed, the rest of it changes nothing. */
  lemma {:induction false} StatusFatalStays(tasks: seq<Task>, k: nat, m: nat, taskId: string, status: string, now: string, c: Config, notes: seq<Note>, disk: Disk)
    requires k <= m <= |tasks|
    requires StatusRun(tasks, k, taskId, status, now, c, notes, disk).fatal
    ensures StatusRun(tasks, m, taskId, status, now, c, notes, disk) == StatusRun(tasks, k, taskId, status, now, c, notes, disk)
    decreases m
  {
    if m > k {
      StatusFatalStays(tasks, k, m - 1, taskId, status, now, c, notes, disk);
      var prev := StatusRun(tasks, m - 1, taskId, status, now, c, notes, disk);
      assert prev.fatal;
      assert StatusRun(tasks, m, taskId, status, now, c, notes, disk) == prev;
    }
  }

  /** The inner loop of `task update`, for the task whose note ID is `noteId`. */
  method RefreshTaskNotes(notes: seq<Note>, disk: Disk, noteId: string, status: string, now: string, c: Config)
    returns (updated: seq<Note>, written: Disk, fatal: bool)
    ensures (updated, written, fatal) == RefreshNotes(notes, disk, |notes|, noteId, status, now, c)
  {
    updated, written := notes, disk;
    var j := 0;
    while j < |notes|
      invariant 0 <= j <= |notes|
      invariant RefreshNotes(notes, disk, j, noteId, status, now, c) == (updated, written, false)
    {
      if notes[j].id == noteId {
        var p := NotePath(c.zettelDir, notes[j].id);
        if p !in written.files || written.files[p].Malformed? {
          RefreshFatalStays(notes, disk, j + 1, |notes|, noteId, status, now, c);
          return updated, written, true;
        }
        var content := written.files[p];
        updated := updated[j := updated[j].(updatedAt := now)];
        written := Write(written, p, Parsed(AsTaskHeader(content.header).(status := Some(status)), content.body));
      }
      j := j + 1;
    }
    return updated, written, false;
  }

  method UpdateTaskStatus(taskId: string, status: string, now: string, c: Config, tasks: seq<Task>, notes: seq<Note>, disk: Disk)
    returns (r: TaskOutcome)
    ensures r == StatusUpdated(taskId, status, now, c, tasks, notes, disk)
  {
    if status == "" {
      return TaskOutcome(tasks, notes, disk, true);
    }
    var ts := tasks;
    var ns := notes;
    var d := disk;
    var i := 0;
    while i < |tasks|
      invariant 0 <= i <= |tasks|
      invariant StatusRun(tasks, i, taskId, status, now, c, notes, disk) == TaskOutcome(ts, ns, d, false)
    {
      if tasks[i].id == taskId {
        ts := ts[i := ts[i].(status := status)];
        var fatal;
        ns, d, fatal := RefreshTaskNotes(ns, d, tasks[i].noteId, status, now, c);
        if fatal {
          StatusFatalStays(tasks, i + 1, |tasks|, taskId, status, now, c, notes, disk);
          return TaskOutcome(tasks, notes, d, true);
        }
      }
      i := i + 1;
    }
    return TaskOutcome(ts, ns, d, false);
  }

  /** A task the update does not name keeps its status; every task it names gets the new one. */
  lemma {:induction false} StatusRunTasks(tasks: seq<Task>, k: nat, taskId: string, status: string, now: string, c: Config, notes: seq<Note>, disk: Disk)
    requires k <= |tasks|
    ensures var r := StatusRun(tasks, k, taskId, status, now, c, notes, disk);
      !r.fatal ==> forall j :: 0 <= j < k ==>
        r.tasks[j] == if tasks[j].id == taskId then tasks[j].(status := status) else tasks[j]
  {
    if k > 0 {
      StatusRunTasks(tasks, k - 1, taskId, status, now, c, notes, disk);
    }
  }

  /** The note IDs of the tasks among `tasks[..k]` with the ID. */
  predicate NamedBy(tasks: seq<Task>, k: nat, taskId: string, noteId: string)
    requires k <= |tasks|
  {
    exists i :: 0 <= i < k && tasks[i].id == taskId && tasks[i].noteId == noteId
  }

  lemma NamedByStep(tasks: seq<Task>, k: nat, taskId: string, noteId: string)
    requires 0 < k <= |tasks|
    ensures NamedBy(tasks, k, taskId, noteId) <==>
      NamedBy(tasks, k - 1, taskId, noteId) || (tasks[k - 1].id == taskId && tasks[k - 1].noteId == noteId)
  {
    if NamedBy(tasks, k, taskId, noteId) && !(tasks[k - 1].id == taskId && tasks[k - 1].noteId == noteId) {
      var i :| 0 <= i < k && tasks[i].id == taskId && tasks[i].noteId == noteId;
      assert i < k - 1;
    }
  }

  /**
   * Every note a named task points at is stamped `now` and its file carries
   * the new status; every other row is unchanged.
   */
  lemma {:induction false} StatusRunNotes(tasks: seq<Task>, k: nat, taskId: string, status: string, now: string, c: Config, notes: seq<Note>, disk: Disk)
    requires k <= |tasks|
    ensures var r := StatusRun(tasks, k, taskId, status, now, c, notes, disk);
      !r.fatal ==> forall j :: 0 <= j < |notes| ==>
        r.notes[j] == if NamedBy(tasks, k, taskId, notes[j].id) then notes[j].(updatedAt := now) else notes[j]
    ensures var r := StatusRun(tasks, k, taskId, status, now, c, notes, disk);
      !r.fatal ==> forall j :: 0 <= j < |notes| && NamedBy(tasks, k, taskId, notes[j].id) ==> HasStatus(r.disk, c, notes[j].id, status)
  {
    if k > 0 {
      var prev := StatusRun(tasks, k - 1, taskId, status, now, c, notes, disk);
      var r := StatusRun(tasks, k, taskId, status, now, c, notes, disk);
      StatusRunNotes(tasks, k - 1, taskId, status, now, c, notes, disk);
      if !r.fatal {
        assert !prev.fatal;
        forall j | 0 <= j < |notes|
          ensures r.notes[j] == if NamedBy(tasks, k, taskId, notes[j].id) then notes[j].(updatedAt := now) else notes[j]
          ensures NamedBy(tasks, k, taskId, notes[j].id) ==> HasStatus(r.disk, c, notes[j].id, status)
        {
          NamedByStep(tasks, k, taskId, notes[j].id);
          assert prev.notes[j].id == notes[j].id;
        }
      }
    }
  }

  /**
   * After an update that did not fail, every task with the ID has the new
   * status and no other task changed; the rows of the notes those tasks name
   * are stamped `now`, their files carry the status, and no other row
   * changed.
   */
  lemma StatusUpdateEffect(taskId: string, status: string, now: string, c: Config, tasks: seq<Task>, notes: seq<Note>, disk: Disk)
    ensures var r := StatusUpdated(taskId, status, now, c, tasks, notes, disk);
      !r.fatal ==>
        status != ""
        && |r.tasks| == |tasks| && (forall j :: 0 <= j < |tasks| ==>
          r.tasks[j] == if tasks[j].id == taskId then tasks[j].(status := status) else tasks[j])
        && |r.notes| == |notes| && (forall j :: 0 <= j < |notes| ==>
          r.notes[j] == if NamedBy(tasks, |tasks|, taskId, notes[j].id) then notes[j].(updatedAt := now) else notes[j])
        && forall j :: 0 <= j < |notes| && NamedBy(tasks, |tasks|, taskId, notes[j].id) ==> HasStatus(r.disk, c, notes[j].id, status)
  {
    StatusRunTasks(tasks, |tasks|, taskId, status, now, c, notes, disk);
    StatusRunNotes(tasks, |tasks|, taskId, status, now, c, notes, disk);
  }

  /** An unknown task ID changes nothing and is not an error. */
  lemma {:induction false} UnknownTaskUnchanged(tasks: seq<Task>, k: nat, taskId: string, status: string, now: string, c: Config, notes: seq<Note>, disk: Disk)
    requires k <= |tasks|
    requires forall j :: 0 <= j < |tasks| ==> tasks[j].id != taskId
    ensures StatusRun(tasks, k, taskId, status, now, c, notes, disk) == TaskOutcome(tasks, notes, disk, false)
  {
    if k > 0 {
      UnknownTaskUnchanged(tasks, k - 1, taskId, status, now, c, notes, disk);
    }
  }
}
