/**
 * The note subcommands shared by the permanent, literature, fleeting,
 * structure and index commands: `new` (tags, file, row and tag edges, then
 * the row refreshed from the file the editor leaves behind), `edit`,
 * `archive`, `remove` and `restore`.
 */
module NoteCommands {
  import opened Wrappers
  import opened Seqs
  import opened Text
  import opened Model
  import opened Disk
  import opened DisplayIds
  import opened Storage
  import opened Tags
  import opened NoteTags
  import opened Query
  import opened Clock
  import opened Listing

  /**
   * The value a flag variable of another subcommand holds while this one
   * runs: only the flags of the subcommand being run are parsed, so the
   * variable keeps the default it was registered with.
   */
  const Unparsed: bool := false

  /** The collections a `new` command touches. */
  datatype Zettel = Zettel(notes: seq<Note>, tags: seq<Tag>, noteTags: seq<NoteTag>, disk: Disk)

  // ---------------------------------------------------------------------------
  // new

  function NewHeader(id: string, title: string, noteType: string, tags: seq<string>, stamp: string): FrontMatter
  {
    FrontMatter(id, title, noteType, tags, [], "", stamp, stamp, false, false, None)
  }

  function NewRow(id: string, title: string, noteType: string, stamp: string): Note
  {
    Note(id, "", title, noteType, "", "", "", stamp, stamp, false, false)
  }

  /** What a new note file reads back as: its header, and the body `## <title>`, trimmed. */
  function NewDoc(t: Instant, title: string, noteType: string, tags: seq<string>): Doc
  {
    Parsed(NewHeader(TimestampId(t), title, noteType, tags, Stamp(t)), TrimSpace("## " + title))
  }

  /** Writes the file of a note created at `t` and appends its row under the next display ID. */
  method CreateNote(noteType: string, title: string, headerTags: seq<string>, t: Instant, c: Config, notes: seq<Note>, disk: Disk)
    returns (path: Path, note: Note, updated: seq<Note>, written: Disk)
    ensures path == NotePath(c.zettelDir, TimestampId(t))
    ensures note == NewRow(TimestampId(t), title, noteType, Stamp(t))
    ensures written == Write(disk, path, NewDoc(t, title, noteType, headerTags))
    ensures updated == notes + [note.(seqId := NextId("n", SeqIds(notes)))]
  {
    var noteId := TimestampId(t);
    var createdAt := Stamp(t);
    path := NotePath(c.zettelDir, noteId);
    written := Write(disk, path, NewDoc(t, title, noteType, headerTags));
    note := NewRow(noteId, title, noteType, createdAt);
    updated := InsertNoteToJson(notes, note);
  }

  /**
   * The row a note gets when it is created: a fresh display ID, both flags
   * clear, created and updated at the same instant, a creation date that the
   * date filters read as the day of creation (so `--from` and `--to` that
   * day both keep it), and, unless the type is `task`, a place in the plain
   * list of its own type.
   */
  lemma NewRowShape(t: Instant, title: string, noteType: string, notes: seq<Note>)
    requires ValidInstant(t) && 1000 <= t.year <= 9999
    ensures var row := NewRow(TimestampId(t), title, noteType, Stamp(t)).(seqId := NextId("n", SeqIds(notes)));
      |row.id| == 14 && AllDigits(row.id)
      && !row.archived && !row.deleted && row.createdAt == row.updatedAt
      && (MaxSuffix("n", SeqIds(notes)) < MaxInt64 ==> forall i :: 0 <= i < |notes| ==> notes[i].seqId != row.seqId)
      && ParseDate(NoteDate(row.createdAt)) == Some(Date(t.year, t.month, t.day))
      && IsWithinDateRange(row.createdAt, DateStamp(t), DateStamp(t))
      && (noteType != "task" ==> Listed(noteType, false, false)(row))
  {
    StampDate(t);
    DateStampParses(t);
    DateRangeInclusive(Stamp(t), DateStamp(t), DateStamp(t));
    if MaxSuffix("n", SeqIds(notes)) < MaxInt64 {
      NextIdFresh("n", SeqIds(notes));
    }
  }

  /** The edges after tagging a note with each name in turn; a name whose edge exists already adds nothing. */
  function TagEdges(noteId: string, names: seq<string>, tags: seq<Tag>, noteTags: seq<NoteTag>): seq<NoteTag>
  {
    if names == [] then noteTags
    else
      var before := TagEdges(noteId, names[..|names| - 1], tags, noteTags);
      match Tagged(noteId, names[|names| - 1], tags, 0, before)
      case None => before
      case Some(after) => after
  }

  /** The loop of `new` that joins the note to each tag name given; failures are only logged. */
  method InsertTagEdges(noteId: string, names: seq<string>, tags: seq<Tag>, noteTags: seq<NoteTag>)
    returns (updated: seq<NoteTag>)
    ensures updated == TagEdges(noteId, names, tags, noteTags)
  {
    updated := noteTags;
    for k := 0 to |names|
      invariant updated == TagEdges(noteId, names[..k], tags, noteTags)
    {
      assert names[..k + 1][..k] == names[..k];
      var next, written := InsertNoteTag(noteId, names[k], tags, updated);
      updated := next;
    }
    assert names[..|names|] == names;
  }

  /**
   * Tagging a note keeps every edge there was, in front; every edge added
   * joins the note to a tag carrying one of the names; no duplicate edge
   * appears; and with tag names unique, the note ends up joined to the tag
   * of every name given that has one.
   */
  lemma {:induction false} TagEdgesSound(noteId: string, names: seq<string>, tags: seq<Tag>, noteTags: seq<NoteTag>)
    ensures noteTags <= TagEdges(noteId, names, tags, noteTags)
    ensures forall i :: |noteTags| <= i < |TagEdges(noteId, names, tags, noteTags)| ==>
      TagEdges(noteId, names, tags, noteTags)[i].noteId == noteId
      && exists t :: 0 <= t < |tags| && tags[t].id == TagEdges(noteId, names, tags, noteTags)[i].tagId && tags[t].name in names
    ensures PairsUnique(noteTags) ==> PairsUnique(TagEdges(noteId, names, tags, noteTags))
    ensures NamesUnique(tags) ==> forall k, t :: 0 <= k < |names| && 0 <= t < |tags| && tags[t].name == names[k] ==>
      HasPair(TagEdges(noteId, names, tags, noteTags), noteId, tags[t].id)
  {
    if names != [] {
      var init := names[..|names| - 1];
      var name := names[|names| - 1];
      var before := TagEdges(noteId, init, tags, noteTags);
      var r := TagEdges(noteId, names, tags, noteTags);
      TagEdgesSound(noteId, init, tags, noteTags);
      TaggedAddsOnlyNamed(noteId, name, tags, 0, before);
      if PairsUnique(before) {
        TaggedKeepsPairsUnique(noteId, name, tags, 0, before);
      }
      assert before <= r;
      forall i | |noteTags| <= i < |r|
        ensures r[i].noteId == noteId && exists t :: 0 <= t < |tags| && tags[t].id == r[i].tagId && tags[t].name in names
      {
        if i < |before| {
          assert r[i] == before[i];
          var t :| 0 <= t < |tags| && tags[t].id == before[i].tagId && tags[t].name in init;
          assert tags[t].name in names;
        } else {
          var t :| 0 <= t < |tags| && tags[t].id == r[i].tagId && tags[t].name == name;
          assert tags[t].name in names;
        }
      }
      if NamesUnique(tags) {
        TaggedWithUniqueNames(noteId, name, tags, 0, before);
        forall k, t | 0 <= k < |names| && 0 <= t < |tags| && tags[t].name == names[k]
          ensures HasPair(r, noteId, tags[t].id)
        {
          if k < |names| - 1 {
            assert names[k] == init[k];
            var j :| 0 <= j < |before| && before[j].noteId == noteId && before[j].tagId == tags[t].id;
            assert r[j] == before[j];
          } else if !HasPair(before, noteId, tags[t].id) {
            assert r == before + [NoteTag(noteId, tags[t].id)];
            assert r[|before|] == NoteTag(noteId, tags[t].id);
          }
        }
      }
    }
  }

  /** The test the loops that look a note up by its timestamp ID apply. */
  function IdIs(noteId: string): Note -> bool
  {
    (n: Note) => n.id == noteId
  }

  /**
   * Title, type and content a row takes from its file read back after the
   * editor: the header's title and type and the body, or, when the header
   * cannot be parsed, empty title and type and the whole text. A file that
   * cannot be read reads as empty text.
   */
  function EditedFields(read: Option<Doc>): (string, string, string)
  {
    match read
    case None => ("", "", "")
    case Some(Malformed(text)) => ("", "", text)
    case Some(Parsed(h, body)) => (h.title, h.noteType, body)
  }

  /** The rows after the first one with the note's timestamp ID is refreshed from its file. */
  function Synced(notes: seq<Note>, noteId: string, read: Option<Doc>, now: string): (r: seq<Note>)
    ensures |r| == |notes|
  {
    match FirstIndex(notes, IdIs(noteId))
    case None => notes
    case Some(i) =>
      var (title, noteType, content) := EditedFields(read);
      notes[i := notes[i].(title := title, noteType := noteType, content := content, updatedAt := now)]
  }

  method SyncCreatedRow(notes: seq<Note>, noteId: string, read: Option<Doc>, now: string) returns (updated: seq<Note>)
    ensures updated == Synced(notes, noteId, read, now)
  {
    var fields := EditedFields(read);
    updated := notes;
    var i := 0;
    while i < |updated|
      invariant 0 <= i <= |updated| && updated == notes
      invariant forall j :: 0 <= j < i ==> !IdIs(noteId)(notes[j])
    {
      if updated[i].id == noteId {
        assert FirstIndex(notes, IdIs(noteId)) == Some(i);
        updated := updated[i := updated[i].(title := fields.0, noteType := fields.1, content := fields.2, updatedAt := now)];
        return;
      }
      i := i + 1;
    }
  }

  /** The file the editor leaves at `p`: a document, or nothing readable. */
  function AfterEditor(d: Disk, p: Path, edited: Option<Doc>): Disk
  {
    match edited
    case None => d.(files := d.files - {p})
    case Some(doc) => Write(d, p, doc)
  }

  /**
   * `new`: creates the tags `createTags`, writes the note file with
   * `headerTags` in its header, appends the row, joins the note to the tags
   * named in `edgeTags`, lets the editor leave `edited` behind, and refreshes
   * the row from the file.
   */
  method NewNote(
    noteType: string, title: string, createTags: seq<string>, headerTags: seq<string>, edgeTags: seq<string>,
    t: Instant, now: string, edited: Option<Doc>, c: Config, z: Zettel)
    returns (after: Zettel)
    ensures z.tags <= after.tags
    ensures forall k :: 0 <= k < |createTags| ==> HasName(after.tags, createTags[k])
    ensures forall i :: |z.tags| <= i < |after.tags| ==> after.tags[i].name in createTags
    ensures createTags == [] ==> after.tags == z.tags
    ensures after.noteTags == TagEdges(TimestampId(t), edgeTags, after.tags, z.noteTags)
    ensures after.notes == Synced(
      z.notes + [NewRow(TimestampId(t), title, noteType, Stamp(t)).(seqId := NextId("n", SeqIds(z.notes)))],
      TimestampId(t), edited, now)
    ensures after.disk == AfterEditor(
      Write(z.disk, NotePath(c.zettelDir, TimestampId(t)), NewDoc(t, title, noteType, headerTags)),
      NotePath(c.zettelDir, TimestampId(t)), edited)
  {
    var tags := z.tags;
    if |createTags| > 0 {
      tags := CreateNewTag(createTags, tags);
    }
    var path, note, notes, disk := CreateNote(noteType, title, headerTags, t, c, z.notes, z.disk);
    var noteTags := InsertTagEdges(note.id, edgeTags, tags, z.noteTags);
    disk := AfterEditor(disk, path, edited);
    var noteId := TrimSuffix(path.name, ".md");
    assert path.name[|path.name| - 3..] == ".md";
    assert noteId == note.id;
    var read := if path in disk.files then Some(disk.files[path]) else None;
    assert read == edited;
    notes := SyncCreatedRow(notes, noteId, read, now);
    return Zettel(notes, tags, noteTags, disk);
  }

  /**
   * When the editor leaves the new file as it was written and no older row
   * has the same timestamp ID, the row keeps its title and type, takes the
   * trimmed `## <title>` body as its content, and is stamped `now`.
   */
  lemma UntouchedNewNote(t: Instant, title: string, noteType: string, headerTags: seq<string>, now: string, notes: seq<Note>)
    requires forall j :: 0 <= j < |notes| ==> notes[j].id != TimestampId(t)
    ensures var row := NewRow(TimestampId(t), title, noteType, Stamp(t)).(seqId := NextId("n", SeqIds(notes)));
      Synced(notes + [row], TimestampId(t), Some(NewDoc(t, title, noteType, headerTags)), now)
        == notes + [row.(content := TrimSpace("## " + title), updatedAt := now)]
  {
    var row := NewRow(TimestampId(t), title, noteType, Stamp(t)).(seqId := NextId("n", SeqIds(notes)));
    SyncedNewRow(notes, row, TimestampId(t), Some(NewDoc(t, title, noteType, headerTags)), now);
  }

  /** A refresh whose ID only the appended row carries lands on that row. */
  lemma SyncedNewRow(notes: seq<Note>, row: Note, noteId: string, read: Option<Doc>, now: string)
    requires row.id == noteId && forall j :: 0 <= j < |notes| ==> notes[j].id != noteId
    ensures var (title, noteType, content) := EditedFields(read);
      Synced(notes + [row], noteId, read, now) == notes + [row.(title := title, noteType := noteType, content := content, updatedAt := now)]
  {
    var rows := notes + [row];
    assert FirstIndex(rows, IdIs(noteId)) == Some(|notes|) by {
      assert IdIs(noteId)(rows[|notes|]);
      assert forall j :: 0 <= j < |notes| ==> rows[j] == notes[j];
    }
  }

  /**
   * A file whose header no longer parses blanks the row's title and type
   * and stores the whole text as its content.
   */
  lemma UnparsableNewNote(notes: seq<Note>, noteId: string, text: string, now: string, i: nat)
    requires FirstIndex(notes, IdIs(noteId)) == Some(i)
    ensures Synced(notes, noteId, Some(Malformed(text)), now)[i] == notes[i].(title := "", noteType := "", content := text, updatedAt := now)
  {
  }

  /**
   * Two notes created within the same second share a timestamp ID: the
   * refresh after the second `new` lands on the older row, and the new row
   * keeps the fields it was created with.
   */
  lemma SameSecondRefreshesOlderRow(
    t: Instant, title: string, noteType: string, edited: Option<Doc>, now: string, notes: seq<Note>, k: nat)
    requires k < |notes| && notes[k].id == TimestampId(t)
    ensures var row := NewRow(TimestampId(t), title, noteType, Stamp(t)).(seqId := NextId("n", SeqIds(notes)));
      Synced(notes + [row], TimestampId(t), edited, now) == Synced(notes, TimestampId(t), edited, now) + [row]
  {
    var row := NewRow(TimestampId(t), title, noteType, Stamp(t)).(seqId := NextId("n", SeqIds(notes)));
    SyncedAppend(notes, row, TimestampId(t), edited, now, k);
  }

  /** A refresh that finds its row among `notes` leaves a row appended after them alone. */
  lemma SyncedAppend(notes: seq<Note>, row: Note, noteId: string, read: Option<Doc>, now: string, k: nat)
    requires k < |notes| && notes[k].id == noteId
    ensures Synced(notes + [row], noteId, read, now) == Synced(notes, noteId, read, now) + [row]
  {
    var p := IdIs(noteId);
    assert p(notes[k]);
    FirstIndexAppend(notes, [row], p);
    var i := FirstIndex(notes, p).value;
    var (title, noteType, content) := EditedFields(read);
    var x := notes[i].(title := title, noteType := noteType, content := content, updatedAt := now);
    assert (notes + [row])[i := x] == notes[i := x] + [row];
  }

  // ---------------------------------------------------------------------------
  // Command wiring of new

  /** `permanent new` and `literature new`: the `--tag` names are created, written to the header and joined to the note. */
  method TaggedNew(noteType: string, title: string, tags: seq<string>, t: Instant, now: string, edited: Option<Doc>, c: Config, z: Zettel)
    returns (after: Zettel)
    ensures forall k :: 0 <= k < |tags| ==> HasName(after.tags, tags[k])
    ensures after.noteTags == TagEdges(TimestampId(t), tags, after.tags, z.noteTags)
  {
    after := NewNote(noteType, title, tags, tags, tags, t, now, edited, c, z);
  }

  /** `fleeting new`: there is no `--tag` flag, so no tag is created, written or joined. */
  method FleetingNew(title: string, t: Instant, now: string, edited: Option<Doc>, c: Config, z: Zettel)
    returns (after: Zettel)
    ensures after.tags == z.tags && after.noteTags == z.noteTags
    ensures Write(z.disk, NotePath(c.zettelDir, TimestampId(t)), NewDoc(t, title, "fleeting", [])).files[NotePath(c.zettelDir, TimestampId(t))].header.tags == []
  {
    after := NewNote("fleeting", title, [], [], [], t, now, edited, c, z);
  }

  /**
   * `structure new`: the `--tag` names are created and written to the
   * header, but the edges are made for the permanent command's tag list,
   * which is never set here, so the note is joined to no tag at all.
   */
  method StructureNew(title: string, structureTags: seq<string>, t: Instant, now: string, edited: Option<Doc>, c: Config, z: Zettel)
    returns (after: Zettel)
    ensures forall k :: 0 <= k < |structureTags| ==> HasName(after.tags, structureTags[k])
    ensures after.noteTags == z.noteTags
  {
    var permanentTags: seq<string> := [];
    after := NewNote("structure", title, structureTags, structureTags, permanentTags, t, now, edited, c, z);
  }

  // ---------------------------------------------------------------------------
  // edit

  /**
   * `edit`, once the editor has exited: the file is read back as a task
   * header, stamped `now` and written again; the row takes the header's
   * title, the body and the stamp. A file that is missing or does not parse
   * ends the process; an unknown display ID is only reported.
   */
  function Edited(s: Store, seqId: string, now: string, c: Config): (r: Outcome)
    ensures r.store.noteTags == s.noteTags
    ensures |r.store.notes| == |s.notes|
  {
    match FindBySeqId(s.notes, seqId)
    case None => Outcome(s, false)
    case Some(i) =>
      var p := NotePath(c.zettelDir, s.notes[i].id);
      if p !in s.disk.files || s.disk.files[p].Malformed? then Outcome(s, true)
      else
        var doc := s.disk.files[p];
        var header := AsTaskHeader(doc.header).(updatedAt := now);
        var row := s.notes[i].(title := header.title, updatedAt := now, content := doc.body);
        Outcome(Store(s.notes[i := row], s.noteTags, Write(s.disk, p, Parsed(header, doc.body))), false)
  }

  method EditNote(seqId: string, now: string, c: Config, s: Store) returns (after: Store, fatal: bool)
    ensures Outcome(after, fatal) == Edited(s, seqId, now, c)
  {
    var notes := s.notes;
    var i := 0;
    while i < |notes|
      invariant 0 <= i <= |notes|
      invariant forall j :: 0 <= j < i ==> notes[j].seqId != seqId
    {
      if seqId == notes[i].seqId {
        var p := NotePath(c.zettelDir, notes[i].id);
        if p !in s.disk.files {
          return s, true;
        }
        var doc := s.disk.files[p];
        if doc.Malformed? {
          return s, true;
        }
        var frontMatter := AsTaskHeader(doc.header);
        frontMatter := frontMatter.(updatedAt := now);
        notes := notes[i := notes[i].(updatedAt := now)];
        var disk := Write(s.disk, p, Parsed(frontMatter, doc.body));
        notes := notes[i := notes[i].(title := frontMatter.title, updatedAt := now, content := doc.body)];
        return Store(notes, s.noteTags, disk), false;
      }
      i := i + 1;
    }
    return s, false;
  }

  /**
   * After an edit that does not fail, the edited row and its file agree on
   * title and update stamp; the row's type, flags and IDs are untouched;
   * every other row is as it was; and a header that had no `status` key is
   * written back with an empty status.
   */
  lemma EditKeepsRowAndFile(s: Store, seqId: string, now: string, c: Config)
    requires FindBySeqId(s.notes, seqId).Some?
    ensures var i := FindBySeqId(s.notes, seqId).value;
      var r := Edited(s, seqId, now, c);
      var p := NotePath(c.zettelDir, s.notes[i].id);
      !r.failed ==>
        p in r.store.disk.files && r.store.disk.files[p].Parsed?
        && r.store.disk.files[p].header.title == r.store.notes[i].title
        && r.store.disk.files[p].header.updatedAt == r.store.notes[i].updatedAt == now
        && r.store.notes[i].(title := s.notes[i].title, updatedAt := s.notes[i].updatedAt, content := s.notes[i].content) == s.notes[i]
        && (forall j :: 0 <= j < |s.notes| && j != i ==> r.store.notes[j] == s.notes[j])
        && (s.disk.files[p].header.status.None? ==> r.store.disk.files[p].header.status == Some(""))
  {
  }

  /** Editing fails exactly when the note's file is missing or its header does not parse. */
  lemma EditFails(s: Store, seqId: string, now: string, c: Config)
    ensures var p := NotePath(c.zettelDir, if FindBySeqId(s.notes, seqId).Some? then s.notes[FindBySeqId(s.notes, seqId).value].id else "");
      Edited(s, seqId, now, c).failed <==>
        FindBySeqId(s.notes, seqId).Some? && (p !in s.disk.files || s.disk.files[p].Malformed?)
  {
  }

  // ---------------------------------------------------------------------------
  // archive

  /**
   * `archive`: the header gets `archived: true`, the file is written back and
   * moved to the archive directory, and the row is flagged archived whether
   * or not the move succeeded. A file that is missing or does not parse
   * stops the command with nothing saved.
   */
  function Archived(s: Store, seqId: string, c: Config): (r: Store)
    ensures r.noteTags == s.noteTags
    ensures |r.notes| == |s.notes|
  {
    match FindBySeqId(s.notes, seqId)
    case None => s
    case Some(i) =>
      var src := NotePath(c.zettelDir, s.notes[i].id);
      var dst := NotePath(c.archiveDir, s.notes[i].id);
      if src !in s.disk.files || s.disk.files[src].Malformed? then s
      else
        var doc := s.disk.files[src];
        var written := Write(s.disk, src, Parsed(AsNoteHeader(doc.header).(archived := true), doc.body));
        var disk := match Rename(written, src, dst) case Ok(moved) => moved case Err(_) => written;
        Store(s.notes[i := s.notes[i].(archived := true)], s.noteTags, disk)
  }

  method ArchiveNote(seqId: string, c: Config, s: Store) returns (after: Store)
    ensures after == Archived(s, seqId, c)
  {
    var notes := s.notes;
    var i := 0;
    while i < |notes|
      invariant 0 <= i <= |notes|
      invariant forall j :: 0 <= j < i ==> notes[j].seqId != seqId
    {
      if seqId == notes[i].seqId {
        var originalPath := NotePath(c.zettelDir, notes[i].id);
        var archivedPath := NotePath(c.archiveDir, notes[i].id);
        if originalPath !in s.disk.files {
          return s;
        }
        var doc := s.disk.files[originalPath];
        if doc.Malformed? {
          return s;
        }
        var frontMatter := new NoteFrontMatter.Decoded(doc.header);
        var updatedFrontMatter := UpdateArchivedToFrontMatter(frontMatter);
        var disk := Write(s.disk, originalPath, Parsed(updatedFrontMatter.Value(), doc.body));
        var moved := Rename(disk, originalPath, archivedPath);
        if moved.Ok? {
          disk := moved.value;
        }
        notes := notes[i := notes[i].(archived := true)];
        return Store(notes, s.noteTags, disk);
      }
      i := i + 1;
    }
    return s;
  }

  /**
   * Archiving flags the first row with the display ID and no other, even when
   * the file cannot be moved: a locked file stays in the Zettelkasten
   * directory while its row says it is archived.
   */
  lemma ArchiveFlagsRow(s: Store, seqId: string, c: Config)
    requires FindBySeqId(s.notes, seqId).Some?
    ensures var i := FindBySeqId(s.notes, seqId).value;
      var src := NotePath(c.zettelDir, s.notes[i].id);
      var r := Archived(s, seqId, c);
      src in s.disk.files && s.disk.files[src].Parsed? ==>
        r.notes == s.notes[i := s.notes[i].(archived := true)]
        && (src in s.disk.locked ==> src in r.disk.files && r.disk.files[src].Parsed? && r.disk.files[src].header.archived)
  {
  }

  /**
   * Restoring from the archive undoes archiving: rows, edges and files are as
   * they were, provided the row was not archived, its file held a plain note
   * header that was not archived, the archive is a directory of its own with
   * no file of that name yet, and nothing is locked.
   */
  lemma RestoreUndoesArchive(s: Store, seqId: string, c: Config)
    requires FindBySeqId(s.notes, seqId).Some?
    requires var n := s.notes[FindBySeqId(s.notes, seqId).value];
      var src := NotePath(c.zettelDir, n.id);
      !n.archived && src in s.disk.files && s.disk.files[src].Parsed?
      && s.disk.files[src].header.status == None && !s.disk.files[src].header.archived
      && c.archiveDir != c.zettelDir && NotePath(c.archiveDir, n.id) !in s.disk.files
      && s.disk.locked == {}
    ensures Restored(Archived(s, seqId, c), seqId, c, false, true) == Outcome(s, false)
  {
    var i := FindBySeqId(s.notes, seqId).value;
    var n := s.notes[i];
    var src := NotePath(c.zettelDir, n.id);
    var dst := NotePath(c.archiveDir, n.id);
    var doc := s.disk.files[src];
    var archivedDoc := Parsed(doc.header.(archived := true), doc.body);
    ArchivedExactly(s, seqId, c);
    var a := Store(s.notes[i := n.(archived := true)], s.noteTags, Disk((s.disk.files - {src})[dst := archivedDoc], {}));
    assert FindBySeqId(a.notes, seqId) == Some(i) by {
      assert forall j :: 0 <= j < |a.notes| ==> a.notes[j].seqId == s.notes[j].seqId;
    }
    RestoredFromArchiveExactly(a, seqId, c);
    assert RestoredHeader(AsNoteHeader(archivedDoc.header), false, true) == doc.header;
    MoveBack(s.disk.files, src, dst, archivedDoc);
    assert a.notes[i := a.notes[i].(archived := false)] == s.notes;
  }

  /** Archiving a note whose file can be moved, spelled out. */
  lemma ArchivedExactly(s: Store, seqId: string, c: Config)
    requires FindBySeqId(s.notes, seqId).Some?
    requires var n := s.notes[FindBySeqId(s.notes, seqId).value];
      var src := NotePath(c.zettelDir, n.id);
      src in s.disk.files && s.disk.files[src].Parsed? && s.disk.locked == {}
    ensures var i := FindBySeqId(s.notes, seqId).value;
      var n := s.notes[i];
      var src := NotePath(c.zettelDir, n.id);
      var doc := s.disk.files[src];
      var moved := Parsed(AsNoteHeader(doc.header).(archived := true), doc.body);
      Archived(s, seqId, c) == Store(s.notes[i := n.(archived := true)], s.noteTags,
        Disk((s.disk.files - {src})[NotePath(c.archiveDir, n.id) := moved], {}))
  {
    var i := FindBySeqId(s.notes, seqId).value;
    var src := NotePath(c.zettelDir, s.notes[i].id);
    var doc := s.disk.files[src];
    var moved := Parsed(AsNoteHeader(doc.header).(archived := true), doc.body);
    assert s.disk.files[src := moved] - {src} == s.disk.files - {src};
  }

  // ---------------------------------------------------------------------------
  // remove and restore

  /** `remove`: purge when the force flag it reads is set, else move to the trash. */
  function RemoveNote(force: bool, seqId: string, c: Config, s: Store): (r: Outcome)
    ensures force ==> r == Purged(s, seqId, c)
    ensures !force ==> r == Trashed(s, seqId, c)
  {
    if force then Purged(s, seqId, c) else Trashed(s, seqId, c)
  }

  /** `literature remove` reads its own `-f`. */
  function LiteratureRemove(literatureForceDelete: bool, seqId: string, c: Config, s: Store): (r: Outcome)
    ensures literatureForceDelete ==> !r.failed ==> FindBySeqId(r.store.notes, seqId).None?
  {
    PurgeRemovesNote(s, seqId, c);
    RemoveNote(literatureForceDelete, seqId, c, s)
  }

  /**
   * `remove` of the permanent, structure and index commands reads the
   * literature command's force flag, which is never set while they run: their
   * own `-f` is ignored and a note is only ever moved to the trash.
   */
  function ForeignFlagRemove(ownForceDelete: bool, seqId: string, c: Config, s: Store): (r: Outcome)
    ensures r == Trashed(s, seqId, c)
    ensures |r.store.notes| == |s.notes| && r.store.noteTags == s.noteTags
  {
    var literatureForceDelete := Unparsed;
    RemoveNote(literatureForceDelete, seqId, c, s)
  }

  /**
   * The restore flags after resolution, as (from trash, from archive); `None`
   * when both were given, which ends the process.
   */
  method ResolveRestore(restoreTrash: bool, restoreArchive: bool) returns (r: Option<(bool, bool)>)
    ensures r.None? <==> restoreTrash && restoreArchive
    ensures r.Some? ==> r.value.0 != r.value.1
    ensures r.Some? ==> (r.value.1 <==> restoreArchive)
  {
    if restoreTrash && restoreArchive {
      return None;
    }
    var fromTrash := restoreTrash;
    if !restoreTrash && !restoreArchive {
      fromTrash := true;
    }
    return Some((fromTrash, restoreArchive));
  }

  /** `structure restore`: both flags is fatal, neither means the trash. */
  method StructureRestore(restoreTrash: bool, restoreArchive: bool, seqId: string, c: Config, s: Store)
    returns (after: Store, fatal: bool)
    ensures restoreTrash && restoreArchive ==> after == s && fatal
    ensures !restoreArchive ==> Outcome(after, fatal) == Restored(s, seqId, c, true, false)
    ensures !restoreTrash && restoreArchive ==> Outcome(after, fatal) == Restored(s, seqId, c, false, true)
  {
    var flags := ResolveRestore(restoreTrash, restoreArchive);
    if flags.None? {
      return s, true;
    }
    after, fatal := RestoreNote(seqId, c, flags.value.0, flags.value.1, s);
  }

  /**
   * `index restore` reads `permanentRestoreTrash` and `permanentRestoreArchive`,
   * which no file of the program declares. Taken as false, the default of a
   * boolean flag, its own `--trash` and `--archive` are ignored and a note
   * always comes back from the trash.
   */
  method IndexRestore(ownRestoreTrash: bool, ownRestoreArchive: bool, seqId: string, c: Config, s: Store)
    returns (after: Store, fatal: bool)
    ensures Outcome(after, fatal) == Restored(s, seqId, c, true, false)
  {
    var permanentRestoreTrash, permanentRestoreArchive := Unparsed, Unparsed;
    after, fatal := StructureRestore(permanentRestoreTrash, permanentRestoreArchive, seqId, c, s);
  }
}
