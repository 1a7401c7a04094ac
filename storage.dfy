/**
 * The note store: notes.json, note_tags.json and the note files in the
 * Zettelkasten, trash and archive directories. Notes are numbered `n001`,
 * `n002`, ...; a note is moved to the trash, restored, purged or swept out of
 * the trash once it has been there longer than the retention period.
 */
module Storage {
  import opened Wrappers
  import opened Seqs
  import opened Text
  import opened Model
  import opened Disk
  import opened DisplayIds

  /** The three places a note lives: its row, its tag edges and its file. */
  datatype Store = Store(notes: seq<Note>, noteTags: seq<NoteTag>, disk: Disk)

  /** What an operation leaves behind, and whether it returned an error. */
  datatype Outcome = Outcome(store: Store, failed: bool)

  function SeqIds(notes: seq<Note>): (ids: seq<string>)
    ensures |ids| == |notes| && forall i :: 0 <= i < |notes| ==> ids[i] == notes[i].seqId
  {
    seq(|notes|, i requires 0 <= i < |notes| => notes[i].seqId)
  }

  predicate SeqIdsUnique(notes: seq<Note>)
  {
    forall i, j :: 0 <= i < j < |notes| ==> notes[i].seqId != notes[j].seqId
  }

  method GetNextNoteID(notes: seq<Note>) returns (id: string)
    ensures id == NextId("n", SeqIds(notes))
    ensures MaxSuffix("n", SeqIds(notes)) < MaxInt64 ==> forall i :: 0 <= i < |notes| ==> notes[i].seqId != id
  {
    id := NextIdScan("n", SeqIds(notes));
    if MaxSuffix("n", SeqIds(notes)) < MaxInt64 {
      NextIdFresh("n", SeqIds(notes));
    }
  }

  /** Appends the note with the next display ID; there is no duplicate check. */
  method InsertNoteToJson(notes: seq<Note>, note: Note) returns (updated: seq<Note>)
    ensures updated == notes + [note.(seqId := NextId("n", SeqIds(notes)))]
    ensures MaxSuffix("n", SeqIds(notes)) < MaxInt64 ==>
      MaxSuffix("n", SeqIds(updated)) == MaxSuffix("n", SeqIds(notes)) + 1
      && (SeqIdsUnique(notes) ==> SeqIdsUnique(updated))
  {
    var newId := GetNextNoteID(notes);
    updated := notes + [note.(seqId := newId)];
    if MaxSuffix("n", SeqIds(notes)) < MaxInt64 {
      assert SeqIds(updated) == SeqIds(notes) + [newId];
      NextIdAdvances("n", SeqIds(notes));
    }
  }

  /** The row a command names by display ID: the first one, as the loops that `break` find it. */
  function FindBySeqId(notes: seq<Note>, seqId: string): (r: Option<nat>)
    ensures r.Some? ==> r.value < |notes| && notes[r.value].seqId == seqId
    ensures r.Some? ==> forall j :: 0 <= j < r.value ==> notes[j].seqId != seqId
    ensures r.None? ==> forall j :: 0 <= j < |notes| ==> notes[j].seqId != seqId
  {
    FirstIndex(notes, (n: Note) => n.seqId == seqId)
  }

  /** Sets or clears the deleted flag of a decoded header in place. */
  method UpdateDeletedToFrontMatter(fm: NoteFrontMatter, deleted: bool) returns (r: NoteFrontMatter)
    modifies fm
    ensures r == fm
    ensures fm.Value() == old(fm.Value()).(deleted := deleted)
  {
    if deleted {
      fm.SetDeleted();
    } else {
      fm.ResetDeleted();
    }
    return fm;
  }

  method UpdateArchivedToFrontMatter(fm: NoteFrontMatter) returns (r: NoteFrontMatter)
    modifies fm
    ensures r == fm
    ensures fm.Value() == old(fm.Value()).(archived := true)
  {
    fm.SetArchived();
    return fm;
  }

  /** A header with the requested flags cleared. */
  function RestoredHeader(h: FrontMatter, restoreDeleted: bool, restoreArchived: bool): (r: FrontMatter)
    ensures r.deleted == (h.deleted && !restoreDeleted)
    ensures r.archived == (h.archived && !restoreArchived)
    ensures r.(deleted := h.deleted, archived := h.archived) == h
  {
    h.(deleted := if restoreDeleted then false else h.deleted,
       archived := if restoreArchived then false else h.archived)
  }

  method UpdateNoteStatusInFrontMatter(fm: NoteFrontMatter, restoreDeleted: bool, restoreArchived: bool)
    returns (r: NoteFrontMatter)
    modifies fm
    ensures r == fm
    ensures fm.Value() == RestoredHeader(old(fm.Value()), restoreDeleted, restoreArchived)
  {
    if restoreDeleted {
      fm.deleted := false;
    }
    if restoreArchived {
      fm.archived := false;
    }
    return fm;
  }

  /**
   * `MoveNoteToTrash`: the note's file gets `deleted: true` in its header,
   * is written back where it is, and is then moved to the trash; only after
   * the move is the row flagged. An unknown display ID is not an error.
   */
  function Trashed(s: Store, seqId: string, c: Config): (r: Outcome)
    ensures r.store.noteTags == s.noteTags
    ensures |r.store.notes| == |s.notes|
  {
    match FindBySeqId(s.notes, seqId)
    case None => Outcome(s, false)
    case Some(i) =>
      var src := NotePath(c.zettelDir, s.notes[i].id);
      var dst := NotePath(c.trash.trashDir, s.notes[i].id);
      if src !in s.disk.files || s.disk.files[src].Malformed? then Outcome(s, true)
      else
        var doc := s.disk.files[src];
        var written := Write(s.disk, src, Parsed(AsNoteHeader(doc.header).(deleted := true), doc.body));
        match Rename(written, src, dst)
        case Err(_) => Outcome(s.(disk := written), true)
        case Ok(moved) => Outcome(Store(s.notes[i := s.notes[i].(deleted := true)], s.noteTags, moved), false)
  }

  method MoveNoteToTrash(seqId: string, c: Config, s: Store) returns (after: Store, failed: bool)
    ensures Outcome(after, failed) == Trashed(s, seqId, c)
  {
    var notes := s.notes;
    var i := 0;
    while i < |notes|
      invariant 0 <= i <= |notes|
      invariant forall j :: 0 <= j < i ==> notes[j].seqId != seqId
    {
      if seqId == notes[i].seqId {
        var originalPath := NotePath(c.zettelDir, notes[i].id);
        var deletedPath := NotePath(c.trash.trashDir, notes[i].id);
        if originalPath !in s.disk.files {
          return s, true;
        }
        var doc := s.disk.files[originalPath];
        if doc.Malformed? {
          return s, true;
        }
        var frontMatter := new NoteFrontMatter.Decoded(doc.header);
        var updatedFrontMatter := UpdateDeletedToFrontMatter(frontMatter, true);
        var disk := Write(s.disk, originalPath, Parsed(updatedFrontMatter.Value(), doc.body));
        var moved := Rename(disk, originalPath, deletedPath);
        if moved.Err? {
          return s.(disk := disk), true;
        }
        notes := notes[i := notes[i].(deleted := true)];
        return Store(notes, s.noteTags, moved.value), false;
      }
      i := i + 1;
    }
    return s, false;
  }

  /**
   * After a move to the trash that reports no error, the first row with that
   * display ID is flagged deleted and nothing else in the rows changed, and
   * its file sits in the trash with `deleted: true` in its header.
   */
  lemma TrashedNote(s: Store, seqId: string, c: Config)
    requires FindBySeqId(s.notes, seqId).Some?
    ensures var i := FindBySeqId(s.notes, seqId).value;
      var r := Trashed(s, seqId, c);
      var dst := NotePath(c.trash.trashDir, s.notes[i].id);
      !r.failed ==>
        r.store.notes == s.notes[i := s.notes[i].(deleted := true)]
        && dst in r.store.disk.files && r.store.disk.files[dst].Parsed?
        && r.store.disk.files[dst].header.deleted
        && (c.trash.trashDir != c.zettelDir ==> NotePath(c.zettelDir, s.notes[i].id) !in r.store.disk.files)
  {
  }

  /** Moving to the trash fails exactly when the note's file is missing, unreadable as a note, or cannot be moved. */
  lemma TrashFails(s: Store, seqId: string, c: Config)
    requires FindBySeqId(s.notes, seqId).Some?
    ensures var src := NotePath(c.zettelDir, s.notes[FindBySeqId(s.notes, seqId).value].id);
      Trashed(s, seqId, c).failed <==>
        src !in s.disk.files || s.disk.files[src].Malformed? || src in s.disk.locked
  {
  }

  /**
   * `RestoreNote`: the note comes back from the trash when `restoreDeleted`
   * is set, else from the archive when `restoreArchived` is set; with neither
   * it is an error. The header loses both requested flags, the row only the
   * one of the directory it came from, and the row is saved only after the
   * file has been moved.
   */
  function Restored(s: Store, seqId: string, c: Config, restoreDeleted: bool, restoreArchived: bool): (r: Outcome)
    ensures r.store.noteTags == s.noteTags
    ensures |r.store.notes| == |s.notes|
    ensures FindBySeqId(s.notes, seqId).Some? && !restoreDeleted && !restoreArchived ==> r == Outcome(s, true)
  {
    match FindBySeqId(s.notes, seqId)
    case None => Outcome(s, false)
    case Some(i) =>
      if !restoreDeleted && !restoreArchived then Outcome(s, true)
      else
        var from := if restoreDeleted then c.trash.trashDir else c.archiveDir;
        var src := NotePath(from, s.notes[i].id);
        var dst := NotePath(c.zettelDir, s.notes[i].id);
        if src !in s.disk.files || s.disk.files[src].Malformed? then Outcome(s, true)
        else
          var doc := s.disk.files[src];
          var header := RestoredHeader(AsNoteHeader(doc.header), restoreDeleted, restoreArchived);
          var written := Write(s.disk, src, Parsed(header, doc.body));
          match Rename(written, src, dst)
          case Err(_) => Outcome(s.(disk := written), true)
          case Ok(moved) =>
            var row := if restoreDeleted then s.notes[i].(deleted := false) else s.notes[i].(archived := false);
            Outcome(Store(s.notes[i := row], s.noteTags, moved), false)
  }

  method RestoreNote(seqId: string, c: Config, restoreDeleted: bool, restoreArchived: bool, s: Store)
    returns (after: Store, failed: bool)
    ensures Outcome(after, failed) == Restored(s, seqId, c, restoreDeleted, restoreArchived)
  {
    var notes := s.notes;
    var i := 0;
    while i < |notes|
      invariant 0 <= i <= |notes|
      invariant forall j :: 0 <= j < i ==> notes[j].seqId != seqId
    {
      if seqId == notes[i].seqId {
        var sourceDir;
        if restoreDeleted {
          sourceDir := c.trash.trashDir;
          notes := notes[i := notes[i].(deleted := false)];
        } else if restoreArchived {
          sourceDir := c.archiveDir;
          notes := notes[i := notes[i].(archived := false)];
        } else {
          return s, true;
        }
        var deletedPath := NotePath(sourceDir, notes[i].id);
        var restoredPath := NotePath(c.zettelDir, notes[i].id);
        if deletedPath !in s.disk.files {
          return s, true;
        }
        var doc := s.disk.files[deletedPath];
        if doc.Malformed? {
          return s, true;
        }
        var frontMatter := new NoteFrontMatter.Decoded(doc.header);
        var updatedFrontMatter := UpdateNoteStatusInFrontMatter(frontMatter, restoreDeleted, restoreArchived);
        var disk := Write(s.disk, deletedPath, Parsed(updatedFrontMatter.Value(), doc.body));
        var moved := Rename(disk, deletedPath, restoredPath);
        if moved.Err? {
          return s.(disk := disk), true;
        }
        return Store(notes, s.noteTags, moved.value), false;
      }
      i := i + 1;
    }
    return s, false;
  }

  /**
   * Restoring from the trash undoes a move to the trash: the rows, the edges
   * and the files are as they were, provided the note was not flagged
   * deleted, its header was a plain note header that was not flagged
   * deleted, the trash is a directory of its own with no file of that name
   * yet, and nothing is locked.
   */
  lemma RestoreUndoesTrash(s: Store, seqId: string, c: Config)
    requires FindBySeqId(s.notes, seqId).Some?
    requires var n := s.notes[FindBySeqId(s.notes, seqId).value];
      var src := NotePath(c.zettelDir, n.id);
      !n.deleted && src in s.disk.files && s.disk.files[src].Parsed?
      && s.disk.files[src].header.status == None && !s.disk.files[src].header.deleted
      && c.trash.trashDir != c.zettelDir && NotePath(c.trash.trashDir, n.id) !in s.disk.files
      && s.disk.locked == {}
    ensures Trashed(s, seqId, c) == Outcome(Trashed(s, seqId, c).store, false)
    ensures Restored(Trashed(s, seqId, c).store, seqId, c, true, false) == Outcome(s, false)
  {
    var i := FindBySeqId(s.notes, seqId).value;
    var n := s.notes[i];
    var src := NotePath(c.zettelDir, n.id);
    var dst := NotePath(c.trash.trashDir, n.id);
    var doc := s.disk.files[src];
    var trashedDoc := Parsed(doc.header.(deleted := true), doc.body);
    TrashedExactly(s, seqId, c);
    var t := Store(s.notes[i := n.(deleted := true)], s.noteTags, Disk((s.disk.files - {src})[dst := trashedDoc], {}));
    assert FindBySeqId(t.notes, seqId) == Some(i) by {
      assert forall j :: 0 <= j < |t.notes| ==> t.notes[j].seqId == s.notes[j].seqId;
    }
    RestoredExactly(t, seqId, c);
    assert RestoredHeader(AsNoteHeader(trashedDoc.header), true, false) == doc.header;
    MoveBack(s.disk.files, src, dst, trashedDoc);
    assert t.notes[i := t.notes[i].(deleted := false)] == s.notes;
  }

  /** A restore from the archive that succeeds, spelled out. */
  lemma RestoredFromArchiveExactly(t: Store, seqId: string, c: Config)
    requires FindBySeqId(t.notes, seqId).Some?
    requires var n := t.notes[FindBySeqId(t.notes, seqId).value];
      var src := NotePath(c.archiveDir, n.id);
      src in t.disk.files && t.disk.files[src].Parsed? && t.disk.locked == {}
    ensures var i := FindBySeqId(t.notes, seqId).value;
      var n := t.notes[i];
      var src := NotePath(c.archiveDir, n.id);
      var doc := t.disk.files[src];
      var back := Parsed(RestoredHeader(AsNoteHeader(doc.header), false, true), doc.body);
      Restored(t, seqId, c, false, true) == Outcome(Store(t.notes[i := n.(archived := false)], t.noteTags,
        Disk((t.disk.files - {src})[NotePath(c.zettelDir, n.id) := back], {})), false)
  {
    var i := FindBySeqId(t.notes, seqId).value;
    var src := NotePath(c.archiveDir, t.notes[i].id);
    var doc := t.disk.files[src];
    var back := Parsed(RestoredHeader(AsNoteHeader(doc.header), false, true), doc.body);
    assert t.disk.files[src := back] - {src} == t.disk.files - {src};
  }

  /** Proof helper: moving a file away and back restores the directory listing. */
  lemma MoveBack<K, V>(m: map<K, V>, src: K, dst: K, x: V)
    requires src in m && dst !in m
    ensures (((m - {src})[dst := x]) - {dst})[src := m[src]] == m
  {
  }

  /** A move to the trash that succeeds, spelled out. */
  lemma TrashedExactly(s: Store, seqId: string, c: Config)
    requires FindBySeqId(s.notes, seqId).Some?
    requires var n := s.notes[FindBySeqId(s.notes, seqId).value];
      var src := NotePath(c.zettelDir, n.id);
      src in s.disk.files && s.disk.files[src].Parsed? && s.disk.locked == {}
    ensures var i := FindBySeqId(s.notes, seqId).value;
      var n := s.notes[i];
      var src := NotePath(c.zettelDir, n.id);
      var doc := s.disk.files[src];
      var moved := Parsed(AsNoteHeader(doc.header).(deleted := true), doc.body);
      Trashed(s, seqId, c) == Outcome(Store(s.notes[i := n.(deleted := true)], s.noteTags,
        Disk((s.disk.files - {src})[NotePath(c.trash.trashDir, n.id) := moved], {})), false)
  {
    var i := FindBySeqId(s.notes, seqId).value;
    var src := NotePath(c.zettelDir, s.notes[i].id);
    var doc := s.disk.files[src];
    var moved := Parsed(AsNoteHeader(doc.header).(deleted := true), doc.body);
    assert s.disk.files[src := moved] - {src} == s.disk.files - {src};
  }

  /** A restore from the trash that succeeds, spelled out. */
  lemma RestoredExactly(t: Store, seqId: string, c: Config)
    requires FindBySeqId(t.notes, seqId).Some?
    requires var n := t.notes[FindBySeqId(t.notes, seqId).value];
      var src := NotePath(c.trash.trashDir, n.id);
      src in t.disk.files && t.disk.files[src].Parsed? && t.disk.locked == {}
    ensures var i := FindBySeqId(t.notes, seqId).value;
      var n := t.notes[i];
      var src := NotePath(c.trash.trashDir, n.id);
      var doc := t.disk.files[src];
      var back := Parsed(RestoredHeader(AsNoteHeader(doc.header), true, false), doc.body);
      Restored(t, seqId, c, true, false) == Outcome(Store(t.notes[i := n.(deleted := false)], t.noteTags,
        Disk((t.disk.files - {src})[NotePath(c.zettelDir, n.id) := back], {})), false)
  {
    var i := FindBySeqId(t.notes, seqId).value;
    var src := NotePath(c.trash.trashDir, t.notes[i].id);
    var doc := t.disk.files[src];
    var back := Parsed(RestoredHeader(AsNoteHeader(doc.header), true, false), doc.body);
    assert t.disk.files[src := back] - {src} == t.disk.files - {src};
  }

  /**
   * Restoring with both flags set takes the note from the trash and clears
   * both flags in its header, but only the deleted flag of its row.
   */
  lemma RestoreBothFlags(s: Store, seqId: string, c: Config)
    requires FindBySeqId(s.notes, seqId).Some?
    ensures var i := FindBySeqId(s.notes, seqId).value;
      var r := Restored(s, seqId, c, true, true);
      var dst := NotePath(c.zettelDir, s.notes[i].id);
      !r.failed ==>
        !r.store.notes[i].deleted && r.store.notes[i].archived == s.notes[i].archived
        && dst in r.store.disk.files && r.store.disk.files[dst].Parsed?
        && !r.store.disk.files[dst].header.archived && !r.store.disk.files[dst].header.deleted
  {
  }

  /** The files a purge of a display ID removes, from the front of the rows up to the first it cannot remove. */
  function RemoveMatching(d: Disk, notes: seq<Note>, seqId: string, dir: string): (r: (Disk, bool))
    ensures r.0.locked == d.locked && r.0.files.Keys <= d.files.Keys
  {
    if notes == [] then (d, true)
    else
      var (before, ok) := RemoveMatching(d, notes[..|notes| - 1], seqId, dir);
      var last := notes[|notes| - 1];
      if !ok || last.seqId != seqId then (before, ok)
      else match Remove(before, NotePath(dir, last.id))
        case Removed(after) => (after, true)
        case NotExist => (before, true)
        case Refused => (before, false)
  }

  /** Once a removal is refused, the later rows are not looked at. */
  lemma {:induction false} RemoveMatchingStops(d: Disk, notes: seq<Note>, k: nat, seqId: string, dir: string)
    requires k <= |notes| && !RemoveMatching(d, notes[..k], seqId, dir).1
    ensures RemoveMatching(d, notes, seqId, dir) == RemoveMatching(d, notes[..k], seqId, dir)
    decreases |notes| - k
  {
    if k < |notes| {
      var front := notes[..|notes| - 1];
      assert front[..k] == notes[..k];
      RemoveMatchingStops(d, front, k, seqId, dir);
    } else {
      assert notes[..k] == notes;
    }
  }

  /** The paths of the files of the rows with a display ID. */
  function PurgePaths(notes: seq<Note>, seqId: string, dir: string): set<Path>
  {
    set n | n in notes && n.seqId == seqId :: NotePath(dir, n.id)
  }

  /**
   * A purge removes exactly the files of the rows with the display ID, and
   * succeeds exactly when none of them is locked.
   */
  lemma {:induction false} RemoveMatchingFiles(d: Disk, notes: seq<Note>, seqId: string, dir: string)
    ensures var r := RemoveMatching(d, notes, seqId, dir);
      r.1 <==> forall p :: p in PurgePaths(notes, seqId, dir) ==> p !in d.files || p !in d.locked
    ensures var r := RemoveMatching(d, notes, seqId, dir);
      r.1 ==> r.0.files == d.files - PurgePaths(notes, seqId, dir)
  {
    if notes != [] {
      var front := notes[..|notes| - 1];
      var last := notes[|notes| - 1];
      assert notes == front + [last];
      RemoveMatchingFiles(d, front, seqId, dir);
      if last.seqId == seqId {
        assert PurgePaths(notes, seqId, dir) == PurgePaths(front, seqId, dir) + {NotePath(dir, last.id)};
      } else {
        assert PurgePaths(notes, seqId, dir) == PurgePaths(front, seqId, dir);
      }
    }
  }

  function NotSeqId(seqId: string): Note -> bool
  {
    (n: Note) => n.seqId != seqId
  }

  function EdgeNotFor(noteId: string): NoteTag -> bool
  {
    (e: NoteTag) => e.noteId != noteId
  }

  /**
   * `DeleteNotePermanently`: removes the files and the rows of the notes
   * with the display ID, then the tag edges whose note ID is that same
   * display ID. A file that is already gone is not an error; one that cannot
   * be removed stops the purge before anything is saved.
   */
  function Purged(s: Store, seqId: string, c: Config): (r: Outcome)
  {
    var (d, ok) := RemoveMatching(s.disk, s.notes, seqId, c.zettelDir);
    if !ok then Outcome(s.(disk := d), true)
    else Outcome(Store(Filter(s.notes, NotSeqId(seqId)), Filter(s.noteTags, EdgeNotFor(seqId)), d), false)
  }

  method DeleteNotePermanently(seqId: string, c: Config, s: Store) returns (after: Store, failed: bool)
    ensures Outcome(after, failed) == Purged(s, seqId, c)
  {
    var notes := s.notes;
    var disk := s.disk;
    var updatedNotes := [];
    var i := 0;
    while i < |notes|
      invariant 0 <= i <= |notes|
      invariant RemoveMatching(s.disk, notes[..i], seqId, c.zettelDir) == (disk, true)
      invariant updatedNotes == Filter(notes[..i], NotSeqId(seqId))
    {
      assert notes[..i + 1][..i] == notes[..i];
      FilterSnoc(notes[..i], notes[i], NotSeqId(seqId));
      assert notes[..i + 1] == notes[..i] + [notes[i]];
      if seqId != notes[i].seqId {
        updatedNotes := updatedNotes + [notes[i]];
      } else {
        var removed := Remove(disk, NotePath(c.zettelDir, notes[i].id));
        if removed.Refused? {
          RemoveMatchingStops(s.disk, notes, i + 1, seqId, c.zettelDir);
          return s.(disk := disk), true;
        }
        if removed.Removed? {
          disk := removed.disk;
        }
      }
      i := i + 1;
    }
    assert notes[..i] == notes;
    var noteTags := s.noteTags;
    var updatedNoteTags := [];
    var k := 0;
    while k < |noteTags|
      invariant 0 <= k <= |noteTags|
      invariant updatedNoteTags == Filter(noteTags[..k], EdgeNotFor(seqId))
    {
      FilterSnoc(noteTags[..k], noteTags[k], EdgeNotFor(seqId));
      assert noteTags[..k + 1] == noteTags[..k] + [noteTags[k]];
      if noteTags[k].noteId != seqId {
        updatedNoteTags := updatedNoteTags + [noteTags[k]];
      }
      k := k + 1;
    }
    assert noteTags[..k] == noteTags;
    return Store(updatedNotes, updatedNoteTags, disk), false;
  }

  /** After a purge no row carries the display ID, every other row is kept, and the files of the purged rows are gone. */
  lemma PurgeRemovesNote(s: Store, seqId: string, c: Config)
    ensures var r := Purged(s, seqId, c);
      !r.failed ==>
        (forall n :: n in r.store.notes <==> n in s.notes && n.seqId != seqId)
        && r.store.disk.files == s.disk.files - PurgePaths(s.notes, seqId, c.zettelDir)
  {
    RemoveMatchingFiles(s.disk, s.notes, seqId, c.zettelDir);
    forall n
      ensures n in Filter(s.notes, NotSeqId(seqId)) <==> n in s.notes && n.seqId != seqId
    {
      FilterMembership(s.notes, NotSeqId(seqId), n);
    }
  }

  /**
   * Tag edges name notes by timestamp ID, but a purge filters them by the
   * display ID it was given: when no edge carries that display ID as its
   * note ID, every edge survives, including those of the purged notes.
   */
  lemma PurgeKeepsEdges(s: Store, seqId: string, c: Config)
    requires forall i :: 0 <= i < |s.noteTags| ==> s.noteTags[i].noteId != seqId
    ensures Purged(s, seqId, c).store.noteTags == s.noteTags
  {
    FilterLength(s.noteTags, EdgeNotFor(seqId));
    FilterKeepsAll(s.noteTags, EdgeNotFor(seqId));
  }

  /** An entry of a directory listing; `modTime` is `None` when its file information cannot be read. */
  datatype DirEntry = DirEntry(name: string, isDir: bool, modTime: Option<int>)

  /** A regular file older than the retention period; the age must exceed it strictly. */
  predicate Expired(e: DirEntry, now: int, retention: int)
  {
    !e.isDir && e.modTime.Some? && now - e.modTime.value > retention
  }

  /** The files a sweep of `dir` removes: expired, present and not locked. */
  predicate Sweepable(d: Disk, dir: string, e: DirEntry, now: int, retention: int)
  {
    Expired(e, now, retention) && Path(dir, e.name) in d.files && Path(dir, e.name) !in d.locked
  }

  function SweptPaths(d: Disk, dir: string, entries: seq<DirEntry>, now: int, retention: int): set<Path>
  {
    set e | e in entries && Sweepable(d, dir, e, now, retention) :: Path(dir, e.name)
  }

  /** The note IDs of the swept files: their names without the extension. */
  function SweptIds(d: Disk, dir: string, entries: seq<DirEntry>, now: int, retention: int): set<string>
  {
    set e | e in entries && Sweepable(d, dir, e, now, retention) :: TrimExt(e.name)
  }

  /** One more entry of the listing. */
  lemma SweepStep(d: Disk, dir: string, entries: seq<DirEntry>, e: DirEntry, now: int, retention: int)
    ensures SweptPaths(d, dir, entries + [e], now, retention) ==
      SweptPaths(d, dir, entries, now, retention) + (if Sweepable(d, dir, e, now, retention) then {Path(dir, e.name)} else {})
    ensures SweptIds(d, dir, entries + [e], now, retention) ==
      SweptIds(d, dir, entries, now, retention) + (if Sweepable(d, dir, e, now, retention) then {TrimExt(e.name)} else {})
  {
    assert forall x :: x in entries + [e] <==> x in entries || x == e;
  }

  /** The removal loop over a listing, shared by the trash and the backup sweeps. */
  method RemoveExpired(dir: string, entries: seq<DirEntry>, now: int, retention: int, d: Disk)
    returns (disk: Disk, removedIds: set<string>)
    ensures disk.locked == d.locked
    ensures disk.files == d.files - SweptPaths(d, dir, entries, now, retention)
    ensures removedIds == SweptIds(d, dir, entries, now, retention)
  {
    disk := d;
    removedIds := {};
    var i := 0;
    while i < |entries|
      invariant 0 <= i <= |entries|
      invariant disk.locked == d.locked
      invariant disk.files == d.files - SweptPaths(d, dir, entries[..i], now, retention)
      invariant removedIds == SweptIds(d, dir, entries[..i], now, retention)
    {
      var e := entries[i];
      SweepStep(d, dir, entries[..i], e, now, retention);
      assert entries[..i + 1] == entries[..i] + [e];
      if !e.isDir && e.modTime.Some? && now - e.modTime.value > retention {
        var removed := Remove(disk, Path(dir, e.name));
        if removed.Removed? {
          disk := removed.disk;
          removedIds := removedIds + {TrimExt(e.name)};
        }
      }
      i := i + 1;
    }
    assert entries[..i] == entries;
  }

  function IdNotIn(ids: set<string>): Note -> bool
  {
    (n: Note) => n.id !in ids
  }

  function EdgeNotIn(ids: set<string>): NoteTag -> bool
  {
    (e: NoteTag) => e.noteId !in ids
  }

  /**
   * `CleanupTrash`: removes the expired files of the trash listing, then
   * drops the rows and the tag edges of the notes whose files were removed.
   * A file that cannot be removed only costs a log line.
   */
  method CleanupTrash(c: Config, entries: seq<DirEntry>, now: int, retention: int, s: Store) returns (after: Store)
    ensures var swept := SweptIds(s.disk, c.trash.trashDir, entries, now, retention);
      after == Store(Filter(s.notes, IdNotIn(swept)), Filter(s.noteTags, EdgeNotIn(swept)),
        s.disk.(files := s.disk.files - SweptPaths(s.disk, c.trash.trashDir, entries, now, retention)))
  {
    var disk, notesToDelete := RemoveExpired(c.trash.trashDir, entries, now, retention, s.disk);
    var updatedNotes := [];
    var i := 0;
    while i < |s.notes|
      invariant 0 <= i <= |s.notes|
      invariant updatedNotes == Filter(s.notes[..i], IdNotIn(notesToDelete))
    {
      FilterSnoc(s.notes[..i], s.notes[i], IdNotIn(notesToDelete));
      assert s.notes[..i + 1] == s.notes[..i] + [s.notes[i]];
      if s.notes[i].id !in notesToDelete {
        updatedNotes := updatedNotes + [s.notes[i]];
      }
      i := i + 1;
    }
    assert s.notes[..i] == s.notes;
    var updatedNoteTags := [];
    var k := 0;
    while k < |s.noteTags|
      invariant 0 <= k <= |s.noteTags|
      invariant updatedNoteTags == Filter(s.noteTags[..k], EdgeNotIn(notesToDelete))
    {
      FilterSnoc(s.noteTags[..k], s.noteTags[k], EdgeNotIn(notesToDelete));
      assert s.noteTags[..k + 1] == s.noteTags[..k] + [s.noteTags[k]];
      if s.noteTags[k].noteId !in notesToDelete {
        updatedNoteTags := updatedNoteTags + [s.noteTags[k]];
      }
      k := k + 1;
    }
    assert s.noteTags[..k] == s.noteTags;
    after := Store(updatedNotes, updatedNoteTags, disk);
  }

  /**
   * A file of the trash is removed exactly when it is an expired regular file
   * that can be removed; a file exactly as old as the retention period stays.
   */
  lemma SweepRemovesExactlyExpired(d: Disk, dir: string, entries: seq<DirEntry>, now: int, retention: int, e: DirEntry)
    requires e in entries && Path(dir, e.name) in d.files
    requires forall x :: x in entries && x.name == e.name ==> x == e
    ensures Path(dir, e.name) in SweptPaths(d, dir, entries, now, retention) <==>
      !e.isDir && e.modTime.Some? && now - e.modTime.value > retention && Path(dir, e.name) !in d.locked
  {
  }

  /**
   * After a trash sweep, a row is kept exactly when its note ID is not the
   * name of a removed file, and so is a tag edge.
   */
  lemma SweepCascades(s: Store, swept: set<string>)
    ensures forall n :: n in Filter(s.notes, IdNotIn(swept)) <==> n in s.notes && n.id !in swept
    ensures forall e :: e in Filter(s.noteTags, EdgeNotIn(swept)) <==> e in s.noteTags && e.noteId !in swept
  {
    forall n
      ensures n in Filter(s.notes, IdNotIn(swept)) <==> n in s.notes && n.id !in swept
    {
      FilterMembership(s.notes, IdNotIn(swept), n);
    }
    forall e
      ensures e in Filter(s.noteTags, EdgeNotIn(swept)) <==> e in s.noteTags && e.noteId !in swept
    {
      FilterMembership(s.noteTags, EdgeNotIn(swept), e);
    }
  }

  /** `CleanupBackups`: the same expiry rule over the backup directory; nothing else changes. */
  method CleanupBackups(backupDir: string, entries: seq<DirEntry>, now: int, retention: int, d: Disk) returns (disk: Disk)
    ensures disk.locked == d.locked
    ensures disk.files == d.files - SweptPaths(d, backupDir, entries, now, retention)
  {
    var removedIds;
    disk, removedIds := RemoveExpired(backupDir, entries, now, retention, d);
  }
}
