/**
 * The records of the Zettelkasten: the rows of the JSON index files, the
 * YAML header of a note file, and the configuration.
 */
module Model {
  import opened Wrappers

  /** A row of notes.json. `id` is the creation timestamp `yyyymmddhhmmss`, `seqId` the display ID `n001`, ... */
  datatype Note = Note(
    id: string, seqId: string, title: string, noteType: string, projectName: string, status: string,
    content: string, createdAt: string, updatedAt: string, archived: bool, deleted: bool)

  /** The test the loops that look a note up by its display ID apply. */
  function SeqIdIs(seqId: string): Note -> bool
  {
    (n: Note) => n.seqId == seqId
  }

  /** A row of tags.json. */
  datatype Tag = Tag(id: string, name: string)

  /** A row of note_tags.json: the note is named by its timestamp ID, the tag by its `t...` ID. */
  datatype NoteTag = NoteTag(noteId: string, tagId: string)

  /** A row of links.json. */
  datatype Link = Link(sourceNoteId: string, targetNoteId: string)

  datatype Source = Source(
    sourceId: string, sourceType: string, title: string, author: string, publisher: string,
    year: int, isbn: string, url: string)

  datatype SourceNote = SourceNote(sourceId: string, noteId: string)

  datatype Project = Project(projectId: string, seqId: string, name: string)

  datatype ProjectNote = ProjectNote(projectId: string, noteId: string)

  datatype Task = Task(id: string, noteId: string, status: string)

  /**
   * The YAML header of a note file. `status` is present only in a task's
   * header (the task header is the note header plus a status field); a
   * header decoded as a plain note header has `status == None`.
   */
  datatype FrontMatter = FrontMatter(
    id: string, title: string, noteType: string, tags: seq<string>, links: seq<string>,
    projectName: string, createdAt: string, updatedAt: string, archived: bool, deleted: bool,
    status: Option<string>)

  /** The header as the note header type decodes it: a `status` key is not a field and is dropped. */
  function AsNoteHeader(h: FrontMatter): (r: FrontMatter)
    ensures r.status == None
    ensures r.(status := h.status) == h
  {
    h.(status := None)
  }

  /** The header as the task header type decodes it: a missing `status` key reads as the empty string. */
  function AsTaskHeader(h: FrontMatter): (r: FrontMatter)
    ensures r.status.Some?
    ensures h.status.Some? ==> r == h
    ensures r.(status := h.status) == h
  {
    h.(status := Some(if h.status.Some? then h.status.value else ""))
  }

  /** The zero value a failed header parse hands back. */
  function ZeroHeader(): FrontMatter
  {
    FrontMatter("", "", "", [], [], "", "", "", false, false, None)
  }

  /**
   * A decoded note header that the code updates in place through pointer
   * methods (`SetDeleted`, `ResetDeleted`, `SetArchived`, `ResetArchived`).
   */
  class NoteFrontMatter {
    var id: string
    var title: string
    var noteType: string
    var tags: seq<string>
    var links: seq<string>
    var projectName: string
    var createdAt: string
    var updatedAt: string
    var archived: bool
    var deleted: bool

    /** The header these fields hold. */
    function Value(): (h: FrontMatter)
      reads this
      ensures h.status == None
    {
      FrontMatter(id, title, noteType, tags, links, projectName, createdAt, updatedAt, archived, deleted, None)
    }

    /** Decoding a header as a note header. */
    constructor Decoded(h: FrontMatter)
      ensures Value() == AsNoteHeader(h)
    {
      id, title, noteType, tags, links := h.id, h.title, h.noteType, h.tags, h.links;
      projectName, createdAt, updatedAt := h.projectName, h.createdAt, h.updatedAt;
      archived, deleted := h.archived, h.deleted;
    }

    method SetDeleted()
      modifies this
      ensures Value() == old(Value()).(deleted := true)
    {
      deleted := true;
    }

    method ResetDeleted()
      modifies this
      ensures Value() == old(Value()).(deleted := false)
    {
      deleted := false;
    }

    method SetArchived()
      modifies this
      ensures Value() == old(Value()).(archived := true)
    {
      archived := true;
    }

    method ResetArchived()
      modifies this
      ensures Value() == old(Value()).(archived := false)
    {
      archived := false;
    }
  }

  datatype BackupConfig = BackupConfig(enable: bool, frequency: int, retention: int, backupDir: string)

  datatype TrashConfig = TrashConfig(frequency: int, retention: int, trashDir: string)

  datatype SyncConfig = SyncConfig(
    enable: bool, platform: string, bucket: string, awsProfile: string, awsRegion: string,
    includes: seq<string>, excludes: seq<string>)

  datatype Config = Config(
    zettelDir: string, editor: string, jsonDataDir: string, archiveDir: string,
    backup: BackupConfig, trash: TrashConfig, sync: SyncConfig)

  /** The five directories of a configuration, in the order the loader expands them. */
  function Directories(c: Config): seq<string>
  {
    [c.zettelDir, c.backup.backupDir, c.jsonDataDir, c.archiveDir, c.trash.trashDir]
  }

  /** The configuration written on first run. Every directory in it is relative to the home directory. */
  function DefaultConfig(): (c: Config)
    ensures c.trash.retention < c.backup.retention
    ensures forall i :: 0 <= i < |Directories(c)| ==> "~/" <= Directories(c)[i]
  {
    Config(
      "~/Zettelkasten", "vim", "~/.config/ztl/data", "~/.config/ztl/archive",
      BackupConfig(true, 7, 30, "~/.config/ztl/backup"),
      TrashConfig(7, 14, "~/.config/ztl/trash"),
      SyncConfig(false, "", "", "", "", [], []))
  }
}
