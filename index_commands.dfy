/**
 * `index new`: an index note takes its title from the command line, or,
 * with `--book`, from a source, to which it is then linked.
 */
module IndexCommands {
  import opened Wrappers
  import opened Seqs
  import opened Text
  import opened Model
  import opened Disk
  import opened DisplayIds
  import opened Storage
  import opened Tags
  import opened Clock
  import opened NoteCommands

  /** The test the loops that look a source up by its ID apply. */
  function SourceIdIs(sourceId: string): Source -> bool
  {
    (s: Source) => s.sourceId == sourceId
  }

  /**
   * The title and source ID of a new index note: those of the first source
   * with the `--book` ID, or, without `--book`, the title argument and no
   * source. An unknown book and a missing title both end the process.
   */
  function IndexTitle(bookId: string, args: seq<string>, sources: seq<Source>): (r: Result<(string, string)>)
  {
    if bookId != "" then
      match FirstIndex(sources, SourceIdIs(bookId))
      case None => Err("source not found")
      case Some(i) => Ok((sources[i].title, sources[i].sourceId))
    else if args == [] then Err("no title")
    else Ok((args[0], ""))
  }

  method ResolveIndexTitle(bookId: string, args: seq<string>, sources: seq<Source>) returns (r: Result<(string, string)>)
    ensures r == IndexTitle(bookId, args, sources)
  {
    if bookId != "" {
      var i := 0;
      while i < |sources|
        invariant 0 <= i <= |sources|
        invariant forall j :: 0 <= j < i ==> !SourceIdIs(bookId)(sources[j])
      {
        if sources[i].sourceId == bookId {
          assert FirstIndex(sources, SourceIdIs(bookId)) == Some(i);
          return Ok((sources[i].title, sources[i].sourceId));
        }
        i := i + 1;
      }
      return Err("source not found");
    }
    if |args| == 0 {
      return Err("no title");
    }
    return Ok((args[0], ""));
  }

  /**
   * With `--book`, the title resolves exactly when a source has that ID, and
   * then the source ID is the book's and the title is that source's; without
   * it, exactly when a title is given.
   */
  lemma IndexTitleResolves(bookId: string, args: seq<string>, sources: seq<Source>)
    ensures bookId != "" ==>
      (IndexTitle(bookId, args, sources).Ok? <==> exists i :: 0 <= i < |sources| && sources[i].sourceId == bookId)
    ensures bookId != "" && IndexTitle(bookId, args, sources).Ok? ==>
      IndexTitle(bookId, args, sources).value.1 == bookId
      && exists i :: (0 <= i < |sources| && sources[i].sourceId == bookId && sources[i].title == IndexTitle(bookId, args, sources).value.0
        && forall j :: 0 <= j < i ==> sources[j].sourceId != bookId)
    ensures bookId == "" ==> (IndexTitle(bookId, args, sources).Ok? <==> args != [])
  {
    if bookId != "" && (exists i :: 0 <= i < |sources| && sources[i].sourceId == bookId) {
      var i :| 0 <= i < |sources| && sources[i].sourceId == bookId;
      assert SourceIdIs(bookId)(sources[i]);
    }
  }

  predicate HasSource(sources: seq<Source>, sourceId: string)
  {
    exists i :: 0 <= i < |sources| && sources[i].sourceId == sourceId
  }

  predicate HasNote(notes: seq<Note>, noteId: string)
  {
    exists i :: 0 <= i < |notes| && notes[i].id == noteId
  }

  predicate HasLink(sourceNotes: seq<SourceNote>, sourceId: string, noteId: string)
  {
    exists i :: 0 <= i < |sourceNotes| && sourceNotes[i].sourceId == sourceId && sourceNotes[i].noteId == noteId
  }

  predicate LinksUnique(sourceNotes: seq<SourceNote>)
  {
    forall i, j :: 0 <= i < j < |sourceNotes| ==> sourceNotes[i] != sourceNotes[j]
  }

  /**
   * `linkIndexToSource`: an error when no source has the ID, then an error
   * when no note has the timestamp ID; an existing pair leaves the edges as
   * they are; otherwise the pair is appended.
   */
  method LinkIndexToSource(noteId: string, sourceId: string, sources: seq<Source>, notes: seq<Note>, sourceNotes: seq<SourceNote>)
    returns (r: Result<seq<SourceNote>>)
    ensures r.Err? <==> !HasSource(sources, sourceId) || !HasNote(notes, noteId)
    ensures r.Ok? && HasLink(sourceNotes, sourceId, noteId) ==> r.value == sourceNotes
    ensures r.Ok? && !HasLink(sourceNotes, sourceId, noteId) ==> r.value == sourceNotes + [SourceNote(sourceId, noteId)]
    ensures r.Ok? ==> HasLink(r.value, sourceId, noteId)
    ensures r.Ok? && LinksUnique(sourceNotes) ==> LinksUnique(r.value)
  {
    var foundSource := false;
    var i := 0;
    while i < |sources|
      invariant 0 <= i <= |sources|
      invariant !foundSource ==> forall j :: 0 <= j < i ==> sources[j].sourceId != sourceId
      invariant foundSource ==> HasSource(sources, sourceId)
    {
      if sources[i].sourceId == sourceId {
        foundSource := true;
        break;
      }
      i := i + 1;
    }
    if !foundSource {
      return Err("source not found");
    }
    var foundNote := false;
    i := 0;
    while i < |notes|
      invariant 0 <= i <= |notes|
      invariant !foundNote ==> forall j :: 0 <= j < i ==> notes[j].id != noteId
      invariant foundNote ==> HasNote(notes, noteId)
    {
      if notes[i].id == noteId {
        foundNote := true;
        break;
      }
      i := i + 1;
    }
    if !foundNote {
      return Err("note not found");
    }
    i := 0;
    while i < |sourceNotes|
      invariant 0 <= i <= |sourceNotes|
      invariant forall j :: 0 <= j < i ==> !(sourceNotes[j].sourceId == sourceId && sourceNotes[j].noteId == noteId)
    {
      if sourceNotes[i].sourceId == sourceId && sourceNotes[i].noteId == noteId {
        return Ok(sourceNotes);
      }
      i := i + 1;
    }
    var updated := sourceNotes + [SourceNote(sourceId, noteId)];
    assert updated[|sourceNotes|] == SourceNote(sourceId, noteId);
    return Ok(updated);
  }

  /** A book that resolves is a source of that ID. */
  lemma BookFound(bookId: string, args: seq<string>, sources: seq<Source>)
    requires bookId != "" && IndexTitle(bookId, args, sources).Ok?
    ensures IndexTitle(bookId, args, sources).value.1 == bookId && HasSource(sources, bookId)
  {
    var i := FirstIndex(sources, SourceIdIs(bookId)).value;
    assert sources[i].sourceId == bookId;
  }

  /** Links a note just appended to the book it was titled after; this cannot fail. */
  method LinkNewIndex(bookId: string, args: seq<string>, sources: seq<Source>, notes: seq<Note>, note: Note, sourceNotes: seq<SourceNote>)
    returns (links: seq<SourceNote>)
    requires bookId != "" && IndexTitle(bookId, args, sources).Ok?
    ensures HasLink(links, bookId, note.id)
    ensures !HasLink(sourceNotes, bookId, note.id) ==> links == sourceNotes + [SourceNote(bookId, note.id)]
    ensures HasLink(sourceNotes, bookId, note.id) ==> links == sourceNotes
  {
    BookFound(bookId, args, sources);
    var rows := notes + [note];
    assert rows[|notes|].id == note.id;
    var linked := LinkIndexToSource(note.id, bookId, sources, rows, sourceNotes);
    if linked.Err? {
      assert false;
    }
    links := linked.value;
  }

  /** What `index new` leaves behind. */
  datatype IndexState = IndexState(zettel: Zettel, sourceNotes: seq<SourceNote>)

  /**
   * `index new`: resolves the title, creates the `--tag` names, writes the
   * file and the row, links the note to its book, joins it to the tags, lets
   * the editor run and refreshes the row. The link cannot fail: the book was
   * found among the sources and the row was just appended.
   */
  method IndexNew(
    bookId: string, args: seq<string>, indexTags: seq<string>, t: Instant, now: string, edited: Option<Doc>,
    c: Config, sources: seq<Source>, z: Zettel, sourceNotes: seq<SourceNote>)
    returns (after: IndexState, fatal: bool)
    ensures fatal <==> IndexTitle(bookId, args, sources).Err?
    ensures fatal ==> after == IndexState(z, sourceNotes)
    ensures !fatal && bookId == "" ==> after.sourceNotes == sourceNotes
    ensures !fatal && bookId != "" ==> HasLink(after.sourceNotes, bookId, TimestampId(t))
    ensures !fatal && bookId != "" && !HasLink(sourceNotes, bookId, TimestampId(t)) ==>
      after.sourceNotes == sourceNotes + [SourceNote(bookId, TimestampId(t))]
    ensures !fatal ==> z.tags <= after.zettel.tags && forall k :: 0 <= k < |indexTags| ==> HasName(after.zettel.tags, indexTags[k])
    ensures !fatal ==> after.zettel.noteTags == TagEdges(TimestampId(t), indexTags, after.zettel.tags, z.noteTags)
    ensures !fatal ==> after.zettel.notes == Synced(
      z.notes + [NewRow(TimestampId(t), IndexTitle(bookId, args, sources).value.0, "index", Stamp(t)).(seqId := NextId("n", SeqIds(z.notes)))],
      TimestampId(t), edited, now)
  {
    var resolved := ResolveIndexTitle(bookId, args, sources);
    if resolved.Err? {
      return IndexState(z, sourceNotes), true;
    }
    var (indexTitle, sourceId) := resolved.value;
    var tags := z.tags;
    if |indexTags| > 0 {
      tags := CreateNewTag(indexTags, tags);
    }
    var path, note, notes, disk := CreateNote("index", indexTitle, indexTags, t, c, z.notes, z.disk);
    var links := sourceNotes;
    if bookId != "" {
      links := LinkNewIndex(bookId, args, sources, z.notes, note, sourceNotes);
    }
    var noteTags := InsertTagEdges(note.id, indexTags, tags, z.noteTags);
    disk := AfterEditor(disk, path, edited);
    var noteId := TrimSuffix(path.name, ".md");
    assert path.name[|path.name| - 3..] == ".md";
    var read := if path in disk.files then Some(disk.files[path]) else None;
    assert read == edited;
    notes := SyncCreatedRow(notes, noteId, read, now);
    return IndexState(Zettel(notes, tags, noteTags, disk), links), false;
  }
}
