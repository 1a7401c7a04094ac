/**
 * The `source` subcommands: `new` checks the title and the type before it
 * inserts, `list` pages through sources.json, `show` prints a source and the
 * notes linked to it, `edit` overwrites the fields whose flags were given,
 * and `add-note` and `remove-note` append and drop source/note pairs. Both
 * of the last two read the source ID and the note ID from the first
 * argument.
 */
module SourceCommands {
  import opened Wrappers
  import opened Seqs
  import opened Text
  import opened Model
  import opened DisplayIds
  import opened Sources
  import opened Listing
  import IndexCommands

  // ---------------------------------------------------------------------------
  // new

  /** The four kinds of source `source new` accepts. */
  predicate ValidType(sourceType: string)
  {
    sourceType == "book" || sourceType == "web" || sourceType == "paper" || sourceType == "video"
  }

  /** The flags of `source new`. */
  datatype SourceFlags = SourceFlags(
    sourceType: string, title: string, author: string, publisher: string, year: int, isbn: string, url: string)

  /** The row `source new` builds: the next `s` ID and every flag. */
  function FlagRow(f: SourceFlags, sources: seq<Source>): Source
  {
    Source(NextId("s", SourceIds(sources)), f.sourceType, f.title, f.author, f.publisher, f.year, f.isbn, f.url)
  }

  /**
   * sources.json after `source new`: an empty title ends the process first,
   * then a type outside the four; otherwise the row is appended unless a
   * source already has that title.
   */
  function NewSource(f: SourceFlags, sources: seq<Source>): Result<seq<Source>>
  {
    if f.title == "" then Err("title required")
    else if !ValidType(f.sourceType) then Err("invalid source type")
    else if HasTitle(sources, f.title) then Ok(sources)
    else Ok(sources + [FlagRow(f, sources)])
  }

  method SourceNew(f: SourceFlags, sources: seq<Source>) returns (r: Result<seq<Source>>)
    ensures r == NewSource(f, sources)
  {
    if f.title == "" {
      return Err("title required");
    }
    if f.sourceType != "book" && f.sourceType != "web" && f.sourceType != "paper" && f.sourceType != "video" {
      return Err("invalid source type");
    }
    var id := GetNextSourceID(sources);
    var source := Source(id, f.sourceType, f.title, f.author, f.publisher, f.year, f.isbn, f.url);
    var updated := InsertSourceToJson(sources, source);
    return Ok(updated);
  }

  /** `source new` fails exactly on an empty title or an unknown type, the title check coming first. */
  lemma NewSourceErrors(f: SourceFlags, sources: seq<Source>)
    ensures NewSource(f, sources).Err? <==> f.title == "" || !ValidType(f.sourceType)
    ensures f.title == "" ==> NewSource(f, sources) == Err("title required")
  {
  }

  /**
   * On success the old rows are a prefix of the new ones, the title is
   * present, at most one row was added, and titles stay unique.
   */
  lemma NewSourceKeeps(f: SourceFlags, sources: seq<Source>)
    ensures NewSource(f, sources).Ok? ==>
      var updated := NewSource(f, sources).value;
      sources <= updated && |updated| <= |sources| + 1 && HasTitle(updated, f.title)
      && (TitlesUnique(sources) ==> TitlesUnique(updated))
  {
    var r := NewSource(f, sources);
    if r.Ok? && !HasTitle(sources, f.title) {
      assert r.value[|sources|].title == f.title;
    }
  }

  /** A row that is added carries the flags under an ID no row had, and IDs stay unique. */
  lemma NewSourceRow(f: SourceFlags, sources: seq<Source>)
    ensures NewSource(f, sources).Ok? && !HasTitle(sources, f.title) && MaxSuffix("s", SourceIds(sources)) < MaxInt64 ==>
      var row := NewSource(f, sources).value[|sources|];
      row.sourceType == f.sourceType && row.title == f.title && row.year == f.year
      && (forall i :: 0 <= i < |sources| ==> sources[i].sourceId != row.sourceId)
      && (IdsUnique(sources) ==> IdsUnique(NewSource(f, sources).value))
  {
    var r := NewSource(f, sources);
    if r.Ok? && !HasTitle(sources, f.title) && MaxSuffix("s", SourceIds(sources)) < MaxInt64 {
      NextIdFresh("s", SourceIds(sources));
      assert forall i :: 0 <= i < |sources| ==> sources[i].sourceId == SourceIds(sources)[i];
    }
  }

  /** Running `source new` twice with the same flags adds the source once. */
  lemma NewSourceIdempotent(f: SourceFlags, sources: seq<Source>)
    requires NewSource(f, sources).Ok?
    ensures NewSource(f, NewSource(f, sources).value) == NewSource(f, sources)
  {
    NewSourceKeeps(f, sources);
  }

  // ---------------------------------------------------------------------------
  // list

  /**
   * `source list`: the windows of sources.json shown page by page. The loop
   * stops after the first page when the permanent list's `--limit` value,
   * which this command never sets, equals the number of sources.
   */
  method SourceList(sources: seq<Source>, limit: int, permanentPageSize: int, answers: seq<string>)
    returns (windows: seq<(int, int)>, ending: Ending)
    ensures (windows, ending) == Pages(|sources|, PageSize(limit, |sources|), Some(permanentPageSize), answers)
    ensures sources == [] ==> windows == [] && ending == NoMore
  {
    if |sources| == 0 {
      return [], NoMore;
    }
    var size := limit;
    if size == -1 {
      size := |sources|;
    }
    windows, ending := Paginate(|sources|, size, Some(permanentPageSize), answers);
  }

  /**
   * When the number of sources equals the permanent list's page size (20
   * by default), only the first `--limit` sources are shown and no prompt
   * follows, however many sources remain.
   */
  lemma SourceListStopsEarly(n: nat, limit: int, answers: seq<string>)
    requires 0 < limit < n
    ensures Pages(n, PageSize(limit, n), Some(n), answers) == ([(0, limit)], LastPage)
  {
  }

  /** Otherwise a positive limit below the count shows the first page and waits for an answer. */
  lemma SourceListContinues(n: nat, limit: int, permanentPageSize: int, answers: seq<string>)
    requires 0 < limit < n && permanentPageSize != n && |answers| > 0 && TrimSpace(answers[0]) != "q"
    ensures var r := Pages(n, PageSize(limit, n), Some(permanentPageSize), answers);
      |r.0| >= 2 && r.0[0] == (0, limit) && r.0[1].0 == limit
  {
    var quits := Quits(answers);
    assert !QuitAt(quits, 0);
    PagesStep(0, 0, n, limit, Some(permanentPageSize), quits);
  }

  // ---------------------------------------------------------------------------
  // show

  /** The source `source show` prints: the first with the ID, or the zero row when none has it. */
  function ShownSource(sourceId: string, sources: seq<Source>): (s: Source)
    ensures IndexCommands.HasSource(sources, sourceId) ==>
      (s.sourceId == sourceId && exists i :: 0 <= i < |sources| && sources[i] == s)
    ensures !IndexCommands.HasSource(sources, sourceId) ==> s == Source("", "", "", "", "", 0, "", "")
  {
    match FirstIndex(sources, IndexCommands.SourceIdIs(sourceId))
    case None => Source("", "", "", "", "", 0, "", "")
    case Some(i) => sources[i]
  }

  /** Whether an edge belongs to the source and names the display ID of some note. */
  function Resolves(sourceId: string, notes: seq<Note>): SourceNote -> bool
  {
    (sn: SourceNote) => sn.sourceId == sourceId && Exists(notes, SeqIdIs(sn.noteId))
  }

  /**
   * The related notes: for each edge of the source, in order, the first note
   * whose display ID is the edge's note ID; edges naming no note add nothing.
   */
  function RelatedNotes(sourceId: string, sourceNotes: seq<SourceNote>, notes: seq<Note>): (r: seq<Note>)
  {
    if sourceNotes == [] then []
    else
      var sn := sourceNotes[|sourceNotes| - 1];
      var prior := RelatedNotes(sourceId, sourceNotes[..|sourceNotes| - 1], notes);
      if sn.sourceId != sourceId then prior
      else match FirstIndex(notes, SeqIdIs(sn.noteId))
        case None => prior
        case Some(i) => prior + [notes[i]]
  }

  method SourceShow(sourceId: string, sources: seq<Source>, notes: seq<Note>, sourceNotes: seq<SourceNote>)
    returns (source: Source, related: seq<Note>)
    ensures source == ShownSource(sourceId, sources)
    ensures related == RelatedNotes(sourceId, sourceNotes, notes)
  {
    source := Source("", "", "", "", "", 0, "", "");
    var k := 0;
    while k < |sources|
      invariant 0 <= k <= |sources|
      invariant forall j :: 0 <= j < k ==> !IndexCommands.SourceIdIs(sourceId)(sources[j])
    {
      if sources[k].sourceId == sourceId {
        assert FirstIndex(sources, IndexCommands.SourceIdIs(sourceId)) == Some(k);
        source := sources[k];
        break;
      }
      k := k + 1;
    }
    related := [];
    var i := 0;
    while i < |sourceNotes|
      invariant 0 <= i <= |sourceNotes|
      invariant related == RelatedNotes(sourceId, sourceNotes[..i], notes)
    {
      assert sourceNotes[..i + 1][..i] == sourceNotes[..i];
      var sn := sourceNotes[i];
      if sn.sourceId == sourceId {
        var j := 0;
        while j < |notes|
          invariant 0 <= j <= |notes|
          invariant forall m :: 0 <= m < j ==> !SeqIdIs(sn.noteId)(notes[m])
        {
          if notes[j].seqId == sn.noteId {
            assert FirstIndex(notes, SeqIdIs(sn.noteId)) == Some(j);
            related := related + [notes[j]];
            break;
          }
          j := j + 1;
        }
      }
      i := i + 1;
    }
    assert sourceNotes[..i] == sourceNotes;
  }

  /**
   * Each related note is a note whose display ID some edge of the source
   * names, and there is one related note per edge of the source that names
   * an existing display ID.
   */
  lemma {:induction false} RelatedNotesSound(sourceId: string, sourceNotes: seq<SourceNote>, notes: seq<Note>)
    ensures var r := RelatedNotes(sourceId, sourceNotes, notes);
      |r| == Count(sourceNotes, Resolves(sourceId, notes))
      && forall k :: 0 <= k < |r| ==> r[k] in notes && SourceNote(sourceId, r[k].seqId) in sourceNotes
  {
    if sourceNotes != [] {
      var prefix := sourceNotes[..|sourceNotes| - 1];
      var sn := sourceNotes[|sourceNotes| - 1];
      assert prefix + [sn] == sourceNotes;
      RelatedNotesSound(sourceId, prefix, notes);
      FilterSnoc(prefix, sn, Resolves(sourceId, notes));
      var r := RelatedNotes(sourceId, sourceNotes, notes);
      var prior := RelatedNotes(sourceId, prefix, notes);
      if sn.sourceId == sourceId {
        match FirstIndex(notes, SeqIdIs(sn.noteId))
        case None =>
          assert !Resolves(sourceId, notes)(sn);
        case Some(i) =>
          assert Resolves(sourceId, notes)(sn);
          assert r == prior + [notes[i]];
          assert SourceNote(sourceId, notes[i].seqId) == sn;
          forall k | 0 <= k < |r|
            ensures r[k] in notes && SourceNote(sourceId, r[k].seqId) in sourceNotes
          {
            if k < |prior| {
              assert r[k] == prior[k];
              assert SourceNote(sourceId, prior[k].seqId) in prefix;
            }
          }
      } else {
        forall k | 0 <= k < |r|
          ensures SourceNote(sourceId, r[k].seqId) in sourceNotes
        {
          assert SourceNote(sourceId, prior[k].seqId) in prefix;
        }
      }
    }
  }

  // ---------------------------------------------------------------------------
  // edit

  /** The fields whose flags `source edit` was given, with their new values. */
  datatype Changes = Changes(
    title: Option<string>, author: Option<string>, publisher: Option<string>, year: Option<int>,
    isbn: Option<string>, url: Option<string>)

  function Pick<T>(given: Option<T>, current: T): T
  {
    if given.Some? then given.value else current
  }

  /** A source with the given fields overwritten; its ID and type are never touched. */
  function Apply(s: Source, ch: Changes): (r: Source)
    ensures r.sourceId == s.sourceId && r.sourceType == s.sourceType
    ensures ch == Changes(None, None, None, None, None, None) ==> r == s
  {
    s.(title := Pick(ch.title, s.title), author := Pick(ch.author, s.author),
       publisher := Pick(ch.publisher, s.publisher), year := Pick(ch.year, s.year),
       isbn := Pick(ch.isbn, s.isbn), url := Pick(ch.url, s.url))
  }

  /** sources.json after `source edit`: the first source with the ID is changed; none ends the process. */
  function Edited(sourceId: string, ch: Changes, sources: seq<Source>): Result<seq<Source>>
  {
    match FirstIndex(sources, IndexCommands.SourceIdIs(sourceId))
    case None => Err("source not found")
    case Some(i) => Ok(sources[i := Apply(sources[i], ch)])
  }

  method SourceEdit(sourceId: string, ch: Changes, sources: seq<Source>) returns (r: Result<seq<Source>>)
    ensures r == Edited(sourceId, ch, sources)
  {
    var updated := sources;
    var found := false;
    var i := 0;
    while i < |updated|
      invariant 0 <= i <= |updated| && updated == sources
      invariant forall j :: 0 <= j < i ==> !IndexCommands.SourceIdIs(sourceId)(sources[j])
    {
      if updated[i].sourceId == sourceId {
        assert FirstIndex(sources, IndexCommands.SourceIdIs(sourceId)) == Some(i);
        found := true;
        var s := updated[i];
        if ch.title.Some? {
          s := s.(title := ch.title.value);
        }
        if ch.author.Some? {
          s := s.(author := ch.author.value);
        }
        if ch.publisher.Some? {
          s := s.(publisher := ch.publisher.value);
        }
        if ch.year.Some? {
          s := s.(year := ch.year.value);
        }
        if ch.isbn.Some? {
          s := s.(isbn := ch.isbn.value);
        }
        if ch.url.Some? {
          s := s.(url := ch.url.value);
        }
        assert s == Apply(sources[i], ch);
        updated := updated[i := s];
        break;
      }
      i := i + 1;
    }
    if !found {
      return Err("source not found");
    }
    return Ok(updated);
  }

  /**
   * `source edit` fails exactly when no source has the ID; otherwise only the
   * first source with the ID changes, keeping its ID and type, every given
   * field takes its new value and every other field keeps its old one; the
   * IDs, and so their uniqueness, are untouched.
   */
  lemma EditedSound(sourceId: string, ch: Changes, sources: seq<Source>)
    ensures Edited(sourceId, ch, sources).Err? <==> !IndexCommands.HasSource(sources, sourceId)
    ensures Edited(sourceId, ch, sources).Ok? ==>
      var updated := Edited(sourceId, ch, sources).value;
      |updated| == |sources| && SourceIds(updated) == SourceIds(sources)
      && (IdsUnique(sources) ==> IdsUnique(updated))
      && exists i :: (0 <= i < |sources| && sources[i].sourceId == sourceId
        && (forall j :: 0 <= j < i ==> sources[j].sourceId != sourceId)
        && (forall j :: 0 <= j < |sources| && j != i ==> updated[j] == sources[j])
        && updated[i].sourceType == sources[i].sourceType
        && updated[i].title == Pick(ch.title, sources[i].title)
        && updated[i].author == Pick(ch.author, sources[i].author)
        && updated[i].publisher == Pick(ch.publisher, sources[i].publisher)
        && updated[i].year == Pick(ch.year, sources[i].year)
        && updated[i].isbn == Pick(ch.isbn, sources[i].isbn)
        && updated[i].url == Pick(ch.url, sources[i].url))
  {
    var p := IndexCommands.SourceIdIs(sourceId);
    match FirstIndex(sources, p)
    case None =>
    case Some(i) =>
      var updated := sources[i := Apply(sources[i], ch)];
      assert SourceIds(updated) == SourceIds(sources);
      assert forall j :: 0 <= j < |sources| ==> updated[j].sourceId == sources[j].sourceId;
  }

  /** Editing without any field flag leaves sources.json as it was, when the source exists. */
  lemma EditNothing(sourceId: string, sources: seq<Source>)
    requires IndexCommands.HasSource(sources, sourceId)
    ensures Edited(sourceId, Changes(None, None, None, None, None, None), sources) == Ok(sources)
  {
    EditedSound(sourceId, Changes(None, None, None, None, None, None), sources);
    var i := FirstIndex(sources, IndexCommands.SourceIdIs(sourceId)).value;
    assert sources[i := sources[i]] == sources;
  }

  /** Unlike `source new`, `source edit` may give two sources the same title. */
  lemma EditCanDuplicateTitle()
    ensures var sources := [Source("s001", "book", "A", "", "", 0, "", ""), Source("s002", "web", "B", "", "", 0, "", "")];
      TitlesUnique(sources)
      && Edited("s002", Changes(Some("A"), None, None, None, None, None), sources).Ok?
      && !TitlesUnique(Edited("s002", Changes(Some("A"), None, None, None, None, None), sources).value)
  {
    var sources := [Source("s001", "book", "A", "", "", 0, "", ""), Source("s002", "web", "B", "", "", 0, "", "")];
    assert FirstIndex(sources, IndexCommands.SourceIdIs("s002")) == Some(1) by {
      assert !IndexCommands.SourceIdIs("s002")(sources[0]);
      assert IndexCommands.SourceIdIs("s002")(sources[1]);
    }
    var updated := Edited("s002", Changes(Some("A"), None, None, None, None, None), sources).value;
    assert updated[0].title == updated[1].title;
  }

  // ---------------------------------------------------------------------------
  // add-note and remove-note

  /** `source add-note`: the pair whose source and note are both the first argument, always appended. */
  function NoteAdded(args: seq<string>, sourceNotes: seq<SourceNote>): seq<SourceNote>
    requires |args| == 2
  {
    sourceNotes + [SourceNote(args[0], args[0])]
  }

  /** What `source add-note` reports: whether the source, the note and the pair were found. */
  datatype Lookups = Lookups(sourceFound: bool, noteFound: bool, alreadyLinked: bool)

  method SourceAddNote(args: seq<string>, sources: seq<Source>, notes: seq<Note>, sourceNotes: seq<SourceNote>)
    returns (updated: seq<SourceNote>, seen: Lookups)
    requires |args| == 2
    ensures updated == NoteAdded(args, sourceNotes)
    ensures seen.sourceFound <==> IndexCommands.HasSource(sources, args[0])
    ensures seen.noteFound <==> Exists(notes, SeqIdIs(args[0]))
    ensures seen.alreadyLinked <==> IndexCommands.HasLink(sourceNotes, args[0], args[0])
  {
    var noteId := args[0];
    var sourceId := args[0];
    var foundSource := false;
    var i := 0;
    while i < |sources|
      invariant 0 <= i <= |sources|
      invariant !foundSource ==> forall j :: 0 <= j < i ==> sources[j].sourceId != sourceId
      invariant foundSource ==> IndexCommands.HasSource(sources, sourceId)
    {
      if sources[i].sourceId == sourceId {
        foundSource := true;
        break;
      }
      i := i + 1;
    }
    var foundNote := false;
    i := 0;
    while i < |notes|
      invariant 0 <= i <= |notes|
      invariant !foundNote ==> forall j :: 0 <= j < i ==> !SeqIdIs(noteId)(notes[j])
      invariant foundNote ==> Exists(notes, SeqIdIs(noteId))
    {
      if notes[i].seqId == noteId {
        assert SeqIdIs(noteId)(notes[i]);
        foundNote := true;
        break;
      }
      i := i + 1;
    }
    var linked := false;
    i := 0;
    while i < |sourceNotes|
      invariant 0 <= i <= |sourceNotes|
      invariant linked <==> exists j :: 0 <= j < i && sourceNotes[j].sourceId == sourceId && sourceNotes[j].noteId == noteId
    {
      if sourceNotes[i].sourceId == sourceId && sourceNotes[i].noteId == noteId {
        linked := true;
      }
      i := i + 1;
    }
    updated := sourceNotes + [SourceNote(sourceId, noteId)];
    seen := Lookups(foundSource, foundNote, linked);
  }

  /**
   * `source add-note` ignores its second argument, appends whatever the
   * lookups found, and so stores a second copy of a pair that was there.
   */
  lemma AddNoteQuirks(a: string, b: string, c: string, sourceNotes: seq<SourceNote>)
    ensures NoteAdded([a, b], sourceNotes) == NoteAdded([a, c], sourceNotes)
    ensures IndexCommands.HasLink(NoteAdded([a, b], sourceNotes), a, a)
    ensures IndexCommands.HasLink(sourceNotes, a, a) ==> !IndexCommands.LinksUnique(NoteAdded([a, b], sourceNotes))
  {
    var updated := NoteAdded([a, b], sourceNotes);
    assert updated[|sourceNotes|] == SourceNote(a, a);
    if IndexCommands.HasLink(sourceNotes, a, a) {
      var i :| 0 <= i < |sourceNotes| && sourceNotes[i].sourceId == a && sourceNotes[i].noteId == a;
      assert updated[i] == updated[|sourceNotes|];
    }
  }

  /** The timestamp ID of the first note with the display ID, or the empty string when none has it. */
  function NoteIdOfSeq(notes: seq<Note>, seqId: string): (id: string)
    ensures !Exists(notes, SeqIdIs(seqId)) ==> id == ""
    ensures Exists(notes, SeqIdIs(seqId)) ==> exists i :: 0 <= i < |notes| && notes[i].seqId == seqId && notes[i].id == id
  {
    match FirstIndex(notes, SeqIdIs(seqId))
    case None => ""
    case Some(i) => notes[i].id
  }

  function NotPair(sourceId: string, noteId: string): SourceNote -> bool
  {
    (sn: SourceNote) => !(sn.sourceId == sourceId && sn.noteId == noteId)
  }

  /**
   * `source remove-note`: every pair of the first argument, as source ID,
   * with the timestamp ID of the note whose display ID is that same
   * argument, is dropped; the rest keep their order.
   */
  function NoteRemoved(args: seq<string>, notes: seq<Note>, sourceNotes: seq<SourceNote>): seq<SourceNote>
    requires |args| == 2
  {
    Filter(sourceNotes, NotPair(args[0], NoteIdOfSeq(notes, args[0])))
  }

  method SourceRemoveNote(args: seq<string>, notes: seq<Note>, sourceNotes: seq<SourceNote>)
    returns (updated: seq<SourceNote>, found: bool)
    requires |args| == 2
    ensures updated == NoteRemoved(args, notes, sourceNotes)
    ensures found <==> IndexCommands.HasLink(sourceNotes, args[0], NoteIdOfSeq(notes, args[0]))
  {
    var noteSeqId := args[0];
    var sourceId := args[0];
    var noteId := "";
    var k := 0;
    while k < |notes|
      invariant 0 <= k <= |notes|
      invariant forall j :: 0 <= j < k ==> !SeqIdIs(noteSeqId)(notes[j])
    {
      if notes[k].seqId == noteSeqId {
        assert FirstIndex(notes, SeqIdIs(noteSeqId)) == Some(k);
        noteId := notes[k].id;
        break;
      }
      k := k + 1;
    }
    assert noteId == NoteIdOfSeq(notes, noteSeqId);
    updated := [];
    found := false;
    var i := 0;
    while i < |sourceNotes|
      invariant 0 <= i <= |sourceNotes|
      invariant updated == Filter(sourceNotes[..i], NotPair(sourceId, noteId))
      invariant found <==> exists j :: 0 <= j < i && sourceNotes[j].sourceId == sourceId && sourceNotes[j].noteId == noteId
    {
      FilterSnoc(sourceNotes[..i], sourceNotes[i], NotPair(sourceId, noteId));
      assert sourceNotes[..i + 1] == sourceNotes[..i] + [sourceNotes[i]];
      if sourceNotes[i].sourceId == sourceId && sourceNotes[i].noteId == noteId {
        found := true;
      } else {
        updated := updated + [sourceNotes[i]];
      }
      i := i + 1;
    }
    assert sourceNotes[..i] == sourceNotes;
  }

  /**
   * A pair survives `source remove-note` exactly when it was there and is
   * not the pair of the argument with the note's timestamp ID; nothing is
   * added.
   */
  lemma NoteRemovedSound(args: seq<string>, notes: seq<Note>, sourceNotes: seq<SourceNote>)
    requires |args| == 2
    ensures var id := NoteIdOfSeq(notes, args[0]);
      |NoteRemoved(args, notes, sourceNotes)| <= |sourceNotes|
      && forall sn :: sn in NoteRemoved(args, notes, sourceNotes) <==> sn in sourceNotes && sn != SourceNote(args[0], id)
  {
    var p := NotPair(args[0], NoteIdOfSeq(notes, args[0]));
    FilterLength(sourceNotes, p);
    forall sn
      ensures sn in NoteRemoved(args, notes, sourceNotes) <==> sn in sourceNotes && sn != SourceNote(args[0], NoteIdOfSeq(notes, args[0]))
    {
      FilterMembership(sourceNotes, p, sn);
    }
  }

  /**
   * `remove-note` does not undo `add-note`: the pair `add-note` stored names
   * the display ID, the pair `remove-note` drops names the timestamp ID, so
   * when they differ the stored pair stays.
   */
  lemma RemoveDoesNotUndoAdd(a: string, b: string, notes: seq<Note>, sourceNotes: seq<SourceNote>)
    requires NoteIdOfSeq(notes, a) != a
    ensures SourceNote(a, a) in NoteRemoved([a, b], notes, NoteAdded([a, b], sourceNotes))
  {
    var added := NoteAdded([a, b], sourceNotes);
    assert added[|sourceNotes|] == SourceNote(a, a);
    NoteRemovedSound([a, b], notes, added);
  }
}
