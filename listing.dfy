/**
 * The `list` subcommand shared by the permanent, literature, fleeting,
 * structure and index note commands: a soft-state and type filter, the tag
 * names shown beside each note, the full-text search whose empty result is
 * ignored, the tag and date filter, and the page windows the user walks
 * through by pressing Enter.
 */
module Listing {
  import opened Wrappers
  import opened Seqs
  import opened Text
  import opened Model
  import opened Query

  // ---------------------------------------------------------------------------
  // Tag names shown beside a note

  /** The tag IDs of a note's edges, in edge order. */
  function EdgeTagIds(noteTags: seq<NoteTag>, noteId: string): (ids: seq<string>)
    ensures |ids| <= |noteTags|
  {
    if noteTags == [] then []
    else
      var last := noteTags[|noteTags| - 1];
      EdgeTagIds(noteTags[..|noteTags| - 1], noteId) + (if last.noteId == noteId then [last.tagId] else [])
  }

  /** Tag ID to name; a later row with the same ID overrides an earlier one. */
  function TagMapOf(tags: seq<Tag>): (m: map<string, string>)
    ensures forall id :: id in m <==> exists k :: 0 <= k < |tags| && tags[k].id == id
  {
    if tags == [] then map[]
    else
      var last := tags[|tags| - 1];
      var m := TagMapOf(tags[..|tags| - 1]);
      assert forall k :: 0 <= k < |tags| - 1 ==> tags[..|tags| - 1][k] == tags[k];
      m[last.id := last.name]
  }

  /** The names of the given tag IDs; an ID with no tag row is skipped. */
  function NamesOf(tagIds: seq<string>, tagMap: map<string, string>): (names: seq<string>)
    ensures |names| <= |tagIds|
  {
    if tagIds == [] then []
    else
      var last := tagIds[|tagIds| - 1];
      NamesOf(tagIds[..|tagIds| - 1], tagMap) + (if last in tagMap then [tagMap[last]] else [])
  }

  /** The tag names shown for a note. */
  function TagNamesOf(noteTags: seq<NoteTag>, tags: seq<Tag>, noteId: string): seq<string>
  {
    NamesOf(EdgeTagIds(noteTags, noteId), TagMapOf(tags))
  }

  /** A read of a Go map of slices: a missing key reads as the empty slice. */
  function Lookup(m: map<string, seq<string>>, key: string): seq<string>
  {
    if key in m then m[key] else []
  }

  lemma {:induction false} EdgeTagIdsMembership(noteTags: seq<NoteTag>, noteId: string, tagId: string)
    ensures tagId in EdgeTagIds(noteTags, noteId) <==> NoteTag(noteId, tagId) in noteTags
  {
    if noteTags != [] {
      var init := noteTags[..|noteTags| - 1];
      EdgeTagIdsMembership(init, noteId, tagId);
      assert noteTags == init + [noteTags[|noteTags| - 1]];
    }
  }

  lemma {:induction false} NamesOfMembership(tagIds: seq<string>, tagMap: map<string, string>, name: string)
    ensures name in NamesOf(tagIds, tagMap) <==> exists id :: id in tagIds && id in tagMap && tagMap[id] == name
  {
    if tagIds != [] {
      var init := tagIds[..|tagIds| - 1];
      var last := tagIds[|tagIds| - 1];
      NamesOfMembership(init, tagMap, name);
      assert tagIds == init + [last];
      if name in NamesOf(tagIds, tagMap) && !(name in NamesOf(init, tagMap)) {
        assert last in tagIds && last in tagMap && tagMap[last] == name;
      }
    }
  }

  /**
   * A name is shown for a note exactly when an edge joins the note to some
   * tag ID whose (last) tag row carries that name.
   */
  lemma TagNamesMembership(noteTags: seq<NoteTag>, tags: seq<Tag>, noteId: string, name: string)
    ensures name in TagNamesOf(noteTags, tags, noteId) <==>
      exists id :: NoteTag(noteId, id) in noteTags && id in TagMapOf(tags) && TagMapOf(tags)[id] == name
  {
    NamesOfMembership(EdgeTagIds(noteTags, noteId), TagMapOf(tags), name);
    forall id
      ensures id in EdgeTagIds(noteTags, noteId) <==> NoteTag(noteId, id) in noteTags
    {
      EdgeTagIdsMembership(noteTags, noteId, id);
    }
  }

  /**
   * The three maps the list command builds: note ID to tag IDs, tag ID to
   * name, and note ID to the names shown. Every note of the store gets an
   * entry, whichever notes the list keeps.
   */
  method BuildTagDisplay(notes: seq<Note>, noteTags: seq<NoteTag>, tags: seq<Tag>)
    returns (display: map<string, seq<string>>)
    ensures forall id :: id in display <==> exists j :: 0 <= j < |notes| && notes[j].id == id
    ensures forall id :: id in display ==> display[id] == TagNamesOf(noteTags, tags, id)
  {
    var noteTagMap := BuildNoteTagMap(noteTags);
    var tagMap := BuildTagMap(tags);
    display := map[];
    var i := 0;
    while i < |notes|
      invariant 0 <= i <= |notes|
      invariant forall id :: id in display <==> exists j :: 0 <= j < i && notes[j].id == id
      invariant forall id :: id in display ==> display[id] == TagNamesOf(noteTags, tags, id)
    {
      var tagNames := NamesFor(Lookup(noteTagMap, notes[i].id), tagMap);
      display := display[notes[i].id := tagNames];
      i := i + 1;
    }
  }

  /** The note-to-tag-IDs map, built edge by edge. */
  method BuildNoteTagMap(noteTags: seq<NoteTag>) returns (noteTagMap: map<string, seq<string>>)
    ensures forall id :: Lookup(noteTagMap, id) == EdgeTagIds(noteTags, id)
  {
    noteTagMap := map[];
    var i := 0;
    while i < |noteTags|
      invariant 0 <= i <= |noteTags|
      invariant forall id :: Lookup(noteTagMap, id) == EdgeTagIds(noteTags[..i], id)
    {
      var edge := noteTags[i];
      assert noteTags[..i + 1] == noteTags[..i] + [edge];
      EdgeStep(noteTagMap, noteTags[..i], edge);
      noteTagMap := noteTagMap[edge.noteId := Lookup(noteTagMap, edge.noteId) + [edge.tagId]];
      i := i + 1;
    }
    assert noteTags[..i] == noteTags;
  }

  /** The tag-ID-to-name map, a later row overwriting an earlier one. */
  method BuildTagMap(tags: seq<Tag>) returns (tagMap: map<string, string>)
    ensures tagMap == TagMapOf(tags)
  {
    tagMap := map[];
    var i := 0;
    while i < |tags|
      invariant 0 <= i <= |tags|
      invariant tagMap == TagMapOf(tags[..i])
    {
      assert tags[..i + 1][..i] == tags[..i];
      tagMap := tagMap[tags[i].id := tags[i].name];
      i := i + 1;
    }
    assert tags[..i] == tags;
  }

  /** One more edge read into the note-to-tag-IDs map. */
  lemma EdgeStep(m: map<string, seq<string>>, prefix: seq<NoteTag>, edge: NoteTag)
    requires forall id :: Lookup(m, id) == EdgeTagIds(prefix, id)
    ensures forall id :: Lookup(m[edge.noteId := Lookup(m, edge.noteId) + [edge.tagId]], id) == EdgeTagIds(prefix + [edge], id)
  {
    assert (prefix + [edge])[..|prefix|] == prefix;
  }

  /** The names of a note's tag IDs, skipping IDs with no tag. */
  method NamesFor(ids: seq<string>, tagMap: map<string, string>) returns (tagNames: seq<string>)
    ensures tagNames == NamesOf(ids, tagMap)
  {
    tagNames := [];
    var k := 0;
    while k < |ids|
      invariant 0 <= k <= |ids|
      invariant tagNames == NamesOf(ids[..k], tagMap)
    {
      assert ids[..k + 1][..k] == ids[..k];
      if ids[k] in tagMap {
        tagNames := tagNames + [tagMap[ids[k]]];
      }
      k := k + 1;
    }
    assert ids[..k] == ids;
  }

  // ---------------------------------------------------------------------------
  // The list pipeline

  /**
   * The soft-state and type test of the list loop. With `--trash` every
   * deleted note is listed, of any type; otherwise with `--archive` every
   * archived note, of any type; otherwise the live notes of the command's own
   * type, archived ones included.
   */
  function Listed(noteType: string, trash: bool, archive: bool): Note -> bool
  {
    (n: Note) =>
      if trash then n.deleted
      else if archive then n.archived
      else !n.deleted && n.noteType != "task" && n.noteType == noteType
  }

  /** The search step: a search that finds nothing leaves the list as it was. */
  function Searched(pre: seq<Note>, query: string, texts: map<string, string>): seq<Note>
  {
    if query == "" then pre
    else
      var found := Filter(pre, Mentions(query, texts));
      if found == [] then pre else found
  }

  function NoteIds(notes: seq<Note>): set<string>
  {
    set n | n in notes :: n.id
  }

  /** The tag names of every note of the store. */
  function Display(notes: seq<Note>, noteTags: seq<NoteTag>, tags: seq<Tag>): map<string, seq<string>>
  {
    map id | id in NoteIds(notes) :: TagNamesOf(noteTags, tags, id)
  }

  /** What the list command shows, before paging. */
  function Listing(
    notes: seq<Note>, noteTags: seq<NoteTag>, tags: seq<Tag>, noteType: string, trash: bool, archive: bool,
    query: string, texts: map<string, string>, filterTags: seq<string>, fromDate: string, toDate: string): seq<Note>
  {
    var searched := Searched(Filter(notes, Listed(noteType, trash, archive)), query, texts);
    if searched == [] then []
    else Filter(searched, Passes(filterTags, fromDate, toDate, Display(notes, noteTags, tags)))
  }

  method ListNotes(
    notes: seq<Note>, noteTags: seq<NoteTag>, tags: seq<Tag>, noteType: string, trash: bool, archive: bool,
    query: string, texts: map<string, string>, filterTags: seq<string>, fromDate: string, toDate: string)
    returns (listed: seq<Note>)
    ensures listed == Listing(notes, noteTags, tags, noteType, trash, archive, query, texts, filterTags, fromDate, toDate)
  {
    var filtered: seq<Note> := [];
    var display: map<string, seq<string>> := map[];
    var i := 0;
    while i < |notes|
      invariant 0 <= i <= |notes|
      invariant filtered == Filter(notes[..i], Listed(noteType, trash, archive))
      invariant filtered != [] ==> display == Display(notes, noteTags, tags)
    {
      var note := notes[i];
      FilterSnoc(notes[..i], note, Listed(noteType, trash, archive));
      assert notes[..i + 1] == notes[..i] + [note];
      var keep := true;
      if trash {
        keep := note.deleted;
      } else if archive {
        keep := note.archived;
      } else {
        keep := !note.deleted && note.noteType != "task" && note.noteType == noteType;
      }
      if keep {
        display := BuildTagDisplay(notes, noteTags, tags);
        DisplayIsBuilt(notes, noteTags, tags, display);
        filtered := filtered + [note];
      }
      i := i + 1;
    }
    assert notes[..i] == notes;
    if query != "" {
      var results := FullTextSearch(filtered, query, texts);
      if |results| > 0 {
        filtered := results;
      }
    }
    if |filtered| > 0 {
      filtered := FilterNotes(filtered, filterTags, fromDate, toDate, display);
    }
    return filtered;
  }

  /** The display the command builds is the display of the specification. */
  lemma DisplayIsBuilt(notes: seq<Note>, noteTags: seq<NoteTag>, tags: seq<Tag>, display: map<string, seq<string>>)
    requires forall id :: id in display <==> exists j :: 0 <= j < |notes| && notes[j].id == id
    requires forall id :: id in display ==> display[id] == TagNamesOf(noteTags, tags, id)
    ensures display == Display(notes, noteTags, tags)
  {
    var spec := Display(notes, noteTags, tags);
    forall id
      ensures id in display <==> id in spec
    {
      if id in display {
        var j :| 0 <= j < |notes| && notes[j].id == id;
        assert notes[j] in notes;
      }
    }
  }

  /**
   * Everything listed is a note of the store that passes the soft-state and
   * type test, the tag test and the date test; and when the search found
   * something, everything listed matches the search.
   */
  lemma ListingSound(
    notes: seq<Note>, noteTags: seq<NoteTag>, tags: seq<Tag>, noteType: string, trash: bool, archive: bool,
    query: string, texts: map<string, string>, filterTags: seq<string>, fromDate: string, toDate: string, n: Note)
    requires n in Listing(notes, noteTags, tags, noteType, trash, archive, query, texts, filterTags, fromDate, toDate)
    ensures n in notes && Listed(noteType, trash, archive)(n)
    ensures (filterTags == [] || TagsMatch(TagNamesOf(noteTags, tags, n.id), filterTags))
    ensures IsWithinDateRange(n.createdAt, fromDate, toDate)
    ensures query != "" && Filter(Filter(notes, Listed(noteType, trash, archive)), Mentions(query, texts)) != [] ==>
      Mentions(query, texts)(n)
  {
    var pre := Filter(notes, Listed(noteType, trash, archive));
    var searched := Searched(pre, query, texts);
    var display := Display(notes, noteTags, tags);
    FilterNotesMembership(searched, filterTags, fromDate, toDate, display, n);
    if query != "" {
      FilterMembership(pre, Mentions(query, texts), n);
    }
    FilterMembership(notes, Listed(noteType, trash, archive), n);
    assert n.id in NoteIds(notes);
  }

  /** A search that matches nothing lists exactly what no search lists. */
  lemma EmptySearchIgnored(
    notes: seq<Note>, noteTags: seq<NoteTag>, tags: seq<Tag>, noteType: string, trash: bool, archive: bool,
    query: string, texts: map<string, string>, filterTags: seq<string>, fromDate: string, toDate: string)
    requires Filter(Filter(notes, Listed(noteType, trash, archive)), Mentions(query, texts)) == []
    ensures Listing(notes, noteTags, tags, noteType, trash, archive, query, texts, filterTags, fromDate, toDate)
      == Listing(notes, noteTags, tags, noteType, trash, archive, "", texts, filterTags, fromDate, toDate)
  {
  }

  /**
   * With no search and no filters, the plain list shows every live note of
   * the command's type, archived ones included, and `--trash` shows every
   * deleted note whatever its type.
   */
  lemma UnfilteredListing(notes: seq<Note>, noteTags: seq<NoteTag>, tags: seq<Tag>, noteType: string, trash: bool, archive: bool, texts: map<string, string>)
    ensures Listing(notes, noteTags, tags, noteType, trash, archive, "", texts, [], "", "") == Filter(notes, Listed(noteType, trash, archive))
    ensures !trash && !archive && noteType != "task" ==>
      forall n :: n in notes ==> (n in Listing(notes, noteTags, tags, noteType, false, false, "", texts, [], "", "") <==> !n.deleted && n.noteType == noteType)
    ensures trash ==>
      forall n :: n in notes ==> (n in Listing(notes, noteTags, tags, noteType, true, archive, "", texts, [], "", "") <==> n.deleted)
  {
    var pre := Filter(notes, Listed(noteType, trash, archive));
    NoFilterKeepsAll(pre, Display(notes, noteTags, tags));
    forall n | n in notes
      ensures n in pre <==> Listed(noteType, trash, archive)(n)
    {
      FilterMembership(notes, Listed(noteType, trash, archive), n);
    }
  }

  // ---------------------------------------------------------------------------
  // Paging

  /**
   * How the paging loop ends: it ran past the last row, showed the last page,
   * the user typed `q`, slicing panicked on a negative limit, or it never
   * ends (a limit of 0 shows empty pages for as long as input lasts, and
   * end of input reads as an empty answer, not `q`).
   */
  datatype Ending = NoMore | LastPage | Quit | Panic | Endless

  /** Which answers, once trimmed, are `q`. */
  function Quits(answers: seq<string>): (quits: seq<bool>)
    ensures |quits| == |answers|
  {
    seq(|answers|, k requires 0 <= k < |answers| => TrimSpace(answers[k]) == "q")
  }

  /** Whether the answer to the prompt after page `k` quits; end of input reads as an empty answer. */
  function QuitAt(quits: seq<bool>, k: nat): bool
  {
    k < |quits| && quits[k]
  }

  /** `--limit -1` means all rows on one page. */
  function PageSize(limit: int, n: nat): int
  {
    if limit == -1 then n else limit
  }

  /** Rows `[start, end)` of page `k`. */
  function Window(k: nat, size: int, n: nat): (w: (int, int))
  {
    var start := k * size;
    (start, if start + size > n then n else start + size)
  }

  lemma MulSucc(k: nat, size: int)
    ensures (k + 1) * size == k * size + size
  {
  }

  /** What one page of the loop shows, and how the loop ends after it, if it does. */
  datatype Step = Step(window: Option<(int, int)>, stop: Option<Ending>)

  /**
   * Page `page`, whose first row is `start`, for `n` rows and page size
   * `size`: nothing past the end, a panic on a slice whose end is below its
   * start, then the window, after which the loop stops when it was the last
   * page (or `n` equals `exitSize`, when present), when the answer is `q`,
   * or, for a page size of 0, when input is exhausted.
   */
  function StepAt(page: nat, start: int, n: nat, size: int, exitSize: Option<int>, quits: seq<bool>): (st: Step)
    ensures st.stop.None? ==>
      (st.window == Some((start, start + size)) && ((size > 0 && start + size < n) || (size == 0 && page < |quits|)))
  {
    var end := if start + size > n then n else start + size;
    if start >= n then Step(None, Some(NoMore))
    else if end < start then Step(None, Some(Panic))
    else if exitSize == Some(n) || end >= n then Step(Some((start, end)), Some(LastPage))
    else if QuitAt(quits, page) then Step(Some((start, end)), Some(Quit))
    else if size == 0 && page >= |quits| then Step(Some((start, end)), Some(Endless))
    else Step(Some((start, end)), None)
  }

  function WindowShown(window: Option<(int, int)>): seq<(int, int)>
  {
    if window.Some? then [window.value] else []
  }

  /**
   * The pages shown from page `page`, whose first row is `start`, on.
   * `exitSize`, when present, is the value the loop compares with `n` to
   * stop after the first page; `quits` says which answers typed at the
   * prompts are `q`.
   */
  function PagesFrom(page: nat, start: int, n: nat, size: int, exitSize: Option<int>, quits: seq<bool>)
    : (r: (seq<(int, int)>, Ending))
    decreases if size > 0 && start < n then n - start else 0,
      if size == 0 && page < |quits| then |quits| - page else 0
  {
    var st := StepAt(page, start, n, size, exitSize, quits);
    if st.stop.Some? then (WindowShown(st.window), st.stop.value)
    else
      var rest := PagesFrom(page + 1, start + size, n, size, exitSize, quits);
      ([st.window.value] + rest.0, rest.1)
  }

  function Pages(n: nat, size: int, exitSize: Option<int>, answers: seq<string>): (seq<(int, int)>, Ending)
  {
    PagesFrom(0, 0, n, size, exitSize, Quits(answers))
  }

  /** How the loop of `Paginate` keeps its invariant over a page that does not end it. */
  lemma PagesFromContinue(whole: (seq<(int, int)>, Ending), windows: seq<(int, int)>, page: nat, start: int, n: nat, size: int,
                          exitSize: Option<int>, quits: seq<bool>, window: Option<(int, int)>)
    requires whole == (windows + PagesFrom(page, start, n, size, exitSize, quits).0, PagesFrom(page, start, n, size, exitSize, quits).1)
    requires StepAt(page, start, n, size, exitSize, quits) == Step(window, None)
    ensures window.Some?
    ensures whole == ((windows + [window.value]) + PagesFrom(page + 1, start + size, n, size, exitSize, quits).0,
                      PagesFrom(page + 1, start + size, n, size, exitSize, quits).1)
  {
    var rest := PagesFrom(page + 1, start + size, n, size, exitSize, quits);
    assert windows + ([window.value] + rest.0) == (windows + [window.value]) + rest.0;
  }

  /** How the loop of `Paginate` ends on a page that stops it. */
  lemma PagesFromStop(whole: (seq<(int, int)>, Ending), windows: seq<(int, int)>, page: nat, start: int, n: nat, size: int,
                      exitSize: Option<int>, quits: seq<bool>, window: Option<(int, int)>, stop: Ending)
    requires whole == (windows + PagesFrom(page, start, n, size, exitSize, quits).0, PagesFrom(page, start, n, size, exitSize, quits).1)
    requires StepAt(page, start, n, size, exitSize, quits) == Step(window, Some(stop))
    ensures whole == (windows + WindowShown(window), stop)
  {
  }

  /** The paging loop of the list commands. */
  method Paginate(n: nat, size: int, exitSize: Option<int>, answers: seq<string>)
    returns (windows: seq<(int, int)>, ending: Ending)
    ensures (windows, ending) == Pages(n, size, exitSize, answers)
  {
    var page := 0;
    var start := 0;
    windows := [];
    ghost var quits := Quits(answers);
    ghost var whole := PagesFrom(0, 0, n, size, exitSize, quits);
    assert [] + whole.0 == whole.0;
    while true
      invariant whole == (windows + PagesFrom(page, start, n, size, exitSize, quits).0, PagesFrom(page, start, n, size, exitSize, quits).1)
      decreases if size > 0 && start < n then n - start else 0,
        if size == 0 && page < |answers| then |answers| - page else 0
    {
      var window, stop := ShowPage(page, start, n, size, exitSize, answers, quits);
      if stop.Some? {
        PagesFromStop(whole, windows, page, start, n, size, exitSize, quits, window, stop.value);
        return windows + WindowShown(window), stop.value;
      }
      PagesFromContinue(whole, windows, page, start, n, size, exitSize, quits, window);
      windows := windows + [window.value];
      page := page + 1;
      start := start + size;
    }
  }

  /**
   * One page of the loop, whose first row is `start` (the loop keeps it
   * equal to `page * size`): the window shown, if any, and how the loop
   * ends after it, if it does.
   */
  method ShowPage(page: nat, start: int, n: nat, size: int, exitSize: Option<int>, answers: seq<string>, ghost quits: seq<bool>)
    returns (window: Option<(int, int)>, stop: Option<Ending>)
    requires quits == Quits(answers)
    ensures Step(window, stop) == StepAt(page, start, n, size, exitSize, quits)
  {
    var end := start + size;
    if start >= n {
      return None, Some(NoMore);
    }
    if end > n {
      end := n;
    }
    if end < start {
      return None, Some(Panic);
    }
    if exitSize == Some(n) || end >= n {
      return Some((start, end)), Some(LastPage);
    }
    var quit := ReadsQuit(answers, page, quits);
    if quit {
      return Some((start, end)), Some(Quit);
    }
    if size == 0 && page >= |answers| {
      return Some((start, end)), Some(Endless);
    }
    return Some((start, end)), None;
  }

  /** The answer typed at the prompt after page `page` is `q`, once trimmed; end of input reads as an empty answer. */
  method ReadsQuit(answers: seq<string>, page: nat, ghost quits: seq<bool>) returns (quit: bool)
    requires quits == Quits(answers)
    ensures quit == QuitAt(quits, page)
  {
    var input := if page < |answers| then TrimSpace(answers[page]) else "";
    quit := input == "q";
  }

  /** One step of paging, when the page shown is neither the last nor followed by `q`. */
  lemma PagesStep(page: nat, start: int, n: nat, size: int, exitSize: Option<int>, quits: seq<bool>)
    requires start < n && start <= start + size
    requires exitSize != Some(n) && start + size < n && !QuitAt(quits, page) && !(size == 0 && page >= |quits|)
    ensures PagesFrom(page, start, n, size, exitSize, quits) ==
      ([(start, start + size)] + PagesFrom(page + 1, start + size, n, size, exitSize, quits).0,
       PagesFrom(page + 1, start + size, n, size, exitSize, quits).1)
  {
  }

  /** Every page shown is the window `[k * size, min((k + 1) * size, n))` of its number. */
  lemma {:induction false} PagesFromWindows(page: nat, n: nat, size: int, exitSize: Option<int>, quits: seq<bool>)
    ensures forall k :: 0 <= k < |PagesFrom(page, page * size, n, size, exitSize, quits).0| ==>
      PagesFrom(page, page * size, n, size, exitSize, quits).0[k] == Window(page + k, size, n)
    decreases if size > 0 && page * size < n then n - page * size else 0,
      if size == 0 && page < |quits| then |quits| - page else 0
  {
    var start := page * size;
    var end := if start + size > n then n else start + size;
    if !(start >= n || end < start || exitSize == Some(n) || end >= n || QuitAt(quits, page)
         || (size == 0 && page >= |quits|)) {
      MulSucc(page, size);
      PagesFromWindows(page + 1, n, size, exitSize, quits);
      var ws := PagesFrom(page, start, n, size, exitSize, quits).0;
      var rest := PagesFrom(page + 1, start + size, n, size, exitSize, quits).0;
      assert ws == [(start, end)] + rest;
      forall k | 0 <= k < |ws|
        ensures ws[k] == Window(page + k, size, n)
      {
        if k > 0 {
          assert ws[k] == rest[k - 1];
        }
      }
    }
  }

  /**
   * With a positive page size and no `q` typed, paging runs to the last page
   * and the pages shown tile the rows: the first starts at row `start`, each
   * starts where the previous ended, none is empty, and the last ends at row
   * `n`, so every row is shown exactly once.
   */
  lemma {:induction false} PagesTileRows(page: nat, start: int, n: nat, size: int, exitSize: Option<int>, quits: seq<bool>)
    requires size > 0 && 0 <= start < n
    requires exitSize.None? || exitSize == Some(size)
    requires forall k :: page <= k ==> !QuitAt(quits, k)
    ensures var r := PagesFrom(page, start, n, size, exitSize, quits);
      r.1 == LastPage && r.0 != [] && r.0[0].0 == start && r.0[|r.0| - 1].1 == n
      && (forall k :: 0 <= k < |r.0| ==> r.0[k].0 < r.0[k].1)
      && (forall k :: 0 <= k < |r.0| - 1 ==> r.0[k].1 == r.0[k + 1].0)
    decreases n - start
  {
    var end := if start + size > n then n else start + size;
    if !(exitSize == Some(n) || end >= n) {
      PagesTileRows(page + 1, start + size, n, size, exitSize, quits);
      var ws := PagesFrom(page, start, n, size, exitSize, quits).0;
      var rest := PagesFrom(page + 1, start + size, n, size, exitSize, quits).0;
      assert ws == [(start, end)] + rest;
      forall k | 0 <= k < |ws| - 1
        ensures ws[k].1 == ws[k + 1].0
      {
        if k > 0 {
          assert ws[k] == rest[k - 1] && ws[k + 1] == rest[k];
        }
      }
      forall k | 0 <= k < |ws|
        ensures ws[k].0 < ws[k].1
      {
        if k > 0 {
          assert ws[k] == rest[k - 1];
        }
      }
    }
  }

  /** The whole list on one page: `--limit -1` shows all rows at once and stops. */
  lemma AllOnOnePage(n: nat, answers: seq<string>)
    requires n > 0
    ensures Pages(n, PageSize(-1, n), Some(PageSize(-1, n)), answers) == ([(0, n)], LastPage)
  {
  }

  /** A limit of 0 never advances: every page shown is empty, and only `q` ends the loop. */
  lemma {:induction false} ZeroLimitShowsNothing(page: nat, n: nat, exitSize: Option<int>, quits: seq<bool>)
    requires n > 0 && exitSize != Some(n)
    ensures var r := PagesFrom(page, 0, n, 0, exitSize, quits);
      (r.1 == Quit || r.1 == Endless) && forall k :: 0 <= k < |r.0| ==> r.0[k] == (0, 0)
    decreases if page < |quits| then |quits| - page else 0
  {
    if !(QuitAt(quits, page) || page >= |quits|) {
      ZeroLimitShowsNothing(page + 1, n, exitSize, quits);
      var ws := PagesFrom(page, 0, n, 0, exitSize, quits).0;
      var rest := PagesFrom(page + 1, 0, n, 0, exitSize, quits).0;
      forall k | 0 <= k < |ws|
        ensures ws[k] == (0, 0)
      {
        if k > 0 {
          assert ws[k] == rest[k - 1];
        }
      }
    }
  }

  /** A limit below -1 makes the first slice panic, unless there are no rows. */
  lemma NegativeLimitPanics(n: nat, size: int, exitSize: Option<int>, answers: seq<string>)
    requires size < 0 && n > 0
    ensures Pages(n, size, exitSize, answers) == ([], Panic)
  {
  }
}
