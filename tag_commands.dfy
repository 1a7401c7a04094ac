/**
 * The `tag` subcommands: `add` tags the notes with a display ID (the header
 * and note_tags.json), `remove` untags the first of them and drops the tag
 * once no edge uses it, and `list` shows the tags with their usage counts.
 */
module TagCommands {
  import opened Wrappers
  import opened Seqs
  import opened Text
  import opened Model
  import opened Disk
  import opened DisplayIds
  import opened Storage
  import opened Tags
  import opened NoteTags

  /** tags.json, note_tags.json and the note files after a tag command, and whether it returned an error. */
  datatype TagOutcome = TagOutcome(tags: seq<Tag>, noteTags: seq<NoteTag>, disk: Disk, failed: bool)

  function NameIs(name: string): Tag -> bool
  {
    (t: Tag) => t.name == name
  }

  /** One edge per note, to the tag. */
  function EdgesTo(notes: seq<Note>, tagId: string): (edges: seq<NoteTag>)
    ensures |edges| == |notes|
    ensures forall i :: 0 <= i < |notes| ==> edges[i] == NoteTag(notes[i].id, tagId)
  {
    seq(|notes|, i requires 0 <= i < |notes| => NoteTag(notes[i].id, tagId))
  }

  // ---------------------------------------------------------------------------
  // add

  /**
   * The duplicate test of `AddTagToNote`: an edge whose note ID is the
   * display ID given and whose tag ID is the tag name given.
   */
  predicate AlreadyTagged(noteTags: seq<NoteTag>, seqId: string, tagName: string)
  {
    exists i :: 0 <= i < |noteTags| && noteTags[i].noteId == seqId && noteTags[i].tagId == tagName
  }

  /** The tags after the name is looked up, and the ID of the tag it names: an existing one, or a new one appended. */
  function TagFor(tags: seq<Tag>, tagName: string): (r: (seq<Tag>, string))
    ensures tags <= r.0 && |r.0| <= |tags| + 1
    ensures exists i :: 0 <= i < |r.0| && r.0[i] == Tag(r.1, tagName)
  {
    match FirstIndex(tags, NameIs(tagName))
    case Some(i) => (tags, tags[i].id)
    case None =>
      var id := NextId("t", TagIds(tags));
      var updated := tags + [Tag(id, tagName)];
      assert updated[|tags|] == Tag(id, tagName);
      (updated, id)
  }

  /**
   * The loop of `AddTagToNote` over `notes[..k]`: every row with the display
   * ID has the tag name appended to its file's tags, the file stamped `now`,
   * and an edge to the tag appended; a missing or unparsable file stops it.
   */
  function TagFiles(notes: seq<Note>, k: nat, seqId: string, tagName: string, tagId: string, now: string, c: Config,
    noteTags: seq<NoteTag>, disk: Disk): (r: (seq<NoteTag>, Disk, bool))
    requires k <= |notes|
  {
    if k == 0 then (noteTags, disk, false)
    else
      var (edges, d, failed) := TagFiles(notes, k - 1, seqId, tagName, tagId, now, c, noteTags, disk);
      if failed || notes[k - 1].seqId != seqId then (edges, d, failed)
      else
        var p := NotePath(c.zettelDir, notes[k - 1].id);
        if p !in d.files || d.files[p].Malformed? then (edges, d, true)
        else
          var h := AsNoteHeader(d.files[p].header);
          (edges + [NoteTag(notes[k - 1].id, tagId)],
           Write(d, p, Parsed(h.(tags := h.tags + [tagName], updatedAt := now), d.files[p].body)), false)
  }

  /**
   * `AddTagToNote`. The rows' new update stamps are never saved, so
   * notes.json does not change. With no row of that display ID, a new tag is
   * still saved and no edge is added.
   */
  function TagAdded(seqId: string, tagName: string, now: string, c: Config, notes: seq<Note>, noteTags: seq<NoteTag>, tags: seq<Tag>, disk: Disk)
    : (r: TagOutcome)
  {
    if AlreadyTagged(noteTags, seqId, tagName) then TagOutcome(tags, noteTags, disk, true)
    else
      var (updatedTags, tagId) := TagFor(tags, tagName);
      var (edges, d, failed) := TagFiles(notes, |notes|, seqId, tagName, tagId, now, c, noteTags, disk);
      if failed then TagOutcome(tags, noteTags, d, true)
      else TagOutcome(updatedTags, edges, d, false)
  }

  lemma {:induction false} TagFilesFailStays(notes: seq<Note>, k: nat, m: nat, seqId: string, tagName: string, tagId: string, now: string, c: Config,
    noteTags: seq<NoteTag>, disk: Disk)
    requires k <= m <= |notes|
    requires TagFiles(notes, k, seqId, tagName, tagId, now, c, noteTags, disk).2
    ensures TagFiles(notes, m, seqId, tagName, tagId, now, c, noteTags, disk) == TagFiles(notes, k, seqId, tagName, tagId, now, c, noteTags, disk)
    decreases m
  {
    if m > k {
      TagFilesFailStays(notes, k, m - 1, seqId, tagName, tagId, now, c, noteTags, disk);
    }
  }

  method AddTagToNote(seqId: string, tagName: string, now: string, c: Config, notes: seq<Note>, noteTags: seq<NoteTag>, tags: seq<Tag>, disk: Disk)
    returns (r: TagOutcome)
    ensures r == TagAdded(seqId, tagName, now, c, notes, noteTags, tags, disk)
  {
    var tagged := FindEdge(noteTags, seqId, tagName);
    if tagged {
      return TagOutcome(tags, noteTags, disk, true);
    }
    var updatedTags, tagId := FindOrCreateTag(tags, tagName);
    var edges, d, failed := TagNoteFiles(notes, seqId, tagName, tagId, now, c, noteTags, disk);
    if failed {
      return TagOutcome(tags, noteTags, d, true);
    }
    return TagOutcome(updatedTags, edges, d, false);
  }

  /** The first loop of `AddTagToNote`: whether an edge already joins the display ID to the name. */
  method FindEdge(noteTags: seq<NoteTag>, seqId: string, tagName: string) returns (found: bool)
    ensures found == AlreadyTagged(noteTags, seqId, tagName)
  {
    var k := 0;
    while k < |noteTags|
      invariant 0 <= k <= |noteTags|
      invariant forall j :: 0 <= j < k ==> !(noteTags[j].noteId == seqId && noteTags[j].tagId == tagName)
    {
      if noteTags[k].noteId == seqId && noteTags[k].tagId == tagName {
        return true;
      }
      k := k + 1;
    }
    return false;
  }

  /** The second loop of `AddTagToNote`: the tag with the name, or a new one appended under the next tag ID. */
  method FindOrCreateTag(tags: seq<Tag>, tagName: string) returns (updatedTags: seq<Tag>, tagId: string)
    ensures (updatedTags, tagId) == TagFor(tags, tagName)
  {
    var k := 0;
    while k < |tags|
      invariant 0 <= k <= |tags|
      invariant forall j :: 0 <= j < k ==> !NameIs(tagName)(tags[j])
    {
      if tags[k].name == tagName {
        assert FirstIndex(tags, NameIs(tagName)) == Some(k);
        return tags, tags[k].id;
      }
      k := k + 1;
    }
    tagId := GetNextTagID(tags);
    updatedTags := tags + [Tag(tagId, tagName)];
  }

  /** The third loop of `AddTagToNote`: each row with the display ID gets the name in its file and an edge. */
  method TagNoteFiles(notes: seq<Note>, seqId: string, tagName: string, tagId: string, now: string, c: Config,
    noteTags: seq<NoteTag>, disk: Disk)
    returns (edges: seq<NoteTag>, d: Disk, failed: bool)
    ensures (edges, d, failed) == TagFiles(notes, |notes|, seqId, tagName, tagId, now, c, noteTags, disk)
  {
    edges := noteTags;
    d := disk;
    var i := 0;
    while i < |notes|
      invariant 0 <= i <= |notes|
      invariant TagFiles(notes, i, seqId, tagName, tagId, now, c, noteTags, disk) == (edges, d, false)
    {
      if notes[i].seqId == seqId {
        var p := NotePath(c.zettelDir, notes[i].id);
        if p !in d.files || d.files[p].Malformed? {
          TagFilesFailStays(notes, i + 1, |notes|, seqId, tagName, tagId, now, c, noteTags, disk);
          return edges, d, true;
        }
        var content := d.files[p];
        var frontMatter := AsNoteHeader(content.header);
        frontMatter := frontMatter.(tags := frontMatter.tags + [tagName], updatedAt := now);
        d := Write(d, p, Parsed(frontMatter, content.body));
        edges := edges + [NoteTag(notes[i].id, tagId)];
      }
      i := i + 1;
    }
    failed := false;
  }

  /** The loop appends, in row order, one edge per row with the display ID. */
  lemma {:induction false} TagFilesEdges(notes: seq<Note>, k: nat, seqId: string, tagName: string, tagId: string, now: string, c: Config,
    noteTags: seq<NoteTag>, disk: Disk)
    requires k <= |notes|
    ensures var r := TagFiles(notes, k, seqId, tagName, tagId, now, c, noteTags, disk);
      !r.2 ==> r.0 == noteTags + EdgesTo(Filter(notes[..k], SeqIdIs(seqId)), tagId)
  {
    if k > 0 {
      TagFilesEdges(notes, k - 1, seqId, tagName, tagId, now, c, noteTags, disk);
      assert notes[..k] == notes[..k - 1] + [notes[k - 1]];
      FilterSnoc(notes[..k - 1], notes[k - 1], SeqIdIs(seqId));
      var prev := Filter(notes[..k - 1], SeqIdIs(seqId));
      assert EdgesTo(prev + [notes[k - 1]], tagId) == EdgesTo(prev, tagId) + [NoteTag(notes[k - 1].id, tagId)];
    }
  }

  /** The loop leaves the file of every row with the display ID listing the tag name last. */
  lemma {:induction false} TagFilesStamped(notes: seq<Note>, k: nat, seqId: string, tagName: string, tagId: string, now: string, c: Config,
    noteTags: seq<NoteTag>, disk: Disk)
    requires k <= |notes|
    ensures var r := TagFiles(notes, k, seqId, tagName, tagId, now, c, noteTags, disk);
      !r.2 ==> forall j :: 0 <= j < k && notes[j].seqId == seqId ==> TagLast(r.1, NotePath(c.zettelDir, notes[j].id), tagName)
  {
    if k > 0 {
      TagFilesStamped(notes, k - 1, seqId, tagName, tagId, now, c, noteTags, disk);
    }
  }

  /** The file at `p` parses and lists `tagName` last. */
  predicate TagLast(d: Disk, p: Path, tagName: string)
  {
    p in d.files && d.files[p].Parsed? && |d.files[p].header.tags| > 0
    && d.files[p].header.tags[|d.files[p].header.tags| - 1] == tagName
  }

  /**
   * After a tag is added without error: the tags keep their order with at
   * most one appended, a tag carries the name, the edges are the old ones
   * followed by one edge from each row with the display ID to that tag, and
   * each such row's file lists the name last. Without such a row, no edge is
   * added.
   */
  lemma {:induction false} AddTagEffect(seqId: string, tagName: string, now: string, c: Config, notes: seq<Note>, noteTags: seq<NoteTag>, tags: seq<Tag>, disk: Disk)
    ensures var r := TagAdded(seqId, tagName, now, c, notes, noteTags, tags, disk);
      !r.failed ==>
        tags <= r.tags && |r.tags| <= |tags| + 1 && HasName(r.tags, tagName)
        && r.noteTags == noteTags + EdgesTo(Filter(notes, SeqIdIs(seqId)), TagFor(tags, tagName).1)
        && (forall j :: 0 <= j < |notes| && notes[j].seqId == seqId ==>
          var p := NotePath(c.zettelDir, notes[j].id);
          p in r.disk.files && r.disk.files[p].Parsed? && |r.disk.files[p].header.tags| > 0
          && r.disk.files[p].header.tags[|r.disk.files[p].header.tags| - 1] == tagName)
  {
    var r := TagAdded(seqId, tagName, now, c, notes, noteTags, tags, disk);
    if !r.failed {
      var (updatedTags, tagId) := TagFor(tags, tagName);
      var f := TagFiles(notes, |notes|, seqId, tagName, tagId, now, c, noteTags, disk);
      assert r == TagOutcome(updatedTags, f.0, f.1, false);
      TagFilesEdges(notes, |notes|, seqId, tagName, tagId, now, c, noteTags, disk);
      TagFilesStamped(notes, |notes|, seqId, tagName, tagId, now, c, noteTags, disk);
      assert notes[..|notes|] == notes;
      var i :| 0 <= i < |updatedTags| && updatedTags[i] == Tag(tagId, tagName);
      assert updatedTags[i].name == tagName;
    }
  }

  /** With no row of the display ID and no matching edge, only the tag list can change. */
  lemma {:induction false} AddTagNoMatch(seqId: string, tagName: string, now: string, c: Config, notes: seq<Note>, noteTags: seq<NoteTag>, tags: seq<Tag>, disk: Disk)
    requires forall j :: 0 <= j < |notes| ==> notes[j].seqId != seqId
    requires !AlreadyTagged(noteTags, seqId, tagName)
    ensures TagAdded(seqId, tagName, now, c, notes, noteTags, tags, disk) == TagOutcome(TagFor(tags, tagName).0, noteTags, disk, false)
  {
    TagFilesUntouched(notes, |notes|, seqId, tagName, TagFor(tags, tagName).1, now, c, noteTags, disk);
  }

  lemma {:induction false} TagFilesUntouched(notes: seq<Note>, k: nat, seqId: string, tagName: string, tagId: string, now: string, c: Config,
    noteTags: seq<NoteTag>, disk: Disk)
    requires k <= |notes|
    requires forall j :: 0 <= j < k ==> notes[j].seqId != seqId
    ensures TagFiles(notes, k, seqId, tagName, tagId, now, c, noteTags, disk) == (noteTags, disk, false)
  {
    if k > 0 {
      TagFilesUntouched(notes, k - 1, seqId, tagName, tagId, now, c, noteTags, disk);
    }
  }

  /**
   * The duplicate test compares an edge's note ID, a timestamp ID, with the
   * display ID given, and its tag ID with the tag name. When no edge carries
   * the display ID, adding a tag the note already has goes through and
   * leaves two equal edges.
   */
  lemma AddTagTwiceDuplicates(seqId: string, tagName: string, now: string, c: Config, notes: seq<Note>, noteTags: seq<NoteTag>, tags: seq<Tag>, disk: Disk, j: nat)
    requires forall e :: 0 <= e < |noteTags| ==> noteTags[e].noteId != seqId
    requires j < |notes| && notes[j].seqId == seqId
    requires HasPair(noteTags, notes[j].id, TagFor(tags, tagName).1)
    ensures var r := TagAdded(seqId, tagName, now, c, notes, noteTags, tags, disk);
      !r.failed ==> !PairsUnique(r.noteTags)
  {
    var tagId := TagFor(tags, tagName).1;
    var r := TagAdded(seqId, tagName, now, c, notes, noteTags, tags, disk);
    AddTagEffect(seqId, tagName, now, c, notes, noteTags, tags, disk);
    if !r.failed {
      var matched := Filter(notes, SeqIdIs(seqId));
      FilterMembership(notes, SeqIdIs(seqId), notes[j]);
      var m :| 0 <= m < |matched| && matched[m] == notes[j];
      var e :| 0 <= e < |noteTags| && noteTags[e].noteId == notes[j].id && noteTags[e].tagId == tagId;
      assert r.noteTags[e] == noteTags[e];
      assert r.noteTags[|noteTags| + m] == NoteTag(notes[j].id, tagId);
    }
  }

  // ---------------------------------------------------------------------------
  // remove

  function NotName(name: string): string -> bool
  {
    (s: string) => s != name
  }

  /** `removeTag`: the header's tag list without the name. */
  method RemoveTag(tags: seq<string>, tagToRemove: string) returns (updated: seq<string>)
    ensures updated == Filter(tags, NotName(tagToRemove))
  {
    updated := [];
    var i := 0;
    while i < |tags|
      invariant 0 <= i <= |tags|
      invariant updated == Filter(tags[..i], NotName(tagToRemove))
    {
      FilterSnoc(tags[..i], tags[i], NotName(tagToRemove));
      assert tags[..i + 1] == tags[..i] + [tags[i]];
      if tags[i] != tagToRemove {
        updated := updated + [tags[i]];
      }
      i := i + 1;
    }
    assert tags[..i] == tags;
  }

  /** Every occurrence of the name goes, every other entry stays; and removing undoes appending. */
  lemma RemoveTagSound(tags: seq<string>, name: string)
    ensures forall s :: s in Filter(tags, NotName(name)) <==> s in tags && s != name
    ensures Filter(tags + [name], NotName(name)) == Filter(tags, NotName(name))
  {
    forall s
      ensures s in Filter(tags, NotName(name)) <==> s in tags && s != name
    {
      FilterMembership(tags, NotName(name), s);
    }
    FilterSnoc(tags, name, NotName(name));
  }

  function NotEdge(noteId: string, tagId: string): NoteTag -> bool
  {
    (e: NoteTag) => !(e.noteId == noteId && e.tagId == tagId)
  }

  function TagIdIsNot(tagId: string): Tag -> bool
  {
    (t: Tag) => t.id != tagId
  }

  predicate InUse(noteTags: seq<NoteTag>, tagId: string)
  {
    exists i :: 0 <= i < |noteTags| && noteTags[i].tagId == tagId
  }

  /** The ID of the first tag with the name, or empty. */
  function TagIdOf(tags: seq<Tag>, tagName: string): string
  {
    match FirstIndex(tags, NameIs(tagName))
    case None => ""
    case Some(i) => tags[i].id
  }

  /** The collections `RemoveTagFromNote` writes, with notes.json. */
  datatype Untagged = Untagged(notes: seq<Note>, noteTags: seq<NoteTag>, tags: seq<Tag>, disk: Disk, failed: bool)

  /**
   * `RemoveTagFromNote`: an unknown name is an error. The first row with the
   * display ID has the name dropped from its file's tags, file and row
   * stamped `now`, its edges to the tag dropped, and the tag itself dropped
   * when no edge uses it any more. A missing or unparsable file is an error;
   * no row with the display ID changes nothing.
   */
  function TagRemoved(seqId: string, tagName: string, now: string, c: Config, notes: seq<Note>, noteTags: seq<NoteTag>, tags: seq<Tag>, disk: Disk)
    : (r: Untagged)
  {
    var tagId := TagIdOf(tags, tagName);
    if tagId == "" then Untagged(notes, noteTags, tags, disk, true)
    else match FirstIndex(notes, SeqIdIs(seqId))
      case None => Untagged(notes, noteTags, tags, disk, false)
      case Some(i) =>
        var p := NotePath(c.zettelDir, notes[i].id);
        if p !in disk.files || disk.files[p].Malformed? then Untagged(notes, noteTags, tags, disk, true)
        else
          var h := AsNoteHeader(disk.files[p].header);
          var d := Write(disk, p, Parsed(h.(tags := Filter(h.tags, NotName(tagName)), updatedAt := now), disk.files[p].body));
          var edges := Filter(noteTags, NotEdge(notes[i].id, tagId));
          var kept := if InUse(edges, tagId) then tags else Filter(tags, TagIdIsNot(tagId));
          Untagged(notes[i := notes[i].(updatedAt := now)], edges, kept, d, false)
  }

  method RemoveTagFromNote(seqId: string, tagName: string, now: string, c: Config, notes: seq<Note>, noteTags: seq<NoteTag>, tags: seq<Tag>, disk: Disk)
    returns (r: Untagged)
    ensures r == TagRemoved(seqId, tagName, now, c, notes, noteTags, tags, disk)
  {
    var tagId := FindTagId(tags, tagName);
    if tagId == "" {
      return Untagged(notes, noteTags, tags, disk, true);
    }
    var i := 0;
    while i < |notes|
      invariant 0 <= i <= |notes|
      invariant forall j :: 0 <= j < i ==> !SeqIdIs(seqId)(notes[j])
    {
      if notes[i].seqId == seqId {
        assert FirstIndex(notes, SeqIdIs(seqId)) == Some(i);
        var p := NotePath(c.zettelDir, notes[i].id);
        if p !in disk.files || disk.files[p].Malformed? {
          return Untagged(notes, noteTags, tags, disk, true);
        }
        var content := disk.files[p];
        var frontMatter := AsNoteHeader(content.header);
        var remaining := RemoveTag(frontMatter.tags, tagName);
        frontMatter := frontMatter.(tags := remaining, updatedAt := now);
        var updatedNotes := notes[i := notes[i].(updatedAt := frontMatter.updatedAt)];
        var d := Write(disk, p, Parsed(frontMatter, content.body));
        var updatedNoteTags := DropEdges(noteTags, notes[i].id, tagId);
        var tagStillInUse := TagInUse(updatedNoteTags, tagId);
        var updatedTags := tags;
        if !tagStillInUse {
          updatedTags := DropTagRow(tags, tagId);
        }
        return Untagged(updatedNotes, updatedNoteTags, updatedTags, d, false);
      }
      i := i + 1;
    }
    return Untagged(notes, noteTags, tags, disk, false);
  }

  /** The first loop of `RemoveTagFromNote`: the ID of the first tag with the name, or empty. */
  method FindTagId(tags: seq<Tag>, tagName: string) returns (tagId: string)
    ensures tagId == TagIdOf(tags, tagName)
  {
    var k := 0;
    while k < |tags|
      invariant 0 <= k <= |tags|
      invariant forall j :: 0 <= j < k ==> !NameIs(tagName)(tags[j])
    {
      if tags[k].name == tagName {
        assert FirstIndex(tags, NameIs(tagName)) == Some(k);
        return tags[k].id;
      }
      k := k + 1;
    }
    return "";
  }

  /** The edges without those joining the note to the tag, in order. */
  method DropEdges(noteTags: seq<NoteTag>, noteId: string, tagId: string) returns (updated: seq<NoteTag>)
    ensures updated == Filter(noteTags, NotEdge(noteId, tagId))
  {
    updated := [];
    var e := 0;
    while e < |noteTags|
      invariant 0 <= e <= |noteTags|
      invariant updated == Filter(noteTags[..e], NotEdge(noteId, tagId))
    {
      FilterSnoc(noteTags[..e], noteTags[e], NotEdge(noteId, tagId));
      assert noteTags[..e + 1] == noteTags[..e] + [noteTags[e]];
      if !(noteTags[e].noteId == noteId && noteTags[e].tagId == tagId) {
        updated := updated + [noteTags[e]];
      }
      e := e + 1;
    }
    assert noteTags[..e] == noteTags;
  }

  /** Whether some edge still uses the tag ID. */
  method TagInUse(noteTags: seq<NoteTag>, tagId: string) returns (inUse: bool)
    ensures inUse == InUse(noteTags, tagId)
  {
    var e := 0;
    while e < |noteTags|
      invariant 0 <= e <= |noteTags|
      invariant forall j :: 0 <= j < e ==> noteTags[j].tagId != tagId
    {
      if noteTags[e].tagId == tagId {
        return true;
      }
      e := e + 1;
    }
    return false;
  }

  /** The tags without those with the ID, in order. */
  method DropTagRow(tags: seq<Tag>, tagId: string) returns (updated: seq<Tag>)
    ensures updated == Filter(tags, TagIdIsNot(tagId))
  {
    updated := [];
    var k := 0;
    while k < |tags|
      invariant 0 <= k <= |tags|
      invariant updated == Filter(tags[..k], TagIdIsNot(tagId))
    {
      FilterSnoc(tags[..k], tags[k], TagIdIsNot(tagId));
      assert tags[..k + 1] == tags[..k] + [tags[k]];
      if tags[k].id != tagId {
        updated := updated + [tags[k]];
      }
      k := k + 1;
    }
    assert tags[..k] == tags;
  }

  /**
   * After a tag is removed from a note without error: exactly the note's
   * edges to the tag are gone; the tag row is kept exactly when some edge
   * still uses its ID; no other tag row goes; and the note's file no longer
   * lists the name.
   */
  lemma RemoveTagEffect(seqId: string, tagName: string, now: string, c: Config, notes: seq<Note>, noteTags: seq<NoteTag>, tags: seq<Tag>, disk: Disk)
    requires FirstIndex(notes, SeqIdIs(seqId)).Some?
    ensures var r := TagRemoved(seqId, tagName, now, c, notes, noteTags, tags, disk);
      var n := notes[FirstIndex(notes, SeqIdIs(seqId)).value];
      var tagId := TagIdOf(tags, tagName);
      !r.failed ==>
        (forall e :: e in r.noteTags <==> e in noteTags && !(e.noteId == n.id && e.tagId == tagId))
        && ((exists k :: 0 <= k < |r.tags| && r.tags[k].id == tagId) <==> InUse(r.noteTags, tagId))
        && (forall t :: t in tags && t.id != tagId ==> t in r.tags)
        && var p := NotePath(c.zettelDir, n.id);
          p in r.disk.files && r.disk.files[p].Parsed? && tagName !in r.disk.files[p].header.tags
  {
    var r := TagRemoved(seqId, tagName, now, c, notes, noteTags, tags, disk);
    var tagId := TagIdOf(tags, tagName);
    if !r.failed {
      var i := FirstIndex(notes, SeqIdIs(seqId)).value;
      var n := notes[i];
      var p := NotePath(c.zettelDir, n.id);
      var h := AsNoteHeader(disk.files[p].header);
      forall e
        ensures e in r.noteTags <==> e in noteTags && !(e.noteId == n.id && e.tagId == tagId)
      {
        FilterMembership(noteTags, NotEdge(n.id, tagId), e);
      }
      var k := FirstIndex(tags, NameIs(tagName)).value;
      assert tags[k].id == tagId;
      forall t | t in tags && t.id != tagId
        ensures t in r.tags
      {
        FilterMembership(tags, TagIdIsNot(tagId), t);
      }
      if !InUse(r.noteTags, tagId) {
        forall k | 0 <= k < |r.tags|
          ensures r.tags[k].id != tagId
        {
          FilterMembership(tags, TagIdIsNot(tagId), r.tags[k]);
        }
      } else {
        assert r.tags[k].id == tagId;
      }
      RemoveTagSound(h.tags, tagName);
    }
  }

  /**
   * Removing a tag that was just added to a note whose display ID no edge
   * carries, and which is the only row with that display ID, leaves the
   * edges as they were less the note's edges to the tag, and the file's tags
   * as they were less the name.
   */
  lemma {:induction false} RemoveUndoesAdd(seqId: string, tagName: string, now: string, later: string, c: Config, notes: seq<Note>, noteTags: seq<NoteTag>, tags: seq<Tag>, disk: Disk, i: nat)
    requires i < |notes| && notes[i].seqId == seqId
    requires forall j :: 0 <= j < |notes| && j != i ==> notes[j].seqId != seqId
    requires forall e :: 0 <= e < |noteTags| ==> noteTags[e].noteId != seqId
    requires NotePath(c.zettelDir, notes[i].id) in disk.files && disk.files[NotePath(c.zettelDir, notes[i].id)].Parsed?
    requires TagFor(tags, tagName).1 != ""
    ensures var a := TagAdded(seqId, tagName, now, c, notes, noteTags, tags, disk);
      var r := TagRemoved(seqId, tagName, later, c, notes, a.noteTags, a.tags, a.disk);
      var p := NotePath(c.zettelDir, notes[i].id);
      var tagId := TagFor(tags, tagName).1;
      !a.failed && !r.failed
      && r.noteTags == Filter(noteTags, NotEdge(notes[i].id, tagId))
      && r.disk.files[p].header.tags == Filter(AsNoteHeader(disk.files[p].header).tags, NotName(tagName))
  {
    var tagId := TagFor(tags, tagName).1;
    var p := NotePath(c.zettelDir, notes[i].id);
    assert !AlreadyTagged(noteTags, seqId, tagName);
    var a := TagAdded(seqId, tagName, now, c, notes, noteTags, tags, disk);
    OnlyRowTagged(notes, |notes|, seqId, tagName, tagId, now, c, noteTags, disk, i);
    assert notes[..|notes|] == notes;
    assert !a.failed;
    var h := AsNoteHeader(disk.files[p].header);
    assert a.disk.files[p] == Parsed(h.(tags := h.tags + [tagName], updatedAt := now), disk.files[p].body);
    assert a.noteTags == noteTags + [NoteTag(notes[i].id, tagId)];
    assert FirstIndex(notes, SeqIdIs(seqId)) == Some(i) by {
      assert forall j :: 0 <= j < i ==> !SeqIdIs(seqId)(notes[j]);
    }
    assert TagIdOf(a.tags, tagName) == tagId by {
      TagForFirst(tags, tagName);
    }
    FilterSnoc(noteTags, NoteTag(notes[i].id, tagId), NotEdge(notes[i].id, tagId));
    RemoveTagSound(h.tags, tagName);
  }

  /** The tag the name resolves to is the first tag with that name, before and after it is looked up. */
  lemma TagForFirst(tags: seq<Tag>, tagName: string)
    ensures TagIdOf(TagFor(tags, tagName).0, tagName) == TagFor(tags, tagName).1
  {
    var updated := TagFor(tags, tagName).0;
    match FirstIndex(tags, NameIs(tagName))
    case Some(i) =>
    case None =>
      assert forall j :: 0 <= j < |tags| ==> updated[j] == tags[j];
      assert FirstIndex(updated, NameIs(tagName)) == Some(|tags|);
  }

  /** With one row of the display ID, whose file parses, the loop adds exactly its edge and writes exactly its file. */
  lemma {:induction false} OnlyRowTagged(notes: seq<Note>, k: nat, seqId: string, tagName: string, tagId: string, now: string, c: Config,
    noteTags: seq<NoteTag>, disk: Disk, i: nat)
    requires k <= |notes| && i < |notes| && notes[i].seqId == seqId
    requires forall j :: 0 <= j < |notes| && j != i ==> notes[j].seqId != seqId
    requires NotePath(c.zettelDir, notes[i].id) in disk.files && disk.files[NotePath(c.zettelDir, notes[i].id)].Parsed?
    ensures var p := NotePath(c.zettelDir, notes[i].id);
      var h := AsNoteHeader(disk.files[p].header);
      TagFiles(notes, k, seqId, tagName, tagId, now, c, noteTags, disk) ==
        if k <= i then (noteTags, disk, false)
        else (noteTags + [NoteTag(notes[i].id, tagId)],
              Write(disk, p, Parsed(h.(tags := h.tags + [tagName], updatedAt := now), disk.files[p].body)), false)
  {
    if k > 0 {
      OnlyRowTagged(notes, k - 1, seqId, tagName, tagId, now, c, noteTags, disk, i);
    }
  }

  // ---------------------------------------------------------------------------
  // list

  function EdgeTagIs(tagId: string): NoteTag -> bool
  {
    (e: NoteTag) => e.tagId == tagId
  }

  /** The tags whose lower-cased name contains the lower-cased query. */
  function NameMentions(query: string): Tag -> bool
  {
    (t: Tag) => Contains(ToLower(t.name), ToLower(query))
  }

  /**
   * What `ListTags` shows: the tags matching the search, or all of them, cut
   * to the limit when the limit is positive, each with the number of edges
   * to it.
   */
  function TagListing(tags: seq<Tag>, noteTags: seq<NoteTag>, query: string, pageSize: int): (rows: seq<(Tag, nat)>)
  {
    var found := if query != "" then Filter(tags, NameMentions(query)) else tags;
    var shown := if pageSize > 0 && |found| > pageSize then found[..pageSize] else found;
    seq(|shown|, i requires 0 <= i < |shown| => (shown[i], Count(noteTags, EdgeTagIs(shown[i].id))))
  }

  function CountOf(m: map<string, nat>, id: string): nat
  {
    if id in m then m[id] else 0
  }

  /** The usage count of every tag ID, one pass over the edges. */
  method CountTagUses(noteTags: seq<NoteTag>) returns (tagCount: map<string, nat>)
    ensures forall id :: CountOf(tagCount, id) == Count(noteTags, EdgeTagIs(id))
  {
    tagCount := map[];
    var i := 0;
    while i < |noteTags|
      invariant 0 <= i <= |noteTags|
      invariant forall id :: CountOf(tagCount, id) == Count(noteTags[..i], EdgeTagIs(id))
    {
      var e := noteTags[i];
      assert noteTags[..i + 1] == noteTags[..i] + [e];
      forall id
        ensures Count(noteTags[..i + 1], EdgeTagIs(id)) == Count(noteTags[..i], EdgeTagIs(id)) + (if e.tagId == id then 1 else 0)
      {
        FilterSnoc(noteTags[..i], e, EdgeTagIs(id));
      }
      tagCount := tagCount[e.tagId := CountOf(tagCount, e.tagId) + 1];
      i := i + 1;
    }
    assert noteTags[..i] == noteTags;
  }

  /** The case-insensitive search over tag names. */
  method SearchTags(tags: seq<Tag>, query: string) returns (found: seq<Tag>)
    ensures found == Filter(tags, NameMentions(query))
  {
    found := [];
    var i := 0;
    while i < |tags|
      invariant 0 <= i <= |tags|
      invariant found == Filter(tags[..i], NameMentions(query))
    {
      FilterSnoc(tags[..i], tags[i], NameMentions(query));
      assert tags[..i + 1] == tags[..i] + [tags[i]];
      if Contains(ToLower(tags[i].name), ToLower(query)) {
        found := found + [tags[i]];
      }
      i := i + 1;
    }
    assert tags[..i] == tags;
  }

  method ListTags(tags: seq<Tag>, noteTags: seq<NoteTag>, query: string, pageSize: int) returns (rows: seq<(Tag, nat)>)
    ensures rows == TagListing(tags, noteTags, query, pageSize)
  {
    var tagCount := CountTagUses(noteTags);
    var filtered := tags;
    if query != "" {
      filtered := SearchTags(tags, query);
    }
    if |filtered| == 0 {
      return [];
    }
    if pageSize > 0 && |filtered| > pageSize {
      filtered := filtered[..pageSize];
    }
    rows := [];
    var i := 0;
    while i < |filtered|
      invariant 0 <= i <= |filtered|
      invariant |rows| == i
      invariant forall j :: 0 <= j < i ==> rows[j] == (filtered[j], Count(noteTags, EdgeTagIs(filtered[j].id)))
    {
      rows := rows + [(filtered[i], CountOf(tagCount, filtered[i].id))];
      i := i + 1;
    }
  }

  /**
   * Every row is a tag matching the search, counted by its edges; a positive
   * limit bounds the rows; with no positive limit every matching tag is
   * shown, in order.
   */
  lemma {:induction false} TagListingSound(tags: seq<Tag>, noteTags: seq<NoteTag>, query: string, pageSize: int)
    ensures var rows := TagListing(tags, noteTags, query, pageSize);
      forall k :: 0 <= k < |rows| ==>
        rows[k].0 in tags && (query != "" ==> NameMentions(query)(rows[k].0))
        && rows[k].1 == |Filter(noteTags, EdgeTagIs(rows[k].0.id))|
    ensures pageSize > 0 ==> |TagListing(tags, noteTags, query, pageSize)| <= pageSize
    ensures pageSize <= 0 && query == "" ==> (|TagListing(tags, noteTags, query, pageSize)| == |tags|
      && forall k :: 0 <= k < |tags| ==> TagListing(tags, noteTags, query, pageSize)[k].0 == tags[k])
  {
    var found := if query != "" then Filter(tags, NameMentions(query)) else tags;
    var shown := if pageSize > 0 && |found| > pageSize then found[..pageSize] else found;
    var rows := TagListing(tags, noteTags, query, pageSize);
    forall k | 0 <= k < |rows|
      ensures rows[k].0 in tags && (query != "" ==> NameMentions(query)(rows[k].0))
      ensures rows[k].1 == |Filter(noteTags, EdgeTagIs(rows[k].0.id))|
    {
      assert rows[k] == (shown[k], Count(noteTags, EdgeTagIs(shown[k].id)));
      assert shown[k] == found[k];
      if query != "" {
        FilterMembership(tags, NameMentions(query), rows[k].0);
      }
    }
  }
}
