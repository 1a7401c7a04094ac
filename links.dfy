/**
 * `link list`: links.json is rebuilt from the note files (the `links` of
 * each header, then the Markdown links `[title](yyyymmddhhmmss.md)` of each
 * body), then optionally cut down to the links touching the notes of a tag.
 */
module Links {
  import opened Wrappers
  import opened Seqs
  import opened Text
  import opened Model
  import opened Disk

  // ---------------------------------------------------------------------------
  // The body scanner: the regular expression `\[(.*?)\]\((\d{14})\.md\)`

  /** The length of the fixed tail `](` + 14 digits + `.md)`. */
  const TailLength: nat := 20

  /** The fixed tail of the pattern starts at `j`. */
  predicate TailAt(s: string, j: nat)
  {
    j + TailLength <= |s| && s[j] == ']' && s[j + 1] == '(' && AllDigits(s[j + 2..j + 16]) && s[j + 16..j + 20] == ".md)"
  }

  /**
   * The lazy `.*?` from `j` on: the first position at which the tail
   * matches, provided no newline lies before it (`.` does not match a
   * newline).
   */
  function CloseFrom(s: string, j: nat): (r: Option<nat>)
    requires j <= |s|
    ensures r.Some? ==> j <= r.value && TailAt(s, r.value)
    decreases |s| - j
  {
    if TailAt(s, j) then Some(j)
    else if j == |s| || s[j] == '\n' then None
    else CloseFrom(s, j + 1)
  }

  /** The position of the closing `]` of a match that starts at `i`, if one does. */
  function MatchAt(s: string, i: nat): (r: Option<nat>)
    requires i <= |s|
    ensures r.Some? ==> i < r.value && TailAt(s, r.value)
  {
    if i < |s| && s[i] == '[' then CloseFrom(s, i + 1) else None
  }

  /** The 14-digit groups of the leftmost, non-overlapping matches from `from` on. */
  function LinksFrom(s: string, from: nat): seq<string>
    requires from <= |s|
    decreases |s| - from
  {
    if from == |s| then []
    else match MatchAt(s, from)
      case Some(j) => [s[j + 2..j + 16]] + LinksFrom(s, j + TailLength)
      case None => LinksFrom(s, from + 1)
  }

  /** `extractMarkdownLinks`: the link targets of a note body, in order. */
  function MarkdownLinks(content: string): seq<string>
  {
    LinksFrom(content, 0)
  }

  method ScanClose(s: string, j: nat) returns (r: Option<nat>)
    requires j <= |s|
    ensures r == CloseFrom(s, j)
  {
    var k := j;
    while k < |s| && !TailAt(s, k) && s[k] != '\n'
      invariant j <= k <= |s|
      invariant CloseFrom(s, k) == CloseFrom(s, j)
      decreases |s| - k
    {
      k := k + 1;
    }
    if TailAt(s, k) {
      return Some(k);
    }
    return None;
  }

  method ExtractMarkdownLinks(content: string) returns (links: seq<string>)
    ensures links == MarkdownLinks(content)
  {
    links := [];
    var pos := 0;
    while pos < |content|
      invariant 0 <= pos <= |content|
      invariant links + LinksFrom(content, pos) == MarkdownLinks(content)
      decreases |content| - pos
    {
      var m := None;
      if content[pos] == '[' {
        m := ScanClose(content, pos + 1);
      }
      assert m == MatchAt(content, pos);
      match m {
        case Some(j) =>
          var link := content[j + 2..j + 16];
          LinksFromSome(content, pos, j);
          assert links + ([link] + LinksFrom(content, j + TailLength)) == (links + [link]) + LinksFrom(content, j + TailLength);
          links := links + [link];
          pos := j + TailLength;
        case None =>
          LinksFromNone(content, pos);
          pos := pos + 1;
      }
    }
  }

  /** One step of the scan, at a match. */
  lemma LinksFromSome(s: string, from: nat, j: nat)
    requires from < |s| && MatchAt(s, from) == Some(j)
    ensures LinksFrom(s, from) == [s[j + 2..j + 16]] + LinksFrom(s, j + TailLength)
  {
  }

  /** One step of the scan, where no match starts. */
  lemma LinksFromNone(s: string, from: nat)
    requires from < |s| && MatchAt(s, from).None?
    ensures LinksFrom(s, from) == LinksFrom(s, from + 1)
  {
  }

  /** The Markdown text of a link to the note with the timestamp ID `id`. */
  function LinkText(title: string, id: string): string
  {
    "[" + title + "](" + id + ".md)"
  }

  /** Every target found is 14 ASCII digits that appear in the text as `](<digits>.md)`. */
  lemma {:induction false} LinksAreIds(s: string, from: nat)
    requires from <= |s|
    ensures forall k :: 0 <= k < |LinksFrom(s, from)| ==>
      |LinksFrom(s, from)[k]| == 14 && AllDigits(LinksFrom(s, from)[k])
      && exists j :: OccursAt(s, "](" + LinksFrom(s, from)[k] + ".md)", j)
    decreases |s| - from
  {
    if from < |s| {
      match MatchAt(s, from)
      case Some(j) =>
        LinksAreIds(s, j + TailLength);
        var id := s[j + 2..j + 16];
        assert s[j..j + 20] == "](" + id + ".md)";
        assert OccursAt(s, "](" + id + ".md)", j);
      case None =>
        LinksAreIds(s, from + 1);
    }
  }

  /** The tail test only looks at the text after it. */
  lemma TailShift(a: string, b: string, j: nat)
    requires j <= |b|
    ensures TailAt(a + b, |a| + j) <==> TailAt(b, j)
  {
    if j + TailLength <= |b| {
      assert (a + b)[|a| + j + 2..|a| + j + 16] == b[j + 2..j + 16];
      assert (a + b)[|a| + j + 16..|a| + j + 20] == b[j + 16..j + 20];
    }
  }

  lemma {:induction false} CloseShift(a: string, b: string, j: nat)
    requires j <= |b|
    ensures CloseFrom(a + b, |a| + j) == if CloseFrom(b, j).Some? then Some(|a| + CloseFrom(b, j).value) else None
    decreases |b| - j
  {
    TailShift(a, b, j);
    if !TailAt(b, j) && j < |b| && b[j] != '\n' {
      assert (a + b)[|a| + j] == b[j];
      CloseShift(a, b, j + 1);
    }
  }

  lemma MatchShift(a: string, b: string, i: nat)
    requires i < |b|
    ensures MatchAt(a + b, |a| + i) == if MatchAt(b, i).Some? then Some(|a| + MatchAt(b, i).value) else None
  {
    assert (a + b)[|a| + i] == b[i];
    if b[i] == '[' {
      CloseShift(a, b, i + 1);
    }
  }

  /** Scanning the end of a text finds what scanning that end alone finds. */
  lemma {:induction false} LinksShift(a: string, b: string, from: nat)
    requires from <= |b|
    ensures LinksFrom(a + b, |a| + from) == LinksFrom(b, from)
    decreases |b| - from
  {
    if from < |b| {
      MatchShift(a, b, from);
      var m := MatchAt(b, from);
      if m.Some? {
        var j := m.value;
        LinksFromSome(a + b, |a| + from, |a| + j);
        LinksFromSome(b, from, j);
        SliceShift(a, b, j + 2, j + 16);
        LinksShift(a, b, j + TailLength);
      } else {
        LinksFromNone(a + b, |a| + from);
        LinksFromNone(b, from);
        LinksShift(a, b, from + 1);
      }
    }
  }

  lemma SliceShift(a: string, b: string, i: nat, j: nat)
    requires i <= j <= |b|
    ensures (a + b)[|a| + i..|a| + j] == b[i..j]
  {
  }

  /** Text without `[` holds no link. */
  lemma {:induction false} NoBracketNoLinks(s: string, from: nat)
    requires from <= |s|
    requires forall k :: from <= k < |s| ==> s[k] != '['
    ensures LinksFrom(s, from) == []
    decreases |s| - from
  {
    if from < |s| {
      NoBracketNoLinks(s, from + 1);
    }
  }

  /**
   * A link whose title holds neither `]` nor a newline, to a 14-digit ID, is
   * found, and the scan goes on after it: the scanner reads back what
   * `LinkText` writes.
   */
  lemma {:induction false} LinkRoundTrip(title: string, id: string, rest: string)
    requires forall k :: 0 <= k < |title| ==> title[k] != ']' && title[k] != '\n'
    requires |id| == 14 && AllDigits(id)
    ensures MarkdownLinks(LinkText(title, id) + rest) == [id] + MarkdownLinks(rest)
  {
    var link := LinkText(title, id);
    var s := link + rest;
    var close := 1 + |title|;
    assert s[close..close + 20] == "](" + id + ".md)";
    assert s[close + 2..close + 16] == id;
    assert TailAt(s, close);
    forall k | 1 <= k < close
      ensures CloseFrom(s, k) == CloseFrom(s, k + 1)
    {
      assert s[k] == title[k - 1];
    }
    CloseWalk(s, 1, close);
    assert MatchAt(s, 0) == Some(close);
    LinksShift(link, rest, 0);
  }

  lemma {:induction false} CloseWalk(s: string, from: nat, to: nat)
    requires from <= to <= |s|
    requires forall k :: from <= k < to ==> CloseFrom(s, k) == CloseFrom(s, k + 1)
    ensures CloseFrom(s, from) == CloseFrom(s, to)
    decreases |s| - from
  {
    if from < to {
      CloseWalk(s, from + 1, to);
    }
  }

  // ---------------------------------------------------------------------------
  // UpdateLinksJson

  /** One link from `source` to each target, in order. */
  function EdgesFrom(source: string, targets: seq<string>): (edges: seq<Link>)
    ensures |edges| == |targets|
    ensures forall i :: 0 <= i < |targets| ==> edges[i] == Link(source, targets[i])
  {
    seq(|targets|, i requires 0 <= i < |targets| => Link(source, targets[i]))
  }

  /**
   * The links a note contributes: none when its file is missing or does not
   * parse, otherwise one per `links` entry of its header, then one per
   * Markdown link of its body.
   */
  function NoteLinks(n: Note, c: Config, d: Disk): seq<Link>
  {
    var p := NotePath(c.zettelDir, n.id);
    if p !in d.files || d.files[p].Malformed? then []
    else EdgesFrom(n.id, d.files[p].header.links) + EdgesFrom(n.id, MarkdownLinks(d.files[p].body))
  }

  /** The new content of links.json: the notes' links in the order of notes.json. */
  function AllLinks(notes: seq<Note>, c: Config, d: Disk): seq<Link>
  {
    FlatMap(notes, LinksOf(c, d))
  }

  function LinksOf(c: Config, d: Disk): Note -> seq<Link>
  {
    (n: Note) => NoteLinks(n, c, d)
  }

  method AppendEdges(links: seq<Link>, source: string, targets: seq<string>) returns (r: seq<Link>)
    ensures r == links + EdgesFrom(source, targets)
  {
    r := links;
    var i := 0;
    while i < |targets|
      invariant 0 <= i <= |targets|
      invariant r == links + EdgesFrom(source, targets[..i])
    {
      assert EdgesFrom(source, targets[..i + 1]) == EdgesFrom(source, targets[..i]) + [Link(source, targets[i])];
      r := r + [Link(source, targets[i])];
      i := i + 1;
    }
    assert targets[..i] == targets;
  }

  /** `UpdateLinksJson`: links.json is rebuilt from the notes alone; what it held before plays no part. */
  method UpdateLinksJson(c: Config, notes: seq<Note>, disk: Disk) returns (links: seq<Link>)
    ensures links == AllLinks(notes, c, disk)
  {
    links := [];
    var i := 0;
    while i < |notes|
      invariant 0 <= i <= |notes|
      invariant links == AllLinks(notes[..i], c, disk)
    {
      assert notes[..i + 1][..i] == notes[..i];
      var noteLinks := ReadNoteLinks(notes[i], c, disk);
      links := links + noteLinks;
      i := i + 1;
    }
    assert notes[..i] == notes;
  }

  /** The body of the loop of `UpdateLinksJson`: a note file skipped when it cannot be read or parsed. */
  method ReadNoteLinks(note: Note, c: Config, disk: Disk) returns (noteLinks: seq<Link>)
    ensures noteLinks == NoteLinks(note, c, disk)
  {
    noteLinks := [];
    var mdFilePath := NotePath(c.zettelDir, note.id);
    if mdFilePath in disk.files && disk.files[mdFilePath].Parsed? {
      var content := disk.files[mdFilePath];
      noteLinks := AppendEdges(noteLinks, note.id, content.header.links);
      var markdownLinks := ExtractMarkdownLinks(content.body);
      noteLinks := AppendEdges(noteLinks, note.id, markdownLinks);
    }
  }

  /**
   * Note by note, in order, links.json holds exactly each note's header
   * links and then its body links, duplicates and links to unknown notes
   * included.
   */
  lemma LinksOfNote(notes: seq<Note>, i: nat, c: Config, d: Disk)
    requires i < |notes|
    ensures AllLinks(notes, c, d) == AllLinks(notes[..i], c, d) + NoteLinks(notes[i], c, d) + AllLinks(notes[i + 1..], c, d)
  {
    FlatMapAt(notes, i, LinksOf(c, d));
  }

  /** A link is among a note's links exactly when its file parses and the target is a header or body link of it. */
  lemma NoteLinksMembership(n: Note, c: Config, d: Disk, l: Link)
    ensures var p := NotePath(c.zettelDir, n.id);
      l in NoteLinks(n, c, d) <==>
        l.sourceNoteId == n.id && p in d.files && d.files[p].Parsed?
        && (l.targetNoteId in d.files[p].header.links || l.targetNoteId in MarkdownLinks(d.files[p].body))
  {
    var p := NotePath(c.zettelDir, n.id);
    if p in d.files && d.files[p].Parsed? {
      var hl := EdgesFrom(n.id, d.files[p].header.links);
      var bl := EdgesFrom(n.id, MarkdownLinks(d.files[p].body));
      EdgesMembership(n.id, d.files[p].header.links, l);
      EdgesMembership(n.id, MarkdownLinks(d.files[p].body), l);
      assert NoteLinks(n, c, d) == hl + bl;
    }
  }

  lemma EdgesMembership(source: string, targets: seq<string>, l: Link)
    ensures l in EdgesFrom(source, targets) <==> l.sourceNoteId == source && l.targetNoteId in targets
  {
    var edges := EdgesFrom(source, targets);
    if l.sourceNoteId == source && l.targetNoteId in targets {
      var k :| 0 <= k < |targets| && targets[k] == l.targetNoteId;
      assert edges[k] == l;
    }
  }

  /** Every link comes from a note whose file parses, and points at a header link or a body link of it. */
  lemma LinkOrigin(notes: seq<Note>, c: Config, d: Disk, l: Link)
    requires l in AllLinks(notes, c, d)
    ensures exists i :: (0 <= i < |notes| && notes[i].id == l.sourceNoteId
      && NotePath(c.zettelDir, notes[i].id) in d.files && d.files[NotePath(c.zettelDir, notes[i].id)].Parsed?
      && (l.targetNoteId in d.files[NotePath(c.zettelDir, notes[i].id)].header.links
        || l.targetNoteId in MarkdownLinks(d.files[NotePath(c.zettelDir, notes[i].id)].body)))
  {
    FlatMapMembership(notes, LinksOf(c, d), l);
    var i :| 0 <= i < |notes| && l in LinksOf(c, d)(notes[i]);
    NoteLinksMembership(notes[i], c, d, l);
  }

  /** Every header link and every body link of a note whose file parses is in links.json. */
  lemma LinksComplete(notes: seq<Note>, i: nat, c: Config, d: Disk, target: string)
    requires i < |notes|
    requires NotePath(c.zettelDir, notes[i].id) in d.files && d.files[NotePath(c.zettelDir, notes[i].id)].Parsed?
    requires target in d.files[NotePath(c.zettelDir, notes[i].id)].header.links
      || target in MarkdownLinks(d.files[NotePath(c.zettelDir, notes[i].id)].body)
    ensures Link(notes[i].id, target) in AllLinks(notes, c, d)
  {
    NoteLinksMembership(notes[i], c, d, Link(notes[i].id, target));
    FlatMapMembership(notes, LinksOf(c, d), Link(notes[i].id, target));
  }

  // ---------------------------------------------------------------------------
  // filterLinksByTag

  function NameFolds(tag: string): Tag -> bool
  {
    (t: Tag) => EqualFold(t.name, tag)
  }

  /** The ID of the first tag whose name equals `tag` ignoring case, or empty. */
  function TagIdFor(tags: seq<Tag>, tag: string): string
  {
    match FirstIndex(tags, NameFolds(tag))
    case None => ""
    case Some(i) => tags[i].id
  }

  /** The notes with an edge to the tag. */
  function TaggedNotes(noteTags: seq<NoteTag>, tagId: string): set<string>
  {
    set e | e in noteTags && e.tagId == tagId :: e.noteId
  }

  function Touches(noteIds: set<string>): Link -> bool
  {
    (l: Link) => l.sourceNoteId in noteIds || l.targetNoteId in noteIds
  }

  /** `filterLinksByTag`: an unknown tag is an error; otherwise the links from or to a note of the tag, in order. */
  function LinksByTag(links: seq<Link>, tag: string, noteTags: seq<NoteTag>, tags: seq<Tag>): Result<seq<Link>>
  {
    var tagId := TagIdFor(tags, tag);
    if tagId == "" then Err("tag not found")
    else Ok(Filter(links, Touches(TaggedNotes(noteTags, tagId))))
  }

  method FilterLinksByTag(links: seq<Link>, tag: string, noteTags: seq<NoteTag>, tags: seq<Tag>) returns (r: Result<seq<Link>>)
    ensures r == LinksByTag(links, tag, noteTags, tags)
  {
    var tagId := "";
    var i := 0;
    while i < |tags|
      invariant 0 <= i <= |tags|
      invariant forall j :: 0 <= j < i ==> !NameFolds(tag)(tags[j])
    {
      if EqualFold(tags[i].name, tag) {
        assert FirstIndex(tags, NameFolds(tag)) == Some(i);
        tagId := tags[i].id;
        break;
      }
      i := i + 1;
    }
    assert tagId == TagIdFor(tags, tag);
    if tagId == "" {
      return Err("tag not found");
    }

    var noteMap: set<string> := {};
    i := 0;
    while i < |noteTags|
      invariant 0 <= i <= |noteTags|
      invariant noteMap == TaggedNotes(noteTags[..i], tagId)
    {
      assert noteTags[..i + 1] == noteTags[..i] + [noteTags[i]];
      if noteTags[i].tagId == tagId {
        noteMap := noteMap + {noteTags[i].noteId};
      }
      i := i + 1;
    }
    assert noteTags[..i] == noteTags;

    var filteredLinks := [];
    i := 0;
    while i < |links|
      invariant 0 <= i <= |links|
      invariant filteredLinks == Filter(links[..i], Touches(noteMap))
    {
      FilterSnoc(links[..i], links[i], Touches(noteMap));
      assert links[..i + 1] == links[..i] + [links[i]];
      if links[i].sourceNoteId in noteMap || links[i].targetNoteId in noteMap {
        filteredLinks := filteredLinks + [links[i]];
      }
      i := i + 1;
    }
    assert links[..i] == links;
    return Ok(filteredLinks);
  }

  /**
   * The filter fails exactly when no tag name matches ignoring case (or the
   * first match has an empty ID); otherwise it keeps exactly the links with
   * an end on a note that has an edge to the first matching tag.
   */
  lemma LinksByTagExact(links: seq<Link>, tag: string, noteTags: seq<NoteTag>, tags: seq<Tag>)
    ensures LinksByTag(links, tag, noteTags, tags).Err? <==>
      (forall j :: 0 <= j < |tags| ==> !EqualFold(tags[j].name, tag)) || TagIdFor(tags, tag) == ""
    ensures LinksByTag(links, tag, noteTags, tags).Ok? ==>
      var tagId := TagIdFor(tags, tag);
      (exists j :: 0 <= j < |tags| && EqualFold(tags[j].name, tag) && tags[j].id == tagId)
      && forall l :: l in LinksByTag(links, tag, noteTags, tags).value <==>
        l in links && exists e :: e in noteTags && e.tagId == tagId && (e.noteId == l.sourceNoteId || e.noteId == l.targetNoteId)
  {
    var tagId := TagIdFor(tags, tag);
    if tagId != "" {
      var j := FirstIndex(tags, NameFolds(tag)).value;
      assert EqualFold(tags[j].name, tag) && tags[j].id == tagId;
      var keep := Touches(TaggedNotes(noteTags, tagId));
      forall l
        ensures l in Filter(links, keep) <==>
          l in links && exists e :: e in noteTags && e.tagId == tagId && (e.noteId == l.sourceNoteId || e.noteId == l.targetNoteId)
      {
        FilterMembership(links, keep, l);
        if keep(l) {
          var e: NoteTag :| e in noteTags && e.tagId == tagId && (e.noteId == l.sourceNoteId || e.noteId == l.targetNoteId);
        }
      }
    }
  }

  /** `link list`: links.json is rebuilt, then filtered when `--tag` is given. */
  method LinkList(filterTag: string, c: Config, notes: seq<Note>, disk: Disk, noteTags: seq<NoteTag>, tags: seq<Tag>)
    returns (r: Result<seq<Link>>)
    ensures filterTag == "" ==> r == Ok(AllLinks(notes, c, disk))
    ensures filterTag != "" ==> r == LinksByTag(AllLinks(notes, c, disk), filterTag, noteTags, tags)
  {
    var links := UpdateLinksJson(c, notes, disk);
    if filterTag != "" {
      r := FilterLinksByTag(links, filterTag, noteTags, tags);
    } else {
      r := Ok(links);
    }
  }
}
