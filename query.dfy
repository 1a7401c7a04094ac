/**
 * Searching and filtering note lists: the full-text search over titles and
 * file contents, the tag filter (case-insensitive) and the creation-date
 * range filter on `YYYY-MM-DD` dates.
 */
module Query {
  import opened Wrappers
  import opened Seqs
  import opened Text
  import opened Model

  /** The note rows whose lower-cased title or file text contains the lower-cased query; unreadable files drop out. */
  function Mentions(query: string, texts: map<string, string>): Note -> bool
  {
    (n: Note) => n.id in texts
      && (Contains(ToLower(n.title), ToLower(query)) || Contains(ToLower(texts[n.id]), ToLower(query)))
  }

  /**
   * `searchWithGo`: one file read per note, by timestamp ID. `texts` holds
   * the text of every note file that can be read.
   */
  method SearchWithGo(notes: seq<Note>, query: string, texts: map<string, string>) returns (found: seq<Note>)
    ensures found == Filter(notes, Mentions(query, texts))
  {
    found := [];
    var i := 0;
    while i < |notes|
      invariant 0 <= i <= |notes|
      invariant found == Filter(notes[..i], Mentions(query, texts))
    {
      var note := notes[i];
      FilterSnoc(notes[..i], note, Mentions(query, texts));
      assert notes[..i + 1] == notes[..i] + [note];
      if note.id in texts {
        var content := texts[note.id];
        if Contains(ToLower(note.title), ToLower(query)) || Contains(ToLower(content), ToLower(query)) {
          found := found + [note];
        }
      }
      i := i + 1;
    }
    assert notes[..i] == notes;
  }

  /** An empty query returns the list as it is; otherwise the Go search runs. */
  method FullTextSearch(notes: seq<Note>, query: string, texts: map<string, string>) returns (found: seq<Note>)
    ensures query == "" ==> found == notes
    ensures query != "" ==> found == Filter(notes, Mentions(query, texts))
  {
    if query == "" {
      return notes;
    }
    found := SearchWithGo(notes, query, texts);
  }

  /** A note is found exactly when it is in the list, its file can be read, and its title or text has the query in it. */
  lemma SearchMembership(notes: seq<Note>, query: string, texts: map<string, string>, n: Note)
    ensures n in Filter(notes, Mentions(query, texts)) <==>
      n in notes && n.id in texts
      && (Contains(ToLower(n.title), ToLower(query)) || Contains(ToLower(texts[n.id]), ToLower(query)))
  {
    FilterMembership(notes, Mentions(query, texts), n);
  }

  /** Lower-casing twice is lower-casing once. */
  lemma ToLowerIdempotent(s: string)
    ensures ToLower(ToLower(s)) == ToLower(s)
  {
  }

  /** The search ignores case in the query: the lower-cased query finds the same notes. */
  lemma SearchIgnoresQueryCase(notes: seq<Note>, query: string, texts: map<string, string>)
    ensures Filter(notes, Mentions(ToLower(query), texts)) == Filter(notes, Mentions(query, texts))
  {
    ToLowerIdempotent(query);
    FilterSame(notes, Mentions(ToLower(query), texts), Mentions(query, texts));
  }

  /** `contains`: membership in a list of strings. */
  method ListContains(slice: seq<string>, item: string) returns (b: bool)
    ensures b <==> item in slice
  {
    var i := 0;
    while i < |slice|
      invariant 0 <= i <= |slice|
      invariant item !in slice[..i]
    {
      if slice[i] == item {
        return true;
      }
      assert slice[..i + 1] == slice[..i] + [slice[i]];
      i := i + 1;
    }
    assert slice[..i] == slice;
    return false;
  }

  /** Some filter tag equals some tag of the note, ignoring case. */
  predicate TagsMatch(noteTags: seq<string>, filterTags: seq<string>)
  {
    exists i, j :: 0 <= i < |filterTags| && 0 <= j < |noteTags| && EqualFold(noteTags[j], filterTags[i])
  }

  method HasTags(noteTags: seq<string>, filterTags: seq<string>) returns (b: bool)
    ensures b <==> TagsMatch(noteTags, filterTags)
    ensures filterTags == [] ==> !b
  {
    var i := 0;
    while i < |filterTags|
      invariant 0 <= i <= |filterTags|
      invariant forall i', j :: 0 <= i' < i && 0 <= j < |noteTags| ==> !EqualFold(noteTags[j], filterTags[i'])
    {
      var j := 0;
      while j < |noteTags|
        invariant 0 <= j <= |noteTags|
        invariant forall j' :: 0 <= j' < j ==> !EqualFold(noteTags[j'], filterTags[i])
      {
        if EqualFold(noteTags[j], filterTags[i]) {
          return true;
        }
        j := j + 1;
      }
      i := i + 1;
    }
    return false;
  }

  /** The tag test does not depend on which side is the note's. */
  lemma TagsMatchSymmetric(a: seq<string>, b: seq<string>)
    ensures TagsMatch(a, b) <==> TagsMatch(b, a)
  {
    if TagsMatch(a, b) {
      var i, j :| 0 <= i < |b| && 0 <= j < |a| && EqualFold(a[j], b[i]);
      assert EqualFold(b[i], a[j]);
    }
    if TagsMatch(b, a) {
      var i, j :| 0 <= i < |a| && 0 <= j < |b| && EqualFold(b[j], a[i]);
      assert EqualFold(a[i], b[j]);
    }
  }

  /** A calendar date as `time.Parse("2006-01-02", ...)` accepts it. */
  datatype Date = Date(year: nat, month: nat, day: nat)

  predicate IsLeap(year: nat)
  {
    year % 4 == 0 && (year % 100 != 0 || year % 400 == 0)
  }

  function DaysIn(year: nat, month: nat): nat
  {
    if month == 2 then (if IsLeap(year) then 29 else 28)
    else if month == 4 || month == 6 || month == 9 || month == 11 then 30
    else 31
  }

  function DigitAt(s: string, i: nat): nat
    requires i < |s| && IsDigit(s[i])
  {
    s[i] as int - '0' as int
  }

  /** Four digits, a dash, two digits, a dash, two digits. */
  predicate DateShaped(s: string)
  {
    |s| == 10 && s[4] == '-' && s[7] == '-'
    && IsDigit(s[0]) && IsDigit(s[1]) && IsDigit(s[2]) && IsDigit(s[3])
    && IsDigit(s[5]) && IsDigit(s[6]) && IsDigit(s[8]) && IsDigit(s[9])
  }

  /** The date a `YYYY-MM-DD` text names, if it is one: the month must exist and the day must exist in it. */
  function ParseDate(s: string): (r: Option<Date>)
    ensures r.Some? ==> DateShaped(s)
    ensures r.Some? ==> 1 <= r.value.month <= 12 && 1 <= r.value.day <= DaysIn(r.value.year, r.value.month)
  {
    if !DateShaped(s) then None
    else
      var year := 1000 * DigitAt(s, 0) + 100 * DigitAt(s, 1) + 10 * DigitAt(s, 2) + DigitAt(s, 3);
      var month := 10 * DigitAt(s, 5) + DigitAt(s, 6);
      var day := 10 * DigitAt(s, 8) + DigitAt(s, 9);
      if 1 <= month <= 12 && 1 <= day <= DaysIn(year, month) then Some(Date(year, month, day)) else None
  }

  /** `Before`: strictly earlier in the calendar. */
  predicate DateBefore(a: Date, b: Date)
  {
    a.year < b.year || (a.year == b.year && (a.month < b.month || (a.month == b.month && a.day < b.day)))
  }

  /** The date part of `CreatedAt` (`2006-01-02 15:04:05`): the text before the first space. */
  function NoteDate(noteDateTime: string): (r: string)
    ensures r <= noteDateTime
    ensures forall i :: 0 <= i < |r| ==> r[i] != ' '
  {
    var r := BeforeFirst(noteDateTime, " ");
    assert forall i :: 0 <= i < |r| ==> r[i] != ' ' by {
      forall i | 0 <= i < |r|
        ensures r[i] != ' '
      {
        if IndexOf(noteDateTime, " ").Some? {
          assert !OccursAt(noteDateTime, " ", i);
        } else {
          assert !OccursAt(noteDateTime, " ", i);
        }
        assert noteDateTime[i..i + 1] == [r[i]];
      }
    }
    r
  }

  /**
   * `IsWithinDateRange`: no bounds let everything through; otherwise the
   * note's date must parse, and a bound that parses must not be after it
   * (from) or before it (to). A bound that does not parse is ignored.
   */
  function IsWithinDateRange(noteDateTime: string, fromDate: string, toDate: string): (r: bool)
    ensures fromDate == "" && toDate == "" ==> r
    ensures !(fromDate == "" && toDate == "") && ParseDate(NoteDate(noteDateTime)).None? ==> !r
  {
    if fromDate == "" && toDate == "" then true
    else match ParseDate(NoteDate(noteDateTime))
      case None => false
      case Some(note) =>
        if fromDate != "" && ParseDate(fromDate).Some? && DateBefore(note, ParseDate(fromDate).value) then false
        else if toDate != "" && ParseDate(toDate).Some? && DateBefore(ParseDate(toDate).value, note) then false
        else true
  }

  /** Both bounds are inclusive: a note dated on a bound is inside the range. */
  lemma DateRangeInclusive(noteDateTime: string, fromDate: string, toDate: string)
    requires ParseDate(NoteDate(noteDateTime)).Some?
    requires NoteDate(noteDateTime) == fromDate || NoteDate(noteDateTime) == toDate
    requires ParseDate(fromDate).Some? && ParseDate(toDate).Some?
    requires !DateBefore(ParseDate(toDate).value, ParseDate(fromDate).value)
    ensures IsWithinDateRange(noteDateTime, fromDate, toDate)
  {
  }

  /** A bound that does not parse counts as no bound, once the note's own date parses. */
  lemma BadBoundIgnored(noteDateTime: string, fromDate: string, toDate: string)
    requires ParseDate(NoteDate(noteDateTime)).Some?
    ensures ParseDate(fromDate).None? ==> IsWithinDateRange(noteDateTime, fromDate, toDate) == IsWithinDateRange(noteDateTime, "", toDate)
    ensures ParseDate(toDate).None? ==> IsWithinDateRange(noteDateTime, fromDate, toDate) == IsWithinDateRange(noteDateTime, fromDate, "")
  {
  }

  /** The weight of each digit of a `YYYY-MM-DD` text in the number `YYYYMMDD`. */
  function DateKey(s: string): int
    requires DateShaped(s)
  {
    10000000 * DigitAt(s, 0) + 1000000 * DigitAt(s, 1) + 100000 * DigitAt(s, 2) + 10000 * DigitAt(s, 3)
    + 1000 * DigitAt(s, 5) + 100 * DigitAt(s, 6) + 10 * DigitAt(s, 8) + DigitAt(s, 9)
  }

  /** On `YYYY-MM-DD` texts, an earlier first differing digit means a smaller number. */
  lemma DateKeyOrder(a: string, b: string, k: nat)
    requires DateShaped(a) && DateShaped(b) && k < 10
    requires a[..k] == b[..k] && a[k] < b[k]
    ensures DateKey(a) < DateKey(b)
  {
    assert forall i :: 0 <= i < k ==> a[i] == b[i] by {
      forall i | 0 <= i < k
        ensures a[i] == b[i]
      {
        assert a[..k][i] == b[..k][i];
      }
    }
  }

  /**
   * On valid dates, calendar order is the order of the texts as strings:
   * the date filter could equally compare the texts.
   */
  lemma DateOrderIsTextOrder(a: string, b: string)
    requires ParseDate(a).Some? && ParseDate(b).Some?
    ensures DateBefore(ParseDate(a).value, ParseDate(b).value) <==> LexLess(a, b)
  {
    var da := ParseDate(a).value;
    var db := ParseDate(b).value;
    assert DateKey(a) == 10000 * da.year + 100 * da.month + da.day;
    assert DateKey(b) == 10000 * db.year + 100 * db.month + db.day;
    assert DateBefore(da, db) <==> DateKey(a) < DateKey(b);
    if a == b {
      LexLessIrreflexive(a);
    } else {
      var k := LexLessFirstDiff(a, b);
      if a[k] < b[k] {
        DateKeyOrder(a, b, k);
      } else {
        DateKeyOrder(b, a, k);
      }
    }
  }

  /** The date filter on valid dates, stated with string comparisons. */
  lemma DateRangeByText(noteDateTime: string, fromDate: string, toDate: string)
    requires ParseDate(NoteDate(noteDateTime)).Some? && ParseDate(fromDate).Some? && ParseDate(toDate).Some?
    ensures IsWithinDateRange(noteDateTime, fromDate, toDate) <==>
      !LexLess(NoteDate(noteDateTime), fromDate) && !LexLess(toDate, NoteDate(noteDateTime))
  {
    DateOrderIsTextOrder(NoteDate(noteDateTime), fromDate);
    DateOrderIsTextOrder(toDate, NoteDate(noteDateTime));
  }

  /** A note's tags for the filter; a note missing from the map has none. */
  function TagsOf(display: map<string, seq<string>>, noteId: string): seq<string>
  {
    if noteId in display then display[noteId] else []
  }

  /** The test `FilterNotes` applies: the tag test only when tags are given, then the date test. */
  function Passes(tags: seq<string>, fromDate: string, toDate: string, display: map<string, seq<string>>): Note -> bool
  {
    (n: Note) => (tags == [] || TagsMatch(TagsOf(display, n.id), tags)) && IsWithinDateRange(n.createdAt, fromDate, toDate)
  }

  method FilterNotes(notes: seq<Note>, tags: seq<string>, fromDate: string, toDate: string, display: map<string, seq<string>>)
    returns (filtered: seq<Note>)
    ensures filtered == Filter(notes, Passes(tags, fromDate, toDate, display))
  {
    filtered := [];
    var i := 0;
    while i < |notes|
      invariant 0 <= i <= |notes|
      invariant filtered == Filter(notes[..i], Passes(tags, fromDate, toDate, display))
    {
      var note := notes[i];
      FilterSnoc(notes[..i], note, Passes(tags, fromDate, toDate, display));
      assert notes[..i + 1] == notes[..i] + [note];
      var keep := true;
      if |tags| > 0 {
        var has := HasTags(TagsOf(display, note.id), tags);
        keep := has;
      }
      if keep && IsWithinDateRange(note.createdAt, fromDate, toDate) {
        filtered := filtered + [note];
      }
      i := i + 1;
    }
    assert notes[..i] == notes;
  }

  /** With no tags and no dates the filter keeps every note. */
  lemma NoFilterKeepsAll(notes: seq<Note>, display: map<string, seq<string>>)
    ensures Filter(notes, Passes([], "", "", display)) == notes
  {
    FilterKeepsAll(notes, Passes([], "", "", display));
  }

  /** A note passes exactly when it is in the list and passes both tests. */
  lemma FilterNotesMembership(notes: seq<Note>, tags: seq<string>, fromDate: string, toDate: string, display: map<string, seq<string>>, n: Note)
    ensures n in Filter(notes, Passes(tags, fromDate, toDate, display)) <==>
      n in notes && (tags == [] || TagsMatch(TagsOf(display, n.id), tags)) && IsWithinDateRange(n.createdAt, fromDate, toDate)
  {
    FilterMembership(notes, Passes(tags, fromDate, toDate, display), n);
  }
}
