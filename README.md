# ztl-cli core, modelled in Dafny

ztl-cli is a command-line Zettelkasten. It keeps Markdown notes with a YAML
front-matter header in a directory tree, and it indexes them in JSON
collections:

- notes, tags, note–tag links, tasks, projects, project–note links and
  sources;
- each row carries a permanent identifier (the file name) and a short
  *display ID* such as `n012`, `t003` or `task-004`, which the user types.

The project models the parts of the program that decide what those
collections and files become. These are:

- **display IDs**: the next number is found by a regular-expression scan and
  zero-padded;
- **front matter**: splitting a document at its `---` fences, and rebuilding
  it;
- **the note lifecycle**: create, edit, tag, link to a source or project,
  move to the trash or the archive, restore, delete for good, and sweep the
  trash and the backups after a retention period;
- **tasks**: status transitions, archiving and removal;
- **tags, projects and sources**, and the links between them and the notes;
- **listing**: filtering by type, tag, date range and full text, ordering,
  column layout and the interactive pager;
- **links**: the Markdown links inside a note, and the link index rebuilt
  from them;
- **the S3 metadata**: change detection and which files are uploaded;
- **configuration**: where the configuration file is found, and how `~` is
  expanded.

State is modelled as values. A `Store` holds:

- the JSON collections, as sequences of rows;
- a `Disk`, which maps paths to documents and carries a set of locked paths
  whose writes or removals fail.

Each command is a method that takes a store and returns the new store, or a
failure flag. The method is proved equal to a specification function, and
lemmas state what that function does:

- which rows change and which stay;
- where a file moves;
- which flags in its header change;
- when the command fails.

The front-matter header objects, which the Go setters update in place through
pointer receivers, are classes with `modifies` clauses.

## Model

| member | source | states |
|---|---|---|
| DisplayIds.FirstMatch | internal/store/storage.go:73-78 | the leftmost position at which `<prefix>` followed by a digit occurs, or none; no earlier position matches |
| DisplayIds.DigitRunEnd | internal/store/storage.go:73 | the greedy `\d+` capture: every character before the end is a digit, and the next one is not |
| DisplayIds.MaxSuffix | internal/store/storage.go:76-84 | at least every number that parses behind the prefix, and either 0 or one of those numbers (the largest, with 0 when none parses) |
| DisplayIds.NextIdScan | internal/store/storage.go:71-94 | the loop over the existing IDs yields exactly the next display ID: the maximum plus one, formatted by the prefix |
| DisplayIds.FormatIdDigits | internal/store/storage.go:90-93 | a new number is zero-padded to three digits below 1000, and written in full from 1000 on |
| DisplayIds.SuffixOfFormat | internal/store/storage.go:73-80 | a generated ID scans back to its own number (the format/scan round trip), unless the number exceeds the 64-bit range that `strconv.Atoi` accepts |
| DisplayIds.DigitRunToEnd | internal/store/storage.go:73 | a run of digits that reaches the end of the ID is captured entirely |
| DisplayIds.NextIdFresh | internal/store/storage.go:86-93 | the new display ID differs from every existing one, while the maximum is below the 64-bit limit |
| DisplayIds.NextIdAdvances | internal/store/storage.go:86-93 | adding the new ID raises the maximum by exactly one |
| DisplayIds.FirstId | internal/store/storage.go:71-93 | the first ID in an empty collection is `<prefix>001` |
| Storage.GetNextNoteID | internal/store/storage.go:71-94 | the next note ID is the display-ID rule with prefix `n` over the notes' display IDs, and no existing note carries it |
| Storage.InsertNoteToJson | internal/store/storage.go:43-69 | appends exactly one row, the given note with the next display ID; the maximum number grows by one, and distinct display IDs stay distinct |
| Storage.FindBySeqId | internal/store/storage.go:169-171 | the first note whose display ID matches, or none when no note does |
| Storage.UpdateDeletedToFrontMatter | internal/store/storage.go:147-154 | sets or clears `deleted` on the header object in place, changes no other field, and returns the same object |
| Storage.UpdateArchivedToFrontMatter | internal/store/storage.go:156-159 | sets `archived` on the header object in place, changes no other field, and returns the same object |
| Storage.RestoredHeader | internal/store/storage.go:483-491 | `deleted` and `archived` are cleared exactly when requested; every other field is kept |
| Storage.UpdateNoteStatusInFrontMatter | internal/store/storage.go:483-491 | updates the header object in place to the restored header |
| Storage.Trashed | internal/store/storage.go:161-226 | moving a note to the trash never touches the note–tag links, and never adds or drops a note row |
| Storage.MoveNoteToTrash | internal/store/storage.go:161-226 | the command's resulting store and failure flag are exactly the trash specification |
| Storage.TrashedNote | internal/store/storage.go:169-217 | on success only the matched row changes, to `deleted`; the file is in the trash directory with `deleted: true`, and it is gone from the notes directory |
| Storage.TrashFails | internal/store/storage.go:176-208 | trashing fails exactly when the note file is missing, has no valid front matter, or cannot be moved into the trash |
| Storage.Restored | internal/store/storage.go:411-481 | restoring never touches the links or the number of rows; with neither flag set, a found note is an error and nothing changes |
| Storage.RestoreNote | internal/store/storage.go:411-481 | the command's resulting store and failure flag are exactly the restore specification |
| Storage.RestoreUndoesTrash | internal/store/storage.go:161-226 | a note moved to the trash and then restored with `deleted` gives back the original rows and files |
| Storage.TrashedExactly | internal/store/storage.go:169-217 | the complete store after trashing a well-formed note: one row flagged, one document moved, and its header rewritten |
| Storage.RestoredExactly | internal/store/storage.go:421-470 | the complete store after restoring from the trash: one row cleared, and the document moved back with `deleted: false` |
| Storage.RestoredFromArchiveExactly | internal/store/storage.go:425-470 | the complete store after restoring from the archive: one row cleared of `archived`, and the document moved back from the archive directory |
| Storage.RestoreBothFlags | internal/store/storage.go:421-428 | with both flags set, the row clears only `deleted` (the branch taken first) while the header clears both |
| Storage.RemoveMatching | internal/store/storage.go:236-245 | removing the files of the matching notes keeps the lock set, and only ever removes paths |
| Storage.RemoveMatchingStops | internal/store/storage.go:241-244 | the first failed removal ends the command: later rows change nothing |
| Storage.RemoveMatchingFiles | internal/store/storage.go:236-245 | the removal succeeds exactly when no matching file is locked, and then removes exactly the matching notes' paths (a missing file is no error) |
| Storage.DeleteNotePermanently | internal/store/storage.go:228-273 | the command's resulting store and failure flag are exactly the purge specification |
| Storage.PurgeRemovesNote | internal/store/storage.go:234-266 | on success, the remaining notes are exactly those with another display ID, and their files are exactly the old files minus the purged paths |
| Storage.PurgeKeepsEdges | internal/store/storage.go:259-264 | links that do not mention the display ID are kept unchanged |
| Storage.SweepStep | internal/store/storage.go:323-347 | each directory entry adds its path and note ID to the swept sets exactly when it is sweepable |
| Storage.RemoveExpired | internal/store/storage.go:323-347 | the loop removes exactly the swept paths, keeps the lock set, and reports exactly the swept note IDs |
| Storage.CleanupTrash | internal/store/storage.go:302-377 | the notes and links whose note ID was swept are filtered out, in order, and the swept files are removed |
| Storage.SweepRemovesExactlyExpired | internal/store/storage.go:323-347 | an entry is swept exactly when it is a file with a modification time strictly older than the retention period, and its removal succeeds |
| Storage.SweepCascades | internal/store/storage.go:350-367 | a note or link survives the sweep exactly when its note ID was not swept |
| Storage.CleanupBackups | internal/store/storage.go:380-409 | exactly the backups older than the retention period, and not locked, are removed |
| Model.AsNoteHeader | internal/model/note.go:17-28 | decoding as a note header drops only the task `status` key, and keeps every other field |
| Model.AsTaskHeader | cmd/task.go:148 | decoding as a task header always yields a status; a missing key reads as empty, and every note-header field is kept (the task header's fields are inferred; see Left out) |
| Model.NoteFrontMatter.Value | internal/model/note.go:17-28 | a note header object never carries a task status |
| Model.NoteFrontMatter.Decoded | internal/model/note.go:17-28 | a header object decoded from a file holds exactly the note-header reading of that header |
| Model.NoteFrontMatter.SetDeleted | internal/model/note.go:30-32 | sets `deleted`, and leaves every other field unchanged |
| Model.NoteFrontMatter.ResetDeleted | internal/model/note.go:34-36 | clears `deleted`, and leaves every other field unchanged |
| Model.NoteFrontMatter.SetArchived | internal/model/note.go:38-40 | sets `archived`, and leaves every other field unchanged |
| Model.NoteFrontMatter.ResetArchived | internal/model/note.go:42-44 | clears `archived`, and leaves every other field unchanged |
| Model.DefaultConfig | internal/model/config.go:30-57 | trash is kept for less time than backups, and every default directory lies under the home directory (`~/`) |
| FrontMatterCodec.SplitFences | internal/store/storage.go:103-106 | a split into three parts at `---`: the content is the fence, the header text, the fence and the rest, and the header text holds no fence; no split when the rest holds no second fence |
| FrontMatterCodec.NothingBeforeFirst | internal/store/storage.go:103 | the split happens at the first fence, so no fence occurs before it |
| FrontMatterCodec.ParseFrontMatter | internal/store/storage.go:96-118 | a failure returns the content unchanged, and content that does not start with `---` always fails |
| FrontMatterCodec.ParseFenced | internal/store/storage.go:99-117 | a fenced file parses to the decoded, trimmed header text and the trimmed body, or fails when the header does not decode |
| FrontMatterCodec.WrittenText | internal/store/storage.go:120-130 | the written file is the fence, a newline, the YAML, the fence, a blank line and the body |
| FrontMatterCodec.ParseWrittenText | internal/store/storage.go:96-130 | a written file with fence-free YAML reads back as its header and its trimmed body |
| FrontMatterCodec.RoundTrip | internal/store/storage.go:96-130 | writing a header and a body and then parsing the file gives back the header and the trimmed body, whenever the YAML holds no `---` and decodes back to the header |
| FrontMatterCodec.FenceInsideHeader | internal/store/storage.go:103-109 | a header whose YAML holds `---` (an unquoted title `a---b`) is cut at it on reading, and the rest of the header joins the body |
| FrontMatterCodec.ParseDashFreeHeader | internal/store/storage.go:103-109 | header text without `-` splits at the second fence |
| FrontMatterCodec.CutHeaderText | internal/store/storage.go:127-129 | the written text of a header holding `---` has that `---` as its second fence |
| Clock.TimestampId | cmd/fleeting.go:35-38 | the timestamp ID is all digits, and is exactly 14 characters long for a valid instant in a four-digit year |
| Clock.DateStampParses | cmd/fleeting.go:39 | the creation stamp's date part reads back, under the `2006-01-02` layout, as the instant's own date |
| Clock.ParseJoinedDate | internal/util/query_search.go:151 | `yyyy-mm-dd` made of four, two and two digits parses to its numeric date when the month and day are in range |
| Clock.StampDate | internal/util/query_search.go:143-151 | the date taken from a creation stamp (the text before the first space) is its date stamp, and it parses to the instant's date |
| Clock.FirstSpace | internal/util/query_search.go:143 | splitting at a space gives back the space-free text before it |
| Clock.PaddedWidth | cmd/fleeting.go:36-38 | `%02d` of a number below 100 has two characters, and a year below 10000 written with four digits has four |
| Clock.FourDigits | internal/util/query_search.go:151 | a four-digit field reads as its positional decimal value |
| Clock.TwoDigits | internal/util/query_search.go:151 | a two-digit field reads as its positional decimal value |
| ConfigStore.Join | internal/store/config.go:28 | joining only empty parts gives the empty path |
| ConfigStore.JoinEndsWithLast | internal/store/config.go:28 | a joined path ends with its last non-empty part |
| ConfigStore.JoinStartsWithFirst | internal/store/config.go:58 | a joined path starts with its first non-empty part |
| ConfigStore.JoinEndsWith | internal/store/config.go:28-43 | a joined path ends with its last two non-empty parts, separated by the separator |
| ConfigStore.JoinSnoc | internal/store/config.go:28 | joining one more non-empty part adds a separator and that part, unless everything before was empty |
| ConfigStore.GetConfigPath | internal/store/config.go:15-48 | a non-empty `ZTL_CONFIG` wins; the lookup fails exactly when that variable is empty, the home directory is unknown, and `APPDATA` is not used (not Windows, or empty) |
| ConfigStore.ConfigPathIsZtlConfig | internal/store/config.go:21-47 | without `ZTL_CONFIG`, a found path always ends in `ztl/config.yaml` with the platform's separator |
| ConfigStore.ExpandHomeDir | internal/store/config.go:51-61 | only a path starting with `~/` changes, and only when the home directory is known; it becomes the home directory joined with the rest |
| ConfigStore.ExpandHomeDirIdempotent | internal/store/config.go:51-61 | expanding twice is the same as expanding once |
| ConfigStore.ExpandDirectories | internal/store/config.go:79-84 | exactly the five directories are expanded, each on its own, and every other setting is kept |
| ConfigStore.LoadConfig | internal/store/config.go:63-87 | success means the path was found and the file was read and parsed, and the result is that configuration with its directories expanded; failure means one of those three steps failed |
| ConfigStore.DefaultConfigInHome | internal/model/config.go:30-57 | after loading, every default directory lies inside the home directory |
| Metadata.CollectNewer | internal/util/metadata.go:224-229 | the loop collects each file that one manifest has and the other lacks or has older, exactly once |
| Metadata.DetectChanges | internal/util/metadata.go:211-243 | for `s3`, exactly the files that are newer or only in the remote manifest; for `local`, exactly those newer or only in the local one; for any other source, nothing; a nil manifest counts as empty; no file is listed twice |
| Metadata.NeverBothWays | internal/util/metadata.go:222-237 | no file is due in both directions, and a file with equal times is due in neither |
| Metadata.PullConverges | internal/util/metadata.go:222-229 | after taking the remote time of every file due for download, nothing is due any more |
| Metadata.LoadMetadata | internal/util/metadata.go:59-75 | a missing manifest reads as empty; reading fails exactly when the file cannot be read or parsed; otherwise it is the decoded map |
| Metadata.NoLocalManifestPullsAll | internal/util/metadata.go:59-64 | without a local manifest, every remote file is due for download |
| Metadata.RouteKey | internal/util/metadata.go:182-191 | a `notes/` key maps to its base name in the Zettelkasten directory, a `json/` key to its base name in the JSON data directory, and any other key is skipped |
| Metadata.SyncFilesToS3 | internal/util/metadata.go:166-209 | the requests are exactly one transfer per routed key, in list order: a download for `pull`, an upload for `push`, and none otherwise |
| Metadata.BaseAfterPrefix | internal/util/metadata.go:185-187 | the base name of a prefixed key is the file name after the prefix |
| Metadata.AfterLastSlashOfPrefixed | internal/util/metadata.go:185-187 | the text after the last slash of a prefixed key is the slash-free name |
| Metadata.RoutesAgree | internal/util/s3.go:33-38 | the key under which a file is uploaded routes back to the same local file |
| S3Sync.Route | internal/util/s3.go:33-42 | `.md` files go to the Zettelkasten directory under `notes/`, and `.json` files (if not `.md`) to the JSON data directory under `json/`; anything else is skipped |
| S3Sync.SyncFilesToS3 | internal/util/s3.go:20-64 | without a client the call fails before any transfer; otherwise it issues exactly one transfer per routed file, in list order |
| S3Sync.TransfersFromFiles | internal/util/s3.go:28-61 | every transfer comes from a listed file's route and matches the direction; an unknown direction issues none |
| S3Sync.TransfersCount | internal/util/s3.go:28-61 | push and pull issue the same number of transfers, never more than the files listed |
| Query.SearchWithGo | internal/util/query_search.go:73-97 | the loop keeps, in order, exactly the notes whose title or file text contains the query ignoring case; notes whose file cannot be read drop out |
| Query.FullTextSearch | internal/util/query_search.go:16-28 | an empty query returns every note; otherwise it returns the search result |
| Query.SearchMembership | internal/util/query_search.go:81-92 | a note is found exactly when its file is readable and its lower-cased title or text contains the lower-cased query |
| Query.SearchIgnoresQueryCase | internal/util/query_search.go:89-90 | searching for the lower-cased query finds the same notes as the query itself |
| Query.ListContains | internal/util/query_search.go:99-106 | true exactly when the item is in the list |
| Query.HasTags | internal/util/query_search.go:130-139 | true exactly when some filter tag equals some note tag ignoring case; never true for an empty filter |
| Query.TagsMatchSymmetric | internal/util/query_search.go:130-139 | the tag match does not depend on which list is the filter |
| Query.ParseDate | internal/util/query_search.go:151 | a parsed date comes from `YYYY-MM-DD` text, with its month in 1..12 and its day within that month, counting leap years |
| Query.NoteDate | internal/util/query_search.go:143 | the date part is a prefix of the stamp and holds no space |
| Query.IsWithinDateRange | internal/util/query_search.go:142-173 | with no bounds every note passes; with a bound, a note whose date does not parse fails |
| Query.DateRangeInclusive | internal/util/query_search.go:156-170 | both bounds are inclusive: a note dated on either bound of a non-empty range passes |
| Query.BadBoundIgnored | internal/util/query_search.go:158-168 | a bound that does not parse is ignored, as if it were empty |
| Query.DateKeyOrder | internal/util/query_search.go:159-167 | between two well-formed dates, the first differing digit decides the order |
| Query.DateOrderIsTextOrder | internal/util/query_search.go:159-167 | for valid dates, calendar order is text order |
| Query.DateRangeByText | internal/util/query_search.go:142-173 | with valid dates and bounds, a note passes exactly when its date text is between the bounds |
| Query.FilterNotes | internal/util/query_search.go:109-127 | the loop keeps, in order, exactly the notes that pass the tag filter and the date filter |
| Query.NoFilterKeepsAll | internal/util/query_search.go:109-127 | with no tags and no dates every note is kept, in order |
| Query.FilterNotesMembership | internal/util/query_search.go:112-123 | a note is kept exactly when the tag list is empty or one of its tags matches, and its creation date is in range |
| Tags.GetNextTagID | internal/store/tags.go:92-115 | the next tag ID is the display-ID rule with prefix `t`, and no existing tag carries it |
| Tags.AppendAllocated | internal/store/tags.go:71-74 | appending a tag under the next ID raises the maximum number by one, and keeps IDs distinct |
| Tags.InsertTagToJson | internal/store/tags.go:57-90 | an existing name leaves the tags unchanged; a new name is appended under the next ID; afterwards the name exists, and distinct names and distinct IDs stay distinct |
| Tags.CreateNewTag | internal/store/tags.go:42-55 | the old tags are kept as a prefix; every requested name then exists; each added tag has a requested name that was not there before; names and IDs stay distinct |
| NoteTags.InsertNoteTag | internal/store/note_tags.go:41-92 | the walk over the tags is written exactly when no tag of that name already links the note, and then it is the walk's result; otherwise nothing changes |
| NoteTags.TaggedKeepsPairsUnique | internal/store/note_tags.go:65-77 | when written, the old links are a prefix and no note–tag pair appears twice |
| NoteTags.TaggedAddsOnlyNamed | internal/store/note_tags.go:65-77 | every added link is from this note to a tag carrying the requested name |
| NoteTags.TaggedWithUniqueNames | internal/store/note_tags.go:65-77 | with distinct tag names: an unknown name adds nothing, and a known name adds one link unless the pair already exists, in which case nothing is written |
| NoteTags.NoOtherName | internal/store/note_tags.go:65-77 | tags with other names never add links |
| Projects.GetNextProjectID | internal/store/projects.go:78-101 | the next project ID is the display-ID rule with prefix `p`, and no existing project carries it |
| Projects.InsertProjectToJson | internal/store/projects.go:42-76 | an existing name leaves the projects unchanged; a new name is appended under the next ID; names and IDs stay distinct |
| ProjectNotes.InsertProjectNoteToJson | internal/store/project_notes.go:40-81 | an existing project–note pair leaves the links unchanged; otherwise the pair is appended; afterwards it is present, and no pair appears twice |
| Sources.GetNextSourceID | internal/store/sources.go:77-100 | the next source ID is the display-ID rule with prefix `s`, and no existing source carries it |
| Sources.InsertSourceToJson | internal/store/sources.go:42-75 | an existing title leaves the sources unchanged; a new title is appended under the next ID; titles and IDs stay distinct |
| Tasks.GetNextTaskID | internal/store/tasks.go:78-101 | the next task ID is the display-ID rule with prefix `task-`, and no existing task carries it |
| Tasks.InsertTaskToJson | internal/store/tasks.go:42-76 | a row whose task ID already exists leaves the tasks unchanged; otherwise the row is appended under the next task ID; IDs stay distinct |
| Disk.Write | internal/store/storage.go:194 | writing a file replaces exactly that path's document, and keeps the lock set |
| Disk.Rename | internal/store/storage.go:207 | a rename succeeds exactly when the source exists and is not locked; the document then sits at the destination, the source is gone, and every other path is unchanged |
| Disk.Remove | internal/store/storage.go:240-243 | a removal succeeds exactly when the file exists and is not locked, and then drops exactly that path; a missing file is reported as missing |
| Links.CloseFrom | cmd/link.go:122 | the lazy `(.*?)` group: the first position from which `](` followed by 14 digits and `.md)` follows |
| Links.MatchAt | cmd/link.go:122 | a match that starts with `[` at a position ends after a complete link tail |
| Links.ScanClose | cmd/link.go:122 | the scan for the closing part finds exactly the first position with a link tail |
| Links.ExtractMarkdownLinks | cmd/link.go:120-131 | the loop collects exactly the 14-digit IDs of the non-overlapping leftmost matches of `[title](id.md)`, in order |
| Links.LinksFromSome | cmd/link.go:122-128 | at a match, its ID is taken and the scan resumes after the whole match |
| Links.LinksFromNone | cmd/link.go:122-128 | where no match starts, the scan moves on by one character |
| Links.LinksAreIds | cmd/link.go:120-131 | every extracted link is 14 digits long, and occurs in the text as `](id.md)` |
| Links.TailShift | cmd/link.go:122 | a link tail is recognised in the same way after any prefix |
| Links.CloseShift | cmd/link.go:122 | the closing search is unaffected by text before it |
| Links.MatchShift | cmd/link.go:122 | a match is unaffected by text before it |
| Links.LinksShift | cmd/link.go:120-131 | the links found in a suffix do not depend on the text before it |
| Links.NoBracketNoLinks | cmd/link.go:120-131 | text without `[` has no links |
| Links.LinkRoundTrip | cmd/link.go:120-131 | a link written as `[title](id.md)`, with a title free of `]` and line breaks, is extracted as its ID, followed by the links of the text after it |
| Links.CloseWalk | cmd/link.go:122 | positions that do not start a link tail pass the search on unchanged |
| Links.EdgesFrom | cmd/link.go:92-106 | one link from the note to each target, in order |
| Links.AppendEdges | cmd/link.go:92-106 | the loop appends exactly those links |
| Links.UpdateLinksJson | cmd/link.go:66-118 | the rebuilt link index is exactly the concatenation over the notes of each note's links |
| Links.ReadNoteLinks | cmd/link.go:76-106 | a note's links are its header links and then its body links; an unreadable or unparsable file contributes none |
| Links.LinksOfNote | cmd/link.go:75-107 | the index is built note by note, in order |
| Links.NoteLinksMembership | cmd/link.go:76-106 | a link belongs to a note exactly when it starts there, the file parses, and the target is in the header's `links` or in the body's Markdown links |
| Links.EdgesMembership | cmd/link.go:92-106 | the links from a note are exactly those to one of the targets |
| Links.LinkOrigin | cmd/link.go:66-118 | every indexed link comes from some note's parsed header or body |
| Links.LinksComplete | cmd/link.go:66-118 | every header or body link of a parsed note file is in the index |
| Links.FilterLinksByTag | cmd/link.go:22-64 | the loops compute exactly the tag filter specification |
| Links.LinksByTagExact | cmd/link.go:34-63 | the filter fails exactly when no tag name matches ignoring case, or when the first match has an empty ID; otherwise it keeps exactly the links with an end on a note linked to that tag |
| Links.LinkList | cmd/link.go:185-218 | without `--tag`, the rebuilt index; with one, the rebuilt index passed through the tag filter |
| Listing.EdgeTagIds | cmd/permanent.go:241-243 | a note's tag IDs, one per link, never more than the links |
| Listing.TagMapOf | cmd/permanent.go:246-249 | the tag map has exactly the IDs of the tags |
| Listing.NamesOf | cmd/permanent.go:282-286 | the names of the tag IDs that the map knows, never more than the IDs |
| Listing.EdgeTagIdsMembership | cmd/permanent.go:241-243 | a tag ID is listed for a note exactly when the note–tag link exists |
| Listing.NamesOfMembership | cmd/permanent.go:282-286 | a name is shown exactly when one of the IDs maps to it; unknown IDs are skipped |
| Listing.TagNamesMembership | cmd/permanent.go:238-290 | a tag name is shown beside a note exactly when a link from the note reaches a known tag with that name |
| Listing.BuildTagDisplay | cmd/permanent.go:277-290 | the tag display has an entry for every note in the store (not only the listed ones), holding its tag names |
| Listing.BuildNoteTagMap | cmd/permanent.go:238-243 | the loop groups the link tag IDs by note, in link order |
| Listing.BuildTagMap | cmd/permanent.go:246-249 | the loop builds the tag map |
| Listing.EdgeStep | cmd/permanent.go:241-243 | appending one link extends that note's entry by its tag ID, and leaves the others alone |
| Listing.NamesFor | cmd/permanent.go:279-286 | the loop collects the tag names of the IDs |
| Listing.ListNotes | cmd/permanent.go:203-305 | the list command's note list is exactly the listing specification: the soft-state and type filter, the search, and the tag and date filters |
| Listing.DisplayIsBuilt | cmd/permanent.go:252-290 | a map with those entries is the tag display |
| Listing.ListingSound | cmd/permanent.go:254-305 | everything listed is a note that passes the trash, archive or type test, the tag filter and the date filter, and matches the search when the search found something |
| Listing.EmptySearchIgnored | cmd/permanent.go:295-300 | a search that matches nothing lists the same as no search |
| Listing.UnfilteredListing | cmd/permanent.go:254-293 | with no search and no filters, the plain list shows exactly the live notes of the command's type (archived ones included), and `--trash` shows exactly the deleted notes of every type |
| Listing.Quits | cmd/permanent.go:394-400 | one quit answer per line read |
| Listing.StepAt | cmd/permanent.go:326-402 | a page that does not end the loop shows the rows from its start for one page size, and is followed by another page |
| Listing.PagesFromContinue | cmd/permanent.go:326-402 | a page that does not end the loop adds its window, and the walk goes on from the next page |
| Listing.PagesFromStop | cmd/permanent.go:326-402 | a page that ends the loop adds its window, if any, and fixes how the walk ends |
| Listing.Paginate | cmd/permanent.go:313-403 | the paging loop shows exactly the page windows of the paging specification, and ends the way it says |
| Listing.ShowPage | cmd/permanent.go:327-400 | one round of the loop is exactly one step of the specification |
| Listing.ReadsQuit | cmd/permanent.go:394-398 | the answer read after a page is `q` exactly when the specification says the user quits there |
| Listing.PagesStep | cmd/permanent.go:326-402 | a page that is neither the last one nor quit shows its rows, and paging continues on the next page |
| Listing.PagesFromWindows | cmd/permanent.go:327-337 | page `k` always shows rows `k*size` up to `(k+1)*size`, cut at the end |
| Listing.PagesTileRows | cmd/permanent.go:326-402 | with a positive page size and no `q`, paging reaches the last page, and the pages tile the rows: each row is shown exactly once, in order |
| Listing.AllOnOnePage | cmd/permanent.go:320-323 | `--limit -1` shows every row on one page, and stops |
| Listing.ZeroLimitShowsNothing | cmd/permanent.go:326-402 | a limit of 0 shows only empty pages, and ends only on `q` or at the end of input |
| Listing.NegativeLimitPanics | cmd/permanent.go:327-353 | a limit below -1 makes the first slice fail |
| NoteCommands.CreateNote | cmd/permanent.go:37-91 | the file is written at `<zettelDir>/<timestamp>.md` with the new header and a `## <title>` body, and the row is appended under the next display ID |
| NoteCommands.NewRowShape | cmd/permanent.go:38-82 | a new row has a 14-digit timestamp ID, a display ID no other row has, both flags clear, equal creation and update stamps, and a creation date that parses to the day of creation and passes a filter on that day |
| NoteCommands.InsertTagEdges | cmd/permanent.go:142-146 | the loop tags the note with each name given, in order |
| NoteCommands.TagEdgesSound | cmd/permanent.go:142-146 | the old links stay in front; each added link joins the note to a tag with one of the names; no pair appears twice; with distinct tag names, every named tag ends up linked |
| NoteCommands.Synced | cmd/permanent.go:175-185 | refreshing the row from the file never adds or drops rows |
| NoteCommands.SyncCreatedRow | cmd/permanent.go:156-191 | the loop refreshes exactly the first row with the note's timestamp ID |
| NoteCommands.NewNote | cmd/permanent.go:107-196 | `new`: old tags are kept and the requested names exist, with nothing else added; links are added for the linked names; the rows are the new row appended and then refreshed from the file the editor left; the file is written and then edited |
| NoteCommands.UntouchedNewNote | cmd/permanent.go:156-185 | when the editor leaves the file as written, the new row keeps its title and type, takes the trimmed `## <title>` body as its content, and is stamped with the update time |
| NoteCommands.SyncedNewRow | cmd/permanent.go:175-185 | a refresh whose ID only the new row carries lands on that row |
| NoteCommands.UnparsableNewNote | cmd/permanent.go:163-181 | a file whose header no longer parses blanks the row's title and type, and stores the whole text as its content |
| NoteCommands.SameSecondRefreshesOlderRow | cmd/permanent.go:175-185 | two notes created within the same second share a timestamp ID: the refresh lands on the older row, and the new row keeps what it was created with |
| NoteCommands.SyncedAppend | cmd/permanent.go:175-185 | a refresh that finds its row earlier leaves the appended row alone |
| NoteCommands.TaggedNew | cmd/literature.go:123-140 | `permanent new` and `literature new` create every `--tag` name, and link the note to exactly those names |
| NoteCommands.FleetingNew | cmd/fleeting.go:103-179 | `fleeting new` creates no tags and no links, and writes a header without tags |
| NoteCommands.StructureNew | cmd/structure.go:124-140 | `structure new` creates its `--tag` names, but links nothing, because its link loop reads the permanent command's tag list, which is empty then |
| NoteCommands.Edited | cmd/permanent.go:494-599 | an edit never touches the note–tag links, and never adds or drops rows |
| NoteCommands.EditNote | cmd/permanent.go:516-597 | the command's resulting store and fatal flag are exactly the edit specification |
| NoteCommands.EditKeepsRowAndFile | cmd/permanent.go:549-575 | after an edit, the row and its file agree on the title and the update stamp; the row's type, flags and IDs are untouched, as is every other row; the header gains an empty status |
| NoteCommands.EditFails | cmd/permanent.go:549-560 | an edit fails exactly when the note is found and its file is missing or has no valid header |
| NoteCommands.Archived | cmd/permanent.go:634-723 | archiving never touches the links, and never adds or drops rows |
| NoteCommands.ArchiveNote | cmd/permanent.go:656-721 | the command's resulting store is exactly the archive specification |
| NoteCommands.ArchiveFlagsRow | cmd/permanent.go:667-713 | archiving a parsable note flags that row and no other, even when the move fails; a file that cannot be moved stays in place with `archived: true` |
| NoteCommands.RestoreUndoesArchive | cmd/permanent.go:634-723 | restoring from the archive undoes archiving: rows, links and files are as they were |
| NoteCommands.ArchivedExactly | cmd/permanent.go:667-713 | the complete store after archiving a note whose file can be moved |
| NoteCommands.RemoveNote | cmd/literature.go:595-626 | `remove` purges when the force flag it reads is set, and moves the note to the trash otherwise |
| NoteCommands.LiteratureRemove | cmd/literature.go:595-626 | a forced `literature remove` that succeeds leaves no row with that display ID |
| NoteCommands.ForeignFlagRemove | cmd/permanent.go:601-632 | `remove` of the permanent, structure and index commands always moves the note to the trash: it reads the literature command's force flag, which is never set there |
| NoteCommands.ResolveRestore | cmd/structure.go:732-739 | both flags are refused; neither flag means the trash; otherwise exactly one source is chosen, and it is the archive exactly when `--archive` was given |
| NoteCommands.StructureRestore | cmd/structure.go:719-747 | both flags are fatal and change nothing; otherwise the note is restored from the trash, or from the archive when only `--archive` is set |
| NoteCommands.IndexRestore | cmd/index.go:825-853 | `index restore` reads `permanentRestoreTrash` and `permanentRestoreArchive`, which no source file declares; taken as false, it always restores from the trash and its own `--trash` and `--archive` are ignored |
| TaskCommands.CreateNewTask | cmd/task.go:39-105 | the task file is written with status `Not started`; the note row is appended under the next display ID; a task row with status `Not Started` is appended under the next task ID |
| TaskCommands.TaskNew | cmd/task.go:266-315 | `task new`: old tags are kept and the `--tag` names exist; the note is linked to exactly those names; both rows are appended and the file is written, and the rows are not refreshed after the editor |
| TaskCommands.TaskMapOfLast | cmd/task.go:373-376 | a note ID is in the task map exactly when some task names it, and it maps to the last such task |
| TaskCommands.TaskRowsMembership | cmd/task.go:400-440 | a row is listed exactly when its note is one of the notes, passes the type, trash and archive tests and the tag and date filters, and is paired with its task |
| TaskCommands.TrashListsNothing | cmd/task.go:412-420 | `task list --trash` lists nothing: a deleted note passes the first test and is then skipped by the last branch for being deleted |
| TaskCommands.TaskListSound | cmd/task.go:400-440 | every listed row pairs a live task note of the store (archived with `--archive`) with a task naming it, and passes the tag and date filters |
| TaskCommands.TaskListComplete | cmd/task.go:400-440 | with no flags and no filters, every live task note that some task names is listed |
| TaskCommands.ListTasks | cmd/task.go:345-440 | the maps and the filter loop compute exactly the task list specification |
| TaskCommands.FilterTasks | cmd/task.go:400-440 | the loop keeps, in order, exactly the notes that pass the tests, each paired with its task |
| TaskCommands.BuildTaskMap | cmd/task.go:373-376 | the loop builds the task map, in which later tasks win |
| TaskCommands.KeepsTask | cmd/task.go:401-433 | one note is kept exactly when it passes the task test and the tag and date filters |
| TaskCommands.TaskListCommand | cmd/task.go:317-532 | `task list` shows exactly the task list, paged as the paging specification says, without the single-page early exit of the note lists |
| TaskCommands.NewTaskListed | cmd/task.go:39-105 | a new task is the last row of the plain task list, with status `Not Started`, while its file says `Not started` |
| TaskCommands.SpellingsDiffer | cmd/task.go:52-95 | the two spellings of the initial status differ |
| TaskCommands.FindTaskNoteId | cmd/task.go:114-123 | the loop finds the note ID of the first task with the ID, or the empty string |
| TaskCommands.TaskTrashed | cmd/task.go:107-191 | trashing a task's note never touches the links, and never adds or drops rows |
| TaskCommands.MoveTaskToTrash | cmd/task.go:107-191 | the command's resulting store and failure flag are exactly the task trash specification for the task's note ID |
| TaskCommands.TaskTrashLikeNoteTrash | cmd/task.go:134-186 | trashing a task's note fails, changes rows and moves files exactly as trashing a note does; only the header written differs |
| TaskCommands.TaskRemoveMissesNote | cmd/task.go:107-256 | a task names its note by timestamp ID, but the lookup compares it with display IDs, so a task remove moves no file and changes no row; a forced one still drops the note's tag links |
| TaskCommands.TaskRemove | cmd/task.go:847-879 | `task remove` purges with its own `--force`, and otherwise trashes; tasks.json is not changed |
| TaskCommands.TaskArchived | cmd/task.go:881-991 | archiving a task's note never touches the links, and never adds or drops rows |
| TaskCommands.ArchiveTask | cmd/task.go:881-991 | the command's resulting store is exactly the task archive specification for the task's note ID |
| TaskCommands.TaskArchiveLikeNoteArchive | cmd/task.go:881-991 | archiving a task's note flags the same rows and moves the same files as archiving a note |
| TaskCommands.RefreshNotes | cmd/task.go:582-605 | the inner loop keeps the number of rows, leaves rows it has not reached alone, and, unless it failed, stamps exactly the rows of the task's note |
| TaskCommands.StatusRun | cmd/task.go:575-608 | the outer loop keeps the number of tasks and rows, and leaves the tasks it has not reached alone |
| TaskCommands.RefreshFatalStays | cmd/task.go:585-592 | once a file cannot be read or parsed, the process ends, and the rest of the inner loop changes nothing |
| TaskCommands.StatusFatalStays | cmd/task.go:575-608 | once the update has failed, the rest of the outer loop changes nothing |
| TaskCommands.RefreshTaskNotes | cmd/task.go:582-605 | the inner loop computes exactly its specification |
| TaskCommands.UpdateTaskStatus | cmd/task.go:534-630 | the command's resulting tasks, rows, files and fatal flag are exactly the status-update specification |
| TaskCommands.StatusRunTasks | cmd/task.go:575-579 | every task with the ID gets the new status, and every other task is unchanged |
| TaskCommands.NamedByStep | cmd/task.go:575-583 | a note is named by the tasks so far exactly when it was named before, or the current task has the ID and names it |
| TaskCommands.StatusRunNotes | cmd/task.go:582-604 | every note that a named task points at is stamped, and its file carries the new status; every other row is unchanged |
| TaskCommands.StatusUpdateEffect | cmd/task.go:534-630 | after an update that did not fail, the status is non-empty; exactly the tasks with the ID have it; exactly their notes' rows are stamped; and their files carry it |
| TaskCommands.UnknownTaskUnchanged | cmd/task.go:574-612 | an unknown task ID changes nothing, and is not an error |
| IndexCommands.ResolveIndexTitle | cmd/index.go:199-227 | the lookup loop yields exactly the title specification |
| IndexCommands.IndexTitleResolves | cmd/index.go:199-227 | with `--book`, the title resolves exactly when a source has that ID, and is then the first such source's title; without it, exactly when a title argument is given |
| IndexCommands.LinkIndexToSource | cmd/index.go:107-169 | fails exactly when no source has the ID or no note has the timestamp ID; an existing pair leaves the links unchanged, and otherwise the pair is appended; afterwards it is present, and no pair appears twice |
| IndexCommands.BookFound | cmd/index.go:208-216 | a book that resolves is a source with that ID |
| IndexCommands.LinkNewIndex | cmd/index.go:107-169 | linking a note just appended to the book its title came from cannot fail, and appends the pair unless it exists |
| IndexCommands.IndexNew | cmd/index.go:178-296 | an unknown book or a missing title ends the command with nothing changed; otherwise the note is created, tagged and refreshed as `new` does it, and with `--book` it is linked to the book |
| TagCommands.EdgesTo | cmd/tag.go:65-90 | one edge per matching note, in order, each from that note's timestamp ID to the tag |
| TagCommands.TagFor | cmd/tag.go:50-63 | the tag list only grows, by at most one tag, and afterwards holds a tag with the name and the returned ID |
| TagCommands.TagFilesFailStays | cmd/tag.go:65-92 | once a file fails to load, the rest of the loop leaves the result failed |
| TagCommands.AddTagToNote | cmd/tag.go:24-105 | adds a tag to every note row with the display ID, as the reference definition of the command says |
| TagCommands.FindEdge | cmd/tag.go:43-47 | reports whether an edge's note ID equals the display ID and its tag ID equals the tag name |
| TagCommands.FindOrCreateTag | cmd/tag.go:50-63 | reuses the first tag of that name, or appends a fresh one with the next tag ID |
| TagCommands.TagNoteFiles | cmd/tag.go:65-92 | the file loop computes the edges, files and failure of the reference definition |
| TagCommands.TagFilesEdges | cmd/tag.go:65-92 | without failure, the loop appends exactly one edge per row with the display ID, in row order |
| TagCommands.TagFilesStamped | cmd/tag.go:70-82 | without failure, each matching row's file is a parsed note whose tags end with the new name |
| TagCommands.AddTagEffect | cmd/tag.go:24-105 | a successful add grows the tags by at most one, names the tag, appends one edge per matching row and writes the name last into each matching file; no match adds no edge |
| TagCommands.AddTagNoMatch | cmd/tag.go:50-92 | with no row of the display ID, only the tag list can change |
| TagCommands.TagFilesUntouched | cmd/tag.go:65-92 | rows without the display ID leave edges and disk alone |
| TagCommands.AddTagTwiceDuplicates | cmd/tag.go:43-47 | since the duplicate test compares a timestamp ID with the display ID, adding a tag a note already has leaves two equal edges |
| TagCommands.RemoveTag | cmd/tag.go:214-222 | keeps exactly the tags different from the one removed, in order |
| TagCommands.RemoveTagSound | cmd/tag.go:214-222 | a tag survives exactly when it is in the list and differs from the name; removing undoes appending the name |
| TagCommands.RemoveTagFromNote | cmd/tag.go:107-212 | removes the tag from the first row with the display ID, as the reference definition of the command says |
| TagCommands.FindTagId | cmd/tag.go:125-135 | the ID of the first tag with that name, or empty when none has it |
| TagCommands.DropEdges | cmd/tag.go:167-172 | keeps exactly the edges that are not from the note to the tag |
| TagCommands.TagInUse | cmd/tag.go:182-188 | reports whether any remaining edge uses the tag ID |
| TagCommands.DropTagRow | cmd/tag.go:191-205 | keeps exactly the tags whose ID differs |
| TagCommands.RemoveTagEffect | cmd/tag.go:107-212 | after a successful removal exactly the note's edges to the tag are gone, the tag row stays exactly when still in use, no other tag goes, and the file no longer lists the name |
| TagCommands.RemoveUndoesAdd | cmd/tag.go:24-212 | removing a tag just added to the only row with the display ID restores the edges and the file's tags less that tag |
| TagCommands.TagForFirst | cmd/tag.go:50-63 | the ID found or created is what a later lookup by name returns |
| TagCommands.OnlyRowTagged | cmd/tag.go:65-92 | with one row of the display ID whose file parses, the loop appends exactly its edge and stamps exactly its file |
| TagCommands.CountTagUses | cmd/tag.go:236-239 | each tag ID's count is the number of edges carrying it |
| TagCommands.SearchTags | cmd/tag.go:242-251 | keeps exactly the tags whose name contains the query, ignoring case, in order |
| TagCommands.ListTags | cmd/tag.go:224-287 | the rows are those of the reference listing |
| TagCommands.TagListingSound | cmd/tag.go:224-287 | every row is a matching tag with its edge count; a positive limit bounds the rows; with no query and no limit every tag is shown in order |
| ProjectCommands.CreateNewProject | cmd/project.go:20-33 | an existing name leaves the projects unchanged; otherwise one project with the next `p` ID and the name is appended; unique names stay unique |
| ProjectCommands.AddNoteToProject | cmd/project.go:35-84 | joins the note and the project as the reference definition says |
| ProjectCommands.NoteToProjectErrors | cmd/project.go:35-84 | refused exactly when no project has the ID or no note has the display ID, with the project error taking precedence; on success the pair is present, the edges only grow by at most one, and unique pairs stay unique |
| ProjectCommands.AddStep | cmd/project.go:152-189 | a step of the `add` loop keeps the number of note rows |
| ProjectCommands.AddRun | cmd/project.go:152-189 | the `add` loop keeps the number of note rows |
| ProjectCommands.AddRunStops | cmd/project.go:152-189 | once the loop has stopped, later rows change nothing |
| ProjectCommands.ProjectAdd | cmd/project.go:122-192 | the command's loop computes the reference run over all rows |
| ProjectCommands.AddRunNext | cmd/project.go:152-189 | a run that has not stopped continues with the step at the next row |
| ProjectCommands.AddRow | cmd/project.go:153-188 | one row of the loop computes the reference step |
| ProjectCommands.AddRunBefore | cmd/project.go:152-153 | rows before the first one with the display ID change nothing |
| ProjectCommands.AddRunAfter | cmd/project.go:152-153 | rows after the last one with the display ID change nothing |
| ProjectCommands.ProjectAddEffect | cmd/project.go:122-192 | with one row of the display ID, a known project and a parsable file, the note is joined to the project, its row and its header take the project's name, and no other row changes |
| ProjectCommands.UnknownProjectChangesNothing | cmd/project.go:35-84 | an unknown project ID leaves notes, edges and files unchanged |
| ProjectCommands.ProjectRows | cmd/project.go:229-256 | one row per project, in order |
| ProjectCommands.ListProjects | cmd/project.go:194-261 | the shown total is the number of edges, and the rows are each project with its edge count |
| ProjectCommands.TallySnoc | cmd/project.go:229-256 | one more edge raises the counts' total by the number of projects with its project ID |
| ProjectCommands.HitsOne | cmd/project.go:229-256 | with unique project IDs, an ID matches one project or none |
| ProjectCommands.CountsAddUp | cmd/project.go:194-261 | with unique project IDs and every edge pointing at a known project, the per-project counts add up to the number of edges |
| ProjectCommands.ZeroTally | cmd/project.go:229-256 | with no edges every count is zero |
| ProjectCommands.ShowProject | cmd/project.go:263-346 | shows the project and its notes as the reference definition says |
| ProjectCommands.TitleMapKeys | cmd/project.go:326-330 | the title map has a key exactly for each note's timestamp ID |
| ProjectCommands.TitleMapLast | cmd/project.go:326-330 | a key maps to the title of the last note with that ID |
| ProjectCommands.ShownLines | cmd/project.go:263-346 | an unknown project shows nothing; a known one shows one line per edge to it, each a note joined to it, with a title exactly when some note has that ID |
| SourceCommands.SourceNew | cmd/source.go:32-72 | creates the source as the reference definition says |
| SourceCommands.NewSourceErrors | cmd/source.go:36-43 | refused exactly when the title is empty or the type is not book, web, paper or video, the title check coming first |
| SourceCommands.NewSourceKeeps | cmd/source.go:32-72 | on success the sources only grow, by at most one, a source has the title, and unique titles stay unique |
| SourceCommands.NewSourceRow | cmd/source.go:32-72 | a new title appends a row with the given type, title and year and an ID no earlier source has; unique IDs stay unique |
| SourceCommands.NewSourceIdempotent | cmd/source.go:32-72 | creating the same source twice leaves what the first call left |
| SourceCommands.SourceList | cmd/source.go:74-170 | the pages shown and how the listing ends are those of the shared paging loop with the requested page size; no sources, no pages |
| SourceCommands.SourceListStopsEarly | cmd/source.go:151-154 | when the permanent list's page size, which this command tests but never sets, equals the number of sources, a smaller limit shows one page and no prompt |
| SourceCommands.SourceListContinues | cmd/source.go:107-167 | otherwise a smaller limit shows the first page, and an answer other than `q` shows the next page right after it |
| SourceCommands.ShownSource | cmd/source.go:205-217 | a known ID shows a source with that ID; an unknown one shows the empty source |
| SourceCommands.SourceShow | cmd/source.go:172-249 | shows the source and its related notes as the reference definitions say |
| SourceCommands.RelatedNotesSound | cmd/source.go:218-228 | one related note per edge of the source that some note's display ID matches, each a note joined to the source |
| SourceCommands.Apply | cmd/source.go:273-293 | an edit keeps the ID and the type, and no changed flag leaves the source as it was |
| SourceCommands.SourceEdit | cmd/source.go:251-310 | edits the source as the reference definition says |
| SourceCommands.EditedSound | cmd/source.go:251-310 | refused exactly when no source has the ID; otherwise only the first source with the ID changes, its IDs and type stay, each field takes its flag's value when given, and unique IDs stay unique |
| SourceCommands.EditNothing | cmd/source.go:270-296 | an edit with no flags leaves the sources unchanged |
| SourceCommands.EditCanDuplicateTitle | cmd/source.go:273-277 | an edit may give a source another source's title |
| SourceCommands.SourceAddNote | cmd/source.go:312-382 | appends the pair built from the first argument, and reports whether the source, the note and the pair were found |
| SourceCommands.AddNoteQuirks | cmd/source.go:318-370 | the second argument is ignored, the pair (first argument, first argument) is always appended, and a pair already present is stored twice |
| SourceCommands.NoteIdOfSeq | cmd/source.go:408-416 | the timestamp ID of a note with the display ID, or empty when none has it |
| SourceCommands.SourceRemoveNote | cmd/source.go:384-443 | drops the pairs as the reference definition says and reports whether any was found |
| SourceCommands.NoteRemovedSound | cmd/source.go:420-434 | a pair survives exactly when it is not the one from the first argument to the note's timestamp ID |
| SourceCommands.RemoveDoesNotUndoAdd | cmd/source.go:312-443 | since add-note stores a display ID and remove-note looks for a timestamp ID, removing does not undo adding |

## Left out

- File system and encoding: the JSON collections are sequences handed to each command and returned by it, note files are a map from directory and name to a parsed header and body, and the YAML and JSON marshalling is not modelled. A missing file fails the read, a malformed document fails the parse, and every write of a JSON collection or a `.md` file succeeds, so the error paths after a failed save are not modelled.
- The `Load*` loaders (internal/store/notes.go, internal/store/links.go, internal/store/source_notes.go and the loaders of each store file) are not part of this model. Source–note links are a collection of their own here, although internal/store/source_notes.go:12 reads note_tags.json.
- The clock: `time.Now` becomes parameters, an `Instant` for IDs and backup names and a formatted `now` string for the created and updated stamps. Retention ages are computed from a given current time.
- The editor and lock files of the `edit` commands (internal/util/editor.go, internal/util/lockfile.go): what the user changes in the editor is an input, an editor that fails is not modelled, and no lock is taken.
- Query.FullTextSearch: models only the search the program falls back on when `rg` is absent (internal/util/query_search.go:73-98); the ripgrep search at internal/util/query_search.go:37-70 runs an external process and is not modelled. A note file that cannot be read is skipped, as there.
- The AWS SDK, the S3 client and the region; `push` and `pull` through the `aws` command (cmd/sync.go:97-127); the directory walk of cmd/sync.go:164-194; cmd/sync_helper.go. Only the routing of a file to its bucket key and the transfers a list of changed files produces are modelled; transfer errors, which the program only logs, are not.
- Metadata.DetectChanges: Go visits a map in no fixed order, so the model picks the keys in an arbitrary order and states only which files are listed, each once.
- The configuration editor (cmd/config.go), cmd/init.go, table rendering, colours and Markdown rendering, and the `link` listing's `displayLinks` printer. The pager's keyboard input is modelled only as the sequence of lines the user types.
- Text.ToLower, Text.EqualFold: fold ASCII letters only, where Go folds all of Unicode.
- Links.ExtractMarkdownLinks: the Go regular expression works on UTF-8 bytes and the model on characters; the two agree on the ASCII brackets and parentheses the pattern looks for.
- The `task edit` command (cmd/task.go:719-845) and the `show` commands of the note kinds only read and print; they are not modelled.
- NoteCommands.StructureNew: does not run the backup and trash sweeps that cmd/structure.go:117-122 runs before creating the note; the sweeps are modelled on their own as Storage.CleanupBackups and Storage.CleanupTrash.
- IndexCommands.IndexNew: does not run the backup and trash sweeps that cmd/index.go:192-197 runs first; they are modelled on their own as Storage.CleanupBackups and Storage.CleanupTrash.
- Listing.ListNotes: the `structure list` and `index list` commands first run the same sweeps (cmd/structure.go:206-211, cmd/index.go:311-316); the listing here starts from the collections as they are.
- NoteCommands.ArchiveNote: the `structure archive` and `index archive` commands first run the same sweeps (cmd/structure.go:642-647, cmd/index.go:748-753); the model does not.
- NoteCommands.RemoveNote: the `structure delete` and `index delete` commands first run the same sweeps (cmd/structure.go:609-614, cmd/index.go:715-720); the model does not.
- Storage.CleanupTrash, Storage.CleanupBackups: take the directory listing, with each entry's modification time, as input instead of reading the directory.
- DisplayIds.NextIdScan: the numeric suffix is bounded by the 64-bit limit of `strconv.Atoi`, but adding one to the largest suffix is not wrapped at 64 bits; such a suffix would need nineteen digits.
- Model.AsTaskHeader: the task header type is declared in no file of the program; its fields are inferred from the literal at cmd/task.go:47-57 and the field uses at cmd/literature.go:466-473 as the note header's fields plus `status`, so that every other field is kept is an assumption of the model.
- NoteCommands.IndexRestore: `permanentRestoreTrash` and `permanentRestoreArchive`, which cmd/index.go:838-847 reads, are declared in no file of the program (its own flags are `indexRestoreTrash` and `indexRestoreArchive`, cmd/index.go:874-875); the model takes them as false, the default of a boolean flag, so that it always restores from the trash is an assumption.
- TaskCommands.TaskTrashed: cmd/task.go:154 calls the two-parameter `UpdateDeletedToFrontMatter` (internal/store/storage.go:147) with one argument; the model passes `true`, as a move to the trash means.
- ProjectCommands.AddStep: cmd/project.go:166 calls the generic `ParseFrontMatter` without its type argument; the model reads the header as a note header.
- Metadata.SyncFilesToS3, S3Sync.SyncFilesToS3: the program declares `SyncFilesToS3` twice in one package (internal/util/metadata.go:166 and internal/util/s3.go:20), which Go refuses; the model keeps both bodies as two members of their own.
- ConfigStore.Join: leaves out the lexical clean-up that `filepath.Join` applies (internal/store/config.go:28, 35, 43, 58). The two differ on a home of "/" (Go gives "/.config/ztl/config.yaml", the model "//.config/ztl/config.yaml"), on parts holding `.` or `..`, on doubled or trailing separators, and on the `/` inside `~/ztl/notes` on Windows.
- ConfigStore.ExpandHomeDir: inherits Join's missing clean-up, so "~/a/../b" becomes the home directory joined with "a/../b" rather than with "b".
- ConfigStore.DefaultConfigInHome: states that each default directory starts with the home directory and a separator, which holds of the model's Join but not of the program for a home of "/" or a home ending in a separator, where Go's clean-up removes the doubled separator.
- Metadata.RouteKey: tests the raw key, where internal/util/metadata.go:182 cleans it first; "./notes/a.md" is routed by the program and skipped by the model, and "notes/../json/x.json" goes to the JSON directory in the program and to the Zettelkasten directory in the model.
- NoteCommands.UntouchedNewNote, NoteCommands.NewNote: the commands keep a note file as a parsed header and body, so a header is read back as written; in the program a header field holding `---` (a title "a---b", say) is cut when the file is read back, as FrontMatterCodec.FenceInsideHeader shows, and the row would then take the cut title.
