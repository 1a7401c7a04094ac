/**
 * The note files on disk. A file is addressed by its directory and its name
 * (`filepath.Join(dir, name)`); its content is either a header followed by
 * a body, or text whose header cannot be parsed. Paths in `locked` are
 * files the operating system refuses to move or remove.
 */
module Disk {
  import opened Wrappers
  import opened Model

  datatype Path = Path(dir: string, name: string)

  datatype Doc = Parsed(header: FrontMatter, body: string) | Malformed(text: string)

  datatype Disk = Disk(files: map<Path, Doc>, locked: set<Path>)

  /** Where a note with timestamp ID `id` lives in directory `dir`. */
  function NotePath(dir: string, id: string): Path
  {
    Path(dir, id + ".md")
  }

  /** `os.WriteFile`: creates or replaces the file. */
  function Write(d: Disk, p: Path, doc: Doc): (r: Disk)
    ensures r.files == d.files[p := doc] && r.locked == d.locked
  {
    d.(files := d.files[p := doc])
  }

  /** `os.Rename`: fails when the source is missing or locked, replaces the destination otherwise. */
  function Rename(d: Disk, src: Path, dst: Path): (r: Result<Disk>)
    ensures r.Ok? <==> src in d.files && src !in d.locked
    ensures r.Ok? ==> dst in r.value.files && r.value.files[dst] == d.files[src]
    ensures r.Ok? && src != dst ==> src !in r.value.files
    ensures r.Ok? ==> forall q :: q != src && q != dst ==> (q in r.value.files <==> q in d.files)
    ensures r.Ok? ==> forall q :: q in d.files && q != src && q != dst ==> r.value.files[q] == d.files[q]
  {
    if src in d.files && src !in d.locked then
      Ok(d.(files := (d.files - {src})[dst := d.files[src]]))
    else Err("rename failed")
  }

  /** `os.Remove`. A missing file is reported as such, so callers can tell it from a refusal. */
  datatype RemoveOutcome = Removed(disk: Disk) | NotExist | Refused

  function Remove(d: Disk, p: Path): (r: RemoveOutcome)
    ensures r.Removed? <==> p in d.files && p !in d.locked
    ensures r.NotExist? <==> p !in d.files
    ensures r.Removed? ==> r.disk.files == d.files - {p} && r.disk.locked == d.locked
  {
    if p !in d.files then NotExist
    else if p in d.locked then Refused
    else Removed(d.(files := d.files - {p}))
  }
}
