/**
 * Sync manifests: for each file name, its modification time as an RFC 3339
 * text. Two manifests are compared to find the files one side has newer or
 * alone; the file list is then copied between the bucket and the local
 * directories, routed by key prefix.
 */
module Metadata {
  import opened Wrappers
  import opened Text
  import opened Model
  import opened Disk
  import S3Sync

  /** A manifest as decoded from JSON; `None` is the nil map that the JSON text `null` decodes to. */
  type Manifest = Option<map<string, string>>

  /** A nil manifest reads as an empty one. */
  function Entries(m: Manifest): map<string, string>
  {
    if m.None? then map[] else m.value
  }

  /** The files of `from` that `to` lacks or holds with a smaller time text. */
  function Newer(from: map<string, string>, to: map<string, string>): set<string>
  {
    set f | f in from && (f !in to || LexLess(to[f], from[f]))
  }

  predicate NoDuplicates(files: seq<string>)
  {
    forall i, j :: 0 <= i < j < |files| ==> files[i] != files[j]
  }

  /** The loop over one manifest, in whatever order the map is walked. */
  method CollectNewer(from: map<string, string>, to: map<string, string>) returns (files: seq<string>)
    ensures (set f | f in files) == Newer(from, to)
    ensures NoDuplicates(files)
  {
    files := [];
    var remaining := from.Keys;
    while remaining != {}
      invariant remaining <= from.Keys
      invariant (set f | f in files) == Newer(from, to) - remaining
      invariant forall f :: f in files ==> f !in remaining
      invariant NoDuplicates(files)
      decreases |remaining|
    {
      var file :| file in remaining;
      ghost var before := files;
      if file !in to || LexLess(to[file], from[file]) {
        files := files + [file];
        assert (set f | f in files) == (set f | f in before) + {file};
      }
      remaining := remaining - {file};
    }
  }

  /**
   * `DetectChanges`: with source `s3` the remote files to download, with
   * `local` the local files to upload, otherwise nothing. The order of the
   * result is the map's iteration order and is not specified.
   */
  method DetectChanges(localMeta: Manifest, remoteMeta: Manifest, source: string) returns (filesToSync: seq<string>)
    ensures source == "s3" ==> (set f | f in filesToSync) == Newer(Entries(remoteMeta), Entries(localMeta))
    ensures source == "local" ==> (set f | f in filesToSync) == Newer(Entries(localMeta), Entries(remoteMeta))
    ensures source != "s3" && source != "local" ==> filesToSync == []
    ensures NoDuplicates(filesToSync)
  {
    var local := if localMeta.None? then map[] else localMeta.value;
    var remote := if remoteMeta.None? then map[] else remoteMeta.value;
    if source == "s3" {
      filesToSync := CollectNewer(remote, local);
    } else if source == "local" {
      filesToSync := CollectNewer(local, remote);
    } else {
      filesToSync := [];
    }
  }

  /** A file never needs copying both ways, and equal time texts never need copying. */
  lemma NeverBothWays(local: map<string, string>, remote: map<string, string>)
    ensures Newer(remote, local) * Newer(local, remote) == {}
    ensures forall f :: f in local && f in remote && local[f] == remote[f] ==> f !in Newer(remote, local) && f !in Newer(local, remote)
  {
    forall f | f in local && f in remote
      ensures !(LexLess(local[f], remote[f]) && LexLess(remote[f], local[f]))
      ensures !LexLess(local[f], local[f])
    {
      LexLessAsymmetric(local[f], remote[f]);
      LexLessIrreflexive(local[f]);
    }
  }

  /** Once the local side takes the remote time of every file found newer remotely, nothing is newer remotely. */
  lemma PullConverges(local: map<string, string>, remote: map<string, string>)
    ensures var pulled := local + map f | f in Newer(remote, local) :: remote[f];
      Newer(remote, pulled) == {}
  {
    var pulled := local + map f | f in Newer(remote, local) :: remote[f];
    forall f | f in remote
      ensures f in pulled && !LexLess(pulled[f], remote[f])
    {
      if f in Newer(remote, local) {
        LexLessIrreflexive(remote[f]);
      }
    }
  }

  /** How reading a manifest file can end. */
  datatype ManifestFile = Missing | Unreadable | Undecodable | Decoded(manifest: Manifest)

  /** `LoadMetadata`: a missing file is an empty manifest; any other failure is an error. */
  function LoadMetadata(file: ManifestFile): (r: Result<Manifest>)
    ensures file.Missing? ==> r == Ok(Some(map[]))
    ensures r.Err? <==> file.Unreadable? || file.Undecodable?
    ensures file.Decoded? ==> r == Ok(file.manifest)
  {
    match file
    case Missing => Ok(Some(map[]))
    case Unreadable => Err("failed to read metadata.json")
    case Undecodable => Err("failed to parse metadata.json")
    case Decoded(m) => Ok(m)
  }

  /** Without a local manifest, every remote file is to be downloaded. */
  lemma NoLocalManifestPullsAll(remote: map<string, string>)
    ensures Newer(remote, Entries(LoadMetadata(Missing).value)) == remote.Keys
  {
  }

  /** Where a key of the bucket lands locally: `notes/` keys in the Zettelkasten, `json/` keys in the JSON data directory. */
  function RouteKey(c: Config, file: string): (r: Option<Path>)
    ensures "notes/" <= file ==> r == Some(Path(c.zettelDir, Base(file)))
    ensures !("notes/" <= file) && "json/" <= file ==> r == Some(Path(c.jsonDataDir, Base(file)))
    ensures r.None? <==> !("notes/" <= file) && !("json/" <= file)
  {
    if "notes/" <= file then Some(Path(c.zettelDir, Base(file)))
    else if "json/" <= file then Some(Path(c.jsonDataDir, Base(file)))
    else None
  }

  function Step(c: Config, direction: string, file: string): (r: seq<S3Sync.Transfer>)
    ensures |r| <= 1
  {
    match RouteKey(c, file)
    case None => []
    case Some(local) =>
      if direction == "pull" then [S3Sync.Download(file, local)]
      else if direction == "push" then [S3Sync.Upload(local, file)]
      else []
  }

  function Transfers(c: Config, direction: string, files: seq<string>): seq<S3Sync.Transfer>
  {
    if files == [] then [] else Transfers(c, direction, files[..|files| - 1]) + Step(c, direction, files[|files| - 1])
  }

  /**
   * `SyncFilesToS3` of the manifest sync: the key is the file entry itself.
   * Failed requests are only logged.
   */
  method SyncFilesToS3(c: Config, direction: string, fileList: seq<string>) returns (requests: seq<S3Sync.Transfer>)
    ensures requests == Transfers(c, direction, fileList)
  {
    requests := [];
    var i := 0;
    while i < |fileList|
      invariant 0 <= i <= |fileList|
      invariant requests == Transfers(c, direction, fileList[..i])
    {
      var file := fileList[i];
      assert fileList[..i + 1][..i] == fileList[..i];
      assert Transfers(c, direction, fileList[..i + 1]) == requests + Step(c, direction, file);
      var localPath;
      if "notes/" <= file {
        localPath := Path(c.zettelDir, Base(file));
      } else if "json/" <= file {
        localPath := Path(c.jsonDataDir, Base(file));
      } else {
        i := i + 1;
        continue;
      }
      var s3Key := file;
      if direction == "pull" {
        requests := requests + [S3Sync.Download(s3Key, localPath)];
      } else if direction == "push" {
        requests := requests + [S3Sync.Upload(localPath, s3Key)];
      }
      i := i + 1;
    }
    assert fileList[..i] == fileList;
  }

  /** The base of a key is the plain name behind its prefix. */
  lemma BaseAfterPrefix(prefix: string, name: string)
    requires prefix != [] && prefix[|prefix| - 1] == '/'
    requires name != [] && forall i :: 0 <= i < |name| ==> name[i] != '/'
    ensures Base(prefix + name) == name
  {
    var s := prefix + name;
    assert StripTrailingSlashes(s) == s;
    AfterLastSlashOfPrefixed(prefix, name);
  }

  lemma {:induction false} AfterLastSlashOfPrefixed(prefix: string, name: string)
    requires prefix != [] && prefix[|prefix| - 1] == '/'
    requires forall i :: 0 <= i < |name| ==> name[i] != '/'
    ensures AfterLastSlash(prefix + name) == name
  {
    if name == [] {
      assert prefix + name == prefix;
    } else {
      var front := name[..|name| - 1];
      assert (prefix + name)[..|prefix + name| - 1] == prefix + front;
      AfterLastSlashOfPrefixed(prefix, front);
    }
  }

  /**
   * The two routings agree: a plain note or JSON file name sent to its key
   * by extension comes back by key prefix to the same local file.
   */
  lemma RoutesAgree(c: Config, name: string)
    requires forall i :: 0 <= i < |name| ==> name[i] != '/'
    requires S3Sync.Route(c, name).Some?
    ensures RouteKey(c, S3Sync.Route(c, name).value.1) == Some(S3Sync.Route(c, name).value.0)
  {
    assert name != [];
    if HasSuffix(name, ".md") {
      BaseAfterPrefix("notes/", name);
      assert "notes/" <= "notes/" + name;
    } else {
      BaseAfterPrefix("json/", name);
      assert "json/" <= "json/" + name;
      assert !("notes/" <= "json/" + name) by {
        assert ("json/" + name)[0] == 'j';
      }
    }
  }
}
