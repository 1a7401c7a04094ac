/**
 * Copying files between the local directories and the S3 bucket. A file
 * name is routed by its extension: `.md` files live in the Zettelkasten
 * directory under the key prefix `notes/`, `.json` files in the JSON data
 * directory under `json/`; anything else is skipped.
 */
module S3Sync {
  import opened Wrappers
  import opened Text
  import opened Model
  import opened Disk

  /** One S3 request: an upload of a local file to a key, or a download of a key to a local file. */
  datatype Transfer = Upload(local: Path, key: string) | Download(key: string, local: Path)

  /** Where a file name lives locally and under which key. */
  function Route(c: Config, file: string): (r: Option<(Path, string)>)
    ensures r.Some? ==> r.value.0.name == file
    ensures r.Some? <==> HasSuffix(file, ".md") || HasSuffix(file, ".json")
    ensures HasSuffix(file, ".md") ==> r == Some((Path(c.zettelDir, file), "notes/" + file))
    ensures !HasSuffix(file, ".md") && HasSuffix(file, ".json") ==> r == Some((Path(c.jsonDataDir, file), "json/" + file))
  {
    if HasSuffix(file, ".md") then Some((Path(c.zettelDir, file), "notes/" + file))
    else if HasSuffix(file, ".json") then Some((Path(c.jsonDataDir, file), "json/" + file))
    else None
  }

  /** The requests for one file: only `push` uploads and only `pull` downloads. */
  function Step(c: Config, direction: string, file: string): (r: seq<Transfer>)
    ensures |r| <= 1
  {
    match Route(c, file)
    case None => []
    case Some((local, key)) =>
      if direction == "push" then [Upload(local, key)]
      else if direction == "pull" then [Download(key, local)]
      else []
  }

  /** The requests for a list of files, in list order. */
  function Transfers(c: Config, direction: string, files: seq<string>): seq<Transfer>
  {
    if files == [] then [] else Transfers(c, direction, files[..|files| - 1]) + Step(c, direction, files[|files| - 1])
  }

  /**
   * `SyncFilesToS3`: fails only when the client cannot be made; a request
   * that fails is logged and the loop goes on, so it still returns no error.
   */
  method SyncFilesToS3(c: Config, direction: string, fileList: seq<string>, clientOk: bool)
    returns (requests: seq<Transfer>, failed: bool)
    ensures failed <==> !clientOk
    ensures requests == if clientOk then Transfers(c, direction, fileList) else []
  {
    if !clientOk {
      return [], true;
    }
    requests := [];
    var i := 0;
    while i < |fileList|
      invariant 0 <= i <= |fileList|
      invariant requests == Transfers(c, direction, fileList[..i])
    {
      var file := fileList[i];
      assert fileList[..i + 1][..i] == fileList[..i];
      var s3Key, localPath;
      if HasSuffix(file, ".md") {
        localPath := Path(c.zettelDir, file);
        s3Key := "notes/" + file;
      } else if HasSuffix(file, ".json") {
        localPath := Path(c.jsonDataDir, file);
        s3Key := "json/" + file;
      } else {
        i := i + 1;
        continue;
      }
      if direction == "push" {
        requests := requests + [Upload(localPath, s3Key)];
      }
      if direction == "pull" {
        requests := requests + [Download(s3Key, localPath)];
      }
      i := i + 1;
    }
    assert fileList[..i] == fileList;
    return requests, false;
  }

  /**
   * Every request comes from a routable file of the list, goes in the
   * requested direction, and is made for every such file; a direction other
   * than `push` or `pull` makes no request.
   */
  lemma {:induction false} TransfersFromFiles(c: Config, direction: string, files: seq<string>)
    ensures direction != "push" && direction != "pull" ==> Transfers(c, direction, files) == []
    ensures forall t :: t in Transfers(c, direction, files) ==>
      (direction == "push" && t.Upload? && exists f :: f in files && Route(c, f) == Some((t.local, t.key)))
      || (direction == "pull" && t.Download? && exists f :: f in files && Route(c, f) == Some((t.local, t.key)))
    ensures forall f :: f in files && Route(c, f).Some? ==>
      (direction == "push" ==> Upload(Route(c, f).value.0, Route(c, f).value.1) in Transfers(c, direction, files))
      && (direction == "pull" ==> Download(Route(c, f).value.1, Route(c, f).value.0) in Transfers(c, direction, files))
  {
    if files != [] {
      var front := files[..|files| - 1];
      var last := files[|files| - 1];
      assert files == front + [last];
      TransfersFromFiles(c, direction, front);
      forall f | f in files
        ensures f in front || f == last
      {
      }
    }
  }

  /** The number of requests is the number of routable files, for `push` and `pull` alike. */
  lemma {:induction false} TransfersCount(c: Config, files: seq<string>)
    ensures |Transfers(c, "push", files)| == |Transfers(c, "pull", files)|
    ensures |Transfers(c, "push", files)| <= |files|
  {
    if files != [] {
      TransfersCount(c, files[..|files| - 1]);
    }
  }
}
