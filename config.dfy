/**
 * Where the configuration file is and how its directories are read: `~/`
 * at the start of a directory stands for the home directory. The
 * environment, the operating system and the home directory are inputs.
 */
module ConfigStore {
  import opened Wrappers
  import opened Text
  import opened Model

  /** `os.Getenv`: an unset variable reads as the empty string. */
  function Getenv(env: map<string, string>, key: string): string
  {
    if key in env then env[key] else ""
  }

  /** The path separator of the operating system. */
  function Separator(goos: string): char
  {
    if goos == "windows" then '\\' else '/'
  }

  /** `filepath.Join` without the lexical clean-up: the non-empty parts, separated. */
  function Join(sep: char, parts: seq<string>): (r: string)
    ensures (forall i :: 0 <= i < |parts| ==> parts[i] == "") ==> r == ""
  {
    if parts == [] then ""
    else
      var front := Join(sep, parts[..|parts| - 1]);
      var last := parts[|parts| - 1];
      if last == "" then front
      else if front == "" then last
      else front + [sep] + last
  }

  /** Joining after a non-empty part ends in that part. */
  lemma JoinEndsWithLast(sep: char, parts: seq<string>)
    requires parts != [] && parts[|parts| - 1] != ""
    ensures HasSuffix(Join(sep, parts), parts[|parts| - 1])
  {
  }

  /** Joining a non-empty first part and one more starts with the first part. */
  lemma JoinStartsWithFirst(sep: char, first: string, rest: string)
    requires first != ""
    ensures first <= Join(sep, [first, rest])
  {
    assert [first, rest][..1] == [first];
    assert [first] [..0] == [];
  }

  /**
   * `GetConfigPath`: a non-empty `ZTL_CONFIG` wins; on Windows the file is
   * under `APPDATA`, or under the home directory's `AppData/Roaming` when
   * `APPDATA` is empty; elsewhere it is under the home directory's
   * `.config`. Without a home directory where one is needed, it fails.
   */
  function GetConfigPath(env: map<string, string>, goos: string, home: Option<string>): (r: Result<string>)
    ensures Getenv(env, "ZTL_CONFIG") != "" ==> r == Ok(Getenv(env, "ZTL_CONFIG"))
    ensures r.Err? <==> Getenv(env, "ZTL_CONFIG") == "" && home.None? && (goos != "windows" || Getenv(env, "APPDATA") == "")
  {
    var custom := Getenv(env, "ZTL_CONFIG");
    if custom != "" then Ok(custom)
    else if goos == "windows" then
      var appData := Getenv(env, "APPDATA");
      if appData != "" then Ok(Join(Separator(goos), [appData, "ztl", "config.yaml"]))
      else if home.None? then Err("failed to determine home directory")
      else Ok(Join(Separator(goos), [home.value, "AppData", "Roaming", "ztl", "config.yaml"]))
    else if home.None? then Err("failed to determine home directory")
    else Ok(Join(Separator(goos), [home.value, ".config", "ztl", "config.yaml"]))
  }

  /** Without `ZTL_CONFIG`, the file is always `config.yaml` in a directory `ztl`. */
  lemma ConfigPathIsZtlConfig(env: map<string, string>, goos: string, home: Option<string>)
    requires Getenv(env, "ZTL_CONFIG") == "" && GetConfigPath(env, goos, home).Ok?
    ensures HasSuffix(GetConfigPath(env, goos, home).value, "ztl" + [Separator(goos)] + "config.yaml")
  {
    var sep := Separator(goos);
    if goos == "windows" && Getenv(env, "APPDATA") != "" {
      JoinEndsWith(sep, [Getenv(env, "APPDATA")], "ztl", "config.yaml");
      assert [Getenv(env, "APPDATA")] + ["ztl", "config.yaml"] == [Getenv(env, "APPDATA"), "ztl", "config.yaml"];
    } else if goos == "windows" {
      JoinEndsWith(sep, [home.value, "AppData", "Roaming"], "ztl", "config.yaml");
      assert [home.value, "AppData", "Roaming"] + ["ztl", "config.yaml"] == [home.value, "AppData", "Roaming", "ztl", "config.yaml"];
    } else {
      JoinEndsWith(sep, [home.value, ".config"], "ztl", "config.yaml");
      assert [home.value, ".config"] + ["ztl", "config.yaml"] == [home.value, ".config", "ztl", "config.yaml"];
    }
  }

  /** Joining any parts followed by two non-empty ones ends in those two, separated. */
  lemma JoinEndsWith(sep: char, front: seq<string>, dir: string, file: string)
    requires dir != "" && file != ""
    ensures HasSuffix(Join(sep, front + [dir, file]), dir + [sep] + file)
  {
    JoinSnoc(sep, front, dir);
    JoinSnoc(sep, front + [dir], file);
    assert front + [dir] + [file] == front + [dir, file];
    var joined := Join(sep, front + [dir]);
    assert joined != "" && joined[|joined| - |dir|..] == dir;
    var j := joined + [sep] + file;
    var n := |dir| + 1 + |file|;
    assert j[|j| - n..] == joined[|joined| - |dir|..] + [sep] + file;
  }

  /** Joining one more non-empty part. */
  lemma JoinSnoc(sep: char, parts: seq<string>, last: string)
    requires last != ""
    ensures Join(sep, parts + [last]) == if Join(sep, parts) == "" then last else Join(sep, parts) + [sep] + last
  {
    assert (parts + [last])[..|parts|] == parts;
  }

  /**
   * `expandHomeDir`: a leading `~/` becomes the home directory joined with
   * the rest. Any other path, bare `~` included, is kept, and so is every
   * path when the home directory is unknown.
   */
  function ExpandHomeDir(path: string, home: Option<string>, sep: char): (r: string)
    ensures !("~/" <= path) || home.None? ==> r == path
    ensures "~/" <= path && home.Some? ==> r == Join(sep, [home.value, path[2..]])
  {
    if "~/" <= path then
      if home.None? then path else Join(sep, [home.value, path[2..]])
    else path
  }

  /** Expanding twice expands no more than once, for a home directory that does not itself start with `~`. */
  lemma ExpandHomeDirIdempotent(path: string, home: Option<string>, sep: char)
    requires home.Some? ==> home.value != "" && home.value[0] != '~'
    ensures ExpandHomeDir(ExpandHomeDir(path, home, sep), home, sep) == ExpandHomeDir(path, home, sep)
  {
    if "~/" <= path && home.Some? {
      JoinStartsWithFirst(sep, home.value, path[2..]);
      var r := ExpandHomeDir(path, home, sep);
      assert r[0] == home.value[0];
    }
  }

  /** The five directories expanded; the editor, the numbers and the sync settings are kept. */
  function ExpandDirectories(c: Config, home: Option<string>, sep: char): (r: Config)
    ensures |Directories(r)| == |Directories(c)|
    ensures forall i :: 0 <= i < |Directories(c)| ==> Directories(r)[i] == ExpandHomeDir(Directories(c)[i], home, sep)
    ensures r.editor == c.editor && r.sync == c.sync
    ensures r.backup.(backupDir := c.backup.backupDir) == c.backup
    ensures r.trash.(trashDir := c.trash.trashDir) == c.trash
  {
    c.(zettelDir := ExpandHomeDir(c.zettelDir, home, sep),
       jsonDataDir := ExpandHomeDir(c.jsonDataDir, home, sep),
       archiveDir := ExpandHomeDir(c.archiveDir, home, sep),
       backup := c.backup.(backupDir := ExpandHomeDir(c.backup.backupDir, home, sep)),
       trash := c.trash.(trashDir := ExpandHomeDir(c.trash.trashDir, home, sep)))
  }

  /**
   * `LoadConfig`: find the file, read it (`files` maps a readable path to its
   * decoded content, `None` when the YAML does not decode), then expand the
   * directories.
   */
  function LoadConfig(env: map<string, string>, goos: string, home: Option<string>, files: map<string, Option<Config>>)
    : (r: Result<Config>)
    ensures r.Ok? ==> (GetConfigPath(env, goos, home).Ok?
      && var path := GetConfigPath(env, goos, home).value;
      path in files && files[path].Some?
      && r.value == ExpandDirectories(files[path].value, home, Separator(goos)))
    ensures r.Err? ==> (GetConfigPath(env, goos, home).Err?
      || GetConfigPath(env, goos, home).value !in files
      || files[GetConfigPath(env, goos, home).value].None?)
  {
    match GetConfigPath(env, goos, home)
    case Err(e) => Err(e)
    case Ok(path) =>
      if path !in files then Err("failed to read config file")
      else match files[path]
        case None => Err("failed to parse YAML")
        case Some(c) => Ok(ExpandDirectories(c, home, Separator(goos)))
  }

  /** With a home directory, every directory of the default configuration lands inside it. */
  lemma DefaultConfigInHome(home: string, goos: string)
    requires home != ""
    ensures var r := ExpandDirectories(DefaultConfig(), Some(home), Separator(goos));
      forall i :: 0 <= i < |Directories(r)| ==> home + [Separator(goos)] <= Directories(r)[i]
  {
    var sep := Separator(goos);
    var d := DefaultConfig();
    forall i | 0 <= i < |Directories(d)|
      ensures home + [sep] <= ExpandHomeDir(Directories(d)[i], Some(home), sep)
    {
      var p := Directories(d)[i];
      assert "~/" <= p;
      assert p[2..] != "" by {
        assert |p| > 2;
      }
      assert Join(sep, [home, p[2..]]) == home + [sep] + p[2..] by {
        assert [home, p[2..]][..1] == [home];
        assert [home][..0] == [];
      }
    }
    assert forall i :: 0 <= i < |Directories(d)| ==>
      Directories(ExpandDirectories(d, Some(home), sep))[i] == ExpandHomeDir(Directories(d)[i], Some(home), sep);
  }
}
