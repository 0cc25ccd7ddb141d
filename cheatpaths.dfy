/**
 * The layers ("cheatpaths"): the configured directories in configured order,
 * most global first, followed by the working directory's `.cheat` directory
 * when there is one.
 */
module Cheatpaths {

  import opened Wrappers
  import opened PosixPath
  import opened FileSystem

  /**
   * One `cheatpaths` record of the configuration, and equally one layer built
   * from it. Every key but `path` may be missing.
   */
  datatype Cheatpath = Cheatpath(name: Option<string>, path: string, readonly: Option<bool>, tags: Option<seq<string>>)

  /** The parsed configuration file, of which only the `cheatpaths` key matters here. */
  datatype Config = Config(cheatpaths: Option<seq<Cheatpath>>)

  /** `not entry.get('readonly', False)`. */
  predicate Writable(c: Cheatpath) {
    !c.readonly.GetOr(false)
  }

  function Configured(config: Config): seq<Cheatpath> {
    config.cheatpaths.GetOr([])
  }

  /** The configured record with its `path` expanded. */
  function Expanded(c: Cheatpath, home: string, userHomes: map<string, string>): Cheatpath {
    c.(path := ExpandUser(c.path, home, userHomes))
  }

  function LocalCheatDir(cwd: string): string {
    Join(cwd, ".cheat")
  }

  /** The synthetic writable layer for `<cwd>/.cheat`. */
  function LocalLayer(cwd: string): Cheatpath {
    Cheatpath(Some("local"), LocalCheatDir(cwd), Some(false), Some(["local"]))
  }

  /**
   * `get_cheatpaths`: every configured record in order with its path expanded,
   * then one local layer, last, exactly when `<cwd>/.cheat` is a directory.
   */
  method GetCheatpaths(config: Config, fs: FileSystem, cwd: string, home: string, userHomes: map<string, string>)
    returns (paths: seq<Cheatpath>)
    ensures |paths| == |Configured(config)| + (if IsDir(fs, cwd, LocalCheatDir(cwd)) then 1 else 0)
    ensures forall i :: 0 <= i < |Configured(config)| ==>
      paths[i] == Expanded(Configured(config)[i], home, userHomes)
    ensures IsDir(fs, cwd, LocalCheatDir(cwd)) ==> paths[|paths| - 1] == LocalLayer(cwd)
  {
    paths := [];
    if config.cheatpaths.Some? {
      var cps := config.cheatpaths.value;
      for i := 0 to |cps|
        invariant |paths| == i
        invariant forall j :: 0 <= j < i ==> paths[j] == Expanded(cps[j], home, userHomes)
      {
        var expandedPath := ExpandUser(cps[i].path, home, userHomes);
        var entry := cps[i].(path := expandedPath);
        paths := paths + [entry];
      }
    }
    var localCheat := Join(cwd, ".cheat");
    if IsDir(fs, cwd, localCheat) {
      paths := paths + [Cheatpath(Some("local"), localCheat, Some(false), Some(["local"]))];
    }
  }
}
