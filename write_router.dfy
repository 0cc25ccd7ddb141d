/**
 * Where `edit_cheatsheet` writes: a sheet found in a writable layer is edited
 * in place; one found in a read-only layer is copied to the first writable
 * layer in list order (more global first) and the copy is edited; a sheet not
 * found is created in that same first writable layer. Reading prefers the most
 * local layer, writing the most global writable one.
 */
module WriteRouter {

  import opened Wrappers
  import opened PosixPath
  import opened FileSystem
  import opened Cheatpaths
  import opened Resolver

  /**
   * What the editor is opened on, and what happens first; or why nothing is
   * opened: no writable layer (the program exits), or a read-only winner
   * without a `name` key (the notice about it raises `KeyError`).
   */
  datatype Route =
    | EditInPlace(path: string)
    | CopyOnWrite(source: string, layer: nat, target: string)
    | CreateNew(layer: nat, target: string)
    | NoWritableLayer
    | UnnamedReadOnlyLayer

  /** Layer `k` is the first writable one. */
  predicate FirstWritableAt(paths: seq<Cheatpath>, k: nat) {
    k < |paths| && Writable(paths[k]) && forall j :: 0 <= j < k ==> !Writable(paths[j])
  }

  predicate NoneWritable(paths: seq<Cheatpath>) {
    forall j :: 0 <= j < |paths| ==> !Writable(paths[j])
  }

  /** The scan `for entry in paths` that stops at the first layer that is not read-only. */
  method FirstWritable(paths: seq<Cheatpath>) returns (k: Option<nat>)
    ensures k.None? <==> NoneWritable(paths)
    ensures k.Some? ==> FirstWritableAt(paths, k.value)
  {
    k := None;
    for i := 0 to |paths|
      invariant k.None?
      invariant forall j :: 0 <= j < i ==> !Writable(paths[j])
    {
      if Writable(paths[i]) {
        k := Some(i);
        break;
      }
    }
  }

  /** `new_full_path` with the found file's extension appended unless it already ends in it. */
  function PreserveExt(newPath: string, fullPath: string): string {
    var ext := SplitExt(fullPath).1;
    if ext != "" && !EndsWith(newPath, ext) then newPath + ext else newPath
  }

  /**
   * The copy keeps the found file's extension: the new path ends in it, and
   * differs from the joined path at most by that extension, added only when missing.
   */
  lemma PreserveExtKeepsExtension(newPath: string, fullPath: string)
    ensures var ext, r := SplitExt(fullPath).1, PreserveExt(newPath, fullPath);
      && EndsWith(r, ext)
      && (r == newPath <==> EndsWith(newPath, ext))
      && (r != newPath ==> r == newPath + ext)
  {
    var ext := SplitExt(fullPath).1;
    assert (newPath + ext)[|newPath + ext| - |ext|..] == ext;
    if ext == "" {
      assert newPath[|newPath|..] == "";
    } else {
      assert |newPath + ext| > |newPath|;
    }
  }

  /** Appending the extension once is enough: doing it again changes nothing. */
  lemma PreserveExtIdempotent(newPath: string, fullPath: string)
    ensures PreserveExt(PreserveExt(newPath, fullPath), fullPath) == PreserveExt(newPath, fullPath)
  {
    PreserveExtKeepsExtension(newPath, fullPath);
    PreserveExtKeepsExtension(PreserveExt(newPath, fullPath), fullPath);
  }

  /**
   * The target selection of `edit_cheatsheet(name, paths)`: edit the found
   * sheet when its layer is writable; otherwise copy it, or create it when
   * nothing was found, at `name` below the first writable layer (keeping the
   * found file's extension); report that there is no writable layer when none
   * is, and fail before any of that on a read-only winner without a name.
   */
  method EditTarget(fs: FileSystem, cwd: string, name: string, paths: seq<Cheatpath>) returns (route: Route)
    ensures var r := FindCheatsheet(fs, cwd, name, paths);
      && (r.Found? && Writable(r.entry) ==> route == EditInPlace(r.fullPath))
      && (r.Found? && !Writable(r.entry) && r.entry.name.None? ==> route == UnnamedReadOnlyLayer)
      && (r.Found? && !Writable(r.entry) && r.entry.name.Some? && !NoneWritable(paths) ==>
            && route.CopyOnWrite?
            && route.source == r.fullPath
            && FirstWritableAt(paths, route.layer)
            && route.target == PreserveExt(Join(paths[route.layer].path, name), r.fullPath))
      && (r.NotFound? && !NoneWritable(paths) ==>
            && route.CreateNew?
            && FirstWritableAt(paths, route.layer)
            && route.target == Join(paths[route.layer].path, name))
      && ((r.NotFound? || (!Writable(r.entry) && r.entry.name.Some?)) && NoneWritable(paths) ==> route == NoWritableLayer)
    ensures var r := FindCheatsheet(fs, cwd, name, paths);
      route.CopyOnWrite? <==> r.Found? && !Writable(r.entry) && r.entry.name.Some? && !NoneWritable(paths)
    ensures route.EditInPlace? || route.NoWritableLayer? || route.UnnamedReadOnlyLayer? ==> AfterEdit(fs, cwd, route) == fs
  {
    var found := FindCheatsheet(fs, cwd, name, paths);
    if found.Found? {
      if Writable(found.entry) {
        return EditInPlace(found.fullPath);
      }
      if found.entry.name.None? {
        return UnnamedReadOnlyLayer;
      }
      var target := FirstWritable(paths);
      if target.None? {
        return NoWritableLayer;
      }
      var newFullPath := Join(paths[target.value].path, name);
      var (_, ext) := SplitExt(found.fullPath);
      if ext != "" && !EndsWith(newFullPath, ext) {
        newFullPath := newFullPath + ext;
      }
      route := CopyOnWrite(found.fullPath, target.value, newFullPath);
    } else {
      var target := FirstWritable(paths);
      if target.None? {
        return NoWritableLayer;
      }
      route := CreateNew(target.value, Join(paths[target.value].path, name));
    }
  }

  /** `os.makedirs(os.path.dirname(target), exist_ok=True)`, run before a copy and before a new sheet's editor. */
  function ParentsMade(fs: FileSystem, cwd: string, target: string): FileSystem {
    MakeDirs(fs, cwd, SplitPath(target).0)
  }

  /**
   * The file system once the route is taken: a copy or a new sheet first gets
   * its parent directories, then the copy is made by `shutil.copy2`; editing
   * in place and the failures change nothing.
   */
  function AfterEdit(fs: FileSystem, cwd: string, route: Route): FileSystem {
    match route
    case CopyOnWrite(source, _, target) => Copy(ParentsMade(fs, cwd, target), cwd, source, target)
    case CreateNew(_, target) => ParentsMade(fs, cwd, target)
    case _ => fs
  }

  /**
   * Copy-on-write leaves the read-only original as it was and gives the copy
   * its contents; apart from the parent directories made before it, nothing
   * else changes.
   */
  lemma CopyOnWriteEffect(fs: FileSystem, cwd: string, route: Route)
    requires route.CopyOnWrite? && IsFile(fs, cwd, route.source)
    requires !IsDir(ParentsMade(fs, cwd, route.target), cwd, route.target)
    ensures var mid, after := ParentsMade(fs, cwd, route.target), AfterEdit(fs, cwd, route);
      && Lookup(after.entries, AbsComps(cwd, route.target)) == Lookup(fs.entries, AbsComps(cwd, route.source))
      && Lookup(after.entries, AbsComps(cwd, route.source)) == Lookup(fs.entries, AbsComps(cwd, route.source))
      && forall c :: c != AbsComps(cwd, route.target) ==> Lookup(after.entries, c) == Lookup(mid.entries, c)
  {
    var mid := ParentsMade(fs, cwd, route.target);
    MakeDirsKeeps(fs, cwd, SplitPath(route.target).0, AbsComps(cwd, route.source));
    CopyEffect(mid, cwd, route.source, route.target);
  }

  /**
   * Creating a new sheet makes its parent directories and nothing else: the
   * file system stays well formed, what existed keeps its kind, only
   * directories on the way to the parent are added, and the parent is a
   * directory unless a regular file lies on the way.
   */
  lemma CreateNewEffect(fs: FileSystem, cwd: string, route: Route)
    requires WellFormed(fs) && IsAbs(cwd) && route.CreateNew?
    ensures var after, parent := AfterEdit(fs, cwd, route), SplitPath(route.target).0;
      var dc := AbsComps(cwd, parent);
      && WellFormed(after)
      && (forall c :: Lookup(after.entries, c) == Lookup(fs.entries, c)
            || (Lookup(fs.entries, c).None? && Lookup(after.entries, c) == Some(Dir) && 0 < |c| <= |dc| && c == dc[..|c|]))
      && ((forall j :: 0 < j <= |dc| ==> Lookup(fs.entries, dc[..j]).None? || Lookup(fs.entries, dc[..j]) == Some(Dir)) ==>
            parent != "" ==> IsDir(after, cwd, parent))
  {
    MakeDirsEffect(fs, cwd, SplitPath(route.target).0);
  }

  /**
   * Writing and reading disagree on priority: the copy goes to the first
   * writable layer, which lies before the read-only winner exactly when some
   * writable layer does.
   */
  lemma CopyLayerVersusWinner(fs: FileSystem, cwd: string, name: string, paths: seq<Cheatpath>, k: nat)
    requires FindCheatsheet(fs, cwd, name, paths).Found?
    requires !Writable(FindCheatsheet(fs, cwd, name, paths).entry)
    requires FirstWritableAt(paths, k)
    ensures var l := FindCheatsheet(fs, cwd, name, paths).layer;
      && k != l
      && (k < l <==> exists j :: 0 <= j < l && Writable(paths[j]))
  {
    FindCheatsheetSpec(fs, cwd, name, paths);
  }

  /**
   * The lookup's answer depends only on the layers from the winner on: when
   * they answer after a change as they did before, so does the lookup. A copy
   * into an earlier layer therefore leaves the read-only sheet in force.
   */
  lemma LookupFramedByWinner(fs: FileSystem, after: FileSystem, cwd: string, name: string, paths: seq<Cheatpath>)
    requires FindCheatsheet(fs, cwd, name, paths).Found?
    requires var l := FindCheatsheet(fs, cwd, name, paths).layer;
      forall j :: l <= j < |paths| ==> MatchInLayer(after, cwd, paths[j], name) == MatchInLayer(fs, cwd, paths[j], name)
    ensures FindCheatsheet(after, cwd, name, paths) == FindCheatsheet(fs, cwd, name, paths)
  {
    var r := FindCheatsheet(fs, cwd, name, paths);
    FindCheatsheetSpec(fs, cwd, name, paths);
    FindByLastAnswer(c => MatchInLayer(after, cwd, c, name), paths, r.layer, r.fullPath);
  }

  /**
   * A copy into a later layer takes over: when that layer now answers and no
   * layer after it does, the lookup answers with it.
   */
  lemma LaterCopyTakesOver(after: FileSystem, cwd: string, name: string, paths: seq<Cheatpath>, k: nat, p: string)
    requires k < |paths| && MatchInLayer(after, cwd, paths[k], name) == Some(p)
    requires forall j :: k < j < |paths| ==> MatchInLayer(after, cwd, paths[j], name).None?
    ensures FindCheatsheet(after, cwd, name, paths) == Found(k, paths[k], p)
  {
    FindByLastAnswer(c => MatchInLayer(after, cwd, c, name), paths, k, p);
  }

  /** The last layer that answers is the one `FindBy` reports. */
  lemma FindByLastAnswer(answer: Cheatpath -> Option<string>, paths: seq<Cheatpath>, k: nat, p: string)
    requires k < |paths| && answer(paths[k]) == Some(p)
    requires forall j :: k < j < |paths| ==> answer(paths[j]).None?
    ensures FindBy(answer, paths) == Found(k, paths[k], p)
  {
    var r := FindBy(answer, paths);
    assert r.Found?;
    assert r.layer >= k;
  }
}
