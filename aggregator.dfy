/**
 * The listing view, `list_cheatsheets`: the set of sheet names every
 * (optionally one named) layer offers, sorted. Unlike the lookup, it visits
 * every layer and nothing shadows; what it lists, the lookup finds.
 */
module Aggregator {

  import opened Wrappers
  import opened PosixPath
  import opened Text
  import opened FileSystem
  import opened Cheatpaths
  import opened Resolver

  /** A sheet's name as both views show it: its path relative to the layer root, last extension removed. */
  function SheetName(cwd: string, base: string, e: Entry): string {
    SplitExt(RelPath(cwd, PathOf(e.comps), base)).0
  }

  /** Whether a layer takes part in the listing: it passes the name filter (an empty filter is none) and is a directory. */
  predicate Contributes(fs: FileSystem, cwd: string, c: Cheatpath, filter: Option<string>) {
    (filter.None? || filter == Some("") || c.name == filter) && IsDir(fs, cwd, c.path)
  }

  /** The labels of the non-hidden entries among `files`. */
  function LabelsOf(nameOf: Entry -> string, files: seq<Entry>): set<string>
    decreases |files|
  {
    if |files| == 0 then {}
    else
      var last := files[|files| - 1];
      LabelsOf(nameOf, files[..|files| - 1]) + (if Hidden(last) then {} else {nameOf(last)})
  }

  /** The names the walked files `files` of the layer rooted at `base` contribute; hidden files contribute none. */
  function FileNames(cwd: string, base: string, files: seq<Entry>): set<string> {
    LabelsOf(e => SheetName(cwd, base, e), files)
  }

  /** The union of what each layer that takes part offers. */
  function UnionOf(takesPart: Cheatpath -> bool, offers: Cheatpath -> set<string>, paths: seq<Cheatpath>): set<string>
    decreases |paths|
  {
    if |paths| == 0 then {}
    else
      var c := paths[|paths| - 1];
      UnionOf(takesPart, offers, paths[..|paths| - 1]) + (if takesPart(c) then offers(c) else {})
  }

  /** The names the layers `paths` contribute. */
  function ListedNames(fs: FileSystem, cwd: string, paths: seq<Cheatpath>, filter: Option<string>): set<string> {
    UnionOf(c => Contributes(fs, cwd, c, filter), (c: Cheatpath) => FileNames(cwd, c.path, Walk(fs, cwd, c.path)), paths)
  }

  /**
   * `list_cheatsheets(paths, filter)`: the sheet names of all contributing
   * layers, each once, in ascending order.
   */
  method ListCheatsheets(fs: FileSystem, cwd: string, paths: seq<Cheatpath>, filter: Option<string>)
    returns (sheets: seq<string>)
    ensures StrictlySorted(sheets)
    ensures forall x :: x in sheets <==> x in ListedNames(fs, cwd, paths, filter)
  {
    var names: set<string> := {};
    for i := 0 to |paths|
      invariant names == ListedNames(fs, cwd, paths[..i], filter)
    {
      var entry := paths[i];
      ListedNamesSnoc(fs, cwd, paths, filter, i);
      if filter.Some? && filter.value != "" && entry.name != filter {
        continue;
      }
      var baseDir := entry.path;
      if !IsDir(fs, cwd, baseDir) {
        continue;
      }
      var layerNames := WalkNames(cwd, baseDir, Walk(fs, cwd, baseDir));
      names := names + layerNames;
    }
    assert paths[..|paths|] == paths;
    sheets := Sorted(names);
  }

  /** The inner loop of `list_cheatsheets`: the names of the walked files of one layer. */
  method WalkNames(cwd: string, baseDir: string, files: seq<Entry>) returns (names: set<string>)
    ensures names == FileNames(cwd, baseDir, files)
  {
    names := {};
    for k := 0 to |files|
      invariant names == FileNames(cwd, baseDir, files[..k])
    {
      var file := files[k];
      FileNamesSnoc(cwd, baseDir, files, k);
      if Hidden(file) {
        continue;
      }
      var relPath := RelPath(cwd, PathOf(file.comps), baseDir);
      var (base, _) := SplitExt(relPath);
      names := names + {base};
    }
    assert files[..|files|] == files;
  }

  /** One more layer adds what it contributes. */
  lemma ListedNamesSnoc(fs: FileSystem, cwd: string, paths: seq<Cheatpath>, filter: Option<string>, i: nat)
    requires i < |paths|
    ensures ListedNames(fs, cwd, paths[..i + 1], filter) == ListedNames(fs, cwd, paths[..i], filter)
      + (if Contributes(fs, cwd, paths[i], filter) then FileNames(cwd, paths[i].path, Walk(fs, cwd, paths[i].path)) else {})
  {
    assert paths[..i + 1][..i] == paths[..i];
  }

  /** One more walked file adds its name unless it is hidden. */
  lemma FileNamesSnoc(cwd: string, base: string, files: seq<Entry>, k: nat)
    requires k < |files|
    ensures FileNames(cwd, base, files[..k + 1]) == FileNames(cwd, base, files[..k])
      + (if Hidden(files[k]) then {} else {SheetName(cwd, base, files[k])})
  {
    assert files[..k + 1][..k] == files[..k];
  }

  /** A non-hidden entry contributes its name, and nothing else contributes. */
  lemma {:induction false} LabelsOfMembers(nameOf: Entry -> string, files: seq<Entry>)
    ensures forall x :: x in LabelsOf(nameOf, files) <==>
      exists e :: e in files && !Hidden(e) && x == nameOf(e)
    decreases |files|
  {
    if |files| > 0 {
      var init := files[..|files| - 1];
      LabelsOfMembers(nameOf, init);
      assert files == init + [files[|files| - 1]];
    }
  }

  /** The union holds exactly what some layer that takes part offers. */
  lemma {:induction false} UnionOfMembers(takesPart: Cheatpath -> bool, offers: Cheatpath -> set<string>, paths: seq<Cheatpath>)
    ensures forall x :: x in UnionOf(takesPart, offers, paths) <==>
      exists i :: 0 <= i < |paths| && takesPart(paths[i]) && x in offers(paths[i])
    decreases |paths|
  {
    if |paths| > 0 {
      var init := paths[..|paths| - 1];
      UnionOfMembers(takesPart, offers, init);
      assert forall i :: 0 <= i < |init| ==> init[i] == paths[i];
    }
  }

  /**
   * A name is listed exactly when some contributing layer has a non-hidden
   * regular file below its root whose sheet name it is.
   */
  lemma ListedNamesMembers(fs: FileSystem, cwd: string, paths: seq<Cheatpath>, filter: Option<string>, x: string)
    ensures x in ListedNames(fs, cwd, paths, filter) <==>
      exists i :: 0 <= i < |paths| && Contributes(fs, cwd, paths[i], filter)
        && exists e :: e in Walk(fs, cwd, paths[i].path) && !Hidden(e) && x == SheetName(cwd, paths[i].path, e)
  {
    var offers := (c: Cheatpath) => FileNames(cwd, c.path, Walk(fs, cwd, c.path));
    UnionOfMembers(c => Contributes(fs, cwd, c, filter), offers, paths);
    forall i | 0 <= i < |paths|
      ensures x in offers(paths[i]) <==>
        exists e :: e in Walk(fs, cwd, paths[i].path) && !Hidden(e) && x == SheetName(cwd, paths[i].path, e)
    {
      LabelsOfMembers(e => SheetName(cwd, paths[i].path, e), Walk(fs, cwd, paths[i].path));
    }
  }

  /** A walked file of a layer rooted at proper components `cs` is a regular file below `cs`. */
  lemma WalkedEntry(fs: FileSystem, cwd: string, cs: seq<string>, e: Entry)
    requires WellFormed(fs) && AllProper(cs)
    requires e in Walk(fs, cwd, PathOf(cs))
    ensures e in fs.entries && e.kind.File? && Below(e, cs) && AllProper(e.comps)
  {
    AbsPathOfPathOf(cwd, cs);
    WalkInMembers(fs.entries, cs);
    var k :| 0 <= k < |fs.entries| && fs.entries[k] == e;
  }

  /**
   * The sheet name of a file below a layer rooted at a normalised absolute
   * path is its relative components with the last extension removed.
   */
  lemma SheetNameBelow(cwd: string, cs: seq<string>, e: Entry)
    requires IsAbs(cwd) && AllProper(cs) && AllProper(e.comps) && Below(e, cs)
    ensures SheetName(cwd, PathOf(cs), e) == SplitExt(JoinSeq(e.comps[|cs|..])).0
  {
    AbsPathOfPathOf(cwd, cs);
    RelPathBelow(cwd, PathOf(cs), e.comps);
  }

  /**
   * The sheet name of the relative components `below` of a visible file, as
   * components: the same, the last with its extension `ext` removed.
   */
  lemma StemComps(below: seq<string>) returns (rel: seq<string>, ext: string)
    requires |below| > 0 && AllProper(below) && below[|below| - 1][0] != '.'
    ensures SplitExt(JoinSeq(below)).0 == JoinSeq(rel) && AllProper(rel)
    ensures var n := |below|;
      |rel| == n && rel[..n - 1] == below[..n - 1] && below[n - 1] == rel[n - 1] + ext && (ext == "" || ext[0] == '.')
  {
    var n := |below|;
    var l := below[n - 1];
    StemOfVisible(l);
    var stem;
    stem, ext := SplitExt(l).0, SplitExt(l).1;
    SplitExtJoinSeq(below);
    rel := below[..n - 1] + [stem];
    assert rel[..n - 1] == below[..n - 1];
  }

  /**
   * The entry `e` is spelled as the non-empty components `tc` with the
   * extension `ext`, empty or starting with a dot, added to the last one.
   */
  predicate NamedWithExt(e: Entry, tc: seq<string>, ext: string) {
    var k := |tc| - 1;
    && |tc| > 0 && |e.comps| == |tc| && e.comps[..k] == tc[..k] && e.comps[k] == tc[k] + ext
    && (ext == "" || ext[0] == '.')
  }

  /**
   * A file named by `tc` plus nothing, or plus an extension, makes the path of
   * `tc` an existing file or gives the glob for it a match.
   */
  lemma FileOrGlobMatch(fs: FileSystem, cwd: string, e: Entry, tc: seq<string>, ext: string)
    requires WellFormed(fs) && e in fs.entries && e.kind.File? && |tc| > 0 && AllProper(tc)
    requires NamedWithExt(e, tc, ext)
    ensures IsFile(fs, cwd, PathOf(tc)) || |Glob(fs, cwd, PathOf(tc))| > 0
  {
    var k := |tc| - 1;
    AbsPathOfPathOf(cwd, tc);
    if ext == "" {
      assert e.comps[k] == tc[k];
      assert e.comps == e.comps[..k] + [e.comps[k]];
      assert tc == tc[..k] + [tc[k]];
      assert e.comps == tc;
      LookupEntry(fs, e);
    } else {
      GlobMatchOfExt(fs, cwd, e, tc, ext);
    }
  }

  /** A file named `tc` with an extension is a glob match for `tc`'s path. */
  lemma GlobMatchOfExt(fs: FileSystem, cwd: string, e: Entry, tc: seq<string>, ext: string)
    requires WellFormed(fs) && e in fs.entries && |tc| > 0 && AllProper(tc)
    requires NamedWithExt(e, tc, ext) && ext != ""
    ensures |Glob(fs, cwd, PathOf(tc))| > 0
  {
    var k := |tc| - 1;
    var dc := tc[..k];
    assert AllProper(dc);
    assert SplitPath(PathOf(tc)) == (PathOf(dc), tc[k]) by {
      SplitPathOf(tc);
    }
    assert AbsComps(cwd, GlobDir(PathOf(dc))) == dc by {
      AbsPathOfPathOf(cwd, dc);
    }
    assert GlobHit(e, dc, tc[k]) by {
      StartsWithDot(tc[k], ext);
    }
    GlobNonEmptyByEntries(fs, cwd, PathOf(tc));
  }

  /** A name followed by an extension starts with the name and a dot. */
  lemma StartsWithDot(x: string, ext: string)
    requires ext != "" && ext[0] == '.'
    ensures StartsWith(x + ext, x + ".")
  {
    assert (x + ext)[..|x| + 1] == x + ".";
  }

  /**
   * What the listing shows, the lookup finds: the sheet name of a visible
   * file in a layer rooted at a normalised absolute path makes that layer
   * answer, with the file itself or another match.
   */
  lemma ListedNameFoundInLayer(fs: FileSystem, cwd: string, c: Cheatpath, cs: seq<string>, e: Entry)
    requires WellFormed(fs) && IsAbs(cwd) && AllProper(cs) && c.path == PathOf(cs)
    requires e in Walk(fs, cwd, c.path) && !Hidden(e)
    ensures MatchInLayer(fs, cwd, c, SheetName(cwd, c.path, e)).Some?
  {
    WalkedEntry(fs, cwd, cs, e);
    var rel, ext := BelowComps(cs, e);
    SheetNameBelow(cwd, cs, e);
    RelAnswers(fs, cwd, c, cs, e, rel, ext);
  }

  /** The components of a visible file below `cs`, split into the sheet name and its extension. */
  lemma BelowComps(cs: seq<string>, e: Entry) returns (rel: seq<string>, ext: string)
    requires AllProper(e.comps) && Below(e, cs) && !Hidden(e)
    ensures SplitExt(JoinSeq(e.comps[|cs|..])).0 == JoinSeq(rel)
    ensures |rel| > 0 && AllProper(rel)
    ensures NamedWithExt(e, cs + rel, ext)
  {
    var below := e.comps[|cs|..];
    assert e.comps == cs + below;
    assert AllProper(below) by {
      forall k | 0 <= k < |below| ensures below[k] == e.comps[|cs| + k] {}
    }
    rel, ext := StemComps(below);
    var tc := cs + rel;
    assert tc[..|tc| - 1] == cs + rel[..|rel| - 1];
  }

  /**
   * A regular file spelled as the layer root `cs`, the relative components
   * `rel` and an extension `ext` makes the layer answer for the name `rel`.
   */
  lemma RelAnswers(fs: FileSystem, cwd: string, c: Cheatpath, cs: seq<string>, e: Entry, rel: seq<string>, ext: string)
    requires WellFormed(fs) && AllProper(cs) && c.path == PathOf(cs)
    requires e in fs.entries && e.kind.File? && |rel| > 0 && AllProper(rel)
    requires NamedWithExt(e, cs + rel, ext)
    ensures MatchInLayer(fs, cwd, c, JoinSeq(rel)).Some?
  {
    var name := JoinSeq(rel);
    ProperNameInside(cwd, c, cs, rel);
    JoinPathOf(cs, rel);
    assert AllProper(cs + rel);
    FileOrGlobMatch(fs, cwd, e, cs + rel, ext);
    LayerAnswers(fs, cwd, c, name);
  }

  /** The layer's path is absolute, normalised and names a directory by proper components. */
  ghost predicate NormalRoot(c: Cheatpath) {
    exists cs :: AllProper(cs) && c.path == PathOf(cs)
  }

  /**
   * Every name `list_cheatsheets` prints, `find_cheatsheet` resolves, given
   * layers rooted at normalised absolute paths (the name filter only narrows
   * what is printed).
   */
  lemma ListedIsFound(fs: FileSystem, cwd: string, paths: seq<Cheatpath>, filter: Option<string>, x: string)
    requires WellFormed(fs) && IsAbs(cwd)
    requires forall i :: 0 <= i < |paths| ==> NormalRoot(paths[i])
    requires x in ListedNames(fs, cwd, paths, filter)
    ensures FindCheatsheet(fs, cwd, x, paths).Found?
  {
    ListedNamesMembers(fs, cwd, paths, filter, x);
    var i :| 0 <= i < |paths| && Contributes(fs, cwd, paths[i], filter)
      && exists e :: e in Walk(fs, cwd, paths[i].path) && !Hidden(e) && x == SheetName(cwd, paths[i].path, e);
    var e :| e in Walk(fs, cwd, paths[i].path) && !Hidden(e) && x == SheetName(cwd, paths[i].path, e);
    assert NormalRoot(paths[i]);
    var cs :| AllProper(cs) && paths[i].path == PathOf(cs);
    ListedNameFoundInLayer(fs, cwd, paths[i], cs, e);
    FindCheatsheetSpec(fs, cwd, x, paths);
  }
}
