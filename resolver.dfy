/**
 * Name resolution (`find_cheatsheet`): the layers are scanned most local
 * first, a layer whose candidate path escapes its root by the string-prefix
 * test is skipped, and within a layer an exact file wins over a
 * `name.*` glob match.
 */
module Resolver {

  import opened Wrappers
  import opened PosixPath
  import opened FileSystem
  import opened Cheatpaths

  /** The outcome of a lookup: the winning layer, its record and the file found, or nothing. */
  datatype Resolved = Found(layer: nat, entry: Cheatpath, fullPath: string) | NotFound

  /** `os.path.join(base_dir, cheatname)`. */
  function Candidate(c: Cheatpath, name: string): string {
    Join(c.path, name)
  }

  /** The escape test: `abspath(candidate)` starts with `abspath(base_dir)`, as plain strings. */
  predicate InsideRoot(cwd: string, c: Cheatpath, name: string) {
    StartsWith(AbsPath(cwd, Candidate(c, name)), AbsPath(cwd, c.path))
  }

  /** What one layer answers for `name`: the exact file, else the first glob match, else nothing. */
  function MatchInLayer(fs: FileSystem, cwd: string, c: Cheatpath, name: string): Option<string> {
    var target := Join(c.path, name);
    if !StartsWith(AbsPath(cwd, target), AbsPath(cwd, c.path)) then None
    else if IsFile(fs, cwd, target) then Some(target)
    else
      var matches := Glob(fs, cwd, target);
      if |matches| > 0 then Some(matches[0]) else None
  }

  /**
   * The loop over `reversed(paths)`, given what each layer answers: the last
   * layer in list order that answers, with its answer, or `NotFound` when none does.
   */
  function FindBy(answer: Cheatpath -> Option<string>, paths: seq<Cheatpath>): (r: Resolved)
    ensures r.Found? ==>
      && r.layer < |paths|
      && r.entry == paths[r.layer]
      && answer(paths[r.layer]) == Some(r.fullPath)
      && forall j :: r.layer < j < |paths| ==> answer(paths[j]).None?
    ensures r.NotFound? <==> forall j :: 0 <= j < |paths| ==> answer(paths[j]).None?
    decreases |paths|
  {
    if |paths| == 0 then NotFound
    else
      var last := |paths| - 1;
      match answer(paths[last])
      case Some(p) => Found(last, paths[last], p)
      case None =>
        assert forall j :: 0 <= j < last ==> paths[..last][j] == paths[j];
        FindBy(answer, paths[..last])
  }

  /** `find_cheatsheet(name, paths)`. */
  function FindCheatsheet(fs: FileSystem, cwd: string, name: string, paths: seq<Cheatpath>): Resolved {
    FindBy(c => MatchInLayer(fs, cwd, c, name), paths)
  }

  /**
   * `find_cheatsheet` scans most local first: it answers with the last layer,
   * in list order, that has a match, and with that match; it answers `NotFound`
   * exactly when no layer has one.
   */
  lemma FindCheatsheetSpec(fs: FileSystem, cwd: string, name: string, paths: seq<Cheatpath>)
    ensures var r := FindCheatsheet(fs, cwd, name, paths);
      && (r.Found? ==>
        && r.layer < |paths|
        && r.entry == paths[r.layer]
        && MatchInLayer(fs, cwd, paths[r.layer], name) == Some(r.fullPath)
        && forall j :: r.layer < j < |paths| ==> MatchInLayer(fs, cwd, paths[j], name).None?)
      && (r.NotFound? <==> forall j :: 0 <= j < |paths| ==> MatchInLayer(fs, cwd, paths[j], name).None?)
  {
  }

  /**
   * What a lookup returns is safe and well chosen: the candidate passed the
   * prefix test, the result names an existing entry, and it is the exact file,
   * or, only when there is no exact file, a glob match spelled as the
   * candidate's directory part joined with its last part, a dot and a
   * slash-free rest.
   */
  lemma FoundIsExactOrGlob(fs: FileSystem, cwd: string, name: string, paths: seq<Cheatpath>)
    requires WellFormed(fs)
    ensures var r := FindCheatsheet(fs, cwd, name, paths);
      r.Found? ==>
        var target := Candidate(r.entry, name);
        && InsideRoot(cwd, r.entry, name)
        && Lookup(fs.entries, AbsComps(cwd, r.fullPath)).Some?
        && (IsFile(fs, cwd, target) ==> r.fullPath == target)
        && (!IsFile(fs, cwd, target) ==>
              && r.fullPath in Glob(fs, cwd, target)
              && exists s :: r.fullPath == Join(SplitPath(target).0, SplitPath(target).1 + "." + s) && '/' !in s)
  {
    var r := FindCheatsheet(fs, cwd, name, paths);
    FindCheatsheetSpec(fs, cwd, name, paths);
    if r.Found? && !IsFile(fs, cwd, Candidate(r.entry, name)) {
      GlobFound(fs, cwd, Candidate(r.entry, name), r.fullPath);
    }
  }

  /** `(None, None)` comes back exactly when every layer fails the prefix test or has neither an exact file nor a glob match. */
  lemma NotFoundExactly(fs: FileSystem, cwd: string, name: string, paths: seq<Cheatpath>)
    ensures FindCheatsheet(fs, cwd, name, paths).NotFound? <==>
      forall j :: 0 <= j < |paths| ==>
        !InsideRoot(cwd, paths[j], name)
        || (!IsFile(fs, cwd, Candidate(paths[j], name)) && |Glob(fs, cwd, Candidate(paths[j], name))| == 0)
  {
    FindCheatsheetSpec(fs, cwd, name, paths);
    forall j | 0 <= j < |paths|
      ensures MatchInLayer(fs, cwd, paths[j], name).None? <==>
        !InsideRoot(cwd, paths[j], name)
        || (!IsFile(fs, cwd, Candidate(paths[j], name)) && |Glob(fs, cwd, Candidate(paths[j], name))| == 0)
    {
    }
  }

  /** `MatchInLayer`'s cases as one equivalence, for proofs that need both directions at once. */
  lemma LayerAnswers(fs: FileSystem, cwd: string, c: Cheatpath, name: string)
    ensures MatchInLayer(fs, cwd, c, name).Some? <==>
      && InsideRoot(cwd, c, name)
      && (IsFile(fs, cwd, Candidate(c, name)) || |Glob(fs, cwd, Candidate(c, name))| > 0)
  {
  }

  /**
   * In a well-formed file system a layer answers exactly when the candidate
   * passes the prefix test and either a regular file entry has the
   * candidate's components, or an entry lies directly in the directory the
   * glob lists and is named by the candidate's last part, a dot and anything.
   */
  lemma LayerAnswersByEntries(fs: FileSystem, cwd: string, c: Cheatpath, name: string)
    requires WellFormed(fs)
    ensures var t := Candidate(c, name);
      var (head, stem) := SplitPath(t);
      MatchInLayer(fs, cwd, c, name).Some? <==>
        && InsideRoot(cwd, c, name)
        && ((t != "" && exists e :: e in fs.entries && e.comps == AbsComps(cwd, t) && e.kind.File?)
            || exists e :: e in fs.entries && GlobHit(e, AbsComps(cwd, GlobDir(head)), stem))
  {
    var t := Candidate(c, name);
    LayerAnswers(fs, cwd, c, name);
    IsFileByEntries(fs, cwd, t);
    GlobNonEmptyByEntries(fs, cwd, t);
  }

  /** A relative name made of proper components never fails the prefix test and names a path below the root. */
  lemma ProperNameInside(cwd: string, c: Cheatpath, cs: seq<string>, xs: seq<string>)
    requires c.path == PathOf(cs) && AllProper(cs) && AllProper(xs) && |xs| > 0
    ensures InsideRoot(cwd, c, JoinSeq(xs))
    ensures AbsComps(cwd, Candidate(c, JoinSeq(xs))) == cs + xs
  {
    JoinPathOf(cs, xs);
    assert AllProper(cs + xs);
    AbsPathOfPathOf(cwd, cs);
    AbsPathOfPathOf(cwd, cs + xs);
    PathOfPrefix(cs, xs);
  }

  /**
   * The prefix test compares strings, not components: `../x` beside a root
   * directory named `g` passes it exactly when `x` starts with `g`, so a
   * sibling such as `gx` is reachable although it lies outside the root.
   */
  lemma SiblingPassesPrefixTest(cwd: string, c: Cheatpath, cs: seq<string>, x: string)
    requires c.path == PathOf(cs) && AllProper(cs) && |cs| > 0 && ProperComp(x)
    ensures InsideRoot(cwd, c, ".." + "/" + x) <==> StartsWith(x, cs[|cs| - 1])
  {
    var q := DirPrefix(cs[..|cs| - 1]);
    SiblingCandidate(cwd, c, cs, x);
    RootSpelling(cwd, c, cs);
    StartsWithCommon(q, x, cs[|cs| - 1]);
  }

  /** The candidate `../x` of a layer rooted at `cs` normalises to the sibling `x`. */
  lemma SiblingCandidate(cwd: string, c: Cheatpath, cs: seq<string>, x: string)
    requires c.path == PathOf(cs) && AllProper(cs) && |cs| > 0 && ProperComp(x)
    ensures AbsPath(cwd, Candidate(c, ".." + "/" + x)) == DirPrefix(cs[..|cs| - 1]) + x
  {
    AbsPathSibling(cwd, cs, x);
    PathOfSnoc(cs[..|cs| - 1], x);
  }

  /** The layer root `cs` normalises to itself: its parent's prefix, then its last component. */
  lemma RootSpelling(cwd: string, c: Cheatpath, cs: seq<string>)
    requires c.path == PathOf(cs) && AllProper(cs) && |cs| > 0
    ensures AbsPath(cwd, c.path) == DirPrefix(cs[..|cs| - 1]) + cs[|cs| - 1]
  {
    AbsPathOfPathOf(cwd, cs);
    assert cs == cs[..|cs| - 1] + [cs[|cs| - 1]];
    PathOfSnoc(cs[..|cs| - 1], cs[|cs| - 1]);
  }

  /**
   * More local layers shadow less local ones: when the layers `upper` answer,
   * putting any `lower` layers before them does not change the answer; when
   * they do not, the answer is that of `lower`.
   */
  lemma Shadowing(fs: FileSystem, cwd: string, name: string, lower: seq<Cheatpath>, upper: seq<Cheatpath>)
    ensures var r := FindCheatsheet(fs, cwd, name, upper);
      FindCheatsheet(fs, cwd, name, lower + upper) ==
        match r
        case Found(i, e, p) => Found(|lower| + i, e, p)
        case NotFound => FindCheatsheet(fs, cwd, name, lower)
  {
    ShadowingBy(c => MatchInLayer(fs, cwd, c, name), lower, upper);
  }

  lemma {:induction false} ShadowingBy(answer: Cheatpath -> Option<string>, lower: seq<Cheatpath>, upper: seq<Cheatpath>)
    ensures var r := FindBy(answer, upper);
      FindBy(answer, lower + upper) ==
        match r
        case Found(i, e, p) => Found(|lower| + i, e, p)
        case NotFound => FindBy(answer, lower)
    decreases |upper|
  {
    var all := lower + upper;
    if |upper| == 0 {
      assert all == lower;
    } else {
      var last := |upper| - 1;
      assert all[|all| - 1] == upper[last];
      match answer(upper[last])
      case Some(p) =>
        assert FindBy(answer, upper) == Found(last, upper[last], p);
        assert FindBy(answer, all) == Found(|all| - 1, upper[last], p);
      case None =>
        assert all[..|all| - 1] == lower + upper[..last];
        assert FindBy(answer, upper) == FindBy(answer, upper[..last]);
        assert FindBy(answer, all) == FindBy(answer, lower + upper[..last]);
        ShadowingBy(answer, lower, upper[..last]);
    }
  }
}
