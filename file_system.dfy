/**
 * The file system as the lookup sees it: a finite list of entries, each known
 * by the components of its absolute path. The list order stands for the order
 * in which the operating system enumerates a directory; `glob.glob` reports
 * its matches in that order.
 */
module FileSystem {

  import opened Wrappers
  import opened PosixPath

  /** A regular file holds the lines `readlines()` gives, or `None` when it cannot be opened. */
  datatype Kind = File(lines: Option<seq<string>>) | Dir

  datatype Entry = Entry(comps: seq<string>, kind: Kind)

  datatype FileSystem = FileSystem(entries: seq<Entry>)

  /**
   * Every entry is named by proper components (no empty, `.` or `..` parts,
   * no slashes), no two entries share a name, and every entry not directly
   * under the root lies in a directory entry.
   */
  predicate WellFormed(fs: FileSystem) {
    && (forall i :: 0 <= i < |fs.entries| ==> AllProper(fs.entries[i].comps))
    && (forall i, j :: 0 <= i < j < |fs.entries| ==> fs.entries[i].comps != fs.entries[j].comps)
    && (forall i :: 0 <= i < |fs.entries| ==> InDirectory(fs.entries, fs.entries[i]))
  }

  /** The entry `e` lies directly under the root, or its parent is a directory among `es`. */
  predicate InDirectory(es: seq<Entry>, e: Entry) {
    |e.comps| <= 1 || Entry(e.comps[..|e.comps| - 1], Dir) in es
  }

  /** The first entry named `comps`. */
  function Lookup(es: seq<Entry>, comps: seq<string>): Option<Kind> {
    if |es| == 0 then None
    else if es[0].comps == comps then Some(es[0].kind)
    else Lookup(es[1..], comps)
  }

  /** `os.path.isfile(p)`; the empty path names nothing, as `os.stat("")` fails. */
  predicate IsFile(fs: FileSystem, cwd: string, p: string) {
    p != "" && Lookup(fs.entries, AbsComps(cwd, p)).Some? && Lookup(fs.entries, AbsComps(cwd, p)).value.File?
  }

  /** `os.path.isdir(p)`; the root directory always exists, and the empty path names nothing. */
  predicate IsDir(fs: FileSystem, cwd: string, p: string) {
    p != "" && (AbsComps(cwd, p) == [] || Lookup(fs.entries, AbsComps(cwd, p)) == Some(Dir))
  }

  /** Entry `e` lies directly in the directory with components `dc`, and its name is `stem`, a dot and anything. */
  predicate GlobHit(e: Entry, dc: seq<string>, stem: string) {
    && |e.comps| == |dc| + 1
    && e.comps[..|dc|] == dc
    && StartsWith(e.comps[|dc|], stem + ".")
  }

  /** The matching names among `es`, each spelled as `os.path.join(head, name)`. */
  function GlobIn(es: seq<Entry>, dc: seq<string>, stem: string, head: string): seq<string> {
    if |es| == 0 then []
    else (if GlobHit(es[0], dc, stem) then [Join(head, es[0].comps[|dc|])] else []) + GlobIn(es[1..], dc, stem, head)
  }

  /** The directory `glob` lists for the directory part `head` of a pattern: the current one when it is empty. */
  function GlobDir(head: string): string {
    if head == "" then "." else head
  }

  /**
   * `glob.glob(target + ".*")`. The pattern is cut by `os.path.split` at its
   * last slash, which is `target`'s; the directory part is listed (nothing
   * comes back when it is not a directory), and the names that are the rest of
   * `target`, a dot and anything are kept, files and directories alike, in
   * enumeration order, each spelled as the directory part joined with the
   * name. Hidden names need no filter of their own: a rest that does not start
   * with a dot matches no name that does.
   */
  function Glob(fs: FileSystem, cwd: string, target: string): seq<string> {
    var (head, stem) := SplitPath(target);
    var dir := GlobDir(head);
    if IsDir(fs, cwd, dir) then GlobIn(fs.entries, AbsComps(cwd, dir), stem, head) else []
  }

  /** Entry `e` lies strictly below the directory with components `bc`. */
  predicate Below(e: Entry, bc: seq<string>) {
    |bc| < |e.comps| && e.comps[..|bc|] == bc
  }

  function WalkIn(es: seq<Entry>, bc: seq<string>): seq<Entry> {
    if |es| == 0 then []
    else (if es[0].kind.File? && Below(es[0], bc) then [es[0]] else []) + WalkIn(es[1..], bc)
  }

  /**
   * The regular files `os.walk(base)` reaches, in list order rather than
   * `os.walk`'s top-down order. Hidden directories are descended into like any other.
   */
  function Walk(fs: FileSystem, cwd: string, base: string): seq<Entry> {
    WalkIn(fs.entries, AbsComps(cwd, base))
  }

  /** The `file` name `os.walk` reports starts with a dot. */
  predicate Hidden(e: Entry) {
    |e.comps| > 0 && StartsWith(e.comps[|e.comps| - 1], ".")
  }

  /** The entries with the entry named `comps` given kind `k` (replaced in place, or added last). */
  function Put(es: seq<Entry>, comps: seq<string>, k: Kind): (r: seq<Entry>)
    ensures Lookup(r, comps) == Some(k)
    ensures forall c :: c != comps ==> Lookup(r, c) == Lookup(es, c)
  {
    if |es| == 0 then [Entry(comps, k)]
    else if es[0].comps == comps then [Entry(comps, k)] + es[1..]
    else [es[0]] + Put(es[1..], comps, k)
  }

  /**
   * `shutil.copy2(src, dst)` as far as contents go: a directory `dst` receives
   * the file under `src`'s base name. Nothing changes when `src` is not a regular
   * file or source and destination are the same file (Python raises then).
   */
  function Copy(fs: FileSystem, cwd: string, src: string, dst: string): FileSystem {
    var into := if IsDir(fs, cwd, dst) then Join(dst, Basename(src)) else dst;
    var from := AbsComps(cwd, src);
    var to := AbsComps(cwd, into);
    match Lookup(fs.entries, from)
    case Some(File(lines)) =>
      if from == to then fs else FileSystem(Put(fs.entries, to, File(lines)))
    case _ => fs
  }

  /**
   * The walk of `os.makedirs(..., exist_ok=True)` over the prefixes of `dc`
   * longer than `k`, shortest first: a prefix that names nothing gets a
   * directory entry, one that is a directory is passed, and one that is a
   * regular file ends the walk, where Python raises.
   */
  function MakeDirsFrom(es: seq<Entry>, dc: seq<string>, k: nat): seq<Entry>
    requires k <= |dc|
    decreases |dc| - k
  {
    if k == |dc| then es
    else
      match Lookup(es, dc[..k + 1])
      case None => MakeDirsFrom(es + [Entry(dc[..k + 1], Dir)], dc, k + 1)
      case Some(Dir) => MakeDirsFrom(es, dc, k + 1)
      case Some(File(_)) => es
  }

  /** `os.makedirs(d, exist_ok=True)`: every missing directory on the way to `d` is created. */
  function MakeDirs(fs: FileSystem, cwd: string, d: string): FileSystem {
    FileSystem(MakeDirsFrom(fs.entries, AbsComps(cwd, d), 0))
  }

  /** `Lookup` finds an entry exactly when one has those components, and what it finds is such an entry's kind. */
  lemma {:induction false} LookupFinds(es: seq<Entry>, comps: seq<string>)
    ensures Lookup(es, comps).None? <==> forall i :: 0 <= i < |es| ==> es[i].comps != comps
    ensures Lookup(es, comps).Some? ==> Entry(comps, Lookup(es, comps).value) in es
  {
    if |es| > 0 && es[0].comps != comps {
      LookupFinds(es[1..], comps);
      assert forall i :: 1 <= i < |es| ==> es[i] == es[1..][i - 1];
    }
  }

  /** In a well-formed file system an entry is what its own name looks up. */
  lemma LookupEntry(fs: FileSystem, e: Entry)
    requires WellFormed(fs) && e in fs.entries
    ensures Lookup(fs.entries, e.comps) == Some(e.kind)
  {
    LookupFinds(fs.entries, e.comps);
    var i :| 0 <= i < |fs.entries| && fs.entries[i] == e;
    var j :| 0 <= j < |fs.entries| && fs.entries[j] == Entry(e.comps, Lookup(fs.entries, e.comps).value);
    assert i == j;
  }

  /** `glob` reports one name for each entry that matches, and nothing else. */
  lemma {:induction false} GlobInMembers(es: seq<Entry>, dc: seq<string>, stem: string, head: string)
    ensures forall m :: m in GlobIn(es, dc, stem, head) <==>
      exists i :: 0 <= i < |es| && GlobHit(es[i], dc, stem) && m == Join(head, es[i].comps[|dc|])
  {
    if |es| > 0 {
      GlobInMembers(es[1..], dc, stem, head);
      assert forall i :: 1 <= i < |es| ==> es[i] == es[1..][i - 1];
    }
  }

  /** In a well-formed file system, `isfile` holds exactly of a non-empty path whose components name a regular file entry. */
  lemma IsFileByEntries(fs: FileSystem, cwd: string, p: string)
    requires WellFormed(fs)
    ensures IsFile(fs, cwd, p) <==>
      p != "" && exists e :: e in fs.entries && e.comps == AbsComps(cwd, p) && e.kind.File?
  {
    var c := AbsComps(cwd, p);
    LookupFinds(fs.entries, c);
    if e :| e in fs.entries && e.comps == c && e.kind.File? {
      LookupEntry(fs, e);
    }
  }

  /** In a well-formed file system, `isdir` holds exactly of a non-empty path naming the root or a directory entry. */
  lemma IsDirByEntries(fs: FileSystem, cwd: string, p: string)
    requires WellFormed(fs)
    ensures IsDir(fs, cwd, p) <==>
      p != "" && (AbsComps(cwd, p) == [] || Entry(AbsComps(cwd, p), Dir) in fs.entries)
  {
    var c := AbsComps(cwd, p);
    LookupFinds(fs.entries, c);
    if Entry(c, Dir) in fs.entries {
      LookupEntry(fs, Entry(c, Dir));
    }
  }

  /**
   * In a well-formed file system the glob for `target` matches something
   * exactly when some entry lies directly in the directory part's directory
   * and is named by the rest of `target`, a dot and anything.
   */
  lemma GlobNonEmptyByEntries(fs: FileSystem, cwd: string, target: string)
    requires WellFormed(fs)
    ensures var (head, stem) := SplitPath(target);
      |Glob(fs, cwd, target)| > 0 <==>
        exists e :: e in fs.entries && GlobHit(e, AbsComps(cwd, GlobDir(head)), stem)
  {
    var (head, stem) := SplitPath(target);
    var dc := AbsComps(cwd, GlobDir(head));
    GlobInMembers(fs.entries, dc, stem, head);
    if |Glob(fs, cwd, target)| > 0 {
      assert Glob(fs, cwd, target)[0] in GlobIn(fs.entries, dc, stem, head);
    }
    if e :| e in fs.entries && GlobHit(e, dc, stem) {
      HitDirIsDir(fs, cwd, GlobDir(head), e, dc);
      var i :| 0 <= i < |fs.entries| && fs.entries[i] == e;
      assert Join(head, e.comps[|dc|]) in GlobIn(fs.entries, dc, stem, head);
    }
  }

  /** The directory an entry lies directly in is one, when it is named by a non-empty path. */
  lemma HitDirIsDir(fs: FileSystem, cwd: string, dir: string, e: Entry, dc: seq<string>)
    requires WellFormed(fs) && e in fs.entries && dir != "" && dc == AbsComps(cwd, dir)
    requires |e.comps| == |dc| + 1 && e.comps[..|dc|] == dc
    ensures IsDir(fs, cwd, dir)
  {
    if dc != [] {
      var i :| 0 <= i < |fs.entries| && fs.entries[i] == e;
      assert InDirectory(fs.entries, e);
      LookupEntry(fs, Entry(dc, Dir));
    }
  }

  /** `os.walk` reaches exactly the regular files strictly below the root. */
  lemma {:induction false} WalkInMembers(es: seq<Entry>, bc: seq<string>)
    ensures forall e :: e in WalkIn(es, bc) <==> e in es && e.kind.File? && Below(e, bc)
  {
    if |es| > 0 {
      WalkInMembers(es[1..], bc);
      assert es == [es[0]] + es[1..];
    }
  }

  /** After a copy, the destination holds the source's contents and the source is untouched. */
  lemma CopyEffect(fs: FileSystem, cwd: string, src: string, dst: string)
    requires IsFile(fs, cwd, src)
    requires !IsDir(fs, cwd, dst)
    ensures var after := Copy(fs, cwd, src, dst);
      && Lookup(after.entries, AbsComps(cwd, dst)) == Lookup(fs.entries, AbsComps(cwd, src))
      && Lookup(after.entries, AbsComps(cwd, src)) == Lookup(fs.entries, AbsComps(cwd, src))
      && forall c :: c != AbsComps(cwd, dst) ==> Lookup(after.entries, c) == Lookup(fs.entries, c)
  {
  }

  /**
   * `os.makedirs(d, exist_ok=True)` against an absolute working directory
   * keeps the file system well formed and only adds directories, each on the
   * way to `d`; when no path on the way is a regular file, every one of them
   * is a directory afterwards, `d` included.
   */
  lemma MakeDirsEffect(fs: FileSystem, cwd: string, d: string)
    requires WellFormed(fs) && IsAbs(cwd)
    ensures var after, dc := MakeDirs(fs, cwd, d), AbsComps(cwd, d);
      && WellFormed(after)
      && (forall c :: Lookup(after.entries, c) == Lookup(fs.entries, c)
            || (Lookup(fs.entries, c).None? && Lookup(after.entries, c) == Some(Dir) && 0 < |c| <= |dc| && c == dc[..|c|]))
      && ((forall j :: 0 < j <= |dc| ==> Lookup(fs.entries, dc[..j]).None? || Lookup(fs.entries, dc[..j]) == Some(Dir)) ==>
            && (forall j :: 0 < j <= |dc| ==> Lookup(after.entries, dc[..j]) == Some(Dir))
            && (d != "" ==> IsDir(after, cwd, d)))
  {
    var dc := AbsComps(cwd, d);
    AbsPathShape(cwd, d);
    MakeDirsWellFormed(fs.entries, dc, 0);
    forall c | true
      ensures var after := MakeDirs(fs, cwd, d);
        Lookup(after.entries, c) == Lookup(fs.entries, c)
        || (Lookup(fs.entries, c).None? && Lookup(after.entries, c) == Some(Dir) && 0 < |c| <= |dc| && c == dc[..|c|])
    {
      MakeDirsOnlyAdds(fs.entries, dc, 0, c);
    }
    if forall j :: 0 < j <= |dc| ==> Lookup(fs.entries, dc[..j]).None? || Lookup(fs.entries, dc[..j]) == Some(Dir) {
      MakeDirsCreates(fs.entries, dc, 0);
      if |dc| > 0 {
        assert dc[..|dc|] == dc;
      }
    }
  }

  /** What existed before `makedirs` keeps its kind. */
  lemma MakeDirsKeeps(fs: FileSystem, cwd: string, d: string, c: seq<string>)
    requires Lookup(fs.entries, c).Some?
    ensures Lookup(MakeDirs(fs, cwd, d).entries, c) == Lookup(fs.entries, c)
  {
    MakeDirsOnlyAdds(fs.entries, AbsComps(cwd, d), 0, c);
  }

  /** An entry added last is found only where nothing was found before. */
  lemma {:induction false} LookupAppend(es: seq<Entry>, x: Entry, c: seq<string>)
    ensures Lookup(es + [x], c) == if Lookup(es, c).Some? then Lookup(es, c) else if x.comps == c then Some(x.kind) else None
  {
    if |es| > 0 {
      assert (es + [x])[1..] == es[1..] + [x];
      LookupAppend(es[1..], x, c);
    }
  }

  /**
   * `makedirs` only adds: what existed keeps its kind, and every path whose
   * lookup changes is a prefix of `dc` longer than `k` that named nothing and
   * is now a directory.
   */
  lemma {:induction false} MakeDirsOnlyAdds(es: seq<Entry>, dc: seq<string>, k: nat, c: seq<string>)
    requires k <= |dc|
    ensures var r := MakeDirsFrom(es, dc, k);
      Lookup(r, c) == Lookup(es, c)
      || (Lookup(es, c).None? && Lookup(r, c) == Some(Dir) && k < |c| <= |dc| && c == dc[..|c|])
    decreases |dc| - k
  {
    if k < |dc| {
      var pre := dc[..k + 1];
      match Lookup(es, pre)
      case None =>
        LookupAppend(es, Entry(pre, Dir), c);
        MakeDirsOnlyAdds(es + [Entry(pre, Dir)], dc, k + 1, c);
      case Some(Dir) =>
        MakeDirsOnlyAdds(es, dc, k + 1, c);
      case Some(File(_)) =>
    }
  }

  /**
   * When no prefix of `dc` longer than `k` is a regular file, every one of
   * them is a directory afterwards.
   */
  lemma {:induction false} MakeDirsCreates(es: seq<Entry>, dc: seq<string>, k: nat)
    requires k <= |dc|
    requires forall j :: k < j <= |dc| ==> Lookup(es, dc[..j]).None? || Lookup(es, dc[..j]) == Some(Dir)
    ensures forall j :: k < j <= |dc| ==> Lookup(MakeDirsFrom(es, dc, k), dc[..j]) == Some(Dir)
    decreases |dc| - k
  {
    if k < |dc| {
      var pre := dc[..k + 1];
      var next := if Lookup(es, pre).None? then es + [Entry(pre, Dir)] else es;
      assert MakeDirsFrom(es, dc, k) == MakeDirsFrom(next, dc, k + 1);
      forall j | k + 1 < j <= |dc|
        ensures Lookup(next, dc[..j]).None? || Lookup(next, dc[..j]) == Some(Dir)
      {
        LookupAppend(es, Entry(pre, Dir), dc[..j]);
      }
      LookupAppend(es, Entry(pre, Dir), pre);
      assert Lookup(next, pre) == Some(Dir);
      MakeDirsCreates(next, dc, k + 1);
      MakeDirsOnlyAdds(next, dc, k + 1, pre);
    }
  }

  /**
   * `makedirs` keeps a file system well formed: each directory it adds is
   * named by proper components, is new, and lies in the one added or passed
   * before it.
   */
  lemma {:induction false} MakeDirsWellFormed(es: seq<Entry>, dc: seq<string>, k: nat)
    requires k <= |dc| && AllProper(dc) && WellFormed(FileSystem(es))
    requires k == 0 || Entry(dc[..k], Dir) in es
    ensures WellFormed(FileSystem(MakeDirsFrom(es, dc, k)))
    decreases |dc| - k
  {
    if k < |dc| {
      var pre := dc[..k + 1];
      match Lookup(es, pre)
      case None =>
        var next := es + [Entry(pre, Dir)];
        assert WellFormed(FileSystem(next)) && Entry(dc[..k + 1], Dir) in next by {
          AppendWellFormed(es, pre, k, dc);
        }
        MakeDirsWellFormed(next, dc, k + 1);
      case Some(Dir) =>
        assert Entry(dc[..k + 1], Dir) in es by {
          LookupFinds(es, pre);
        }
        MakeDirsWellFormed(es, dc, k + 1);
      case Some(File(_)) =>
    }
  }

  /** Adding the directory `dc[..k + 1]`, which names nothing yet and lies in `dc[..k]`, keeps the entries well formed. */
  lemma AppendWellFormed(es: seq<Entry>, pre: seq<string>, k: nat, dc: seq<string>)
    requires k < |dc| && pre == dc[..k + 1] && AllProper(dc) && WellFormed(FileSystem(es))
    requires k == 0 || Entry(dc[..k], Dir) in es
    requires Lookup(es, pre).None?
    ensures WellFormed(FileSystem(es + [Entry(pre, Dir)]))
  {
    var next := es + [Entry(pre, Dir)];
    assert AllProper(pre) by {
      forall i | 0 <= i < |pre| ensures ProperComp(pre[i]) { assert pre[i] == dc[i]; }
    }
    assert InDirectory(es, Entry(pre, Dir)) by {
      assert pre[..|pre| - 1] == dc[..k];
    }
    AppendKeepsWellFormed(es, Entry(pre, Dir));
  }

  /** A new, properly named entry lying in a directory of `es` keeps `es` well formed. */
  lemma AppendKeepsWellFormed(es: seq<Entry>, x: Entry)
    requires WellFormed(FileSystem(es)) && AllProper(x.comps) && InDirectory(es, x)
    requires Lookup(es, x.comps).None?
    ensures WellFormed(FileSystem(es + [x]))
  {
    AppendProper(es, x);
    AppendDistinct(es, x);
    AppendInDirectory(es, x);
  }

  lemma AppendProper(es: seq<Entry>, x: Entry)
    requires forall i :: 0 <= i < |es| ==> AllProper(es[i].comps)
    requires AllProper(x.comps)
    ensures forall i :: 0 <= i < |es + [x]| ==> AllProper((es + [x])[i].comps)
  {
    forall i | 0 <= i < |es + [x]| ensures AllProper((es + [x])[i].comps) {
      if i < |es| { assert (es + [x])[i] == es[i]; }
    }
  }

  lemma AppendDistinct(es: seq<Entry>, x: Entry)
    requires forall i, j :: 0 <= i < j < |es| ==> es[i].comps != es[j].comps
    requires Lookup(es, x.comps).None?
    ensures forall i, j :: 0 <= i < j < |es + [x]| ==> (es + [x])[i].comps != (es + [x])[j].comps
  {
    LookupFinds(es, x.comps);
    var next := es + [x];
    forall i, j | 0 <= i < j < |next| ensures next[i].comps != next[j].comps {
      assert next[i] == es[i];
      if j < |es| { assert next[j] == es[j]; }
    }
  }

  lemma AppendInDirectory(es: seq<Entry>, x: Entry)
    requires forall i :: 0 <= i < |es| ==> InDirectory(es, es[i])
    requires InDirectory(es, x)
    ensures forall i :: 0 <= i < |es + [x]| ==> InDirectory(es + [x], (es + [x])[i])
  {
    var next := es + [x];
    forall i | 0 <= i < |next| ensures InDirectory(next, next[i]) {
      if i < |es| {
        assert next[i] == es[i];
        assert InDirectory(es, es[i]);
      }
    }
  }

  /**
   * Every glob match names an existing entry, and is spelled as the directory
   * part of `target`, joined with the rest of `target`, a dot and a slash-free rest.
   */
  lemma GlobFound(fs: FileSystem, cwd: string, target: string, m: string)
    requires WellFormed(fs)
    requires m in Glob(fs, cwd, target)
    ensures Lookup(fs.entries, AbsComps(cwd, m)).Some?
    ensures exists s :: m == Join(SplitPath(target).0, SplitPath(target).1 + "." + s) && '/' !in s
  {
    var head, stem := SplitPath(target).0, SplitPath(target).1;
    var dc := AbsComps(cwd, GlobDir(head));
    assert m in GlobIn(fs.entries, dc, stem, head);
    GlobInFound(fs, cwd, dc, stem, head, m);
  }

  /**
   * A target spelled with a trailing slash globs inside that directory: the
   * pattern `d/.*` matches the names in `d` that start with a dot, not the
   * names beside `d` that start with `d`'s own name.
   */
  lemma GlobOfTrailingSlash(fs: FileSystem, cwd: string, ds: seq<string>)
    requires AllProper(ds) && |ds| > 0
    ensures Glob(fs, cwd, PathOf(ds) + "/") ==
      if IsDir(fs, cwd, PathOf(ds)) then GlobIn(fs.entries, ds, "", PathOf(ds)) else []
  {
    SplitPathDirPrefix(ds);
    assert DirPrefix(ds) == PathOf(ds) + "/";
    AbsPathOfPathOf(cwd, ds);
  }

  /** A match in the listing of the directory `dc` spelled `head` is an existing entry. */
  lemma GlobInFound(fs: FileSystem, cwd: string, dc: seq<string>, stem: string, head: string, m: string)
    requires WellFormed(fs)
    requires head == "" || AllSlashes(head) || head[|head| - 1] != '/'
    requires dc == AbsComps(cwd, GlobDir(head))
    requires m in GlobIn(fs.entries, dc, stem, head)
    ensures Lookup(fs.entries, AbsComps(cwd, m)).Some?
    ensures exists s :: m == Join(head, stem + "." + s) && '/' !in s
  {
    var e := GlobMatchEntry(fs.entries, dc, stem, head, m);
    var n := e.comps[|dc|];
    ChildEntry(fs, e, dc);
    JoinChildComps(cwd, head, n);
    LookupEntry(fs, e);
    NameShape(n, stem);
  }

  /** An entry directly in `dc` is `dc` plus its proper last component. */
  lemma ChildEntry(fs: FileSystem, e: Entry, dc: seq<string>)
    requires WellFormed(fs) && e in fs.entries
    requires |e.comps| == |dc| + 1 && e.comps[..|dc|] == dc
    ensures ProperComp(e.comps[|dc|]) && e.comps == dc + [e.comps[|dc|]]
  {
    assert AllProper(e.comps);
  }

  /** The entry a match among `es` stands for. */
  lemma GlobMatchEntry(es: seq<Entry>, dc: seq<string>, stem: string, head: string, m: string) returns (e: Entry)
    requires m in GlobIn(es, dc, stem, head)
    ensures e in es && GlobHit(e, dc, stem) && m == Join(head, e.comps[|dc|])
  {
    GlobInMembers(es, dc, stem, head);
    var i :| 0 <= i < |es| && GlobHit(es[i], dc, stem) && m == Join(head, es[i].comps[|dc|]);
    e := es[i];
  }

  /** A proper name that starts with `stem` and a dot is `stem`, a dot and a slash-free rest. */
  lemma NameShape(n: string, stem: string)
    requires ProperComp(n) && StartsWith(n, stem + ".")
    ensures exists s :: n == stem + "." + s && '/' !in s
  {
    var s := n[|stem| + 1..];
    assert n == n[..|stem| + 1] + s;
    assert forall k :: 0 <= k < |s| ==> s[k] == n[|stem| + 1 + k];
  }
}
