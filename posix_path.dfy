/**
 * Python's `posixpath` string operations as the layered lookup uses them:
 * `str.split('/')`, `'/'.join`, `os.path.join`, `normpath`, `abspath`,
 * `relpath`, `splitext`, `expanduser` and `str.startswith`/`endswith`.
 * Everything here is lexical: no symbolic link is resolved, exactly as
 * `abspath` does not resolve them.
 */
module PosixPath {

  import opened Wrappers

  predicate StartsWith(s: string, prefix: string) {
    |prefix| <= |s| && s[..|prefix|] == prefix
  }

  predicate EndsWith(s: string, suffix: string) {
    |suffix| <= |s| && s[|s| - |suffix|..] == suffix
  }

  predicate IsAbs(p: string) {
    |p| > 0 && p[0] == '/'
  }

  /** A single path component: what `normpath` keeps of a rooted path. */
  predicate ProperComp(c: string) {
    c != "" && c != "." && c != ".." && '/' !in c
  }

  predicate AllProper(cs: seq<string>) {
    forall i :: 0 <= i < |cs| ==> ProperComp(cs[i])
  }

  predicate SlashFree(cs: seq<string>) {
    forall i :: 0 <= i < |cs| ==> '/' !in cs[i]
  }

  /** `s.split('/')`: the pieces between the slashes, always at least one. */
  function Split(s: string): (r: seq<string>)
    ensures |r| >= 1
    decreases |s|
  {
    var i := FindSlashFrom(s, 0);
    if i == |s| then [s] else [s[..i]] + Split(s[i + 1..])
  }

  /** `'/'.join(cs)`. */
  function JoinSeq(cs: seq<string>): string {
    if |cs| == 0 then ""
    else if |cs| == 1 then cs[0]
    else cs[0] + "/" + JoinSeq(cs[1..])
  }

  /** `os.path.join(a, b)`: an absolute `b` replaces `a`; otherwise a slash is inserted when needed. */
  function Join(a: string, b: string): (r: string)
    ensures EndsWith(r, b)
    ensures !IsAbs(b) ==> StartsWith(r, a)
  {
    if IsAbs(b) then b
    else if a == "" || a[|a| - 1] == '/' then a + b
    else a + "/" + b
  }

  /** The leading slashes `normpath` keeps: none, one, or exactly two (POSIX leaves `//` alone). */
  function RootOf(p: string): (r: string)
    ensures r == "" || r == "/" || r == "//"
    ensures (r != "") == IsAbs(p)
  {
    if StartsWith(p, "/") then
      if StartsWith(p, "//") && !StartsWith(p, "///") then "//" else "/"
    else ""
  }

  /** One turn of `normpath`'s loop over the components. */
  function NormStep(acc: seq<string>, comp: string, rooted: bool): seq<string> {
    if comp == "" || comp == "." then acc
    else if comp != ".." || (!rooted && |acc| == 0) || (|acc| > 0 && acc[|acc| - 1] == "..") then acc + [comp]
    else if |acc| > 0 then acc[..|acc| - 1]
    else acc
  }

  /** `normpath`'s loop, run over `comps` starting from the components kept so far. */
  function NormComps(acc: seq<string>, comps: seq<string>, rooted: bool): seq<string>
    decreases |comps|
  {
    if |comps| == 0 then acc
    else NormComps(NormStep(acc, comps[0], rooted), comps[1..], rooted)
  }

  /** `os.path.normpath`. */
  function NormPath(p: string): string {
    if p == "" then "."
    else
      var root := RootOf(p);
      var s := root + JoinSeq(NormComps([], Split(p), root != ""));
      if s == "" then "." else s
  }

  /** The path `abspath` normalises: `p` itself when absolute, else `p` joined to the working directory. */
  function Absolute(cwd: string, p: string): string {
    if IsAbs(p) then p else Join(cwd, p)
  }

  /** `os.path.abspath(p)` with `cwd` standing for `os.getcwd()`. */
  function AbsPath(cwd: string, p: string): string {
    NormPath(Absolute(cwd, p))
  }

  /** The components of `AbsPath(cwd, p)`: the path's identity on the file system. */
  function AbsComps(cwd: string, p: string): seq<string> {
    var a := Absolute(cwd, p);
    NormComps([], Split(a), RootOf(a) != "")
  }

  /** `[x for x in cs if x]`. */
  function NonEmpty(cs: seq<string>): seq<string> {
    if |cs| == 0 then []
    else (if cs[0] == "" then [] else [cs[0]]) + NonEmpty(cs[1..])
  }

  /** The length of the longest common prefix (`os.path.commonprefix` of two lists). */
  function CommonPrefixLen(a: seq<string>, b: seq<string>): (n: nat)
    ensures n <= |a| && n <= |b| && a[..n] == b[..n]
    ensures n < |a| && n < |b| ==> a[n] != b[n]
  {
    if |a| == 0 || |b| == 0 || a[0] != b[0] then 0
    else 1 + CommonPrefixLen(a[1..], b[1..])
  }

  /** `os.path.relpath(path, start)`; Python raises `ValueError` for an empty `path`. */
  function RelPath(cwd: string, path: string, start: string): string
    requires path != ""
  {
    var sl := NonEmpty(Split(AbsPath(cwd, start)));
    var pl := NonEmpty(Split(AbsPath(cwd, path)));
    var i := CommonPrefixLen(sl, pl);
    var rel := seq(|sl| - i, _ => "..") + pl[i..];
    if rel == [] then "." else JoinSeq(rel)
  }

  /** `s.rfind(c)`: the last index of `c`, or -1. */
  function RFind(s: string, c: char): (r: int)
    ensures -1 <= r < |s|
    ensures r >= 0 ==> s[r] == c
  {
    if |s| == 0 then -1
    else if s[|s| - 1] == c then |s| - 1
    else RFind(s[..|s| - 1], c)
  }

  /** `os.path.splitext(p)`: the last dot of the final component, unless it only follows leading dots. */
  function SplitExt(p: string): (string, string) {
    var sepIndex := RFind(p, '/');
    var dotIndex := RFind(p, '.');
    if dotIndex > sepIndex && exists k :: sepIndex + 1 <= k < dotIndex && p[k] != '.' then
      (p[..dotIndex], p[dotIndex..])
    else
      (p, "")
  }

  /** `os.path.basename(p)`. */
  function Basename(p: string): (r: string)
    ensures '/' !in r && EndsWith(p, r)
    ensures |r| < |p| ==> p[|p| - |r| - 1] == '/'
  {
    RFindLast(p, '/');
    p[RFind(p, '/') + 1..]
  }

  predicate AllSlashes(s: string) {
    forall k :: 0 <= k < |s| ==> s[k] == '/'
  }

  /**
   * `os.path.split(p)`: the text up to and including the last slash, with its
   * trailing slashes removed unless it is all slashes, and the slash-free rest.
   */
  function SplitPath(p: string): (r: (string, string))
    ensures '/' !in r.1 && EndsWith(p, r.1)
    ensures |r.1| < |p| ==> p[|p| - |r.1| - 1] == '/'
    ensures var h := p[..|p| - |r.1|]; r.0 == if AllSlashes(h) then h else RStripSlash(h)
    ensures StartsWith(p, r.0)
    ensures r.0 == "" || AllSlashes(r.0) || r.0[|r.0| - 1] != '/'
  {
    RFindLast(p, '/');
    var i := RFind(p, '/') + 1;
    var head := p[..i];
    (if AllSlashes(head) then head else RStripSlash(head), p[i..])
  }

  /** `s.rstrip('/')`. */
  function RStripSlash(s: string): (r: string)
    ensures StartsWith(s, r)
    ensures r == "" || r[|r| - 1] != '/'
    ensures forall k :: |r| <= k < |s| ==> s[k] == '/'
  {
    if |s| == 0 || s[|s| - 1] != '/' then s else RStripSlash(s[..|s| - 1])
  }

  /** `s.find('/', from)`, with "not found" reported as `|s|` (as `expanduser` uses it). */
  function FindSlashFrom(s: string, from: nat): (i: nat)
    requires from <= |s|
    ensures from <= i <= |s|
    ensures i < |s| ==> s[i] == '/'
    decreases |s| - from
  {
    if from == |s| || s[from] == '/' then from else FindSlashFrom(s, from + 1)
  }

  /**
   * `os.path.expanduser(p)`: `home` stands for `$HOME`, `userHomes` for the password
   * database; an unknown `~user` leaves the path unchanged, as `KeyError` does.
   */
  function ExpandUser(p: string, home: string, userHomes: map<string, string>): string {
    if !StartsWith(p, "~") then p
    else
      var i := FindSlashFrom(p, 1);
      var user := p[1..i];
      if i != 1 && user !in userHomes then p
      else
        var userHome := RStripSlash(if i == 1 then home else userHomes[user]);
        if userHome + p[i..] == "" then "/" else userHome + p[i..]
  }

  // ---------------------------------------------------------------------------
  // Properties of the string functions

  /** Splitting is undone by joining with slashes. */
  lemma {:induction false} JoinSplit(s: string)
    ensures JoinSeq(Split(s)) == s
    decreases |s|
  {
    var i := FindSlashFrom(s, 0);
    if i < |s| {
      var rest := Split(s[i + 1..]);
      JoinSplit(s[i + 1..]);
      assert Split(s) == [s[..i]] + rest;
      assert JoinSeq([s[..i]] + rest) == s[..i] + "/" + JoinSeq(rest);
      assert s == s[..i] + "/" + s[i + 1..];
    }
  }

  /** No piece of a split holds a slash. */
  lemma {:induction false} SplitSlashFree(s: string)
    ensures SlashFree(Split(s))
    decreases |s|
  {
    var i := FindSlashFrom(s, 0);
    FindSlashFromFirst(s, 0);
    if i < |s| {
      SplitSlashFree(s[i + 1..]);
      var rest := Split(s[i + 1..]);
      assert '/' !in s[..i];
      assert forall k :: 1 <= k < |Split(s)| ==> Split(s)[k] == rest[k - 1];
    }
  }

  /** `FindSlashFrom` passes over no slash. */
  lemma {:induction false} FindSlashFromFirst(s: string, from: nat)
    requires from <= |s|
    ensures forall k :: from <= k < FindSlashFrom(s, from) ==> s[k] != '/'
    decreases |s| - from
  {
    if from < |s| && s[from] != '/' {
      FindSlashFromFirst(s, from + 1);
    }
  }

  /** `FindSlashFrom` is pinned down by its contract. */
  lemma {:induction false} FindSlashIs(s: string, from: nat, i: nat)
    requires from <= i <= |s|
    requires i < |s| ==> s[i] == '/'
    requires forall k :: from <= k < i ==> s[k] != '/'
    ensures FindSlashFrom(s, from) == i
    decreases |s| - from
  {
    if from < i {
      FindSlashIs(s, from + 1, i);
    }
  }

  /** A string without slashes splits into itself. */
  lemma SplitNoSlash(s: string)
    requires '/' !in s
    ensures Split(s) == [s]
  {
    FindSlashIs(s, 0, |s|);
  }

  /** Splitting distributes over a slash. */
  lemma {:induction false} SplitAtSlash(a: string, b: string)
    ensures Split(a + "/" + b) == Split(a) + Split(b)
    decreases |a|
  {
    var w := a + "/" + b;
    var i := FindSlashFrom(a, 0);
    FindSlashFromFirst(a, 0);
    FindSlashIs(w, 0, i);
    assert w[..i] == a[..i];
    if i == |a| {
      assert a[..i] == a;
      assert w[i + 1..] == b;
      assert Split(a) == [a];
    } else {
      assert w[i + 1..] == a[i + 1..] + "/" + b;
      SplitAtSlash(a[i + 1..], b);
    }
  }

  /** A leading slash contributes an empty first piece. */
  lemma SplitLeadingSlash(x: string)
    ensures Split("/" + x) == [""] + Split(x)
  {
    SplitAtSlash("", x);
    assert "" + "/" + x == "/" + x;
    SplitNoSlash("");
  }

  /** Joining slash-free components is undone by splitting. */
  lemma {:induction false} SplitJoin(cs: seq<string>)
    requires |cs| >= 1 && SlashFree(cs)
    ensures Split(JoinSeq(cs)) == cs
  {
    if |cs| == 1 {
      SplitNoSlash(cs[0]);
    } else {
      assert SlashFree(cs[1..]);
      SplitJoin(cs[1..]);
      SplitNoSlash(cs[0]);
      SplitAtSlash(cs[0], JoinSeq(cs[1..]));
      assert cs == [cs[0]] + cs[1..];
    }
  }

  lemma {:induction false} NonEmptyOfProper(cs: seq<string>)
    requires AllProper(cs)
    ensures NonEmpty(cs) == cs
  {
    if |cs| > 0 {
      assert AllProper(cs[1..]);
      NonEmptyOfProper(cs[1..]);
      assert cs == [cs[0]] + cs[1..];
    }
  }

  /** `normpath` keeps proper components as they are. */
  lemma {:induction false} NormCompsOfProper(acc: seq<string>, cs: seq<string>, rooted: bool)
    requires AllProper(cs)
    ensures NormComps(acc, cs, rooted) == acc + cs
    decreases |cs|
  {
    if |cs| > 0 {
      assert AllProper(cs[1..]);
      NormCompsOfProper(acc + [cs[0]], cs[1..], rooted);
      assert acc + [cs[0]] + cs[1..] == acc + cs;
    }
  }

  /** A rooted `normpath` yields proper components only: no `..` survives at the root. */
  lemma {:induction false} NormCompsRootedProper(acc: seq<string>, cs: seq<string>)
    requires AllProper(acc) && SlashFree(cs)
    ensures AllProper(NormComps(acc, cs, true))
    decreases |cs|
  {
    if |cs| > 0 {
      var next := NormStep(acc, cs[0], true);
      assert '/' !in cs[0];
      assert AllProper(next);
      assert SlashFree(cs[1..]);
      NormCompsRootedProper(next, cs[1..]);
    }
  }

  /** With an absolute working directory, every `abspath` is absolute and made of proper components. */
  lemma AbsPathShape(cwd: string, p: string)
    requires IsAbs(cwd)
    ensures IsAbs(Absolute(cwd, p))
    ensures AllProper(AbsComps(cwd, p))
    ensures AbsPath(cwd, p) == RootOf(Absolute(cwd, p)) + JoinSeq(AbsComps(cwd, p))
  {
    SplitSlashFree(Absolute(cwd, p));
    NormCompsRootedProper([], Split(Absolute(cwd, p)));
  }

  lemma NonEmptyDropEmpty(cs: seq<string>)
    ensures NonEmpty([""] + cs) == NonEmpty(cs)
  {
    assert ([""] + cs)[1..] == cs;
  }

  /** The components of a rooted path come back from `[x for x in s.split('/') if x]`. */
  lemma RootedComps(root: string, cs: seq<string>)
    requires root == "/" || root == "//"
    requires AllProper(cs)
    ensures NonEmpty(Split(root + JoinSeq(cs))) == cs
  {
    var x := JoinSeq(cs);
    ProperSplitJoin(cs);
    LeadingSlashDropped(x);
    if root == "//" {
      assert root + x == "/" + ("/" + x);
      LeadingSlashDropped("/" + x);
    }
  }

  /** Proper components joined by slashes come back from `[x for x in s.split('/') if x]`. */
  lemma ProperSplitJoin(cs: seq<string>)
    requires AllProper(cs)
    ensures NonEmpty(Split(JoinSeq(cs))) == cs
  {
    if |cs| == 0 {
      SplitNoSlash("");
      assert NonEmpty([""]) == [];
    } else {
      SplitJoin(cs);
      NonEmptyOfProper(cs);
    }
  }

  /** A leading slash adds only an empty piece, which the filter drops. */
  lemma LeadingSlashDropped(x: string)
    ensures NonEmpty(Split("/" + x)) == NonEmpty(Split(x))
  {
    SplitLeadingSlash(x);
    NonEmptyDropEmpty(Split(x));
  }

  /** The absolute path a file system entry is known by: `/` followed by its components. */
  function PathOf(comps: seq<string>): (r: string)
    ensures IsAbs(r)
  {
    "/" + JoinSeq(comps)
  }

  /** An entry's own path is already normal. */
  lemma AbsPathOfPathOf(cwd: string, cs: seq<string>)
    requires AllProper(cs)
    ensures AbsComps(cwd, PathOf(cs)) == cs
    ensures AbsPath(cwd, PathOf(cs)) == PathOf(cs)
  {
    var p := PathOf(cs);
    assert Absolute(cwd, p) == p;
    RootOfPathOf(cs);
    NormCompsOfPathOf(cs);
  }

  /** An entry's path starts with exactly one slash. */
  lemma RootOfPathOf(cs: seq<string>)
    requires AllProper(cs)
    ensures RootOf(PathOf(cs)) == "/"
  {
    if |cs| > 0 {
      assert ProperComp(cs[0]);
      if |cs| > 1 {
        assert JoinSeq(cs) == cs[0] + "/" + JoinSeq(cs[1..]);
      }
      assert JoinSeq(cs)[0] == cs[0][0];
      assert PathOf(cs)[1] != '/';
    }
  }

  /** The rooted `normpath` loop over an entry's split path gives back its components. */
  lemma NormCompsOfPathOf(cs: seq<string>)
    requires AllProper(cs)
    ensures NormComps([], Split(PathOf(cs)), true) == cs
  {
    SplitLeadingSlash(JoinSeq(cs));
    if |cs| == 0 {
      SplitNoSlash("");
      assert Split(PathOf(cs)) == ["", ""];
      assert NormComps([], [""], true) == NormComps([], [], true);
      assert NormComps([], ["", ""], true) == NormComps([], [""], true);
    } else {
      SplitJoin(cs);
      assert Split(PathOf(cs)) == [""] + cs;
      assert ([""] + cs)[1..] == cs;
      NormCompsOfProper([], cs, true);
    }
  }

  /** Joining a concatenation puts one slash between the two joins. */
  lemma {:induction false} JoinSeqConcat(a: seq<string>, b: seq<string>)
    requires |a| > 0 && |b| > 0
    ensures JoinSeq(a + b) == JoinSeq(a) + "/" + JoinSeq(b)
    decreases |a|
  {
    if |a| > 1 {
      assert (a + b)[1..] == a[1..] + b;
      JoinSeqConcat(a[1..], b);
    }
  }

  /** `normpath`'s loop over a concatenation runs over the first part, then the second. */
  lemma {:induction false} NormCompsConcat(acc: seq<string>, a: seq<string>, b: seq<string>, rooted: bool)
    ensures NormComps(acc, a + b, rooted) == NormComps(NormComps(acc, a, rooted), b, rooted)
    decreases |a|
  {
    if |a| == 0 {
      assert a + b == b;
    } else {
      assert (a + b)[1..] == a[1..] + b;
      NormCompsConcat(NormStep(acc, a[0], rooted), a[1..], b, rooted);
    }
  }

  /** A join starts with the first component's first character. */
  lemma JoinSeqFirst(xs: seq<string>)
    requires |xs| > 0 && xs[0] != ""
    ensures |JoinSeq(xs)| > 0 && JoinSeq(xs)[0] == xs[0][0]
  {
  }

  /** A join ends with the last component's last character. */
  lemma JoinSeqLast(xs: seq<string>)
    requires |xs| > 0 && xs[|xs| - 1] != ""
    ensures var j := JoinSeq(xs); |j| > 0 && j[|j| - 1] == xs[|xs| - 1][|xs[|xs| - 1]| - 1]
  {
    var n := |xs|;
    if n > 1 {
      JoinSeqConcat(xs[..n - 1], [xs[n - 1]]);
      assert xs[..n - 1] + [xs[n - 1]] == xs;
    }
  }

  /** A relative path made of proper components lands below the directory it is joined to. */
  lemma JoinPathOf(cs: seq<string>, xs: seq<string>)
    requires AllProper(cs) && AllProper(xs) && |xs| > 0
    ensures Join(PathOf(cs), JoinSeq(xs)) == PathOf(cs + xs)
  {
    assert ProperComp(xs[0]);
    JoinSeqFirst(xs);
    if |cs| == 0 {
      assert cs + xs == xs;
    } else {
      assert ProperComp(cs[|cs| - 1]);
      JoinSeqLast(cs);
      JoinSeqConcat(cs, xs);
      JoinBelowDir(JoinSeq(cs), JoinSeq(xs));
    }
  }

  /** Joining a relative path to `/d`, where `d` does not end in a slash, inserts one slash. */
  lemma JoinBelowDir(d: string, j: string)
    requires |d| > 0 && d[|d| - 1] != '/' && !IsAbs(j)
    ensures Join("/" + d, j) == "/" + (d + "/" + j)
  {
    var p := "/" + d;
    assert p[|p| - 1] == d[|d| - 1];
    assert p + "/" + j == "/" + (d + "/" + j);
  }

  /** The pieces of `<dir>/../x` for a directory given by proper components. */
  lemma SplitSibling(cs: seq<string>, x: string)
    requires AllProper(cs) && |cs| > 0 && ProperComp(x)
    ensures Split("/" + (JoinSeq(cs) + "/" + (".." + "/" + x))) == [""] + cs + ["..", x]
  {
    assert SlashFree(cs);
    SplitJoin(cs);
    SplitNoSlash("..");
    SplitNoSlash(x);
    SplitAtSlash("..", x);
    SplitAtSlash(JoinSeq(cs), ".." + "/" + x);
    SplitLeadingSlash(JoinSeq(cs) + "/" + (".." + "/" + x));
    assert [""] + (cs + ([".."] + [x])) == [""] + cs + ["..", x];
  }

  /** An empty piece does not move `normpath`'s loop. */
  lemma NormDropEmpty(acc: seq<string>, cs: seq<string>, rooted: bool)
    ensures NormComps(acc, [""] + cs, rooted) == NormComps(acc, cs, rooted)
  {
    assert ([""] + cs)[1..] == cs;
  }

  /** After a run of proper components, the rooted loop goes on from exactly those components. */
  lemma NormAfterProper(cs: seq<string>, tail: seq<string>)
    requires AllProper(cs)
    ensures NormComps([], cs + tail, true) == NormComps(cs, tail, true)
  {
    NormCompsConcat([], cs, tail, true);
    NormCompsOfProper([], cs, true);
    assert [] + cs == cs;
  }

  /** `..` drops the last kept component, then a proper `x` is kept. */
  lemma NormUp(cs: seq<string>, x: string)
    requires |cs| > 0 && cs[|cs| - 1] != ".." && ProperComp(x)
    ensures NormComps(cs, ["..", x], true) == cs[..|cs| - 1] + [x]
  {
    var tail := ["..", x];
    assert tail[0] == ".." && tail[1..] == [x];
    assert NormComps(cs, tail, true) == NormComps(NormStep(cs, "..", true), [x], true);
    assert NormStep(cs, "..", true) == cs[..|cs| - 1];
    assert NormComps(cs[..|cs| - 1], [x], true) == NormComps(cs[..|cs| - 1] + [x], [], true);
  }

  /** The rooted `normpath` loop steps back over `..` onto the sibling. */
  lemma NormSibling(cs: seq<string>, x: string)
    requires AllProper(cs) && |cs| > 0 && ProperComp(x)
    ensures NormComps([], [""] + cs + ["..", x], true) == cs[..|cs| - 1] + [x]
  {
    var tail := ["..", x];
    assert [""] + cs + tail == [""] + (cs + tail);
    NormDropEmpty([], cs + tail, true);
    NormAfterProper(cs, tail);
    assert ProperComp(cs[|cs| - 1]);
    NormUp(cs, x);
  }

  /** `abspath(join(dir, "../x"))` is the sibling `x` of `dir`. */
  lemma AbsPathSibling(cwd: string, cs: seq<string>, x: string)
    requires AllProper(cs) && |cs| > 0 && ProperComp(x)
    ensures AbsPath(cwd, Join(PathOf(cs), ".." + "/" + x)) == PathOf(cs[..|cs| - 1] + [x])
  {
    var p, j := PathOf(cs), ".." + "/" + x;
    assert !IsAbs(j);
    assert ProperComp(cs[|cs| - 1]);
    JoinSeqLast(cs);
    assert p[|p| - 1] != '/';
    var t := Join(p, j);
    assert t == "/" + (JoinSeq(cs) + "/" + j);
    assert Absolute(cwd, t) == t;
    assert ProperComp(cs[0]);
    JoinSeqFirst(cs);
    assert t[1] == cs[0][0];
    assert RootOf(t) == "/";
    SplitSibling(cs, x);
    NormSibling(cs, x);
  }

  /** A directory's path with exactly one trailing slash. */
  function DirPrefix(parent: seq<string>): string {
    if |parent| == 0 then "/" else "/" + JoinSeq(parent) + "/"
  }

  /** The path of a directory's child `y`: the directory's path with a trailing slash, then `y`. */
  lemma PathOfSnoc(parent: seq<string>, y: string)
    ensures PathOf(parent + [y]) == DirPrefix(parent) + y
  {
    if |parent| == 0 {
      assert parent + [y] == [y];
    } else {
      JoinSeqConcat(parent, [y]);
    }
  }

  /** A directory's path is a string prefix of the path of anything below it. */
  lemma PathOfPrefix(cs: seq<string>, xs: seq<string>)
    requires |xs| > 0
    ensures StartsWith(PathOf(cs + xs), PathOf(cs))
  {
    if |cs| > 0 {
      JoinSeqConcat(cs, xs);
      assert PathOf(cs + xs) == PathOf(cs) + ("/" + JoinSeq(xs));
    }
  }

  /** A common prefix does not change whether one string starts with another. */
  lemma StartsWithCommon(q: string, x: string, y: string)
    ensures StartsWith(q + x, q + y) <==> StartsWith(x, y)
  {
    if |y| <= |x| {
      assert (q + x)[..|q + y|] == q + x[..|y|];
      if (q + x)[..|q + y|] == q + y {
        assert x[..|y|] == (q + x[..|y|])[|q|..];
      }
    }
  }

  lemma CommonPrefixOfPrefix(a: seq<string>, b: seq<string>)
    requires |a| <= |b| && b[..|a|] == a
    ensures CommonPrefixLen(a, b) == |a|
  {
    if |a| > 0 {
      assert b[1..][..|a| - 1] == a[1..];
      CommonPrefixOfPrefix(a[1..], b[1..]);
    }
  }

  /**
   * `relpath` of the path of a file below `start` is the part of its components
   * after those of `abspath(start)`, joined with slashes.
   */
  lemma RelPathBelow(cwd: string, start: string, cs: seq<string>)
    requires IsAbs(cwd) && AllProper(cs)
    requires |AbsComps(cwd, start)| < |cs| && cs[..|AbsComps(cwd, start)|] == AbsComps(cwd, start)
    ensures RelPath(cwd, PathOf(cs), start) == JoinSeq(cs[|AbsComps(cwd, start)|..])
  {
    var bc := AbsComps(cwd, start);
    AbsPathShape(cwd, start);
    RootedComps(RootOf(Absolute(cwd, start)), bc);
    AbsPathOfPathOf(cwd, cs);
    RootedComps("/", cs);
    CommonPrefixOfPrefix(bc, cs);
    var rel := seq(0, _ => "..") + cs[|bc|..];
    assert rel == cs[|bc|..];
  }

  /** `splitext` cuts the path in two: the pieces concatenate back to it. */
  lemma SplitExtJoins(p: string)
    ensures SplitExt(p).0 + SplitExt(p).1 == p
  {
    var (root, ext) := SplitExt(p);
    if ext != "" {
      assert p == p[..RFind(p, '.')] + p[RFind(p, '.')..];
    }
  }

  /** The extension is empty, or one dot followed by neither a slash nor another dot. */
  lemma SplitExtShape(p: string)
    ensures var ext := SplitExt(p).1;
      ext == "" || (ext[0] == '.' && '/' !in ext && '.' !in ext[1..])
  {
    var ext := SplitExt(p).1;
    if ext != "" {
      var d := RFind(p, '.');
      var s := RFind(p, '/');
      RFindLast(p, '.');
      RFindLast(p, '/');
      assert ext == p[d..];
      forall k | 0 <= k < |ext| ensures ext[k] != '/' && (k > 0 ==> ext[k] != '.') {
        assert ext[k] == p[d + k];
      }
    }
  }

  /** The last `c` of `a + b` is the last one of `b` if `b` has one, else lies in `a`. */
  lemma RFindConcat(a: string, b: string, c: char)
    ensures RFind(b, c) >= 0 ==> RFind(a + b, c) == |a| + RFind(b, c)
    ensures RFind(b, c) < 0 ==> RFind(a + b, c) < |a|
  {
    var w := a + b;
    assert forall k :: |a| <= k < |w| ==> w[k] == b[k - |a|];
    RFindLast(b, c);
    if RFind(b, c) >= 0 {
      RFindIs(w, c, |a| + RFind(b, c));
    }
  }

  /** `splitext` after a slash only looks at what follows the slash. */
  lemma SplitExtAfterSlash(d: string, l: string)
    requires '/' !in l
    ensures SplitExt(d + "/" + l) == (d + "/" + SplitExt(l).0, SplitExt(l).1)
  {
    var a := d + "/";
    var w := a + l;
    var n := |a|;
    RFindConcat(a, l, '.');
    assert forall k :: n <= k < |w| ==> w[k] == l[k - n];
    RFindIs(w, '/', |d|);
    var dl := RFind(l, '.');
    if dl >= 0 {
      assert (exists k :: n <= k < n + dl && w[k] != '.') <==> (exists k :: 0 <= k < dl && l[k] != '.') by {
        forall k | n <= k < n + dl ensures w[k] == l[k - n] {}
        forall k | 0 <= k < dl ensures l[k] == w[k + n] {}
      }
      assert w[..n + dl] == a + l[..dl];
      assert w[n + dl..] == l[dl..];
    } else {
      assert w[|d|] == '/';
    }
  }

  /**
   * A slash-free name with a character other than a dot before its last dot
   * loses exactly the text from that dot on.
   */
  lemma SplitExtOfName(s: string, e: string)
    requires '/' !in s && '/' !in e && '.' !in e
    requires exists k :: 0 <= k < |s| && s[k] != '.'
    ensures SplitExt(s + "." + e) == (s, "." + e)
  {
    var p := s + "." + e;
    var n := |s|;
    assert forall k :: 0 <= k < n ==> p[k] == s[k];
    assert forall k :: n < k < |p| ==> p[k] == e[k - n - 1];
    RFindIs(p, '.', n);
    assert forall k :: 0 <= k < |p| ==> p[k] != '/' by {
      forall k | 0 <= k < |p| ensures p[k] != '/' {
        if k < n { assert p[k] in s; } else if k > n { assert p[k] in e; }
      }
    }
    RFindIs(p, '/', -1);
    var k :| 0 <= k < n && s[k] != '.';
    assert p[k] != '.';
    assert p[..n] == s;
    assert p[n..] == "." + e;
  }

  /** In a path, only the last component's last extension is removed. */
  lemma SplitExtOfPath(d: string, s: string, e: string)
    requires '/' !in s && '/' !in e && '.' !in e
    requires exists k :: 0 <= k < |s| && s[k] != '.'
    ensures SplitExt(d + "/" + s + "." + e) == (d + "/" + s, "." + e)
  {
    var l := s + "." + e;
    SplitExtOfName(s, e);
    assert '/' !in l by {
      forall k | 0 <= k < |l| ensures l[k] != '/' {
        if k < |s| { assert l[k] in s; } else if k > |s| { assert l[k] in e; }
      }
    }
    SplitExtAfterSlash(d, l);
    assert d + "/" + s + "." + e == d + "/" + l;
  }

  /**
   * A slash-free name whose dots all come before its other characters (no
   * dot, or only leading dots as in `.bashrc`) has no extension.
   */
  lemma SplitExtKeepsName(l: string)
    requires '/' !in l
    requires forall i, j :: 0 <= i < j < |l| && l[j] == '.' ==> l[i] == '.'
    ensures SplitExt(l) == (l, "")
  {
    var dl := RFind(l, '.');
    if dl >= 0 {
      assert forall k :: 0 <= k < dl ==> l[k] == '.';
    }
  }

  /** In a path, such a last component keeps the whole path. */
  lemma SplitExtKeepsPath(d: string, l: string)
    requires '/' !in l
    requires forall i, j :: 0 <= i < j < |l| && l[j] == '.' ==> l[i] == '.'
    ensures SplitExt(d + "/" + l) == (d + "/" + l, "")
  {
    SplitExtKeepsName(l);
    SplitExtAfterSlash(d, l);
  }

  /** `splitext` of joined components strips the extension of the last one only. */
  lemma SplitExtJoinSeq(rel: seq<string>)
    requires |rel| > 0 && '/' !in rel[|rel| - 1]
    ensures var n, l := |rel|, rel[|rel| - 1];
      SplitExt(JoinSeq(rel)) == (JoinSeq(rel[..n - 1] + [SplitExt(l).0]), SplitExt(l).1)
  {
    var n, l := |rel|, rel[|rel| - 1];
    if n == 1 {
      assert rel[..n - 1] + [SplitExt(l).0] == [SplitExt(l).0];
      assert rel == [l];
    } else {
      SnocLast(rel);
      SplitExtJoinSnoc(rel[..n - 1], l);
    }
  }

  /** A non-empty sequence is its front followed by its last element. */
  lemma SnocLast<T>(s: seq<T>)
    requires |s| > 0
    ensures s == s[..|s| - 1] + [s[|s| - 1]]
  {
  }

  lemma SplitExtJoinSnoc(init: seq<string>, l: string)
    requires |init| > 0 && '/' !in l
    ensures SplitExt(JoinSeq(init + [l])) == (JoinSeq(init + [SplitExt(l).0]), SplitExt(l).1)
  {
    var j := JoinSeq(init);
    assert JoinSeq(init + [l]) == j + "/" + l by {
      JoinSeqConcat(init, [l]);
    }
    assert JoinSeq(init + [SplitExt(l).0]) == j + "/" + SplitExt(l).0 by {
      JoinSeqConcat(init, [SplitExt(l).0]);
    }
    SplitExtAfterSlash(j, l);
  }

  /**
   * The stem of a proper component that does not start with a dot is itself a
   * proper component, and the extension is empty or starts with a dot.
   */
  lemma StemOfVisible(l: string)
    requires ProperComp(l) && l[0] != '.'
    ensures var (stem, ext) := SplitExt(l);
      ProperComp(stem) && stem[0] == l[0] && l == stem + ext && (ext == "" || ext[0] == '.')
  {
    SplitExtJoins(l);
    var (stem, ext) := SplitExt(l);
    var dl := RFind(l, '.');
    if ext != "" {
      assert dl > 0;
      assert stem == l[..dl];
      assert ext[0] == l[dl];
    }
    assert stem[0] == l[0];
    assert '/' !in stem by {
      forall k | 0 <= k < |stem| ensures stem[k] == l[k] {}
    }
  }

  /** Nothing after the index `RFind` reports is `c`. */
  lemma {:induction false} RFindLast(s: string, c: char)
    ensures forall k :: RFind(s, c) < k < |s| ==> s[k] != c
  {
    if |s| > 0 && s[|s| - 1] != c {
      RFindLast(s[..|s| - 1], c);
    }
  }

  /** `RFind` is pinned down by its contract: the last occurrence, or -1. */
  lemma RFindIs(s: string, c: char, i: int)
    requires -1 <= i < |s| && (i >= 0 ==> s[i] == c)
    requires forall k :: i < k < |s| ==> s[k] != c
    ensures RFind(s, c) == i
  {
  }

  /** Only the last extension of the final component is stripped. */
  lemma SplitExtExamples()
    ensures SplitExt("git/tar.md") == ("git/tar", ".md")
    ensures SplitExt("tar.md.bak") == ("tar.md", ".bak")
    ensures SplitExt(".bashrc") == (".bashrc", "")
    ensures SplitExt("v1.0/notes") == ("v1.0/notes", "")
  {
    RFindIs("git/tar.md", '.', 7);
    RFindIs("git/tar.md", '/', 3);
    assert "git/tar.md"[4] != '.';
    RFindIs("tar.md.bak", '.', 6);
    RFindIs("tar.md.bak", '/', -1);
    assert "tar.md.bak"[0] != '.';
    RFindIs(".bashrc", '.', 0);
    RFindIs(".bashrc", '/', -1);
    RFindIs("v1.0/notes", '.', 2);
    RFindIs("v1.0/notes", '/', 4);
    assert "git/tar.md"[..7] == "git/tar" && "git/tar.md"[7..] == ".md";
    assert "tar.md.bak"[..6] == "tar.md" && "tar.md.bak"[6..] == ".bak";
  }
  // ---------------------------------------------------------------------------
  // `os.path.split` and children of a directory

  /** What follows a non-slash character does not change the root `normpath` keeps. */
  lemma RootOfAfterNonSlash(a: string, x: string)
    requires NonSlashEnd(a)
    ensures RootOf(a + x) == RootOf(a)
  {
    var w := a + x;
    assert forall k :: 0 <= k < |a| ==> w[k] == a[k];
    if |a| >= 3 {
      assert w[..1] == a[..1] && w[..2] == a[..2] && w[..3] == a[..3];
    } else if |a| == 2 {
      assert w[..1] == a[..1];
      assert !StartsWith(w, "//") && !StartsWith(a, "//");
    } else {
      assert !StartsWith(w, "/") && !StartsWith(a, "/");
    }
  }

  /** A tail that starts with a non-slash character does not change the root `normpath` keeps. */
  lemma RootOfAppendNonSlash(s: string, x: string)
    requires |x| > 0 && x[0] != '/'
    ensures RootOf(s + x) == RootOf(s)
  {
    var w := s + x;
    assert forall k :: 0 <= k < |s| ==> w[k] == s[k];
    assert w[|s|] == x[0];
    if |s| >= 3 {
      assert w[..1] == s[..1] && w[..2] == s[..2] && w[..3] == s[..3];
    } else if |s| == 2 {
      assert w[..1] == s[..1] && w[..2] == s[..2];
      assert !StartsWith(w, "///");
    } else if |s| == 1 {
      assert w[..1] == s[..1];
      assert !StartsWith(w, "//");
    } else {
      assert !StartsWith(w, "/");
    }
  }

  /** `normpath`'s loop over one more component takes one more step. */
  lemma NormCompsSnoc(acc: seq<string>, cs: seq<string>, x: string, rooted: bool)
    ensures NormComps(acc, cs + [x], rooted) == NormStep(NormComps(acc, cs, rooted), x, rooted)
  {
    NormCompsConcat(acc, cs, [x], rooted);
    var m := NormComps(acc, cs, rooted);
    assert NormComps(m, [x], rooted) == NormComps(NormStep(m, x, rooted), [], rooted);
  }

  /** Splitting `a/b` where `b` has no slash gives the pieces of `a`, then `b`. */
  lemma SplitSnoc(a: string, b: string)
    requires '/' !in b
    ensures Split(a + "/" + b) == Split(a) + [b]
  {
    SplitAtSlash(a, b);
    SplitNoSlash(b);
  }

  /**
   * `os.path.join(head, n)` names the child `n` of the directory `head` (the
   * current one when `head` is empty), for a proper component `n` and a `head`
   * as `os.path.split` leaves it.
   */
  lemma JoinChildComps(cwd: string, head: string, n: string)
    requires ProperComp(n)
    requires head == "" || AllSlashes(head) || head[|head| - 1] != '/'
    ensures AbsComps(cwd, Join(head, n)) == AbsComps(cwd, if head == "" then "." else head) + [n]
  {
    if head == "" {
      ChildOfCwd(cwd, n);
    } else if AllSlashes(head) {
      ChildOfSlashes(cwd, head, n);
    } else {
      assert NonSlashEnd(head);
      ChildOfDir(cwd, head, n);
    }
  }

  /** A child of a run of slashes (the root) keeps that run. */
  lemma ChildOfSlashes(cwd: string, head: string, n: string)
    requires ProperComp(n) && head != "" && AllSlashes(head)
    ensures AbsComps(cwd, Join(head, n)) == AbsComps(cwd, head) + [n]
  {
    assert n[0] != '/';
    var h := head[..|head| - 1];
    assert head == h + "/" + "";
    var w := h + "/" + n;
    assert Join(head, n) == w;
    assert Absolute(cwd, w) == w;
    assert Absolute(cwd, head) == head;
    SplitSnoc(h, n);
    SplitSnoc(h, "");
    assert head + n == w;
    RootOfAppendNonSlash(head, n);
    var rooted := RootOf(head) != "";
    NormCompsSnoc([], Split(h), n, rooted);
    NormCompsSnoc([], Split(h), "", rooted);
  }

  /** A child of a directory spelled without a trailing slash. */
  lemma ChildOfDir(cwd: string, head: string, n: string)
    requires ProperComp(n) && NonSlashEnd(head)
    ensures AbsComps(cwd, Join(head, n)) == AbsComps(cwd, head) + [n]
  {
    AbsoluteChild(cwd, head, n);
    AbsoluteEnd(cwd, head);
    NormChild(Absolute(cwd, head), n);
  }

  /** The `normpath` loop over `a/n` keeps what it kept of `a`, then `n`. */
  lemma NormChild(a: string, n: string)
    requires NonSlashEnd(a) && ProperComp(n)
    ensures var w := a + "/" + n;
      NormComps([], Split(w), RootOf(w) != "") == NormComps([], Split(a), RootOf(a) != "") + [n]
  {
    var w := a + "/" + n;
    assert RootOf(w) == RootOf(a) by {
      RootOfAfterNonSlash(a, "/" + n);
      assert w == a + ("/" + n);
    }
    assert Split(w) == Split(a) + [n] by {
      SplitSnoc(a, n);
    }
    NormSnocProper(Split(a), Split(w), n, RootOf(w) != "", RootOf(a) != "");
  }

  /** The text is non-empty and does not end in a slash. */
  predicate NonSlashEnd(s: string) {
    |s| > 0 && s[|s| - 1] != '/'
  }

  /** Making `head/n` absolute makes `head` absolute and appends `/n`. */
  lemma AbsoluteChild(cwd: string, head: string, n: string)
    requires NonSlashEnd(head) && ProperComp(n)
    ensures Absolute(cwd, Join(head, n)) == Absolute(cwd, head) + "/" + n
  {
    assert n[0] != '/';
    assert Join(head, n) == head + "/" + n;
    assert (head + "/" + n)[0] == head[0];
    if !IsAbs(head) {
      var pre := if cwd == "" || cwd[|cwd| - 1] == '/' then cwd else cwd + "/";
      assert Join(cwd, head) == pre + head;
      assert Join(cwd, head + "/" + n) == pre + (head + "/" + n);
    }
  }

  /** Making a path absolute keeps its last character. */
  lemma AbsoluteEnd(cwd: string, head: string)
    requires NonSlashEnd(head)
    ensures NonSlashEnd(Absolute(cwd, head))
  {
    var a := Absolute(cwd, head);
    if !IsAbs(head) {
      assert EndsWith(a, head);
      assert a[|a| - 1] == a[|a| - |head|..][|head| - 1];
    }
  }

  /** `normpath`'s loop keeps a proper last component. */
  lemma NormSnocProper(cs: seq<string>, ds: seq<string>, n: string, r1: bool, r2: bool)
    requires ds == cs + [n] && r1 == r2 && ProperComp(n)
    ensures NormComps([], ds, r1) == NormComps([], cs, r2) + [n]
  {
    NormCompsSnoc([], cs, n, r2);
    NormStepProper(NormComps([], cs, r2), n, r2);
  }

  /** A proper component is always kept. */
  lemma NormStepProper(acc: seq<string>, n: string, rooted: bool)
    requires ProperComp(n)
    ensures NormStep(acc, n, rooted) == acc + [n]
  {
  }

  /** A bare name is the child of the current directory. */
  lemma ChildOfCwd(cwd: string, n: string)
    requires ProperComp(n)
    ensures AbsComps(cwd, n) == AbsComps(cwd, ".") + [n]
  {
    if cwd == "" {
      ChildOfEmptyCwd(n);
    } else {
      var q := if cwd[|cwd| - 1] == '/' then cwd[..|cwd| - 1] else cwd;
      JoinCwdSpelling(cwd, q, n);
      JoinCwdSpelling(cwd, q, ".");
      NormBesideDot(q, n);
    }
  }

  lemma ChildOfEmptyCwd(n: string)
    requires ProperComp(n)
    ensures AbsComps("", n) == AbsComps("", ".") + [n]
  {
    assert n[0] != '/';
    SplitNoSlash(n);
    SplitNoSlash(".");
    assert NormComps([], [n], false) == NormComps([n], [], false);
    assert NormComps([], ["."], false) == NormComps([], [], false);
  }

  /** A relative name below a non-empty `cwd` is `cwd` less one trailing slash, a slash and the name. */
  lemma JoinCwdSpelling(cwd: string, q: string, n: string)
    requires cwd != "" && q == (if cwd[|cwd| - 1] == '/' then cwd[..|cwd| - 1] else cwd)
    requires |n| > 0 && n[0] != '/'
    ensures Absolute(cwd, n) == q + "/" + n
  {
    if cwd[|cwd| - 1] == '/' {
      assert cwd == q + "/";
    }
  }

  /** The `normpath` loop over `q/n` keeps what it keeps of `q/.`, then `n`. */
  lemma NormBesideDot(q: string, n: string)
    requires ProperComp(n)
    ensures var u, v := q + "/" + n, q + "/" + ".";
      NormComps([], Split(u), RootOf(u) != "") == NormComps([], Split(v), RootOf(v) != "") + [n]
  {
    var u, v := q + "/" + n, q + "/" + ".";
    assert RootOf(u) == RootOf(v) by {
      assert n[0] != '/';
      assert u == (q + "/") + n && v == (q + "/") + ".";
      RootOfAppendNonSlash(q + "/", n);
      RootOfAppendNonSlash(q + "/", ".");
    }
    assert Split(u) == Split(q) + [n] by {
      SplitSnoc(q, n);
    }
    assert Split(v) == Split(q) + ["."] by {
      SplitSnoc(q, ".");
    }
    var rooted := RootOf(u) != "";
    NormSnocProper(Split(q), Split(u), n, rooted, rooted);
    NormSnocDot(Split(q), Split(v), rooted);
  }

  /** `normpath`'s loop drops a last `.`. */
  lemma NormSnocDot(cs: seq<string>, ds: seq<string>, rooted: bool)
    requires ds == cs + ["."]
    ensures NormComps([], ds, rooted) == NormComps([], cs, rooted)
  {
    NormCompsSnoc([], cs, ".", rooted);
  }

  /** `os.path.split` of an entry's path: its parent's path and its last component. */
  lemma SplitPathOf(cs: seq<string>)
    requires AllProper(cs) && |cs| > 0
    ensures SplitPath(PathOf(cs)) == (PathOf(cs[..|cs| - 1]), cs[|cs| - 1])
  {
    var parent, y := cs[..|cs| - 1], cs[|cs| - 1];
    assert cs == parent + [y];
    assert AllProper(parent);
    PathOfSnoc(parent, y);
    LastSlashOfChild(DirPrefix(parent), y);
    DirPrefixStripped(parent);
  }

  /** In `d + y`, with `d` ending in a slash and `y` slash-free, the last slash ends `d`. */
  lemma LastSlashOfChild(d: string, y: string)
    requires |d| > 0 && d[|d| - 1] == '/' && '/' !in y
    ensures RFind(d + y, '/') == |d| - 1
    ensures (d + y)[..|d|] == d && (d + y)[|d|..] == y
  {
    var w := d + y;
    assert forall k :: |d| <= k < |w| ==> w[k] == y[k - |d|];
    RFindIs(w, '/', |d| - 1);
  }

  /** `os.path.split` strips the one trailing slash of a directory prefix, unless it is the root. */
  lemma DirPrefixStripped(parent: seq<string>)
    requires AllProper(parent)
    ensures var d := DirPrefix(parent);
      (if AllSlashes(d) then d else RStripSlash(d)) == PathOf(parent)
  {
    if |parent| > 0 {
      var d := DirPrefix(parent);
      var j := JoinSeq(parent);
      assert ProperComp(parent[0]);
      JoinSeqFirst(parent);
      assert d[1] == j[0];
      assert !AllSlashes(d);
      assert ProperComp(parent[|parent| - 1]);
      JoinSeqLast(parent);
      assert d == PathOf(parent) + "/";
      var q := PathOf(parent);
      assert q[|q| - 1] == j[|j| - 1];
      assert d[..|d| - 1] == q;
    }
  }

  /** `os.path.split` of a directory's path with a trailing slash: the directory's path and nothing. */
  lemma SplitPathDirPrefix(ds: seq<string>)
    requires AllProper(ds)
    ensures SplitPath(DirPrefix(ds)) == (PathOf(ds), "")
  {
    var d := DirPrefix(ds);
    LastSlashOfChild(d, "");
    assert d + "" == d;
    DirPrefixStripped(ds);
  }

  /**
   * `expanduser` by cases: a path without a leading tilde is unchanged; `~`
   * and `~/...` put `$HOME` (without trailing slashes) in place of the tilde;
   * `~user` and `~user/...` do the same with that user's home, and are left
   * unchanged for an unknown user. An empty result becomes `/`.
   */
  lemma ExpandUserCases(p: string, home: string, userHomes: map<string, string>, user: string, rest: string)
    ensures !StartsWith(p, "~") ==> ExpandUser(p, home, userHomes) == p
    ensures p == "~" + rest && (rest == "" || rest[0] == '/') ==>
      ExpandUser(p, home, userHomes) == OrRoot(RStripSlash(home) + rest)
    ensures p == "~" + user + rest && user != "" && '/' !in user && (rest == "" || rest[0] == '/') ==>
      ExpandUser(p, home, userHomes) == if user in userHomes then OrRoot(RStripSlash(userHomes[user]) + rest) else p
  {
    if p == "~" + user + rest && user != "" && '/' !in user && (rest == "" || rest[0] == '/') {
      var i := 1 + |user|;
      assert p[1..i] == user && p[i..] == rest;
      FindSlashIs(p, 1, i);
    }
    if p == "~" + rest && (rest == "" || rest[0] == '/') {
      assert p[1..] == rest;
      FindSlashIs(p, 1, 1);
    }
  }

  /** `s or '/'`. */
  function OrRoot(s: string): string {
    if s == "" then "/" else s
  }
}
