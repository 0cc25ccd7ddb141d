/**
 * The search view, `search_cheatsheets(term, paths)`: every line of every
 * visible, readable sheet of every layer that is a directory, whose lower-cased
 * text contains the lower-cased term. No name filter applies and nothing
 * shadows: a sheet present in several layers is searched in each.
 */
module Search {

  import opened Wrappers
  import opened Text
  import opened FileSystem
  import opened Cheatpaths
  import opened Aggregator

  /** One printed hit: the sheet's name, the 1-based line number and the stripped line. */
  datatype Hit = Hit(sheet: string, line: nat, text: string)

  /** `term.lower() in line.lower()`. */
  predicate Matches(term: string, line: string) {
    Contains(Lower(line), Lower(term))
  }

  /** The hits among the lines of the sheet `sheet`, in line order. */
  function LineHits(term: string, sheet: string, lines: seq<string>): seq<Hit> {
    HitsBy(line => Matches(term, line), Strip, sheet, lines)
  }

  /** The lines that satisfy `matches`, as hits numbered from one with the text `text` gives. */
  function HitsBy(matches: string -> bool, text: string -> string, sheet: string, lines: seq<string>): seq<Hit>
    decreases |lines|
  {
    if |lines| == 0 then []
    else
      var n := |lines|;
      HitsBy(matches, text, sheet, lines[..n - 1])
        + (if matches(lines[n - 1]) then [Hit(sheet, n, text(lines[n - 1]))] else [])
  }

  /** The hits in one walked file: none when it is hidden or cannot be read. */
  function EntryHits(cwd: string, base: string, term: string, e: Entry): seq<Hit> {
    if Hidden(e) then []
    else
      match e.kind
      case File(Some(lines)) => LineHits(term, SheetName(cwd, base, e), lines)
      case _ => []
  }

  /** The hits of the walked files `files` of the layer rooted at `base`, in walk order. */
  function FileHits(cwd: string, base: string, term: string, files: seq<Entry>): seq<Hit> {
    ConcatOf(e => EntryHits(cwd, base, term, e), files)
  }

  /** The hits of one layer: none unless its path is a directory. */
  function LayerHits(fs: FileSystem, cwd: string, term: string, c: Cheatpath): seq<Hit> {
    if IsDir(fs, cwd, c.path) then FileHits(cwd, c.path, term, Walk(fs, cwd, c.path)) else []
  }

  /** The hits of the layers `paths`, in layer order. */
  function SearchHits(fs: FileSystem, cwd: string, term: string, paths: seq<Cheatpath>): seq<Hit> {
    ConcatOf(c => LayerHits(fs, cwd, term, c), paths)
  }

  /** What `hitsOf` gives for each of `xs`, one after the other. */
  function ConcatOf<T>(hitsOf: T -> seq<Hit>, xs: seq<T>): seq<Hit>
    decreases |xs|
  {
    if |xs| == 0 then []
    else ConcatOf(hitsOf, xs[..|xs| - 1]) + hitsOf(xs[|xs| - 1])
  }

  /**
   * `search_cheatsheets(term, paths)`: the hits it prints, in order, and
   * whether it printed any.
   */
  method SearchCheatsheets(fs: FileSystem, cwd: string, term: string, paths: seq<Cheatpath>)
    returns (hits: seq<Hit>, found: bool)
    ensures hits == SearchHits(fs, cwd, term, paths)
    ensures found <==> |hits| > 0
  {
    hits, found := [], false;
    for i := 0 to |paths|
      invariant hits == SearchHits(fs, cwd, term, paths[..i])
      invariant found <==> |hits| > 0
    {
      var entry := paths[i];
      assert paths[..i + 1][..i] == paths[..i];
      var baseDir := entry.path;
      if !IsDir(fs, cwd, baseDir) {
        continue;
      }
      var layerHits := SearchFiles(cwd, baseDir, term, Walk(fs, cwd, baseDir));
      hits := hits + layerHits;
      found := found || |layerHits| > 0;
    }
    assert paths[..|paths|] == paths;
  }

  /** The loop over the files `os.walk` yields for one layer. */
  method SearchFiles(cwd: string, baseDir: string, term: string, files: seq<Entry>) returns (hits: seq<Hit>)
    ensures hits == FileHits(cwd, baseDir, term, files)
  {
    hits := [];
    for k := 0 to |files|
      invariant hits == FileHits(cwd, baseDir, term, files[..k])
    {
      var file := files[k];
      assert files[..k + 1][..k] == files[..k];
      if Hidden(file) {
        continue;
      }
      if file.kind.File? && file.kind.lines.Some? {
        var sheetName := SheetName(cwd, baseDir, file);
        var fileHits := SearchLines(term, sheetName, file.kind.lines.value);
        hits := hits + fileHits;
      }
    }
    assert files[..|files|] == files;
  }

  /** The loop over the lines of one readable file. */
  method SearchLines(term: string, sheet: string, lines: seq<string>) returns (hits: seq<Hit>)
    ensures hits == LineHits(term, sheet, lines)
  {
    hits := [];
    for i := 0 to |lines|
      invariant hits == LineHits(term, sheet, lines[..i])
    {
      assert lines[..i + 1][..i] == lines[..i];
      if Contains(Lower(lines[i]), Lower(term)) {
        hits := hits + [Hit(sheet, i + 1, Strip(lines[i]))];
      }
    }
    assert lines[..|lines|] == lines;
  }

  /** The hits of a sheet are exactly its matching lines, each numbered from one and stripped. */
  lemma LineHitsMembers(term: string, sheet: string, lines: seq<string>)
    ensures forall h :: h in LineHits(term, sheet, lines) <==>
      exists k :: 0 <= k < |lines| && Matches(term, lines[k]) && h == Hit(sheet, k + 1, Strip(lines[k]))
  {
    HitsByMembers(line => Matches(term, line), Strip, sheet, lines);
  }

  lemma {:induction false} HitsByMembers(matches: string -> bool, text: string -> string, sheet: string, lines: seq<string>)
    ensures forall h :: h in HitsBy(matches, text, sheet, lines) <==>
      exists k :: 0 <= k < |lines| && matches(lines[k]) && h == Hit(sheet, k + 1, text(lines[k]))
    decreases |lines|
  {
    if |lines| > 0 {
      var n := |lines|;
      var init := lines[..n - 1];
      HitsByMembers(matches, text, sheet, init);
      assert forall k :: 0 <= k < n - 1 ==> init[k] == lines[k];
    }
  }

  /** Every hit's line number lies between one and `n`. */
  predicate NumberedUpTo(hs: seq<Hit>, n: nat) {
    forall i :: 0 <= i < |hs| ==> 1 <= hs[i].line <= n
  }

  /** The hits come in strictly ascending line order. */
  predicate Ascending(hs: seq<Hit>) {
    forall i, j :: 0 <= i < j < |hs| ==> hs[i].line < hs[j].line
  }

  /** The hits of a sheet come in strictly ascending line order, numbered from one to the number of lines. */
  lemma LineHitsAscending(term: string, sheet: string, lines: seq<string>)
    ensures NumberedUpTo(LineHits(term, sheet, lines), |lines|)
    ensures Ascending(LineHits(term, sheet, lines))
  {
    HitsByAscending(line => Matches(term, line), Strip, sheet, lines);
  }

  lemma {:induction false} HitsByAscending(matches: string -> bool, text: string -> string, sheet: string, lines: seq<string>)
    ensures NumberedUpTo(HitsBy(matches, text, sheet, lines), |lines|)
    ensures Ascending(HitsBy(matches, text, sheet, lines))
    decreases |lines|
  {
    if |lines| > 0 {
      var n := |lines|;
      var init := HitsBy(matches, text, sheet, lines[..n - 1]);
      HitsByAscending(matches, text, sheet, lines[..n - 1]);
      var tail := if matches(lines[n - 1]) then [Hit(sheet, n, text(lines[n - 1]))] else [];
      var hs := HitsBy(matches, text, sheet, lines);
      assert hs == init + tail;
      assert forall i :: 0 <= i < |init| ==> hs[i] == init[i];
      assert forall i :: |init| <= i < |hs| ==> hs[i] == tail[i - |init|];
    }
  }

  /** An empty term matches every line, so each line of a sheet is a hit. */
  lemma EmptyTermHitsAll(sheet: string, lines: seq<string>)
    ensures |LineHits("", sheet, lines)| == |lines|
  {
    forall k | 0 <= k < |lines| ensures Matches("", lines[k]) {
      assert OccursAt(Lower(lines[k]), Lower(""), 0);
    }
    HitsByAll(line => Matches("", line), Strip, sheet, lines);
  }

  lemma {:induction false} HitsByAll(matches: string -> bool, text: string -> string, sheet: string, lines: seq<string>)
    requires forall k :: 0 <= k < |lines| ==> matches(lines[k])
    ensures |HitsBy(matches, text, sheet, lines)| == |lines|
    decreases |lines|
  {
    if |lines| > 0 {
      var init := lines[..|lines| - 1];
      assert forall k :: 0 <= k < |init| ==> init[k] == lines[k];
      HitsByAll(matches, text, sheet, init);
    }
  }

  lemma {:induction false} ConcatOfAppend<T>(hitsOf: T -> seq<Hit>, xs: seq<T>, ys: seq<T>)
    ensures ConcatOf(hitsOf, xs + ys) == ConcatOf(hitsOf, xs) + ConcatOf(hitsOf, ys)
    decreases |ys|
  {
    var all := xs + ys;
    if |ys| == 0 {
      assert all == xs;
    } else {
      var last := |ys| - 1;
      assert all[|all| - 1] == ys[last];
      assert all[..|all| - 1] == xs + ys[..last];
      ConcatOfAppend(hitsOf, xs, ys[..last]);
    }
  }

  /**
   * Nothing shadows in a search: the hits of `lower + upper` are the hits
   * of `lower` followed by those of `upper`.
   */
  lemma SearchHitsAppend(fs: FileSystem, cwd: string, term: string, lower: seq<Cheatpath>, upper: seq<Cheatpath>)
    ensures SearchHits(fs, cwd, term, lower + upper) == SearchHits(fs, cwd, term, lower) + SearchHits(fs, cwd, term, upper)
  {
    ConcatOfAppend(c => LayerHits(fs, cwd, term, c), lower, upper);
  }

  /** A walked file the search reads: visible, and it could be opened. */
  predicate Readable(e: Entry) {
    !Hidden(e) && e.kind.File? && e.kind.lines.Some?
  }

  /** Some line of `lines` matches `term`. */
  ghost predicate SomeLineMatches(term: string, lines: seq<string>) {
    exists k :: 0 <= k < |lines| && Matches(term, lines[k])
  }

  /** Some readable file among `files` has a line that matches `term`. */
  ghost predicate SomeFileMatches(term: string, files: seq<Entry>) {
    exists k :: 0 <= k < |files| && Readable(files[k]) && SomeLineMatches(term, files[k].kind.lines.value)
  }

  /**
   * The search reports something exactly when some layer that is a
   * directory has a readable walked file with a matching line.
   */
  lemma SearchFinds(fs: FileSystem, cwd: string, term: string, paths: seq<Cheatpath>)
    ensures |SearchHits(fs, cwd, term, paths)| > 0 <==>
      exists i :: 0 <= i < |paths| && IsDir(fs, cwd, paths[i].path) && SomeFileMatches(term, Walk(fs, cwd, paths[i].path))
  {
    ConcatOfNonEmpty(c => LayerHits(fs, cwd, term, c), paths);
    forall i | 0 <= i < |paths|
      ensures |LayerHits(fs, cwd, term, paths[i])| > 0 <==>
        IsDir(fs, cwd, paths[i].path) && SomeFileMatches(term, Walk(fs, cwd, paths[i].path))
    {
      LayerHitsNonEmpty(fs, cwd, term, paths[i]);
    }
  }

  /** A layer has hits exactly when it is a directory and one of its walked files has a matching line. */
  lemma LayerHitsNonEmpty(fs: FileSystem, cwd: string, term: string, c: Cheatpath)
    ensures |LayerHits(fs, cwd, term, c)| > 0 <==> IsDir(fs, cwd, c.path) && SomeFileMatches(term, Walk(fs, cwd, c.path))
  {
    var files := Walk(fs, cwd, c.path);
    FileHitsNonEmpty(cwd, c.path, term, files);
  }

  lemma FileHitsNonEmpty(cwd: string, base: string, term: string, files: seq<Entry>)
    ensures |FileHits(cwd, base, term, files)| > 0 <==> SomeFileMatches(term, files)
  {
    ConcatOfNonEmpty(e => EntryHits(cwd, base, term, e), files);
    forall k | 0 <= k < |files|
      ensures |EntryHits(cwd, base, term, files[k])| > 0 <==>
        (Readable(files[k]) && SomeLineMatches(term, files[k].kind.lines.value))
    {
      EntryHitsNonEmpty(cwd, base, term, files[k]);
    }
  }

  /** A walked file has hits exactly when it is readable and one of its lines matches. */
  lemma EntryHitsNonEmpty(cwd: string, base: string, term: string, e: Entry)
    ensures |EntryHits(cwd, base, term, e)| > 0 <==> (Readable(e) && SomeLineMatches(term, e.kind.lines.value))
  {
    if Readable(e) {
      LineHitsNonEmpty(term, SheetName(cwd, base, e), e.kind.lines.value);
    }
  }

  lemma LineHitsNonEmpty(term: string, sheet: string, lines: seq<string>)
    ensures |LineHits(term, sheet, lines)| > 0 <==> SomeLineMatches(term, lines)
  {
    HitsByNonEmpty(line => Matches(term, line), Strip, sheet, lines);
  }

  lemma {:induction false} HitsByNonEmpty(matches: string -> bool, text: string -> string, sheet: string, lines: seq<string>)
    ensures |HitsBy(matches, text, sheet, lines)| > 0 <==> exists k :: 0 <= k < |lines| && matches(lines[k])
    decreases |lines|
  {
    if |lines| > 0 {
      var n := |lines|;
      var init := lines[..n - 1];
      HitsByNonEmpty(matches, text, sheet, init);
      assert forall k :: 0 <= k < n - 1 ==> init[k] == lines[k];
      if (exists k :: 0 <= k < n && matches(lines[k])) && !matches(lines[n - 1]) {
        var k :| 0 <= k < n && matches(lines[k]);
        assert init[k] == lines[k];
      }
    }
  }

  /** The concatenation is non-empty exactly when one of its parts is. */
  lemma {:induction false} ConcatOfNonEmpty<T>(hitsOf: T -> seq<Hit>, xs: seq<T>)
    ensures |ConcatOf(hitsOf, xs)| > 0 <==> exists i :: 0 <= i < |xs| && |hitsOf(xs[i])| > 0
    decreases |xs|
  {
    if |xs| > 0 {
      var init := xs[..|xs| - 1];
      ConcatOfNonEmpty(hitsOf, init);
      assert forall i :: 0 <= i < |init| ==> init[i] == xs[i];
    }
  }

  lemma LowerIdempotent(s: string)
    ensures Lower(Lower(s)) == Lower(s)
  {
  }

  /** Matching ignores case on both sides: the term and the line may be lower-cased first. */
  lemma MatchesIgnoresCase(term: string, line: string)
    ensures Matches(term, line) <==> Matches(Lower(term), line)
    ensures Matches(term, line) <==> Matches(term, Lower(line))
  {
    LowerIdempotent(term);
    LowerIdempotent(line);
  }

  /** Two terms that agree once lower-cased find the same hits in a sheet. */
  lemma LineHitsIgnoreCase(t1: string, t2: string, sheet: string, lines: seq<string>)
    requires Lower(t1) == Lower(t2)
    ensures LineHits(t1, sheet, lines) == LineHits(t2, sheet, lines)
  {
    HitsByPointwise(line => Matches(t1, line), line => Matches(t2, line), Strip, sheet, lines);
  }

  /** Hits by two tests that agree on every line agree. */
  lemma {:induction false} HitsByPointwise(m1: string -> bool, m2: string -> bool, text: string -> string, sheet: string, lines: seq<string>)
    requires forall k :: 0 <= k < |lines| ==> m1(lines[k]) == m2(lines[k])
    ensures HitsBy(m1, text, sheet, lines) == HitsBy(m2, text, sheet, lines)
    decreases |lines|
  {
    if |lines| > 0 {
      var init := lines[..|lines| - 1];
      assert forall k :: 0 <= k < |init| ==> init[k] == lines[k];
      HitsByPointwise(m1, m2, text, sheet, init);
    }
  }

  /** Concatenations of parts that agree agree. */
  lemma {:induction false} ConcatOfPointwise<T>(f: T -> seq<Hit>, g: T -> seq<Hit>, xs: seq<T>)
    requires forall i :: 0 <= i < |xs| ==> f(xs[i]) == g(xs[i])
    ensures ConcatOf(f, xs) == ConcatOf(g, xs)
    decreases |xs|
  {
    if |xs| > 0 {
      var init := xs[..|xs| - 1];
      assert forall i :: 0 <= i < |init| ==> init[i] == xs[i];
      ConcatOfPointwise(f, g, init);
    }
  }

  /** The search is case-insensitive in its term: terms that agree once lower-cased give the same hits. */
  lemma SearchIgnoresCase(fs: FileSystem, cwd: string, t1: string, t2: string, paths: seq<Cheatpath>)
    requires Lower(t1) == Lower(t2)
    ensures SearchHits(fs, cwd, t1, paths) == SearchHits(fs, cwd, t2, paths)
  {
    forall i | 0 <= i < |paths|
      ensures LayerHits(fs, cwd, t1, paths[i]) == LayerHits(fs, cwd, t2, paths[i])
    {
      var c := paths[i];
      var files := Walk(fs, cwd, c.path);
      forall k | 0 <= k < |files|
        ensures EntryHits(cwd, c.path, t1, files[k]) == EntryHits(cwd, c.path, t2, files[k])
      {
        var e := files[k];
        if !Hidden(e) && e.kind.File? && e.kind.lines.Some? {
          LineHitsIgnoreCase(t1, t2, SheetName(cwd, c.path, e), e.kind.lines.value);
        }
      }
      ConcatOfPointwise(e => EntryHits(cwd, c.path, t1, e), e => EntryHits(cwd, c.path, t2, e), files);
    }
    ConcatOfPointwise(c => LayerHits(fs, cwd, t1, c), c => LayerHits(fs, cwd, t2, c), paths);
  }
}
