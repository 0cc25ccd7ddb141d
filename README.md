# cheatcheat layered namespace — a Dafny model

cheatcheat keeps cheatsheets in several directories, the *cheatpaths* or
layers. They are listed most global first and most local last, and the
working directory's `.cheat` directory, when there is one, is appended as the
most local layer of all. Four operations in `src/cheatcheat/main.py` define
the namespace those layers form:

* `get_cheatpaths` builds the layer list.
* `find_cheatsheet` resolves a name. It scans the layers most local first. A
  candidate that escapes its layer by the string-prefix test is skipped. In a
  layer, an exact file wins over a `name.*` glob match.
* `list_cheatsheets` prints the union of every layer's sheet names, sorted.
  The names are optionally limited to one named layer.
* `search_cheatsheets` prints every line, of every sheet in every layer, that
  contains the term, ignoring case.

`edit_cheatsheet` chooses where a write goes. A sheet found in a writable
layer is edited in place. One found in a read-only layer is copied into the
first writable layer in list order, and the copy is edited. A sheet not found
is created in that same layer.

The model works on values. A file system is a list of entries, each named by
the components of its absolute path, and every entry lies in a directory
entry or directly under the root. The list order stands for the order in which
the operating system enumerates a directory, and `glob.glob` reports its
matches in it. `os.walk`'s order is not modelled: the model walks the
entries in list order, where Python goes top-down, a directory's files
before its subdirectories. The working directory, `$HOME` and the password database are
parameters. Python's `posixpath` functions are written out on strings:
`join`, `split`, `normpath`, `abspath`, `relpath`, `splitext`, `basename` and
`expanduser`.

Modules: `Wrappers`, `PosixPath`, `Text`, `FileSystem`, `Cheatpaths`
(`get_cheatpaths`), `Resolver` (`find_cheatsheet`), `Aggregator`
(`list_cheatsheets`), `Search` (`search_cheatsheets`) and `WriteRouter`
(`edit_cheatsheet`).

Three behaviours are modelled faithfully because they follow from the code as
written:

* The escape check compares the two `abspath` strings by string prefix, not
  by components. An escaping name whose target starts with the layer
  directory's spelling therefore passes it: `../gx` beside a layer `g`
  passes. `Resolver.SiblingPassesPrefixTest` states exactly when this happens.
* The copy target is the first writable layer in list order, which is the
  most global one. The lookup prefers the most local layer. Read and write
  priority therefore disagree; `WriteRouter.CopyLayerVersusWinner` and
  `WriteRouter.LookupFramedByWinner` state the consequence.
* A read-only winning layer without a `name` key makes the notice printed
  before the copy raise `KeyError`. The model gives this its own outcome.

## Model

| member | source | states |
|---|---|---|
| Cheatpaths.GetCheatpaths | src/cheatcheat/main.py:29-61 | The result is every configured record in order with its path expanded, then exactly one local layer `{name: local, readonly: false, tags: [local]}` for `<cwd>/.cheat`, last, exactly when that is a directory; an absent `cheatpaths` key gives no configured layers. |
| PosixPath.Join | src/cheatcheat/main.py:76 | `os.path.join(a, b)` ends with `b`, and starts with `a` unless `b` is absolute. |
| PosixPath.JoinSplit | src/cheatcheat/main.py:77 | Joining the pieces of `s.split('/')` with slashes gives `s` back. |
| PosixPath.SplitJoin | src/cheatcheat/main.py:77 | Splitting slash-free components joined by slashes gives the components back. |
| PosixPath.SplitAtSlash | src/cheatcheat/main.py:77 | Splitting `a/b` is splitting `a` followed by splitting `b`. |
| PosixPath.AbsPathShape | src/cheatcheat/main.py:77 | With an absolute working directory `abspath` is absolute, made of proper components (no empty part, `.` or `..`), and spelled as its root followed by those components. |
| PosixPath.NormCompsRootedProper | src/cheatcheat/main.py:77 | Rooted `normpath` never keeps a `..` or empty component. |
| PosixPath.AbsPathOfPathOf | src/cheatcheat/main.py:77 | A path made of proper components is its own `abspath` and has exactly those components. |
| PosixPath.JoinPathOf | src/cheatcheat/main.py:76 | Joining a relative path of proper components to a directory path names the directory's components followed by the path's. |
| PosixPath.AbsPathSibling | src/cheatcheat/main.py:76-77 | `abspath(join(dir, "../x"))` is the sibling `x` of `dir`. |
| PosixPath.PathOfPrefix | src/cheatcheat/main.py:77 | A directory's path is a string prefix of the path of anything below it. |
| PosixPath.StartsWithCommon | src/cheatcheat/main.py:77 | A shared prefix does not change the outcome of `startswith`. |
| PosixPath.RelPathBelow | src/cheatcheat/main.py:113 | `relpath` of a file below the start directory is its components after the start's, joined with slashes. |
| PosixPath.SplitExtJoins | src/cheatcheat/main.py:118 | The two parts of `splitext` concatenate back to the path. |
| PosixPath.SplitExtShape | src/cheatcheat/main.py:118 | The extension is empty, or one dot followed by neither a slash nor another dot. |
| PosixPath.SplitExtAfterSlash | src/cheatcheat/main.py:118 | `splitext` of `d/l` only looks at `l`. |
| PosixPath.SplitExtJoinSeq | src/cheatcheat/main.py:118 | `splitext` of joined components strips the extension of the last component only. |
| PosixPath.SplitExtOfName | src/cheatcheat/main.py:118 | A slash-free name `s.e`, where `e` has no dot and `s` has a character other than a dot, splits into `s` and `.e`: exactly the last extension is removed. |
| PosixPath.SplitExtOfPath | src/cheatcheat/main.py:118 | The same in a path `d/s.e`: the result is `d/s` and `.e`. |
| PosixPath.SplitExtKeepsName | src/cheatcheat/main.py:118 | A slash-free name whose dots all precede its other characters (no dot, or only leading dots as in `.bashrc`) has no extension and is kept whole. |
| PosixPath.SplitExtKeepsPath | src/cheatcheat/main.py:118 | The same for such a last component in a path `d/l`. |
| PosixPath.StemOfVisible | src/cheatcheat/main.py:118 | The stem of a proper component not starting with a dot is a proper component, and the component is the stem plus an extension that is empty or starts with a dot. |
| PosixPath.SplitExtExamples | src/cheatcheat/main.py:118 | `git/tar.md` lists as `git/tar`, `tar.md.bak` as `tar.md`; `.bashrc` and `v1.0/notes` keep their names. |
| PosixPath.Basename | src/cheatcheat/main.py:210 | `basename` is the whole text after the path's last slash: it holds no slash, ends the path, and is preceded by a slash unless it is the whole path. |
| PosixPath.ExpandUser | src/cheatcheat/main.py:39 | `os.path.expanduser` on strings; `PosixPath.ExpandUserCases` states what it gives. |
| PosixPath.ExpandUserCases | src/cheatcheat/main.py:39 | A path without a leading `~` is unchanged; `~` and `~/...` take `$HOME` without trailing slashes in place of the tilde; `~user` and `~user/...` take that user's home, or stay unchanged for an unknown user; an empty result is `/`. |
| PosixPath.NormPath | src/cheatcheat/main.py:77 | `os.path.normpath` on strings; `PosixPath.NormCompsRootedProper` and `PosixPath.AbsPathOfPathOf` state its properties. |
| PosixPath.AbsPath | src/cheatcheat/main.py:77 | `os.path.abspath` against the working directory; `PosixPath.AbsPathShape`, `PosixPath.AbsPathOfPathOf` and `PosixPath.AbsPathSibling` state its properties. |
| PosixPath.RelPath | src/cheatcheat/main.py:113 | `os.path.relpath`; `PosixPath.RelPathBelow` states what it gives for a file below the start. |
| PosixPath.SplitExt | src/cheatcheat/main.py:118 | `os.path.splitext`; `PosixPath.SplitExtOfName`, `PosixPath.SplitExtOfPath`, `PosixPath.SplitExtKeepsName`, `PosixPath.SplitExtJoins` and `PosixPath.SplitExtShape` state what it gives. |
| PosixPath.SplitPath | src/cheatcheat/main.py:86 | `os.path.split`, as `glob` cuts its pattern. The rest is the whole text after the last slash: it holds no slash, ends the path, and is preceded by a slash unless it is the whole path. The directory part is the text before it, with its trailing slashes removed unless it is all slashes; it is a prefix of the path and is empty, all slashes, or ends in a non-slash. |
| PosixPath.SplitPathOf | src/cheatcheat/main.py:86 | Split of an entry's path gives its parent's path and its last component. |
| PosixPath.SplitPathDirPrefix | src/cheatcheat/main.py:86 | Split of a directory's path with a trailing slash gives the directory's path and an empty rest. |
| PosixPath.JoinChildComps | src/cheatcheat/main.py:86 | `os.path.join(head, n)`, for a directory part `head` as split leaves it and a proper name `n`, names the child `n` of the directory `head` (the current one when `head` is empty). |
| PosixPath.CommonPrefixLen | src/cheatcheat/main.py:113 | The common component prefix of `relpath` is a prefix of both lists and cannot be extended. |
| Text.Lower | src/cheatcheat/main.py:147 | `str.lower` keeps the length and lower-cases ASCII letters one by one. |
| Text.StripTrims | src/cheatcheat/main.py:151 | `line.strip()` is an infix of the line with only white space cut from either end, and neither end of it is white space. |
| Text.Strip | src/cheatcheat/main.py:151 | `line.strip()`; `Text.StripTrims` states what it removes. |
| Text.LessTransitive | src/cheatcheat/main.py:126 | Python's string order is transitive. |
| Text.LessTotal | src/cheatcheat/main.py:126 | Python's string order relates any two different strings. |
| Text.LessIrreflexive | src/cheatcheat/main.py:126 | No string is less than itself. |
| Text.Less | src/cheatcheat/main.py:126 | The code-point order `sorted` uses; `Text.LessTransitive`, `Text.LessTotal` and `Text.LessIrreflexive` state that it is a strict total order. |
| Text.Insert | src/cheatcheat/main.py:126 | Inserting into a strictly sorted sequence keeps it strictly sorted and adds exactly the new element. |
| Text.Sorted | src/cheatcheat/main.py:126 | `sorted(set)` is strictly ascending and holds exactly the set's elements. |
| FileSystem.LookupFinds | src/cheatcheat/main.py:81 | A path is found exactly when some entry has its components, and what is found is such an entry's kind. |
| FileSystem.LookupEntry | src/cheatcheat/main.py:81 | In a well-formed file system each entry is what its own path looks up. |
| FileSystem.IsFile | src/cheatcheat/main.py:81 | `os.path.isfile`; `FileSystem.IsFileByEntries` states when it holds. |
| FileSystem.IsDir | src/cheatcheat/main.py:53 | `os.path.isdir` (also main.py:103 and 135); `FileSystem.IsDirByEntries` states when it holds. |
| FileSystem.IsFileByEntries | src/cheatcheat/main.py:81 | In a well-formed file system, `isfile` holds exactly of a non-empty path whose normalised components are those of a regular file entry. |
| FileSystem.IsDirByEntries | src/cheatcheat/main.py:103 | In a well-formed file system, `isdir` holds exactly of a non-empty path that names the root or a directory entry. |
| FileSystem.GlobNonEmptyByEntries | src/cheatcheat/main.py:86-87 | In a well-formed file system, the glob matches something exactly when some entry lies directly in the listed directory and its name is the target's last part, a dot and anything. |
| FileSystem.Glob | src/cheatcheat/main.py:86 | `glob.glob(target + ".*")`: split the pattern at its last slash, list the directory part, keep the names that start with the rest and a dot; `FileSystem.GlobInMembers`, `FileSystem.GlobFound` and `FileSystem.GlobOfTrailingSlash` state what it gives. |
| FileSystem.GlobInMembers | src/cheatcheat/main.py:86 | The listing of a directory reports one match, spelled as the directory part joined with the name, for each entry directly in that directory whose name is the rest of the pattern, a dot and anything, and nothing else. |
| FileSystem.GlobFound | src/cheatcheat/main.py:86 | Every glob match names an existing entry, and is the target's directory part joined with its last part, a dot and a slash-free rest. |
| FileSystem.GlobOfTrailingSlash | src/cheatcheat/main.py:86 | A target ending in a slash globs inside that directory, for names starting with a dot, and matches nothing when it is not a directory. |
| FileSystem.Walk | src/cheatcheat/main.py:107-108 | The files `os.walk` yields; `FileSystem.WalkInMembers` states which. |
| FileSystem.Hidden | src/cheatcheat/main.py:109 | The `file.startswith('.')` test (also main.py:140); `Aggregator.LabelsOfMembers`, `Aggregator.ListedNamesMembers` and `Search.EntryHitsNonEmpty` state that such files are skipped. |
| FileSystem.Copy | src/cheatcheat/main.py:210 | `shutil.copy2` as far as contents go; `FileSystem.CopyEffect` states its effect. |
| FileSystem.WalkInMembers | src/cheatcheat/main.py:107-108 | `os.walk` reaches exactly the regular files strictly below its root. |
| FileSystem.CopyEffect | src/cheatcheat/main.py:210 | After `copy2` to a non-directory, the destination holds the source's contents, the source is untouched, and no other path changes. |
| FileSystem.Put | src/cheatcheat/main.py:210 | Writing a path gives it the new kind and leaves every other path as it was. |
| FileSystem.MakeDirs | src/cheatcheat/main.py:232 | `os.makedirs(d, exist_ok=True)`: creates each missing directory on the way to `d`, shortest first, and stops at a regular file; `FileSystem.MakeDirsEffect` states its effect. |
| FileSystem.MakeDirsEffect | src/cheatcheat/main.py:232 | Against an absolute working directory, `makedirs` keeps the file system well formed and only adds directories on the way to `d`. When no path on the way is a regular file, every one of them is a directory afterwards, `d` included. |
| FileSystem.MakeDirsKeeps | src/cheatcheat/main.py:207 | What existed before `makedirs` keeps its kind, so the sheet to be copied is still there. |
| FileSystem.MakeDirsOnlyAdds | src/cheatcheat/main.py:232 | Every path whose lookup `makedirs` changes named nothing before, is a prefix of the directory's components, and is now a directory. |
| FileSystem.MakeDirsCreates | src/cheatcheat/main.py:232 | When no prefix is a regular file, every prefix is a directory afterwards. |
| FileSystem.MakeDirsWellFormed | src/cheatcheat/main.py:232 | Each directory `makedirs` adds is properly named, new, and lies in a directory, so well-formedness is kept. |
| Resolver.FindBy | src/cheatcheat/main.py:70-91 | The reverse scan answers with the last layer that answers, with its answer, no later layer answering; it answers `(None, None)` exactly when no layer does. |
| Resolver.FindCheatsheetSpec | src/cheatcheat/main.py:63-91 | The same for `find_cheatsheet` and each layer's exact-then-glob answer. |
| Resolver.FindCheatsheet | src/cheatcheat/main.py:63-91 | `find_cheatsheet`; `Resolver.FindCheatsheetSpec`, `Resolver.NotFoundExactly` and `Resolver.FoundIsExactOrGlob` state what it returns. |
| Resolver.MatchInLayer | src/cheatcheat/main.py:71-89 | One layer's answer: the prefix test, then the exact file, then the first glob match; `Resolver.LayerAnswersByEntries` states when it answers. |
| Resolver.FoundIsExactOrGlob | src/cheatcheat/main.py:76-89 | A found sheet passed the prefix test and names an existing entry; it is the exact candidate when that is a file, and otherwise one of the candidate's glob matches, spelled as the candidate's directory part joined with its last part, a dot and a slash-free rest. |
| Resolver.NotFoundExactly | src/cheatcheat/main.py:76-91 | `(None, None)` comes back exactly when every layer fails the prefix test or has neither an exact file nor a glob match. |
| Resolver.LayerAnswersByEntries | src/cheatcheat/main.py:76-89 | In a well-formed file system a layer answers exactly when the candidate passes the prefix test and either a regular file entry has the candidate's components, or an entry lies directly in the glob's directory and is named by the candidate's last part, a dot and anything. |
| Resolver.ProperNameInside | src/cheatcheat/main.py:76-78 | A name of proper components always passes the prefix test and names a path below the layer root. |
| Resolver.SiblingPassesPrefixTest | src/cheatcheat/main.py:76-78 | `../x` beside a layer directory `g` passes the string-prefix test exactly when `x` starts with `g`. |
| Resolver.Shadowing | src/cheatcheat/main.py:70 | Layers placed before layers that answer never change the answer; when those layers do not answer, the answer is that of the earlier ones. |
| Aggregator.ListCheatsheets | src/cheatcheat/main.py:93-127 | The printed names are strictly ascending, hence each once, and are exactly the names the contributing layers offer. |
| Aggregator.Contributes | src/cheatcheat/main.py:99-104 | A layer is walked when no filter (or an empty one) is given or its name equals the filter, and its path is a directory; `Aggregator.ListedNamesMembers` states the listing in terms of it. |
| Aggregator.WalkNames | src/cheatcheat/main.py:107-123 | One layer's inner loop collects the sheet names of its non-hidden walked files. |
| Aggregator.ListedNamesMembers | src/cheatcheat/main.py:98-123 | A name is listed exactly when some layer that passes the filter and is a directory has a non-hidden regular file below it with that sheet name. |
| Aggregator.LabelsOfMembers | src/cheatcheat/main.py:108-123 | A layer's names are exactly those of its non-hidden files. |
| Aggregator.UnionOfMembers | src/cheatcheat/main.py:98-104 | The union holds exactly what some contributing layer offers. |
| Aggregator.SheetName | src/cheatcheat/main.py:112-118 | A file's name as listed; `Aggregator.SheetNameBelow` states what it is. |
| Aggregator.SheetNameBelow | src/cheatcheat/main.py:112-118 | A file's sheet name is its components relative to the layer root, joined, with the last extension removed. |
| Aggregator.ListedNameFoundInLayer | src/cheatcheat/main.py:76-89 | The sheet name of a visible file of a layer makes that layer answer in the lookup. |
| Aggregator.ListedIsFound | src/cheatcheat/main.py:93-127 | Every name the listing prints (rooted at normalised layer paths), `find_cheatsheet` resolves. |
| Search.SearchCheatsheets | src/cheatcheat/main.py:129-156 | The hits printed are the specified hits in layer, walk and line order, and the result is `True` exactly when there is one. |
| Search.SearchHits | src/cheatcheat/main.py:131-155 | The hits of the layers in layer order; `Search.SearchHitsAppend`, `Search.SearchFinds` and `Search.LayerHitsNonEmpty` state its properties. |
| Search.LineHits | src/cheatcheat/main.py:146-151 | The hits of one sheet's lines; `Search.LineHitsMembers` and `Search.LineHitsAscending` state what they are. |
| Search.SearchFiles | src/cheatcheat/main.py:138-155 | One layer's files contribute their hits in walk order; hidden and unreadable files contribute none. |
| Search.SearchLines | src/cheatcheat/main.py:146-152 | One file's loop yields its matching lines as hits. |
| Search.Matches | src/cheatcheat/main.py:147 | `term.lower() in line.lower()`; `Search.MatchesIgnoresCase`, `Search.EmptyTermHitsAll` and `Search.LineHitsMembers` state its properties. |
| Search.EntryHits | src/cheatcheat/main.py:139-155 | One walked file's hits; `Search.EntryHitsNonEmpty` states when there are any. |
| Search.LayerHits | src/cheatcheat/main.py:134-155 | One layer's hits; `Search.LayerHitsNonEmpty` states when there are any. |
| Search.LineHitsMembers | src/cheatcheat/main.py:146-151 | A sheet's hits are exactly its matching lines, numbered from one, stripped. |
| Search.LineHitsAscending | src/cheatcheat/main.py:146-151 | A sheet's hits come in strictly ascending line order between one and the number of lines. |
| Search.EmptyTermHitsAll | src/cheatcheat/main.py:147 | An empty term hits every line. |
| Search.SearchFinds | src/cheatcheat/main.py:131-156 | The search finds something exactly when some layer that is a directory has a visible readable file with a matching line. |
| Search.LayerHitsNonEmpty | src/cheatcheat/main.py:135-155 | A layer has hits exactly when it is a directory and one of its walked files has a matching line. |
| Search.EntryHitsNonEmpty | src/cheatcheat/main.py:140-155 | A file has hits exactly when it is visible, readable and has a matching line. |
| Search.SearchHitsAppend | src/cheatcheat/main.py:133 | Nothing shadows in a search: the hits of two layer lists put together are the hits of each, in order. |
| Search.MatchesIgnoresCase | src/cheatcheat/main.py:147 | Matching is unchanged when either the term or the line is lower-cased first. |
| Search.SearchIgnoresCase | src/cheatcheat/main.py:147 | Terms equal up to ASCII case give the same hits. |
| WriteRouter.FirstWritable | src/cheatcheat/main.py:184-188 | The scan returns the first layer that is not read-only, or nothing exactly when every layer is read-only. |
| Cheatpaths.Writable | src/cheatcheat/main.py:167 | `not entry.get('readonly', False)` (also main.py:186 and 221); `WriteRouter.FirstWritable` and `WriteRouter.EditTarget` state the routes in terms of it. |
| WriteRouter.PreserveExt | src/cheatcheat/main.py:200-204 | The copy's path with the found file's extension kept; `WriteRouter.PreserveExtKeepsExtension` states what it gives. |
| WriteRouter.PreserveExtKeepsExtension | src/cheatcheat/main.py:202-204 | The copy's path ends with the found file's extension; it is the joined path exactly when that already ends so, and otherwise the joined path plus the extension. |
| WriteRouter.PreserveExtIdempotent | src/cheatcheat/main.py:202-204 | Preserving the extension a second time changes nothing. |
| WriteRouter.EditTarget | src/cheatcheat/main.py:158-235 | A found sheet in a writable layer is edited in place. A read-only winner without a name fails. Otherwise a found sheet is copied, keeping its extension, and a missing one is created, at the name below the first writable layer; with no writable layer the edit stops. A copy is made exactly in the read-only case with a writable layer. Editing in place and the failing outcomes leave the file system unchanged. |
| WriteRouter.AfterEdit | src/cheatcheat/main.py:206-210 | The file system once a route is taken (also main.py:232): a copy or a new sheet first gets its parent directories, then the copy is made. `WriteRouter.EditTarget` states which routes leave it unchanged; `WriteRouter.CopyOnWriteEffect` and `WriteRouter.CreateNewEffect` state what the others do. |
| WriteRouter.CopyOnWriteEffect | src/cheatcheat/main.py:206-210 | Copy-on-write leaves the original as it was and gives the copy its contents; apart from the parent directories made before it, nothing else changes. |
| WriteRouter.ParentsMade | src/cheatcheat/main.py:232 | `os.makedirs(os.path.dirname(new_full_path), exist_ok=True)` (also main.py:207); `WriteRouter.CreateNewEffect` and `FileSystem.MakeDirsEffect` state its effect. |
| WriteRouter.CreateNewEffect | src/cheatcheat/main.py:229-232 | Before a new sheet's editor runs, the file system stays well formed, what existed keeps its kind, only directories on the way to the sheet's parent are added, and the parent is a directory unless a regular file lies on the way. |
| WriteRouter.CopyLayerVersusWinner | src/cheatcheat/main.py:161-188 | The copy's layer is never the read-only winner, and lies before it exactly when some writable layer does. |
| WriteRouter.LookupFramedByWinner | src/cheatcheat/main.py:70-91 | The lookup depends only on the layers from the winner on, so a copy into an earlier layer leaves the read-only sheet in force. |
| WriteRouter.LaterCopyTakesOver | src/cheatcheat/main.py:70-91 | A layer that answers, with no later layer answering, is the lookup's answer. |

## Left out

- Printing, `argparse`, `view_cheatsheet` and the rest of the command line: the model returns what is printed (names, hits, the route) instead.
- `load_config` and YAML parsing: the configuration arrives parsed. A `cheatpaths: null` key, a configuration that is not a mapping, and a record without `path` are not modelled; Python raises on each of them.
- `readonly` is modelled as an optional boolean. Other YAML values, which Python tests for truthiness, are not.
- Symbolic links: `abspath` is lexical, and `isfile`/`isdir` look a path up by its normalised components. A trailing slash, `/.` or `/..` after a file's path is therefore resolved as the operating system would resolve it after a directory: the file is still found, where `os.stat` fails. Likewise `..` after a component that is missing or is not a directory (`nosuch/../tar`, `tar.md/../tar`) collapses, so the name is found where `os.stat` fails with `ENOENT` or `ENOTDIR`. `os.makedirs` walks the same normalised components, not the path text.
- Glob metacharacters (`*`, `?`, `[`) inside names and layer paths are taken literally; `glob` would expand them.
- `os.walk`'s top-down order: files are walked in entry order, so a file in a subdirectory can come before a file of the directory itself. The listing is sorted, so only the order of search hits depends on it.
- `open(..., errors='ignore')` and decoding: a file's lines are given, or marked unreadable, in which case the search skips it.
- `str.lower` lower-cases ASCII letters only. Non-ASCII case mapping is not modelled.
- `subprocess.call` of the editor.
- `os.makedirs` that raises: a regular file on the way stops `FileSystem.MakeDirs`, as in Python, but the exception that then ends `edit_cheatsheet` is not modelled, and the copy still follows. `os.makedirs("")`, reached only for a layer path `""` and a name without a slash, raises in Python; the model walks the working directory's components instead.
- WriteRouter.CopyOnWriteEffect: well-formedness after the copy itself is not proved; `FileSystem.Copy` adds the copy's entry after `makedirs` has made its parents.
- WriteRouter.AfterEdit: the file the editor creates for a new sheet is not modelled; only the parent directories `makedirs` makes before it are. `copy2` failures are not modelled: in particular a glob match that is a directory leaves the file system unchanged, where Python raises. Timestamps and permissions are not modelled either.
- Aggregator.ListedIsFound: requires every layer path to be absolute and normalised (`/` followed by proper components). Every name-handling step is proved on its own, but the theorem for unnormalised layer paths is not stated.
- WriteRouter.LookupFramedByWinner: takes as a hypothesis that the layers from the winner on answer as before; it does not derive that from the copy's path.
- WriteRouter.LaterCopyTakesOver: takes as a hypothesis that the copy makes its layer answer; it does not derive that from the copy's path.
