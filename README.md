# AMD import helper: the module crawler

The AMD import helper is an editor plugin that manages the module list of a
`define([...], function (...) {...})` call. Its module crawler walks the
packages under a source folder. It turns every `.js` file it finds into a
candidate pair: an import path such as `app/widgets/Foo` and a default
callback parameter name such as `Foo`. This project models that crawler,
`crawler.py`, and proves what its output contains.

Files:

- `pytext.dfy` (module `PyText`) models the Python string builtins the
  crawler relies on: `str.find`, `str.split`, `str.replace`, `str.title` and
  `str.endswith`. It proves the facts the crawler needs about them, such as
  `replace` being the join of the split pieces and `title` being idempotent.
  The crawler never calls `str.join`: `PyText.Join` exists only to state
  those facts about `Split` and `Replace`.
- `crawler.dfy` (module `Crawler`) models the reserved words, the skip pattern
  `/(nls|tests)($|/)`, `get_param_name` and `crawl`.
  - `get_param_name` is a pure function, `GetParamName`.
  - `crawl` is imperative: three nested loops that append to a list. It is
    modelled as three methods, one per loop: `Crawl` over the listing,
    `CollectWalk` over the walk steps of one package, and `CollectFiles` over
    the files of one directory.
  - Each method is proved against a specification function: `CrawlMods`,
    `WalkMods` or `FileMods`. Lemmas about that function prove:
    - which pairs come out;
    - how many come out;
    - in what order they come out;
    - that skipped subtrees contribute nothing.
- `examples.dfy` (module `CrawlerExamples`) proves concrete cases. Among them:
  - `string.js` in package `widgets` gives `widgetsString`.
  - `foo-bar-baz.js` gives `fooBar`.
  - `nls` is skipped and `nlsx` is not.
  - `mytests` is not skipped.
  - The newline quirk described below.
  - A crawl that returns the same pair twice, described below.

The filesystem is given as data. The listing of the source folder is a
sequence of `Listed` entries. A directory entry carries the steps its
recursive walk yields, in walk order. Each step is a directory path and the
names of the files directly in it. A plain file in the listing yields no walk
steps, just as walking a file yields nothing in Python.

Behaviour of the code that the model follows as written:

- The skip pattern is searched in the whole directory path. That path
  includes the source folder itself, not only the part below it. If the
  source folder's own path contains `/nls/` or `/tests/`, nothing is
  collected (`SkippedSourceFolderGivesNothing`).
- Python's `$` also matches just before a final newline. So a directory named
  `nls` followed by a newline character is skipped. A directory below it is
  not skipped, because there the newline is no longer final
  (`CrawlerExamples.SkippedDirectoriesExample`, `CrawlerExamples.KeptDirectoriesExample`). `SkipCoversSubtree` therefore
  requires that the skipped path does not end in a newline.
- A reserved word is prefixed with the top-level package name. That is the
  name of the listing entry being walked, not the file's immediate parent
  directory.
- The import path removes every occurrence of `path + "/"` from the
  directory, not only the leading one (`ImportPathDropsEveryCopy`). For
  example, `src/app/src/x/y.js` gives `app/x/y`.
- The output can hold the same pair twice. Nothing removes duplicates, and two
  different directories can give the same import path: with source folder
  `src`, both `src/app/x/y.js` and `src/app/src/x/y.js` give
  `("app/x/y", "y")` (`SamePairTwice`, `CrawlerExamples.DuplicatePairExample`).
- `crawl(path)` takes one argument. Its caller at `amdbutler.py:110` passes
  two. The model follows the definition in `crawler.py`.

## Model

| member | source | states |
|---|---|---|
| PyText.EndsWith | crawler.py:19 | models `f.endswith(suffix)`: the last characters of `f` are `suffix` |
| PyText.Find | crawler.py:31 | models `str.find`; its result is -1 or an index at which the pattern fits inside the string |
| PyText.Split | crawler.py:32 | models `str.split(sep)`, cutting left to right at non-overlapping occurrences; it always gives at least one piece |
| PyText.Replace | crawler.py:22 | models `str.replace(pat, repl)`, replacing the non-overlapping occurrences found left to right |
| PyText.Title | crawler.py:30 | models `str.title()`; the result has the same length as the input |
| PyText.FindSpec | crawler.py:31 | `find` returns -1 exactly when the pattern occurs nowhere; otherwise it returns the first index where it occurs |
| PyText.FindChar | crawler.py:31 | `name.find('-') != -1` holds exactly when `'-'` is in `name` |
| PyText.FindFirstChar | crawler.py:31 | `find` of a character returns the index of its first occurrence |
| PyText.SplitSeveral | crawler.py:31-33 | `split` gives at least two pieces exactly when the separator occurs, so `words[1]` exists whenever `find` succeeded |
| PyText.JoinSplit | crawler.py:32 | joining the pieces of `split(sep)` with `sep` gives back the original string |
| PyText.SplitPiecesFree | crawler.py:32 | no piece of `split(sep)` contains the separator |
| PyText.SplitAtFirstChar | crawler.py:32 | `split` cuts at the first occurrence of the separator and then splits the rest |
| PyText.SplitAfterFree | crawler.py:32 | `split` of `a + c + b`, when `c` is not in `a`, is `a` followed by the pieces of `b` |
| PyText.SplitWithoutChar | crawler.py:32 | `split` of a string without the separator is the one-piece list of that string |
| PyText.ReplaceIsJoinOfSplit | crawler.py:22 | `replace(pat, repl)` equals joining the pieces of `split(pat)` with `repl`, so every occurrence is replaced |
| PyText.ReplaceLeading | crawler.py:22 | a leading occurrence is replaced and the scan goes on after it |
| PyText.ReplaceAfterFree | crawler.py:22 | when the first occurrence follows `a`, `a` is kept, that occurrence is replaced, and the scan goes on after it |
| PyText.ReplaceAbsent | crawler.py:22 | `replace` leaves a string without the pattern unchanged |
| PyText.TitleAt | crawler.py:30 | each character of `title()`: a letter right after a letter is lower-cased, any other letter is upper-cased, and a non-letter is kept |
| PyText.TitleIdempotent | crawler.py:30 | `title()` applied twice is `title()` applied once |
| PyText.TitleOfLowerWord | crawler.py:33 | `title()` of a non-empty lower-case word upper-cases only its first letter |
| PyText.TitleKeepsNonLetters | crawler.py:33 | a character that is not an ASCII letter occurs in `title(s)` exactly when it occurs in `s` |
| Crawler.ReservedWords | crawler.py:4 | the reserved words `string` and `window` |
| Crawler.GetParamName | crawler.py:28-35 | models `get_param_name`: a name among the reserved words of crawler.py:4 gives the package name plus `title(name)`; else a name with a hyphen gives its first word plus `title` of its second; else the name itself. The lemmas below state each case |
| Crawler.NoReservedWordHasHyphen | crawler.py:28-31 | no reserved word contains `-`, so the reserved-word rule and the hyphen rule never both apply |
| Crawler.ReservedWordParam | crawler.py:29-30 | a reserved word gives the package name followed by the word with its first letter upper-cased |
| Crawler.HyphenatedParam | crawler.py:31-33 | `first-second[-rest]` gives `first` followed by `title(second)`; all later words are dropped |
| Crawler.PlainParam | crawler.py:34-35 | a name that is neither reserved nor hyphenated is returned unchanged |
| Crawler.ParamNameHasNoHyphen | crawler.py:28-35 | when the package name has no hyphen, the parameter name has none either |
| Crawler.SkipMatchAt | crawler.py:5-6 | models the pattern `/(nls|tests)($|/)` matching at one index, with `$` matching at the end or before a final newline |
| Crawler.SkipMatches | crawler.py:16 | models `skip.search(root) is not None` as a search from index 0 on |
| Crawler.SkipMatchAtChars | crawler.py:5-6 | the skip pattern matches at `j` exactly when `/nls` or `/tests` starts there and is followed by `/`, the end of the path, or a final newline |
| Crawler.SkipMatchesSpec | crawler.py:16 | `skip.search(root)` succeeds exactly when the pattern matches at some index of `root` |
| Crawler.SkipCoversSubtree | crawler.py:16 | every directory below a skipped directory is skipped too, unless the skipped path ends in a newline |
| Crawler.ModuleName | crawler.py:19-20 | `f[:-3]` of a `.js` file name is the name that gives `f` back when `.js` is appended |
| Crawler.ImportBase | crawler.py:22 | models `root.replace(path + '/', '')` |
| Crawler.Walk | crawler.py:13 | what `os.walk(os.path.join(path, package))` yields for a listing entry: no steps for a plain file, the given steps in walk order for a directory |
| Crawler.ModFor | crawler.py:19-23 | models the pair appended for one `.js` file: the import path `base/name` and the parameter name of `name` in the package |
| Crawler.ImportPathRelative | crawler.py:22-23 | a directory `path/rel`, where `path/` does not occur in `rel`, gives the import path `rel/name` |
| Crawler.ImportPathDropsEveryCopy | crawler.py:22-23 | a directory `path/a path/b` gives the import path `a b/name`: a later copy of `path/` is removed too |
| Crawler.FileMods | crawler.py:18-23 | reference definition of the file loop: one pair per `.js` file, in file order |
| Crawler.StepMods | crawler.py:16-23 | reference definition of one walk step: nothing when `skip` matches the directory, else its file pairs |
| Crawler.WalkMods | crawler.py:13-23 | reference definition of the walk loop: the pairs of each walk step, in walk order |
| Crawler.CrawlMods | crawler.py:12-23 | reference definition of the listing loop: the pairs of each entry's walk, in listing order |
| Crawler.CollectFiles | crawler.py:18-23 | the file loop appends exactly the candidates of the `.js` files, in file order, to what was collected before |
| Crawler.CollectWalk | crawler.py:13-23 | the walk loop appends the candidates of every walk step the skip rule lets through, in walk order |
| Crawler.Crawl | crawler.py:9-25 | `crawl` returns exactly the candidates of the whole listing, in listing order |
| Crawler.FileModsComplete | crawler.py:18-23 | every `.js` file of a directory yields its candidate |
| Crawler.FileModsSource | crawler.py:18-23 | every candidate of a directory comes from one of its `.js` files |
| Crawler.WalkModsContainsStep | crawler.py:13-17 | the candidates of one walk step are among those of the whole walk |
| Crawler.WalkModsComplete | crawler.py:13-23 | every `.js` file in a walk step that is not skipped yields its candidate |
| Crawler.WalkModsSource | crawler.py:13-23 | every candidate of a walk comes from a `.js` file in a walk step that is not skipped |
| Crawler.CrawlModsContainsEntry | crawler.py:12-13 | the candidates of one package are among those of the whole crawl |
| Crawler.CrawlModsComplete | crawler.py:12-23 | every `.js` file of every package, in a directory that is not skipped, yields its candidate |
| Crawler.CrawlModsSource | crawler.py:12-23 | every candidate of the crawl comes from some package, walk step and `.js` file |
| Crawler.CrawlModsMembers | crawler.py:12-23 | a pair is in the output exactly when some `.js` file, in a directory the skip rule lets through, of some package yields it |
| Crawler.CrawlModsAppend | crawler.py:12-23 | the crawl of a listing `a + b` is the crawl of `a` followed by the crawl of `b` |
| Crawler.FileModsOne | crawler.py:18-23 | a directory whose only file is a `.js` file gives exactly that file's pair |
| Crawler.SamePairTwice | crawler.py:13-23 | two directories of one package that are not skipped, each holding the `.js` file `f` and giving the same pair, put that pair in the output twice: duplicates are kept |
| Crawler.PlainFileGivesNothing | crawler.py:12-13 | a plain file in the source folder contributes no candidate |
| Crawler.FileModsCount | crawler.py:18-23 | a directory gives one candidate per `.js` file |
| Crawler.WalkModsCount | crawler.py:13-23 | a walk gives one candidate per `.js` file in its walk steps that are not skipped |
| Crawler.CrawlModsCount | crawler.py:12-23 | the crawl gives one candidate per `.js` file in a directory that is not skipped |
| Crawler.SkippedSubtreeGivesNothing | crawler.py:16-18 | a walk step below a skipped directory contributes nothing, when the skipped directory's path does not end in a newline |
| Crawler.SkipUnderSkippedFolder | crawler.py:16 | a directory under a source folder that matches the skip pattern matches it too, when the source folder's path does not end in a newline |
| Crawler.SkippedSourceFolderGivesNothing | crawler.py:12-16 | when the source folder's own path matches the skip pattern and does not end in a newline, and every walk step's directory lies under `path/`, the crawl returns an empty list |
| CrawlerExamples.ReservedWordExample | crawler.py:29-30 | `string` in package `widgets` gives `widgetsString` |
| CrawlerExamples.HyphenatedExample | crawler.py:31-33 | `foo-bar-baz` gives `fooBar` |
| CrawlerExamples.SkippedDirectoriesExample | crawler.py:6 | the directory `src/app/nls` is skipped, and so is `src/app/nls` followed by a newline |
| CrawlerExamples.KeptDirectoriesExample | crawler.py:6 | the directories `src/app/nlsx`, `src/mytests/a` and `a` below `src/app/nls` plus a newline are not skipped |
| CrawlerExamples.RepeatedFolderExample | crawler.py:22-23 | `y.js` in `src/app/src/x` with source folder `src` gets the import path `app/x/y` |
| CrawlerExamples.PlainFolderExample | crawler.py:19-23 | `y.js` in `src/app/x` of package `app` with source folder `src` gives `("app/x/y", "y")` |
| CrawlerExamples.DuplicatePairExample | crawler.py:12-23 | the crawl of package `app` with `y.js` in both `src/app/x` and `src/app/src/x` returns `("app/x/y", "y")` twice |

## Left out

- The `print` calls (crawler.py lines 11, 14, 15, 17 and 24) only write to the console and are not modelled.
- Filesystem access is replaced by data. `os.listdir` and `os.walk` become a listing of entries, each with its walk steps. The order of the listing and of the walk is whatever that data says.
- The error `os.listdir` raises for a missing or unreadable folder is not modelled. Neither are symbolic links or directories that change during the walk.
- The `dirs` list that `os.walk` yields is not used by the crawler, so walk steps do not carry it.
- `os.sep` is taken to be `/`, the separator of the joined paths and of the `replace` at line 22. On a system with another separator, the regex at line 6 and the replace at line 22 would use different separators. That case is not modelled.
- The regular-expression engine is not modelled in general. Only the one pattern compiled at line 6 is, as an explicit matcher.
- PyText.Title: only the ASCII letters `A`-`Z` and `a`-`z` count as cased. Python's `str.title` also treats other Unicode letters as cased, and it handles title-case and special-case characters. Those are not modelled.
- PyText.Split: modelled only for a non-empty separator. Python raises an error for an empty separator, and the crawler only splits on `-`.
- PyText.Replace: modelled only for a non-empty pattern. The crawler's pattern `path + '/'` is never empty.
- `amdbutler.py` is the editor-plugin glue around the crawler. It is not part of this model. Neither are the span parser and the pair zipper it uses.
