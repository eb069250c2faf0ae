/** The module crawler: it walks the packages under a source folder and turns
    every `.js` file outside the `nls` and `tests` subtrees into an
    (import path, callback parameter name) pair.

    The filesystem is given as data: the folder's listing is a sequence of
    entries, and each directory entry carries the steps its recursive walk
    yields, in walk order, each step a directory path and the file names in
    it. Paths use `/` as separator. */
module Crawler {
  import opened PyText

  /** Names that would shadow a global; they are prefixed with the package name. */
  const ReservedWords: seq<string> := ["string", "window"]

  /** One step of a recursive directory walk: a directory path and the names
      of the files directly in it. */
  datatype WalkStep = WalkStep(root: string, files: seq<string>)

  /** An entry of the source folder's listing. Walking a plain file yields
      no steps. */
  datatype Listed = PlainFile(name: string) | Directory(name: string, walk: seq<WalkStep>)

  /** A candidate module: its import path and its default parameter name. */
  datatype Mod = Mod(importPath: string, paramName: string)

  function Walk(e: Listed): seq<WalkStep>
  {
    match e
    case PlainFile(_) => []
    case Directory(_, w) => w
  }

  // ---------------------------------------------------------------------
  // Parameter names

  /** The default callback parameter name of the module `name` in `package`. */
  function GetParamName(name: string, package: string): string
  {
    if name in ReservedWords then package + Title(name)
    else if Find(name, "-") != -1 then
      SplitSeveral(name, "-");
      var words := Split(name, "-");
      words[0] + Title(words[1])
    else name
  }

  /** No reserved word contains a hyphen, so the reserved-word test and the
      hyphen test never both apply. */
  lemma NoReservedWordHasHyphen(name: string)
    requires '-' in name
    ensures name !in ReservedWords
  {
    assert '-' !in "string" && '-' !in "window";
  }

  /** A reserved word gets the package name in front and its first letter
      upper-cased. */
  lemma ReservedWordParam(name: string, package: string)
    requires name in ReservedWords
    ensures GetParamName(name, package) == package + [Upper(name[0])] + name[1..]
  {
    TitleOfLowerWord(name);
  }

  /** The first two pieces of `first-second...` split on hyphens. */
  lemma SplitFirstTwo(name: string, first: string, second: string, rest: string)
    requires name == first + "-" + second + rest
    requires '-' !in first && '-' !in second && (rest == [] || rest[0] == '-')
    ensures |Split(name, "-")| >= 2
    ensures Split(name, "-")[0] == first && Split(name, "-")[1] == second
  {
    assert name == first + ['-'] + (second + rest);
    SplitAfterFree(first, '-', second + rest);
    if rest == [] {
      assert second + rest == second;
      SplitWithoutChar(second, '-');
    } else {
      assert second + rest == second + ['-'] + rest[1..];
      SplitAfterFree(second, '-', rest[1..]);
    }
  }

  /** A hyphenated name keeps its first segment and appends its second one,
      title-cased; every further segment is dropped. */
  lemma HyphenatedParam(name: string, package: string, first: string, second: string, rest: string)
    requires name == first + "-" + second + rest
    requires '-' !in first && '-' !in second && (rest == [] || rest[0] == '-')
    ensures GetParamName(name, package) == first + Title(second)
  {
    assert name[|first|] == '-';
    NoReservedWordHasHyphen(name);
    FindChar(name, '-');
    SplitFirstTwo(name, first, second, rest);
  }

  /** Any other name is its own parameter name. */
  lemma PlainParam(name: string, package: string)
    requires name !in ReservedWords && '-' !in name
    ensures GetParamName(name, package) == name
  {
    FindChar(name, '-');
  }

  /** A parameter name contains no hyphen unless the package name does. */
  lemma ParamNameHasNoHyphen(name: string, package: string)
    requires '-' !in package
    ensures '-' !in GetParamName(name, package)
  {
    FindChar(name, '-');
    if name in ReservedWords {
      TitleKeepsNonLetters(name, '-');
      if '-' in name {
        NoReservedWordHasHyphen(name);
      }
    } else if '-' in name {
      SplitSeveral(name, "-");
      var words := Split(name, "-");
      SplitPiecesFree(name, "-");
      assert words[0] in words && words[1] in words;
      FindChar(words[0], '-');
      FindChar(words[1], '-');
      TitleKeepsNonLetters(words[1], '-');
    }
  }

  // ---------------------------------------------------------------------
  // The skip rule `/(nls|tests)($|/)`, searched anywhere in a directory path

  /** `($|/)` at index `k`: the end of the string, the position just before a
      final newline (where Python's `$` also matches), or a slash. */
  predicate AnchorAt(s: string, k: int)
  {
    k == |s| || (0 <= k == |s| - 1 && s[k] == '\n') || (0 <= k < |s| && s[k] == '/')
  }

  /** The skip pattern matches at index `j`. */
  predicate SkipMatchAt(s: string, j: int)
  {
    (OccursAt(s, "/nls", j) && AnchorAt(s, j + 4)) ||
    (OccursAt(s, "/tests", j) && AnchorAt(s, j + 6))
  }

  /** The skip pattern, character by character. */
  lemma SkipMatchAtChars(s: string, j: int)
    ensures SkipMatchAt(s, j) <==>
      (0 <= j && j + 4 <= |s| && s[j] == '/' && s[j + 1] == 'n' && s[j + 2] == 'l' && s[j + 3] == 's' &&
       AnchorAt(s, j + 4)) ||
      (0 <= j && j + 6 <= |s| && s[j] == '/' && s[j + 1] == 't' && s[j + 2] == 'e' && s[j + 3] == 's' &&
       s[j + 4] == 't' && s[j + 5] == 's' && AnchorAt(s, j + 6))
  {
    if 0 <= j && j + 4 <= |s| {
      assert s[j..j + 4] == [s[j], s[j + 1], s[j + 2], s[j + 3]];
    }
    if 0 <= j && j + 6 <= |s| {
      assert s[j..j + 6] == [s[j], s[j + 1], s[j + 2], s[j + 3], s[j + 4], s[j + 5]];
    }
  }

  /** The search for the skip pattern from index `k` on. */
  function SkipSearchFrom(s: string, k: nat): bool
    decreases |s| - k
  {
    if k >= |s| then false
    else SkipMatchAt(s, k) || SkipSearchFrom(s, k + 1)
  }

  lemma {:induction false} SkipSearchFromSpec(s: string, k: nat)
    ensures SkipSearchFrom(s, k) <==> exists j :: k <= j && SkipMatchAt(s, j)
    decreases |s| - k
  {
    if k < |s| {
      SkipSearchFromSpec(s, k + 1);
      if !SkipMatchAt(s, k) && !SkipSearchFrom(s, k + 1) {
        forall j | k <= j
          ensures !SkipMatchAt(s, j)
        {
          if j == k {
          }
        }
      }
    }
  }

  /** `skip.search(root) is not None`. */
  function SkipMatches(root: string): bool
  {
    SkipSearchFrom(root, 0)
  }

  /** The search succeeds exactly when the pattern matches somewhere. */
  lemma SkipMatchesSpec(root: string)
    ensures SkipMatches(root) <==> exists j :: SkipMatchAt(root, j)
  {
    SkipSearchFromSpec(root, 0);
  }

  /** Whatever lies beneath a skipped directory is skipped too, unless the
      match relied on `$` matching before a final newline. */
  lemma SkipCoversSubtree(root: string, sub: string)
    requires SkipMatches(root) && !EndsWith(root, "\n")
    ensures SkipMatches(root + "/" + sub)
  {
    SkipMatchesSpec(root);
    var j :| SkipMatchAt(root, j);
    var s := root + "/" + sub;
    SkipMatchesSpec(s);
    assert s[..|root|] == root;
    assert s[|root|] == '/';
    if OccursAt(root, "/nls", j) && AnchorAt(root, j + 4) {
      assert s[j..j + 4] == root[j..j + 4];
      assert SkipMatchAt(s, j);
    } else {
      assert s[j..j + 6] == root[j..j + 6];
      assert SkipMatchAt(s, j);
    }
  }

  // ---------------------------------------------------------------------
  // Turning one file into a candidate module

  /** `f[:-3]` for a `.js` file: the module name. */
  function ModuleName(f: string): (name: string)
    requires EndsWith(f, ".js")
    ensures name + ".js" == f
  {
    f[..|f| - 3]
  }

  /** `root.replace(path + '/', '')`: every occurrence of the source folder
      followed by a slash is removed, wherever it appears. */
  function ImportBase(path: string, root: string): string
  {
    Replace(root, path + "/", "")
  }

  /** The candidate for the `.js` file `f` found in directory `root` of `package`. */
  function ModFor(path: string, package: string, root: string, f: string): Mod
    requires EndsWith(f, ".js")
  {
    var name := ModuleName(f);
    Mod(ImportBase(path, root) + "/" + name, GetParamName(name, package))
  }

  /** A directory `path/rel` in which `path/` does not occur again gives the
      import path `rel/name`. */
  lemma ImportPathRelative(path: string, rel: string, package: string, f: string)
    requires EndsWith(f, ".js")
    requires forall j :: !OccursAt(rel, path + "/", j)
    ensures ModFor(path, package, path + "/" + rel, f).importPath == rel + "/" + ModuleName(f)
  {
    assert path + "/" + rel == (path + "/") + rel;
    ReplaceLeading(path + "/", rel, "");
    ReplaceAbsent(rel, path + "/", "");
  }

  /** The replacement removes every copy of `path/` in the directory, not only
      the leading one: a directory `path/a path/b`, where the second copy is
      the next one, gives the import path `a b/name`. */
  lemma ImportPathDropsEveryCopy(path: string, a: string, b: string, package: string, f: string)
    requires EndsWith(f, ".js")
    requires forall j :: 0 <= j < |a| ==> !OccursAt(a + (path + "/") + b, path + "/", j)
    requires forall j :: !OccursAt(b, path + "/", j)
    ensures ModFor(path, package, path + "/" + a + path + "/" + b, f).importPath == a + b + "/" + ModuleName(f)
  {
    var pat := path + "/";
    var rest := a + pat + b;
    assert path + "/" + a + path + "/" + b == pat + rest;
    calc {
      ImportBase(path, pat + rest);
      Replace(pat + rest, pat, "");
      { ReplaceLeading(pat, rest, ""); }
      "" + Replace(rest, pat, "");
      { ReplaceAfterFree(a, pat, b, ""); }
      "" + (a + "" + Replace(b, pat, ""));
      { ReplaceAbsent(b, pat, ""); }
      "" + (a + "" + b);
      a + b;
    }
  }

  // ---------------------------------------------------------------------
  // What the crawl collects, walk step by walk step

  /** The candidates of the `.js` files among `files`, in order. */
  function FileMods(path: string, package: string, root: string, files: seq<string>): seq<Mod>
  {
    if files == [] then []
    else
      var f := files[|files| - 1];
      FileMods(path, package, root, files[..|files| - 1]) +
      (if EndsWith(f, ".js") then [ModFor(path, package, root, f)] else [])
  }

  /** The candidates of one walk step: none when its directory is skipped. */
  function StepMods(path: string, package: string, step: WalkStep): seq<Mod>
  {
    if SkipMatches(step.root) then [] else FileMods(path, package, step.root, step.files)
  }

  /** The candidates of a package's walk, in walk order. */
  function WalkMods(path: string, package: string, walk: seq<WalkStep>): seq<Mod>
  {
    if walk == [] then []
    else WalkMods(path, package, walk[..|walk| - 1]) + StepMods(path, package, walk[|walk| - 1])
  }

  /** The candidates of the whole listing, in listing order. */
  function CrawlMods(path: string, listing: seq<Listed>): seq<Mod>
  {
    if listing == [] then []
    else
      var e := listing[|listing| - 1];
      CrawlMods(path, listing[..|listing| - 1]) + WalkMods(path, e.name, Walk(e))
  }

  lemma AppendAssoc(a: seq<Mod>, b: seq<Mod>, c: seq<Mod>)
    ensures a + b + c == a + (b + c)
  {
  }

  lemma FileModsStep(path: string, package: string, root: string, files: seq<string>, k: nat)
    requires k < |files|
    ensures FileMods(path, package, root, files[..k + 1]) ==
      FileMods(path, package, root, files[..k]) +
      (if EndsWith(files[k], ".js") then [ModFor(path, package, root, files[k])] else [])
  {
    assert files[..k + 1][..k] == files[..k];
  }

  lemma WalkModsStep(path: string, package: string, walk: seq<WalkStep>, j: nat)
    requires j < |walk|
    ensures WalkMods(path, package, walk[..j + 1]) ==
      WalkMods(path, package, walk[..j]) + StepMods(path, package, walk[j])
  {
    assert walk[..j + 1][..j] == walk[..j];
  }

  lemma CrawlModsStep(path: string, listing: seq<Listed>, i: nat)
    requires i < |listing|
    ensures CrawlMods(path, listing[..i + 1]) ==
      CrawlMods(path, listing[..i]) + WalkMods(path, listing[i].name, Walk(listing[i]))
  {
    assert listing[..i + 1][..i] == listing[..i];
  }

  /** The appending done for one walk step that the skip rule lets through:
      one candidate per `.js` file, in file order. */
  method CollectFiles(path: string, package: string, root: string, files: seq<string>, mods: seq<Mod>)
    returns (result: seq<Mod>)
    ensures result == mods + FileMods(path, package, root, files)
  {
    result := mods;
    var k := 0;
    while k < |files|
      invariant 0 <= k <= |files|
      invariant result == mods + FileMods(path, package, root, files[..k])
    {
      var f := files[k];
      FileModsStep(path, package, root, files, k);
      if EndsWith(f, ".js") {
        var name := ModuleName(f);
        var paramName := GetParamName(name, package);
        var base := ImportBase(path, root);
        AppendAssoc(mods, FileMods(path, package, root, files[..k]), [ModFor(path, package, root, f)]);
        result := result + [Mod(base + "/" + name, paramName)];
      }
      k := k + 1;
    }
    assert files[..k] == files;
  }

  /** The appending done for one package: its walk steps in walk order, each
      checked against the skip rule. */
  method CollectWalk(path: string, package: string, walk: seq<WalkStep>, mods: seq<Mod>)
    returns (result: seq<Mod>)
    ensures result == mods + WalkMods(path, package, walk)
  {
    result := mods;
    var j := 0;
    while j < |walk|
      invariant 0 <= j <= |walk|
      invariant result == mods + WalkMods(path, package, walk[..j])
    {
      var step := walk[j];
      ghost var prev := result;
      if !SkipMatches(step.root) {
        result := CollectFiles(path, package, step.root, step.files, result);
      }
      assert result == prev + StepMods(path, package, step);
      WalkModsStep(path, package, walk, j);
      AppendAssoc(mods, WalkMods(path, package, walk[..j]), StepMods(path, package, step));
      j := j + 1;
    }
    assert walk[..j] == walk;
  }

  /** `crawl(path)`: the loop over the source folder's listing, walking each
      entry as a package. */
  method Crawl(path: string, listing: seq<Listed>) returns (mods: seq<Mod>)
    ensures mods == CrawlMods(path, listing)
  {
    mods := [];
    var i := 0;
    while i < |listing|
      invariant 0 <= i <= |listing|
      invariant mods == CrawlMods(path, listing[..i])
    {
      mods := CollectWalk(path, listing[i].name, Walk(listing[i]), mods);
      CrawlModsStep(path, listing, i);
      i := i + 1;
    }
    assert listing[..i] == listing;
  }

  // ---------------------------------------------------------------------
  // What the crawl collects, stated file by file

  /** File `k` of `files` is a `.js` file and yields the candidate `m`. */
  ghost predicate FileGives(path: string, package: string, root: string, files: seq<string>, k: int, m: Mod)
  {
    0 <= k < |files| && EndsWith(files[k], ".js") && m == ModFor(path, package, root, files[k])
  }

  /** File `k` of walk step `j` yields `m`, and the skip rule lets the step through. */
  ghost predicate StepGives(path: string, package: string, walk: seq<WalkStep>, j: int, k: int, m: Mod)
  {
    0 <= j < |walk| && !SkipMatches(walk[j].root) &&
    FileGives(path, package, walk[j].root, walk[j].files, k, m)
  }

  /** File `k` of walk step `j` of listing entry `i` is collected as `m`. */
  ghost predicate Collected(path: string, listing: seq<Listed>, i: int, j: int, k: int, m: Mod)
  {
    0 <= i < |listing| && StepGives(path, listing[i].name, Walk(listing[i]), j, k, m)
  }

  lemma FileGivesInPrefix(path: string, package: string, root: string, files: seq<string>, n: nat, k: int, m: Mod)
    requires k < n <= |files| && FileGives(path, package, root, files, k, m)
    ensures FileGives(path, package, root, files[..n], k, m)
  {
    assert files[..n][k] == files[k];
  }

  /** Every `.js` file among `files` yields its candidate. */
  lemma {:induction false} FileModsComplete(path: string, package: string, root: string, files: seq<string>, k: int, m: Mod)
    requires FileGives(path, package, root, files, k, m)
    ensures m in FileMods(path, package, root, files)
    decreases |files|
  {
    var n := |files| - 1;
    if k < n {
      FileGivesInPrefix(path, package, root, files, n, k, m);
      FileModsComplete(path, package, root, files[..n], k, m);
    }
  }

  /** Every candidate of `files` comes from one of its `.js` files. */
  lemma {:induction false} FileModsSource(path: string, package: string, root: string, files: seq<string>, m: Mod)
    returns (k: int)
    requires m in FileMods(path, package, root, files)
    ensures FileGives(path, package, root, files, k, m)
    decreases |files|
  {
    var n := |files| - 1;
    if m in FileMods(path, package, root, files[..n]) {
      k := FileModsSource(path, package, root, files[..n], m);
    } else {
      k := n;
    }
  }

  /** The candidates of walk step `j` are among those of the whole walk. */
  lemma {:induction false} WalkModsContainsStep(path: string, package: string, walk: seq<WalkStep>, j: int, m: Mod)
    requires 0 <= j < |walk| && m in StepMods(path, package, walk[j])
    ensures m in WalkMods(path, package, walk)
    decreases |walk|
  {
    var n := |walk| - 1;
    assert WalkMods(path, package, walk) == WalkMods(path, package, walk[..n]) + StepMods(path, package, walk[n]);
    if j < n {
      assert walk[..n][j] == walk[j];
      WalkModsContainsStep(path, package, walk[..n], j, m);
    }
  }

  lemma WalkModsComplete(path: string, package: string, walk: seq<WalkStep>, j: int, k: int, m: Mod)
    requires StepGives(path, package, walk, j, k, m)
    ensures m in WalkMods(path, package, walk)
  {
    FileModsComplete(path, package, walk[j].root, walk[j].files, k, m);
    WalkModsContainsStep(path, package, walk, j, m);
  }

  lemma {:induction false} WalkModsSource(path: string, package: string, walk: seq<WalkStep>, m: Mod)
    returns (j: int, k: int)
    requires m in WalkMods(path, package, walk)
    ensures StepGives(path, package, walk, j, k, m)
    decreases |walk|
  {
    var n := |walk| - 1;
    if m in WalkMods(path, package, walk[..n]) {
      j, k := WalkModsSource(path, package, walk[..n], m);
    } else {
      j := n;
      k := FileModsSource(path, package, walk[n].root, walk[n].files, m);
    }
  }

  /** The candidates of listing entry `i` are among those of the whole crawl. */
  lemma {:induction false} CrawlModsContainsEntry(path: string, listing: seq<Listed>, i: int, m: Mod)
    requires 0 <= i < |listing| && m in WalkMods(path, listing[i].name, Walk(listing[i]))
    ensures m in CrawlMods(path, listing)
    decreases |listing|
  {
    var n := |listing| - 1;
    var e := listing[n];
    assert CrawlMods(path, listing) == CrawlMods(path, listing[..n]) + WalkMods(path, e.name, Walk(e));
    if i < n {
      assert listing[..n][i] == listing[i];
      CrawlModsContainsEntry(path, listing[..n], i, m);
    }
  }

  lemma CrawlModsComplete(path: string, listing: seq<Listed>, i: int, j: int, k: int, m: Mod)
    requires Collected(path, listing, i, j, k, m)
    ensures m in CrawlMods(path, listing)
  {
    WalkModsComplete(path, listing[i].name, Walk(listing[i]), j, k, m);
    CrawlModsContainsEntry(path, listing, i, m);
  }

  lemma {:induction false} CrawlModsSource(path: string, listing: seq<Listed>, m: Mod)
    returns (i: int, j: int, k: int)
    requires m in CrawlMods(path, listing)
    ensures Collected(path, listing, i, j, k, m)
    decreases |listing|
  {
    var n := |listing| - 1;
    if m in CrawlMods(path, listing[..n]) {
      i, j, k := CrawlModsSource(path, listing[..n], m);
    } else {
      i := n;
      j, k := WalkModsSource(path, listing[n].name, Walk(listing[n]), m);
    }
  }

  /** A candidate is in the crawl's output exactly when some `.js` file, in a
      walk step the skip rule lets through, of some listing entry yields it. */
  lemma CrawlModsMembers(path: string, listing: seq<Listed>, m: Mod)
    ensures m in CrawlMods(path, listing) <==> exists i, j, k :: Collected(path, listing, i, j, k, m)
  {
    if m in CrawlMods(path, listing) {
      var i, j, k := CrawlModsSource(path, listing, m);
    }
    if exists i, j, k :: Collected(path, listing, i, j, k, m) {
      var i, j, k :| Collected(path, listing, i, j, k, m);
      CrawlModsComplete(path, listing, i, j, k, m);
    }
  }

  // ---------------------------------------------------------------------
  // Order, count and the skip rule, over the whole crawl

  /** The crawl of a listing is the crawl of its first part followed by the
      crawl of the rest: candidates come out in listing order. */
  lemma {:induction false} CrawlModsAppend(path: string, a: seq<Listed>, b: seq<Listed>)
    ensures CrawlMods(path, a + b) == CrawlMods(path, a) + CrawlMods(path, b)
    decreases |b|
  {
    if b != [] {
      var n := |b| - 1;
      assert (a + b)[..|a + b| - 1] == a + b[..n];
      CrawlModsAppend(path, a, b[..n]);
    } else {
      assert a + b == a;
    }
  }

  /** A plain file in the source folder contributes no candidate. */
  lemma PlainFileGivesNothing(path: string, listing: seq<Listed>, name: string)
    ensures CrawlMods(path, listing + [PlainFile(name)]) == CrawlMods(path, listing)
  {
    assert (listing + [PlainFile(name)])[..|listing|] == listing;
  }

  /** A directory holding the single `.js` file `f` gives its one pair. */
  lemma FileModsOne(path: string, package: string, root: string, f: string)
    requires EndsWith(f, ".js")
    ensures FileMods(path, package, root, [f]) == [ModFor(path, package, root, f)]
  {
    assert [f][..0] == [] && [f][0] == f;
  }

  /** The crawl keeps duplicates: when two directories of one package that
      are not skipped each hold the `.js` file `f`, and both give the same
      pair, that pair is returned twice. */
  lemma SamePairTwice(path: string, package: string, r1: string, r2: string, f: string)
    requires EndsWith(f, ".js") && !SkipMatches(r1) && !SkipMatches(r2)
    requires ModFor(path, package, r1, f) == ModFor(path, package, r2, f)
    ensures CrawlMods(path, [Directory(package, [WalkStep(r1, [f]), WalkStep(r2, [f])])]) ==
      [ModFor(path, package, r1, f), ModFor(path, package, r1, f)]
  {
    var w1, w2 := WalkStep(r1, [f]), WalkStep(r2, [f]);
    FileModsOne(path, package, r1, f);
    FileModsOne(path, package, r2, f);
    assert StepMods(path, package, w1) == [ModFor(path, package, r1, f)];
    assert StepMods(path, package, w2) == [ModFor(path, package, r2, f)];
    var walk := [w1, w2];
    assert walk[..1] == [w1] && [w1][..0] == [] && walk[1] == w2;
    assert WalkMods(path, package, [w1]) == StepMods(path, package, w1);
    assert WalkMods(path, package, walk) == StepMods(path, package, w1) + StepMods(path, package, w2);
    var listing := [Directory(package, walk)];
    assert listing[..0] == [];
    assert CrawlMods(path, listing) == WalkMods(path, package, walk);
  }

  /** The number of `.js` names among `files`. */
  function JsCount(files: seq<string>): nat
  {
    if files == [] then 0
    else (if EndsWith(files[0], ".js") then 1 else 0) + JsCount(files[1..])
  }

  /** The number of `.js` files in the walk steps the skip rule lets through. */
  function WalkJsCount(walk: seq<WalkStep>): nat
  {
    if walk == [] then 0
    else (if SkipMatches(walk[0].root) then 0 else JsCount(walk[0].files)) + WalkJsCount(walk[1..])
  }

  /** The number of `.js` files the crawl of `listing` should collect. */
  function ListingJsCount(listing: seq<Listed>): nat
  {
    if listing == [] then 0 else WalkJsCount(Walk(listing[0])) + ListingJsCount(listing[1..])
  }

  lemma {:induction false} JsCountAppend(a: seq<string>, b: seq<string>)
    ensures JsCount(a + b) == JsCount(a) + JsCount(b)
    decreases |a|
  {
    if a == [] {
      assert a + b == b;
    } else {
      assert (a + b)[1..] == a[1..] + b;
      JsCountAppend(a[1..], b);
    }
  }

  lemma {:induction false} FileModsCount(path: string, package: string, root: string, files: seq<string>)
    ensures |FileMods(path, package, root, files)| == JsCount(files)
    decreases |files|
  {
    if files != [] {
      var n := |files| - 1;
      FileModsCount(path, package, root, files[..n]);
      JsCountAppend(files[..n], [files[n]]);
      assert files[..n] + [files[n]] == files;
    }
  }

  lemma {:induction false} WalkJsCountAppend(a: seq<WalkStep>, b: seq<WalkStep>)
    ensures WalkJsCount(a + b) == WalkJsCount(a) + WalkJsCount(b)
    decreases |a|
  {
    if a == [] {
      assert a + b == b;
    } else {
      assert (a + b)[1..] == a[1..] + b;
      WalkJsCountAppend(a[1..], b);
    }
  }

  lemma {:induction false} WalkModsCount(path: string, package: string, walk: seq<WalkStep>)
    ensures |WalkMods(path, package, walk)| == WalkJsCount(walk)
    decreases |walk|
  {
    if walk != [] {
      var n := |walk| - 1;
      WalkModsCount(path, package, walk[..n]);
      FileModsCount(path, package, walk[n].root, walk[n].files);
      WalkJsCountAppend(walk[..n], [walk[n]]);
      assert walk[..n] + [walk[n]] == walk;
    }
  }

  lemma {:induction false} ListingJsCountAppend(a: seq<Listed>, b: seq<Listed>)
    ensures ListingJsCount(a + b) == ListingJsCount(a) + ListingJsCount(b)
    decreases |a|
  {
    if a == [] {
      assert a + b == b;
    } else {
      assert (a + b)[1..] == a[1..] + b;
      ListingJsCountAppend(a[1..], b);
    }
  }

  /** The crawl yields exactly one candidate per `.js` file in a directory the
      skip rule lets through, whatever the source folder's path. */
  lemma {:induction false} CrawlModsCount(path: string, listing: seq<Listed>)
    ensures |CrawlMods(path, listing)| == ListingJsCount(listing)
    decreases |listing|
  {
    if listing != [] {
      var n := |listing| - 1;
      CrawlModsCount(path, listing[..n]);
      WalkModsCount(path, listing[n].name, Walk(listing[n]));
      ListingJsCountAppend(listing[..n], [listing[n]]);
      assert listing[..n] + [listing[n]] == listing;
    }
  }

  /** A walk step inside a skipped directory contributes no candidate. */
  lemma SkippedSubtreeGivesNothing(path: string, package: string, dir: string, sub: string, files: seq<string>)
    requires SkipMatches(dir) && !EndsWith(dir, "\n")
    ensures StepMods(path, package, WalkStep(dir + "/" + sub, files)) == []
  {
    SkipCoversSubtree(dir, sub);
  }

  lemma SkipUnderSkippedFolder(path: string, root: string)
    requires SkipMatches(path) && !EndsWith(path, "\n") && path + "/" <= root
    ensures SkipMatches(root)
  {
    var sub := root[|path| + 1..];
    assert root == path + "/" + sub;
    SkipCoversSubtree(path, sub);
  }

  /** Every walk step of every listing entry lies under `path/`. */
  ghost predicate RootsUnder(path: string, listing: seq<Listed>)
  {
    forall i, j :: 0 <= i < |listing| && 0 <= j < |Walk(listing[i])| ==>
      path + "/" <= Walk(listing[i])[j].root
  }

  /** The skip rule is searched in the whole directory path, the source
      folder's own path included: when that path already matches, nothing is
      collected at all. */
  lemma SkippedSourceFolderGivesNothing(path: string, listing: seq<Listed>)
    requires SkipMatches(path) && !EndsWith(path, "\n")
    requires RootsUnder(path, listing)
    ensures CrawlMods(path, listing) == []
  {
    if CrawlMods(path, listing) != [] {
      var m := CrawlMods(path, listing)[0];
      var i, j, k := CrawlModsSource(path, listing, m);
      SkipUnderSkippedFolder(path, Walk(listing[i])[j].root);
      assert false;
    }
  }
}
