/** Concrete instances of the crawler's rules, stated on literal names and paths. */
module CrawlerExamples {
  import opened PyText
  import opened Crawler

  /** A reserved word is prefixed with its package and title-cased. */
  lemma ReservedWordExample()
    ensures GetParamName("string", "widgets") == "widgetsString"
  {
    ReservedWordParam("string", "widgets");
    assert Upper('s') == 'S';
    assert "widgets" + ['S'] + "tring" == "widgetsString";
  }

  lemma TitleOfBar()
    ensures Title("bar") == "Bar"
  {
    TitleOfLowerWord("bar");
    assert Upper('b') == 'B';
  }

  /** Only the first two hyphen-separated words are kept. */
  lemma HyphenatedExample()
    ensures GetParamName("foo-bar-baz", "pkg") == "fooBar"
  {
    var first, second, rest := "foo", "bar", "-baz";
    assert first + "-" + second + rest == "foo-bar-baz";
    HyphenatedParam(first + "-" + second + rest, "pkg", first, second, rest);
    TitleOfBar();
  }

  /** A directory named `nls` is skipped at the end of the path, and also
      when a final newline follows it, since `$` matches before that newline. */
  lemma SkippedDirectoriesExample()
    ensures SkipMatches("src/app/nls")
    ensures SkipMatches("src/app/nls\n")
  {
    SkipMatchesSpec("src/app/nls");
    SkipMatchAtChars("src/app/nls", 7);
    SkipMatchesSpec("src/app/nls\n");
    SkipMatchAtChars("src/app/nls\n", 7);
  }

  lemma NlsPrefixKept()
    ensures !SkipMatches("src/app/nlsx")
  {
    var s := "src/app/nlsx";
    SkipMatchesSpec(s);
    forall j ensures !SkipMatchAt(s, j) {
      SkipMatchAtChars(s, j);
    }
  }

  lemma TestsSuffixKept()
    ensures !SkipMatches("src/mytests/a")
  {
    var s := "src/mytests/a";
    SkipMatchesSpec(s);
    forall j ensures !SkipMatchAt(s, j) {
      SkipMatchAtChars(s, j);
    }
  }

  lemma NewlineSubtreeKept()
    ensures !SkipMatches("src/app/nls\n/a")
  {
    var s := "src/app/nls\n/a";
    SkipMatchesSpec(s);
    forall j ensures !SkipMatchAt(s, j) {
      SkipMatchAtChars(s, j);
    }
  }

  /** Not skipped: a name that only starts with `nls`, a name that only ends
      with `tests`, and a directory below `nls` plus a newline, where the
      newline is no longer the last character. */
  lemma KeptDirectoriesExample()
    ensures !SkipMatches("src/app/nlsx")
    ensures !SkipMatches("src/mytests/a")
    ensures !SkipMatches("src/app/nls\n/a")
  {
    NlsPrefixKept();
    TestsSuffixKept();
    NewlineSubtreeKept();
  }

  /** No copy of `src/` starts inside `app/` in `app/src/x`. */
  lemma NoSourceFolderBefore()
    ensures forall j :: 0 <= j < 4 ==> !OccursAt("app/" + ("src" + "/") + "x", "src" + "/", j)
  {
    forall j | 0 <= j < 4
      ensures !OccursAt("app/" + ("src" + "/") + "x", "src" + "/", j)
    {
      if OccursAt("app/" + ("src" + "/") + "x", "src" + "/", j) {
        OccursAtHead("app/" + ("src" + "/") + "x", "src" + "/", j);
      }
    }
  }

  /** A source folder name repeated deeper in the tree is removed as well. */
  lemma RepeatedFolderExample()
    ensures ModFor("src", "app", "src/app/src/x", "y.js").importPath == "app/x/y"
  {
    assert "src" + "/" + "app/" + "src" + "/" + "x" == "src/app/src/x";
    assert ModuleName("y.js") == "y";
    assert ModFor("src", "app", "src" + "/" + "app/" + "src" + "/" + "x", "y.js").importPath
        == "app/" + "x" + "/" + ModuleName("y.js") by {
      NoSourceFolderBefore();
      assert EndsWith("y.js", ".js");
      ImportPathDropsEveryCopy("src", "app/", "x", "app", "y.js");
    }
  }

  /** No copy of `src/` occurs in `app/x`. */
  lemma NoSourceFolderIn()
    ensures forall j :: !OccursAt("app/x", "src" + "/", j)
  {
    forall j ensures !OccursAt("app/x", "src" + "/", j) {
      if OccursAt("app/x", "src" + "/", j) {
        OccursAtHead("app/x", "src" + "/", j);
      }
    }
  }

  /** The same file name in `src/app/x` gives the same pair. */
  lemma PlainFolderExample()
    ensures ModFor("src", "app", "src/app/x", "y.js") == Mod("app/x/y", "y")
  {
    assert "src" + "/" + "app/x" == "src/app/x";
    assert ModuleName("y.js") == "y";
    assert ModFor("src", "app", "src" + "/" + "app/x", "y.js").importPath == "app/x" + "/" + ModuleName("y.js") by {
      NoSourceFolderIn();
      assert EndsWith("y.js", ".js");
      ImportPathRelative("src", "app/x", "app", "y.js");
    }
    PlainParam("y", "app");
  }

  lemma PlainRootKept()
    ensures !SkipMatches("src/app/x")
  {
    var s := "src/app/x";
    SkipMatchesSpec(s);
    forall j ensures !SkipMatchAt(s, j) {
      SkipMatchAtChars(s, j);
    }
  }

  lemma RepeatedRootKept()
    ensures !SkipMatches("src/app/src/x")
  {
    var s := "src/app/src/x";
    SkipMatchesSpec(s);
    forall j ensures !SkipMatchAt(s, j) {
      SkipMatchAtChars(s, j);
    }
  }

  /** The crawl can return the same pair twice: with source folder `src`,
      `src/app/x/y.js` and `src/app/src/x/y.js` both give `("app/x/y", "y")`. */
  lemma DuplicatePairExample()
    ensures CrawlMods("src", [Directory("app", [WalkStep("src/app/x", ["y.js"]), WalkStep("src/app/src/x", ["y.js"])])])
      == [Mod("app/x/y", "y"), Mod("app/x/y", "y")]
  {
    PlainFolderExample();
    RepeatedFolderExample();
    PlainParam("y", "app");
    PlainRootKept();
    RepeatedRootKept();
    assert EndsWith("y.js", ".js");
    SamePairTwice("src", "app", "src/app/x", "src/app/src/x", "y.js");
  }
}
