/** The Python string built-ins the crawler relies on (`str.find`, `str.split`,
    `str.replace`, `str.title`, `str.endswith`), stated over `seq<char>` and
    proved against independent characterisations. `Join` is not used by the
    crawler: it only serves to state facts about `Split` and `Replace`. */
module PyText {

  /** `pat` occurs in `s` starting at index `i`. */
  predicate OccursAt(s: string, pat: string, i: int)
  {
    0 <= i && i + |pat| <= |s| && s[i..i + |pat|] == pat
  }

  /** `s.endswith(suffix)`. */
  predicate EndsWith(s: string, suffix: string)
  {
    |suffix| <= |s| && s[|s| - |suffix|..] == suffix
  }

  /** `s.find(pat, k)`: the lowest index at or after `k` where `pat` occurs, or -1. */
  function FindFrom(s: string, pat: string, k: nat): (i: int)
    ensures i == -1 || (k <= i && i + |pat| <= |s|)
    decreases |s| - k
  {
    if k + |pat| > |s| then -1
    else if s[k..k + |pat|] == pat then k
    else FindFrom(s, pat, k + 1)
  }

  lemma {:induction false} FindFromSpec(s: string, pat: string, k: nat)
    ensures FindFrom(s, pat, k) == -1 ==> forall j :: k <= j ==> !OccursAt(s, pat, j)
    ensures FindFrom(s, pat, k) >= 0 ==>
      OccursAt(s, pat, FindFrom(s, pat, k)) &&
      forall j :: k <= j < FindFrom(s, pat, k) ==> !OccursAt(s, pat, j)
    decreases |s| - k
  {
    if k + |pat| <= |s| && s[k..k + |pat|] != pat {
      FindFromSpec(s, pat, k + 1);
    }
  }

  /** `s.find(pat)`. */
  function Find(s: string, pat: string): (i: int)
    ensures i == -1 || (0 <= i && i + |pat| <= |s|)
  {
    FindFrom(s, pat, 0)
  }

  /** `Find` gives -1 exactly when `pat` occurs nowhere, and otherwise the
      lowest index where it occurs. */
  lemma FindSpec(s: string, pat: string)
    ensures Find(s, pat) == -1 <==> forall j :: !OccursAt(s, pat, j)
    ensures Find(s, pat) >= 0 ==>
      OccursAt(s, pat, Find(s, pat)) && forall j :: 0 <= j < Find(s, pat) ==> !OccursAt(s, pat, j)
  {
    FindFromSpec(s, pat, 0);
  }

  /** Where `Find` reports an index, the pattern occurs there. */
  lemma FindFound(s: string, pat: string)
    ensures Find(s, pat) >= 0 ==> OccursAt(s, pat, Find(s, pat))
  {
    FindFromSpec(s, pat, 0);
  }

  /** A one-character pattern is found exactly when the character is in the string. */
  lemma FindChar(s: string, c: char)
    ensures Find(s, [c]) != -1 <==> c in s
  {
    FindSpec(s, [c]);
    forall j | 0 <= j < |s|
      ensures OccursAt(s, [c], j) <==> s[j] == c
    {
      assert s[j..j + 1] == [s[j]];
    }
  }

  /** The first occurrence of a character is found where it first appears. */
  lemma FindFirstChar(s: string, c: char, i: nat)
    requires i < |s| && s[i] == c && c !in s[..i]
    ensures Find(s, [c]) == i
  {
    FindSpec(s, [c]);
    forall j | 0 <= j < |s|
      ensures OccursAt(s, [c], j) <==> s[j] == c
    {
      assert s[j..j + 1] == [s[j]];
    }
    assert OccursAt(s, [c], i);
  }

  /** An occurrence inside a prefix of `s` is an occurrence in `s`. */
  lemma OccursInPrefix(s: string, pat: string, n: nat, j: int)
    requires n <= |s| && OccursAt(s[..n], pat, j)
    ensures OccursAt(s, pat, j) && j + |pat| <= n
  {
    assert s[..n][j..j + |pat|] == s[j..j + |pat|];
  }

  /** `s.split(sep)` for a non-empty separator: the pieces between the
      non-overlapping occurrences of `sep`, found left to right. */
  function Split(s: string, sep: string): (parts: seq<string>)
    requires sep != []
    ensures |parts| >= 1
    decreases |s|
  {
    var i := Find(s, sep);
    if i == -1 then [s] else [s[..i]] + Split(s[i + |sep|..], sep)
  }

  /** A split yields more than one piece exactly when the separator occurs. */
  lemma SplitSeveral(s: string, sep: string)
    requires sep != []
    ensures |Split(s, sep)| >= 2 <==> Find(s, sep) != -1
  {
  }

  /** Splitting on a character cuts at its first appearance. */
  lemma SplitAtFirstChar(s: string, c: char, i: nat)
    requires i < |s| && s[i] == c && c !in s[..i]
    ensures Split(s, [c]) == [s[..i]] + Split(s[i + 1..], [c])
  {
    FindFirstChar(s, c, i);
  }

  /** Splitting `a c b` on `c`, where `a` has no `c`, cuts right after `a`. */
  lemma SplitAfterFree(a: string, c: char, b: string)
    requires c !in a
    ensures Split(a + [c] + b, [c]) == [a] + Split(b, [c])
  {
    var s := a + [c] + b;
    assert s[..|a|] == a && s[|a| + 1..] == b;
    SplitAtFirstChar(s, c, |a|);
  }

  /** A string without the separator character splits into itself alone. */
  lemma SplitWithoutChar(s: string, c: char)
    requires c !in s
    ensures Split(s, [c]) == [s]
  {
    FindChar(s, c);
  }

  /** `sep.join(parts)`. */
  function Join(parts: seq<string>, sep: string): string
  {
    if |parts| == 0 then []
    else if |parts| == 1 then parts[0]
    else parts[0] + sep + Join(parts[1..], sep)
  }

  lemma JoinCons(a: string, tail: seq<string>, sep: string)
    requires |tail| >= 1
    ensures Join([a] + tail, sep) == a + sep + Join(tail, sep)
  {
    assert ([a] + tail)[1..] == tail;
  }

  /** Joining the pieces of a split with the same separator gives back the string. */
  lemma {:induction false} JoinSplit(s: string, sep: string)
    requires sep != []
    ensures Join(Split(s, sep), sep) == s
    decreases |s|
  {
    var i := Find(s, sep);
    if i != -1 {
      var rest := s[i + |sep|..];
      JoinSplit(rest, sep);
      JoinCons(s[..i], Split(rest, sep), sep);
      FoundCut(s, sep);
    }
  }

  /** The string around the first occurrence of `sep`. */
  lemma FoundCut(s: string, sep: string)
    requires Find(s, sep) != -1
    ensures s == s[..Find(s, sep)] + sep + s[Find(s, sep) + |sep|..]
  {
    var i := Find(s, sep);
    FindFound(s, sep);
    assert s == s[..i] + s[i..i + |sep|] + s[i + |sep|..];
  }

  /** No piece of a split contains the separator. */
  lemma {:induction false} SplitPiecesFree(s: string, sep: string)
    requires sep != []
    ensures forall p :: p in Split(s, sep) ==> Find(p, sep) == -1
    decreases |s|
  {
    var i := Find(s, sep);
    if i != -1 {
      var rest := s[i + |sep|..];
      SplitPiecesFree(rest, sep);
      FindSpec(s, sep);
      FindSpec(s[..i], sep);
      if Find(s[..i], sep) != -1 {
        OccursInPrefix(s, sep, i, Find(s[..i], sep));
        assert false;
      }
    }
  }

  /** `s.replace(pat, repl)` for a non-empty `pat`: every non-overlapping
      occurrence, found left to right, is replaced; nothing else changes. */
  function Replace(s: string, pat: string, repl: string): string
    requires pat != []
    decreases |s|
  {
    var i := Find(s, pat);
    if i == -1 then s else s[..i] + repl + Replace(s[i + |pat|..], pat, repl)
  }

  /** Python's identity `s.replace(pat, repl) == repl.join(s.split(pat))`. */
  lemma {:induction false} ReplaceIsJoinOfSplit(s: string, pat: string, repl: string)
    requires pat != []
    ensures Replace(s, pat, repl) == Join(Split(s, pat), repl)
    decreases |s|
  {
    var i := Find(s, pat);
    if i != -1 {
      var rest := s[i + |pat|..];
      var tail := Split(rest, pat);
      ReplaceIsJoinOfSplit(rest, pat, repl);
      assert ([s[..i]] + tail)[1..] == tail;
    }
  }

  /** A leading occurrence is replaced and the scan resumes right after it. */
  lemma ReplaceLeading(pat: string, rest: string, repl: string)
    requires pat != []
    ensures Replace(pat + rest, pat, repl) == repl + Replace(rest, pat, repl)
  {
    var s := pat + rest;
    assert s[0..|pat|] == pat;
    assert Find(s, pat) == 0;
    assert s[|pat|..] == rest;
  }

  /** When the first occurrence of `pat` in `a pat b` is the one after `a`,
      `a` is kept, that occurrence replaced, and the scan resumes on `b`. */
  lemma ReplaceAfterFree(a: string, pat: string, b: string, repl: string)
    requires pat != []
    requires forall j :: 0 <= j < |a| ==> !OccursAt(a + pat + b, pat, j)
    ensures Replace(a + pat + b, pat, repl) == a + repl + Replace(b, pat, repl)
  {
    var s := a + pat + b;
    assert s[|a|..|a| + |pat|] == pat;
    assert OccursAt(s, pat, |a|);
    FindSpec(s, pat);
    assert Find(s, pat) == |a|;
    assert s[..|a|] == a && s[|a| + |pat|..] == b;
  }

  /** An occurrence starts with the pattern's first character. */
  lemma OccursAtHead(s: string, pat: string, j: int)
    requires pat != [] && OccursAt(s, pat, j)
    ensures s[j] == pat[0]
  {
    assert s[j..j + |pat|][0] == s[j];
  }

  /** A string in which `pat` does not occur is left as it is. */
  lemma ReplaceAbsent(s: string, pat: string, repl: string)
    requires pat != [] && forall j :: !OccursAt(s, pat, j)
    ensures Replace(s, pat, repl) == s
  {
    FindSpec(s, pat);
  }

  /** Python's notion of a cased character, restricted to ASCII letters. */
  predicate IsCased(c: char)
  {
    'a' <= c <= 'z' || 'A' <= c <= 'Z'
  }

  function Upper(c: char): char
  {
    if 'a' <= c <= 'z' then (c as int - 32) as char else c
  }

  function Lower(c: char): char
  {
    if 'A' <= c <= 'Z' then (c as int + 32) as char else c
  }

  /** The scan behind `str.title()`: a cased character is lowered when the
      character before it is cased and upper-cased otherwise; every other
      character is kept and starts a new word. */
  function TitleFrom(s: string, prevCased: bool): (r: string)
    ensures |r| == |s|
  {
    if s == [] then []
    else
      var c := if !IsCased(s[0]) then s[0] else if prevCased then Lower(s[0]) else Upper(s[0]);
      [c] + TitleFrom(s[1..], IsCased(s[0]))
  }

  /** `s.title()`. */
  function Title(s: string): (r: string)
    ensures |r| == |s|
  {
    TitleFrom(s, false)
  }

  /** The character `Title` puts at index `k`, read off `s` alone. */
  function TitleChar(s: string, k: nat): char
    requires k < |s|
  {
    if !IsCased(s[k]) then s[k]
    else if k > 0 && IsCased(s[k - 1]) then Lower(s[k])
    else Upper(s[k])
  }

  lemma {:induction false} TitleFromAt(s: string, prevCased: bool, k: nat)
    requires k < |s|
    ensures TitleFrom(s, prevCased)[k] ==
      if !IsCased(s[k]) then s[k]
      else if (if k == 0 then prevCased else IsCased(s[k - 1])) then Lower(s[k])
      else Upper(s[k])
  {
    if k > 0 {
      TitleFromAt(s[1..], IsCased(s[0]), k - 1);
    }
  }

  /** `Title` agrees, character by character, with the word-start rule. */
  lemma TitleAt(s: string, k: nat)
    requires k < |s|
    ensures Title(s)[k] == TitleChar(s, k)
  {
    TitleFromAt(s, false, k);
  }

  /** Title-casing an already title-cased string changes nothing. */
  lemma TitleIdempotent(s: string)
    ensures Title(Title(s)) == Title(s)
  {
    var t := Title(s);
    forall k | 0 <= k < |s|
      ensures Title(t)[k] == t[k]
    {
      TitleAt(s, k);
      TitleAt(t, k);
      if k > 0 {
        TitleAt(s, k - 1);
      }
    }
  }

  /** A word of lower-case letters is title-cased by upper-casing its first letter. */
  lemma TitleOfLowerWord(s: string)
    requires |s| > 0 && forall k :: 0 <= k < |s| ==> 'a' <= s[k] <= 'z'
    ensures Title(s) == [Upper(s[0])] + s[1..]
  {
    forall k | 0 <= k < |s|
      ensures Title(s)[k] == ([Upper(s[0])] + s[1..])[k]
    {
      TitleAt(s, k);
    }
  }

  /** Title-casing changes only letters: a non-letter is in the result exactly
      when it is in the input. */
  lemma TitleKeepsNonLetters(s: string, c: char)
    requires !IsCased(c)
    ensures c in Title(s) <==> c in s
  {
    if c in s {
      var k :| 0 <= k < |s| && s[k] == c;
      TitleAt(s, k);
    }
    if c in Title(s) {
      var k :| 0 <= k < |s| && Title(s)[k] == c;
      TitleAt(s, k);
    }
  }
}
