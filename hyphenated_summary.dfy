/** Turning an issue summary into a branch-name slug (`hyphenatedSummary`
    and `camelToSnake` in src/lib/utils/hyphenated-summary.ts). */
module SummarySlug {
  import opened JsString

  /** `c.toUpperCase() === c`, the source's test for "upper case"; it holds
      for every character but the lower-case letters. */
  predicate IsUppercase(c: char) {
    UpperChar(c) == c
  }

  lemma IsUppercaseIffNotLower(c: char)
    ensures IsUppercase(c) <==> !IsLowerLetter(c)
  {
  }

  /** The `result` of `camelToSnake`'s loop after the characters of `s`: a
      `-` goes in front of every upper-case character whose predecessor was
      not upper-case. */
  function Marked(s: string): string
    decreases |s|
  {
    if s == [] then []
    else
      var init := s[..|s| - 1];
      var c := s[|s| - 1];
      var prevLowercase := init != [] && !IsUppercase(init[|init| - 1]);
      Marked(init) + (if IsUppercase(c) && prevLowercase then "-" else "") + [c]
  }

  /** The loop of `camelToSnake`. */
  method MarkBoundaries(s: string) returns (result: string)
    ensures result == Marked(s)
  {
    result := "";
    var prevLowercase := false;
    var i := 0;
    while i < |s|
      invariant 0 <= i <= |s|
      invariant result == Marked(s[..i])
      invariant prevLowercase == (i > 0 && !IsUppercase(s[i - 1]))
    {
      var character := s[i];
      assert s[..i + 1][..i] == s[..i];
      var isUppercase := UpperChar(character) == character;
      if isUppercase && prevLowercase {
        result := result + "-";
      }
      result := result + [character];
      prevLowercase := !isUppercase;
      i := i + 1;
    }
    assert s[..i] == s;
  }

  /** What is emitted for position `i` of `s`: the character, preceded by a
      hyphen exactly when it is upper-case and follows a lower-case letter. */
  function MarkAt(s: string, i: nat): string
    requires i < |s|
  {
    (if i > 0 && IsLowerLetter(s[i - 1]) && !IsLowerLetter(s[i]) then "-" else "") + [s[i]]
  }

  function MarkAll(s: string, n: nat): string
    requires n <= |s|
  {
    if n == 0 then [] else MarkAll(s, n - 1) + MarkAt(s, n - 1)
  }

  /** The loop's output, position by position: every character of the input
      in order, with one hyphen inserted before each character `c` with
      `c.toUpperCase() == c` (digits and punctuation included) that directly
      follows a lower-case letter, and nowhere else. */
  lemma {:induction false} MarkedPerPosition(s: string)
    ensures Marked(s) == MarkAll(s, |s|)
  {
    MarkedPrefix(s, |s|);
    assert s[..|s|] == s;
  }

  lemma {:induction false} MarkedPrefix(s: string, n: nat)
    requires n <= |s|
    ensures Marked(s[..n]) == MarkAll(s, n)
  {
    if n > 0 {
      MarkedPrefix(s, n - 1);
      var p := s[..n];
      assert p[..|p| - 1] == s[..n - 1];
      IsUppercaseIffNotLower(s[n - 1]);
      if n > 1 {
        IsUppercaseIffNotLower(s[n - 2]);
      }
    }
  }

  /** `s.replace(/[class]+/g, "-")`: every maximal run of characters in the
      class becomes a single hyphen. `inRun` says that the previous input
      character was in the class (so its hyphen has been emitted). */
  function ReplaceRuns(s: string, inClass: char -> bool, inRun: bool): (r: string)
    ensures forall i :: 0 <= i < |r| ==> r[i] == '-' || !inClass(r[i])
    ensures inClass('-') ==> forall i :: 0 <= i < |r| - 1 ==> !(r[i] == '-' && r[i + 1] == '-')
    ensures inClass('-') && inRun && r != [] ==> r[0] != '-'
  {
    if s == [] then []
    else if !inClass(s[0]) then [s[0]] + ReplaceRuns(s[1..], inClass, false)
    else if inRun then ReplaceRuns(s[1..], inClass, true)
    else ['-'] + ReplaceRuns(s[1..], inClass, true)
  }

  predicate IsHyphen(c: char) {
    c == '-'
  }

  predicate NotHyphen(c: char) {
    c != '-'
  }

  predicate IsSlugChar(c: char) {
    ('a' <= c <= 'z') || ('0' <= c <= '9')
  }

  predicate NotSlugChar(c: char) {
    !IsSlugChar(c)
  }

  /** `camelToSnake(s)`: marked boundaries, runs of hyphens collapsed, lower-cased. */
  function CamelToSnake(s: string): (r: string)
    ensures forall i :: 0 <= i < |r| ==> !('A' <= r[i] <= 'Z')
    ensures forall i :: 0 <= i < |r| - 1 ==> !(r[i] == '-' && r[i + 1] == '-')
  {
    ToLower(ReplaceRuns(Marked(s), IsHyphen, false))
  }

  /** `.replace(/-$/, "")`: drops one hyphen at the very end. */
  function DropTrailingHyphen(s: string): (r: string)
    ensures |s| - 1 <= |r| <= |s| && r == s[..|r|]
    ensures |r| < |s| <==> s != [] && s[|s| - 1] == '-'
  {
    if s != [] && s[|s| - 1] == '-' then s[..|s| - 1] else s
  }

  /** `hyphenatedSummary(summary)`. */
  function HyphenatedSummary(summary: string): (r: string)
    ensures forall i :: 0 <= i < |r| ==> IsSlugChar(r[i]) || r[i] == '-'
    ensures forall i :: 0 <= i < |r| - 1 ==> !(r[i] == '-' && r[i + 1] == '-')
    ensures r == [] || r[|r| - 1] != '-'
  {
    var slug := ReplaceRuns(ToLower(CamelToSnake(summary)), NotSlugChar, false);
    var trimmed := DropTrailingHyphen(slug);
    DropTrailingHyphenShape(slug);
    NoTripleHyphen(trimmed);
    ReplaceFirst(trimmed, "---", "-")
  }

  /** Without two adjacent hyphens, dropping a trailing one leaves no
      hyphen at the end, and keeps the characters and the adjacency rule. */
  lemma DropTrailingHyphenShape(s: string)
    requires forall i :: 0 <= i < |s| - 1 ==> !(s[i] == '-' && s[i + 1] == '-')
    ensures var r := DropTrailingHyphen(s);
      r == [] || r[|r| - 1] != '-'
  {
  }

  /** The closing `.replace("---", "-")` never changes anything: a string
      without two adjacent hyphens has no `---` in it. */
  lemma NoTripleHyphen(s: string)
    requires forall i :: 0 <= i < |s| - 1 ==> !(s[i] == '-' && s[i + 1] == '-')
    ensures ReplaceFirst(s, "---", "-") == s
  {
    forall i: nat | i + 3 <= |s| ensures !OccursAt(s, "---", i) {
      assert s[i..i + 3][0] == s[i] && s[i..i + 3][1] == s[i + 1];
    }
  }

  /** Replacing runs keeps, in order, every character outside the class
      that a filter `q` passing no hyphen would keep: only class characters
      disappear and only hyphens appear. */
  lemma {:induction false} ReplaceRunsKeeps(s: string, inClass: char -> bool, inRun: bool, q: char -> bool)
    requires forall c :: q(c) ==> !inClass(c) && c != '-'
    ensures Filter(ReplaceRuns(s, inClass, inRun), q) == Filter(s, q)
  {
    if s != [] {
      ReplaceRunsKeeps(s[1..], inClass, false, q);
      ReplaceRunsKeeps(s[1..], inClass, true, q);
      if !inClass(s[0]) {
        FilterCons(s[0], ReplaceRuns(s[1..], inClass, false), q);
      } else if !inRun {
        FilterCons('-', ReplaceRuns(s[1..], inClass, true), q);
      }
    }
  }

  /** Marking boundaries only inserts hyphens: the other characters come
      out as they went in, in order. */
  lemma {:induction false} MarkedKeeps(s: string)
    ensures Filter(Marked(s), NotHyphen) == Filter(s, NotHyphen)
    decreases |s|
  {
    if s != [] {
      var init, c := s[..|s| - 1], s[|s| - 1];
      MarkedKeeps(init);
      var mark := MarkedStep(s);
      FilterAppend(Marked(init) + mark, [c], NotHyphen);
      FilterAppend(Marked(init), mark, NotHyphen);
      FilterAppend(init, [c], NotHyphen);
      assert s == init + [c];
    }
  }

  /** The last step of `Marked`: what goes between the marked prefix and
      the last character is at most one hyphen. */
  lemma MarkedStep(s: string) returns (mark: string)
    requires s != []
    ensures Marked(s) == Marked(s[..|s| - 1]) + mark + [s[|s| - 1]]
    ensures mark == [] || mark == "-"
    ensures Filter(mark, NotHyphen) == []
  {
    var init := s[..|s| - 1];
    mark := if IsUppercase(s[|s| - 1]) && init != [] && !IsUppercase(init[|init| - 1]) then "-" else "";
    if mark != [] {
      FilterCons('-', [], NotHyphen);
    }
  }

  /** `camelToSnake` only inserts and merges hyphens and lower-cases
      letters: its characters other than hyphens are those of the input,
      lower-cased, in order. */
  lemma CamelToSnakeContent(s: string)
    ensures Filter(CamelToSnake(s), NotHyphen) == ToLower(Filter(s, NotHyphen))
  {
    var marked := Marked(s);
    var collapsed := ReplaceRuns(marked, IsHyphen, false);
    MarkedKeeps(s);
    ReplaceRunsKeeps(marked, IsHyphen, false, NotHyphen);
    ToLowerFilter(collapsed, NotHyphen);
  }

  /** The slug's letters and digits are exactly the summary's letters and
      digits, lower-cased and in order: only separators change. */
  lemma SlugContent(summary: string)
    ensures Filter(HyphenatedSummary(summary), IsSlugChar) == Filter(ToLower(summary), IsSlugChar)
  {
    var snake := CamelToSnake(summary);
    SlugOfSnake(summary);
    SnakeContent(summary);
    FilterFilter(snake, NotHyphen, IsSlugChar);
  }

  /** The slug's letters and digits are those of the snake-cased summary. */
  lemma SlugOfSnake(summary: string)
    ensures Filter(HyphenatedSummary(summary), IsSlugChar) == Filter(CamelToSnake(summary), IsSlugChar)
  {
    var snake := CamelToSnake(summary);
    ToLowerAlready(snake);
    var slug := ReplaceRuns(snake, NotSlugChar, false);
    ReplaceRunsKeeps(snake, NotSlugChar, false, IsSlugChar);
    var trimmed := DropTrailingHyphen(slug);
    DropTrailingHyphenKeeps(slug);
    NoTripleHyphen(trimmed);
    assert HyphenatedSummary(summary) == trimmed;
  }

  /** The snake-cased summary's letters and digits, found through its
      characters other than hyphens. */
  lemma SnakeContent(summary: string)
    ensures Filter(Filter(CamelToSnake(summary), NotHyphen), IsSlugChar) == Filter(ToLower(summary), IsSlugChar)
  {
    CamelToSnakeContent(summary);
    ToLowerFilter(summary, NotHyphen);
    FilterFilter(ToLower(summary), NotHyphen, IsSlugChar);
  }

  /** A string without upper-case letters is its own lower-casing. */
  lemma ToLowerAlready(s: string)
    requires forall i :: 0 <= i < |s| ==> !('A' <= s[i] <= 'Z')
    ensures ToLower(s) == s
  {
  }

  /** Dropping a trailing hyphen keeps every letter and digit. */
  lemma DropTrailingHyphenKeeps(s: string)
    ensures Filter(DropTrailingHyphen(s), IsSlugChar) == Filter(s, IsSlugChar)
  {
    if s != [] && s[|s| - 1] == '-' {
      FilterAppend(s[..|s| - 1], ['-'], IsSlugChar);
      FilterCons('-', [], IsSlugChar);
      assert s == s[..|s| - 1] + ['-'];
    }
  }
}
