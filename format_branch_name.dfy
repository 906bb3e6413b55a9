/** The git branch name offered for an issue (`formatBranchName` in
    src/lib/utils/format-branch-name.ts). The configured `BRANCH_FORMAT`
    template, read from the environment by the source, is a parameter here. */
module BranchName {
  import opened JsString
  import opened SummarySlug

  const KeyPlaceholder: string := "$issueKey"
  const SummaryPlaceholder: string := "$issueSummary"
  const TypePlaceholder: string := "$issueType"

  /** `formatBranchName(summary, issueKey, issueType)` under the template
      `branchFormat` (`None` when unset). */
  function FormatBranchName(summary: string, issueKey: string, issueType: string,
                            branchFormat: Option<string>): (r: string)
    ensures branchFormat.None? ==> r == issueKey + "-" + HyphenatedSummary(summary)
  {
    var formattedSummary := HyphenatedSummary(summary);
    match branchFormat
    case None => issueKey + "-" + formattedSummary
    case Some(format) => FillTemplate(format, issueKey, formattedSummary, ToLower(issueType))
  }

  /** The chain of `replace` calls on the template, each replacing the first
      occurrence of its placeholder in the result of the previous one. */
  function FillTemplate(format: string, key: string, summary: string, issueType: string): string {
    ReplaceFirst(ReplaceFirst(ReplaceFirst(format, KeyPlaceholder, key),
                              SummaryPlaceholder, summary),
                 TypePlaceholder, issueType)
  }

  /** A template without placeholders is returned unchanged. */
  lemma NoPlaceholders(summary: string, issueKey: string, issueType: string, format: string)
    requires '$' !in format
    ensures FormatBranchName(summary, issueKey, issueType, Some(format)) == format
  {
    NoFirstNoOccurrence(format, KeyPlaceholder);
    NoFirstNoOccurrence(format, SummaryPlaceholder);
    NoFirstNoOccurrence(format, TypePlaceholder);
  }

  /** After a `$`-free prefix, the first occurrence of a `$`-placeholder is
      the one that is replaced. */
  lemma ReplaceAfterDollarFree(a: string, p: string, rest: string, r: string)
    requires '$' !in a && |p| > 0 && p[0] == '$'
    ensures ReplaceFirst(a + p + rest, p, r) == a + r + rest
  {
    var s := a + p + rest;
    IndexOfAfterFree(a, p, rest);
    assert s[..|a|] == a;
    assert s[|a| + |p|..] == rest;
  }

  /** A template holding each placeholder once, in the order key, summary,
      type, with `$`-free text between them, has each placeholder replaced by
      its value. */
  lemma FillInOrder(key: string, summary: string, issueType: string,
                    a: string, b: string, c: string, d: string)
    requires '$' !in a && '$' !in b && '$' !in c && '$' !in key && '$' !in summary
    ensures FillTemplate(a + KeyPlaceholder + b + SummaryPlaceholder + c + TypePlaceholder + d,
                         key, summary, issueType)
            == a + key + b + summary + c + issueType + d
  {
    ReplaceThree(KeyPlaceholder, SummaryPlaceholder, TypePlaceholder, key, summary, issueType, a, b, c, d);
  }

  /** Three first-occurrence replacements of `$`-led patterns, in the order
      the patterns occur, each after `$`-free text. */
  lemma ReplaceThree(p1: string, p2: string, p3: string, v1: string, v2: string, v3: string,
                     a: string, b: string, c: string, d: string)
    requires |p1| > 0 && p1[0] == '$' && |p2| > 0 && p2[0] == '$' && |p3| > 0 && p3[0] == '$'
    requires '$' !in a && '$' !in b && '$' !in c && '$' !in v1 && '$' !in v2
    ensures ReplaceFirst(ReplaceFirst(ReplaceFirst(a + p1 + b + p2 + c + p3 + d, p1, v1), p2, v2), p3, v3)
            == a + v1 + b + v2 + c + v3 + d
  {
    var rest := b + p2 + c + p3 + d;
    assert a + p1 + b + p2 + c + p3 + d == a + p1 + rest;
    ReplaceAfterDollarFree(a, p1, rest, v1);
    assert a + v1 + rest == a + v1 + b + p2 + c + p3 + d;
    ReplaceTwo(p2, p3, v2, v3, a + v1 + b, c, d);
  }

  /** The last two of those replacements. */
  lemma ReplaceTwo(p2: string, p3: string, v2: string, v3: string, x: string, c: string, d: string)
    requires |p2| > 0 && p2[0] == '$' && |p3| > 0 && p3[0] == '$'
    requires '$' !in x && '$' !in c && '$' !in v2
    ensures ReplaceFirst(ReplaceFirst(x + p2 + c + p3 + d, p2, v2), p3, v3) == x + v2 + c + v3 + d
  {
    var rest := c + p3 + d;
    assert x + p2 + c + p3 + d == x + p2 + rest;
    ReplaceAfterDollarFree(x, p2, rest, v2);
    assert x + v2 + rest == x + v2 + c + p3 + d;
    ReplaceAfterDollarFree(x + v2 + c, p3, d, v3);
  }

  /** A template holding each placeholder once, in the order key, summary,
      type, with `$`-free text around them, gives the key, the hyphenated
      summary and the lower-cased issue type in their places. */
  lemma EachPlaceholderReplaced(summary: string, issueKey: string, issueType: string,
                                a: string, b: string, c: string, d: string)
    requires '$' !in a && '$' !in b && '$' !in c && '$' !in issueKey
    ensures FormatBranchName(summary, issueKey, issueType,
                             Some(a + KeyPlaceholder + b + SummaryPlaceholder + c + TypePlaceholder + d))
            == a + issueKey + b + HyphenatedSummary(summary) + c + ToLower(issueType) + d
  {
    var slug := HyphenatedSummary(summary);
    assert '$' !in slug;
    FillInOrder(issueKey, slug, ToLower(issueType), a, b, c, d);
  }

  /** Only the first occurrence of a placeholder is replaced: a second
      `$issueKey` stays in the result. */
  lemma OnlyFirstOccurrence(summary: string, issueKey: string, issueType: string)
    requires '$' !in issueKey
    ensures FormatBranchName(summary, issueKey, issueType, Some(KeyPlaceholder + "/" + KeyPlaceholder))
            == issueKey + "/" + KeyPlaceholder
  {
    var s1 := issueKey + "/" + KeyPlaceholder;
    ReplaceAfterDollarFree([], KeyPlaceholder, "/" + KeyPlaceholder, issueKey);
    assert [] + KeyPlaceholder + ("/" + KeyPlaceholder) == KeyPlaceholder + "/" + KeyPlaceholder;
    assert [] + issueKey + ("/" + KeyPlaceholder) == s1;
    NoPlaceholderIn(s1, issueKey, SummaryPlaceholder);
    NoPlaceholderIn(s1, issueKey, TypePlaceholder);
  }

  lemma NoPlaceholderIn(s: string, issueKey: string, p: string)
    requires s == issueKey + "/" + KeyPlaceholder && '$' !in issueKey
    requires p == SummaryPlaceholder || p == TypePlaceholder
    ensures !Contains(s, p)
  {
    var n := |issueKey| + 1;
    forall i: nat | i + |p| <= |s| ensures !OccursAt(s, p, i) {
      assert i < n;
      assert s[i..i + |p|][0] == s[i];
      assert s[i] != '$' by {
        if i < |issueKey| { assert s[i] == issueKey[i]; } else { assert s[i] == '/'; }
      }
    }
  }
}
