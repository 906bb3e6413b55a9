/** The per-line and per-word formatting of the issue-description renderer
    (`formatLine`, `formatWord`, `isSmartLink`, `formatSmartLink`,
    `isNormalLink` and `formatNormalLink` of `ADFRenderer` in
    src/lib/adf-renderer.ts): Jira wiki headings, `{{monospace}}` runs,
    attachments and links. */
module AdfFormat {
  import opened JsString
  import opened Ansi

  const Open: Styled := [Ch('{'), Ch('{')]
  const Close: Styled := [Ch('}'), Ch('}')]

  /** `chalk.hex("#FFA500").bgGray(text)`: orange on grey. */
  function Code(text: Styled): (r: Styled)
    ensures Width(r) == Width(text)
    ensures text == [] ==> r == []
  {
    PaintWidth("bgGray", text);
    PaintWidth("#FFA500", Paint("bgGray", text));
    Paint("#FFA500", Paint("bgGray", text))
  }

  /** `line.slice(0, start) + code(line.slice(start + 2, end)) +
      line.slice(end + 2)`: the run `{{text}}` with its `{{` at `start` and
      its `}}` at `end` replaced by the painted text. */
  function PaintRun(line: Styled, start: nat, end: nat): Styled
    requires start + 2 <= end && end + 2 <= |line|
  {
    line[..start] + Code(line[start + 2..end]) + line[end + 2..]
  }

  /** Replacing the run `{{text}}` found at `start` and `end` by the
      painted text drops exactly the four braces from the visible width. */
  lemma ReplaceRunWidth(line: Styled, start: nat, end: nat)
    requires OccursAt(line, Open, start) && OccursAt(line, Close, end) && start + 2 <= end
    ensures Width(PaintRun(line, start, end)) + 4 == Width(line)
  {
    var a, b, c := line[..start], line[start + 2..end], line[end + 2..];
    assert line == a + Open + b + Close + c by {
      assert line[start..start + 2] == Open;
      assert line[end..end + 2] == Close;
    }
    WidthAppend(a, Open);
    WidthAppend(a + Open, b);
    WidthAppend(a + Open + b, Close);
    WidthAppend(a + Open + b + Close, c);
    WidthAppend(a, Code(b));
    WidthAppend(a + Code(b), c);
    assert Width(Open) == 2 && Width(Close) == 2 by {
      assert Open[..1] == [Ch('{')] && Close[..1] == [Ch('}')];
    }
  }

  /** The `{{…}}` loop with each `{{` paired with the first `}}` after
      it: runs are painted from left to right until no `{{` is followed by
      a `}}`. */
  function Braces(line: Styled): (r: Styled)
    ensures Width(r) <= Width(line)
    ensures IndexOf(r, Open) < 0 || IndexOfFrom(r, Close, IndexOf(r, Open) + 2) < 0
    decreases Width(line)
  {
    var start := IndexOf(line, Open);
    if start < 0 then line
    else
      var end := IndexOfFrom(line, Close, start + 2);
      if end < 0 then line
      else
        ReplaceRunWidth(line, start, end);
        Braces(PaintRun(line, start, end))
  }

  /** The loop of `formatLine`, pairing each `{{` with the next `}}`. */
  method FormatBraces(line: Styled) returns (r: Styled)
    ensures r == Braces(line)
  {
    r := line;
    while Contains(r, Open) && IndexOfFrom(r, Close, IndexOf(r, Open) + 2) >= 0
      invariant Braces(r) == Braces(line)
      decreases Width(r)
    {
      var start := IndexOf(r, Open);
      var end := IndexOfFrom(r, Close, start + 2);
      ReplaceRunWidth(r, start, end);
      r := PaintRun(r, start, end);
    }
  }

  /** A line without `{` has nothing to paint. */
  lemma BracesNoBrace(s: string)
    requires '{' !in s
    ensures Braces(Plain(s)) == Plain(s)
  {
    NoFirstNoOccurrence(Plain(s), Open);
  }

  /** Painting adds no visible character. */
  lemma CodeKeepsOut(text: Styled, c: char)
    requires Ch(c) !in text
    ensures Ch(c) !in Code(text)
  {
    PaintKeepsOut("bgGray", text, c);
    PaintKeepsOut("#FFA500", Paint("bgGray", text), c);
  }

  lemma PaintKeepsOut(style: string, text: Styled, c: char)
    requires Ch(c) !in text
    ensures Ch(c) !in Paint(style, text)
  {
  }

  /** One monospace run in a line. */
  lemma BracesOneRun(a: Styled, b: Styled, c: Styled)
    requires Ch('{') !in a && Ch('{') !in b && Ch('}') !in b && Ch('{') !in c
    ensures Braces(a + Open + b + Close + c) == a + Code(b) + c
  {
    var line := a + Open + b + Close + c;
    var start := |a|;
    var end := |a| + 2 + |b|;
    assert line == a + Open + (b + Close + c);
    IndexOfAfterFree(a, Open, b + Close + c);
    assert line[..start] == a && line[start + 2..end] == b && line[end + 2..] == c
           && line[end..end + 2] == Close;
    IndexOfFromAfterFree(line, Close, start + 2, end);
    var next := a + Code(b) + c;
    assert PaintRun(line, start, end) == next;
    assert Braces(line) == Braces(next);
    CodeKeepsOut(b, '{');
    NoFirstNoOccurrence(next, Open);
  }

  /** Searching from `from`, the first occurrence is at `at` when the
      stretch between holds no first element of the pattern. */
  lemma IndexOfFromAfterFree<T>(s: seq<T>, p: seq<T>, from: nat, at: nat)
    requires |p| > 0 && from <= at && OccursAt(s, p, at) && p[0] !in s[from..at]
    ensures IndexOfFrom(s, p, from) == at
  {
    forall i | from <= i < at ensures !OccursAt(s, p, i) {
      assert s[i] == s[from..at][i - from];
      if i + |p| <= |s| {
        assert s[i..i + |p|][0] == s[i];
      }
    }
  }

  /** `line.slice(from, to)` for `from <= line.length`: empty when `to`
      lies before `from`. */
  function Slice(line: Styled, from: nat, to: int): (r: Styled)
    requires from <= |line| && to <= |line|
    ensures to <= from ==> r == []
    ensures from <= to ==> r == line[from..to]
  {
    if to <= from then [] else line[from..to]
  }

  /** One pass of the `{{…}}` loop as written in src/lib/adf-renderer.ts:
      the first `{{` and the first `}}` of the whole line, whatever their
      order. */
  function StepAsWritten(line: Styled): (r: Styled)
    requires Contains(line, Open) && Contains(line, Close)
  {
    var start := IndexOf(line, Open);
    var end := IndexOf(line, Close);
    line[..start] + Code(Slice(line, start + 2, end)) + line[end + 2..]
  }

  /** The loop condition holds and the first `}}` comes before the first
      `{{`. */
  predicate Stuck(line: Styled) {
    Contains(line, Open) && Contains(line, Close) && IndexOf(line, Close) < IndexOf(line, Open)
  }

  /** The loop as written reaches a stuck line: passes are made while the
      loop condition holds, and one of them meets a `}}` before the first
      `{{`. A pass that is not stuck is the pass of `StepAsWritten`. */
  predicate GetsStuck(line: Styled)
    decreases Width(line)
  {
    if !(Contains(line, Open) && Contains(line, Close)) then false
    else if Stuck(line) then true
    else
      var start := IndexOf(line, Open);
      var end := IndexOf(line, Close);
      StepsAgree(line);
      ReplaceRunWidth(line, start, end);
      GetsStuck(PaintRun(line, start, end))
  }

  /** Once stuck, the loop as written stays stuck and the line never gets
      shorter: the loop does not end. */
  lemma StuckStaysStuck(line: Styled)
    requires Stuck(line)
    ensures Stuck(StepAsWritten(line)) && |StepAsWritten(line)| >= |line|
  {
    var start := IndexOf(line, Open);
    var end := IndexOf(line, Close);
    var next := StuckNext(line);
    assert next[..start] == line[..start];
    SamePrefixOccurs(line, next, start, Close, end);
    forall i: nat | i < end ensures !OccursAt(next, Close, i) {
      SamePrefixOccurs(line, next, start, Close, i);
    }
    var at := start + (start - end - 2);
    assert OccursAt(next, Open, at) by {
      assert next[at..at + 2] == line[start..start + 2];
    }
    ContainsAt(next, Close, end);
    ContainsAt(next, Open, at);
    forall i: nat | i <= end ensures !OccursAt(next, Open, i) {
      SamePrefixOccurs(line, next, start, Open, i);
    }
  }

  /** A stuck pass keeps the line up to the `{{`, then repeats it from
      just after the `}}`: nothing is taken out between them. */
  lemma StuckNext(line: Styled) returns (next: Styled)
    requires Stuck(line)
    ensures IndexOf(line, Close) + 2 <= IndexOf(line, Open)
    ensures next == StepAsWritten(line)
    ensures next == line[..IndexOf(line, Open)] + line[IndexOf(line, Close) + 2..]
  {
    var start := IndexOf(line, Open);
    var end := IndexOf(line, Close);
    PairAt(line, Close, end);
    PairAt(line, Open, start);
    next := StepAsWritten(line);
  }

  /** Two strings that agree on their first `n` elements have the same
      occurrences of a pattern that ends within them. */
  lemma SamePrefixOccurs(line: Styled, next: Styled, n: nat, p: Styled, i: nat)
    requires n <= |line| && n <= |next| && line[..n] == next[..n] && i + |p| <= n
    ensures OccursAt(next, p, i) <==> OccursAt(line, p, i)
  {
    assert next[i..i + |p|] == next[..n][i..i + |p|];
    assert line[i..i + |p|] == line[..n][i..i + |p|];
  }

  /** `"}}{{"` is left exactly as it is by a pass while the loop condition
      still holds. */
  lemma StuckExample()
    ensures Stuck(Plain("}}{{"))
    ensures StepAsWritten(Plain("}}{{")) == Plain("}}{{")
  {
    var line := Plain("}}{{");
    assert OccursAt(line, Close, 0) by { assert line[0..2] == Close; }
    assert OccursAt(line, Open, 2) by { assert line[2..4] == Open; }
    assert !OccursAt(line, Open, 0) by { assert line[0..2][0] == Ch('}'); }
    assert !OccursAt(line, Open, 1) by { assert line[1..3][0] == Ch('}'); }
    assert IndexOf(line, Close) == 0;
    assert IndexOf(line, Open) == 2;
  }

  /** When the first `}}` follows the first `{{`, a pass as written and a
      pass of the corrected loop do the same thing. */
  lemma StepsAgree(line: Styled)
    requires Contains(line, Open) && Contains(line, Close) && !Stuck(line)
    ensures IndexOfFrom(line, Close, IndexOf(line, Open) + 2) == IndexOf(line, Close)
    ensures IndexOf(line, Open) + 2 <= IndexOf(line, Close)
  {
    var start := IndexOf(line, Open);
    var end := IndexOf(line, Close);
    PairAt(line, Open, start);
    PairAt(line, Close, end);
  }

  /** The two elements of a two-element pattern found at `i`. */
  lemma PairAt(line: Styled, p: Styled, i: nat)
    requires |p| == 2 && OccursAt(line, p, i)
    ensures line[i] == p[0] && line[i + 1] == p[1]
  {
    assert line[i..i + 2][0] == line[i];
    assert line[i..i + 2][1] == line[i + 1];
  }

  /** The loop as written: `None` stands for a loop that does not end,
      which happens exactly when a pass gets stuck. Whenever it ends it
      agrees with the corrected loop, and a line without `}}` is left as
      it is. */
  method FormatBracesAsWritten(line: Styled) returns (r: Option<Styled>)
    ensures r.Some? ==> r.value == Braces(line)
    ensures r.None? <==> GetsStuck(line)
    ensures Stuck(line) ==> r.None?
    ensures !Contains(line, Close) ==> r == Some(line)
  {
    var current := line;
    while Contains(current, Open) && Contains(current, Close)
      invariant Braces(current) == Braces(line)
      invariant GetsStuck(current) == GetsStuck(line)
      invariant !Contains(line, Close) ==> current == line
      decreases Width(current)
    {
      if Stuck(current) {
        return None;
      }
      var start := IndexOf(current, Open);
      var end := IndexOf(current, Close);
      StepsAgree(current);
      ReplaceRunWidth(current, start, end);
      GetsStuckPass(current);
      ghost var before := current;
      current := current[..start] + Code(Slice(current, start + 2, end)) + current[end + 2..];
      assert current == PaintRun(before, start, end);
    }
    LoopDone(current);
    r := Some(current);
  }

  /** The loop as written after a pass that is not stuck. */
  lemma GetsStuckPass(line: Styled)
    requires Contains(line, Open) && Contains(line, Close) && !Stuck(line)
    ensures var start := IndexOf(line, Open);
      var end := IndexOf(line, Close);
      start + 2 <= end && GetsStuck(line) == GetsStuck(PaintRun(line, start, end))
  {
    StepsAgree(line);
  }



  /** Once the loop condition fails there is nothing left to paint, and
      the loop as written is not stuck. */
  lemma LoopDone(line: Styled)
    requires !(Contains(line, Open) && Contains(line, Close))
    ensures Braces(line) == line && !GetsStuck(line)
  {
    if IndexOf(line, Open) >= 0 {
      NotFoundFrom(line, Close, IndexOf(line, Open) + 2);
    }
  }

  /** A pattern absent from a string is absent after any position. */
  lemma NotFoundFrom(s: Styled, p: Styled, from: nat)
    requires !Contains(s, p)
    ensures IndexOfFrom(s, p, from) < 0
  {
  }


  /** The number of `#` characters a heading gets. */
  function Hashes(n: nat): (r: string)
    ensures |r| == n && forall i :: 0 <= i < n ==> r[i] == '#'
  {
    if n == 0 then "" else Hashes(n - 1) + "#"
  }

  /** The level `N` of a line starting `hN. ` with `N` from 1 to 6, or 0. */
  function HeadingLevel(line: string): (r: nat)
    ensures r <= 6
    ensures r > 0 <==> |line| >= 4 && line[0] == 'h' && '1' <= line[1] <= '6' && line[2..4] == ". "
    ensures r > 0 ==> line[1] == Digit(r)
  {
    if |line| >= 4 && line[0] == 'h' && '1' <= line[1] <= '6' && line[2..4] == ". " then
      (line[1] as int - '0' as int) as nat
    else 0
  }

  /** `formatLine(line)`: a heading becomes its level in `#` characters; any
      other line gets its `{{…}}` runs painted and becomes the word
      `Attachment` when it starts and ends with `!`. */
  function FormatLine(line: string): Styled {
    var level := HeadingLevel(line);
    if level > 0 then Plain(Hashes(level) + " " + line[4..])
    else
      var braced := Braces(Plain(line));
      if StartsWith(braced, [Ch('!')]) && EndsWith(braced, [Ch('!')]) then Paint("blue", Plain("Attachment"))
      else braced
  }

  /** `formatLine` with its loop. */
  method FormatLineImpl(line: string) returns (r: Styled)
    ensures r == FormatLine(line)
  {
    var level := HeadingLevel(line);
    if level > 0 {
      return Plain(Hashes(level) + " " + line[4..]);
    }
    r := FormatBraces(Plain(line));
    if StartsWith(r, [Ch('!')]) && EndsWith(r, [Ch('!')]) {
      r := Paint("blue", Plain("Attachment"));
    }
  }

  /** `hN. text` becomes `N` `#` characters, a space and the text, which is
      left as it is, braces included. */
  lemma HeadingLine(n: nat, text: string)
    requires 1 <= n <= 6
    ensures FormatLine("h" + [Digit(n)] + ". " + text) == Plain(Hashes(n) + " " + text)
  {
    var line := "h" + [Digit(n)] + ". " + text;
    assert line[2..4] == ". " && line[4..] == text;
  }

  /** Painting a run brings in no visible character. */
  lemma PaintRunKeepsOut(line: Styled, start: nat, end: nat, c: char)
    requires start + 2 <= end && end + 2 <= |line| && Ch(c) !in line
    ensures Ch(c) !in PaintRun(line, start, end)
  {
    var a, b, d := line[..start], line[start + 2..end], line[end + 2..];
    assert forall j :: 0 <= j < |a| ==> a[j] == line[j];
    assert forall j :: 0 <= j < |b| ==> b[j] == line[start + 2 + j];
    assert forall j :: 0 <= j < |d| ==> d[j] == line[end + 2 + j];
    CodeKeepsOut(b, c);
  }

  /** The `{{…}}` loop brings in no visible character. */
  lemma {:induction false} BracesKeepsOut(line: Styled, c: char)
    requires Ch(c) !in line
    ensures Ch(c) !in Braces(line)
    decreases Width(line)
  {
    var start := IndexOf(line, Open);
    if start >= 0 {
      var end := IndexOfFrom(line, Close, start + 2);
      if end >= 0 {
        ReplaceRunWidth(line, start, end);
        PaintRunKeepsOut(line, start, end, c);
        BracesKeepsOut(PaintRun(line, start, end), c);
      }
    }
  }

  /** A line without a line break is formatted without one. */
  lemma FormatLineNoBreak(line: string)
    requires '\n' !in line
    ensures Ch('\n') !in FormatLine(line)
  {
    var level := HeadingLevel(line);
    if level > 0 {
      var text := Hashes(level) + " " + line[4..];
      assert forall j :: 0 <= j < |text| ==> text[j] != '\n';
    } else {
      BracesKeepsOut(Plain(line), '\n');
      PaintKeepsOut("blue", Plain("Attachment"), '\n');
    }
  }

  /** The line starts and ends with `!`. */
  predicate Bangs(line: Styled) {
    |line| >= 1 && line[0] == Ch('!') && line[|line| - 1] == Ch('!')
  }

  /** Painting a run keeps a leading and a trailing `!`: the `{{` cannot
      start on the first `!` and the `}}` cannot end on the last. */
  lemma PaintRunKeepsBangs(line: Styled, start: nat, end: nat)
    requires OccursAt(line, Open, start) && OccursAt(line, Close, end) && start + 2 <= end
    requires Bangs(line)
    ensures Bangs(PaintRun(line, start, end))
  {
    PairAt(line, Open, start);
    PairAt(line, Close, end);
    assert start >= 1 && end + 2 < |line|;
    var a, b, c := line[..start], Code(line[start + 2..end]), line[end + 2..];
    assert (a + b + c)[0] == a[0] == line[0];
    assert (a + b + c)[|a + b + c| - 1] == c[|c| - 1] == line[|line| - 1];
  }

  /** The `{{…}}` loop keeps a leading and a trailing `!`. */
  lemma {:induction false} BracesKeepsBangs(line: Styled)
    requires Bangs(line)
    ensures Bangs(Braces(line))
    decreases Width(line)
  {
    var start := IndexOf(line, Open);
    if start >= 0 {
      var end := IndexOfFrom(line, Close, start + 2);
      if end >= 0 {
        ReplaceRunWidth(line, start, end);
        PaintRunKeepsBangs(line, start, end);
        BracesKeepsBangs(PaintRun(line, start, end));
      }
    }
  }

  /** A line that starts and ends with `!` is shown as the word
      `Attachment`, whatever lies between, `{{…}}` runs included. */
  lemma AttachmentLine(line: string)
    requires |line| >= 1 && line[0] == '!' && line[|line| - 1] == '!'
    ensures FormatLine(line) == Paint("blue", Plain("Attachment"))
  {
    assert HeadingLevel(line) == 0;
    BracesKeepsBangs(Plain(line));
    var braced := Braces(Plain(line));
    assert braced[..1] == [Ch('!')] && braced[|braced| - 1..] == [Ch('!')];
  }

  predicate IsSmartLink(word: Styled) {
    StartsWith(word, [Ch('[')]) && EndsWith(word, [Ch(']')]) && Contains(word, Plain("|smart-link"))
  }

  predicate IsNormalLink(word: Styled) {
    StartsWith(word, [Ch('[')]) && EndsWith(word, [Ch(']')]) && Contains(word, [Ch('|')])
  }

  /** Every smart link is also a normal link, which is why it is checked
      first. */
  lemma SmartIsNormal(word: Styled)
    requires IsSmartLink(word)
    ensures IsNormalLink(word)
  {
    var i := IndexOf(word, Plain("|smart-link"));
    assert word[i..i + 1] == [Ch('|')] by {
      assert word[i..i + 11][0] == Ch('|');
    }
    ContainsAt(word, [Ch('|')], i);
  }

  /** In a link the first `|` comes after the opening `[`. */
  lemma BarAfterBracket(word: Styled)
    requires IsNormalLink(word)
    ensures 1 <= IndexOf(word, [Ch('|')]) && |word| >= 2
  {
    assert word[0] == Ch('[');
    assert word[|word| - 1] == Ch(']');
  }

  /** `formatSmartLink(word)`: the host of the URL between `[` and the first
      `|`, without `www.`; `urlHost` stands for `new URL(...).host` and is
      `None` where the URL constructor throws. */
  function FormatSmartLink(word: Styled, urlHost: Styled -> Option<string>): Option<Styled>
    requires IsSmartLink(word)
  {
    SmartIsNormal(word);
    BarAfterBracket(word);
    match urlHost(word[1..IndexOf(word, [Ch('|')])])
    case None => None
    case Some(host) => Some(Plain(ReplaceFirst(host, "www.", "")))
  }

  /** `formatNormalLink(word)`: the text between `[` and the first `|`, in
      blue. */
  function FormatNormalLink(word: Styled): Styled
    requires IsNormalLink(word)
  {
    BarAfterBracket(word);
    Paint("blue", Split(word[1..|word| - 1], [Ch('|')])[0])
  }

  /** `formatWord(word)`; `None` when the URL of a smart link cannot be
      parsed. */
  function FormatWord(word: Styled, urlHost: Styled -> Option<string>): (r: Option<Styled>)
    ensures !IsNormalLink(word) ==> r == Some(word)
    ensures IsSmartLink(word) ==> r == FormatSmartLink(word, urlHost)
    ensures IsNormalLink(word) && !IsSmartLink(word) ==> r == Some(FormatNormalLink(word))
    ensures r.None? ==> IsSmartLink(word) && urlHost(word[1..IndexOf(word, [Ch('|')])]).None?
  {
    if IsSmartLink(word) then
      SmartIsNormal(word);
      BarAfterBracket(word);
      FormatSmartLink(word, urlHost)
    else if IsNormalLink(word) then Some(FormatNormalLink(word))
    else Some(word)
  }

  /** The URL parser never gives a host with a line break, as `URL.host`
      never holds one. */
  ghost predicate HostsNoBreak(urlHost: Styled -> Option<string>) {
    forall url :: urlHost(url).Some? ==> '\n' !in urlHost(url).value
  }

  /** A word without a line break is formatted without one. */
  lemma FormatWordNoBreak(word: Styled, urlHost: Styled -> Option<string>)
    requires Ch('\n') !in word && HostsNoBreak(urlHost)
    ensures FormatWord(word, urlHost).Some? ==> Ch('\n') !in FormatWord(word, urlHost).value
  {
  }

  /** `[text|target]` shows only `text`, in blue. */
  lemma NormalLinkText(text: Styled, target: Styled, urlHost: Styled -> Option<string>)
    requires Ch('|') !in text
    requires !IsSmartLink([Ch('[')] + text + [Ch('|')] + target + [Ch(']')])
    ensures FormatWord([Ch('[')] + text + [Ch('|')] + target + [Ch(']')], urlHost) == Some(Paint("blue", text))
  {
    var word := [Ch('[')] + text + [Ch('|')] + target + [Ch(']')];
    assert word == [Ch('[')] + text + [Ch('|')] + (target + [Ch(']')]);
    IndexOfAfterFree([Ch('[')] + text, [Ch('|')], target + [Ch(']')]);
    assert word[..1] == [Ch('[')] && word[|word| - 1..] == [Ch(']')];
    var inner := word[1..|word| - 1];
    assert inner == text + [Ch('|')] + target;
    IndexOfAfterFree(text, [Ch('|')], target);
    assert inner[..|text|] == text;
  }

  /** A word ending in `|smart-link]` is a smart link when it starts with `[`. */
  lemma SmartLinkShape(url: Styled, rest: Styled)
    ensures IsSmartLink([Ch('[')] + url + [Ch('|')] + rest + Plain("|smart-link]"))
  {
    var word := [Ch('[')] + url + [Ch('|')] + rest + Plain("|smart-link]");
    var n := |word| - 12;
    assert word[n..n + 11] == Plain("|smart-link");
    ContainsAt(word, Plain("|smart-link"), n);
    assert word[..1] == [Ch('[')] && word[|word| - 1..] == [Ch(']')];
  }

  /** `[url|…|smart-link]` shows the host of `url` without `www.`. */
  lemma SmartLinkHost(url: Styled, rest: Styled, urlHost: Styled -> Option<string>)
    requires Ch('|') !in url
    requires urlHost(url).Some?
    ensures FormatWord([Ch('[')] + url + [Ch('|')] + rest + Plain("|smart-link]"), urlHost)
            == Some(Plain(ReplaceFirst(urlHost(url).value, "www.", "")))
  {
    var word := [Ch('[')] + url + [Ch('|')] + rest + Plain("|smart-link]");
    SmartLinkShape(url, rest);
    assert word == [Ch('[')] + url + [Ch('|')] + (rest + Plain("|smart-link]"));
    IndexOfAfterFree([Ch('[')] + url, [Ch('|')], rest + Plain("|smart-link]"));
    assert word[1..|url| + 1] == url;
  }
}
