/** Greedy word wrapping of plain text (`splitIntoLines` in
    src/lib/utils/split-into-lines.ts), used for checklist items. Words are
    the pieces of `text.split(" ")`; every line after the first is indented
    by one space. */
module SplitIntoLines {
  import opened JsString

  /** The default `maxLength` of the source's signature. */
  const DefaultMaxLength: int := 80

  /** The state of the source's loop (`lines`, `currentLine`) together with
      the words that went on each finished line (`groups`) and on the current
      one (`group`); the last two exist for the proofs only. */
  datatype State = State(lines: seq<string>, cur: string, groups: seq<seq<string>>, group: seq<string>)

  /** One iteration of the loop body for word `w`. */
  function Step(st: State, w: string, maxLength: int): State {
    if |st.cur| + |w| + 1 > maxLength then
      State(st.lines + [Trim(st.cur)], [' '] + w + [' '], st.groups + [st.group], [w])
    else
      State(st.lines, st.cur + w + [' '], st.groups, st.group + [w])
  }

  /** The loop state after the given words. */
  function Run(words: seq<string>, maxLength: int): State
    decreases |words|
  {
    if words == [] then State([], [], [], [])
    else Step(Run(words[..|words| - 1], maxLength), words[|words| - 1], maxLength)
  }

  /** The lines pushed after the loop, before the indentation of later lines. */
  function Flushed(st: State): seq<string> {
    if st.cur != [] then st.lines + [Trim(st.cur)] else st.lines
  }

  /** `lines.map((line, index) => index === 0 ? line : " " + line)`. */
  function Indented(lines: seq<string>): (r: seq<string>)
    ensures |r| == |lines|
    ensures |lines| > 0 ==> r[0] == lines[0]
    ensures forall k :: 0 < k < |lines| ==> r[k] == [' '] + lines[k]
  {
    seq(|lines|, k requires 0 <= k < |lines| => if k == 0 then lines[k] else [' '] + lines[k])
  }

  /** What the function returns for the given words. */
  function LinesOf(words: seq<string>, maxLength: int): seq<string> {
    Indented(Flushed(Run(words, maxLength)))
  }

  /** What `splitIntoLines(text, maxLength)` returns. */
  function Lines(text: string, maxLength: int): seq<string> {
    LinesOf(Split(text, " "), maxLength)
  }

  /** `splitIntoLines`: the loop over the words, then the last line and
      the indentation. */
  method SplitIntoLines(text: string, maxLength: int) returns (lines: seq<string>)
    ensures lines == Lines(text, maxLength)
  {
    var words := Split(text, " ");
    var acc, currentLine := WrapWords(words, maxLength);
    if currentLine != [] {
      acc := acc + [Trim(currentLine)];
    }
    lines := Indented(acc);
  }

  /** The source's `for` loop over the words. */
  method WrapWords(words: seq<string>, maxLength: int) returns (acc: seq<string>, currentLine: string)
    ensures acc == Run(words, maxLength).lines && currentLine == Run(words, maxLength).cur
  {
    acc := [];
    currentLine := [];
    var i := 0;
    while i < |words|
      invariant 0 <= i <= |words|
      invariant acc == Run(words[..i], maxLength).lines
      invariant currentLine == Run(words[..i], maxLength).cur
    {
      var word := words[i];
      RunPrefix(words, i, maxLength);
      if |currentLine| + |word| + 1 > maxLength {
        acc := acc + [Trim(currentLine)];
        currentLine := [' '];
      }
      currentLine := currentLine + word + [' '];
      i := i + 1;
    }
    assert words[..i] == words;
  }

  /** The state after one more word is one more step. */
  lemma RunPrefix(words: seq<string>, i: nat, maxLength: int)
    requires i < |words|
    ensures Run(words[..i + 1], maxLength) == Step(Run(words[..i], maxLength), words[i], maxLength)
  {
    assert words[..i + 1][..i] == words[..i];
  }

  /** `splitIntoLines(text)` with the default width. */
  method SplitIntoLinesDefault(text: string) returns (lines: seq<string>)
    ensures lines == Lines(text, 80)
  {
    lines := SplitIntoLines(text, DefaultMaxLength);
  }

  /** The words of a line, each followed by one space, as the loop builds it. */
  function Spaced(g: seq<string>): (r: string)
    ensures g != [] ==> r != [] && r[|r| - 1] == ' '
  {
    if g == [] then [] else Spaced(g[..|g| - 1]) + g[|g| - 1] + [' ']
  }

  /** The indentation the loop puts in front of the words of line `k`. */
  function Lead(k: nat): string {
    if k == 0 then [] else [' ']
  }

  /** A line fits, or holds at most one word. */
  predicate Fits(k: nat, g: seq<string>, maxLength: int) {
    |Lead(k) + Spaced(g)| <= maxLength || |g| <= 1
  }

  ghost predicate Inv(st: State, words: seq<string>, maxLength: int) {
    && |st.lines| == |st.groups|
    && Concat(st.groups + [st.group]) == words
    && (forall k :: 0 <= k < |st.lines| ==> st.lines[k] == Trim(Lead(k) + Spaced(st.groups[k])))
    && (forall k :: 0 <= k < |st.groups| ==> Fits(k, st.groups[k], maxLength))
    && (forall k :: 1 <= k < |st.groups| ==> st.groups[k] != [])
    && (|st.groups| > 0 ==> st.group != [])
    && st.cur == Lead(|st.groups|) + Spaced(st.group)
    && Fits(|st.groups|, st.group, maxLength)
  }

  lemma {:induction false} RunInv(words: seq<string>, maxLength: int)
    ensures Inv(Run(words, maxLength), words, maxLength)
    decreases |words|
  {
    if words != [] {
      var init := words[..|words| - 1];
      var w := words[|words| - 1];
      assert words == init + [w];
      RunInv(init, maxLength);
      StepInv(Run(init, maxLength), init, w, maxLength);
    }
  }

  lemma StepInv(st: State, init: seq<string>, w: string, maxLength: int)
    requires Inv(st, init, maxLength)
    ensures Inv(Step(st, w, maxLength), init + [w], maxLength)
  {
    StepConcat(st, w, maxLength);
    StepLines(st, init, w, maxLength);
    StepFits(st, init, w, maxLength);
    StepCur(st, w, maxLength);
  }

  lemma StepLines(st: State, init: seq<string>, w: string, maxLength: int)
    requires Inv(st, init, maxLength)
    ensures var st' := Step(st, w, maxLength);
            |st'.lines| == |st'.groups| &&
            forall k :: 0 <= k < |st'.lines| ==> st'.lines[k] == Trim(Lead(k) + Spaced(st'.groups[k]))
  {
    var st' := Step(st, w, maxLength);
    forall k | 0 <= k < |st'.lines|
      ensures st'.lines[k] == Trim(Lead(k) + Spaced(st'.groups[k]))
    {
      if k < |st.lines| {
        assert st'.lines[k] == st.lines[k] && st'.groups[k] == st.groups[k];
      } else {
        assert st'.lines[k] == Trim(st.cur) && st'.groups[k] == st.group;
      }
    }
  }

  lemma StepFits(st: State, init: seq<string>, w: string, maxLength: int)
    requires Inv(st, init, maxLength)
    ensures var st' := Step(st, w, maxLength);
            && (forall k :: 0 <= k < |st'.groups| ==> Fits(k, st'.groups[k], maxLength))
            && (forall k :: 1 <= k < |st'.groups| ==> st'.groups[k] != [])
            && (|st'.groups| > 0 ==> st'.group != [])
  {
    var st' := Step(st, w, maxLength);
    forall k | 0 <= k < |st'.groups| ensures Fits(k, st'.groups[k], maxLength) {
      if k < |st.groups| {
        assert st'.groups[k] == st.groups[k];
      } else {
        assert st'.groups[k] == st.group;
      }
    }
    forall k | 1 <= k < |st'.groups| ensures st'.groups[k] != [] {
      if k < |st.groups| {
        assert st'.groups[k] == st.groups[k];
      } else {
        assert st'.groups[k] == st.group;
        assert Concat(st.groups + [st.group]) == init;
      }
    }
  }

  lemma StepCur(st: State, w: string, maxLength: int)
    requires st.cur == Lead(|st.groups|) + Spaced(st.group)
    ensures var st' := Step(st, w, maxLength);
            st'.cur == Lead(|st'.groups|) + Spaced(st'.group) && Fits(|st'.groups|, st'.group, maxLength)
  {
    if |st.cur| + |w| + 1 > maxLength {
      StartLine(|st.groups| + 1, w);
    } else {
      ExtendLine(st.cur, |st.groups|, st.group, w, maxLength);
    }
  }

  /** A word that starts a new line. */
  lemma StartLine(k: nat, w: string)
    requires k >= 1
    ensures [' '] + w + [' '] == Lead(k) + Spaced([w])
  {
    SpacedAppend([], w);
  }

  /** A word that still fits on the current line. */
  lemma ExtendLine(cur: string, k: nat, g: seq<string>, w: string, maxLength: int)
    requires cur == Lead(k) + Spaced(g) && |cur| + |w| + 1 <= maxLength
    ensures cur + w + [' '] == Lead(k) + Spaced(g + [w]) && Fits(k, g + [w], maxLength)
  {
    SpacedAppend(g, w);
  }

  /** One more word on a line adds the word and a space. */
  lemma SpacedAppend(g: seq<string>, w: string)
    ensures Spaced(g + [w]) == Spaced(g) + w + [' ']
  {
    assert (g + [w])[..|g|] == g;
  }

  lemma StepConcat(st: State, w: string, maxLength: int)
    ensures var st' := Step(st, w, maxLength);
            Concat(st'.groups + [st'.group]) == Concat(st.groups + [st.group]) + [w]
  {
    var st' := Step(st, w, maxLength);
    if |st.cur| + |w| + 1 > maxLength {
      assert st'.groups + [st'.group] == (st.groups + [st.group]) + [[w]];
      ConcatAppend(st.groups + [st.group], [w]);
    } else {
      assert st'.groups == st.groups;
      ConcatAppend(st.groups, st.group);
      ConcatAppend(st.groups, st.group + [w]);
    }
  }

  /** The words on each output line: the finished groups and the last one. */
  function GroupsOf(words: seq<string>, maxLength: int): seq<seq<string>> {
    var st := Run(words, maxLength);
    st.groups + [st.group]
  }

  function Groups(text: string, maxLength: int): seq<seq<string>> {
    GroupsOf(Split(text, " "), maxLength)
  }

  /** The loop's facts about the lines it flushed, for a non-empty word list. */
  lemma FlushedGroups(words: seq<string>, maxLength: int)
    requires words != []
    ensures var st := Run(words, maxLength);
            var gs := st.groups + [st.group];
            var fl := Flushed(st);
            && |fl| == |gs|
            && Concat(gs) == words
            && (forall k :: 0 <= k < |fl| ==> fl[k] == Trim(Spaced(gs[k])))
            && (forall k :: 0 <= k < |gs| ==> Fits(k, gs[k], maxLength))
  {
    RunInv(words, maxLength);
    var st := Run(words, maxLength);
    FinalCurNonEmpty(st, words, maxLength);
    FinalLines(st, words, maxLength);
    FinalFits(st, words, maxLength);
  }

  lemma FinalCurNonEmpty(st: State, words: seq<string>, maxLength: int)
    requires words != [] && Inv(st, words, maxLength)
    ensures st.cur != []
  {
    if |st.groups| == 0 {
      assert st.groups + [st.group] == [st.group];
      assert Concat([st.group]) == st.group + Concat([]);
    }
  }

  lemma FinalLines(st: State, words: seq<string>, maxLength: int)
    requires st.cur != [] && |st.lines| == |st.groups|
    requires forall k :: 0 <= k < |st.lines| ==> st.lines[k] == Trim(Lead(k) + Spaced(st.groups[k]))
    requires st.cur == Lead(|st.groups|) + Spaced(st.group)
    ensures var gs := st.groups + [st.group];
            var fl := Flushed(st);
            |fl| == |gs| && forall k :: 0 <= k < |fl| ==> fl[k] == Trim(Spaced(gs[k]))
  {
    var gs := st.groups + [st.group];
    var fl := Flushed(st);
    assert fl == st.lines + [Trim(st.cur)];
    forall k | 0 <= k < |fl| ensures fl[k] == Trim(Spaced(gs[k])) {
      var g := gs[k];
      assert fl[k] == Trim(Lead(k) + Spaced(g)) by {
        if k < |st.lines| {
          assert fl[k] == st.lines[k] && g == st.groups[k];
        } else {
          assert fl[k] == Trim(st.cur) && g == st.group;
        }
      }
      if k > 0 {
        assert Lead(k) + Spaced(g) == [' '] + Spaced(g);
        TrimLeadingSpace(Spaced(g));
      } else {
        assert Lead(k) + Spaced(g) == Spaced(g);
      }
    }
  }

  lemma FinalFits(st: State, words: seq<string>, maxLength: int)
    requires Inv(st, words, maxLength)
    ensures var gs := st.groups + [st.group];
            forall k :: 0 <= k < |gs| ==> Fits(k, gs[k], maxLength)
  {
    var gs := st.groups + [st.group];
    forall k | 0 <= k < |gs| ensures Fits(k, gs[k], maxLength) {
      if k < |st.groups| {
        assert gs[k] == st.groups[k];
      }
    }
  }

  /** Every call returns at least one line, and the lines correspond one to
      one with word groups that together are the words of `text` in order,
      none split and none dropped: line `k` is its group's words joined by
      spaces and trimmed, every line but the first indented by one space. */
  lemma LinesAreGroups(text: string, maxLength: int)
    ensures |Lines(text, maxLength)| >= 1
    ensures |Lines(text, maxLength)| == |Groups(text, maxLength)|
    ensures Concat(Groups(text, maxLength)) == Split(text, " ")
    ensures forall k :: 0 <= k < |Lines(text, maxLength)| ==>
              Lines(text, maxLength)[k] == Lead(k) + Trim(Spaced(Groups(text, maxLength)[k]))
  {
    WordLinesAreGroups(Split(text, " "), maxLength);
  }

  lemma WordLinesAreGroups(words: seq<string>, maxLength: int)
    requires words != []
    ensures |LinesOf(words, maxLength)| >= 1
    ensures |LinesOf(words, maxLength)| == |GroupsOf(words, maxLength)|
    ensures Concat(GroupsOf(words, maxLength)) == words
    ensures forall k :: 0 <= k < |LinesOf(words, maxLength)| ==>
              LinesOf(words, maxLength)[k] == Lead(k) + Trim(Spaced(GroupsOf(words, maxLength)[k]))
  {
    FlushedGroups(words, maxLength);
  }

  /** Line `k` is its indentation followed by text with no white space at
      either end. */
  predicate Shaped(line: string, k: nat) {
    StartsWith(line, Lead(k))
    && var t := line[|Lead(k)|..];
       t == [] || (!IsWhitespace(t[0]) && !IsWhitespace(t[|t| - 1]))
  }

  /** The first line has no leading or trailing white space; every later
      line is one space followed by a string without leading or trailing
      white space. */
  lemma LinesShape(text: string, maxLength: int)
    ensures forall k :: 0 <= k < |Lines(text, maxLength)| ==> Shaped(Lines(text, maxLength)[k], k)
  {
    WordLinesShape(Split(text, " "), maxLength);
  }

  lemma WordLinesShape(words: seq<string>, maxLength: int)
    requires words != []
    ensures forall k :: 0 <= k < |LinesOf(words, maxLength)| ==> Shaped(LinesOf(words, maxLength)[k], k)
  {
    WordLinesAreGroups(words, maxLength);
    var ls := LinesOf(words, maxLength);
    var gs := GroupsOf(words, maxLength);
    forall k | 0 <= k < |ls| ensures Shaped(ls[k], k) {
      LineShaped(ls[k], k, gs[k]);
    }
  }

  lemma LineShaped(line: string, k: nat, g: seq<string>)
    requires line == Lead(k) + Trim(Spaced(g))
    ensures Shaped(line, k)
  {
    TrimShape(Spaced(g));
    assert line[|Lead(k)|..] == Trim(Spaced(g));
  }

  /** Every line is at most `maxLength - 1` characters long unless it holds
      a single word (or, when the first word alone is too long, none). */
  lemma LinesWidth(text: string, maxLength: int)
    ensures var ls := Lines(text, maxLength);
            var gs := Groups(text, maxLength);
            |ls| == |gs| &&
            forall k :: 0 <= k < |ls| ==> |ls[k]| <= maxLength - 1 || |gs[k]| <= 1
  {
    WordLinesWidth(Split(text, " "), maxLength);
  }

  lemma WordLinesWidth(words: seq<string>, maxLength: int)
    requires words != []
    ensures var ls := LinesOf(words, maxLength);
            var gs := GroupsOf(words, maxLength);
            |ls| == |gs| &&
            forall k :: 0 <= k < |ls| ==> |ls[k]| <= maxLength - 1 || |gs[k]| <= 1
  {
    FlushedGroups(words, maxLength);
    var ls := LinesOf(words, maxLength);
    var gs := GroupsOf(words, maxLength);
    forall k | 0 <= k < |ls| ensures |ls[k]| <= maxLength - 1 || |gs[k]| <= 1 {
      assert Fits(k, gs[k], maxLength);
      if |gs[k]| > 1 {
        TrimDropsTrailingSpace(Spaced(gs[k]));
      }
    }
  }

  /** A first word longer than `maxLength - 1` leaves the first line empty. */
  lemma LongFirstWord(text: string, maxLength: int)
    requires |Split(text, " ")[0]| + 1 > maxLength
    ensures Lines(text, maxLength)[0] == []
  {
    WordLongFirstWord(Split(text, " "), maxLength);
  }

  lemma {:induction false} WordLongFirstWord(words: seq<string>, maxLength: int)
    requires words != [] && |words[0]| + 1 > maxLength
    ensures |LinesOf(words, maxLength)| >= 1 && LinesOf(words, maxLength)[0] == []
  {
    var n := |words|;
    FirstLineFlushed(words, maxLength, n);
    assert words[..n] == words;
  }

  lemma {:induction false} FirstLineFlushed(words: seq<string>, maxLength: int, n: nat)
    requires 1 <= n <= |words|
    requires |words[0]| + 1 > maxLength
    ensures |Run(words[..n], maxLength).lines| >= 1
    ensures Run(words[..n], maxLength).lines[0] == []
  {
    if n == 1 {
      RunPrefix(words, 0, maxLength);
      assert words[..0] == [];
      assert TrimEnd([]) == [] && TrimStart([]) == [];
    } else {
      RunPrefix(words, n - 1, maxLength);
      FirstLineFlushed(words, maxLength, n - 1);
    }
  }
}
