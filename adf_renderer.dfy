/** The description renderer (`ADFRenderer` in src/lib/adf-renderer.ts):
    the text is split into lines, each line is formatted, split into words
    and wrapped to `maxLineWidth` visible characters, every row is padded
    with spaces to that width, and filler rows bring the result up to
    `minimumLines`. A smart link whose URL cannot be parsed makes the
    renderer throw; here that is `None`. */
module AdfRenderer {
  import opened JsString
  import opened Ansi
  import opened AdfFormat

  /** The rows already finished and the row being filled. */
  datatype Wrap = Wrap(lines: seq<Styled>, cur: Styled)

  /** `currentLine += (currentLine.length === 0 ? "" : " ") + word`; the
      emptiness test looks at the raw text, escapes included. */
  function Glue(cur: Styled, word: Styled): (r: Styled)
    ensures Width(r) == Width(cur) + (if |cur| == 0 then 0 else 1) + Width(word)
  {
    var space: Styled := if |cur| == 0 then [] else [Ch(' ')];
    WidthAppend(cur, space);
    WidthAppend(cur + space, word);
    cur + space + word
  }

  /** One turn of the word loop of `renderLine`: the word joins the current
      row when the row, the word and one space fit in `max`; otherwise the
      row is finished and the word starts the next one. */
  function Step(max: int, w: Wrap, word: Styled): Wrap {
    if Width(w.cur) + Width(word) + 1 <= max then w.(cur := Glue(w.cur, word))
    else Wrap(w.lines + [w.cur], word)
  }

  /** The word loop over `words`, from an empty current row. */
  function Run(max: int, words: seq<Styled>): Wrap
    decreases |words|
  {
    if words == [] then Wrap([], [])
    else Step(max, Run(max, words[..|words| - 1]), words[|words| - 1])
  }

  /** The rows of one line before padding: the finished rows and the last
      current row. */
  function Wrapped(max: int, words: seq<Styled>): (r: seq<Styled>)
    ensures |r| >= 1
  {
    Run(max, words).lines + [Run(max, words).cur]
  }

  /** A row fits the width, is a single word too wide for any row, or is
      the empty row left behind when the first word does not fit. */
  predicate RowFits(max: int, words: seq<Styled>, row: Styled) {
    Width(row) <= max || row in words || row == []
  }

  /** Every row fits, except a word that alone is too wide. */
  lemma {:induction false} WrapWidths(max: int, words: seq<Styled>)
    ensures forall k :: 0 <= k < |Wrapped(max, words)| ==> RowFits(max, words, Wrapped(max, words)[k])
    decreases |words|
  {
    if words != [] {
      var init, word := words[..|words| - 1], words[|words| - 1];
      assert words == init + [word];
      WrapWidths(max, init);
      var w := Run(max, init);
      var before, rows := Wrapped(max, init), Wrapped(max, words);
      var fits := Width(w.cur) + Width(word) + 1 <= max;
      forall k | 0 <= k < |rows| ensures RowFits(max, words, rows[k]) {
        if k < |w.lines| {
          assert rows[k] == before[k];
          assert RowFits(max, init, before[k]);
        } else if fits {
          assert rows[k] == Glue(w.cur, word);
        } else if k == |w.lines| {
          assert rows[k] == before[k];
          assert RowFits(max, init, before[k]);
        } else {
          assert rows[k] == word;
        }
      }
    }
  }

  /** With every word narrower than the width, every row fits. */
  lemma NarrowWordsFit(max: int, words: seq<Styled>)
    requires max >= 0
    requires forall i :: 0 <= i < |words| ==> Width(words[i]) + 1 <= max
    ensures forall k :: 0 <= k < |Wrapped(max, words)| ==> Width(Wrapped(max, words)[k]) <= max
  {
    WrapWidths(max, words);
    forall k | 0 <= k < |Wrapped(max, words)| ensures Width(Wrapped(max, words)[k]) <= max {
      assert RowFits(max, words, Wrapped(max, words)[k]);
    }
  }

  /** The space in front of the rows' join when the first word did not fit
      and left an empty first row. */
  function Lead(max: int, first: Styled): Styled {
    if Width(first) + 1 <= max then [] else [Ch(' ')]
  }

  /** Extending the last of the parts by a space and a word extends their
      join the same way. */
  lemma GlueJoin(lines: seq<Styled>, cur: Styled, word: Styled)
    ensures Join(lines + [cur + [Ch(' ')] + word], [Ch(' ')]) == Join(lines + [cur], [Ch(' ')]) + [Ch(' ')] + word
  {
    if lines != [] {
      JoinAppend(lines, [Ch(' ')], cur + [Ch(' ')] + word);
      JoinAppend(lines, [Ch(' ')], cur);
    } else {
      assert lines + [cur] == [cur];
    }
  }

  /** Joining the rows with spaces gives back the words joined with
      spaces: wrapping only turns spaces into row breaks. */
  lemma {:induction false} WrapJoin(max: int, words: seq<Styled>)
    requires |words| >= 1
    requires forall i :: 0 <= i < |words| ==> words[i] != []
    ensures Run(max, words).cur != []
    ensures Join(Wrapped(max, words), [Ch(' ')]) == Lead(max, words[0]) + Join(words, [Ch(' ')])
    decreases |words|
  {
    var init, word := words[..|words| - 1], words[|words| - 1];
    assert Run(max, words) == Step(max, Run(max, init), word);
    if |words| == 1 {
      assert init == [] && words == [word];
      WrapJoinOne(max, word);
    } else {
      assert words == init + [word];
      assert init[0] == words[0];
      assert forall i :: 0 <= i < |init| ==> init[i] == words[i];
      WrapJoin(max, init);
      WrapJoinStep(max, Run(max, init), word, words[0], init);
    }
  }

  /** The first word alone: one row, or an empty row and the word. */
  lemma WrapJoinOne(max: int, word: Styled)
    requires word != []
    ensures Step(max, Wrap([], []), word).cur != []
    ensures var w := Step(max, Wrap([], []), word);
            Join(w.lines + [w.cur], [Ch(' ')]) == Lead(max, word) + Join([word], [Ch(' ')])
  {
    var sp := [Ch(' ')];
    if Width(word) + 1 <= max {
      assert Glue([], word) == word;
    } else {
      assert Join([[], word], sp) == [] + sp + Join([word], sp);
    }
  }

  /** One more word keeps the rows' join equal to the words' join. */
  lemma WrapJoinStep(max: int, w: Wrap, word: Styled, first: Styled, init: seq<Styled>)
    requires |init| >= 1 && w.cur != [] && word != []
    requires Join(w.lines + [w.cur], [Ch(' ')]) == Lead(max, first) + Join(init, [Ch(' ')])
    ensures Step(max, w, word).cur != []
    ensures var w' := Step(max, w, word);
            Join(w'.lines + [w'.cur], [Ch(' ')]) == Lead(max, first) + Join(init + [word], [Ch(' ')])
  {
    var pre, body := Lead(max, first), Join(init, [Ch(' ')]);
    JoinAppend(init, [Ch(' ')], word);
    assert Join(init + [word], [Ch(' ')]) == body + [Ch(' ')] + word;
    var w' := Step(max, w, word);
    if Width(w.cur) + Width(word) + 1 <= max {
      GlueStep(w, word, pre, body);
      assert w'.lines + [w'.cur] == w.lines + [Glue(w.cur, word)];
    } else {
      BreakStep(w, word, pre, body);
      assert w'.lines + [w'.cur] == (w.lines + [w.cur]) + [word];
    }
  }

  lemma GlueStep(w: Wrap, word: Styled, pre: Styled, body: Styled)
    requires w.cur != [] && Join(w.lines + [w.cur], [Ch(' ')]) == pre + body
    ensures Glue(w.cur, word) == w.cur + [Ch(' ')] + word
    ensures Join(w.lines + [Glue(w.cur, word)], [Ch(' ')]) == pre + (body + [Ch(' ')] + word)
  {
    GlueJoin(w.lines, w.cur, word);
    assert (pre + body) + [Ch(' ')] + word == pre + (body + [Ch(' ')] + word);
  }

  lemma BreakStep(w: Wrap, word: Styled, pre: Styled, body: Styled)
    requires Join(w.lines + [w.cur], [Ch(' ')]) == pre + body
    ensures Join((w.lines + [w.cur]) + [word], [Ch(' ')]) == pre + (body + [Ch(' ')] + word)
  {
    JoinAppend(w.lines + [w.cur], [Ch(' ')], word);
    assert (pre + body) + [Ch(' ')] + word == pre + (body + [Ch(' ')] + word);
  }

  /** When the first word does not fit, the first row stays empty. */
  lemma {:induction false} EmptyFirstRow(max: int, words: seq<Styled>)
    requires |words| >= 1 && Width(words[0]) + 1 > max
    ensures |Run(max, words).lines| >= 1 && Run(max, words).lines[0] == []
    decreases |words|
  {
    if |words| > 1 {
      var init := words[..|words| - 1];
      assert init[0] == words[0];
      EmptyFirstRow(max, init);
    } else {
      assert Run(max, words[..0]) == Wrap([], []);
    }
  }

  /** No word is lost or reordered: the rows, joined with spaces, are the
      words joined with spaces, after an empty first row when the first
      word is too wide. */
  lemma WrapKeepsWords(max: int, words: seq<Styled>)
    requires |words| >= 1
    requires forall i :: 0 <= i < |words| ==> words[i] != []
    ensures Width(words[0]) + 1 <= max ==> Join(Wrapped(max, words), [Ch(' ')]) == Join(words, [Ch(' ')])
    ensures Width(words[0]) + 1 > max ==>
              Wrapped(max, words)[0] == [] && Join(Wrapped(max, words)[1..], [Ch(' ')]) == Join(words, [Ch(' ')])
  {
    WrapJoin(max, words);
    if Width(words[0]) + 1 > max {
      EmptyFirstRow(max, words);
      var sp: Styled := [Ch(' ')];
      var rows := Wrapped(max, words);
      JoinEmptyHead(rows, sp);
      var a, b := Join(rows[1..], sp), Join(words, sp);
      assert sp + a == sp + b;
      assert a == (sp + a)[1..] && b == (sp + b)[1..];
    }
  }

  /** An empty first part leaves only the separator in front. */
  lemma JoinEmptyHead(rows: seq<Styled>, sep: Styled)
    requires |rows| >= 2 && rows[0] == []
    ensures Join(rows, sep) == sep + Join(rows[1..], sep)
  {
  }

  predicate NotSpace(t: Tok) {
    t != Ch(' ')
  }

  /** The tokens of `s` other than spaces. */
  function NoSpaces(s: Styled): Styled {
    Filter(s, NotSpace)
  }

  lemma NoSpacesAppend(a: Styled, b: Styled)
    ensures NoSpaces(a + b) == NoSpaces(a) + NoSpaces(b)
  {
    FilterAppend(a, b, NotSpace);
  }

  /** The word glued onto the current row adds its text. */
  lemma GlueText(lines: seq<Styled>, cur: Styled, word: Styled)
    ensures NoSpaces(Concat(lines + [Glue(cur, word)])) == NoSpaces(Concat(lines + [cur])) + NoSpaces(word)
  {
    var space: Styled := if |cur| == 0 then [] else [Ch(' ')];
    var before := Concat(lines);
    assert Glue(cur, word) == cur + space + word;
    ConcatAppend(lines, cur + space + word);
    ConcatAppend(lines, cur);
    assert before + (cur + space + word) == ((before + cur) + space) + word;
    assert NoSpaces(space) == [];
    NoSpacesAppend((before + cur) + space, word);
    NoSpacesAppend(before + cur, space);
  }

  /** The word starting a new row adds its text. */
  lemma BreakText(rows: seq<Styled>, word: Styled)
    ensures NoSpaces(Concat(rows + [word])) == NoSpaces(Concat(rows)) + NoSpaces(word)
  {
    ConcatAppend(rows, word);
    NoSpacesAppend(Concat(rows), word);
  }

  /** One more word adds its text to the rows' text. */
  lemma WrapTextStep(max: int, w: Wrap, word: Styled)
    ensures var w' := Step(max, w, word);
            NoSpaces(Concat(w'.lines + [w'.cur])) == NoSpaces(Concat(w.lines + [w.cur])) + NoSpaces(word)
  {
    if Width(w.cur) + Width(word) + 1 <= max {
      GlueText(w.lines, w.cur, word);
    } else {
      BreakText(w.lines + [w.cur], word);
    }
  }

  /** Whatever the words, empty ones included, wrapping neither loses nor
      reorders anything but spaces: the rows hold the words' text in order. */
  lemma {:induction false} WrapKeepsText(max: int, words: seq<Styled>)
    ensures NoSpaces(Concat(Wrapped(max, words))) == NoSpaces(Concat(words))
    decreases |words|
  {
    if words != [] {
      var init, word := words[..|words| - 1], words[|words| - 1];
      assert words == init + [word];
      WrapKeepsText(max, init);
      ConcatAppend(init, word);
      NoSpacesAppend(Concat(init), word);
      assert Run(max, words) == Step(max, Run(max, init), word);
      WrapTextStep(max, Run(max, init), word);
    }
  }

  /** `pad(line)`: spaces after the line up to `max` visible characters. */
  function Pad(line: Styled, max: int): (r: Styled)
    ensures Width(r) == if Width(line) >= max then Width(line) else max
    ensures |line| <= |r| && r[..|line|] == line
    ensures forall i :: |line| <= i < |r| ==> r[i] == Ch(' ')
  {
    var padding := Plain(Spaces(if max - Width(line) > 0 then max - Width(line) else 0));
    WidthAppend(line, padding);
    WidthPlain(Spaces(if max - Width(line) > 0 then max - Width(line) else 0));
    assert (line + padding)[..|line|] == line;
    line + padding
  }

  function PadAll(rows: seq<Styled>, max: int): (r: seq<Styled>)
    ensures |r| == |rows|
    ensures forall k :: 0 <= k < |r| ==> r[k] == Pad(rows[k], max)
  {
    seq(|rows|, k requires 0 <= k < |rows| => Pad(rows[k], max))
  }

  lemma PadAllAppend(rows: seq<Styled>, row: Styled, max: int)
    ensures PadAll(rows + [row], max) == PadAll(rows, max) + [Pad(row, max)]
  {
    var a, b := PadAll(rows + [row], max), PadAll(rows, max) + [Pad(row, max)];
    forall k | 0 <= k < |a| ensures a[k] == b[k] {
      if k < |rows| {
        assert (rows + [row])[k] == rows[k];
      }
    }
  }

  /** `formatWord` over the words, `None` as soon as one of them throws. */
  function FormatWords(words: seq<Styled>, urlHost: Styled -> Option<string>): (r: Option<seq<Styled>>)
    ensures r.Some? ==> |r.value| == |words|
                        && forall i :: 0 <= i < |words| ==> FormatWord(words[i], urlHost) == Some(r.value[i])
    ensures r.None? <==> exists i :: 0 <= i < |words| && FormatWord(words[i], urlHost).None?
    decreases |words|
  {
    if words == [] then Some([])
    else
      var init := words[..|words| - 1];
      assert forall i :: 0 <= i < |init| ==> init[i] == words[i];
      match FormatWords(init, urlHost)
      case None => None
      case Some(prev) =>
        match FormatWord(words[|words| - 1], urlHost)
        case None => None
        case Some(word) => Some(prev + [word])
  }

  /** One more word through `formatWord`. */
  lemma FormatWordsStep(words: seq<Styled>, i: nat, urlHost: Styled -> Option<string>, done: seq<Styled>, word: Styled)
    requires i < |words|
    requires FormatWords(words[..i], urlHost) == Some(done) && FormatWord(words[i], urlHost) == Some(word)
    ensures FormatWords(words[..i + 1], urlHost) == Some(done + [word])
  {
    assert words[..i + 1][..i] == words[..i];
  }

  /** One more word through the word loop. */
  lemma RunStep(max: int, done: seq<Styled>, word: Styled)
    ensures Run(max, done + [word]) == Step(max, Run(max, done), word)
  {
    assert (done + [word])[..|done|] == done;
  }

  /** `renderLine(line)`: the padded rows of one line. */
  function LineRows(max: int, urlHost: Styled -> Option<string>, line: string): (r: Option<seq<Styled>>)
    ensures r.Some? ==> |r.value| >= 1 && forall k :: 0 <= k < |r.value| ==> Width(r.value[k]) >= max
  {
    match FormatWords(Split(FormatLine(line), [Ch(' ')]), urlHost)
    case None => None
    case Some(words) => Some(PadAll(Wrapped(max, words), max))
  }

  /** Every word is left as it is by `formatWord` and is narrower than
      the width. */
  predicate PlainWords(max: int, urlHost: Styled -> Option<string>, words: seq<Styled>) {
    forall i :: 0 <= i < |words| ==> FormatWord(words[i], urlHost) == Some(words[i]) && Width(words[i]) + 1 <= max
  }

  /** A line of plain words, each narrower than the width, becomes rows of
      exactly that width which, without their padding, are the wrapped
      rows of the line's words. */
  lemma PlainLineRows(max: int, urlHost: Styled -> Option<string>, line: string)
    requires max >= 0
    requires PlainWords(max, urlHost, Split(FormatLine(line), [Ch(' ')]))
    ensures LineRows(max, urlHost, line) == Some(PadAll(Wrapped(max, Split(FormatLine(line), [Ch(' ')])), max))
    ensures forall k :: 0 <= k < |LineRows(max, urlHost, line).value| ==> Width(LineRows(max, urlHost, line).value[k]) == max
  {
    var words := Split(FormatLine(line), [Ch(' ')]);
    var formatted := FormatWords(words, urlHost);
    assert formatted.value == words;
    NarrowWordsFit(max, words);
  }

  /** The rows of `lines` one after the other, `None` once a line fails. */
  function Flatten(rowsOf: string -> Option<seq<Styled>>, lines: seq<string>): Option<seq<Styled>>
    decreases |lines|
  {
    if lines == [] then Some([])
    else
      match Flatten(rowsOf, lines[..|lines| - 1])
      case None => None
      case Some(rows) =>
        match rowsOf(lines[|lines| - 1])
        case None => None
        case Some(more) => Some(rows + more)
  }

  /** The lines fail together exactly when one of them fails. */
  lemma {:induction false} FlattenFails(rowsOf: string -> Option<seq<Styled>>, lines: seq<string>)
    ensures Flatten(rowsOf, lines).None? <==> exists i :: 0 <= i < |lines| && rowsOf(lines[i]).None?
    decreases |lines|
  {
    if lines != [] {
      var init, last := lines[..|lines| - 1], lines[|lines| - 1];
      FlattenFails(rowsOf, init);
      if Flatten(rowsOf, init).None? {
        var i :| 0 <= i < |init| && rowsOf(init[i]).None?;
        assert lines[i] == init[i];
      } else if rowsOf(last).None? {
      } else {
        forall i | 0 <= i < |lines| ensures rowsOf(lines[i]).Some? {
          if i < |init| {
            assert lines[i] == init[i];
          }
        }
      }
    }
  }

  /** One more line. */
  lemma FlattenStep(rowsOf: string -> Option<seq<Styled>>, lines: seq<string>, i: nat,
                    done: seq<Styled>, more: seq<Styled>)
    requires i < |lines|
    requires Flatten(rowsOf, lines[..i]) == Some(done) && rowsOf(lines[i]) == Some(more)
    ensures Flatten(rowsOf, lines[..i + 1]) == Some(done + more)
  {
    assert lines[..i + 1][..i] == lines[..i];
  }

  /** When every line gives at least one row of at least `max` visible
      characters, so do all of them together. */
  lemma {:induction false} FlattenRows(rowsOf: string -> Option<seq<Styled>>, lines: seq<string>, max: int)
    requires forall line :: rowsOf(line).Some? ==>
               |rowsOf(line).value| >= 1 && forall k :: 0 <= k < |rowsOf(line).value| ==> Width(rowsOf(line).value[k]) >= max
    requires Flatten(rowsOf, lines).Some?
    ensures |Flatten(rowsOf, lines).value| >= |lines|
    ensures forall k :: 0 <= k < |Flatten(rowsOf, lines).value| ==> Width(Flatten(rowsOf, lines).value[k]) >= max
    decreases |lines|
  {
    if lines != [] {
      var init := lines[..|lines| - 1];
      FlattenRows(rowsOf, init, max);
      var rows := Flatten(rowsOf, init).value;
      var more := rowsOf(lines[|lines| - 1]).value;
      assert Flatten(rowsOf, lines).value == rows + more;
    }
  }

  /** The rows of `lines` rendered one after the other. */
  function Rendered(max: int, urlHost: Styled -> Option<string>, lines: seq<string>): Option<seq<Styled>> {
    Flatten(line => LineRows(max, urlHost, line), lines)
  }

  /** One more line through `renderLine`. */
  lemma RenderedStep(max: int, urlHost: Styled -> Option<string>, lines: seq<string>, i: nat,
                     done: seq<Styled>, more: seq<Styled>)
    requires i < |lines|
    requires Rendered(max, urlHost, lines[..i]) == Some(done) && LineRows(max, urlHost, lines[i]) == Some(more)
    ensures Rendered(max, urlHost, lines[..i + 1]) == Some(done + more)
  {
    FlattenStep(line => LineRows(max, urlHost, line), lines, i, done, more);
  }

  /** Rendering fails exactly when one of the lines fails. */
  lemma RenderedFails(max: int, urlHost: Styled -> Option<string>, lines: seq<string>)
    ensures Rendered(max, urlHost, lines).None? <==> exists i :: 0 <= i < |lines| && LineRows(max, urlHost, lines[i]).None?
  {
    FlattenFails(line => LineRows(max, urlHost, line), lines);
  }

  /** Every line gives at least one row, and every row is at least as wide
      as the width. */
  lemma RenderedRows(max: int, urlHost: Styled -> Option<string>, lines: seq<string>)
    requires Rendered(max, urlHost, lines).Some?
    ensures |Rendered(max, urlHost, lines).value| >= |lines|
    ensures forall k :: 0 <= k < |Rendered(max, urlHost, lines).value| ==> Width(Rendered(max, urlHost, lines).value[k]) >= max
  {
    FlattenRows(line => LineRows(max, urlHost, line), lines, max);
  }

  /** `’` and `‘` become `'`, `“` and `”` become `"`. */
  function Straight(c: char): char {
    if c == '\U{2019}' || c == '\U{2018}' then '\''
    else if c == '\U{201C}' || c == '\U{201D}' then '"'
    else c
  }

  predicate IsCurlyQuote(c: char) {
    c == '\U{2019}' || c == '\U{2018}' || c == '\U{201C}' || c == '\U{201D}'
  }

  /** The four `replaceAll` calls of `render`. */
  function Normalise(s: string): (r: string)
    ensures |r| == |s|
    ensures forall i :: 0 <= i < |r| ==> !IsCurlyQuote(r[i])
    ensures forall i :: 0 <= i < |s| && !IsCurlyQuote(s[i]) ==> r[i] == s[i]
    ensures forall i :: 0 <= i < |s| && (s[i] == '\U{2019}' || s[i] == '\U{2018}') ==> r[i] == '\''
    ensures forall i :: 0 <= i < |s| && (s[i] == '\U{201C}' || s[i] == '\U{201D}') ==> r[i] == '"'
  {
    seq(|s|, i requires 0 <= i < |s| => Straight(s[i]))
  }

  /** `"".padEnd(max, " ")`, repeated `n` times. */
  function Filler(max: int, n: nat): (r: seq<Styled>)
    ensures |r| == n
    ensures forall k :: 0 <= k < n ==> r[k] == Plain(Spaces(if max > 0 then max else 0))
                                       && Width(r[k]) == (if max > 0 then max else 0)
  {
    WidthPlain(Spaces(if max > 0 then max else 0));
    seq(n, k => Plain(Spaces(if max > 0 then max else 0)))
  }

  /** The lines of `render(s)`: every input line's rows in order, then
      filler rows up to `minimumLines`. */
  function Rows(max: int, minimumLines: int, urlHost: Styled -> Option<string>, s: string): (r: Option<seq<Styled>>)
    ensures r.None? <==> Rendered(max, urlHost, Split(Normalise(s), ['\n'])).None?
    ensures var rendered := Rendered(max, urlHost, Split(Normalise(s), ['\n']));
            r.Some? ==> rendered.Some?
                        && |r.value| == (if |rendered.value| < minimumLines then minimumLines else |rendered.value|)
                        && r.value[..|rendered.value|] == rendered.value
                        && forall k :: |rendered.value| <= k < |r.value| ==> r.value[k] == Plain(Spaces(if max > 0 then max else 0))
  {
    match Rendered(max, urlHost, Split(Normalise(s), ['\n']))
    case None => None
    case Some(rows) =>
      var all := if |rows| < minimumLines then rows + Filler(max, minimumLines - |rows|) else rows;
      assert all[..|rows|] == rows;
      Some(all)
  }

  /** Every input line gives at least one row, and every row is at least
      as wide as the width. */
  lemma RowsWidths(max: int, minimumLines: int, urlHost: Styled -> Option<string>, s: string)
    requires Rows(max, minimumLines, urlHost, s).Some?
    ensures |Rows(max, minimumLines, urlHost, s).value| >= |Split(Normalise(s), ['\n'])|
    ensures forall k :: 0 <= k < |Rows(max, minimumLines, urlHost, s).value| ==>
              Width(Rows(max, minimumLines, urlHost, s).value[k]) >= max
  {
    var lines := Split(Normalise(s), ['\n']);
    RenderedRows(max, urlHost, lines);
    var rows := Rendered(max, urlHost, lines).value;
    var all := Rows(max, minimumLines, urlHost, s).value;
    forall k | 0 <= k < |all| ensures Width(all[k]) >= max {
      if k < |rows| {
        assert all[k] == all[..|rows|][k];
      } else {
        assert all[k] == Filler(max, minimumLines - |rows|)[k - |rows|];
      }
    }
  }

  /** `render(s)`: the rows joined with line breaks. */
  function Rendering(max: int, minimumLines: int, urlHost: Styled -> Option<string>, s: string): Option<Styled> {
    match Rows(max, minimumLines, urlHost, s)
    case None => None
    case Some(rows) => Some(Join(rows, [Ch('\n')]))
  }

  /** No row holds a line break. */
  predicate NoBreaks(rows: seq<Styled>) {
    forall k :: 0 <= k < |rows| ==> Ch('\n') !in rows[k]
  }

  /** One more word brings no line break into the rows. */
  lemma StepNoBreak(max: int, w: Wrap, word: Styled)
    requires NoBreaks(w.lines + [w.cur]) && Ch('\n') !in word
    ensures var w' := Step(max, w, word); NoBreaks(w'.lines + [w'.cur])
  {
    assert Ch('\n') !in w.cur by { assert (w.lines + [w.cur])[|w.lines|] == w.cur; }
    var w' := Step(max, w, word);
    if Width(w.cur) + Width(word) + 1 <= max {
      var glued := Glue(w.cur, word);
      assert w'.lines + [w'.cur] == w.lines + [glued];
      assert forall k :: 0 <= k < |w.lines| ==> (w.lines + [w.cur])[k] == w.lines[k];
    } else {
      assert w'.lines + [w'.cur] == (w.lines + [w.cur]) + [word];
    }
  }

  /** Words without line breaks wrap into rows without line breaks. */
  lemma {:induction false} WrapNoBreak(max: int, words: seq<Styled>)
    requires NoBreaks(words)
    ensures NoBreaks(Wrapped(max, words))
    decreases |words|
  {
    if words != [] {
      var init, word := words[..|words| - 1], words[|words| - 1];
      assert forall i :: 0 <= i < |init| ==> init[i] == words[i];
      WrapNoBreak(max, init);
      assert Run(max, words) == Step(max, Run(max, init), word);
      StepNoBreak(max, Run(max, init), word);
    } else {
      assert Wrapped(max, words) == [[]];
    }
  }

  /** Padding brings in only spaces. */
  lemma PadAllNoBreak(rows: seq<Styled>, max: int)
    requires NoBreaks(rows)
    ensures NoBreaks(PadAll(rows, max))
  {
    forall k | 0 <= k < |rows| ensures Ch('\n') !in Pad(rows[k], max) {
      var r := Pad(rows[k], max);
      forall j | 0 <= j < |r| ensures r[j] != Ch('\n') {
        if j < |rows[k]| {
          assert r[j] == r[..|rows[k]|][j];
        }
      }
    }
  }

  /** A line without a line break renders as rows without one. */
  lemma LineRowsNoBreak(max: int, urlHost: Styled -> Option<string>, line: string)
    requires '\n' !in line && HostsNoBreak(urlHost)
    ensures LineRows(max, urlHost, line).Some? ==> NoBreaks(LineRows(max, urlHost, line).value)
  {
    var formatted := FormatLine(line);
    FormatLineNoBreak(line);
    var split := Split(formatted, [Ch(' ')]);
    SplitPartsWithin(formatted, [Ch(' ')], Ch('\n'));
    var words := FormatWords(split, urlHost);
    if words.Some? {
      forall i | 0 <= i < |split| ensures Ch('\n') !in words.value[i] {
        FormatWordNoBreak(split[i], urlHost);
      }
      WrapNoBreak(max, words.value);
      PadAllNoBreak(Wrapped(max, words.value), max);
    }
  }

  /** When every line gives rows without line breaks, so do all of them
      together. */
  lemma {:induction false} FlattenNoBreak(rowsOf: string -> Option<seq<Styled>>, lines: seq<string>)
    requires forall i :: 0 <= i < |lines| && rowsOf(lines[i]).Some? ==> NoBreaks(rowsOf(lines[i]).value)
    ensures Flatten(rowsOf, lines).Some? ==> NoBreaks(Flatten(rowsOf, lines).value)
    decreases |lines|
  {
    if lines != [] {
      var init := lines[..|lines| - 1];
      assert forall i :: 0 <= i < |init| ==> init[i] == lines[i];
      FlattenNoBreak(rowsOf, init);
      var done, more := Flatten(rowsOf, init), rowsOf(lines[|lines| - 1]);
      if done.Some? && more.Some? {
        var all := done.value + more.value;
        assert Flatten(rowsOf, lines).value == all;
        forall k | 0 <= k < |all| ensures Ch('\n') !in all[k] {
          if k < |done.value| {
            assert all[k] == done.value[k];
          } else {
            assert all[k] == more.value[k - |done.value|];
          }
        }
      }
    }
  }

  /** With a URL parser that gives no line break, no row of `render(s)`
      holds one: the input is split at line breaks and nothing after that
      brings one in. */
  lemma RowsNoBreak(max: int, minimumLines: int, urlHost: Styled -> Option<string>, s: string)
    requires HostsNoBreak(urlHost)
    ensures Rows(max, minimumLines, urlHost, s).Some? ==> NoBreaks(Rows(max, minimumLines, urlHost, s).value)
  {
    var lines := Split(Normalise(s), ['\n']);
    SplitPartsFree(Normalise(s), ['\n']);
    forall i | 0 <= i < |lines| ensures '\n' !in lines[i] && (LineRows(max, urlHost, lines[i]).Some? ==> NoBreaks(LineRows(max, urlHost, lines[i]).value)) {
      AbsentNotIn(lines[i], '\n');
      LineRowsNoBreak(max, urlHost, lines[i]);
    }
    FlattenNoBreak(line => LineRows(max, urlHost, line), lines);
    var rendered := Rendered(max, urlHost, lines);
    if rendered.Some? {
      var all := Rows(max, minimumLines, urlHost, s).value;
      forall k | 0 <= k < |all| ensures Ch('\n') !in all[k] {
        if k < |rendered.value| {
          assert all[k] == all[..|rendered.value|][k];
        } else {
          WidthPlain(Spaces(if max > 0 then max else 0));
        }
      }
    }
  }

  /** With a URL parser that gives no line break, the rendered text splits
      back at line breaks into exactly its rows. */
  lemma RenderingSplits(max: int, minimumLines: int, urlHost: Styled -> Option<string>, s: string)
    requires HostsNoBreak(urlHost)
    requires Rows(max, minimumLines, urlHost, s).Some?
    ensures Split(Rendering(max, minimumLines, urlHost, s).value, [Ch('\n')]) == Rows(max, minimumLines, urlHost, s).value
  {
    RowsNoBreak(max, minimumLines, urlHost, s);
    SplitJoin(Rows(max, minimumLines, urlHost, s).value, Ch('\n'));
  }

  /** The renderer: the width and the minimum number of rows, and the URL
      parser the smart links use. */
  class ADFRenderer {
    const maxLineWidth: int
    const minimumLines: int
    const urlHost: Styled -> Option<string>

    constructor (maxLineWidth: int, minimumLines: int, urlHost: Styled -> Option<string>)
      ensures this.maxLineWidth == maxLineWidth && this.minimumLines == minimumLines && this.urlHost == urlHost
    {
      this.maxLineWidth := maxLineWidth;
      this.minimumLines := minimumLines;
      this.urlHost := urlHost;
    }

    /** `renderLine(line)` with its word loop. */
    method RenderLine(line: string) returns (r: Option<seq<Styled>>)
      ensures r == LineRows(maxLineWidth, urlHost, line)
    {
      var formatted := FormatLineImpl(line);
      var words := Split(formatted, [Ch(' ')]);
      var result: seq<Styled> := [];
      var currentLine: Styled := [];
      ghost var done: seq<Styled> := [];
      for i := 0 to |words|
        invariant FormatWords(words[..i], urlHost) == Some(done)
        invariant result == PadAll(Run(maxLineWidth, done).lines, maxLineWidth)
        invariant currentLine == Run(maxLineWidth, done).cur
      {
        var word := FormatWord(words[i], urlHost);
        if word.None? {
          assert FormatWord(words[i], urlHost).None?;
          assert FormatWords(words, urlHost).None?;
          return None;
        }
        FormatWordsStep(words, i, urlHost, done, word.value);
        RunStep(maxLineWidth, done, word.value);
        if Width(currentLine) + Width(word.value) + 1 <= maxLineWidth {
          currentLine := currentLine + (if |currentLine| == 0 then [] else [Ch(' ')]) + word.value;
        } else {
          result := result + [Pad(currentLine, maxLineWidth)];
          currentLine := word.value;
        }
        PadAllAppend(Run(maxLineWidth, done).lines, Run(maxLineWidth, done).cur, maxLineWidth);
        done := done + [word.value];
      }
      assert words[..|words|] == words;
      assert FormatWords(words, urlHost) == Some(done);
      PadAllAppend(Run(maxLineWidth, done).lines, Run(maxLineWidth, done).cur, maxLineWidth);
      r := Some(result + [Pad(currentLine, maxLineWidth)]);
    }

    /** `render(s)` with its loop over the lines. */
    method Render(s: string) returns (r: Option<Styled>)
      ensures r == Rendering(maxLineWidth, minimumLines, urlHost, s)
    {
      var lines := Split(Normalise(s), ['\n']);
      var result: seq<Styled> := [];
      for i := 0 to |lines|
        invariant Rendered(maxLineWidth, urlHost, lines[..i]) == Some(result)
      {
        var rows := RenderLine(lines[i]);
        if rows.None? {
          RenderedFails(maxLineWidth, urlHost, lines);
          assert LineRows(maxLineWidth, urlHost, lines[i]).None?;
          return None;
        }
        RenderedStep(maxLineWidth, urlHost, lines, i, result, rows.value);
        result := result + rows.value;
      }
      assert lines[..|lines|] == lines;
      assert Rendered(maxLineWidth, urlHost, lines) == Some(result);
      if |result| < minimumLines {
        result := result + Filler(maxLineWidth, minimumLines - |result|);
      }
      r := Some(Join(result, [Ch('\n')]));
    }
  }
}
