/** Styled terminal text: a string as a sequence of visible characters and
    ANSI escape sequences. `chalk` wraps text in escape sequences and
    `ansiRegex` (src/lib/adf-renderer.ts) matches them so that they can be
    removed before a width is measured. Here an escape sequence is one token,
    so removing them is dropping those tokens. */
module Ansi {
  import opened JsString

  /** A visible character, or one escape sequence (named by its style). */
  datatype Tok = Ch(c: char) | Esc(code: string)

  type Styled = seq<Tok>

  /** Text without escape sequences. */
  function Plain(s: string): (r: Styled)
    ensures |r| == |s|
    ensures forall i :: 0 <= i < |s| ==> r[i] == Ch(s[i])
  {
    seq(|s|, i requires 0 <= i < |s| => Ch(s[i]))
  }

  /** The length of `line.replaceAll(ansiRegex(), "")`: the number of
      visible characters. */
  function Width(s: Styled): (r: nat)
    ensures r <= |s|
  {
    if s == [] then 0 else Width(s[..|s| - 1]) + (if s[|s| - 1].Ch? then 1 else 0)
  }

  lemma {:induction false} WidthAppend(a: Styled, b: Styled)
    ensures Width(a + b) == Width(a) + Width(b)
    decreases |b|
  {
    if b == [] {
      assert a + b == a;
    } else {
      var init := b[..|b| - 1];
      assert (a + b)[..|a + b| - 1] == a + init;
      assert (a + b)[|a + b| - 1] == b[|b| - 1];
      WidthAppend(a, init);
    }
  }

  lemma {:induction false} WidthPlain(s: string)
    ensures Width(Plain(s)) == |s|
    decreases |s|
  {
    if s != [] {
      assert Plain(s)[..|s| - 1] == Plain(s[..|s| - 1]);
      WidthPlain(s[..|s| - 1]);
    }
  }

  /** `chalk.<style>(text)`: the opening sequence, the text and the closing
      sequence; chalk returns empty text unchanged. */
  function Paint(style: string, text: Styled): (r: Styled)
    ensures text == [] ==> r == []
    ensures text != [] ==> |r| == |text| + 2 && r[1..|r| - 1] == text
  {
    if text == [] then [] else [Esc(style)] + text + [Esc("/" + style)]
  }

  /** Painting never changes the visible width. */
  lemma PaintWidth(style: string, text: Styled)
    ensures Width(Paint(style, text)) == Width(text)
  {
    if text != [] {
      WidthAppend([Esc(style)], text);
      WidthAppend([Esc(style)] + text, [Esc("/" + style)]);
    }
  }
}
