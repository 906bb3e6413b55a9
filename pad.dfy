/** Right-padding of a line to a display width (`pad` in
    src/lib/utils/pad.ts). The display width of a string is measured by the
    runtime's `stringWidth`, which this model takes as a parameter. */
module Pad {
  import opened JsString

  /** `pad(text, length)`: appends `length - width(text)` spaces when that
      is positive, and otherwise returns the text as it is. */
  function Pad(text: string, length: int, width: string -> nat): (r: string)
    ensures StartsWith(r, text)
    ensures width(text) >= length ==> r == text
    ensures width(text) < length ==>
              |r| == |text| + (length - width(text))
              && forall i :: |text| <= i < |r| ==> r[i] == ' '
  {
    var paddingLength := length - width(text);
    if paddingLength <= 0 then text else text + Spaces(paddingLength)
  }

  /** When appending spaces adds one column each, the padded text is exactly
      `length` columns wide whenever padding was added, and never narrower
      than the text itself. */
  lemma PadWidth(text: string, length: int, width: string -> nat)
    requires forall k: nat :: width(text + Spaces(k)) == width(text) + k
    ensures width(Pad(text, length, width)) == if width(text) < length then length else width(text)
  {
    if width(text) < length {
      assert Pad(text, length, width) == text + Spaces(length - width(text));
    }
  }
}
