/** Parsing the key names used to declare bindings (`parseKeybind`,
    `parseSingleKeybind` and `parseModifier` in
    src/lib/keybinds/parse-keybind.ts). */
module ParseKeybind {
  import opened JsString
  import opened Keybinds

  /** What a binding is declared with: one key name, or a non-empty list of
      them whose first element is the main key and the rest aliases. */
  datatype KeyOrKeys = OneKey(name: string) | SeveralKeys(names: seq<string>)

  /** The declared key names are a single key, a `modifier + key`
      combination (which splits on `" + "` into at least two parts), or one
      of the named keys; a name with a `+` is always a combination. */
  predicate WellFormedName(name: string) {
    Contains(name, "+") ==> |Split(name, " + ")| >= 2
  }

  predicate WellFormed(k: KeyOrKeys) {
    match k
    case OneKey(name) => WellFormedName(name)
    case SeveralKeys(names) => |names| >= 1 && forall i :: 0 <= i < |names| ==> WellFormedName(names[i])
  }

  predicate IsEscapeName(name: string) {
    name == "esc" || name == "escape" || name == "<esc>" || name == "<escape>"
  }

  predicate IsReturnName(name: string) {
    name == "return" || name == "<return>"
  }

  predicate IsArrowName(name: string) {
    name == "upArrow" || name == "downArrow" || name == "leftArrow" || name == "rightArrow"
  }

  /** `parseKeybind(keyOrKeys)`: a list parses its first element as the main
      binding and every further element, in order, as an alias. */
  function ParseKeybind(k: KeyOrKeys): (r: KeySpec)
    requires WellFormed(k)
    ensures k.OneKey? ==> r == ParseSingleKeybind(k.name) && r.aliases.None?
    ensures k.SeveralKeys? ==>
              var main := ParseSingleKeybind(k.names[0]);
              r.key == main.key && r.modifiers == main.modifiers
              && r.aliases.Some? && |r.aliases.value| == |k.names| - 1
              && forall i :: 0 <= i < |k.names| - 1 ==> r.aliases.value[i] == AsAlias(k.names[i + 1])
  {
    match k
    case OneKey(name) => ParseSingleKeybind(name)
    case SeveralKeys(names) =>
      var main := ParseSingleKeybind(names[0]);
      KeySpec(main.key, main.modifiers, Some(AliasesOf(names[1..])))
  }

  /** `keyOrKeys.slice(1).map(...)`: the further keys as aliases, in order. */
  function AliasesOf(names: seq<string>): (r: seq<Alias>)
    requires forall i :: 0 <= i < |names| ==> WellFormedName(names[i])
    ensures |r| == |names| && forall i :: 0 <= i < |names| ==> r[i] == AsAlias(names[i])
  {
    seq(|names|, i requires 0 <= i < |names| => AsAlias(names[i]))
  }

  /** A further key of a list, parsed and kept as an alias with its modifiers. */
  function AsAlias(name: string): Alias
    requires WellFormedName(name)
  {
    var parsed := ParseSingleKeybind(name);
    KeyAlias(parsed.key, parsed.modifiers)
  }

  /** `parseSingleKeybind(keybind)`: always exactly one modifier or none. */
  function ParseSingleKeybind(name: string): (r: KeySpec)
    requires WellFormedName(name)
    ensures r.modifiers.Some? && |r.modifiers.value| <= 1 && r.aliases.None?
  {
    if !Contains(name, "+") then
      if IsEscapeName(name) then KeySpec("", Some(["escape"]), None)
      else if IsReturnName(name) then KeySpec("<return>", Some([]), None)
      else if IsArrowName(name) then KeySpec("", Some([name]), None)
      else if name == "space" then KeySpec("<space>", Some([]), None)
      else KeySpec(name, Some([]), None)
    else
      var (modifier, key) := ParseModifier(name);
      KeySpec(key, Some([modifier]), None)
  }

  /** `parseModifier(keybind)`: the parts before and after the first
      `" + "`; `alt` is reported as Ink's `meta`, and `shift` upper-cases the
      key. */
  function ParseModifier(name: string): (string, string)
    requires |Split(name, " + ")| >= 2
  {
    var parts := Split(name, " + ");
    var modifier := parts[0];
    var key := parts[1];
    if modifier == "alt" then ("meta", key)
    else if modifier == "shift" then ("shift", ToUpper(key))
    else (modifier, key)
  }

  predicate IsModifierKey(m: string) {
    m == "ctrl" || m == "shift" || m == "alt"
  }

  /** A single key other than the named ones (a letter, `/`) is its own key
      and needs no modifier. */
  lemma ParsePlainKey(name: string)
    requires '+' !in name
    requires !IsEscapeName(name) && !IsReturnName(name) && !IsArrowName(name) && name != "space"
    ensures WellFormedName(name)
    ensures ParseSingleKeybind(name) == KeySpec(name, Some([]), None)
  {
    NoFirstNoOccurrence(name, "+");
  }

  /** The named keys: every spelling of escape is the empty key held with
      `escape`, both spellings of return are the key `<return>`, an arrow is
      the empty key held with that arrow, and `space` is the key `<space>`;
      none of them needs another modifier. */
  lemma ParseNamedKeys(name: string)
    requires IsEscapeName(name) || IsReturnName(name) || IsArrowName(name) || name == "space"
    ensures WellFormedName(name)
    ensures IsEscapeName(name) ==> ParseSingleKeybind(name) == KeySpec("", Some(["escape"]), None)
    ensures IsReturnName(name) ==> ParseSingleKeybind(name) == KeySpec("<return>", Some([]), None)
    ensures IsArrowName(name) ==> ParseSingleKeybind(name) == KeySpec("", Some([name]), None)
    ensures name == "space" ==> ParseSingleKeybind(name) == KeySpec("<space>", Some([]), None)
  {
    assert '+' !in name;
    NoFirstNoOccurrence(name, "+");
  }

  /** `modifier + c` parses to the key `c` (upper-cased under `shift`) with
      the single modifier `modifier` (`meta` for `alt`). */
  lemma ParseCombination(modifier: string, c: char)
    requires IsModifierKey(modifier) && c != ' ' && c != '+'
    ensures WellFormedName(modifier + " + " + [c])
    ensures ParseSingleKeybind(modifier + " + " + [c])
            == KeySpec(if modifier == "shift" then [UpperChar(c)] else [c],
                       Some([if modifier == "alt" then "meta" else modifier]), None)
  {
    SplitCombination(modifier, c);
  }

  /** `modifier + c` holds a `+` and splits into the modifier and the key. */
  lemma SplitCombination(modifier: string, c: char)
    requires IsModifierKey(modifier) && c != ' ' && c != '+'
    ensures Contains(modifier + " + " + [c], "+")
    ensures Split(modifier + " + " + [c], " + ") == [modifier, [c]]
  {
    var name := modifier + " + " + [c];
    assert name == modifier + " + " + [c] + [];
    IndexOfAfterFree(modifier, " + ", [c]);
    assert OccursAt(name, "+", |modifier| + 1) by {
      assert name[|modifier| + 1..|modifier| + 2] == "+";
    }
    ContainsAt(name, "+", |modifier| + 1);
    assert name[..|modifier|] == modifier;
    assert name[|modifier| + 3..] == [c];
    assert Split([c], " + ") == [[c]];
  }
}
