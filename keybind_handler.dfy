/** Matching key presses against bindings and dispatching them
    (`resolveKey`, `shouldTrigger` and the input handler of
    `GlobalKeybindHandler` in src/keybind-handler.tsx). A key press is
    Ink's pair of the typed text `input` and the set `held` of the key flags
    that are set (`ctrl`, `shift`, `meta`, `escape`, `upArrow`, ...). */
module KeybindHandler {
  import opened JsString
  import opened Keybinds
  import opened ParseKeybind

  /** `resolveKey(key)`: the text Ink reports for a key name. Only the
      angle-bracketed names `<space>`, `<enter>`, `<return>`, `<CR>` and
      `<esc>` are translated, each to at most one character. */
  function ResolveKey(key: string): (r: string)
    ensures r == key || (|key| > 0 && key[0] == '<' && |r| <= 1)
    ensures key == "<space>" ==> r == " "
    ensures key == "<enter>" || key == "<return>" || key == "<CR>" ==> r == "\r"
    ensures key == "<esc>" ==> r == ""
    ensures key !in {"<space>", "<enter>", "<return>", "<CR>", "<esc>"} ==> r == key
  {
    if key == "<space>" then " "
    else if key == "<enter>" || key == "<return>" || key == "<CR>" then "\r"
    else if key == "<esc>" then ""
    else key
  }

  /** `modifiers.every((modifier) => !!key[modifier])`. */
  function AllHeld(modifiers: seq<string>, held: set<string>): (r: bool)
    ensures r <==> forall i :: 0 <= i < |modifiers| ==> modifiers[i] in held
  {
    if modifiers == [] then true else modifiers[0] in held && AllHeld(modifiers[1..], held)
  }

  /** `!modifiers?.length || modifiers.every(...)`: an absent or empty list
      asks for nothing, otherwise every listed modifier must be held. */
  predicate ModifiersHeld(modifiers: Option<seq<string>>, held: set<string>) {
    modifiers.None? || |modifiers.value| == 0 || AllHeld(modifiers.value, held)
  }

  /** The base binding matches: its resolved key is the input and its
      modifiers are held. */
  predicate BaseMatches(spec: KeySpec, input: string, held: set<string>) {
    ResolveKey(spec.key) == input && ModifiersHeld(spec.modifiers, held)
  }

  /** A bare alias matches on its resolved key alone; an alias with a key
      follows the same rule as the base binding. */
  predicate AliasMatches(alias: Alias, input: string, held: set<string>) {
    match alias
    case NameAlias(name) => ResolveKey(name) == input
    case KeyAlias(key, modifiers) => ResolveKey(key) == input && ModifiersHeld(modifiers, held)
  }

  /** `aliases.some(...)`. */
  function AnyAliasMatches(aliases: seq<Alias>, input: string, held: set<string>): (r: bool)
    ensures r <==> exists i :: 0 <= i < |aliases| && AliasMatches(aliases[i], input, held)
  {
    if aliases == [] then false
    else AliasMatches(aliases[0], input, held) || AnyAliasMatches(aliases[1..], input, held)
  }

  /** `shouldTrigger(keybind, input, key)`. */
  function ShouldTrigger(spec: KeySpec, input: string, held: set<string>): (r: bool)
    ensures r <==> BaseMatches(spec, input, held)
                   || (spec.aliases.Some?
                       && exists i :: 0 <= i < |spec.aliases.value| && AliasMatches(spec.aliases.value[i], input, held))
  {
    if BaseMatches(spec, input, held) then true
    else if spec.aliases.None? then false
    else AnyAliasMatches(spec.aliases.value, input, held)
  }

  /** Holding more modifiers never turns a match into a non-match: only the
      binding's own modifiers are looked at. */
  lemma MoreModifiersStillTrigger(spec: KeySpec, input: string, held: set<string>, more: set<string>)
    requires held <= more
    requires ShouldTrigger(spec, input, held)
    ensures ShouldTrigger(spec, input, more)
  {
    if !BaseMatches(spec, input, held) {
      var i :| 0 <= i < |spec.aliases.value| && AliasMatches(spec.aliases.value[i], input, held);
      assert AliasMatches(spec.aliases.value[i], input, more);
    }
  }

  /** A single-character key, declared on its own, fires on exactly that
      character whatever modifiers are held. */
  lemma ParsedCharacterTriggers(c: char, input: string, held: set<string>)
    requires c != '+'
    ensures WellFormedName([c])
    ensures ShouldTrigger(ParseSingleKeybind([c]), input, held) <==> input == [c]
  {
    ParsePlainKey([c]);
  }

  /** `modifier + c` fires on the character (upper-case under `shift`) only
      while the modifier (`meta` for `alt`) is held. */
  lemma ParsedCombinationTriggers(modifier: string, c: char, input: string, held: set<string>)
    requires IsModifierKey(modifier) && c != ' ' && c != '+'
    ensures WellFormedName(modifier + " + " + [c])
    ensures ShouldTrigger(ParseSingleKeybind(modifier + " + " + [c]), input, held)
            <==> input == (if modifier == "shift" then [UpperChar(c)] else [c])
                 && (if modifier == "alt" then "meta" else modifier) in held
  {
    ParseCombination(modifier, c);
  }

  /** The key press Ink reports for each named key: its text and the key
      flag it sets, if any. */
  function NamedKeyPress(name: string): (string, Option<string>)
    requires IsEscapeName(name) || IsReturnName(name) || IsArrowName(name) || name == "space"
  {
    if IsEscapeName(name) then ("", Some("escape"))
    else if IsReturnName(name) then ("\r", None)
    else if IsArrowName(name) then ("", Some(name))
    else (" ", None)
  }

  /** A named key, declared on its own, fires exactly on the key press Ink
      reports for it. */
  lemma ParsedNamedKeyTriggers(name: string, input: string, held: set<string>)
    requires IsEscapeName(name) || IsReturnName(name) || IsArrowName(name) || name == "space"
    ensures WellFormedName(name)
    ensures var (text, flag) := NamedKeyPress(name);
            ShouldTrigger(ParseSingleKeybind(name), input, held)
            <==> input == text && (flag.Some? ==> flag.value in held)
  {
    assert '+' !in name;
    NoFirstNoOccurrence(name, "+");
  }

  /** A binding is enabled in state `w` when it has no `when` guard or the
      guard holds. */
  predicate Enabled<W>(keybind: Keybind<W>, w: W) {
    keybind.when.None? || keybind.when.value(w)
  }

  /** Binding fires in state `w`: it is enabled there and matches. */
  predicate FiresIn<W>(keybind: Keybind<W>, w: W, input: string, held: set<string>) {
    Enabled(keybind, w) && ShouldTrigger(keybind.spec, input, held)
  }

  /** The indices of the bindings fired by one key press among the first
      `n`, and the state their handlers leave behind. Each guard is
      evaluated in the state left by the handlers fired before it. */
  function Dispatch<W>(keybinds: seq<Keybind<W>>, input: string, held: set<string>, w0: W, n: nat)
    : (seq<nat>, W)
    requires n <= |keybinds|
  {
    if n == 0 then ([], w0)
    else
      var previous := Dispatch(keybinds, input, held, w0, n - 1);
      var keybind := keybinds[n - 1];
      if FiresIn(keybind, previous.1, input, held)
      then (previous.0 + [n - 1], keybind.handler(previous.1))
      else previous
  }

  /** The state in which the guard of binding `j` is evaluated. */
  function StateBefore<W>(keybinds: seq<Keybind<W>>, input: string, held: set<string>, w0: W, j: nat): W
    requires j <= |keybinds|
  {
    Dispatch(keybinds, input, held, w0, j).1
  }

  /** The input handler: nothing happens while inputs are ignored; otherwise
      every binding, in list order, fires when it is enabled and matches. */
  method HandleInput<W>(keybinds: seq<Keybind<W>>, ignoreInputs: bool, input: string,
                        held: set<string>, w0: W)
    returns (fired: seq<nat>, w: W)
    ensures ignoreInputs ==> fired == [] && w == w0
    ensures !ignoreInputs ==> (fired, w) == Dispatch(keybinds, input, held, w0, |keybinds|)
  {
    fired := [];
    w := w0;
    if ignoreInputs {
      return;
    }
    var i := 0;
    while i < |keybinds|
      invariant 0 <= i <= |keybinds|
      invariant (fired, w) == Dispatch(keybinds, input, held, w0, i)
    {
      var keybind := keybinds[i];
      var skip := keybind.when.Some? && !keybind.when.value(w);
      if !skip && ShouldTrigger(keybind.spec, input, held) {
        fired := fired + [i];
        w := keybind.handler(w);
      }
      i := i + 1;
    }
  }

  /** Dispatch fires bindings in list order, each at most once. */
  lemma {:induction false} DispatchInOrder<W>(keybinds: seq<Keybind<W>>, input: string,
                                              held: set<string>, w0: W, n: nat)
    requires n <= |keybinds|
    ensures forall k :: 0 <= k < |Dispatch(keybinds, input, held, w0, n).0| ==>
              Dispatch(keybinds, input, held, w0, n).0[k] < n
    ensures forall k, l :: 0 <= k < l < |Dispatch(keybinds, input, held, w0, n).0| ==>
              Dispatch(keybinds, input, held, w0, n).0[k] < Dispatch(keybinds, input, held, w0, n).0[l]
  {
    if n > 0 {
      DispatchInOrder(keybinds, input, held, w0, n - 1);
      var previous := Dispatch(keybinds, input, held, w0, n - 1);
      if FiresIn(keybinds[n - 1], previous.1, input, held) {
        var after := previous.0 + [n - 1];
        assert Dispatch(keybinds, input, held, w0, n).0 == after;
        assert forall k :: 0 <= k < |previous.0| ==> after[k] == previous.0[k];
      } else {
        assert Dispatch(keybinds, input, held, w0, n).0 == previous.0;
      }
    }
  }

  /** Binding `j` fires exactly when it matches the key press and is
      enabled in the state left by the bindings before it; a binding whose
      guard is false there never fires. */
  lemma {:induction false} DispatchFiresEnabledMatches<W>(keybinds: seq<Keybind<W>>, input: string,
                                                          held: set<string>, w0: W, n: nat, j: nat)
    requires j < n <= |keybinds|
    ensures j in Dispatch(keybinds, input, held, w0, n).0
            <==> FiresIn(keybinds[j], StateBefore(keybinds, input, held, w0, j), input, held)
  {
    var previous := Dispatch(keybinds, input, held, w0, n - 1).0;
    var after := Dispatch(keybinds, input, held, w0, n).0;
    DispatchStep(keybinds, input, held, w0, n);
    if j == n - 1 {
      DispatchBelow(keybinds, input, held, w0, n - 1);
      assert n - 1 !in previous;
    } else {
      DispatchFiresEnabledMatches(keybinds, input, held, w0, n - 1, j);
      assert j in after <==> j in previous;
    }
  }

  /** One more binding either joins the fired list or leaves it as it was. */
  lemma DispatchStep<W>(keybinds: seq<Keybind<W>>, input: string, held: set<string>, w0: W, n: nat)
    requires 0 < n <= |keybinds|
    ensures Dispatch(keybinds, input, held, w0, n).0
            == if FiresIn(keybinds[n - 1], StateBefore(keybinds, input, held, w0, n - 1), input, held)
               then Dispatch(keybinds, input, held, w0, n - 1).0 + [n - 1]
               else Dispatch(keybinds, input, held, w0, n - 1).0
  {
  }

  /** Only bindings among the first `n` fire. */
  lemma {:induction false} DispatchBelow<W>(keybinds: seq<Keybind<W>>, input: string,
                                            held: set<string>, w0: W, n: nat)
    requires n <= |keybinds|
    ensures forall x :: x in Dispatch(keybinds, input, held, w0, n).0 ==> x < n
  {
    if n > 0 {
      DispatchBelow(keybinds, input, held, w0, n - 1);
      DispatchStep(keybinds, input, held, w0, n);
    }
  }

  /** A key press no binding matches leaves the state as it was. */
  lemma {:induction false} NoMatchNoEffect<W>(keybinds: seq<Keybind<W>>, input: string,
                                              held: set<string>, w0: W, n: nat)
    requires n <= |keybinds|
    requires forall j :: 0 <= j < n ==> !ShouldTrigger(keybinds[j].spec, input, held)
    ensures Dispatch(keybinds, input, held, w0, n) == ([], w0)
  {
    if n > 0 {
      NoMatchNoEffect(keybinds, input, held, w0, n - 1);
    }
  }
}
