/** The shape of a key binding (src/lib/keybinds/keybinds.ts). A binding's
    handler and its optional `when` guard act on the application's state,
    which the model leaves abstract as the type parameter `W`: a handler is a
    state transformer and a guard a predicate on the state. */
module Keybinds {
  import opened JsString

  /** An alternative key for a binding: either a bare key name or a key with
      its own modifiers. */
  datatype Alias = NameAlias(name: string) | KeyAlias(key: string, modifiers: Option<seq<string>>)

  /** The part of a binding that decides which key presses it reacts to
      (`Pick<Keybind, "key" | "modifiers" | "aliases">`). */
  datatype KeySpec = KeySpec(key: string, modifiers: Option<seq<string>>, aliases: Option<seq<Alias>>)

  datatype Keybind<!W> = Keybind(spec: KeySpec, name: string, handler: W -> W,
                                when: Option<W -> bool>, hidden: Option<bool>)
  {
    function Key(): string {
      spec.key
    }
  }

  /** One entry of a key-binding display: `${name}: ${key}`. */
  function ToDisplay<W>(keybind: Keybind<W>): (r: string)
    ensures StartsWith(r, keybind.name) && EndsWith(r, keybind.Key())
    ensures |r| == |keybind.name| + 2 + |keybind.Key()|
    ensures r[|keybind.name|..|keybind.name| + 2] == ": "
  {
    keybind.name + ": " + keybind.Key()
  }

  /** The display entry of every binding, in order. */
  function DisplayEntries<W>(keybinds: seq<Keybind<W>>): (r: seq<string>)
    ensures |r| == |keybinds| && forall i :: 0 <= i < |keybinds| ==> r[i] == ToDisplay(keybinds[i])
  {
    seq(|keybinds|, i requires 0 <= i < |keybinds| => ToDisplay(keybinds[i]))
  }

  /** The index of the first binding with key `key`, or -1. */
  function KeyIndex<W>(keybinds: seq<Keybind<W>>, key: string): (r: int)
    ensures -1 <= r < |keybinds|
    ensures r >= 0 ==> keybinds[r].Key() == key && forall j :: 0 <= j < r ==> keybinds[j].Key() != key
    ensures r == -1 ==> forall j :: 0 <= j < |keybinds| ==> keybinds[j].Key() != key
  {
    if keybinds == [] then -1
    else if keybinds[0].Key() == key then 0
    else var rest := KeyIndex(keybinds[1..], key); if rest < 0 then -1 else rest + 1
  }

  /** The index of the last binding with key `key`, or -1
      (`keybinds.map((k) => k.key).lastIndexOf(key)`). */
  function LastKeyIndex<W>(keybinds: seq<Keybind<W>>, key: string): (r: int)
    ensures -1 <= r < |keybinds|
    ensures r >= 0 ==> keybinds[r].Key() == key && forall j :: r < j < |keybinds| ==> keybinds[j].Key() != key
    ensures r == -1 ==> forall j :: 0 <= j < |keybinds| ==> keybinds[j].Key() != key
  {
    if keybinds == [] then -1
    else if keybinds[|keybinds| - 1].Key() == key then |keybinds| - 1
    else LastKeyIndex(keybinds[..|keybinds| - 1], key)
  }
}
