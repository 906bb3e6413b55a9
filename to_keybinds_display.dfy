/** The key-binding legend of a view (`toKeybindsDisplay` in
    src/lib/keybinds/to-keybinds-display.ts): the bindings not marked hidden,
    in order, each as `name: key`, joined by `" | "`. */
module ToKeybindsDisplay {
  import opened JsString
  import opened Keybinds

  /** `keybind.hidden` is truthy; an absent flag counts as visible. */
  predicate IsHidden<W>(keybind: Keybind<W>) {
    keybind.hidden == Some(true)
  }

  /** `keybinds.filter((keybind) => !keybind.hidden)`. */
  function Visible<W>(keybinds: seq<Keybind<W>>): (r: seq<Keybind<W>>)
    ensures forall i :: 0 <= i < |r| ==> !IsHidden(r[i])
  {
    Filter(keybinds, (keybind: Keybind<W>) => !IsHidden(keybind))
  }

  function ToKeybindsDisplay<W>(keybinds: seq<Keybind<W>>): string {
    Join(DisplayEntries(Visible(keybinds)), " | ")
  }

  /** An empty or all-hidden list gives the empty legend. */
  lemma AllHiddenEmpty<W>(keybinds: seq<Keybind<W>>)
    requires forall i :: 0 <= i < |keybinds| ==> IsHidden(keybinds[i])
    ensures ToKeybindsDisplay(keybinds) == ""
  {
    FilterNone(keybinds, (keybind: Keybind<W>) => !IsHidden(keybind));
  }

  /** With nothing hidden every binding shows, in order, duplicates included. */
  lemma NothingHiddenAllShown<W>(keybinds: seq<Keybind<W>>)
    requires forall i :: 0 <= i < |keybinds| ==> !IsHidden(keybinds[i])
    ensures ToKeybindsDisplay(keybinds) == Join(DisplayEntries(keybinds), " | ")
  {
    FilterAll(keybinds, (keybind: Keybind<W>) => !IsHidden(keybind));
  }

  /** A visible binding followed by more bindings puts its entry first,
      followed by the separator when anything else shows. */
  lemma VisibleFirstEntry<W>(keybind: Keybind<W>, rest: seq<Keybind<W>>)
    requires !IsHidden(keybind)
    ensures ToKeybindsDisplay([keybind] + rest)
            == if Visible(rest) == [] then ToDisplay(keybind)
               else ToDisplay(keybind) + " | " + ToKeybindsDisplay(rest)
  {
    assert ([keybind] + rest)[1..] == rest;
    var entries := DisplayEntries([keybind] + Visible(rest));
    assert entries[1..] == DisplayEntries(Visible(rest));
  }

  /** A hidden binding contributes nothing. */
  lemma HiddenContributesNothing<W>(keybind: Keybind<W>, rest: seq<Keybind<W>>)
    requires IsHidden(keybind)
    ensures ToKeybindsDisplay([keybind] + rest) == ToKeybindsDisplay(rest)
  {
    assert ([keybind] + rest)[1..] == rest;
    assert Visible([keybind] + rest) == [] + Visible(rest);
    assert [] + Visible(rest) == Visible(rest);
  }
}
