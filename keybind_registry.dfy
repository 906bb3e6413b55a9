/** The registry of active key bindings (`keybindReducer`,
    `keybindsDisplayAtom` and `toDisplay` in src/atoms/keybinds.atom.ts).
    Views register their bindings when they appear and unregister them when
    they go away; a dialog may register a key the view beneath it already
    uses. */
module KeybindRegistry {
  import opened JsString
  import opened Keybinds

  datatype Action<!W> = Register(keybind: Keybind<W>) | Unregister(keybind: Keybind<W>)

  /** `keybindReducer(prev, action)`: registering appends; unregistering
      removes the last binding with the same key, and only that one, or
      changes nothing when no binding has that key. */
  function Reduce<W>(prev: seq<Keybind<W>>, action: Action<W>): (r: seq<Keybind<W>>)
    ensures action.Register? ==>
              |r| == |prev| + 1 && r[..|prev|] == prev && r[|prev|] == action.keybind
    ensures action.Unregister? && (forall j :: 0 <= j < |prev| ==> prev[j].Key() != action.keybind.Key()) ==>
              r == prev
    ensures action.Unregister? && (exists j :: 0 <= j < |prev| && prev[j].Key() == action.keybind.Key()) ==>
              exists i :: 0 <= i < |prev| && prev[i].Key() == action.keybind.Key()
                          && (forall j :: i < j < |prev| ==> prev[j].Key() != action.keybind.Key())
                          && r == prev[..i] + prev[i + 1..]
  {
    match action
    case Register(keybind) => prev + [keybind]
    case Unregister(keybind) =>
      var lastKeybindIndex := LastKeyIndex(prev, keybind.Key());
      if lastKeybindIndex == -1 then prev
      else
        assert prev[lastKeybindIndex].Key() == keybind.Key();
        prev[..lastKeybindIndex] + prev[lastKeybindIndex + 1..]
  }

  /** Unregistering a binding right after registering it restores the list
      as it was, even when an earlier binding has the same key. */
  lemma RegisterThenUnregister<W>(prev: seq<Keybind<W>>, keybind: Keybind<W>)
    ensures Reduce(Reduce(prev, Register(keybind)), Unregister(keybind)) == prev
  {
    var registered := prev + [keybind];
    assert LastKeyIndex(registered, keybind.Key()) == |prev|;
    assert registered[..|prev|] == prev;
    assert registered[|prev| + 1..] == [];
  }

  /** The values of `new Map(keybinds.map((k) => [k.key, k]))`, in the
      map's iteration order: setting a key already present replaces its value
      where it stands, and a new key goes to the end. */
  function MapSet<W>(values: seq<Keybind<W>>, keybind: Keybind<W>): seq<Keybind<W>> {
    var i := KeyIndex(values, keybind.Key());
    if i < 0 then values + [keybind] else values[i := keybind]
  }

  function MapValues<W>(keybinds: seq<Keybind<W>>): seq<Keybind<W>> {
    if keybinds == [] then []
    else MapSet(MapValues(keybinds[..|keybinds| - 1]), keybinds[|keybinds| - 1])
  }

  /** The `keybindsDisplayAtom` string: one `name: key` entry per map value,
      joined by `" | "`. */
  function Display<W>(keybinds: seq<Keybind<W>>): string {
    Join(DisplayEntries(MapValues(keybinds)), " | ")
  }

  lemma KeyIndexAppend<W>(keybinds: seq<Keybind<W>>, keybind: Keybind<W>, key: string)
    ensures KeyIndex(keybinds, key) >= 0 ==> KeyIndex(keybinds + [keybind], key) == KeyIndex(keybinds, key)
    ensures KeyIndex(keybinds, key) < 0 && keybind.Key() == key ==>
              KeyIndex(keybinds + [keybind], key) == |keybinds|
    ensures KeyIndex(keybinds, key) < 0 && keybind.Key() != key ==> KeyIndex(keybinds + [keybind], key) == -1
  {
    var extended := keybinds + [keybind];
    var i := KeyIndex(keybinds, key);
    var e := KeyIndex(extended, key);
    if i >= 0 {
      assert extended[i] == keybinds[i];
    } else if keybind.Key() == key {
      assert extended[|keybinds|] == keybind;
    } else {
      assert forall j :: 0 <= j < |extended| ==> extended[j].Key() != key by {
        forall j | 0 <= j < |extended| ensures extended[j].Key() != key {
          if j < |keybinds| { assert extended[j] == keybinds[j]; }
        }
      }
    }
  }

  lemma LastKeyIndexAppend<W>(keybinds: seq<Keybind<W>>, keybind: Keybind<W>, key: string)
    ensures keybind.Key() != key ==> LastKeyIndex(keybinds + [keybind], key) == LastKeyIndex(keybinds, key)
    ensures keybind.Key() == key ==> LastKeyIndex(keybinds + [keybind], key) == |keybinds|
  {
    assert (keybinds + [keybind])[..|keybinds|] == keybinds;
  }

  predicate DistinctKeys<W>(values: seq<Keybind<W>>) {
    forall a, b :: 0 <= a < b < |values| ==> values[a].Key() != values[b].Key()
  }

  predicate KeysFrom<W>(values: seq<Keybind<W>>, keybinds: seq<Keybind<W>>) {
    forall j :: 0 <= j < |values| ==> KeyIndex(keybinds, values[j].Key()) >= 0
  }

  ghost predicate LastOfEachKey<W>(values: seq<Keybind<W>>, keybinds: seq<Keybind<W>>) {
    forall j :: 0 <= j < |values| ==>
      0 <= LastKeyIndex(keybinds, values[j].Key())
      && values[j] == keybinds[LastKeyIndex(keybinds, values[j].Key())]
  }

  predicate InFirstAppearanceOrder<W>(values: seq<Keybind<W>>, keybinds: seq<Keybind<W>>) {
    forall a, b :: 0 <= a < b < |values| ==>
      KeyIndex(keybinds, values[a].Key()) < KeyIndex(keybinds, values[b].Key())
  }

  /** The map holds each key at most once... */
  lemma {:induction false} MapValuesDistinct<W>(keybinds: seq<Keybind<W>>)
    ensures DistinctKeys(MapValues(keybinds))
  {
    if keybinds != [] {
      var init := keybinds[..|keybinds| - 1];
      var keybind := keybinds[|keybinds| - 1];
      MapValuesDistinct(init);
      var values := MapValues(init);
      var updated := MapValues(keybinds);
      assert updated == MapSet(values, keybind);
      var i := KeyIndex(values, keybind.Key());
      forall a, b | 0 <= a < b < |updated| ensures updated[a].Key() != updated[b].Key() {
        if i >= 0 {
          assert values[a].Key() != values[b].Key();
          assert updated[a].Key() == values[a].Key();
          assert updated[b].Key() == values[b].Key();
        } else if b < |values| {
          assert updated[a] == values[a] && updated[b] == values[b];
        } else {
          assert updated[a] == values[a];
        }
      }
    }
  }

  /** ...every key of the list... */
  lemma {:induction false} MapValuesCoverList<W>(keybinds: seq<Keybind<W>>)
    ensures forall i :: 0 <= i < |keybinds| ==> KeyIndex(MapValues(keybinds), keybinds[i].Key()) >= 0
  {
    if keybinds != [] {
      var init := keybinds[..|keybinds| - 1];
      var keybind := keybinds[|keybinds| - 1];
      MapValuesCoverList(init);
      var values := MapValues(init);
      var i := KeyIndex(values, keybind.Key());
      var updated := MapValues(keybinds);
      assert updated == MapSet(values, keybind);
      forall k | 0 <= k < |keybinds| ensures KeyIndex(updated, keybinds[k].Key()) >= 0 {
        var j := if k < |init| then KeyIndex(values, init[k].Key()) else (if i < 0 then |values| else i);
        assert updated[j].Key() == keybinds[k].Key();
      }
    }
  }

  /** ...and no other key. */
  lemma {:induction false} MapValuesFromList<W>(keybinds: seq<Keybind<W>>)
    ensures KeysFrom(MapValues(keybinds), keybinds)
  {
    if keybinds != [] {
      var init := keybinds[..|keybinds| - 1];
      var keybind := keybinds[|keybinds| - 1];
      assert keybinds == init + [keybind];
      MapValuesFromList(init);
      var values := MapValues(init);
      var i := KeyIndex(values, keybind.Key());
      var updated := MapValues(keybinds);
      assert updated == MapSet(values, keybind);
      forall j | 0 <= j < |updated| ensures KeyIndex(keybinds, updated[j].Key()) >= 0 {
        if j < |values| && j != i {
          assert updated[j] == values[j];
          KeyIndexAppend(init, keybind, values[j].Key());
        } else {
          assert updated[j].Key() == keybind.Key();
          KeyIndexAppend(init, keybind, keybind.Key());
        }
      }
    }
  }

  /** Each map value is the last binding registered with its key. */
  lemma {:induction false} MapValuesLast<W>(keybinds: seq<Keybind<W>>)
    ensures LastOfEachKey(MapValues(keybinds), keybinds)
  {
    if keybinds != [] {
      var init := keybinds[..|keybinds| - 1];
      var keybind := keybinds[|keybinds| - 1];
      assert keybinds == init + [keybind];
      MapValuesLast(init);
      MapValuesDistinct(init);
      var values := MapValues(init);
      var i := KeyIndex(values, keybind.Key());
      var updated := MapValues(keybinds);
      assert updated == MapSet(values, keybind);
      forall j | 0 <= j < |updated|
        ensures 0 <= LastKeyIndex(keybinds, updated[j].Key())
                && updated[j] == keybinds[LastKeyIndex(keybinds, updated[j].Key())]
      {
        LastKeyIndexAppend(init, keybind, updated[j].Key());
        if j < |values| && j != i {
          assert updated[j] == values[j];
          assert values[j].Key() != keybind.Key();
          assert keybinds[LastKeyIndex(init, values[j].Key())] == init[LastKeyIndex(init, values[j].Key())];
        }
      }
    }
  }

  /** The map's order is the order in which keys first appear in the list. */
  lemma {:induction false} MapValuesOrder<W>(keybinds: seq<Keybind<W>>)
    ensures InFirstAppearanceOrder(MapValues(keybinds), keybinds)
  {
    if keybinds != [] {
      var init := keybinds[..|keybinds| - 1];
      var keybind := keybinds[|keybinds| - 1];
      assert keybinds == init + [keybind];
      MapValuesOrder(init);
      MapValuesCoverList(init);
      MapValuesFromList(init);
      MapSetOrder(MapValues(init), init, keybind);
    }
  }

  /** Setting one more binding keeps the map in first-appearance order. */
  lemma MapSetOrder<W>(values: seq<Keybind<W>>, init: seq<Keybind<W>>, keybind: Keybind<W>)
    requires InFirstAppearanceOrder(values, init) && KeysFrom(values, init)
    requires forall k :: 0 <= k < |init| ==> KeyIndex(values, init[k].Key()) >= 0
    ensures InFirstAppearanceOrder(MapSet(values, keybind), init + [keybind])
  {
    var keybinds := init + [keybind];
    var key := keybind.Key();
    var i := KeyIndex(values, key);
    var updated := MapSet(values, keybind);
    forall j | 0 <= j < |values|
      ensures updated[j].Key() == values[j].Key()
      ensures KeyIndex(keybinds, values[j].Key()) == KeyIndex(init, values[j].Key())
    {
      KeyIndexAppend(init, keybind, values[j].Key());
    }
    if i < 0 {
      KeyIndexAppend(init, keybind, key);
      assert KeyIndex(keybinds, updated[|values|].Key()) == |init|;
    }
  }
}
