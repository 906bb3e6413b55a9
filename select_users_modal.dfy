/** The multi-select dialog for users (`SelectUsersModal` in
    src/modals/select-users-modal.tsx): a focus that moves with Up and
    Down, a list of selected option indices that Space toggles, and Confirm,
    which hands back the chosen users. */
module SelectUsersModal {
  import opened JsString

  datatype JiraUser = JiraUser(accountId: string, displayName: string)

  predicate Increasing(s: seq<int>) {
    forall i, j :: 0 <= i < j < |s| ==> s[i] < s[j]
  }

  predicate NoDuplicates(s: seq<int>) {
    forall i, j :: 0 <= i < j < |s| ==> s[i] != s[j]
  }

  /** A filter of a list whose kept elements rise keeps them rising. */
  lemma {:induction false} FilterIncreasing(s: seq<int>, p: int -> bool)
    requires forall i, j :: 0 <= i < j < |s| && p(s[i]) && p(s[j]) ==> s[i] < s[j]
    ensures Increasing(Filter(s, p))
  {
    if s != [] {
      FilterIncreasing(s[1..], p);
      var rest := Filter(s[1..], p);
      if p(s[0]) {
        forall k | 0 <= k < |rest| ensures s[0] < rest[k] {
          FilterMember(s[1..], p, rest[k]);
          var j :| 0 <= j < |s[1..]| && s[1..][j] == rest[k];
          assert s[j + 1] == rest[k];
        }
        assert Filter(s, p) == [s[0]] + rest;
      }
    }
  }

  /** A filter of a list without duplicates has none. */
  lemma {:induction false} FilterNoDuplicates(s: seq<int>, p: int -> bool)
    requires NoDuplicates(s)
    ensures NoDuplicates(Filter(s, p))
  {
    if s != [] {
      FilterNoDuplicates(s[1..], p);
      var rest := Filter(s[1..], p);
      if p(s[0]) {
        FilterMember(s[1..], p, s[0]);
        assert s[0] !in s[1..] by {
          forall j | 0 <= j < |s[1..]| ensures s[1..][j] != s[0] {
            assert s[1..][j] == s[j + 1];
          }
        }
        assert Filter(s, p) == [s[0]] + rest;
      }
    }
  }

  /** Each option's index when it is among the initially selected users,
      -1 otherwise. */
  function Marks(options: seq<JiraUser>, initialSelected: seq<JiraUser>): (r: seq<int>)
    ensures |r| == |options|
    ensures forall i :: 0 <= i < |r| ==> r[i] == i || r[i] == -1
  {
    seq(|options|, i requires 0 <= i < |options| => if options[i] in initialSelected then i else -1)
  }

  /** The effect that seeds the selection: `options.map(...).filter((i) => i !== -1)`. */
  function InitialSelection(options: seq<JiraUser>, initialSelected: seq<JiraUser>): seq<int> {
    Filter(Marks(options, initialSelected), (i: int) => i != -1)
  }

  /** The initial selection is the indices of the initially selected
      options, each once, in ascending order. */
  lemma InitialSelectionContents(options: seq<JiraUser>, initialSelected: seq<JiraUser>)
    ensures Increasing(InitialSelection(options, initialSelected))
    ensures forall i :: i in InitialSelection(options, initialSelected)
                        <==> 0 <= i < |options| && options[i] in initialSelected
  {
    var marks := Marks(options, initialSelected);
    var p := (i: int) => i != -1;
    FilterIncreasing(marks, p);
    forall i ensures i in Filter(marks, p) <==> 0 <= i < |options| && options[i] in initialSelected {
      FilterMember(marks, p, i);
      if 0 <= i < |options| && options[i] in initialSelected {
        assert marks[i] == i;
      }
    }
  }

  /** Space on index `focused`: remove it when selected, append it
      otherwise. */
  function Toggled(selected: seq<int>, focused: int): seq<int> {
    if focused in selected then Filter(selected, (s: int) => s != focused) else selected + [focused]
  }

  /** Toggling flips exactly the focused index and keeps the selection free
      of duplicates. */
  lemma ToggledContents(selected: seq<int>, focused: int)
    ensures forall x :: x in Toggled(selected, focused) <==> (if x == focused then focused !in selected else x in selected)
    ensures NoDuplicates(selected) ==> NoDuplicates(Toggled(selected, focused))
  {
    var p := (s: int) => s != focused;
    forall x ensures x in Toggled(selected, focused) <==> (if x == focused then focused !in selected else x in selected) {
      FilterMember(selected, p, x);
    }
    if NoDuplicates(selected) {
      FilterNoDuplicates(selected, p);
    }
  }

  /** Toggling an index twice gives back the same selected indices, and the
      very same list when the index was not selected. */
  lemma ToggledTwice(selected: seq<int>, focused: int)
    ensures forall x :: x in Toggled(Toggled(selected, focused), focused) <==> x in selected
    ensures focused !in selected ==> Toggled(Toggled(selected, focused), focused) == selected
  {
    ToggledContents(selected, focused);
    ToggledContents(Toggled(selected, focused), focused);
    if focused !in selected {
      var p := (s: int) => s != focused;
      FilterAppend(selected, [focused], p);
      FilterAll(selected, p);
      assert Filter([focused], p) == [];
    }
  }

  /** `options[index]`, undefined when the index is out of range. */
  function At(options: seq<JiraUser>, index: int): Option<JiraUser> {
    if 0 <= index < |options| then Some(options[index]) else None
  }

  /** The value Confirm passes to `onSelect`: the users at the selected
      indices in selection order, or every option when nothing is
      selected. */
  function Chosen(options: seq<JiraUser>, selected: seq<int>): (r: seq<Option<JiraUser>>)
    ensures |selected| > 0 ==> |r| == |selected| && forall k :: 0 <= k < |r| ==> r[k] == At(options, selected[k])
    ensures |selected| == 0 ==> |r| == |options| && forall k :: 0 <= k < |r| ==> r[k] == Some(options[k])
  {
    if |selected| > 0 then seq(|selected|, k requires 0 <= k < |selected| => At(options, selected[k]))
    else seq(|options|, k requires 0 <= k < |options| => Some(options[k]))
  }

  /** The width of the dialog: the longest display name or the title, plus
      six. */
  function MaxLength(options: seq<JiraUser>, title: string): (r: int)
    ensures r >= |title| + 6
    ensures forall i :: 0 <= i < |options| ==> r >= |options[i].displayName| + 6
    ensures r == |title| + 6 || exists i :: 0 <= i < |options| && r == |options[i].displayName| + 6
  {
    if options == [] then |title| + 6
    else
      var rest := MaxLength(options[1..], title);
      var here := |options[0].displayName| + 6;
      if here >= rest then here
      else
        assert forall i :: 1 <= i < |options| ==> options[i] == options[1..][i - 1];
        rest
  }

  /** The dialog's state: the options, the focused index and the selected
      indices. They live in module-level atoms, so they outlast one opening
      of the dialog and are shared by every opening. */
  class SelectUsers {
    var options: seq<JiraUser>
    var focused: int
    var selected: seq<int>

    /** Every index refers to an option and none is selected twice. */
    predicate Valid()
      reads this
    {
      0 <= focused < |options|
      && NoDuplicates(selected)
      && forall k :: 0 <= k < |selected| ==> 0 <= selected[k] < |options|
    }

    /** The atoms' initial values: focus on index 0, no options, nothing
        selected. */
    constructor ()
      ensures options == [] && focused == 0 && selected == []
    {
      options := [];
      focused := 0;
      selected := [];
    }

    /** Opening the dialog: the effect stores the options and seeds the
        selection from `initialSelected`. The focus is not reset, so it is
        wherever a previous opening left it; the state is valid when that
        index is within the new options. */
    method Open(options: seq<JiraUser>, initialSelected: seq<JiraUser>)
      modifies this
      ensures this.options == options && focused == old(focused)
      ensures selected == InitialSelection(options, initialSelected)
      ensures 0 <= focused < |options| ==> Valid()
    {
      var initial := InitialSelection(options, initialSelected);
      InitialSelectionContents(options, initialSelected);
      assert forall k :: 0 <= k < |initial| ==> initial[k] in initial;
      selected := initial;
      this.options := options;
    }

    /** Down: one option further, not past the last. */
    method Down()
      modifies this
      ensures focused == (if old(focused) + 1 <= |options| - 1 then old(focused) + 1 else |options| - 1)
      ensures options == old(options) && selected == old(selected)
      ensures old(Valid()) ==> Valid()
    {
      if focused + 1 <= |options| - 1 {
        focused := focused + 1;
      } else {
        focused := |options| - 1;
      }
    }

    /** Up: one option back, not before the first. */
    method Up()
      modifies this
      ensures focused == (if old(focused) - 1 >= 0 then old(focused) - 1 else 0)
      ensures options == old(options) && selected == old(selected)
      ensures old(Valid()) ==> Valid()
    {
      if focused - 1 >= 0 {
        focused := focused - 1;
      } else {
        focused := 0;
      }
    }

    /** Space: toggle the focused option. */
    method Toggle()
      modifies this
      ensures selected == Toggled(old(selected), focused)
      ensures options == old(options) && focused == old(focused)
      ensures old(Valid()) ==> Valid()
    {
      ToggledContents(selected, focused);
      var focusedValue := focused;
      if focusedValue in selected {
        selected := Filter(selected, (s: int) => s != focusedValue);
      } else {
        selected := selected + [focusedValue];
      }
      forall k | 0 <= k < |selected| ensures selected[k] in old(selected) || selected[k] == focused {
        assert selected[k] in selected;
      }
    }

    /** Confirm: the chosen users, every one of them defined while the
        state is valid. */
    method Confirm() returns (chosen: seq<Option<JiraUser>>)
      ensures chosen == Chosen(options, selected)
      ensures Valid() ==> forall k :: 0 <= k < |chosen| ==> chosen[k].Some?
    {
      chosen := Chosen(options, selected);
    }
  }
}
