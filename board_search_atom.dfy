/** The board's search box (`boardSearchAtom`, `boardSearchStateAtom` and
    the reset, activate and deactivate write-atoms in
    src/atoms/board-search.atom.ts): the text typed so far, and whether the
    box is being typed in (`active`), shows its result (`result`) or is off
    (`disabled`). */
module BoardSearchAtom {

  datatype SearchState = Active | Result | Disabled

  datatype BoardSearch = BoardSearch(search: string, state: SearchState)

  const Initial: BoardSearch := BoardSearch("", Disabled)

  /** `resetBoardSearchAtom`: clears the text and switches the box off. */
  function Reset(s: BoardSearch): (r: BoardSearch)
    ensures r == Initial
  {
    s.(search := "", state := Disabled)
  }

  /** `activateBoardSearchAtom`: the box takes input; the text is kept. */
  function Activate(s: BoardSearch): (r: BoardSearch)
    ensures r.state == Active && r.search == s.search
  {
    s.(state := Active)
  }

  /** `deactivateBoardSearchAtom`: the box shows its result; the text is
      kept. */
  function Deactivate(s: BoardSearch): (r: BoardSearch)
    ensures r.state == Result && r.search == s.search
  {
    s.(state := Result)
  }

  /** Each action is idempotent, and only a reset changes the text. */
  lemma ActionsIdempotent(s: BoardSearch)
    ensures Reset(Reset(s)) == Reset(s)
    ensures Activate(Activate(s)) == Activate(s)
    ensures Deactivate(Deactivate(s)) == Deactivate(s)
    ensures Activate(Deactivate(s)) == Activate(s) && Deactivate(Activate(s)) == Deactivate(s)
  {
  }

  /** The two store cells. */
  class BoardSearchStore {
    var search: string
    var state: SearchState

    function Value(): BoardSearch
      reads this
    {
      BoardSearch(search, state)
    }

    constructor ()
      ensures Value() == Initial
    {
      search := "";
      state := Disabled;
    }

    method ResetBoardSearch()
      modifies this
      ensures Value() == Reset(old(Value()))
    {
      search := "";
      state := Disabled;
    }

    method ActivateBoardSearch()
      modifies this
      ensures Value() == Activate(old(Value()))
    {
      state := Active;
    }

    method DeactivateBoardSearch()
      modifies this
      ensures Value() == Deactivate(old(Value()))
    {
      state := Result;
    }
  }
}
