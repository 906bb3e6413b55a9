/** The view that currently owns the key bindings, and the one before it
    (`activeViewAtom`, `prevViewStoreAtom` and `previousViewAtom` in
    src/atoms/active-view.atom.ts). Views are named by strings; `None` is
    JavaScript's `null`. Reading `previousViewAtom` yields the active view:
    a view that reads it when it appears, before making itself active,
    obtains the view to return to. */
module ActiveViewAtom {
  import opened JsString

  datatype Views = Views(active: Option<string>, previousStore: Option<string>)

  const Initial: Views := Views(None, None)

  /** The read of `previousViewAtom`. */
  function ReadPrevious(views: Views): (r: Option<string>)
    ensures r == views.active
  {
    views.active
  }

  /** The write of `previousViewAtom`: `newView` becomes active and the
      view it replaces is recorded. */
  function Write(views: Views, newView: Option<string>): (r: Views)
    ensures r.active == newView && r.previousStore == views.active
  {
    Views(newView, views.active)
  }

  /** After writing `v1` and then `v2`, `v2` is active and `v1` recorded. */
  lemma WriteTwice(views: Views, v1: Option<string>, v2: Option<string>)
    ensures Write(Write(views, v1), v2) == Views(v2, v1)
  {
  }

  /** A view that reads the atom on appearing and writes that value back
      on leaving restores the view that was active before it. */
  lemma EnterThenLeaveRestores(views: Views, view: Option<string>)
    ensures Write(Write(views, view), ReadPrevious(views)).active == views.active
  {
  }

  /** The two store cells. */
  class ActiveViewStore {
    var active: Option<string>
    var previousStore: Option<string>

    function Value(): Views
      reads this
    {
      Views(active, previousStore)
    }

    constructor ()
      ensures Value() == Initial
    {
      active := None;
      previousStore := None;
    }

    function PreviousView(): (r: Option<string>)
      reads this
      ensures r == ReadPrevious(Value())
    {
      active
    }

    method SetActiveView(newView: Option<string>)
      modifies this
      ensures Value() == Write(old(Value()), newView)
    {
      var prev := active;
      active := newView;
      previousStore := prev;
    }
  }
}
