/** The optimistic side of moving an issue to another status
    (`onMutate` and `onError` of `useTransitionIssueMutation` in
    src/api/transition-issue.mutation.ts): the cached issue gets the new
    status at once, the highlighted issue follows it to its new column, and
    the board scrolls towards it (by a rule that misses columns from the
    sixth on; the corrected rule is `ScrollTo`). */
module TransitionIssue {
  import opened JsString
  import opened Issues

  datatype Variables = Variables(issueId: string, transitionId: string, newStatusId: string)

  /** The issue with its `status` field replaced by `{id: newStatusId}`;
      the old status object, its name included, is dropped. */
  function WithStatus(issue: Issue, newStatusId: string): (r: Issue)
    ensures r.id == issue.id && r.key == issue.key
    ensures r.fields.Keys == issue.fields.Keys + {"status"}
    ensures r.fields["status"] == JObj(map["id" := JStr(newStatusId)])
    ensures forall k :: k in issue.fields && k != "status" ==> r.fields[k] == issue.fields[k]
  {
    issue.(fields := issue.fields["status" := JObj(map["id" := JStr(newStatusId)])])
  }

  /** The list written to the cache by `onMutate`. */
  function Transitioned(issues: seq<Issue>, v: Variables): seq<Issue> {
    MapMatching(issues, v.issueId, (issue: Issue) => WithStatus(issue, v.newStatusId))
  }

  /** Only the issues with the transitioned id change, and only in their
      status; ids, keys, order and length are kept. */
  lemma TransitionedChangesOnlyStatus(issues: seq<Issue>, v: Variables)
    ensures |Transitioned(issues, v)| == |issues|
    ensures forall i :: 0 <= i < |issues| ==>
              Transitioned(issues, v)[i].id == issues[i].id && Transitioned(issues, v)[i].key == issues[i].key
    ensures forall i :: 0 <= i < |issues| && issues[i].id != v.issueId ==> Transitioned(issues, v)[i] == issues[i]
    ensures forall i :: 0 <= i < |issues| && issues[i].id == v.issueId ==>
              Transitioned(issues, v)[i].fields["status"] == JObj(map["id" := JStr(v.newStatusId)])
              && forall k :: k in issues[i].fields && k != "status" ==>
                   Transitioned(issues, v)[i].fields[k] == issues[i].fields[k]
  {
  }

  /** Transitioning twice leaves only the second status. */
  lemma TransitionTwice(issues: seq<Issue>, v: Variables, w: Variables)
    requires w.issueId == v.issueId
    ensures Transitioned(Transitioned(issues, v), w) == Transitioned(issues, w)
  {
    var once := Transitioned(issues, v);
    forall i | 0 <= i < |issues|
      ensures Transitioned(once, w)[i] == Transitioned(issues, w)[i]
    {
      if issues[i].id == v.issueId {
        assert issues[i].fields["status" := JObj(map["id" := JStr(v.newStatusId)])]["status" := JObj(map["id" := JStr(w.newStatusId)])]
               == issues[i].fields["status" := JObj(map["id" := JStr(w.newStatusId)])];
      }
    }
  }

  /** The scroll offset of the board, in terminal cells. */
  datatype ScrollOffset = ScrollOffset(top: int, left: int)

  const IssueHeight := 7
  const IssueWidth := 36
  const ScreenColumns := 5

  /** The card at (`columnIndex`, `issueIndex`) starts inside the window of
      `ScreenColumns` rows and columns of cards that `offset` shows. */
  predicate OnScreen(offset: ScrollOffset, issueIndex: int, columnIndex: int) {
    var newTop := issueIndex * IssueHeight;
    var newLeft := columnIndex * IssueWidth;
    offset.top <= newTop < offset.top + ScreenColumns * IssueHeight
    && offset.left <= newLeft < offset.left + ScreenColumns * IssueWidth
  }

  /** The offset update of src/api/transition-issue.mutation.ts as written:
      a card off screen moves to the top, and horizontally the window is
      shifted so that it ends where the card starts. */
  function ScrollToAsWritten(prev: ScrollOffset, issueIndex: nat, columnIndex: nat): (r: ScrollOffset)
    ensures OnScreen(prev, issueIndex, columnIndex) ==> r == prev
    ensures !OnScreen(prev, issueIndex, columnIndex) ==> r.top == issueIndex * IssueHeight && r.left >= 0
    ensures !OnScreen(prev, issueIndex, columnIndex) ==>
              r.left == if columnIndex > ScreenColumns then (columnIndex - ScreenColumns) * IssueWidth else 0
  {
    var newTop := issueIndex * IssueHeight;
    var newLeft := columnIndex * IssueWidth;
    if !OnScreen(prev, issueIndex, columnIndex) then
      ScrollOffset(newTop, if newLeft > ScreenColumns * IssueWidth then newLeft - ScreenColumns * IssueWidth else 0)
    else prev
  }

  /** From the sixth column on, the offset written for a card that was off
      screen still leaves it off screen by the rule's own test. */
  lemma AsWrittenMissesRightColumns(prev: ScrollOffset, issueIndex: nat, columnIndex: nat)
    requires columnIndex >= ScreenColumns && !OnScreen(prev, issueIndex, columnIndex)
    ensures !OnScreen(ScrollToAsWritten(prev, issueIndex, columnIndex), issueIndex, columnIndex)
  {
  }

  /** The concrete case: moving the highlighted issue to the sixth column
      (index 5) from the top-left view gives an offset that does not show
      it. */
  lemma AsWrittenSixthColumn()
    ensures ScrollToAsWritten(ScrollOffset(0, 200), 0, 5) == ScrollOffset(0, 0)
    ensures !OnScreen(ScrollOffset(0, 0), 0, 5)
  {
  }

  /** The update as evidently intended: a card off screen becomes the top
      row and, when it lies beyond the first screen width, the right-most
      column of the window. */
  function ScrollTo(prev: ScrollOffset, issueIndex: nat, columnIndex: nat): (r: ScrollOffset)
    ensures OnScreen(prev, issueIndex, columnIndex) ==> r == prev
    ensures !OnScreen(prev, issueIndex, columnIndex) ==> r.top == issueIndex * IssueHeight && r.left >= 0
    ensures !OnScreen(prev, issueIndex, columnIndex) ==>
              r.left == if columnIndex >= ScreenColumns then (columnIndex - ScreenColumns + 1) * IssueWidth else 0
  {
    var newTop := issueIndex * IssueHeight;
    var newLeft := columnIndex * IssueWidth;
    if !OnScreen(prev, issueIndex, columnIndex) then
      ScrollOffset(newTop, if newLeft >= ScreenColumns * IssueWidth then newLeft - (ScreenColumns - 1) * IssueWidth else 0)
    else prev
  }

  /** After the corrected update the card is always on screen, and the
      update then changes nothing more. */
  lemma ScrollToShows(prev: ScrollOffset, issueIndex: nat, columnIndex: nat)
    ensures OnScreen(ScrollTo(prev, issueIndex, columnIndex), issueIndex, columnIndex)
    ensures var once := ScrollTo(prev, issueIndex, columnIndex);
            ScrollTo(once, issueIndex, columnIndex) == once
  {
  }

  /** Both rules agree on the first `ScreenColumns` columns. */
  lemma ScrollRulesAgreeOnFirstScreen(prev: ScrollOffset, issueIndex: nat, columnIndex: nat)
    requires columnIndex < ScreenColumns
    ensures ScrollToAsWritten(prev, issueIndex, columnIndex) == ScrollTo(prev, issueIndex, columnIndex)
  {
  }

  /** The `highlightedIssueAtom` value. */
  datatype Highlight = Highlight(column: int, index: int, id: Option<string>, key: Option<string>,
                                 summary: Option<string>, issueType: Option<string>)

  /** The `forEach` over the grouped columns, up to column `n`: every
      column holding the issue sets the highlight to its first position
      there and scrolls to it by the rule as written. The object stored has
      no key, summary or issue type. */
  function Locate(columns: seq<seq<Issue>>, issueId: string, h: Highlight, s: ScrollOffset, n: nat)
    : (Highlight, ScrollOffset)
    requires n <= |columns|
  {
    if n == 0 then (h, s)
    else
      var previous := Locate(columns, issueId, h, s, n - 1);
      var issueIndex := FindIndex(columns[n - 1], issueId);
      if issueIndex >= 0 then
        (Highlight(n - 1, issueIndex, Some(columns[n - 1][issueIndex].id), None, None, None),
         ScrollToAsWritten(previous.1, issueIndex, n - 1))
      else previous
  }

  /** An issue in no column changes neither the highlight nor the offset. */
  lemma {:induction false} LocateAbsent(columns: seq<seq<Issue>>, issueId: string, h: Highlight, s: ScrollOffset, n: nat)
    requires n <= |columns|
    requires forall c :: 0 <= c < n ==> FindIndex(columns[c], issueId) < 0
    ensures Locate(columns, issueId, h, s, n) == (h, s)
  {
    if n > 0 {
      LocateAbsent(columns, issueId, h, s, n - 1);
    }
  }

  /** An issue found in exactly one column `c` is highlighted at its
      position there. It ends up on screen exactly when it is in one of
      the first `ScreenColumns` columns or was on screen already: from the
      sixth column on, the rule as written scrolls it just out of view. */
  lemma {:induction false} LocateFound(columns: seq<seq<Issue>>, issueId: string, h: Highlight, s: ScrollOffset,
                                       n: nat, c: nat)
    requires c < n <= |columns|
    requires FindIndex(columns[c], issueId) >= 0
    requires forall d :: 0 <= d < n && d != c ==> FindIndex(columns[d], issueId) < 0
    ensures var i := FindIndex(columns[c], issueId);
            Locate(columns, issueId, h, s, n)
            == (Highlight(c, i, Some(issueId), None, None, None), ScrollToAsWritten(s, i, c))
    ensures var i := FindIndex(columns[c], issueId);
            OnScreen(Locate(columns, issueId, h, s, n).1, i, c) <==> c < ScreenColumns || OnScreen(s, i, c)
  {
    var i := FindIndex(columns[c], issueId);
    if n - 1 == c {
      LocateAbsent(columns, issueId, h, s, c);
    } else {
      LocateFound(columns, issueId, h, s, n - 1, c);
    }
    if c < ScreenColumns {
      ScrollRulesAgreeOnFirstScreen(s, i, c);
      ScrollToShows(s, i, c);
    } else if !OnScreen(s, i, c) {
      AsWrittenMissesRightColumns(s, i, c);
    }
  }

  /** The highlighted issue and the board's scroll offset. */
  class BoardStore {
    var highlighted: Highlight
    var scrollOffset: ScrollOffset

    constructor ()
      ensures highlighted == Highlight(0, 0, None, None, None, None)
      ensures scrollOffset == ScrollOffset(0, 0)
    {
      highlighted := Highlight(0, 0, None, None, None, None);
      scrollOffset := ScrollOffset(0, 0);
    }

    /** The `forEach` loop over the grouped columns. */
    method FollowIssue(columns: seq<seq<Issue>>, issueId: string)
      modifies this
      ensures (highlighted, scrollOffset)
              == Locate(columns, issueId, old(highlighted), old(scrollOffset), |columns|)
    {
      ghost var h0, s0 := highlighted, scrollOffset;
      var columnIndex := 0;
      while columnIndex < |columns|
        invariant 0 <= columnIndex <= |columns|
        invariant (highlighted, scrollOffset) == Locate(columns, issueId, h0, s0, columnIndex)
      {
        var issues := columns[columnIndex];
        var issueIndex := FindIndex(issues, issueId);
        if issueIndex >= 0 {
          highlighted := Highlight(columnIndex, issueIndex, Some(issues[issueIndex].id), None, None, None);
          scrollOffset := ScrollToAsWritten(scrollOffset, issueIndex, columnIndex);
        }
        columnIndex := columnIndex + 1;
      }
    }
  }

  /** `onMutate`: rewrite the cached list, follow the issue when a board is
      cached (`group` stands for grouping a list of issues into the board's
      columns), and hand back the list as it was for `onError`. */
  method OnMutate(cache: QueryCache, store: BoardStore, v: Variables,
                  board: Option<seq<Issue> -> seq<seq<Issue>>>)
    returns (previousIssues: seq<Issue>)
    modifies cache, store
    ensures previousIssues == old(cache.issues)
    ensures cache.issues == Transitioned(old(cache.issues), v)
    ensures board.None? ==> store.highlighted == old(store.highlighted) && store.scrollOffset == old(store.scrollOffset)
    ensures board.Some? ==>
              (store.highlighted, store.scrollOffset)
              == Locate(board.value(cache.issues), v.issueId, old(store.highlighted), old(store.scrollOffset),
                        |board.value(cache.issues)|)
  {
    var issues := cache.issues;
    var newIssues := Transitioned(issues, v);
    cache.issues := newIssues;
    if board.Some? {
      store.FollowIssue(board.value(newIssues), v.issueId);
    }
    previousIssues := issues;
  }

  /** A failed transition puts the list back as it was before `onMutate`. */
  method TransitionFails(cache: QueryCache, store: BoardStore, v: Variables,
                         board: Option<seq<Issue> -> seq<seq<Issue>>>)
    modifies cache, store
    ensures cache.issues == old(cache.issues)
  {
    var previousIssues := OnMutate(cache, store, v, board);
    cache.Restore(Some(previousIssues));
  }
}
