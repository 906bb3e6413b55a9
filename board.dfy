/** The board view's selection rules (src/board.tsx): issues filtered by
    assignee and grouped into columns by status, a cursor moved with
    j/k/h/l (or the arrow keys) and the scroll offsets that follow it. The
    terminal's width and height are parameters of each key press. An issue
    is reduced to what these rules read: its id, its status name and its
    assignee's display name. */
module Board {
  import opened JsString

  datatype Card = Card(id: string, statusName: string, assignee: string)

  function Max(a: int, b: int): int {
    if a >= b then a else b
  }

  function Min(a: int, b: int): int {
    if a <= b then a else b
  }

  /** The column a status belongs to: its lower-cased name, except that
      `ready for sprint` goes to `to do`, `ready to merge` to
      `merge to epic` and `released` to `done`. */
  function ColumnKey(statusName: string): (r: string)
    ensures ToLower(statusName) == "ready for sprint" ==> r == "to do"
    ensures ToLower(statusName) == "ready to merge" ==> r == "merge to epic"
    ensures ToLower(statusName) == "released" ==> r == "done"
    ensures ToLower(statusName) !in {"ready for sprint", "ready to merge", "released"} ==> r == ToLower(statusName)
    ensures forall i :: 0 <= i < |r| ==> !('A' <= r[i] <= 'Z')
  {
    var name := ToLower(statusName);
    if name == "ready for sprint" then "to do"
    else if name == "ready to merge" then "merge to epic"
    else if name == "released" then "done"
    else
      ToLowerTwice(statusName);
      ToLower(name)
  }

  /** Statuses that differ only in the case of their letters go to the same
      column. */
  lemma ColumnKeyIgnoresCase(a: string, b: string)
    requires |a| == |b| && forall i :: 0 <= i < |a| ==> LowerChar(a[i]) == LowerChar(b[i])
    ensures ColumnKey(a) == ColumnKey(b)
  {
    assert ToLower(a) == ToLower(b);
  }

  /** The cards of one column, in their original order. */
  function InColumn(cards: seq<Card>, key: string): (r: seq<Card>)
    ensures forall i :: 0 <= i < |r| ==> ColumnKey(r[i].statusName) == key
  {
    Filter(cards, (card: Card) => ColumnKey(card.statusName) == key)
  }

  /** `Object.groupBy(issues, ...)`: each card is appended to the group of
      its column key, the group being created on first use. */
  function GroupBy(cards: seq<Card>): map<string, seq<Card>> {
    if cards == [] then map[]
    else
      var groups := GroupBy(cards[..|cards| - 1]);
      var card := cards[|cards| - 1];
      var key := ColumnKey(card.statusName);
      groups[key := (if key in groups then groups[key] else []) + [card]]
  }

  /** Grouping partitions the cards: each group holds exactly the cards of
      its column in their original order, and a key without cards has no
      group. */
  lemma {:induction false} GroupByPartitions(cards: seq<Card>, key: string)
    ensures key in GroupBy(cards) ==> GroupBy(cards)[key] == InColumn(cards, key) && |GroupBy(cards)[key]| > 0
    ensures key !in GroupBy(cards) ==> InColumn(cards, key) == []
  {
    if cards != [] {
      var init := cards[..|cards| - 1];
      var card := cards[|cards| - 1];
      assert cards == init + [card];
      GroupByPartitions(init, key);
      InColumnAppend(init, card, key);
    }
  }

  /** One more card joins its own column's cards only. */
  lemma InColumnAppend(init: seq<Card>, card: Card, key: string)
    ensures InColumn(init + [card], key)
            == InColumn(init, key) + (if ColumnKey(card.statusName) == key then [card] else [])
  {
    var p := (c: Card) => ColumnKey(c.statusName) == key;
    FilterAppend(init, [card], p);
    assert Filter([card], p) == (if p(card) then [card] else []) + Filter([], p);
  }

  /** `getColumn(groupedIssues, columnName)`: the group of the lower-cased
      name, or no cards. */
  function GetColumn(grouped: map<string, seq<Card>>, columnName: string): seq<Card> {
    var key := ToLower(columnName);
    if key in grouped then grouped[key] else []
  }

  /** A column shows exactly the cards whose status maps to its lower-cased
      name. */
  lemma ColumnContents(cards: seq<Card>, columnName: string)
    ensures GetColumn(GroupBy(cards), columnName) == InColumn(cards, ToLower(columnName))
  {
    GroupByPartitions(cards, ToLower(columnName));
  }

  /** `issues.filter((issue) => filteredUsers.includes(assignee))`. */
  function FilterByAssignee(cards: seq<Card>, filteredUsers: seq<string>): (r: seq<Card>)
    ensures forall i :: 0 <= i < |r| ==> r[i].assignee in filteredUsers
  {
    Filter(cards, (card: Card) => card.assignee in filteredUsers)
  }

  /** A card is on the board exactly when its assignee is selected. */
  lemma FilterKeepsSelected(cards: seq<Card>, filteredUsers: seq<string>, card: Card)
    ensures card in FilterByAssignee(cards, filteredUsers) <==> card in cards && card.assignee in filteredUsers
  {
    FilterMember(cards, (c: Card) => c.assignee in filteredUsers, card);
  }

  /** The cursor: the selected column and issue, and the vertical (`top`)
      and horizontal (`left`) scroll offsets. */
  datatype Cursor = Cursor(columnIndex: int, issueIndex: int, top: int, left: int)

  /** `checkAndSetTop(newIndex)`: both tests compare against the offset
      before the key press; the updates then apply one after the other. */
  function CheckAndSetTop(top: int, newIndex: int, height: int): (r: int)
    requires top >= 0
    ensures r >= 0 && top - 7 <= r <= top + 7
  {
    var scrolledDown := if newIndex * 7 - top + 10 > height - 7 then top + 7 else top;
    if newIndex * 7 - top - 10 < 0 then Max(scrolledDown - 7, 0) else scrolledDown
  }

  /** `checkAndSetLeft(newIndex)`, the same rule with 36-column-wide cards. */
  function CheckAndSetLeft(left: int, newIndex: int, width: int): (r: int)
    requires left >= 0
    ensures r >= 0 && left - 36 <= r <= left + 36
  {
    var scrolledRight := if newIndex * 36 - left + 36 > width then left + 36 else left;
    if newIndex * 36 - left - 36 < 0 then Max(scrolledRight - 36, 0) else scrolledRight
  }

  /** `j`: one issue down, but not past the last issue of the column (which
      is -1 for an empty column). */
  function Down(c: Cursor, columnLength: int, height: int): Cursor
    requires c.top >= 0
  {
    var newIndex := Min(columnLength - 1, c.issueIndex + 1);
    c.(issueIndex := newIndex, top := CheckAndSetTop(c.top, newIndex, height))
  }

  /** `k`: one issue up, but not above the first. */
  function Up(c: Cursor, height: int): Cursor
    requires c.top >= 0
  {
    var newIndex := Max(0, c.issueIndex - 1);
    c.(issueIndex := newIndex, top := CheckAndSetTop(c.top, newIndex, height))
  }

  /** `h` and `l` after the new column is chosen: the issue index is kept
      where the new column allows it and otherwise clamped to its last
      issue, and the board scrolls up when the issue is above the view. */
  function ToColumn(c: Cursor, newColumn: int, newColumnLength: int, width: int): Cursor
    requires c.left >= 0
  {
    var newIssueIndex := Min(Max(newColumnLength - 1, 0), c.issueIndex);
    var top := if newIssueIndex * 7 < c.top then Max(newIssueIndex * 7 - 15, 0) else c.top;
    Cursor(newColumn, newIssueIndex, top, CheckAndSetLeft(c.left, newColumn, width))
  }

  /** `h`: one column left, not before the first. */
  function LeftColumn(c: Cursor, columnLengths: seq<nat>, width: int): Cursor
    requires c.left >= 0 && 0 <= c.columnIndex < |columnLengths|
  {
    var newColumn := Max(0, c.columnIndex - 1);
    ToColumn(c, newColumn, columnLengths[newColumn], width)
  }

  /** `l`: one column right, not past the last. */
  function RightColumn(c: Cursor, columnLengths: seq<nat>, width: int): Cursor
    requires c.left >= 0 && 0 <= c.columnIndex < |columnLengths|
  {
    var newColumn := Min(|columnLengths| - 1, c.columnIndex + 1);
    ToColumn(c, newColumn, columnLengths[newColumn], width)
  }

  /** The cursor is on the board: a column that exists, an issue index from
      -1 (an empty column reached with `j`) up to the column's last issue,
      and offsets that are not negative. */
  predicate ValidCursor(c: Cursor, columnLengths: seq<nat>) {
    0 <= c.columnIndex < |columnLengths|
    && -1 <= c.issueIndex <= Max(columnLengths[c.columnIndex] as int - 1, 0)
    && c.top >= 0 && c.left >= 0
  }

  /** Every key keeps the cursor on the board. */
  lemma MovesKeepCursorValid(c: Cursor, columnLengths: seq<nat>, width: int, height: int)
    requires ValidCursor(c, columnLengths)
    ensures ValidCursor(Down(c, columnLengths[c.columnIndex], height), columnLengths)
    ensures ValidCursor(Up(c, height), columnLengths)
    ensures ValidCursor(LeftColumn(c, columnLengths, width), columnLengths)
    ensures ValidCursor(RightColumn(c, columnLengths, width), columnLengths)
  {
  }

  /** The cursor is on a column that exists, with offsets that are not
      negative; its issue index may lie past the end of the column once the
      issues have changed under it. */
  predicate OnBoardCursor(c: Cursor, columnLengths: seq<nat>) {
    0 <= c.columnIndex < |columnLengths| && c.issueIndex >= -1 && c.top >= 0 && c.left >= 0
  }

  /** From a cursor left past the end of its column, `j` pulls it back to
      the column's last issue, `h` and `l` clamp it to the new column, and
      `k` moves it up by one, which puts it back on the column exactly when
      it was at most one issue past the end. */
  lemma StaleCursorMoves(c: Cursor, columnLengths: seq<nat>, width: int, height: int)
    requires OnBoardCursor(c, columnLengths)
    ensures var len := columnLengths[c.columnIndex] as int;
            var d := Down(c, len, height);
            ValidCursor(d, columnLengths)
            && (c.issueIndex + 1 >= len ==> d.issueIndex == len - 1)
    ensures OnBoardCursor(Up(c, height), columnLengths)
    ensures ValidCursor(Up(c, height), columnLengths)
            <==> c.issueIndex - 1 <= Max(columnLengths[c.columnIndex] as int - 1, 0)
    ensures ValidCursor(LeftColumn(c, columnLengths, width), columnLengths)
    ensures ValidCursor(RightColumn(c, columnLengths, width), columnLengths)
  {
  }

  /** `j` and `k` stay in the column and move by at most one issue;
      `h` and `l` move by at most one column. */
  lemma MovesAreSteps(c: Cursor, columnLengths: seq<nat>, width: int, height: int)
    requires ValidCursor(c, columnLengths)
    ensures var d := Down(c, columnLengths[c.columnIndex], height);
            d.columnIndex == c.columnIndex && c.issueIndex - 1 <= d.issueIndex <= c.issueIndex + 1
            && (c.issueIndex + 1 < columnLengths[c.columnIndex] ==> d.issueIndex == c.issueIndex + 1)
    ensures var u := Up(c, height);
            u.columnIndex == c.columnIndex && u.issueIndex >= 0
            && (c.issueIndex >= 1 ==> u.issueIndex == c.issueIndex - 1)
    ensures var h := LeftColumn(c, columnLengths, width);
            h.columnIndex == (if c.columnIndex == 0 then 0 else c.columnIndex - 1)
            && h.issueIndex <= c.issueIndex
    ensures var l := RightColumn(c, columnLengths, width);
            l.columnIndex == (if c.columnIndex == |columnLengths| - 1 then c.columnIndex else c.columnIndex + 1)
            && l.issueIndex <= c.issueIndex
  {
  }

  /** The board view's state. */
  class BoardView {
    const columns: seq<string>
    var grouped: map<string, seq<Card>>
    var columnIndex: int
    var issueIndex: int
    var top: int
    var left: int

    function Position(): Cursor
      reads this
    {
      Cursor(columnIndex, issueIndex, top, left)
    }

    /** The number of issues in each column. */
    function ColumnLengths(): (r: seq<nat>)
      reads `grouped
      ensures |r| == |columns|
    {
      var groups := grouped;
      seq(|columns|, i requires 0 <= i < |columns| => |GetColumn(groups, columns[i])|)
    }

    predicate Valid()
      reads this
    {
      ValidCursor(Position(), ColumnLengths())
    }

    /** The cursor is on an existing column, though perhaps past the end
        of it. */
    predicate OnBoard()
      reads this
    {
      OnBoardCursor(Position(), ColumnLengths())
    }

    /** The board over `issues`, showing only those assigned to one of
        `filteredUsers`; the cursor starts on the first issue of the first
        column with the view scrolled to the top left. */
    constructor (columns: seq<string>, issues: seq<Card>, filteredUsers: seq<string>)
      requires |columns| > 0
      ensures this.columns == columns
      ensures grouped == GroupBy(FilterByAssignee(issues, filteredUsers))
      ensures Position() == Cursor(0, 0, 0, 0) && Valid() && OnBoard()
    {
      this.columns := columns;
      grouped := GroupBy(FilterByAssignee(issues, filteredUsers));
      columnIndex := 0;
      issueIndex := 0;
      top := 0;
      left := 0;
    }

    /** A new render with other `issues` or `filteredUsers`: the issues
        are filtered and grouped again, and the cursor and the offsets, which
        are component state, stay where they were. */
    method SetIssues(issues: seq<Card>, filteredUsers: seq<string>)
      modifies this
      ensures grouped == GroupBy(FilterByAssignee(issues, filteredUsers))
      ensures Position() == old(Position())
      ensures old(OnBoard()) ==> OnBoard()
    {
      grouped := GroupBy(FilterByAssignee(issues, filteredUsers));
    }

    /** The key handler: `j`/down, `k`/up, `h`/left and `l`/right move the
        cursor; every other key, and every key while input is ignored,
        changes nothing. A cursor left past the end of its column is pulled
        back by `j`, `h` and `l`. */
    method HandleInput(input: string, held: set<string>, ignoreInput: bool, width: int, height: int)
      requires OnBoard()
      modifies this
      ensures OnBoard() && (old(Valid()) ==> Valid())
      ensures grouped == old(grouped)
      ensures var old_ := old(Position());
              var lengths := ColumnLengths();
              Position() == (if ignoreInput then old_
                           else if input == "j" || "downArrow" in held then Down(old_, lengths[old_.columnIndex], height)
                           else if input == "k" || "upArrow" in held then Up(old_, height)
                           else if input == "h" || "leftArrow" in held then LeftColumn(old_, lengths, width)
                           else if input == "l" || "rightArrow" in held then RightColumn(old_, lengths, width)
                           else old_)
    {
      StaleCursorMoves(Position(), ColumnLengths(), width, height);
      if ignoreInput {
        return;
      }
      if input == "j" || "downArrow" in held {
        var newIndex := Min(|GetColumn(grouped, columns[columnIndex])| - 1, issueIndex + 1);
        top := CheckAndSetTop(top, newIndex, height);
        issueIndex := newIndex;
      } else if input == "k" || "upArrow" in held {
        var newIndex := Max(0, issueIndex - 1);
        top := CheckAndSetTop(top, newIndex, height);
        issueIndex := newIndex;
      } else if input == "h" || "leftArrow" in held {
        var newIndex := Max(0, columnIndex - 1);
        MoveToColumn(newIndex, width);
      } else if input == "l" || "rightArrow" in held {
        var newIndex := Min(|columns| - 1, columnIndex + 1);
        MoveToColumn(newIndex, width);
      }
    }

    /** The shared second half of `h` and `l`. */
    method MoveToColumn(newIndex: int, width: int)
      requires 0 <= newIndex < |columns| && left >= 0
      modifies this
      ensures grouped == old(grouped)
      ensures Position() == ToColumn(old(Position()), newIndex, ColumnLengths()[newIndex], width)
    {
      var newIssueIndex := Min(Max(|GetColumn(grouped, columns[newIndex])| - 1, 0), issueIndex);
      left := CheckAndSetLeft(left, newIndex, width);
      if newIssueIndex * 7 < top {
        top := Max(newIssueIndex * 7 - 15, 0);
      }
      columnIndex := newIndex;
      issueIndex := newIssueIndex;
    }
  }
}
