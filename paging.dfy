/** Paging of the board row and of each board's cards, and the two scroll
    indicators of the board view: the vertical card scrollbar beside each
    board and the horizontal board gauge under the row. Ratios are computed
    here with exact integer floors. */
module Paging {
  import opened Wrappers
  import opened Arith

  /** How many column (or card slot) constraints a row of `count` items
      gets when at most `perPage` of them are shown. */
  function SlotCount(count: nat, perPage: nat): (n: nat)
    ensures n <= count && n <= perPage
    ensures n == count || n == perPage
  {
    if count > perPage then perPage else count
  }

  /** The position of the first id equal to `id` (Rust's `position`). */
  function IndexOfId(ids: seq<nat>, id: nat): (k: Option<nat>)
    ensures k.Some? ==> k.value < |ids| && ids[k.value] == id
    ensures k.Some? ==> forall j :: 0 <= j < k.value ==> ids[j] != id
    ensures k.None? <==> id !in ids
  {
    if ids == [] then None
    else if ids[0] == id then Some(0)
    else match IndexOfId(ids[1..], id)
      case Some(j) => Some(j + 1)
      case None => None
  }

  /** The index a selection falls back to: a missing selection is looked up
      as the id 0, and an id that is not found counts as the first item. */
  function SelectedIndex(ids: seq<nat>, current: Option<nat>): (i: nat)
    ensures ids != [] ==> i < |ids|
  {
    IndexOfId(ids, current.GetOr(0)).GetOr(0)
  }

  /** Rows of the scrollbar column between its borders. */
  function TrackLength(height: nat): nat
  {
    if height >= 2 then height - 2 else 0
  }

  /** Number of scrollbar blocks drawn beside a board:
      floor(track * (index + 1) / number of cards); none for a board without
      cards. `cardIds` is the board's whole card list, not only the cards
      of the current page, so the bar shows the position within the board. */
  function ScrollBlocks(cardIds: seq<nat>, current: Option<nat>, height: nat): (blocks: nat)
    ensures blocks <= TrackLength(height)
    ensures cardIds == [] ==> blocks == 0
  {
    if |cardIds| == 0 then 0
    else
      var track := TrackLength(height);
      var index := SelectedIndex(cardIds, current);
      MulDivAtMost(track, index + 1, |cardIds|);
      track * (index + 1) / |cardIds|
  }

  /** The selected card being the last one fills the whole track. */
  lemma LastCardFillsTrack(cardIds: seq<nat>, height: nat)
    requires cardIds != [] && cardIds[|cardIds| - 1] !in cardIds[..|cardIds| - 1]
    ensures ScrollBlocks(cardIds, Some(cardIds[|cardIds| - 1]), height) == TrackLength(height)
  {
    MulDivCancel(TrackLength(height), |cardIds|);
  }

  /** A card further down the board never shows a shorter scrollbar. */
  lemma ScrollBlocksMonotone(cardIds: seq<nat>, a: nat, b: nat, height: nat)
    requires a in cardIds && b in cardIds
    requires IndexOfId(cardIds, a).value <= IndexOfId(cardIds, b).value
    ensures ScrollBlocks(cardIds, Some(a), height) <= ScrollBlocks(cardIds, Some(b), height)
  {
    MulDivMonotone(TrackLength(height), IndexOfId(cardIds, a).value + 1, IndexOfId(cardIds, b).value + 1, |cardIds|);
  }

  /** A selection that is no longer on the board is drawn as if the first
      card were selected. */
  lemma StaleCardIsFirstCard(cardIds: seq<nat>, current: Option<nat>, height: nat)
    requires cardIds != [] && current.GetOr(0) !in cardIds
    ensures ScrollBlocks(cardIds, current, height) == ScrollBlocks(cardIds, Some(cardIds[0]), height)
  {
  }

  /** The board gauge: the 1-based position of the current board as a
      percentage of the number of boards, capped at 100 (an empty board list
      divides by zero in floating point and hits the cap). */
  function GaugePercent(boardIds: seq<nat>, current: Option<nat>): (percent: nat)
    ensures percent <= 100
  {
    var position := SelectedIndex(boardIds, current) + 1;
    if |boardIds| == 0 then 100
    else
      var p := position * 100 / |boardIds|;
      if p > 100 then 100 else p
  }

  /** The cap never cuts a real position: with boards present the gauge is
      exactly floor(100 * position / count), and it is full exactly for the
      last board. */
  lemma GaugeIsPositionShare(boardIds: seq<nat>, current: Option<nat>)
    requires boardIds != []
    ensures GaugePercent(boardIds, current) == (SelectedIndex(boardIds, current) + 1) * 100 / |boardIds|
    ensures GaugePercent(boardIds, current) == 100 <==> SelectedIndex(boardIds, current) == |boardIds| - 1
  {
    var n := |boardIds|;
    var position := SelectedIndex(boardIds, current) + 1;
    MulDivAtMost(100, position, n);
    assert 100 * position == position * 100;
    if position < n {
      MulMonotone(position, n - 1, 100);
      assert (n - 1) * 100 == 100 * n - 100;
      DivBelow(position * 100, 100, n);
    } else {
      MulDivCancel(100, n);
    }
  }

  /** What the board view shows: the empty-state hint, or the given number
      of board columns. */
  datatype BodyView = EmptyHint(message: string) | Columns(count: nat)

  const NO_BOARDS: string := "No boards found"

  /** The early return of the board view. In preview mode the (possibly
      absent) preview collection is checked and the hint is bare; otherwise
      the visible boards are checked and the hint names the key that creates
      a board. */
  function BodyOutline(preview: bool, boardCount: nat, visibleCount: nat, boardsPerPage: nat, addBoardKey: string): (v: BodyView)
    ensures v.Columns? ==> v.count == SlotCount(boardCount, boardsPerPage)
  {
    if preview then
      if boardCount == 0 then EmptyHint(NO_BOARDS) else Columns(SlotCount(boardCount, boardsPerPage))
    else if visibleCount == 0 then
      EmptyHint(NO_BOARDS + ", press " + addBoardKey + " to add a new board")
    else
      Columns(SlotCount(boardCount, boardsPerPage))
  }

  /** The hint is shown exactly for an empty collection, and outside preview
      mode it tells the user which key creates the first board. */
  lemma EmptyHintOnlyWhenEmpty(preview: bool, boardCount: nat, visibleCount: nat, boardsPerPage: nat, addBoardKey: string)
    ensures BodyOutline(preview, boardCount, visibleCount, boardsPerPage, addBoardKey).EmptyHint?
            <==> (if preview then boardCount == 0 else visibleCount == 0)
    ensures !preview && visibleCount == 0 ==>
            var m := BodyOutline(preview, boardCount, visibleCount, boardsPerPage, addBoardKey).message;
            |m| >= 23 + |addBoardKey| && m[..15] == NO_BOARDS && m[23..23 + |addBoardKey|] == addBoardKey
  {
  }
}
