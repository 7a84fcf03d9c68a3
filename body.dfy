/** The hover pass of the board view.

    The board view walks the visible boards in order, stops after the
    configured number of boards per page, skips boards it cannot find or
    for which the layout has no column, hit-tests each remaining board's
    column and then walks that board's cards, stopping after the configured
    number of cards per board and skipping cards the board does not hold.
    Each board and card it draws is one region, in exactly that order. */
module Body {
  import opened Wrappers
  import opened Geometry
  import opened FocusResolver
  import opened Paging

  datatype Card = Card(id: nat, name: string)

  datatype Board = Board(id: nat, name: string, cards: seq<Card>)

  /** One entry of the visible boards: a board id and the ids of the cards
      shown on the current page of that board. */
  datatype VisibleBoard = VisibleBoard(boardId: nat, cardIds: seq<nat>)

  /** The first board with the given id. */
  function FindBoard(boards: seq<Board>, id: nat): (b: Option<Board>)
    ensures b.Some? ==> b.value in boards && b.value.id == id
    ensures b.Some? ==> exists i :: 0 <= i < |boards| && boards[i] == b.value && forall j :: 0 <= j < i ==> boards[j].id != id
    ensures b.None? <==> forall i :: 0 <= i < |boards| ==> boards[i].id != id
  {
    if boards == [] then None
    else if boards[0].id == id then Some(boards[0])
    else FindBoard(boards[1..], id)
  }

  predicate HasCard(board: Board, id: nat)
  {
    exists i :: 0 <= i < |board.cards| && board.cards[i].id == id
  }

  function BoardRegion(area: Rect, id: nat): Region
  {
    Region(area, WithoutPopup, Body, HoverBoard(id))
  }

  function CardRegion(area: Rect, id: nat): Region
  {
    Region(area, WithoutPopup, Body, HoverCard(id))
  }

  /** Regions of the first `k` card slots of one board. */
  function CardRegionsUpTo(board: Board, cardIds: seq<nat>, cardRects: seq<Rect>, k: nat): seq<Region>
    requires k <= |cardIds| && k <= |cardRects|
  {
    if k == 0 then []
    else
      CardRegionsUpTo(board, cardIds, cardRects, k - 1)
      + (if HasCard(board, cardIds[k - 1]) then [CardRegion(cardRects[k - 1], cardIds[k - 1])] else [])
  }

  /** The layout gives every board column one card rectangle per card
      constraint. */
  predicate CardLayoutFits(visible: seq<VisibleBoard>, cardRects: seq<seq<Rect>>, cardsPerBoard: nat)
  {
    |cardRects| == |visible| &&
    forall i :: 0 <= i < |visible| ==> |cardRects[i]| == SlotCount(|visible[i].cardIds|, cardsPerBoard)
  }

  /** The regions one visible board contributes: none when the board is not
      found or has no column, else its column followed by its cards. */
  function BoardRegions(boards: seq<Board>, visible: seq<VisibleBoard>, boardRects: seq<Rect>,
                        cardRects: seq<seq<Rect>>, cardsPerBoard: nat, i: nat): seq<Region>
    requires i < |visible| && CardLayoutFits(visible, cardRects, cardsPerBoard)
  {
    match FindBoard(boards, visible[i].boardId)
    case None => []
    case Some(board) =>
      if i >= |boardRects| then []
      else
        [BoardRegion(boardRects[i], visible[i].boardId)]
        + CardRegionsUpTo(board, visible[i].cardIds, cardRects[i],
                          SlotCount(|visible[i].cardIds|, cardsPerBoard))
  }

  /** Regions of the first `k` visible boards. */
  function BodyRegionsUpTo(boards: seq<Board>, visible: seq<VisibleBoard>, boardRects: seq<Rect>,
                           cardRects: seq<seq<Rect>>, cardsPerBoard: nat, k: nat): seq<Region>
    requires k <= |visible| && CardLayoutFits(visible, cardRects, cardsPerBoard)
  {
    if k == 0 then []
    else
      BodyRegionsUpTo(boards, visible, boardRects, cardRects, cardsPerBoard, k - 1)
      + BoardRegions(boards, visible, boardRects, cardRects, cardsPerBoard, k - 1)
  }

  /** All regions of the board view, in render order. */
  function BodyRegions(boards: seq<Board>, visible: seq<VisibleBoard>, boardRects: seq<Rect>,
                       cardRects: seq<seq<Rect>>, boardsPerPage: nat, cardsPerBoard: nat): seq<Region>
    requires CardLayoutFits(visible, cardRects, cardsPerBoard)
  {
    BodyRegionsUpTo(boards, visible, boardRects, cardRects, cardsPerBoard, SlotCount(|visible|, boardsPerPage))
  }

  function CountBoards(rs: seq<Region>): nat
  {
    if rs == [] then 0
    else CountBoards(rs[..|rs| - 1]) + (if rs[|rs| - 1].effect.HoverBoard? then 1 else 0)
  }

  lemma {:induction false} CountBoardsConcat(a: seq<Region>, b: seq<Region>)
    ensures CountBoards(a + b) == CountBoards(a) + CountBoards(b)
    decreases |b|
  {
    if b == [] {
      assert a + b == a;
    } else {
      assert (a + b)[..|a + b| - 1] == a + b[..|b| - 1];
      CountBoardsConcat(a, b[..|b| - 1]);
    }
  }

  /** A board's card regions: at most one per card slot, each a card region
      of this board's page that the board really holds. */
  lemma {:induction false} CardRegionsWithinSlots(board: Board, cardIds: seq<nat>, cardRects: seq<Rect>, k: nat)
    requires k <= |cardIds| && k <= |cardRects|
    ensures var rs := CardRegionsUpTo(board, cardIds, cardRects, k);
            && |rs| <= k
            && CountBoards(rs) == 0
            && forall j :: 0 <= j < |rs| ==>
                 rs[j].gate == WithoutPopup && rs[j].target == Body && rs[j].effect.HoverCard?
                 && rs[j].effect.cardId in cardIds[..k] && HasCard(board, rs[j].effect.cardId)
  {
    if k > 0 {
      CardRegionsWithinSlots(board, cardIds, cardRects, k - 1);
      var prev := CardRegionsUpTo(board, cardIds, cardRects, k - 1);
      var extra := if HasCard(board, cardIds[k - 1]) then [CardRegion(cardRects[k - 1], cardIds[k - 1])] else [];
      CountBoardsConcat(prev, extra);
      assert cardIds[..k] == cardIds[..k - 1] + [cardIds[k - 1]];
    }
  }

  /** One visible board contributes at most one board column, only when the
      layout has a column for it, and only body regions of the main view. */
  lemma BoardRegionsShape(boards: seq<Board>, visible: seq<VisibleBoard>, boardRects: seq<Rect>,
                          cardRects: seq<seq<Rect>>, cardsPerBoard: nat, i: nat)
    requires i < |visible| && CardLayoutFits(visible, cardRects, cardsPerBoard)
    ensures var rs := BoardRegions(boards, visible, boardRects, cardRects, cardsPerBoard, i);
            && CountBoards(rs) <= 1
            && (i >= |boardRects| ==> CountBoards(rs) == 0)
            && forall j :: 0 <= j < |rs| ==> rs[j].gate == WithoutPopup && rs[j].target == Body
  {
    match FindBoard(boards, visible[i].boardId)
    case None =>
    case Some(board) =>
      if i < |boardRects| {
        var n := SlotCount(|visible[i].cardIds|, cardsPerBoard);
        var cards := CardRegionsUpTo(board, visible[i].cardIds, cardRects[i], n);
        CardRegionsWithinSlots(board, visible[i].cardIds, cardRects[i], n);
        var head := [BoardRegion(boardRects[i], visible[i].boardId)];
        CountBoardsConcat(head, cards);
        assert head[..0] == [];
      }
  }

  /** Every region of the first `k` visible boards is a main-view region of
      the body, with at most one board column per board walked and never
      more than the layout has columns. */
  lemma {:induction false} BodyRegionsShape(boards: seq<Board>, visible: seq<VisibleBoard>, boardRects: seq<Rect>,
                                            cardRects: seq<seq<Rect>>, cardsPerBoard: nat, k: nat)
    requires k <= |visible| && CardLayoutFits(visible, cardRects, cardsPerBoard)
    ensures var rs := BodyRegionsUpTo(boards, visible, boardRects, cardRects, cardsPerBoard, k);
            && CountBoards(rs) <= k
            && CountBoards(rs) <= |boardRects|
            && forall j :: 0 <= j < |rs| ==> rs[j].gate == WithoutPopup && rs[j].target == Body
    decreases k
  {
    if k > 0 {
      BodyRegionsShape(boards, visible, boardRects, cardRects, cardsPerBoard, k - 1);
      BoardRegionsShape(boards, visible, boardRects, cardRects, cardsPerBoard, k - 1);
      var prev := BodyRegionsUpTo(boards, visible, boardRects, cardRects, cardsPerBoard, k - 1);
      var here := BoardRegions(boards, visible, boardRects, cardRects, cardsPerBoard, k - 1);
      CountBoardsConcat(prev, here);
      var rs := prev + here;
      assert rs == BodyRegionsUpTo(boards, visible, boardRects, cardRects, cardsPerBoard, k);
      assert CountBoards(rs) <= |boardRects| by {
        if k - 1 < |boardRects| {
          assert CountBoards(prev) <= k - 1;
        } else {
          assert CountBoards(here) == 0;
        }
      }
      forall j | 0 <= j < |rs|
        ensures rs[j].gate == WithoutPopup && rs[j].target == Body
      {
        if j >= |prev| {
          assert rs[j] == here[j - |prev|];
        }
      }
    }
  }

  /** At most `boardsPerPage` board columns, and at most as many as the
      layout made room for (one per board, capped by the page size). */
  lemma BodyDrawsOnePage(boards: seq<Board>, visible: seq<VisibleBoard>, boardRects: seq<Rect>,
                         cardRects: seq<seq<Rect>>, boardsPerPage: nat, cardsPerBoard: nat)
    requires CardLayoutFits(visible, cardRects, cardsPerBoard)
    requires |boardRects| == SlotCount(|boards|, boardsPerPage)
    ensures var n := CountBoards(BodyRegions(boards, visible, boardRects, cardRects, boardsPerPage, cardsPerBoard));
            n <= boardsPerPage && n <= |visible| && n <= |boards|
  {
    BodyRegionsShape(boards, visible, boardRects, cardRects, cardsPerBoard, SlotCount(|visible|, boardsPerPage));
  }

  /** While a popup is open, hovering boards and cards changes neither
      `mouse_focus` nor the current board or card. */
  lemma BodyLockedByPopup(s: UiState, mouse: Point, popup: Popup, boards: seq<Board>, visible: seq<VisibleBoard>,
                          boardRects: seq<Rect>, cardRects: seq<seq<Rect>>, boardsPerPage: nat, cardsPerBoard: nat)
    requires CardLayoutFits(visible, cardRects, cardsPerBoard)
    requires popup != NoPopup
    ensures Resolve(s, mouse, popup, BodyRegions(boards, visible, boardRects, cardRects, boardsPerPage, cardsPerBoard)) == s
  {
    BodyRegionsShape(boards, visible, boardRects, cardRects, cardsPerBoard, SlotCount(|visible|, boardsPerPage));
    PopupLocksMainView(s, mouse, popup, BodyRegions(boards, visible, boardRects, cardRects, boardsPerPage, cardsPerBoard));
  }
}
