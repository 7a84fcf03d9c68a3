/** The mutable application state that the draw routines write while they
    render, and the draw routines' hit-test writes as in-place methods. */
module AppStateModel {
  import opened Wrappers
  import opened Geometry
  import opened RowSelection
  import opened FocusResolver
  import opened Paging
  import opened Body

  class AppState {
    var mouseFocus: Option<Focus>
    var focus: Focus
    var currentBoardId: Option<nat>
    var currentCardId: Option<nat>
    var selected: map<ListId, nat>
    var popup: Popup
    var mouse: Point

    /** The fields the hit tests write, as a value. */
    function View(): UiState
      reads this
    {
      UiState(mouseFocus, focus, currentBoardId, currentCardId, selected)
    }

    constructor (mouse: Point, popup: Popup, focus: Focus)
      ensures View() == UiState(None, focus, None, None, map[])
      ensures this.mouse == mouse && this.popup == popup
    {
      this.mouseFocus := None;
      this.focus := focus;
      this.currentBoardId := None;
      this.currentCardId := None;
      this.selected := map[];
      this.popup := popup;
      this.mouse := mouse;
    }

    /** The hit test a draw routine runs against its own rectangle, with the
        writes it makes on a hit. */
    method HitTest(r: Region)
      modifies this
      ensures View() == Step(old(View()), mouse, popup, r)
      ensures mouse == old(mouse) && popup == old(popup)
    {
      if Enabled(r.gate, popup) && InArea(mouse, r.area) {
        var before := selected;
        mouseFocus := Some(r.target);
        match r.effect {
          case HoverOnly =>
          case HoverAndFocus =>
            focus := r.target;
          case HoverBoard(id) =>
            currentBoardId := Some(id);
          case HoverCard(id) =>
            currentCardId := Some(id);
          case HoverRow(list, len, rule, alsoFocus) =>
            if alsoFocus {
              focus := r.target;
            }
            var top := TopOfList(r.area);
            var bottom := BottomOfList(r.area, len, rule);
            if top <= mouse.y && mouse.y <= bottom {
              selected := before[list := mouse.y - top];
            }
        }
      }
    }

    /** One frame's draw routines, in render order. */
    method RenderRegions(rs: seq<Region>)
      modifies this
      ensures View() == Resolve(old(View()), mouse, popup, rs)
      ensures mouse == old(mouse) && popup == old(popup)
    {
      var i := 0;
      while i < |rs|
        invariant i <= |rs|
        invariant mouse == old(mouse) && popup == old(popup)
        invariant View() == Resolve(old(View()), mouse, popup, rs[..i])
      {
        HitTest(rs[i]);
        ResolveSnoc(old(View()), mouse, popup, rs[..i], rs[i]);
        assert rs[..i + 1] == rs[..i] + [rs[i]];
        i := i + 1;
      }
      assert rs[..i] == rs;
    }

    /** The hover pass of the board view: the loop over the visible boards,
        cut off at the page size, skipping boards that are not found or have
        no column; each drawn board is hit-tested before its cards. */
    method RenderBodyHover(boards: seq<Board>, visible: seq<VisibleBoard>, boardRects: seq<Rect>,
                           cardRects: seq<seq<Rect>>, boardsPerPage: nat, cardsPerBoard: nat)
      requires CardLayoutFits(visible, cardRects, cardsPerBoard)
      modifies this
      ensures View() == Resolve(old(View()), mouse, popup,
                                BodyRegions(boards, visible, boardRects, cardRects, boardsPerPage, cardsPerBoard))
      ensures mouse == old(mouse) && popup == old(popup)
    {
      ghost var start := View();
      var boardIndex := 0;
      while boardIndex < |visible|
        invariant boardIndex <= SlotCount(|visible|, boardsPerPage)
        invariant mouse == old(mouse) && popup == old(popup)
        invariant View() == Resolve(start, mouse, popup,
                                    BodyRegionsUpTo(boards, visible, boardRects, cardRects, cardsPerBoard, boardIndex))
      {
        if boardIndex >= boardsPerPage {
          break;
        }
        ghost var before := BodyRegionsUpTo(boards, visible, boardRects, cardRects, cardsPerBoard, boardIndex);
        ghost var here := BoardRegions(boards, visible, boardRects, cardRects, cardsPerBoard, boardIndex);
        assert BodyRegionsUpTo(boards, visible, boardRects, cardRects, cardsPerBoard, boardIndex + 1) == before + here;
        var entry := visible[boardIndex];
        var board := FindBoard(boards, entry.boardId);
        if board.None? || boardIndex >= |boardRects| {
          assert here == [] && before + here == before;
          boardIndex := boardIndex + 1;
          continue;
        }
        var boardRegion := BoardRegion(boardRects[boardIndex], entry.boardId);
        ghost var cards := CardRegionsUpTo(board.value, entry.cardIds, cardRects[boardIndex],
                                           SlotCount(|entry.cardIds|, cardsPerBoard));
        assert here == [boardRegion] + cards;
        HitTest(boardRegion);
        ghost var afterBoard := View();
        HoverCards(board.value, entry.cardIds, cardRects[boardIndex], cardsPerBoard);
        assert View() == Resolve(afterBoard, mouse, popup, cards);
        ResolveRegionThenGroup(start, mouse, popup, before, boardRegion, cards);
        boardIndex := boardIndex + 1;
      }
      assert boardIndex == SlotCount(|visible|, boardsPerPage);
    }

    /** The card loop of one board: cut off at the number of cards per board,
        skipping card ids the board does not hold. */
    method HoverCards(board: Board, cardIds: seq<nat>, cardRects: seq<Rect>, cardsPerBoard: nat)
      requires |cardRects| == SlotCount(|cardIds|, cardsPerBoard)
      modifies this
      ensures View() == Resolve(old(View()), mouse, popup,
                                CardRegionsUpTo(board, cardIds, cardRects, SlotCount(|cardIds|, cardsPerBoard)))
      ensures mouse == old(mouse) && popup == old(popup)
    {
      ghost var start := View();
      var cardIndex := 0;
      while cardIndex < |cardIds|
        invariant cardIndex <= SlotCount(|cardIds|, cardsPerBoard)
        invariant mouse == old(mouse) && popup == old(popup)
        invariant View() == Resolve(start, mouse, popup, CardRegionsUpTo(board, cardIds, cardRects, cardIndex))
      {
        if cardIndex >= cardsPerBoard {
          break;
        }
        var cardId := cardIds[cardIndex];
        ghost var before := CardRegionsUpTo(board, cardIds, cardRects, cardIndex);
        if HasCard(board, cardId) {
          var cardRegion := CardRegion(cardRects[cardIndex], cardId);
          HitTest(cardRegion);
          ResolveSnoc(start, mouse, popup, before, cardRegion);
        } else {
          assert before + [] == before;
        }
        cardIndex := cardIndex + 1;
      }
    }
  }
}
