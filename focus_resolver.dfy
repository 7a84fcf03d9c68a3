/** Pointer-driven focus and selection.

    Every draw routine hit-tests the pointer against its own rectangle and,
    on a hit, writes the UI state: always `mouse_focus`, and depending on the
    routine also `focus`, `current_board_id`, `current_card_id` or the
    selected row of a list. Most routines do so only while no popup is open.
    A frame is modelled as the ordered list of the regions its draw routines
    test, in render order; applying them one after another means that the
    last region that fires wins. */
module FocusResolver {
  import opened Wrappers
  import opened Geometry
  import opened RowSelection

  /** The focus targets that the hit-testing draw routines write. */
  datatype Focus =
    | Title | Body | Help | MainMenuHelp | Log | MainMenu
    | ConfigTable | SubmitButton | ExtraFocus | EditGeneralConfigPopup
    | SelectDefaultView | EditKeybindingsTable | EditSpecificKeyBindingPopup
    | NewBoardName | NewBoardDescription | NewCardName | NewCardDescription | NewCardDueDate
    | LoadSave | CommandPalette | ChangeUiModePopup | ChangeCardStatusPopup
    | CloseButton | NoFocus

  /** `popup_mode`: no popup, the command palette, or any other popup. */
  datatype Popup = NoPopup | CommandPalettePopup | OtherPopup

  /** The list states a row selection writes to. The UI-mode popup writes
      the default-view list state, so it has no list of its own. */
  datatype ListId =
    | ConfigList | DefaultViewList | KeybindingList | MainMenuList
    | LoadSaveList | CommandPaletteList | CardStatusList

  /** When a region may react to the pointer at all. */
  datatype Gate =
    | Always                 // not silenced by a popup: popups, the close button, full-screen selectors
    | WithoutPopup           // main-view panels: `popup_mode.is_none()`
    | WithoutCommandPalette  // the save-file list

  /** What a region writes besides `mouse_focus` when it is hit. */
  datatype Effect =
    | HoverOnly
    | HoverAndFocus
    | HoverBoard(boardId: nat)
    | HoverCard(cardId: nat)
    | HoverRow(list: ListId, len: nat, rule: BottomRule, alsoFocus: bool)

  datatype Region = Region(area: Rect, gate: Gate, target: Focus, effect: Effect)

  /** The part of the application state the hit tests read and write.
      A list absent from `selected` has no selection. */
  datatype UiState = UiState(
    mouseFocus: Option<Focus>,
    focus: Focus,
    currentBoard: Option<nat>,
    currentCard: Option<nat>,
    selected: map<ListId, nat>)

  predicate Enabled(gate: Gate, popup: Popup)
  {
    match gate
    case Always => true
    case WithoutPopup => popup == NoPopup
    case WithoutCommandPalette => popup != CommandPalettePopup
  }

  /** The region reacts to the pointer in this frame. */
  predicate Fires(r: Region, mouse: Point, popup: Popup)
  {
    Enabled(r.gate, popup) && InArea(mouse, r.area)
  }

  predicate SetsFocus(e: Effect)
  {
    e.HoverAndFocus? || (e.HoverRow? && e.alsoFocus)
  }

  /** The writes of a region that has been hit. */
  function Apply(s: UiState, mouse: Point, r: Region): UiState
  {
    var s' := s.(mouseFocus := Some(r.target));
    match r.effect
    case HoverOnly => s'
    case HoverAndFocus => s'.(focus := r.target)
    case HoverBoard(id) => s'.(currentBoard := Some(id))
    case HoverCard(id) => s'.(currentCard := Some(id))
    case HoverRow(list, len, rule, alsoFocus) =>
      var s'' := if alsoFocus then s'.(focus := r.target) else s';
      match RowUnderPointer(mouse.y, r.area, len, rule)
      case Some(i) => s''.(selected := s.selected[list := i])
      case None => s''
  }

  /** One draw routine's hit test and its writes. */
  function Step(s: UiState, mouse: Point, popup: Popup, r: Region): UiState
  {
    if Fires(r, mouse, popup) then Apply(s, mouse, r) else s
  }

  /** All regions of a frame, in render order. */
  function Resolve(s: UiState, mouse: Point, popup: Popup, rs: seq<Region>): UiState
    decreases |rs|
  {
    if rs == [] then s
    else Step(Resolve(s, mouse, popup, rs[..|rs| - 1]), mouse, popup, rs[|rs| - 1])
  }

  lemma ResolveSnoc(s: UiState, mouse: Point, popup: Popup, rs: seq<Region>, r: Region)
    ensures Resolve(s, mouse, popup, rs + [r]) == Step(Resolve(s, mouse, popup, rs), mouse, popup, r)
  {
    assert (rs + [r])[..|rs|] == rs;
  }

  /** Rendering two groups of regions one after the other is rendering
      their concatenation. */
  lemma {:induction false} ResolveConcat(s: UiState, mouse: Point, popup: Popup, a: seq<Region>, b: seq<Region>)
    ensures Resolve(s, mouse, popup, a + b) == Resolve(Resolve(s, mouse, popup, a), mouse, popup, b)
    decreases |b|
  {
    if b == [] {
      assert a + b == a;
    } else {
      var b' := b[..|b| - 1];
      assert a + b == (a + b') + [b[|b| - 1]];
      assert b == b' + [b[|b| - 1]];
      ResolveSnoc(s, mouse, popup, a + b', b[|b| - 1]);
      ResolveConcat(s, mouse, popup, a, b');
      ResolveSnoc(Resolve(s, mouse, popup, a), mouse, popup, b', b[|b| - 1]);
    }
  }

  /** A region followed by a group of regions, after an earlier group. */
  lemma ResolveRegionThenGroup(s: UiState, mouse: Point, popup: Popup, before: seq<Region>, r: Region, group: seq<Region>)
    ensures Resolve(Step(Resolve(s, mouse, popup, before), mouse, popup, r), mouse, popup, group)
            == Resolve(s, mouse, popup, before + ([r] + group))
  {
    ResolveSnoc(s, mouse, popup, before, r);
    ResolveConcat(s, mouse, popup, before + [r], group);
    assert before + [r] + group == before + ([r] + group);
  }

  /** A frame in which no region fires leaves the state as it was: keeping
      the focus is the normal outcome, not an error. */
  lemma {:induction false} QuietFrameKeepsState(s: UiState, mouse: Point, popup: Popup, rs: seq<Region>)
    requires forall i :: 0 <= i < |rs| ==> !Fires(rs[i], mouse, popup)
    ensures Resolve(s, mouse, popup, rs) == s
    decreases |rs|
  {
    if rs != [] {
      QuietFrameKeepsState(s, mouse, popup, rs[..|rs| - 1]);
    }
  }

  /** While a popup is open, main-view regions change nothing, wherever the
      pointer is. */
  lemma {:induction false} PopupLocksMainView(s: UiState, mouse: Point, popup: Popup, rs: seq<Region>)
    requires popup != NoPopup
    requires forall i :: 0 <= i < |rs| ==> rs[i].gate == WithoutPopup
    ensures Resolve(s, mouse, popup, rs) == s
  {
    QuietFrameKeepsState(s, mouse, popup, rs);
  }

  /** The last region that fires owns `mouse_focus`. */
  lemma {:induction false} LastFiringOwnsMouseFocus(s: UiState, mouse: Point, popup: Popup, rs: seq<Region>, k: nat)
    requires k < |rs| && Fires(rs[k], mouse, popup)
    requires forall j :: k < j < |rs| ==> !Fires(rs[j], mouse, popup)
    ensures Resolve(s, mouse, popup, rs).mouseFocus == Some(rs[k].target)
    decreases |rs|
  {
    if k < |rs| - 1 {
      LastFiringOwnsMouseFocus(s, mouse, popup, rs[..|rs| - 1], k);
    }
  }

  /** `current_board_id` is the board of the last hovered board region, and
      is left alone when no board region fires. */
  lemma {:induction false} LastHoveredBoardIsCurrent(s: UiState, mouse: Point, popup: Popup, rs: seq<Region>, k: nat)
    requires k < |rs| && Fires(rs[k], mouse, popup) && rs[k].effect.HoverBoard?
    requires forall j :: k < j < |rs| && rs[j].effect.HoverBoard? ==> !Fires(rs[j], mouse, popup)
    ensures Resolve(s, mouse, popup, rs).currentBoard == Some(rs[k].effect.boardId)
    decreases |rs|
  {
    if k < |rs| - 1 {
      LastHoveredBoardIsCurrent(s, mouse, popup, rs[..|rs| - 1], k);
    }
  }

  lemma {:induction false} UnhoveredBoardsKeepCurrent(s: UiState, mouse: Point, popup: Popup, rs: seq<Region>)
    requires forall j :: 0 <= j < |rs| && rs[j].effect.HoverBoard? ==> !Fires(rs[j], mouse, popup)
    ensures Resolve(s, mouse, popup, rs).currentBoard == s.currentBoard
    decreases |rs|
  {
    if rs != [] {
      UnhoveredBoardsKeepCurrent(s, mouse, popup, rs[..|rs| - 1]);
    }
  }

  /** `current_card_id` is the card of the last hovered card region, and is
      left alone when no card region fires. */
  lemma {:induction false} LastHoveredCardIsCurrent(s: UiState, mouse: Point, popup: Popup, rs: seq<Region>, k: nat)
    requires k < |rs| && Fires(rs[k], mouse, popup) && rs[k].effect.HoverCard?
    requires forall j :: k < j < |rs| && rs[j].effect.HoverCard? ==> !Fires(rs[j], mouse, popup)
    ensures Resolve(s, mouse, popup, rs).currentCard == Some(rs[k].effect.cardId)
    decreases |rs|
  {
    if k < |rs| - 1 {
      LastHoveredCardIsCurrent(s, mouse, popup, rs[..|rs| - 1], k);
    }
  }

  lemma {:induction false} UnhoveredCardsKeepCurrent(s: UiState, mouse: Point, popup: Popup, rs: seq<Region>)
    requires forall j :: 0 <= j < |rs| && rs[j].effect.HoverCard? ==> !Fires(rs[j], mouse, popup)
    ensures Resolve(s, mouse, popup, rs).currentCard == s.currentCard
    decreases |rs|
  {
    if rs != [] {
      UnhoveredCardsKeepCurrent(s, mouse, popup, rs[..|rs| - 1]);
    }
  }

  /** Keyboard focus moves only through regions that set it (the config
      buttons and the config table); everything else only moves
      `mouse_focus`. */
  lemma {:induction false} FocusMovesOnlyThroughFocusRegions(s: UiState, mouse: Point, popup: Popup, rs: seq<Region>)
    requires forall j :: 0 <= j < |rs| && SetsFocus(rs[j].effect) ==> !Fires(rs[j], mouse, popup)
    ensures Resolve(s, mouse, popup, rs).focus == s.focus
    decreases |rs|
  {
    if rs != [] {
      FocusMovesOnlyThroughFocusRegions(s, mouse, popup, rs[..|rs| - 1]);
    }
  }

  /** Keyboard focus belongs to the target of the last focus-setting
      region that fires. */
  lemma {:induction false} LastFocusRegionOwnsFocus(s: UiState, mouse: Point, popup: Popup, rs: seq<Region>, k: nat)
    requires k < |rs| && Fires(rs[k], mouse, popup) && SetsFocus(rs[k].effect)
    requires forall j :: k < j < |rs| && SetsFocus(rs[j].effect) ==> !Fires(rs[j], mouse, popup)
    ensures Resolve(s, mouse, popup, rs).focus == rs[k].target
    decreases |rs|
  {
    if k < |rs| - 1 {
      LastFocusRegionOwnsFocus(s, mouse, popup, rs[..|rs| - 1], k);
    }
  }

  /** The region is a hit row list for `l` and the pointer is inside its
      row window. */
  predicate PointsAtRow(r: Region, mouse: Point, popup: Popup, l: ListId)
  {
    Fires(r, mouse, popup) && r.effect.HoverRow? && r.effect.list == l
    && RowUnderPointer(mouse.y, r.area, r.effect.len, r.effect.rule).Some?
  }

  /** After a frame, list `l` has the row under the pointer of the last
      region of `l` whose window held the pointer. */
  lemma {:induction false} LastPointedRowIsSelected(s: UiState, mouse: Point, popup: Popup, rs: seq<Region>, l: ListId, k: nat)
    requires k < |rs| && PointsAtRow(rs[k], mouse, popup, l)
    requires forall j :: k < j < |rs| ==> !PointsAtRow(rs[j], mouse, popup, l)
    ensures var selected := Resolve(s, mouse, popup, rs).selected;
            l in selected && selected[l] == RowUnderPointer(mouse.y, rs[k].area, rs[k].effect.len, rs[k].effect.rule).value
    decreases |rs|
  {
    if k < |rs| - 1 {
      LastPointedRowIsSelected(s, mouse, popup, rs[..|rs| - 1], l, k);
    }
  }

  /** A frame in which no region of `l` has the pointer inside its window
      leaves the selection of `l` as it was, present or absent. */
  lemma {:induction false} UnpointedListKeepsSelection(s: UiState, mouse: Point, popup: Popup, rs: seq<Region>, l: ListId)
    requires forall j :: 0 <= j < |rs| ==> !PointsAtRow(rs[j], mouse, popup, l)
    ensures var selected := Resolve(s, mouse, popup, rs).selected;
            && (l in selected <==> l in s.selected)
            && (l in s.selected ==> selected[l] == s.selected[l])
    decreases |rs|
  {
    if rs != [] {
      UnpointedListKeepsSelection(s, mouse, popup, rs[..|rs| - 1], l);
    }
  }
}
