# Screen logic of rust_kanban's terminal UI

This project models the computations inside rust_kanban's `src/ui/ui_helper.rs` that decide what the board view shows and how it reacts to the mouse. The drawing code itself is not modelled. The parts covered are:

- **Toast composition** (`render_toast`): which toasts the notification area shows and in what order.
  - With more than MAX-1 Loading toasts, the MAX-1 earliest-started of them come first, latest first. With at most MAX-1, all of them come first, in store order.
  - The newest regular toasts are then popped in, newest first.
  - Any slot still free is backfilled with Loading toasts not shown yet, compared by value.
  - Without Loading toasts, the area shows the newest toasts of the store, in store order.
  - The spinner frame of a Loading toast's title.
- **Pointer hit test and focus arbitration.** `check_if_mouse_is_in_area` is inclusive on all four edges.
  - Every draw routine hit-tests its own rectangle. On a hit it writes `mouse_focus` and, depending on the routine, also `focus`, `current_board_id`, `current_card_id` or a list's selected row.
  - A frame is the ordered list of these regions, in render order, so the last region that fires wins.
  - Most routines are silenced by an open popup.
  - The board view's hover pass is an in-place class (`AppStateModel.AppState`) whose loops are proved equal to that fold.
- **List row selection** from the pointer's row. The three ways the code computes the bottom of the window are modelled separately.
- **Board view paging.**
  - The number of board columns and card slots on a page.
  - The card scrollbar and the board gauge, in integer arithmetic.
  - Title truncation with "..." and the ">> " marker.
  - The empty-collection hint.
- **Small helpers:**
  - `check_size`;
  - the help table split;
  - the command palette's list height;
  - the cursor cell of the config editor;
  - the style of a card's due date.

Toasts are identified by their index in the toast store, so a displayed list is a sequence of indices. Rectangles are the ones tui's layout hands out, given as inputs.

Files, one module each:

- `wrappers.dfy`: `Option`
- `geometry.dfy`: `Geometry`
- `row_selection.dfy`: `RowSelection`
- `focus_resolver.dfy`: `FocusResolver`
- `body.dfy`: `Body`
- `app_state.dfy`: `AppStateModel`
- `paging.dfy`: `Paging`
- `arith.dfy`: `Arith`
- `decimal.dfy`: `Decimal`
- `titles.dfy`: `Titles`
- `toasts.dfy`: `Toasts`
- `screen_helpers.dfy`: `ScreenHelpers`

## Model

| member | source | states |
|---|---|---|
| Geometry.InAreaIffBetweenCorners | src/ui/ui_helper.rs:3347-3359 | a point is a hit exactly when it lies at most `width` columns right of and at most `height` rows below the top-left corner |
| Geometry.CornersAreHits | src/ui/ui_helper.rs:3347-3359 | all four corners are hits, and a rectangle of zero width and height matches exactly its own origin |
| Geometry.OutsideIsMiss | src/ui/ui_helper.rs:3347-3359 | a point one step beyond any edge is a miss |
| Geometry.NestedHit | src/ui/ui_helper.rs:3347-3359 | a hit in an inner rectangle is a hit in every rectangle containing it |
| Geometry.SideBySideShareEdge | src/ui/ui_helper.rs:3347-3359 | two rectangles laid side by side both claim their shared column, because edges are inclusive |
| RowSelection.RowUnderPointer | src/ui/ui_helper.rs:396-406 | a selected row is `mouse_y - top_of_list`, lies inside the area, is at most `len`, and is below `len` under the `area.y + len` rule |
| RowSelection.SelectsExactlyInsideWindow | src/ui/ui_helper.rs:396-406 | per bottom rule, in closed form: a row is selected exactly when area.y+1 <= mouse_y and mouse_y is at most area.y+1+len (list-top rules) or area.y+len (area-top rule), and at most the bottom border, or above it when the config table's list overflows the area |
| RowSelection.EveryRowReachable | src/ui/ui_helper.rs:2644-2655 | every row of the list is selectable by pointing at it when the area has room for it |
| RowSelection.ListTopRulesReachLen | src/ui/ui_helper.rs:1415-1425 | with the `top_of_list + len` bottom (main menu, keybindings, config table) pointing one row below the last item selects index `len` |
| FocusResolver.ResolveConcat | src/ui/ui_helper.rs:1579-1898 | rendering two groups of regions one after the other is rendering their concatenation |
| FocusResolver.QuietFrameKeepsState | src/ui/ui_helper.rs:1644-1653 | a frame in which no region fires leaves the whole UI state unchanged |
| FocusResolver.PopupLocksMainView | src/ui/ui_helper.rs:1351-1355 | while a popup is open, regions gated on `popup_mode.is_none()` change nothing |
| FocusResolver.LastFiringOwnsMouseFocus | src/ui/ui_helper.rs:2039-2047 | `mouse_focus` is the target of the last region that fires |
| FocusResolver.LastHoveredBoardIsCurrent | src/ui/ui_helper.rs:1644-1653 | `current_board_id` is the board of the last board region that fires |
| FocusResolver.UnhoveredBoardsKeepCurrent | src/ui/ui_helper.rs:1644-1653 | with no board region firing, `current_board_id` is unchanged |
| FocusResolver.LastHoveredCardIsCurrent | src/ui/ui_helper.rs:1860-1869 | `current_card_id` is the card of the last card region that fires |
| FocusResolver.UnhoveredCardsKeepCurrent | src/ui/ui_helper.rs:1860-1869 | with no card region firing, `current_card_id` is unchanged |
| FocusResolver.FocusMovesOnlyThroughFocusRegions | src/ui/ui_helper.rs:320-349 | keyboard `focus` changes only when a focus-setting region (config buttons, config table) fires |
| FocusResolver.LastFocusRegionOwnsFocus | src/ui/ui_helper.rs:320-349 | keyboard `focus` is the target of the last focus-setting region that fires |
| FocusResolver.LastPointedRowIsSelected | src/ui/ui_helper.rs:810-824 | after a frame a list's selected row is the pointed row of the last region of that list whose window held the pointer |
| FocusResolver.UnpointedListKeepsSelection | src/ui/ui_helper.rs:810-824 | when no region of a list has the pointer in its window, that list's selection stays as it was, present or absent |
| AppStateModel.AppState.HitTest | src/ui/ui_helper.rs:390-406 | one routine's hit test writes exactly one `Step` of the resolver, and the pointer and popup are unchanged |
| AppStateModel.AppState.RenderRegions | src/ui/ui_helper.rs:1579-1898 | running the routines in render order leaves the state the fold of all their regions |
| AppStateModel.AppState.RenderBodyHover | src/ui/ui_helper.rs:1579-1653 | the board loop, cut at the page size and skipping missing boards or columns, leaves the state the fold of `Body.BodyRegions` |
| AppStateModel.AppState.HoverCards | src/ui/ui_helper.rs:1740-1869 | the card loop, cut at the cards per board and skipping unknown cards, leaves the state the fold of the board's card regions |
| Body.FindBoard | src/ui/ui_helper.rs:1587-1596 | the board found is the first one with the id, and none is found exactly when no board has it |
| Body.CardRegionsWithinSlots | src/ui/ui_helper.rs:1740-1751 | a board yields at most one card region per slot, each for a card of the page that the board holds |
| Body.BoardRegionsShape | src/ui/ui_helper.rs:1635-1638 | one visible board yields at most one board column, none without a layout column, and only main-view regions |
| Body.BodyRegionsShape | src/ui/ui_helper.rs:1579-1584 | the first k boards yield at most k board columns, at most as many as the layout has, all of them main-view regions |
| Body.BodyDrawsOnePage | src/ui/ui_helper.rs:1556-1584 | at most `no_of_boards_to_show` board columns are drawn, and never more than there are boards |
| Body.BodyLockedByPopup | src/ui/ui_helper.rs:1639-1653 | with a popup open, hovering boards and cards leaves the whole UI state unchanged |
| Paging.SlotCount | src/ui/ui_helper.rs:1556-1568 | the column count is min(boards, boards per page) |
| Paging.IndexOfId | src/ui/ui_helper.rs:1709-1711 | `position` finds the first equal id, and finds none exactly when the id is absent |
| Paging.ScrollBlocks | src/ui/ui_helper.rs:1700-1736 | the scrollbar never exceeds the track of height - 2 rows, and a board without cards draws none |
| Paging.LastCardFillsTrack | src/ui/ui_helper.rs:1712-1722 | selecting the last card fills the whole track |
| Paging.ScrollBlocksMonotone | src/ui/ui_helper.rs:1712-1722 | a card further down never shows a shorter scrollbar |
| Paging.StaleCardIsFirstCard | src/ui/ui_helper.rs:1709-1713 | a selection no longer on the board draws as if the first card were selected |
| Paging.GaugePercent | src/ui/ui_helper.rs:1903-1920 | the gauge never exceeds 100 |
| Paging.GaugeIsPositionShare | src/ui/ui_helper.rs:1903-1920 | with boards present the gauge is floor(100 * position / count), and it is 100 exactly for the last board |
| Paging.BodyOutline | src/ui/ui_helper.rs:1556-1568 | when columns are drawn their count is min(boards, boards per page) |
| Paging.EmptyHintOnlyWhenEmpty | src/ui/ui_helper.rs:1522-1541 | the hint shows exactly for an empty collection, and outside preview it names the add-board key |
| Decimal.NatToString | src/ui/ui_helper.rs:1613 | a rendered count is non-empty digits without a leading zero |
| Decimal.StringToNatInverts | src/ui/ui_helper.rs:1613 | a rendered count reads back as the count |
| Titles.Truncate | src/ui/ui_helper.rs:1604-1612 | a short name is kept, and a longer one becomes its first `limit` characters followed by "..." |
| Titles.BoardTitleParts | src/ui/ui_helper.rs:1604-1618 | a board title is the marker when current, then the cut name, and it ends with a card count that reads back |
| Titles.CardTitleParts | src/ui/ui_helper.rs:1758-1768 | a card title starts with ">> " when the card is current; a short name of a card that is not current is shown unchanged; a long name always ends in "..."; the title is at most limit + 6 characters; with no selection, card 0 is marked |
| Toasts.IndicesWhere | src/ui/ui_helper.rs:2769-2772 | the filter keeps exactly the toasts of the kind, in store order |
| Toasts.SortFacts | src/ui/ui_helper.rs:2776 | sorting by start time keeps the same toasts, orders them and repeats none |
| Toasts.FillTakesNewest | src/ui/ui_helper.rs:2793-2799 | the pop-and-push loop appends the end of the sorted stack, newest first, for as many slots as are free |
| Toasts.BackfillSafe | src/ui/ui_helper.rs:2807-2816 | the backfill never repeats an index, adds only stack toasts, and fills an empty list when it can |
| Toasts.BackfillOneSlot | src/ui/ui_helper.rs:2807-2816 | with one free slot the backfill adds the latest toast whose value is not shown, or nothing |
| Toasts.BackfillAllShown | src/ui/ui_helper.rs:2807-2816 | when every candidate is already shown, the backfill adds nothing |
| Toasts.ComposeToasts | src/ui/ui_helper.rs:2773-2826 | the sort, push and pop loops produce `DisplayedToasts` |
| Toasts.DisplayedWellFormed | src/ui/ui_helper.rs:2773-2817 | at most MAX_TOASTS_TO_DISPLAY toasts, none twice, all from the store, and some toast whenever the store has one |
| Toasts.NoLoadingShowsLatest | src/ui/ui_helper.rs:2818-2826 | without Loading toasts the list is the last min(MAX, n) toasts in store order |
| Toasts.DisplayedStartsWithHead | src/ui/ui_helper.rs:2775-2787 | the list always starts with the Loading head |
| Toasts.ManyLoadingHead | src/ui/ui_helper.rs:2775-2783 | with more than MAX-1 Loading toasts the first MAX-1 slots are the earliest-started of them, latest first |
| Toasts.ManyLoadingLastSlotRegular | src/ui/ui_helper.rs:2788-2799 | with more than MAX-1 Loading toasts and a regular one, the last slot is the newest regular toast |
| Toasts.ManyLoadingLastSlotLoading | src/ui/ui_helper.rs:2801-2816 | with no regular toast, the last slot is the latest-started Loading toast not already shown, or stays empty when all are shown |
| Toasts.FewLoadingFirst | src/ui/ui_helper.rs:2784-2799 | with 1..MAX-1 Loading toasts all of them come first in store order, then as many regular toasts as fit |
| Toasts.FewLoadingRegularNewest | src/ui/ui_helper.rs:2788-2799 | those regular toasts are the newest ones, newest first, and none left out is newer than one shown |
| Toasts.MixedShowsBoth | src/ui/ui_helper.rs:2773-2817 | with room for two toasts and both kinds present, both kinds are on screen |
| Toasts.SpinnerFrame | src/ui/ui_helper.rs:2851-2853 | the frame index is always a valid frame |
| Toasts.SpinnerAdvances | src/ui/ui_helper.rs:2851-2853 | the frame moves to the next one every 100 ms, wrapping round, with period 100 ms times the frame count |
| Toasts.ToastTitle | src/ui/ui_helper.rs:2841-2856 | whatever the spinner frame, every toast title ends with its kind's name |
| Toasts.LoadingTitleAnimates | src/ui/ui_helper.rs:2847-2854 | 100 ms later a Loading title shows the next spinner frame, and after one full round of frames it is the same title again |
| ScreenHelpers.CheckSize | src/ui/ui_helper.rs:2067-2083 | "Size OK" exactly when both minimums are met; otherwise the width warning when too narrow, else the height warning |
| ScreenHelpers.SizeWarningReadsBack | src/ui/ui_helper.rs:2069-2079 | a warning names its dimension, and its two numbers read back as the minimum and the current size |
| ScreenHelpers.WidthTakesPrecedence | src/ui/ui_helper.rs:2069-2079 | a terminal both too narrow and too low is reported by width |
| ScreenHelpers.SplitHelpRows | src/ui/ui_helper.rs:1229-1230 | the two tables together are all rows in order, and the right one has as many rows as the left or one more |
| ScreenHelpers.PaletteListHeight | src/ui/ui_helper.rs:3103-3111 | 3 rows for zero or one result, otherwise results + 2 capped at screen height - 7 |
| ScreenHelpers.PaletteFitsResults | src/ui/ui_helper.rs:3103-3111 | with room on screen every result is listed, the list never exceeds what the results need, and it fits the screen once that is 10 rows high |
| ScreenHelpers.PaletteSelectsPastResults | src/ui/ui_helper.rs:3171-3183 | because the palette's row window uses the list height with its borders, pointing below the last result selects index `results` |
| ScreenHelpers.CursorOffsets | src/ui/ui_helper.rs:565-573 | the column is below width - 2, and row * (width - 2) + column is the 16-bit position |
| ScreenHelpers.CursorOffsetsStep | src/ui/ui_helper.rs:570-571 | the next position is the next column, or the first column of the next row |
| ScreenHelpers.CursorOffsetsInjective | src/ui/ui_helper.rs:570-571 | two 16-bit positions never share a cell |
| ScreenHelpers.DueDateStyle | src/ui/ui_helper.rs:1776-1836 | no line for an empty date; inactive exactly with a popup; otherwise warning iff 0 <= days <= warning_delta, critical iff days < 0 |
| ScreenHelpers.DueDefaultOnlyOutsideWindow | src/ui/ui_helper.rs:1785-1833 | without a popup the default style is exactly for an unparsable date or one after the warning window |
| ScreenHelpers.DueStyleEscalates | src/ui/ui_helper.rs:1785-1821 | one day less to go never makes the style milder |

## Where the code and its intended behaviour differ

The model follows the code in each of these cases:

- The comment at src/ui/ui_helper.rs:2774 says the earliest Loading toasts are shown with the oldest at the top. The `.rev()` at src/ui/ui_helper.rs:2781 reverses them, so with more than MAX-1 Loading toasts the latest of the earliest MAX-1 shows first.
- The regular toasts and the Loading backfill are taken with `pop()` from the end of lists sorted by start time (src/ui/ui_helper.rs:2793-2799, 2807-2816). So both come newest first, below a Loading block that the comment at line 2774 orders oldest first. No comment states their order, so a single oldest-first list is presumed intended.
- A rectangle of zero width and height draws nothing, so a hit on it is presumably unintended. The inclusive comparisons at src/ui/ui_helper.rs:3355 still make it match its own origin (`Geometry.CornersAreHits`).

## Left out

- Drawing through tui is not modelled: widgets, styles, `render_widget`, `set_cursor`, the toast box layout and `textwrap` heights. Only the values these are computed from are modelled.
- `Layout::split`, `centered_rect` and `top_left_rect` are not modelled. The rectangles they return are inputs (`boardRects`, `cardRects`, region areas).
- Clocks are not modelled. `Instant::elapsed` is the parameter `elapsedMs`. `Local::now()` and chrono date parsing are the parameter `daysLeft`, which is `None` when the date does not parse.
- Configuration and file I/O, `tui_logger`, keybinding label lookups and `render_debug_panel` are not modelled.
- The values of `MIN_TERM_WIDTH`, `MIN_TERM_HEIGHT`, `MAX_TOASTS_TO_DISPLAY` and the spinner frames are not part of this model. They are parameters.
- Paging.ScrollBlocks: computed as an exact integer floor. The source multiplies and truncates `f64` values, which can differ by one block at exact ratios.
- Paging.GaugePercent: computed as an exact integer floor. The source's `f64` division then multiplication can land one below an exact percentage (for example 29/100 * 100).
- Only the 16-bit limits of the hit test are modelled: `Rect` keeps `x + width` and `y + height` within `u16`, and `CursorOffsets` truncates the position to 16 bits. Other u16 arithmetic is modelled as unbounded.
- PaletteListHeight: requires a screen height of at least 7 when there are two or more results. In the source such a lower screen underflows `height - 7`, which is not modelled. With zero or one result the source never subtracts, and the model gives 3 rows on any screen.
- CursorOffsets: requires a width of at least 3. A narrower box underflows `width - 2` or divides by zero in the source, which is not modelled.
- The config table's bottom clamp `bottom() - 1` is modelled as an integer and may be -1. In the source it would underflow for an empty area at row 0.
- The command palette passes its list height `results + 2` (src/ui/ui_helper.rs:3103-3111) as the list length of its row window (src/ui/ui_helper.rs:3174). Pointing at the two rows below the last result selects `results` or `results + 1`, past the end of the results. This is modelled, not corrected (`ScreenHelpers.PaletteSelectsPastResults`).
- The guard `key_id > key_list.len()` on the keybinding list (src/ui/ui_helper.rs:995) lets `key_id == len` through to an out-of-bounds index. It is not modelled. `RowSelection.ListTopRulesReachLen` shows that a mouse selection can produce that index.
- Titles.Truncate: counts and cuts characters. The source's test `len() > LIMIT` counts bytes, so a short name with multi-byte characters that the model keeps can be cut by the source. The source's byte slice also panics when it falls inside a multi-byte character.
- The toast widget's fields beyond kind, start time, message and colour are one opaque component of `Toast`. The backfill's `contains` compares whole widgets, and so does the model, but what those fields hold is not modelled.
- The toast store is only read here. The code that adds and removes toasts, and any concurrency around it, is not modelled.
- Focus and popup handling outside the hit tests (keyboard navigation, popup opening) is not modelled.
