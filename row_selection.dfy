/** Choosing a list row from the pointer's vertical position.

    Every list or table that reacts to the mouse computes a window
    `top_of_list .. bottom_of_list` (both ends inclusive) and, when the pointer
    row lies inside it, selects the row `mouse_y - top_of_list`. The top of the
    window is always one row below the area's top border; the bottom is
    computed in three different ways across the draw routines. */
module RowSelection {
  import opened Wrappers
  import opened Geometry

  /** The three ways the bottom of the window is computed. */
  datatype BottomRule =
      /** `top_of_list + len`, clamped to `area.bottom()`:
          default view list, keybinding table, main menu */
    | ListTopPlusLen
      /** `top_of_list + len`, clamped to `area.bottom() - 1`: config table */
    | ListTopPlusLenInside
      /** `area.y + len`, clamped to `area.bottom()`: save-file list,
          command palette, UI mode and card status popups */
    | AreaTopPlusLen

  function TopOfList(area: Rect): nat
  {
    area.y + 1
  }

  /** May be -1 for the config-table rule on an empty area at the origin. */
  function BottomOfList(area: Rect, len: nat, rule: BottomRule): int
  {
    var unclamped := if rule == AreaTopPlusLen then area.y + len else TopOfList(area) + len;
    if unclamped > Bottom(area) then
      (if rule == ListTopPlusLenInside then Bottom(area) - 1 else Bottom(area))
    else
      unclamped
  }

  /** The row the pointer selects, or None when the pointer is outside the
      window and the list's selection is left as it was. */
  function RowUnderPointer(mouseY: nat, area: Rect, len: nat, rule: BottomRule): (row: Option<nat>)
    ensures row.Some? ==> TopOfList(area) + row.value == mouseY
    ensures row.Some? ==> row.value < area.height
    ensures row.Some? ==> row.value <= len
    ensures rule == AreaTopPlusLen && row.Some? ==> row.value < len
  {
    var top := TopOfList(area);
    if top <= mouseY && mouseY <= BottomOfList(area, len, rule) then Some(mouseY - top) else None
  }

  /** The window of each rule in closed form: every rule starts one row
      below the area's top border; the list-top rules end `len` rows below
      that, the area-top rule one row earlier; the clamp stops at the bottom
      border, or one row above it for the config table. */
  lemma SelectsExactlyInsideWindow(mouseY: nat, area: Rect, len: nat, rule: BottomRule)
    ensures rule == ListTopPlusLen ==>
              (RowUnderPointer(mouseY, area, len, rule).Some?
               <==> area.y + 1 <= mouseY <= area.y + 1 + len && mouseY <= area.y + area.height)
    ensures rule == ListTopPlusLenInside ==>
              (RowUnderPointer(mouseY, area, len, rule).Some?
               <==> area.y + 1 <= mouseY <= area.y + 1 + len && (len >= area.height ==> mouseY < area.y + area.height))
    ensures rule == AreaTopPlusLen ==>
              (RowUnderPointer(mouseY, area, len, rule).Some?
               <==> area.y + 1 <= mouseY <= area.y + len && mouseY <= area.y + area.height)
  {
  }

  /** Every row of the list is reachable by pointing at it, as long as the
      area has room for it between its borders. */
  lemma EveryRowReachable(area: Rect, len: nat, rule: BottomRule, k: nat)
    requires k < len && k + 2 <= area.height
    ensures RowUnderPointer(TopOfList(area) + k, area, len, rule) == Some(k)
  {
  }

  /** With a bottom computed from the list's top, pointing at the row just
      below the last item selects the index `len`, one past the end of the
      list, whenever the area is tall enough not to clamp. */
  lemma ListTopRulesReachLen(area: Rect, len: nat, rule: BottomRule)
    requires rule != AreaTopPlusLen
    requires len + 1 <= area.height
    ensures RowUnderPointer(TopOfList(area) + len, area, len, rule) == Some(len)
  {
  }
}
