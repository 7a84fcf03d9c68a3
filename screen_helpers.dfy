/** Small computations of the screen code: the terminal size check, the
    split of the help table into two halves, the height of the command
    palette's result list, the cursor cell of the config editor and the
    style of a card's due date. */
module ScreenHelpers {
  import opened Wrappers
  import opened Decimal
  import Arith
  import opened Geometry
  import opened RowSelection

  // Terminal size check

  const SIZE_OK: string := "Size OK"
  const ADVICE: string := "For optimal viewing experience, Terminal "

  /** The advice printed for a dimension (`"width"` or `"height"`) that is
      below its minimum. */
  function SizeWarning(dimension: string, minimum: nat, current: nat): string
  {
    WarningHead(dimension) + NatToString(minimum) + WarningTail(dimension, current)
  }

  function WarningHead(dimension: string): string
  {
    ADVICE + dimension + " should be >= "
  }

  function WarningTail(dimension: string, current: nat): string
  {
    ", (current " + dimension + " " + NatToString(current) + ")"
  }

  /** The size check: the width is checked first, then the height.
      The two minimums are parameters here: their values are not part of
      this model. */
  function CheckSize(width: nat, height: nat, minWidth: nat, minHeight: nat): (msg: string)
    ensures msg == SIZE_OK <==> width >= minWidth && height >= minHeight
    ensures width < minWidth ==> msg == SizeWarning("width", minWidth, width)
    ensures width >= minWidth && height < minHeight ==> msg == SizeWarning("height", minHeight, height)
  {
    WarningIsNotOk("width", minWidth, width);
    WarningIsNotOk("height", minHeight, height);
    if width < minWidth then SizeWarning("width", minWidth, width)
    else if height < minHeight then SizeWarning("height", minHeight, height)
    else SIZE_OK
  }

  lemma WarningIsNotOk(dimension: string, minimum: nat, current: nat)
    ensures SizeWarning(dimension, minimum, current) != SIZE_OK
  {
    assert |WarningHead(dimension)| > |SIZE_OK|;
  }

  /** The middle part of a three-part concatenation. */
  lemma MiddleSlice(a: string, b: string, c: string)
    ensures (a + b + c)[|a|..|a| + |b|] == b
  {
  }

  /** A size warning names its dimension right after the advice, and both
      numbers in it read back as the minimum and the current size. */
  lemma SizeWarningReadsBack(dimension: string, minimum: nat, current: nat)
    ensures var msg := SizeWarning(dimension, minimum, current);
            var lo := |ADVICE| + |dimension| + 14;
            var minDigits := NatToString(minimum);
            var curDigits := NatToString(current);
            && msg[|ADVICE|..|ADVICE| + |dimension|] == dimension
            && StringToNat(msg[lo..lo + |minDigits|]) == minimum
            && StringToNat(msg[|msg| - 1 - |curDigits|..|msg| - 1]) == current
  {
    WarningNamesDimension(dimension, minimum, current);
    WarningMinimum(dimension, minimum, current);
    WarningCurrent(dimension, minimum, current);
  }

  lemma WarningNamesDimension(dimension: string, minimum: nat, current: nat)
    ensures SizeWarning(dimension, minimum, current)[|ADVICE|..|ADVICE| + |dimension|] == dimension
  {
    var head := WarningHead(dimension);
    MiddleSlice(ADVICE, dimension, " should be >= ");
    assert SizeWarning(dimension, minimum, current)[..|head|] == head;
  }

  lemma WarningMinimum(dimension: string, minimum: nat, current: nat)
    ensures var lo := |ADVICE| + |dimension| + 14;
            StringToNat(SizeWarning(dimension, minimum, current)[lo..lo + |NatToString(minimum)|]) == minimum
  {
    MiddleSlice(WarningHead(dimension), NatToString(minimum), WarningTail(dimension, current));
    StringToNatInverts(minimum);
  }

  lemma WarningCurrent(dimension: string, minimum: nat, current: nat)
    ensures var msg := SizeWarning(dimension, minimum, current);
            var curDigits := NatToString(current);
            StringToNat(msg[|msg| - 1 - |curDigits|..|msg| - 1]) == current
  {
    var msg := SizeWarning(dimension, minimum, current);
    var curDigits := NatToString(current);
    var tail := WarningTail(dimension, current);
    MiddleSlice(", (current " + dimension + " ", curDigits, ")");
    assert msg[|msg| - |tail|..] == tail;
    assert msg[|msg| - 1 - |curDigits|..|msg| - 1] == tail[|tail| - 1 - |curDigits|..|tail| - 1];
    StringToNatInverts(current);
  }

  /** A narrow terminal is reported by its width even when it is also too
      low; the height is reported only for a wide enough terminal. */
  lemma WidthTakesPrecedence(width: nat, height: nat, minWidth: nat, minHeight: nat)
    ensures var msg := CheckSize(width, height, minWidth, minHeight);
            && (width < minWidth ==> msg[|ADVICE|..|ADVICE| + 5] == "width")
            && (width >= minWidth && height < minHeight ==> msg[|ADVICE|..|ADVICE| + 6] == "height")
  {
    SizeWarningReadsBack("width", minWidth, width);
    SizeWarningReadsBack("height", minHeight, height);
  }

  // Help table

  /** The help rows split into a left table of the first half (rounded
      down) and a right table of the rest. */
  function SplitHelpRows<T>(rows: seq<T>): (halves: (seq<T>, seq<T>))
    ensures halves.0 + halves.1 == rows
    ensures |halves.0| <= |halves.1| <= |halves.0| + 1
  {
    (rows[..|rows| / 2], rows[|rows| / 2..])
  }

  // Command palette

  /** The height of the palette's result list: the results plus two border
      rows, at least three rows, and cut to seven rows less than the screen.
      The subtraction only runs for two or more results, and then the screen
      must be at least seven rows high (a lower one underflows the unsigned
      subtraction); zero or one result gives three rows on any screen. */
  function PaletteListHeight(results: nat, screenHeight: nat): (h: nat)
    requires results >= 2 ==> screenHeight >= 7
    ensures results <= 1 ==> h == 3
    ensures results >= 2 ==> h <= results + 2 && h <= screenHeight - 7
    ensures results >= 2 ==> h == results + 2 || h == screenHeight - 7
  {
    if results + 2 > 3 then
      if results + 2 > screenHeight - 7 then screenHeight - 7 else results + 2
    else 3
  }

  /** When the screen has room for every result, all of them are listed
      with their borders; and the list never grows with the screen beyond
      what the results need. */
  lemma PaletteFitsResults(results: nat, screenHeight: nat)
    requires results >= 2 ==> screenHeight >= 7
    ensures results + 2 <= screenHeight - 7 ==> PaletteListHeight(results, screenHeight) == if results <= 1 then 3 else results + 2
    ensures PaletteListHeight(results, screenHeight) <= if results <= 1 then 3 else results + 2
    ensures screenHeight >= 10 ==> PaletteListHeight(results, screenHeight) <= screenHeight - 7
  {
  }

  /** The palette's row window is computed from the list height, which
      counts the two border rows: pointing just below the last result still
      selects, giving the index `results`, one past the last result. */
  lemma PaletteSelectsPastResults(results: nat, screenHeight: nat, area: Rect)
    requires screenHeight >= 7 && results >= 2 && results + 2 <= screenHeight - 7
    requires results + 1 <= area.height
    ensures RowUnderPointer(area.y + 1 + results, area, PaletteListHeight(results, screenHeight), AreaTopPlusLen)
            == Some(results)
  {
  }

  // Cursor of the config editor

  const U16_RANGE: nat := 0x1_0000

  /** The cursor's column and row inside the editor's border: the position
      (cast to 16 bits) laid out over rows of `width - 2` cells. A width
      below three makes that row length zero, so it is required. */
  function CursorOffsets(position: nat, width: nat): (cell: (nat, nat))
    requires width >= 3
    ensures cell.0 < width - 2
    ensures cell.1 * (width - 2) + cell.0 == position % U16_RANGE
  {
    var p := position % U16_RANGE;
    (p % (width - 2), p / (width - 2))
  }

  /** The next position is the next cell of the same row, or the first
      cell of the next row after the last column. */
  lemma CursorOffsetsStep(position: nat, width: nat)
    requires width >= 3 && position + 1 < U16_RANGE
    ensures var (x, y) := CursorOffsets(position, width);
            var (x', y') := CursorOffsets(position + 1, width);
            if x + 1 < width - 2 then x' == x + 1 && y' == y else x' == 0 && y' == y + 1
  {
    var n := width - 2;
    var (x, y) := CursorOffsets(position, width);
    if x + 1 < n {
      Arith.ModUnique(position + 1, n, y, x + 1);
    } else {
      assert (y + 1) * n == y * n + n;
      Arith.ModUnique(position + 1, n, y + 1, 0);
    }
  }

  /** Different 16-bit positions never share a cell. */
  lemma CursorOffsetsInjective(p: nat, q: nat, width: nat)
    requires width >= 3 && p < U16_RANGE && q < U16_RANGE
    requires CursorOffsets(p, width) == CursorOffsets(q, width)
    ensures p == q
  {
  }

  // Due date of a card

  datatype DueStyle = DueWarning | DueCritical | DueDefault | Inactive

  /** The style of the "Due: ..." line: no line for an empty due date; with
      a popup open every due date is inactive; otherwise a date that could
      not be parsed is plain, one due within `warningDelta` days (today
      included) is a warning, and one already past is critical. `daysLeft`
      is the whole number of days from now to the due date, when the date
      parses. */
  function DueDateStyle(dueDate: string, daysLeft: Option<int>, warningDelta: nat, popupOpen: bool): (style: Option<DueStyle>)
    ensures style.None? <==> dueDate == []
    ensures style == Some(Inactive) <==> dueDate != [] && popupOpen
    ensures style == Some(DueWarning) <==> dueDate != [] && !popupOpen && daysLeft.Some? && 0 <= daysLeft.value <= warningDelta
    ensures style == Some(DueCritical) <==> dueDate != [] && !popupOpen && daysLeft.Some? && daysLeft.value < 0
  {
    if dueDate == [] then None
    else match daysLeft
      case Some(d) =>
        if d <= warningDelta && d >= 0 then Some(if popupOpen then Inactive else DueWarning)
        else if d < 0 then Some(if popupOpen then Inactive else DueCritical)
        else Some(if popupOpen then Inactive else DueDefault)
      case None => Some(if popupOpen then Inactive else DueDefault)
  }

  /** Without a popup the default style is left for a date that does not
      parse or is due after the warning window. */
  lemma DueDefaultOnlyOutsideWindow(dueDate: string, daysLeft: Option<int>, warningDelta: nat)
    requires dueDate != []
    ensures DueDateStyle(dueDate, daysLeft, warningDelta, false) == Some(DueDefault)
            <==> daysLeft.None? || daysLeft.value > warningDelta
  {
  }

  /** A date coming closer never gets a milder style: a day less to go
      moves default to warning and warning to critical, never back. */
  lemma DueStyleEscalates(dueDate: string, d: int, warningDelta: nat)
    requires dueDate != []
    ensures var now := DueDateStyle(dueDate, Some(d), warningDelta, false).value;
            var later := DueDateStyle(dueDate, Some(d - 1), warningDelta, false).value;
            Severity(later) >= Severity(now)
  {
  }

  function Severity(style: DueStyle): nat
  {
    match style
    case Inactive => 0
    case DueDefault => 1
    case DueWarning => 2
    case DueCritical => 3
  }
}
