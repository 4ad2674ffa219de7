/**
 * The routine table: seven fixed 80-minute class slots a day, the slots a
 * meeting touches (`getAffectedTimeSlots`) and the id of the table cell for
 * a day and a slot (`getCellId`).
 */
module Grid {
  import opened Wrappers
  import opened Text
  import opened Clock
  import opened Catalog

  /** The bounds of the slots as (start hour, start minute, end hour, end minute). */
  const SlotClocks: seq<(nat, nat, nat, nat)> :=
    [(8, 0, 9, 20), (9, 30, 10, 50), (11, 0, 12, 20), (12, 30, 13, 50),
     (14, 0, 15, 20), (15, 30, 16, 50), (17, 0, 18, 20)]

  /** The minute after midnight at which slot `k` starts. */
  function SlotStart(k: nat): nat
    requires k < |SlotClocks|
  {
    SlotClocks[k].0 * 60 + SlotClocks[k].1
  }

  /** The minute after midnight at which slot `k` ends. */
  function SlotEnd(k: nat): nat
    requires k < |SlotClocks|
  {
    SlotClocks[k].2 * 60 + SlotClocks[k].3
  }

  /** "HH:MM-HH:MM", the label of a range of the day. */
  function RangeText(h1: nat, m1: nat, h2: nat, m2: nat): string
    requires h1 < 100 && m1 < 100 && h2 < 100 && m2 < 100
  {
    ClockText(h1, m1) + "-" + ClockText(h2, m2)
  }

  /** The label of slot `k`: its start and end as "HH:MM-HH:MM". */
  function SlotLabel(k: nat): string
    requires k < |SlotClocks|
  {
    var (h1, m1, h2, m2) := SlotClocks[k];
    RangeText(h1, m1, h2, m2)
  }

  /** The slot labels of the table, from "08:00-09:20" to "17:00-18:20". */
  function Slots(): (r: seq<string>)
    ensures |r| == |SlotClocks|
  {
    seq(|SlotClocks|, k requires 0 <= k < |SlotClocks| => SlotLabel(k))
  }

  /** The labels of the two morning slots. */
  lemma MorningSlotsListed()
    ensures Slots()[0] == "08:00-09:20"
    ensures Slots()[1] == "09:30-10:50"
  {
    assert ClockText(8, 0) == "08:00" && ClockText(9, 20) == "09:20";
    assert ClockText(9, 30) == "09:30" && ClockText(10, 50) == "10:50";
  }

  /** The labels of the two midday slots. */
  lemma MiddaySlotsListed()
    ensures Slots()[2] == "11:00-12:20"
    ensures Slots()[3] == "12:30-13:50"
  {
    assert ClockText(11, 0) == "11:00" && ClockText(12, 20) == "12:20";
    assert ClockText(12, 30) == "12:30" && ClockText(13, 50) == "13:50";
  }

  /** The labels of the afternoon slots. */
  lemma AfternoonSlotsListed()
    ensures Slots()[4] == "14:00-15:20"
    ensures Slots()[5] == "15:30-16:50"
    ensures Slots()[6] == "17:00-18:20"
  {
    assert ClockText(14, 0) == "14:00" && ClockText(15, 20) == "15:20";
    assert ClockText(15, 30) == "15:30" && ClockText(16, 50) == "16:50";
    assert ClockText(17, 0) == "17:00" && ClockText(18, 20) == "18:20";
  }

  /** The table is the source's list of labels. */
  lemma SlotsAsListed()
    ensures Slots() == ["08:00-09:20", "09:30-10:50", "11:00-12:20", "12:30-13:50", "14:00-15:20", "15:30-16:50", "17:00-18:20"]
  {
    MorningSlotsListed();
    MiddaySlotsListed();
    AfternoonSlotsListed();
  }

  /** `slot.split('-').map(timeToMinutes)` destructured into its first two readings. */
  function SlotBounds(slot: string): (Option<int>, Option<int>) {
    var parts := Split(slot, "-");
    (TimeToMinutes(parts[0]), if |parts| >= 2 then TimeToMinutes(parts[1]) else None)
  }

  /** The filter test `start < slotEnd && end > slotStart`. */
  predicate Touches(start: int, end: int, slot: string) {
    var (slotStart, slotEnd) := SlotBounds(slot);
    && slotEnd.Some? && start < slotEnd.value
    && slotStart.Some? && slotStart.value < end
  }

  /** The slots among `slots` that the meeting from `start` to `end` touches, in order. */
  function TouchedSlots(start: int, end: int, slots: seq<string>): (r: seq<string>)
    ensures |r| <= |slots|
    ensures forall s :: s in r <==> s in slots && Touches(start, end, s)
  {
    if slots == [] then []
    else
      var init, last := slots[..|slots| - 1], slots[|slots| - 1];
      assert slots == init + [last];
      TouchedSlots(start, end, init) + (if Touches(start, end, last) then [last] else [])
  }

  /** `getAffectedTimeSlots(startTime, endTime)`: none when either time does not read; otherwise the touched slots. */
  function GetAffectedTimeSlots(startTime: string, endTime: string): seq<string> {
    var start, end := TimeToMinutes(startTime), TimeToMinutes(endTime);
    if start.None? || end.None? then [] else TouchedSlots(start.value, end.value, Slots())
  }

  /** A clock text holds no '-'. */
  lemma NoDashInClock(t: string)
    requires IsClock24(t)
    ensures '-' !in t
  {
  }

  /** Two clock texts joined by '-' split back into the two. */
  lemma ClockPairSplits(a: string, b: string)
    requires IsClock24(a) && IsClock24(b)
    ensures SlotBounds(a + "-" + b) == (TimeToMinutes(a), TimeToMinutes(b))
  {
    NoDashInClock(a);
    NoDashInClock(b);
    SplitAfterFirst(a, '-', b);
    SplitNoSeparator(b, '-');
    assert Split(a + "-" + b, "-") == [a, b];
  }

  /** A range label reads as its start and end. */
  lemma RangeTextReads(h1: nat, m1: nat, h2: nat, m2: nat)
    requires h1 < 100 && m1 < 100 && h2 < 100 && m2 < 100
    ensures SlotBounds(RangeText(h1, m1, h2, m2)) == (Some(h1 * 60 + m1), Some(h2 * 60 + m2))
  {
    ClockTextMinutes(h1, m1);
    ClockTextMinutes(h2, m2);
    ClockPairSplits(ClockText(h1, m1), ClockText(h2, m2));
  }

  /** Slot `k`'s label reads as its start and end. */
  lemma SlotReads(k: nat)
    requires k < |Slots()|
    ensures |Slots()| == |SlotClocks|
    ensures SlotBounds(Slots()[k]).0.Some? && SlotBounds(Slots()[k]).0.value == SlotStart(k)
    ensures SlotBounds(Slots()[k]).1.Some? && SlotBounds(Slots()[k]).1.value == SlotEnd(k)
  {
    var c := SlotClocks[k];
    RangeTextReads(c.0, c.1, c.2, c.3);
  }

  /**
   * A slot is affected exactly when both times read and the meeting and the
   * slot overlap as half-open intervals.
   */
  lemma AffectedSlotsAreOverlaps(startTime: string, endTime: string, k: nat)
    requires k < |Slots()|
    ensures Slots()[k] in GetAffectedTimeSlots(startTime, endTime) <==>
      && TimeToMinutes(startTime).Some? && TimeToMinutes(endTime).Some?
      && TimeToMinutes(startTime).value < SlotEnd(k) && SlotStart(k) < TimeToMinutes(endTime).value
  {
    var start, end := TimeToMinutes(startTime), TimeToMinutes(endTime);
    if start.Some? && end.Some? {
      TouchesSlot(start.value, end.value, k);
    }
  }

  /** The filter test on slot `k` is the half-open overlap with the slot's minutes. */
  lemma TouchesSlot(start: int, end: int, k: nat)
    requires k < |Slots()|
    ensures Touches(start, end, Slots()[k]) <==> start < SlotEnd(k) && SlotStart(k) < end
  {
    SlotReads(k);
  }

  /** Every affected slot is a slot of the table, and there are at most seven of them. */
  lemma AffectedSlotsAreSlots(startTime: string, endTime: string)
    ensures |GetAffectedTimeSlots(startTime, endTime)| <= |Slots()|
    ensures forall s :: s in GetAffectedTimeSlots(startTime, endTime) ==> s in Slots()
  {
  }

  /** Time text that does not read affects no slot. */
  lemma UnreadableTimeAffectsNothing(startTime: string, endTime: string)
    requires TimeToMinutes(startTime).None? || TimeToMinutes(endTime).None?
    ensures GetAffectedTimeSlots(startTime, endTime) == []
  {
  }

  /** The slots last 80 minutes each and start every 90 minutes from 08:00. */
  lemma SlotPattern(k: nat)
    requires k < |SlotClocks|
    ensures SlotStart(k) == 480 + 90 * k
    ensures SlotEnd(k) == SlotStart(k) + 80
  {
    if k == 0 {
    } else if k == 1 {
    } else if k == 2 {
    } else if k == 3 {
    } else if k == 4 {
    } else if k == 5 {
    } else {
    }
  }

  /** Slot `i` ends before any later slot `j` starts: the slots never overlap. */
  lemma SlotsInOrder(i: nat, j: nat)
    requires i < j < |SlotClocks|
    ensures SlotEnd(i) < SlotStart(j)
  {
    SlotPattern(i);
    SlotPattern(j);
  }

  /** The labels of different slots differ, since they read as different starts. */
  lemma SlotsDistinct(i: nat, j: nat)
    requires i < |Slots()| && j < |Slots()| && i != j
    ensures Slots()[i] != Slots()[j]
  {
    SlotReads(i);
    SlotReads(j);
    SlotPattern(i);
    SlotPattern(j);
  }

  /** The position of the first `x` in `xs`, the lookup of the source's literal tables. */
  function IndexOf(xs: seq<string>, x: string): (r: Option<nat>)
    ensures r.Some? ==> r.value < |xs| && xs[r.value] == x
  {
    if xs == [] then None
    else if xs[0] == x then Some(0)
    else
      var rest := IndexOf(xs[1..], x);
      if rest.None? then None else Some(rest.value + 1)
  }

  /** The lookup finds exactly the members, and finds the first occurrence. */
  lemma {:induction false} IndexOfFirst(xs: seq<string>, x: string)
    ensures IndexOf(xs, x).None? <==> x !in xs
    ensures IndexOf(xs, x).Some? ==> forall i :: 0 <= i < IndexOf(xs, x).value ==> xs[i] != x
  {
    if xs != [] && xs[0] != x {
      IndexOfFirst(xs[1..], x);
      assert x in xs <==> x in xs[1..] by {
        assert xs == [xs[0]] + xs[1..];
      }
    }
  }

  /**
   * `getCellId(tableId, day, timeSlot)`: the id "tableId-row-col" where
   * `row` is the slot's 1-based position in the slot table and `col` the
   * day's 1-based position from Sunday; `null` (None) when either is not in
   * its table.
   */
  function GetCellId(tableId: string, day: string, timeSlot: string): Option<string> {
    CellIdOf(tableId, IndexOf(Slots(), timeSlot), IndexOf(Days, day))
  }

  /** The cell id for the positions found (counted from 0), if both were found. */
  function CellIdOf(tableId: string, row: Option<nat>, col: Option<nat>): Option<string> {
    if row.Some? && col.Some? then
      Some(CellIdText(tableId, row.value + 1, col.value + 1))
    else None
  }

  /** The template `${tableId}-${row}-${col}`. */
  function CellIdText(tableId: string, row: nat, col: nat): string {
    tableId + "-" + DecimalString(row) + "-" + DecimalString(col)
  }

  /** A cell id exists exactly for a listed slot and a listed day. */
  lemma CellIdDefinedIff(tableId: string, day: string, timeSlot: string)
    ensures GetCellId(tableId, day, timeSlot).Some? <==> timeSlot in Slots() && day in Days
  {
    IndexOfFirst(Slots(), timeSlot);
    IndexOfFirst(Days, day);
  }

  /** The seven day names differ pairwise, already in their first two letters. */
  lemma DaysDistinct(i: nat, j: nat)
    requires i < |Days| && j < |Days| && i != j
    ensures Days[i] != Days[j]
  {
    var a, b := Days[i], Days[j];
    assert a[0] != b[0] || a[1] != b[1];
  }

  /** A slot's row is its own position. */
  lemma SlotRow(k: nat)
    requires k < |Slots()|
    ensures IndexOf(Slots(), Slots()[k]).Some? && IndexOf(Slots(), Slots()[k]).value == k
  {
    IndexOfFirst(Slots(), Slots()[k]);
    var row := IndexOf(Slots(), Slots()[k]).value;
    if row != k {
      SlotsDistinct(row, k);
    }
  }

  /** A day's column is its own position. */
  lemma DayColumn(d: nat)
    requires d < |Days|
    ensures IndexOf(Days, Days[d]).Some? && IndexOf(Days, Days[d]).value == d
  {
    IndexOfFirst(Days, Days[d]);
    var col := IndexOf(Days, Days[d]).value;
    if col != d {
      DaysDistinct(col, d);
    }
  }

  /** The cell of slot `k` on day `d` (both counted from 0) is in row `k + 1` and column `d + 1`. */
  lemma CellIdOfSlotAndDay(tableId: string, k: nat, d: nat)
    requires k < |Slots()| && d < |Days|
    ensures GetCellId(tableId, Days[d], Slots()[k]).Some?
    ensures GetCellId(tableId, Days[d], Slots()[k]).value == CellIdText(tableId, k + 1, d + 1)
  {
    SlotRow(k);
    DayColumn(d);
    CellIdAt(tableId, Days[d], Slots()[k], k, d);
  }

  /** The cell id of a slot and a day found at rows `row` and `col` (counted from 0). */
  lemma CellIdAt(tableId: string, day: string, timeSlot: string, row: nat, col: nat)
    requires IndexOf(Slots(), timeSlot).Some? && IndexOf(Slots(), timeSlot).value == row
    requires IndexOf(Days, day).Some? && IndexOf(Days, day).value == col
    ensures GetCellId(tableId, day, timeSlot).Some?
    ensures GetCellId(tableId, day, timeSlot).value == CellIdText(tableId, row + 1, col + 1)
  {
  }

  /** With one-digit row and column, the cell id is the table id, '-', the row digit, '-', the column digit. */
  lemma CellIdDigits(tableId: string, row: nat, col: nat)
    requires row < 10 && col < 10
    ensures CellIdText(tableId, row, col) == tableId + "-" + [DigitChar(row)] + "-" + [DigitChar(col)]
    ensures |CellIdText(tableId, row, col)| == |tableId| + 4
    ensures CellIdText(tableId, row, col)[|tableId| + 1] == DigitChar(row)
    ensures CellIdText(tableId, row, col)[|tableId| + 3] == DigitChar(col)
  {
  }

  /** Different digits are different characters. */
  lemma DigitCharInjective(a: nat, b: nat)
    requires a < 10 && b < 10 && DigitChar(a) == DigitChar(b)
    ensures a == b
  {
  }

  /** Within one table, different (day, slot) pairs never share a cell. */
  lemma CellIdInjective(tableId: string, day1: string, slot1: string, day2: string, slot2: string)
    requires GetCellId(tableId, day1, slot1).Some?
    requires GetCellId(tableId, day1, slot1) == GetCellId(tableId, day2, slot2)
    ensures day1 == day2 && slot1 == slot2
  {
    var row1, col1 := IndexOf(Slots(), slot1).value, IndexOf(Days, day1).value;
    var row2, col2 := IndexOf(Slots(), slot2).value, IndexOf(Days, day2).value;
    CellIdDigits(tableId, row1 + 1, col1 + 1);
    CellIdDigits(tableId, row2 + 1, col2 + 1);
    DigitCharInjective(row1 + 1, row2 + 1);
    DigitCharInjective(col1 + 1, col2 + 1);
  }
}
