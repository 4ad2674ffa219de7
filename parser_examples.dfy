/**
 * Worked examples of the schedule parser on the kind of text the catalog
 * feed carries: an entry for any listed day with a morning range and a
 * room, one such chunk parsed into its record, and a schedule string of two
 * entries joined by a comma parsed into both records, in order.
 */
module ParserExamples {
  import opened Wrappers
  import opened Text
  import opened Clock
  import opened Catalog
  import opened ScheduleParser

  /** The first reading of the example range. */
  const FirstReading: string := "09:30 AM"

  /** The second reading of the example range. */
  const SecondReading: string := "10:50 AM"

  /** The room text after the range. */
  const RoomText: string := " (Room 301)"

  /** What follows the day name in the example entries: " 09:30 AM-10:50 AM (Room 301)". */
  const Morning: string := " " + FirstReading + "-" + SecondReading + RoomText

  /** The example entry for day `k`. */
  function Entry(k: nat): string
    requires k < |Days|
  {
    Days[k] + Morning
  }

  /** The record the example entry for day `k` yields. */
  function EntryRecord(k: nat): MeetingTime
    requires k < |Days|
  {
    MeetingTime(Days[k], "09:30", "10:50", "Room 301")
  }

  /* ---------- the whole parse of two entries ---------- */

  /** Two entries as the feed writes them, one schedule string. */
  const TwoEntries: string := "Monday 09:30 AM-10:50 AM (Room 301)" + ", " + "Wednesday 09:30 AM-10:50 AM (Room 301)"

  /** The two entries are two chunks, in order. */
  lemma TwoEntriesChunks()
    ensures Chunks(TwoEntries) == [Entry(1), Entry(3)]
  {
    TwoEntriesJoined();
    EntryIsChunk(1);
    EntryIsChunk(3);
    ChunksOfCommaJoin(Entry(1), Entry(3));
  }

  /** The records of the two-entry string: Monday and then Wednesday, each 09:30 to 10:50 in Room 301. */
  lemma TwoEntriesRecords()
    ensures ChunkRecords(Chunks(TwoEntries)) == [
      MeetingTime("Monday", "09:30", "10:50", "Room 301"),
      MeetingTime("Wednesday", "09:30", "10:50", "Room 301")]
  {
    TwoEntriesChunks();
    EntryParses(1);
    EntryParses(3);
    TwoChunkRecords(Entry(1), Entry(3), EntryRecord(1), EntryRecord(3));
    ExampleRecords();
  }

  /** The schedule string is the Monday entry, ", " and the Wednesday entry. */
  lemma TwoEntriesJoined()
    ensures TwoEntries == Entry(1) + ", " + Entry(3)
  {
    MondayEntry();
    WednesdayEntry();
  }

  /** Monday is the second listed day and Wednesday the fourth. */
  lemma ExampleDays()
    ensures Days[1] == "Monday" && Days[3] == "Wednesday"
  {
  }

  /** The records of two chunks that each yield one. */
  lemma TwoChunkRecords(x: string, y: string, rx: MeetingTime, ry: MeetingTime)
    requires ParseChunk(x) == Some(rx) && ParseChunk(y) == Some(ry)
    ensures ChunkRecords([x, y]) == [rx, ry]
  {
    ParsedTwo(x, y);
    PresentOfTwo(rx, ry);
  }

  /** Two chunks give two outcomes, in order. */
  lemma ParsedTwo(x: string, y: string)
    ensures ParsedChunks([x, y]) == [ParseChunk(x), ParseChunk(y)]
  {
  }

  /** Two present records are kept, in order. */
  lemma PresentOfTwo(a: MeetingTime, b: MeetingTime)
    ensures Present([Some(a), Some(b)]) == [a, b]
  {
    PresentOfOne(a);
    assert [Some(a), Some(b)][..1] == [Some(a)];
  }

  /** One present record is kept. */
  lemma PresentOfOne(a: MeetingTime)
    ensures Present([Some(a)]) == [a]
  {
    assert [Some(a)][..0] == [];
  }

  /** The records of the two example entries, written out. */
  lemma ExampleRecords()
    ensures EntryRecord(1) == MeetingTime("Monday", "09:30", "10:50", "Room 301")
    ensures EntryRecord(3) == MeetingTime("Wednesday", "09:30", "10:50", "Room 301")
  {
    ExampleDays();
  }

  /* ---------- one chunk ---------- */

  /** The Monday chunk yields its day, both times in 24-hour form and the room. */
  lemma ParseChunkExample()
    ensures ParseChunk("Monday 09:30 AM-10:50 AM (Room 301)").Some?
    ensures ParseChunk("Monday 09:30 AM-10:50 AM (Room 301)").value
      == MeetingTime("Monday", "09:30", "10:50", "Room 301")
  {
    MondayEntry();
    EntryParses(1);
    ExampleRecords();
  }

  /** The Monday entry, written out. */
  lemma MondayEntry()
    ensures Entry(1) == "Monday 09:30 AM-10:50 AM (Room 301)"
  {
    ExampleDays();
    MorningText();
    MondayWritten();
  }

  /** The Monday entry's text, joined. */
  lemma MondayWritten()
    ensures "Monday" + " 09:30 AM-10:50 AM (Room 301)" == "Monday 09:30 AM-10:50 AM (Room 301)"
  {
  }

  /** The Wednesday entry, written out. */
  lemma WednesdayEntry()
    ensures Entry(3) == "Wednesday 09:30 AM-10:50 AM (Room 301)"
  {
    ExampleDays();
    MorningText();
    WednesdayWritten();
  }

  /** The Wednesday entry's text, joined. */
  lemma WednesdayWritten()
    ensures "Wednesday" + " 09:30 AM-10:50 AM (Room 301)" == "Wednesday 09:30 AM-10:50 AM (Room 301)"
  {
  }

  /** `Morning`, written out. */
  lemma MorningText()
    ensures Morning == " 09:30 AM-10:50 AM (Room 301)"
  {
  }

  /** The entry for any listed day yields that day, 09:30, 10:50 and "Room 301". */
  lemma EntryParses(k: nat)
    requires k < |Days|
    ensures ParseChunk(Entry(k)).Some? && ParseChunk(Entry(k)).value == EntryRecord(k)
  {
    var f := |Days[k]| + 1;
    EntryDay(k);
    EntryRange(k);
    RoomExample();
    MatchValues(f);
    MorningTimes();
    RecordOf(Entry(k), k, EntryMatch(f), Days[k], "09:30", "10:50", "Room 301");
  }

  /** The record of a chunk, from its day, its leftmost range and the room after it. */
  lemma RecordOf(s: string, k: nat, m: RangeMatch, day: string, start: string, end: string, room: string)
    requires k < |Days| && Days[k] == day && ChunkDay(s).Some? && ChunkDay(s).value == k
    requires FirstRange(s, 0).Some? && FirstRange(s, 0).value == m
    requires AllDigits(m.first.hour) && AllDigits(m.first.minutes) && AllDigits(m.second.hour) && AllDigits(m.second.minutes)
    requires DigitsValue(m.first.hour) < 100 && DigitsValue(m.first.minutes) < 100
    requires DigitsValue(m.second.hour) < 100 && DigitsValue(m.second.minutes) < 100
    requires start == ClockText(Hour24(DigitsValue(m.first.hour), m.first.pm), DigitsValue(m.first.minutes))
    requires end == ClockText(Hour24(DigitsValue(m.second.hour), m.second.pm), DigitsValue(m.second.minutes))
    requires m.second.end <= |s| && room == Room(s[m.second.end..])
    ensures ParseChunk(s).Some? && ParseChunk(s).value == MeetingTime(day, start, end, room)
  {
  }

  /* ---------- the day ---------- */

  /** An entry starts with its own day name and with no earlier one. */
  lemma EntryDay(k: nat)
    requires k < |Days|
    ensures ChunkDay(Entry(k)) == Some(k)
  {
    EntryStartsWithDay(k);
    forall d | 0 <= d < k
      ensures !StartsWithIgnoringCase(Entry(k), Days[d])
    {
      EntryNotOtherDay(k, d);
    }
    ChunkDayIsFirst(Entry(k), k);
  }

  /** An entry starts with its day name. */
  lemma EntryStartsWithDay(k: nat)
    requires k < |Days|
    ensures StartsWithIgnoringCase(Entry(k), Days[k])
  {
    assert forall i :: 0 <= i < |Days[k]| ==> Entry(k)[i] == Days[k][i];
  }

  /** An entry does not start with another day name: the first two letters already differ. */
  lemma EntryNotOtherDay(k: nat, d: nat)
    requires k < |Days| && d < |Days| && k != d
    ensures !StartsWithIgnoringCase(Entry(k), Days[d])
  {
    DaysDifferEarly(k, d);
    DayIsWord(k);
    DayIsWord(d);
    assert Entry(k)[0] == Days[k][0] && Entry(k)[1] == Days[k][1];
  }

  /** Two day names differ, up to case, in their first or second letter. */
  lemma DaysDifferEarly(k: nat, d: nat)
    requires k < |Days| && d < |Days| && k != d
    ensures 2 <= |Days[k]| && 2 <= |Days[d]|
    ensures !SameLetterIgnoringCase(Days[k][0], Days[d][0]) || !SameLetterIgnoringCase(Days[k][1], Days[d][1])
  {
  }

  /* ---------- the range ---------- */

  /** The leftmost range of an entry whose day name and space take `f - 1` and one characters. */
  function EntryMatch(f: nat): RangeMatch {
    RangeMatch(f, ClockMatch("09", "30", false, f + 8), f + 8, f + 9, ClockMatch("10", "50", false, f + 17))
  }

  /** The leftmost range of an entry: "09:30 AM", the hyphen, "10:50 AM". */
  lemma EntryRange(k: nat)
    requires k < |Days|
    ensures var f := |Days[k]| + 1;
      && f + 17 <= |Entry(k)| && Entry(k)[f + 17..] == RoomText
      && FirstRange(Entry(k), 0).Some? && FirstRange(Entry(k), 0).value == EntryMatch(|Days[k]| + 1)
  {
    var front := Days[k] + " ";
    var s := Entry(k);
    EntryPieces(k);
    EntryReadings(s, front, RoomText);
    FrontHasNoDigits(k);
    RangeAfterFront(s, |front|, ClockMatch("09", "30", false, |front| + 8), ClockMatch("10", "50", false, |front| + 17));
  }

  /** How an entry is made up around its two readings. */
  lemma EntryPieces(k: nat)
    requires k < |Days|
    ensures Entry(k) == (Days[k] + " ") + FirstReading + ("-" + SecondReading + RoomText)
  {
  }

  /** The two readings of an entry, the hyphen between them and the room text after them. */
  lemma EntryReadings(s: string, front: string, tail: string)
    requires s == front + FirstReading + ("-" + SecondReading + tail)
    ensures var f := |front|;
      && |s| == f + 17 + |tail| && s[f + 17..] == tail && s[f + 8] == '-'
      && ClockAt(s, f).Some? && ClockAt(s, f).value == ClockMatch("09", "30", false, f + 8)
      && ClockAt(s, f + 9).Some? && ClockAt(s, f + 9).value == ClockMatch("10", "50", false, f + 17)
  {
    var r1, r2 := FirstReading, SecondReading;
    Piece(s, front, r1, "-" + r2 + tail);
    Piece(s, front + r1 + "-", r2, tail);
    ReadingPieces(r1, r2);
    MorningReading(s, |front|, "09", "30");
    MorningReading(s, |front| + 9, "10", "50");
  }

  /** An "hh:mm AM" reading with a single space is read at its place. */
  lemma MorningReading(s: string, i: nat, hh: string, mm: string)
    requires |hh| == 2 && AllDigits(hh) && |mm| == 2 && AllDigits(mm)
    requires i + 8 <= |s| && s[i..i + 8] == hh + ":" + mm + " " + ['A', 'M']
    ensures ClockAt(s, i).Some? && ClockAt(s, i).value == ClockMatch(hh, mm, false, i + 8)
  {
    ClockAtReads(s, i, hh, mm, " ", 'A', 'M');
  }

  /** The day name and the space after it hold no digit. */
  lemma FrontHasNoDigits(k: nat)
    requires k < |Days|
    ensures forall x :: 0 <= x <= |Days[k]| ==> !IsDigit(Entry(k)[x])
  {
    DayIsWord(k);
    assert Entry(k)[|Days[k]|] == ' ';
    assert forall x :: 0 <= x < |Days[k]| ==> Entry(k)[x] == Days[k][x];
  }

  /** A range right after `f` characters that are not digits is the leftmost one. */
  lemma RangeAfterFront(s: string, f: nat, c1: ClockMatch, c2: ClockMatch)
    requires c1.end == f + 8 && f + 17 <= |s| && s[f + 8] == '-'
    requires forall x :: 0 <= x < f ==> !IsDigit(s[x])
    requires ClockAt(s, f).Some? && ClockAt(s, f).value == c1
    requires ClockAt(s, f + 9).Some? && ClockAt(s, f + 9).value == c2
    ensures FirstRange(s, 0).Some? && FirstRange(s, 0).value == RangeMatch(f, c1, f + 8, f + 9, c2)
  {
    RangeAtReads(s, f, c1, f + 8, f + 9, c2);
    NoRangeBefore(s, 0, f);
  }

  /** How the two readings are made up. */
  lemma ReadingPieces(r1: string, r2: string)
    requires r1 == "09:30 AM" && r2 == "10:50 AM"
    ensures r1 == "09" + ":" + "30" + " " + ['A', 'M'] && r2 == "10" + ":" + "50" + " " + ['A', 'M']
  {
  }

  /** Where the middle piece of a concatenation stands. */
  lemma Piece(s: string, a: string, b: string, c: string)
    requires s == a + b + c
    ensures s[|a|..|a| + |b|] == b && s[|a| + |b|..] == c && forall i :: 0 <= i < |a| ==> s[i] == a[i]
  {
  }

  /** The digits and meridiems of the two readings of an entry. */
  lemma MatchValues(f: nat)
    ensures var m := EntryMatch(f);
      && AllDigits(m.first.hour) && DigitsValue(m.first.hour) == 9
      && AllDigits(m.first.minutes) && DigitsValue(m.first.minutes) == 30
      && AllDigits(m.second.hour) && DigitsValue(m.second.hour) == 10
      && AllDigits(m.second.minutes) && DigitsValue(m.second.minutes) == 50
      && !m.first.pm && !m.second.pm && m.second.end == f + 17
  {
    assert "09"[..1] == "0" && "30"[..1] == "3" && "10"[..1] == "1" && "50"[..1] == "5";
  }

  /** The two readings of an entry in 24-hour form. */
  lemma MorningTimes()
    ensures ClockText(Hour24(9, false), 30) == "09:30" && ClockText(Hour24(10, false), 50) == "10:50"
  {
  }

  /* ---------- the room ---------- */

  /** The text after the range gives the room without its parentheses. */
  lemma RoomExample()
    ensures Room(RoomText) == "Room 301"
  {
    RoomPieces();
    RoomOfPadded(" (", "Room 301", ")");
  }

  /** The room text, the junk around it and the room. */
  lemma RoomPieces()
    ensures RoomText == " (" + "Room 301" + ")"
  {
  }

  /* ---------- an entry is a chunk of its own ---------- */

  /** An entry holds no separator and no marker character, is not blank, and
      normalising marks it once, in front of its day name. */
  lemma EntryIsChunk(k: nat)
    requires k < |Days|
    ensures ',' !in Entry(k) && '\n' !in Entry(k) && '|' !in Entry(k)
    ensures Trim(Entry(k)) != []
    ensures MarkDays(Entry(k), 0) == Marker + Entry(k)
  {
    EntryChars(k);
    EntryUnpadded(k);
    EntryMarked(k);
  }

  /** An entry's characters are the letters of its day name and those of `Morning`. */
  lemma EntryChars(k: nat)
    requires k < |Days|
    ensures ',' !in Entry(k) && '\n' !in Entry(k) && '|' !in Entry(k)
  {
    DayIsWord(k);
    MorningChars();
  }

  /** No comma, newline or '|' after the day name. */
  lemma MorningChars()
    ensures ',' !in Morning && '\n' !in Morning && '|' !in Morning
  {
    NotInReadings();
    NotInRoomText();
  }

  /** No comma, newline or '|' in the readings. */
  lemma NotInReadings()
    ensures ',' !in FirstReading && '\n' !in FirstReading && '|' !in FirstReading
    ensures ',' !in SecondReading && '\n' !in SecondReading && '|' !in SecondReading
  {
  }

  /** No comma, newline or '|' in the room text. */
  lemma NotInRoomText()
    ensures ',' !in RoomText && '\n' !in RoomText && '|' !in RoomText
  {
  }

  /** An entry begins with a letter and ends with ')', so `trim` keeps all of it. */
  lemma EntryUnpadded(k: nat)
    requires k < |Days|
    ensures Trim(Entry(k)) == Entry(k) && Entry(k) != []
  {
    DayIsWord(k);
    var s := Entry(k);
    assert s[0] == Days[k][0] && s[|s| - 1] == ')';
    TrimUnpadded(s);
  }

  /** Marking the days puts the marker before the day name of an entry and nowhere else. */
  lemma EntryMarked(k: nat)
    requires k < |Days|
    ensures MarkDays(Entry(k), 0) == Marker + Entry(k)
  {
    var gap := " 09:30 ";
    MorningAfterGap();
    EntryRegrouped(k, gap, RangeText);
    GapHasNoLetters();
    MarkDaysJoin(Days[k], gap, RangeText, 0);
    MarkDaysOfDay(k);
    RangeTextKept();
    MarkedRegrouped(Days[k], gap, RangeText);
  }

  /** The text of an entry after the first hour and minutes. */
  const RangeText: string := "AM" + "-10:50 " + ("AM" + " (" + ("Room" + " 301)" + ""))

  /** `Morning` is a gap without letters and the range text. */
  lemma MorningAfterGap()
    ensures Morning == " 09:30 " + RangeText
  {
    ReadingWords();
  }

  /** The readings and the room text, cut at their words. */
  lemma ReadingWords()
    ensures FirstReading == "09:30 " + "AM" && SecondReading == "10:50 " + "AM"
    ensures RoomText == " (" + "Room" + " 301)"
  {
  }

  /** Text with no ASCII letter, which no day name can touch. */
  predicate LetterFree(j: string) {
    forall i :: 0 <= i < |j| ==> !IsAsciiLetter(j[i])
  }

  /** The gap before the first meridiem holds no letter. */
  lemma GapHasNoLetters()
    ensures LetterFree(" 09:30 ")
  {
  }

  /** An entry, seen as its day name, the gap and the range text. */
  lemma EntryRegrouped(k: nat, gap: string, rest: string)
    requires k < |Days| && Morning == gap + rest
    ensures Entry(k) == Days[k] + gap + rest
  {
  }

  /** The marked entry, regrouped. */
  lemma MarkedRegrouped(day: string, gap: string, rest: string)
    ensures Marker + day + gap + rest == Marker + (day + gap + rest)
  {
  }

  /** The range text holds no day name: only the short words "AM" and "Room"
      between pieces without letters. */
  lemma RangeTextKept()
    ensures MarkDays(RangeText, 0) == RangeText
  {
    SecondMeridiemKept();
    ShortWordKept("AM", 0);
    HyphenGapHasNoLetters();
    KeptAcross("AM", "-10:50 ", "AM" + " (" + ("Room" + " 301)" + ""));
  }

  /** The second meridiem and the room text are left alone. */
  lemma SecondMeridiemKept()
    ensures MarkDays("AM" + " (" + ("Room" + " 301)" + ""), 0) == "AM" + " (" + ("Room" + " 301)" + "")
  {
    RoomWordKept();
    ShortWordKept("AM", 0);
    ParenthesisHasNoLetters();
    KeptAcross("AM", " (", "Room" + " 301)" + "");
  }

  /** The room word and its number are left alone. */
  lemma RoomWordKept()
    ensures MarkDays("Room" + " 301)" + "", 0) == "Room" + " 301)" + ""
  {
    ShortWordKept("Room", 0);
    EmptyStaysEmpty(0);
    NumberHasNoLetters();
    KeptAcross("Room", " 301)", "");
  }

  /** The piece between the two readings holds no letter. */
  lemma HyphenGapHasNoLetters()
    ensures LetterFree("-10:50 ")
  {
  }

  /** The piece before the room word holds no letter. */
  lemma ParenthesisHasNoLetters()
    ensures LetterFree(" (")
  {
  }

  /** The room number and closing parenthesis hold no letter. */
  lemma NumberHasNoLetters()
    ensures LetterFree(" 301)")
  {
  }

  /** Text shorter than every day name holds none of them, from the `k`-th day name on. */
  lemma {:induction false} ShortWordKept(s: string, k: nat)
    requires k <= |Days| && |s| < 6
    ensures MarkDays(s, k) == s
    decreases |Days| - k
  {
    if k < |Days| {
      assert ReplaceWordIgnoringCase(s, Days[k], Marker + Days[k]) == s by {
        DayIsLong(k);
        ReplaceWordShort(s, Days[k], Marker + Days[k]);
      }
      ShortWordKept(s, k + 1);
    }
  }

  /** Every day name has at least six letters. */
  lemma DayIsLong(k: nat)
    requires k < |Days|
    ensures 6 <= |Days[k]|
  {
  }

  /** Two pieces that marking leaves alone, joined by a piece without letters, are left alone too. */
  lemma KeptAcross(a: string, j: string, b: string)
    requires j != [] && LetterFree(j)
    requires MarkDays(a, 0) == a && MarkDays(b, 0) == b
    ensures MarkDays(a + j + b, 0) == a + j + b
  {
    MarkDaysJoin(a, j, b, 0);
  }
}
