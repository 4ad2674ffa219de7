/**
 * Clock-time text of the schedule feed and of the preferences form:
 * `timeToMinutes` ("H:MM" to minutes after midnight, `NaN` as None),
 * `convertTo24Hour` ("hh:mm AM/PM" to "HH:MM") and the scanner for one
 * 12-hour clock reading, `\d{1,2}:\d{2}\s*[AP]M`, shared by both patterns
 * of the source that contain it.
 */
module Clock {
  import opened Wrappers
  import opened Text

  /** A 24-hour reading in the "HH:MM" shape `convertTo24Hour` produces. */
  predicate IsClock24(t: string) {
    |t| == 5 && IsDigit(t[0]) && IsDigit(t[1]) && t[2] == ':' && IsDigit(t[3]) && IsDigit(t[4])
  }

  /** The two-digit fields "HH:MM" for hour `h` and minute `m`. */
  function ClockText(h: nat, m: nat): (t: string)
    requires h < 100 && m < 100
    ensures IsClock24(t)
  {
    [DigitChar(h / 10), DigitChar(h % 10), ':', DigitChar(m / 10), DigitChar(m % 10)]
  }

  /** A 12-hour reading as the catalog writes it, "hh:mm AM" or "hh:mm PM". */
  function Clock12Text(h: nat, m: nat, pm: bool): string
    requires h < 100 && m < 100
  {
    ClockText(h, m) + " " + (if pm then "PM" else "AM")
  }

  /**
   * `timeToMinutes(time24)`: blank input is `NaN`; otherwise the text is
   * split at ':' and the first two pieces are read with `Number`; a missing
   * or non-numeric piece is `NaN`, else the result is `h * 60 + m`.
   */
  function TimeToMinutes(time24: string): (r: Option<int>)
    ensures time24 == [] ==> r.None?
    ensures r.Some? ==> ':' in time24 && r.value >= 0
  {
    if time24 == [] then None
    else
      var parts := Split(time24, ":");
      assert ':' !in time24 ==> |parts| == 1 by {
        if ':' !in time24 {
          SplitNoSeparator(time24, ':');
        }
      }
      if |parts| < 2 then None
      else
        var h, m := NumberValue(parts[0]), NumberValue(parts[1]);
        if h.None? || m.None? then None else Some(h.value * 60 + m.value)
  }

  /** Text whose first two ':'-fields are numeric reads as `h * 60 + m`; any later fields are ignored. */
  lemma TimeToMinutesOfFields(t: string, hh: string, mm: string, h: int, m: int)
    requires t != [] && |Split(t, ":")| >= 2 && Split(t, ":")[0] == hh && Split(t, ":")[1] == mm
    requires NumberValue(hh) == Some(h) && NumberValue(mm) == Some(m)
    ensures TimeToMinutes(t) == Some(h * 60 + m)
  {
    var parts := Split(t, ":");
    assert NumberValue(parts[0]) == Some(h) && NumberValue(parts[1]) == Some(m);
  }

  /** A first or second ':'-field holding a character that is neither a digit nor white space makes the time `NaN`. */
  lemma NonNumericFieldIsNaN(t: string, f: nat, x: nat)
    requires f < 2 && |Split(t, ":")| >= 2
    requires x < |Split(t, ":")[f]| && !IsDigit(Split(t, ":")[f][x]) && !IsSpace(Split(t, ":")[f][x])
    ensures TimeToMinutes(t).None?
  {
    var parts := Split(t, ":");
    NonNumericIsNaN(parts[f], x);
    if f == 0 {
      assert NumberValue(parts[0]).None?;
    } else {
      assert NumberValue(parts[1]).None?;
    }
  }

  /** "9:xx" is `NaN`: its minutes field is not a number. */
  lemma NonNumericMinutesExample()
    ensures TimeToMinutes("9:xx").None?
  {
    NineXxFields();
    NonNumericFieldIsNaN("9:xx", 1, 0);
  }

  /** "9:xx" splits at ':' into "9" and "xx". */
  lemma NineXxFields()
    ensures Split("9:xx", ":") == ["9", "xx"]
  {
    assert "9:xx" == "9" + [':'] + "xx";
    SplitAfterFirst("9", ':', "xx");
    SplitNoSeparator("xx", ':');
  }

  /** "10:30:00" reads as 630 minutes: the seconds field is ignored. */
  lemma SecondsIgnoredExample()
    ensures TimeToMinutes("10:30:00") == Some(630)
  {
    HourMinuteSecondFields();
    TenReads();
    ThirtyReads();
    TimeToMinutesOfFields("10:30:00", "10", "30", 10, 30);
  }

  /** "10" reads as 10. */
  lemma TenReads()
    ensures NumberValue("10") == Some(10)
  {
    NumberOfDigits("10");
    TwoDigitsValue("10");
  }

  /** "30" reads as 30. */
  lemma ThirtyReads()
    ensures NumberValue("30") == Some(30)
  {
    NumberOfDigits("30");
    TwoDigitsValue("30");
  }

  /** "10:30:00" splits at ':' into "10", "30" and "00". */
  lemma HourMinuteSecondFields()
    ensures Split("10:30:00", ":") == ["10", "30", "00"]
  {
    assert "10:30:00" == "10" + [':'] + "30:00";
    assert "30:00" == "30" + [':'] + "00";
    SplitAfterFirst("10", ':', "30:00");
    SplitAfterFirst("30", ':', "00");
    SplitNoSeparator("00", ':');
  }

  /** A two-digit field is read as the number it spells. */
  lemma TwoDigitsValue(d: string)
    requires |d| == 2 && AllDigits(d)
    ensures DigitsValue(d) == DigitValue(d[0]) * 10 + DigitValue(d[1])
  {
    assert d[..1] == [d[0]];
    assert DigitsValue(d[..1]) == DigitValue(d[0]);
  }

  /** "HH:MM" splits at its colon into the two two-digit fields. */
  lemma {:induction false} ClockTextFields(h: nat, m: nat)
    requires h < 100 && m < 100
    ensures Split(ClockText(h, m), ":") == [[DigitChar(h / 10), DigitChar(h % 10)], [DigitChar(m / 10), DigitChar(m % 10)]]
  {
    var hh := [DigitChar(h / 10), DigitChar(h % 10)];
    var mm := [DigitChar(m / 10), DigitChar(m % 10)];
    assert ClockText(h, m) == hh + [':'] + mm;
    SplitAfterFirst(hh, ':', mm);
    SplitNoSeparator(mm, ':');
  }

  /** `Number` reads the two-digit field of `n < 100` as `n`. */
  lemma {:induction false} TwoDigitField(n: nat)
    requires n < 100
    ensures NumberValue([DigitChar(n / 10), DigitChar(n % 10)]) == Some(n)
  {
    var hi, lo := n / 10, n % 10;
    assert hi * 10 + lo == n;
    var d := [DigitChar(hi), DigitChar(lo)];
    assert DigitValue(d[0]) == hi && DigitValue(d[1]) == lo;
    NumberOfDigits(d);
    TwoDigitsValue(d);
    assert DigitsValue(d) == n;
  }

  /** "HH:MM" reads back as the minutes after midnight it stands for. */
  lemma {:induction false} ClockTextMinutes(h: nat, m: nat)
    requires h < 100 && m < 100
    ensures TimeToMinutes(ClockText(h, m)) == Some(h * 60 + m)
  {
    ClockTextFields(h, m);
    TwoDigitField(h);
    TwoDigitField(m);
    TimeToMinutesOfFields(ClockText(h, m), [DigitChar(h / 10), DigitChar(h % 10)], [DigitChar(m / 10), DigitChar(m % 10)], h, m);
  }

  /** `String(n)`: the decimal digits of `n`, without leading zeros. */
  function DecimalString(n: nat): (s: string)
    ensures |s| >= 1 && AllDigits(s) && DigitsValue(s) == n
    ensures n < 10 ==> s == [DigitChar(n)]
    ensures 10 <= n < 100 ==> s == [DigitChar(n / 10), DigitChar(n % 10)]
  {
    if n < 10 then [DigitChar(n)]
    else
      var prefix := DecimalString(n / 10);
      var s := prefix + [DigitChar(n % 10)];
      assert s[..|s| - 1] == prefix;
      s
  }

  /** `s.padStart(2, '0')`. */
  function PadStart2(s: string): (r: string)
    ensures |s| < 2 ==> |r| == 2 && r[2 - |s|..] == s && forall i :: 0 <= i < 2 - |s| ==> r[i] == '0'
    ensures |s| >= 2 ==> r == s
  {
    if |s| == 0 then "00" else if |s| == 1 then "0" + s else s
  }

  /** The padded decimal hour of `convertTo24Hour` is the two-digit field of `ClockText`. */
  lemma {:induction false} PaddedHour(h: nat)
    requires h < 100
    ensures PadStart2(DecimalString(h)) == [DigitChar(h / 10), DigitChar(h % 10)]
  {
  }

  /**
   * The hour rule of `convertTo24Hour`: PM adds 12 below 12, AM turns 12
   * into 0, and every other hour is kept (no 1..12 range check). On the
   * hours of a 12-hour clock this is the usual reading.
   */
  function Hour24(h: nat, pm: bool): (r: nat)
    ensures 1 <= h <= 12 ==> r == h % 12 + (if pm then 12 else 0)
    ensures h == 0 ==> r == (if pm then 12 else 0)
    ensures h > 12 ==> r == h
    ensures h < 100 ==> r < 100
  {
    if pm && h < 12 then h + 12
    else if !pm && h == 12 then 0
    else h
  }

  /** One reading `\d{1,2}:\d{2}\s*[AP]M`: the hour and minute digits,
      whether the meridiem is PM, and where the match ends. */
  datatype ClockMatch = ClockMatch(hour: string, minutes: string, pm: bool, end: nat)

  /** The first position at or after `j` that is not white space. */
  function SkipSpaces(s: string, j: nat): (k: nat)
    requires j <= |s|
    ensures j <= k <= |s|
    ensures forall x :: j <= x < k ==> IsSpace(s[x])
    ensures k == |s| || !IsSpace(s[k])
    decreases |s| - j
  {
    if j < |s| && IsSpace(s[j]) then SkipSpaces(s, j + 1) else j
  }

  /**
   * Where the colon of `\d{1,2}:` stands when that part matches at `i`.
   * The greedy two-digit try and the one-digit fallback exclude each other
   * (the second character is a digit in one and the colon in the other), so
   * at most one of them succeeds.
   */
  function ColonAt(s: string, i: nat): (c: Option<nat>)
    ensures c.Some? ==> c.value < |s| && s[c.value] == ':' && (c.value == i + 1 || c.value == i + 2)
    ensures c.Some? ==> forall x :: i <= x < c.value ==> IsDigit(s[x])
  {
    if i + 2 < |s| && IsDigit(s[i]) && IsDigit(s[i + 1]) && s[i + 2] == ':' then Some(i + 2)
    else if i + 1 < |s| && IsDigit(s[i]) && s[i + 1] == ':' then Some(i + 1)
    else None
  }

  predicate IsMeridiemLetter(c: char) {
    SameLetterIgnoringCase(c, 'A') || SameLetterIgnoringCase(c, 'P')
  }

  /**
   * Where `m` stands in `s` when it is read at `i`: one or two hour digits,
   * the colon, two minute digits, white space only, then a meridiem letter
   * and 'M' (letters without case); `pm` says which meridiem it is.
   */
  predicate SpellsReading(s: string, i: nat, m: ClockMatch) {
    var h, e := |m.hour|, m.end;
    && 1 <= h <= 2 && i + h + 5 <= e <= |s|
    && AllDigits(m.hour) && DigitsValue(m.hour) < 100
    && |m.minutes| == 2 && AllDigits(m.minutes) && DigitsValue(m.minutes) < 100
    && m.hour == s[i..i + h] && s[i + h] == ':' && m.minutes == s[i + h + 1..i + h + 3]
    && (forall x :: i + h + 3 <= x < e - 2 ==> IsSpace(s[x]))
    && IsMeridiemLetter(s[e - 2]) && SameLetterIgnoringCase(s[e - 1], 'M')
    && (m.pm <==> SameLetterIgnoringCase(s[e - 2], 'P'))
  }

  /**
   * The match of `\d{1,2}:\d{2}\s*[AP]M` (letters without case) anchored
   * at `i`, if any. Each `\s*` is followed by a character that is not white
   * space, so taking the longest run of spaces loses no match.
   */
  function ClockAt(s: string, i: nat): (r: Option<ClockMatch>)
    ensures r.Some? ==> SpellsReading(s, i, r.value)
  {
    match ColonAt(s, i)
    case None => None
    case Some(c) => ReadingAfterColon(s, i, c)
  }

  /** The rest of `ClockAt` once `\d{1,2}:` has matched at `i` with its colon at `c`. */
  function ReadingAfterColon(s: string, i: nat, c: nat): (r: Option<ClockMatch>)
    requires i < c < |s| && c <= i + 2 && s[c] == ':' && forall x :: i <= x < c ==> IsDigit(s[x])
    ensures r.Some? ==> SpellsReading(s, i, r.value)
  {
    if c + 2 < |s| && IsDigit(s[c + 1]) && IsDigit(s[c + 2]) then MeridiemAfter(s, i, c, SkipSpaces(s, c + 3))
    else None
  }

  /** The rest of `ClockAt` once the minutes have matched and the white space after them ends at `p`. */
  function MeridiemAfter(s: string, i: nat, c: nat, p: nat): (r: Option<ClockMatch>)
    requires i < c && c <= i + 2 && c + 3 <= p <= |s| && s[c] == ':' && forall x :: i <= x < c ==> IsDigit(s[x])
    requires IsDigit(s[c + 1]) && IsDigit(s[c + 2]) && forall x :: c + 3 <= x < p ==> IsSpace(s[x])
    ensures r.Some? ==> SpellsReading(s, i, r.value)
  {
    if p + 1 < |s| && IsMeridiemLetter(s[p]) && SameLetterIgnoringCase(s[p + 1], 'M') then
      ShortDigitsValue(s[i..c]);
      ShortDigitsValue(s[c + 1..c + 3]);
      Some(ClockMatch(s[i..c], s[c + 1..c + 3], SameLetterIgnoringCase(s[p], 'P'), p + 2))
    else None
  }

  /**
   * The converse of `ClockAt`'s contract: one or two digits, a colon, two
   * digits, any run of white space and a meridiem "AM" or "PM" (letters
   * without case) at `i` are read as exactly that reading.
   */
  lemma ClockAtReads(s: string, i: nat, hh: string, mm: string, sp: string, x: char, y: char)
    requires 1 <= |hh| <= 2 && AllDigits(hh) && |mm| == 2 && AllDigits(mm)
    requires forall k :: 0 <= k < |sp| ==> IsSpace(sp[k])
    requires IsMeridiemLetter(x) && SameLetterIgnoringCase(y, 'M')
    requires i + |hh| + |sp| + 5 <= |s| && s[i..i + |hh| + |sp| + 5] == hh + ":" + mm + sp + [x, y]
    ensures ClockAt(s, i).Some?
    ensures ClockAt(s, i).value == ClockMatch(hh, mm, SameLetterIgnoringCase(x, 'P'), i + |hh| + |sp| + 5)
  {
    var c := i + |hh|;
    var p := c + 3 + |sp|;
    ReadingChars(s, i, hh, mm, sp, x, y);
    assert ColonAt(s, i) == Some(c);
    assert !IsSpace(x);
    SkipSpacesOverRun(s, c + 3, p);
    MinutesThenMeridiem(s, i, c, p);
  }

  /** With the white space after the minutes ending at `p`, the reading hinges on the meridiem at `p`. */
  lemma MinutesThenMeridiem(s: string, i: nat, c: nat, p: nat)
    requires i < c < |s| && c <= i + 2 && s[c] == ':' && forall x :: i <= x < c ==> IsDigit(s[x])
    requires c + 2 < |s| && IsDigit(s[c + 1]) && IsDigit(s[c + 2])
    requires c + 3 <= p <= |s| && SkipSpaces(s, c + 3) == p
    ensures ReadingAfterColon(s, i, c) == MeridiemAfter(s, i, c, p)
  {
  }

  /** Where each part of a written reading stands in the text. */
  lemma ReadingChars(s: string, i: nat, hh: string, mm: string, sp: string, x: char, y: char)
    requires |mm| == 2
    requires i + |hh| + |sp| + 5 <= |s| && s[i..i + |hh| + |sp| + 5] == hh + ":" + mm + sp + [x, y]
    ensures s[i..i + |hh|] == hh && s[i + |hh|] == ':' && s[i + |hh| + 1..i + |hh| + 3] == mm
    ensures forall k :: 0 <= k < |hh| ==> s[i + k] == hh[k]
    ensures s[i + |hh| + 1] == mm[0] && s[i + |hh| + 2] == mm[1]
    ensures forall k :: 0 <= k < |sp| ==> s[i + |hh| + 3 + k] == sp[k]
    ensures s[i + |hh| + 3 + |sp|] == x && s[i + |hh| + 4 + |sp|] == y
  {
    var n := |hh|;
    SliceOfAppend(s, i, hh + ":" + mm + sp, [x, y]);
    SliceOfAppend(s, i, hh + ":" + mm, sp);
    SliceOfAppend(s, i, hh + ":", mm);
    SliceOfAppend(s, i, hh, ":");
    SliceChars(s, i, hh);
    SliceChars(s, i + n + 3, sp);
    SliceChars(s, i + n + 1, mm);
    SliceChars(s, i + n, ":");
    SliceChars(s, i + n + 3 + |sp|, [x, y]);
  }

  /** A piece of `s` spelled as `u + v` holds `u` and then `v`. */
  lemma SliceOfAppend(s: string, i: nat, u: string, v: string)
    requires i + |u| + |v| <= |s| && s[i..i + |u| + |v|] == u + v
    ensures s[i..i + |u|] == u && s[i + |u|..i + |u| + |v|] == v
  {
    assert s[i..i + |u|] == s[i..i + |u| + |v|][..|u|];
    assert s[i + |u|..i + |u| + |v|] == s[i..i + |u| + |v|][|u|..];
  }

  /** A piece of `s` equal to `u` has the characters of `u`, in place. */
  lemma SliceChars(s: string, i: nat, u: string)
    requires i + |u| <= |s| && s[i..i + |u|] == u
    ensures forall k :: 0 <= k < |u| ==> s[i + k] == u[k]
  {
    forall k | 0 <= k < |u| ensures s[i + k] == u[k] {
      assert s[i..i + |u|][k] == s[i + k];
    }
  }

  /** `SkipSpaces` crosses a run of white space and stops at the first other character. */
  lemma {:induction false} SkipSpacesOverRun(s: string, j: nat, k: nat)
    requires j <= k < |s| && !IsSpace(s[k]) && forall x :: j <= x < k ==> IsSpace(s[x])
    ensures SkipSpaces(s, j) == k
    decreases k - j
  {
    if j < k {
      SkipSpacesOverRun(s, j + 1, k);
    }
  }

  /**
   * What `ClockAt` matched, written out: the hour, the colon, the minutes,
   * the white space and the two meridiem letters, back to back.
   */
  lemma ReadingText(s: string, i: nat, m: ClockMatch)
    requires SpellsReading(s, i, m)
    ensures s[i..m.end] == m.hour + ":" + m.minutes + s[i + |m.hour| + 3..m.end - 2] + [s[m.end - 2], s[m.end - 1]]
  {
    PartsText(s, i, m.hour, m.minutes, m.end);
  }

  /** A piece of text that starts with an hour, ':' and two minute digits, cut into those fields, the gap and its last two characters. */
  lemma PartsText(s: string, i: nat, hh: string, mm: string, e: nat)
    requires |mm| == 2 && i + |hh| + 5 <= e <= |s|
    requires hh == s[i..i + |hh|] && s[i + |hh|] == ':' && mm == s[i + |hh| + 1..i + |hh| + 3]
    ensures s[i..e] == hh + ":" + mm + s[i + |hh| + 3..e - 2] + [s[e - 2], s[e - 1]]
  {
    var h := |hh|;
    var t := hh + ":" + mm + s[i + h + 3..e - 2] + [s[e - 2], s[e - 1]];
    forall k | 0 <= k < e - i
      ensures s[i + k] == t[k]
    {
      if k < h {
        assert t[k] == hh[k];
      } else if k == h {
        assert t[k] == ':';
      } else if k < h + 3 {
        assert t[k] == mm[k - h - 1];
      } else if k < e - i - 2 {
        assert t[k] == s[i + k];
      }
    }
  }

  /** The padded hour, a colon and two minute digits make the "HH:MM" text of that time. */
  lemma {:induction false} HourAndMinutesText(h: nat, minutes: string)
    requires h < 100 && |minutes| == 2 && AllDigits(minutes)
    ensures DigitsValue(minutes) < 100
    ensures PadStart2(DecimalString(h)) + ":" + minutes == ClockText(h, DigitsValue(minutes))
  {
    var m := DigitsValue(minutes);
    TwoDigitsValue(minutes);
    PaddedHour(h);
    assert m / 10 == DigitValue(minutes[0]) && m % 10 == DigitValue(minutes[1]);
    DigitCharOfValue(minutes[0]);
    DigitCharOfValue(minutes[1]);
    assert minutes == [DigitChar(m / 10), DigitChar(m % 10)];
  }

  /**
   * `convertTo24Hour(timeStr)`: empty text is `null`; otherwise the text is
   * lower-cased and trimmed and must begin with `\d{1,2}:\d{2}\s*(am|pm)`
   * (on lower-cased text the case-blind scanner accepts exactly "am" and
   * "pm"); the hour goes through `Hour24` and is padded to two digits, the
   * minute digits are copied unchanged.
   */
  function ConvertTo24Hour(timeStr: string): (r: Option<string>)
    ensures r.Some? <==> timeStr != [] && ClockAt(Trim(LowerAsciiString(timeStr)), 0).Some?
    ensures r.Some? ==>
      var m := ClockAt(Trim(LowerAsciiString(timeStr)), 0).value;
      DigitsValue(m.minutes) < 100
      && r.value == ClockText(Hour24(DigitsValue(m.hour), m.pm), DigitsValue(m.minutes))
      && r.value[3..] == m.minutes
  {
    if timeStr == [] then None
    else
      var lower := Trim(LowerAsciiString(timeStr));
      match ClockAt(lower, 0)
      case None => None
      case Some(m) =>
        var hour := Hour24(DigitsValue(m.hour), m.pm);
        HourAndMinutesText(hour, m.minutes);
        Some(PadStart2(DecimalString(hour)) + ":" + m.minutes)
  }

  /**
   * The catalog's "hh:mm AM/PM" spelling converts to the "HH:MM" text of
   * the same moment: for the hours 1 to 12 that is the usual 12-hour
   * reading (see `Hour24`), and by `ClockTextMinutes` it reads back through
   * `timeToMinutes` as that many minutes after midnight.
   */
  lemma {:induction false} ConvertTwelveHourReading(h: nat, m: nat, pm: bool)
    requires h < 100 && m < 100
    ensures ConvertTo24Hour(Clock12Text(h, m, pm)) == Some(ClockText(Hour24(h, pm), m))
  {
    var hh, mm := [DigitChar(h / 10), DigitChar(h % 10)], [DigitChar(m / 10), DigitChar(m % 10)];
    var x := if pm then 'P' else 'A';
    assert Clock12Text(h, m, pm) == hh + ":" + mm + " " + [x, 'M'];
    TwoDigitsOf(h);
    TwoDigitsOf(m);
    ConvertWrittenReading(hh, mm, " ", x, 'M');
  }

  /** The two-digit field of `n < 100` spells `n`. */
  lemma TwoDigitsOf(n: nat)
    requires n < 100
    ensures AllDigits([DigitChar(n / 10), DigitChar(n % 10)])
    ensures DigitsValue([DigitChar(n / 10), DigitChar(n % 10)]) == n
  {
    TwoDigitsValue([DigitChar(n / 10), DigitChar(n % 10)]);
  }

  /**
   * Any spelling `h:mm AM/PM` the pattern admits (one or two hour digits,
   * any run of white space before the meridiem, letters in either case)
   * converts to the "HH:MM" text of `Hour24` of the hour and the minutes.
   */
  lemma {:induction false} ConvertWrittenReading(hh: string, mm: string, sp: string, x: char, y: char)
    requires 1 <= |hh| <= 2 && AllDigits(hh) && |mm| == 2 && AllDigits(mm)
    requires forall k :: 0 <= k < |sp| ==> IsSpace(sp[k])
    requires IsMeridiemLetter(x) && SameLetterIgnoringCase(y, 'M')
    ensures DigitsValue(hh) < 100 && DigitsValue(mm) < 100
    ensures
      var r := ConvertTo24Hour(hh + ":" + mm + sp + [x, y]);
      r.Some? && r.value == ClockText(Hour24(DigitsValue(hh), SameLetterIgnoringCase(x, 'P')), DigitsValue(mm))
  {
    ScanLoweredReading(hh, mm, sp, x, y);
    ConvertScannedReading(hh, mm, sp, x, y);
  }

  /** The conversion of a written reading once the scanner has read it. */
  lemma ConvertScannedReading(hh: string, mm: string, sp: string, x: char, y: char)
    requires 1 <= |hh| <= 2 && AllDigits(hh) && |mm| == 2 && AllDigits(mm)
    requires var t := hh + ":" + mm + sp + [x, y];
      var r := ClockAt(Trim(LowerAsciiString(t)), 0);
      r.Some? && r.value == ClockMatch(hh, mm, SameLetterIgnoringCase(x, 'P'), |t|)
    ensures DigitsValue(hh) < 100 && DigitsValue(mm) < 100
    ensures
      var r := ConvertTo24Hour(hh + ":" + mm + sp + [x, y]);
      r.Some? && r.value == ClockText(Hour24(DigitsValue(hh), SameLetterIgnoringCase(x, 'P')), DigitsValue(mm))
  {
    var t := hh + ":" + mm + sp + [x, y];
    ConvertOfScan(t, ClockMatch(hh, mm, SameLetterIgnoringCase(x, 'P'), |t|));
  }

  /** The scanner reads a written reading, lower-cased and trimmed, field by field. */
  lemma ScanLoweredReading(hh: string, mm: string, sp: string, x: char, y: char)
    requires 1 <= |hh| <= 2 && AllDigits(hh) && |mm| == 2 && AllDigits(mm)
    requires forall k :: 0 <= k < |sp| ==> IsSpace(sp[k])
    requires IsMeridiemLetter(x) && SameLetterIgnoringCase(y, 'M')
    ensures var t := hh + ":" + mm + sp + [x, y];
      var r := ClockAt(Trim(LowerAsciiString(t)), 0);
      r.Some? && r.value == ClockMatch(hh, mm, SameLetterIgnoringCase(x, 'P'), |t|)
  {
    LoweredReadingScans(hh, mm, sp, x, y);
    ScanReadingLowered(hh, mm, sp, x, y);
  }

  /** The scanner sees a written reading, lower-cased and trimmed, as the reading with lowered meridiem letters. */
  lemma LoweredReadingScans(hh: string, mm: string, sp: string, x: char, y: char)
    requires 1 <= |hh| && AllDigits(hh) && AllDigits(mm)
    requires forall k :: 0 <= k < |sp| ==> IsSpace(sp[k])
    requires IsMeridiemLetter(x) && SameLetterIgnoringCase(y, 'M')
    ensures ClockAt(Trim(LowerAsciiString(hh + ":" + mm + sp + [x, y])), 0)
      == ClockAt(hh + ":" + mm + sp + [LowerAscii(x), LowerAscii(y)], 0)
  {
    LoweredReading(hh, mm, sp, x, y);
  }

  /** The scanner reads a written reading whose meridiem letters are lowered. */
  lemma ScanReadingLowered(hh: string, mm: string, sp: string, x: char, y: char)
    requires 1 <= |hh| <= 2 && AllDigits(hh) && |mm| == 2 && AllDigits(mm)
    requires forall k :: 0 <= k < |sp| ==> IsSpace(sp[k])
    requires IsMeridiemLetter(x) && SameLetterIgnoringCase(y, 'M')
    ensures var l := hh + ":" + mm + sp + [LowerAscii(x), LowerAscii(y)];
      var r := ClockAt(l, 0);
      r.Some? && r.value == ClockMatch(hh, mm, SameLetterIgnoringCase(x, 'P'), |l|)
  {
    var l := hh + ":" + mm + sp + [LowerAscii(x), LowerAscii(y)];
    assert |l| == |hh| + |sp| + 5 && l[0..|l|] == l;
    UpperOfLowerLetter(x);
    UpperOfLowerLetter(y);
    ClockAtReads(l, 0, hh, mm, sp, LowerAscii(x), LowerAscii(y));
  }

  /** `ConvertTo24Hour` of text whose lower-cased, trimmed form the scanner reads as `m`. */
  lemma ConvertOfScan(t: string, m: ClockMatch)
    requires t != [] && ClockAt(Trim(LowerAsciiString(t)), 0).Some? && ClockAt(Trim(LowerAsciiString(t)), 0).value == m
    ensures DigitsValue(m.minutes) < 100 && DigitsValue(m.hour) < 100
    ensures ConvertTo24Hour(t).Some? && ConvertTo24Hour(t).value == ClockText(Hour24(DigitsValue(m.hour), m.pm), DigitsValue(m.minutes))
  {
  }

  /** Lower-casing and trimming a written reading lowers only its meridiem letters. */
  lemma LoweredReading(hh: string, mm: string, sp: string, x: char, y: char)
    requires 1 <= |hh| && AllDigits(hh) && AllDigits(mm)
    requires forall k :: 0 <= k < |sp| ==> IsSpace(sp[k])
    requires IsMeridiemLetter(x) && SameLetterIgnoringCase(y, 'M')
    ensures Trim(LowerAsciiString(hh + ":" + mm + sp + [x, y])) == hh + ":" + mm + sp + [LowerAscii(x), LowerAscii(y)]
  {
    var front := hh + ":" + mm + sp;
    var l := front + [LowerAscii(x), LowerAscii(y)];
    ReadingFrontNoLetters(hh, mm, sp);
    LowerAsciiAppend(front, [x, y]);
    LowerAsciiNoLetters(front);
    assert LowerAsciiString(front + [x, y]) == l;
    assert l[0] == hh[0] && IsDigit(hh[0]);
    TrimUnpadded(l);
  }

  /** The digits, colon and white space before the meridiem hold no letter. */
  lemma ReadingFrontNoLetters(hh: string, mm: string, sp: string)
    requires AllDigits(hh) && AllDigits(mm)
    requires forall k :: 0 <= k < |sp| ==> IsSpace(sp[k])
    ensures var front := hh + ":" + mm + sp; forall k :: 0 <= k < |front| ==> !IsAsciiLetter(front[k])
  {
    var front := hh + ":" + mm + sp;
    forall k | 0 <= k < |front| ensures !IsAsciiLetter(front[k]) {
      if k < |hh| {
        assert front[k] == hh[k];
      } else if k == |hh| {
        assert front[k] == ':';
      } else if k < |hh| + 1 + |mm| {
        assert front[k] == mm[k - |hh| - 1];
      } else {
        assert front[k] == sp[k - |hh| - 1 - |mm|];
      }
    }
  }

  /** Lower-casing keeps a letter's upper case. */
  lemma UpperOfLowerLetter(c: char)
    ensures UpperAscii(LowerAscii(c)) == UpperAscii(c)
  {
  }

  /** "12:00 AM" is midnight. */
  lemma MidnightExample()
    ensures ConvertTo24Hour("12:00 AM") == Some("00:00")
  {
    MidnightTexts();
    ConvertTwelveHourReading(12, 0, false);
  }

  /** Twelve in the morning, written on both clocks. */
  lemma MidnightTexts()
    ensures Clock12Text(12, 0, false) == "12:00 AM"
    ensures ClockText(Hour24(12, false), 0) == "00:00"
  {
    assert Hour24(12, false) == 0;
  }

  /** "12:00 PM" is noon. */
  lemma NoonExample()
    ensures ConvertTo24Hour("12:00 PM") == Some("12:00")
  {
    NoonTexts();
    ConvertTwelveHourReading(12, 0, true);
  }

  /** Twelve in the afternoon, written on both clocks. */
  lemma NoonTexts()
    ensures Clock12Text(12, 0, true) == "12:00 PM"
    ensures ClockText(Hour24(12, true), 0) == "12:00"
  {
    assert Hour24(12, true) == 12;
  }

  /** "01:15 PM" is a quarter past one in the afternoon. */
  lemma AfternoonExample()
    ensures ConvertTo24Hour("01:15 PM") == Some("13:15")
  {
    QuarterPastOnePm();
    ConvertTwelveHourReading(1, 15, true);
  }

  /** A quarter past one in the afternoon, written on both clocks. */
  lemma QuarterPastOnePm()
    ensures Clock12Text(1, 15, true) == "01:15 PM"
    ensures ClockText(Hour24(1, true), 15) == "13:15"
  {
    assert Hour24(1, true) == 13;
  }
}
