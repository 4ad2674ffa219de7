/**
 * `parseScheduleString`: free schedule text of the catalog feed to a list of
 * meeting times. The text is normalised (commas and newlines become a
 * marker, and the marker is put before every day name), split at the
 * marker, blank pieces are dropped, and each remaining chunk yields at most
 * one record: it must begin with a day name and contain a time range
 * `hh:mm AM - hh:mm PM`; the text after the range is the room. A chunk that
 * fails is dropped and the parse goes on with the next one.
 */
module ScheduleParser {
  import opened Wrappers
  import opened Text
  import opened Clock
  import opened Catalog

  /** The splitting marker the normalisation inserts. */
  const Marker: string := "|||"

  /* ---------- step 1 and 2: normalise, split, drop blank pieces ---------- */

  /** Puts the marker before every case-blind occurrence of `Days[k]`, then of
      the later day names, one day at a time; each occurrence is rewritten as
      the marker followed by the day name as listed. */
  function MarkDays(s: string, k: nat): string
    requires k <= |Days|
    decreases |Days| - k
  {
    if k == |Days| then s
    else MarkDays(ReplaceWordIgnoringCase(s, Days[k], Marker + Days[k]), k + 1)
  }

  /** The normalised text: commas, then newlines, become the marker; then the days are marked. */
  function Normalize(s: string): string {
    MarkDays(ReplaceChar(ReplaceChar(s, ',', Marker), '\n', Marker), 0)
  }

  /** Every day name is a word of at least six ASCII letters. */
  lemma DaysAreWords()
    ensures forall d :: 0 <= d < |Days| ==> 6 <= |Days[d]| && forall i :: 0 <= i < |Days[d]| ==> IsAsciiLetter(Days[d][i])
  {
  }

  /** `DaysAreWords` for one day. */
  lemma DayIsWord(d: nat)
    requires d < |Days|
    ensures 6 <= |Days[d]| && forall i :: 0 <= i < |Days[d]| ==> IsAsciiLetter(Days[d][i])
  {
    DaysAreWords();
  }

  /**
   * A day name cannot reach across a non-empty piece `j` without letters, so
   * marking the days works on the text before and after `j` separately and
   * keeps `j` as it is.
   */
  lemma {:induction false} MarkDaysJoin(a: string, j: string, b: string, k: nat)
    requires k <= |Days|
    requires j != [] && forall i :: 0 <= i < |j| ==> !IsAsciiLetter(j[i])
    ensures MarkDays(a + j + b, k) == MarkDays(a, k) + j + MarkDays(b, k)
    decreases |Days| - k
  {
    if k < |Days| {
      var rep := Marker + Days[k];
      var a1, b1 := ReplaceWordIgnoringCase(a, Days[k], rep), ReplaceWordIgnoringCase(b, Days[k], rep);
      assert ReplaceWordIgnoringCase(a + j + b, Days[k], rep) == a1 + j + b1 by {
        DayIsWord(k);
        ReplaceWordJoin(a, j, b, Days[k], rep);
      }
      MarkDaysJoin(a1, j, b1, k + 1);
    }
  }

  /** Text without letters holds no day name and is left as it is. */
  lemma {:induction false} MarkDaysNoLetters(s: string, k: nat)
    requires k <= |Days|
    requires forall i :: 0 <= i < |s| ==> !IsAsciiLetter(s[i])
    ensures MarkDays(s, k) == s
    decreases |Days| - k
  {
    if k < |Days| {
      assert ReplaceWordIgnoringCase(s, Days[k], Marker + Days[k]) == s by {
        DayIsWord(k);
        ReplaceWordNoLetters(s, Days[k], Marker + Days[k]);
      }
      MarkDaysNoLetters(s, k + 1);
    }
  }

  /** A word no longer than the remaining day names, which starts with none of them, is left as it is. */
  lemma {:induction false} MarkDaysNoDay(s: string, k: nat)
    requires k <= |Days|
    requires forall d :: k <= d < |Days| ==> |s| <= |Days[d]| && !StartsWithIgnoringCase(s, Days[d])
    ensures MarkDays(s, k) == s
    decreases |Days| - k
  {
    if k < |Days| {
      assert ReplaceWordIgnoringCase(s, Days[k], Marker + Days[k]) == s by {
        DayIsWord(k);
        ReplaceWordNoFit(s, Days[k], Marker + Days[k]);
      }
      MarkDaysNoDay(s, k + 1);
    }
  }

  /** Text holding no case-blind occurrence of the remaining day names is left as it is. */
  lemma {:induction false} MarkDaysAbsent(s: string, k: nat)
    requires k <= |Days|
    requires forall d, i :: k <= d < |Days| && 0 <= i < |s| ==> !StartsWithIgnoringCase(s[i..], Days[d])
    ensures MarkDays(s, k) == s
    decreases |Days| - k
  {
    if k < |Days| {
      DayIsWord(k);
      ReplaceWordAbsent(s, Days[k], Marker + Days[k]);
      MarkDaysAbsent(s, k + 1);
    }
  }

  /** No day name holds, anywhere and up to case, another day name. */
  lemma DayHoldsNoOtherDay(k: nat, d: nat)
    requires k < |Days| && d < |Days| && k != d
    ensures forall i :: 0 <= i < |Days[k]| ==> !StartsWithIgnoringCase(Days[k][i..], Days[d])
  {
    NotInside(Days[k], Days[d]);
  }

  /** A day name, marked on its own, gets exactly one marker in front. */
  lemma MarkDaysOfDay(k: nat)
    requires k < |Days|
    ensures MarkDays(Days[k], 0) == Marker + Days[k]
  {
    MarkDaysOfDayFrom(k, 0);
  }

  /** `MarkDaysOfDay` once the days before `d` have been marked. */
  lemma {:induction false} MarkDaysOfDayFrom(k: nat, d: nat)
    requires k < |Days| && d <= k
    ensures MarkDays(Days[k], d) == Marker + Days[k]
    decreases k - d
  {
    if d < k {
      var w := Days[k];
      assert ReplaceWordIgnoringCase(w, Days[d], Marker + Days[d]) == w by {
        DayHoldsNoOtherDay(k, d);
        ReplaceWordAbsent(w, Days[d], Marker + Days[d]);
      }
      assert MarkDays(w, d) == MarkDays(w, d + 1);
      MarkDaysOfDayFrom(k, d + 1);
    } else {
      MarkDaysAtOwnDay(k);
    }
  }

  /** The step of `MarkDaysOfDayFrom` at the day itself: the whole name is
      rewritten, and no later day occurs in it or in the marker. */
  lemma MarkDaysAtOwnDay(k: nat)
    requires k < |Days|
    ensures MarkDays(Days[k], k) == Marker + Days[k]
  {
    var w := Days[k];
    DayIsWord(k);
    ReplaceWordWhole(w, w, Marker + w);
    assert [] + Marker + w == Marker + w;
    MarkDaysJoin([], Marker, w, k + 1);
    EmptyStaysEmpty(k + 1);
    forall e | k + 1 <= e < |Days|
      ensures forall i :: 0 <= i < |w| ==> !StartsWithIgnoringCase(w[i..], Days[e])
    {
      DayHoldsNoOtherDay(k, e);
    }
    MarkDaysAbsent(w, k + 1);
  }

  /** Text without commas and newlines is normalised by marking the days alone. */
  lemma NormalizeWithoutSeparators(s: string)
    requires ',' !in s && '\n' !in s
    ensures Normalize(s) == MarkDays(s, 0)
  {
    ReplaceCharAbsent(s, ',', Marker);
    ReplaceCharAbsent(s, '\n', Marker);
  }

  /** A comma or a newline between two entries becomes the marker between their normalised texts. */
  lemma NormalizeJoin(a: string, sep: char, b: string)
    requires sep == ',' || sep == '\n'
    ensures Normalize(a + [sep] + b) == Normalize(a) + Marker + Normalize(b)
  {
    var a1, b1 := ReplaceChar(a, ',', Marker), ReplaceChar(b, ',', Marker);
    var a2, b2 := ReplaceChar(a1, '\n', Marker), ReplaceChar(b1, '\n', Marker);
    ReplaceCharAppend(a + [sep], b, ',', Marker);
    ReplaceCharAppend(a, [sep], ',', Marker);
    ReplaceCharOne(sep, ',', Marker);
    var mid := ReplaceChar([sep], ',', Marker);
    ReplaceCharAppend(a1 + mid, b1, '\n', Marker);
    ReplaceCharAppend(a1, mid, '\n', Marker);
    if sep == ',' {
      ReplaceCharAbsent(Marker, '\n', Marker);
    } else {
      ReplaceCharOne(sep, '\n', Marker);
    }
    assert ReplaceChar(mid, '\n', Marker) == Marker;
    assert ReplaceChar(ReplaceChar(a + [sep] + b, ',', Marker), '\n', Marker) == a2 + Marker + b2;
    MarkDaysJoin(a2, Marker, b2, 0);
  }

  /** `xs.filter(keep)`: the elements `keep` accepts, in order. */
  function Keep<T>(keep: T -> bool, xs: seq<T>): (r: seq<T>)
    ensures |r| <= |xs|
  {
    if xs == [] then []
    else
      var init := Keep(keep, xs[..|xs| - 1]);
      var last := xs[|xs| - 1];
      if keep(last) then init + [last] else init
  }

  /** One more element at the end is kept, after the rest, exactly when `keep` accepts it. */
  lemma KeepSnoc<T>(keep: T -> bool, xs: seq<T>, x: T)
    ensures Keep(keep, xs + [x]) == Keep(keep, xs) + if keep(x) then [x] else []
  {
    assert (xs + [x])[..|xs + [x]| - 1] == xs;
  }

  /** The elements kept are exactly the accepted ones. */
  lemma {:induction false} KeepMembers<T>(keep: T -> bool, xs: seq<T>)
    ensures forall c :: c in Keep(keep, xs) <==> c in xs && keep(c)
    decreases |xs|
  {
    if xs != [] {
      var p, x := xs[..|xs| - 1], xs[|xs| - 1];
      assert xs == p + [x];
      KeepMembers(keep, p);
      KeepSnoc(keep, p, x);
    }
  }

  /** Filtering keeps the order: filtering two lists one after the other is filtering their concatenation. */
  lemma {:induction false} KeepAppend<T>(keep: T -> bool, a: seq<T>, b: seq<T>)
    ensures Keep(keep, a + b) == Keep(keep, a) + Keep(keep, b)
    decreases |b|
  {
    if b == [] {
      assert a + b == a;
    } else {
      var b', x := b[..|b| - 1], b[|b| - 1];
      assert b == b' + [x];
      assert a + b == (a + b') + [x];
      KeepAppend(keep, a, b');
      KeepSnoc(keep, a + b', x);
      KeepSnoc(keep, b', x);
    }
  }

  /** A piece that is not all white space: `s.trim()` is truthy. */
  predicate Filled(piece: string) {
    Trim(piece) != []
  }

  /** `pieces.filter(s => s.trim())`: the pieces that are not all white space, in order. */
  function NonBlank(pieces: seq<string>): (r: seq<string>)
    ensures |r| <= |pieces|
  {
    Keep(Filled, pieces)
  }

  /** The pieces kept are exactly those that are not all white space. */
  lemma NonBlankKeeps(pieces: seq<string>)
    ensures forall c :: c in NonBlank(pieces) <==> c in pieces && Trim(c) != []
  {
    KeepMembers(Filled, pieces);
  }

  /** Filtering two piece lists one after the other is filtering their concatenation. */
  lemma NonBlankAppend(a: seq<string>, b: seq<string>)
    ensures NonBlank(a + b) == NonBlank(a) + NonBlank(b)
  {
    KeepAppend(Filled, a, b);
  }

  /** A single piece is kept exactly when it is not all white space. */
  lemma NonBlankOne(c: string)
    ensures NonBlank([c]) == if Trim(c) != [] then [c] else []
  {
    assert [c][..0] == [];
  }

  /** The chunks of a schedule string. */
  function Chunks(s: string): seq<string> {
    NonBlank(Split(Normalize(s), Marker))
  }

  /**
   * Two entries joined by ", ", each holding no comma, newline or '|' and
   * each marked only once, in front, are exactly two chunks: the comma and
   * the day marker of the second entry cut between them, and the blank
   * pieces the cuts leave are dropped.
   */
  lemma ChunksOfCommaJoin(a: string, b: string)
    requires ',' !in a && '\n' !in a && '|' !in a && Trim(a) != []
    requires ',' !in b && '\n' !in b && '|' !in b && Trim(b) != []
    requires MarkDays(a, 0) == Marker + a && MarkDays(b, 0) == Marker + b
    ensures Chunks(a + ", " + b) == [a, b]
  {
    NormalizeCommaJoin(a, b);
    SplitCommaJoin(a, b);
    NonBlankAroundGaps(a, b);
  }

  /** The normalised text of two marked entries joined by ", ". */
  lemma NormalizeCommaJoin(a: string, b: string)
    requires ',' !in a && '\n' !in a && ',' !in b && '\n' !in b
    requires MarkDays(a, 0) == Marker + a && MarkDays(b, 0) == Marker + b
    ensures Normalize(a + ", " + b) == Marker + a + Marker + (" " + Marker + b)
  {
    CommaThenSpace(a, b);
    NormalizeJoin(a, ',', " " + b);
    NormalizeWithoutSeparators(a);
    NormalizeAfterSpace(b);
  }

  /** ", " is the comma followed by the space that starts the second entry. */
  lemma CommaThenSpace(a: string, b: string)
    ensures a + ", " + b == a + [','] + (" " + b)
  {
  }

  /** The second entry, after the space that follows the comma, is marked in front. */
  lemma NormalizeAfterSpace(b: string)
    requires ',' !in b && '\n' !in b && MarkDays(b, 0) == Marker + b
    ensures Normalize(" " + b) == " " + Marker + b
  {
    NoSeparatorAfterSpace(b);
    NormalizeWithoutSeparators(" " + b);
    MarkDaysAfterSpace(b);
  }

  /** A space adds no comma and no newline. */
  lemma NoSeparatorAfterSpace(b: string)
    requires ',' !in b && '\n' !in b
    ensures ',' !in " " + b && '\n' !in " " + b
  {
  }

  /** A leading space stays in front of the marked text. */
  lemma MarkDaysAfterSpace(b: string)
    requires MarkDays(b, 0) == Marker + b
    ensures MarkDays(" " + b, 0) == " " + Marker + b
  {
    EmptyThenSpace(b);
    MarkDaysJoin([], " ", b, 0);
    EmptyStaysEmpty(0);
    SpaceBeforeMarked(b);
  }

  /** The space before an entry, seen as a piece joined to empty text. */
  lemma EmptyThenSpace(b: string)
    ensures [] + " " + b == " " + b
  {
  }

  /** Regrouping the space, the marker and the entry. */
  lemma SpaceBeforeMarked(b: string)
    ensures [] + " " + (Marker + b) == " " + Marker + b
  {
  }

  /** Cutting that text at the markers leaves an empty piece, the first entry, a space and the second entry. */
  lemma SplitCommaJoin(a: string, b: string)
    requires '|' !in a && '|' !in b
    ensures Split(Marker + a + Marker + (" " + Marker + b), Marker) == ["", a, " ", b]
  {
    var rest := " " + Marker + b;
    MarkersRegrouped(a, rest);
    SplitAtMarker([], Marker, a + Marker + rest);
    SplitAtMarker(a, Marker, rest);
    SplitAtMarker(" ", Marker, b);
    SplitWithoutMarker(b, Marker);
  }

  /** The normalised text, seen as an empty piece before the first marker. */
  lemma MarkersRegrouped(a: string, rest: string)
    ensures Marker + a + Marker + rest == [] + Marker + (a + Marker + rest)
  {
  }

  /** Dropping the blank pieces keeps the two entries. */
  lemma NonBlankAroundGaps(a: string, b: string)
    requires Trim(a) != [] && Trim(b) != []
    ensures NonBlank(["", a, " ", b]) == [a, b]
  {
    GapsAreBlank();
    KeepSecondAndFourth(Filled, "", a, " ", b);
  }

  /** The empty piece and the lone space are blank. */
  lemma GapsAreBlank()
    ensures !Filled("") && !Filled(" ")
  {
    TrimEmptyIff("");
    TrimEmptyIff(" ");
  }

  /** Filtering four elements of which only the second and the fourth are accepted. */
  lemma KeepSecondAndFourth<T>(keep: T -> bool, w: T, x: T, y: T, z: T)
    requires !keep(w) && keep(x) && !keep(y) && keep(z)
    ensures Keep(keep, [w, x, y, z]) == [x, z]
  {
    assert [w] == [] + [w];
    KeepSnoc(keep, [], w);
    assert [w, x] == [w] + [x];
    KeepSnoc(keep, [w], x);
    assert [w, x, y] == [w, x] + [y];
    KeepSnoc(keep, [w, x], y);
    assert [w, x, y, z] == [w, x, y] + [z];
    KeepSnoc(keep, [w, x, y], z);
  }

  /* ---------- step 3: the day name at the start of a chunk ---------- */

  /** Index of the first day name that `^(Sunday|...|Saturday)` (case-blind)
      finds at the start of the chunk. */
  function ChunkDay(chunk: string): (k: Option<nat>)
    ensures k.Some? ==> k.value < |Days| && StartsWithIgnoringCase(chunk, Days[k.value])
    ensures k.None? ==> forall d :: 0 <= d < |Days| ==> !StartsWithIgnoringCase(chunk, Days[d])
  {
    FirstDayFrom(chunk, 0)
  }

  function FirstDayFrom(chunk: string, d: nat): (k: Option<nat>)
    requires d <= |Days|
    ensures k.Some? ==> d <= k.value < |Days| && StartsWithIgnoringCase(chunk, Days[k.value])
    ensures k.None? ==> forall e :: d <= e < |Days| ==> !StartsWithIgnoringCase(chunk, Days[e])
    decreases |Days| - d
  {
    if d == |Days| then None
    else if StartsWithIgnoringCase(chunk, Days[d]) then Some(d)
    else FirstDayFrom(chunk, d + 1)
  }

  /** The converse of `ChunkDay`'s contract: the first listed day the chunk starts with is the one found. */
  lemma ChunkDayIsFirst(chunk: string, k: nat)
    requires k < |Days| && StartsWithIgnoringCase(chunk, Days[k])
    requires forall d :: 0 <= d < k ==> !StartsWithIgnoringCase(chunk, Days[d])
    ensures ChunkDay(chunk) == Some(k)
  {
    FirstDayFromReaches(chunk, 0, k);
  }

  /** `ChunkDayIsFirst` for the search from day `d` on. */
  lemma {:induction false} FirstDayFromReaches(chunk: string, d: nat, k: nat)
    requires d <= k < |Days| && StartsWithIgnoringCase(chunk, Days[k])
    requires forall e :: d <= e < k ==> !StartsWithIgnoringCase(chunk, Days[e])
    ensures FirstDayFrom(chunk, d) == Some(k)
    decreases k - d
  {
    if d < k {
      FirstDayFromReaches(chunk, d + 1, k);
    }
  }

  /** `w.charAt(0).toUpperCase() + w.slice(1).toLowerCase()`. */
  function TitleCase(w: string): (r: string)
    ensures |r| == |w|
  {
    if w == [] then [] else [UpperAscii(w[0])] + LowerAsciiString(w[1..])
  }

  /** A capitalised word: an upper-case letter, then lower-case letters. */
  predicate Capitalized(w: string) {
    |w| > 0 && 'A' <= w[0] <= 'Z' && forall i :: 1 <= i < |w| ==> 'a' <= w[i] <= 'z'
  }

  /** Every day name is capitalised. */
  lemma DayCapitalized(k: nat)
    requires k < |Days|
    ensures Capitalized(Days[k])
  {
  }

  /** Title-casing a word that matches a capitalised word without case gives that word. */
  lemma TitleCaseOfMatch(w: string, word: string)
    requires Capitalized(word) && |w| == |word|
    requires forall i :: 0 <= i < |word| ==> SameLetterIgnoringCase(w[i], word[i])
    ensures TitleCase(w) == word
  {
    var t := TitleCase(w);
    forall i | 0 <= i < |word|
      ensures t[i] == word[i]
    {
      assert SameLetterIgnoringCase(w[i], word[i]);
      if i > 0 {
        assert t[i] == LowerAscii(w[i]);
      }
    }
  }

  /** A day name matched without case is turned back into the name as listed. */
  lemma TitleCaseOfDay(chunk: string, k: nat)
    requires k < |Days| && StartsWithIgnoringCase(chunk, Days[k])
    ensures TitleCase(chunk[..|Days[k]|]) == Days[k]
  {
    DayCapitalized(k);
    var w := chunk[..|Days[k]|];
    assert forall i :: 0 <= i < |Days[k]| ==> w[i] == chunk[i];
    TitleCaseOfMatch(w, Days[k]);
  }

  /* ---------- step 4: the leftmost time range ---------- */

  /** A match of `(\d{1,2}:\d{2}\s*[AP]M)\s*-\s*(\d{1,2}:\d{2}\s*[AP]M)`:
      the first reading starts at `start`, the hyphen stands at `dash`, the
      second reading starts at `secondStart`. */
  datatype RangeMatch = RangeMatch(start: nat, first: ClockMatch, dash: nat, secondStart: nat, second: ClockMatch)

  /** The time range anchored at `i`, if any: a reading, white space, a
      hyphen, white space and a second reading (`RangeAtSpells` states the
      text between the readings). */
  function RangeAt(s: string, i: nat): (r: Option<RangeMatch>)
    ensures r.Some? ==> r.value.start == i && ClockAt(s, i) == Some(r.value.first)
    ensures r.Some? ==> r.value.first.end <= r.value.dash < r.value.secondStart
    ensures r.Some? ==> ClockAt(s, r.value.secondStart) == Some(r.value.second)
  {
    match ClockAt(s, i)
    case None => None
    case Some(c1) => RangeAfterReading(s, i, c1, SkipSpaces(s, c1.end))
  }

  /** The rest of `RangeAt` once the first reading `c1` has matched at `i`
      and the white space after it ends at `q`. */
  function RangeAfterReading(s: string, i: nat, c1: ClockMatch, q: nat): (r: Option<RangeMatch>)
    requires c1.end <= q <= |s|
    ensures r.Some? ==> r.value.start == i && r.value.first == c1
    ensures r.Some? ==> c1.end <= r.value.dash < r.value.secondStart
    ensures r.Some? ==> ClockAt(s, r.value.secondStart) == Some(r.value.second)
  {
    if q < |s| && s[q] == '-' then RangeWithSecond(s, i, c1, q, SkipSpaces(s, q + 1))
    else None
  }

  /** The rest of `RangeAt` once the hyphen stands at `q` and the white space after it ends at `g`. */
  function RangeWithSecond(s: string, i: nat, c1: ClockMatch, q: nat, g: nat): (r: Option<RangeMatch>)
    requires c1.end <= q < g
    ensures r.Some? ==> r.value.start == i && r.value.first == c1
    ensures r.Some? ==> c1.end <= r.value.dash < r.value.secondStart
    ensures r.Some? ==> ClockAt(s, r.value.secondStart) == Some(r.value.second)
  {
    match ClockAt(s, g)
    case None => None
    case Some(c2) => Some(RangeMatch(i, c1, q, g, c2))
  }

  /** Between the two readings of a range stand white space, the hyphen and white space. */
  lemma RangeAtSpells(s: string, i: nat)
    requires RangeAt(s, i).Some?
    ensures var m := RangeAt(s, i).value;
      && m.secondStart < |s| && s[m.dash] == '-'
      && (forall x :: m.first.end <= x < m.dash ==> IsSpace(s[x]))
      && (forall x :: m.dash < x < m.secondStart ==> IsSpace(s[x]))
  {
    ReadingStartsWithDigit(s, RangeAt(s, i).value.secondStart);
  }

  /** A reading begins with a digit. */
  lemma ReadingStartsWithDigit(s: string, i: nat)
    requires ClockAt(s, i).Some?
    ensures i < |s| && IsDigit(s[i])
  {
    var m := ClockAt(s, i).value;
    assert s[i] == m.hour[0];
  }

  /** No reading, hence no range, starts where no digit stands. */
  lemma NoReadingWithoutDigit(s: string, i: nat)
    requires i < |s| && !IsDigit(s[i])
    ensures ClockAt(s, i).None? && RangeAt(s, i).None?
  {
    if ClockAt(s, i).Some? {
      ReadingStartsWithDigit(s, i);
    }
  }

  /**
   * The converse of `RangeAt`'s contract: a reading, white space, a hyphen,
   * white space and a second reading make the range anchored at the first.
   */
  lemma RangeAtReads(s: string, i: nat, c1: ClockMatch, d: nat, g: nat, c2: ClockMatch)
    requires ClockAt(s, i).Some? && ClockAt(s, i).value == c1
    requires c1.end <= d < g < |s| && s[d] == '-'
    requires forall x :: c1.end <= x < d ==> IsSpace(s[x])
    requires forall x :: d < x < g ==> IsSpace(s[x])
    requires ClockAt(s, g).Some? && ClockAt(s, g).value == c2
    ensures RangeAt(s, i).Some? && RangeAt(s, i).value == RangeMatch(i, c1, d, g, c2)
  {
    ReadingStartsWithDigit(s, g);
    GapsSkipped(s, c1.end, d, g);
    RangeAfterReads(s, i, c1, d, g, c2);
  }

  /** `RangeAtReads` once the first reading is known. */
  lemma RangeAfterReads(s: string, i: nat, c1: ClockMatch, d: nat, g: nat, c2: ClockMatch)
    requires c1.end <= d < g < |s| && s[d] == '-'
    requires SkipSpaces(s, d + 1) == g
    requires ClockAt(s, g).Some? && ClockAt(s, g).value == c2
    ensures RangeAfterReading(s, i, c1, d) == Some(RangeMatch(i, c1, d, g, c2))
  {
    HyphenBetween(s, i, c1, d, g);
    SecondReadingAt(s, i, c1, d, g, c2);
  }

  /** With the hyphen at `d` and the white space after it ending at `g`, the range hinges on the reading at `g`. */
  lemma HyphenBetween(s: string, i: nat, c1: ClockMatch, d: nat, g: nat)
    requires c1.end <= d < g <= |s| && s[d] == '-'
    requires SkipSpaces(s, d + 1) == g
    ensures RangeAfterReading(s, i, c1, d) == RangeWithSecond(s, i, c1, d, g)
  {
  }

  /** A reading at `g` completes the range. */
  lemma SecondReadingAt(s: string, i: nat, c1: ClockMatch, d: nat, g: nat, c2: ClockMatch)
    requires c1.end <= d < g
    requires ClockAt(s, g).Some? && ClockAt(s, g).value == c2
    ensures RangeWithSecond(s, i, c1, d, g) == Some(RangeMatch(i, c1, d, g, c2))
  {
  }

  /** The runs of white space around the hyphen end where the hyphen and the second reading begin. */
  lemma GapsSkipped(s: string, e: nat, d: nat, g: nat)
    requires e <= d < g < |s| && s[d] == '-' && !IsSpace(s[g])
    requires forall x :: e <= x < d ==> IsSpace(s[x])
    requires forall x :: d < x < g ==> IsSpace(s[x])
    ensures SkipSpaces(s, e) == d && SkipSpaces(s, d + 1) == g
  {
    SkipSpacesOverRun(s, e, d);
    SkipSpacesOverRun(s, d + 1, g);
  }

  /** The first index from `from` on, below `end`, at which `found` holds;
      `end` (or `from`, when that is already past it) when there is none. */
  function FirstWhere(found: nat -> bool, from: nat, end: nat): (k: nat)
    ensures from <= k && (from <= end ==> k <= end) && (k < end ==> found(k))
    ensures forall x :: from <= x < k && x < end ==> !found(x)
    decreases end - from
  {
    if from >= end then from
    else if found(from) then from
    else FirstWhere(found, from + 1, end)
  }

  /** With `found` false all the way from `from` to `j`, the search from either ends at the same index. */
  lemma {:induction false} FirstWhereSkips(found: nat -> bool, from: nat, j: nat, end: nat)
    requires from <= j <= end && forall x :: from <= x < j ==> !found(x)
    ensures FirstWhere(found, from, end) == FirstWhere(found, j, end)
    decreases j - from
  {
    if from < j {
      FirstWhereSkips(found, from + 1, j, end);
    }
  }

  /** Whether a time range starts at an index of `s`. */
  function RangeHere(s: string): nat -> bool {
    (x: nat) => RangeAt(s, x).Some?
  }

  /** Where the leftmost time range at or after `from` starts; `|s|` or
      beyond when there is none. */
  function RangeStart(s: string, from: nat): (k: nat)
    ensures from <= k && (from <= |s| ==> k <= |s|) && (k < |s| ==> RangeAt(s, k).Some?)
    ensures forall x :: from <= x < k && x < |s| ==> RangeAt(s, x).None?
  {
    RangeHereMeans(s);
    FirstWhere(RangeHere(s), from, |s|)
  }

  /** `RangeHere(s)` holds at exactly the indexes where a range starts. */
  lemma RangeHereMeans(s: string)
    ensures forall x: nat :: RangeHere(s)(x) == RangeAt(s, x).Some?
  {
  }

  /** The leftmost time range at or after `from`: `chunk.match(timeRegex)` when `from` is 0. */
  function FirstRange(s: string, from: nat): (r: Option<RangeMatch>)
    ensures r.Some? ==> from <= r.value.start && RangeAt(s, r.value.start) == r
  {
    var k := RangeStart(s, from);
    if k < |s| then RangeAt(s, k) else None
  }

  /** The scan finds the leftmost range: none starts between `from` and the
      one found, and when none is found there is none at all. */
  lemma FirstRangeIsLeftmost(s: string, from: nat, j: nat)
    requires from <= j
    requires FirstRange(s, from).Some? ==> j < FirstRange(s, from).value.start
    ensures RangeAt(s, j).None?
  {
    if j >= |s| {
      assert ClockAt(s, j).None?;
    }
  }

  /** Where no digit stands, no range starts: the scan skips straight to the next digit. */
  lemma NoRangeBefore(s: string, from: nat, j: nat)
    requires from <= j <= |s| && forall x :: from <= x < j ==> !IsDigit(s[x])
    ensures FirstRange(s, from) == FirstRange(s, j)
  {
    forall x | from <= x < j
      ensures RangeAt(s, x).None?
    {
      NoReadingWithoutDigit(s, x);
    }
    SameRangeStart(s, from, j);
  }

  /** With no range between `from` and `j`, the scan from either finds the same start. */
  lemma SameRangeStart(s: string, from: nat, j: nat)
    requires from <= j <= |s| && forall x :: from <= x < j ==> RangeAt(s, x).None?
    ensures RangeStart(s, from) == RangeStart(s, j)
  {
    FirstWhereSkips(RangeHere(s), from, j, |s|);
  }

  /** A reading that the range pattern matched always converts: lower-casing
      and trimming it leaves a text the conversion pattern matches with the
      same digits and meridiem. */
  lemma MatchedReadingConverts(s: string, i: nat, c: ClockMatch)
    requires ClockAt(s, i) == Some(c)
    ensures ConvertTo24Hour(s[i..c.end]) == Some(ClockText(Hour24(DigitsValue(c.hour), c.pm), DigitsValue(c.minutes)))
  {
    SpelledReadingConverts(s, i, c);
  }

  /** `MatchedReadingConverts` for any reading spelled out at `i`. */
  lemma SpelledReadingConverts(s: string, i: nat, c: ClockMatch)
    requires SpellsReading(s, i, c)
    ensures AllDigits(c.hour) && AllDigits(c.minutes) && DigitsValue(c.hour) < 100 && DigitsValue(c.minutes) < 100
    ensures ConvertTo24Hour(s[i..c.end]).Some?
    ensures ConvertTo24Hour(s[i..c.end]).value == ClockText(Hour24(DigitsValue(c.hour), c.pm), DigitsValue(c.minutes))
  {
    var sp := s[i + |c.hour| + 3..c.end - 2];
    ReadingText(s, i, c);
    SpacesOfReading(s, i, c);
    ConvertWrittenReading(c.hour, c.minutes, sp, s[c.end - 2], s[c.end - 1]);
  }

  /** The white space between the minutes and the meridiem of a spelled reading. */
  lemma SpacesOfReading(s: string, i: nat, c: ClockMatch)
    requires SpellsReading(s, i, c)
    ensures var sp := s[i + |c.hour| + 3..c.end - 2]; forall k :: 0 <= k < |sp| ==> IsSpace(sp[k])
  {
    var h := |c.hour|;
    var sp := s[i + h + 3..c.end - 2];
    forall k | 0 <= k < |sp|
      ensures IsSpace(sp[k])
    {
      assert sp[k] == s[i + h + 3 + k];
    }
  }

  /* ---------- step 6: the room ---------- */

  /** Characters `^[-\s(),]+` removes at the front of the room text. */
  predicate IsLeadingJunk(c: char) {
    c == '-' || c == '(' || c == ')' || c == ',' || IsSpace(c)
  }

  /** Characters `[(),\s]+$` removes at the end (a hyphen is kept there). */
  predicate IsTrailingJunk(c: char) {
    c == '(' || c == ')' || c == ',' || IsSpace(c)
  }

  /** `after[a..b]` is what is left once junk is cut from both ends: leading
      junk before `a`, trailing junk from `b` on. */
  predicate JunkAround(after: string, a: nat, b: nat) {
    && a <= b <= |after|
    && (forall i :: 0 <= i < a ==> IsLeadingJunk(after[i]))
    && (forall i :: b <= i < |after| ==> IsTrailingJunk(after[i]))
  }

  function StripLeading(s: string): (r: string)
    ensures |r| <= |s| && r == s[|s| - |r|..]
    ensures forall i :: 0 <= i < |s| - |r| ==> IsLeadingJunk(s[i])
    ensures r == [] || !IsLeadingJunk(r[0])
  {
    if s != [] && IsLeadingJunk(s[0]) then
      var r := StripLeading(s[1..]);
      assert s[1..][|s| - 1 - |r|..] == s[|s| - |r|..];
      assert forall i :: 1 <= i < |s| - |r| ==> s[i] == s[1..][i - 1];
      r
    else s
  }

  function StripTrailing(s: string): (r: string)
    ensures |r| <= |s| && r == s[..|r|]
    ensures forall i :: |r| <= i < |s| ==> IsTrailingJunk(s[i])
    ensures r == [] || !IsTrailingJunk(r[|r| - 1])
  {
    if s != [] && IsTrailingJunk(s[|s| - 1]) then StripTrailing(s[..|s| - 1]) else s
  }

  /**
   * `after.replace(/^[-\s(),]+|[(),\s]+$/g, '').trim()`, with "N/A" for an
   * empty result. The global replacement removes the longest leading run of
   * `[-\s(),]` and then the longest trailing run of `[(),\s]` of what is
   * left (when the rest is all such characters the second alternative takes
   * all of it), which is what the two strips do in turn.
   */
  function Room(after: string): (room: string)
    ensures room != []
    ensures room == "N/A" || exists a: nat, b: nat :: JunkAround(after, a, b) && room == after[a..b]
    ensures (forall i :: 0 <= i < |after| ==> IsLeadingJunk(after[i])) ==> room == "N/A"
    ensures room != "N/A" ==> !IsLeadingJunk(room[0]) && !IsTrailingJunk(room[|room| - 1])
  {
    var lead := StripLeading(after);
    var stripped := StripTrailing(lead);
    StrippedPiece(after, lead, stripped);
    var r := Trim(stripped);
    if r == [] then "N/A" else r
  }

  /** After both strips nothing is left for `trim` to remove, and what
      remains is a piece of the text after the range. */
  lemma StrippedPiece(after: string, lead: string, stripped: string)
    requires |lead| <= |after| && lead == after[|after| - |lead|..] && (lead == [] || !IsLeadingJunk(lead[0]))
    requires |stripped| <= |lead| && stripped == lead[..|stripped|] && (stripped == [] || !IsTrailingJunk(stripped[|stripped| - 1]))
    requires forall i :: |stripped| <= i < |lead| ==> IsTrailingJunk(lead[i])
    requires forall i :: 0 <= i < |after| - |lead| ==> IsLeadingJunk(after[i])
    ensures Trim(stripped) == stripped
    ensures |after| - |lead| + |stripped| <= |after| && stripped == after[|after| - |lead|..|after| - |lead| + |stripped|]
    ensures JunkAround(after, |after| - |lead|, |after| - |lead| + |stripped|)
  {
    var a := |after| - |lead|;
    forall i | a + |stripped| <= i < |after|
      ensures IsTrailingJunk(after[i])
    {
      assert after[i] == lead[i - a];
    }
    if stripped != [] {
      assert stripped[0] == lead[0];
      TrimUnpadded(stripped);
    } else {
      TrimEmptyIff(stripped);
    }
    assert after[a..][..|stripped|] == after[a..a + |stripped|];
  }

  /** `StripLeading` removes exactly a run of leading junk before a text that does not start with junk. */
  lemma {:induction false} StripLeadingOver(j: string, r: string)
    requires forall i :: 0 <= i < |j| ==> IsLeadingJunk(j[i])
    requires r == [] || !IsLeadingJunk(r[0])
    ensures StripLeading(j + r) == r
    decreases |j|
  {
    if j == [] {
      assert j + r == r;
    } else {
      assert (j + r)[1..] == j[1..] + r;
      StripLeadingOver(j[1..], r);
    }
  }

  /** `StripTrailing` removes exactly a run of trailing junk after a text that does not end with junk. */
  lemma {:induction false} StripTrailingOver(r: string, j: string)
    requires forall i :: 0 <= i < |j| ==> IsTrailingJunk(j[i])
    requires r == [] || !IsTrailingJunk(r[|r| - 1])
    ensures StripTrailing(r + j) == r
    decreases |j|
  {
    if j == [] {
      assert r + j == r;
    } else {
      assert (r + j)[..|r + j| - 1] == r + j[..|j| - 1];
      StripTrailingOver(r, j[..|j| - 1]);
    }
  }

  /**
   * The converse of `Room`'s contract: a text that neither starts with
   * leading junk nor ends with trailing junk, wrapped in such junk, is the
   * room.
   */
  lemma RoomOfPadded(lead: string, room: string, trail: string)
    requires forall i :: 0 <= i < |lead| ==> IsLeadingJunk(lead[i])
    requires forall i :: 0 <= i < |trail| ==> IsTrailingJunk(trail[i])
    requires room != [] && !IsLeadingJunk(room[0]) && !IsTrailingJunk(room[|room| - 1])
    ensures Room(lead + room + trail) == room
  {
    StripsOfPadded(lead, room, trail);
    TrimUnpadded(room);
  }

  /** The two strips of `Room` cut exactly the padding around `room`. */
  lemma StripsOfPadded(lead: string, room: string, trail: string)
    requires forall i :: 0 <= i < |lead| ==> IsLeadingJunk(lead[i])
    requires forall i :: 0 <= i < |trail| ==> IsTrailingJunk(trail[i])
    requires room != [] && !IsLeadingJunk(room[0]) && !IsTrailingJunk(room[|room| - 1])
    ensures StripTrailing(StripLeading(lead + room + trail)) == room
  {
    PaddingRegrouped(lead, room, trail);
    StripLeadingOver(lead, room + trail);
    StripTrailingOver(room, trail);
  }

  /** The padded room, seen as the leading junk before the rest. */
  lemma PaddingRegrouped(lead: string, room: string, trail: string)
    ensures lead + room + trail == lead + (room + trail)
  {
  }

  /* ---------- one chunk, and the whole parse ---------- */

  /**
   * The record one chunk yields, if any: the chunk must begin with a day
   * name and contain a time range; start and end are the two readings of
   * the leftmost range in 24-hour form; the room is what follows the range.
   * The branch that drops a chunk whose reading fails to convert is kept as
   * the source has it, and `MatchedReadingConverts` shows it never fires.
   */
  function ParseChunk(chunk: string): (r: Option<MeetingTime>)
    ensures r.Some? <==> ChunkDay(chunk).Some? && FirstRange(chunk, 0).Some?
    ensures r.Some? ==> r.value.day == Days[ChunkDay(chunk).value]
    ensures r.Some? ==>
      var m := FirstRange(chunk, 0).value;
      && r.value.startTime == ClockText(Hour24(DigitsValue(m.first.hour), m.first.pm), DigitsValue(m.first.minutes))
      && r.value.endTime == ClockText(Hour24(DigitsValue(m.second.hour), m.second.pm), DigitsValue(m.second.minutes))
      && r.value.room == Room(chunk[m.second.end..])
  {
    match ChunkDay(chunk)
    case None => None
    case Some(k) =>
      var day := TitleCase(chunk[..|Days[k]|]);
      TitleCaseOfDay(chunk, k);
      match FirstRange(chunk, 0)
      case None => None
      case Some(m) =>
        var startTime := ConvertTo24Hour(chunk[m.start..m.first.end]);
        var endTime := ConvertTo24Hour(chunk[m.secondStart..m.second.end]);
        MatchedReadingConverts(chunk, m.start, m.first);
        MatchedReadingConverts(chunk, m.secondStart, m.second);
        if startTime.None? || endTime.None? then None
        else Some(MeetingTime(day, startTime.value, endTime.value, Room(chunk[m.second.end..])))
  }

  /** `f` applied to each chunk, in chunk order. */
  function MapChunks<T>(f: string -> T, chunks: seq<string>): (r: seq<T>)
    ensures |r| == |chunks| && forall i :: 0 <= i < |chunks| ==> r[i] == f(chunks[i])
  {
    seq(|chunks|, i requires 0 <= i < |chunks| => f(chunks[i]))
  }

  /** Mapping consecutive chunk lists gives consecutive results. */
  lemma MapChunksAppend<T>(f: string -> T, a: seq<string>, b: seq<string>)
    ensures MapChunks(f, a + b) == MapChunks(f, a) + MapChunks(f, b)
  {
    var l, r := MapChunks(f, a + b), MapChunks(f, a) + MapChunks(f, b);
    forall i | 0 <= i < |l|
      ensures l[i] == r[i]
    {
      if i < |a| {
        assert (a + b)[i] == a[i];
      } else {
        assert (a + b)[i] == b[i - |a|];
      }
    }
  }

  /** The outcome of parsing each chunk, in chunk order. */
  function ParsedChunks(chunks: seq<string>): (r: seq<Option<MeetingTime>>)
    ensures |r| == |chunks|
  {
    MapChunks(ParseChunk, chunks)
  }

  /** The records present among `outcomes`, in order. */
  function Present(outcomes: seq<Option<MeetingTime>>): (r: seq<MeetingTime>)
    ensures |r| <= |outcomes|
  {
    if outcomes == [] then []
    else
      var last := outcomes[|outcomes| - 1];
      Present(outcomes[..|outcomes| - 1]) + (if last.Some? then [last.value] else [])
  }

  /** The records of a list of chunks, one per chunk that parses, in chunk order. */
  function ChunkRecords(chunks: seq<string>): seq<MeetingTime> {
    Present(ParsedChunks(chunks))
  }

  /** The records present in consecutive outcome lists are concatenated. */
  lemma {:induction false} PresentAppend(x: seq<Option<MeetingTime>>, y: seq<Option<MeetingTime>>)
    ensures Present(x + y) == Present(x) + Present(y)
    decreases |y|
  {
    if y == [] {
      assert x + y == x;
    } else {
      var y' := y[..|y| - 1];
      assert (x + y)[..|x + y| - 1] == x + y';
      PresentAppend(x, y');
    }
  }

  /** Parsing consecutive chunk lists gives consecutive outcomes. */
  lemma ParsedChunksAppend(a: seq<string>, b: seq<string>)
    ensures ParsedChunks(a + b) == ParsedChunks(a) + ParsedChunks(b)
  {
    MapChunksAppend(ParseChunk, a, b);
  }

  /** Records of consecutive chunk lists are concatenated. */
  lemma ChunkRecordsAppend(a: seq<string>, b: seq<string>)
    ensures ChunkRecords(a + b) == ChunkRecords(a) + ChunkRecords(b)
  {
    ParsedChunksAppend(a, b);
    PresentAppend(ParsedChunks(a), ParsedChunks(b));
  }

  /**
   * A chunk contributes its own record or nothing, in its place: a chunk
   * that does not parse is dropped and the chunks after it are still parsed.
   */
  lemma ChunkDropsOrYields(before: seq<string>, chunk: string, after: seq<string>)
    ensures ChunkRecords(before + [chunk] + after)
      == ChunkRecords(before)
         + (if ParseChunk(chunk).Some? then [ParseChunk(chunk).value] else [])
         + ChunkRecords(after)
  {
    ChunkRecordsAppend(before + [chunk], after);
    ChunkRecordsSnoc(before, chunk);
  }

  /** A record names a listed day and carries "HH:MM" times and a non-empty room. */
  predicate WellFormedRecord(t: MeetingTime) {
    t.day in Days && IsClock24(t.startTime) && IsClock24(t.endTime) && t.room != []
  }

  /** The record of one chunk is well formed. */
  lemma ParseChunkWellFormed(chunk: string)
    ensures ParseChunk(chunk).Some? ==> WellFormedRecord(ParseChunk(chunk).value)
  {
  }

  /** Parsing one more chunk appends its record, if any. */
  lemma ChunkRecordsSnoc(chunks: seq<string>, chunk: string)
    ensures ChunkRecords(chunks + [chunk])
      == ChunkRecords(chunks) + (if ParseChunk(chunk).Some? then [ParseChunk(chunk).value] else [])
  {
    ParsedChunksAppend(chunks, [chunk]);
    PresentAppend(ParsedChunks(chunks), ParsedChunks([chunk]));
    assert ParsedChunks([chunk]) == [ParseChunk(chunk)];
    assert [ParseChunk(chunk)][..0] == [];
  }

  /** The loop step of the parse: the records so far, then the new chunk's record if it has one. */
  lemma ChunkRecordsStep(chunks: seq<string>, chunk: string, results: seq<MeetingTime>, record: Option<MeetingTime>)
    requires results == ChunkRecords(chunks) && record == ParseChunk(chunk)
    ensures ChunkRecords(chunks + [chunk]) == if record.Some? then results + [record.value] else results
  {
    ChunkRecordsSnoc(chunks, chunk);
  }

  /** Every record of `records` is well formed. */
  predicate AllWellFormed(records: seq<MeetingTime>) {
    forall k :: 0 <= k < |records| ==> WellFormedRecord(records[k])
  }

  /** Every record names a listed day and carries "HH:MM" times and a non-empty room. */
  lemma {:induction false} ChunkRecordsWellFormed(chunks: seq<string>)
    ensures AllWellFormed(ChunkRecords(chunks))
    decreases |chunks|
  {
    if chunks != [] {
      var init, last := chunks[..|chunks| - 1], chunks[|chunks| - 1];
      ChunkRecordsWellFormed(init);
      WellFormedSnoc(init, last);
      assert chunks == init + [last];
    }
  }

  /** Parsing one more chunk keeps every record well formed. */
  lemma WellFormedSnoc(chunks: seq<string>, chunk: string)
    requires AllWellFormed(ChunkRecords(chunks))
    ensures AllWellFormed(ChunkRecords(chunks + [chunk]))
  {
    ChunkRecordsSnoc(chunks, chunk);
    if ParseChunk(chunk).Some? {
      ParseChunkWellFormed(chunk);
      WellFormedAppendOne(ChunkRecords(chunks), ParseChunk(chunk).value);
    } else {
      assert ChunkRecords(chunks + [chunk]) == ChunkRecords(chunks) + [];
    }
  }

  lemma WellFormedAppendOne(records: seq<MeetingTime>, record: MeetingTime)
    requires AllWellFormed(records) && WellFormedRecord(record)
    ensures AllWellFormed(records + [record])
  {
    assert (records + [record])[|records|] == record;
  }

  /**
   * `parseScheduleString(scheduleString)`: empty input gives no records;
   * otherwise the text is normalised step by step (the day names one after
   * another, as the source's loop over the day list does), split and
   * filtered, and the chunks are parsed in order, each appending at most one
   * record.
   */
  method ParseScheduleString(scheduleString: string) returns (results: seq<MeetingTime>)
    ensures results == ChunkRecords(Chunks(scheduleString))
    ensures AllWellFormed(results)
    ensures scheduleString == [] ==> results == []
  {
    if scheduleString == [] {
      EmptyHasNoChunks();
      results := [];
      return;
    }
    var processedString := ReplaceChar(ReplaceChar(scheduleString, ',', Marker), '\n', Marker);
    processedString := MarkEveryDay(processedString);
    var chunks := NonBlank(Split(processedString, Marker));
    results := ParseChunks(chunks);
    ChunkRecordsWellFormed(chunks);
  }

  /** The chunk loop of the parse: each chunk in order appends its record, if it has one. */
  method ParseChunks(chunks: seq<string>) returns (results: seq<MeetingTime>)
    ensures results == ChunkRecords(chunks)
  {
    results := [];
    for i := 0 to |chunks|
      invariant results == ChunkRecords(chunks[..i])
    {
      assert chunks[..i + 1] == chunks[..i] + [chunks[i]];
      var record := ParseChunk(chunks[i]);
      ChunkRecordsStep(chunks[..i], chunks[i], results, record);
      if record.Some? {
        results := results + [record.value];
      }
    }
    assert chunks[..|chunks|] == chunks;
  }

  /** The day loop of the parse: each day name in turn gets the marker put before its occurrences. */
  method MarkEveryDay(s: string) returns (processed: string)
    ensures processed == MarkDays(s, 0)
  {
    processed := s;
    for k := 0 to |Days|
      invariant MarkDays(processed, k) == MarkDays(s, 0)
    {
      processed := ReplaceWordIgnoringCase(processed, Days[k], Marker + Days[k]);
    }
  }

  /** The empty text holds no chunk. */
  lemma EmptyHasNoChunks()
    ensures Chunks("") == []
  {
    assert Normalize("") == [] by {
      EmptyStaysEmpty(0);
    }
    assert Trim("") == [];
  }

  /** Marking days in the empty text leaves it empty. */
  lemma {:induction false} EmptyStaysEmpty(k: nat)
    requires k <= |Days|
    ensures MarkDays("", k) == ""
    decreases |Days| - k
  {
    if k < |Days| {
      EmptyStaysEmpty(k + 1);
    }
  }
}
