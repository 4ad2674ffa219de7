/**
 * The routine generator: which sections fit the preferences
 * (`isSectionValid`), whether a section clashes with a partial routine
 * (`hasConflict`), the depth-first search over one section per selected
 * course with its cap of 500 routines (`generate`), and the in-place
 * Fisher-Yates shuffle of the result (`shuffleArray`).
 *
 * The generator's three fields are set once by its constructor and never
 * changed, so they are passed here as parameters. JavaScript's `NaN` is
 * `None`; every comparison with it is false and `Math.max`/`Math.min` with
 * it give it back.
 */
module RoutineGenerator {
  import opened Wrappers
  import opened Clock
  import opened Catalog

  /** The search stops collecting routines once it holds this many. */
  const Cap: nat := 500

  /* ---------- numbers that may be NaN ---------- */

  /** `a < b`, false when either side is `NaN`. */
  predicate Less(a: Option<int>, b: Option<int>) {
    a.Some? && b.Some? && a.value < b.value
  }

  /** `Math.max(a, b)`. */
  function Max(a: Option<int>, b: Option<int>): (r: Option<int>)
    ensures r.Some? <==> a.Some? && b.Some?
    ensures r.Some? ==> r.value >= a.value && r.value >= b.value && (r.value == a.value || r.value == b.value)
  {
    if a.None? || b.None? then None else if a.value >= b.value then a else b
  }

  /** `Math.min(a, b)`. */
  function Min(a: Option<int>, b: Option<int>): (r: Option<int>)
    ensures r.Some? <==> a.Some? && b.Some?
    ensures r.Some? ==> r.value <= a.value && r.value <= b.value && (r.value == a.value || r.value == b.value)
  {
    if a.None? || b.None? then None else if a.value <= b.value then a else b
  }

  /** Half-open intervals `[a, b)` and `[c, d)` share a point. */
  predicate Overlap(a: int, b: int, c: int, d: int) {
    a < d && c < b
  }

  /* ---------- isSectionValid ---------- */

  /** The test `isSectionValid` applies to each meeting of a section. */
  predicate MeetingFits(p: Preferences, t: MeetingTime) {
    var timeStart := TimeToMinutes(t.startTime);
    var timeEnd := TimeToMinutes(t.endTime);
    && timeStart.Some? && timeEnd.Some?
    && t.day in p.days
    && Less(TimeToMinutes(p.startTime), timeEnd)
    && Less(timeStart, TimeToMinutes(p.endTime))
  }

  /** `isSectionValid(section)`: a section without meetings always fits; otherwise every meeting must. */
  predicate IsSectionValid(p: Preferences, s: Section) {
    |s.times| == 0 || forall i :: 0 <= i < |s.times| ==> MeetingFits(p, s.times[i])
  }

  /**
   * A meeting fits exactly when its times and the window's are readable,
   * its day is preferred, and the meeting and the window overlap as
   * half-open intervals.
   */
  lemma MeetingFitsIsOverlap(p: Preferences, t: MeetingTime)
    ensures MeetingFits(p, t) <==>
      var ts, te := TimeToMinutes(t.startTime), TimeToMinutes(t.endTime);
      var ws, we := TimeToMinutes(p.startTime), TimeToMinutes(p.endTime);
      && ts.Some? && te.Some? && ws.Some? && we.Some?
      && t.day in p.days
      && Overlap(ts.value, te.value, ws.value, we.value)
  {
  }

  /**
   * `isSectionValid` in full: a section without meetings is valid, and
   * otherwise each meeting needs readable times, a preferred day and a
   * half-open overlap with a readable window.
   */
  lemma SectionValidIff(p: Preferences, s: Section)
    ensures IsSectionValid(p, s) <==>
      || |s.times| == 0
      || forall i :: 0 <= i < |s.times| ==>
           var ts, te := TimeToMinutes(s.times[i].startTime), TimeToMinutes(s.times[i].endTime);
           var ws, we := TimeToMinutes(p.startTime), TimeToMinutes(p.endTime);
           && ts.Some? && te.Some? && ws.Some? && we.Some?
           && s.times[i].day in p.days
           && Overlap(ts.value, te.value, ws.value, we.value)
  {
    var ws, we := TimeToMinutes(p.startTime), TimeToMinutes(p.endTime);
    forall i | 0 <= i < |s.times|
      ensures MeetingFits(p, s.times[i]) <==>
        var ts, te := TimeToMinutes(s.times[i].startTime), TimeToMinutes(s.times[i].endTime);
        && ts.Some? && te.Some? && ws.Some? && we.Some?
        && s.times[i].day in p.days
        && Overlap(ts.value, te.value, ws.value, we.value)
    {
      MeetingFitsIsOverlap(p, s.times[i]);
    }
    assert IsSectionValid(p, s) ==> |s.times| == 0 || forall i :: 0 <= i < |s.times| ==> MeetingFits(p, s.times[i]);
  }

  /** A meeting that only touches the window, at either end, makes its section invalid. */
  lemma TouchingWindowInvalid(p: Preferences, s: Section, k: nat)
    requires k < |s.times|
    requires var t := s.times[k];
      || TimeToMinutes(t.endTime) == TimeToMinutes(p.startTime)
      || TimeToMinutes(t.startTime) == TimeToMinutes(p.endTime)
    ensures !IsSectionValid(p, s)
  {
    assert !MeetingFits(p, s.times[k]);
  }

  /** A window that does not read as a time rejects every section that has meetings. */
  lemma UnreadableWindowRejects(p: Preferences, s: Section)
    requires TimeToMinutes(p.startTime).None? || TimeToMinutes(p.endTime).None?
    ensures IsSectionValid(p, s) <==> |s.times| == 0
  {
    if |s.times| > 0 {
      assert !MeetingFits(p, s.times[0]);
    }
  }

  /** A wider window and more preferred days keep a valid section valid. */
  lemma WiderPreferencesKeepValid(p: Preferences, q: Preferences, s: Section)
    requires forall d :: d in p.days ==> d in q.days
    requires TimeToMinutes(p.startTime).Some? && TimeToMinutes(p.endTime).Some?
    requires TimeToMinutes(q.startTime).Some? && TimeToMinutes(q.endTime).Some?
    requires TimeToMinutes(q.startTime).value <= TimeToMinutes(p.startTime).value
    requires TimeToMinutes(p.endTime).value <= TimeToMinutes(q.endTime).value
    requires IsSectionValid(p, s)
    ensures IsSectionValid(q, s)
  {
    forall i | 0 <= i < |s.times|
      ensures MeetingFits(q, s.times[i])
    {
      assert MeetingFits(p, s.times[i]);
    }
  }

  /* ---------- hasConflict ---------- */

  /** Two meetings clash: the same day, and the later start is before the earlier end. */
  predicate MeetingsClash(a: MeetingTime, b: MeetingTime) {
    && a.day == b.day
    && Less(Max(TimeToMinutes(a.startTime), TimeToMinutes(b.startTime)),
            Min(TimeToMinutes(a.endTime), TimeToMinutes(b.endTime)))
  }

  /** Some meeting of `x` clashes with some meeting of `y`. */
  predicate SectionsClash(x: Section, y: Section) {
    exists i, j :: 0 <= i < |x.times| && 0 <= j < |y.times| && MeetingsClash(x.times[i], y.times[j])
  }

  /** Some section already in the routine clashes with `s`. */
  predicate Conflicts(routine: seq<Section>, s: Section) {
    exists k :: 0 <= k < |routine| && SectionsClash(s, routine[k])
  }

  /**
   * `hasConflict(existingRoutine, newSection)`: the three nested loops of
   * the source, returning as soon as one pair of meetings clashes.
   */
  method HasConflict(existingRoutine: seq<Section>, newSection: Section) returns (conflict: bool)
    ensures conflict == Conflicts(existingRoutine, newSection)
  {
    for k := 0 to |existingRoutine|
      invariant forall k' :: 0 <= k' < k ==> !SectionsClash(newSection, existingRoutine[k'])
    {
      var existingSection := existingRoutine[k];
      for a := 0 to |newSection.times|
        invariant forall a', b :: 0 <= a' < a && 0 <= b < |existingSection.times| ==>
          !MeetingsClash(newSection.times[a'], existingSection.times[b])
      {
        var timeA := newSection.times[a];
        for b := 0 to |existingSection.times|
          invariant forall b' :: 0 <= b' < b ==> !MeetingsClash(timeA, existingSection.times[b'])
        {
          var timeB := existingSection.times[b];
          if timeA.day == timeB.day
            && Less(Max(TimeToMinutes(timeA.startTime), TimeToMinutes(timeB.startTime)),
                    Min(TimeToMinutes(timeA.endTime), TimeToMinutes(timeB.endTime)))
          {
            ClashFound(existingRoutine, newSection, k, a, b);
            return true;
          }
          NoClashStep(timeA, existingSection.times, b);
        }
        NoClashRowStep(newSection.times, existingSection.times, a);
      }
      NoClashSectionStep(existingRoutine, newSection, k);
    }
    return false;
  }

  /** One clashing pair of meetings is a conflict. */
  lemma ClashFound(routine: seq<Section>, s: Section, k: nat, a: nat, b: nat)
    requires k < |routine| && a < |s.times| && b < |routine[k].times|
    requires MeetingsClash(s.times[a], routine[k].times[b])
    ensures Conflicts(routine, s)
  {
  }

  /** The innermost scan: one more meeting without a clash. */
  lemma NoClashStep(x: MeetingTime, ts: seq<MeetingTime>, b: nat)
    requires b < |ts|
    requires forall b' :: 0 <= b' < b ==> !MeetingsClash(x, ts[b'])
    requires !MeetingsClash(x, ts[b])
    ensures forall b' :: 0 <= b' < b + 1 ==> !MeetingsClash(x, ts[b'])
  {
  }

  /** The middle scan: one more meeting of the new section clashes with none of the other's. */
  lemma NoClashRowStep(xs: seq<MeetingTime>, ts: seq<MeetingTime>, a: nat)
    requires a < |xs|
    requires forall a', b :: 0 <= a' < a && 0 <= b < |ts| ==> !MeetingsClash(xs[a'], ts[b])
    requires forall b :: 0 <= b < |ts| ==> !MeetingsClash(xs[a], ts[b])
    ensures forall a', b :: 0 <= a' < a + 1 && 0 <= b < |ts| ==> !MeetingsClash(xs[a'], ts[b])
  {
  }

  /** The outer scan: one more section of the routine without a clash. */
  lemma NoClashSectionStep(routine: seq<Section>, s: Section, k: nat)
    requires k < |routine|
    requires forall k' :: 0 <= k' < k ==> !SectionsClash(s, routine[k'])
    requires forall a, b :: 0 <= a < |s.times| && 0 <= b < |routine[k].times| ==>
      !MeetingsClash(s.times[a], routine[k].times[b])
    ensures forall k' :: 0 <= k' < k + 1 ==> !SectionsClash(s, routine[k'])
  {
  }

  /**
   * The `max < min` test is the half-open overlap of two intervals that
   * are each non-empty: the same boundary convention as the preference
   * window, except that a clash also needs each meeting to end after it starts.
   */
  lemma ClashIsOverlap(a: MeetingTime, b: MeetingTime)
    ensures MeetingsClash(a, b) <==>
      var sa, ea := TimeToMinutes(a.startTime), TimeToMinutes(a.endTime);
      var sb, eb := TimeToMinutes(b.startTime), TimeToMinutes(b.endTime);
      && a.day == b.day
      && sa.Some? && ea.Some? && sb.Some? && eb.Some?
      && sa.value < ea.value && sb.value < eb.value
      && Overlap(sa.value, ea.value, sb.value, eb.value)
  {
    LaterStartBeforeEarlierEnd(TimeToMinutes(a.startTime), TimeToMinutes(a.endTime),
      TimeToMinutes(b.startTime), TimeToMinutes(b.endTime));
  }

  /** `Math.max(sa, sb) < Math.min(ea, eb)` on numbers that may be `NaN`. */
  lemma LaterStartBeforeEarlierEnd(sa: Option<int>, ea: Option<int>, sb: Option<int>, eb: Option<int>)
    ensures Less(Max(sa, sb), Min(ea, eb)) <==>
      && sa.Some? && ea.Some? && sb.Some? && eb.Some?
      && sa.value < ea.value && sb.value < eb.value
      && Overlap(sa.value, ea.value, sb.value, eb.value)
  {
  }

  /** Clashing does not depend on which meeting is new. */
  lemma ClashSymmetric(a: MeetingTime, b: MeetingTime)
    ensures MeetingsClash(a, b) <==> MeetingsClash(b, a)
  {
  }

  /** Meetings where one ends exactly when the other starts do not clash. */
  lemma TouchingMeetingsDoNotClash(a: MeetingTime, b: MeetingTime)
    requires TimeToMinutes(a.endTime).Some? && TimeToMinutes(a.endTime) == TimeToMinutes(b.startTime)
    ensures !MeetingsClash(a, b) && !MeetingsClash(b, a)
  {
    ClashIsOverlap(a, b);
    ClashIsOverlap(b, a);
  }

  /** Nothing conflicts with the empty routine. */
  lemma EmptyRoutineNeverConflicts(s: Section)
    ensures !Conflicts([], s)
  {
  }

  /** A section meeting on Monday from 08:00 to 09:20. */
  function EarlyMondaySection(): Section {
    Section(1, "CSE115", "1", "ABC", [MeetingTime("Monday", ClockText(8, 0), ClockText(9, 20), "NAC201")], 40, 0, "")
  }

  /**
   * Against a Monday window starting at 09:20 the early section only touches
   * the window and is dropped; against one starting at 09:00 it is kept.
   */
  lemma WindowEdgeExample()
    ensures !IsSectionValid(Preferences(["Monday"], ClockText(9, 20), ClockText(17, 0)), EarlyMondaySection())
    ensures IsSectionValid(Preferences(["Monday"], ClockText(9, 0), ClockText(17, 0)), EarlyMondaySection())
  {
    ClockTextMinutes(8, 0);
    ClockTextMinutes(9, 20);
    ClockTextMinutes(9, 0);
    ClockTextMinutes(17, 0);
    var t := EarlyMondaySection().times[0];
    assert !MeetingFits(Preferences(["Monday"], ClockText(9, 20), ClockText(17, 0)), t);
    assert MeetingFits(Preferences(["Monday"], ClockText(9, 0), ClockText(17, 0)), t);
  }

  /** A section with one Monday meeting from `startTime` to `endTime`. */
  function MondaySection(startTime: string, endTime: string): Section {
    Section(0, "", "", "", [MeetingTime("Monday", startTime, endTime, "")], 0, 0, "")
  }

  /** Against a routine of one single-meeting section, a single-meeting section conflicts exactly when the two meetings clash. */
  lemma SingleMeetingConflict(x: Section, y: Section)
    requires |x.times| == 1 && |y.times| == 1
    ensures Conflicts([x], y) <==> MeetingsClash(y.times[0], x.times[0])
  {
    if MeetingsClash(y.times[0], x.times[0]) {
      ClashFound([x], y, 0, 0, 0);
    } else {
      OnlyMeetingsDoNotClash(y.times, x.times);
      assert !SectionsClash(y, x);
      assert forall k :: 0 <= k < 1 ==> [x][k] == x;
    }
  }

  /** Two lists of one meeting each hold no clashing pair when their meetings do not clash. */
  lemma OnlyMeetingsDoNotClash(xs: seq<MeetingTime>, ts: seq<MeetingTime>)
    requires |xs| == 1 && |ts| == 1 && !MeetingsClash(xs[0], ts[0])
    ensures forall i, j :: 0 <= i < |xs| && 0 <= j < |ts| ==> !MeetingsClash(xs[i], ts[j])
  {
    forall i, j | 0 <= i < |xs| && 0 <= j < |ts|
      ensures !MeetingsClash(xs[i], ts[j])
    {
      assert xs[i] == xs[0] && ts[j] == ts[0];
    }
  }

  /** With a Monday 09:00-10:00 meeting in the routine, a 10:00-11:00 meeting the same day does not conflict. */
  lemma BackToBackExample()
    ensures !Conflicts([MondaySection(ClockText(9, 0), ClockText(10, 0))], MondaySection(ClockText(10, 0), ClockText(11, 0)))
  {
    ClockTextMinutes(9, 0);
    ClockTextMinutes(10, 0);
    ClockTextMinutes(11, 0);
    var x, y := MondaySection(ClockText(9, 0), ClockText(10, 0)), MondaySection(ClockText(10, 0), ClockText(11, 0));
    assert !MeetingsClash(y.times[0], x.times[0]);
    SingleMeetingConflict(x, y);
  }

  /** With a Monday 09:00-10:00 meeting in the routine, a 09:30-10:30 meeting the same day conflicts. */
  lemma OverlapExample()
    ensures Conflicts([MondaySection(ClockText(9, 0), ClockText(10, 0))], MondaySection(ClockText(9, 30), ClockText(10, 30)))
  {
    ClockTextMinutes(9, 0);
    ClockTextMinutes(10, 0);
    ClockTextMinutes(9, 30);
    ClockTextMinutes(10, 30);
    var x, y := MondaySection(ClockText(9, 0), ClockText(10, 0)), MondaySection(ClockText(9, 30), ClockText(10, 30));
    ClashIsOverlap(y.times[0], x.times[0]);
    SingleMeetingConflict(x, y);
  }

  /* ---------- filtering ---------- */

  /** `sections.filter(section => this.isSectionValid(section))`. */
  function ValidSections(p: Preferences, sections: seq<Section>): (r: seq<Section>)
    ensures |r| <= |sections|
    ensures forall s :: s in r <==> s in sections && IsSectionValid(p, s)
  {
    if sections == [] then []
    else
      var last := sections[|sections| - 1];
      ValidSections(p, sections[..|sections| - 1]) + (if IsSectionValid(p, last) then [last] else [])
  }

  /** Filtering keeps the order: filtering two lists one after the other is filtering their concatenation. */
  lemma {:induction false} ValidSectionsAppend(p: Preferences, a: seq<Section>, b: seq<Section>)
    ensures ValidSections(p, a + b) == ValidSections(p, a) + ValidSections(p, b)
    decreases |b|
  {
    if b == [] {
      assert a + b == a;
    } else {
      var b' := b[..|b| - 1];
      assert (a + b)[..|a + b| - 1] == a + b';
      ValidSectionsAppend(p, a, b');
    }
  }

  /** A single section is kept exactly when it is valid. */
  lemma ValidSectionsOne(p: Preferences, s: Section)
    ensures ValidSections(p, [s]) == if IsSectionValid(p, s) then [s] else []
  {
    assert [s][..0] == [];
  }

  /** The filtered section lists of the selected courses, in selection order. */
  function FilteredCourses(allCourses: map<string, seq<Section>>, selected: seq<string>, p: Preferences): (fs: seq<seq<Section>>)
    requires forall i :: 0 <= i < |selected| ==> selected[i] in allCourses
    ensures |fs| == |selected|
    ensures forall i :: 0 <= i < |selected| ==> fs[i] == ValidSections(p, allCourses[selected[i]])
  {
    seq(|selected|, i requires 0 <= i < |selected| => ValidSections(p, allCourses[selected[i]]))
  }

  /* ---------- what the search finds ---------- */

  /** A routine for the filtered courses: one section per course, in course order, no two clashing. */
  predicate IsRoutineOf(fs: seq<seq<Section>>, r: seq<Section>) {
    |r| == |fs| && PartialRoutine(fs, r)
  }

  /** The first `|r|` choices of a routine: each from its course, no two clashing. */
  predicate PartialRoutine(fs: seq<seq<Section>>, r: seq<Section>) {
    && |r| <= |fs|
    && (forall i :: 0 <= i < |r| ==> r[i] in fs[i])
    && (forall i, j :: 0 <= i < j < |r| ==> !SectionsClash(r[j], r[i]))
  }

  /**
   * Every completion of the partial routine `cur` (which holds the choices
   * for the first `k` courses), in the order the depth-first search meets them.
   */
  function Completions(fs: seq<seq<Section>>, k: nat, cur: seq<Section>): seq<seq<Section>>
    requires k <= |fs|
    decreases |fs| - k, if k < |fs| then |fs[k]| + 1 else 0
  {
    if k == |fs| then [cur] else Branches(fs, k, cur, |fs[k]|)
  }

  /** The completions through the first `n` sections of course `k` that do not conflict with `cur`. */
  function Branches(fs: seq<seq<Section>>, k: nat, cur: seq<Section>, n: nat): seq<seq<Section>>
    requires k < |fs| && n <= |fs[k]|
    decreases |fs| - k, n
  {
    if n == 0 then []
    else
      var s := fs[k][n - 1];
      Branches(fs, k, cur, n - 1) + (if !Conflicts(cur, s) then Completions(fs, k + 1, cur + [s]) else [])
  }

  /** At most `Cap` of the leading elements. */
  function Capped<T>(xs: seq<T>): (r: seq<T>)
    ensures |r| == if |xs| < Cap then |xs| else Cap
    ensures r == xs[..|r|]
  {
    if |xs| <= Cap then xs else xs[..Cap]
  }

  /** Capping early and capping at the end keep the same leading elements. */
  lemma CappedAppend<T>(x: seq<T>, y: seq<T>)
    ensures Capped(Capped(x) + y) == Capped(x + y)
  {
    if |x| > Cap {
      assert (x + y)[..Cap] == x[..Cap];
      assert (x[..Cap] + y)[..Cap] == x[..Cap];
    }
  }

  /** Adding a section that does not conflict keeps a partial routine a partial routine. */
  lemma ExtendPartial(fs: seq<seq<Section>>, cur: seq<Section>, s: Section)
    requires PartialRoutine(fs, cur) && |cur| < |fs|
    requires s in fs[|cur|] && !Conflicts(cur, s)
    ensures PartialRoutine(fs, cur + [s])
  {
    var r := cur + [s];
    forall i, j | 0 <= i < j < |r|
      ensures !SectionsClash(r[j], r[i])
    {
      if j == |cur| {
        assert r[j] == s && r[i] == cur[i];
      } else {
        assert r[j] == cur[j] && r[i] == cur[i];
      }
    }
  }

  /** Soundness: everything the search produces from a partial routine is a routine extending it. */
  lemma {:induction false} CompletionsSound(fs: seq<seq<Section>>, k: nat, cur: seq<Section>, r: seq<Section>)
    requires k <= |fs| && |cur| == k && PartialRoutine(fs, cur)
    requires r in Completions(fs, k, cur)
    ensures IsRoutineOf(fs, r) && r[..k] == cur
    decreases |fs| - k, if k < |fs| then |fs[k]| + 1 else 0
  {
    if k < |fs| {
      BranchesSound(fs, k, cur, |fs[k]|, r);
    }
  }

  lemma {:induction false} BranchesSound(fs: seq<seq<Section>>, k: nat, cur: seq<Section>, n: nat, r: seq<Section>)
    requires k < |fs| && n <= |fs[k]| && |cur| == k && PartialRoutine(fs, cur)
    requires r in Branches(fs, k, cur, n)
    ensures IsRoutineOf(fs, r) && r[..k] == cur
    decreases |fs| - k, n
  {
    var s := fs[k][n - 1];
    if r in Branches(fs, k, cur, n - 1) {
      BranchesSound(fs, k, cur, n - 1, r);
    } else {
      assert !Conflicts(cur, s) && r in Completions(fs, k + 1, cur + [s]);
      ExtendPartial(fs, cur, s);
      CompletionsSound(fs, k + 1, cur + [s], r);
      assert r[..k] == r[..k + 1][..k];
    }
  }

  /** The completions of one non-conflicting choice are among the branches that reach it. */
  lemma {:induction false} BranchesReach(fs: seq<seq<Section>>, k: nat, cur: seq<Section>, n: nat, j: nat, r: seq<Section>)
    requires k < |fs| && j < n <= |fs[k]|
    requires !Conflicts(cur, fs[k][j]) && r in Completions(fs, k + 1, cur + [fs[k][j]])
    ensures r in Branches(fs, k, cur, n)
    decreases n
  {
    if j < n - 1 {
      BranchesReach(fs, k, cur, n - 1, j, r);
    }
  }

  /** Completeness: every routine extending a partial routine is among its completions. */
  lemma {:induction false} CompletionsComplete(fs: seq<seq<Section>>, k: nat, cur: seq<Section>, r: seq<Section>)
    requires k <= |fs| && IsRoutineOf(fs, r) && |cur| == k && r[..k] == cur
    ensures r in Completions(fs, k, cur)
    decreases |fs| - k
  {
    if k == |fs| {
      assert r == r[..k];
    } else {
      var s := r[k];
      var j :| 0 <= j < |fs[k]| && fs[k][j] == s;
      PrefixDoesNotConflict(fs, r, k);
      assert r[..k + 1] == cur + [s];
      CompletionsComplete(fs, k + 1, cur + [s], r);
      BranchesReach(fs, k, cur, |fs[k]|, j, r);
    }
  }

  /** In a routine, no earlier choice conflicts with a later one. */
  lemma PrefixDoesNotConflict(fs: seq<seq<Section>>, r: seq<Section>, k: nat)
    requires IsRoutineOf(fs, r) && k < |r|
    ensures !Conflicts(r[..k], r[k])
  {
    forall i | 0 <= i < k
      ensures !SectionsClash(r[k], r[..k][i])
    {
      assert r[..k][i] == r[i];
    }
  }

  /** The search from the empty routine finds exactly the routines of the filtered courses. */
  lemma SearchFindsExactlyRoutines(fs: seq<seq<Section>>, r: seq<Section>)
    ensures r in Completions(fs, 0, []) <==> IsRoutineOf(fs, r)
  {
    if r in Completions(fs, 0, []) {
      CompletionsSound(fs, 0, [], r);
    }
    if IsRoutineOf(fs, r) {
      CompletionsComplete(fs, 0, [], r);
    }
  }

  /* ---------- the search ---------- */

  /**
   * `backtrack(courseIndex, currentRoutine)`, with the shared result list
   * passed in as `acc` and handed back: it stops on entry once the list
   * holds `Cap` routines, records a complete routine, and otherwise tries
   * the sections of the next course in order.
   */
  method Backtrack(fs: seq<seq<Section>>, k: nat, cur: seq<Section>, acc: seq<seq<Section>>)
    returns (all: seq<seq<Section>>)
    requires k <= |fs| && |acc| <= Cap
    ensures all == Capped(acc + Completions(fs, k, cur))
    decreases |fs| - k
  {
    if |acc| >= Cap {
      CappedFull(acc, Completions(fs, k, cur));
      return acc;
    }
    if k == |fs| {
      return acc + [cur];
    }
    all := acc;
    var course := fs[k];
    for j := 0 to |course|
      invariant all == Capped(acc + Branches(fs, k, cur, j))
    {
      var section := course[j];
      var conflict := HasConflict(cur, section);
      BacktrackStep(fs, k, cur, acc, j);
      if !conflict {
        all := Backtrack(fs, k + 1, cur + [section], all);
      }
    }
  }

  /** A full list stays as it is. */
  lemma CappedFull<T>(x: seq<T>, y: seq<T>)
    requires |x| == Cap
    ensures Capped(x + y) == x
  {
    assert (x + y)[..Cap] == x;
  }

  /** One section of the loop in `Backtrack`: its completions are appended when it does not conflict. */
  lemma BacktrackStep(fs: seq<seq<Section>>, k: nat, cur: seq<Section>, acc: seq<seq<Section>>, j: nat)
    requires k < |fs| && j < |fs[k]|
    ensures var before := Capped(acc + Branches(fs, k, cur, j));
      var section := fs[k][j];
      && (!Conflicts(cur, section) ==> Capped(before + Completions(fs, k + 1, cur + [section])) == Capped(acc + Branches(fs, k, cur, j + 1)))
      && (Conflicts(cur, section) ==> before == Capped(acc + Branches(fs, k, cur, j + 1)))
  {
    var section := fs[k][j];
    var branches := Branches(fs, k, cur, j);
    var more := if !Conflicts(cur, section) then Completions(fs, k + 1, cur + [section]) else [];
    assert Branches(fs, k, cur, j + 1) == branches + more;
    CappedAppendAfter(acc, branches, more);
  }

  /** Capping after a prefix and then appending caps the whole concatenation. */
  lemma CappedAppendAfter<T>(acc: seq<T>, x: seq<T>, y: seq<T>)
    ensures Capped(Capped(acc + x) + y) == Capped(acc + (x + y))
    ensures y == [] ==> Capped(acc + x) == Capped(acc + (x + y))
  {
    CappedAppend(acc + x, y);
    assert acc + x + y == acc + (x + y);
  }

  /** Some selected course has no section left after filtering. */
  predicate SomeCourseEmpty(fs: seq<seq<Section>>) {
    exists i :: 0 <= i < |fs| && |fs[i]| == 0
  }

  /**
   * `generate()`: filter each selected course's sections; give up with no
   * routine when a course has none left; otherwise search, then shuffle the
   * routines found with the draws of `Math.random` supplied as `random`
   * (the value of its `t`-th call).
   */
  method Generate(allCourses: map<string, seq<Section>>, selected: seq<string>, prefs: Preferences, random: nat -> real)
    returns (routines: seq<seq<Section>>)
    requires forall i :: 0 <= i < |selected| ==> selected[i] in allCourses
    requires forall t :: 0.0 <= random(t) < 1.0
    ensures var fs := FilteredCourses(allCourses, selected, prefs);
      && (SomeCourseEmpty(fs) ==> routines == [])
      && (!SomeCourseEmpty(fs) ==> routines == FisherYates(Capped(Completions(fs, 0, [])), random))
    ensures |routines| <= Cap
    ensures forall r :: r in routines ==> IsRoutineOf(FilteredCourses(allCourses, selected, prefs), r)
  {
    var filteredCourses := seq(|selected|, i requires 0 <= i < |selected| => ValidSections(prefs, allCourses[selected[i]]));
    assert filteredCourses == FilteredCourses(allCourses, selected, prefs);
    if SomeCourseEmpty(filteredCourses) {
      return [];
    }
    var allCombinations := Backtrack(filteredCourses, 0, [], []);
    assert allCombinations == Capped(Completions(filteredCourses, 0, []));
    var a := new seq<Section>[|allCombinations|](i requires 0 <= i < |allCombinations| => allCombinations[i]);
    assert a[..] == allCombinations;
    ShuffleArray(a, random);
    routines := a[..];
    assert routines == FisherYates(Capped(Completions(filteredCourses, 0, [])), random);
    ShuffledRoutinesValid(filteredCourses, random);
  }

  /** Every routine the search keeps, in the shuffled order, takes one valid section per course without clashes. */
  lemma ShuffledRoutinesValid(fs: seq<seq<Section>>, random: nat -> real)
    requires forall t :: 0.0 <= random(t) < 1.0
    ensures var routines := FisherYates(Capped(Completions(fs, 0, [])), random);
      |routines| <= Cap && forall r :: r in routines ==> IsRoutineOf(fs, r)
  {
    var found := Capped(Completions(fs, 0, []));
    var routines := FisherYates(found, random);
    FisherYatesPermutes(found, random);
    forall r | r in routines
      ensures IsRoutineOf(fs, r)
    {
      assert r in multiset(routines);
      assert r in found;
      SearchFindsExactlyRoutines(fs, r);
    }
  }

  /**
   * Below the cap nothing is lost: when the search meets fewer than `Cap`
   * routines, every routine of the filtered courses is in the shuffled result.
   */
  lemma AllRoutinesKeptBelowCap(fs: seq<seq<Section>>, random: nat -> real, r: seq<Section>)
    requires forall t :: 0.0 <= random(t) < 1.0
    requires |Completions(fs, 0, [])| < Cap && IsRoutineOf(fs, r)
    ensures r in FisherYates(Capped(Completions(fs, 0, [])), random)
  {
    var found := Capped(Completions(fs, 0, []));
    assert found == Completions(fs, 0, []);
    SearchFindsExactlyRoutines(fs, r);
    FisherYatesPermutes(found, random);
    assert r in multiset(found);
  }

  /**
   * With no course selected nothing is filtered away and the search meets
   * its end at once: the result is one routine with no sections, not an
   * empty list.
   */
  lemma EmptySelectionGivesOneEmptyRoutine(allCourses: map<string, seq<Section>>, prefs: Preferences, random: nat -> real)
    requires forall t :: 0.0 <= random(t) < 1.0
    ensures FilteredCourses(allCourses, [], prefs) == []
    ensures !SomeCourseEmpty([])
    ensures FisherYates(Capped(Completions([], 0, [])), random) == [[]]
  {
    assert Completions([], 0, []) == [[]];
    assert Capped<seq<Section>>([[]]) == [[]];
    assert ShuffleSteps<seq<Section>>([[]], random, 0) == [[]];
  }

  /* ---------- shuffleArray ---------- */

  /**
   * `Math.floor(r * (i + 1))` for a draw `0 <= r < 1`: an index from 0 to
   * `i`, written as the count of whole numbers from 1 to `i` at or below
   * `r * (i + 1)` (`PickIndexIsFloor` shows the two agree).
   */
  function PickIndex(r: real, i: nat): (j: nat)
    requires 0.0 <= r < 1.0
    ensures j <= i
  {
    WholeNumbersAtOrBelow(Scaled(r, i + 1), i)
  }

  /** How many of the whole numbers 1 to `n` are at or below `x`. */
  function WholeNumbersAtOrBelow(x: real, n: nat): (c: nat)
    ensures c <= n
  {
    if n == 0 then 0 else WholeNumbersAtOrBelow(x, n - 1) + (if n as real <= x then 1 else 0)
  }

  /** For `x >= 0` the count is `Math.floor(x)`, as long as that does not exceed `n`. */
  lemma {:induction false} WholeNumbersAtOrBelowIsFloor(x: real, n: nat)
    requires 0.0 <= x
    ensures WholeNumbersAtOrBelow(x, n) == if x.Floor < n then x.Floor else n
  {
    if n > 0 {
      WholeNumbersAtOrBelowIsFloor(x, n - 1);
    }
  }

  /** The index drawn is `Math.floor(r * (i + 1))`, and it lies between 0 and `i`. */
  lemma PickIndexIsFloor(r: real, i: nat)
    requires 0.0 <= r < 1.0
    ensures PickIndex(r, i) == (r * (i + 1) as real).Floor
    ensures 0 <= (r * (i + 1) as real).Floor <= i
  {
    var x := Scaled(r, i + 1);
    ScaledIsProduct(r, i + 1);
    ScaledDrawBelow(r, i + 1);
    WholeNumbersAtOrBelowIsFloor(x, i);
  }

  /** `r * n`, written as `n` additions of `r`. */
  function Scaled(r: real, n: nat): real {
    if n == 0 then 0.0 else Scaled(r, n - 1) + r
  }

  /** The sum of `n` copies of `r` is the product `r * n`. */
  lemma {:induction false} ScaledIsProduct(r: real, n: nat)
    ensures Scaled(r, n) == r * n as real
  {
    if n > 0 {
      ScaledIsProduct(r, n - 1);
      assert r * n as real == r * (n - 1) as real + r;
    }
  }

  /** A draw in [0, 1) scaled by a positive `n` lies in [0, n). */
  lemma {:induction false} ScaledDrawBelow(r: real, n: nat)
    requires 0.0 <= r < 1.0 && n > 0
    ensures 0.0 <= Scaled(r, n) < n as real
  {
    if n > 1 {
      ScaledDrawBelow(r, n - 1);
    }
  }

  /** `xs` with the elements at `i` and `j` exchanged. */
  function Swap<T>(xs: seq<T>, i: nat, j: nat): (r: seq<T>)
    requires i < |xs| && j < |xs|
    ensures |r| == |xs|
  {
    xs[i := xs[j]][j := xs[i]]
  }

  /** Exchanging two elements keeps every element, each as often. */
  lemma SwapPermutes<T>(xs: seq<T>, i: nat, j: nat)
    requires i < |xs| && j < |xs|
    ensures multiset(Swap(xs, i, j)) == multiset(xs)
  {
    var ys := xs[i := xs[j]];
    assert multiset(ys) == multiset(xs) - multiset{xs[i]} + multiset{xs[j]};
    assert multiset(ys[j := xs[i]]) == multiset(ys) - multiset{ys[j]} + multiset{xs[i]};
  }

  /**
   * The sequence after the first `steps` passes of the shuffle: pass `t`
   * works on index `|xs| - 1 - t` with the `t`-th draw.
   */
  function ShuffleSteps<T>(xs: seq<T>, random: nat -> real, steps: nat): (r: seq<T>)
    requires forall t :: 0.0 <= random(t) < 1.0
    requires steps < |xs|
    ensures |r| == |xs|
  {
    if steps == 0 then xs
    else
      var prev := ShuffleSteps(xs, random, steps - 1);
      var i := |xs| - steps;
      Swap(prev, i, PickIndex(random(steps - 1), i))
  }

  /** The Fisher-Yates shuffle of the whole sequence: one pass per index from the last down to 1. */
  function FisherYates<T>(xs: seq<T>, random: nat -> real): seq<T>
    requires forall t :: 0.0 <= random(t) < 1.0
  {
    if |xs| == 0 then xs else ShuffleSteps(xs, random, |xs| - 1)
  }

  /** The shuffle returns a permutation of its input: the same length and the same elements, each as often. */
  lemma FisherYatesPermutes<T>(xs: seq<T>, random: nat -> real)
    requires forall t :: 0.0 <= random(t) < 1.0
    ensures |FisherYates(xs, random)| == |xs|
    ensures multiset(FisherYates(xs, random)) == multiset(xs)
  {
    if |xs| > 0 {
      ShuffleStepsPermutes(xs, random, |xs| - 1);
    }
  }

  /** Every pass only exchanges two elements. */
  lemma {:induction false} ShuffleStepsPermutes<T>(xs: seq<T>, random: nat -> real, steps: nat)
    requires forall t :: 0.0 <= random(t) < 1.0
    requires steps < |xs|
    ensures multiset(ShuffleSteps(xs, random, steps)) == multiset(xs)
  {
    if steps > 0 {
      var prev := ShuffleSteps(xs, random, steps - 1);
      var i := |xs| - steps;
      ShuffleStepsPermutes(xs, random, steps - 1);
      ShuffleStepsNext(xs, random, steps - 1, prev);
      SwapChain(xs, prev, ShuffleSteps(xs, random, steps), i, PickIndex(random(steps - 1), i));
    }
  }

  /** A swap applied to a permutation of `xs` gives a permutation of `xs`. */
  lemma SwapChain<T>(xs: seq<T>, prev: seq<T>, cur: seq<T>, i: nat, j: nat)
    requires i < |prev| && j < |prev| && cur == Swap(prev, i, j)
    requires multiset(prev) == multiset(xs)
    ensures multiset(cur) == multiset(xs)
  {
    SwapPermutes(prev, i, j);
  }

  /** `shuffleArray(array)`: the in-place Fisher-Yates loop, from the last index down to 1. */
  method ShuffleArray<T>(a: array<T>, random: nat -> real)
    requires forall t :: 0.0 <= random(t) < 1.0
    modifies a
    ensures a[..] == FisherYates(old(a[..]), random)
  {
    if a.Length == 0 {
      return;
    }
    ghost var xs := a[..];
    var i := a.Length - 1;
    while i > 0
      invariant 0 <= i < a.Length == |xs|
      invariant a[..] == ShuffleSteps(xs, random, a.Length - 1 - i)
      decreases i
    {
      var steps := a.Length - 1 - i;
      var j := PickIndex(random(steps), i);
      ShuffleStepsNext(xs, random, steps, a[..]);
      Exchange(a, i, j);
      assert a[..] == ShuffleSteps(xs, random, steps + 1);
      i := i - 1;
    }
  }

  /** `[array[i], array[j]] = [array[j], array[i]]`. */
  method Exchange<T>(a: array<T>, i: nat, j: nat)
    requires i < a.Length && j < a.Length
    modifies a
    ensures a[..] == Swap(old(a[..]), i, j)
  {
    a[i], a[j] := a[j], a[i];
  }

  /** One more pass of the loop in `ShuffleArray` is one more step of `ShuffleSteps`. */
  lemma ShuffleStepsNext<T>(xs: seq<T>, random: nat -> real, steps: nat, before: seq<T>)
    requires forall t :: 0.0 <= random(t) < 1.0
    requires steps + 1 < |xs| && before == ShuffleSteps(xs, random, steps)
    ensures var i := |xs| - 1 - steps;
      Swap(before, i, PickIndex(random(steps), i)) == ShuffleSteps(xs, random, steps + 1)
  {
  }
}
