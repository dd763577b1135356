/** The current-streak calculation of the badge handler (package `handler`). */
module Handler {
  import opened Contributions

  /** What `calculateStreak` does: return a streak length, or end the
      process (`os.Exit(1)`) on a date that does not parse. */
  datatype StreakOutcome = Streak(days: nat) | Exit

  /** `k` more counted days on top of an outcome. */
  function Plus(o: StreakOutcome, k: nat): StreakOutcome
  {
    match o
    case Streak(n) => Streak(n + k)
    case Exit => Exit
  }

  /** The days in the order `calculateStreak` visits them: last week first,
      and inside each week last day first. */
  function Walk(weeks: seq<ContributionWeek>): seq<ContributionDay>
  {
    if weeks == [] then []
    else Reverse(weeks[|weeks| - 1].contributionDays) + Walk(weeks[..|weeks| - 1])
  }

  /** The walk, started with `previous` as the previously counted date. */
  function RunFrom(walk: seq<ContributionDay>, previous: int): StreakOutcome
  {
    if walk == [] then Streak(0)
    else if walk[0].contributionCount == 0 then Streak(0)
    else match walk[0].date
      case Invalid => Exit
      case Date(d) =>
        if previous != ZeroTime && d + 1 != previous then Streak(0)
        else Plus(RunFrom(walk[1..], d), 1)
  }

  /** The outcome of `calculateStreak(weeks)`. */
  function StreakOf(weeks: seq<ContributionWeek>): StreakOutcome
  {
    RunFrom(Walk(weeks), ZeroTime)
  }

  /** The loop of `calculateStreak`: two nested reverse index loops that count
      days and remember the previously counted date. */
  method CalculateStreak(weeks: seq<ContributionWeek>) returns (r: StreakOutcome)
    ensures r == StreakOf(weeks)
  {
    var streak: nat := 0;
    var previousDate := ZeroTime;
    var i := |weeks| - 1;
    assert weeks[..i + 1] == weeks;
    while i >= 0
      invariant -1 <= i < |weeks|
      invariant StreakOf(weeks) == Plus(RunFrom(Walk(weeks[..i + 1]), previousDate), streak)
    {
      var days := weeks[i].contributionDays;
      WalkStep(weeks, i);
      var j := |days| - 1;
      assert days[..j + 1] == days;
      while j >= 0
        invariant -1 <= j < |days|
        invariant StreakOf(weeks)
          == Plus(RunFrom(Reverse(days[..j + 1]) + Walk(weeks[..i]), previousDate), streak)
      {
        var day := days[j];
        ReverseStep(days, j, Walk(weeks[..i]));
        DayStep(day, Reverse(days[..j]) + Walk(weeks[..i]), previousDate, streak);
        if day.contributionCount == 0 {
          return Streak(streak);
        }
        if day.date.Invalid? {
          return Exit;
        }
        var date := day.date.ordinal;
        if previousDate != ZeroTime && date + 1 != previousDate {
          return Streak(streak);
        }
        streak := streak + 1;
        previousDate := date;
        j := j - 1;
      }
      assert days[..0] == [];
      assert Reverse(days[..0]) + Walk(weeks[..i]) == Walk(weeks[..i]);
      i := i - 1;
    }
    return Streak(streak);
  }

  lemma WalkStep(weeks: seq<ContributionWeek>, i: nat)
    requires i < |weeks|
    ensures Walk(weeks[..i + 1]) == Reverse(weeks[i].contributionDays) + Walk(weeks[..i])
  {
    assert weeks[..i + 1][..i] == weeks[..i];
  }

  lemma ReverseStep(days: seq<ContributionDay>, j: nat, tail: seq<ContributionDay>)
    requires j < |days|
    ensures Reverse(days[..j + 1]) + tail == [days[j]] + (Reverse(days[..j]) + tail)
  {
    assert days[..j + 1][..j] == days[..j];
  }

  /** One day of the walk on top of `streak` counted days. */
  lemma DayStep(day: ContributionDay, rest: seq<ContributionDay>, previous: int, streak: nat)
    ensures day.contributionCount == 0 ==>
      Plus(RunFrom([day] + rest, previous), streak) == Streak(streak)
    ensures day.contributionCount != 0 && day.date.Invalid? ==>
      Plus(RunFrom([day] + rest, previous), streak) == Exit
    ensures day.contributionCount != 0 && day.date.Date? ==>
      Plus(RunFrom([day] + rest, previous), streak)
        == if previous != ZeroTime && day.date.ordinal + 1 != previous then Streak(streak)
           else Plus(RunFrom(rest, day.date.ordinal), streak + 1)
  {
  }

  // ---------------------------------------------------------------------
  // The walk order

  lemma {:induction false} WalkIsReversedFlatten(weeks: seq<ContributionWeek>)
    ensures Walk(weeks) == Reverse(Flatten(weeks))
  {
    if weeks != [] {
      var init := weeks[..|weeks| - 1];
      WalkIsReversedFlatten(init);
      ReverseAppend(Flatten(init), weeks[|weeks| - 1].contributionDays);
    }
  }

  /** The walk visits the k-th day from the end of the flattened input k-th,
      so it starts at the last day of the last week. */
  lemma WalkAt(weeks: seq<ContributionWeek>, k: nat)
    requires k < |Flatten(weeks)|
    ensures |Walk(weeks)| == |Flatten(weeks)|
    ensures Walk(weeks)[k] == Flatten(weeks)[|Flatten(weeks)| - 1 - k]
  {
    WalkIsReversedFlatten(weeks);
    ReverseAt(Flatten(weeks), k);
  }

  // ---------------------------------------------------------------------
  // The streak as the longest accepted run

  /** A day passes both checks of the loop body against the date counted
      before it (ZeroTime when none was, or when that date is Go's zero time). */
  predicate Accepted(day: ContributionDay, previous: int)
  {
    day.contributionCount != 0 && day.date.Date?
    && (previous == ZeroTime || day.date.ordinal + 1 == previous)
  }

  /** A day that ends the walk with the count so far: a zero count (tested
      before the date is parsed), or a date that is not the day before. */
  predicate Halts(day: ContributionDay, previous: int)
  {
    day.contributionCount == 0
    || (day.date.Date? && previous != ZeroTime && day.date.ordinal + 1 != previous)
  }

  /** A day that makes the process exit: non-zero count, unparseable date. */
  predicate Fails(day: ContributionDay)
  {
    day.contributionCount != 0 && day.date.Invalid?
  }

  /** The date counted just before walk position `t` (ZeroTime at the start;
      the predecessor of a counted day always has a parsed date). */
  function PreviousAt(walk: seq<ContributionDay>, t: nat): int
    requires t <= |walk|
  {
    if t == 0 then ZeroTime
    else match walk[t - 1].date
      case Date(d) => d
      case Invalid => ZeroTime
  }

  /** The first `n` days of the walk are all counted. */
  predicate AcceptedRun(walk: seq<ContributionDay>, n: nat)
  {
    n <= |walk| && forall t :: 0 <= t < n ==> Accepted(walk[t], PreviousAt(walk, t))
  }

  lemma DayKinds(day: ContributionDay, previous: int)
    ensures Accepted(day, previous) || Halts(day, previous) || Fails(day)
    ensures !(Accepted(day, previous) && Halts(day, previous))
    ensures !(Accepted(day, previous) && Fails(day))
    ensures !(Halts(day, previous) && Fails(day))
  {
  }

  /** After an accepted run of `t` days the outcome is `t` plus the outcome of
      the rest of the walk, started from the last counted date. */
  lemma {:induction false} Decompose(walk: seq<ContributionDay>, t: nat)
    requires AcceptedRun(walk, t)
    ensures RunFrom(walk, ZeroTime) == Plus(RunFrom(walk[t..], PreviousAt(walk, t)), t)
  {
    if t == 0 {
      assert walk[0..] == walk;
      match RunFrom(walk, ZeroTime)
      case Streak(n) =>
      case Exit =>
    } else {
      Decompose(walk, t - 1);
      var p := PreviousAt(walk, t - 1);
      assert Accepted(walk[t - 1], p);
      assert walk[t - 1..][0] == walk[t - 1];
      assert walk[t - 1..][1..] == walk[t..];
      assert RunFrom(walk[t - 1..], p) == Plus(RunFrom(walk[t..], PreviousAt(walk, t)), 1);
      match RunFrom(walk[t..], PreviousAt(walk, t))
      case Streak(n) =>
      case Exit =>
    }
  }

  /** Some accepted run can be extended no further. */
  lemma {:induction false} MaximalRun(walk: seq<ContributionDay>, t: nat) returns (k: nat)
    requires AcceptedRun(walk, t)
    ensures t <= k && AcceptedRun(walk, k)
    ensures k == |walk| || !Accepted(walk[k], PreviousAt(walk, k))
    decreases |walk| - t
  {
    if t == |walk| || !Accepted(walk[t], PreviousAt(walk, t)) {
      k := t;
    } else {
      assert AcceptedRun(walk, t + 1);
      k := MaximalRun(walk, t + 1);
    }
  }

  /** The outcome at the end of the longest accepted run. */
  lemma OutcomeAtStop(walk: seq<ContributionDay>, k: nat)
    requires AcceptedRun(walk, k)
    ensures k == |walk| ==> RunFrom(walk, ZeroTime) == Streak(k)
    ensures k < |walk| && Halts(walk[k], PreviousAt(walk, k)) ==> RunFrom(walk, ZeroTime) == Streak(k)
    ensures k < |walk| && Fails(walk[k]) ==> RunFrom(walk, ZeroTime) == Exit
  {
    Decompose(walk, k);
    if k == |walk| {
      assert walk[k..] == [];
    } else {
      assert walk[k..][0] == walk[k];
    }
  }

  /** `calculateStreak` returns `n` exactly when the first `n` days of the
      walk are counted and the walk then runs out or meets a zero count or a
      date gap. */
  lemma StreakIsLongestRun(weeks: seq<ContributionWeek>, n: nat)
    ensures StreakOf(weeks) == Streak(n)
      <==> AcceptedRun(Walk(weeks), n)
           && (n == |Walk(weeks)| || Halts(Walk(weeks)[n], PreviousAt(Walk(weeks), n)))
  {
    var w := Walk(weeks);
    var k := MaximalRun(w, 0);
    OutcomeAtStop(w, k);
    if k < |w| {
      DayKinds(w[k], PreviousAt(w, k));
    }
    if AcceptedRun(w, n) && (n == |w| || Halts(w[n], PreviousAt(w, n))) {
      OutcomeAtStop(w, n);
    }
  }

  lemma ExitIffFails(w: seq<ContributionDay>)
    ensures RunFrom(w, ZeroTime) == Exit
      <==> exists k :: 0 <= k < |w| && AcceptedRun(w, k) && Fails(w[k])
  {
  }

  /** `calculateStreak` ends the process exactly when the walk reaches a day
      with a non-zero count and an unparseable date. */
  lemma StreakExitsOnBadDate(weeks: seq<ContributionWeek>)
    ensures StreakOf(weeks) == Exit
      <==> exists k :: 0 <= k < |Walk(weeks)| && AcceptedRun(Walk(weeks), k) && Fails(Walk(weeks)[k])
  {
    var w := Walk(weeks);
    ExitIffFails(w);
    if StreakOf(weeks) == Exit {
      var k :| 0 <= k < |w| && AcceptedRun(w, k) && Fails(w[k]);
      assert 0 <= k < |Walk(weeks)| && AcceptedRun(Walk(weeks), k) && Fails(Walk(weeks)[k]);
    }
  }

  // ---------------------------------------------------------------------
  // Consequences

  /** The streak never exceeds the number of days. */
  lemma StreakBounded(weeks: seq<ContributionWeek>, n: nat)
    requires StreakOf(weeks) == Streak(n)
    ensures n <= TotalDays(weeks)
  {
    StreakIsLongestRun(weeks, n);
    WalkIsReversedFlatten(weeks);
    FlattenLength(weeks);
  }

  /** No weeks, or only empty weeks: the streak is 0. */
  lemma NoDaysNoStreak(weeks: seq<ContributionWeek>)
    requires TotalDays(weeks) == 0
    ensures StreakOf(weeks) == Streak(0)
  {
    WalkIsReversedFlatten(weeks);
    FlattenLength(weeks);
  }

  /** A zero count on the last day of the last week gives 0, whatever came
      before and even when that day's date does not parse. */
  lemma LastDayZeroNoStreak(weeks: seq<ContributionWeek>)
    requires |Flatten(weeks)| > 0
    requires Flatten(weeks)[|Flatten(weeks)| - 1].contributionCount == 0
    ensures StreakOf(weeks) == Streak(0)
  {
    WalkAt(weeks, 0);
  }

  /** The first day examined is never gap-checked: with a non-zero count and a
      parseable date it is always counted. */
  lemma FirstDayCounted(weeks: seq<ContributionWeek>)
    requires |Flatten(weeks)| > 0
    requires Accepted(Flatten(weeks)[|Flatten(weeks)| - 1], ZeroTime)
    ensures StreakOf(weeks) != Streak(0)
  {
    WalkAt(weeks, 0);
    var w := Walk(weeks);
    assert Accepted(w[0], PreviousAt(w, 0));
    assert AcceptedRun(w, 1);
    Decompose(w, 1);
    match RunFrom(w[1..], PreviousAt(w, 1))
    case Streak(m) =>
    case Exit =>
  }

  /** A zero count ends the walk right there, before its date is looked at. */
  lemma ZeroCountEndsWalk(weeks: seq<ContributionWeek>, k: nat)
    requires AcceptedRun(Walk(weeks), k) && k < |Walk(weeks)|
    requires Walk(weeks)[k].contributionCount == 0
    ensures StreakOf(weeks) == Streak(k)
  {
    StreakIsLongestRun(weeks, k);
  }

  /** A day dated other than the day before the previously counted date ends
      the walk without being counted. */
  lemma GapEndsWalk(weeks: seq<ContributionWeek>, k: nat)
    requires AcceptedRun(Walk(weeks), k) && k < |Walk(weeks)|
    requires Walk(weeks)[k].date.Date? && PreviousAt(Walk(weeks), k) != ZeroTime
    requires Walk(weeks)[k].date.ordinal + 1 != PreviousAt(Walk(weeks), k)
    ensures StreakOf(weeks) == Streak(k)
  {
    StreakIsLongestRun(weeks, k);
  }

  /** `later` is dated the calendar day after `earlier`. */
  predicate DayAfter(earlier: ContributionDay, later: ContributionDay)
  {
    earlier.date.Date? && later.date.Date? && earlier.date.ordinal + 1 == later.date.ordinal
  }

  /** Non-zero counts on dates that ascend one day at a time in the given
      order: every day is counted. */
  lemma ConsecutiveDaysAllCounted(weeks: seq<ContributionWeek>)
    requires forall t :: 0 <= t < |Flatten(weeks)| ==>
      Flatten(weeks)[t].contributionCount != 0 && Flatten(weeks)[t].date.Date?
    requires forall t :: 0 < t < |Flatten(weeks)| ==> DayAfter(Flatten(weeks)[t - 1], Flatten(weeks)[t])
    ensures StreakOf(weeks) == Streak(TotalDays(weeks))
  {
    var f := Flatten(weeks);
    var w := Walk(weeks);
    FlattenLength(weeks);
    WalkIsReversedFlatten(weeks);
    forall t | 0 <= t < |w|
      ensures Accepted(w[t], PreviousAt(w, t))
    {
      ReverseAt(f, t);
      if t > 0 {
        ReverseAt(f, t - 1);
        assert w[t - 1] == f[|f| - t];
      }
    }
    assert AcceptedRun(w, |w|);
    OutcomeAtStop(w, |w|);
  }

  // ---------------------------------------------------------------------
  // Examples

  function OneWeek(days: seq<ContributionDay>): seq<ContributionWeek>
  {
    [ContributionWeek(days)]
  }

  /** 2023-11-30, Dec 1 and Dec 2 with contributions, Dec 3 without, Dec 4
      with: the streak is 1 (738853 is the ordinal of 2023-11-30). */
  lemma ZeroDayBreaksExample()
    ensures StreakOf(OneWeek([
      ContributionDay(Date(738853), 1), ContributionDay(Date(738854), 1),
      ContributionDay(Date(738855), 1), ContributionDay(Date(738856), 0),
      ContributionDay(Date(738857), 1)])) == Streak(1)
  {
  }

  /** Five consecutive days with contributions, split over two weeks: 5. */
  lemma ContinuousRunExample()
    ensures StreakOf([
      ContributionWeek([ContributionDay(Date(738853), 2), ContributionDay(Date(738854), 1)]),
      ContributionWeek([ContributionDay(Date(738855), 4), ContributionDay(Date(738856), 1),
                        ContributionDay(Date(738857), 3)])]) == Streak(5)
  {
    var first := [ContributionDay(Date(738853), 2), ContributionDay(Date(738854), 1)];
    var second := [ContributionDay(Date(738855), 4), ContributionDay(Date(738856), 1),
                   ContributionDay(Date(738857), 3)];
    var weeks := [ContributionWeek(first), ContributionWeek(second)];
    assert weeks[..1] == [ContributionWeek(first)];
    assert [ContributionWeek(first)][..0] == [];
    assert Flatten(weeks[..1]) == first;
    assert Flatten(weeks) == first + second;
    FlattenLength(weeks);
    ConsecutiveDaysAllCounted(weeks);
  }

  /** The weeks are walked in the order given, not re-sorted by date:
      swapping two weeks changes the streak. */
  lemma WeekOrderMatters()
    ensures StreakOf([ContributionWeek([ContributionDay(Date(738855), 1)]),
                      ContributionWeek([ContributionDay(Date(738856), 1)])]) == Streak(2)
    ensures StreakOf([ContributionWeek([ContributionDay(Date(738856), 1)]),
                      ContributionWeek([ContributionDay(Date(738855), 1)])]) == Streak(1)
  {
    var earlier := ContributionDay(Date(738855), 1);
    var later := ContributionDay(Date(738856), 1);
    assert Reverse([earlier]) == [earlier];
    assert Reverse([later]) == [later];
    var inOrder := [ContributionWeek([earlier]), ContributionWeek([later])];
    var swapped := [ContributionWeek([later]), ContributionWeek([earlier])];
    assert inOrder[..1] == [ContributionWeek([earlier])];
    assert swapped[..1] == [ContributionWeek([later])];
    assert Walk(inOrder[..1]) == [earlier];
    assert Walk(swapped[..1]) == [later];
    assert Walk(inOrder) == [later, earlier];
    assert Walk(swapped) == [earlier, later];
    assert [later, earlier][1..] == [earlier];
    assert [earlier, later][1..] == [later];
    assert RunFrom([earlier], 738856) == Streak(1);
    assert RunFrom([later], 738855) == Streak(0);
  }

  /** A counted day dated 0001-01-01 is Go's zero time, so the gap check is
      skipped again for the day after it in the walk. */
  lemma ZeroTimeDateSkipsGapCheck()
    ensures StreakOf(OneWeek([ContributionDay(Date(500), 1),
                              ContributionDay(Date(ZeroTime), 1)])) == Streak(2)
  {
    var late := ContributionDay(Date(500), 1);
    var zero := ContributionDay(Date(ZeroTime), 1);
    assert Reverse([late, zero]) == [zero, late];
    assert Walk(OneWeek([late, zero])) == [zero, late];
    assert [zero, late][1..] == [late];
    assert RunFrom([late], ZeroTime) == Streak(1);
  }
}
