# github-streak: streak calculation and year merge, in Dafny

This project models the two pieces of sequential logic in the github-streak
badge service and proves properties of them.

- **The current-streak calculator** (`calculateStreak` in the badge handler,
  module `Handler`, file `streak.dfy`). It walks the contribution calendar
  backwards, from the last day of the last non-empty week. It counts days until it
  reaches a day with no contributions, or a day that is not dated exactly one
  calendar day before the day counted just before it. `CalculateStreak` keeps
  the source's two nested reverse index loops and early returns. It is proved
  equal to the specification function `StreakOf`. The lemmas then describe
  `StreakOf` as the longest accepted run of the walk, and derive the edge cases
  from that.
- **The collect loop of `GetAllContributions`** (module `Domain`, file
  `domain.dfy`). One goroutine per year range sends exactly one message: that
  year's data or an error. The loop receives N messages. It sums the totals and
  appends the weeks in arrival order, and returns `0` and the zero value on the
  first error. The module also models how `GetContributionsForYear` picks the
  `(from: …, to: …)` argument clause of its query.
- The data model shared by both (`ContributionDay`, `ContributionWeek`,
  flattening and reversal) is in module `Contributions`, file
  `contributions.dfy`.

Modelling decisions:

- **Dates.** A day's `date` string is represented by what parsing it with the
  layout `"2006-01-02"` yields: `Date(ordinal)` or `Invalid`. The ordinal
  counts days from 0001-01-01, so `date.AddDate(0,0,1).Equal(previousDate)`
  becomes `ordinal + 1 == previous`.
- **The previous date.** `previousDate` is an ordinal. It starts at
  `ZeroTime`, the ordinal of Go's zero time, so `previousDate.IsZero()` becomes
  `previous == ZeroTime`. It is not an `Option`, because 0001-01-01 parses to
  Go's zero time. A counted day with that date therefore switches the gap check
  off again for the next day. `ZeroTimeDateSkipsGapCheck` shows this.
- **Exiting on a bad date.** A date that does not parse makes the source call
  `os.Exit(1)`. The model returns the outcome `Exit` instead. This keeps the
  order of the checks visible: the zero-count test comes before parsing.
- **Zero counts.** The source tests `ContributionCount == 0`, so the model does
  too. A negative count would be counted like a positive one.
- **Concurrency.** The goroutines and channels become two sequences. `sent[k]`
  is the one message sent for the k-th year range. `arrivals` is the order in
  which the loop receives them; it is any permutation of `sent`
  (`multiset(arrivals) == multiset(sent)`).
- **Unseen helpers.** `utils.CalculateStreak` is a function parameter
  `calculate`, and the zero value of its result type is `zero`. RFC 3339
  formatting is a function parameter `format`.

`calculateStreak` does not sort. It walks the weeks in the order it is given,
so its result depends on that order. `WeekOrderMatters` shows two inputs with
the same two days whose streaks differ. `GetAllContributions` returns no error
value. On the first failed fetch it prints the error and returns `0` together
with a zero-value `CalculatedStreakData`.

## Model

| member | source | states |
|---|---|---|
| `Handler.CalculateStreak` | api/index.go:145-175 | The nested reverse loops, the zero-count check, the exit on an unparseable date, the gap check and the early returns give exactly `StreakOf(weeks)`. |
| `Handler.WalkIsReversedFlatten` | api/index.go:150-153 | The walk is the reverse of all days taken week after week in the order given. |
| `Handler.WalkAt` | api/index.go:150-153 | The k-th day examined is the k-th day from the end of the flattened input, so the walk begins at the last day of the last week. |
| `Handler.StreakIsLongestRun` | api/index.go:150-174 | The result is `n` if and only if the first `n` days of the walk each have a non-zero count, a parseable date and (unless the previous date is the zero sentinel) the date one day before the previous one, and the walk then runs out or reaches a zero-count or gap day. |
| `Handler.StreakExitsOnBadDate` | api/index.go:152-162 | The process exits if and only if the walk reaches, after an accepted run, a day with a non-zero count and an unparseable date. |
| `Handler.StreakBounded` | api/index.go:150-171 | The streak never exceeds the total number of days across all weeks. |
| `Handler.NoDaysNoStreak` | api/index.go:145-175 | No weeks, or only weeks without days, give 0. |
| `Handler.LastDayZeroNoStreak` | api/index.go:150-156 | A zero count on the last day examined (the last day of the last non-empty week) gives 0, whatever comes earlier and whatever that day's date. |
| `Handler.FirstDayCounted` | api/index.go:146-170 | The first day examined is not gap-checked: with a non-zero count and a parseable date it is always counted. |
| `Handler.ZeroCountEndsWalk` | api/index.go:154-161 | After an accepted run of `k` days, a zero-count day gives `k`, without its date being parsed. |
| `Handler.GapEndsWalk` | api/index.go:164-167 | After an accepted run of `k` days, a day not dated one day before the previously counted date gives `k`: it is not counted. |
| `Handler.ConsecutiveDaysAllCounted` | api/index.go:150-174 | If every day has a non-zero count and the dates ascend one day at a time in the given order, the streak is the total number of days. |
| `Handler.ZeroDayBreaksExample` | api/index.go:154-156 | Nov 30 to Dec 2 and Dec 4 with contributions and Dec 3 without give 1. |
| `Handler.ContinuousRunExample` | api/index.go:150-174 | Five consecutive contributing days over two weeks give 5. |
| `Handler.WeekOrderMatters` | api/index.go:150-153 | The same two consecutive days give 2 in date order and 1 with the weeks swapped: the weeks are not re-sorted. |
| `Handler.ZeroTimeDateSkipsGapCheck` | api/index.go:164-170 | A counted day dated 0001-01-01 resets the sentinel, so the next day is counted without a gap check. |
| `Domain.GetAllContributions` | domain/contribution.service.go:238-270 | If some year's fetch failed, the result is `0` and the zero value. If every year was fetched, the total is the sum of all years' totals, and the calculator receives the years' weeks concatenated in arrival order. |
| `Domain.SumTotalsPermutation` | domain/contribution.service.go:257-261 | Any permutation of the same messages gives the same total. |
| `Domain.MergedDaysPermutation` | domain/contribution.service.go:256-261 | Any permutation of the same messages merges the same days; only their order differs. |
| `Domain.ContributionsCollectionParams` | domain/contribution.service.go:161-167 | Start and end give `(from: …, to: …)`, start alone gives `(from: …)` and no start gives the empty string. When the formatted instants contain no double quote, the clause decodes back to exactly the bounds it was built from. |
| `Domain.SumTotalsAppend` | domain/contribution.service.go:260 | Accumulating totals over two runs of messages adds their sums. |
| `Domain.MergedWeeksAppend` | domain/contribution.service.go:261 | Appending weeks over two runs of messages concatenates their merged weeks. |

## Left out

- The HTTP handler (api/index.go:44-143): request parsing, the token check, the GraphQL POST and JSON decoding are all I/O.
- `streakSVG` (api/index.go:177-288) only renders a string template.
- Parsing a date string is left out. A day already holds what `time.Parse` would return (`Date(ordinal)` or `Invalid`).
- Printing (`fmt.Println`) is left out because it has no effect on the results.
- `init`, `GetUserCreatedAt` and the HTTP and JSON body of `GetContributionsForYear` (domain/contribution.service.go:19-85 and 169-235) are environment and network I/O.
- The goroutine launch loop and the channels (domain/contribution.service.go:241-253) are replaced by the `sent` and `arrivals` sequences. Go's random choice in `select` is covered because `arrivals` may be any permutation of `sent`.
- `utils.RangeOfYears` and `utils.CalculateStreak` are not part of this model. The number of year ranges is `|sent|`, and the calculator is a parameter.
- The package `types` (`types.ContributionData`, `types.ContributionWeek`, `types.CalculatedStreakData`) is not part of this model. Its weeks are assumed to have the same shape as the handler's.
- The commented-out `GetContributionsStreak` (domain/contribution.service.go:87-158) is dead code.
- `Domain.GetAllContributions`: does not model 64-bit wrap-around of `totalContributions`, because the sum is over unbounded integers.
- `Handler.CalculateStreak`: the counter is an unbounded integer, because it is bounded by the number of days and cannot overflow.
