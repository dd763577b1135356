/** The multi-year aggregation of the domain service (package `domain`). */
module Domain {
  import opened Contributions

  /** What one fetch of a year returns on success: that year's total and its
      contribution calendar. */
  datatype ContributionData = ContributionData(totalContributions: int, weeks: seq<ContributionWeek>)

  /** The one message a year's goroutine sends: its data on the data channel,
      or its error on the error channel. */
  datatype YearResult = Fetched(data: ContributionData) | FetchFailed(cause: string)

  /** Sum of the totals of the fetched years, in the given order. */
  function SumTotals(results: seq<YearResult>): int
  {
    if results == [] then 0
    else SumTotals(results[..|results| - 1]) + TotalOf(results[|results| - 1])
  }

  function TotalOf(result: YearResult): int
  {
    match result
    case Fetched(data) => data.totalContributions
    case FetchFailed(_) => 0
  }

  /** The weeks of the fetched years, one year after another, in the given order. */
  function MergedWeeks(results: seq<YearResult>): seq<ContributionWeek>
  {
    if results == [] then []
    else MergedWeeks(results[..|results| - 1]) + WeeksOf(results[|results| - 1])
  }

  function WeeksOf(result: YearResult): seq<ContributionWeek>
  {
    match result
    case Fetched(data) => data.weeks
    case FetchFailed(_) => []
  }

  predicate AllFetched(results: seq<YearResult>)
  {
    forall k :: 0 <= k < |results| ==> results[k].Fetched?
  }

  /** The collect loop of `GetAllContributions`. The goroutine of the k-th
      year range sends `sent[k]`; `arrivals` is the order in which the loop
      receives them from the two channels. `calculate` is the streak
      calculator the merged weeks are handed to, and `zero` the zero value of
      its result type. */
  method GetAllContributions<D>(sent: seq<YearResult>, arrivals: seq<YearResult>,
                                calculate: seq<ContributionWeek> -> D, zero: D)
    returns (totalContributions: int, streakData: D)
    requires multiset(arrivals) == multiset(sent)
    ensures !AllFetched(sent) ==> totalContributions == 0 && streakData == zero
    ensures AllFetched(sent) ==> totalContributions == SumTotals(sent)
    ensures AllFetched(sent) ==> streakData == calculate(MergedWeeks(arrivals))
  {
    totalContributions := 0;
    var weeks: seq<ContributionWeek> := [];
    var i := 0;
    while i < |arrivals|
      invariant 0 <= i <= |arrivals|
      invariant AllFetched(arrivals[..i])
      invariant totalContributions == SumTotals(arrivals[..i])
      invariant weeks == MergedWeeks(arrivals[..i])
    {
      assert arrivals[..i + 1][..i] == arrivals[..i];
      if arrivals[i].FetchFailed? {
        assert arrivals[i] in multiset(sent);
        return 0, zero;
      }
      var contributionData := arrivals[i].data;
      totalContributions := totalContributions + contributionData.totalContributions;
      weeks := weeks + contributionData.weeks;
      i := i + 1;
    }
    assert arrivals[..i] == arrivals;
    forall k | 0 <= k < |sent|
      ensures sent[k].Fetched?
    {
      assert sent[k] in multiset(arrivals);
    }
    SumTotalsPermutation(arrivals, sent);
    streakData := calculate(weeks);
  }

  // ---------------------------------------------------------------------
  // Order of arrival

  lemma {:induction false} SumTotalsAppend(a: seq<YearResult>, b: seq<YearResult>)
    ensures SumTotals(a + b) == SumTotals(a) + SumTotals(b)
  {
    if b == [] {
      assert a + b == a;
    } else {
      assert (a + b)[..|a + b| - 1] == a + b[..|b| - 1];
      SumTotalsAppend(a, b[..|b| - 1]);
    }
  }

  lemma {:induction false} MergedWeeksAppend(a: seq<YearResult>, b: seq<YearResult>)
    ensures MergedWeeks(a + b) == MergedWeeks(a) + MergedWeeks(b)
  {
    if b == [] {
      assert a + b == a;
    } else {
      assert (a + b)[..|a + b| - 1] == a + b[..|b| - 1];
      MergedWeeksAppend(a, b[..|b| - 1]);
    }
  }

  /** Where the last element of `a` sits in its permutation `b`, and what is
      left of `b` without it. */
  lemma PermutationSplit(a: seq<YearResult>, b: seq<YearResult>) returns (i: nat)
    requires a != [] && multiset(a) == multiset(b)
    ensures i < |b| && b[i] == a[|a| - 1]
    ensures b == b[..i] + [b[i]] + b[i + 1..]
    ensures multiset(a[..|a| - 1]) == multiset(b[..i] + b[i + 1..])
  {
    var last := a[|a| - 1];
    assert a == a[..|a| - 1] + [last];
    assert last in multiset(b);
    i :| 0 <= i < |b| && b[i] == last;
    assert b == b[..i] + [b[i]] + b[i + 1..];
    calc {
      multiset(a[..|a| - 1]);
      multiset(a) - multiset{last};
      multiset(b) - multiset{last};
      multiset(b[..i] + b[i + 1..]);
    }
  }

  /** The total does not depend on the order in which the years arrive. */
  lemma {:induction false} SumTotalsPermutation(a: seq<YearResult>, b: seq<YearResult>)
    requires multiset(a) == multiset(b)
    ensures SumTotals(a) == SumTotals(b)
    decreases |a|
  {
    if a == [] {
      assert |b| == |multiset(b)| == 0;
    } else {
      var i := PermutationSplit(a, b);
      SumTotalsPermutation(a[..|a| - 1], b[..i] + b[i + 1..]);
      SumTotalsAppend(b[..i], b[i + 1..]);
      SumTotalsAppend(b[..i] + [b[i]], b[i + 1..]);
      SumTotalsAppend(b[..i], [b[i]]);
      assert [b[i]][..0] == [];
    }
  }

  /** The merged weeks hold the same days whatever the arrival order; only
      their order changes with it. */
  lemma {:induction false} MergedDaysPermutation(a: seq<YearResult>, b: seq<YearResult>)
    requires multiset(a) == multiset(b)
    ensures multiset(Flatten(MergedWeeks(a))) == multiset(Flatten(MergedWeeks(b)))
    decreases |a|
  {
    if a == [] {
      assert |b| == |multiset(b)| == 0;
    } else {
      var i := PermutationSplit(a, b);
      var rest := b[..i] + b[i + 1..];
      MergedDaysPermutation(a[..|a| - 1], rest);
      var last := WeeksOf(b[i]);
      assert [b[i]][..0] == [];
      assert MergedWeeks([b[i]]) == last;
      MergedWeeksAppend(b[..i], b[i + 1..]);
      MergedWeeksAppend(b[..i] + [b[i]], b[i + 1..]);
      MergedWeeksAppend(b[..i], [b[i]]);
      FlattenAppend(MergedWeeks(b[..i]), last);
      FlattenAppend(MergedWeeks(b[..i]) + last, MergedWeeks(b[i + 1..]));
      FlattenAppend(MergedWeeks(b[..i]), MergedWeeks(b[i + 1..]));
      FlattenAppend(MergedWeeks(a[..|a| - 1]), last);
    }
  }

  // ---------------------------------------------------------------------
  // The query's date bounds

  /** The bounds a `contributionsCollection` argument clause carries, as the
      formatted text of each. */
  datatype Bounds = Bounds(from: Option<string>, to: Option<string>)

  const FromOpen: string := "(from: \""
  const ToOpen: string := "\", to: \""
  const Close: string := "\")"

  /** The argument clause of `GetContributionsForYear`, built from the
      optional start and end instants; `format` is RFC 3339 formatting. */
  method ContributionsCollectionParams<Instant>(start: Option<Instant>, end: Option<Instant>,
                                                format: Instant -> string)
    returns (params: string)
    ensures start.Some? && end.Some? ==>
      params == FromOpen + format(start.value) + ToOpen + format(end.value) + Close
    ensures start.Some? && end.None? ==> params == FromOpen + format(start.value) + Close
    ensures start.None? ==> params == ""
    ensures (start.Some? ==> '"' !in format(start.value))
         && (start.Some? && end.Some? ==> '"' !in format(end.value))
      ==> ParseParams(params) == Some(Bounds(
            if start.Some? then Some(format(start.value)) else None,
            if start.Some? && end.Some? then Some(format(end.value)) else None))
  {
    params := "";
    if start.Some? && end.Some? {
      params := FromOpen + format(start.value) + ToOpen + format(end.value) + Close;
      if '"' !in format(start.value) && '"' !in format(end.value) {
        ParseFromTo(format(start.value), format(end.value));
      }
    } else if start.Some? {
      params := FromOpen + format(start.value) + Close;
      if '"' !in format(start.value) {
        ParseFromOnly(format(start.value));
      }
    }
  }

  /** The text before the first double quote and the text after it. */
  function SplitAtQuote(s: string): Option<(string, string)>
  {
    if s == [] then None
    else if s[0] == '"' then Some(([], s[1..]))
    else match SplitAtQuote(s[1..])
      case None => None
      case Some((before, after)) => Some(([s[0]] + before, after))
  }

  /** Reads the bounds back out of an argument clause. */
  function ParseParams(params: string): Option<Bounds>
  {
    if params == "" then Some(Bounds(None, None))
    else if |params| < |FromOpen| || params[..|FromOpen|] != FromOpen then None
    else match SplitAtQuote(params[|FromOpen|..])
      case None => None
      case Some((from, rest)) =>
        if rest == ")" then Some(Bounds(Some(from), None))
        else if |rest| < |ToOpen| - 1 || rest[..|ToOpen| - 1] != ToOpen[1..] then None
        else match SplitAtQuote(rest[|ToOpen| - 1..])
          case None => None
          case Some((to, tail)) => if tail == ")" then Some(Bounds(Some(from), Some(to))) else None
  }

  lemma {:induction false} SplitAtFirstQuote(text: string, rest: string)
    requires '"' !in text
    ensures SplitAtQuote(text + ['"'] + rest) == Some((text, rest))
  {
    if text != [] {
      assert (text + ['"'] + rest)[1..] == text[1..] + ['"'] + rest;
      SplitAtFirstQuote(text[1..], rest);
      assert [text[0]] + text[1..] == text;
    }
  }

  lemma ParseFromOnly(from: string)
    requires '"' !in from
    ensures ParseParams(FromOpen + from + Close) == Some(Bounds(Some(from), None))
  {
    var p := FromOpen + from + Close;
    assert p[..|FromOpen|] == FromOpen;
    assert p[|FromOpen|..] == from + ['"'] + ")";
    SplitAtFirstQuote(from, ")");
  }

  lemma ParseFromTo(from: string, to: string)
    requires '"' !in from && '"' !in to
    ensures ParseParams(FromOpen + from + ToOpen + to + Close) == Some(Bounds(Some(from), Some(to)))
  {
    var p := FromOpen + from + ToOpen + to + Close;
    var rest := ToOpen[1..] + to + Close;
    assert p[..|FromOpen|] == FromOpen;
    assert p[|FromOpen|..] == from + ['"'] + rest;
    SplitAtFirstQuote(from, rest);
    assert rest != ")";
    assert rest[..|ToOpen| - 1] == ToOpen[1..];
    assert rest[|ToOpen| - 1..] == to + ['"'] + ")";
    SplitAtFirstQuote(to, ")");
  }
}
