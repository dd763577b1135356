/** The contribution calendar shared by the badge handler and the domain
    service: days grouped into weeks, as the upstream API delivers them. */
module Contributions {

  datatype Option<T> = None | Some(value: T)

  /** The calendar date a day's `date` string parses to with the layout
      "2006-01-02": a day ordinal counted from 0001-01-01 (ordinal 0, the
      date of Go's zero time), or `Invalid` when the string does not parse. */
  datatype ParsedDate = Date(ordinal: int) | Invalid

  /** Ordinal of Go's zero `time.Time`, the value `IsZero` recognises. */
  const ZeroTime: int := 0

  datatype ContributionDay = ContributionDay(date: ParsedDate, contributionCount: int)

  datatype ContributionWeek = ContributionWeek(contributionDays: seq<ContributionDay>)

  function Reverse<T>(s: seq<T>): (r: seq<T>)
    ensures |r| == |s|
  {
    if s == [] then [] else [s[|s| - 1]] + Reverse(s[..|s| - 1])
  }

  lemma {:induction false} ReverseAt<T>(s: seq<T>, k: nat)
    requires k < |s|
    ensures Reverse(s)[k] == s[|s| - 1 - k]
  {
    if k > 0 {
      ReverseAt(s[..|s| - 1], k - 1);
    }
  }

  lemma {:induction false} ReverseAppend<T>(a: seq<T>, b: seq<T>)
    ensures Reverse(a + b) == Reverse(b) + Reverse(a)
  {
    if b == [] {
      assert a + b == a;
    } else {
      assert (a + b)[..|a + b| - 1] == a + b[..|b| - 1];
      ReverseAppend(a, b[..|b| - 1]);
    }
  }

  /** All days of `weeks`, week after week, in the order given. */
  function Flatten(weeks: seq<ContributionWeek>): seq<ContributionDay>
  {
    if weeks == [] then []
    else Flatten(weeks[..|weeks| - 1]) + weeks[|weeks| - 1].contributionDays
  }

  /** Number of days across all weeks. */
  function TotalDays(weeks: seq<ContributionWeek>): nat
  {
    if weeks == [] then 0
    else TotalDays(weeks[..|weeks| - 1]) + |weeks[|weeks| - 1].contributionDays|
  }

  lemma {:induction false} FlattenLength(weeks: seq<ContributionWeek>)
    ensures |Flatten(weeks)| == TotalDays(weeks)
  {
    if weeks != [] {
      FlattenLength(weeks[..|weeks| - 1]);
    }
  }

  lemma {:induction false} FlattenAppend(a: seq<ContributionWeek>, b: seq<ContributionWeek>)
    ensures Flatten(a + b) == Flatten(a) + Flatten(b)
  {
    if b == [] {
      assert a + b == a;
    } else {
      assert (a + b)[..|a + b| - 1] == a + b[..|b| - 1];
      FlattenAppend(a, b[..|b| - 1]);
    }
  }
}
