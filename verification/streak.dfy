/** The completion streak: the number of completion dates, newest first,
    that each fall on the expected day or the day before it. */
module Streak {
  import opened Calendar
  import opened Records

  ghost predicate StrictlyDecreasing(s: seq<Day>)
  {
    forall i, j :: 0 <= i < j < |s| ==> s[i] > s[j]
  }

  /** Insert `d` into a strictly decreasing sequence unless it is already there. */
  function InsertDescending(s: seq<Day>, d: Day): (r: seq<Day>)
    requires StrictlyDecreasing(s)
    ensures StrictlyDecreasing(r)
    ensures forall x :: x in r <==> x in s || x == d
    ensures |r| > 0
    ensures r[0] == d || (|s| > 0 && r[0] == s[0])
    decreases |s|
  {
    if |s| == 0 then [d]
    else if d == s[0] then s
    else if d > s[0] then [d] + s
    else
      var rest := InsertDescending(s[1..], d);
      assert s == [s[0]] + s[1..];
      var r := [s[0]] + rest;
      assert r[1..] == rest;
      r
  }

  /** The distinct dates of `ds`, newest first (`sorted(set(ds), reverse=True)`). */
  function DistinctDescending(ds: seq<Day>): (r: seq<Day>)
    ensures StrictlyDecreasing(r)
    ensures forall x :: x in r <==> x in ds
    decreases |ds|
  {
    if |ds| == 0 then []
    else
      var init := ds[..|ds| - 1];
      assert ds == init + [ds[|ds| - 1]];
      InsertDescending(DistinctDescending(init), ds[|ds| - 1])
  }

  /** A strictly decreasing sequence has no repeats, so it has as many
      elements as its set of values. */
  lemma {:induction false} DecreasingCardinality(s: seq<Day>)
    requires StrictlyDecreasing(s)
    ensures |set x | x in s| == |s|
    decreases |s|
  {
    if |s| > 0 {
      var rest := s[1..];
      assert StrictlyDecreasing(rest) by {
        forall i, j | 0 <= i < j < |rest| ensures rest[i] > rest[j] {
          assert rest[i] == s[i + 1] && rest[j] == s[j + 1];
        }
      }
      DecreasingCardinality(rest);
      assert s[0] !in rest by {
        forall k | 0 <= k < |rest| ensures rest[k] != s[0] {
          assert rest[k] == s[k + 1];
        }
      }
      assert (set x | x in s) == (set x | x in rest) + {s[0]} by {
        assert s == [s[0]] + rest;
      }
    }
  }

  /** The calendar date of each completion, in history order. */
  function CompletionDays(cs: seq<Completion>): seq<Day>
  {
    seq(|cs|, k requires 0 <= k < |cs| => DayOf(cs[k].completedAt))
  }

  /** The walk over the dates, newest first: a date equal to `expected` or to
      the day before counts, and the next expected date is the day before it;
      any other date ends the walk. */
  function Walk(dates: seq<Day>, expected: Day): (n: nat)
    ensures n <= |dates|
    decreases |dates|
  {
    if |dates| == 0 then 0
    else if dates[0] == expected || dates[0] == expected - 1 then 1 + Walk(dates[1..], dates[0] - 1)
    else 0
  }

  /** The streak: zero with no completions, otherwise the walk over the
      distinct completion dates starting from today. It never exceeds the
      number of distinct completion dates. */
  function CompletionStreak(cs: seq<Completion>, today: Day): (n: nat)
    ensures |cs| == 0 ==> n == 0
    ensures n <= |set c | c in cs :: DayOf(c.completedAt)|
  {
    if |cs| == 0 then 0
    else
      var days := CompletionDays(cs);
      var dates := DistinctDescending(days);
      DecreasingCardinality(dates);
      assert (set x | x in dates) == set c | c in cs :: DayOf(c.completedAt) by {
        forall x | x in dates ensures x in set c | c in cs :: DayOf(c.completedAt) {
          var k :| 0 <= k < |days| && days[k] == x;
          assert cs[k] in cs;
        }
        forall c | c in cs ensures DayOf(c.completedAt) in dates {
          var k :| 0 <= k < |cs| && cs[k] == c;
          assert days[k] == DayOf(c.completedAt);
        }
      }
      Walk(dates, today)
  }

  // ---------------------------------------------------------------------
  // What the walk computes.

  /** The date the walk expects at step `i`: today first, then the day
      before the previous accepted date. */
  function Expected(dates: seq<Day>, today: Day, i: nat): Day
    requires i <= |dates|
  {
    if i == 0 then today else dates[i - 1] - 1
  }

  /** Step `i` is accepted when its date is the expected day or the day before. */
  predicate Accepted(dates: seq<Day>, today: Day, i: nat)
    requires i < |dates|
  {
    dates[i] == Expected(dates, today, i) || dates[i] == Expected(dates, today, i) - 1
  }

  /** The walk's length is the longest run of accepted steps from the start:
      every step before it is accepted, and the step at it (if any) is not. */
  lemma {:induction false} WalkIsLongestAcceptedPrefix(dates: seq<Day>, today: Day)
    ensures forall i :: 0 <= i < Walk(dates, today) ==> Accepted(dates, today, i)
    ensures Walk(dates, today) < |dates| ==> !Accepted(dates, today, Walk(dates, today))
    decreases |dates|
  {
    if |dates| > 0 && Accepted(dates, today, 0) {
      var rest := dates[1..];
      var next := dates[0] - 1;
      WalkIsLongestAcceptedPrefix(rest, next);
      forall i | 0 <= i < |rest| ensures Accepted(rest, next, i) == Accepted(dates, today, i + 1) {
        assert rest[i] == dates[i + 1];
        if i > 0 { assert rest[i - 1] == dates[i]; }
      }
      assert Walk(dates, today) == 1 + Walk(rest, next);
      forall i | 0 <= i < Walk(dates, today) ensures Accepted(dates, today, i) {
        if i > 0 { assert Accepted(rest, next, i - 1); }
      }
    }
  }

  /** Conversely, any length with those two properties is the walk's length. */
  lemma StreakCharacterization(dates: seq<Day>, today: Day, k: nat)
    requires k <= |dates|
    requires forall i :: 0 <= i < k ==> Accepted(dates, today, i)
    requires k < |dates| ==> !Accepted(dates, today, k)
    ensures Walk(dates, today) == k
  {
    WalkIsLongestAcceptedPrefix(dates, today);
  }

  /** The streak of a non-empty history is the longest accepted prefix of
      its distinct completion dates, newest first: every one of the first
      `CompletionStreak(cs, today)` dates is accepted and the next, if any,
      is not. */
  lemma StreakIsAcceptedPrefix(cs: seq<Completion>, today: Day)
    requires |cs| > 0
    ensures var dates := DistinctDescending(CompletionDays(cs));
      && StrictlyDecreasing(dates)
      && (forall x :: x in dates <==> exists c :: c in cs && DayOf(c.completedAt) == x)
      && CompletionStreak(cs, today) <= |dates|
      && (forall i :: 0 <= i < CompletionStreak(cs, today) ==> Accepted(dates, today, i))
      && (CompletionStreak(cs, today) < |dates| ==> !Accepted(dates, today, CompletionStreak(cs, today)))
  {
    var days := CompletionDays(cs);
    var dates := DistinctDescending(days);
    WalkIsLongestAcceptedPrefix(dates, today);
    forall x | x in dates ensures exists c :: c in cs && DayOf(c.completedAt) == x {
      var k :| 0 <= k < |days| && days[k] == x;
      assert cs[k] in cs;
    }
    forall c | c in cs ensures DayOf(c.completedAt) in dates {
      var k :| 0 <= k < |cs| && cs[k] == c;
      assert days[k] == DayOf(c.completedAt);
    }
  }

  /** Each accepted step moves back at most two days, so a streak of `n`
      reaches no further back than `today - 2n`, while the dates it covers
      are `n` distinct days. */
  lemma {:induction false} StreakSpan(dates: seq<Day>, today: Day)
    requires Walk(dates, today) > 0
    ensures dates[Walk(dates, today) - 1] >= today - 2 * Walk(dates, today)
    ensures dates[0] == today || dates[0] == today - 1
    decreases |dates|
  {
    var n := Walk(dates, today);
    if n > 1 {
      StreakSpan(dates[1..], dates[0] - 1);
    }
  }

  /** One-day gaps are tolerated: completions today, two days ago and four
      days ago make a streak of three. A two-day gap ends it. */
  lemma GapExamples(today: Day)
    ensures Walk([today, today - 2, today - 4], today) == 3
    ensures Walk([today - 1, today - 4], today) == 1
  {
    var a := [today, today - 2, today - 4];
    assert a[1..] == [today - 2, today - 4];
    assert a[1..][1..] == [today - 4];
    assert a[1..][1..][1..] == [];
    assert Walk([today - 4], today - 3) == 1;
    assert Walk([today - 2, today - 4], today - 1) == 2;
    var b := [today - 1, today - 4];
    assert b[1..] == [today - 4];
  }

  /** A completion dated after today (a UTC timestamp ahead of the local
      date) breaks the whole streak: the newest date is neither today nor
      yesterday. */
  lemma CompletionAfterTodayGivesZero(cs: seq<Completion>, today: Day, c: Completion)
    requires c in cs && DayOf(c.completedAt) > today
    ensures CompletionStreak(cs, today) == 0
  {
    var days := CompletionDays(cs);
    var dates := DistinctDescending(days);
    var k :| 0 <= k < |cs| && cs[k] == c;
    assert days[k] in dates;
    var m :| 0 <= m < |dates| && dates[m] == days[k];
    assert dates[0] >= dates[m];
  }

  /** With no completion today or yesterday the streak is zero. */
  lemma StaleCompletionsGiveZero(cs: seq<Completion>, today: Day)
    requires forall c :: c in cs ==> DayOf(c.completedAt) != today && DayOf(c.completedAt) != today - 1
    ensures CompletionStreak(cs, today) == 0
  {
    if |cs| > 0 {
      var days := CompletionDays(cs);
      var dates := DistinctDescending(days);
      assert dates[0] in days;
      var k :| 0 <= k < |days| && days[k] == dates[0];
      assert cs[k] in cs;
    }
  }
}
