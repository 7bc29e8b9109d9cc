/**
 * The spaced-repetition review scheduler of src/database.py: the
 * `review_schedule` table (one row per problem), the update that advances a
 * problem's interval after an outcome, and the queries over the table (the due
 * list, the due count, the count of reviewed problems, the streak and the
 * per-problem review info).
 *
 * Calendar dates are day numbers (`int`); `today` is always a parameter.
 */
module Scheduler {
  import opened Wrappers

  /** One row of `review_schedule`. The unused `ease_factor` column is not modelled. */
  datatype Schedule = Schedule(nextReview: int, interval: int, lastReviewed: Option<int>)

  /** The `review_schedule` table, keyed by its primary key `problem_id`. */
  type Table = map<string, Schedule>

  // ---------------------------------------------------------------------------
  // The interval ladder

  /** The interval chosen after an outcome, given the prior row (if any). */
  function NextInterval(prior: Option<Schedule>, success: bool): (days: int)
    ensures (prior.None? || prior.value.interval >= 1) ==> days >= 1
    ensures success && prior.Some? && prior.value.interval >= 1 ==> days > prior.value.interval
  {
    if !success then 1
    else if prior.None? then 1
    else if prior.value.interval == 1 then 3
    else if prior.value.interval == 3 then 7
    else prior.value.interval * 2
  }

  /** A row as the update leaves it: due `interval` days after the day it was reviewed. */
  predicate Consistent(s: Schedule)
  {
    s.lastReviewed.Some? && s.nextReview == s.lastReviewed.value + s.interval
  }

  /** The row the update writes for an outcome recorded on `today`. */
  function Advance(prior: Option<Schedule>, success: bool, today: int): (s: Schedule)
    ensures Consistent(s) && s.lastReviewed == Some(today)
    ensures !success ==> s.interval == 1 && s.nextReview == today + 1
    ensures success && prior.None? ==> s.interval == 1 && s.nextReview == today + 1
  {
    var days := NextInterval(prior, success);
    Schedule(today + days, days, Some(today))
  }

  /** The n-th interval of an unbroken run of successes: 1, 3, 7, 14, 28, ... */
  function LadderStep(n: nat): (d: int)
    ensures d >= 1
    ensures n >= 2 ==> d >= 7
  {
    if n == 0 then 1 else if n == 1 then 3 else if n == 2 then 7 else 2 * LadderStep(n - 1)
  }

  function Pow2(k: nat): (p: nat)
    ensures p >= 1
  {
    if k == 0 then 1 else 2 * Pow2(k - 1)
  }

  /** From the third step on, the ladder is 7 doubled again and again. */
  lemma {:induction false} LadderClosedForm(n: nat)
    requires n >= 2
    ensures LadderStep(n) == 7 * Pow2(n - 2)
  {
    if n > 2 {
      LadderClosedForm(n - 1);
    }
  }

  /** Intervals an unbroken run of successes can produce: 1, 3, or 7 * 2^k. */
  ghost predicate OnLadder(d: int)
  {
    exists n: nat :: LadderStep(n) == d
  }

  /** Every row of the table has an interval on the ladder. */
  ghost predicate AllOnLadder(t: Table)
  {
    forall k :: k in t ==> OnLadder(t[k].interval)
  }

  /** A success moves an interval one step up the ladder. */
  lemma {:induction false} SuccessClimbsOneStep(prior: Schedule, n: nat, today: int)
    requires prior.interval == LadderStep(n)
    ensures Advance(Some(prior), true, today).interval == LadderStep(n + 1)
  {
    if n >= 2 {
      assert LadderStep(n + 1) == 2 * LadderStep(n);
    }
  }

  /** Whatever the outcome, an update keeps the interval on the ladder. */
  lemma {:induction false} AdvanceKeepsLadder(prior: Option<Schedule>, success: bool, today: int)
    requires prior.Some? ==> OnLadder(prior.value.interval)
    ensures OnLadder(Advance(prior, success, today).interval)
  {
    var s := Advance(prior, success, today);
    if !success || prior.None? {
      assert LadderStep(0) == s.interval;
    } else {
      var n: nat :| LadderStep(n) == prior.value.interval;
      SuccessClimbsOneStep(prior.value, n, today);
      assert LadderStep(n + 1) == s.interval;
    }
  }

  /** The table-wide invariant survives an update of any one problem. */
  lemma {:induction false} UpdateKeepsLadder(t: Table, problemId: string, success: bool, today: int)
    requires AllOnLadder(t)
    ensures AllOnLadder(t[problemId := Advance(Lookup(t, problemId), success, today)])
  {
    AdvanceKeepsLadder(Lookup(t, problemId), success, today);
  }

  // ---------------------------------------------------------------------------
  // Sequences of outcomes on one problem

  /** An outcome recorded for a problem on a given day. */
  datatype Outcome = Outcome(success: bool, day: int)

  /** The problem's row after recording the outcomes in order, starting from `prior`. */
  function Replay(prior: Option<Schedule>, outcomes: seq<Outcome>): (r: Option<Schedule>)
    ensures outcomes != [] ==> r.Some?
    decreases |outcomes|
  {
    if outcomes == [] then prior
    else Replay(Some(Advance(prior, outcomes[0].success, outcomes[0].day)), outcomes[1..])
  }

  predicate AllSuccesses(outcomes: seq<Outcome>)
  {
    forall i :: 0 <= i < |outcomes| ==> outcomes[i].success
  }

  /** A run of successes from ladder step n ends on step n + (number of successes). */
  lemma {:induction false} SuccessesClimbLadder(prior: Schedule, n: nat, outcomes: seq<Outcome>)
    requires prior.interval == LadderStep(n)
    requires AllSuccesses(outcomes)
    ensures Replay(Some(prior), outcomes).value.interval == LadderStep(n + |outcomes|)
    decreases |outcomes|
  {
    if outcomes != [] {
      var next := Advance(Some(prior), true, outcomes[0].day);
      SuccessClimbsOneStep(prior, n, outcomes[0].day);
      assert AllSuccesses(outcomes[1..]) by {
        forall i | 0 <= i < |outcomes| - 1 ensures outcomes[1..][i].success {
          assert outcomes[1..][i] == outcomes[i + 1];
        }
      }
      SuccessesClimbLadder(next, n + 1, outcomes[1..]);
    }
  }

  /** From no record, k+1 successes give the intervals 1, 3, 7, 14, ... in turn: the last is LadderStep(k). */
  lemma {:induction false} FreshSuccessesFollowLadder(outcomes: seq<Outcome>)
    requires |outcomes| >= 1 && AllSuccesses(outcomes)
    ensures Replay(None, outcomes).value.interval == LadderStep(|outcomes| - 1)
  {
    var first := Advance(None, true, outcomes[0].day);
    assert first.interval == LadderStep(0);
    assert AllSuccesses(outcomes[1..]) by {
      forall i | 0 <= i < |outcomes| - 1 ensures outcomes[1..][i].success {
        assert outcomes[1..][i] == outcomes[i + 1];
      }
    }
    SuccessesClimbLadder(first, 0, outcomes[1..]);
  }

  /** A failure restarts the ladder: after it, k successes give LadderStep(k), whatever came before. */
  lemma {:induction false} FailureRestartsLadder(prior: Option<Schedule>, failDay: int, outcomes: seq<Outcome>)
    requires AllSuccesses(outcomes)
    ensures Replay(prior, [Outcome(false, failDay)] + outcomes).value.interval == LadderStep(|outcomes|)
  {
    var reset := Advance(prior, false, failDay);
    assert ([Outcome(false, failDay)] + outcomes)[1..] == outcomes;
    SuccessesClimbLadder(reset, 0, outcomes);
  }

  // ---------------------------------------------------------------------------
  // The table and its update

  class ReviewStore {
    var schedules: Table

    /** An empty `review_schedule` table. */
    constructor ()
      ensures schedules == map[]
    {
      schedules := map[];
    }

    /**
     * Reads the problem's row, chooses the new interval, and creates or replaces
     * the row; returns the new review date and interval.
     */
    method UpdateReviewSchedule(problemId: string, success: bool, today: int) returns (nextReview: int, intervalDays: int)
      modifies this
      ensures Schedule(nextReview, intervalDays, Some(today)) == Advance(Lookup(old(schedules), problemId), success, today)
      ensures schedules == old(schedules)[problemId := Schedule(nextReview, intervalDays, Some(today))]
      ensures schedules.Keys == old(schedules).Keys + {problemId}
      ensures forall k :: k in old(schedules) && k != problemId ==> schedules[k] == old(schedules)[k]
      ensures old(AllOnLadder(schedules)) ==> AllOnLadder(schedules)
    {
      var row := Lookup(schedules, problemId);
      if success {
        if row.None? {
          intervalDays := 1;
        } else if row.value.interval == 1 {
          intervalDays := 3;
        } else if row.value.interval == 3 {
          intervalDays := 7;
        } else {
          intervalDays := row.value.interval * 2;
        }
      } else {
        intervalDays := 1;
      }
      nextReview := today + intervalDays;
      ghost var before := schedules;
      schedules := schedules[problemId := Schedule(nextReview, intervalDays, Some(today))];
      if AllOnLadder(before) {
        UpdateKeepsLadder(before, problemId, success, today);
      }
    }

    /** The figures of the review statistics that come from `review_schedule`. */
    method GetReviewStats(today: int) returns (dueToday: nat, totalReviewed: nat, currentStreak: nat)
      ensures dueToday == |DueReviews(schedules, today)|
      ensures totalReviewed == TotalReviewed(schedules)
      ensures IsStreak(schedules, today, currentStreak)
    {
      dueToday := DueCount(schedules, today);
      totalReviewed := TotalReviewed(schedules);
      currentStreak := Streak(schedules, today);
    }
  }

  // ---------------------------------------------------------------------------
  // The due list and the due count

  /** Ids of the rows whose review date has come. */
  function DueSet(t: Table, today: int): set<string>
  {
    set k | k in t && t[k].nextReview <= today
  }

  predicate NoDuplicates(s: seq<string>)
  {
    forall i, j :: 0 <= i < j < |s| ==> s[i] != s[j]
  }

  /** The ids in `s` are in non-decreasing order of review date. */
  predicate SortedByDate(t: Table, s: seq<string>)
  {
    forall i, j :: 0 <= i < j < |s| && s[i] in t && s[j] in t ==> t[s[i]].nextReview <= t[s[j]].nextReview
  }

  /** Inserts `k` before the first id whose review date is not earlier than its own. */
  function InsertByDate(t: Table, k: string, s: seq<string>): (r: seq<string>)
    requires k in t
    requires forall i :: 0 <= i < |s| ==> s[i] in t
    ensures |r| == |s| + 1
    ensures forall i :: 0 <= i < |r| ==> r[i] == k || r[i] in s
    ensures forall x :: x in s ==> x in r
    ensures k in r
    ensures multiset(r) == multiset(s) + multiset{k}
  {
    if s == [] then [k]
    else if t[k].nextReview <= t[s[0]].nextReview then [k] + s
    else
      assert s == [s[0]] + s[1..];
      [s[0]] + InsertByDate(t, k, s[1..])
  }

  /** Inserting by date keeps a date-sorted list sorted. */
  lemma {:induction false} InsertByDateKeepsSorted(t: Table, k: string, s: seq<string>)
    requires k in t
    requires forall i :: 0 <= i < |s| ==> s[i] in t
    requires SortedByDate(t, s)
    ensures SortedByDate(t, InsertByDate(t, k, s))
  {
    if s != [] {
      if t[k].nextReview <= t[s[0]].nextReview {
        SortedCons(t, k, s);
      } else {
        var tail := s[1..];
        assert forall i :: 0 <= i < |tail| ==> tail[i] == s[i + 1];
        InsertByDateKeepsSorted(t, k, tail);
        var rest := InsertByDate(t, k, tail);
        forall j | 0 <= j < |rest| ensures t[s[0]].nextReview <= t[rest[j]].nextReview {
          if rest[j] != k {
            var m :| 0 <= m < |tail| && tail[m] == rest[j];
            assert rest[j] == s[m + 1];
          }
        }
        SortedCons(t, s[0], rest);
      }
    }
  }

  /** An id due no later than every id of a sorted list can head it. */
  lemma SortedCons(t: Table, h: string, s: seq<string>)
    requires h in t && forall i :: 0 <= i < |s| ==> s[i] in t
    requires SortedByDate(t, s)
    requires forall j :: 0 <= j < |s| ==> t[h].nextReview <= t[s[j]].nextReview
    ensures SortedByDate(t, [h] + s)
  {
    var r := [h] + s;
    forall i, j | 0 <= i < j < |r| ensures t[r[i]].nextReview <= t[r[j]].nextReview {
      assert r[j] == s[j - 1];
      if i > 0 {
        assert r[i] == s[i - 1];
      }
    }
  }

  /** Inserting a new id keeps a list free of repeats. */
  lemma {:induction false} InsertByDateKeepsDistinct(t: Table, k: string, s: seq<string>)
    requires k in t
    requires forall i :: 0 <= i < |s| ==> s[i] in t
    requires NoDuplicates(s) && k !in s
    ensures NoDuplicates(InsertByDate(t, k, s))
  {
    if s != [] {
      if t[k].nextReview <= t[s[0]].nextReview {
        DistinctCons(k, s);
      } else {
        var tail := s[1..];
        assert forall i :: 0 <= i < |tail| ==> tail[i] == s[i + 1];
        InsertByDateKeepsDistinct(t, k, tail);
        var rest := InsertByDate(t, k, tail);
        forall j | 0 <= j < |rest| ensures s[0] != rest[j] {
          if rest[j] != k {
            var m :| 0 <= m < |tail| && tail[m] == rest[j];
            assert rest[j] == s[m + 1];
          }
        }
        DistinctCons(s[0], rest);
      }
    }
  }

  lemma DistinctCons(h: string, s: seq<string>)
    requires NoDuplicates(s) && h !in s
    ensures NoDuplicates([h] + s)
  {
    var r := [h] + s;
    forall i, j | 0 <= i < j < |r| ensures r[i] != r[j] {
      assert r[j] == s[j - 1];
      if i > 0 {
        assert r[i] == s[i - 1];
      }
    }
  }

  /**
   * The due list: every problem whose review date is today or earlier, once
   * each, oldest date first. Rows with the same date may come in any order,
   * as in the SQL query, so the list is a choice among those orders.
   */
  ghost function DueReviews(t: Table, today: int): (r: seq<string>)
    ensures forall i :: 0 <= i < |r| ==> r[i] in t
    ensures forall k :: k in r <==> k in t && t[k].nextReview <= today
    ensures NoDuplicates(r)
    ensures SortedByDate(t, r)
    ensures |r| == |DueSet(t, today)|
    decreases |t|
  {
    if |t| == 0 then []
    else
      var k :| k in t;
      RemoveOne(t, k);
      var rest := DueReviews(t - {k}, today);
      DueListWithout(t, k, today, rest);
      if t[k].nextReview <= today then
        InsertByDateKeepsSorted(t, k, rest);
        InsertByDateKeepsDistinct(t, k, rest);
        InsertByDate(t, k, rest)
      else rest
  }

  lemma RemoveOne(t: Table, k: string)
    requires k in t
    ensures |t - {k}| == |t| - 1
  {
    assert (t - {k}).Keys == t.Keys - {k};
  }

  /** What the due list of the table without `k` says about the whole table. */
  lemma DueListWithout(t: Table, k: string, today: int, rest: seq<string>)
    requires k in t
    requires forall i :: 0 <= i < |rest| ==> rest[i] in t - {k}
    requires forall x :: x in rest <==> x in t - {k} && (t - {k})[x].nextReview <= today
    requires SortedByDate(t - {k}, rest)
    requires |rest| == |DueSet(t - {k}, today)|
    ensures forall i :: 0 <= i < |rest| ==> rest[i] in t
    ensures k !in rest
    ensures SortedByDate(t, rest)
    ensures forall x :: x in rest <==> x in t && x != k && t[x].nextReview <= today
    ensures |DueSet(t, today)| == |rest| + (if t[k].nextReview <= today then 1 else 0)
  {
    var smaller := t - {k};
    if t[k].nextReview <= today {
      assert DueSet(t, today) == DueSet(smaller, today) + {k};
    } else {
      assert DueSet(t, today) == DueSet(smaller, today);
    }
  }

  /** With no rows nothing is due. */
  lemma EmptyTableHasNothingDue(today: int)
    ensures DueReviews(map[], today) == []
  {
  }

  /** The due count of the statistics: the rows whose review date is today or earlier. */
  function DueCount(t: Table, today: int): (n: nat)
    ensures n == |DueReviews(t, today)|
    ensures n <= |t|
  {
    assert DueSet(t, today) <= t.Keys;
    SubsetCard(DueSet(t, today), t.Keys);
    |DueSet(t, today)|
  }

  lemma SubsetCard<T>(a: set<T>, b: set<T>)
    requires a <= b
    ensures |a| <= |b|
  {
    assert b == a + (b - a);
  }

  /** An update on `today` leaves that problem off today's due list. */
  lemma {:induction false} JustReviewedIsNotDue(t: Table, problemId: string, success: bool, today: int)
    requires forall k :: k in t ==> t[k].interval >= 1
    ensures problemId !in DueReviews(t[problemId := Advance(Lookup(t, problemId), success, today)], today)
  {
    var s := Advance(Lookup(t, problemId), success, today);
    assert Lookup(t, problemId).Some? ==> Lookup(t, problemId).value.interval >= 1;
    assert s.nextReview > today;
  }

  // ---------------------------------------------------------------------------
  // Reviewed count, streak and review info

  /** The problems whose row has a `last_reviewed` date. */
  function ReviewedKeys(t: Table): set<string>
  {
    set k | k in t && t[k].lastReviewed.Some?
  }

  /** Rows with a `last_reviewed` date. */
  function TotalReviewed(t: Table): (n: nat)
    ensures n <= |t|
  {
    SubsetCard(ReviewedKeys(t), t.Keys);
    |ReviewedKeys(t)|
  }

  /** An update counts its problem as reviewed, once. */
  lemma UpdateCountsReviewed(t: Table, problemId: string, success: bool, today: int)
    ensures TotalReviewed(t[problemId := Advance(Lookup(t, problemId), success, today)])
         == TotalReviewed(t) + (if problemId in t && t[problemId].lastReviewed.Some? then 0 else 1)
  {
    ReviewedAfterWrite(t, problemId, Advance(Lookup(t, problemId), success, today));
  }

  /** Writing a reviewed row adds its problem to the reviewed rows, if it was not there yet. */
  lemma ReviewedAfterWrite(t: Table, problemId: string, s: Schedule)
    requires s.lastReviewed.Some?
    ensures TotalReviewed(t[problemId := s])
         == TotalReviewed(t) + (if problemId in t && t[problemId].lastReviewed.Some? then 0 else 1)
  {
    var before, after := ReviewedKeys(t), ReviewedKeys(t[problemId := s]);
    if problemId in t && t[problemId].lastReviewed.Some? {
      forall k ensures k in after <==> k in before {
        if k == problemId {
          assert k in before && k in after;
        }
      }
      assert after == before;
    } else {
      assert problemId !in before;
      forall k ensures k in after <==> k in before || k == problemId {
        if k == problemId {
          assert k in after;
        }
      }
      assert after == before + {problemId};
    }
  }

  /** Some row was last reviewed on day `d`. */
  predicate ReviewedOn(t: Table, d: int)
  {
    exists k :: k in t && t[k].lastReviewed == Some(d)
  }

  /** The number of rows last reviewed on day `d`. */
  function CountReviewedOn(t: Table, d: int): (n: nat)
    ensures n == 0 <==> !ReviewedOn(t, d)
  {
    var on := set k | k in t && t[k].lastReviewed == Some(d);
    assert ReviewedOn(t, d) ==> on != {} by {
      if ReviewedOn(t, d) {
        var k :| k in t && t[k].lastReviewed == Some(d);
        assert k in on;
      }
    }
    |on|
  }

  /** Rows last reviewed on or before day `d`. */
  ghost function ReviewedBy(t: Table, d: int): set<string>
  {
    set k | k in t && t[k].lastReviewed.Some? && t[k].lastReviewed.value <= d
  }

  /** `n` is the streak: each of the n days ending today has a review, the day before them has none. */
  ghost predicate IsStreak(t: Table, today: int, n: nat)
  {
    && (forall d :: today - n < d <= today ==> ReviewedOn(t, d))
    && !ReviewedOn(t, today - n)
  }

  /** The streak is determined: no two lengths satisfy its definition. */
  lemma StreakUnique(t: Table, today: int, m: nat, n: nat)
    requires IsStreak(t, today, m) && IsStreak(t, today, n)
    ensures m == n
  {
  }

  /**
   * Walks back from today while some row was last reviewed on the day being
   * looked at; stops at the first day without one.
   */
  method Streak(t: Table, today: int) returns (streak: nat)
    ensures IsStreak(t, today, streak)
    ensures !ReviewedOn(t, today) ==> streak == 0
    ensures streak <= |t|
  {
    streak := 0;
    var checkDate := today;
    SubsetCard(ReviewedBy(t, checkDate), t.Keys);
    while true
      invariant checkDate == today - streak
      invariant forall d :: checkDate < d <= today ==> ReviewedOn(t, d)
      invariant streak + |ReviewedBy(t, checkDate)| <= |t|
      decreases |ReviewedBy(t, checkDate)|
    {
      var count := CountReviewedOn(t, checkDate);
      if count == 0 {
        break;
      }
      var k :| k in t && t[k].lastReviewed == Some(checkDate);
      ShrinksByOneDay(t, checkDate, k);
      streak := streak + 1;
      checkDate := checkDate - 1;
    }
  }

  /** Going back one day drops at least the rows last reviewed on the later day. */
  lemma ShrinksByOneDay(t: Table, d: int, k: string)
    requires k in t && t[k].lastReviewed == Some(d)
    ensures |ReviewedBy(t, d - 1)| < |ReviewedBy(t, d)|
  {
    var later := ReviewedBy(t, d);
    var earlier := ReviewedBy(t, d - 1);
    assert k !in earlier;
    assert earlier <= later - {k};
    SubsetCard(earlier, later - {k});
  }

  /** The review info of a list of ids: each requested id answers as its row would, nothing else is present. */
  function ReviewInfo(t: Table, ids: seq<string>): (info: Table)
    ensures forall k :: Lookup(info, k) == (if k in ids then Lookup(t, k) else None)
    ensures ids == [] ==> info == map[]
  {
    map k | k in t && k in ids :: t[k]
  }

  /** After an update the review info of that problem is exactly the row the update reported. */
  lemma ReviewInfoAfterUpdate(t: Table, problemId: string, success: bool, today: int)
    ensures ReviewInfo(t[problemId := Advance(Lookup(t, problemId), success, today)], [problemId])
         == map[problemId := Advance(Lookup(t, problemId), success, today)]
  {
  }

  // ---------------------------------------------------------------------------
  // Worked scenarios

  /** A fresh problem: success on day d, success the next day, failure when next due. */
  method SuccessSuccessFailure(d: int) returns (next1: int, days1: int, next2: int, days2: int, next3: int, days3: int)
    ensures days1 == 1 && next1 == d + 1
    ensures days2 == 3 && next2 == d + 4
    ensures days3 == 1 && next3 == d + 5
  {
    var store := new ReviewStore();
    next1, days1 := store.UpdateReviewSchedule("P", true, d);
    next2, days2 := store.UpdateReviewSchedule("P", true, d + 1);
    next3, days3 := store.UpdateReviewSchedule("P", false, d + 4);
  }

  /** One problem due yesterday and one due today: the due list is the first, then the second. */
  lemma OverdueComesFirst(today: int)
    ensures DueReviews(map["A" := Schedule(today - 1, 1, Some(today - 2)), "B" := Schedule(today, 3, Some(today - 3))], today)
         == ["A", "B"]
  {
    var t := map["A" := Schedule(today - 1, 1, Some(today - 2)), "B" := Schedule(today, 3, Some(today - 3))];
    assert t.Keys == {"A", "B"};
    assert DueSet(t, today) == {"A", "B"};
    TwoDueInOrder(t, today, "A", "B");
  }

  /** When exactly two rows are due, the one with the earlier date comes first. */
  lemma TwoDueInOrder(t: Table, today: int, x: string, y: string)
    requires x in t && y in t && x != y
    requires DueSet(t, today) == {x, y}
    requires t[x].nextReview < t[y].nextReview
    ensures DueReviews(t, today) == [x, y]
  {
    var r := DueReviews(t, today);
    assert |{x, y}| == 2;
    assert r[0] in DueSet(t, today) && r[1] in DueSet(t, today);
    assert r[0] != r[1];
  }

  /** Rows last reviewed today and yesterday, none the day before: a streak of two days. */
  method TwoDayStreak(today: int) returns (streak: nat)
    ensures streak == 2
  {
    var t := map["two-sum" := Schedule(today + 1, 1, Some(today)),
                 "valid-parens" := Schedule(today + 3, 3, Some(today - 1))];
    streak := Streak(t, today);
    assert t["two-sum"].lastReviewed == Some(today);
    assert t["valid-parens"].lastReviewed == Some(today - 1);
    assert t.Keys == {"two-sum", "valid-parens"};
    StreakUnique(t, today, streak, 2);
  }

  /**
   * Only the latest review day of each problem is kept, so one problem
   * marked yesterday and again today makes a streak of one day.
   */
  method SameProblemTwoDays(today: int) returns (streak: nat)
    ensures streak == 1
  {
    var store := new ReviewStore();
    var _, _ := store.UpdateReviewSchedule("two-sum", true, today - 1);
    var _, _ := store.UpdateReviewSchedule("two-sum", true, today);
    streak := Streak(store.schedules, today);
    assert store.schedules.Keys == {"two-sum"};
    assert store.schedules["two-sum"].lastReviewed == Some(today);
    StreakUnique(store.schedules, today, streak, 1);
  }
}
