// The streak arithmetic of `StreakService.calculateStreak`
// (backend/services/streakService.js:6-69): the current streak walks back day by
// day from today over the calendar; the longest streak walks the newest-first
// record list and counts adjacent active records, whatever days lie between them.

module StreakCalc {
  import opened Common
  import opened Ledger

  /** The backward walk stops after this many days (`for (i = 0; i < 365; ...)`). */
  const LookBack: nat := 365

  /** Consecutive active calendar days ending at `day`, counting at most `budget`. */
  function RunBack(ledger: seq<Contribution>, day: int, budget: nat): nat
    decreases budget
  {
    if budget == 0 || !ActiveOn(ledger, day) then 0
    else 1 + RunBack(ledger, day - 1, budget - 1)
  }

  /** The current streak: 0 unless today is active, else the active days ending
      today, capped at `LookBack`. */
  function CurrentStreak(ledger: seq<Contribution>, today: int): nat {
    if !ActiveOn(ledger, today) then 0 else RunBack(ledger, today, LookBack)
  }

  /** The walk back counts only active days, at most `budget` of them, and stops
      at the first inactive one. */
  lemma {:induction false} RunBackMeaning(ledger: seq<Contribution>, day: int, budget: nat)
    ensures RunBack(ledger, day, budget) <= budget
    ensures forall d :: day - RunBack(ledger, day, budget) < d <= day ==> ActiveOn(ledger, d)
    ensures RunBack(ledger, day, budget) < budget ==> !ActiveOn(ledger, day - RunBack(ledger, day, budget))
    decreases budget
  {
    if budget > 0 && ActiveOn(ledger, day) {
      RunBackMeaning(ledger, day - 1, budget - 1);
    }
  }

  /** The current streak is 0 exactly when today is not active; otherwise every
      one of the `CurrentStreak` days ending today is active, the day before them
      is not (unless the cap was reached), and the streak never exceeds 365. */
  lemma CurrentStreakMeaning(ledger: seq<Contribution>, today: int)
    ensures CurrentStreak(ledger, today) <= LookBack
    ensures CurrentStreak(ledger, today) == 0 <==> !ActiveOn(ledger, today)
    ensures forall d :: today - CurrentStreak(ledger, today) < d <= today ==> ActiveOn(ledger, d)
    ensures CurrentStreak(ledger, today) < LookBack ==> !ActiveOn(ledger, today - CurrentStreak(ledger, today))
  {
    RunBackMeaning(ledger, today, LookBack);
    if ActiveOn(ledger, today) {
      var n := RunBack(ledger, today, LookBack);
      assert CurrentStreak(ledger, today) == n;
      assert n >= 1;
    }
  }

  // ---------------------------------------------------------------------------
  // Longest streak: adjacent active records in list order

  /** Number of active records at the end of `s`. */
  function TrailingRun(s: seq<Contribution>): (n: nat)
    ensures n <= |s|
  {
    if s == [] || !IsActive(s[|s| - 1]) then 0 else 1 + TrailingRun(s[..|s| - 1])
  }

  /** The longest block of adjacent active records in `s`. */
  function LongestRun(s: seq<Contribution>): nat {
    if s == [] then 0
    else
      var before := LongestRun(s[..|s| - 1]);
      var here := TrailingRun(s);
      if here > before then here else before
  }

  /** `s[start..start + n]` lies inside `s` and every record in it is active. */
  ghost predicate ActiveBlock(s: seq<Contribution>, start: int, n: nat) {
    0 <= start && start + n <= |s| && forall k :: start <= k < start + n ==> IsActive(s[k])
  }

  /** Every record of `s[i..j]` is active. */
  ghost predicate AllActive(s: seq<Contribution>, i: int, j: int)
    requires 0 <= i <= j <= |s|
  {
    forall k :: i <= k < j ==> IsActive(s[k])
  }

  lemma {:induction false} TrailingRunMeaning(s: seq<Contribution>, i: nat)
    requires i <= |s| && AllActive(s, i, |s|)
    ensures |s| - TrailingRun(s) <= i
    ensures AllActive(s, |s| - TrailingRun(s), |s|)
  {
    if s != [] {
      var t := s[..|s| - 1];
      if IsActive(s[|s| - 1]) {
        if i < |s| {
          TrailingRunMeaning(t, i);
        } else {
          TrailingRunMeaning(t, |t|);
        }
        assert forall k :: |t| - TrailingRun(t) <= k < |t| ==> s[k] == t[k];
      }
    }
  }

  /** No block of adjacent active records is longer than `LongestRun(s)`. */
  lemma {:induction false} LongestRunIsUpperBound(s: seq<Contribution>, i: nat, j: nat)
    requires i <= j <= |s| && AllActive(s, i, j)
    ensures j - i <= LongestRun(s)
  {
    if s != [] {
      var t := s[..|s| - 1];
      if j == |s| {
        TrailingRunMeaning(s, i);
      } else {
        assert AllActive(t, i, j) by {
          assert forall k :: i <= k < j ==> t[k] == s[k];
        }
        LongestRunIsUpperBound(t, i, j);
      }
    }
  }

  /** Some block of adjacent active records has length exactly `LongestRun(s)`. */
  lemma {:induction false} LongestRunIsAttained(s: seq<Contribution>)
    ensures exists start :: ActiveBlock(s, start, LongestRun(s))
  {
    if s == [] {
      assert ActiveBlock(s, 0, LongestRun(s));
    } else {
      var t := s[..|s| - 1];
      LongestRunIsAttained(t);
      if TrailingRun(s) > LongestRun(t) {
        TrailingRunMeaning(s, |s|);
        assert ActiveBlock(s, |s| - TrailingRun(s), LongestRun(s));
      } else {
        var start :| ActiveBlock(t, start, LongestRun(t));
        assert forall k :: 0 <= k < |t| ==> t[k] == s[k];
        assert ActiveBlock(s, start, LongestRun(s));
      }
    }
  }

  // ---------------------------------------------------------------------------
  // The two loops of calculateStreak

  /** The backward walk of streakService.js:27-49 over the sorted list. */
  method ScanCurrentStreak(sorted: seq<Contribution>, today: int) returns (current: nat)
    ensures current == CurrentStreak(sorted, today)
  {
    var todayContribution := Find(sorted, today);
    if todayContribution.None? || !IsActive(todayContribution.value) {
      current := 0;
    } else {
      var consecutiveDays := 0;
      var checkDate := today;
      var i := 0;
      while i < LookBack
        invariant 0 <= i <= LookBack
        invariant consecutiveDays == i && checkDate == today - i
        invariant RunBack(sorted, today, LookBack) == i + RunBack(sorted, checkDate, LookBack - i)
      {
        var contribution := Find(sorted, checkDate);
        if contribution.Some? && IsActive(contribution.value) {
          consecutiveDays := consecutiveDays + 1;
        } else {
          assert RunBack(sorted, checkDate, LookBack - i) == 0;
          break;
        }
        checkDate := checkDate - 1;
        i := i + 1;
      }
      current := consecutiveDays;
    }
  }

  /** The forward walk of streakService.js:53-66 over the sorted list. */
  method ScanLongestStreak(sorted: seq<Contribution>) returns (longest: nat)
    ensures longest == LongestRun(sorted)
  {
    var maxStreak := 0;
    var currentMaxStreak := 0;
    for i := 0 to |sorted|
      invariant currentMaxStreak == TrailingRun(sorted[..i])
      invariant maxStreak == LongestRun(sorted[..i])
    {
      assert sorted[..i + 1][..i] == sorted[..i];
      if IsActive(sorted[i]) {
        currentMaxStreak := currentMaxStreak + 1;
        maxStreak := if maxStreak > currentMaxStreak then maxStreak else currentMaxStreak;
      } else {
        currentMaxStreak := 0;
      }
    }
    assert sorted[..|sorted|] == sorted;
    longest := maxStreak;
  }

  // ---------------------------------------------------------------------------
  // How the two streaks relate on a newest-first ledger with one record per day

  /** On a newest-first ledger with one record per day, the record of the day
      before the one at index `i` can only sit at index `i + 1`. */
  lemma PreviousDayFollows(s: seq<Contribution>, i: nat, p: nat)
    requires NewestFirst(s) && UniqueDates(s)
    requires i < |s| && p < |s| && s[p].date == s[i].date - 1
    ensures p == i + 1
  {
    assert forall j :: 0 <= j <= i ==> s[j].date >= s[i].date;
    assert forall j :: i < j < |s| ==> s[j].date < s[i].date;
    assert i + 1 < |s|;
    assert forall j :: i + 1 < j < |s| ==> s[j].date < s[i + 1].date;
  }

  /** On a newest-first ledger with one record per day, the records of `n`
      consecutive active days ending today sit side by side in the list. */
  lemma {:induction false} ConsecutiveDaysAreAdjacent(s: seq<Contribution>, today: int, n: nat)
    requires NewestFirst(s) && UniqueDates(s)
    requires forall d :: today - n < d <= today ==> ActiveOn(s, d)
    requires n > 0
    ensures FindIndex(s, today).Some?
    ensures ActiveBlock(s, FindIndex(s, today).value, n)
    ensures s[FindIndex(s, today).value + n - 1].date == today - n + 1
  {
    assert ActiveOn(s, today);
    var i0 := FindIndex(s, today).value;
    if n > 1 {
      ConsecutiveDaysAreAdjacent(s, today, n - 1);
      var d := today - n + 1;
      assert ActiveOn(s, d);
      var p := FindIndex(s, d).value;
      PreviousDayFollows(s, i0 + n - 2, p);
      assert IsActive(s[p]);
    }
  }

  /** The current streak never exceeds the longest run on a newest-first ledger
      with one record per day. */
  lemma CurrentAtMostLongest(s: seq<Contribution>, today: int)
    requires NewestFirst(s) && UniqueDates(s)
    ensures CurrentStreak(s, today) <= LongestRun(s)
  {
    var n := CurrentStreak(s, today);
    CurrentStreakMeaning(s, today);
    if n > 0 {
      ConsecutiveDaysAreAdjacent(s, today, n);
      var i0 := FindIndex(s, today).value;
      assert AllActive(s, i0, i0 + n);
      LongestRunIsUpperBound(s, i0, i0 + n);
    }
  }

  // ---------------------------------------------------------------------------
  // The current streak depends only on which days are active

  lemma {:induction false} RunBackSameActivity(a: seq<Contribution>, b: seq<Contribution>, day: int, budget: nat)
    requires forall d :: ActiveOn(a, d) == ActiveOn(b, d)
    ensures RunBack(a, day, budget) == RunBack(b, day, budget)
    decreases budget
  {
    if budget > 0 && ActiveOn(a, day) {
      RunBackSameActivity(a, b, day - 1, budget - 1);
    }
  }

  /** Re-sorting a ledger with one record per day does not change its current
      streak: `find` sees the same record for every day. */
  lemma SortKeepsCurrentStreak(ledger: seq<Contribution>, today: int)
    requires UniqueDates(ledger)
    ensures CurrentStreak(SortNewestFirst(ledger), today) == CurrentStreak(ledger, today)
  {
    forall d ensures ActiveOn(SortNewestFirst(ledger), d) == ActiveOn(ledger, d) {
      SortKeepsFind(ledger, d);
    }
    RunBackSameActivity(SortNewestFirst(ledger), ledger, today, LookBack);
  }
}
