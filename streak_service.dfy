// The operations of `StreakService` (backend/services/streakService.js) on an
// in-memory user: today's date is a parameter, the user document is a `User`
// object, and the database load and save around each operation are not modelled.

module StreakService {
  import opened Common
  import opened Ledger
  import opened StreakCalc
  import opened UserModel

  // ---------------------------------------------------------------------------
  // calculateStreak (streakService.js:6-69)

  /** Sorts the user's ledger newest first in place (a permutation of the same
      records) and returns the current and the longest streak of the sorted
      ledger. With one record per day the current streak is the same as before
      the sort and never exceeds the longest. */
  method CalculateStreak(user: User, today: int) returns (currentStreak: nat, longestStreak: nat)
    modifies user`dailyContributions
    ensures user.dailyContributions == SortNewestFirst(old(user.dailyContributions))
    ensures currentStreak == CurrentStreak(user.dailyContributions, today)
    ensures longestStreak == LongestRun(user.dailyContributions)
    ensures UniqueDates(old(user.dailyContributions)) ==>
              UniqueDates(user.dailyContributions)
              && currentStreak == CurrentStreak(old(user.dailyContributions), today)
              && currentStreak <= longestStreak
  {
    if UniqueDates(user.dailyContributions) {
      SortKeepsUniqueDates(user.dailyContributions);
      SortKeepsCurrentStreak(user.dailyContributions, today);
    }
    if |user.dailyContributions| == 0 {
      return 0, 0;
    }
    user.dailyContributions := SortNewestFirst(user.dailyContributions);
    currentStreak := ScanCurrentStreak(user.dailyContributions, today);
    longestStreak := ScanLongestStreak(user.dailyContributions);
    if UniqueDates(user.dailyContributions) {
      SortIsNewestFirst(old(user.dailyContributions));
      CurrentAtMostLongest(user.dailyContributions, today);
    }
  }

  // ---------------------------------------------------------------------------
  // updateDailyContribution / decrementDailyContribution (streakService.js:72-181)

  /** What both operations return. `todayContribution` is absent when a
      decrement found no record for today. */
  datatype StreakSnapshot = StreakSnapshot(
    currentStreak: nat,
    longestStreak: nat,
    todayContribution: Option<Contribution>,
    totalPosts: nat)

  /** Finds or creates today's record, raises its counter `activity` by one
      (and `totalPosts` for a post), re-sorts the ledger and recomputes the
      streaks, never lowering the longest streak. `UpdatedLedger` states what
      the new ledger holds. */
  method UpdateDailyContribution(user: User, activity: Activity, today: int) returns (snapshot: StreakSnapshot)
    requires user.StreaksValid()
    modifies user`dailyContributions, user`totalPosts, user`currentStreak, user`longestStreak
    ensures user.StreaksValid()
    ensures user.dailyContributions == SortNewestFirst(Bump(old(user.dailyContributions), today, activity))
    ensures user.totalPosts == old(user.totalPosts) + (if activity == Posts then 1 else 0)
    ensures user.currentStreak == CurrentStreak(user.dailyContributions, today) && user.currentStreak >= 1
    ensures user.longestStreak == Max(old(user.longestStreak), LongestRun(user.dailyContributions))
    ensures snapshot == StreakSnapshot(user.currentStreak, user.longestStreak, Some(DayRecord(user.dailyContributions, today)), user.totalPosts)
  {
    UpdatedStreaks(user.dailyContributions, today, activity);
    user.dailyContributions := BumpToday(user.dailyContributions, today, activity);
    if activity == Posts {
      user.totalPosts := user.totalPosts + 1;
    }
    ghost var totalPosts := user.totalPosts;
    assert totalPosts == old(user.totalPosts) + (if activity == Posts then 1 else 0);
    var currentStreak, longestStreak := CalculateStreak(user, today);
    user.currentStreak := currentStreak;
    user.longestStreak := Max(user.longestStreak, longestStreak);
    snapshot := StreakSnapshot(user.currentStreak, user.longestStreak, Find(user.dailyContributions, today), user.totalPosts);
    assert Find(user.dailyContributions, today) == Some(DayRecord(user.dailyContributions, today));
  }

  /** The find-or-create and the increment of streakService.js:84-100. */
  method BumpToday(ledger: seq<Contribution>, today: int, activity: Activity) returns (bumped: seq<Contribution>)
    ensures bumped == Bump(ledger, today, activity)
  {
    bumped := ledger;
    var index := FindIndex(bumped, today);
    if index.None? {
      bumped := bumped + [EmptyDay(today)];
      index := Some(|bumped| - 1);
    }
    var i := index.value;
    bumped := bumped[i := WithCount(bumped[i], activity, Count(bumped[i], activity) + 1)];
  }

  /** After an update the ledger, re-sorted, still has one record per day;
      today's record exists, with counter `a` one higher and the others as
      before (all zero if it was just created); every other day is untouched;
      and a record was added only if today had none. */
  lemma UpdatedLedger(before: seq<Contribution>, today: int, a: Activity)
    requires UniqueDates(before)
    ensures var after := SortNewestFirst(Bump(before, today, a));
      UniqueDates(after)
      && Find(after, today).Some?
      && DayRecord(after, today) == WithCount(DayRecord(before, today), a, Count(DayRecord(before, today), a) + 1)
      && (forall d :: d != today ==> Find(after, d) == Find(before, d))
      && |after| == |before| + (if Find(before, today).None? then 1 else 0)
  {
    var bumped := Bump(before, today, a);
    BumpEffect(before, today, a);
    SortAfterChange(bumped, today);
    SortSameRecords(bumped);
  }

  /** After an update the re-sorted ledger keeps one record per day and a
      record for today, and its current streak is at least 1 and at most its
      longest run. */
  lemma UpdatedStreaks(before: seq<Contribution>, today: int, a: Activity)
    requires UniqueDates(before)
    ensures var after := SortNewestFirst(Bump(before, today, a));
      UniqueDates(after) && Find(after, today).Some? && 1 <= CurrentStreak(after, today) <= LongestRun(after)
  {
    var bumped := Bump(before, today, a);
    var after := SortNewestFirst(bumped);
    BumpEffect(before, today, a);
    SortAfterChange(bumped, today);
    SortIsNewestFirst(bumped);
    CurrentStreakMeaning(after, today);
    CurrentAtMostLongest(after, today);
  }

  /** The first activity of a day is lost as written: with no record for
      today, the stored record stays all zero, so today is not active and the
      current streak is 0, while the intended step leaves today active with a
      streak of at least 1. */
  lemma FirstActivityLost(ledger: seq<Contribution>, today: int, a: Activity)
    requires UniqueDates(ledger) && Find(ledger, today).None?
    ensures DayRecord(SortNewestFirst(BumpAsWritten(ledger, today, a)), today) == EmptyDay(today)
    ensures CurrentStreak(SortNewestFirst(BumpAsWritten(ledger, today, a)), today) == 0
    ensures CurrentStreak(SortNewestFirst(Bump(ledger, today, a)), today) >= 1
  {
    FindIndexMeaning(ledger, today);
    var b := ledger + [EmptyDay(today)];
    assert BumpAsWritten(ledger, today, a) == b;
    assert UniqueDates(b) by {
      forall i, j | 0 <= i < j < |b| ensures b[i].date != b[j].date {
        if j == |ledger| {
          assert b[i] == ledger[i];
        }
      }
    }
    assert b[|ledger|] == EmptyDay(today);
    FindUnique(b, EmptyDay(today));
    SortKeepsFind(b, today);
    assert !ActiveOn(SortNewestFirst(b), today);
    UpdatedStreaks(ledger, today, a);
  }

  /** Re-sorting a ledger with one record per day changes no day's record. */
  lemma SortAfterChange(ledger: seq<Contribution>, today: int)
    requires UniqueDates(ledger)
    ensures UniqueDates(SortNewestFirst(ledger))
    ensures forall d :: Find(SortNewestFirst(ledger), d) == Find(ledger, d)
    ensures DayRecord(SortNewestFirst(ledger), today) == DayRecord(ledger, today)
  {
    SortKeepsUniqueDates(ledger);
    forall d ensures Find(SortNewestFirst(ledger), d) == Find(ledger, d) {
      SortKeepsFind(ledger, d);
    }
  }

  /** Lowers counter `activity` of today's record by one, and `totalPosts` for
      a post (never below 0), then re-sorts and recomputes the streaks; when
      today has no record or that counter is already 0 nothing changes, and an
      older day's record is never touched. `DroppedLedger` states what the new
      ledger holds. */
  method DecrementDailyContribution(user: User, activity: Activity, today: int) returns (snapshot: StreakSnapshot)
    requires user.StreaksValid()
    modifies user`dailyContributions, user`totalPosts, user`currentStreak, user`longestStreak
    ensures user.StreaksValid()
    ensures !CanDrop(old(user.dailyContributions), today, activity) ==>
              user.dailyContributions == old(user.dailyContributions)
              && user.totalPosts == old(user.totalPosts)
              && user.currentStreak == old(user.currentStreak)
              && user.longestStreak == old(user.longestStreak)
              && snapshot == StreakSnapshot(user.currentStreak, user.longestStreak, Find(user.dailyContributions, today), user.totalPosts)
    ensures CanDrop(old(user.dailyContributions), today, activity) ==>
              user.dailyContributions == SortNewestFirst(Drop(old(user.dailyContributions), today, activity))
              && user.totalPosts == (if activity == Posts then Max(0, old(user.totalPosts) - 1) else old(user.totalPosts))
              && user.currentStreak == CurrentStreak(user.dailyContributions, today)
              && user.longestStreak == Max(old(user.longestStreak), LongestRun(user.dailyContributions))
              && snapshot == StreakSnapshot(user.currentStreak, user.longestStreak, Some(DayRecord(user.dailyContributions, today)), user.totalPosts)
    ensures user.longestStreak >= old(user.longestStreak)
  {
    var todayContribution := Find(user.dailyContributions, today);
    assert CanDrop(user.dailyContributions, today, activity) <==>
           todayContribution.Some? && Count(todayContribution.value, activity) > 0;
    if todayContribution.Some? && Count(todayContribution.value, activity) > 0 {
      DroppedStreaks(user.dailyContributions, today, activity);
      user.dailyContributions := DropToday(user.dailyContributions, today, activity);
      if activity == Posts {
        user.totalPosts := Max(0, user.totalPosts - 1);
      }
      ghost var totalPosts := user.totalPosts;
      assert totalPosts == if activity == Posts then Max(0, old(user.totalPosts) - 1) else old(user.totalPosts);
      var currentStreak, longestStreak := CalculateStreak(user, today);
      user.currentStreak := currentStreak;
      user.longestStreak := Max(user.longestStreak, longestStreak);
      snapshot := StreakSnapshot(user.currentStreak, user.longestStreak, Find(user.dailyContributions, today), user.totalPosts);
      assert Find(user.dailyContributions, today) == Some(DayRecord(user.dailyContributions, today));
    } else {
      snapshot := StreakSnapshot(user.currentStreak, user.longestStreak, todayContribution, user.totalPosts);
    }
  }

  /** The decrement of streakService.js:148, on a record known to exist with a
      positive counter. */
  method DropToday(ledger: seq<Contribution>, today: int, activity: Activity) returns (dropped: seq<Contribution>)
    requires CanDrop(ledger, today, activity)
    ensures dropped == Drop(ledger, today, activity)
  {
    var i := FindIndex(ledger, today).value;
    var record := ledger[i];
    dropped := ledger[i := WithCount(record, activity, Max(0, Count(record, activity) - 1))];
  }

  /** After a decrement the ledger, re-sorted, keeps its length and one record
      per day; today's counter `a` is one lower and its other counters and all
      other days are as before. */
  lemma DroppedLedger(before: seq<Contribution>, today: int, a: Activity)
    requires UniqueDates(before) && CanDrop(before, today, a)
    ensures var after := SortNewestFirst(Drop(before, today, a));
      UniqueDates(after)
      && |after| == |before|
      && Find(after, today).Some?
      && DayRecord(after, today) == WithCount(DayRecord(before, today), a, Count(DayRecord(before, today), a) - 1)
      && (forall d :: d != today ==> Find(after, d) == Find(before, d))
  {
    var dropped := Drop(before, today, a);
    DropEffect(before, today, a);
    SortAfterChange(dropped, today);
    SortSameRecords(dropped);
  }

  /** After a decrement the re-sorted ledger keeps one record per day and a
      record for today, and its current streak is at most its longest run. */
  lemma DroppedStreaks(before: seq<Contribution>, today: int, a: Activity)
    requires UniqueDates(before) && CanDrop(before, today, a)
    ensures var after := SortNewestFirst(Drop(before, today, a));
      UniqueDates(after) && Find(after, today).Some? && CurrentStreak(after, today) <= LongestRun(after)
  {
    var dropped := Drop(before, today, a);
    DropEffect(before, today, a);
    SortAfterChange(dropped, today);
    SortIsNewestFirst(dropped);
    CurrentAtMostLongest(SortNewestFirst(dropped), today);
  }

  // ---------------------------------------------------------------------------
  // getStreakData (streakService.js:184-253)

  /** One calendar entry: the day, its total activity and its three counters. */
  datatype CalendarDay = CalendarDay(date: int, activity: nat, posts: nat, likes: nat, comments: nat)

  /** The entry for `day`: the counters of the record `find` returns, or zeros
      when the day has no record; the activity is always their sum. */
  function DayEntry(ledger: seq<Contribution>, day: int): (e: CalendarDay)
    ensures e.date == day && e.activity == e.posts + e.likes + e.comments
    ensures Find(ledger, day).None? ==> e == CalendarDay(day, 0, 0, 0, 0)
  {
    match Find(ledger, day)
    case None => CalendarDay(day, 0, 0, 0, 0)
    case Some(c) => CalendarDay(day, c.posts + c.likes + c.comments, c.posts, c.likes, c.comments)
  }

  /** Every record of a ledger with one record per day shows up, counters
      intact, in the entry of its own date. */
  lemma DayEntryOfRecord(ledger: seq<Contribution>, c: Contribution)
    requires UniqueDates(ledger) && c in ledger
    ensures DayEntry(ledger, c.date) == CalendarDay(c.date, c.posts + c.likes + c.comments, c.posts, c.likes, c.comments)
    ensures DayEntry(ledger, c.date).activity > 0 <==> IsActive(c)
  {
    FindUnique(ledger, c);
  }

  /** The result of `getStreakData`. */
  datatype StreakData = StreakData(
    calendarData: seq<CalendarDay>,
    currentStreak: nat,
    longestStreak: nat,
    totalPosts: nat,
    totalLikesReceived: nat,
    totalContributions: nat)

  /** One entry per day from `today - days` to `today`, in ascending order,
      read from the ledger as it was; then the streaks of the ledger, which
      `calculateStreak` leaves sorted. `postLikeCounts` holds the number of
      likes on each of the user's posts. */
  method GetStreakData(user: User, days: int, today: int, postLikeCounts: seq<nat>) returns (data: StreakData)
    modifies user`dailyContributions
    ensures user.dailyContributions == SortNewestFirst(old(user.dailyContributions))
    ensures |data.calendarData| == if days >= 0 then days + 1 else 0
    ensures forall k :: 0 <= k < |data.calendarData| ==> data.calendarData[k].date == today - days + k
    ensures forall k :: 0 <= k < |data.calendarData| ==>
              data.calendarData[k] == DayEntry(old(user.dailyContributions), data.calendarData[k].date)
    ensures data.currentStreak == CurrentStreak(user.dailyContributions, today)
    ensures data.longestStreak == LongestRun(user.dailyContributions)
    ensures data.totalPosts == user.totalPosts
    ensures data.totalLikesReceived == Sum(postLikeCounts)
    ensures data.totalContributions == |old(user.dailyContributions)|
  {
    var calendarData: seq<CalendarDay> := [];
    var startDate := today - days;
    var d := startDate;
    while d <= today
      invariant days >= 0 ==> startDate <= d <= today + 1
      invariant days < 0 ==> d == startDate
      invariant |calendarData| == d - startDate
      invariant forall k :: 0 <= k < |calendarData| ==> calendarData[k].date == startDate + k
      invariant forall k :: 0 <= k < |calendarData| ==> calendarData[k] == DayEntry(user.dailyContributions, calendarData[k].date)
      decreases today - d
    {
      calendarData := calendarData + [DayEntry(user.dailyContributions, d)];
      d := d + 1;
    }
    var currentStreak, longestStreak := CalculateStreak(user, today);
    SortSameRecords(old(user.dailyContributions));
    data := StreakData(calendarData, currentStreak, longestStreak, user.totalPosts,
                       Sum(postLikeCounts), |user.dailyContributions|);
  }

  // ---------------------------------------------------------------------------
  // resetInactiveStreaks (streakService.js:256-291)

  /** A user the nightly reset zeroes: a streak running, but no active record
      for the day before `today`. */
  predicate Idle(user: User, today: int)
    reads user
  {
    user.currentStreak > 0 && !ActiveOn(user.dailyContributions, today - 1)
  }

  /** How many of `users` are idle. */
  function IdleCount(users: seq<User>, today: int): nat
    reads users
  {
    if users == [] then 0
    else IdleCount(users[..|users| - 1], today) + (if Idle(users[|users| - 1], today) then 1 else 0)
  }

  lemma {:induction false} NoneIdle(users: seq<User>, today: int)
    requires forall k :: 0 <= k < |users| ==> !Idle(users[k], today)
    ensures IdleCount(users, today) == 0
  {
    if users != [] {
      NoneIdle(users[..|users| - 1], today);
    }
  }

  /** Zeroes the current streak of exactly the idle users, touches nothing
      else, and returns how many it reset; straight afterwards no user is idle,
      so a second run resets nobody. */
  method ResetInactiveStreaks(users: seq<User>, today: int) returns (resetCount: nat)
    requires forall i, j :: 0 <= i < j < |users| ==> users[i] != users[j]
    modifies users
    ensures forall k :: 0 <= k < |users| ==>
              users[k].currentStreak == if old(Idle(users[k], today)) then 0 else old(users[k].currentStreak)
    ensures forall u :: u in users ==>
              u.dailyContributions == old(u.dailyContributions) && u.longestStreak == old(u.longestStreak)
              && u.totalPosts == old(u.totalPosts) && u.earnedBadges == old(u.earnedBadges)
              && u.totalBadges == old(u.totalBadges) && u.totalPoints == old(u.totalPoints)
              && u.email == old(u.email)
    ensures forall u :: u in users ==> old(u.Valid()) ==> u.Valid()
    ensures resetCount == old(IdleCount(users, today))
    ensures IdleCount(users, today) == 0
  {
    resetCount := 0;
    for i := 0 to |users|
      invariant forall k :: 0 <= k < i ==>
                  users[k].currentStreak == if old(Idle(users[k], today)) then 0 else old(users[k].currentStreak)
      invariant forall k :: i <= k < |users| ==> users[k].currentStreak == old(users[k].currentStreak)
      invariant forall u :: u in users ==>
                  u.dailyContributions == old(u.dailyContributions) && u.longestStreak == old(u.longestStreak)
                  && u.totalPosts == old(u.totalPosts) && u.earnedBadges == old(u.earnedBadges)
                  && u.totalBadges == old(u.totalBadges) && u.totalPoints == old(u.totalPoints)
                  && u.email == old(u.email)
      invariant resetCount == old(IdleCount(users[..i], today))
    {
      assert users[..i + 1][..i] == users[..i];
      var user := users[i];
      if user.currentStreak > 0 {
        var yesterdayContribution := Find(user.dailyContributions, today - 1);
        if yesterdayContribution.None? || !IsActive(yesterdayContribution.value) {
          user.currentStreak := 0;
          resetCount := resetCount + 1;
        }
      }
    }
    assert users[..|users|] == users;
    NoneIdle(users, today);
  }

  // ---------------------------------------------------------------------------
  // checkAndAwardBadges (streakService.js:325-382)

  const FirstPost := Badge("first-post", "First Post", "Published your first blog post", "\U{F8FF}\U{00FC}\U{00EC}\U{00F9}")
  const WeekStreak := Badge("week-streak", "Week Warrior", "Maintained a 7-day streak", "\U{F8FF}\U{00FC}\U{00EE}\U{2022}")
  const MonthStreak := Badge("month-streak", "Monthly Master", "Maintained a 30-day streak", "\U{201A}\U{2260}\U{00EA}")
  const CenturyStreak := Badge("century-streak", "Century Club", "Achieved a 100-day streak", "\U{F8FF}\U{00FC}\U{00E8}\U{00DC}")

  /** The four badges in the order the checks run. */
  const Catalog: seq<Badge> := [FirstPost, WeekStreak, MonthStreak, CenturyStreak]

  /** The badges a check reports, in the order the checks run. */
  function BadgesToAward(totalPosts: nat, currentStreak: nat, longestStreak: nat, earned: seq<EarnedBadge>): seq<Badge> {
    (if totalPosts >= 1 && !HasBadge(earned, "first-post") then [FirstPost] else [])
    + (if currentStreak >= 7 then [WeekStreak] else [])
    + (if currentStreak >= 30 then [MonthStreak] else [])
    + (if longestStreak >= 100 then [CenturyStreak] else [])
  }

  /** First-post is reported only while not yet earned; the streak badges
      whenever their threshold holds, even if already held. */
  lemma BadgesReported(totalPosts: nat, currentStreak: nat, longestStreak: nat, earned: seq<EarnedBadge>)
    ensures var r := BadgesToAward(totalPosts, currentStreak, longestStreak, earned);
      && (FirstPost in r <==> totalPosts >= 1 && !HasBadge(earned, "first-post"))
      && (WeekStreak in r <==> currentStreak >= 7)
      && (MonthStreak in r <==> currentStreak >= 30)
      && (CenturyStreak in r <==> longestStreak >= 100)
  {
    CatalogDistinct();
  }

  /** Reported badges come from the catalog, in catalog order, each at most
      once; a month streak is always also a week streak. */
  lemma BadgesInCatalogOrder(totalPosts: nat, currentStreak: nat, longestStreak: nat, earned: seq<EarnedBadge>)
    ensures var r := BadgesToAward(totalPosts, currentStreak, longestStreak, earned);
      && (forall b :: b in r ==> b in Catalog)
      && (forall i, j :: 0 <= i < j < |r| ==> CatalogRank(r[i]) < CatalogRank(r[j]))
      && (MonthStreak in r ==> WeekStreak in r)
  {
    CatalogDistinct();
  }

  lemma CatalogDistinct()
    ensures CatalogRank(FirstPost) == 0 && CatalogRank(WeekStreak) == 1
    ensures CatalogRank(MonthStreak) == 2 && CatalogRank(CenturyStreak) == 3
  {
    assert FirstPost.badgeId[0] == 'f' && WeekStreak.badgeId[0] == 'w';
    assert MonthStreak.badgeId[0] == 'm' && CenturyStreak.badgeId[0] == 'c';
  }

  /** Position of a badge in the catalog (4 for any other badge). */
  function CatalogRank(b: Badge): nat {
    if b == FirstPost then 0
    else if b == WeekStreak then 1
    else if b == MonthStreak then 2
    else if b == CenturyStreak then 3
    else 4
  }

  /** The badge list after `addBadge` of each of `badges` in turn. */
  function Award(earned: seq<EarnedBadge>, badges: seq<Badge>, now: int): seq<EarnedBadge> {
    if badges == [] then earned
    else WithBadge(Award(earned, badges[..|badges| - 1], now), badges[|badges| - 1], now)
  }

  /** Awarding keeps what was earned before, adds each id at most once, and
      leaves every awarded badge held. */
  lemma {:induction false} AwardMeaning(earned: seq<EarnedBadge>, badges: seq<Badge>, now: int)
    ensures earned <= Award(earned, badges, now)
    ensures DistinctBadgeIds(earned) ==> DistinctBadgeIds(Award(earned, badges, now))
    ensures forall b :: b in badges ==> HasBadge(Award(earned, badges, now), b.badgeId)
  {
    if badges != [] {
      var init := badges[..|badges| - 1];
      var last := badges[|badges| - 1];
      AwardMeaning(earned, init, now);
      WithBadgeKeepsDistinct(Award(earned, init, now), last, now);
      forall b | b in badges ensures HasBadge(Award(earned, badges, now), b.badgeId) {
        if b != last {
          assert b in init;
          HeldStaysHeld(Award(earned, init, now), Award(earned, badges, now), b.badgeId);
        }
      }
    }
  }

  lemma HeldStaysHeld(a: seq<EarnedBadge>, b: seq<EarnedBadge>, id: string)
    requires a <= b && HasBadge(a, id)
    ensures HasBadge(b, id)
  {
    var i :| 0 <= i < |a| && a[i].badge.badgeId == id;
    assert b[i] == a[i];
  }

  /** Once every badge of a list is held, awarding the list again changes
      nothing: a repeated check adds no second entry. */
  lemma {:induction false} AwardHeld(earned: seq<EarnedBadge>, badges: seq<Badge>, now: int)
    requires forall b :: b in badges ==> HasBadge(earned, b.badgeId)
    ensures Award(earned, badges, now) == earned
  {
    if badges != [] {
      AwardHeld(earned, badges[..|badges| - 1], now);
    }
  }

  /** The four threshold checks of checkAndAwardBadges, pushing each reported
      badge in turn. */
  method ReportBadges(totalPosts: nat, currentStreak: nat, longestStreak: nat, earned: seq<EarnedBadge>)
    returns (badges: seq<Badge>)
    ensures badges == BadgesToAward(totalPosts, currentStreak, longestStreak, earned)
  {
    badges := [];
    if totalPosts >= 1 && FindBadge(earned, "first-post").None? {
      badges := badges + [FirstPost];
    }
    ghost var first := badges;
    if currentStreak >= 7 {
      badges := badges + [WeekStreak];
    }
    ghost var week := badges;
    if currentStreak >= 30 {
      badges := badges + [MonthStreak];
    }
    ghost var month := badges;
    if longestStreak >= 100 {
      badges := badges + [CenturyStreak];
    }
    assert month == week + (if currentStreak >= 30 then [MonthStreak] else []);
    assert week == first + (if currentStreak >= 7 then [WeekStreak] else []);
  }

  /** Checks the four thresholds against the user's counters, awards each
      reported badge through `addBadge` and returns the reported list. */
  method CheckAndAwardBadges(user: User, now: int) returns (badges: seq<Badge>)
    modifies user`earnedBadges, user`totalBadges
    ensures badges == BadgesToAward(user.totalPosts, user.currentStreak, user.longestStreak, old(user.earnedBadges))
    ensures user.earnedBadges == Award(old(user.earnedBadges), badges, now)
    ensures old(user.BadgesValid()) ==> user.BadgesValid()
  {
    badges := ReportBadges(user.totalPosts, user.currentStreak, user.longestStreak, user.earnedBadges);
    ghost var wasValid := user.BadgesValid();
    for i := 0 to |badges|
      invariant user.earnedBadges == Award(old(user.earnedBadges), badges[..i], now)
      invariant wasValid ==> user.BadgesValid()
    {
      assert badges[..i + 1][..i] == badges[..i];
      user.AddBadge(badges[i], now);
    }
    assert badges[..|badges|] == badges;
  }
}
