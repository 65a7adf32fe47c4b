// The user document of backend/models/User.js: the streak counters, the badge
// list, the daily contribution ledger, the two instance methods that update them
// in place (`updateStreak`, `addBadge`) and the stored-email pattern.

module UserModel {
  import opened Common
  import opened JsText
  import opened Ledger
  import opened StreakCalc

  // ---------------------------------------------------------------------------
  // Badges

  /** The badge data `addBadge` receives. */
  datatype Badge = Badge(badgeId: string, name: string, description: string, icon: string)

  /** An `earnedBadges` entry: the badge and when it was earned. */
  datatype EarnedBadge = EarnedBadge(badge: Badge, earnedAt: int)

  /** Some earned badge carries `id`. */
  predicate HasBadge(earned: seq<EarnedBadge>, id: string) {
    exists i :: 0 <= i < |earned| && earned[i].badge.badgeId == id
  }

  /** No two earned badges share an id. */
  predicate DistinctBadgeIds(earned: seq<EarnedBadge>) {
    forall i, j :: 0 <= i < j < |earned| ==> earned[i].badge.badgeId != earned[j].badge.badgeId
  }

  /** `earnedBadges.find(b => b.badgeId === id)`. */
  function FindBadge(earned: seq<EarnedBadge>, id: string): (r: Option<EarnedBadge>)
    ensures r.Some? <==> HasBadge(earned, id)
    ensures r.Some? ==> r.value in earned && r.value.badge.badgeId == id
  {
    if earned == [] then None
    else if earned[0].badge.badgeId == id then Some(earned[0])
    else
      var r := FindBadge(earned[1..], id);
      assert HasBadge(earned[1..], id) ==> HasBadge(earned, id) by {
        if HasBadge(earned[1..], id) {
          var i :| 0 <= i < |earned[1..]| && earned[1..][i].badge.badgeId == id;
          assert earned[i + 1].badge.badgeId == id;
        }
      }
      r
  }

  // ---------------------------------------------------------------------------
  // The user document

  class User {
    var email: string
    var dailyContributions: seq<Contribution>
    var earnedBadges: seq<EarnedBadge>
    var totalPosts: nat
    var currentStreak: nat
    var longestStreak: nat
    var totalBadges: nat
    var totalPoints: nat

    /** What every operation of the model keeps: one ledger record per day and
        the current streak never above the longest; one earned badge per id and
        `totalBadges` counting the earned badges. */
    ghost predicate Valid()
      reads this
    {
      StreaksValid() && BadgesValid()
    }

    ghost predicate StreaksValid()
      reads this`dailyContributions, this`currentStreak, this`longestStreak
    {
      UniqueDates(dailyContributions) && currentStreak <= longestStreak
    }

    ghost predicate BadgesValid()
      reads this`earnedBadges, this`totalBadges
    {
      DistinctBadgeIds(earnedBadges) && totalBadges == |earnedBadges|
    }

    /** A new user: every counter at its schema default of 0, no ledger records
        and no badges. */
    constructor (email: string)
      ensures this.email == email
      ensures dailyContributions == [] && earnedBadges == []
      ensures totalPosts == 0 && currentStreak == 0 && longestStreak == 0
      ensures totalBadges == 0 && totalPoints == 0
      ensures Valid()
    {
      this.email := email;
      dailyContributions := [];
      earnedBadges := [];
      totalPosts := 0;
      currentStreak := 0;
      longestStreak := 0;
      totalBadges := 0;
      totalPoints := 0;
    }

    /** `updateStreak`: one more streak day when today's record is active,
        otherwise back to 0; the longest streak is raised to match. Calling it
        twice on an active day adds two. */
    method UpdateStreak(today: int)
      modifies this`currentStreak, this`longestStreak
      ensures ActiveOn(dailyContributions, today) ==> currentStreak == old(currentStreak) + 1
      ensures !ActiveOn(dailyContributions, today) ==> currentStreak == 0
      ensures longestStreak == if currentStreak > old(longestStreak) then currentStreak else old(longestStreak)
      ensures currentStreak <= longestStreak && old(longestStreak) <= longestStreak
      ensures old(Valid()) ==> Valid()
    {
      var todayContribution := Find(dailyContributions, today);
      if todayContribution.Some? && IsActive(todayContribution.value) {
        currentStreak := currentStreak + 1;
        if currentStreak > longestStreak {
          longestStreak := currentStreak;
        }
      } else {
        currentStreak := 0;
      }
    }

    /** `addBadge`: appends the badge, stamped `now`, only when no earned badge has
        its id, and then sets `totalBadges` to the list length; a badge whose id
        is already held changes nothing. */
    method AddBadge(badge: Badge, now: int)
      modifies this`earnedBadges, this`totalBadges
      ensures earnedBadges == WithBadge(old(earnedBadges), badge, now)
      ensures totalBadges == if HasBadge(old(earnedBadges), badge.badgeId) then old(totalBadges) else |earnedBadges|
      ensures old(BadgesValid()) ==> BadgesValid()
    {
      var existingBadge := FindBadge(earnedBadges, badge.badgeId);
      if existingBadge.None? {
        WithBadgeKeepsDistinct(earnedBadges, badge, now);
        earnedBadges := earnedBadges + [EarnedBadge(badge, now)];
        totalBadges := |earnedBadges|;
      }
    }
  }

  /** The badge list after `addBadge(badge)` at time `now`: the badge is held
      afterwards, the old list is kept as a prefix, and one entry is added
      exactly when the id was not yet held. */
  function WithBadge(earned: seq<EarnedBadge>, badge: Badge, now: int): (r: seq<EarnedBadge>)
    ensures HasBadge(r, badge.badgeId)
    ensures earned <= r && |r| <= |earned| + 1
    ensures |r| == |earned| + 1 <==> !HasBadge(earned, badge.badgeId)
    ensures |r| == |earned| + 1 ==> r[|earned|] == EarnedBadge(badge, now)
  {
    if HasBadge(earned, badge.badgeId) then earned
    else
      var r := earned + [EarnedBadge(badge, now)];
      assert r[|earned|].badge.badgeId == badge.badgeId;
      r
  }

  /** Adding a badge never creates a second entry for an id. */
  lemma WithBadgeKeepsDistinct(earned: seq<EarnedBadge>, badge: Badge, now: int)
    ensures DistinctBadgeIds(earned) ==> DistinctBadgeIds(WithBadge(earned, badge, now))
  {
    if DistinctBadgeIds(earned) && !HasBadge(earned, badge.badgeId) {
      var r := WithBadge(earned, badge, now);
      forall i, j | 0 <= i < j < |r| ensures r[i].badge.badgeId != r[j].badge.badgeId {
        if j == |earned| {
          assert r[i] == earned[i];
        }
      }
    }
  }

  /** A repeated `addBadge` of the same id is a no-op, whatever its time stamp. */
  lemma WithBadgeIdempotent(earned: seq<EarnedBadge>, badge: Badge, now: int, later: int)
    ensures WithBadge(WithBadge(earned, badge, now), badge, later) == WithBadge(earned, badge, now)
  {
  }

  // ---------------------------------------------------------------------------
  // The stored email (User.js:12-20): lower-cased, then matched against
  // ^\w+([.-]?\w+)*@\w+([.-]?\w+)*(\.\w{2,3})+$

  /** `\w` without the `u` flag. */
  predicate IsWord(c: char) {
    'a' <= c <= 'z' || 'A' <= c <= 'Z' || '0' <= c <= '9' || c == '_'
  }

  predicate AllWord(s: string) {
    forall i :: 0 <= i < |s| ==> IsWord(s[i])
  }

  predicate IsSeparator(c: char) {
    c == '.' || c == '-'
  }

  /** `\w+([.-]?\w+)*`: word characters, possibly split by single '.' or '-'
      characters, starting and ending with a word character. */
  predicate WordRun(s: string) {
    |s| > 0 && IsWord(s[0]) && IsWord(s[|s| - 1])
    && (forall i :: 0 <= i < |s| ==> IsWord(s[i]) || IsSeparator(s[i]))
    && (forall i :: 0 <= i < |s| - 1 && IsSeparator(s[i]) ==> IsWord(s[i + 1]))
  }

  /** `(\.\w{2,3})+`, written as the regular expression reads. */
  ghost predicate TldSegments(t: string)
    decreases |t|
  {
    |t| >= 3 && t[0] == '.'
    && ((AllWord(t[1..3]) && (|t| == 3 || TldSegments(t[3..])))
        || (|t| >= 4 && AllWord(t[1..4]) && (|t| == 4 || TldSegments(t[4..]))))
  }

  /** The domain part of the pattern, as the regular expression reads. */
  ghost predicate DomainRegex(d: string) {
    exists k :: 0 < k <= |d| && WordRun(d[..k]) && TldSegments(d[k..])
  }

  /** The whole pattern, as the regular expression reads. */
  ghost predicate EmailRegex(s: string) {
    exists i :: 0 <= i < |s| && s[i] == '@' && WordRun(s[..i]) && DomainRegex(s[i + 1..])
  }

  /** The domain part checked directly: a word run, then a final '.' and two or
      three word characters. */
  predicate DomainShape(d: string) {
    (|d| >= 4 && d[|d| - 3] == '.' && AllWord(d[|d| - 2..]) && WordRun(d[..|d| - 3]))
    || (|d| >= 5 && d[|d| - 4] == '.' && AllWord(d[|d| - 3..]) && WordRun(d[..|d| - 4]))
  }

  predicate EmailShape(s: string) {
    exists i :: 0 <= i < |s| && s[i] == '@' && WordRun(s[..i]) && DomainShape(s[i + 1..])
  }

  /** A word run followed by '.' and a word run is a word run. */
  lemma WordRunExtend(d: string, k: nat, n: nat)
    requires 0 < k && k + 1 + n <= |d| && n >= 1
    requires WordRun(d[..k]) && d[k] == '.' && AllWord(d[k + 1..k + 1 + n])
    ensures WordRun(d[..k + 1 + n])
  {
    var a := d[..k + 1 + n];
    forall i | 0 <= i < |a| ensures IsWord(a[i]) || IsSeparator(a[i]) {
      if i < k {
        assert a[i] == d[..k][i];
      } else if i > k {
        assert a[i] == d[k + 1..k + 1 + n][i - k - 1];
      }
    }
    forall i | 0 <= i < |a| - 1 && IsSeparator(a[i]) ensures IsWord(a[i + 1]) {
      if i + 1 < k {
        assert a[i] == d[..k][i] && a[i + 1] == d[..k][i + 1];
      } else if i + 1 > k {
        assert a[i + 1] == d[k + 1..k + 1 + n][i - k];
      }
    }
    assert a[|a| - 1] == d[k + 1..k + 1 + n][n - 1];
    assert a[0] == d[..k][0];
  }

  /** The repeated top-level-domain group collapses: a word run followed by
      any number of `.xx` / `.xxx` segments is a word run followed by one. */
  lemma {:induction false} TldAbsorb(d: string, k: nat)
    requires 0 < k <= |d| && WordRun(d[..k]) && TldSegments(d[k..])
    ensures DomainShape(d)
    decreases |d| - k
  {
    var t := d[k..];
    if AllWord(t[1..3]) && (|t| == 3 || TldSegments(t[3..])) {
      if |t| == 3 {
        assert d[|d| - 2..] == t[1..3];
        assert d[..|d| - 3] == d[..k];
      } else {
        assert d[k + 1..k + 3] == t[1..3];
        WordRunExtend(d, k, 2);
        assert t[3..] == d[k + 3..];
        TldAbsorb(d, k + 3);
      }
    } else {
      if |t| == 4 {
        assert d[|d| - 3..] == t[1..4];
        assert d[..|d| - 4] == d[..k];
      } else {
        assert d[k + 1..k + 4] == t[1..4];
        WordRunExtend(d, k, 3);
        assert t[4..] == d[k + 4..];
        TldAbsorb(d, k + 4);
      }
    }
  }

  /** The direct check accepts exactly the domains the regular expression does. */
  lemma DomainShapeIsRegex(d: string)
    ensures DomainShape(d) <==> DomainRegex(d)
  {
    if DomainRegex(d) {
      var k :| 0 < k <= |d| && WordRun(d[..k]) && TldSegments(d[k..]);
      TldAbsorb(d, k);
    }
    if DomainShape(d) {
      DomainShapeMatches(d);
    }
  }

  /** A domain of the direct shape matches the pattern with one final segment. */
  lemma DomainShapeMatches(d: string)
    requires DomainShape(d)
    ensures DomainRegex(d)
  {
    if |d| >= 4 && d[|d| - 3] == '.' && AllWord(d[|d| - 2..]) && WordRun(d[..|d| - 3]) {
      var t := d[|d| - 3..];
      assert t[1..3] == d[|d| - 2..];
      assert TldSegments(t);
      assert WordRun(d[..|d| - 3]) && TldSegments(d[|d| - 3..]);
    } else {
      var t := d[|d| - 4..];
      assert t[1..4] == d[|d| - 3..];
      assert TldSegments(t);
      assert WordRun(d[..|d| - 4]) && TldSegments(d[|d| - 4..]);
    }
  }

  /** The email as stored: lower-cased by the schema, then rejected unless it
      matches the pattern. */
  function StoredEmail(raw: string): (r: Option<string>)
    ensures r.Some? ==> r.value == LowerAscii(raw)
  {
    var e := LowerAscii(raw);
    if EmailShape(e) then Some(e) else None
  }

  /** The direct check accepts exactly the addresses the regular expression
      does. */
  lemma EmailShapeIsRegex(e: string)
    ensures EmailShape(e) <==> EmailRegex(e)
  {
    forall i | 0 <= i < |e| && e[i] == '@' ensures DomainShape(e[i + 1..]) <==> DomainRegex(e[i + 1..]) {
      DomainShapeIsRegex(e[i + 1..]);
    }
  }

  /** Ends in '.' followed by two or three word characters. */
  predicate EndsInTld(e: string) {
    |e| >= 6 && (e[|e| - 3] == '.' || e[|e| - 4] == '.') && IsWord(e[|e| - 2]) && IsWord(e[|e| - 1])
  }

  /** A matching address ends in '.' followed by two or three word characters. */
  lemma EmailShapeSuffix(e: string)
    requires EmailShape(e)
    ensures EndsInTld(e)
  {
    var i :| 0 <= i < |e| && e[i] == '@' && WordRun(e[..i]) && DomainShape(e[i + 1..]);
    var d := e[i + 1..];
    assert e[|e| - 1] == d[|d| - 1] && e[|e| - 2] == d[|d| - 2];
    assert e[|e| - 3] == d[|d| - 3] && e[|e| - 4] == d[|d| - 4];
    if |d| >= 4 && d[|d| - 3] == '.' && AllWord(d[|d| - 2..]) && WordRun(d[..|d| - 3]) {
      assert IsWord(d[|d| - 2..][0]) && IsWord(d[|d| - 2..][1]);
    } else {
      assert IsWord(d[|d| - 3..][1]) && IsWord(d[|d| - 3..][2]);
    }
  }

  /** An email is stored exactly when its lower-cased form matches the regular
      expression. */
  lemma StoredEmailMeaning(raw: string)
    ensures StoredEmail(raw).Some? <==> EmailRegex(LowerAscii(raw))
  {
    EmailShapeIsRegex(LowerAscii(raw));
  }

  /** A stored email holds no upper-case letter and ends in '.' followed by two
      or three word characters. */
  lemma StoredEmailForm(raw: string)
    requires StoredEmail(raw).Some?
    ensures var e := StoredEmail(raw).value;
      (forall i :: 0 <= i < |e| ==> !('A' <= e[i] <= 'Z')) && EndsInTld(e)
  {
    EmailShapeSuffix(LowerAscii(raw));
  }
}
