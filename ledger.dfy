// The per-user ledger of daily contribution records kept on the user document
// (backend/models/User.js, `dailyContributions`) and the record-level operations
// the streak service performs on it. Dates are whole day numbers: the source
// truncates every timestamp to local midnight and compares those instants.

module Ledger {
  import opened Common

  /** The three activity counters a record carries. */
  datatype Activity = Posts | Likes | Comments

  /** One day's record. */
  datatype Contribution = Contribution(date: int, posts: nat, likes: nat, comments: nat)

  /** A record created for a day with no activity yet: every counter defaults to 0. */
  function EmptyDay(day: int): (c: Contribution)
    ensures c.date == day && c.posts == 0 && c.likes == 0 && c.comments == 0
  {
    Contribution(day, 0, 0, 0)
  }

  /** `record[activityType]` */
  function Count(c: Contribution, a: Activity): nat {
    match a
    case Posts => c.posts
    case Likes => c.likes
    case Comments => c.comments
  }

  /** `record[activityType] = n` */
  function WithCount(c: Contribution, a: Activity, n: nat): (r: Contribution)
    ensures r.date == c.date && Count(r, a) == n
    ensures forall b :: b != a ==> Count(r, b) == Count(c, b)
  {
    match a
    case Posts => c.(posts := n)
    case Likes => c.(likes := n)
    case Comments => c.(comments := n)
  }

  /** A day counts towards a streak when some counter is positive. */
  predicate IsActive(c: Contribution) {
    c.posts > 0 || c.likes > 0 || c.comments > 0
  }

  /** `ledger.findIndex(c => c.date === day)`, or None. */
  function FindIndex(ledger: seq<Contribution>, day: int): (r: Option<nat>)
    ensures r.Some? ==> r.value < |ledger| && ledger[r.value].date == day
  {
    if ledger == [] then None
    else if ledger[0].date == day then Some(0)
    else match FindIndex(ledger[1..], day)
      case None => None
      case Some(i) => Some(i + 1)
  }

  /** The index found is the first record for the day; there is none exactly
      when no record has that date. */
  lemma {:induction false} FindIndexMeaning(ledger: seq<Contribution>, day: int)
    ensures FindIndex(ledger, day).Some? ==>
              forall k :: 0 <= k < FindIndex(ledger, day).value ==> ledger[k].date != day
    ensures FindIndex(ledger, day).None? <==> forall k :: 0 <= k < |ledger| ==> ledger[k].date != day
  {
    if ledger != [] && ledger[0].date != day {
      FindIndexMeaning(ledger[1..], day);
      assert forall k :: 1 <= k < |ledger| ==> ledger[k] == ledger[1..][k - 1];
    }
  }

  /** `ledger.find(c => c.date === day)`: the first record for that day. */
  function Find(ledger: seq<Contribution>, day: int): (r: Option<Contribution>)
    ensures r.Some? <==> FindIndex(ledger, day).Some?
    ensures r.Some? ==> r.value == ledger[FindIndex(ledger, day).value] && r.value.date == day
  {
    match FindIndex(ledger, day)
    case None => None
    case Some(i) => Some(ledger[i])
  }

  /** The test the source writes out at every use: a record exists for the day
      and one of its counters is non-zero. */
  predicate ActiveOn(ledger: seq<Contribution>, day: int) {
    var c := Find(ledger, day);
    c.Some? && IsActive(c.value)
  }

  /** At most one record per day: the ledger's invariant. */
  predicate UniqueDates(ledger: seq<Contribution>) {
    forall i, j :: 0 <= i < j < |ledger| ==> ledger[i].date != ledger[j].date
  }

  /** Newest first, the order `sort((a, b) => b.date - a.date)` produces. */
  predicate NewestFirst(ledger: seq<Contribution>) {
    forall i, j :: 0 <= i < j < |ledger| ==> ledger[i].date >= ledger[j].date
  }

  /** With one record per day, `find` returns the record of that day, wherever
      it sits in the ledger. */
  lemma FindUnique(ledger: seq<Contribution>, c: Contribution)
    requires UniqueDates(ledger) && c in ledger
    ensures Find(ledger, c.date) == Some(c)
  {
    var k :| 0 <= k < |ledger| && ledger[k] == c;
    FindIndexMeaning(ledger, c.date);
    var i := FindIndex(ledger, c.date).value;
    assert i == k;
  }

  /** Two ledgers with one record per day and the same records answer every
      `find` alike. */
  lemma FindSameRecords(a: seq<Contribution>, b: seq<Contribution>, day: int)
    requires UniqueDates(a) && UniqueDates(b)
    requires forall c :: c in a <==> c in b
    ensures Find(a, day) == Find(b, day)
  {
    match Find(a, day)
    case Some(c) =>
      assert c in a;
      FindUnique(b, c);
    case None =>
      match Find(b, day)
      case Some(c) =>
        assert c in b;
        FindUnique(a, c);
      case None =>
  }

  // ---------------------------------------------------------------------------
  // calculateStreak's in-place sort (backend/services/streakService.js:16)

  /** Inserts `x` before the first record that is not newer than it, so that a
      record keeps its place ahead of later records of the same day (the sort
      JavaScript engines perform is stable). */
  function Insert(x: Contribution, sorted: seq<Contribution>): (r: seq<Contribution>)
    ensures multiset(r) == multiset(sorted) + multiset{x}
  {
    if sorted == [] then [x]
    else if sorted[0].date <= x.date then [x] + sorted
    else
      assert sorted == [sorted[0]] + sorted[1..];
      [sorted[0]] + Insert(x, sorted[1..])
  }

  lemma {:induction false} InsertNewestFirst(x: Contribution, sorted: seq<Contribution>)
    requires NewestFirst(sorted)
    ensures NewestFirst(Insert(x, sorted))
  {
    if sorted != [] && sorted[0].date > x.date {
      var rest := Insert(x, sorted[1..]);
      InsertNewestFirst(x, sorted[1..]);
      assert sorted == [sorted[0]] + sorted[1..];
      forall k | 0 <= k < |rest| ensures rest[k].date <= sorted[0].date {
        assert rest[k] in multiset(rest);
        if rest[k] != x {
          assert rest[k] in multiset(sorted[1..]);
          var m :| 0 <= m < |sorted[1..]| && sorted[1..][m] == rest[k];
          assert sorted[m + 1] == rest[k];
        }
      }
    }
  }

  lemma {:induction false} InsertUniqueDates(x: Contribution, sorted: seq<Contribution>)
    requires UniqueDates(sorted)
    requires forall c :: c in sorted ==> c.date != x.date
    ensures UniqueDates(Insert(x, sorted))
  {
    if sorted != [] && sorted[0].date > x.date {
      var rest := Insert(x, sorted[1..]);
      assert sorted == [sorted[0]] + sorted[1..];
      InsertUniqueDates(x, sorted[1..]);
      forall k | 0 <= k < |rest| ensures rest[k].date != sorted[0].date {
        assert rest[k] in multiset(rest);
        if rest[k] != x {
          assert rest[k] in multiset(sorted[1..]);
          var m :| 0 <= m < |sorted[1..]| && sorted[1..][m] == rest[k];
          assert sorted[m + 1] == rest[k];
        }
      }
    }
  }

  /** The ledger reordered newest first; records themselves are untouched. */
  function SortNewestFirst(ledger: seq<Contribution>): (r: seq<Contribution>)
    ensures multiset(r) == multiset(ledger)
  {
    if ledger == [] then []
    else
      assert ledger == [ledger[0]] + ledger[1..];
      Insert(ledger[0], SortNewestFirst(ledger[1..]))
  }

  /** Sorting keeps the number of records and the records themselves. */
  lemma SortSameRecords(ledger: seq<Contribution>)
    ensures |SortNewestFirst(ledger)| == |ledger|
    ensures forall c :: c in SortNewestFirst(ledger) <==> c in ledger
  {
    var r := SortNewestFirst(ledger);
    assert |r| == |multiset(r)| == |multiset(ledger)| == |ledger|;
    forall c ensures c in r <==> c in ledger {
      assert c in r <==> c in multiset(r);
    }
  }

  /** Sorting yields a newest-first ledger. */
  lemma {:induction false} SortIsNewestFirst(ledger: seq<Contribution>)
    ensures NewestFirst(SortNewestFirst(ledger))
  {
    if ledger != [] {
      SortIsNewestFirst(ledger[1..]);
      InsertNewestFirst(ledger[0], SortNewestFirst(ledger[1..]));
    }
  }

  /** Sorting keeps one record per day. */
  lemma {:induction false} SortKeepsUniqueDates(ledger: seq<Contribution>)
    requires UniqueDates(ledger)
    ensures UniqueDates(SortNewestFirst(ledger))
  {
    if ledger != [] {
      var rest := SortNewestFirst(ledger[1..]);
      SortKeepsUniqueDates(ledger[1..]);
      SortSameRecords(ledger[1..]);
      forall c | c in rest ensures c.date != ledger[0].date {
        var m :| 0 <= m < |ledger[1..]| && ledger[1..][m] == c;
        assert ledger[m + 1] == c;
      }
      InsertUniqueDates(ledger[0], rest);
    }
  }

  /** Sorting a ledger with one record per day changes no answer of `find`. */
  lemma SortKeepsFind(ledger: seq<Contribution>, day: int)
    requires UniqueDates(ledger)
    ensures Find(SortNewestFirst(ledger), day) == Find(ledger, day)
  {
    SortSameRecords(ledger);
    SortKeepsUniqueDates(ledger);
    FindSameRecords(SortNewestFirst(ledger), ledger, day);
  }

  // ---------------------------------------------------------------------------
  // Find-or-create today's record and bump one counter
  // (backend/services/streakService.js:84-100)

  /** The ledger after `updateDailyContribution` found or created the record for
      `day` and raised the counter `a` by one, before the re-sort. */
  function Bump(ledger: seq<Contribution>, day: int, a: Activity): seq<Contribution> {
    match FindIndex(ledger, day)
    case Some(i) => ledger[i := WithCount(ledger[i], a, Count(ledger[i], a) + 1)]
    case None =>
      ledger + [WithCount(EmptyDay(day), a, 1)]
  }

  /** The same step as the source's objects behave: when `day` has no record,
      the new record is pushed into the document array, which stores a copy,
      and the increment then lands on the plain object, not on the stored
      copy, so the stored record keeps every counter at 0. */
  function BumpAsWritten(ledger: seq<Contribution>, day: int, a: Activity): seq<Contribution> {
    match FindIndex(ledger, day)
    case Some(_) => Bump(ledger, day, a)
    case None => ledger + [EmptyDay(day)]
  }

  /** The record `find` sees for `day`, or an all-zero record when there is none. */
  function DayRecord(ledger: seq<Contribution>, day: int): (c: Contribution)
    ensures c.date == day
  {
    match Find(ledger, day)
    case Some(c) => c
    case None => EmptyDay(day)
  }

  /** Bumping keeps one record per day, leaves exactly one record for `day` whose
      counter `a` is one higher and whose other counters are as before, and leaves
      every other day's record alone; a record is added only when `day` had none. */
  lemma {:induction false} BumpEffect(ledger: seq<Contribution>, day: int, a: Activity)
    requires UniqueDates(ledger)
    ensures UniqueDates(Bump(ledger, day, a))
    ensures Find(Bump(ledger, day, a), day).Some?
    ensures DayRecord(Bump(ledger, day, a), day) == WithCount(DayRecord(ledger, day), a, Count(DayRecord(ledger, day), a) + 1)
    ensures forall d :: d != day ==> Find(Bump(ledger, day, a), d) == Find(ledger, d)
    ensures |Bump(ledger, day, a)| == |ledger| + (if Find(ledger, day).None? then 1 else 0)
    ensures ActiveOn(Bump(ledger, day, a), day)
  {
    var b := Bump(ledger, day, a);
    FindIndexMeaning(ledger, day);
    match FindIndex(ledger, day)
    case Some(i) =>
      var c := WithCount(ledger[i], a, Count(ledger[i], a) + 1);
      assert b[i] == c;
      FindUnique(b, c);
      forall d | d != day ensures Find(b, d) == Find(ledger, d) {
        FindSameDay(ledger, b, i, d);
      }
    case None =>
      var c := WithCount(EmptyDay(day), a, 1);
      assert b == ledger + [c];
      assert b[|ledger|] == c;
      FindUnique(b, c);
      forall d | d != day ensures Find(b, d) == Find(ledger, d) {
        FindAppended(ledger, c, d);
      }
  }

  /** Replacing the record at `i` by one of the same date does not change what
      `find` returns for any other date. */
  lemma {:induction false} FindSameDay(ledger: seq<Contribution>, b: seq<Contribution>, i: nat, d: int)
    requires i < |ledger| && |b| == |ledger| && ledger[i].date != d
    requires forall k :: 0 <= k < |ledger| && k != i ==> b[k] == ledger[k]
    requires b[i].date == ledger[i].date
    ensures Find(b, d) == Find(ledger, d)
  {
    if i > 0 {
      FindSameDay(ledger[1..], b[1..], i - 1, d);
    } else if |ledger| > 1 {
      assert b[1..] == ledger[1..];
    }
  }

  /** Appending a record of another date does not change `find` for `d`. */
  lemma {:induction false} FindAppended(ledger: seq<Contribution>, c: Contribution, d: int)
    requires c.date != d
    ensures Find(ledger + [c], d) == Find(ledger, d)
  {
    if ledger != [] {
      assert (ledger + [c])[1..] == ledger[1..] + [c];
      FindAppended(ledger[1..], c, d);
    }
  }

  // ---------------------------------------------------------------------------
  // Lower one counter of today's record (backend/services/streakService.js:146-148)

  /** `decrementDailyContribution` acts only when today's record exists and its
      counter is positive. */
  predicate CanDrop(ledger: seq<Contribution>, day: int, a: Activity) {
    var c := Find(ledger, day);
    c.Some? && Count(c.value, a) > 0
  }

  /** The ledger after lowering counter `a` of the record for `day` by one. */
  function Drop(ledger: seq<Contribution>, day: int, a: Activity): seq<Contribution>
    requires CanDrop(ledger, day, a)
  {
    var i := FindIndex(ledger, day).value;
    ledger[i := WithCount(ledger[i], a, Count(ledger[i], a) - 1)]
  }

  /** Dropping keeps one record per day and the ledger's length, lowers exactly
      the named counter of `day`'s record by one, and leaves other days alone. */
  lemma DropEffect(ledger: seq<Contribution>, day: int, a: Activity)
    requires UniqueDates(ledger) && CanDrop(ledger, day, a)
    ensures UniqueDates(Drop(ledger, day, a))
    ensures |Drop(ledger, day, a)| == |ledger|
    ensures Find(Drop(ledger, day, a), day).Some?
    ensures DayRecord(Drop(ledger, day, a), day) == WithCount(DayRecord(ledger, day), a, Count(DayRecord(ledger, day), a) - 1)
    ensures forall d :: d != day ==> Find(Drop(ledger, day, a), d) == Find(ledger, d)
  {
    var i := FindIndex(ledger, day).value;
    var b := Drop(ledger, day, a);
    var c := WithCount(ledger[i], a, Count(ledger[i], a) - 1);
    assert b[i] == c;
    FindUnique(b, c);
    forall d | d != day ensures Find(b, d) == Find(ledger, d) {
      FindSameDay(ledger, b, i, d);
    }
  }
}
