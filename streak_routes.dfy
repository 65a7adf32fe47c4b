// The pure parts of backend/routes/streak.js: the user-id check every route
// applies first, and the calendar route's mapping of a day's activity to a
// colour level.

module StreakRoutes {
  import opened Common
  import StreakService

  predicate IsHexDigit(c: char) {
    '0' <= c <= '9' || 'a' <= c <= 'f' || 'A' <= c <= 'F'
  }

  /** `/^[0-9a-fA-F]{24}$/`: the shape of a MongoDB object id. */
  predicate ObjectIdPattern(s: string) {
    |s| == 24 && forall i :: 0 <= i < |s| ==> IsHexDigit(s[i])
  }

  /** `validateUserId`: a missing or empty id and the strings "undefined" and
      "null" are refused before the pattern is tried. */
  function ValidateUserId(userId: Option<string>): (ok: bool)
    ensures Falsy(userId) ==> !ok
    ensures userId == Some("undefined") || userId == Some("null") ==> !ok
  {
    if Falsy(userId) || userId.value == "undefined" || userId.value == "null" then false
    else ObjectIdPattern(userId.value)
  }

  /** The explicit refusals only repeat what the pattern already says: an id is
      accepted exactly when it is 24 hexadecimal digits, in either case. */
  lemma ValidateUserIdMeaning(userId: Option<string>)
    ensures ValidateUserId(userId) <==> userId.Some? && ObjectIdPattern(userId.value)
  {
    if userId.Some? && ObjectIdPattern(userId.value) {
      assert |userId.value| == 24;
      assert userId.value != "undefined" && userId.value != "null";
    }
  }

  /** An id in mixed case is accepted; one digit short is not. */
  lemma ValidateUserIdExamples()
    ensures ValidateUserId(Some("507F1f77bcf86cd799439011"))
    ensures !ValidateUserId(Some("507f1f77bcf86cd79943901"))
  {
    var id := "507F1f77bcf86cd799439011";
    assert |id| == 24;
    assert forall i :: 0 <= i < |id| ==> IsHexDigit(id[i]);
  }

  /** The calendar colour level of a day's activity: 0, 1, 2 and 3 are kept,
      anything larger is 4. */
  function Level(activity: nat): (level: nat)
    ensures level <= 4
    ensures activity <= 3 ==> level == activity
    ensures activity >= 4 ==> level == 4
  {
    if activity == 0 then 0
    else if activity == 1 then 1
    else if activity == 2 then 2
    else if activity == 3 then 3
    else 4
  }

  /** More activity never gives a lower level. */
  lemma LevelMonotone(a: nat, b: nat)
    requires a <= b
    ensures Level(a) <= Level(b)
  {
  }

  /** One element of the calendar route's `calendarData`. */
  datatype CalendarCell = CalendarCell(date: int, activity: nat, posts: nat, likes: nat, comments: nat, level: nat)

  /** The route's `map` over `getStreakData`'s calendar: every field kept, a
      level added. */
  function ToCells(days: seq<StreakService.CalendarDay>): (cells: seq<CalendarCell>)
    ensures |cells| == |days|
    ensures forall i :: 0 <= i < |days| ==> cells[i].level == Level(days[i].activity)
  {
    if days == [] then []
    else
      var d := days[0];
      [CalendarCell(d.date, d.activity, d.posts, d.likes, d.comments, Level(d.activity))] + ToCells(days[1..])
  }

  /** Drops the level again. */
  function FromCells(cells: seq<CalendarCell>): seq<StreakService.CalendarDay> {
    if cells == [] then []
    else
      var c := cells[0];
      [StreakService.CalendarDay(c.date, c.activity, c.posts, c.likes, c.comments)] + FromCells(cells[1..])
  }

  /** Adding the level loses nothing: dropping it gives back the calendar the
      service returned. */
  lemma {:induction false} CellsKeepDays(days: seq<StreakService.CalendarDay>)
    ensures FromCells(ToCells(days)) == days
  {
    if days != [] {
      CellsKeepDays(days[1..]);
      assert ToCells(days)[1..] == ToCells(days[1..]);
      assert [days[0]] + days[1..] == days;
    }
  }
}
