// The two display helpers of frontend/src/components/StreakStats.jsx: the
// emoji and the encouragement shown next to the current streak. A missing
// `stats` object leaves the streak undefined, written `None` here; every
// comparison with undefined is false.

module StreakStats {
  import opened Common

  /** `streak >= k` in JavaScript: false when the streak is undefined. */
  predicate AtLeast(streak: Option<int>, k: int) {
    streak.Some? && streak.value >= k
  }

  /** `streak < k`: false when the streak is undefined. */
  predicate Below(streak: Option<int>, k: int) {
    streak.Some? && streak.value < k
  }

  const Emojis: seq<string> := ["\U{1F331}", "\U{2728}", "\U{1F4AA}", "\U{2B50}", "\U{1F525}", "\U{1F3C6}"]

  /** The thresholds 1, 7, 30, 50 and 100, lowest first. */
  const EmojiThresholds: seq<int> := [1, 7, 30, 50, 100]

  /** `getStreakEmoji`: the first threshold from the top that the streak
      reaches picks the emoji. */
  function StreakEmoji(streak: Option<int>): string {
    if AtLeast(streak, 100) then "\U{1F3C6}"
    else if AtLeast(streak, 50) then "\U{1F525}"
    else if AtLeast(streak, 30) then "\U{2B50}"
    else if AtLeast(streak, 7) then "\U{1F4AA}"
    else if AtLeast(streak, 1) then "\U{2728}"
    else "\U{1F331}"
  }

  /** How many of `thresholds` the streak reaches. */
  function Reached(streak: Option<int>, thresholds: seq<int>): (n: nat)
    ensures n <= |thresholds|
  {
    if thresholds == [] then 0
    else (if AtLeast(streak, thresholds[0]) then 1 else 0) + Reached(streak, thresholds[1..])
  }

  /** The emoji tier: how many thresholds the streak reaches. */
  function EmojiTier(streak: Option<int>): (tier: nat)
    ensures tier < |Emojis|
  {
    Reached(streak, EmojiThresholds)
  }

  /** The emoji is the one of the streak's tier: one more emoji for each
      threshold reached. */
  lemma StreakEmojiTier(streak: Option<int>)
    ensures StreakEmoji(streak) == Emojis[EmojiTier(streak)]
  {
    var r5 := Reached(streak, [100]);
    assert [100][1..] == [];
    assert r5 == if AtLeast(streak, 100) then 1 else 0;
    var r4 := Reached(streak, [50, 100]);
    assert [50, 100][1..] == [100];
    assert r4 == (if AtLeast(streak, 50) then 1 else 0) + r5;
    var r3 := Reached(streak, [30, 50, 100]);
    assert [30, 50, 100][1..] == [50, 100];
    assert r3 == (if AtLeast(streak, 30) then 1 else 0) + r4;
    var r2 := Reached(streak, [7, 30, 50, 100]);
    assert [7, 30, 50, 100][1..] == [30, 50, 100];
    assert r2 == (if AtLeast(streak, 7) then 1 else 0) + r3;
    assert EmojiThresholds[1..] == [7, 30, 50, 100];
    assert EmojiTier(streak) == (if AtLeast(streak, 1) then 1 else 0) + r2;
  }

  /** A longer streak never reaches fewer thresholds. */
  lemma {:induction false} ReachedMonotone(a: int, b: int, thresholds: seq<int>)
    requires a <= b
    ensures Reached(Some(a), thresholds) <= Reached(Some(b), thresholds)
  {
    if thresholds != [] {
      ReachedMonotone(a, b, thresholds[1..]);
    }
  }

  /** A longer streak never shows a lower emoji. */
  lemma EmojiTierMonotone(a: int, b: int)
    requires a <= b
    ensures EmojiTier(Some(a)) <= EmojiTier(Some(b))
  {
    ReachedMonotone(a, b, EmojiThresholds);
  }

  const StartMessage := "Start your streak today!"
  const FirstDayMessage := "Great start! Keep it going!"
  const BuildingMessage := "Building momentum!"
  const OnFireMessage := "You're on fire!"
  const DedicationMessage := "Incredible dedication!"
  const LegendaryMessage := "Legendary streak!"
  const UnstoppableMessage := "Unstoppable!"

  const Messages: seq<string> :=
    [StartMessage, FirstDayMessage, BuildingMessage, OnFireMessage, DedicationMessage, LegendaryMessage, UnstoppableMessage]

  /** `getStreakMessage`: 0 and 1 have messages of their own, then the first
      upper bound 7, 30, 50 or 100 the streak is under picks the message. */
  function StreakMessage(streak: Option<int>): string {
    if streak == Some(0) then StartMessage
    else if streak == Some(1) then FirstDayMessage
    else if Below(streak, 7) then BuildingMessage
    else if Below(streak, 30) then OnFireMessage
    else if Below(streak, 50) then DedicationMessage
    else if Below(streak, 100) then LegendaryMessage
    else UnstoppableMessage
  }

  /** The seven messages are distinct, so the message tells the tier. */
  lemma MessagesDistinct()
    ensures forall i, j :: 0 <= i < j < |Messages| ==> Messages[i] != Messages[j]
  {
  }

  /** For a streak that is a count: the message of each range, each range
      getting exactly one. */
  lemma StreakMessageRanges(n: nat)
    ensures StreakMessage(Some(n)) == StartMessage <==> n == 0
    ensures StreakMessage(Some(n)) == FirstDayMessage <==> n == 1
    ensures StreakMessage(Some(n)) == BuildingMessage <==> 2 <= n < 7
    ensures StreakMessage(Some(n)) == OnFireMessage <==> 7 <= n < 30
    ensures StreakMessage(Some(n)) == DedicationMessage <==> 30 <= n < 50
    ensures StreakMessage(Some(n)) == LegendaryMessage <==> 50 <= n < 100
    ensures StreakMessage(Some(n)) == UnstoppableMessage <==> n >= 100
  {
    MessagesDistinct();
    assert StartMessage == Messages[0] && FirstDayMessage == Messages[1] && BuildingMessage == Messages[2];
    assert OnFireMessage == Messages[3] && DedicationMessage == Messages[4];
    assert LegendaryMessage == Messages[5] && UnstoppableMessage == Messages[6];
  }

  /** The message ranges split the emoji ranges and never straddle them: two
      counts with the same message have the same emoji. */
  lemma MessageRefinesEmoji(a: nat, b: nat)
    requires StreakMessage(Some(a)) == StreakMessage(Some(b))
    ensures StreakEmoji(Some(a)) == StreakEmoji(Some(b))
  {
    StreakMessageRanges(a);
    StreakMessageRanges(b);
  }

  /** Without stats every comparison fails: the lowest emoji and the highest
      message. */
  lemma MissingStats()
    ensures StreakEmoji(None) == "\U{1F331}"
    ensures StreakMessage(None) == UnstoppableMessage
  {
  }

  /** A negative streak is encouraged to keep building although its emoji is
      the lowest. */
  lemma NegativeStreak(n: int)
    requires n < 0
    ensures StreakEmoji(Some(n)) == "\U{1F331}"
    ensures StreakMessage(Some(n)) == BuildingMessage
  {
  }
}
