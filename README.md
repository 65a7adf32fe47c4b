# Contribution streaks of a MERN mini blog, modelled in Dafny

This project models the core of a small MERN blog whose users build
contribution streaks. The core is:

- **The streak engine** (`backend/services/streakService.js`). Each user keeps
  a ledger of daily records `{date, posts, likes, comments}`. The engine
  computes the current and the longest streak from the ledger, bumps or lowers
  today's counters, expands the ledger into a day-by-day calendar, resets idle
  users' streaks, and awards four threshold badges.
- **The in-place entity methods**:
  - `User.addBadge` and `User.updateStreak`, plus the schema defaults and the
    email pattern;
  - `BlogPost.toggleLike`, `hasUserLiked` and `incrementView`, the reading-time
    and slug pre-save hook, and the window and sort selection of the two
    statics `getTrendingPosts` and `searchPosts`;
  - `Comment.toggleLike`, `softDelete`, `likeCount` and the content and status
    rules of the schema.
- **The backend validators**: `validateUserId` and the activity-to-level
  mapping of the streak calendar route, and the create and update rule chains
  of the post routes.
- **The client form validators** of the create-post, edit-post, sign-up and
  sign-in pages. This includes the tag text the post pages parse, and the
  join/split round trip of the edit page.
- **The client calendar** (`ContributionCalendar.jsx`): the start dates, the
  year day map, the year, month and week grids, the month labels and the two
  colour helpers. It also covers the streak emoji and message tiers of
  `StreakStats.jsx`.

Modelling conventions:

- Dates are integer day numbers, with day 0 = 1 January 1970, a Thursday. The
  wall clock is replaced by a `today` (or `now`) parameter.
- The client calendar's `Date` arithmetic is written out in module
  `CivilCalendar`:
  - `DayNumber` maps a proleptic Gregorian date to its day number;
  - `CivilOf` maps a day number back to its date;
  - `DateValue` models the month and day overflow of `new Date(y, m, d)`;
  - `Weekday` models `getDay()`.
- Persistent documents whose fields the source updates in place are classes
  (`User`, `BlogPost`, `Comment`) whose methods carry `modifies` clauses. Lists
  the source reassigns or pushes onto are `seq` fields.
- Sorting the ledger in place is the reassignment of the field to
  `SortNewestFirst` of its old value. That function is a stable insertion
  sort, proved to be a permutation that is newest first.
- JavaScript's `trim()` and `\s` use the ECMAScript white-space and
  line-terminator characters. Lengths count characters.

Modules:

| module | file | models |
|---|---|---|
| `Common`, `JsText` | common.dfy | `Option`, falsy values, `Math.max`; `trim`, `split`, `join`, `toLowerCase` |
| `Ledger` | ledger.dfy | the daily record, `find`, the newest-first sort, the bump and the drop of a counter |
| `StreakCalc` | streak_calc.dfy | the current-streak walk and the longest-run walk |
| `UserModel` | user_model.dfy | class `User`, `addBadge`, `updateStreak`, the email pattern |
| `StreakService` | streak_service.dfy | the engine's six operations |
| `Likes` | likes.dfy | the like list shared by posts and comments |
| `BlogPostModel` | blog_post.dfy | class `BlogPost`, reading time, slug, the statics |
| `CommentModel` | comment_model.dfy | class `Comment` |
| `StreakRoutes`, `PostRoutes` | streak_routes.dfy, post_routes.dfy | the route validators and the level mapping |
| `PostForms`, `AuthForms` | post_forms.dfy, auth_forms.dfy | the four client form validators, tag parsing |
| `StreakStats` | streak_stats.dfy | emoji and message tiers |
| `CivilCalendar`, `ContributionCalendar` | civil_calendar.dfy, contribution_calendar.dfy | date arithmetic, the calendar component |

## Model

| member | source | states |
|---|---|---|
| JsText.Trim | backend/routes/posts.js:26 | `trim()` returns a slice of the input with no white space at either end, having cut only white space |
| JsText.TrimEmptyIffAllSpace | frontend/src/pages/CreatePostPage.jsx:75 | `!s.trim()` holds exactly when the string is all white space |
| JsText.SplitMeaning | frontend/src/pages/CreatePostPage.jsx:105 | `split(',')`: no piece holds the separator, and joining the pieces with it gives back the input |
| JsText.SplitJoin | frontend/src/pages/EditPostPage.jsx:102 | splitting a join of separator-free pieces gives back the pieces |
| JsText.LowerAscii | backend/models/User.js:16 | `lowercase: true`: same length, each ASCII capital lowered, no capital left |
| Ledger.FindIndexMeaning | backend/services/streakService.js:84-86 | `findIndex` returns the first record of that date, and none exactly when no record has that date |
| Ledger.Find | backend/services/streakService.js:142-144 | `find` returns the record at the index `findIndex` reports, for that date |
| Ledger.FindUnique | backend/services/streakService.js:203-205 | with one record per day, `find` returns a day's record wherever it sits |
| Ledger.Insert | backend/services/streakService.js:16 | one insertion step of the sort: the records plus the new one, as a multiset |
| Ledger.InsertNewestFirst | backend/services/streakService.js:16 | inserting into a newest-first list keeps it newest first |
| Ledger.SortNewestFirst | backend/services/streakService.js:16 | the sort is a permutation of the ledger |
| Ledger.SortSameRecords | backend/services/streakService.js:16 | sorting keeps the length and the records themselves |
| Ledger.SortIsNewestFirst | backend/services/streakService.js:16 | the sorted ledger is ordered by date, newest first |
| Ledger.SortKeepsUniqueDates | backend/services/streakService.js:16 | sorting keeps one record per day |
| Ledger.SortKeepsFind | backend/services/streakService.js:16 | with one record per day, sorting changes no day's `find` |
| Ledger.BumpEffect | backend/services/streakService.js:84-100 | the intended find-or-create then increment (see Findings): one record for today, only its named counter one higher, other days untouched, a record added exactly when today had none, today active |
| Ledger.DropEffect | backend/services/streakService.js:146-149 | the decrement: length and one-record-per-day kept, only today's named counter one lower, other days untouched |
| StreakCalc.RunBackMeaning | backend/services/streakService.js:34-49 | the walk back counts only consecutive active days, at most its budget, and stops at the first inactive day |
| StreakCalc.CurrentStreakMeaning | backend/services/streakService.js:26-50 | the current streak is 0 exactly when today is not active; otherwise every day of the streak up to today is active, the day before it is not (below the cap), and it never exceeds 365 |
| StreakCalc.TrailingRunMeaning | backend/services/streakService.js:53-66 | the running count of the forward walk is the block of active records ending at the current position |
| StreakCalc.LongestRunIsUpperBound | backend/services/streakService.js:53-66 | no block of adjacent active records in the list is longer than the longest streak |
| StreakCalc.LongestRunIsAttained | backend/services/streakService.js:53-66 | some block of adjacent active records has exactly the longest streak's length |
| StreakCalc.ScanCurrentStreak | backend/services/streakService.js:26-50 | the loop with `checkDate` and `consecutiveDays` computes the current streak |
| StreakCalc.ScanLongestStreak | backend/services/streakService.js:52-66 | the loop with `currentMaxStreak` computes the longest run; gaps between records do not break it |
| StreakCalc.ConsecutiveDaysAreAdjacent | backend/services/streakService.js:26-66 | on a newest-first ledger with one record per day, the records of consecutive active days ending today sit side by side |
| StreakCalc.CurrentAtMostLongest | backend/services/streakService.js:26-66 | the current streak never exceeds the longest run |
| StreakCalc.SortKeepsCurrentStreak | backend/services/streakService.js:16-50 | re-sorting a ledger with one record per day keeps its current streak |
| UserModel.FindBadge | backend/models/User.js:200 | `earnedBadges.find` finds a badge with that id exactly when one is held |
| UserModel.User.constructor | backend/models/User.js:73-91 | a new user has every counter at 0, no records and no badges, and is valid |
| UserModel.User.UpdateStreak | backend/models/User.js:178-196 | one more streak day when today's record is active, else 0; the longest streak is raised to match, never lowered; validity kept |
| UserModel.User.AddBadge | backend/models/User.js:199-209 | the badge is appended only when its id is not held, `totalBadges` then set to the list length; a held id changes nothing |
| UserModel.WithBadge | backend/models/User.js:199-209 | afterwards the badge is held, the old list is a prefix, and it grew by one exactly when the id was new, by an entry holding the badge and the time |
| UserModel.WithBadgeKeepsDistinct | backend/models/User.js:199-209 | adding a badge never creates a second entry for an id |
| UserModel.WithBadgeIdempotent | backend/models/User.js:199-209 | a repeated `addBadge` of the same id changes nothing |
| UserModel.DomainShapeIsRegex | backend/models/User.js:18 | the direct check of the domain accepts exactly the domains the pattern's domain part matches |
| UserModel.StoredEmail | backend/models/User.js:16-19 | a stored email is the lower-cased input |
| UserModel.EmailShapeIsRegex | backend/models/User.js:18 | the direct check accepts exactly the addresses the anchored pattern matches |
| UserModel.EmailShapeSuffix | backend/models/User.js:18 | a matching address ends in '.' and two or three word characters |
| UserModel.StoredEmailMeaning | backend/models/User.js:16-19 | an email is stored exactly when its lower-cased form matches the pattern |
| UserModel.StoredEmailForm | backend/models/User.js:16-19 | a stored email has no capital letter and ends in a two- or three-character domain segment |
| StreakService.CalculateStreak | backend/services/streakService.js:6-69 | sorts the ledger in place and returns the current and longest streaks of the sorted ledger; with one record per day the current streak is unchanged by the sort and at most the longest |
| StreakService.UpdateDailyContribution | backend/services/streakService.js:72-128 | the ledger is the intended bumped ledger (see Findings), re-sorted; `totalPosts` rises by one exactly for a post; the current streak is at least 1; the longest streak never falls; validity kept |
| StreakService.BumpToday | backend/services/streakService.js:84-100 | the find-or-create and increment compute the intended bumped ledger (see Findings) |
| StreakService.UpdatedLedger | backend/services/streakService.js:84-113 | after the intended update (see Findings): one record per day, today's named counter one higher, other days untouched, a record added only if today had none |
| StreakService.FirstActivityLost | backend/services/streakService.js:88-100 | as written, a day's first activity leaves today's stored record all zero and the current streak 0; the intended step gives a streak of at least 1 |
| StreakService.UpdatedStreaks | backend/services/streakService.js:110-113 | after the intended update (see Findings) the current streak is at least 1 and at most the longest run |
| StreakService.SortAfterChange | backend/services/streakService.js:16 | the re-sort changes no day's record |
| StreakService.DecrementDailyContribution | backend/services/streakService.js:131-181 | nothing changes unless today's record exists with a positive counter; otherwise that counter, and `totalPosts` for a post, drop by one (never below 0), and the streaks are recomputed; the longest streak never falls |
| StreakService.DropToday | backend/services/streakService.js:148 | the decrement of today's record computes the dropped ledger |
| StreakService.DroppedLedger | backend/services/streakService.js:146-159 | after a decrement: same length, one record per day, only today's named counter one lower |
| StreakService.DroppedStreaks | backend/services/streakService.js:156-159 | after a decrement the current streak is at most the longest run |
| StreakService.DayEntry | backend/services/streakService.js:203-217 | a calendar entry has activity = posts + likes + comments, and a day without a record is all zero |
| StreakService.DayEntryOfRecord | backend/services/streakService.js:203-217 | every record appears, counters intact, in the entry of its date, with positive activity exactly when it is active |
| StreakService.GetStreakData | backend/services/streakService.js:184-253 | `days + 1` entries for consecutive days from `today - days` ascending, each read from the ledger; the streaks of the sorted ledger; the likes total; `totalContributions` is the number of records |
| StreakService.ResetInactiveStreaks | backend/services/streakService.js:256-291 | zeroes the current streak of exactly the users idle yesterday, touches no other field, returns how many; afterwards nobody is idle |
| StreakService.BadgesReported | backend/services/streakService.js:335-370 | first-post is reported only while not held; the streak badges whenever their threshold holds, even if already held |
| StreakService.BadgesInCatalogOrder | backend/services/streakService.js:335-370 | reported badges come from the catalog, in catalog order, each at most once; the month badge implies the week badge |
| StreakService.CatalogDistinct | backend/services/streakService.js:335-370 | the four badges are distinct and hold the catalog positions 0 to 3 |
| StreakService.AwardMeaning | backend/services/streakService.js:373-375 | awarding keeps earlier badges, adds each id at most once, and leaves every reported badge held |
| StreakService.AwardHeld | backend/services/streakService.js:373-375 | when every reported badge is already held, awarding changes nothing |
| StreakService.ReportBadges | backend/services/streakService.js:335-370 | the four threshold checks return the reported list |
| StreakService.CheckAndAwardBadges | backend/services/streakService.js:325-377 | returns the reported badges and awards each through `addBadge`; validity kept |
| Likes.HasUserLiked | backend/models/BlogPost.js:205-207 | `hasUserLiked` holds exactly when some like is by the user |
| Likes.Unliked | backend/models/BlogPost.js:192 | the filter keeps exactly the likes of other users |
| Likes.UnlikedConcat | backend/models/BlogPost.js:192 | the filter keeps order: filtering a concatenation concatenates the filtered parts |
| Likes.UnlikedSingle | backend/models/BlogPost.js:192 | a single like is kept exactly when it is not the user's |
| Likes.UnlikedAbsent | backend/models/BlogPost.js:192 | filtering out a user who never liked changes nothing |
| Likes.UnlikedOne | backend/models/BlogPost.js:192 | with one like per user, filtering removes exactly one like |
| Likes.ToggleFlips | backend/models/BlogPost.js:187-202 | a toggle flips the user's like and leaves every other user's like as it was |
| Likes.ToggleKeepsOneLikeEach | backend/models/BlogPost.js:187-202 | one like per user is kept, and the list grows or shrinks by exactly one |
| Likes.ToggleTwice | backend/models/BlogPost.js:187-202 | liking then unliking restores the list |
| BlogPostModel.SplitOnSpaceMeaning | backend/models/BlogPost.js:137 | `split(/\s+/)`: no piece holds white space; only the first and last piece can be empty |
| BlogPostModel.SplitOnSpaceOfWords | backend/models/BlogPost.js:137 | words joined by single blanks split back into the same words |
| BlogPostModel.ReadingTime | backend/models/BlogPost.js:135-139 | the reading time is the piece count divided by 200, rounded up, and at least 1 |
| BlogPostModel.ReadingTimeOfWords | backend/models/BlogPost.js:135-139 | a text of n words reads in ceil(n / 200) minutes |
| BlogPostModel.SlugMeaning | backend/models/BlogPost.js:141-146 | the slug holds only lower-case letters, digits and single dashes, no dash at either end, and keeps the title's letters and digits in order |
| BlogPostModel.SlugIdempotent | backend/models/BlogPost.js:141-146 | slugging a slug gives the same slug |
| BlogPostModel.BlogPost.constructor | backend/models/BlogPost.js:29-83 | a new post: category 'other', status 'draft', no slug, reading time 0, no likes, no views |
| BlogPostModel.BlogPost.HasUserLiked | backend/models/BlogPost.js:205-207 | holds exactly when some like is by the user |
| BlogPostModel.BlogPost.ToggleLike | backend/models/BlogPost.js:187-202 | the likes become the toggled list; the user's like flips; one like per user kept and the count moves by one |
| BlogPostModel.BlogPost.IncrementView | backend/models/BlogPost.js:171-184 | one more view; a history entry only for a signed-in viewer |
| BlogPostModel.BlogPost.PreSave | backend/models/BlogPost.js:134-149 | the reading time follows changed content (at least 1); the slug is set from the title only when it changed and no slug exists |
| BlogPostModel.TrendingWindow | backend/models/BlogPost.js:214-226 | a day for 'day', 30 days for 'month', a week for 'week' and anything else |
| BlogPostModel.GetTrendingPosts | backend/models/BlogPost.js:210-235 | published posts since now minus the window: a day for 'day', 30 days for 'month', a week for 'week', anything else or no frame; the limit defaults to 10 |
| BlogPostModel.SearchWindow | backend/models/BlogPost.js:265-289 | a date filter exactly for 'day', 'week', 'month' and 'year'; 'year' is 365 days |
| BlogPostModel.WindowsAgree | backend/models/BlogPost.js:214-289 | the two statics agree on day, week and month; an unknown frame is a week for trending and no filter for search |
| BlogPostModel.SortFor | backend/models/BlogPost.js:292-315 | text score exactly for 'relevance' with search text; each named sort for its own key; newest first otherwise |
| BlogPostModel.SearchPosts | backend/models/BlogPost.js:238-322 | limit and page default to 10 and 1, skip is (page - 1) * limit; the status, text, category, date filter and sort each as the option says |
| CommentModel.StoredContentMeaning | backend/models/Comment.js:4-9 | content is stored exactly when its trimmed form is not blank and at most 1000 characters, and is stored trimmed |
| CommentModel.Comment.constructor | backend/models/Comment.js:43-47 | a new comment holds the trimmed content, no likes, status 'active' |
| CommentModel.Comment.HasUserLiked | backend/models/Comment.js:69 | holds exactly when some like is by the user |
| CommentModel.Comment.ToggleLike | backend/models/Comment.js:68-83 | the user's like flips, every other user's is kept; one like per user kept and `likeCount` moves by one |
| CommentModel.Comment.SoftDelete | backend/models/Comment.js:86-89 | the status becomes 'deleted' and no other field changes |
| StreakRoutes.ValidateUserId | backend/routes/streak.js:7-14 | a missing or empty id and "undefined" and "null" are refused |
| StreakRoutes.ValidateUserIdMeaning | backend/routes/streak.js:7-14 | an id is accepted exactly when it is 24 hexadecimal digits of either case |
| StreakRoutes.ValidateUserIdExamples | backend/routes/streak.js:12-13 | a mixed-case 24-digit id passes; 23 digits do not |
| StreakRoutes.Level | backend/routes/streak.js:72-75 | activity 0 to 3 is its own level, anything larger is 4 |
| StreakRoutes.LevelMonotone | backend/routes/streak.js:72-75 | more activity never gives a lower level |
| StreakRoutes.ToCells | backend/routes/streak.js:66-76 | one cell per day, with the level of its activity |
| StreakRoutes.CellsKeepDays | backend/routes/streak.js:66-71 | the route keeps every field of the service's calendar and only adds the level |
| PostRoutes.FailedRules | backend/routes/posts.js:24-80 | the messages are those of exactly the failing rules, in rule order |
| PostRoutes.Errors | backend/routes/posts.js:24-80 | a chain reports one message per failing rule, in rule order |
| PostRoutes.ErrorsMeaning | backend/routes/posts.js:24-80 | trimmed title 5 to 100, trimmed content at least 10 (required on create only), trimmed excerpt at most 200, category and status from their lists, tags an array |
| PostRoutes.UpdateNoStricter | backend/routes/posts.js:52-80 | every update message is also a create message |
| PostRoutes.SameWhenComplete | backend/routes/posts.js:24-80 | with title and content present the two chains agree |
| PostRoutes.EmptyBodyUpdates | backend/routes/posts.js:52-80 | an empty body passes the update chain |
| PostRoutes.EmptyBodyCreates | backend/routes/posts.js:24-50 | the create chain refuses an empty body for its title and content only |
| PostRoutes.PaddedTitleRefused | backend/routes/posts.js:25-28 | the title is measured after trimming: a padded four-letter title is refused |
| PostForms.FieldErrorMeaning | frontend/src/pages/CreatePostPage.jsx:72-93 | each field has at most one message: blank title or content is required, untrimmed title under 5 or content under 10 is too short, excerpt over 200 is too long |
| PostForms.ValidateForm | frontend/src/pages/CreatePostPage.jsx:72-93 | records exactly each field's message and is valid exactly when no field has one; the same code sits at frontend/src/pages/EditPostPage.jsx:76-93 |
| PostForms.TrimEach | frontend/src/pages/CreatePostPage.jsx:105 | `map(tag => tag.trim())`: same length, each piece trimmed |
| PostForms.ParseTagsMeaning | frontend/src/pages/CreatePostPage.jsx:105 | each parsed tag is trimmed and comma-free; a non-empty text gives one tag more than it has commas, empty pieces kept |
| PostForms.TagsRoundTrip | frontend/src/pages/EditPostPage.jsx:54 | tags joined with ', ' and parsed again come back unchanged when comma-free and trimmed, except the single empty tag |
| PostForms.EmptyTagLost | frontend/src/pages/EditPostPage.jsx:54 | the single empty tag is shown as "" and submitted as no tags |
| PostForms.LoadDefaults | frontend/src/pages/EditPostPage.jsx:49-57 | an empty post loads as empty text, category 'other', status 'draft' and an empty image |
| PostForms.LoadedTagsResubmit | frontend/src/pages/EditPostPage.jsx:54 | a post's tags survive loading and resubmitting; a post without tags submits none |
| PostForms.ServerTitleAndContentPassForm | frontend/src/pages/EditPostPage.jsx:78-87 | a title and content the server accepts also pass the form |
| PostForms.FormExcerptPassesServer | frontend/src/pages/EditPostPage.jsx:88-90 | an excerpt the form accepts is accepted by the server |
| PostForms.PaddedTitleSlipsThrough | frontend/src/pages/CreatePostPage.jsx:75-79 | the form counts white space: a padded four-letter title passes the form but not the server |
| PostForms.PaddedExcerptRefused | frontend/src/pages/CreatePostPage.jsx:87-89 | an excerpt of one letter and 200 blanks fails the form but passes the server |
| AuthForms.LooseEmailIsRegex | frontend/src/pages/RegisterPage.jsx:47 | the direct check holds exactly when `\S+@\S+\.\S+` finds a match somewhere in the string |
| AuthForms.ShapePassesClient | frontend/src/pages/RegisterPage.jsx:47 | every address of the schema's shape passes the client test |
| AuthForms.StoredEmailPassesClient | frontend/src/pages/RegisterPage.jsx:47 | every address the user schema stores passes the client test |
| AuthForms.LooseEmailTooLoose | frontend/src/pages/LoginPage.jsx:44 | "a@b.c" passes the client test but is refused by the schema |
| AuthForms.RegisterErrorMeaning | frontend/src/pages/RegisterPage.jsx:41-61 | a field passes exactly when: name not blank, email passes the test, password at least 6, confirmation non-empty and equal |
| AuthForms.LoginErrorMeaning | frontend/src/pages/LoginPage.jsx:42-50 | the email passes the test, the password is merely non-empty, and there are no name or confirmation checks |
| AuthForms.ValidateRegister | frontend/src/pages/RegisterPage.jsx:38-65 | records exactly each field's message and is valid exactly when no field has one |
| AuthForms.ValidateLogin | frontend/src/pages/LoginPage.jsx:39-54 | records exactly each field's message and is valid exactly when no field has one |
| AuthForms.RegisterThenLogin | frontend/src/pages/LoginPage.jsx:39-54 | credentials that pass sign-up pass sign-in |
| AuthForms.LoginLooserThanRegister | frontend/src/pages/LoginPage.jsx:48-50 | sign-in accepts a three-character password that sign-up refuses |
| StreakStats.StreakEmojiTier | frontend/src/components/StreakStats.jsx:24-31 | the emoji is the one of the streak's tier, one step per threshold 1, 7, 30, 50, 100 reached |
| StreakStats.ReachedMonotone | frontend/src/components/StreakStats.jsx:24-31 | a longer streak never reaches fewer thresholds |
| StreakStats.EmojiTierMonotone | frontend/src/components/StreakStats.jsx:24-31 | a longer streak never shows a lower emoji |
| StreakStats.MessagesDistinct | frontend/src/components/StreakStats.jsx:33-41 | the seven messages are distinct |
| StreakStats.StreakMessageRanges | frontend/src/components/StreakStats.jsx:33-41 | each message belongs to exactly one range: 0, 1, 2-6, 7-29, 30-49, 50-99, 100 and above |
| StreakStats.MessageRefinesEmoji | frontend/src/components/StreakStats.jsx:24-41 | two streaks with the same message have the same emoji |
| StreakStats.MissingStats | frontend/src/components/StreakStats.jsx:5-41 | without stats the emoji is the seedling and the message 'Unstoppable!' |
| StreakStats.NegativeStreak | frontend/src/components/StreakStats.jsx:24-41 | a negative streak gets the seedling and 'Building momentum!' |
| CivilCalendar.DaysInMonth | frontend/src/components/ContributionCalendar.jsx:158 | a month has 28 to 31 days |
| CivilCalendar.NextYearStart | frontend/src/components/ContributionCalendar.jsx:54 | a year starts a year-length after the previous one |
| CivilCalendar.CycleStart | frontend/src/components/ContributionCalendar.jsx:54 | every 400 years the calendar repeats 146097 days later |
| CivilCalendar.MonthOfOffset | frontend/src/components/ContributionCalendar.jsx:146 | the month holding a day of the year lies between that month's start and the next |
| CivilCalendar.CivilWalk | frontend/src/components/ContributionCalendar.jsx:146 | every day number has a real date with that day number |
| CivilCalendar.CivilOf | frontend/src/components/ContributionCalendar.jsx:146 | `getFullYear`/`getMonth`/`getDate`: a real date whose day number is the given one |
| CivilCalendar.DayNumberInjective | frontend/src/components/ContributionCalendar.jsx:146 | two real dates with one day number are the same date |
| CivilCalendar.CivilOfDayNumber | frontend/src/components/ContributionCalendar.jsx:154-156 | reading a real date back from its day number gives the date |
| CivilCalendar.LastDayIdiom | frontend/src/components/ContributionCalendar.jsx:158 | `new Date(y, m + 1, 0)` is the last day of month m |
| CivilCalendar.Anchors | frontend/src/components/ContributionCalendar.jsx:157 | 1 January 1970 is day 0, a Thursday; 29 February 2024 is day 19782, a Thursday |
| ContributionCalendar.FilledMeaning | frontend/src/components/ContributionCalendar.jsx:76-88 | an entry fills every counter, a missing one with 0, keeps the day's date, and marks posts exactly when there are some |
| ContributionCalendar.LastForMeaning | frontend/src/components/ContributionCalendar.jsx:72-90 | the entry applied to a day is the last one for it, and none applies when no entry has that date |
| ContributionCalendar.CreateYearDayMap | frontend/src/components/ContributionCalendar.jsx:50-93 | 366 consecutive days from 1 January of the year, each the zero record overlaid by the last entry for that day; other entries dropped |
| ContributionCalendar.DayForConsistent | frontend/src/components/ContributionCalendar.jsx:53-90 | every day of the map carries its own date and shows posts exactly when it has some |
| ContributionCalendar.YearMapSpan | frontend/src/components/ContributionCalendar.jsx:53-58 | the map covers the whole year; its last day is 31 December in a leap year and 1 January of the next year otherwise |
| ContributionCalendar.GetStartDate | frontend/src/components/ContributionCalendar.jsx:30-47 | year: a Sunday 364-370 days back; week: the Sunday on or before the date; month: the 1st of the date's own month; any other view: undefined |
| ContributionCalendar.StartDatesRelate | frontend/src/components/ContributionCalendar.jsx:30-47 | the year start is 364 days before the week start; the month start is day 1 of the date's month |
| ContributionCalendar.CellAtMeaning | frontend/src/components/ContributionCalendar.jsx:116-126 | a grid cell carries the map's record for its day, or the zero record |
| ContributionCalendar.BuildYearGrid | frontend/src/components/ContributionCalendar.jsx:108-141 | 52 weeks of 7 consecutive days from the start date, each the map's record |
| ContributionCalendar.WeekFrom | frontend/src/components/ContributionCalendar.jsx:112-139 | 7 consecutive days from the first, each the map's record |
| ContributionCalendar.YearGridEnds | frontend/src/components/ContributionCalendar.jsx:34 | the year grid runs Sunday to Saturday and ends the day before the selected date's week, which is never shown |
| ContributionCalendar.BuildWeekGrid | frontend/src/components/ContributionCalendar.jsx:194-226 | one week of 7 consecutive days from the Sunday |
| ContributionCalendar.MonthRow | frontend/src/components/ContributionCalendar.jsx:160-191 | a row of the month view has 7 cells |
| ContributionCalendar.BuildMonthGrid | frontend/src/components/ContributionCalendar.jsx:152-193 | 6 rows of 7 days counted from day `1 - firstDayOfWeek` of the selected month |
| ContributionCalendar.MonthWeek | frontend/src/components/ContributionCalendar.jsx:161-190 | the inner loop builds the row of 7 days from the counter |
| ContributionCalendar.MonthGridMeaning | frontend/src/components/ContributionCalendar.jsx:155-192 | cell i is day `i + 1 - firstDayOfWeek`; it is in the month exactly when that day is 1 to the month's length; the month always fits in the 42 cells |
| ContributionCalendar.LeadingDay | frontend/src/components/ContributionCalendar.jsx:159 | the days before the 1st in the first row belong to another month |
| ContributionCalendar.TrailingDay | frontend/src/components/ContributionCalendar.jsx:160-191 | the days after the month's end in the last rows belong to another month |
| ContributionCalendar.WeekMonths | frontend/src/components/ContributionCalendar.jsx:145-146 | one month number (0 to 11) per week |
| ContributionCalendar.MonthLabels | frontend/src/components/ContributionCalendar.jsx:142-151 | the loop with `lastMonth` builds the labels of the label specification |
| ContributionCalendar.LabelsNameMonths | frontend/src/components/ContributionCalendar.jsx:148 | every label names the month of its week |
| ContributionCalendar.LabelsOrdered | frontend/src/components/ContributionCalendar.jsx:144-151 | labelled weeks strictly increase |
| ContributionCalendar.LabelsMarkMonths | frontend/src/components/ContributionCalendar.jsx:147-150 | a week is labelled exactly when its month differs from the previous week's; week 0 always is |
| ContributionCalendar.LabelsAlternate | frontend/src/components/ContributionCalendar.jsx:142-151 | week 0 carries the first label, consecutive labels name different months, and the last names the last week's month |
| ContributionCalendar.RenderGrid | frontend/src/components/ContributionCalendar.jsx:103-227 | year: 52 weeks of 7 consecutive days from the year start, one label per week that starts a month; month: 6 rows of 7 days counted from the Sunday on or before the 1st, one label; week: the 7 days from the week start, one label; an unknown view renders nothing; every week has 7 days |
| ContributionCalendar.GetColor | frontend/src/components/ContributionCalendar.jsx:8-21 | orange whenever the day has posts, else the colour of levels 1 to 4, else the card foreground |
| ContributionCalendar.ColorsDistinct | frontend/src/components/ContributionCalendar.jsx:14-20 | without posts the five colours are distinct and none is orange |
| ContributionCalendar.LevelColor | frontend/src/components/ContributionCalendar.jsx:14-20 | on the route's levels, a day without posts keeps the default colour exactly when it had no activity |
| ContributionCalendar.ColorsAgree | frontend/src/components/ContributionCalendar.jsx:8-27 | on a consistent cell, the colour is orange exactly when the class is |

## Left out

- Persistence: `findById`, `find`, `save` and the aggregation pipelines are replaced by in-memory objects. `getStreakStats` (backend/services/streakService.js:294-322) is an aggregation and is not part of this model, nor is the leaderboard.
- Request handlers, controllers and middleware: request and response glue, not part of this model.
- `calculateTrendingScore`: floating-point arithmetic, not part of this model. BlogPostModel.GetTrendingPosts models the filter and the limit only; its `.sort({ trendingScore: -1 })` and `populate` (backend/models/BlogPost.js:232-234) are not modelled.
- The wall clock and time zones: `new Date()` and `setHours` are replaced by a `today` or `now` parameter, with dates as day numbers. The day keys of `toISOString` are in UTC while the days are local, so near midnight a key can name the neighbouring day. The model keys every day by its own day number and does not capture that shift.
- Concurrency: two requests that load, change and save the same user can lose an update. The nightly scheduler that calls `resetInactiveStreaks` is timer plumbing.
- Password hashing and token signing call bcrypt and JWT, which are foreign libraries.
- Rendering, animation, network calls and toasts of the pages and components.
- Strings are sequences of characters. JavaScript measures `length` in UTF-16 code units, so lengths differ for characters outside the Basic Multilingual Plane. `toLowerCase` is modelled on ASCII letters only.
- Form and request fields are strings or absent. A value of another type, such as a number where a title is expected, is not modelled, except that the tags field can be "not an array".
- PostRoutes: the messages are modelled; the sanitized body that express-validator writes back is not.
- BlogPostModel.SearchPosts: the sort by `'likes.length'` is modelled as the key the source names; what MongoDB makes of a path into an array is not modelled.
- BlogPostModel.BlogPost.PreSave: slug uniqueness is enforced by a database index and is not part of this model.
- Ledger.BumpEffect: states the intended step, in which today's new record receives the increment; what the source does as written on a day's first activity is `Ledger.BumpAsWritten`, see Findings.
- StreakService.BumpToday: states the intended step, in which today's new record receives the increment; what the source does as written on a day's first activity is `Ledger.BumpAsWritten`, see Findings.
- StreakService.UpdateDailyContribution: states the intended step, in which today's new record receives the increment; what the source does as written on a day's first activity is `Ledger.BumpAsWritten`, see Findings.
- StreakService.UpdatedLedger: states the intended step, in which today's new record receives the increment; what the source does as written on a day's first activity is `Ledger.BumpAsWritten`, see Findings.
- StreakService.UpdatedStreaks: states the intended step, in which today's new record receives the increment; what the source does as written on a day's first activity is `Ledger.BumpAsWritten`, see Findings.
- StreakService.UpdateDailyContribution: the route forwards any `activityType` string (backend/routes/streak.js:113-115); the model takes only posts, likes and comments. For any other string the source creates today's record if missing and raises no counter of the schema.
- StreakService.ResetInactiveStreaks: the source loads only users with a positive streak; the model takes all users and resets the same ones, since a user whose streak is 0 is never idle.
- ContributionCalendar.BuildMonthGrid: `daysInMonth` (ContributionCalendar.jsx:158) is computed and never used; the model states its value only in `CivilCalendar.LastDayIdiom`.
- CivilCalendar.CivilOf: the date of a day number is defined by its contract, the one real date with that day number. The walk that computes it is `CivilWalk`.
- The year view's grid cells do not carry `inMonth`; only the month view's cells do, as in the source.

## Findings

| source | as written | input that shows it | evidently intended | confidence | as-written member | corrected member |
|---|---|---|---|---|---|---|
| backend/services/streakService.js:88-100 | the new record is pushed as a plain object and the increment is then applied to that object; the document array stores a copy, so the stored record keeps every counter at 0 | a user with no record for today who publishes a post: today's stored record is all zero and `currentStreak` becomes 0 | increment the stored record, so that today is active and the streak is at least 1 | not executed; relies on Mongoose casting a pushed object into a new subdocument | StreakService.FirstActivityLost | Ledger.BumpEffect |
