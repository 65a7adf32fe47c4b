// The blog post document of backend/models/BlogPost.js: the in-place methods
// (`toggleLike`, `incrementView`), the pre-save hook that sets the reading time
// and the slug, and the query plans built by the two statics
// `getTrendingPosts` and `searchPosts`. Times are milliseconds since the epoch
// and `now` is a parameter.

module BlogPostModel {
  import opened Common
  import opened JsText
  import Likes

  // ---------------------------------------------------------------------------
  // Reading time: `Math.ceil(content.split(/\s+/).length / 200)`

  /** Index of the first white-space character of `s` (|s| if none). */
  function FirstSpace(s: string): (i: nat)
    ensures i <= |s| && NoSpace(s[..i])
    ensures i == |s| || IsSpace(s[i])
  {
    if s == [] || IsSpace(s[0]) then 0
    else
      var i := FirstSpace(s[1..]);
      assert s[..i + 1] == [s[0]] + s[1..][..i];
      i + 1
  }

  /** `s.split(/\s+/)`: the pieces between maximal runs of white space. A
      leading or trailing run yields an empty first or last piece. */
  function SplitOnSpace(s: string): (r: seq<string>)
    ensures |r| >= 1
    decreases |s|
  {
    var i := FirstSpace(s);
    if i == |s| then [s]
    else
      var j := i + TextStart(s[i..]);
      [s[..i]] + SplitOnSpace(s[j..])
  }

  /** No piece holds white space, and only the first and the last piece can be
      empty. */
  lemma {:induction false} SplitOnSpaceMeaning(s: string)
    ensures forall k :: 0 <= k < |SplitOnSpace(s)| ==> NoSpace(SplitOnSpace(s)[k])
    ensures forall k :: 0 < k < |SplitOnSpace(s)| - 1 ==> SplitOnSpace(s)[k] != []
    decreases |s|
  {
    var i := FirstSpace(s);
    if i < |s| {
      var j := i + TextStart(s[i..]);
      SplitOnSpaceMeaning(s[j..]);
      if j < |s| {
        assert !IsSpace(s[j]) by {
          assert s[i..][j - i] == s[j];
        }
        assert FirstSpace(s[j..]) > 0;
      }
    }
  }

  /** Words joined by single blanks split back into the same words. */
  lemma {:induction false} SplitOnSpaceOfWords(words: seq<string>)
    requires |words| >= 1
    requires forall k :: 0 <= k < |words| ==> words[k] != [] && NoSpace(words[k])
    ensures SplitOnSpace(Join(words, " ")) == words
  {
    if |words| == 1 {
      SplitOnSpaceOfWord(words[0]);
    } else {
      JoinFirst(words);
      JoinStartsWithWord(words[1..]);
      SplitOnSpaceCons(words[0], Join(words[1..], " "));
      SplitOnSpaceOfWords(words[1..]);
      assert words == [words[0]] + words[1..];
    }
  }

  lemma SplitOnSpaceOfWord(w: string)
    requires NoSpace(w)
    ensures SplitOnSpace(w) == [w]
  {
    FirstSpaceOfWord(w, []);
    assert w + [] == w;
  }

  lemma SplitOnSpaceCons(w: string, rest: string)
    requires NoSpace(w)
    requires rest != [] && !IsSpace(rest[0])
    ensures SplitOnSpace(w + " " + rest) == [w] + SplitOnSpace(rest)
  {
    var s := w + " " + rest;
    FirstSpaceOfWord(w, " " + rest);
    assert s == w + (" " + rest);
    assert s[|w|..] == " " + rest;
    assert (" " + rest)[1..] == rest;
    assert TextStart(" " + rest) == 1;
    assert s[|w| + 1..] == rest;
    assert s[..|w|] == w;
  }

  lemma FirstSpaceOfWord(w: string, t: string)
    requires NoSpace(w) && (t == [] || IsSpace(t[0]))
    ensures FirstSpace(w + t) == |w|
    decreases |w|
  {
    if w != [] {
      assert (w + t)[1..] == w[1..] + t;
      FirstSpaceOfWord(w[1..], t);
    }
  }

  lemma JoinFirst(words: seq<string>)
    requires |words| >= 2
    ensures Join(words, " ") == words[0] + " " + Join(words[1..], " ")
  {
  }

  lemma JoinStartsWithWord(words: seq<string>)
    requires |words| >= 1 && words[0] != [] && NoSpace(words[0])
    ensures |Join(words, " ")| > 0 && !IsSpace(Join(words, " ")[0])
  {
    if |words| > 1 {
      JoinFirst(words);
    }
  }

  const WordsPerMinute: nat := 200

  /** Minutes to read `content`: the piece count divided by 200, rounded up;
      never below 1, since splitting always yields at least one piece. */
  function ReadingTime(content: string): (minutes: nat)
    ensures minutes >= 1
    ensures (minutes - 1) * WordsPerMinute < |SplitOnSpace(content)| <= minutes * WordsPerMinute
  {
    var wordCount := |SplitOnSpace(content)|;
    (wordCount + WordsPerMinute - 1) / WordsPerMinute
  }

  /** Text of n words separated by single blanks reads in ceil(n / 200) minutes. */
  lemma ReadingTimeOfWords(words: seq<string>)
    requires |words| >= 1
    requires forall k :: 0 <= k < |words| ==> words[k] != [] && NoSpace(words[k])
    ensures (ReadingTime(Join(words, " ")) - 1) * WordsPerMinute < |words| <= ReadingTime(Join(words, " ")) * WordsPerMinute
  {
    SplitOnSpaceOfWords(words);
  }

  // ---------------------------------------------------------------------------
  // Slug: title.toLowerCase().replace(/[^a-z0-9]+/g, '-').replace(/(^-|-$)/g, '')

  predicate IsSlugChar(c: char) {
    'a' <= c <= 'z' || '0' <= c <= '9'
  }

  /** `.replace(/[^a-z0-9]+/g, '-')`; `inRun` holds while inside a run of other
      characters that has already been replaced. */
  function DashRuns(s: string, inRun: bool): string {
    if s == [] then []
    else if IsSlugChar(s[0]) then [s[0]] + DashRuns(s[1..], false)
    else (if inRun then [] else ['-']) + DashRuns(s[1..], true)
  }

  /** `.replace(/(^-|-$)/g, '')`: one leading and one trailing dash removed. */
  function TrimDashes(s: string): string {
    var t := if |s| > 0 && s[0] == '-' then s[1..] else s;
    if |t| > 0 && t[|t| - 1] == '-' then t[..|t| - 1] else t
  }

  function Slugify(title: string): string {
    TrimDashes(DashRuns(LowerAscii(title), false))
  }

  /** Letters, digits and single dashes, with no dash at either end. */
  predicate SlugShaped(s: string) {
    (forall i :: 0 <= i < |s| ==> IsSlugChar(s[i]) || s[i] == '-')
    && (forall i :: 0 <= i < |s| - 1 ==> s[i] == '-' ==> s[i + 1] != '-')
    && (s == [] || (s[0] != '-' && s[|s| - 1] != '-'))
  }

  /** Letters, digits and dashes with no two dashes side by side. */
  predicate DashSeparated(s: string) {
    (forall i :: 0 <= i < |s| ==> IsSlugChar(s[i]) || s[i] == '-')
    && (forall i :: 0 <= i < |s| - 1 ==> s[i] == '-' ==> s[i + 1] != '-')
  }

  /** The letters and digits of `s`, in order. */
  function Alnums(s: string): string {
    if s == [] then []
    else (if IsSlugChar(s[0]) then [s[0]] else []) + Alnums(s[1..])
  }

  lemma {:induction false} DashRunsMeaning(s: string, inRun: bool)
    ensures DashSeparated(DashRuns(s, inRun))
    ensures inRun ==> DashRuns(s, inRun) == [] || DashRuns(s, inRun)[0] != '-'
  {
    if s != [] {
      var rest := DashRuns(s[1..], !IsSlugChar(s[0]));
      DashRunsMeaning(s[1..], !IsSlugChar(s[0]));
      var head: string := if IsSlugChar(s[0]) then [s[0]] else if inRun then [] else ['-'];
      var r := head + rest;
      assert r == DashRuns(s, inRun);
      assert forall i :: 0 <= i < |rest| ==> r[|head| + i] == rest[i];
    }
  }

  lemma {:induction false} DashRunsAlnums(s: string, inRun: bool)
    ensures Alnums(DashRuns(s, inRun)) == Alnums(s)
  {
    if s != [] {
      var rest := DashRuns(s[1..], !IsSlugChar(s[0]));
      DashRunsAlnums(s[1..], !IsSlugChar(s[0]));
      var head: string := if IsSlugChar(s[0]) then [s[0]] else if inRun then [] else ['-'];
      assert head + rest == DashRuns(s, inRun);
      AlnumsConcat(head, rest);
    }
  }

  lemma {:induction false} AlnumsConcat(a: string, b: string)
    ensures Alnums(a + b) == Alnums(a) + Alnums(b)
  {
    if a != [] {
      assert (a + b)[0] == a[0];
      assert (a + b)[1..] == a[1..] + b;
      AlnumsConcat(a[1..], b);
      assert Alnums(a + b) == (if IsSlugChar(a[0]) then [a[0]] else []) + Alnums(a[1..] + b);
    } else {
      assert a + b == b;
    }
  }

  lemma TrimDashesMeaning(s: string)
    requires DashSeparated(s)
    ensures SlugShaped(TrimDashes(s))
  {
  }

  lemma TrimDashesAlnums(s: string)
    ensures Alnums(TrimDashes(s)) == Alnums(s)
  {
    var t := if |s| > 0 && s[0] == '-' then s[1..] else s;
    if |s| > 0 && s[0] == '-' {
      assert s == [s[0]] + t;
      AlnumsConcat([s[0]], t);
    }
    if |t| > 0 && t[|t| - 1] == '-' {
      assert t == t[..|t| - 1] + [t[|t| - 1]];
      AlnumsConcat(t[..|t| - 1], [t[|t| - 1]]);
    }
  }

  /** The slug holds only lower-case letters, digits and single dashes, never
      starts or ends with a dash, and keeps every letter and digit of the
      lower-cased title, in order. */
  lemma SlugMeaning(title: string)
    ensures SlugShaped(Slugify(title))
    ensures Alnums(Slugify(title)) == Alnums(LowerAscii(title))
  {
    DashRunsMeaning(LowerAscii(title), false);
    DashRunsAlnums(LowerAscii(title), false);
    TrimDashesMeaning(DashRuns(LowerAscii(title), false));
    TrimDashesAlnums(DashRuns(LowerAscii(title), false));
  }

  lemma {:induction false} DashRunsKeeps(s: string, inRun: bool)
    requires DashSeparated(s) && (inRun ==> s == [] || s[0] != '-')
    ensures DashRuns(s, inRun) == s
  {
    if s != [] {
      DashRunsKeeps(s[1..], !IsSlugChar(s[0]));
      assert s == [s[0]] + s[1..];
    }
  }

  lemma TrimDashesKeeps(s: string)
    requires s == [] || (s[0] != '-' && s[|s| - 1] != '-')
    ensures TrimDashes(s) == s
  {
  }

  /** A slug is its own slug: slugging twice gives the same slug. */
  lemma SlugIdempotent(title: string)
    ensures Slugify(Slugify(title)) == Slugify(title)
  {
    var s := Slugify(title);
    SlugMeaning(title);
    assert LowerAscii(s) == s;
    DashRunsKeeps(s, false);
    TrimDashesKeeps(s);
  }

  // ---------------------------------------------------------------------------
  // The document

  /** A `viewHistory` entry. */
  datatype View = View(user: string, viewedAt: int, ipAddress: Option<string>)

  class BlogPost {
    var title: string
    var content: string
    var category: string
    var status: string
    var slug: string
    var readingTime: nat
    var likes: seq<Likes.Like>
    var viewCount: nat
    var viewHistory: seq<View>

    /** No user liked twice. */
    ghost predicate LikesValid()
      reads this`likes
    {
      Likes.OneLikeEach(likes)
    }

    /** Every recorded view was also counted. */
    ghost predicate ViewsValid()
      reads this`viewCount, this`viewHistory
    {
      |viewHistory| <= viewCount
    }

    /** A new post with the schema defaults; the slug is unset (""). */
    constructor(title: string, content: string)
      ensures this.title == title && this.content == content
      ensures category == "other" && status == "draft" && slug == ""
      ensures readingTime == 0 && likes == [] && viewCount == 0 && viewHistory == []
      ensures LikesValid() && ViewsValid()
    {
      this.title := title;
      this.content := content;
      category := "other";
      status := "draft";
      slug := "";
      readingTime := 0;
      likes := [];
      viewCount := 0;
      viewHistory := [];
    }

    /** The `likeCount` virtual. */
    function LikeCount(): nat
      reads this`likes
    {
      |likes|
    }

    /** `hasUserLiked(userId)`. */
    function HasUserLiked(userId: string): (r: bool)
      reads this`likes
      ensures r <==> exists i :: 0 <= i < |likes| && likes[i].user == userId
    {
      Likes.HasUserLiked(likes, userId)
    }

    /** `toggleLike(userId)`: unlike if liked, else like; `now` stands for
        `new Date()`. */
    method ToggleLike(userId: string, now: int)
      modifies this`likes
      ensures likes == Likes.Toggled(old(likes), userId, now)
      ensures HasUserLiked(userId) == !old(HasUserLiked(userId))
      ensures old(LikesValid()) ==> LikesValid() && LikeCount() == old(LikeCount()) + (if old(HasUserLiked(userId)) then -1 else 1)
    {
      Likes.ToggleFlips(likes, userId, now);
      if old(LikesValid()) {
        Likes.ToggleKeepsOneLikeEach(likes, userId, now);
      }
      var existingLike := Likes.HasUserLiked(likes, userId);
      if existingLike {
        likes := Likes.Unliked(likes, userId);
      } else {
        likes := likes + [Likes.Like(userId, now)];
      }
    }

    /** `incrementView(userId, ipAddress)`: one more view, recorded in the
        history only for a signed-in viewer. */
    method IncrementView(userId: Option<string>, ipAddress: Option<string>, now: int)
      modifies this`viewCount, this`viewHistory
      ensures viewCount == old(viewCount) + 1
      ensures viewHistory == old(viewHistory) + (if Falsy(userId) then [] else [View(userId.value, now, ipAddress)])
      ensures old(ViewsValid()) ==> ViewsValid()
    {
      viewCount := viewCount + 1;
      if !Falsy(userId) {
        viewHistory := viewHistory + [View(userId.value, now, ipAddress)];
      }
    }

    /** The pre-save hook: the reading time follows the content when it changed;
        the slug is derived from the title only when the title changed and no
        slug is set yet. */
    method PreSave(contentModified: bool, titleModified: bool)
      modifies this`readingTime, this`slug
      ensures readingTime == if contentModified then ReadingTime(content) else old(readingTime)
      ensures slug == if titleModified && old(slug) == "" then Slugify(title) else old(slug)
      ensures contentModified ==> readingTime >= 1
      ensures titleModified && old(slug) == "" ==> SlugShaped(slug)
    {
      if contentModified {
        var wordCount := |SplitOnSpace(content)|;
        readingTime := (wordCount + WordsPerMinute - 1) / WordsPerMinute;
      }
      if titleModified && slug == "" {
        SlugMeaning(title);
        slug := Slugify(title);
      }
    }
  }

  // ---------------------------------------------------------------------------
  // getTrendingPosts and searchPosts: the query plans

  const HourMs: int := 60 * 60 * 1000
  const DayMs: int := 24 * HourMs

  /** How far back `getTrendingPosts` looks: a day, a week or 30 days; any
      other time frame means a week. */
  function TrendingWindow(timeFrame: string): (ms: int)
    ensures ms == DayMs || ms == 7 * DayMs || ms == 30 * DayMs
    ensures ms == DayMs <==> timeFrame == "day"
    ensures ms == 30 * DayMs <==> timeFrame == "month"
  {
    if timeFrame == "day" then DayMs
    else if timeFrame == "week" then 7 * DayMs
    else if timeFrame == "month" then 30 * DayMs
    else 7 * DayMs
  }

  /** The trending query: published posts since the start of the window,
      highest trending score first, at most `limit` of them. */
  datatype TrendingQuery = TrendingQuery(status: string, publishedSince: int, limit: int)

  /** `getTrendingPosts(limit = 10, timeFrame = 'week')`. */
  function GetTrendingPosts(now: int, limit: Option<int>, timeFrame: Option<string>): (q: TrendingQuery)
    ensures q.status == "published"
    ensures q.limit == (if limit.None? then 10 else limit.value)
    ensures now - 30 * DayMs <= q.publishedSince <= now - DayMs
    ensures timeFrame.None? ==> q.publishedSince == now - 7 * DayMs
    ensures q.publishedSince == now - DayMs <==> timeFrame == Some("day")
    ensures q.publishedSince == now - 30 * DayMs <==> timeFrame == Some("month")
    ensures q.publishedSince == now - 7 * DayMs <==> timeFrame != Some("day") && timeFrame != Some("month")
  {
    var tf := if timeFrame.None? then "week" else timeFrame.value;
    TrendingQuery("published", now - TrendingWindow(tf), if limit.None? then 10 else limit.value)
  }

  /** The window of `searchPosts`: a day, a week, 30 days or 365 days; any other
      time frame adds no date filter. */
  function SearchWindow(timeFrame: string): (ms: Option<int>)
    ensures ms.Some? <==> timeFrame in ["day", "week", "month", "year"]
    ensures timeFrame == "year" ==> ms == Some(365 * DayMs)
  {
    if timeFrame == "day" then Some(DayMs)
    else if timeFrame == "week" then Some(7 * DayMs)
    else if timeFrame == "month" then Some(30 * DayMs)
    else if timeFrame == "year" then Some(365 * DayMs)
    else None
  }

  /** The two statics agree on 'day', 'week' and 'month'; only search knows
      'year', and an unknown time frame means a week for trending but no
      filter for search. */
  lemma WindowsAgree(timeFrame: string)
    ensures timeFrame in ["day", "week", "month"] ==> SearchWindow(timeFrame) == Some(TrendingWindow(timeFrame))
    ensures timeFrame !in ["day", "week", "month", "year"] ==>
              SearchWindow(timeFrame).None? && TrendingWindow(timeFrame) == 7 * DayMs
  {
  }

  /** The sort orders `searchPosts` chooses from. */
  datatype SortKey = TextScore | CreatedDesc | LikesThenViewsDesc | LikesDesc | ViewsDesc

  /** The sort for `sortBy`: text score only for 'relevance' with a search
      text, newest first for 'recent', for 'relevance' without text and for
      anything unknown. */
  function SortFor(sortBy: string, hasText: bool): (k: SortKey)
    ensures k == TextScore <==> sortBy == "relevance" && hasText
    ensures k == LikesThenViewsDesc <==> sortBy == "popular"
    ensures k == LikesDesc <==> sortBy == "likes"
    ensures k == ViewsDesc <==> sortBy == "views"
    ensures k == CreatedDesc <==> sortBy !in ["relevance", "popular", "likes", "views"] || (sortBy == "relevance" && !hasText)
  {
    if sortBy == "relevance" then (if hasText then TextScore else CreatedDesc)
    else if sortBy == "recent" then CreatedDesc
    else if sortBy == "popular" then LikesThenViewsDesc
    else if sortBy == "likes" then LikesDesc
    else if sortBy == "views" then ViewsDesc
    else CreatedDesc
  }

  /** The search filter: a status, and optionally a text search, a category
      and an earliest creation time. */
  datatype SearchQuery = SearchQuery(status: string, text: Option<string>, category: Option<string>, createdSince: Option<int>)

  /** The `options` of `searchPosts`; a missing option takes its default. */
  datatype SearchOptions = SearchOptions(
    page: Option<int>,
    limit: Option<int>,
    category: Option<string>,
    status: Option<string>,
    sortBy: Option<string>,
    timeFrame: Option<string>)

  datatype SearchPlan = SearchPlan(filter: SearchQuery, sort: SortKey, skip: int, limit: int)

  /** `query && query.trim()`: a search text that is not blank. */
  predicate HasSearchText(query: Option<string>) {
    query.Some? && Trim(query.value) != ""
  }

  function Default<T>(o: Option<T>, d: T): T {
    if o.None? then d else o.value
  }

  /** Builds the filter and the sort of `searchPosts` field by field. */
  method SearchPosts(query: Option<string>, options: SearchOptions, now: int) returns (plan: SearchPlan)
    ensures plan.limit == Default(options.limit, 10)
    ensures plan.skip == (Default(options.page, 1) - 1) * plan.limit
    ensures plan.filter.status == Default(options.status, "published")
    ensures plan.filter.text == if HasSearchText(query) then query else None
    ensures plan.filter.category ==
              if Falsy(options.category) || options.category.value == "all" then None else options.category
    ensures plan.filter.createdSince ==
              match SearchWindow(Default(options.timeFrame, "all"))
              case None => None
              case Some(ms) => Some(now - ms)
    ensures plan.sort == SortFor(Default(options.sortBy, "relevance"), HasSearchText(query))
  {
    var page := Default(options.page, 1);
    var limit := Default(options.limit, 10);
    var status := Default(options.status, "published");
    var sortBy := Default(options.sortBy, "relevance");
    var timeFrame := Default(options.timeFrame, "all");
    var skip := (page - 1) * limit;

    var searchQuery := SearchQuery(status, None, None, None);
    if query.Some? && Trim(query.value) != "" {
      searchQuery := searchQuery.(text := query);
    }
    if !Falsy(options.category) && options.category.value != "all" {
      searchQuery := searchQuery.(category := options.category);
    }
    if timeFrame != "" && timeFrame != "all" {
      var window := SearchWindow(timeFrame);
      if window.Some? {
        searchQuery := searchQuery.(createdSince := Some(now - window.value));
      }
    }

    var sortObject := SortFor(sortBy, query.Some? && Trim(query.value) != "");
    plan := SearchPlan(searchQuery, sortObject, skip, limit);
  }
}
