// The request-body rules of backend/routes/posts.js: `createPostValidation`
// and `updatePostValidation`. Each rule is checked independently and adds its
// message when it fails; the request is refused when any message was added.

module PostRoutes {
  import opened Common
  import opened JsText

  /** The `tags` field as sent: an array of strings or some other value. */
  datatype TagsValue = TagArray(tags: seq<string>) | NotAnArray

  /** The fields the rules look at; `None` is a field the body does not have. */
  datatype PostBody = PostBody(
    title: Option<string>,
    content: Option<string>,
    excerpt: Option<string>,
    category: Option<string>,
    status: Option<string>,
    tags: Option<TagsValue>)

  /** One message per rule, in the order the rules are declared. */
  datatype PostError = TitleLength | ContentLength | ExcerptLength | InvalidCategory | InvalidStatus | TagsNotArray

  function Rank(e: PostError): nat {
    match e
    case TitleLength => 0
    case ContentLength => 1
    case ExcerptLength => 2
    case InvalidCategory => 3
    case InvalidStatus => 4
    case TagsNotArray => 5
  }

  const Categories: seq<string> := ["technology", "lifestyle", "travel", "food", "health", "business", "entertainment", "other"]
  const Statuses: seq<string> := ["draft", "published", "archived"]

  /** The trim sanitizer turns a missing field into "". */
  function Sanitized(field: Option<string>): string {
    Trim(if field.None? then "" else field.value)
  }

  predicate TitleFits(title: Option<string>) {
    5 <= |Sanitized(title)| <= 100
  }

  predicate ContentFits(content: Option<string>) {
    |Sanitized(content)| >= 10
  }

  predicate ExcerptFits(excerpt: Option<string>) {
    |Sanitized(excerpt)| <= 200
  }

  /** Whether `rule` adds its message; `optionalTitleAndContent` is what
      distinguishes the update chain. */
  predicate Failed(b: PostBody, optionalTitleAndContent: bool, rule: PostError) {
    match rule
    case TitleLength => (b.title.Some? || !optionalTitleAndContent) && !TitleFits(b.title)
    case ContentLength => (b.content.Some? || !optionalTitleAndContent) && !ContentFits(b.content)
    case ExcerptLength => b.excerpt.Some? && !ExcerptFits(b.excerpt)
    case InvalidCategory => b.category.Some? && b.category.value !in Categories
    case InvalidStatus => b.status.Some? && b.status.value !in Statuses
    case TagsNotArray => b.tags == Some(NotAnArray)
  }

  /** The rules of both chains, in declaration order. */
  const Rules: seq<PostError> := [TitleLength, ContentLength, ExcerptLength, InvalidCategory, InvalidStatus, TagsNotArray]

  predicate InRuleOrder(rules: seq<PostError>) {
    forall i, j :: 0 <= i < j < |rules| ==> Rank(rules[i]) < Rank(rules[j])
  }

  /** The messages of the failing rules among `rules`, in the same order. */
  function FailedRules(rules: seq<PostError>, b: PostBody, optionalTitleAndContent: bool): (r: seq<PostError>)
    ensures forall e :: e in r <==> e in rules && Failed(b, optionalTitleAndContent, e)
    ensures InRuleOrder(rules) ==> InRuleOrder(r)
  {
    if rules == [] then []
    else
      var rest := FailedRules(rules[1..], b, optionalTitleAndContent);
      if Failed(b, optionalTitleAndContent, rules[0]) then
        assert forall i :: 0 <= i < |rest| ==> rest[i] in rules[1..];
        [rules[0]] + rest
      else rest
  }

  lemma RulesComplete()
    ensures forall e :: e in Rules
    ensures InRuleOrder(Rules)
  {
    forall e ensures e in Rules {
      assert Rules[Rank(e)] == e;
    }
  }

  /** The messages a chain produces: one for each failing rule, each rule
      independent of the others, in rule order. */
  function Errors(b: PostBody, optionalTitleAndContent: bool): (r: seq<PostError>)
    ensures forall e :: e in r <==> Failed(b, optionalTitleAndContent, e)
    ensures InRuleOrder(r)
  {
    RulesComplete();
    FailedRules(Rules, b, optionalTitleAndContent)
  }

  /** What each rule asks of its field. */
  lemma ErrorsMeaning(b: PostBody, optionalTitleAndContent: bool)
    ensures TitleLength in Errors(b, optionalTitleAndContent) <==> (b.title.Some? || !optionalTitleAndContent) && !TitleFits(b.title)
    ensures ContentLength in Errors(b, optionalTitleAndContent) <==> (b.content.Some? || !optionalTitleAndContent) && !ContentFits(b.content)
    ensures ExcerptLength in Errors(b, optionalTitleAndContent) <==> b.excerpt.Some? && !ExcerptFits(b.excerpt)
    ensures InvalidCategory in Errors(b, optionalTitleAndContent) <==> b.category.Some? && b.category.value !in Categories
    ensures InvalidStatus in Errors(b, optionalTitleAndContent) <==> b.status.Some? && b.status.value !in Statuses
    ensures TagsNotArray in Errors(b, optionalTitleAndContent) <==> b.tags == Some(NotAnArray)
  {
  }

  /** `createPostValidation`: title and content are required. */
  function CreateErrors(b: PostBody): seq<PostError> {
    Errors(b, false)
  }

  /** `updatePostValidation`: every field is optional. */
  function UpdateErrors(b: PostBody): seq<PostError> {
    Errors(b, true)
  }

  /** A body accepted on create is accepted on update: every update message is
      also a create message, and there are never more of them. */
  lemma UpdateNoStricter(b: PostBody)
    ensures forall e :: e in UpdateErrors(b) ==> e in CreateErrors(b)
    ensures |UpdateErrors(b)| <= |CreateErrors(b)|
  {
    FewerFailures(Rules, b);
  }

  lemma {:induction false} FewerFailures(rules: seq<PostError>, b: PostBody)
    ensures |FailedRules(rules, b, true)| <= |FailedRules(rules, b, false)|
  {
    if rules != [] {
      FewerFailures(rules[1..], b);
    }
  }

  /** With title and content present the two chains agree. */
  lemma SameWhenComplete(b: PostBody)
    requires b.title.Some? && b.content.Some?
    ensures UpdateErrors(b) == CreateErrors(b)
  {
    SameFailures(Rules, b);
  }

  lemma {:induction false} SameFailures(rules: seq<PostError>, b: PostBody)
    requires b.title.Some? && b.content.Some?
    ensures FailedRules(rules, b, true) == FailedRules(rules, b, false)
  {
    if rules != [] {
      SameFailures(rules[1..], b);
    }
  }

  /** An empty body passes the update chain. */
  lemma EmptyBodyUpdates()
    ensures UpdateErrors(PostBody(None, None, None, None, None, None)) == []
  {
    var empty := PostBody(None, None, None, None, None, None);
    NoneFailed(Rules, empty, true);
  }

  /** The create chain refuses an empty body for its missing title and
      content, and for nothing else. */
  lemma EmptyBodyCreates()
    ensures CreateErrors(PostBody(None, None, None, None, None, None)) == [TitleLength, ContentLength]
  {
    var empty := PostBody(None, None, None, None, None, None);
    assert Sanitized(None) == "";
    var later := Rules[2..];
    NoneFailed(later, empty, false);
    assert Rules[1..][1..] == later;
    var second := FailedRules(Rules[1..], empty, false);
    assert second == [ContentLength] + FailedRules(later, empty, false);
    assert FailedRules(Rules, empty, false) == [TitleLength] + second;
  }

  lemma {:induction false} NoneFailed(rules: seq<PostError>, b: PostBody, optionalTitleAndContent: bool)
    requires forall i :: 0 <= i < |rules| ==> !Failed(b, optionalTitleAndContent, rules[i])
    ensures FailedRules(rules, b, optionalTitleAndContent) == []
  {
    if rules != [] {
      NoneFailed(rules[1..], b, optionalTitleAndContent);
    }
  }

  /** White space around the title does not count: a four-letter title padded
      with blanks is still too short. */
  lemma PaddedTitleRefused()
    ensures TitleLength in CreateErrors(PostBody(Some("  abcd  "), Some("0123456789"), None, None, None, None))
  {
    PaddedTitleTrim();
    ErrorsMeaning(PostBody(Some("  abcd  "), Some("0123456789"), None, None, None, None), false);
  }

  lemma PaddedTitleTrim()
    ensures Trim("  abcd  ") == "abcd"
  {
    var t := "abcd  ";
    assert "  abcd  " == [' '] + ([' '] + t);
    TrimSpacePrefix(' ', [' '] + t);
    TrimSpacePrefix(' ', t);
    TrailingBlanksTrim();
  }

  lemma TrailingBlanksTrim()
    ensures Trim("abcd  ") == "abcd"
  {
    var t := "abcd  ";
    assert TextStart(t) == 0;
    assert t[..|t| - 1] == "abcd " && "abcd "[..4] == "abcd";
    assert TextEnd("abcd", 0) == 4;
    assert TextEnd(t, 0) == 4;
    assert t[0..4] == "abcd";
  }
}
