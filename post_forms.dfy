// The post editor of the client: the form state shared by
// frontend/src/pages/CreatePostPage.jsx and frontend/src/pages/EditPostPage.jsx,
// their identical `validateForm`, the comma-separated tags field, and how the
// edit page fills the form from a stored post. The server's own rules are in
// module PostRoutes; the lemmas at the end compare the two.

module PostForms {
  import opened Common
  import opened JsText
  import PostRoutes

  datatype FeaturedImage = FeaturedImage(url: string, alt: string)

  /** The editor's `formData`; `tags` is the text typed by the user. */
  datatype PostForm = PostForm(
    title: string,
    content: string,
    excerpt: string,
    category: string,
    tags: string,
    status: string,
    featuredImage: FeaturedImage)

  /** The keys of `newErrors`. */
  datatype FormField = TitleField | ContentField | ExcerptField

  const TitleRequired := "Title is required"
  const TitleTooShort := "Title must be at least 5 characters"
  const ContentRequired := "Content is required"
  const ContentTooShort := "Content must be at least 10 characters"
  const ExcerptTooLong := "Excerpt cannot be more than 200 characters"

  function TitleError(title: string): Option<string> {
    if Trim(title) == "" then Some(TitleRequired)
    else if |title| < 5 then Some(TitleTooShort)
    else None
  }

  function ContentError(content: string): Option<string> {
    if Trim(content) == "" then Some(ContentRequired)
    else if |content| < 10 then Some(ContentTooShort)
    else None
  }

  function ExcerptError(excerpt: string): Option<string> {
    if excerpt != "" && |excerpt| > 200 then Some(ExcerptTooLong) else None
  }

  /** The message `validateForm` records for `field`, if any. */
  function FieldError(f: PostForm, field: FormField): Option<string> {
    match field
    case TitleField => TitleError(f.title)
    case ContentField => ContentError(f.content)
    case ExcerptField => ExcerptError(f.excerpt)
  }

  /** Each field gets at most one message: a blank title or content is
      reported as missing, otherwise one shorter than 5 or 10 characters,
      counted with its white space, as too short; an excerpt only when it is
      longer than 200 characters. */
  lemma FieldErrorMeaning(f: PostForm)
    ensures FieldError(f, TitleField).Some? <==> AllSpace(f.title) || |f.title| < 5
    ensures FieldError(f, TitleField).Some? ==>
              FieldError(f, TitleField).value == if AllSpace(f.title) then TitleRequired else TitleTooShort
    ensures FieldError(f, ContentField).Some? <==> AllSpace(f.content) || |f.content| < 10
    ensures FieldError(f, ContentField).Some? ==>
              FieldError(f, ContentField).value == if AllSpace(f.content) then ContentRequired else ContentTooShort
    ensures FieldError(f, ExcerptField).Some? <==> |f.excerpt| > 200
    ensures FieldError(f, ExcerptField).Some? ==> FieldError(f, ExcerptField).value == ExcerptTooLong
  {
    TrimEmptyIffAllSpace(f.title);
    TrimEmptyIffAllSpace(f.content);
  }

  /** `validateForm`: fills `newErrors` field by field; the form is valid when
      no message was recorded. */
  method ValidateForm(formData: PostForm) returns (valid: bool, errors: map<FormField, string>)
    ensures forall field :: Recorded(errors, formData, field)
    ensures valid <==> forall field :: FieldError(formData, field).None?
  {
    var newErrors: map<FormField, string> := map[];
    if Trim(formData.title) == "" {
      newErrors := newErrors[TitleField := TitleRequired];
    } else if |formData.title| < 5 {
      newErrors := newErrors[TitleField := TitleTooShort];
    }
    ghost var afterTitle := newErrors;
    assert afterTitle.Keys <= {TitleField};
    if Trim(formData.content) == "" {
      newErrors := newErrors[ContentField := ContentRequired];
    } else if |formData.content| < 10 {
      newErrors := newErrors[ContentField := ContentTooShort];
    }
    ghost var afterContent := newErrors;
    assert afterContent.Keys <= {TitleField, ContentField};
    if formData.excerpt != "" && |formData.excerpt| > 200 {
      newErrors := newErrors[ExcerptField := ExcerptTooLong];
    }
    errors := newErrors;
    valid := |newErrors| == 0;
    assert Recorded(newErrors, formData, TitleField) by {
      assert TitleField in newErrors <==> TitleField in afterTitle;
    }
    assert Recorded(newErrors, formData, ContentField) by {
      assert ContentField in newErrors <==> ContentField in afterContent;
    }
    assert Recorded(newErrors, formData, ExcerptField);
    forall field ensures Recorded(newErrors, formData, field) {
      match field
      case TitleField =>
      case ContentField =>
      case ExcerptField =>
    }
    assert valid <==> newErrors == map[];
  }

  /** `errors` holds the message `validateForm` records for `field`, if any. */
  predicate Recorded(errors: map<FormField, string>, f: PostForm, field: FormField) {
    (field in errors <==> FieldError(f, field).Some?)
    && (field in errors ==> errors[field] == FieldError(f, field).value)
  }

  // ---------------------------------------------------------------------------
  // Tags: typed as one comma-separated string

  function TrimEach(parts: seq<string>): (r: seq<string>)
    ensures |r| == |parts|
    ensures forall k :: 0 <= k < |parts| ==> r[k] == Trim(parts[k])
  {
    if parts == [] then [] else [Trim(parts[0])] + TrimEach(parts[1..])
  }

  /** `tags ? tags.split(',').map(tag => tag.trim()) : []`; empty pieces are
      kept. */
  function ParseTags(tags: string): seq<string> {
    if tags == "" then [] else TrimEach(Split(tags, ','))
  }

  /** Every parsed tag is trimmed and holds no comma; there is one tag more than
      there are commas, unless the text is empty. */
  lemma ParseTagsMeaning(tags: string)
    ensures forall k :: 0 <= k < |ParseTags(tags)| ==> ',' !in ParseTags(tags)[k] && Trimmed(ParseTags(tags)[k])
    ensures tags != "" ==> |ParseTags(tags)| == |Split(tags, ',')|
  {
    if tags != "" {
      SplitMeaning(tags, ',');
      var parts := Split(tags, ',');
      forall k | 0 <= k < |parts| ensures ',' !in Trim(parts[k]) {
        TrimKeepsChars(parts[k]);
      }
    }
  }

  /** A string with no white space at either end. */
  predicate Trimmed(s: string) {
    s == [] || (!IsSpace(s[0]) && !IsSpace(s[|s| - 1]))
  }

  /** `tags.join(', ')`, how the edit page shows a post's tags. */
  function JoinTags(tags: seq<string>): string {
    Join(tags, ", ")
  }

  /** Showing a post's tags and submitting them unchanged gives the same tags
      back, provided no tag holds a comma or surrounding white space and the
      list is not the single empty tag. */
  lemma TagsRoundTrip(tags: seq<string>)
    requires forall k :: 0 <= k < |tags| ==> ',' !in tags[k] && Trimmed(tags[k])
    requires tags != [""]
    ensures ParseTags(JoinTags(tags)) == tags
  {
    if tags != [] {
      var pieces := [tags[0]] + BlankPrefixed(tags[1..]);
      JoinWithBlank(tags, ',');
      assert forall k :: 0 <= k < |pieces| ==> ',' !in pieces[k] by {
        forall k | 0 <= k < |pieces| ensures ',' !in pieces[k] {
          if k > 0 {
            assert pieces[k] == [' '] + tags[k];
          }
        }
      }
      SplitJoin(pieces, ',');
      if |tags| > 1 {
        JoinCons(pieces[0], pieces[1..], ',');
        assert pieces[1..] == BlankPrefixed(tags[1..]);
      }
      assert JoinTags(tags) != "" by {
        if |tags| == 1 {
          assert JoinTags(tags) == tags[0];
        }
      }
      forall k | 0 <= k < |tags| ensures Trim(pieces[k]) == tags[k] {
        TrimOfTrimmed(tags[k]);
        if k > 0 {
          assert pieces[k] == [' '] + tags[k];
          TrimSpacePrefix(' ', tags[k]);
        }
      }
    }
  }

  /** The single empty tag does not survive: it is shown as "" and submitted
      as no tags at all. */
  lemma EmptyTagLost()
    ensures JoinTags([""]) == ""
    ensures ParseTags(JoinTags([""])) == []
  {
  }

  // ---------------------------------------------------------------------------
  // Loading a stored post into the edit form

  /** The fields of a post as the server returns it; `None` is a missing
      field. */
  datatype StoredPost = StoredPost(
    title: Option<string>,
    content: Option<string>,
    excerpt: Option<string>,
    category: Option<string>,
    tags: Option<seq<string>>,
    status: Option<string>,
    featuredImage: Option<FeaturedImage>)

  /** The form the edit page builds from a fetched post. */
  function LoadForm(p: StoredPost): PostForm {
    PostForm(
      OrElse(p.title, ""),
      OrElse(p.content, ""),
      OrElse(p.excerpt, ""),
      OrElse(p.category, "other"),
      if p.tags.None? then "" else JoinTags(p.tags.value),
      OrElse(p.status, "draft"),
      if p.featuredImage.None? then FeaturedImage("", "") else p.featuredImage.value)
  }

  /** A post with nothing in it loads as the create page's empty form. */
  lemma LoadDefaults()
    ensures LoadForm(StoredPost(None, None, None, None, None, None, None))
            == PostForm("", "", "", "other", "", "draft", FeaturedImage("", ""))
  {
  }

  /** Tags survive loading and submitting again under the conditions of
      `TagsRoundTrip`; a post with no tags at all submits an empty list. */
  lemma LoadedTagsResubmit(p: StoredPost)
    requires p.tags.Some? ==> p.tags.value != [""]
    requires p.tags.Some? ==> forall k :: 0 <= k < |p.tags.value| ==> ',' !in p.tags.value[k] && Trimmed(p.tags.value[k])
    ensures ParseTags(LoadForm(p).tags) == if p.tags.None? then [] else p.tags.value
  {
    if p.tags.Some? {
      TagsRoundTrip(p.tags.value);
    }
  }

  // ---------------------------------------------------------------------------
  // The client check against the server's

  /** The body the editor submits. */
  function SubmittedBody(f: PostForm): PostRoutes.PostBody {
    PostRoutes.PostBody(Some(f.title), Some(f.content), Some(f.excerpt), Some(f.category), Some(f.status),
                        Some(PostRoutes.TagArray(ParseTags(f.tags))))
  }

  /** A title and content the server accepts also pass the form. */
  lemma ServerTitleAndContentPassForm(f: PostForm)
    requires PostRoutes.TitleFits(Some(f.title)) && PostRoutes.ContentFits(Some(f.content))
    ensures FieldError(f, TitleField).None? && FieldError(f, ContentField).None?
  {
    TrimEmptyIffAllSpace(f.title);
    TrimEmptyIffAllSpace(f.content);
  }

  /** An excerpt the form accepts is also accepted by the server, which trims
      it first. */
  lemma FormExcerptPassesServer(f: PostForm)
    requires FieldError(f, ExcerptField).None?
    ensures PostRoutes.ExcerptFits(Some(f.excerpt))
  {
  }

  /** The form counts white space and the server does not: a four-letter
      title padded with blanks passes the form and is refused by the server. */
  lemma PaddedTitleSlipsThrough()
    ensures FieldError(PostForm("  abcd  ", "", "", "", "", "", FeaturedImage("", "")), TitleField).None?
    ensures !PostRoutes.TitleFits(Some("  abcd  "))
  {
    PostRoutes.PaddedTitleTrim();
  }

  /** The other way round: an excerpt of one letter followed by 200 blanks is
      refused by the form and accepted by the server. */
  lemma PaddedExcerptRefused()
    ensures FieldError(PostForm("", "", "a" + seq(200, _ => ' '), "", "", "", FeaturedImage("", "")), ExcerptField).Some?
    ensures PostRoutes.ExcerptFits(Some("a" + seq(200, _ => ' ')))
  {
  }
}
