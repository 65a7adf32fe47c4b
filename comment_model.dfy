// The comment document of backend/models/Comment.js: the stored content rule,
// the status field with its default, the like list and its toggle, and the
// soft delete.

module CommentModel {
  import opened Common
  import opened JsText
  import Likes

  /** The `status` enum: 'active', 'hidden' or 'deleted'. */
  datatype Status = Active | Hidden | Deleted

  const MaxContentLength: nat := 1000

  /** The content the schema stores: the trimmed input, refused when it is
      empty after trimming (`required`) or longer than 1000 characters. */
  function StoredContent(raw: string): (r: Option<string>)
  {
    var t := Trim(raw);
    if t == [] || |t| > MaxContentLength then None else Some(t)
  }

  /** A comment is stored exactly when its trimmed content is non-blank and at
      most 1000 characters; what is stored is trimmed, non-empty and short
      enough, and has no white space at either end. */
  lemma StoredContentMeaning(raw: string)
    ensures StoredContent(raw).Some? <==> !AllSpace(raw) && |Trim(raw)| <= MaxContentLength
    ensures StoredContent(raw).Some? ==>
              var c := StoredContent(raw).value;
              0 < |c| <= MaxContentLength && !IsSpace(c[0]) && !IsSpace(c[|c| - 1])
              && TrimmedSliceOf(raw, c)
    ensures StoredContent(raw).Some? ==> StoredContent(StoredContent(raw).value) == StoredContent(raw)
  {
    TrimEmptyIffAllSpace(raw);
    var t := Trim(raw);
    if t != [] {
      TrimOfTrimmed(t);
    }
  }

  class Comment {
    var content: string
    var likes: seq<Likes.Like>
    var status: Status

    /** No user liked twice. */
    ghost predicate LikesValid()
      reads this`likes
    {
      Likes.OneLikeEach(likes)
    }

    /** A new comment, from content the schema accepts: no likes and status
        'active'. */
    constructor(content: string)
      requires StoredContent(content).Some?
      ensures this.content == StoredContent(content).value
      ensures likes == [] && status == Active
      ensures LikesValid()
    {
      this.content := Trim(content);
      likes := [];
      status := Active;
    }

    /** The `likeCount` virtual. */
    function LikeCount(): nat
      reads this`likes
    {
      |likes|
    }

    function HasUserLiked(userId: string): (r: bool)
      reads this`likes
      ensures r <==> exists i :: 0 <= i < |likes| && likes[i].user == userId
    {
      Likes.HasUserLiked(likes, userId)
    }

    /** `toggleLike(userId)`: unlike if liked, else like; `now` stands for
        `new Date()`. */
    method ToggleLike(userId: string, now: int)
      modifies this`likes
      ensures likes == Likes.Toggled(old(likes), userId, now)
      ensures HasUserLiked(userId) == !old(HasUserLiked(userId))
      ensures forall v :: v != userId ==> HasUserLiked(v) == old(HasUserLiked(v))
      ensures old(LikesValid()) ==> LikesValid() && LikeCount() == old(LikeCount()) + (if old(HasUserLiked(userId)) then -1 else 1)
    {
      Likes.ToggleFlips(likes, userId, now);
      if old(LikesValid()) {
        Likes.ToggleKeepsOneLikeEach(likes, userId, now);
      }
      var existingLike := Likes.HasUserLiked(likes, userId);
      if existingLike {
        likes := Likes.Unliked(likes, userId);
      } else {
        likes := likes + [Likes.Like(userId, now)];
      }
    }

    /** `softDelete()`: the status becomes 'deleted' whatever it was; content
        and likes stay, so a second call changes nothing more. */
    method SoftDelete()
      modifies this`status
      ensures status == Deleted
    {
      status := Deleted;
    }
  }
}
