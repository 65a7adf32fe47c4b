// The like lists of blog posts and comments. Both documents keep an array of
// `{user, likedAt}` entries and toggle it the same way
// (backend/models/BlogPost.js:187-207, backend/models/Comment.js:68-83).

module Likes {

  /** One entry of a `likes` array: who liked, and when. */
  datatype Like = Like(user: string, likedAt: int)

  /** `likes.some(like => like.user === userId)`. */
  function HasUserLiked(likes: seq<Like>, u: string): (r: bool)
    ensures r <==> exists i :: 0 <= i < |likes| && likes[i].user == u
  {
    if likes == [] then false
    else if likes[0].user == u then true
    else
      var r := HasUserLiked(likes[1..], u);
      assert forall i :: 1 <= i < |likes| ==> likes[i] == likes[1..][i - 1];
      r
  }

  /** `likes.filter(like => like.user !== userId)`: every entry of another user,
      in the original order. */
  function Unliked(likes: seq<Like>, u: string): (r: seq<Like>)
    ensures forall l :: l in r <==> l in likes && l.user != u
    ensures |r| <= |likes|
  {
    if likes == [] then []
    else if likes[0].user == u then Unliked(likes[1..], u)
    else [likes[0]] + Unliked(likes[1..], u)
  }

  /** No user appears in two entries. */
  predicate OneLikeEach(likes: seq<Like>) {
    forall i, j :: 0 <= i < j < |likes| ==> likes[i].user != likes[j].user
  }

  /** The list after `toggleLike(u)` at time `now`: all of `u`'s entries removed
      if there is one, otherwise one entry for `u` appended. */
  function Toggled(likes: seq<Like>, u: string, now: int): seq<Like> {
    if HasUserLiked(likes, u) then Unliked(likes, u) else likes + [Like(u, now)]
  }

  /** Filtering out a user who never liked changes nothing. */
  lemma {:induction false} UnlikedAbsent(likes: seq<Like>, u: string)
    requires !HasUserLiked(likes, u)
    ensures Unliked(likes, u) == likes
  {
    if likes != [] {
      assert forall i :: 0 <= i < |likes[1..]| ==> likes[1..][i] == likes[i + 1];
      UnlikedAbsent(likes[1..], u);
      assert [likes[0]] + likes[1..] == likes;
    }
  }

  /** With one entry per user, filtering out a user who liked removes exactly
      one entry and keeps one entry per user. */
  lemma {:induction false} UnlikedOne(likes: seq<Like>, u: string)
    requires OneLikeEach(likes) && HasUserLiked(likes, u)
    ensures |Unliked(likes, u)| == |likes| - 1
    ensures OneLikeEach(Unliked(likes, u))
  {
    var rest := likes[1..];
    assert OneLikeEach(rest) by {
      forall i, j | 0 <= i < j < |rest| ensures rest[i].user != rest[j].user {
        assert rest[i] == likes[i + 1] && rest[j] == likes[j + 1];
      }
    }
    if likes[0].user == u {
      assert forall i :: 0 <= i < |rest| ==> rest[i] == likes[i + 1];
      UnlikedAbsent(rest, u);
    } else {
      assert HasUserLiked(rest, u) by {
        var i :| 0 <= i < |likes| && likes[i].user == u;
        assert rest[i - 1].user == u;
      }
      UnlikedOne(rest, u);
      var r := [likes[0]] + Unliked(rest, u);
      forall i, j | 0 <= i < j < |r| ensures r[i].user != r[j].user {
        if i == 0 {
          assert r[j] in Unliked(rest, u);
          assert r[j] in rest;
          var k :| 0 <= k < |rest| && rest[k] == r[j];
          assert likes[k + 1] == r[j];
        }
      }
    }
  }

  /** Toggling flips whether `u` has liked and leaves every other user's like
      as it was. */
  lemma ToggleFlips(likes: seq<Like>, u: string, now: int)
    ensures HasUserLiked(Toggled(likes, u, now), u) == !HasUserLiked(likes, u)
    ensures forall v :: v != u ==> HasUserLiked(Toggled(likes, u, now), v) == HasUserLiked(likes, v)
  {
    var r := Toggled(likes, u, now);
    if HasUserLiked(likes, u) {
      forall v | v != u ensures HasUserLiked(r, v) == HasUserLiked(likes, v) {
        if HasUserLiked(likes, v) {
          var i :| 0 <= i < |likes| && likes[i].user == v;
          assert likes[i] in r;
        }
        if HasUserLiked(r, v) {
          var i :| 0 <= i < |r| && r[i].user == v;
          assert r[i] in likes;
        }
      }
    } else {
      assert r[|likes|].user == u;
      forall v | v != u ensures HasUserLiked(r, v) == HasUserLiked(likes, v) {
        if HasUserLiked(likes, v) {
          var i :| 0 <= i < |likes| && likes[i].user == v;
          assert r[i] == likes[i];
        }
      }
    }
  }

  /** If every user liked at most once before a toggle, that still holds after
      it, and the list grew or shrank by exactly one entry. */
  lemma ToggleKeepsOneLikeEach(likes: seq<Like>, u: string, now: int)
    requires OneLikeEach(likes)
    ensures OneLikeEach(Toggled(likes, u, now))
    ensures |Toggled(likes, u, now)| == |likes| + (if HasUserLiked(likes, u) then -1 else 1)
  {
    if HasUserLiked(likes, u) {
      UnlikedOne(likes, u);
    }
  }

  /** Liking and then unliking restores the list exactly. */
  lemma ToggleTwice(likes: seq<Like>, u: string, t1: int, t2: int)
    requires !HasUserLiked(likes, u)
    ensures Toggled(Toggled(likes, u, t1), u, t2) == likes
  {
    var once := likes + [Like(u, t1)];
    assert HasUserLiked(once, u) by {
      assert once[|likes|].user == u;
    }
    UnlikedAppend(likes, Like(u, t1), u);
    UnlikedAbsent(likes, u);
  }

  lemma {:induction false} UnlikedAppend(likes: seq<Like>, l: Like, u: string)
    requires l.user == u
    ensures Unliked(likes + [l], u) == Unliked(likes, u)
  {
    if likes == [] {
      assert [l][1..] == [];
    } else {
      assert (likes + [l])[1..] == likes[1..] + [l];
      UnlikedAppend(likes[1..], l, u);
    }
  }
  /** Filtering keeps order: unliking from a concatenation unlikes from each
      part and concatenates the results. With UnlikedSingle this fixes the
      result element by element. */
  lemma {:induction false} UnlikedConcat(a: seq<Like>, b: seq<Like>, u: string)
    ensures Unliked(a + b, u) == Unliked(a, u) + Unliked(b, u)
  {
    if a == [] {
      assert a + b == b;
    } else {
      assert (a + b)[0] == a[0];
      assert (a + b)[1..] == a[1..] + b;
      UnlikedConcat(a[1..], b, u);
    }
  }

  /** One like survives exactly when it is not the user's. */
  lemma UnlikedSingle(l: Like, u: string)
    ensures Unliked([l], u) == if l.user == u then [] else [l]
  {
    assert [l][1..] == [];
  }
}
