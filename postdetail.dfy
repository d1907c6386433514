/** The post page of forumClient/src/composables/usePostDetail.ts: who sees the delete button,
    and the comment list as comments are added and removed. */
module PostDetail {

  import opened Base
  import AuthStore
  import Feed
  import Privilege

  /** A comment as the page lists it. */
  datatype Comment = Comment(id: int, content: string, userId: int, postId: int, createdAt: string,
                             authorUsername: string)

  /** `canDelete`: an authenticated store with a loaded user, a loaded post, and the user's id
      strictly equal to the post's `user_id`. */
  function CanDelete(isAuthenticated: bool, user: Option<AuthStore.User>, post: Option<Feed.Post>): (b: bool)
    ensures b ==> isAuthenticated && user.Some? && post.Some?
    ensures user.Some? && post.Some? ==> (b <==> isAuthenticated && user.value.id == post.value.userId)
  {
    isAuthenticated && user.Some? && post.Some? && user.value.id == post.value.userId
  }

  /** The button follows ownership only: an administrator or a moderator does not see it on
      another user's post, although the server's delete would let them remove it. */
  lemma ButtonHiddenFromModerators(isAuthenticated: bool, user: AuthStore.User, post: Feed.Post)
    requires user.role == "admin" || user.role == "moderator"
    requires user.id != post.userId
    ensures !CanDelete(isAuthenticated, Some(user), Some(post))
    ensures Privilege.HasPrivilege(Num(post.userId), Num(user.id), Str(user.role))
  {
  }

  /** `comments.filter(comment => comment.id !== id)`. */
  function Removed(comments: seq<Comment>, id: int): (r: seq<Comment>)
    ensures |r| <= |comments|
  {
    if comments == [] then []
    else
      var last := comments[|comments| - 1];
      Removed(comments[..|comments| - 1], id) + (if last.id == id then [] else [last])
  }

  /** The filter keeps exactly the comments with another id. */
  lemma {:induction false} RemovedMembers(comments: seq<Comment>, id: int)
    ensures forall c :: c in Removed(comments, id) <==> c in comments && c.id != id
    decreases |comments|
  {
    if comments != [] {
      var init := comments[..|comments| - 1];
      RemovedMembers(init, id);
      assert comments == init + [comments[|comments| - 1]];
    }
  }

  /** The filter keeps the order: it distributes over concatenation. */
  lemma {:induction false} RemovedAppend(a: seq<Comment>, b: seq<Comment>, id: int)
    ensures Removed(a + b, id) == Removed(a, id) + Removed(b, id)
    decreases |b|
  {
    if b != [] {
      var initB := b[..|b| - 1];
      assert (a + b)[..|a + b| - 1] == a + initB;
      assert (a + b)[|a + b| - 1] == b[|b| - 1];
      RemovedAppend(a, initB, id);
    } else {
      assert a + b == a;
    }
  }

  /** Removing an id no comment has leaves the list as it is. */
  lemma {:induction false} RemovedAbsent(comments: seq<Comment>, id: int)
    requires forall k :: 0 <= k < |comments| ==> comments[k].id != id
    ensures Removed(comments, id) == comments
    decreases |comments|
  {
    if comments != [] {
      var init := comments[..|comments| - 1];
      RemovedAbsent(init, id);
      assert comments == init + [comments[|comments| - 1]];
    }
  }

  /** Adding a comment under a fresh id and then removing that id restores the list. */
  lemma AddThenRemove(comments: seq<Comment>, c: Comment)
    requires forall k :: 0 <= k < |comments| ==> comments[k].id != c.id
    ensures Removed(comments + [c], c.id) == comments
  {
    assert (comments + [c])[..|comments|] == comments;
    RemovedAbsent(comments, c.id);
  }

  /** The page's comment list. */
  class CommentList {
    var comments: seq<Comment>

    constructor (comments: seq<Comment>)
      ensures this.comments == comments
    {
      this.comments := comments;
    }

    /** `addComment(newComment)`: pushed at the end; the others are untouched. */
    method AddComment(c: Comment)
      modifies this
      ensures comments == old(comments) + [c]
    {
      comments := comments + [c];
    }

    /** `removeComment(id)`: the list reassigned to its filter. */
    method RemoveComment(id: int)
      modifies this
      ensures comments == Removed(old(comments), id)
    {
      comments := Removed(comments, id);
    }
  }
}
