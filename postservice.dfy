/** The ownership-guarded post operations of forumApi/features/posts/post.service.js. The
    older forumApi/services/post.service.js reads a post and updates it the same way; its
    delete differs and is `LegacyPostService.DeleteUserPost`. */
module PostService {

  import opened Base
  import opened Errors
  import opened Tables
  import opened PostModel
  import Privilege

  const PostMissing := "Post non trouvé."
  const UpdateForbidden := "Vous n'êtes pas autorisé à modifier ce post."
  const DeleteForbidden := "Vous n'êtes pas autorisé à effectuer cette action."

  /** `getPostById(postId)` as written: the lookup is not awaited, so the test `!post` sees a
      pending Promise, which is truthy, and never throws; the caller receives whatever the
      lookup resolves to, `undefined` included. */
  function GetPostByIdAsWritten(rows: seq<Post>, postId: int): (r: Result<Option<Post>>)
    ensures r.Ok?
    ensures r.value.None? <==> forall j :: 0 <= j < |rows| ==> rows[j].id != postId
    ensures r.value.Some? ==> r.value.value.id == postId && r.value.value in rows
  {
    Ok(Lookup(rows, postId))
  }

  /** `getPostById(postId)` as intended, and as the older service awaits it: the post with that
      id, or NotFoundError. */
  function GetPostById(rows: seq<Post>, postId: int): (r: Result<Post>)
    ensures r.Err? <==> forall j :: 0 <= j < |rows| ==> rows[j].id != postId
    ensures r.Err? ==> r.error == NotFound(PostMissing)
    ensures r.Ok? ==> r.value.id == postId && r.value in rows
  {
    match Lookup(rows, postId)
    case None => Err(NotFound(PostMissing))
    case Some(p) => Ok(p)
  }

  /** For a missing post the code as written answers with no post instead of a 404. */
  lemma MissingPostNotReported(rows: seq<Post>, postId: int)
    requires forall j :: 0 <= j < |rows| ==> rows[j].id != postId
    ensures GetPostByIdAsWritten(rows, postId) == Ok(None)
    ensures StatusCodeOf(GetPostById(rows, postId).error) == Some(404)
  {
  }

  /** The two agree whenever the post exists. */
  lemma GetPostByIdAgrees(rows: seq<Post>, postId: int)
    requires GetPostById(rows, postId).Ok?
    ensures GetPostByIdAsWritten(rows, postId) == Ok(Some(GetPostById(rows, postId).value))
  {
  }

  /** `updateUserPost({postId, userId, postUpdates})`: NotFoundError first, then
      AuthorizationError for anyone but the owner (`!==`, no role exemption), else the update. */
  method UpdateUserPost(posts: Table<PostData>, postId: int, userId: Value, updates: PostData)
    returns (r: Result<Post>)
    requires posts.Valid()
    modifies posts
    ensures posts.Valid() && posts.nextId == old(posts.nextId)
    ensures r.Err? ==> posts.rows == old(posts.rows)
    ensures old(posts.Find(postId)).None? ==> r == Err(NotFound(PostMissing))
    ensures old(posts.Find(postId)).Some? && Num(old(posts.Find(postId)).value.owner) != userId ==>
      r == Err(Unauthorized(UpdateForbidden))
    ensures old(posts.Find(postId)).Some? && Num(old(posts.Find(postId)).value.owner) == userId ==>
      r == Ok(old(posts.Find(postId)).value.(data := updates))
      && posts.rows == SetData(old(posts.rows), postId, updates)
  {
    var post := posts.Find(postId);
    if post.None? {
      return Err(NotFound(PostMissing));
    }
    if Num(post.value.owner) != userId {
      return Err(Unauthorized(UpdateForbidden));
    }
    r := PostModel.Update(posts, postId, updates);
  }

  /** `deleteUserPost({postId, userId, userRole})`: NotFoundError first; the post goes exactly
      when `hasPrivilege(post.user_id, userId, userRole)`, and otherwise AuthorizationError
      leaves it in place. */
  method DeleteUserPost(posts: Table<PostData>, postId: int, userId: Value, userRole: Value)
    returns (r: Result<Value>)
    requires posts.Valid()
    modifies posts
    ensures posts.Valid() && posts.nextId == old(posts.nextId)
    ensures r.Err? ==> posts.rows == old(posts.rows)
    ensures old(posts.Find(postId)).None? ==> r == Err(NotFound(PostMissing))
    ensures old(posts.Find(postId)).Some? ==>
      (r.Ok? <==> Privilege.HasPrivilege(Num(old(posts.Find(postId)).value.owner), userId, userRole))
    ensures r.Err? && old(posts.Find(postId)).Some? ==> r == Err(Unauthorized(DeleteForbidden))
    ensures r.Ok? ==> r == Ok(Undefined) && posts.rows == Without(old(posts.rows), postId)
  {
    var post := posts.Find(postId);
    if post.None? {
      return Err(NotFound(PostMissing));
    }
    if Privilege.HasPrivilege(Num(post.value.owner), userId, userRole) {
      posts.Remove(postId);
      return Ok(Undefined);
    }
    return Err(Unauthorized(DeleteForbidden));
  }
}

/** The delete of the older forumApi/services/post.service.js: owner only, with its own
    message. */
module LegacyPostService {

  import opened Base
  import opened Errors
  import opened Tables
  import opened PostModel
  import PostService

  const DeleteForbidden := "Vous n'êtes pas autorisé à supprimer ce post."

  /** `deleteUserPost({postId, userId})`: NotFoundError first, then AuthorizationError for anyone
      but the owner, whatever their role; the owner's delete removes the post. */
  method DeleteUserPost(posts: Table<PostData>, postId: int, userId: Value) returns (r: Result<Value>)
    requires posts.Valid()
    modifies posts
    ensures posts.Valid() && posts.nextId == old(posts.nextId)
    ensures r.Err? ==> posts.rows == old(posts.rows)
    ensures old(posts.Find(postId)).None? ==> r == Err(NotFound(PostService.PostMissing))
    ensures old(posts.Find(postId)).Some? && Num(old(posts.Find(postId)).value.owner) != userId ==>
      r == Err(Unauthorized(DeleteForbidden))
    ensures old(posts.Find(postId)).Some? && Num(old(posts.Find(postId)).value.owner) == userId ==>
      r == Ok(Undefined) && posts.rows == Without(old(posts.rows), postId)
  {
    var post := posts.Find(postId);
    if post.None? {
      return Err(NotFound(PostService.PostMissing));
    }
    if Num(post.value.owner) != userId {
      return Err(Unauthorized(DeleteForbidden));
    }
    posts.Remove(postId);
    return Ok(Undefined);
  }
}

/** The comment operations; forumApi/features/comments/comment.service.js and the older
    forumApi/services/comment.service.js make the same checks in the same order. */
module CommentService {

  import opened Base
  import opened Errors
  import opened Tables
  import PostModel

  /** The columns of a comment besides `id` and `user_id`. */
  datatype CommentData = CommentData(postId: int, content: string)

  type Comment = Entry<CommentData>

  const PostMissing := "Le post que vous essayez de commenter n'existe pas."
  const CommentMissing := "Commentaire non trouvé."
  const UpdateForbidden := "Vous n'êtes pas autorisé à modifier ce commentaire."
  const DeleteForbidden := "Vous n'êtes pas autorisé à supprimer ce commentaire."

  /** `createComment({content, userId, postId})`: NotFoundError when the post does not exist,
      and nothing is created; otherwise the new comment, appended under a fresh id. */
  method CreateComment(posts: Table<PostModel.PostData>, comments: Table<CommentData>,
                       userId: int, postId: int, content: string) returns (r: Result<Comment>)
    requires posts.Valid() && comments.Valid()
    modifies comments
    ensures comments.Valid()
    ensures posts.Find(postId).None? ==>
      r == Err(NotFound(PostMissing)) && comments.rows == old(comments.rows) && comments.nextId == old(comments.nextId)
    ensures posts.Find(postId).Some? ==>
      && r == Ok(Entry(old(comments.nextId), userId, CommentData(postId, content)))
      && old(comments.Find(r.value.id)).None?
      && comments.rows == old(comments.rows) + [r.value]
  {
    if posts.Find(postId).None? {
      return Err(NotFound(PostMissing));
    }
    var created := comments.Insert(userId, CommentData(postId, content));
    return Ok(created);
  }

  /** `updateUserComment({commentId, userId, content})`: NotFoundError first, then
      AuthorizationError for anyone but the owner; the owner's update replaces the content, and
      every other comment reads back as before. */
  method UpdateUserComment(comments: Table<CommentData>, commentId: int, userId: Value, content: string)
    returns (r: Result<Comment>)
    requires comments.Valid()
    modifies comments
    ensures comments.Valid() && comments.nextId == old(comments.nextId)
    ensures r.Err? ==> comments.rows == old(comments.rows)
    ensures old(comments.Find(commentId)).None? ==> r == Err(NotFound(CommentMissing))
    ensures old(comments.Find(commentId)).Some? && Num(old(comments.Find(commentId)).value.owner) != userId ==>
      r == Err(Unauthorized(UpdateForbidden))
    ensures old(comments.Find(commentId)).Some? && Num(old(comments.Find(commentId)).value.owner) == userId ==>
      var c := old(comments.Find(commentId)).value;
      && r == Ok(c.(data := c.data.(content := content)))
      && comments.rows == SetData(old(comments.rows), commentId, c.data.(content := content))
      && forall other :: other != commentId ==> comments.Find(other) == old(comments.Find(other))
  {
    var comment := comments.Find(commentId);
    if comment.None? {
      return Err(NotFound(CommentMissing));
    }
    if Num(comment.value.owner) != userId {
      return Err(Unauthorized(UpdateForbidden));
    }
    var data := comment.value.data.(content := content);
    forall other | other != commentId
      ensures Lookup(SetData(comments.rows, commentId, data), other) == Lookup(comments.rows, other)
    {
      SetDataLookup(comments.rows, commentId, data, other);
    }
    var updated := comments.Update(commentId, data);
    return Ok(updated.value);
  }

  /** `deleteUserComment({commentId, userId})`: NotFoundError first, then AuthorizationError for
      anyone but the owner; the owner's delete removes the comment and resolves to
      `undefined`. */
  method DeleteUserComment(comments: Table<CommentData>, commentId: int, userId: Value)
    returns (r: Result<Value>)
    requires comments.Valid()
    modifies comments
    ensures comments.Valid() && comments.nextId == old(comments.nextId)
    ensures r.Err? ==> comments.rows == old(comments.rows)
    ensures old(comments.Find(commentId)).None? ==> r == Err(NotFound(CommentMissing))
    ensures old(comments.Find(commentId)).Some? && Num(old(comments.Find(commentId)).value.owner) != userId ==>
      r == Err(Unauthorized(DeleteForbidden))
    ensures old(comments.Find(commentId)).Some? && Num(old(comments.Find(commentId)).value.owner) == userId ==>
      r == Ok(Undefined) && comments.rows == Without(old(comments.rows), commentId)
  {
    var comment := comments.Find(commentId);
    if comment.None? {
      return Err(NotFound(CommentMissing));
    }
    if Num(comment.value.owner) != userId {
      return Err(Unauthorized(DeleteForbidden));
    }
    comments.Remove(commentId);
    return Ok(Undefined);
  }

  /** The author who creates a comment and then deletes it leaves the comment table as it was. */
  method CreateThenDelete(posts: Table<PostModel.PostData>, comments: Table<CommentData>,
                          userId: int, postId: int, content: string)
    requires posts.Valid() && comments.Valid() && posts.Find(postId).Some?
    modifies comments
    ensures comments.rows == old(comments.rows)
  {
    var created := CreateComment(posts, comments, userId, postId, content);
    WithoutAppended(old(comments.rows), created.value);
    LookupUnique(comments.rows, |comments.rows| - 1);
    var deleted := DeleteUserComment(comments, created.value.id, Num(userId));
  }
}
