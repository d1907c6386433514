/** The comment form of forumClient/src/composables/useCommentSubmit.ts: `submitComment`
    checks the text, sends it, and hands the new comment to the page. */
module CommentSubmit {

  import opened Base
  import opened Strings
  import AuthStore
  import PostDetail

  const CommentMaxLength := 1000

  const CommentEmpty := "Le commentaire ne peut pas être vide."
  const CommentTooLong := "Le commentaire ne doit pas dépasser 1000 caractères."
  const SendFailed := "Erreur lors de l'envoi du commentaire."
  const DefaultAuthor := "Vous"

  /** Nothing but white space: what `trim()` empties. */
  predicate AllSpace(s: string)
  {
    forall i :: 0 <= i < |s| ==> IsSpace(s[i])
  }

  /** The refusal `submitComment` makes before sending: a blank text (`!content.trim()`, which
      `BlankMeansTrimmedEmpty` relates to `Trim`), then the length of the text as typed,
      surrounding white space included. */
  function ContentError(content: string): (m: Option<string>)
    ensures m == Some(CommentEmpty) <==> AllSpace(content)
    ensures m == Some(CommentTooLong) <==> !AllSpace(content) && |content| > CommentMaxLength
    ensures m.None? <==> !AllSpace(content) && |content| <= CommentMaxLength
  {
    if AllSpace(content) then Some(CommentEmpty)
    else if |content| > CommentMaxLength then Some(CommentTooLong)
    else None
  }

  /** The blank test is `trim()` giving the empty string. */
  lemma BlankMeansTrimmedEmpty(content: string)
    ensures ContentError(content) == Some(CommentEmpty) <==> Trim(content) == ""
  {
    TrimEmpty(content);
  }

  class CommentForm {
    const postId: int
    const hasOnSuccess: bool
    var content: string
    var isLoading: bool
    var error: Option<string>
    ghost var delivered: seq<PostDetail.Comment>

    constructor (postId: int, hasOnSuccess: bool)
      ensures this.postId == postId && this.hasOnSuccess == hasOnSuccess
      ensures content == "" && !isLoading && error.None? && delivered == []
    {
      this.postId := postId;
      this.hasOnSuccess := hasOnSuccess;
      content := "";
      isLoading := false;
      error := None;
      delivered := [];
    }

    /** `submitComment()`, with the POST's reply as a parameter. A refused text sends nothing;
        on success the comment, with the user's name or 'Vous' as author, goes to `onSuccess`
        (when given) and the text is cleared; on failure the text stays and the message is the
        server's or the default. Loading is off at the end of a sent request. */
    method Submit(user: Option<AuthStore.User>, reply: Reply<PostDetail.Comment>) returns (sent: bool)
      modifies this
      ensures sent <==> ContentError(old(content)).None?
      ensures !sent ==> error == ContentError(old(content)) && content == old(content)
                        && delivered == old(delivered) && isLoading == old(isLoading)
      ensures sent ==> !isLoading
      ensures sent && reply.Success? ==>
        var author := if user.Some? then StrOr(Some(user.value.username), DefaultAuthor) else DefaultAuthor;
        && error.None? && content == ""
        && (hasOnSuccess ==> delivered == old(delivered) + [reply.data.(authorUsername := author)])
        && (!hasOnSuccess ==> delivered == old(delivered))
      ensures sent && reply.Failure? ==>
        error == Some(StrOr(reply.message, SendFailed)) && content == old(content) && delivered == old(delivered)
    {
      error := None;
      var refusal := ContentError(content);
      if refusal.Some? {
        error := refusal;
        return false;
      }
      isLoading := true;
      if reply.Success? {
        var author := if user.Some? then StrOr(Some(user.value.username), DefaultAuthor) else DefaultAuthor;
        var comment := reply.data.(authorUsername := author);
        if hasOnSuccess {
          delivered := delivered + [comment];
        }
        content := "";
      } else {
        error := Some(StrOr(reply.message, SendFailed));
      }
      isLoading := false;
      return true;
    }
  }
}
