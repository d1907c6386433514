/** The post form of forumClient/src/composables/useCreatePost.ts: `handleSubmit` checks the
    fields, sends the post, and on success records it with its tag and author names. */
module CreatePost {

  import opened Base
  import AuthStore
  import Feed

  const TitleMaxLength := 100
  const ContentMaxLength := 5000

  const FieldsMissing := "Veuillez remplir tous les champs."
  const TitleTooLong := "Le titre ne doit pas dépasser 100 caractères."
  const ContentTooLong := "Le contenu ne doit pas dépasser 5000 caractères."
  const CreateFailed := "Erreur lors de la création du post."

  /** The form: title, content and the chosen tag (`null` until one is chosen). */
  datatype NewPost = NewPost(title: string, content: string, tagId: Option<int>)

  const EmptyForm := NewPost("", "", None)

  datatype Tag = Tag(id: int, name: string)

  /** The post as the page keeps it: the response with the author's name, and the tag's name. */
  datatype CreatedPost = CreatedPost(post: Feed.Post, tagName: string)

  /** The refusal `handleSubmit` makes before sending, if any: emptiness first, then the title's
      length, then the content's. */
  function FormError(p: NewPost): (m: Option<string>)
    ensures m.None? <==>
      p.title != "" && p.content != "" && p.tagId.Some? && |p.title| <= TitleMaxLength && |p.content| <= ContentMaxLength
    ensures p.title == "" || p.content == "" || p.tagId.None? ==> m == Some(FieldsMissing)
    ensures m == Some(TitleTooLong) <==>
      p.title != "" && p.content != "" && p.tagId.Some? && |p.title| > TitleMaxLength
  {
    if p.title == "" || p.content == "" || p.tagId.None? then Some(FieldsMissing)
    else if |p.title| > TitleMaxLength then Some(TitleTooLong)
    else if |p.content| > ContentMaxLength then Some(ContentTooLong)
    else None
  }

  /** `tags.find(t => t.id === tagId)?.name || ''`. */
  function TagName(tags: seq<Tag>, tagId: Option<int>): (name: string)
    ensures name != "" ==> exists k :: 0 <= k < |tags| && Some(tags[k].id) == tagId && tags[k].name == name
    ensures (forall k :: 0 <= k < |tags| ==> Some(tags[k].id) != tagId) ==> name == ""
    ensures |tags| > 0 && Some(tags[0].id) == tagId ==> name == tags[0].name
  {
    if tags == [] then ""
    else if Some(tags[0].id) == tagId then tags[0].name
    else
      var rest := TagName(tags[1..], tagId);
      assert forall k :: 1 <= k < |tags| ==> tags[k] == tags[1..][k - 1];
      rest
  }

  /** The name is the one of the first tag with that id, wherever it stands. */
  lemma {:induction false} TagNameFirstMatch(tags: seq<Tag>, tagId: Option<int>, k: nat)
    requires k < |tags| && Some(tags[k].id) == tagId
    requires forall j :: 0 <= j < k ==> Some(tags[j].id) != tagId
    ensures TagName(tags, tagId) == tags[k].name
    decreases k
  {
    if k > 0 {
      var rest := tags[1..];
      assert forall j :: 0 <= j < k - 1 ==> rest[j] == tags[j + 1];
      TagNameFirstMatch(rest, tagId, k - 1);
    }
  }

  class PostForm {
    var newPost: NewPost
    var tags: seq<Tag>
    var isLoading: bool
    var error: Option<string>
    var createdPost: Option<CreatedPost>

    constructor (tags: seq<Tag>)
      ensures newPost == EmptyForm && this.tags == tags && !isLoading && error.None? && createdPost.None?
    {
      newPost := EmptyForm;
      this.tags := tags;
      isLoading := false;
      error := None;
      createdPost := None;
    }

    /** `handleSubmit()`, with the POST's reply as a parameter. A refused form sends nothing
        and shows its message; a sent form ends with loading off, and either records the post
        and empties the form, or keeps the form and shows the server's message or the default. */
    method HandleSubmit(user: Option<AuthStore.User>, reply: Reply<Feed.Post>) returns (sent: bool)
      modifies this
      ensures tags == old(tags)
      ensures sent <==> FormError(old(newPost)).None?
      ensures !sent ==> error == FormError(old(newPost)) && newPost == old(newPost)
                        && createdPost == old(createdPost) && isLoading == old(isLoading)
      ensures sent ==> !isLoading
      ensures sent && reply.Success? ==>
        && error.None? && newPost == EmptyForm
        && createdPost == Some(CreatedPost(
             reply.data.(authorUsername := if user.Some? then StrOr(Some(user.value.username), "") else ""),
             TagName(tags, old(newPost).tagId)))
      ensures sent && reply.Failure? ==>
        error == Some(StrOr(reply.message, CreateFailed)) && newPost == old(newPost) && createdPost == old(createdPost)
    {
      error := None;
      var refusal := FormError(newPost);
      if refusal.Some? {
        error := refusal;
        return false;
      }
      isLoading := true;
      if reply.Success? {
        var author := if user.Some? then StrOr(Some(user.value.username), "") else "";
        createdPost := Some(CreatedPost(reply.data.(authorUsername := author), TagName(tags, newPost.tagId)));
        newPost := EmptyForm;
      } else {
        error := Some(StrOr(reply.message, CreateFailed));
      }
      isLoading := false;
      return true;
    }
  }
}
