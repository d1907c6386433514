/** The post list of forumClient/src/composables/usePosts.ts: `fetchPosts` builds the request
    parameters from the filters and the cursor, then appends the page it receives. The request
    itself is replaced by its response, given as a parameter (`None` when it fails). */
module Feed {

  import opened Base

  /** A post as the list shows it. */
  datatype Post = Post(id: int, title: string, content: string, userId: int, createdAt: string, authorUsername: string)

  /** The query parameters of `GET /posts`. */
  datatype Params = Params(limit: int, order: string, cursorCreatedAt: Option<string>, cursorId: Option<int>,
                           titleSearch: Option<string>, tag: Option<int>)

  /** The body of a successful response. */
  datatype Page = Page(posts: seq<Post>, hasMore: bool)

  const PostsPerPage := 10
  const LoadFailed := "Impossible de charger les posts."

  /** The parameters sent: always the page size and the order; the cursor pair only when both
      halves are truthy; the title search only when non-empty; the tag only when truthy. */
  function RequestParams(cursorCreatedAt: Option<string>, cursorId: Option<int>, search: string,
                         tag: Option<int>, order: string): (p: Params)
    ensures p.limit == PostsPerPage && p.order == order
    ensures p.cursorCreatedAt.Some? <==>
      cursorCreatedAt.Some? && cursorCreatedAt.value != "" && cursorId.Some? && cursorId.value != 0
    ensures p.cursorCreatedAt.Some? ==> p.cursorCreatedAt == cursorCreatedAt && p.cursorId == cursorId
    ensures p.cursorCreatedAt.None? ==> p.cursorId.None?
    ensures p.titleSearch.Some? <==> search != ""
    ensures p.titleSearch.Some? ==> p.titleSearch.value == search
    ensures p.tag.Some? <==> tag.Some? && tag.value != 0
    ensures p.tag.Some? ==> p.tag == tag
  {
    var withCursor := cursorCreatedAt.Some? && cursorCreatedAt.value != "" && cursorId.Some? && cursorId.value != 0;
    Params(PostsPerPage, order,
           if withCursor then cursorCreatedAt else None,
           if withCursor then cursorId else None,
           if search != "" then Some(search) else None,
           if tag.Some? && tag.value != 0 then tag else None)
  }

  class PostFeed {
    var posts: seq<Post>
    var isLoading: bool
    var error: Option<string>
    var searchQuery: string
    var selectedTag: Option<int>
    var sortOrder: string
    var lastCursorCreatedAt: Option<string>
    var lastCursorId: Option<int>
    var hasMorePosts: bool

    constructor ()
      ensures posts == [] && !isLoading && error.None? && hasMorePosts
      ensures searchQuery == "" && selectedTag.None? && sortOrder == "DESC"
      ensures lastCursorCreatedAt.None? && lastCursorId.None?
    {
      posts := [];
      isLoading := false;
      error := None;
      searchQuery := "";
      selectedTag := None;
      sortOrder := "DESC";
      lastCursorCreatedAt := None;
      lastCursorId := None;
      hasMorePosts := true;
    }

    /** `fetchPosts(reset)`. A call while a fetch is in flight and without `reset` does nothing.
        Otherwise the reset (if asked) empties the list and the cursor, the parameters are built
        from the state after it, and then: on success the page is appended in order and the
        cursor moves to its last post when it has one; on failure the message is set and the
        list and cursor stay. Loading is over on every exit. */
    method FetchPosts(reset: bool, response: Option<Page>) returns (sent: Option<Params>)
      modifies this
      ensures old(isLoading) && !reset ==> sent.None? && unchanged(this)
      ensures !(old(isLoading) && !reset) ==>
        && searchQuery == old(searchQuery) && selectedTag == old(selectedTag) && sortOrder == old(sortOrder)
        && !isLoading
        && sent == Some(RequestParams(if reset then None else old(lastCursorCreatedAt),
                                      if reset then None else old(lastCursorId),
                                      searchQuery, selectedTag, sortOrder))
      ensures !(old(isLoading) && !reset) && response.None? ==>
        && error == Some(LoadFailed)
        && posts == (if reset then [] else old(posts))
        && lastCursorCreatedAt == (if reset then None else old(lastCursorCreatedAt))
        && lastCursorId == (if reset then None else old(lastCursorId))
        && hasMorePosts == (reset || old(hasMorePosts))
      ensures !(old(isLoading) && !reset) && response.Some? ==>
        && error.None?
        && posts == (if reset then [] else old(posts)) + response.value.posts
        && hasMorePosts == response.value.hasMore
      ensures !(old(isLoading) && !reset) && response.Some? && response.value.posts == [] ==>
        && lastCursorCreatedAt == (if reset then None else old(lastCursorCreatedAt))
        && lastCursorId == (if reset then None else old(lastCursorId))
      ensures !(old(isLoading) && !reset) && response.Some? && response.value.posts != [] ==>
        var last := response.value.posts[|response.value.posts| - 1];
        lastCursorCreatedAt == Some(last.createdAt) && lastCursorId == Some(last.id)
    {
      if isLoading && !reset {
        return None;
      }
      isLoading := true;
      error := None;
      if reset {
        posts := [];
        lastCursorCreatedAt := None;
        lastCursorId := None;
        hasMorePosts := true;
      }
      var params := RequestParams(lastCursorCreatedAt, lastCursorId, searchQuery, selectedTag, sortOrder);
      sent := Some(params);
      if response.None? {
        error := Some(LoadFailed);
      } else {
        var newPosts := response.value.posts;
        posts := posts + newPosts;
        hasMorePosts := response.value.hasMore;
        if |newPosts| > 0 {
          var lastPost := newPosts[|newPosts| - 1];
          lastCursorCreatedAt := Some(lastPost.createdAt);
          lastCursorId := Some(lastPost.id);
        }
      }
      isLoading := false;
    }
  }

  /** Paging through the list: after a reset that receives a page whose last post has a date
      and a non-zero id, the next fetch asks for what comes after that post, and what it
      receives lands after the first page. */
  method NextPageFollows(feed: PostFeed, first: Page, second: Option<Page>) returns (sent: Option<Params>)
    requires first.posts != []
    requires first.posts[|first.posts| - 1].createdAt != "" && first.posts[|first.posts| - 1].id != 0
    modifies feed
    ensures var last := first.posts[|first.posts| - 1];
      sent.Some? && sent.value.cursorCreatedAt == Some(last.createdAt) && sent.value.cursorId == Some(last.id)
    ensures second.Some? ==> feed.posts == first.posts + second.value.posts
  {
    var _ := feed.FetchPosts(true, Some(first));
    sent := feed.FetchPosts(false, second);
  }
}
