/** The `posts` table access of forumApi/features/posts/post.model.js: the cursor page of
    `findAll` and the existence check of `update`. A post is a row of `Tables`. */
module PostModel {

  import opened Base
  import opened Strings
  import opened Errors
  import opened Tables

  /** The columns of a post besides `id` and `user_id`. */
  datatype PostData = PostData(title: string, content: string)

  type Post = Entry<PostData>

  const DefaultLimit := 10
  const MaxLimit := 50
  const PostNotFound := "Post not found"

  /** SQLSTATE 2201W: a negative row count in a LIMIT clause. */
  const NegativeLimit := DbError("2201W", "", "LIMIT must not be negative")

  function Min(a: int, b: int): int
  {
    if a <= b then a else b
  }

  /** `Math.min(parseInt(options.limit, 10) || 10, 50)`: NaN and 0 fall back to 10, the cap is
      50, and there is no lower bound. */
  function EffectiveLimit(limit: Value): (n: int)
    ensures n <= MaxLimit
    ensures ParseIntValue(limit).None? || ParseIntValue(limit) == Some(0) ==> n == DefaultLimit
    ensures ParseIntValue(limit).Some? && ParseIntValue(limit).value != 0 ==>
      n == Min(ParseIntValue(limit).value, MaxLimit)
    ensures n < 0 ==> ParseIntValue(limit) == Some(n)
  {
    var parsed := ParseIntValue(limit);
    Min(if parsed.None? || parsed.value == 0 then DefaultLimit else parsed.value, MaxLimit)
  }

  /** `options.cursor ? parseInt(options.cursor, 10) : null`, then `if (cursor)`: a cursor is
      used only when the option is truthy and parses to a non-zero number. */
  function Cursor(cursor: Value): (c: Option<int>)
    ensures c.Some? ==> Truthy(cursor) && ParseIntValue(cursor) == c && c.value != 0
    ensures c.None? ==> !Truthy(cursor) || ParseIntValue(cursor).None? || ParseIntValue(cursor) == Some(0)
  {
    if !Truthy(cursor) then None
    else
      var parsed := ParseIntValue(cursor);
      if parsed.None? || parsed.value == 0 then None else parsed
  }

  /** `p.id < $1`, where no cursor means no bound. */
  predicate Below(id: int, bound: Option<int>)
  {
    bound.None? || id < bound.value
  }

  /** The row with the highest id below the bound, if any. */
  function MaxBelow(rows: seq<Post>, bound: Option<int>): (m: Option<Post>)
    ensures m.Some? ==> m.value in rows && Below(m.value.id, bound)
    ensures m.Some? ==> forall k :: 0 <= k < |rows| && Below(rows[k].id, bound) ==> rows[k].id <= m.value.id
    ensures m.None? ==> forall k :: 0 <= k < |rows| ==> !Below(rows[k].id, bound)
  {
    if |rows| == 0 then None
    else
      var rest := MaxBelow(rows[1..], bound);
      assert forall k :: 1 <= k < |rows| ==> rows[k] == rows[1..][k - 1];
      if !Below(rows[0].id, bound) then rest
      else if rest.Some? && rest.value.id >= rows[0].id then rest
      else Some(rows[0])
  }

  /** `WHERE p.id < bound ORDER BY p.id DESC LIMIT n`. */
  function TakeDesc(rows: seq<Post>, bound: Option<int>, n: int): seq<Post>
    decreases n
  {
    if n <= 0 then []
    else
      match MaxBelow(rows, bound)
      case None => []
      case Some(m) => [m] + TakeDesc(rows, Some(m.id), n - 1)
  }

  /** Ids strictly decreasing. */
  predicate Descending(r: seq<Post>)
  {
    forall i, j :: 0 <= i < j < |r| ==> r[i].id > r[j].id
  }

  /** A page holds at most `n` rows of the table, all below the bound, ids descending. */
  lemma {:induction false} TakeDescSound(rows: seq<Post>, bound: Option<int>, n: int)
    ensures var r := TakeDesc(rows, bound, n);
      && |r| <= (if n < 0 then 0 else n)
      && Descending(r)
      && forall j :: 0 <= j < |r| ==> r[j] in rows && Below(r[j].id, bound)
    decreases n
  {
    if n > 0 && MaxBelow(rows, bound).Some? {
      var m := MaxBelow(rows, bound).value;
      TakeDescSound(rows, Some(m.id), n - 1);
      var r := TakeDesc(rows, bound, n);
      var tail := TakeDesc(rows, Some(m.id), n - 1);
      assert r == [m] + tail;
      forall j | 1 <= j < |r| ensures r[j] == tail[j - 1] && r[j].id < m.id {
        assert Below(tail[j - 1].id, Some(m.id));
      }
    }
  }

  /** Two different rows of a table with unique ids have different ids. */
  lemma DistinctRowsDistinctIds(rows: seq<Post>, a: Post, b: Post)
    requires UniqueIds(rows) && a in rows && b in rows && a != b
    ensures a.id != b.id
  {
    var i :| 0 <= i < |rows| && rows[i] == a;
    var j :| 0 <= j < |rows| && rows[j] == b;
    if i < j { assert rows[i].id != rows[j].id; }
    else { assert rows[j].id != rows[i].id; }
  }

  /** A page skips nothing: a row below the bound that is not on the page comes after every row
      on it, and then the page is full. */
  lemma {:induction false} TakeDescComplete(rows: seq<Post>, bound: Option<int>, n: int, row: Post)
    requires UniqueIds(rows) && n >= 0
    requires row in rows && Below(row.id, bound)
    ensures var r := TakeDesc(rows, bound, n);
      row in r || (|r| == n && forall j :: 0 <= j < |r| ==> row.id < r[j].id)
    decreases n
  {
    if n > 0 {
      var m := MaxBelow(rows, bound).value;
      var r := TakeDesc(rows, bound, n);
      var tail := TakeDesc(rows, Some(m.id), n - 1);
      assert r == [m] + tail;
      if row != m {
        DistinctRowsDistinctIds(rows, row, m);
        TakeDescComplete(rows, Some(m.id), n - 1, row);
        if row !in tail {
          forall j | 0 <= j < |r| ensures row.id < r[j].id {
            if j > 0 { assert r[j] == tail[j - 1]; }
          }
        }
      }
    }
  }

  /** `findAll(options)`: the first page (no usable cursor) or the page after the cursor, in
      descending id order; a negative limit reaches the database, which refuses it. */
  function FindAll(rows: seq<Post>, limit: Value, cursor: Value): (r: Result<seq<Post>>)
    ensures r.Err? <==> EffectiveLimit(limit) < 0
    ensures r.Err? ==> r.error == NegativeLimit
    ensures r.Ok? ==> r.value == TakeDesc(rows, Cursor(cursor), EffectiveLimit(limit))
  {
    var n := EffectiveLimit(limit);
    if n < 0 then Err(NegativeLimit) else Ok(TakeDesc(rows, Cursor(cursor), n))
  }

  /** What a page of `findAll` is: at most the limit, at most 50, ids descending, all below the
      cursor, and every row below the cursor that it leaves out lies beyond a full page. */
  lemma FindAllPage(rows: seq<Post>, limit: Value, cursor: Value, row: Post)
    requires UniqueIds(rows) && FindAll(rows, limit, cursor).Ok?
    ensures var r := FindAll(rows, limit, cursor).value;
      && |r| <= EffectiveLimit(limit) <= MaxLimit
      && Descending(r)
      && (forall j :: 0 <= j < |r| ==> r[j] in rows && Below(r[j].id, Cursor(cursor)))
      && (row in rows && Below(row.id, Cursor(cursor)) && row !in r ==>
            |r| == EffectiveLimit(limit) && forall j :: 0 <= j < |r| ==> row.id < r[j].id)
  {
    var n := EffectiveLimit(limit);
    TakeDescSound(rows, Cursor(cursor), n);
    if row in rows && Below(row.id, Cursor(cursor)) {
      TakeDescComplete(rows, Cursor(cursor), n, row);
    }
  }

  /** The cursor "0" and an absent cursor both give the first page. */
  lemma ZeroCursorIsFirstPage(rows: seq<Post>, limit: Value)
    ensures FindAll(rows, limit, Str("0")) == FindAll(rows, limit, Undefined)
  {
    assert LeadingDigits("0") == "0";
  }

  /** `update(id, {title, content})`: inside its transaction, no locked row throws
      'Post not found' and changes nothing; otherwise title and content are replaced. */
  method Update(posts: Table<PostData>, id: int, data: PostData) returns (r: Result<Post>)
    requires posts.Valid()
    modifies posts
    ensures posts.Valid() && posts.nextId == old(posts.nextId)
    ensures old(posts.Find(id)).None? ==> r == Err(PlainError(PostNotFound)) && posts.rows == old(posts.rows)
    ensures old(posts.Find(id)).Some? ==>
      r == Ok(old(posts.Find(id)).value.(data := data)) && posts.rows == SetData(old(posts.rows), id, data)
  {
    if posts.Find(id).None? {
      return Err(PlainError(PostNotFound));
    }
    var updated := posts.Update(id, data);
    return Ok(updated.value);
  }
}

/** `findAll` of the older forumApi/models/post.model.js: page and limit become LIMIT and
    OFFSET over the posts in `created_at DESC` order, which the database supplies. */
module LegacyPostModel {

  import opened Base
  import opened Strings
  import opened Errors
  import PostModel

  /** SQLSTATE 2201X: a negative row count in an OFFSET clause. */
  const NegativeOffset := DbError("2201X", "", "OFFSET must not be negative")

  /** `parseInt(v, 10) || fallback`. */
  function IntOr(v: Value, fallback: int): (n: int)
    ensures n != 0 || fallback == 0
    ensures ParseIntValue(v).Some? && ParseIntValue(v).value != 0 ==> n == ParseIntValue(v).value
    ensures ParseIntValue(v).None? || ParseIntValue(v) == Some(0) ==> n == fallback
  {
    var parsed := ParseIntValue(v);
    if parsed.None? || parsed.value == 0 then fallback else parsed.value
  }

  /** The LIMIT and OFFSET sent: the offset uses the uncapped limit, the LIMIT is capped at 50. */
  function PageParams(page: Value, limit: Value): (p: (int, int))
    ensures p.0 <= PostModel.MaxLimit
    ensures p.1 == (IntOr(page, 1) - 1) * IntOr(limit, 10)
    ensures p.0 == PostModel.Min(IntOr(limit, 10), PostModel.MaxLimit)
  {
    var pg := IntOr(page, 1);
    var l := IntOr(limit, 10);
    (PostModel.Min(l, PostModel.MaxLimit), (pg - 1) * l)
  }

  /** `LIMIT $1 OFFSET $2` over the ordered posts; the database refuses a negative offset before
      a negative limit. */
  function FindAll<T>(ordered: seq<T>, page: Value, limit: Value): (r: Result<seq<T>>)
    ensures var (n, offset) := PageParams(page, limit);
      && (offset < 0 ==> r == Err(NegativeOffset))
      && (offset >= 0 && n < 0 ==> r == Err(PostModel.NegativeLimit))
      && (offset >= 0 && n >= 0 ==>
            (&& r.Ok?
             && |r.value| == (if offset >= |ordered| then 0 else PostModel.Min(n, |ordered| - offset))
             && forall j :: 0 <= j < |r.value| ==> r.value[j] == ordered[offset + j]))
  {
    var (n, offset) := PageParams(page, limit);
    Window(ordered, n, offset)
  }

  /** `LIMIT n OFFSET offset` over a sequence. */
  function Window<T>(ordered: seq<T>, n: int, offset: int): (r: Result<seq<T>>)
    ensures offset < 0 ==> r == Err(NegativeOffset)
    ensures offset >= 0 && n < 0 ==> r == Err(PostModel.NegativeLimit)
    ensures offset >= 0 && n >= 0 ==>
      && r.Ok?
      && |r.value| == (if offset >= |ordered| then 0 else PostModel.Min(n, |ordered| - offset))
      && forall j :: 0 <= j < |r.value| ==> r.value[j] == ordered[offset + j]
  {
    if offset < 0 then Err(NegativeOffset)
    else if n < 0 then Err(PostModel.NegativeLimit)
    else if offset >= |ordered| then Ok([])
    else Ok(ordered[offset..offset + PostModel.Min(n, |ordered| - offset)])
  }

  /** A limit above 50 skips rows: page p ends 50 rows after its offset, while page p + 1
      starts `limit` rows after it. */
  lemma LargeLimitSkips<T>(ordered: seq<T>, p: int, l: int)
    requires p >= 1 && l > PostModel.MaxLimit && |ordered| >= (p + 1) * l
    ensures FindAll(ordered, Num(p), Num(l)) == Ok(ordered[(p - 1) * l .. (p - 1) * l + PostModel.MaxLimit])
    ensures FindAll(ordered, Num(p + 1), Num(l)).Ok?
    ensures |FindAll(ordered, Num(p + 1), Num(l)).value| == PostModel.MaxLimit
    ensures FindAll(ordered, Num(p + 1), Num(l)).value[0] == ordered[p * l]
    ensures (p - 1) * l + PostModel.MaxLimit < p * l
  {
    assert (p + 1 - 1) * l == p * l;
    assert p * l <= (p + 1) * l - l;
    assert (p - 1) * l + l == p * l;
  }
}
