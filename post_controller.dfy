/**
 * The HTTP layer of the post API (controllers/post.controller.go): how the
 * query string becomes page, limit and filters, and how the service's
 * outcome (switched on by its error text) becomes a status code and a reply.
 */
module PostController {
  import opened Common
  import opened PostModel
  import opened PostService
  import opened Pagination
  import opened StrConv
  import opened Http

  /**
   * A positive integer query value with a default, as `page` and `limit`
   * are read: `raw` is `None` when the parameter is absent; a value that is
   * not an int64 in decimal, or is below 1, is replaced by the default.
   */
  function PositiveParam(raw: Option<string>, default: int): (n: int)
    requires default >= 1
    ensures n >= 1
    ensures var parsed := Atoi(raw.GetOr(Itoa(default)));
      && (parsed.Some? && parsed.value >= 1 ==> n == parsed.value)
      && (parsed.None? || parsed.value < 1 ==> n == default)
  {
    match Atoi(raw.GetOr(Itoa(default)))
    case Some(m) => if m < 1 then default else m
    case None => default
  }

  const DefaultPage: int := 1
  const DefaultLimit: int := 10

  /** `page`: 1 when absent, malformed or below 1. */
  function PageParam(raw: Option<string>): (page: int)
    ensures page >= 1
  {
    PositiveParam(raw, DefaultPage)
  }

  /** `limit`: 10 when absent, malformed or below 1. */
  function LimitParam(raw: Option<string>): (limit: int)
    ensures limit >= 1
  {
    PositiveParam(raw, DefaultLimit)
  }

  /** Every positive int64 written in decimal is taken as it is; absence gives the default. */
  lemma PositiveParamReads(n: int, default: int)
    requires default >= 1 && IsInt64(default)
    requires IsInt64(n) && n >= 1
    ensures PositiveParam(Some(Itoa(n)), default) == n
    ensures PositiveParam(None, default) == default
  {
    AtoiItoa(n);
    AtoiItoa(default);
  }

  /** A value below 1 or one that is not an integer falls back to the default. */
  lemma PositiveParamRejects(raw: string, default: int)
    requires default >= 1
    requires Atoi(raw).None? || Atoi(raw).value < 1
    ensures PositiveParam(Some(raw), default) == default
  {
  }

  /** Whatever the query string, the service is asked for a non-negative offset and a positive limit. */
  lemma NormalisedOffsetNonNegative(pageRaw: Option<string>, limitRaw: Option<string>)
    ensures var page := PageParam(pageRaw);
      var limit := LimitParam(limitRaw);
      && limit >= 1 && Offset(page, limit) >= 0
      && (IsInt64((page - 1) * limit) ==> OffsetAsWritten(page, limit) == Offset(page, limit))
  {
  }

  /** The `published` filter: empty is no filter; anything else filters on "is it exactly true". */
  function PublishedQuery(raw: string): (r: Option<bool>)
    ensures r.None? <==> raw == ""
    ensures r.Some? ==> (r.value <==> raw == "true")
  {
    if raw != "" then Some(raw == "true") else None
  }

  /** The `category_id` filter: empty is no filter. */
  function CategoryQuery(raw: string): (r: Option<string>)
    ensures r.None? <==> raw == ""
    ensures r.Some? ==> r.value == raw
  {
    if raw != "" then Some(raw) else None
  }

  /** The listing reply: the page of posts and the pagination block. */
  datatype Listed = Listed(posts: seq<Post>, page: int, limit: int, total: nat)

  /**
   * `FindPosts`: the normalised page and limit, the filters, and either
   * 200 with the page and its pagination or 502 with the service's error.
   */
  function FindPostsReply(posts: Posts, order: seq<Id>, pageRaw: Option<string>, limitRaw: Option<string>,
                          publishedRaw: string, categoryRaw: string,
                          parseId: string -> Option<Id>): (reply: Reply<Listed>)
    requires KeyedById(posts) && IsPostScan(posts, order)
    ensures reply.Success? ==>
      && reply.code == StatusOK
      && reply.data.page == PageParam(pageRaw) && reply.data.limit == LimitParam(limitRaw)
      && |reply.data.posts| <= reply.data.limit && reply.data.total <= |posts|
    ensures reply.Failure? <==> categoryRaw != "" && parseId(categoryRaw).None?
    ensures reply.Failure? ==> reply == BadGateway(PostMessage(PostStorageError("count posts")))
    ensures reply.Success? ==>
      var matching := FilterPosts(ScanPosts(posts, order), PublishedQuery(publishedRaw),
                                  if categoryRaw != "" then parseId(categoryRaw) else None);
      && reply.data.posts == Window(matching, OffsetAsWritten(PageParam(pageRaw), LimitParam(limitRaw)), LimitParam(limitRaw))
      && reply.data.total == |matching|
    ensures StatusMatchesCode(reply)
  {
    var page := PageParam(pageRaw);
    var limit := LimitParam(limitRaw);
    match FindPosts(posts, order, page, limit, PublishedQuery(publishedRaw), CategoryQuery(categoryRaw), parseId)
    case Ok(p) => Success(StatusOK, Listed(p.posts, page, limit, p.total))
    case Err(e) => BadGateway(PostMessage(e))
  }

  /**
   * `SearchPosts`: an empty `q` is answered 400 before any search;
   * otherwise the published posts that match, one normalised page of them.
   */
  function SearchPostsReply(posts: Posts, order: seq<Id>, q: string, matches: Post -> bool,
                            pageRaw: Option<string>, limitRaw: Option<string>): (reply: Reply<Listed>)
    requires KeyedById(posts) && IsPostScan(posts, order)
    ensures reply.Failure? <==> q == ""
    ensures reply.Failure? ==> reply == Fail(StatusBadRequest, "search query is required")
    ensures reply.Success? ==>
      && reply.code == StatusOK
      && reply.data.page == PageParam(pageRaw) && reply.data.limit == LimitParam(limitRaw)
      && |reply.data.posts| <= reply.data.limit
      && forall p :: p in reply.data.posts ==> p.published && matches(p)
    ensures reply.Success? ==>
      var hits := SearchHits(ScanPosts(posts, order), matches);
      && reply.data.posts == Window(hits, OffsetAsWritten(PageParam(pageRaw), LimitParam(limitRaw)), LimitParam(limitRaw))
      && reply.data.total == |hits|
    ensures StatusMatchesCode(reply)
  {
    if q == "" then Fail(StatusBadRequest, "search query is required")
    else
      var page := PageParam(pageRaw);
      var limit := LimitParam(limitRaw);
      var r := SearchPosts(posts, order, matches, page, limit);
      Success(StatusOK, Listed(r.posts, page, limit, r.total))
  }

  /** `CreatePost`: the duplicate text is 409, anything else 502. */
  function CreatePostReply(outcome: Result<Post, PostError>): (reply: Reply<Post>)
    ensures outcome.Ok? ==> reply == Success(StatusCreated, outcome.value)
    ensures outcome.Err? ==> reply.Failure? && reply.message == PostMessage(outcome.error)
    ensures outcome.Err? ==> (reply.code == StatusConflict <==> outcome.error == DuplicatePost)
    ensures outcome.Err? && outcome.error != DuplicatePost ==> reply.code == StatusBadGateway
    ensures StatusMatchesCode(reply)
  {
    match outcome
    case Ok(p) => Success(StatusCreated, p)
    case Err(e) =>
      var m := PostMessage(e);
      PostMessageIs(e, DuplicatePost);
      if m == DuplicatePostText then Fail(StatusConflict, m) else BadGateway(m)
  }

  /**
   * `FindPostById`, `FindPostBySlug`, and `UpdatePost` with the status word
   * every other handler uses: 200, the not-found text is 404, anything
   * else 502.
   */
  function PostReply(outcome: Result<Post, PostError>): (reply: Reply<Post>)
    ensures outcome.Ok? ==> reply == Success(StatusOK, outcome.value)
    ensures outcome.Err? ==> reply.Failure? && reply.message == PostMessage(outcome.error)
    ensures outcome.Err? ==> (reply.code == StatusNotFound <==> outcome.error == PostNotFound)
    ensures outcome.Err? && outcome.error != PostNotFound ==> reply.code == StatusBadGateway
    ensures StatusMatchesCode(reply)
  {
    match outcome
    case Ok(p) => Success(StatusOK, p)
    case Err(e) =>
      var m := PostMessage(e);
      PostMessageIs(e, PostNotFound);
      if m == PostNotFoundText then Fail(StatusNotFound, m) else BadGateway(m)
  }

  /** `UpdatePost` as written: the not-found text is 404 and anything else 502, both with status "fail". */
  function UpdatePostReplyAsWritten(outcome: Result<Post, PostError>): (reply: Reply<Post>)
    ensures outcome.Ok? ==> reply == Success(StatusOK, outcome.value)
    ensures outcome.Err? ==> reply.Failure? && reply.status == "fail" && reply.message == PostMessage(outcome.error)
    ensures outcome.Err? ==> (reply.code == StatusNotFound <==> outcome.error == PostNotFound)
    ensures outcome.Err? && outcome.error != PostNotFound ==> reply.code == StatusBadGateway
  {
    match outcome
    case Ok(p) => Success(StatusOK, p)
    case Err(e) =>
      var m := PostMessage(e);
      PostMessageIs(e, PostNotFound);
      if m == PostNotFoundText then Fail(StatusNotFound, m) else Failure(StatusBadGateway, "fail", m)
  }

  /** A failed save is a 502 that calls itself a client error, unlike every other 502 of the API. */
  lemma UpdateFailureLabelledFail()
    ensures var reply := UpdatePostReplyAsWritten(Err(PostStorageError("update post")));
      reply.code == StatusBadGateway && reply.status == "fail" && !StatusMatchesCode(reply)
  {
    PostMessageIs(PostStorageError("update post"), PostNotFound);
  }

  /** The corrected reply differs from the written one only in the status word of the 502. */
  lemma UpdateReplyDiffersOnlyInStatus(outcome: Result<Post, PostError>)
    ensures var a := UpdatePostReplyAsWritten(outcome);
      var b := PostReply(outcome);
      && a.Success? == b.Success?
      && (a.Success? ==> a == b)
      && (a.Failure? ==> a.code == b.code && a.message == b.message
                         && (a.status != b.status <==> a.code == StatusBadGateway))
  {
  }

  /** `DeletePost`: 204 on success; the not-found text is 404, anything else 502. */
  function DeletePostReply(err: Option<PostError>): (reply: Reply<()>)
    ensures err.None? ==> reply == Success(StatusNoContent, ())
    ensures err.Some? ==> reply.Failure? && reply.message == PostMessage(err.value)
    ensures err.Some? ==> (reply.code == StatusNotFound <==> err.value == PostNotFound)
    ensures err.Some? && err.value != PostNotFound ==> reply.code == StatusBadGateway
    ensures StatusMatchesCode(reply)
  {
    match err
    case None => Success(StatusNoContent, ())
    case Some(e) =>
      var m := PostMessage(e);
      PostMessageIs(e, PostNotFound);
      if m == PostNotFoundText then Fail(StatusNotFound, m) else BadGateway(m)
  }
}
