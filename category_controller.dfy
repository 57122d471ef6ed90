/**
 * The HTTP layer of the category API (controllers/category.controller.go):
 * how query strings become service filters, and how the service's outcome
 * (switched on by its error text) becomes a status code and a reply.
 */
module CategoryController {
  import opened Common
  import opened CategoryModel
  import opened CategoryService
  import opened StrConv
  import opened Http

  /** `CreateCategory`: the duplicate-slug text is 409, the missing-parent text 404, anything else 502. */
  function CreateCategoryReply(outcome: Result<Category, CategoryError>): (reply: Reply<Category>)
    ensures outcome.Ok? ==> reply == Success(StatusCreated, outcome.value)
    ensures outcome.Err? ==> reply.Failure? && reply.message == Message(outcome.error)
    ensures outcome == Err(DuplicateSlug) ==> reply.code == StatusConflict
    ensures outcome == Err(ParentNotFound) ==> reply.code == StatusNotFound
    ensures outcome.Err? && outcome.error !in {DuplicateSlug, ParentNotFound} ==> reply.code == StatusBadGateway
    ensures StatusMatchesCode(reply)
  {
    match outcome
    case Ok(c) => Success(StatusCreated, c)
    case Err(e) =>
      var m := Message(e);
      MessageIs(e, DuplicateSlug);
      MessageIs(e, ParentNotFound);
      if m == DuplicateSlugText then Fail(StatusConflict, m)
      else if m == ParentNotFoundText then Fail(StatusNotFound, m)
      else BadGateway(m)
  }

  /**
   * `UpdateCategory`: both not-found texts are 404, the own-parent text 400,
   * the duplicate-slug text 409, anything else 502.
   */
  function UpdateCategoryReply(outcome: Result<Category, CategoryError>): (reply: Reply<Category>)
    ensures outcome.Ok? ==> reply == Success(StatusOK, outcome.value)
    ensures outcome.Err? ==> reply.Failure? && reply.message == Message(outcome.error)
    ensures outcome.Err? && outcome.error in {NotFound, ParentNotFound} ==> reply.code == StatusNotFound
    ensures outcome == Err(SelfParent) ==> reply.code == StatusBadRequest
    ensures outcome == Err(DuplicateSlug) ==> reply.code == StatusConflict
    ensures outcome.Err? && outcome.error.StorageError? ==> reply.code == StatusBadGateway
    ensures StatusMatchesCode(reply)
  {
    match outcome
    case Ok(c) => Success(StatusOK, c)
    case Err(e) =>
      var m := Message(e);
      MessageIs(e, NotFound);
      MessageIs(e, ParentNotFound);
      MessageIs(e, SelfParent);
      MessageIs(e, DuplicateSlug);
      if m == NotFoundText then Fail(StatusNotFound, m)
      else if m == ParentNotFoundText then Fail(StatusNotFound, m)
      else if m == SelfParentText then Fail(StatusBadRequest, m)
      else if m == DuplicateSlugText then Fail(StatusConflict, m)
      else BadGateway(m)
  }

  /** `FindCategoryById` and `FindCategoryBySlug`: the not-found text is 404, anything else 502. */
  function FindCategoryReply(outcome: Result<Category, CategoryError>): (reply: Reply<Category>)
    ensures outcome.Ok? ==> reply == Success(StatusOK, outcome.value)
    ensures outcome.Err? ==> reply.Failure? && reply.message == Message(outcome.error)
    ensures outcome.Err? ==> (reply.code == StatusNotFound <==> outcome.error == NotFound)
    ensures outcome.Err? ==> reply.code in {StatusNotFound, StatusBadGateway}
    ensures StatusMatchesCode(reply)
  {
    match outcome
    case Ok(c) => Success(StatusOK, c)
    case Err(e) =>
      var m := Message(e);
      MessageIs(e, NotFound);
      if m == NotFoundText then Fail(StatusNotFound, m)
      else BadGateway(m)
  }

  /** `DeleteCategory`: 204 on success; the not-found text is 404, the has-children text 400, anything else 502. */
  function DeleteCategoryReply(err: Option<CategoryError>): (reply: Reply<()>)
    ensures err.None? ==> reply == Success(StatusNoContent, ())
    ensures err.Some? ==> reply.Failure? && reply.message == Message(err.value)
    ensures err == Some(NotFound) ==> reply.code == StatusNotFound
    ensures err == Some(HasChildren) ==> reply.code == StatusBadRequest
    ensures err.Some? && err.value !in {NotFound, HasChildren} ==> reply.code == StatusBadGateway
    ensures StatusMatchesCode(reply)
  {
    match err
    case None => Success(StatusNoContent, ())
    case Some(e) =>
      var m := Message(e);
      MessageIs(e, NotFound);
      MessageIs(e, HasChildren);
      if m == NotFoundText then Fail(StatusNotFound, m)
      else if m == HasChildrenText then Fail(StatusBadRequest, m)
      else BadGateway(m)
  }

  /** The `parent_id` query value: an empty value is no filter at all. */
  function ParentIdQuery(raw: string): Option<string> {
    if raw != "" then Some(raw) else None
  }

  /** The `level` query value: empty or not an integer is no filter. */
  function LevelQuery(raw: string): Option<int> {
    if raw != "" then Atoi(raw) else None
  }

  /** The `deleteChildren` query value, "false" when absent: only the exact text "true" turns cascading on. */
  function DeleteChildrenQuery(raw: Option<string>): bool {
    raw.GetOr("false") == "true"
  }

  /**
   * `FindCategories`: the filters from the query, and 200 with the rows of
   * the `name ASC` scan that pass them, or 502 when `parent_id` is neither
   * empty, "null" nor a uuid.
   */
  function FindCategoriesReply(scan: seq<Category>, parentRaw: string, levelRaw: string,
                               parseId: string -> Option<Id>): (reply: Reply<seq<Category>>)
    ensures reply.Failure? <==> parentRaw != "" && parentRaw != "null" && parseId(parentRaw).None?
    ensures reply.Failure? ==> reply == BadGateway(Message(StorageError("fetch categories")))
    ensures reply.Success? ==> reply.code == StatusOK && |reply.data| <= |scan|
    ensures reply.Success? ==> forall c :: c in reply.data <==>
      && c in scan
      && (Atoi(levelRaw).None? || c.level == Atoi(levelRaw).value)
      && (parentRaw == "null" ==> c.parentId.None?)
      && (parentRaw != "" && parentRaw != "null" ==> c.parentId == parseId(parentRaw))
    ensures reply.Success? ==>
      FiltersInOrder(scan, reply.data, MatchesFilter(ResolvedParent(ParentIdQuery(parentRaw), parseId), LevelQuery(levelRaw)))
    ensures StatusMatchesCode(reply)
  {
    match FindCategories(scan, ParentIdQuery(parentRaw), LevelQuery(levelRaw), parseId)
    case Ok(cs) => Success(StatusOK, cs)
    case Err(e) => BadGateway(Message(e))
  }

  /**
   * Through this controller the service's roots-only branch is reached only
   * by the literal "null" (the empty value never gets there), and no filter
   * is applied only for the empty value.
   */
  lemma ParentQueryFilters(raw: string)
    ensures ParentFilterOf(ParentIdQuery(raw)).RootsOnly? <==> raw == "null"
    ensures ParentFilterOf(ParentIdQuery(raw)).AnyParent? <==> raw == ""
    ensures ParentFilterOf(ParentIdQuery(raw)).ChildrenOf? ==> ParentFilterOf(ParentIdQuery(raw)).raw == raw
  {
  }

  /** A `level` value that is not an int64 in decimal is ignored: the reply is the unfiltered one. */
  lemma MalformedLevelIgnored(scan: seq<Category>, parentRaw: string, levelRaw: string, parseId: string -> Option<Id>)
    requires Atoi(levelRaw).None?
    ensures FindCategoriesReply(scan, parentRaw, levelRaw, parseId) == FindCategoriesReply(scan, parentRaw, "", parseId)
  {
  }

  /** Every int64 written in decimal is taken as the level filter. */
  lemma LevelQueryReadsIntegers(n: int)
    requires IsInt64(n)
    ensures LevelQuery(Itoa(n)) == Some(n)
  {
    AtoiItoa(n);
  }

  /** Cascading is on exactly for `deleteChildren=true`; absent means off. */
  lemma DeleteChildrenOnlyForTrue(raw: Option<string>)
    ensures DeleteChildrenQuery(raw) <==> raw == Some("true")
    ensures DeleteChildrenQuery(None) == false
  {
  }

  /** `SearchCategories`: an empty `q` is answered 400 before any search; otherwise `q` is passed on. */
  function SearchCategoriesQuery(q: string): (r: Result<string, Reply<seq<Category>>>)
    ensures r.Err? <==> q == ""
    ensures r.Err? ==> r.error == Fail(StatusBadRequest, "search query is required")
    ensures r.Ok? ==> r.value == q
  {
    if q == "" then Err(Fail(StatusBadRequest, "search query is required")) else Ok(q)
  }
}
