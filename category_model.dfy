/**
 * The category record and the two request payloads of the category API
 * (models/category.model.go).
 */
module CategoryModel {
  import opened Common

  /**
   * One row of the `categories` table. `parentId == None` marks a root.
   * The source's `Parent` and `Children` fields are not columns: they are
   * filled by preloading, and `Children` is derived from `parentId` of the
   * other rows (see Hierarchy.ChildSet). `level` is Go's zero value 0 when
   * never set, which is also the column default.
   */
  datatype Category = Category(
    id: Id,
    name: string,
    slug: string,
    description: string,
    image: string,
    parentId: Option<Id>,
    level: int,
    path: string,
    createdAt: Time,
    updatedAt: Time)

  /** What a Go `var parent models.Category` holds when the fetch into it fails. */
  const ZeroCategory: Category := Category(Nil, "", "", "", "", None, 0, "", 0, 0)

  /** The create payload: plain fields, only the parent is optional. */
  datatype CreateCategoryRequest = CreateCategoryRequest(
    name: string,
    slug: string,
    description: string,
    image: string,
    parentId: Option<Id>)

  /**
   * The update payload: every field is a pointer, so an absent field
   * (`None`) and a present empty string (`Some("")`) are different.
   * `parentId == Some(Nil)` is the "detach to root" sentinel.
   */
  datatype UpdateCategoryRequest = UpdateCategoryRequest(
    name: Option<string>,
    slug: Option<string>,
    description: Option<string>,
    image: Option<string>,
    parentId: Option<Id>)

  /**
   * The request-binding rule of the create payload that this model can
   * state: `name` and `slug` are required (non-empty). The URL check on
   * `image` is done by the validator library and is not part of this model.
   */
  predicate CreateRequestBinds(req: CreateCategoryRequest) {
    req.name != "" && req.slug != ""
  }

  /** The errors the category service reports, one per distinct message. */
  datatype CategoryError =
    | NotFound
    | ParentNotFound
    | DuplicateSlug
    | SelfParent
    | HasChildren
    | StorageError(operation: string)

  const NotFoundText := "category not found"
  const ParentNotFoundText := "parent category not found"
  const DuplicateSlugText := "category with that slug already exists"
  const SelfParentText := "category cannot be its own parent"
  const HasChildrenText := "category has children, " + "cannot delete (use deleteChildren=true to force)"

  /**
   * The text of each error as the service builds it; the controllers switch
   * on this text. A storage error is wrapped as "failed to <operation>: ...".
   */
  function Message(e: CategoryError): string {
    match e
    case NotFound => NotFoundText
    case ParentNotFound => ParentNotFoundText
    case DuplicateSlug => DuplicateSlugText
    case SelfParent => SelfParentText
    case HasChildren => HasChildrenText
    case StorageError(op) => "failed to " + op
  }

  /** Only storage errors start with "failed to": the controllers rely on this. */
  lemma MessageHead(e: CategoryError)
    ensures |Message(e)| > 0 && (Message(e)[0] == 'f' <==> e.StorageError?)
  {
    match e
    case NotFound => assert NotFoundText[0] == 'c';
    case ParentNotFound => assert ParentNotFoundText[0] == 'p';
    case DuplicateSlug => assert DuplicateSlugText[0] == 'c';
    case SelfParent => assert SelfParentText[0] == 'c';
    case HasChildren => assert HasChildrenText[0] == 'c';
    case StorageError(op) => assert Message(e)[0] == 'f';
  }

  /** Different errors never share a message, so switching on the text is switching on the kind. */
  lemma MessageInjective(e1: CategoryError, e2: CategoryError)
    requires Message(e1) == Message(e2)
    ensures e1 == e2
  {
    MessageHead(e1);
    MessageHead(e2);
    if e1.StorageError? && e2.StorageError? {
      assert e1.operation == Message(e1)[10..];
    }
  }

  /** Comparing the text of an error with the text of a kind is comparing the kinds. */
  lemma MessageIs(e: CategoryError, kind: CategoryError)
    ensures Message(e) == Message(kind) <==> e == kind
  {
    if Message(e) == Message(kind) {
      MessageInjective(e, kind);
    }
  }
}
