/**
 * The `posts` table (models/post.model.go): the stored row, the two request
 * payloads, the column defaults the database applies on insert, and the
 * errors of the post service with the texts the controller switches on.
 */
module PostModel {
  import opened Common

  /**
   * One row of `posts`. `categories` lists the linked category ids (the
   * `post_categories` join table) and `publishedAt` is `None` for a NULL
   * `published_at`.
   */
  datatype Post = Post(
    id: Id,
    title: string,
    slug: string,
    content: string,
    thumbnail: string,
    image: string,
    shortDescription: string,
    metaDescription: string,
    keywords: seq<string>,
    tags: seq<string>,
    categories: seq<Id>,
    authorId: Id,
    readingTimeMinutes: int,
    views: int,
    likes: int,
    comments: int,
    published: bool,
    publishedAt: Option<Time>,
    createdAt: Time,
    updatedAt: Time)

  /** The create payload: every field is a plain value. */
  datatype CreatePostRequest = CreatePostRequest(
    title: string,
    slug: string,
    content: string,
    thumbnail: string,
    image: string,
    shortDescription: string,
    metaDescription: string,
    keywords: seq<string>,
    tags: seq<string>,
    categoryIds: seq<string>,
    readingTimeMinutes: int,
    published: bool)

  /** The update payload: every field is a pointer, so absent (`None`) and zero are different. */
  datatype UpdatePostRequest = UpdatePostRequest(
    title: Option<string>,
    slug: Option<string>,
    content: Option<string>,
    thumbnail: Option<string>,
    image: Option<string>,
    shortDescription: Option<string>,
    metaDescription: Option<string>,
    keywords: Option<seq<string>>,
    tags: Option<seq<string>>,
    categoryIds: Option<seq<string>>,
    views: Option<int>,
    likes: Option<int>,
    comments: Option<int>,
    readingTimeMinutes: Option<int>,
    published: Option<bool>)

  const DefaultReadingTime: int := 3
  const DefaultViews: int := 23
  const DefaultLikes: int := 99
  const DefaultComments: int := 0

  /**
   * An insert leaves out the zero-valued columns that carry a default, so
   * the database fills in the default instead of the zero.
   */
  function WithColumnDefaults(p: Post): (q: Post)
    ensures q.readingTimeMinutes == (if p.readingTimeMinutes == 0 then DefaultReadingTime else p.readingTimeMinutes)
    ensures q.views == (if p.views == 0 then DefaultViews else p.views)
    ensures q.likes == (if p.likes == 0 then DefaultLikes else p.likes)
    ensures q.comments == p.comments
    ensures q.(readingTimeMinutes := p.readingTimeMinutes, views := p.views, likes := p.likes) == p
  {
    p.(readingTimeMinutes := if p.readingTimeMinutes == 0 then DefaultReadingTime else p.readingTimeMinutes,
       views := if p.views == 0 then DefaultViews else p.views,
       likes := if p.likes == 0 then DefaultLikes else p.likes)
  }

  datatype PostError =
    | PostNotFound
    | DuplicatePost
    | PostStorageError(operation: string)

  const PostNotFoundText := "post not found"
  const DuplicatePostText := "post with that title or slug already exists"

  /** The text of each error as the service builds it; a storage error reads "failed to <operation>: ...". */
  function PostMessage(e: PostError): string {
    match e
    case PostNotFound => PostNotFoundText
    case DuplicatePost => DuplicatePostText
    case PostStorageError(op) => "failed to " + op
  }

  lemma PostMessageHead(e: PostError)
    ensures |PostMessage(e)| > 0 && (PostMessage(e)[0] == 'f' <==> e.PostStorageError?)
  {
    match e
    case PostNotFound => assert PostNotFoundText[0] == 'p';
    case DuplicatePost => assert DuplicatePostText[0] == 'p';
    case PostStorageError(op) => assert PostMessage(e)[0] == 'f';
  }

  /** Comparing the text of an error with the text of a kind is comparing the kinds. */
  lemma PostMessageIs(e: PostError, kind: PostError)
    ensures PostMessage(e) == PostMessage(kind) <==> e == kind
  {
    if PostMessage(e) == PostMessage(kind) {
      PostMessageHead(e);
      PostMessageHead(kind);
      if e.PostStorageError? && kind.PostStorageError? {
        assert e.operation == PostMessage(e)[10..];
        assert kind.operation == PostMessage(kind)[10..];
      }
    }
  }
}
