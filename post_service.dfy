/**
 * The post service (services/post.service.go) over an in-memory model of
 * the `posts` table. `nextId` stands for the id generator; the ids of the
 * rows in `categories` are passed in as `known`; `parseId` stands for
 * `uuid.Parse`. Storage failures other than a uniqueness violation are
 * inputs (`fault`, `replaceFault`, `saveFault`).
 */
module PostService {
  import opened Common
  import opened PostModel
  import opened Pagination

  type Posts = map<Id, Post>

  /**
   * The category ids kept from a request: in request order, each id that
   * parses as a uuid and names an existing category; the rest are skipped.
   */
  function ResolvedCategories(ids: seq<string>, parseId: string -> Option<Id>, known: set<Id>): (r: seq<Id>)
    ensures |r| <= |ids|
  {
    if |ids| == 0 then []
    else
      var front := ResolvedCategories(ids[..|ids| - 1], parseId, known);
      var parsed := parseId(ids[|ids| - 1]);
      if parsed.Some? && parsed.value in known then front + [parsed.value] else front
  }

  /** A kept id is exactly one that some requested text parses to and that exists. */
  lemma {:induction false} ResolvedCategoriesMembers(ids: seq<string>, parseId: string -> Option<Id>, known: set<Id>, x: Id)
    ensures x in ResolvedCategories(ids, parseId, known) <==>
      x in known && exists i :: 0 <= i < |ids| && parseId(ids[i]) == Some(x)
    decreases |ids|
  {
    if |ids| > 0 {
      var front := ids[..|ids| - 1];
      ResolvedCategoriesMembers(front, parseId, known, x);
      if x in known && exists i :: 0 <= i < |ids| && parseId(ids[i]) == Some(x) {
        var i :| 0 <= i < |ids| && parseId(ids[i]) == Some(x);
        if i < |ids| - 1 {
          assert front[i] == ids[i];
        }
      }
      if exists i :: 0 <= i < |front| && parseId(front[i]) == Some(x) {
        var i :| 0 <= i < |front| && parseId(front[i]) == Some(x);
        assert ids[i] == front[i];
      }
    }
  }

  /** Resolving keeps request order: resolving two lists one after the other is resolving their concatenation. */
  lemma {:induction false} ResolvedCategoriesConcat(a: seq<string>, b: seq<string>, parseId: string -> Option<Id>, known: set<Id>)
    ensures ResolvedCategories(a + b, parseId, known)
         == ResolvedCategories(a, parseId, known) + ResolvedCategories(b, parseId, known)
    decreases |b|
  {
    if |b| == 0 {
      assert a + b == a;
    } else {
      var b' := b[..|b| - 1];
      ResolvedCategoriesConcat(a, b', parseId, known);
      assert (a + b)[..|a + b| - 1] == a + b';
    }
  }

  /** The loop of lines 29-40 and 147-156: skip what does not parse or does not exist. */
  method ResolveCategories(ids: seq<string>, parseId: string -> Option<Id>, known: set<Id>) returns (found: seq<Id>)
    ensures found == ResolvedCategories(ids, parseId, known)
  {
    found := [];
    for i := 0 to |ids|
      invariant found == ResolvedCategories(ids[..i], parseId, known)
    {
      assert ids[..i + 1][..i] == ids[..i];
      var parsed := parseId(ids[i]);
      if parsed.None? {
        continue;
      }
      if parsed.value in known {
        found := found + [parsed.value];
      }
    }
    assert ids[..|ids|] == ids;
  }

  /** Some post other than `p` already holds its title or its slug: both carry a unique index. */
  predicate TakenByOther(posts: Posts, p: Post) {
    exists k :: k in posts && k != p.id && (posts[k].title == p.title || posts[k].slug == p.slug)
  }

  ghost predicate UniqueTitlesAndSlugs(posts: Posts) {
    forall a, b :: a in posts && b in posts && a != b ==>
      posts[a].title != posts[b].title && posts[a].slug != posts[b].slug
  }

  /** Every published post carries a publication date. */
  ghost predicate PublishedAreDated(posts: Posts) {
    forall k :: k in posts && posts[k].published ==> posts[k].publishedAt.Some?
  }

  /**
   * The row `CreatePost` inserts, as stored: the request's fields, the
   * kept categories, both timestamps `now`, a publication date exactly
   * when published, and the column defaults for the zero-valued metrics.
   */
  function CreatedRow(id: Id, req: CreatePostRequest, author: Id, categories: seq<Id>, now: Time): (p: Post)
    ensures p.published == req.published
    ensures p.publishedAt.Some? <==> p.published
    ensures p.publishedAt.Some? ==> p.publishedAt.value == now
    ensures p.views == DefaultViews && p.likes == DefaultLikes && p.comments == DefaultComments
    ensures p.readingTimeMinutes == (if req.readingTimeMinutes == 0 then DefaultReadingTime else req.readingTimeMinutes)
    ensures p.createdAt == now && p.updatedAt == now
    ensures p.id == id && p.authorId == author && p.categories == categories
    ensures p.title == req.title && p.slug == req.slug && p.content == req.content
  {
    var row := Post(id, req.title, req.slug, req.content, req.thumbnail, req.image,
                    req.shortDescription, req.metaDescription, req.keywords, req.tags,
                    categories, author, req.readingTimeMinutes, 0, 0, 0,
                    req.published, if req.published then Some(now) else None, now, now);
    WithColumnDefaults(row)
  }

  /** What inserting `p` reports: a storage fault, the uniqueness violation, or success. */
  function CreateOutcome(posts: Posts, p: Post, fault: bool): (r: Result<Post, PostError>)
    ensures r.Ok? <==> !fault && !TakenByOther(posts, p)
    ensures r.Ok? ==> r.value == p
    ensures r.Err? ==> r.error == (if fault then PostStorageError("create post") else DuplicatePost)
  {
    if fault then Err(PostStorageError("create post"))
    else if TakenByOther(posts, p) then Err(DuplicatePost)
    else Ok(p)
  }

  /**
   * The plain-field phase of `UpdatePost` (lines 93-131): a field whose
   * pointer is non-nil is overwritten, a nil one leaves the field as it is.
   */
  function ApplyPostFields(p: Post, req: UpdatePostRequest): Post {
    p.(title := req.title.GetOr(p.title),
       slug := req.slug.GetOr(p.slug),
       content := req.content.GetOr(p.content),
       thumbnail := req.thumbnail.GetOr(p.thumbnail),
       image := req.image.GetOr(p.image),
       shortDescription := req.shortDescription.GetOr(p.shortDescription),
       metaDescription := req.metaDescription.GetOr(p.metaDescription),
       keywords := req.keywords.GetOr(p.keywords),
       tags := req.tags.GetOr(p.tags),
       readingTimeMinutes := req.readingTimeMinutes.GetOr(p.readingTimeMinutes),
       views := req.views.GetOr(p.views),
       likes := req.likes.GetOr(p.likes),
       comments := req.comments.GetOr(p.comments))
  }

  /** The publishing phase (lines 134-142): the date is set on a first publication only. */
  function ApplyPublish(p: Post, published: Option<bool>, now: Time): Post {
    match published
    case None => p
    case Some(b) =>
      var q := p.(published := b);
      if !p.published && q.published && q.publishedAt.None? then q.(publishedAt := Some(now)) else q
  }

  /**
   * The row `UpdatePost` saves: the fields, the publishing rule, the new
   * category links when the request lists categories, then the timestamp.
   */
  function ApplyPostUpdate(p: Post, req: UpdatePostRequest, categories: Option<seq<Id>>, now: Time): Post {
    var published := ApplyPublish(ApplyPostFields(p, req), req.published, now);
    var linked := if categories.Some? then published.(categories := categories.value) else published;
    linked.(updatedAt := now)
  }

  /** The table after the association replace: only the category links of row `id` change. */
  function Relinked(posts: Posts, id: Id, categories: Option<seq<Id>>): Posts
    requires id in posts
  {
    if categories.Some? then posts[id := posts[id].(categories := categories.value)] else posts
  }

  /**
   * The whole effect of `UpdatePost` on row `id` (which exists): the
   * association replace may fail first; then the save, whose uniqueness
   * violation is reported as a generic storage error like any other.
   */
  function UpdateEffect(posts: Posts, id: Id, req: UpdatePostRequest, categories: Option<seq<Id>>, now: Time,
                        replaceFault: bool, saveFault: bool): (Result<Post, PostError>, Posts)
    requires id in posts
  {
    if categories.Some? && replaceFault then (Err(PostStorageError("update categories")), posts)
    else
      var linked := Relinked(posts, id, categories);
      var updated := ApplyPostUpdate(posts[id], req, categories, now);
      if saveFault || TakenByOther(linked, updated) then (Err(PostStorageError("update post")), linked)
      else (Ok(updated), posts[id := updated])
  }

  /** The successful path of `UpdateEffect`: the relinked row is overwritten by the saved one. */
  lemma UpdateEffectSaves(posts: Posts, id: Id, req: UpdatePostRequest, categories: Option<seq<Id>>, now: Time,
                          replaceFault: bool, saveFault: bool)
    requires id in posts
    requires !(categories.Some? && replaceFault) && !saveFault
    requires !TakenByOther(Relinked(posts, id, categories), ApplyPostUpdate(posts[id], req, categories, now))
    ensures var updated := ApplyPostUpdate(posts[id], req, categories, now);
      && Relinked(posts, id, categories)[id := updated] == posts[id := updated]
      && UpdateEffect(posts, id, req, categories, now, replaceFault, saveFault) == (Ok(updated), posts[id := updated])
  {
  }

  /** Fields absent from the request keep their values; present ones overwrite, even with a zero value. */
  lemma UpdateAppliesPresentFields(p: Post, req: UpdatePostRequest, categories: Option<seq<Id>>, now: Time)
    ensures var q := ApplyPostUpdate(p, req, categories, now);
      && q.id == p.id && q.authorId == p.authorId && q.createdAt == p.createdAt && q.updatedAt == now
      && q.title == req.title.GetOr(p.title) && q.slug == req.slug.GetOr(p.slug)
      && q.content == req.content.GetOr(p.content) && q.thumbnail == req.thumbnail.GetOr(p.thumbnail)
      && q.image == req.image.GetOr(p.image)
      && q.shortDescription == req.shortDescription.GetOr(p.shortDescription)
      && q.metaDescription == req.metaDescription.GetOr(p.metaDescription)
      && q.keywords == req.keywords.GetOr(p.keywords) && q.tags == req.tags.GetOr(p.tags)
      && q.readingTimeMinutes == req.readingTimeMinutes.GetOr(p.readingTimeMinutes)
      && q.views == req.views.GetOr(p.views) && q.likes == req.likes.GetOr(p.likes)
      && q.comments == req.comments.GetOr(p.comments)
      && q.published == req.published.GetOr(p.published)
      && q.categories == categories.GetOr(p.categories)
  {
  }

  /**
   * The publication date: set to `now` exactly on a false-to-true change
   * of a post that has no date yet; in every other case it is kept, so
   * unpublishing never clears it and a date once set never moves.
   */
  lemma PublishDateRule(p: Post, req: UpdatePostRequest, categories: Option<seq<Id>>, now: Time)
    ensures var q := ApplyPostUpdate(p, req, categories, now);
      && (!p.published && req.published == Some(true) && p.publishedAt.None? ==> q.publishedAt == Some(now))
      && (!(!p.published && req.published == Some(true) && p.publishedAt.None?) ==> q.publishedAt == p.publishedAt)
      && (p.publishedAt.Some? ==> q.publishedAt == p.publishedAt)
  {
  }

  /** Updates keep every published post dated. */
  lemma UpdateKeepsPublishedDated(p: Post, req: UpdatePostRequest, categories: Option<seq<Id>>, now: Time)
    requires p.published ==> p.publishedAt.Some?
    ensures var q := ApplyPostUpdate(p, req, categories, now); q.published ==> q.publishedAt.Some?
  {
  }

  /**
   * The outcomes of an update: a replace failure changes nothing; a save
   * failure (a uniqueness violation included) is never reported as a
   * duplicate and still leaves the new category links written; success
   * writes the updated row and nothing else.
   */
  lemma UpdateEffectOutcomes(posts: Posts, id: Id, req: UpdatePostRequest, categories: Option<seq<Id>>, now: Time,
                             replaceFault: bool, saveFault: bool)
    requires id in posts
    ensures var (r, after) := UpdateEffect(posts, id, req, categories, now, replaceFault, saveFault);
      && (r.Err? ==> r.error.PostStorageError?)
      && (r.Err? && r.error == PostStorageError("update categories") ==> after == posts)
      && (r.Err? && r.error == PostStorageError("update post") ==>
            after.Keys == posts.Keys && after[id].categories == categories.GetOr(posts[id].categories)
            && forall k :: k in posts && k != id ==> after[k] == posts[k])
      && (r.Ok? ==> after == posts[id := r.value] && r.value == ApplyPostUpdate(posts[id], req, categories, now))
  {
  }

  /** A save that fails after a successful replace leaves the table partly updated: the categories changed, nothing else. */
  lemma SaveFailureKeepsNewLinks(posts: Posts, id: Id, req: UpdatePostRequest, cats: seq<Id>, now: Time)
    requires id in posts && cats != posts[id].categories
    ensures var (r, after) := UpdateEffect(posts, id, req, Some(cats), now, false, true);
      && r == Err(PostStorageError("update post"))
      && after != posts
      && after == posts[id := posts[id].(categories := cats)]
  {
    var (r, after) := UpdateEffect(posts, id, req, Some(cats), now, false, true);
    assert after[id].categories == cats;
  }

  /** Whatever its outcome, an update keeps titles and slugs unique and every row under its own id. */
  lemma UpdateEffectKeepsUnique(posts: Posts, id: Id, req: UpdatePostRequest, categories: Option<seq<Id>>, now: Time,
                                replaceFault: bool, saveFault: bool)
    requires id in posts && posts[id].id == id && UniqueTitlesAndSlugs(posts)
    requires forall k :: k in posts ==> posts[k].id == k
    ensures var after := UpdateEffect(posts, id, req, categories, now, replaceFault, saveFault).1;
      && UniqueTitlesAndSlugs(after)
      && forall k :: k in after ==> after[k].id == k
  {
    if categories.Some? {
      RelinkKeepsInvariants(posts, id, categories.value);
    }
    var linked := Relinked(posts, id, categories);
    var updated := ApplyPostUpdate(posts[id], req, categories, now);
    if !(categories.Some? && replaceFault) && !saveFault && !TakenByOther(linked, updated) {
      UpdateAppliesPresentFields(posts[id], req, categories, now);
      StoreKeepsInvariants(linked, updated);
      UpdateEffectSaves(posts, id, req, categories, now, replaceFault, saveFault);
    }
  }

  /** Relinking one row keeps rows under their ids, titles and slugs unique, and published rows dated. */
  lemma RelinkKeepsInvariants(posts: Posts, id: Id, categories: seq<Id>)
    requires id in posts
    ensures var after := posts[id := posts[id].(categories := categories)];
      && after.Keys == posts.Keys
      && (forall k :: k in after ==>
            (after[k].id == posts[k].id && after[k].title == posts[k].title && after[k].slug == posts[k].slug))
      && (UniqueTitlesAndSlugs(posts) ==> UniqueTitlesAndSlugs(after))
      && (PublishedAreDated(posts) ==> PublishedAreDated(after))
  {
  }

  /**
   * Saving row `p` under its own id keeps every row under its id, keeps
   * published rows dated when `p` is, and keeps titles and slugs unique
   * when no other row holds the title or slug of `p`.
   */
  lemma StoreKeepsInvariants(posts: Posts, p: Post)
    requires forall k :: k in posts ==> posts[k].id == k
    ensures var after := posts[p.id := p];
      && after.Keys == posts.Keys + {p.id}
      && (forall k :: k in after ==> after[k].id == k)
      && (PublishedAreDated(posts) && (p.published ==> p.publishedAt.Some?) ==> PublishedAreDated(after))
      && (UniqueTitlesAndSlugs(posts) && !TakenByOther(posts, p) ==> UniqueTitlesAndSlugs(after))
  {
  }

  /** Post `p` passes the listing filters: the published flag and, as the join does, a linked category. */
  predicate PostMatches(p: Post, published: Option<bool>, category: Option<Id>) {
    && (published.None? || p.published == published.value)
    && (category.None? || category.value in p.categories)
  }

  /** `PostMatches` as the test the listing's `WHERE` clauses apply to each scanned row. */
  function PostFilter(published: Option<bool>, category: Option<Id>): Post -> bool {
    p => PostMatches(p, published, category)
  }

  /** The posts of the scan that pass the filters, each once, in scan order. */
  function FilterPosts(scan: seq<Post>, published: Option<bool>, category: Option<Id>): (r: seq<Post>)
    ensures forall p :: p in r <==> p in scan && PostMatches(p, published, category)
    ensures FiltersInOrder(scan, r, PostFilter(published, category))
    ensures |r| <= |scan|
  {
    FilterInOrder(scan, PostFilter(published, category));
    Filter(scan, PostFilter(published, category))
  }

  /** The search's `WHERE` clauses: published, and the ILIKE condition `matches`. */
  function SearchFilter(matches: Post -> bool): Post -> bool {
    (p: Post) => p.published && matches(p)
  }

  /** The posts of the scan that are published and match the search, each once, in scan order. */
  function SearchHits(scan: seq<Post>, matches: Post -> bool): (r: seq<Post>)
    ensures forall p :: p in r <==> p in scan && p.published && matches(p)
    ensures FiltersInOrder(scan, r, SearchFilter(matches))
    ensures |r| <= |scan|
  {
    FilterInOrder(scan, SearchFilter(matches));
    Filter(scan, SearchFilter(matches))
  }

  /** One page of a listing and the number of rows the whole listing has. */
  datatype Page = Page(posts: seq<Post>, total: nat)

  /** `order` lists every row of the table exactly once: the `created_at DESC` scan. */
  predicate IsPostScan(posts: Posts, order: seq<Id>) {
    && Distinct(order)
    && (forall i :: 0 <= i < |order| ==> order[i] in posts)
    && (forall k :: k in posts ==> k in order)
  }

  /** The `posts` table and its id generator. */
  class PostStore {
    var posts: Posts
    var nextId: Id

    /** The primary key is the row's id, ids come from the generator, titles and slugs are unique. */
    ghost predicate Valid()
      reads this
    {
      && nextId > Nil
      && (forall k :: k in posts ==> posts[k].id == k && Nil < k < nextId)
      && UniqueTitlesAndSlugs(posts)
    }

    constructor ()
      ensures Valid() && posts == map[]
    {
      posts := map[];
      nextId := 1;
    }

    /**
     * `CreatePost`: resolve the categories, build the row, insert it; a
     * title or slug already taken is reported as a duplicate.
     */
    method CreatePost(req: CreatePostRequest, author: Id, parseId: string -> Option<Id>, known: set<Id>,
                      now: Time, fault: bool) returns (r: Result<Post, PostError>)
      requires Valid()
      modifies this
      ensures Valid()
      ensures var row := CreatedRow(old(nextId), req, author, ResolvedCategories(req.categoryIds, parseId, known), now);
        r == CreateOutcome(old(posts), row, fault)
      ensures r.Ok? ==> posts == old(posts)[old(nextId) := r.value] && nextId == old(nextId) + 1
      ensures r.Err? ==> posts == old(posts) && nextId == old(nextId)
      ensures PublishedAreDated(old(posts)) ==> PublishedAreDated(posts)
    {
      var categories: seq<Id> := [];
      if |req.categoryIds| > 0 {
        categories := ResolveCategories(req.categoryIds, parseId, known);
      }
      var newPost := Post(Nil, req.title, req.slug, req.content, req.thumbnail, req.image,
                          req.shortDescription, req.metaDescription, req.keywords, req.tags,
                          categories, author, req.readingTimeMinutes, 0, 0, 0,
                          req.published, None, now, now);
      if req.published {
        newPost := newPost.(publishedAt := Some(now));
      }
      var row := WithColumnDefaults(newPost.(id := nextId));
      assert row == CreatedRow(nextId, req, author, ResolvedCategories(req.categoryIds, parseId, known), now);
      r := CreateOutcome(posts, row, fault);
      if r.Ok? {
        posts := posts[nextId := row];
        nextId := nextId + 1;
      }
    }

    /**
     * The in-memory phases of `UpdatePost` on the fetched row: the present
     * fields are overwritten one by one, then the publishing rule applies.
     */
    static method EditFields(p: Post, req: UpdatePostRequest, now: Time) returns (post: Post)
      ensures post == ApplyPublish(ApplyPostFields(p, req), req.published, now)
    {
      post := ApplyPostFields(p, req);
      if req.published.Some? {
        var wasPublished := post.published;
        post := post.(published := req.published.value);
        if !wasPublished && post.published && post.publishedAt.None? {
          post := post.(publishedAt := Some(now));
        }
      }
    }

    /** The association replace: the links of row `id` become `categories`, a write of its own. */
    method Relink(id: Id, categories: seq<Id>)
      requires Valid() && id in posts
      modifies this
      ensures posts == Relinked(old(posts), id, Some(categories)) && nextId == old(nextId)
      ensures Valid()
      ensures PublishedAreDated(old(posts)) ==> PublishedAreDated(posts)
    {
      RelinkKeepsInvariants(posts, id, categories);
      posts := posts[id := posts[id].(categories := categories)];
    }

    /** The save of an existing row whose title and slug no other row holds. */
    method Save(post: Post)
      requires Valid() && post.id in posts && !TakenByOther(posts, post)
      modifies this
      ensures posts == old(posts)[post.id := post] && nextId == old(nextId)
      ensures Valid()
      ensures PublishedAreDated(old(posts)) && (post.published ==> post.publishedAt.Some?) ==> PublishedAreDated(posts)
    {
      StoreKeepsInvariants(posts, post);
      posts := posts[post.id := post];
    }

    /**
     * `UpdatePost`: fetch, overwrite the present fields, apply the
     * publishing rule, replace the category links (a write of its own),
     * then save.
     */
    method UpdatePost(id: Id, req: UpdatePostRequest, parseId: string -> Option<Id>, known: set<Id>,
                      now: Time, replaceFault: bool, saveFault: bool) returns (r: Result<Post, PostError>)
      requires Valid()
      modifies this
      ensures Valid() && nextId == old(nextId)
      ensures id !in old(posts) ==> r == Err(PostNotFound) && posts == old(posts)
      ensures id in old(posts) ==>
        var categories := if req.categoryIds.Some? then Some(ResolvedCategories(req.categoryIds.value, parseId, known)) else None;
        (r, posts) == UpdateEffect(old(posts), id, req, categories, now, replaceFault, saveFault)
      ensures PublishedAreDated(old(posts)) ==> PublishedAreDated(posts)
    {
      if id !in posts {
        return Err(PostNotFound);
      }
      var post := EditFields(posts[id], req, now);
      ghost var categories: Option<seq<Id>> := None;
      if req.categoryIds.Some? {
        var found := ResolveCategories(req.categoryIds.value, parseId, known);
        categories := Some(found);
        if replaceFault {
          return Err(PostStorageError("update categories"));
        }
        post := post.(categories := found);
        Relink(id, found);
      }
      post := post.(updatedAt := now);
      assert post == ApplyPostUpdate(old(posts)[id], req, categories, now);
      assert posts == Relinked(old(posts), id, categories);
      UpdateAppliesPresentFields(old(posts)[id], req, categories, now);
      if saveFault || TakenByOther(posts, post) {
        return Err(PostStorageError("update post"));
      }
      UpdateEffectSaves(old(posts), id, req, categories, now, replaceFault, saveFault);
      if PublishedAreDated(old(posts)) {
        UpdateKeepsPublishedDated(old(posts)[id], req, categories, now);
      }
      Save(post);
      r := Ok(post);
    }

    /** `FindPostByID` without the display-only preloads. */
    function FindPostById(id: Id): (r: Result<Post, PostError>)
      requires Valid()
      reads this
      ensures r.Ok? <==> id in posts
      ensures r.Ok? ==> r.value.id == id && r.value == posts[id]
      ensures r.Err? ==> r.error == PostNotFound
    {
      if id in posts then Ok(posts[id]) else Err(PostNotFound)
    }

    /** `FindPostBySlug`: the row holding `slug`, which the unique index makes the only one. */
    method FindPostBySlug(slug: string) returns (r: Result<Post, PostError>)
      requires Valid()
      ensures r.Ok? ==> r.value.id in posts && posts[r.value.id] == r.value && r.value.slug == slug
      ensures r.Ok? ==> forall k :: k in posts && posts[k].slug == slug ==> k == r.value.id
      ensures r.Err? ==> r.error == PostNotFound && forall k :: k in posts ==> posts[k].slug != slug
    {
      var keys := posts.Keys;
      while keys != {}
        invariant keys <= posts.Keys
        invariant forall k :: k in posts && k !in keys ==> posts[k].slug != slug
        decreases keys
      {
        var k :| k in keys;
        if posts[k].slug == slug {
          return Ok(posts[k]);
        }
        keys := keys - {k};
      }
      return Err(PostNotFound);
    }

    /**
     * `DeletePost`: a failed statement is a storage error; a statement
     * that removed no row means the post was not there.
     */
    method DeletePost(id: Id, fault: bool) returns (r: Option<PostError>)
      requires Valid()
      modifies this
      ensures Valid() && nextId == old(nextId)
      ensures fault ==> r == Some(PostStorageError("delete post")) && posts == old(posts)
      ensures !fault && id !in old(posts) ==> r == Some(PostNotFound) && posts == old(posts)
      ensures !fault && id in old(posts) ==> r.None? && posts == old(posts) - {id}
    {
      if fault {
        return Some(PostStorageError("delete post"));
      }
      var rowsAffected := if id in posts then 1 else 0;
      posts := posts - {id};
      if rowsAffected == 0 {
        return Some(PostNotFound);
      }
      return None;
    }
  }

  /** Every row is stored under its own id. */
  predicate KeyedById(posts: Posts) {
    forall k :: k in posts ==> posts[k].id == k
  }

  /** The rows of the table in the order `order` gives. */
  function ScanPosts(posts: Posts, order: seq<Id>): (scan: seq<Post>)
    requires forall i :: 0 <= i < |order| ==> order[i] in posts
    ensures |scan| == |order|
    ensures forall i :: 0 <= i < |order| ==> scan[i] == posts[order[i]]
  {
    seq(|order|, i requires 0 <= i < |order| && order[i] in posts => posts[order[i]])
  }

  /** Every entry of a scan is the row stored under its own id. */
  lemma ScanRowsKeyed(posts: Posts, order: seq<Id>)
    requires KeyedById(posts) && IsPostScan(posts, order)
    ensures forall p :: p in ScanPosts(posts, order) ==> p.id in posts && posts[p.id] == p
  {
    var scan := ScanPosts(posts, order);
    forall p | p in scan ensures p.id in posts && posts[p.id] == p {
      var i :| 0 <= i < |scan| && scan[i] == p;
      assert p == posts[order[i]];
    }
  }

  /** A scan has as many entries as the table has rows. */
  lemma ScanCardinality(posts: Posts, order: seq<Id>)
    requires IsPostScan(posts, order)
    ensures |order| == |posts|
  {
    var ids := set i | 0 <= i < |order| :: order[i];
    assert ids == posts.Keys;
    DistinctCard(order);
  }

  /** The category filter of `FindPosts`: an empty value is no filter; any other is read as a uuid. */
  function CategoryFilter(categoryId: Option<string>, parseId: string -> Option<Id>): Option<Id> {
    if categoryId.Some? && categoryId.value != "" then parseId(categoryId.value) else None
  }

  /**
   * `FindPosts` over the `created_at DESC` scan `order` of the table: the
   * filters, the total of the whole filtered listing, and the requested
   * page of it, skipping `(page-1)*limit` rows computed in Go's 64-bit
   * `int`. A category value that is not a uuid makes the count fail.
   */
  function FindPosts(posts: Posts, order: seq<Id>, page: int, limit: nat, published: Option<bool>,
                     categoryId: Option<string>, parseId: string -> Option<Id>): (r: Result<Page, PostError>)
    requires KeyedById(posts) && IsPostScan(posts, order)
    ensures r.Err? <==> categoryId.Some? && categoryId.value != "" && parseId(categoryId.value).None?
    ensures r.Err? ==> r.error == PostStorageError("count posts")
    ensures r.Ok? ==> |r.value.posts| <= limit && r.value.total <= |posts|
    ensures r.Ok? ==> forall p :: p in r.value.posts ==> p.id in posts && posts[p.id] == p
    ensures r.Ok? ==>
      var matching := FilterPosts(ScanPosts(posts, order), published, CategoryFilter(categoryId, parseId));
      && r.value.posts == Window(matching, OffsetAsWritten(page, limit), limit)
      && r.value.total == |matching|
  {
    if categoryId.Some? && categoryId.value != "" then
      match parseId(categoryId.value)
      case None => Err(PostStorageError("count posts"))
      case Some(c) => Ok(Listing(posts, order, page, limit, published, Some(c)))
    else Ok(Listing(posts, order, page, limit, published, None))
  }

  /**
   * The page and total of a parsed listing query: the rows of the scan
   * that pass the filters, counted in full, and the window of them that
   * `LIMIT limit OFFSET (page-1)*limit` selects.
   */
  function Listing(posts: Posts, order: seq<Id>, page: int, limit: nat, published: Option<bool>, category: Option<Id>): (r: Page)
    requires KeyedById(posts) && IsPostScan(posts, order)
    ensures |r.posts| <= limit && r.total <= |posts|
    ensures forall p :: p in r.posts ==> p.id in posts && posts[p.id] == p && PostMatches(p, published, category)
    ensures var matching := FilterPosts(ScanPosts(posts, order), published, category);
      && r.posts == Window(matching, OffsetAsWritten(page, limit), limit)
      && r.total == |matching|
  {
    var matching := FilterPosts(ScanPosts(posts, order), published, category);
    ScanCardinality(posts, order);
    ScanRowsKeyed(posts, order);
    WindowWithin(matching, OffsetAsWritten(page, limit), limit);
    Page(Window(matching, OffsetAsWritten(page, limit), limit), |matching|)
  }

  /** The ids of the rows of the table that pass the listing filters. */
  function PassingIds(posts: Posts, published: Option<bool>, category: Option<Id>): set<Id> {
    set k | k in posts && PostMatches(posts[k], published, category)
  }

  /** The ids of the published rows of the table that match the search. */
  function FoundIds(posts: Posts, matches: Post -> bool): set<Id> {
    set k | k in posts && posts[k].published && matches(posts[k])
  }

  /** Every row of the table that passes the filters is in the listing the total counts. */
  lemma ListingCountsEveryMatch(posts: Posts, order: seq<Id>, published: Option<bool>, category: Option<Id>, k: Id)
    requires IsPostScan(posts, order)
    requires k in posts && PostMatches(posts[k], published, category)
    ensures posts[k] in FilterPosts(ScanPosts(posts, order), published, category)
  {
    var i :| 0 <= i < |order| && order[i] == k;
    assert ScanPosts(posts, order)[i] == posts[k];
  }

  /**
   * The total of a listing is the number of rows of the table that pass
   * the filters: each such row is counted exactly once.
   */
  lemma ListingTotal(posts: Posts, order: seq<Id>, page: int, limit: nat, published: Option<bool>, category: Option<Id>)
    requires KeyedById(posts) && IsPostScan(posts, order)
    ensures Listing(posts, order, page, limit, published, category).total == |PassingIds(posts, published, category)|
  {
    MatchingCount(posts, order, published, category);
  }

  /** The filtered scan has one entry per row of the table that passes the filters. */
  lemma MatchingCount(posts: Posts, order: seq<Id>, published: Option<bool>, category: Option<Id>)
    requires KeyedById(posts) && IsPostScan(posts, order)
    ensures |FilterPosts(ScanPosts(posts, order), published, category)| == |PassingIds(posts, published, category)|
  {
    var passing := PassingIds(posts, published, category);
    forall k ensures k in passing <==> k in posts && PostFilter(published, category)(posts[k]) {
      if k in posts {
        assert PostFilter(published, category)(posts[k]) == PostMatches(posts[k], published, category);
      }
    }
    FilteredIds(posts, order, PostFilter(published, category), FilterPosts(ScanPosts(posts, order), published, category), passing);
  }

  /**
   * The ids of an in-order filter of a scan are the ids of the rows the
   * filter keeps, without repetition, so there are as many entries as
   * such rows.
   */
  lemma FilteredIds(posts: Posts, order: seq<Id>, keep: Post -> bool, r: seq<Post>, kept: set<Id>)
    requires KeyedById(posts) && IsPostScan(posts, order)
    requires FiltersInOrder(ScanPosts(posts, order), r, keep)
    requires forall k :: k in kept <==> k in posts && keep(posts[k])
    ensures |r| == |kept|
  {
    var scan := ScanPosts(posts, order);
    var idx :| PicksInOrder(scan, r, idx) && forall i :: 0 <= i < |scan| ==> (i in idx <==> keep(scan[i]));
    var ids := seq(|r|, j requires 0 <= j < |r| => r[j].id);
    forall j | 0 <= j < |r| ensures ids[j] == order[idx[j]] {
      assert r[j] == posts[order[idx[j]]];
    }
    forall j, m | 0 <= j < m < |ids| ensures ids[j] != ids[m] {
      assert idx[j] < idx[m];
    }
    var picked := set j | 0 <= j < |ids| :: ids[j];
    forall k | k in kept ensures k in picked {
      var i :| 0 <= i < |order| && order[i] == k;
      assert scan[i] == posts[k];
      assert i in idx;
      var j :| 0 <= j < |idx| && idx[j] == i;
      assert ids[j] == k;
    }
    forall k | k in picked ensures k in kept {
      var j :| 0 <= j < |ids| && ids[j] == k;
      assert idx[j] in idx;
    }
    assert picked == kept;
    DistinctCard(ids);
  }

  /**
   * `SearchPosts` over the `created_at DESC` scan: only published posts
   * that match the search (the ILIKE condition, given as `matches`), the
   * total of all of them, and the page the 64-bit offset selects.
   */
  function SearchPosts(posts: Posts, order: seq<Id>, matches: Post -> bool, page: int, limit: nat): (r: Page)
    requires KeyedById(posts) && IsPostScan(posts, order)
    ensures |r.posts| <= limit && r.total <= |posts|
    ensures forall p :: p in r.posts ==> p.published && matches(p) && p.id in posts && posts[p.id] == p
    ensures var hits := SearchHits(ScanPosts(posts, order), matches);
      && r.posts == Window(hits, OffsetAsWritten(page, limit), limit)
      && r.total == |hits|
  {
    var hits := SearchHits(ScanPosts(posts, order), matches);
    ScanCardinality(posts, order);
    ScanRowsKeyed(posts, order);
    WindowWithin(hits, OffsetAsWritten(page, limit), limit);
    Page(Window(hits, OffsetAsWritten(page, limit), limit), |hits|)
  }

  /** The total of a search is the number of published rows of the table that match. */
  lemma SearchTotal(posts: Posts, order: seq<Id>, matches: Post -> bool, page: int, limit: nat)
    requires KeyedById(posts) && IsPostScan(posts, order)
    ensures SearchPosts(posts, order, matches, page, limit).total == |FoundIds(posts, matches)|
  {
    var found := FoundIds(posts, matches);
    forall k ensures k in found <==> k in posts && SearchFilter(matches)(posts[k]) {
      if k in posts {
        assert SearchFilter(matches)(posts[k]) == (posts[k].published && matches(posts[k]));
      }
    }
    FilteredIds(posts, order, SearchFilter(matches), SearchHits(ScanPosts(posts, order), matches), found);
  }

  /**
   * As written, page 2^62 + 1 with 4 rows per page skips `(page-1)*4 ==
   * 2^64` rows, which wraps to 0: the listing answers with its first page
   * instead of an empty one.
   */
  lemma ListingWrapsToFirstPage(posts: Posts, order: seq<Id>, published: Option<bool>, category: Option<Id>)
    requires KeyedById(posts) && IsPostScan(posts, order)
    ensures var page := 0x4000_0000_0000_0001;
      && IsInt64(page)
      && Listing(posts, order, page, 4, published, category) == Listing(posts, order, 1, 4, published, category)
      && (Listing(posts, order, page, 4, published, category).total > 0 ==>
            Listing(posts, order, page, 4, published, category).posts != [])
  {
    var page := 0x4000_0000_0000_0001;
    assert (page - 1) * 4 == 0x1_0000_0000_0000_0000;
    assert Wrap64(0x1_0000_0000_0000_0000) == 0;
  }

  /** A sequence without repetitions has as many elements as the set of its elements. */
  lemma {:induction false} DistinctCard<T>(s: seq<T>)
    requires Distinct(s)
    ensures |set i | 0 <= i < |s| :: s[i]| == |s|
    decreases |s|
  {
    if |s| > 0 {
      var front := s[..|s| - 1];
      DistinctCard(front);
      var a := set i | 0 <= i < |front| :: front[i];
      var b := set i | 0 <= i < |s| :: s[i];
      assert b == a + {s[|s| - 1]};
      assert s[|s| - 1] !in a;
    }
  }
}
