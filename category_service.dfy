/**
 * The category service (services/category.service.go) over an in-memory
 * model of the `categories` table. The table is the map `rows`; `nextId`
 * stands for the database's id generator. Storage failures other than a
 * uniqueness violation are inputs (`fault`, `faults`).
 */
module CategoryService {
  import opened Common
  import opened CategoryModel
  import opened Hierarchy
  import opened Placement
  import opened TreeBuilder

  /** The unique index on `slug`: slugs are unique across the whole table. */
  ghost predicate UniqueSlugs(rows: Rows) {
    forall a, b :: a in rows && b in rows && a != b ==> rows[a].slug != rows[b].slug
  }

  /** Some row other than `self` already holds `slug`. */
  predicate SlugTakenByOther(rows: Rows, slug: string, self: Id) {
    exists k :: k in rows && k != self && rows[k].slug == slug
  }

  /**
   * What inserting `c` into the table reports: a storage fault, a
   * uniqueness violation (the "duplicate key" error, translated), or success.
   */
  function InsertOutcome(rows: Rows, c: Category, fault: bool): Result<Category, CategoryError> {
    if fault then Err(StorageError("create category"))
    else if SlugTakenByOther(rows, c.slug, c.id) then Err(DuplicateSlug)
    else Ok(c)
  }

  /** What saving the updated row `c` reports; the same rules as an insert. */
  function SaveOutcome(rows: Rows, c: Category, fault: bool): Result<Category, CategoryError> {
    if fault then Err(StorageError("update category"))
    else if SlugTakenByOther(rows, c.slug, c.id) then Err(DuplicateSlug)
    else Ok(c)
  }

  /** The row `CreateCategory` builds from the request and the placement. */
  function NewRow(id: Id, req: CreateCategoryRequest, placement: Placement, now: Time): Category {
    Category(id, req.name, req.slug, req.description, req.image, req.parentId,
             placement.level, placement.path, now, now)
  }

  /** The parent row `UpdateCategory` reads when the slug changes; a failed read leaves a zero value. */
  function FetchOrZero(rows: Rows, id: Id): Category {
    if id in rows then rows[id] else ZeroCategory
  }

  /** A new slug, with the path rebuilt from a fresh read of the parent (or the slug alone for a root). */
  function WithSlug(rows: Rows, c: Category, slug: string): Category {
    c.(slug := slug, path := if c.parentId.Some? then ChildPath(FetchOrZero(rows, c.parentId.value), slug) else slug)
  }

  /** The plain-field phase of an update: name, slug and path, description, image, in that order. */
  function ApplyFields(rows: Rows, existing: Category, req: UpdateCategoryRequest): Category {
    var named := if req.name.Some? then existing.(name := req.name.value) else existing;
    var slugged := if req.slug.Some? then WithSlug(rows, named, req.slug.value) else named;
    var described := if req.description.Some? then slugged.(description := req.description.value) else slugged;
    if req.image.Some? then described.(image := req.image.value) else described
  }

  /** The parent phase of an update: `Nil` detaches, any other id must name another existing row. */
  function Reparent(rows: Rows, c: Category, p: Id): Result<Category, CategoryError> {
    if p == Nil then Ok(c.(parentId := None, level := 0, path := c.slug))
    else if p !in rows then Err(ParentNotFound)
    else if rows[p].id == c.id then Err(SelfParent)
    else Ok(c.(parentId := Some(p), level := rows[p].level + 1, path := ChildPath(rows[p], c.slug)))
  }

  /**
   * The row `UpdateCategory` would save: the fetched row `existing` with the
   * present fields of `req` applied, then the parent change, then the
   * timestamp; or the error that stops it before the save.
   */
  function ApplyUpdate(rows: Rows, existing: Category, req: UpdateCategoryRequest, now: Time): Result<Category, CategoryError> {
    var fields := ApplyFields(rows, existing, req);
    var placed := if req.parentId.Some? then Reparent(rows, fields, req.parentId.value) else Ok(fields);
    match placed
    case Err(e) => Err(e)
    case Ok(c) => Ok(c.(updatedAt := now))
  }

  /** Only present fields change; an empty string that is present does overwrite. */
  lemma UpdateAppliesPresentFields(rows: Rows, existing: Category, req: UpdateCategoryRequest, now: Time)
    requires ApplyUpdate(rows, existing, req, now).Ok?
    ensures var c := ApplyUpdate(rows, existing, req, now).value;
      && c.id == existing.id && c.createdAt == existing.createdAt && c.updatedAt == now
      && c.name == req.name.GetOr(existing.name)
      && c.slug == req.slug.GetOr(existing.slug)
      && c.description == req.description.GetOr(existing.description)
      && c.image == req.image.GetOr(existing.image)
  {
    FieldsPhase(rows, existing, req);
    if req.parentId.Some? {
      ReparentKeepsFields(rows, ApplyFields(rows, existing, req), req.parentId.value);
    }
  }

  lemma FieldsPhase(rows: Rows, existing: Category, req: UpdateCategoryRequest)
    ensures var c := ApplyFields(rows, existing, req);
      && c.id == existing.id && c.createdAt == existing.createdAt
      && c.parentId == existing.parentId && c.level == existing.level
      && c.name == req.name.GetOr(existing.name)
      && c.slug == req.slug.GetOr(existing.slug)
      && c.description == req.description.GetOr(existing.description)
      && c.image == req.image.GetOr(existing.image)
  {
  }

  lemma ReparentKeepsFields(rows: Rows, c: Category, p: Id)
    requires Reparent(rows, c, p).Ok?
    ensures var d := Reparent(rows, c, p).value;
      && d.id == c.id && d.createdAt == c.createdAt && d.name == c.name && d.slug == c.slug
      && d.description == c.description && d.image == c.image
  {
  }

  /** Without `slug` and `parent_id` in the request the row stays where it is. */
  lemma UpdateWithoutPlacementFields(rows: Rows, existing: Category, req: UpdateCategoryRequest, now: Time)
    requires req.slug.None? && req.parentId.None?
    ensures ApplyUpdate(rows, existing, req, now).Ok?
    ensures var c := ApplyUpdate(rows, existing, req, now).value;
      c.parentId == existing.parentId && c.level == existing.level && c.path == existing.path
  {
  }

  /**
   * A new slug without a parent change: a root's path becomes the slug; a
   * child keeps its level and gets its path rebuilt from a fresh read of its
   * parent, and a parent that cannot be read yields the path "/" + slug.
   */
  lemma UpdateSlugRebuildsPath(rows: Rows, existing: Category, req: UpdateCategoryRequest, now: Time)
    requires req.slug.Some? && req.parentId.None?
    ensures ApplyUpdate(rows, existing, req, now).Ok?
    ensures var c := ApplyUpdate(rows, existing, req, now).value;
      && c.parentId == existing.parentId && c.level == existing.level
      && IsSuffix(req.slug.value, c.path)
      && (existing.parentId.None? ==> c.path == req.slug.value)
      && (existing.parentId.Some? && existing.parentId.value in rows ==>
            c.path == ChildPath(rows[existing.parentId.value], req.slug.value))
      && (existing.parentId.Some? && existing.parentId.value !in rows ==> c.path == "/" + req.slug.value)
  {
    var c := ApplyUpdate(rows, existing, req, now).value;
    if existing.parentId.Some? {
      ChildPathShape(FetchOrZero(rows, existing.parentId.value), req.slug.value);
    }
  }

  /**
   * The parent change: `Nil` detaches to a root, a missing parent and the
   * row itself are rejected, any other row becomes the parent.
   */
  lemma UpdateReparent(rows: Rows, existing: Category, req: UpdateCategoryRequest, now: Time)
    requires req.parentId.Some?
    requires forall k :: k in rows ==> rows[k].id == k
    ensures var r := ApplyUpdate(rows, existing, req, now);
      var p := req.parentId.value;
      var slug := req.slug.GetOr(existing.slug);
      && (p == Nil ==> r.Ok? && r.value.parentId.None? && r.value.level == 0 && r.value.path == slug)
      && (p != Nil && p !in rows ==> r == Err(ParentNotFound))
      && (p != Nil && p in rows && p == existing.id ==> r == Err(SelfParent))
      && (p != Nil && p in rows && p != existing.id ==>
            r.Ok? && r.value.parentId == Some(p) && r.value.level == rows[p].level + 1
            && r.value.path == ChildPath(rows[p], slug))
  {
  }

  /** The only ways an update can fail before the save are the two parent checks. */
  lemma UpdateErrors(rows: Rows, existing: Category, req: UpdateCategoryRequest, now: Time)
    requires ApplyUpdate(rows, existing, req, now).Err?
    ensures req.parentId.Some? && req.parentId.value != Nil
    ensures ApplyUpdate(rows, existing, req, now).error in {ParentNotFound, SelfParent}
  {
  }

  /**
   * In a consistently placed table, a successful update leaves the updated
   * row itself placed consistently with respect to the other rows.
   */
  lemma UpdatedRowPlaced(rows: Rows, id: Id, req: UpdateCategoryRequest, now: Time)
    requires Consistent(rows) && NoSelfParent(rows)
    requires forall k :: k in rows ==> rows[k].id == k
    requires id in rows
    requires ApplyUpdate(rows, rows[id], req, now).Ok?
    ensures var c := ApplyUpdate(rows, rows[id], req, now).value;
      && c.id == id
      && match c.parentId
         case None => c.level == 0 && c.path == c.slug
         case Some(p) => p in rows && p != id && c.level == rows[p].level + 1 && c.path == ChildPath(rows[p], c.slug)
  {
    assert PlacedConsistently(rows, id);
    UpdateAppliesPresentFields(rows, rows[id], req, now);
    if req.parentId.Some? {
      UpdateReparent(rows, rows[id], req, now);
    } else if req.slug.Some? {
      UpdateSlugRebuildsPath(rows, rows[id], req, now);
    } else {
      UpdateWithoutPlacementFields(rows, rows[id], req, now);
    }
  }

  /**
   * Updating a row that has no children keeps a consistently placed table
   * consistent (the descendants of a row are never refreshed, so this needs
   * the row to be a leaf; see StaleDescendantAfterRename).
   */
  lemma UpdateOfLeafKeepsConsistency(rows: Rows, id: Id, req: UpdateCategoryRequest, now: Time)
    requires Consistent(rows) && NoSelfParent(rows)
    requires forall k :: k in rows ==> rows[k].id == k
    requires id in rows && ChildSet(rows, id) == {}
    requires ApplyUpdate(rows, rows[id], req, now).Ok?
    ensures Consistent(rows[id := ApplyUpdate(rows, rows[id], req, now).value])
  {
    var c := ApplyUpdate(rows, rows[id], req, now).value;
    UpdatedRowPlaced(rows, id, req, now);
    var after := rows[id := c];
    forall d | d in after ensures PlacedConsistently(after, d) {
      if d != id {
        assert PlacedConsistently(rows, d);
        assert d !in ChildSet(rows, id);
      }
    }
  }

  /**
   * A successful update never leaves a dangling or a direct self parent
   * link behind: a new parent must exist and differ from the row.
   */
  lemma UpdateKeepsLinks(rows: Rows, id: Id, req: UpdateCategoryRequest, now: Time)
    requires NoDangling(rows) && NoSelfParent(rows)
    requires forall k :: k in rows ==> rows[k].id == k
    requires id in rows
    requires ApplyUpdate(rows, rows[id], req, now).Ok?
    ensures var after := rows[id := ApplyUpdate(rows, rows[id], req, now).value];
      NoDangling(after) && NoSelfParent(after)
  {
    var c := ApplyUpdate(rows, rows[id], req, now).value;
    assert c.id == id;
    if req.parentId.Some? {
      UpdateReparent(rows, rows[id], req, now);
    } else {
      assert c.parentId == rows[id].parentId;
    }
  }

  /**
   * Renaming the slug of a row with a child leaves the child's stored path
   * stale: the table is no longer consistently placed.
   */
  lemma StaleDescendantAfterRename()
    ensures var a := Category(1, "A", "a", "", "", None, 0, "a", 0, 0);
      var b := Category(2, "B", "b", "", "", Some(1), 1, "a/b", 0, 0);
      var rows := map[1 := a, 2 := b];
      var req := UpdateCategoryRequest(None, Some("z"), None, None, None);
      && Consistent(rows)
      && ApplyUpdate(rows, a, req, 0).Ok?
      && !Consistent(rows[1 := ApplyUpdate(rows, a, req, 0).value])
  {
    var a := Category(1, "A", "a", "", "", None, 0, "a", 0, 0);
    var b := Category(2, "B", "b", "", "", Some(1), 1, "a/b", 0, 0);
    var rows := map[1 := a, 2 := b];
    assert PlacedConsistently(rows, 1);
    assert PlacedConsistently(rows, 2);
    var after := rows[1 := a.(slug := "z", path := "z")];
    assert ChildPath(after[1], "b") == "z/b";
    assert !PlacedConsistently(after, 2);
  }

  /**
   * Only direct self-parenting is rejected: moving a root under its own
   * child is accepted, and the saved table has a cycle.
   */
  lemma IndirectCycleAccepted()
    ensures var a := Category(1, "A", "a", "", "", None, 0, "a", 0, 0);
      var b := Category(2, "B", "b", "", "", Some(1), 1, "a/b", 0, 0);
      var rows := map[1 := a, 2 := b];
      var req := UpdateCategoryRequest(None, None, None, None, Some(2));
      && Acyclic(rows)
      && ApplyUpdate(rows, a, req, 0).Ok?
      && !Acyclic(rows[1 := ApplyUpdate(rows, a, req, 0).value])
  {
    var a := Category(1, "A", "a", "", "", None, 0, "a", 0, 0);
    var b := Category(2, "B", "b", "", "", Some(1), 1, "a/b", 0, 0);
    var rows := map[1 := a, 2 := b];
    assert Ranked(rows, map[1 := 0, 2 := 1]);
    var after := rows[1 := ApplyUpdate(rows, a, UpdateCategoryRequest(None, None, None, None, Some(2)), 0).value];
    assert after[1].parentId == Some(2);
    forall rank ensures !Ranked(after, rank) {
      TwoCycleUnranked(after, 1, 2, rank);
    }
  }

  /** Two rows that are each other's parent admit no rank. */
  lemma TwoCycleUnranked(rows: Rows, a: Id, b: Id, rank: map<Id, nat>)
    requires a in rows && b in rows
    requires rows[a].parentId == Some(b) && rows[b].parentId == Some(a)
    ensures !Ranked(rows, rank)
  {
  }

  /**
   * Before deleting the subtree of child `kid` of `id`: the subtree still
   * present is a proper part of the subtree of `id` in the original table,
   * which is what makes the recursion of `DeleteCategory` terminate.
   */
  lemma DeleteStepReady(orig: Rows, rows: Rows, rank: map<Id, nat>, id: Id, kid: Id)
    requires Ranked(orig, rank) && Submap(rows, orig)
    requires id in orig && kid in ChildSet(orig, id) && kid in rows
    ensures Ranked(rows, rank)
    ensures |Subtree(rows, kid)| < |Subtree(orig, id)|
  {
    ChildSubtree(orig, kid, id);
    ParentNotBelowChild(orig, rank, kid, id);
    RootOfSubtree(orig, id);
    SubtreeOfSubmap(rows, orig, kid);
    ProperSubsetSmaller(Subtree(rows, kid), Subtree(orig, id));
  }

  /** After deleting (part of) the subtree of child `kid` of `id`: what was removed lies below `kid`. */
  lemma DeleteStepDone(orig: Rows, before: Rows, after: Rows, rank: map<Id, nat>, id: Id, kid: Id)
    requires Ranked(orig, rank) && Submap(before, orig) && Submap(after, before)
    requires NoNewOrphans(orig, before) && NoNewOrphans(before, after)
    requires id in orig && kid in ChildSet(orig, id)
    requires before.Keys - after.Keys <= Subtree(before, kid)
    ensures NoNewOrphans(orig, after)
    ensures Subtree(before, kid) <= Subtree(orig, kid) <= Subtree(orig, id)
    ensures before.Keys - after.Keys <= Subtree(orig, kid)
    ensures id !in Subtree(orig, kid)
  {
    NoNewOrphansTrans(orig, before, after);
    SubtreeOfSubmap(before, orig, kid);
    ChildSubtree(orig, kid, id);
    ParentNotBelowChild(orig, rank, kid, id);
  }

  /** The children deleted so far stay deleted, and child `i` is now deleted too. */
  lemma PrefixGone(kids: seq<Id>, i: int, before: Rows, after: Rows)
    requires 0 <= i < |kids|
    requires forall j :: 0 <= j < i ==> kids[j] !in before
    requires after.Keys <= before.Keys && kids[i] !in after
    ensures forall j :: 0 <= j < i + 1 ==> kids[j] !in after
  {
  }

  /**
   * A cascade over the children `kids` that stopped at child `i`: the
   * subtrees of the children before it are wholly gone, those of the
   * children after it wholly kept, and child `i` is still there with a row
   * the database refused somewhere in its subtree.
   */
  ghost predicate StoppedAt(orig: Rows, rows: Rows, kids: seq<Id>, i: int, faults: set<Id>) {
    && 0 <= i < |kids|
    && kids[i] in rows
    && faults * Subtree(orig, kids[i]) != {}
    && (forall j :: 0 <= j < i ==> Subtree(orig, kids[j]) !! rows.Keys)
    && (forall j :: i < j < |kids| ==> Subtree(orig, kids[j]) <= rows.Keys)
  }

  /**
   * A failed cascading delete of `id`, seen per child: either every
   * child's subtree is gone and `id` itself was refused, or one child `f`
   * is still there with a refused row in its subtree, and the subtree of
   * every other child is either wholly gone or wholly kept.
   */
  ghost predicate StoppedBelow(orig: Rows, rows: Rows, id: Id, faults: set<Id>) {
    || (id in faults && forall c :: c in ChildSet(orig, id) ==> Subtree(orig, c) !! rows.Keys)
    || exists f :: && f in ChildSet(orig, id) && f in rows && faults * Subtree(orig, f) != {}
                  && forall c :: c in ChildSet(orig, id) && c != f ==>
                       Subtree(orig, c) !! rows.Keys || Subtree(orig, c) <= rows.Keys
  }

  /** A cascade stopped at some child is a delete stopped below the parent. */
  lemma StoppedAtIsStoppedBelow(orig: Rows, rows: Rows, id: Id, kids: seq<Id>, i: int, faults: set<Id>)
    requires forall c :: c in kids <==> c in ChildSet(orig, id)
    requires StoppedAt(orig, rows, kids, i, faults)
    ensures StoppedBelow(orig, rows, id, faults)
  {
    var f := kids[i];
    forall c | c in ChildSet(orig, id) && c != f
      ensures Subtree(orig, c) !! rows.Keys || Subtree(orig, c) <= rows.Keys
    {
      var j :| 0 <= j < |kids| && kids[j] == c;
    }
  }

  /** With every child gone, every child's subtree is gone. */
  lemma ChildSubtreesGone(orig: Rows, rows: Rows, id: Id)
    requires Submap(rows, orig) && NoNewOrphans(orig, rows)
    requires ChildSet(rows, id) == {}
    ensures forall c :: c in ChildSet(orig, id) ==> Subtree(orig, c) !! rows.Keys
  {
    forall c | c in ChildSet(orig, id) ensures Subtree(orig, c) !! rows.Keys {
      assert c !in ChildSet(rows, id);
      SubtreeGone(orig, rows, c);
    }
  }

  /**
   * The failure step of the cascade: child `i` failed, every earlier child
   * is gone, and what was removed lies in the earlier children's subtrees
   * (`gone`) or below child `i`, both disjoint from the later children's
   * subtrees.
   */
  lemma StopHere(orig: Rows, before: Rows, rows: Rows, kids: seq<Id>, i: int, gone: set<Id>, faults: set<Id>)
    requires 0 <= i < |kids|
    requires Submap(rows, orig) && NoNewOrphans(orig, rows) && Submap(before, orig)
    requires orig.Keys - before.Keys <= gone && before.Keys - rows.Keys <= Subtree(orig, kids[i])
    requires forall j :: 0 <= j < i ==> kids[j] !in rows
    requires forall j :: i < j < |kids| ==> Subtree(orig, kids[j]) !! gone
    requires forall j :: i < j < |kids| ==> Subtree(orig, kids[i]) !! Subtree(orig, kids[j])
    requires kids[i] in rows && faults * Subtree(orig, kids[i]) != {}
    ensures StoppedAt(orig, rows, kids, i, faults)
  {
    forall j | 0 <= j < i ensures Subtree(orig, kids[j]) !! rows.Keys {
      SubtreeGone(orig, rows, kids[j]);
    }
    forall j | i < j < |kids| ensures Subtree(orig, kids[j]) <= rows.Keys {
      forall k | k in Subtree(orig, kids[j]) ensures k in rows {
        assert k in orig;
      }
    }
  }

  /** Once every listed child is gone, the row has no children left. */
  lemma NoChildrenLeft(orig: Rows, rows: Rows, id: Id, kids: seq<Id>)
    requires Submap(rows, orig)
    requires forall c :: c in kids <==> c in ChildSet(orig, id)
    requires forall j :: 0 <= j < |kids| ==> kids[j] !in rows
    ensures ChildSet(rows, id) == {}
  {
    forall c | c in ChildSet(orig, id) ensures c !in rows {
      var j :| 0 <= j < |kids| && kids[j] == c;
    }
  }

  /**
   * The last step of a delete: once the subtree of `id` has no rows left
   * other than `id` itself, removing `id` leaves exactly the table minus
   * the subtree, and creates no orphans.
   */
  lemma DeleteLeafDone(orig: Rows, before: Rows, id: Id)
    requires Submap(before, orig) && NoNewOrphans(orig, before)
    requires id in before && ChildSet(before, id) == {}
    requires orig.Keys - before.Keys <= Subtree(orig, id)
    ensures var after := before - {id};
      && Submap(after, orig) && NoNewOrphans(orig, after)
      && after == orig - Subtree(orig, id)
  {
    var after := before - {id};
    assert NoNewOrphans(before, after) by {
      forall c | c in after && c in before && before[c].parentId.Some? && before[c].parentId.value in before
        ensures before[c].parentId.value in after
      {
        assert c !in ChildSet(before, id);
      }
    }
    NoNewOrphansTrans(orig, before, after);
    SubtreeGone(orig, after, id);
    RootOfSubtree(orig, id);
    assert after.Keys == (orig - Subtree(orig, id)).Keys;
  }

  /**
   * The parent filter of `FindCategories`: absent means no filter; "null"
   * and the empty string mean roots only; anything else is compared with
   * `parent_id` as a uuid.
   */
  datatype ParentFilter = AnyParent | RootsOnly | ChildrenOf(raw: string)

  function ParentFilterOf(parentId: Option<string>): ParentFilter {
    match parentId
    case None => AnyParent
    case Some(raw) => if raw == "null" || raw == "" then RootsOnly else ChildrenOf(raw)
  }

  /** The parent filter as a condition on `parent_id`: `None` for no condition. */
  function ResolvedParent(parentId: Option<string>, parseId: string -> Option<Id>): Option<Option<Id>> {
    match ParentFilterOf(parentId)
    case AnyParent => None
    case RootsOnly => Some(None)
    case ChildrenOf(raw) => Some(parseId(raw))
  }

  /** Row `c` passes a resolved parent filter (`None`: any parent) and a level filter. */
  predicate Matches(c: Category, parent: Option<Option<Id>>, level: Option<int>) {
    && (parent.None? || c.parentId == parent.value)
    && (level.None? || c.level == level.value)
  }

  /** `Matches` as the test a `WHERE` clause applies to each scanned row. */
  function MatchesFilter(parent: Option<Option<Id>>, level: Option<int>): Category -> bool {
    c => Matches(c, parent, level)
  }

  /** The rows of the scan that pass the filters, each once, in scan order. */
  function Select(scan: seq<Category>, parent: Option<Option<Id>>, level: Option<int>): (r: seq<Category>)
    ensures forall c :: c in r <==> c in scan && Matches(c, parent, level)
    ensures FiltersInOrder(scan, r, MatchesFilter(parent, level))
    ensures |r| <= |scan|
  {
    FilterInOrder(scan, MatchesFilter(parent, level));
    Filter(scan, MatchesFilter(parent, level))
  }

  /**
   * `FindCategories` over `scan`, the table in `name ASC` order. A parent
   * value that is not a uuid (`parseId` returns `None`) makes the query
   * fail, reported as a storage error.
   */
  function FindCategories(scan: seq<Category>, parentId: Option<string>, level: Option<int>, parseId: string -> Option<Id>): (r: Result<seq<Category>, CategoryError>)
    ensures r.Err? <==> ParentFilterOf(parentId).ChildrenOf? && parseId(parentId.value).None?
    ensures r.Err? ==> r.error == StorageError("fetch categories")
    ensures r.Ok? ==> FiltersInOrder(scan, r.value, MatchesFilter(ResolvedParent(parentId, parseId), level))
    ensures r.Ok? ==> forall c :: c in r.value <==>
      && c in scan
      && (level.None? || c.level == level.value)
      && match ParentFilterOf(parentId)
         case AnyParent => true
         case RootsOnly => c.parentId.None?
         case ChildrenOf(raw) => c.parentId == parseId(raw)
  {
    match ParentFilterOf(parentId)
    case AnyParent => Ok(Select(scan, None, level))
    case RootsOnly => Ok(Select(scan, Some(None), level))
    case ChildrenOf(raw) =>
      match parseId(raw)
      case None => Err(StorageError("fetch categories"))
      case Some(p) => Ok(Select(scan, Some(Some(p)), level))
  }

  /**
   * On the `level ASC` scan of a consistently placed table, the assembled
   * tree lists every root row once, in scan order, and every one of them
   * with an empty child list.
   */
  lemma ConsistentTreeIsFlat(rows: Rows, order: seq<Id>)
    requires Consistent(rows) && IsScan(rows, order)
    requires forall k :: k in rows ==> rows[k].id == k
    requires LevelSorted(ScanOf(rows, order))
    ensures Categories(AssembleTree(ScanOf(rows, order))) == RootRows(ScanOf(rows, order))
    ensures forall t :: t in AssembleTree(ScanOf(rows, order)) ==> t.children == []
  {
    var scan := ScanOf(rows, order);
    assert DistinctIds(scan);
    forall a, b | a in scan && b in scan && b.parentId == Some(a.id) ensures b.level == a.level + 1 {
      var i :| 0 <= i < |scan| && scan[i] == b;
      assert PlacedConsistently(rows, order[i]);
    }
    TreeRoots(scan);
    TreeRootsChildless(scan);
  }

  /** The `categories` table and its id generator. */
  class CategoryStore {
    var rows: Rows
    var nextId: Id

    /**
     * What the database guarantees: the primary key is the row's id, ids
     * come from the generator and are never `Nil`, and slugs are unique.
     */
    ghost predicate Valid()
      reads this
    {
      && nextId > Nil
      && (forall k :: k in rows ==> rows[k].id == k && Nil < k < nextId)
      && UniqueSlugs(rows)
    }

    constructor ()
      ensures Valid() && rows == map[]
    {
      rows := map[];
      nextId := 1;
    }

    /**
     * `DB.Create`: the database assigns the next id and enforces the unique
     * index; on any failure nothing is written.
     */
    method Insert(c: Category, fault: bool) returns (r: Result<Category, CategoryError>)
      requires Valid()
      modifies this
      ensures Valid()
      ensures r == InsertOutcome(old(rows), c.(id := old(nextId)), fault)
      ensures r.Ok? ==> rows == old(rows)[old(nextId) := r.value] && nextId == old(nextId) + 1
      ensures r.Err? ==> rows == old(rows) && nextId == old(nextId)
    {
      var row := c.(id := nextId);
      r := InsertOutcome(rows, row, fault);
      if r.Ok? {
        rows := rows[nextId := row];
        nextId := nextId + 1;
      }
    }

    /** `DB.Save` of an existing row: the unique index applies; on failure nothing is written. */
    method Save(c: Category, fault: bool) returns (r: Result<Category, CategoryError>)
      requires Valid() && c.id in rows
      modifies this
      ensures Valid() && nextId == old(nextId)
      ensures r == SaveOutcome(old(rows), c, fault)
      ensures r.Ok? ==> rows == old(rows)[c.id := c]
      ensures r.Err? ==> rows == old(rows)
    {
      r := SaveOutcome(rows, c, fault);
      if r.Ok? {
        rows := rows[c.id := c];
      }
    }

    /** `FindCategoryByID` without the display-only preloads. */
    function FindCategoryById(id: Id): (r: Result<Category, CategoryError>)
      requires Valid()
      reads this
      ensures r.Ok? <==> id in rows
      ensures r.Ok? ==> r.value.id == id && r.value == rows[id]
      ensures r.Err? ==> r.error == NotFound
    {
      if id in rows then Ok(rows[id]) else Err(NotFound)
    }

    /** `FindCategoryBySlug`: the row holding `slug`, which the unique index makes the only one. */
    method FindCategoryBySlug(slug: string) returns (r: Result<Category, CategoryError>)
      requires Valid()
      ensures r.Ok? ==> r.value.id in rows && rows[r.value.id] == r.value && r.value.slug == slug
      ensures r.Ok? ==> forall k :: k in rows && rows[k].slug == slug ==> k == r.value.id
      ensures r.Err? ==> r.error == NotFound && forall k :: k in rows ==> rows[k].slug != slug
    {
      var keys := rows.Keys;
      while keys != {}
        invariant keys <= rows.Keys
        invariant forall k :: k in rows && k !in keys ==> rows[k].slug != slug
        decreases keys
      {
        var k :| k in keys;
        if rows[k].slug == slug {
          return Ok(rows[k]);
        }
        keys := keys - {k};
      }
      return Err(NotFound);
    }

    /**
     * `CreateCategory`: placement first (a missing parent aborts before any
     * write), then the insert, whose uniqueness violation is reported as a
     * duplicate slug.
     */
    method CreateCategory(req: CreateCategoryRequest, now: Time, fault: bool) returns (r: Result<Category, CategoryError>)
      requires Valid()
      modifies this
      ensures Valid()
      ensures var placement := CreatePlacement(old(rows), req.parentId, req.slug);
        && (placement.Err? ==> r == Err(ParentNotFound))
        && (placement.Ok? ==> r == InsertOutcome(old(rows), NewRow(old(nextId), req, placement.value, now), fault))
      ensures r.Ok? ==> r.value.id == old(nextId) && r.value.id !in old(rows)
      ensures r.Ok? ==> rows == old(rows)[r.value.id := r.value] && nextId == old(nextId) + 1
      ensures r.Err? ==> rows == old(rows) && nextId == old(nextId)
      ensures Consistent(old(rows)) ==> Consistent(rows)
      ensures NoDangling(old(rows)) ==> NoDangling(rows)
      ensures NoSelfParent(old(rows)) ==> NoSelfParent(rows)
    {
      var level: int;
      var path: string;
      if req.parentId.Some? {
        if req.parentId.value !in rows {
          return Err(ParentNotFound);
        }
        var parent := rows[req.parentId.value];
        level := parent.level + 1;
        if parent.path != "" {
          path := parent.path + "/" + req.slug;
        } else {
          path := parent.slug + "/" + req.slug;
        }
      } else {
        level := 0;
        path := req.slug;
      }
      var newCategory := Category(Nil, req.name, req.slug, req.description, req.image, req.parentId,
                                  level, path, now, now);
      assert CreatePlacement(rows, req.parentId, req.slug) == Ok(Placement(level, path));
      r := Insert(newCategory, fault);
      if r.Ok? {
        assert r.value == NewRow(old(nextId), req, Placement(level, path), now);
        if Consistent(old(rows)) {
          ConsistentInsert(old(rows), r.value);
        }
      }
    }

    /** The plain-field phase of `UpdateCategory`, one `if` per present field. */
    static method EditFields(rows: Rows, existing: Category, req: UpdateCategoryRequest) returns (c: Category)
      ensures c == ApplyFields(rows, existing, req)
    {
      c := existing;
      if req.name.Some? {
        c := c.(name := req.name.value);
      }
      if req.slug.Some? {
        c := c.(slug := req.slug.value);
        if c.parentId.Some? {
          var parent := FetchOrZero(rows, c.parentId.value);
          c := c.(path := ChildPath(parent, req.slug.value));
        } else {
          c := c.(path := req.slug.value);
        }
      }
      if req.description.Some? {
        c := c.(description := req.description.value);
      }
      if req.image.Some? {
        c := c.(image := req.image.value);
      }
    }

    /** The parent phase of `UpdateCategory`: detach on `Nil`, otherwise check and attach. */
    static method ReparentRow(rows: Rows, c: Category, p: Id) returns (r: Result<Category, CategoryError>)
      ensures r == Reparent(rows, c, p)
    {
      if p == Nil {
        return Ok(c.(parentId := None, level := 0, path := c.slug));
      }
      if p !in rows {
        return Err(ParentNotFound);
      }
      var parent := rows[p];
      if parent.id == c.id {
        return Err(SelfParent);
      }
      r := Ok(c.(parentId := Some(p), level := parent.level + 1, path := ChildPath(parent, c.slug)));
    }

    /**
     * `UpdateCategory`: fetch, apply the present fields to the fetched row,
     * check a new parent, then save. Nothing is written on any error, and
     * no row other than `id` is ever written.
     */
    method UpdateCategory(id: Id, req: UpdateCategoryRequest, now: Time, fault: bool) returns (r: Result<Category, CategoryError>)
      requires Valid()
      modifies this
      ensures Valid() && nextId == old(nextId)
      ensures id !in old(rows) ==> r == Err(NotFound)
      ensures id in old(rows) ==>
        var plan := ApplyUpdate(old(rows), old(rows)[id], req, now);
        r == if plan.Err? then plan else SaveOutcome(old(rows), plan.value, fault)
      ensures r.Ok? ==> r.value.id == id && rows == old(rows)[id := r.value]
      ensures r.Err? ==> rows == old(rows)
    {
      if id !in rows {
        return Err(NotFound);
      }
      var existing := EditFields(rows, rows[id], req);
      if req.parentId.Some? {
        var placed := ReparentRow(rows, existing, req.parentId.value);
        if placed.Err? {
          return placed;
        }
        existing := placed.value;
      }
      existing := existing.(updatedAt := now);
      assert ApplyUpdate(rows, rows[id], req, now) == Ok(existing);
      r := Save(existing, fault);
    }

    /**
     * `FindCategoryTree` over the table read in the order `order`: the first
     * pass gives every row an entry with no children and maps its id to it;
     * the second pass copies each row's current entry to the roots or onto
     * its parent's entry.
     */
    method FindCategoryTree(order: seq<Id>) returns (roots: seq<TreeNode>)
      requires forall i :: 0 <= i < |order| ==> order[i] in rows
      ensures roots == AssembleTree(ScanOf(rows, order))
    {
      var categories := ScanOf(rows, order);
      var nodes, index := IndexEntries(categories);
      roots := LinkEntries(categories, nodes, index);
    }

    /** The first pass: one childless entry per row, in scan order, and the map from id to entry. */
    static method IndexEntries(categories: seq<Category>) returns (nodes: array<TreeNode>, index: map<Id, nat>)
      ensures fresh(nodes)
      ensures nodes[..] == Entries(categories) && index == IndexOf(categories)
    {
      nodes := new TreeNode[|categories|];
      index := map[];
      var i := 0;
      while i < |categories|
        invariant 0 <= i <= |categories|
        invariant nodes[..i] == Entries(categories)[..i]
        invariant index == IndexOf(categories[..i])
      {
        index := index[categories[i].id := i];
        nodes[i] := TreeNode(categories[i], []);
        assert categories[..i + 1][..i] == categories[..i];
        i := i + 1;
      }
      assert categories[..i] == categories;
    }

    /** The second pass: each row's current entry goes to the roots or onto its parent's entry. */
    static method LinkEntries(categories: seq<Category>, nodes: array<TreeNode>, index: map<Id, nat>)
      returns (roots: seq<TreeNode>)
      requires nodes[..] == Entries(categories) && index == IndexOf(categories)
      modifies nodes
      ensures nodes[..] == Linked(categories, |categories|).nodes
      ensures roots == AssembleTree(categories)
    {
      roots := [];
      var i := 0;
      while i < |categories|
        invariant 0 <= i <= |categories|
        invariant nodes[..] == Linked(categories, i).nodes
        invariant roots == Linked(categories, i).roots
      {
        ghost var a := Linked(categories, i);
        ghost var next := LinkStep(categories, index, a, i);
        assert Linked(categories, i + 1) == next;
        if categories[i].parentId.None? {
          roots := roots + [nodes[i]];
        } else {
          var p := categories[i].parentId.value;
          if p in index {
            var j := index[p];
            var entry := TreeNode(nodes[j].category, nodes[j].children + [nodes[i]]);
            nodes[j] := entry;
            assert nodes[..] == a.nodes[j := entry];
          }
        }
        i := i + 1;
      }
    }

    /** The children of `id` as the list `Preload("Children")` returns, in no particular order. */
    method ChildList(id: Id) returns (kids: seq<Id>)
      ensures forall c :: c in kids <==> c in ChildSet(rows, id)
      ensures Distinct(kids)
    {
      var left := ChildSet(rows, id);
      kids := [];
      while left != {}
        invariant forall c :: c in kids <==> c in ChildSet(rows, id) && c !in left
        invariant left <= ChildSet(rows, id)
        invariant Distinct(kids)
        decreases left
      {
        var c :| c in left;
        kids := kids + [c];
        left := left - {c};
      }
    }

    /**
     * `DeleteCategory`: refuse a row with children unless `deleteChildren`;
     * otherwise delete each child's subtree depth-first (always with
     * cascade), stopping at the first failure, and the row itself last.
     * `faults` are the rows whose deletion the database refuses. The
     * recursion only ends on an acyclic table.
     */
    method DeleteCategory(id: Id, deleteChildren: bool, faults: set<Id>) returns (err: Option<CategoryError>)
      requires Valid() && Acyclic(rows)
      modifies this
      ensures Valid() && nextId == old(nextId)
      ensures Submap(rows, old(rows)) && NoNewOrphans(old(rows), rows)
      ensures old(rows).Keys - rows.Keys <= Subtree(old(rows), id)
      ensures id !in old(rows) ==> err == Some(NotFound)
      ensures id in old(rows) && ChildSet(old(rows), id) != {} && !deleteChildren ==>
        err == Some(HasChildren) && rows == old(rows)
      ensures err.None? ==> id in old(rows) && rows == old(rows) - Subtree(old(rows), id)
      ensures err.Some? && id in old(rows) ==> id in rows
      ensures err.Some? && err.value.StorageError? ==> faults * Subtree(old(rows), id) != {}
      ensures id in old(rows) && (deleteChildren || ChildSet(old(rows), id) == {}) && faults !! Subtree(old(rows), id) ==>
        err.None?
      ensures id in old(rows) && deleteChildren && err.Some? ==> err.value.StorageError?
      ensures id in old(rows) && err.Some? && err.value.StorageError? ==> StoppedBelow(old(rows), rows, id, faults)
      decreases |Subtree(rows, id)|, 1
    {
      if id !in rows {
        return Some(NotFound);
      }
      RootOfSubtree(rows, id);
      var kids := ChildList(id);
      if |kids| > 0 {
        if !deleteChildren {
          assert kids[0] in ChildSet(rows, id);
          return Some(HasChildren);
        }
        err := DeleteChildren(id, kids, faults);
        if err.Some? {
          ghost var i :| StoppedAt(old(rows), rows, kids, i, faults);
          StoppedAtIsStoppedBelow(old(rows), rows, id, kids, i, faults);
          return;
        }
      }
      if id in faults {
        ChildSubtreesGone(old(rows), rows, id);
        RootOfSubtree(old(rows), id);
        assert id in faults * Subtree(old(rows), id);
        return Some(StorageError("delete category"));
      }
      DeleteLeafDone(old(rows), rows, id);
      rows := rows - {id};
      err := None;
    }

    /**
     * The loop of `DeleteCategory` over the children `kids` of `id`: each
     * child's subtree is deleted with cascade, in list order, and the first
     * failure stops the loop. On success `id` has no children left.
     */
    method DeleteChildren(id: Id, kids: seq<Id>, faults: set<Id>) returns (err: Option<CategoryError>)
      requires Valid() && Acyclic(rows) && id in rows
      requires forall c :: c in kids <==> c in ChildSet(rows, id)
      requires Distinct(kids)
      modifies this
      ensures Valid() && nextId == old(nextId)
      ensures Submap(rows, old(rows)) && NoNewOrphans(old(rows), rows)
      ensures old(rows).Keys - rows.Keys <= Subtree(old(rows), id)
      ensures id in rows
      ensures err.None? ==> ChildSet(rows, id) == {}
      ensures err.Some? ==> err.value.StorageError? && faults * Subtree(old(rows), id) != {}
      ensures err.Some? ==> exists i :: StoppedAt(old(rows), rows, kids, i, faults)
      decreases |Subtree(rows, id)|, 0
    {
      ghost var rank :| Ranked(rows, rank);
      var i := 0;
      ghost var gone: set<Id> := {};
      while i < |kids|
        invariant 0 <= i <= |kids|
        invariant Valid() && nextId == old(nextId)
        invariant Submap(rows, old(rows)) && NoNewOrphans(old(rows), rows)
        invariant old(rows).Keys - rows.Keys <= gone <= Subtree(old(rows), id)
        invariant id !in gone
        invariant forall j :: i <= j < |kids| ==> kids[j] !in gone
        invariant forall j :: i <= j < |kids| ==> Subtree(old(rows), kids[j]) !! gone
        invariant forall j :: 0 <= j < i ==> kids[j] !in rows
      {
        var kid := kids[i];
        ghost var before := rows;
        DeleteStepReady(old(rows), rows, rank, id, kid);
        var e := DeleteCategory(kid, true, faults);
        DeleteStepDone(old(rows), before, rows, rank, id, kid);
        forall j | i < j < |kids| ensures Subtree(old(rows), kid) !! Subtree(old(rows), kids[j]) {
          SiblingSubtreesDisjoint(old(rows), rank, id, kid, kids[j]);
        }
        if e.Some? {
          StopHere(old(rows), before, rows, kids, i, gone, faults);
          return e;
        }
        RootOfSubtree(before, kid);
        PrefixGone(kids, i, before, rows);
        forall j | i < j < |kids| ensures kids[j] !in Subtree(old(rows), kid) {
          SiblingNotBelowSibling(old(rows), rank, id, kid, kids[j]);
        }
        gone := gone + Subtree(old(rows), kid);
        i := i + 1;
      }
      NoChildrenLeft(old(rows), rows, id, kids);
      err := None;
    }
  }
}
