# Travel blog backend: a verified model of its core

The travel blog backend is a Go web service (gin + gorm over PostgreSQL).
This project models its core in Dafny and proves properties of the model.
The core has three parts:

- **Category hierarchy.** Categories form a forest through `parent_id`.
  Every row also stores two *materialized* columns: `level` (its depth) and
  `path` (the slugs from the root down to the row, joined with "/").
  - The service places new rows, re-places updated ones and filters
    listings.
  - It assembles the whole tree for the tree endpoint.
  - It deletes a row either alone or with its whole subtree.
  - The migration tool seeds the table from a nested seed file, depth-first.
- **Posts.**
  - Create applies column defaults and a publication date.
  - Update writes only the fields that are present, follows a first-publication
    rule, and replaces the category links as a write of its own.
  - Listings and search return one page through `LIMIT`/`OFFSET`.
  - Lookups by id and by slug; delete.
- **Users (admin).** The public view of a user, listing, partial update and
  delete.

On top of the services sit the HTTP controllers. They parse query strings
(Go's `strconv.Atoi` and `DefaultQuery` semantics) and switch on the
service's error text to pick a status code and a `status` word ("fail" or
"error").

## How the model is built

- **Tables.** Each table is a Dafny `map` from id to row, held by a class:
  - `CategoryStore` (`rows`, `nextId`);
  - `PostStore` (`posts`, `nextId`);
  - `UserStore` (`users`).

  A class's `Valid()` states what the database guarantees: primary keys,
  generated ids, and the unique indexes on the category slug, the post
  title and slug, and the user e-mail.
- **Operations that change or scan the tables** are methods with `modifies`
  clauses, loops and invariants, written in the order the Go code performs
  its steps. Each is proved against a specification function:
  - `ApplyUpdate`, `UpdateEffect` and `Edited` for the updates;
  - `AssembleTree` for the tree;
  - `SeedForest` for the seeder;
  - `ResolvedCategories` for the category lookups of the post service.
- **Pure logic is functions:** placement, filters, pagination windows,
  reply mapping and query parsing.
- **Inputs instead of I/O:**
  - `time.Now()` becomes the parameter `now`.
  - The uuid generator becomes `nextId`.
  - `uuid.Parse` becomes a function parameter `parseId`.
  - A database failure other than a uniqueness violation becomes a boolean
    fault (`fault`, `replaceFault`, `saveFault`) or a set of faulty rows.
  - The order a `SELECT ... ORDER BY` returns becomes an input sequence
    `order` that lists every row once.
- **Integers.** Go's 64-bit `int` is modelled where it matters: `Atoi`'s
  range, and the wrap-around of the pagination offset, which the listing
  and search operations use as written.
- **Filters keep scan order.** Every `WHERE` over an ordered scan is the
  generic `Filter`, proved to keep exactly the matching rows, each once and
  in scan order (`FiltersInOrder`).

## Model

| member | source | states |
|---|---|---|
| Common.Wrap64 | services/post.service.go:207 | The two's-complement result of an int64 product: in int64 range, congruent to the exact value modulo 2^64, and equal to it when it fits |
| StrConv.Atoi | controllers/category.controller.go:121-126 | Whatever it accepts is in int64 range |
| StrConv.AtoiSyntax | controllers/category.controller.go:121-126 | A string parses exactly when it is an optional sign followed by one or more ASCII digits whose value fits in int64, and then to that value |
| StrConv.AtoiRejects | controllers/post.controller.go:114-122 | The empty string, a lone sign, surrounding spaces, digit separators, a double sign and hexadecimal are all rejected |
| StrConv.AtoiItoa | controllers/post.controller.go:114-122 | Every int64 written in decimal parses back to itself |
| StrConv.AtoiPlusSign | controllers/post.controller.go:114 | A leading "+" does not change the parsed value |
| StrConv.LeadingZero | controllers/post.controller.go:114 | Leading zeros do not change the value of a digit string |
| CategoryModel.MessageHead | services/category.service.go:64-66 | Only storage errors have a text starting with "failed to" |
| CategoryModel.MessageInjective | controllers/category.controller.go:32-39 | Two different service errors never have the same text, so the controllers' switch on the text is a switch on the error kind |
| CategoryModel.MessageIs | controllers/category.controller.go:58-69 | The text of an error equals the text of a kind exactly when the error is that kind |
| Hierarchy.ChildSubtree | services/category.service.go:279-283 | The subtree of a child lies inside the subtree of its parent |
| Hierarchy.ParentNotBelowChild | services/category.service.go:279-283 | In an acyclic table a row is never in the subtree of one of its own children, so the recursive delete never returns to it |
| Hierarchy.SiblingNotBelowSibling | services/category.service.go:279-283 | In an acyclic table the subtrees of two different children of a row are disjoint, so deleting one child's subtree leaves the later children in place |
| Hierarchy.SubtreeGone | services/category.service.go:287-290 | If only childless rows were removed and a row is gone, its whole former subtree is gone |
| Hierarchy.NoDanglingKept | services/category.service.go:274-290 | Removing rows without creating orphans keeps every parent link pointing at an existing row |
| Placement.ChildPathShape | services/category.service.go:40-44 | A child's path is the parent's prefix, "/" and the slug, and splits back into them |
| Placement.CreatePlacement | services/category.service.go:28-47 | A missing parent is "parent category not found"; a root gets level 0 and its slug as path; a child gets its parent's level + 1; the path always ends with the slug |
| Placement.SlugChain | models/category.model.go:18-22 | The chain of slugs from the root down to a row ends with the row's own slug |
| Placement.MaterializedPath | models/category.model.go:18-22 | In a consistently placed acyclic table, a row's path is the "/"-join of its ancestors' slugs and its own, and its level is its depth |
| Placement.PathEndsWithSlug | models/category.model.go:21-22 | In a consistently placed table every path ends with the row's slug |
| Placement.ConsistentIsAcyclic | models/category.model.go:18-21 | Levels strictly grow from parent to child, so a consistently placed table has no cycle |
| Placement.ConsistentInsert | services/category.service.go:28-67 | Inserting a row placed by the create rule keeps the table consistently placed |
| Placement.ConsistentRemoval | services/category.service.go:274-290 | Removing rows without creating orphans keeps the table consistently placed |
| TreeBuilder.Categories | services/category.service.go:230-261 | The categories of a node list are listed in order, one per node |
| TreeBuilder.RootRows | services/category.service.go:250-251 | A row is a root row exactly when it is in the scan with no parent |
| TreeBuilder.ChildRows | services/category.service.go:252-256 | A row is a child row of `id` exactly when it is in the scan with parent `id` |
| TreeBuilder.IndexOf | services/category.service.go:243-246 | The id map of the first pass points inside the scan |
| TreeBuilder.IndexOfFacts | services/category.service.go:243-246 | The id map holds exactly the ids of the scan, each pointing at a row with that id |
| TreeBuilder.Linked | services/category.service.go:249-258 | After any number of second-pass steps there is still one entry per row |
| TreeBuilder.LinkedCategory | services/category.service.go:249-258 | The second pass only changes child lists; every entry keeps its row |
| TreeBuilder.LinkedRoots | services/category.service.go:250-251 | After n steps, the root list is the root rows of the first n rows, in scan order |
| TreeBuilder.LinkedChildren | services/category.service.go:252-256 | After n steps, each entry's child list is the rows among the first n that name it as parent, in scan order |
| TreeBuilder.TreeRoots | services/category.service.go:230-261 | The returned list is exactly the root rows of the scan, in scan order |
| TreeBuilder.OrphanNotRoot | services/category.service.go:252-256 | A row with a parent is never returned as a root |
| TreeBuilder.OrphanNotChild | services/category.service.go:253-256 | A row whose parent is not in the scan is on no child list: it is dropped |
| TreeBuilder.LevelOrderPutsParentsFirst | services/category.service.go:233 | The `level ASC` order puts every parent before its children when levels step by one |
| TreeBuilder.EntryEmptyWhenVisited | services/category.service.go:243-258 | With parents first, a row's entry has no children yet when the second pass copies it |
| TreeBuilder.LinkedRootsChildless | services/category.service.go:249-258 | With parents first, every root copied by the second pass has an empty child list |
| TreeBuilder.TreeRootsChildless | services/category.service.go:230-261 | On the `level ASC` scan, every returned root has no children (the value-copy behaviour) |
| TreeBuilder.MaxLevel | services/category.service.go:233 | An upper bound of every level in the scan |
| TreeBuilder.Nest | services/category.service.go:230-261 | The fully nested node of a row carries that row |
| TreeBuilder.NestAll | services/category.service.go:230-261 | Nesting a list of rows gives one node per row, in order |
| TreeBuilder.NestWellNested | services/category.service.go:230-261 | A nested node lists exactly its child rows at every depth |
| TreeBuilder.NestAllWellNested | services/category.service.go:230-261 | Every node of a nested list is well nested |
| TreeBuilder.NestedForestWellNested | services/category.service.go:230-261 | The corrected forest lists the root rows in scan order, and each one carries its full subtree |
| TreeBuilder.RootLosesItsChild | services/category.service.go:249-258 | For a root and its child, the assembled tree returns the root with no children |
| TreeBuilder.RootKeepsItsChildNested | services/category.service.go:249-258 | For the same input, the nested forest returns the root carrying its child |
| Common.FilterInOrder | services/category.service.go:208 | A `WHERE` over an ordered scan keeps exactly the matching rows, each once, in scan order: the kept positions are strictly increasing and are exactly the positions of matching rows |
| CategoryService.Select | services/category.service.go:193-210 | Keeps exactly the scanned rows that pass the parent and level filters, each once and in scan order |
| CategoryService.FindCategories | services/category.service.go:191-216 | Absent parent: no filter. "null" or "": roots only. A non-uuid parent: error "fetch categories". Otherwise the rows with that parent. The level filter applies when given. The result keeps the `name ASC` scan order, one entry per matching row |
| CategoryService.UpdateAppliesPresentFields | services/category.service.go:89-112 | Only present fields change, and a present empty string does overwrite; id and creation time are kept; the timestamp becomes `now` |
| CategoryService.UpdateWithoutPlacementFields | services/category.service.go:89-160 | Without `slug` and `parent_id` the update cannot fail and keeps parent, level and path |
| CategoryService.UpdateSlugRebuildsPath | services/category.service.go:92-106 | A new slug makes a root's path the slug. A child keeps its level and its path is rebuilt from a fresh read of the parent; an unreadable parent gives "/" + slug |
| CategoryService.UpdateReparent | services/category.service.go:115-144 | `Nil` detaches to a root (level 0, path = slug). A missing parent is "parent category not found". The row itself is "category cannot be its own parent". Any other row becomes the parent with level + 1 and its path |
| CategoryService.UpdateErrors | services/category.service.go:115-144 | Before the save, an update can only fail on the two parent checks |
| CategoryService.UpdatedRowPlaced | services/category.service.go:89-144 | In a consistently placed table, a successful update leaves the updated row placed according to its (new) parent |
| CategoryService.UpdateOfLeafKeepsConsistency | services/category.service.go:76-160 | Updating a row without children keeps the table consistently placed |
| CategoryService.UpdateKeepsLinks | services/category.service.go:115-144 | A successful update leaves no dangling parent link and no direct self-parent |
| CategoryService.StaleDescendantAfterRename | services/category.service.go:92-106 | Renaming the slug of a row that has a child leaves the child's stored path stale |
| CategoryService.IndirectCycleAccepted | services/category.service.go:132-134 | Only direct self-parenting is rejected: moving a root under its own child is saved and creates a cycle |
| CategoryService.TwoCycleUnranked | services/category.service.go:132-134 | Two rows that are each other's parent form a cycle |
| CategoryService.DeleteStepReady | services/category.service.go:279-283 | Before each recursive call, the child's remaining subtree is strictly smaller than the parent's original subtree: the recursion terminates on an acyclic table |
| CategoryService.DeleteStepDone | services/category.service.go:279-283 | What a recursive call removed lies in the child's subtree, which excludes the parent |
| CategoryService.NoChildrenLeft | services/category.service.go:279-285 | Once every listed child is gone, the row has no children left |
| CategoryService.DeleteLeafDone | services/category.service.go:287-290 | Deleting the row last leaves exactly the original table minus its subtree, with no orphans |
| CategoryService.ConsistentTreeIsFlat | services/category.service.go:230-261 | On a consistently placed table, the tree endpoint returns every root once, in scan order, each with an empty child list |
| CategoryService.CategoryStore.constructor | models/category.model.go:10-27 | An empty table satisfies the key, id and unique-slug invariants |
| CategoryService.CategoryStore.Insert | services/category.service.go:61-67 | A create either writes the row under a fresh id, or reports the storage fault or the duplicate slug and writes nothing |
| CategoryService.CategoryStore.Save | services/category.service.go:148-154 | A save either overwrites the row, or reports the storage fault or the duplicate slug and writes nothing |
| CategoryService.CategoryStore.FindCategoryById | services/category.service.go:163-174 | The row with that id; "category not found" exactly when there is none |
| CategoryService.CategoryStore.FindCategoryBySlug | services/category.service.go:177-188 | The only row holding the slug, or "category not found" exactly when no row holds it |
| CategoryService.CategoryStore.CreateCategory | services/category.service.go:24-73 | Placement first: a missing parent aborts before any write. Then the insert's outcome. Consistent placement, the absence of dangling links and of self-parents are all preserved |
| CategoryService.CategoryStore.EditFields | services/category.service.go:89-112 | The field phase of the update, one `if` per present field, equals `ApplyFields` |
| CategoryService.CategoryStore.ReparentRow | services/category.service.go:115-144 | The parent phase of the update equals `Reparent` |
| CategoryService.CategoryStore.UpdateCategory | services/category.service.go:76-160 | A missing row is "category not found". Otherwise the result is the planned update or its error, then the save's outcome. Only row `id` is ever written, and nothing is written on any error |
| CategoryService.CategoryStore.FindCategoryTree | services/category.service.go:230-261 | The two-pass array algorithm returns exactly `AssembleTree` of the scan |
| CategoryService.CategoryStore.IndexEntries | services/category.service.go:243-246 | The first pass: one childless entry per row, and the id-to-entry map |
| CategoryService.CategoryStore.LinkEntries | services/category.service.go:249-258 | The second pass: each row's current entry is copied to the roots or onto its parent's entry |
| CategoryService.CategoryStore.ChildList | services/category.service.go:266 | The preloaded children: exactly the rows whose parent is `id`, without repetition |
| CategoryService.CategoryStore.DeleteCategory | services/category.service.go:264-293 | A missing row is "category not found". A row with children and no cascade is "has children" and nothing changes. Success removes exactly the subtree. A failure keeps the row and comes from a faulty row of the subtree. A storage failure leaves each child subtree wholly gone or wholly kept, except one child that is still there with a refused row below it; or all child subtrees are gone and the row itself was refused. No orphans are left |
| CategoryService.CategoryStore.DeleteChildren | services/category.service.go:279-285 | Deletes each child's subtree in list order and stops at the first failure: on failure at child i, the subtrees of the children before i are gone, those after i are untouched, and child i is still there with a refused row in its subtree. On success the row has no children; removed rows lie in its subtree |
| CategoryService.StopHere | services/category.service.go:280-282 | When child i fails after its earlier siblings were deleted, the table is in exactly that stopped state |
| CategoryService.StoppedAtIsStoppedBelow | services/category.service.go:279-283 | A cascade stopped at one child in the list is the per-child failure state of the parent |
| CategoryService.ChildSubtreesGone | services/category.service.go:279-288 | Once a row has no children left, every former child's whole subtree is gone |
| Hierarchy.SiblingSubtreesDisjoint | services/category.service.go:279-283 | In an acyclic table the subtrees of two different children of one row share no row |
| Hierarchy.AncestorSplit | services/category.service.go:279-283 | An ancestor walk continues from any row it passes through |
| CategoryController.CreateCategoryReply | controllers/category.controller.go:30-43 | 201 with the row. Duplicate slug: 409. Missing parent: 404. Anything else: 502. The status word matches the code |
| CategoryController.UpdateCategoryReply | controllers/category.controller.go:56-73 | 200 with the row. Both not-found texts: 404. Own parent: 400. Duplicate slug: 409. Storage errors: 502 |
| CategoryController.FindCategoryReply | controllers/category.controller.go:80-109 | 200 with the row; 404 exactly for "category not found", otherwise 502 |
| CategoryController.DeleteCategoryReply | controllers/category.controller.go:177-192 | 204 on success. Not found: 404. Has children: 400. Anything else: 502 |
| CategoryController.FindCategoriesReply | controllers/category.controller.go:113-139 | 502 "failed to fetch categories" exactly when `parent_id` is not empty, not "null" and not a uuid. Otherwise 200 with the rows of the `name ASC` scan that pass the filters read from the query ("null" for roots, an unparsable `level` ignored), each once, in scan order |
| CategoryController.ParentQueryFilters | controllers/category.controller.go:115-118 | Through the controller the roots-only filter is reached only by "null", and no filter only by the empty value |
| CategoryController.MalformedLevelIgnored | controllers/category.controller.go:120-126 | A `level` that is not an int64 gives the unfiltered reply |
| CategoryController.LevelQueryReadsIntegers | controllers/category.controller.go:120-126 | Every int64 written in decimal becomes the level filter |
| CategoryController.DeleteChildrenOnlyForTrue | controllers/category.controller.go:175 | Cascade is on exactly for the text "true"; an absent parameter means off |
| CategoryController.SearchCategoriesQuery | controllers/category.controller.go:216-220 | An empty `q` is answered 400 "search query is required"; any other is passed on |
| Seeder.SeedForestGrowth | migrate/migrate.go:111-158 | Seeding only adds rows and keeps the old ones. It hands out one id per created row, at most one per seed node |
| Seeder.SeedTreeGrowth | migrate/migrate.go:125-154 | The same for one node and its subtree |
| Seeder.SeedForestConsistent | migrate/migrate.go:111-158 | With non-empty slugs, seeding keeps the table consistently placed: every seeded row has the level and path the service's placement rule gives |
| Seeder.SeedTreeConsistent | migrate/migrate.go:115-154 | The same for one node and its subtree |
| Seeder.SeedInsertConsistent | migrate/migrate.go:117-141 | Inserting one node's row keeps the table consistent and places its children one level below it, under its path |
| Seeder.SeedRowPlaced | migrate/migrate.go:117-135 | The seeder's level and path for a node are the ones `CreateCategory` would compute |
| Seeder.ChildrenNoEmptySlugs | migrate/migrate.go:151-154 | The slugs below a node are among the slugs of its tree |
| Seeder.SeedTreeCreated | migrate/migrate.go:137-154 | A node whose slug is free and not faulty is created, and its children are seeded under it |
| Seeder.SeedForestAllCreated | migrate/migrate.go:111-158 | With no faults and no slug clashes, every node is created and the i-th node in depth-first pre-order gets the i-th id |
| Seeder.SeedTreeAllCreated | migrate/migrate.go:115-154 | The same for one node and its subtree |
| Seeder.SeedRecursive | migrate/migrate.go:111-158 | The recursive seeding loop equals `SeedForest`. Its count is the number of rows created |
| Seeder.SeedCategories | migrate/migrate.go:59-78 | A non-empty table is left alone. An empty one is seeded from the top level, creating at most one row per node and keeping it consistently placed |
| PostModel.WithColumnDefaults | models/post.model.go:55-58 | On insert, zero reading time, views and likes become 3, 23 and 99. Comments stay as given. Nothing else changes |
| PostModel.PostMessageHead | services/post.service.go:67-70 | Only storage errors have a text starting with "failed to" |
| PostModel.PostMessageIs | controllers/post.controller.go:33-38 | The text of an error equals the text of a kind exactly when the error is that kind |
| Pagination.OffsetAsWritten | services/post.service.go:207 | The offset computed in int64: in range, and exact when the product fits |
| Pagination.Offset | services/post.service.go:207 | The exact offset: never negative for page >= 1, and at least page - 1 for limit >= 1 |
| Pagination.Window | services/post.service.go:230 | `LIMIT`/`OFFSET`: at most `limit` rows. A non-positive offset skips nothing; an offset past the end gives nothing. Row j is row offset + j |
| Pagination.WindowWithin | services/post.service.go:229 | A page holds only rows of the listing it is cut from |
| Pagination.PagesTile | services/post.service.go:207 | With the exact offset, row i is entry i % limit of page i / limit + 1 and of no other page |
| Pagination.OffsetWrapsToFirstPage | services/post.service.go:207 | Page 2^62 + 1 with limit 4 wraps the offset to 0 and returns the first page where an empty page was meant |
| PostService.ResolvedCategories | services/post.service.go:29-40 | Never more kept ids than requested |
| PostService.ResolvedCategoriesMembers | services/post.service.go:29-40 | An id is kept exactly when it exists and some requested text parses to it |
| PostService.ResolvedCategoriesConcat | services/post.service.go:147-156 | Resolution keeps request order: resolving a concatenation concatenates the results |
| PostService.ResolveCategories | services/post.service.go:29-40 | The loop that skips unparsable and missing ids equals `ResolvedCategories` |
| PostService.CreatedRow | services/post.service.go:42-63 | The inserted row carries the request's fields, the author, the kept categories and both timestamps `now`. It is dated exactly when published, and zero metrics get the column defaults |
| PostService.CreateOutcome | services/post.service.go:65-71 | An insert succeeds exactly without a fault and without a title or slug clash. Otherwise "create post" on a fault, else the duplicate error |
| PostService.UpdateEffectSaves | services/post.service.go:159-169 | On the successful path, the saved row overwrites the relinked one and the update returns it |
| PostService.UpdateAppliesPresentFields | services/post.service.go:93-164 | Absent fields keep their values; present ones overwrite even with a zero value. `published` and the category links follow the request; the timestamp becomes `now` |
| PostService.PublishDateRule | services/post.service.go:134-142 | The date is set to `now` exactly on a false-to-true change of an undated post; otherwise it is kept, so it is never cleared or moved |
| PostService.UpdateKeepsPublishedDated | services/post.service.go:134-142 | An update keeps a published post dated |
| PostService.UpdateEffectOutcomes | services/post.service.go:145-169 | A replace failure changes nothing. A save failure is never reported as a duplicate and leaves the new links written. Success writes exactly the updated row |
| PostService.SaveFailureKeepsNewLinks | services/post.service.go:159-169 | A save that fails after a successful replace leaves the table changed in the links only |
| PostService.UpdateEffectKeepsUnique | services/post.service.go:145-169 | Whatever the outcome, titles and slugs stay unique and every row stays under its own id |
| PostService.RelinkKeepsInvariants | services/post.service.go:159-161 | Replacing the links of one row keeps keys, ids, titles and slugs, their uniqueness, and publication dates |
| PostService.StoreKeepsInvariants | services/post.service.go:166-169 | Saving a row under its id keeps rows keyed. It keeps titles and slugs unique when no other row holds them, and published rows dated when the row is |
| PostService.FilterPosts | services/post.service.go:212-220 | Keeps exactly the scanned posts that pass the published filter and are linked to the category, each once and in scan order |
| PostService.SearchHits | services/post.service.go:275-280 | Keeps exactly the scanned posts that are published and match the search, each once and in scan order |
| PostService.PostStore.constructor | models/post.model.go:37-67 | An empty table satisfies the key, id and uniqueness invariants |
| PostService.PostStore.CreatePost | services/post.service.go:24-77 | The outcome is `CreateOutcome` of `CreatedRow` under the next id. Success adds exactly that row; an error writes nothing. Published rows stay dated |
| PostService.PostStore.EditFields | services/post.service.go:93-142 | The field and publishing phases, one `if` per present field, equal `ApplyPublish` after `ApplyPostFields` |
| PostService.PostStore.Relink | services/post.service.go:159-161 | The association replace changes only the links of one row and keeps the invariants |
| PostService.PostStore.Save | services/post.service.go:166-169 | The save overwrites one row and keeps the invariants |
| PostService.PostStore.UpdatePost | services/post.service.go:80-175 | A missing post is "post not found" and nothing changes. Otherwise the result and the new table are exactly `UpdateEffect`. Published rows stay dated |
| PostService.PostStore.FindPostById | services/post.service.go:178-189 | The row with that id; "post not found" exactly when there is none |
| PostService.PostStore.FindPostBySlug | services/post.service.go:192-203 | The only row holding the slug, or "post not found" exactly when no row holds it |
| PostService.PostStore.DeletePost | services/post.service.go:239-250 | A fault is "delete post" and nothing changes. No affected row is "post not found". Otherwise exactly that row is removed |
| PostService.ScanPosts | services/post.service.go:229-230 | The rows in scan order, one per listed id |
| PostService.ScanCardinality | services/post.service.go:223-226 | A scan has as many entries as the table has rows |
| PostService.FindPosts | services/post.service.go:206-236 | A non-empty category that is not a uuid fails the count ("count posts"). Otherwise the page is the window of the filtered `created_at DESC` scan that `LIMIT limit OFFSET (page-1)*limit` selects, with the offset computed in int64 as written; the total is the length of the filtered scan |
| PostService.Listing | services/post.service.go:207-235 | The page holds at most `limit` table rows, all passing the filters, and is the window at the int64 offset of the filtered scan; the total is the length of the filtered scan |
| PostService.ListingTotal | services/post.service.go:222-226 | The total of a listing is the number of table rows that pass the filters |
| PostService.MatchingCount | services/post.service.go:222-226 | The filtered scan has exactly one entry per table row that passes the filters |
| PostService.FilteredIds | services/post.service.go:222-226 | An in-order filter of a scan has as many entries as the table has rows that the filter keeps |
| PostService.ScanRowsKeyed | services/post.service.go:229-230 | Every entry of a scan is the row stored under its own id |
| PostService.ListingWrapsToFirstPage | services/post.service.go:207 | As written, page 2^62 + 1 with limit 4 returns the same page as page 1, which is non-empty whenever some row matches |
| PostService.ListingCountsEveryMatch | services/post.service.go:223-226 | Every table row that passes the filters is in the listing the total counts |
| PostService.SearchPosts | services/post.service.go:271-296 | The page is the window at the int64 offset `(page-1)*limit` of the published, matching posts of the `created_at DESC` scan; the total is the number of those posts |
| PostService.SearchTotal | services/post.service.go:282-285 | The total of a search is the number of published table rows that match |
| PostController.PositiveParam | controllers/post.controller.go:114-122 | The parsed value when it is an int64 >= 1; otherwise the default (which also stands for an absent parameter); always >= 1 |
| PostController.PageParam | controllers/post.controller.go:114-117 | `page` is always >= 1 |
| PostController.LimitParam | controllers/post.controller.go:119-122 | `limit` is always >= 1 |
| PostController.PositiveParamReads | controllers/post.controller.go:114-122 | Every positive int64 written in decimal is taken as it is; absence gives the default |
| PostController.PositiveParamRejects | controllers/post.controller.go:114-122 | A malformed value or one below 1 gives the default |
| PostController.NormalisedOffsetNonNegative | controllers/post.controller.go:114-137 | The service always gets a positive limit and a non-negative exact offset, equal to the computed one whenever it fits in int64 |
| PostController.PublishedQuery | controllers/post.controller.go:125-129 | Empty means no filter; otherwise the filter is "published" exactly for the text "true" |
| PostController.CategoryQuery | controllers/post.controller.go:132-135 | Empty means no filter; otherwise the text is passed on |
| PostController.FindPostsReply | controllers/post.controller.go:113-152 | 200 with the normalised page and limit, the window of the filtered scan at the int64 offset, and the filtered total. It is 502 ("failed to count posts") exactly for a non-empty, non-uuid category |
| PostController.SearchPostsReply | controllers/post.controller.go:155-187 | An empty `q` is 400 "search query is required". Otherwise 200 with the normalised page and limit, the window of the published, matching posts at the int64 offset, and their total |
| PostController.CreatePostReply | controllers/post.controller.go:31-42 | 201 with the post; 409 exactly for the duplicate error, otherwise 502 |
| PostController.UpdatePostReplyAsWritten | controllers/post.controller.go:56-67 | 200 with the post; 404 exactly for "post not found", otherwise 502; every failure is labelled "fail" |
| PostController.UpdateFailureLabelledFail | controllers/post.controller.go:61-62 | A failed save is answered 502 with status "fail", against the 4xx-only convention |
| PostController.UpdateReplyDiffersOnlyInStatus | controllers/post.controller.go:58-63 | The written update reply differs from `PostReply`, the one the find handlers give, only in the status word of the 502 |
| PostController.PostReply | controllers/post.controller.go:74-88 | The reply of the find handlers, and of `UpdatePost` corrected: 200 with the post; 404 exactly for "post not found", otherwise 502; the status word matches the code |
| PostController.DeletePostReply | controllers/post.controller.go:193-204 | 204 on success; 404 exactly for "post not found", otherwise 502 |
| UserService.GetUserResponse | services/user.service.go:21-32 | The response copies id, name, e-mail, role, photo, provider and both timestamps |
| UserService.ResponseHidesPassword | services/user.service.go:21-32 | The response never depends on the password or the verification flag |
| UserService.ResponseDeterminesPublicFields | services/user.service.go:21-32 | Two users with the same response differ at most in password and verification flag |
| UserService.NonEmptyOr | services/user.service.go:62-73 | A non-empty input wins; an empty one keeps the current value |
| UserService.EditedFields | services/user.service.go:62-75 | Only name, e-mail, role, photo and the timestamp change; each non-empty input overwrites its field and an empty one keeps it |
| UserService.EmptyInputOnlyTouches | services/user.service.go:62-75 | An all-empty payload only refreshes the timestamp |
| UserService.EditIdempotent | services/user.service.go:62-75 | Repeating an update equals doing it once at the later time |
| UserService.SaveKeepsEmailsUnique | services/user.service.go:77-80 | Saving a row whose e-mail no other row holds keeps e-mails unique and rows keyed |
| UserService.UserStore.constructor | models/user.model.go:9-20 | An empty table satisfies the key and unique e-mail invariants |
| UserService.UserStore.GetUsers | services/user.service.go:35-48 | A read failure is "fetch users". Otherwise there is one public response per row, in scan order |
| UserService.UserStore.ApplyInput | services/user.service.go:62-75 | The field updates, one `if` per field, equal `Edited` |
| UserService.UserStore.UpdateUser | services/user.service.go:51-83 | A missing user is "user not found". A failed save (a taken e-mail included) is "update user" and writes nothing. Otherwise the edited row is saved and its public view returned |
| UserService.UserStore.DeleteUser | services/user.service.go:86-102 | A missing user is "user not found". A failed delete keeps the row. Otherwise exactly that row is removed |

## Left out

**Read-side database failures.** "Failed to fetch ..." errors on a read are
not modelled. Write failures are modelled, as fault inputs. The affected
members are:
- CategoryService.CategoryStore.FindCategoryById: the "fetch category" error is not modelled.
- CategoryService.CategoryStore.FindCategoryBySlug: the "fetch category" error is not modelled.
- CategoryService.CategoryStore.CreateCategory: the "fetch parent category" error is not modelled.
- CategoryService.CategoryStore.UpdateCategory: the "fetch category" and "fetch parent category" errors are not modelled.
- CategoryService.CategoryStore.FindCategoryTree: the read failure of the scan is not modelled.
- CategoryService.CategoryStore.DeleteCategory: the fetch failure is not modelled.
- PostService.PostStore.UpdatePost: the "fetch post" error is not modelled.
- PostService.PostStore.FindPostById: the "fetch post" error is not modelled.
- PostService.PostStore.FindPostBySlug: the "fetch post" error is not modelled.
- PostService.FindPosts: the "fetch posts" error is not modelled.
- Seeder.SeedCategories: the error of the initial `Count` is ignored by the Go code and is not modelled. A failed count leaves the count at 0, so Go would go on to seed a table that may not be empty; the model always reads the true row count.
- UserService.UserStore.UpdateUser: the "fetch user" error is not modelled.
- UserService.UserStore.DeleteUser: the "fetch user" error is not modelled.

**Weaker or narrower contracts.**
- PostService.SearchPosts: the "count search results" and "search posts" failures are not modelled, so the result is always a page.
- CategoryService.CategoryStore.DeleteCategory: it requires an acyclic table. On a cycle, which `UpdateCategory` can create (see `IndirectCycleAccepted`), the Go recursion does not end. A verified method cannot express that.
- PostService.FindPosts: `limit` is a `nat`. The controller always passes a value >= 1; a negative limit, which gorm would ignore, is not modelled.
- PostService.FindPosts: the listing is filtered in Dafny, not by SQL.
  - `ORDER BY created_at DESC` and `name ASC` / `level ASC, name ASC` become the input scan order.
  - The category filter is membership in the post's link list.
  - A post's link list may repeat an id that the join table stores once.
- PostService.SearchPosts: the `ILIKE` condition on title, content and short description becomes a predicate parameter `matches`.

**Operations not modelled.**
- `FindRootCategories`, `GetCategoryPostCount` and `SearchCategories` (service side): they are single queries with nothing to prove beyond their filter.
  - The controller's empty-query check of `SearchCategories` is modelled (`SearchCategoriesQuery`).
- `IncrementViews`, `IncrementLikes` and `LikePost`: they are single atomic `UpdateColumn` statements.
- The fire-and-forget `go IncrementViews` in the find handlers is concurrency and is not modelled.
- The preloads and reloads that only fill display fields (`Author`, `Parent`, `Children`) are not modelled.
  - `Children` is derived from `parent_id` instead (`Hierarchy.ChildSet`).

**Outside the modelled core.**
- Request binding and validation: the 400 replies of `ShouldBindJSON` and the URL validator on `image`.
- Authentication and the current-user lookup.
- JSON encoding, including the `nil` versus empty-slice difference in replies.
- The user controller, routes and middleware are not part of this model.
- The seeder's console output, its level statistics, and `loadCategoriesFromJSON`, which is file I/O. The seed forest is an input.
- Identifier parsing: `uuid.Parse` and the database's uuid comparison are the parameter `parseId`. Path parameters are taken as already-parsed ids.
- Transactions and concurrency: no other request interleaves with an operation.
- Timestamps are opaque numbers. The seeder reads the clock once per recursive call, but the model uses one `now` for the whole seeding.

## Findings

| source | as written | input that shows it | evidently intended | confidence | as-written member | corrected member |
|---|---|---|---|---|---|---|
| services/category.service.go:249-258 | The second pass appends struct copies. A row is copied into the root list, or into its parent's list, at the moment it is visited. On the `level ASC` scan that is before any of its children are linked. | A root `a` and its child `b`: the tree endpoint returns `[a]` with no children. | Every root with its full subtree. | not executed | TreeBuilder.RootLosesItsChild | TreeBuilder.NestedForestWellNested |
| services/post.service.go:207 | `offset := (page - 1) * limit` in 64-bit `int` wraps around for large pages (also at line 272). | `page = 2^62 + 1`, `limit = 4`: the offset wraps to 0 and the first page is returned. | The exact offset, under which every row lies on exactly one page. | not executed | PostService.ListingWrapsToFirstPage | Pagination.PagesTile |
| controllers/post.controller.go:62 | The default branch of `UpdatePost` answers 502 with status "fail". | A failed save: `Err("failed to update post")` is answered 502 "fail". | Status "error", as every other 502 of the API has. | not executed | PostController.UpdateFailureLabelledFail | PostController.PostReply |
