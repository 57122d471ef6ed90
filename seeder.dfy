/**
 * The category seeder of the migration tool (migrate/migrate.go): a forest
 * of seed records is written depth-first, each node under the row just
 * created for its parent, one level deeper, with the parent's path and its
 * own slug joined by "/". A node whose insert fails is skipped together
 * with its whole subtree.
 */
module Seeder {
  import opened Common
  import opened CategoryModel
  import opened Hierarchy
  import opened Placement
  import opened CategoryService

  /** One node of the seed file, with its children. */
  datatype CategorySeed = CategorySeed(
    name: string,
    slug: string,
    description: string,
    image: string,
    children: seq<CategorySeed>)

  /** The slugs of a forest in depth-first pre-order, siblings in input order. */
  function PreOrder(seeds: seq<CategorySeed>): seq<string>
    decreases seeds
  {
    if |seeds| == 0 then []
    else PreOrder(seeds[..|seeds| - 1]) + PreOrderTree(seeds[|seeds| - 1])
  }

  function PreOrderTree(seed: CategorySeed): seq<string>
    decreases seed
  {
    [seed.slug] + PreOrder(seed.children)
  }

  /** The seeder's path rule: below a non-empty parent path, "<parentPath>/<slug>"; otherwise the slug alone. */
  function SeedPath(parentPath: string, slug: string): string {
    if parentPath != "" then parentPath + "/" + slug else slug
  }

  /** The row the seeder builds for `seed`, before the database assigns its id. */
  function SeedRow(id: Id, seed: CategorySeed, parentId: Option<Id>, level: int, parentPath: string, now: Time): Category {
    Category(id, seed.name, seed.slug, seed.description, seed.image, parentId, level,
             SeedPath(parentPath, seed.slug), now, now)
  }

  /** The part of the store a seeding run changes. */
  datatype SeedState = SeedState(rows: Rows, nextId: Id)

  /**
   * What seeding `seeds` under `parentId` does to the table: the siblings in
   * order, each followed by its own subtree. `faults` holds the slugs whose
   * insert hits a storage fault.
   */
  function SeedForest(st: SeedState, seeds: seq<CategorySeed>, parentId: Option<Id>, level: int,
                      parentPath: string, now: Time, faults: set<string>): SeedState
    decreases seeds
  {
    if |seeds| == 0 then st
    else SeedTree(SeedForest(st, seeds[..|seeds| - 1], parentId, level, parentPath, now, faults),
                  seeds[|seeds| - 1], parentId, level, parentPath, now, faults)
  }

  /** One node: a failed insert leaves the table as it was and skips the subtree. */
  function SeedTree(st: SeedState, seed: CategorySeed, parentId: Option<Id>, level: int,
                    parentPath: string, now: Time, faults: set<string>): SeedState
    decreases seed
  {
    var row := SeedRow(st.nextId, seed, parentId, level, parentPath, now);
    if InsertOutcome(st.rows, row, seed.slug in faults).Err? then st
    else SeedForest(SeedState(st.rows[st.nextId := row], st.nextId + 1), seed.children,
                    Some(st.nextId), level + 1, row.path, now, faults)
  }

  /** The two outcomes of one node, unfolded once. */
  lemma SeedTreeStep(st: SeedState, seed: CategorySeed, parentId: Option<Id>, level: int,
                     parentPath: string, now: Time, faults: set<string>)
    ensures var row := SeedRow(st.nextId, seed, parentId, level, parentPath, now);
      SeedTree(st, seed, parentId, level, parentPath, now, faults)
        == if InsertOutcome(st.rows, row, seed.slug in faults).Err? then st
           else SeedForest(SeedState(st.rows[st.nextId := row], st.nextId + 1), seed.children,
                           Some(st.nextId), level + 1, row.path, now, faults)
  {
  }

  /** Seeding one more sibling: the forest up to `i + 1` is the forest up to `i`, then node `i`. */
  lemma SeedForestNext(st: SeedState, seeds: seq<CategorySeed>, i: int, parentId: Option<Id>, level: int,
                       parentPath: string, now: Time, faults: set<string>)
    requires 0 <= i < |seeds|
    ensures SeedForest(st, seeds[..i + 1], parentId, level, parentPath, now, faults)
         == SeedTree(SeedForest(st, seeds[..i], parentId, level, parentPath, now, faults), seeds[i],
                     parentId, level, parentPath, now, faults)
  {
    assert seeds[..i + 1][..i] == seeds[..i];
  }

  /** The ids handed out so far are all below `nextId`, and none is `Nil`. */
  predicate FreshIds(st: SeedState) {
    st.nextId > Nil && forall k :: k in st.rows ==> Nil < k < st.nextId
  }

  /**
   * Seeding only adds rows: the old rows are kept unchanged, one new row
   * per id handed out (so the count of created rows is the growth of the
   * table), and at most one per node of the forest.
   */
  lemma {:induction false} SeedForestGrowth(st: SeedState, seeds: seq<CategorySeed>, parentId: Option<Id>, level: int,
                                           parentPath: string, now: Time, faults: set<string>)
    requires FreshIds(st)
    ensures var r := SeedForest(st, seeds, parentId, level, parentPath, now, faults);
      && FreshIds(r)
      && Submap(st.rows, r.rows)
      && st.nextId <= r.nextId <= st.nextId + |PreOrder(seeds)|
      && |r.rows| == |st.rows| + (r.nextId - st.nextId)
      && (forall k :: k in r.rows && k !in st.rows ==> st.nextId <= k)
    decreases seeds
  {
    if |seeds| > 0 {
      var init := seeds[..|seeds| - 1];
      SeedForestGrowth(st, init, parentId, level, parentPath, now, faults);
      var mid := SeedForest(st, init, parentId, level, parentPath, now, faults);
      SeedTreeGrowth(mid, seeds[|seeds| - 1], parentId, level, parentPath, now, faults);
    }
  }

  lemma {:induction false} SeedTreeGrowth(st: SeedState, seed: CategorySeed, parentId: Option<Id>, level: int,
                                         parentPath: string, now: Time, faults: set<string>)
    requires FreshIds(st)
    ensures var r := SeedTree(st, seed, parentId, level, parentPath, now, faults);
      && FreshIds(r)
      && Submap(st.rows, r.rows)
      && st.nextId <= r.nextId <= st.nextId + |PreOrderTree(seed)|
      && |r.rows| == |st.rows| + (r.nextId - st.nextId)
      && (forall k :: k in r.rows && k !in st.rows ==> st.nextId <= k)
    decreases seed
  {
    SeedTreeStep(st, seed, parentId, level, parentPath, now, faults);
    var row := SeedRow(st.nextId, seed, parentId, level, parentPath, now);
    if InsertOutcome(st.rows, row, seed.slug in faults).Ok? {
      var st1 := SeedState(st.rows[st.nextId := row], st.nextId + 1);
      assert st.nextId !in st.rows;
      assert |st1.rows| == |st.rows| + 1;
      assert FreshIds(st1) && Submap(st.rows, st1.rows);
      SeedForestGrowth(st1, seed.children, Some(st.nextId), level + 1, row.path, now, faults);
    }
  }

  /**
   * Where a seeding call hangs its rows: the top-level call has no parent,
   * level 0 and an empty path; a nested call sits under an existing row, one
   * level below it, with that row's (non-empty) path.
   */
  ghost predicate SeedContext(rows: Rows, parentId: Option<Id>, level: int, parentPath: string) {
    match parentId
    case None => level == 0 && parentPath == ""
    case Some(p) => p in rows && level == rows[p].level + 1 && parentPath == rows[p].path && parentPath != ""
  }

  /** Every slug of the forest is non-empty, as `binding:"required"` demands of the API's slugs. */
  predicate NoEmptySlugs(seeds: seq<CategorySeed>) {
    forall i :: 0 <= i < |PreOrder(seeds)| ==> PreOrder(seeds)[i] != ""
  }

  /**
   * Seeded rows obey the placement rule of the category service: in a
   * consistently placed table, seeding a forest with non-empty slugs leaves
   * every row (old and new) with the level and path its parent dictates.
   */
  lemma {:induction false} SeedForestConsistent(st: SeedState, seeds: seq<CategorySeed>, parentId: Option<Id>, level: int,
                                               parentPath: string, now: Time, faults: set<string>)
    requires FreshIds(st) && Consistent(st.rows)
    requires SeedContext(st.rows, parentId, level, parentPath)
    requires NoEmptySlugs(seeds)
    ensures Consistent(SeedForest(st, seeds, parentId, level, parentPath, now, faults).rows)
    decreases seeds
  {
    if |seeds| > 0 {
      var init := seeds[..|seeds| - 1];
      var last := seeds[|seeds| - 1];
      assert PreOrder(seeds) == PreOrder(init) + PreOrderTree(last);
      assert NoEmptySlugs(init) by {
        forall i | 0 <= i < |PreOrder(init)| ensures PreOrder(init)[i] != "" {
          assert PreOrder(init)[i] == PreOrder(seeds)[i];
        }
      }
      SeedForestConsistent(st, init, parentId, level, parentPath, now, faults);
      SeedForestGrowth(st, init, parentId, level, parentPath, now, faults);
      var mid := SeedForest(st, init, parentId, level, parentPath, now, faults);
      forall i | 0 <= i < |PreOrderTree(last)| ensures PreOrderTree(last)[i] != "" {
        assert PreOrderTree(last)[i] == PreOrder(seeds)[|PreOrder(init)| + i];
      }
      SeedTreeConsistent(mid, last, parentId, level, parentPath, now, faults);
    }
  }

  lemma {:induction false} SeedTreeConsistent(st: SeedState, seed: CategorySeed, parentId: Option<Id>, level: int,
                                             parentPath: string, now: Time, faults: set<string>)
    requires FreshIds(st) && Consistent(st.rows)
    requires SeedContext(st.rows, parentId, level, parentPath)
    requires forall i :: 0 <= i < |PreOrderTree(seed)| ==> PreOrderTree(seed)[i] != ""
    ensures Consistent(SeedTree(st, seed, parentId, level, parentPath, now, faults).rows)
    decreases seed
  {
    SeedTreeStep(st, seed, parentId, level, parentPath, now, faults);
    var row := SeedRow(st.nextId, seed, parentId, level, parentPath, now);
    if InsertOutcome(st.rows, row, seed.slug in faults).Ok? {
      assert seed.slug == PreOrderTree(seed)[0];
      SeedInsertConsistent(st, seed, parentId, level, parentPath, now);
      ChildrenNoEmptySlugs(seed);
      var st1 := SeedState(st.rows[st.nextId := row], st.nextId + 1);
      SeedForestConsistent(st1, seed.children, Some(st.nextId), level + 1, row.path, now, faults);
    }
  }

  /** Inserting one node's row keeps the table consistent and sets up the context of its children. */
  lemma SeedInsertConsistent(st: SeedState, seed: CategorySeed, parentId: Option<Id>, level: int,
                             parentPath: string, now: Time)
    requires FreshIds(st) && Consistent(st.rows)
    requires SeedContext(st.rows, parentId, level, parentPath)
    requires seed.slug != ""
    ensures var row := SeedRow(st.nextId, seed, parentId, level, parentPath, now);
      var st1 := SeedState(st.rows[st.nextId := row], st.nextId + 1);
      && FreshIds(st1) && Consistent(st1.rows)
      && SeedContext(st1.rows, Some(st.nextId), level + 1, row.path)
  {
    var row := SeedRow(st.nextId, seed, parentId, level, parentPath, now);
    SeedRowPlaced(st.rows, row, seed, parentId, level, parentPath);
    assert row.id !in st.rows;
    ConsistentInsert(st.rows, row);
  }

  /** The seeder's level and path for a node are the ones the service's placement rule computes. */
  lemma SeedRowPlaced(rows: Rows, row: Category, seed: CategorySeed, parentId: Option<Id>, level: int, parentPath: string)
    requires SeedContext(rows, parentId, level, parentPath)
    requires row == SeedRow(row.id, seed, parentId, level, parentPath, row.createdAt)
    ensures CreatePlacement(rows, row.parentId, row.slug) == Ok(Placement(row.level, row.path))
  {
    match parentId {
      case None =>
        assert row.path == seed.slug;
      case Some(p) =>
        var parent := rows[p];
        assert ParentPrefix(parent) == parentPath;
        assert row.path == ChildPath(parent, seed.slug);
        assert CreatePlacement(rows, Some(p), seed.slug) == Ok(PlaceUnder(parent, seed.slug));
    }
  }

  /** The slugs below a node are among the slugs of its tree. */
  lemma ChildrenNoEmptySlugs(seed: CategorySeed)
    requires forall i :: 0 <= i < |PreOrderTree(seed)| ==> PreOrderTree(seed)[i] != ""
    ensures NoEmptySlugs(seed.children)
  {
    forall i | 0 <= i < |PreOrder(seed.children)| ensures PreOrder(seed.children)[i] != "" {
      assert PreOrder(seed.children)[i] == PreOrderTree(seed)[i + 1];
    }
  }

  /** The rows numbered `from`, `from + 1`, ... carry the slugs `slugs`, in that order. */
  ghost predicate Numbered(rows: Rows, from: Id, slugs: seq<string>) {
    forall k :: from <= k < from + |slugs| ==> k in rows && rows[k].slug == slugs[k - from]
  }

  /** No row of the table holds any of `slugs`. */
  ghost predicate Avoids(rows: Rows, slugs: seq<string>) {
    forall k :: k in rows ==> rows[k].slug !in slugs
  }

  lemma NumberedConcat(rows: Rows, from: Id, mid: Id, a: seq<string>, b: seq<string>)
    requires mid == from + |a|
    requires Numbered(rows, from, a) && Numbered(rows, mid, b)
    ensures Numbered(rows, from, a + b)
  {
    forall k | from <= k < from + |a + b| ensures k in rows && rows[k].slug == (a + b)[k - from] {
      if k - from >= |a| {
        assert (a + b)[k - from] == b[k - mid];
      }
    }
  }

  lemma NumberedSubmap(small: Rows, big: Rows, from: Id, slugs: seq<string>)
    requires Numbered(small, from, slugs) && Submap(small, big)
    ensures Numbered(big, from, slugs)
  {
    forall k | from <= k < from + |slugs| ensures k in big && big[k].slug == slugs[k - from] {
      assert k in small;
    }
  }

  /** A node whose slug is free and not faulty is created, and its children are seeded under it. */
  lemma SeedTreeCreated(st: SeedState, seed: CategorySeed, parentId: Option<Id>, level: int,
                        parentPath: string, now: Time, faults: set<string>)
    requires seed.slug !in faults
    requires forall k :: k in st.rows ==> st.rows[k].slug != seed.slug
    ensures var row := SeedRow(st.nextId, seed, parentId, level, parentPath, now);
      SeedTree(st, seed, parentId, level, parentPath, now, faults)
        == SeedForest(SeedState(st.rows[st.nextId := row], st.nextId + 1), seed.children,
                      Some(st.nextId), level + 1, row.path, now, faults)
  {
    SeedTreeStep(st, seed, parentId, level, parentPath, now, faults);
  }

  /**
   * When nothing gets in the way (no slug of the forest is faulty, already
   * in the table, or repeated in the forest), every node is created, and the
   * ids are handed out in depth-first pre-order: the i-th node of
   * `PreOrder(seeds)` gets the i-th id.
   */
  lemma {:induction false} SeedForestAllCreated(st: SeedState, seeds: seq<CategorySeed>, parentId: Option<Id>, level: int,
                                               parentPath: string, now: Time, faults: set<string>)
    requires FreshIds(st)
    requires Distinct(PreOrder(seeds)) && Avoids(st.rows, PreOrder(seeds))
    requires forall x :: x in PreOrder(seeds) ==> x !in faults
    ensures var r := SeedForest(st, seeds, parentId, level, parentPath, now, faults);
      r.nextId == st.nextId + |PreOrder(seeds)| && Numbered(r.rows, st.nextId, PreOrder(seeds))
    decreases seeds
  {
    if |seeds| > 0 {
      var init := seeds[..|seeds| - 1];
      var last := seeds[|seeds| - 1];
      var p1, p2 := PreOrder(init), PreOrderTree(last);
      assert PreOrder(seeds) == p1 + p2;
      DistinctConcat(p1, p2);
      SeedForestAllCreated(st, init, parentId, level, parentPath, now, faults);
      SeedForestGrowth(st, init, parentId, level, parentPath, now, faults);
      var mid := SeedForest(st, init, parentId, level, parentPath, now, faults);
      AvoidsAfter(st.rows, mid.rows, st.nextId, p1, p2);
      SeedTreeAllCreated(mid, last, parentId, level, parentPath, now, faults);
      SeedTreeGrowth(mid, last, parentId, level, parentPath, now, faults);
      var r := SeedTree(mid, last, parentId, level, parentPath, now, faults);
      NumberedSubmap(mid.rows, r.rows, st.nextId, p1);
      NumberedConcat(r.rows, st.nextId, mid.nextId, p1, p2);
    }
  }

  /** After rows numbered with `p1` were added, a table that avoided `p1 + p2` still avoids `p2`. */
  lemma AvoidsAfter(before: Rows, after: Rows, from: Id, p1: seq<string>, p2: seq<string>)
    requires Avoids(before, p1 + p2) && Distinct(p1 + p2)
    requires Submap(before, after) && Numbered(after, from, p1)
    requires forall k :: k in after && k !in before ==> from <= k < from + |p1|
    ensures Avoids(after, p2)
  {
    DistinctConcat(p1, p2);
    forall k | k in after ensures after[k].slug !in p2 {
      if k in before {
        assert after[k] == before[k];
      } else {
        assert after[k].slug == p1[k - from];
      }
    }
  }

  lemma {:induction false} SeedTreeAllCreated(st: SeedState, seed: CategorySeed, parentId: Option<Id>, level: int,
                                             parentPath: string, now: Time, faults: set<string>)
    requires FreshIds(st)
    requires Distinct(PreOrderTree(seed)) && Avoids(st.rows, PreOrderTree(seed))
    requires forall x :: x in PreOrderTree(seed) ==> x !in faults
    ensures var r := SeedTree(st, seed, parentId, level, parentPath, now, faults);
      r.nextId == st.nextId + |PreOrderTree(seed)| && Numbered(r.rows, st.nextId, PreOrderTree(seed))
    decreases seed
  {
    var row := SeedRow(st.nextId, seed, parentId, level, parentPath, now);
    var kids := PreOrder(seed.children);
    assert PreOrderTree(seed) == [seed.slug] + kids;
    DistinctConcat([seed.slug], kids);
    SeedTreeCreated(st, seed, parentId, level, parentPath, now, faults);
    var st1 := SeedState(st.rows[st.nextId := row], st.nextId + 1);
    assert Avoids(st1.rows, kids);
    assert FreshIds(st1);
    SeedForestAllCreated(st1, seed.children, Some(st.nextId), level + 1, row.path, now, faults);
    SeedForestGrowth(st1, seed.children, Some(st.nextId), level + 1, row.path, now, faults);
    var r := SeedForest(st1, seed.children, Some(st.nextId), level + 1, row.path, now, faults);
    assert Numbered(st1.rows, st.nextId, [seed.slug]);
    NumberedSubmap(st1.rows, r.rows, st.nextId, [seed.slug]);
    NumberedConcat(r.rows, st.nextId, st1.nextId, [seed.slug], kids);
  }

  /**
   * `seedCategoriesRecursive`: walks the siblings in order; each one is
   * inserted with the given parent, level and path; on failure it is
   * skipped with its subtree, otherwise its children are seeded under it.
   * Returns how many rows it created.
   */
  method SeedRecursive(store: CategoryStore, seeds: seq<CategorySeed>, parentId: Option<Id>, level: int,
                       parentPath: string, now: Time, faults: set<string>) returns (count: nat)
    requires store.Valid()
    modifies store
    ensures store.Valid()
    ensures SeedState(store.rows, store.nextId)
         == SeedForest(SeedState(old(store.rows), old(store.nextId)), seeds, parentId, level, parentPath, now, faults)
    ensures count == store.nextId - old(store.nextId) == |store.rows| - |old(store.rows)|
    decreases seeds
  {
    ghost var st0 := SeedState(store.rows, store.nextId);
    count := 0;
    var i := 0;
    while i < |seeds|
      invariant 0 <= i <= |seeds|
      invariant store.Valid()
      invariant SeedState(store.rows, store.nextId) == SeedForest(st0, seeds[..i], parentId, level, parentPath, now, faults)
      invariant count == store.nextId - st0.nextId
    {
      var cat := seeds[i];
      ghost var before := SeedState(store.rows, store.nextId);
      SeedForestNext(st0, seeds, i, parentId, level, parentPath, now, faults);
      SeedTreeStep(before, cat, parentId, level, parentPath, now, faults);
      var path := if parentPath != "" then parentPath + "/" + cat.slug else cat.slug;
      var category := Category(Nil, cat.name, cat.slug, cat.description, cat.image,
                               parentId, level, path, now, now);
      ghost var row := SeedRow(before.nextId, cat, parentId, level, parentPath, now);
      assert category.(id := before.nextId) == row;
      var result := store.Insert(category, cat.slug in faults);
      if result.Err? {
        assert SeedTree(before, cat, parentId, level, parentPath, now, faults) == before;
        i := i + 1;
        continue;
      }
      count := count + 1;
      ghost var created := SeedState(store.rows, store.nextId);
      assert created == SeedState(before.rows[before.nextId := row], before.nextId + 1);
      assert result.value.id == before.nextId;
      if |cat.children| > 0 {
        var childCount := SeedRecursive(store, cat.children, Some(result.value.id), level + 1, path, now, faults);
        count := count + childCount;
      }
      assert SeedState(store.rows, store.nextId)
          == SeedForest(created, cat.children, Some(before.nextId), level + 1, row.path, now, faults);
      i := i + 1;
    }
    assert seeds[..i] == seeds;
    SeedForestGrowth(st0, seeds, parentId, level, parentPath, now, faults);
  }

  /**
   * `seedCategories`: seeds only an empty table (any existing row makes it
   * a no-op), with the forest at the top level: no parent, level 0, empty
   * parent path.
   */
  method SeedCategories(store: CategoryStore, seeds: seq<CategorySeed>, now: Time, faults: set<string>)
    returns (count: nat)
    requires store.Valid()
    modifies store
    ensures store.Valid()
    ensures |old(store.rows)| > 0 ==>
      count == 0 && store.rows == old(store.rows) && store.nextId == old(store.nextId)
    ensures |old(store.rows)| == 0 ==>
      && SeedState(store.rows, store.nextId)
           == SeedForest(SeedState(map[], old(store.nextId)), seeds, None, 0, "", now, faults)
      && count == |store.rows| <= |PreOrder(seeds)|
    ensures |old(store.rows)| == 0 && NoEmptySlugs(seeds) ==> Consistent(store.rows)
  {
    if |store.rows| > 0 {
      return 0;
    }
    assert store.rows == map[];
    count := SeedRecursive(store, seeds, None, 0, "", now, faults);
    ghost var st0 := SeedState(map[], old(store.nextId));
    SeedForestGrowth(st0, seeds, None, 0, "", now, faults);
    if NoEmptySlugs(seeds) {
      SeedForestConsistent(st0, seeds, None, 0, "", now, faults);
    }
  }
}
