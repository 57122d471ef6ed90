/**
 * The placement rule of the hierarchy engine: the depth (`level`) and the
 * materialized `path` a category gets from its parent, and what it means
 * for a whole table to be placed consistently.
 */
module Placement {
  import opened Common
  import opened CategoryModel
  import opened Hierarchy

  datatype Placement = Placement(level: int, path: string)

  /** What a child's path hangs from: the parent's path, or its slug when that path is empty. */
  function ParentPrefix(parent: Category): string {
    if parent.path != "" then parent.path else parent.slug
  }

  /** The path of a child with slug `slug` under `parent`. */
  function ChildPath(parent: Category, slug: string): string {
    ParentPrefix(parent) + "/" + slug
  }

  /** A child path is the parent's prefix, a slash, and the slug: it can be split back. */
  lemma ChildPathShape(parent: Category, slug: string)
    ensures var p := ChildPath(parent, slug);
      && IsSuffix("/" + slug, p)
      && IsSuffix(slug, p)
      && p[..|p| - |slug| - 1] == ParentPrefix(parent)
  {
    var p := ChildPath(parent, slug);
    assert p[|p| - |slug|..] == slug;
    assert p[|p| - |slug| - 1..] == "/" + slug;
  }

  /** A row's placement under `parent`. */
  function PlaceUnder(parent: Category, slug: string): Placement {
    Placement(parent.level + 1, ChildPath(parent, slug))
  }

  /**
   * The placement `CreateCategory` computes before any write: a root gets
   * level 0 and its own slug as path; a child one level below its parent;
   * a parent that is not in the table is an error.
   */
  function CreatePlacement(rows: Rows, parentId: Option<Id>, slug: string): (r: Result<Placement, CategoryError>)
    ensures r.Err? <==> parentId.Some? && parentId.value !in rows
    ensures r.Err? ==> r.error == ParentNotFound
    ensures r.Ok? ==> IsSuffix(slug, r.value.path)
    ensures r.Ok? && parentId.None? ==> r.value.level == 0 && r.value.path == slug
    ensures r.Ok? && parentId.Some? ==> r.value.level == rows[parentId.value].level + 1
  {
    match parentId
    case None => Ok(Placement(0, slug))
    case Some(p) =>
      if p !in rows then Err(ParentNotFound)
      else ChildPathShape(rows[p], slug); Ok(PlaceUnder(rows[p], slug))
  }

  /** The stored level and path of row `c` agree with its current parent row. */
  ghost predicate PlacedConsistently(rows: Rows, c: Id)
    requires c in rows
  {
    match rows[c].parentId
    case None => rows[c].level == 0 && rows[c].path == rows[c].slug
    case Some(p) => p in rows && rows[c].level == rows[p].level + 1 && rows[c].path == ChildPath(rows[p], rows[c].slug)
  }

  /** Every row is placed consistently with its parent (which must exist). */
  ghost predicate Consistent(rows: Rows) {
    forall c :: c in rows ==> PlacedConsistently(rows, c)
  }

  /** The parts joined with "/". */
  function JoinPath(parts: seq<string>): string {
    if |parts| == 0 then ""
    else if |parts| == 1 then parts[0]
    else JoinPath(parts[..|parts| - 1]) + "/" + parts[|parts| - 1]
  }

  /** The slugs from the root of `d`'s chain down to `d` itself. */
  ghost function SlugChain(rows: Rows, rank: map<Id, nat>, d: Id): (chain: seq<string>)
    requires Ranked(rows, rank) && d in rows
    ensures |chain| >= 1 && chain[|chain| - 1] == rows[d].slug
    decreases rank[d]
  {
    match rows[d].parentId
    case None => [rows[d].slug]
    case Some(p) =>
      if p in rows then
        assert rank[p] < rank[d] by { assert rows[d].parentId.value == p; }
        SlugChain(rows, rank, p) + [rows[d].slug]
      else [rows[d].slug]
  }

  /**
   * The meaning of the materialized columns: in a consistently placed,
   * acyclic table the path of a row is the "/"-join of the slugs of its
   * ancestors (root first) and its own, and its level is its depth.
   */
  lemma {:induction false} MaterializedPath(rows: Rows, rank: map<Id, nat>, d: Id)
    requires Consistent(rows) && Ranked(rows, rank) && d in rows
    ensures rows[d].path == JoinPath(SlugChain(rows, rank, d))
    ensures rows[d].level == |SlugChain(rows, rank, d)| - 1
    ensures rows[d].path == "" ==> rows[d].parentId.None?
    decreases rank[d]
  {
    assert PlacedConsistently(rows, d);
    match rows[d].parentId
    case None =>
    case Some(p) =>
      assert rank[p] < rank[d] by { assert rows[d].parentId.value == p; }
      MaterializedPath(rows, rank, p);
      var chain := SlugChain(rows, rank, p);
      assert ParentPrefix(rows[p]) == rows[p].path;
      assert (chain + [rows[d].slug])[..|chain|] == chain;
  }

  /** Every row of a consistently placed table has a path ending with its slug. */
  lemma PathEndsWithSlug(rows: Rows, d: Id)
    requires Consistent(rows) && d in rows
    ensures IsSuffix(rows[d].slug, rows[d].path)
  {
    assert PlacedConsistently(rows, d);
  }

  /** Some number is below every level of the table. */
  lemma {:induction false} LevelFloor(rows: Rows) returns (bottom: int)
    ensures forall c :: c in rows ==> bottom <= rows[c].level
    decreases |rows.Keys|
  {
    if rows.Keys == {} {
      bottom := 0;
    } else {
      var k :| k in rows;
      var rest := rows - {k};
      assert |rest.Keys| < |rows.Keys| by {
        assert rest.Keys == rows.Keys - {k};
      }
      var b := LevelFloor(rest);
      bottom := if rows[k].level < b then rows[k].level else b;
      forall c | c in rows ensures bottom <= rows[c].level {
        if c != k {
          assert c in rest;
        }
      }
    }
  }

  /** Levels strictly grow from parent to child, so a consistently placed table has no cycle. */
  lemma ConsistentIsAcyclic(rows: Rows) returns (rank: map<Id, nat>)
    requires Consistent(rows)
    ensures Ranked(rows, rank)
  {
    var bottom := LevelFloor(rows);
    rank := map c | c in rows :: rows[c].level - bottom;
    forall c | c in rows && rows[c].parentId.Some? && rows[c].parentId.value in rows
      ensures rank[rows[c].parentId.value] < rank[c]
    {
      assert PlacedConsistently(rows, c);
    }
  }

  /** A new row placed by `CreatePlacement` keeps the table consistent. */
  lemma ConsistentInsert(rows: Rows, c: Category)
    requires Consistent(rows) && c.id !in rows
    requires CreatePlacement(rows, c.parentId, c.slug) == Ok(Placement(c.level, c.path))
    ensures Consistent(rows[c.id := c])
  {
    var after := rows[c.id := c];
    forall d | d in after ensures PlacedConsistently(after, d) {
      if d != c.id {
        assert PlacedConsistently(rows, d);
      }
    }
  }

  /** Removing only childless rows keeps the table consistent. */
  lemma ConsistentRemoval(before: Rows, after: Rows)
    requires Consistent(before) && Submap(after, before) && NoNewOrphans(before, after)
    ensures Consistent(after)
  {
    forall d | d in after ensures PlacedConsistently(after, d) {
      assert PlacedConsistently(before, d);
    }
  }
}
