/**
 * The parent relation of the `categories` table, seen as a map from id to
 * row: children (derived, never stored), ancestors, subtrees, acyclicity,
 * and the facts the delete and update operations rely on.
 */
module Hierarchy {
  import opened Common
  import opened CategoryModel

  /** The `categories` table, keyed by primary key. */
  type Rows = map<Id, Category>

  /** The rows whose `parent_id` is `a`: what `Preload("Children")` loads. */
  function ChildSet(rows: Rows, a: Id): set<Id> {
    set c | c in rows && rows[c].parentId == Some(a)
  }

  /**
   * The k-th ancestor of `d`, following `parent_id` inside `rows`:
   * `Some(d)` for k == 0, `None` once the walk reaches a root or leaves the table.
   */
  ghost function Ancestor(rows: Rows, d: Id, k: nat): Option<Id>
    decreases k
  {
    if d !in rows then None
    else if k == 0 then Some(d)
    else match rows[d].parentId
      case None => None
      case Some(p) => Ancestor(rows, p, k - 1)
  }

  /** `d` is `a` or one of its transitive descendants. */
  ghost predicate IsUnder(rows: Rows, d: Id, a: Id) {
    exists k: nat :: Ancestor(rows, d, k) == Some(a)
  }

  /** `a` and all its transitive descendants that are in the table. */
  ghost function Subtree(rows: Rows, a: Id): set<Id> {
    set d | d in rows && IsUnder(rows, d, a)
  }

  /**
   * `rank` witnesses that the parent relation has no cycle: a parent inside
   * the table always has a smaller rank than its child.
   */
  ghost predicate Ranked(rows: Rows, rank: map<Id, nat>) {
    && rows.Keys <= rank.Keys
    && forall c :: c in rows && rows[c].parentId.Some? && rows[c].parentId.value in rows ==>
         rank[rows[c].parentId.value] < rank[c]
  }

  ghost predicate Acyclic(rows: Rows) {
    exists rank :: Ranked(rows, rank)
  }

  /** `order` lists every row of the table exactly once: what a full `SELECT ... ORDER BY` reads. */
  predicate IsScan(rows: Rows, order: seq<Id>) {
    && Distinct(order)
    && (forall i :: 0 <= i < |order| ==> order[i] in rows)
    && (forall k :: k in rows ==> k in order)
  }

  /** The rows of the table in the order `order` gives. */
  function ScanOf(rows: Rows, order: seq<Id>): (scan: seq<Category>)
    requires forall i :: 0 <= i < |order| ==> order[i] in rows
    ensures |scan| == |order|
    ensures forall i :: 0 <= i < |order| ==> scan[i] == rows[order[i]]
  {
    seq(|order|, i requires 0 <= i < |order| && order[i] in rows => rows[order[i]])
  }

  /** Every `parent_id` refers to a row of the table. */
  ghost predicate NoDangling(rows: Rows) {
    forall c :: c in rows && rows[c].parentId.Some? ==> rows[c].parentId.value in rows
  }

  /** No row is its own direct parent. */
  ghost predicate NoSelfParent(rows: Rows) {
    forall c :: c in rows ==> rows[c].parentId != Some(c)
  }

  /** `small` keeps some rows of `big`, unmodified. */
  ghost predicate Submap(small: Rows, big: Rows) {
    && small.Keys <= big.Keys
    && forall k :: k in small ==> small[k] == big[k]
  }

  /** No surviving row lost a parent that `before` had: only childless rows were removed. */
  ghost predicate NoNewOrphans(before: Rows, after: Rows) {
    forall c :: c in after && c in before && before[c].parentId.Some? && before[c].parentId.value in before ==>
      before[c].parentId.value in after
  }

  /** Along an ancestor walk the rank drops by at least one per step. */
  lemma {:induction false} AncestorRank(rows: Rows, rank: map<Id, nat>, d: Id, k: nat, a: Id)
    requires Ranked(rows, rank)
    requires Ancestor(rows, d, k) == Some(a)
    ensures d in rows && a in rows
    ensures rank[a] + k <= rank[d]
    decreases k
  {
    if k > 0 {
      var p := rows[d].parentId.value;
      AncestorRank(rows, rank, p, k - 1, a);
    }
  }

  /** One more step up from an ancestor that has a parent in the table. */
  lemma {:induction false} AncestorNext(rows: Rows, d: Id, k: nat, c: Id)
    requires Ancestor(rows, d, k) == Some(c)
    requires c in rows && rows[c].parentId.Some? && rows[c].parentId.value in rows
    ensures Ancestor(rows, d, k + 1) == rows[c].parentId
    decreases k
  {
    if k > 0 {
      AncestorNext(rows, rows[d].parentId.value, k - 1, c);
    }
  }

  /** A walk inside a sub-table is the same walk in the full table. */
  lemma {:induction false} AncestorOfSubmap(small: Rows, big: Rows, d: Id, k: nat, a: Id)
    requires Submap(small, big)
    requires Ancestor(small, d, k) == Some(a)
    ensures Ancestor(big, d, k) == Some(a)
    decreases k
  {
    if k > 0 {
      AncestorOfSubmap(small, big, small[d].parentId.value, k - 1, a);
    }
  }

  /**
   * When only childless rows were removed, every ancestor of a surviving row
   * survives too (and the walk is unchanged).
   */
  lemma {:induction false} AncestorSurvives(before: Rows, after: Rows, d: Id, k: nat, a: Id)
    requires Submap(after, before) && NoNewOrphans(before, after)
    requires d in after
    requires Ancestor(before, d, k) == Some(a)
    ensures a in after
    decreases k
  {
    if k > 0 {
      var p := before[d].parentId.value;
      assert Ancestor(before, p, k - 1) == Some(a);
      assert p in before;
      AncestorSurvives(before, after, p, k - 1, a);
    }
  }

  lemma SubtreeOfSubmap(small: Rows, big: Rows, a: Id)
    requires Submap(small, big)
    ensures Subtree(small, a) <= Subtree(big, a)
  {
    forall d | d in Subtree(small, a) ensures d in Subtree(big, a) {
      var k: nat :| Ancestor(small, d, k) == Some(a);
      AncestorOfSubmap(small, big, d, k, a);
    }
  }

  /** The subtree of a child lies inside the subtree of its parent. */
  lemma ChildSubtree(rows: Rows, c: Id, a: Id)
    requires c in rows && rows[c].parentId == Some(a) && a in rows
    ensures Subtree(rows, c) <= Subtree(rows, a)
  {
    forall d | d in Subtree(rows, c) ensures d in Subtree(rows, a) {
      var k: nat :| Ancestor(rows, d, k) == Some(c);
      AncestorNext(rows, d, k, c);
    }
  }

  lemma RootOfSubtree(rows: Rows, a: Id)
    requires a in rows
    ensures a in Subtree(rows, a)
  {
    assert Ancestor(rows, a, 0) == Some(a);
  }

  /** In an acyclic table no row lies below one of its own children. */
  lemma ParentNotBelowChild(rows: Rows, rank: map<Id, nat>, c: Id, a: Id)
    requires Ranked(rows, rank)
    requires c in rows && rows[c].parentId == Some(a) && a in rows
    ensures a !in Subtree(rows, c)
  {
    if a in Subtree(rows, c) {
      var k: nat :| Ancestor(rows, a, k) == Some(c);
      AncestorRank(rows, rank, a, k, c);
    }
  }

  /** In an acyclic table the subtrees of two different children of one row are disjoint. */
  lemma SiblingNotBelowSibling(rows: Rows, rank: map<Id, nat>, a: Id, c1: Id, c2: Id)
    requires Ranked(rows, rank)
    requires a in rows && c1 != c2
    requires c1 in ChildSet(rows, a) && c2 in ChildSet(rows, a)
    ensures c2 !in Subtree(rows, c1)
  {
    if c2 in Subtree(rows, c1) {
      var k: nat :| Ancestor(rows, c2, k) == Some(c1);
      assert k > 0;
      assert Ancestor(rows, a, k - 1) == Some(c1);
      AncestorRank(rows, rank, a, k - 1, c1);
    }
  }

  /** An ancestor walk passes through each of its stops: the rest of the walk starts from there. */
  lemma {:induction false} AncestorSplit(rows: Rows, d: Id, k1: nat, k2: nat, c: Id)
    requires k1 <= k2 && Ancestor(rows, d, k1) == Some(c)
    ensures Ancestor(rows, d, k2) == Ancestor(rows, c, k2 - k1)
    decreases k1
  {
    if k1 > 0 {
      AncestorSplit(rows, rows[d].parentId.value, k1 - 1, k2 - 1, c);
    }
  }

  /** In an acyclic table two different children of one row have disjoint subtrees. */
  lemma SiblingSubtreesDisjoint(rows: Rows, rank: map<Id, nat>, a: Id, c1: Id, c2: Id)
    requires Ranked(rows, rank)
    requires a in rows && c1 != c2
    requires c1 in ChildSet(rows, a) && c2 in ChildSet(rows, a)
    ensures Subtree(rows, c1) !! Subtree(rows, c2)
  {
    forall d | d in Subtree(rows, c1) && d in Subtree(rows, c2) ensures false {
      var k1: nat :| Ancestor(rows, d, k1) == Some(c1);
      var k2: nat :| Ancestor(rows, d, k2) == Some(c2);
      if k1 <= k2 {
        AncestorSplit(rows, d, k1, k2, c1);
        assert c1 in Subtree(rows, c2);
        SiblingNotBelowSibling(rows, rank, a, c2, c1);
      } else {
        AncestorSplit(rows, d, k2, k1, c2);
        assert c2 in Subtree(rows, c1);
        SiblingNotBelowSibling(rows, rank, a, c1, c2);
      }
    }
  }

  /**
   * If only childless rows were removed and `a` is gone, then so is every
   * row that was below `a`: no orphans are left behind.
   */
  lemma SubtreeGone(before: Rows, after: Rows, a: Id)
    requires Submap(after, before) && NoNewOrphans(before, after)
    requires a !in after
    ensures Subtree(before, a) !! after.Keys
  {
    forall d | d in Subtree(before, a) && d in after ensures false {
      var k: nat :| Ancestor(before, d, k) == Some(a);
      AncestorSurvives(before, after, d, k, a);
    }
  }

  lemma RankedSubmap(small: Rows, big: Rows, rank: map<Id, nat>)
    requires Submap(small, big) && Ranked(big, rank)
    ensures Ranked(small, rank)
  {
  }

  lemma NoNewOrphansTrans(a: Rows, b: Rows, c: Rows)
    requires Submap(b, a) && Submap(c, b)
    requires NoNewOrphans(a, b) && NoNewOrphans(b, c)
    ensures NoNewOrphans(a, c)
  {
  }

  /** Removing rows without creating orphans keeps every parent link valid. */
  lemma NoDanglingKept(before: Rows, after: Rows)
    requires NoDangling(before) && Submap(after, before) && NoNewOrphans(before, after)
    ensures NoDangling(after)
  {
  }

  lemma ProperSubsetSmaller(small: set<Id>, big: set<Id>)
    requires small < big
    ensures |small| < |big|
  {
    var extra := big - small;
    assert big == small + extra;
    assert extra != {};
  }
}
