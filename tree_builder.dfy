/**
 * The tree assembly of `FindCategoryTree` (services/category.service.go),
 * over a scan of the table in `level ASC, name ASC` order, as a fold that
 * the store's imperative two-pass method is proved against; and the nested
 * forest the assembly evidently intends, for comparison.
 *
 * Go appends struct copies: a row is copied into the root list or into its
 * parent's child list at the moment the second pass visits it, so children
 * linked to its map entry later are not in that copy. `Linked` keeps that
 * behaviour by storing node values, not references.
 */
module TreeBuilder {
  import opened Common
  import opened CategoryModel

  /** A category with the child list it was returned with. */
  datatype TreeNode = TreeNode(category: Category, children: seq<TreeNode>)

  /** The categories of a list of nodes, in order. */
  function Categories(nodes: seq<TreeNode>): (r: seq<Category>)
    ensures |r| == |nodes|
    ensures forall i :: 0 <= i < |nodes| ==> r[i] == nodes[i].category
  {
    seq(|nodes|, i requires 0 <= i < |nodes| => nodes[i].category)
  }

  /** No two rows of the scan share an id (the primary key). */
  predicate DistinctIds(scan: seq<Category>) {
    forall i, j :: 0 <= i < j < |scan| ==> scan[i].id != scan[j].id
  }

  /** The root rows, in scan order. */
  function RootRows(rows: seq<Category>): (r: seq<Category>)
    ensures forall c :: c in r <==> c in rows && c.parentId.None?
    ensures |r| <= |rows|
  {
    if |rows| == 0 then []
    else
      var last := rows[|rows| - 1];
      RootRows(rows[..|rows| - 1]) + if last.parentId.None? then [last] else []
  }

  /** The rows whose parent is `id`, in scan order. */
  function ChildRows(rows: seq<Category>, id: Id): (r: seq<Category>)
    ensures forall c :: c in r <==> c in rows && c.parentId == Some(id)
    ensures |r| <= |rows|
  {
    if |rows| == 0 then []
    else
      var last := rows[|rows| - 1];
      ChildRows(rows[..|rows| - 1], id) + if last.parentId == Some(id) then [last] else []
  }

  /** The id-to-entry map of the first pass; a later row with the same id overwrites an earlier one. */
  function IndexOf(scan: seq<Category>): (idx: map<Id, nat>)
    ensures forall k :: k in idx ==> idx[k] < |scan|
  {
    if |scan| == 0 then map[]
    else IndexOf(scan[..|scan| - 1])[scan[|scan| - 1].id := |scan| - 1]
  }

  /** The map holds exactly the ids of the scan, each pointing at a row with that id. */
  lemma {:induction false} IndexOfFacts(scan: seq<Category>)
    ensures forall k :: k in IndexOf(scan) ==> scan[IndexOf(scan)[k]].id == k
    ensures forall k :: k in IndexOf(scan) <==> exists i :: 0 <= i < |scan| && scan[i].id == k
  {
    if |scan| > 0 {
      var init := scan[..|scan| - 1];
      IndexOfFacts(init);
      forall k | exists i :: 0 <= i < |scan| && scan[i].id == k
        ensures k in IndexOf(scan)
      {
        var i :| 0 <= i < |scan| && scan[i].id == k;
        if i < |scan| - 1 {
          assert init[i].id == k;
        }
      }
    }
  }

  /** With unique ids, the map sends each row's id to that row's entry. */
  lemma IndexOfDistinct(scan: seq<Category>, i: int)
    requires DistinctIds(scan) && 0 <= i < |scan|
    ensures scan[i].id in IndexOf(scan) && IndexOf(scan)[scan[i].id] == i
  {
    IndexOfFacts(scan);
  }

  /** The first pass: one entry per row, every child list empty. */
  function Entries(scan: seq<Category>): (nodes: seq<TreeNode>)
    ensures |nodes| == |scan|
  {
    seq(|scan|, i requires 0 <= i < |scan| => TreeNode(scan[i], []))
  }

  /** The entries (one per row) and the root list, part-way through the second pass. */
  datatype Assembly = Assembly(nodes: seq<TreeNode>, roots: seq<TreeNode>)

  /**
   * One step of the second pass on row `i`: a root's current entry is
   * copied to the root list; otherwise the current entry is copied onto
   * the child list of its parent's entry, or dropped if the parent is not
   * in the scan.
   */
  function LinkStep(scan: seq<Category>, idx: map<Id, nat>, a: Assembly, i: nat): Assembly
    requires i < |scan| == |a.nodes|
    requires forall k :: k in idx ==> idx[k] < |scan|
  {
    match scan[i].parentId
    case None => Assembly(a.nodes, a.roots + [a.nodes[i]])
    case Some(p) =>
      if p in idx then
        var j := idx[p];
        Assembly(a.nodes[j := TreeNode(a.nodes[j].category, a.nodes[j].children + [a.nodes[i]])], a.roots)
      else a
  }

  /** The state after the first `n` steps of the second pass. */
  function Linked(scan: seq<Category>, n: nat): (a: Assembly)
    requires n <= |scan|
    ensures |a.nodes| == |scan|
  {
    if n == 0 then Assembly(Entries(scan), [])
    else LinkStep(scan, IndexOf(scan), Linked(scan, n - 1), n - 1)
  }

  /** The second pass only ever changes child lists: each entry keeps its row. */
  lemma {:induction false} LinkedCategory(scan: seq<Category>, n: nat, i: int)
    requires n <= |scan| && 0 <= i < |scan|
    ensures Linked(scan, n).nodes[i].category == scan[i]
  {
    if n > 0 {
      LinkedCategory(scan, n - 1, i);
    }
  }

  /** What `FindCategoryTree` returns for the scan, as written. */
  function AssembleTree(scan: seq<Category>): seq<TreeNode> {
    Linked(scan, |scan|).roots
  }

  lemma CategoriesAppend(nodes: seq<TreeNode>, t: TreeNode)
    ensures Categories(nodes + [t]) == Categories(nodes) + [t.category]
  {
  }

  /** The last step of the second pass on the root list. */
  lemma LinkedRootsStep(scan: seq<Category>, n: nat)
    requires 0 < n <= |scan|
    ensures var a := Linked(scan, n - 1);
      Linked(scan, n).roots == if scan[n - 1].parentId.None? then a.roots + [a.nodes[n - 1]] else a.roots
  {
  }

  /** The root rows of a prefix one row longer. */
  lemma RootRowsStep(scan: seq<Category>, n: nat)
    requires 0 < n <= |scan|
    ensures RootRows(scan[..n]) == RootRows(scan[..n - 1]) + if scan[n - 1].parentId.None? then [scan[n - 1]] else []
  {
    assert scan[..n][..n - 1] == scan[..n - 1];
  }

  /** The child rows of a prefix one row longer. */
  lemma ChildRowsStep(scan: seq<Category>, n: nat, id: Id)
    requires 0 < n <= |scan|
    ensures ChildRows(scan[..n], id) == ChildRows(scan[..n - 1], id) + if scan[n - 1].parentId == Some(id) then [scan[n - 1]] else []
  {
    assert scan[..n][..n - 1] == scan[..n - 1];
  }

  /** The root list holds exactly the root rows, in scan order. */
  lemma {:induction false} LinkedRoots(scan: seq<Category>, n: nat)
    requires n <= |scan|
    ensures Categories(Linked(scan, n).roots) == RootRows(scan[..n])
  {
    if n > 0 {
      LinkedRoots(scan, n - 1);
      LinkedRootsStep(scan, n);
      RootRowsStep(scan, n);
      var a := Linked(scan, n - 1);
      if scan[n - 1].parentId.None? {
        LinkedCategory(scan, n - 1, n - 1);
        CategoriesAppend(a.roots, a.nodes[n - 1]);
        assert Categories(Linked(scan, n).roots) == RootRows(scan[..n - 1]) + [scan[n - 1]];
      } else {
        assert Linked(scan, n).roots == a.roots;
      }
    }
  }

  /** The last step of the second pass on the entry of row `i`. */
  lemma LinkedEntryStep(scan: seq<Category>, n: nat, i: int)
    requires DistinctIds(scan)
    requires 0 < n <= |scan| && 0 <= i < |scan|
    ensures var a := Linked(scan, n - 1);
      Linked(scan, n).nodes[i].children ==
        if scan[n - 1].parentId == Some(scan[i].id) then a.nodes[i].children + [a.nodes[n - 1]] else a.nodes[i].children
  {
    var row := scan[n - 1];
    IndexOfDistinct(scan, i);
    if row.parentId.Some? && row.parentId.value in IndexOf(scan) {
      var j := IndexOf(scan)[row.parentId.value];
      IndexOfFacts(scan);
      IndexOfDistinct(scan, j);
    }
  }

  /** Each row's entry collects the rows that name it as parent, in scan order. */
  lemma {:induction false} LinkedChildren(scan: seq<Category>, n: nat, i: int)
    requires DistinctIds(scan)
    requires n <= |scan| && 0 <= i < |scan|
    ensures Categories(Linked(scan, n).nodes[i].children) == ChildRows(scan[..n], scan[i].id)
  {
    if n > 0 {
      LinkedChildren(scan, n - 1, i);
      LinkedEntryStep(scan, n, i);
      ChildRowsStep(scan, n, scan[i].id);
      LinkedCategory(scan, n - 1, n - 1);
      var a := Linked(scan, n - 1);
      CategoriesAppend(a.nodes[i].children, a.nodes[n - 1]);
    }
  }

  /** The returned list holds exactly the root rows of the scan, in scan order. */
  lemma TreeRoots(scan: seq<Category>)
    ensures Categories(AssembleTree(scan)) == RootRows(scan)
  {
    LinkedRoots(scan, |scan|);
    assert scan[..|scan|] == scan;
  }

  /** A row whose parent is not in the scan is not returned as a root. */
  lemma OrphanNotRoot(scan: seq<Category>, i: int)
    requires 0 <= i < |scan| && scan[i].parentId.Some?
    ensures scan[i] !in Categories(AssembleTree(scan))
  {
    TreeRoots(scan);
  }

  /** A row whose parent is not in the scan is on no entry's child list either: it is dropped. */
  lemma OrphanNotChild(scan: seq<Category>, i: int)
    requires DistinctIds(scan) && 0 <= i < |scan|
    requires scan[i].parentId.Some?
    requires forall j :: 0 <= j < |scan| ==> scan[j].id != scan[i].parentId.value
    ensures forall j :: 0 <= j < |scan| ==> scan[i] !in Categories(Linked(scan, |scan|).nodes[j].children)
  {
    forall j | 0 <= j < |scan| ensures scan[i] !in Categories(Linked(scan, |scan|).nodes[j].children) {
      LinkedChildren(scan, |scan|, j);
    }
  }

  /** Levels never decrease along the scan (`ORDER BY level ASC`). */
  predicate LevelSorted(scan: seq<Category>) {
    forall i, j :: 0 <= i < j < |scan| ==> scan[i].level <= scan[j].level
  }

  /** Every row whose parent is in the scan sits exactly one level below it. */
  predicate LevelStep(scan: seq<Category>) {
    forall a, b :: a in scan && b in scan && b.parentId == Some(a.id) ==> b.level == a.level + 1
  }

  /** Every parent in the scan comes before all of its children. */
  predicate ParentsFirst(scan: seq<Category>) {
    forall i, j :: 0 <= j < i < |scan| ==> scan[j].parentId != Some(scan[i].id)
  }

  /** The `level ASC` order puts parents first when levels step by one from parent to child. */
  lemma LevelOrderPutsParentsFirst(scan: seq<Category>)
    requires LevelSorted(scan) && LevelStep(scan)
    ensures ParentsFirst(scan)
  {
    forall i, j | 0 <= j < i < |scan| ensures scan[j].parentId != Some(scan[i].id) {
      assert scan[j].level <= scan[i].level;
      assert scan[j] in scan && scan[i] in scan;
    }
  }

  /** When parents come first, no row before row `k` names it as parent. */
  lemma {:induction false} NoEarlierChildren(scan: seq<Category>, k: int, m: nat)
    requires ParentsFirst(scan)
    requires 0 <= k < |scan| && m <= k
    ensures ChildRows(scan[..m], scan[k].id) == []
  {
    if m > 0 {
      NoEarlierChildren(scan, k, m - 1);
      ChildRowsStep(scan, m, scan[k].id);
    }
  }

  /** When parents come first, a row's entry has no children yet when the second pass reaches it. */
  lemma EntryEmptyWhenVisited(scan: seq<Category>, k: nat)
    requires DistinctIds(scan) && ParentsFirst(scan)
    requires k < |scan|
    ensures Linked(scan, k).nodes[k].children == []
  {
    LinkedChildren(scan, k, k);
    NoEarlierChildren(scan, k, k);
    var copy := Linked(scan, k).nodes[k];
    assert |Categories(copy.children)| == 0;
  }

  /**
   * The value-copy quirk: when parents come first in the scan, every root
   * is copied before any of its children is linked, so every returned root
   * has an empty child list.
   */
  lemma {:induction false} LinkedRootsChildless(scan: seq<Category>, n: nat)
    requires DistinctIds(scan) && ParentsFirst(scan)
    requires n <= |scan|
    ensures forall k :: 0 <= k < |Linked(scan, n).roots| ==> Linked(scan, n).roots[k].children == []
  {
    if n > 0 {
      LinkedRootsChildless(scan, n - 1);
      LinkedRootsStep(scan, n);
      var before := Linked(scan, n - 1).roots;
      var roots := Linked(scan, n).roots;
      if scan[n - 1].parentId.None? {
        EntryEmptyWhenVisited(scan, n - 1);
        forall k | 0 <= k < |roots| ensures roots[k].children == [] {
          if k < |before| {
            assert roots[k] == before[k];
          }
        }
      }
    }
  }

  /** On the `level ASC` scan of a consistently placed table, every returned root has no children. */
  lemma TreeRootsChildless(scan: seq<Category>)
    requires DistinctIds(scan) && LevelSorted(scan) && LevelStep(scan)
    ensures forall r :: r in AssembleTree(scan) ==> r.children == []
  {
    LevelOrderPutsParentsFirst(scan);
    LinkedRootsChildless(scan, |scan|);
    forall r | r in AssembleTree(scan) ensures r.children == [] {
      var k :| 0 <= k < |AssembleTree(scan)| && AssembleTree(scan)[k] == r;
    }
  }

  /** The largest level in the scan (0 for an empty scan). */
  function MaxLevel(scan: seq<Category>): (m: int)
    ensures forall c :: c in scan ==> c.level <= m
  {
    if |scan| == 0 then 0
    else
      var rest := MaxLevel(scan[1..]);
      if scan[0].level < rest then rest else scan[0].level
  }

  /** The fully nested node of row `c`: its child rows, each with its own children, in scan order. */
  function Nest(scan: seq<Category>, c: Category): (t: TreeNode)
    requires LevelStep(scan) && c in scan
    ensures t.category == c
    decreases MaxLevel(scan) - c.level + 1, 0
  {
    TreeNode(c, NestAll(scan, ChildRows(scan, c.id), c.level + 1))
  }

  /** The nested nodes of a list of rows that all sit at `level`. */
  function NestAll(scan: seq<Category>, rows: seq<Category>, level: int): (ts: seq<TreeNode>)
    requires LevelStep(scan)
    requires forall c :: c in rows ==> c in scan && c.level == level
    ensures Categories(ts) == rows
    decreases MaxLevel(scan) - level + 1, 1, |rows|
  {
    if |rows| == 0 then []
    else [Nest(scan, rows[0])] + NestAll(scan, rows[1..], level)
  }

  /** The forest `FindCategoryTree` evidently means to return: every root with its full subtree. */
  function NestedForest(scan: seq<Category>): seq<TreeNode>
    requires LevelStep(scan)
  {
    seq(|RootRows(scan)|, i requires 0 <= i < |RootRows(scan)| => Nest(scan, RootRows(scan)[i]))
  }

  /** Every node of the tree lists exactly its child rows, in scan order, and so does every child. */
  ghost predicate WellNested(scan: seq<Category>, t: TreeNode) {
    && Categories(t.children) == ChildRows(scan, t.category.id)
    && forall k :: 0 <= k < |t.children| ==> WellNested(scan, t.children[k])
  }

  lemma {:induction false} NestWellNested(scan: seq<Category>, c: Category)
    requires LevelStep(scan) && c in scan
    ensures WellNested(scan, Nest(scan, c))
    decreases MaxLevel(scan) - c.level + 1, 0
  {
    NestAllWellNested(scan, ChildRows(scan, c.id), c.level + 1);
  }

  lemma {:induction false} NestAllWellNested(scan: seq<Category>, rows: seq<Category>, level: int)
    requires LevelStep(scan)
    requires forall c :: c in rows ==> c in scan && c.level == level
    ensures forall k :: 0 <= k < |rows| ==> WellNested(scan, NestAll(scan, rows, level)[k])
    decreases MaxLevel(scan) - level + 1, 1, |rows|
  {
    if |rows| > 0 {
      NestWellNested(scan, rows[0]);
      NestAllWellNested(scan, rows[1..], level);
      var ts := NestAll(scan, rows, level);
      forall k | 0 <= k < |rows| ensures WellNested(scan, ts[k]) {
        if k > 0 {
          assert ts[k] == NestAll(scan, rows[1..], level)[k - 1];
        }
      }
    }
  }

  /** The corrected forest lists the root rows in scan order, each one fully nested. */
  lemma NestedForestWellNested(scan: seq<Category>)
    requires LevelStep(scan)
    ensures Categories(NestedForest(scan)) == RootRows(scan)
    ensures forall k :: 0 <= k < |NestedForest(scan)| ==> WellNested(scan, NestedForest(scan)[k])
  {
    var roots := RootRows(scan);
    forall k | 0 <= k < |roots| ensures WellNested(scan, NestedForest(scan)[k]) {
      assert roots[k] in roots;
      NestWellNested(scan, roots[k]);
    }
  }

  /**
   * The smallest input that shows the quirk: a root and its child. The
   * assembly returns the root with no children; the nested forest returns
   * it with its child.
   */
  lemma RootLosesItsChild()
    ensures var a := Category(1, "A", "a", "", "", None, 0, "a", 0, 0);
      var b := Category(2, "B", "b", "", "", Some(1), 1, "a/b", 0, 0);
      AssembleTree([a, b]) == [TreeNode(a, [])]
  {
    var a := Category(1, "A", "a", "", "", None, 0, "a", 0, 0);
    var b := Category(2, "B", "b", "", "", Some(1), 1, "a/b", 0, 0);
    var scan := [a, b];
    TwoRowScan(a, b);
    TreeRoots(scan);
    TreeRootsChildless(scan);
    var roots := AssembleTree(scan);
    assert |roots| == 1 && roots[0].category == a;
    assert roots[0] in roots;
  }

  /** The same input, fully nested: the root carries its child. */
  lemma RootKeepsItsChildNested()
    ensures var a := Category(1, "A", "a", "", "", None, 0, "a", 0, 0);
      var b := Category(2, "B", "b", "", "", Some(1), 1, "a/b", 0, 0);
      LevelStep([a, b]) && NestedForest([a, b]) == [TreeNode(a, [TreeNode(b, [])])]
  {
    var a := Category(1, "A", "a", "", "", None, 0, "a", 0, 0);
    var b := Category(2, "B", "b", "", "", Some(1), 1, "a/b", 0, 0);
    var scan := [a, b];
    TwoRowScan(a, b);
    assert ChildRows(scan, 2) == [];
    assert Nest(scan, b) == TreeNode(b, []);
    assert NestAll(scan, [b], 1) == [TreeNode(b, [])] by {
      assert [b][1..] == [];
    }
    assert Nest(scan, a) == TreeNode(a, [TreeNode(b, [])]);
  }

  /** The filters and properties of the two-row scan used by the examples above. */
  lemma TwoRowScan(a: Category, b: Category)
    requires a == Category(1, "A", "a", "", "", None, 0, "a", 0, 0)
    requires b == Category(2, "B", "b", "", "", Some(1), 1, "a/b", 0, 0)
    ensures DistinctIds([a, b]) && LevelSorted([a, b]) && LevelStep([a, b])
    ensures RootRows([a, b]) == [a]
    ensures ChildRows([a, b], 1) == [b] && ChildRows([a, b], 2) == []
  {
    assert [a, b][..1] == [a];
    assert [a][..0] == [];
  }
}
