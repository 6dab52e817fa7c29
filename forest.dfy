/**
 * The parent structure `MenuTreeBuilder` reads out of a flat list of menu
 * items (menus/services.py), stated over the positions of the items in the
 * list: which item each item is attached to, how deep it sits, which items
 * are its ancestors, and the child and root lists one linking pass builds.
 */
module Forest {
  import opened Wrappers
  import opened Models

  // ---------------------------------------------------------------------------
  // The item list
  // ---------------------------------------------------------------------------

  /** Every item has been saved, so it has a primary key. */
  predicate AllSaved(items: seq<MenuItem>) {
    forall k :: 0 <= k < |items| ==> items[k].pk.Some?
  }

  /** No two items share a primary key. */
  predicate UniquePks(items: seq<MenuItem>) {
    forall a, b :: 0 <= a < b < |items| ==> items[a].pk != items[b].pk
  }

  /** No object occurs twice. */
  predicate Distinct<T(==)>(s: seq<T>) {
    forall a, b :: 0 <= a < b < |s| ==> s[a] != s[b]
  }

  /** Position of the first `x` in `s`. */
  function IndexOf<T(==)>(s: seq<T>, x: T): (r: Option<nat>)
    ensures r.Some? ==> r.value < |s| && s[r.value] == x
    ensures r.Some? ==> forall j :: 0 <= j < r.value ==> s[j] != x
    ensures r.None? ==> forall j :: 0 <= j < |s| ==> s[j] != x
  {
    if s == [] then None
    else if s[0] == x then Some(0)
    else match IndexOf(s[1..], x)
      case None => None
      case Some(j) => Some(j + 1)
  }

  /** The primary keys of the items, in list order. */
  function Pks(items: seq<MenuItem>): (r: seq<Option<int>>)
    ensures |r| == |items| && forall k :: 0 <= k < |items| ==> r[k] == items[k].pk
  {
    seq(|items|, k requires 0 <= k < |items| => items[k].pk)
  }

  /** Position of the first item whose primary key is `pk`. */
  function IndexOfPk(items: seq<MenuItem>, pk: int): (r: Option<nat>)
    ensures r.Some? ==> r.value < |items| && items[r.value].pk == Some(pk)
    ensures forall k :: 0 <= k < |items| && items[k].pk == Some(pk) ==> r.Some? && r.value <= k
  {
    IndexOf(Pks(items), Some(pk))
  }

  /**
   * Position of the item that linking attaches item `k` to: the item whose
   * primary key is `k`'s parent id, when that id is truthy and such an item is
   * in the list. None makes item `k` a root.
   */
  function ParentIndex(items: seq<MenuItem>, k: nat): (r: Option<nat>)
    requires k < |items|
    ensures r.Some? ==>
      r.value < |items| && IdIsTruthy(items[k].parentId) && items[r.value].pk == items[k].parentId
    ensures r.None? ==>
      !IdIsTruthy(items[k].parentId) || forall j :: 0 <= j < |items| ==> items[j].pk != items[k].parentId
  {
    if IdIsTruthy(items[k].parentId) then IndexOfPk(items, items[k].parentId.value) else None
  }

  /** An item whose `is_root` holds is placed among the roots. */
  lemma RootItemHasNoParent(items: seq<MenuItem>, k: nat)
    requires k < |items| && IsRoot(items[k])
    ensures ParentIndex(items, k) == None
  {
  }

  // ---------------------------------------------------------------------------
  // Acyclicity and depth
  // ---------------------------------------------------------------------------

  /**
   * The number of ancestors of item `k`, when following parents from `k`
   * reaches a root within `fuel` steps.
   */
  function Height(items: seq<MenuItem>, k: nat, fuel: nat): Option<nat>
    requires k < |items|
    decreases fuel
  {
    match ParentIndex(items, k)
    case None => Some(0)
    case Some(j) =>
      if fuel == 0 then None
      else match Height(items, j, fuel - 1)
        case None => None
        case Some(h) => Some(h + 1)
  }

  /**
   * The parent relation has no cycle: from every item, following parents
   * reaches a root in fewer steps than there are items.
   */
  predicate Acyclic(items: seq<MenuItem>) {
    forall k :: 0 <= k < |items| ==> Height(items, k, |items|).Some?
  }

  /** Distance from item `k` to its root. */
  function Depth(items: seq<MenuItem>, k: nat): nat
    requires Acyclic(items) && k < |items|
  {
    Height(items, k, |items|).value
  }

  lemma {:induction false} HeightMoreFuel(items: seq<MenuItem>, k: nat, fuel: nat, more: nat)
    requires k < |items| && fuel <= more
    requires Height(items, k, fuel).Some?
    ensures Height(items, k, more) == Height(items, k, fuel)
    decreases fuel
  {
    match ParentIndex(items, k)
    case None =>
    case Some(j) =>
      HeightMoreFuel(items, j, fuel - 1, more - 1);
  }

  /** A root has depth 0 and every other item sits one level below its parent. */
  lemma DepthOfChild(items: seq<MenuItem>, k: nat)
    requires Acyclic(items) && k < |items|
    ensures ParentIndex(items, k).None? ==> Depth(items, k) == 0
    ensures ParentIndex(items, k).Some? ==>
      Depth(items, k) == Depth(items, ParentIndex(items, k).value) + 1
  {
    if ParentIndex(items, k).Some? {
      var j := ParentIndex(items, k).value;
      assert Height(items, k, |items|).Some?;
      assert Height(items, j, |items| - 1).Some?;
      HeightMoreFuel(items, j, |items| - 1, |items|);
    }
  }

  /** The strict ancestors of item `k`: its parent, its parent's parent, and so on. */
  function Ancestors(items: seq<MenuItem>, k: nat): (r: set<nat>)
    requires Acyclic(items) && k < |items|
    ensures forall a :: a in r ==> a < |items| && Depth(items, a) < Depth(items, k)
    decreases Depth(items, k)
  {
    DepthOfChild(items, k);
    match ParentIndex(items, k)
    case None => {}
    case Some(j) => {j} + Ancestors(items, j)
  }

  /** An item is never its own ancestor. */
  lemma NotOwnAncestor(items: seq<MenuItem>, k: nat)
    requires Acyclic(items) && k < |items|
    ensures k !in Ancestors(items, k)
  {
  }

  /** Following parents from any item leads to a root, so a non-empty acyclic list has one. */
  lemma {:induction false} RootAbove(items: seq<MenuItem>, k: nat) returns (root: nat)
    requires Acyclic(items) && k < |items|
    ensures root < |items| && ParentIndex(items, root).None?
    ensures root == k || root in Ancestors(items, k)
    decreases Depth(items, k)
  {
    DepthOfChild(items, k);
    match ParentIndex(items, k)
    case None =>
      root := k;
    case Some(j) =>
      root := RootAbove(items, j);
  }

  // ---------------------------------------------------------------------------
  // What one linking pass builds
  // ---------------------------------------------------------------------------

  /** `ParentIndex` of every item, in list order. */
  function ParentIndices(items: seq<MenuItem>): (r: seq<Option<nat>>)
    ensures |r| == |items|
    ensures forall k :: 0 <= k < |r| && r[k].Some? ==> r[k].value < |r|
  {
    ParentIndicesUpTo(items, |items|)
  }

  function ParentIndicesUpTo(items: seq<MenuItem>, n: nat): (r: seq<Option<nat>>)
    requires n <= |items|
    ensures |r| == n
    ensures forall k :: 0 <= k < n && r[k].Some? ==> r[k].value < |items|
  {
    if n == 0 then [] else ParentIndicesUpTo(items, n - 1) + [ParentIndex(items, n - 1)]
  }

  lemma {:induction false} ParentIndicesUpToAt(items: seq<MenuItem>, n: nat, k: nat)
    requires k < n <= |items|
    ensures ParentIndicesUpTo(items, n)[k] == ParentIndex(items, k)
  {
    if k < n - 1 {
      ParentIndicesUpToAt(items, n - 1, k);
    }
  }

  lemma ParentIndicesAt(items: seq<MenuItem>, k: nat)
    requires k < |items|
    ensures ParentIndices(items)[k] == ParentIndex(items, k)
  {
    ParentIndicesUpToAt(items, |items|, k);
  }

  /**
   * The depth `_link_nodes` gives item `k`: its parent's depth at the moment
   * `k` is processed, plus one. A parent that comes later in the list (or `k`
   * itself) still has its initial depth 0 at that moment.
   */
  function LinkDepth(parents: seq<Option<nat>>, k: nat): nat
    requires k < |parents|
  {
    match parents[k]
    case None => 0
    case Some(j) => if j < k then LinkDepth(parents, j) + 1 else 1
  }

  /** Every item comes after the item it is attached to. */
  predicate ParentsFirst(items: seq<MenuItem>) {
    forall k :: 0 <= k < |items| && ParentIndex(items, k).Some? ==> ParentIndex(items, k).value < k
  }

  lemma {:induction false} HeightWithParentsFirst(items: seq<MenuItem>, k: nat, fuel: nat)
    requires ParentsFirst(items) && k < |items| && k <= fuel
    ensures Height(items, k, fuel).Some?
    decreases k
  {
    match ParentIndex(items, k)
    case None =>
    case Some(j) =>
      HeightWithParentsFirst(items, j, fuel - 1);
  }

  /** A list where parents come first has no cycle. */
  lemma ParentsFirstIsAcyclic(items: seq<MenuItem>)
    requires ParentsFirst(items)
    ensures Acyclic(items)
  {
    forall k | 0 <= k < |items|
      ensures Height(items, k, |items|).Some?
    {
      HeightWithParentsFirst(items, k, |items|);
    }
  }

  /** When parents come first, the linking pass assigns every item its true depth. */
  lemma {:induction false} LinkDepthIsDepth(items: seq<MenuItem>, k: nat)
    requires ParentsFirst(items) && k < |items|
    ensures Acyclic(items)
    ensures LinkDepth(ParentIndices(items), k) == Depth(items, k)
    decreases k
  {
    ParentsFirstIsAcyclic(items);
    DepthOfChild(items, k);
    ParentIndicesAt(items, k);
    match ParentIndex(items, k)
    case None =>
    case Some(j) =>
      LinkDepthIsDepth(items, j);
  }

  /**
   * The children of item `m` after the first `n` items are linked, in
   * processing order: `nodes[k]` for every `k < n` attached to `m`.
   */
  function LinkedChildren<T>(parents: seq<Option<nat>>, nodes: seq<T>, m: nat, n: nat): seq<T>
    requires |nodes| == |parents| && n <= |parents|
  {
    if n == 0 then []
    else if parents[n - 1] == Some(m) then LinkedChildren(parents, nodes, m, n - 1) + [nodes[n - 1]]
    else LinkedChildren(parents, nodes, m, n - 1)
  }

  /** The roots after the first `n` items are linked, in processing order. */
  function LinkedRoots<T>(parents: seq<Option<nat>>, nodes: seq<T>, n: nat): seq<T>
    requires |nodes| == |parents| && n <= |parents|
  {
    if n == 0 then []
    else if parents[n - 1].None? then LinkedRoots(parents, nodes, n - 1) + [nodes[n - 1]]
    else LinkedRoots(parents, nodes, n - 1)
  }

  /** Node `k` occurs among the children of `m` once if it is attached to `m`, otherwise not at all. */
  lemma {:induction false} LinkedChildrenCount<T>(parents: seq<Option<nat>>, nodes: seq<T>, m: nat, n: nat, k: nat)
    requires |nodes| == |parents| && n <= |parents| && k < |parents|
    requires forall j :: 0 <= j < |nodes| && j != k ==> nodes[j] != nodes[k]
    ensures multiset(LinkedChildren(parents, nodes, m, n))[nodes[k]]
      == if k < n && parents[k] == Some(m) then 1 else 0
  {
    if n > 0 {
      LinkedChildrenCount(parents, nodes, m, n - 1, k);
      var prev := LinkedChildren(parents, nodes, m, n - 1);
      if parents[n - 1] == Some(m) {
        assert LinkedChildren(parents, nodes, m, n) == prev + [nodes[n - 1]];
        if k != n - 1 {
          assert nodes[n - 1] != nodes[k];
        }
      } else {
        assert LinkedChildren(parents, nodes, m, n) == prev;
      }
    }
  }

  /** Node `k` occurs among the roots once if it is attached to nothing, otherwise not at all. */
  lemma {:induction false} LinkedRootsCount<T>(parents: seq<Option<nat>>, nodes: seq<T>, n: nat, k: nat)
    requires |nodes| == |parents| && n <= |parents| && k < |parents|
    requires forall j :: 0 <= j < |nodes| && j != k ==> nodes[j] != nodes[k]
    ensures multiset(LinkedRoots(parents, nodes, n))[nodes[k]]
      == if k < n && parents[k].None? then 1 else 0
  {
    if n > 0 {
      LinkedRootsCount(parents, nodes, n - 1, k);
      var prev := LinkedRoots(parents, nodes, n - 1);
      if parents[n - 1].None? {
        assert LinkedRoots(parents, nodes, n) == prev + [nodes[n - 1]];
        if k != n - 1 {
          assert nodes[n - 1] != nodes[k];
        }
      } else {
        assert LinkedRoots(parents, nodes, n) == prev;
      }
    }
  }

  /**
   * After the linking pass node `k` sits in exactly one list: once among the
   * roots when it is attached to nothing, otherwise once among the children
   * of the one item it is attached to, and nowhere else.
   */
  lemma PlacedExactlyOnce<T>(parents: seq<Option<nat>>, nodes: seq<T>, k: nat)
    requires |nodes| == |parents| && k < |parents| && Distinct(nodes)
    ensures multiset(LinkedRoots(parents, nodes, |parents|))[nodes[k]] == if parents[k].None? then 1 else 0
    ensures forall m: nat ::
      multiset(LinkedChildren(parents, nodes, m, |parents|))[nodes[k]] == if parents[k] == Some(m) then 1 else 0
  {
    assert forall j :: 0 <= j < |nodes| && j != k ==> nodes[j] != nodes[k];
    LinkedRootsCount(parents, nodes, |parents|, k);
    forall m: nat
      ensures multiset(LinkedChildren(parents, nodes, m, |parents|))[nodes[k]]
        == if parents[k] == Some(m) then 1 else 0
    {
      LinkedChildrenCount(parents, nodes, m, |parents|, k);
    }
  }

  /** A non-empty list without cycles links at least one root. */
  lemma SomeRootLinked<T>(items: seq<MenuItem>, nodes: seq<T>)
    requires Acyclic(items) && items != [] && |nodes| == |items| && Distinct(nodes)
    ensures LinkedRoots(ParentIndices(items), nodes, |items|) != []
  {
    var r := RootAbove(items, 0);
    ParentIndicesAt(items, r);
    LinkedRootsCount(ParentIndices(items), nodes, |items|, r);
  }

  /** Only nodes of the list are linked anywhere. */
  lemma {:induction false} LinkedOnlyListed<T>(parents: seq<Option<nat>>, nodes: seq<T>, m: nat, n: nat)
    requires |nodes| == |parents| && n <= |parents|
    ensures forall x :: x in LinkedChildren(parents, nodes, m, n) ==> x in nodes
    ensures forall x :: x in LinkedRoots(parents, nodes, n) ==> x in nodes
  {
    if n > 0 {
      LinkedOnlyListed(parents, nodes, m, n - 1);
    }
  }
}
