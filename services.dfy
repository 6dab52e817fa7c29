/**
 * `MenuTreeBuilder` and `MenuTree` of menus/services.py: assembling the flat,
 * ordered list of a menu's items into a tree of `MenuNode`s and marking the
 * branch that leads to the page being viewed.
 */
module Services {
  import opened Wrappers
  import opened Models
  import opened UrlPaths
  import opened Forest
  import opened Nodes

  /** `MenuTree`: the menu's title, if known, and its sorted root nodes. */
  datatype MenuTree = MenuTree(menuTitle: Option<string>, nodes: seq<MenuNode>) {

    /** `MenuTree.__bool__`: a tree is truthy when it has a root node. */
    predicate IsTruthy() {
      nodes != []
    }
  }

  /**
   * What `_items_queryset` hands the builder for a menu slug: saved items of
   * the active menu with that slug, themselves active, with unique primary
   * keys, ordered by `(position, pk)`.
   */
  predicate IsQueryResult(items: seq<MenuItem>, slug: string) {
    && AllSaved(items)
    && UniquePks(items)
    && (forall k :: 0 <= k < |items| ==>
          items[k].isActive && items[k].menu.slug == slug && items[k].menu.isActive)
    && (forall a, b :: 0 <= a < b < |items| ==>
          items[a].position < items[b].position
          || (items[a].position == items[b].position && items[a].pk.value < items[b].pk.value))
  }

  /**
   * `node_map` after `_hydrate_nodes`: `values`, the dictionary's values in
   * insertion order, holds one distinct node per item, keyed by the item's
   * primary key.
   */
  ghost predicate IsNodeMap(items: seq<MenuItem>, nodeMap: map<int, MenuNode>, values: seq<MenuNode>) {
    && AllSaved(items)
    && UniquePks(items)
    && |values| == |items|
    && Distinct(values)
    && (forall k :: 0 <= k < |items| ==>
          items[k].pk.value in nodeMap && nodeMap[items[k].pk.value] == values[k])
    && (forall p :: p in nodeMap ==> IndexOfPk(items, p).Some?)
  }

  /** The dictionary lookups of `_link_nodes` find exactly the parent `ParentIndex` names. */
  lemma LookUpParent(items: seq<MenuItem>, nodeMap: map<int, MenuNode>, values: seq<MenuNode>, k: nat)
    requires IsNodeMap(items, nodeMap, values) && k < |items|
    ensures ParentIndex(items, k).Some? <==>
      IdIsTruthy(items[k].parentId) && items[k].parentId.value in nodeMap
    ensures ParentIndex(items, k).Some? ==>
      nodeMap[items[k].parentId.value] == values[ParentIndex(items, k).value]
    ensures nodeMap[items[k].pk.value] == values[k]
  {
    if IdIsTruthy(items[k].parentId) && items[k].parentId.value in nodeMap {
      var j := IndexOfPk(items, items[k].parentId.value).value;
      assert items[j].pk.value == items[k].parentId.value;
    }
  }

  /** Node `k` carries the fields of item `k`, its URL resolved with `reverse`. */
  predicate HasItemFields(items: seq<MenuItem>, reverse: Resolver, values: seq<MenuNode>)
    requires AllSaved(items) && |values| == |items|
  {
    forall k :: 0 <= k < |items| ==>
      && values[k].pk == items[k].pk.value
      && values[k].title == items[k].title
      && values[k].url == ResolvedUrl(items[k], reverse)
      && values[k].position == items[k].position
  }

  /** Every parent position names an item of the list. */
  predicate InRange(parents: seq<Option<nat>>) {
    forall j :: 0 <= j < |parents| && parents[j].Some? ==> parents[j].value < |parents|
  }

  /**
   * The two lookups `_link_nodes` makes for item `k`, `node_map[item.pk]` and
   * `node_map[item.parent_id]`, find node `k` and the node of `parents[k]`.
   */
  ghost predicate LookupsAgree(items: seq<MenuItem>, nodeMap: map<int, MenuNode>, values: seq<MenuNode>,
                               parents: seq<Option<nat>>)
    requires AllSaved(items) && |values| == |items| == |parents| && InRange(parents)
  {
    forall k {:trigger items[k]} :: 0 <= k < |items| ==>
      && items[k].pk.value in nodeMap && nodeMap[items[k].pk.value] == values[k]
      && (parents[k].Some? <==> IdIsTruthy(items[k].parentId) && items[k].parentId.value in nodeMap)
      && (parents[k].Some? ==> nodeMap[items[k].parentId.value] == values[parents[k].value])
  }

  lemma NodeMapLookups(items: seq<MenuItem>, nodeMap: map<int, MenuNode>, values: seq<MenuNode>)
    requires IsNodeMap(items, nodeMap, values)
    ensures InRange(ParentIndices(items))
    ensures LookupsAgree(items, nodeMap, values, ParentIndices(items))
  {
    forall k | 0 <= k < |items|
      ensures ParentIndices(items)[k] == ParentIndex(items, k)
    {
      ParentIndicesAt(items, k);
      LookUpParent(items, nodeMap, values, k);
    }
  }

  /** The node item `k` is attached to, or null for a root. */
  function ParentNode(parents: seq<Option<nat>>, values: seq<MenuNode>, k: nat): MenuNode?
    requires |values| == |parents| && k < |parents| && InRange(parents)
  {
    match parents[k]
    case None => null
    case Some(j) => values[j]
  }

  /** Every node's `parent` link agrees with the items' parent ids. */
  ghost predicate IsLinked(items: seq<MenuItem>, values: seq<MenuNode>)
    requires |values| == |items|
    reads set n | n in values
  {
    forall k :: 0 <= k < |items| ==> values[k].parent == ParentNode(ParentIndices(items), values, k)
  }

  /**
   * A list that holds nodes of `all`, each at most once, has distinct primary
   * keys, because the items they were hydrated from do.
   */
  lemma LinkedListHasDistinctPks(items: seq<MenuItem>, reverse: Resolver, all: seq<MenuNode>, s: seq<MenuNode>)
    requires AllSaved(items) && UniquePks(items) && |all| == |items| && HasItemFields(items, reverse, all)
    requires forall x :: x in s ==> x in all
    requires forall a :: 0 <= a < |all| ==> multiset(s)[all[a]] <= 1
    ensures DistinctPks(s)
  {
    forall i, j | 0 <= i < j < |s|
      ensures s[i].pk != s[j].pk
    {
      assert s[i] in all && s[j] in all;
      var a :| 0 <= a < |all| && all[a] == s[i];
      var b :| 0 <= b < |all| && all[b] == s[j];
      if a == b {
        CountAtLeastTwo(s, i, j);
        assert false;
      }
      assert items[a].pk != items[b].pk;
    }
  }

  /**
   * The root order of the tree is fully determined: any sorted permutation of
   * the linked roots, such as the one Python's `list.sort` produces, is the
   * one the model computes.
   */
  lemma RootOrderIsDetermined(items: seq<MenuItem>, reverse: Resolver, all: seq<MenuNode>, t: seq<MenuNode>)
    requires AllSaved(items) && UniquePks(items) && |all| == |items| && Distinct(all)
    requires HasItemFields(items, reverse, all)
    requires Sorted(t) && multiset(t) == multiset(LinkedRoots(ParentIndices(items), all, |items|))
    ensures t == SortNodes(LinkedRoots(ParentIndices(items), all, |items|))
  {
    var parents := ParentIndices(items);
    var roots := LinkedRoots(parents, all, |items|);
    LinkedOnlyListed(parents, all, 0, |items|);
    forall a | 0 <= a < |all|
      ensures multiset(roots)[all[a]] <= 1
    {
      PlacedExactlyOnce(parents, all, a);
    }
    LinkedListHasDistinctPks(items, reverse, all, roots);
    SortIsDetermined(roots, t);
  }

  /** Likewise the order of the children of every node is fully determined. */
  lemma ChildOrderIsDetermined(items: seq<MenuItem>, reverse: Resolver, all: seq<MenuNode>, m: nat,
                               t: seq<MenuNode>)
    requires AllSaved(items) && UniquePks(items) && |all| == |items| && Distinct(all)
    requires HasItemFields(items, reverse, all)
    requires Sorted(t) && multiset(t) == multiset(LinkedChildren(ParentIndices(items), all, m, |items|))
    ensures t == SortNodes(LinkedChildren(ParentIndices(items), all, m, |items|))
  {
    var parents := ParentIndices(items);
    var children := LinkedChildren(parents, all, m, |items|);
    LinkedOnlyListed(parents, all, m, |items|);
    forall a | 0 <= a < |all|
      ensures multiset(children)[all[a]] <= 1
    {
      PlacedExactlyOnce(parents, all, a);
    }
    LinkedListHasDistinctPks(items, reverse, all, children);
    SortIsDetermined(children, t);
  }

  /**
   * Three items of one menu, ordered by `(position, pk)`: C (pk 3) under B
   * (pk 2) under the root A (pk 1), with C placed first and A last.
   */
  function ChildBeforeParent(): seq<MenuItem> {
    var main := Menu(1, "Main", "main", "", true);
    [ MenuItem(Some(3), main, Some(2), "C", "", "/c", 1, true),
      MenuItem(Some(2), main, Some(1), "B", "", "/b", 2, true),
      MenuItem(Some(1), main, None, "A", "", "/a", 3, true) ]
  }

  /**
   * `node.depth = parent.depth + 1` reads the parent's depth at the moment
   * the child is linked, so a query result in which a child comes before its
   * parent gives the grandchild C depth 1 instead of its distance 2 to the root.
   */
  lemma LinkDepthCanBeShort()
    ensures IsQueryResult(ChildBeforeParent(), "main") && Acyclic(ChildBeforeParent())
    ensures LinkDepth(ParentIndices(ChildBeforeParent()), 0) == 1
    ensures Depth(ChildBeforeParent(), 0) == 2
  {
    ChildBeforeParentIsQueryResult();
    ChildBeforeParentLinks();
    ChainOfThree(ChildBeforeParent());
    ParentIndicesAt(ChildBeforeParent(), 0);
  }

  lemma ChildBeforeParentIsQueryResult()
    ensures IsQueryResult(ChildBeforeParent(), "main")
  {
  }

  lemma ChildBeforeParentLinks()
    ensures ParentIndex(ChildBeforeParent(), 0) == Some(1)
    ensures ParentIndex(ChildBeforeParent(), 1) == Some(2)
    ensures ParentIndex(ChildBeforeParent(), 2) == None
  {
    var items := ChildBeforeParent();
    assert items[0].pk == Some(3) && items[1].pk == Some(2) && items[2].pk == Some(1);
    assert items[0].parentId == Some(2) && items[1].parentId == Some(1) && items[2].parentId == None;
  }

  /** Item 0 under item 1 under the root item 2 sits at depth 2. */
  lemma ChainOfThree(items: seq<MenuItem>)
    requires |items| == 3
    requires ParentIndex(items, 0) == Some(1) && ParentIndex(items, 1) == Some(2) && ParentIndex(items, 2) == None
    ensures Acyclic(items) && Depth(items, 0) == 2
  {
    assert Height(items, 2, 1) == Some(0);
    assert Height(items, 2, 2) == Some(0);
    assert Height(items, 2, 3) == Some(0);
    assert Height(items, 1, 2) == Some(1);
    assert Height(items, 1, 3) == Some(1);
    assert Height(items, 0, 3) == Some(2);
  }

  /** The normalised URL of every node, in hydration order. */
  function NormalizedUrls(values: seq<MenuNode>): (r: seq<Option<string>>)
    ensures |r| == |values|
  {
    if values == [] then [] else [Normalize(Some(values[0].url))] + NormalizedUrls(values[1..])
  }

  lemma {:induction false} NormalizedUrlAt(values: seq<MenuNode>, j: nat)
    requires j < |values|
    ensures NormalizedUrls(values)[j] == Normalize(Some(values[j].url))
  {
    if j > 0 {
      NormalizedUrlAt(values[1..], j - 1);
    }
  }

  /**
   * The node `_flag_active_path` marks active, if the current path is set:
   * the first node, in hydration order, whose normalised URL is that path.
   */
  function ActiveIndex(currentPath: Option<string>, values: seq<MenuNode>): (r: Option<nat>)
    ensures r.Some? ==> r.value < |values| && currentPath.Some? && currentPath.value != []
  {
    if currentPath.None? || currentPath.value == [] then None
    else IndexOf(NormalizedUrls(values), currentPath)
  }

  /** What `ActiveIndex` finds, in terms of the nodes' URLs. */
  lemma ActiveIndexFinds(currentPath: Option<string>, values: seq<MenuNode>)
    ensures var r := ActiveIndex(currentPath, values);
      && (r.Some? ==> Normalize(Some(values[r.value].url)) == currentPath)
      && (r.Some? ==> forall j :: 0 <= j < r.value ==> Normalize(Some(values[j].url)) != currentPath)
      && (r.None? && currentPath.Some? && currentPath.value != [] ==>
            forall j :: 0 <= j < |values| ==> Normalize(Some(values[j].url)) != currentPath)
  {
    forall j | 0 <= j < |values|
      ensures NormalizedUrls(values)[j] == Normalize(Some(values[j].url))
    {
      NormalizedUrlAt(values, j);
    }
  }

  /** `MenuTreeBuilder`: builds the tree of one menu for one current path. */
  class MenuTreeBuilder {
    const menuSlug: string
    /** The current path, normalised once, in the constructor. */
    const currentPath: Option<string>

    constructor (menuSlug: string, currentPath: Option<string>)
      ensures this.menuSlug == menuSlug
      ensures this.currentPath == Normalize(currentPath)
    {
      this.menuSlug := menuSlug;
      this.currentPath := Normalize(currentPath);
    }

    /**
     * `build`: hydrate one node per item, link and sort them, flag the active
     * branch. `all` lists the nodes in input order.
     */
    method Build(items: seq<MenuItem>, reverse: Resolver) returns (tree: MenuTree, ghost all: seq<MenuNode>)
      requires IsQueryResult(items, menuSlug)
      requires Acyclic(items)
      ensures tree.menuTitle == if items == [] then None else Some(items[0].menu.title)
      ensures tree.IsTruthy() <==> items != []
      ensures |all| == |items| && Distinct(all) && HasItemFields(items, reverse, all)
      ensures tree.nodes == SortNodes(LinkedRoots(ParentIndices(items), all, |items|))
      ensures forall k :: 0 <= k < |items| ==>
        all[k].children == SortNodes(LinkedChildren(ParentIndices(items), all, k, |items|))
      ensures IsLinked(items, all)
      ensures forall k :: 0 <= k < |items| ==> all[k].depth == LinkDepth(ParentIndices(items), k)
      ensures forall k :: 0 <= k < |items| ==>
        all[k].isActive == (ActiveIndex(currentPath, all) == Some(k))
      ensures forall k :: 0 <= k < |items| ==>
        all[k].isAncestor ==
          (ActiveIndex(currentPath, all).Some? && k in Ancestors(items, ActiveIndex(currentPath, all).value))
    {
      var menuTitle := if items != [] then Some(items[0].menu.title) else None;
      var nodeMap, values := HydrateNodes(items, reverse);
      var roots := LinkNodes(items, nodeMap, values);
      FlagActivePath(values, items);
      tree := MenuTree(menuTitle, roots);
      all := values;
      if items != [] {
        SomeRootLinked(items, values);
        assert |multiset(roots)| != 0;
      }
    }

    /**
     * `_hydrate_nodes`: a fresh node per item, keyed by primary key, in input
     * order, with depth 0, no flags and no links.
     */
    method HydrateNodes(items: seq<MenuItem>, reverse: Resolver)
      returns (nodeMap: map<int, MenuNode>, values: seq<MenuNode>)
      requires AllSaved(items) && UniquePks(items)
      ensures IsNodeMap(items, nodeMap, values)
      ensures HasItemFields(items, reverse, values)
      ensures forall n :: n in values ==> fresh(n)
      ensures forall k :: 0 <= k < |values| ==>
        values[k].depth == 0 && !values[k].isActive && !values[k].isAncestor
        && values[k].parent == null && values[k].children == []
    {
      nodeMap, values := map[], [];
      for i := 0 to |items|
        invariant |values| == i && Distinct(values)
        invariant forall n :: n in values ==> fresh(n)
        invariant forall k :: 0 <= k < i ==>
          items[k].pk.value in nodeMap && nodeMap[items[k].pk.value] == values[k]
        invariant forall p :: p in nodeMap ==> exists k :: 0 <= k < i && items[k].pk == Some(p)
        invariant forall k :: 0 <= k < i ==>
          && values[k].pk == items[k].pk.value
          && values[k].title == items[k].title
          && values[k].url == ResolvedUrl(items[k], reverse)
          && values[k].position == items[k].position
        invariant forall k :: 0 <= k < i ==>
          values[k].depth == 0 && !values[k].isActive && !values[k].isAncestor
          && values[k].parent == null && values[k].children == []
      {
        var item := items[i];
        var node := new MenuNode(item.pk.value, item.title, ResolvedUrl(item, reverse), item.position);
        nodeMap := nodeMap[item.pk.value := node];
        values := values + [node];
      }
    }

    /**
     * `_link_nodes`: attach every node to its parent, or to the roots when
     * the parent id is falsy or not in the map, then sort every child list
     * and the roots.
     */
    method LinkNodes(items: seq<MenuItem>, nodeMap: map<int, MenuNode>, values: seq<MenuNode>)
      returns (roots: seq<MenuNode>)
      requires IsNodeMap(items, nodeMap, values)
      requires forall k :: 0 <= k < |values| ==>
        values[k].depth == 0 && values[k].parent == null && values[k].children == []
      modifies (set n | n in values)`parent, (set n | n in values)`depth, (set n | n in values)`children
      ensures roots == SortNodes(LinkedRoots(ParentIndices(items), values, |items|))
      ensures forall k :: 0 <= k < |items| ==>
        values[k].children == SortNodes(LinkedChildren(ParentIndices(items), values, k, |items|))
      ensures IsLinked(items, values)
      ensures forall k :: 0 <= k < |items| ==> values[k].depth == LinkDepth(ParentIndices(items), k)
      ensures forall k :: 0 <= k < |values| ==>
        values[k].isActive == old(values[k].isActive) && values[k].isAncestor == old(values[k].isAncestor)
    {
      NodeMapLookups(items, nodeMap, values);
      roots := AttachNodes(items, nodeMap, values, ParentIndices(items));
      SortChildren(items, values);
      roots := SortNodes(roots);
    }

    /** The first loop of `_link_nodes`: parent links, depths, children and roots in input order. */
    method AttachNodes(items: seq<MenuItem>, nodeMap: map<int, MenuNode>, values: seq<MenuNode>,
                       ghost parents: seq<Option<nat>>)
      returns (roots: seq<MenuNode>)
      requires AllSaved(items) && |values| == |items| == |parents| && Distinct(values) && InRange(parents)
      requires LookupsAgree(items, nodeMap, values, parents)
      requires forall k :: 0 <= k < |values| ==>
        values[k].depth == 0 && values[k].parent == null && values[k].children == []
      modifies (set n | n in values)`parent, (set n | n in values)`depth, (set n | n in values)`children
      ensures roots == LinkedRoots(parents, values, |items|)
      ensures forall m :: 0 <= m < |items| ==> values[m].children == LinkedChildren(parents, values, m, |items|)
      ensures forall k :: 0 <= k < |items| ==> values[k].parent == ParentNode(parents, values, k)
      ensures forall k :: 0 <= k < |items| ==> values[k].depth == LinkDepth(parents, k)
      ensures forall k :: 0 <= k < |values| ==>
        values[k].isActive == old(values[k].isActive) && values[k].isAncestor == old(values[k].isAncestor)
    {
      roots := [];
      for i := 0 to |items|
        invariant roots == LinkedRoots(parents, values, i)
        invariant forall k {:trigger values[k].parent} :: 0 <= k < i ==>
          values[k].parent == ParentNode(parents, values, k)
        invariant forall k {:trigger values[k].parent} :: i <= k < |items| ==> values[k].parent == null
        invariant forall k {:trigger values[k].depth} :: 0 <= k < i ==> values[k].depth == LinkDepth(parents, k)
        invariant forall k {:trigger values[k].depth} :: i <= k < |items| ==> values[k].depth == 0
        invariant forall m {:trigger values[m].children} :: 0 <= m < |items| ==>
          values[m].children == LinkedChildren(parents, values, m, i)
      {
        var item := items[i];
        var node := nodeMap[item.pk.value];
        assert node == values[i];
        assert forall k :: 0 <= k < |items| && k != i ==> values[k] != node;
        if IdIsTruthy(item.parentId) && item.parentId.value in nodeMap {
          ghost var j := parents[i].value;
          var parent := nodeMap[item.parentId.value];
          assert parent == values[j];
          Attach(node, parent);
        } else {
          roots := roots + [node];
        }
      }
    }

    /** The three assignments that hang `node` under `parent`. */
    method Attach(node: MenuNode, parent: MenuNode)
      modifies node`parent, node`depth, parent`children
      ensures node.parent == parent && node.depth == old(parent.depth) + 1
      ensures parent.children == old(parent.children) + [node]
      ensures node != parent ==> node.children == old(node.children)
      ensures node != parent ==> parent.parent == old(parent.parent) && parent.depth == old(parent.depth)
      ensures node.isActive == old(node.isActive) && node.isAncestor == old(node.isAncestor)
      ensures parent.isActive == old(parent.isActive) && parent.isAncestor == old(parent.isAncestor)
    {
      node.parent := parent;
      node.depth := parent.depth + 1;
      parent.children := parent.children + [node];
    }

    /** The second loop of `_link_nodes`: every child list sorted by the node key. */
    method SortChildren(ghost items: seq<MenuItem>, values: seq<MenuNode>)
      requires |values| == |items| && Distinct(values)
      modifies (set n | n in values)`children
      ensures forall k :: 0 <= k < |values| ==> values[k].children == SortNodes(old(values[k].children))
      ensures forall k :: 0 <= k < |values| ==>
        && values[k].parent == old(values[k].parent) && values[k].depth == old(values[k].depth)
        && values[k].isActive == old(values[k].isActive) && values[k].isAncestor == old(values[k].isAncestor)
    {
      for i := 0 to |values|
        invariant forall k {:trigger values[k].children} :: 0 <= k < i ==>
          values[k].children == SortNodes(old(values[k].children))
        invariant forall k {:trigger values[k].children} :: i <= k < |values| ==>
          values[k].children == old(values[k].children)
      {
        assert forall k :: 0 <= k < |values| && k != i ==> values[k] != values[i];
        values[i].children := SortNodes(values[i].children);
      }
    }

    /**
     * `_flag_active_path`: when the current path is set, mark the first node
     * whose normalised URL equals it as active and every node on its parent
     * chain as an ancestor. `items` only states which chain that is.
     */
    method FlagActivePath(values: seq<MenuNode>, ghost items: seq<MenuItem>)
      requires |values| == |items| && Distinct(values)
      requires Acyclic(items) && IsLinked(items, values)
      modifies (set n | n in values)`isActive, (set n | n in values)`isAncestor
      ensures forall k :: 0 <= k < |values| ==>
        values[k].isActive == (old(values[k].isActive) || ActiveIndex(currentPath, values) == Some(k))
      ensures forall k :: 0 <= k < |values| ==>
        values[k].isAncestor == (old(values[k].isAncestor)
          || (ActiveIndex(currentPath, values).Some? && k in Ancestors(items, ActiveIndex(currentPath, values).value)))
      ensures forall k :: 0 <= k < |values| ==>
        values[k].parent == old(values[k].parent) && values[k].children == old(values[k].children)
        && values[k].depth == old(values[k].depth)
    {
      if currentPath.None? || currentPath.value == [] {
        return;
      }
      var found := ActiveIndex(currentPath, values);
      if found.None? {
        return;
      }
      var active := values[found.value];
      active.isActive := true;
      FlagAncestors(values, items, found.value);
    }

    /** The walk of `_flag_active_path` up the parent links of node `i`. */
    method FlagAncestors(values: seq<MenuNode>, ghost items: seq<MenuItem>, i: nat)
      requires |values| == |items| && i < |items| && Distinct(values)
      requires Acyclic(items) && IsLinked(items, values)
      modifies (set n | n in values)`isAncestor
      ensures forall k :: 0 <= k < |values| ==>
        values[k].isAncestor == (old(values[k].isAncestor) || k in Ancestors(items, i))
      ensures forall k :: 0 <= k < |values| ==>
        && values[k].isActive == old(values[k].isActive)
        && values[k].parent == old(values[k].parent) && values[k].children == old(values[k].children)
        && values[k].depth == old(values[k].depth)
    {
      var parent := values[i].parent;
      ghost var parents := ParentIndices(items);
      ParentIndicesAt(items, i);
      ghost var at: Option<nat> := parents[i];
      ghost var flagged: set<nat> := {};
      while parent != null
        invariant at.Some? ==> at.value < |items| && parent == values[at.value]
        invariant at.None? ==> parent == null
        invariant at.Some? ==> Ancestors(items, i) == flagged + {at.value} + Ancestors(items, at.value)
        invariant at.None? ==> Ancestors(items, i) == flagged
        invariant forall k {:trigger values[k].isAncestor} :: 0 <= k < |values| ==>
          values[k].isAncestor == (old(values[k].isAncestor) || k in flagged)
        decreases if at.Some? then Depth(items, at.value) + 1 else 0
      {
        ghost var j := at.value;
        DepthOfChild(items, j);
        ParentIndicesAt(items, j);
        assert forall k :: 0 <= k < |values| && k != j ==> values[k] != parent;
        parent.isAncestor := true;
        flagged := flagged + {j};
        parent := parent.parent;
        at := parents[j];
      }
    }
  }
}
