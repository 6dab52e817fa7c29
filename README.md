# Menu tree builder

A Dafny model of the tree-building core of a Django menu application. The core has two parts.

`menus/services.py` turns the flat, ordered list of a menu's items into a tree of `MenuNode`s. It then marks the branch that leads to the page being viewed:

- `MenuTreeBuilder.__init__` normalises the current path once.
- `build` runs three steps in order:
  - `_hydrate_nodes` creates one node per item;
  - `_link_nodes` attaches every node to its parent, or to the roots, and then sorts every sibling list by `(position, title.lower(), pk)`;
  - `_flag_active_path` marks the first node whose normalised URL is the current path as active, and every node on its parent chain as an ancestor.
- `_normalize_path` reduces a URL to its path. The result starts with `/` and has no trailing `/` unless it is `/` itself.
- A `MenuTree` is truthy when it has roots.
- `MenuNode.css_classes` turns the two flags into CSS labels.

`menus/models.py` supplies the item records and two pieces of logic:

- the validation `MenuItem.clean` runs before every save;
- the choice of the URL an item links to (`get_resolved_url`).

Modules:

- `Wrappers`: the `Option` type standing for Python's `None`.
- `UrlPaths`: `_normalize_path`, and the part of `urllib.parse.urlsplit` it relies on. That part extracts the path component of a URL (the generic URI path of section 3.3 of RFC 3986).
- `Models`: the `Menu` and `MenuItem` records, `clean`, `is_root` and `get_resolved_url`. Django's `reverse` is a parameter: a partial function from route names to paths.
- `Forest`: the parent structure of an item list, stated over list positions. It covers:
  - which item each item is attached to;
  - depth, ancestors and acyclicity;
  - the child and root lists one linking pass produces.
- `Nodes`: the `MenuNode` class, its labels, the sort key and the sort.
- `Services`: `MenuTree` and the `MenuTreeBuilder` class. Its methods update the nodes' fields in place, as the Python code does.

The builder's methods are proved against the specification functions of `Forest`. `LinkNodes` leaves every child list equal to the sorted `LinkedChildren` of its item, and the roots equal to the sorted `LinkedRoots`. `FlagActivePath` sets exactly the flags that `ActiveIndex` and `Ancestors` describe. Lemmas then show what those functions mean:

- every node is placed exactly once;
- sibling order is fully determined;
- depth is the distance to the root when parents come first.

The evident intent is that every node sits one level below its parent. The code does not guarantee that. `node.depth = parent.depth + 1` (menus/services.py:97) reads the parent's depth at the moment the child is linked. The items arrive ordered by `(position, pk)`, so a child can come before its parent. The model follows the code:

- `Forest.LinkDepth` is the depth the code assigns.
- `Forest.LinkDepthIsDepth` proves it equals the true depth when every parent comes first.
- `Services.LinkDepthCanBeShort` exhibits a valid three-item query result where the two differ.

## Model

| member | source | states |
|---|---|---|
| UrlPaths.Normalize | menus/services.py:129-137 | None exactly for None or the empty string; otherwise a path that starts with `/` and ends with `/` only when it is `/` itself |
| UrlPaths.UrlPath | menus/services.py:132 | the path `urlsplit` extracts never holds a query (`?`) or a fragment (`#`) |
| UrlPaths.UrlPathOfPlainPath | menus/services.py:132 | an absolute path without `//`, `?` or `#` is its own `urlsplit` path |
| UrlPaths.WithLeadingSlash | menus/services.py:133-135 | the empty path reads as `/`; any other path gets a `/` in front only when it does not start with one; the result always starts with `/` |
| UrlPaths.RStripSlashes | menus/services.py:136 | `rstrip('/')`: a prefix that does not end in `/`, cut off only slashes |
| UrlPaths.Canonical | menus/services.py:133-136 | a prefix of the path with a leading slash, differing from it only in the trailing slashes it drops, and ending in `/` only when it is `/` |
| UrlPaths.CanonicalIsFixedPoint | menus/services.py:133-136 | the canonical form of a canonical path is the path itself |
| UrlPaths.CanonicalIgnoresTrailingSlash | menus/services.py:136 | one more trailing slash does not change the canonical form |
| UrlPaths.NormalizeIgnoresTrailingSlash | menus/services.py:133-137 | `/contacts/` and `/contacts` normalise alike: appending `/` to a non-empty URL never changes its normal form (menus/tests.py:63-68) |
| UrlPaths.NormalizeNotIdempotent | menus/services.py:132-137 | normalising is not idempotent: `http://h//x` gives `//x`, which normalises to `/` |
| Models.HasSingleTarget | menus/models.py:63-71 | the check constraint `menus_menuitem_single_target`: exactly one of `named_url` and `url` is non-empty |
| Models.Clean | menus/models.py:76-91 | each of the four validation errors is raised exactly when its rule is the first one broken, in the order the code checks them; the item is accepted exactly when it has one target, its parent (if loaded) is in the same menu, and it is not its own parent |
| Models.AcceptedItemHasPath | menus/models.py:63-91 | an accepted item satisfies the single-target constraint; with a resolver that never returns the empty path, its resolved URL is non-empty and normalises to a path |
| Models.IsRoot | menus/models.py:97-99 | `is_root`: the item's `parent_id` is None (a `parent_id` of 0 is not None, so such an item is not a root by this test) |
| Models.ResolvedUrl | menus/models.py:101-109 | the resolved route when `named_url` resolves, the raw `named_url` when it does not, `url` when there is no route name |
| Forest.RootItemHasNoParent | menus/models.py:97-99 | an item whose `is_root` holds is placed among the roots |
| Forest.IndexOfPk | menus/services.py:94-95 | the first item carrying the primary key, and None only when no item does |
| Forest.ParentIndex | menus/services.py:94-95 | a node gets a parent exactly when `parent_id` is truthy and names an item of the list, and then that item |
| Forest.DepthOfChild | menus/services.py:96-97 | a root has depth 0; every other item sits one level below its parent |
| Forest.Ancestors | menus/services.py:123-126 | the parent chain of an item holds only items strictly closer to the root |
| Forest.NotOwnAncestor | menus/services.py:123-126 | an item is never on its own parent chain |
| Forest.RootAbove | menus/services.py:123-126 | the parent chain of every item ends at a root |
| Forest.ParentsFirstIsAcyclic | menus/services.py:92-98 | a list in which every parent comes before its children has no cycle |
| Forest.LinkDepthIsDepth | menus/services.py:97 | when every parent comes first, the depth the linking pass assigns is the distance to the root |
| Forest.LinkDepth | menus/services.py:92-98 | the depth the linking pass assigns node `k`: 0 for a root; the linked depth of its parent plus one when the parent was linked earlier; 1 when the parent comes later or is the node itself (its depth is still 0 when read) |
| Forest.LinkedChildren | menus/services.py:92-98 | the children list of item `m` after the first `n` items are linked: the nodes attached to `m`, in input order |
| Forest.LinkedRoots | menus/services.py:92-100 | the roots list after the first `n` items are linked: the nodes attached to nothing, in input order |
| Forest.LinkedChildrenCount | menus/services.py:92-100 | a node occurs among the children of `m` once when it is attached to `m`, otherwise not at all |
| Forest.LinkedRootsCount | menus/services.py:92-100 | a node occurs among the roots once when it is attached to nothing, otherwise not at all |
| Forest.PlacedExactlyOnce | menus/services.py:92-100 | after linking, every node sits in exactly one list: the roots, or the children of the one item it is attached to |
| Forest.LinkedOnlyListed | menus/services.py:92-100 | linking places only the hydrated nodes |
| Forest.SomeRootLinked | menus/services.py:92-100 | a non-empty acyclic list links at least one root |
| Nodes.MenuNode.constructor | menus/services.py:12-22 | a new node carries the given record fields, depth 0, both flags false, no parent and no children |
| Nodes.MenuNode.IsExpanded | menus/services.py:35-37 | `is_expanded`: the node is active or an ancestor |
| Nodes.MenuNode.CssClasses | menus/services.py:24-37 | splitting the classes at spaces gives exactly the labels of the flags that hold, in the order active, ancestor, expanded (expanded meaning active or ancestor); the string is empty exactly when the node is not expanded |
| Nodes.Join | menus/services.py:33 | `' '.join`: the words with one space between neighbours, the empty string for no words |
| Nodes.JoinThenWords | menus/services.py:33 | `' '.join` of space-free words splits back into those words |
| Nodes.StrLessTotal | menus/services.py:104 | Python's string `<` orders any two different strings |
| Nodes.StrLessTransitive | menus/services.py:104 | Python's string `<` is transitive |
| Nodes.KeyOf | menus/services.py:104 | the sort key of a node: its position, its lower-cased title and its primary key |
| Nodes.KeyLess | menus/services.py:104 | Python's `<` on the key tuples: by position, then by lower-cased title, then by primary key |
| Nodes.KeyLessTotal | menus/services.py:104 | the tuple `(position, title.lower(), pk)` orders any two different keys |
| Nodes.KeyLessTransitive | menus/services.py:104 | the tuple order is transitive |
| Nodes.KeyLessIrreflexive | menus/services.py:104 | no key is smaller than itself |
| Nodes.Insert | menus/services.py:102-106 | one insertion step of the sort adds exactly the one node |
| Nodes.InsertKeepsSorted | menus/services.py:102-106 | inserting into a sorted list keeps it sorted |
| Nodes.SortNodes | menus/services.py:102-106 | `list.sort` only permutes: the sorted list holds the same nodes, each as often |
| Nodes.SortNodesSorts | menus/services.py:102-106 | the sorted list is in key order |
| Nodes.SortedWithUniquePksIsStrict | menus/services.py:104 | nodes with pairwise different primary keys, sorted, are in strictly increasing key order |
| Nodes.StrictlySortedIsUnique | menus/services.py:102-106 | a collection has only one strictly sorted arrangement |
| Nodes.DistinctPksPermutation | menus/services.py:102-106 | a permutation of nodes with distinct primary keys has distinct primary keys |
| Nodes.SortIsDetermined | menus/services.py:102-106 | when the primary keys differ, every sorted permutation (Python's Timsort included) equals the one the model computes |
| Services.MenuTree.IsTruthy | menus/services.py:45-46 | `MenuTree.__bool__`: the tree is truthy exactly when it has at least one root node |
| Services.IsQueryResult | menus/services.py:64-73 | what `_items_queryset` returns: saved items with unique primary keys, all active, all of the active menu with the slug, ordered by `(position, pk)` |
| Services.LookUpParent | menus/services.py:93-95 | the two dictionary lookups of the linking loop find node `k` and the node of its parent position |
| Services.NodeMapLookups | menus/services.py:93-95 | the same, for every item at once |
| Services.LinkedListHasDistinctPks | menus/services.py:102-106 | a sibling list holds nodes with distinct primary keys |
| Services.RootOrderIsDetermined | menus/services.py:106 | the root order is the unique sorted arrangement of the roots |
| Services.ChildOrderIsDetermined | menus/services.py:102-105 | every child order is the unique sorted arrangement of the children |
| Services.LinkDepthCanBeShort | menus/services.py:97 | in a valid query result where a grandchild comes before its parent, it is given depth 1 although it sits 2 levels below its root |
| Forest.IndexOf | menus/services.py:112-119 | the first position holding the value, and None only when no position does |
| Services.ActiveIndex | menus/services.py:110-119 | no node is chosen when the current path is unset |
| Services.ActiveIndexFinds | menus/services.py:112-119 | the chosen node is the first, in hydration order, whose normalised URL equals the current path; None when there is none |
| Services.MenuTreeBuilder.constructor | menus/services.py:52-54 | the builder keeps the slug and the normalised current path |
| Services.MenuTreeBuilder.Build | menus/services.py:56-62 | the tree's title is the first item's menu title, None for no items; the tree is truthy exactly when there are items; nodes carry their items' fields; roots and child lists are the sorted linked lists; parent links follow the parent ids; depths are the linking depths; exactly the first matching node is active; exactly its ancestors are ancestors |
| Services.MenuTreeBuilder.HydrateNodes | menus/services.py:75-84 | one fresh node per item, keyed by primary key, in item order, carrying the item's pk, title, resolved URL and position, with depth 0, no flags and no links |
| Services.MenuTreeBuilder.LinkNodes | menus/services.py:86-107 | roots and every child list are the sorted lists the linking pass builds; parent links and depths as the pass assigns them; flags untouched |
| Services.MenuTreeBuilder.AttachNodes | menus/services.py:91-100 | the first loop: each node attached to its parent or appended to the roots, in input order |
| Services.MenuTreeBuilder.Attach | menus/services.py:95-98 | the node's parent link, its depth one below the parent's current depth, the node appended to the parent's children |
| Services.MenuTreeBuilder.SortChildren | menus/services.py:102-105 | every child list replaced by its sorted version; nothing else changes |
| Services.MenuTreeBuilder.FlagActivePath | menus/services.py:109-126 | with no current path or no matching node no flag changes; otherwise exactly the first matching node becomes active and exactly its parent chain becomes ancestor |
| Services.MenuTreeBuilder.FlagAncestors | menus/services.py:123-126 | the `while parent` walk sets the ancestor flag on exactly the strict ancestors of the node and on nothing else |

## Left out

- The Django ORM is not modelled: `_items_queryset` (menus/services.py:64-73), the single query, `select_related`, `save`/`full_clean`, CASCADE deletion and `Meta` ordering. `Services.MenuTreeBuilder.Build` instead takes the query result as input. The precondition `IsQueryResult` says what the query returns:
  - saved, active items of the active menu with that slug;
  - unique primary keys;
  - ordered by `(position, pk)`.
- The database check constraint is stated as the predicate `Models.HasSingleTarget` and related to `clean` by `Models.Clean`. It is not enforced on a store.
- Django's `reverse` and its URL configuration are not modelled. `Models.ResolvedUrl` takes the resolver as a parameter; a missing result stands for `NoReverseMatch`.
- UrlPaths.UrlPath: Python's `urlsplit` also does things the model does not:
  - it strips leading control characters and spaces;
  - it removes tabs and newlines;
  - it raises `ValueError` on malformed bracketed IPv6 network locations;
  - it raises `ValueError` when a non-ASCII network location, once NFKC-normalised, contains one of `/?#@:` (the URL `//℀` is one). `_normalize_path` then raises, so a node URL like that makes `build` raise and a current path like that makes `MenuTreeBuilder.__init__` raise. The model instead reads the network location as any other and gives the path that remains (`/` for `//℀`).

  None of these is modelled. The model handles only the scheme, network location, query and fragment, and the path that remains.
- Nodes.Lower: `str.lower` is modelled on the ASCII letters A–Z only. Other characters are kept, whereas Python lowers every Unicode letter.
- Services.MenuTreeBuilder.Build requires the parent relation of the items to be acyclic. `clean` forbids only an item being its own parent, so a longer cycle can exist. The source then loops forever in the ancestor walk when the active node's chain enters the cycle. Cyclic data is not modelled.
- Models.Clean: when `parent_id` names a row that does not exist, Django raises `DoesNotExist` on reading `self.parent`. The model treats such a parent as not loaded and skips the same-menu rule. The base `Model.clean` that `super().clean()` calls does nothing and is not modelled.
- Services.ActiveIndex: the generator in `_flag_active_path` is lazy and stops at the first match. The model computes the same first match with a function over the nodes' normalised URLs, not with a loop.
- `node_map.values()` is modelled as the sequence of nodes in insertion order. That is item order, because the primary keys are unique.
- Not modelled: menus/admin.py (admin configuration) and menus/templatetags/menu_tags.py (template-context plumbing and its `str.title()` fallback).
