/**
 * The records of menus/models.py: a `Menu` and its `MenuItem`s, the
 * validation `MenuItem.clean` performs before every save, and the choice of
 * the URL an item links to.
 */
module Models {
  import opened Wrappers
  import UrlPaths

  datatype Menu = Menu(id: int, title: string, slug: string, description: string, isActive: bool)

  /**
   * A menu item row. `pk` is None until the row is saved; `parentId` is the
   * parent's primary key, if any.
   */
  datatype MenuItem = MenuItem(
    pk: Option<int>,
    menu: Menu,
    parentId: Option<int>,
    title: string,
    namedUrl: string,
    url: string,
    position: nat,
    isActive: bool)

  /**
   * Django's `reverse`, as a partial function from a route name to a path:
   * None stands for `NoReverseMatch`.
   */
  type Resolver = string -> Option<string>

  /** Python truthiness of an optional id: None and 0 are both false. */
  predicate IdIsTruthy(id: Option<int>) {
    id.Some? && id.value != 0
  }

  /** The database check constraint `menus_menuitem_single_target`. */
  predicate HasSingleTarget(item: MenuItem) {
    (item.namedUrl == [] && item.url != []) || (item.namedUrl != [] && item.url == [])
  }

  /** The reasons `clean` raises `ValidationError`, in the order it checks them. */
  datatype CleanError = MissingTarget | TwoTargets | ParentInOtherMenu | OwnParent

  /**
   * `MenuItem.clean`: None when the item is valid, otherwise the first rule it
   * breaks. `parent` is the row `parentId` refers to, when it was loaded.
   */
  function Clean(item: MenuItem, parent: Option<MenuItem>): (r: Option<CleanError>)
    requires parent.Some? ==> parent.value.pk.Some? && item.parentId == parent.value.pk
    ensures r == Some(MissingTarget) <==> item.namedUrl == [] && item.url == []
    ensures r == Some(TwoTargets) <==> item.namedUrl != [] && item.url != []
    ensures r == Some(ParentInOtherMenu) <==>
      HasSingleTarget(item) && parent.Some? && parent.value.menu.id != item.menu.id
    ensures r == Some(OwnParent) <==>
      HasSingleTarget(item) && (parent.None? || parent.value.menu.id == item.menu.id)
      && IdIsTruthy(item.parentId) && item.parentId == item.pk
    ensures r.None? <==>
      HasSingleTarget(item) && (parent.None? || parent.value.menu.id == item.menu.id)
      && !(IdIsTruthy(item.parentId) && item.parentId == item.pk)
  {
    if item.namedUrl == [] && item.url == [] then Some(MissingTarget)
    else if item.namedUrl != [] && item.url != [] then Some(TwoTargets)
    else if parent.Some? && parent.value.menu.id != item.menu.id then Some(ParentInOtherMenu)
    else if IdIsTruthy(item.parentId) && item.parentId == item.pk then Some(OwnParent)
    else None
  }

  /** `MenuItem.is_root`. */
  predicate IsRoot(item: MenuItem)
  {
    item.parentId.None?
  }

  /**
   * `MenuItem.get_resolved_url`: the named route when it resolves, the raw
   * route name when it does not, the literal URL when there is no route name.
   */
  function ResolvedUrl(item: MenuItem, reverse: Resolver): (r: string)
    ensures item.namedUrl != [] && reverse(item.namedUrl).Some? ==> r == reverse(item.namedUrl).value
    ensures item.namedUrl != [] && reverse(item.namedUrl).None? ==> r == item.namedUrl
    ensures item.namedUrl == [] ==> r == item.url
  {
    if item.namedUrl != [] then
      match reverse(item.namedUrl)
      case Some(path) => path
      case None => item.namedUrl
    else
      item.url
  }

  /**
   * Every item `clean` accepts has exactly one target and links somewhere:
   * with a resolver that never produces the empty path, its URL is non-empty
   * and normalises to a path.
   */
  lemma AcceptedItemHasPath(item: MenuItem, parent: Option<MenuItem>, reverse: Resolver)
    requires parent.Some? ==> parent.value.pk.Some? && item.parentId == parent.value.pk
    requires Clean(item, parent).None?
    requires forall name :: reverse(name) != Some([])
    ensures HasSingleTarget(item)
    ensures ResolvedUrl(item, reverse) != []
    ensures UrlPaths.Normalize(Some(ResolvedUrl(item, reverse))).Some?
  {
    if item.namedUrl != [] {
      assert reverse(item.namedUrl) != Some([]);
    }
  }
}
