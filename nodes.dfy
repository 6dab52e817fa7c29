/**
 * `MenuNode` of menus/services.py: one element of the assembled menu tree,
 * its CSS labels, and the order `(position, title.lower(), pk)` in which
 * siblings and roots are sorted.
 */
module Nodes {

  // ---------------------------------------------------------------------------
  // The node
  // ---------------------------------------------------------------------------

  /**
   * A tree node. The record fields are fixed when the node is hydrated; the
   * builder updates only the depth, the flags and the links.
   */
  class MenuNode {
    const pk: int
    const title: string
    const url: string
    const position: int
    var depth: int
    var isActive: bool
    var isAncestor: bool
    var parent: MenuNode?
    var children: seq<MenuNode>

    constructor (pk: int, title: string, url: string, position: int)
      ensures this.pk == pk && this.title == title && this.url == url && this.position == position
      ensures depth == 0 && !isActive && !isAncestor && parent == null && children == []
    {
      this.pk := pk;
      this.title := title;
      this.url := url;
      this.position := position;
      depth := 0;
      isActive := false;
      isAncestor := false;
      parent := null;
      children := [];
    }

    /** `MenuNode.is_expanded`: the node lies on the active branch. */
    predicate IsExpanded()
      reads this
    {
      isActive || isAncestor
    }

    /**
     * `MenuNode.css_classes`: the labels of the flags that hold, space-joined.
     * Splitting the result at spaces gives back exactly those labels, in the
     * order active, ancestor, expanded; no flag gives the empty string.
     */
    function CssClasses(): (r: string)
      reads this
      ensures Words(r) == Labels(isActive, isAncestor, IsExpanded())
      ensures r == [] <==> !IsExpanded()
    {
      var classes := Labels(isActive, isAncestor, IsExpanded());
      LabelsAreWords(isActive, isAncestor, IsExpanded());
      JoinThenWords(classes);
      Join(classes)
    }
  }

  const ActiveLabel: string := "menu-item--active"
  const AncestorLabel: string := "menu-item--ancestor"
  const ExpandedLabel: string := "menu-item--expanded"

  /** The labels `css_classes` collects, in the order it appends them. */
  function Labels(active: bool, ancestor: bool, expanded: bool): seq<string> {
    (if active then [ActiveLabel] else [])
    + (if ancestor then [AncestorLabel] else [])
    + (if expanded then [ExpandedLabel] else [])
  }

  // ---------------------------------------------------------------------------
  // Joining and splitting at spaces
  // ---------------------------------------------------------------------------

  /** A non-empty string without spaces. */
  predicate IsWord(w: string) {
    w != [] && ' ' !in w
  }

  /** Python's `' '.join(words)`. */
  function Join(words: seq<string>): string {
    if words == [] then []
    else if |words| == 1 then words[0]
    else words[0] + " " + Join(words[1..])
  }

  /** The longest prefix of `s` without a space. */
  function FirstWord(s: string): (r: string)
    ensures r <= s && ' ' !in r
    ensures |r| < |s| ==> s[|r|] == ' '
  {
    if s == [] || s[0] == ' ' then [] else [s[0]] + FirstWord(s[1..])
  }

  /** Python's `s.split()` for a string whose only white space is ' '. */
  function Words(s: string): seq<string>
    decreases |s|
  {
    if s == [] then []
    else if s[0] == ' ' then Words(s[1..])
    else
      var w := FirstWord(s);
      [w] + Words(s[|w|..])
  }

  lemma {:induction false} FirstWordOfWord(w: string, rest: string)
    requires ' ' !in w && (rest == [] || rest[0] == ' ')
    ensures FirstWord(w + rest) == w
  {
    if w != [] {
      assert (w + rest)[1..] == w[1..] + rest;
      FirstWordOfWord(w[1..], rest);
    }
  }

  lemma WordsOfWordThen(w: string, rest: string)
    requires IsWord(w) && (rest == [] || rest[0] == ' ')
    ensures Words(w + rest) == [w] + Words(rest)
  {
    FirstWordOfWord(w, rest);
    assert (w + rest)[|w|..] == rest;
    if rest != [] {
      assert Words(rest) == Words(rest[1..]);
    }
  }

  /** Splitting a space-joined list of words gives the list back. */
  lemma {:induction false} JoinThenWords(words: seq<string>)
    requires forall k :: 0 <= k < |words| ==> IsWord(words[k])
    ensures Words(Join(words)) == words
    ensures Join(words) == [] <==> words == []
  {
    if |words| == 1 {
      WordsOfWordThen(words[0], []);
      assert words[0] + [] == words[0];
    } else if |words| > 1 {
      JoinThenWords(words[1..]);
      var rest := " " + Join(words[1..]);
      assert words[0] + " " + Join(words[1..]) == words[0] + rest;
      WordsOfWordThen(words[0], rest);
      assert rest[1..] == Join(words[1..]);
    }
  }

  lemma LabelsAreWords(active: bool, ancestor: bool, expanded: bool)
    ensures forall k :: 0 <= k < |Labels(active, ancestor, expanded)| ==>
      IsWord(Labels(active, ancestor, expanded)[k])
    ensures Labels(active, ancestor, expanded) == [] <==> !active && !ancestor && !expanded
  {
    assert IsWord(ActiveLabel) && IsWord(AncestorLabel) && IsWord(ExpandedLabel);
  }

  // ---------------------------------------------------------------------------
  // The sort key (position, title.lower(), pk)
  // ---------------------------------------------------------------------------

  /** Python's `str.lower` on ASCII letters; other characters are kept. */
  function LowerChar(c: char): char {
    if 'A' <= c <= 'Z' then (c as int + 32) as char else c
  }

  function Lower(s: string): (r: string)
    ensures |r| == |s|
  {
    seq(|s|, i requires 0 <= i < |s| => LowerChar(s[i]))
  }

  /** Python's `<` on strings: lexicographic by code point. */
  predicate StrLess(s: string, t: string) {
    if s == [] then t != []
    else if t == [] then false
    else s[0] < t[0] || (s[0] == t[0] && StrLess(s[1..], t[1..]))
  }

  lemma {:induction false} StrLessIrreflexive(s: string)
    ensures !StrLess(s, s)
  {
    if s != [] {
      StrLessIrreflexive(s[1..]);
    }
  }

  lemma {:induction false} StrLessTransitive(s: string, t: string, u: string)
    requires StrLess(s, t) && StrLess(t, u)
    ensures StrLess(s, u)
  {
    if s != [] && s[0] == t[0] && t[0] == u[0] {
      StrLessTransitive(s[1..], t[1..], u[1..]);
    }
  }

  lemma {:induction false} StrLessTotal(s: string, t: string)
    requires s != t
    ensures StrLess(s, t) || StrLess(t, s)
  {
    if s != [] && t != [] && s[0] == t[0] {
      assert s == [s[0]] + s[1..] && t == [t[0]] + t[1..];
      StrLessTotal(s[1..], t[1..]);
    }
  }

  /** The tuple `(position, title.lower(), pk)` the sort compares. */
  datatype SortKey = SortKey(position: int, title: string, pk: int)

  function KeyOf(n: MenuNode): SortKey {
    SortKey(n.position, Lower(n.title), n.pk)
  }

  /** Python's `<` on the key tuples: lexicographic. */
  predicate KeyLess(a: SortKey, b: SortKey) {
    a.position < b.position
    || (a.position == b.position
        && (StrLess(a.title, b.title) || (a.title == b.title && a.pk < b.pk)))
  }

  lemma KeyLessIrreflexive(a: SortKey)
    ensures !KeyLess(a, a)
  {
    StrLessIrreflexive(a.title);
  }

  lemma KeyLessTransitive(a: SortKey, b: SortKey, c: SortKey)
    requires KeyLess(a, b) && KeyLess(b, c)
    ensures KeyLess(a, c)
  {
    if a.position == b.position == c.position {
      if StrLess(a.title, b.title) && StrLess(b.title, c.title) {
        StrLessTransitive(a.title, b.title, c.title);
      }
    }
  }

  lemma KeyLessTotal(a: SortKey, b: SortKey)
    requires a != b
    ensures KeyLess(a, b) || KeyLess(b, a)
  {
    if a.title != b.title {
      StrLessTotal(a.title, b.title);
    }
  }

  /** `a` may precede `b`: its key is not greater. */
  predicate InOrder(a: MenuNode, b: MenuNode) {
    !KeyLess(KeyOf(b), KeyOf(a))
  }

  /** Sorted by key, ascending; equal keys may sit in either order. */
  predicate Sorted(s: seq<MenuNode>) {
    forall i, j :: 0 <= i < j < |s| ==> InOrder(s[i], s[j])
  }

  /** Sorted by key with no two equal keys. */
  predicate StrictlySorted(s: seq<MenuNode>) {
    forall i, j :: 0 <= i < j < |s| ==> KeyLess(KeyOf(s[i]), KeyOf(s[j]))
  }

  // ---------------------------------------------------------------------------
  // list.sort(key=...)
  // ---------------------------------------------------------------------------

  /** `x` inserted into `s` before the first element whose key is not smaller. */
  function Insert(x: MenuNode, s: seq<MenuNode>): (r: seq<MenuNode>)
    ensures multiset(r) == multiset(s) + multiset{x}
  {
    if s == [] then [x]
    else if !KeyLess(KeyOf(s[0]), KeyOf(x)) then [x] + s
    else
      assert s == [s[0]] + s[1..];
      [s[0]] + Insert(x, s[1..])
  }

  /** Inserting into a sorted sequence keeps it sorted. */
  lemma {:induction false} InsertKeepsSorted(x: MenuNode, s: seq<MenuNode>)
    requires Sorted(s)
    ensures Sorted(Insert(x, s))
  {
    if s != [] {
      if !KeyLess(KeyOf(s[0]), KeyOf(x)) {
        InsertFrontStaysSorted(x, s);
      } else {
        InsertKeepsSorted(x, s[1..]);
        InsertBehindStaysSorted(x, s, Insert(x, s[1..]));
      }
    }
  }

  lemma InsertFrontStaysSorted(x: MenuNode, s: seq<MenuNode>)
    requires Sorted(s) && s != [] && !KeyLess(KeyOf(s[0]), KeyOf(x))
    ensures Sorted([x] + s)
  {
    var r := [x] + s;
    forall i, j | 0 <= i < j < |r|
      ensures InOrder(r[i], r[j])
    {
      if i == 0 && j > 1 {
        var a, b, c := KeyOf(x), KeyOf(s[0]), KeyOf(s[j - 1]);
        if KeyLess(c, a) {
          if a == b {
          } else {
            KeyLessTotal(a, b);
            if b == c {
            } else {
              KeyLessTotal(b, c);
              if KeyLess(c, b) {
                KeyLessTransitive(c, b, c);
                KeyLessIrreflexive(c);
              } else {
                KeyLessTransitive(c, a, b);
              }
            }
          }
        }
      }
    }
  }

  lemma InsertBehindStaysSorted(x: MenuNode, s: seq<MenuNode>, rest: seq<MenuNode>)
    requires Sorted(s) && s != [] && KeyLess(KeyOf(s[0]), KeyOf(x))
    requires Sorted(rest) && multiset(rest) == multiset(s[1..]) + multiset{x}
    ensures Sorted([s[0]] + rest)
  {
    var r := [s[0]] + rest;
    forall i, j | 0 <= i < j < |r|
      ensures InOrder(r[i], r[j])
    {
      if i == 0 {
        var y := rest[j - 1];
        assert y in multiset(rest);
        if y != x {
          assert y in multiset(s[1..]);
          var t :| 1 <= t < |s| && s[t] == y;
          assert InOrder(s[0], s[t]);
        } else if KeyLess(KeyOf(y), KeyOf(s[0])) {
          KeyLessTransitive(KeyOf(s[0]), KeyOf(x), KeyOf(s[0]));
          KeyLessIrreflexive(KeyOf(s[0]));
        }
      }
    }
  }

  /**
   * `list.sort(key=lambda child: (child.position, child.title.lower(), child.pk))`:
   * the same nodes (this ensures), sorted by key (`SortNodesSorts`).
   */
  function SortNodes(s: seq<MenuNode>): (r: seq<MenuNode>)
    ensures multiset(r) == multiset(s)
  {
    if s == [] then []
    else
      assert s == [s[0]] + s[1..];
      Insert(s[0], SortNodes(s[1..]))
  }

  /** The result of `SortNodes` is sorted by key. */
  lemma {:induction false} SortNodesSorts(s: seq<MenuNode>)
    ensures Sorted(SortNodes(s))
  {
    if s != [] {
      SortNodesSorts(s[1..]);
      InsertKeepsSorted(s[0], SortNodes(s[1..]));
    }
  }

  /** No two positions hold nodes with the same primary key. */
  predicate DistinctPks(s: seq<MenuNode>) {
    forall i, j :: 0 <= i < j < |s| ==> s[i].pk != s[j].pk
  }

  lemma CountAtLeastTwo(s: seq<MenuNode>, i: nat, j: nat)
    requires i < j < |s| && s[i] == s[j]
    ensures multiset(s)[s[i]] >= 2
  {
    assert s == s[..j] + s[j..];
    assert s[i] in s[..j];
    assert s[j] in s[j..];
  }

  lemma {:induction false} DistinctPksCount(s: seq<MenuNode>, x: MenuNode)
    requires DistinctPks(s)
    ensures multiset(s)[x] <= 1
  {
    if s != [] {
      assert s == [s[0]] + s[1..];
      DistinctPksCount(s[1..], x);
      if s[0] == x {
        assert x !in s[1..];
      }
    }
  }

  /** A permutation of nodes with distinct primary keys has distinct primary keys. */
  lemma DistinctPksPermutation(s: seq<MenuNode>, t: seq<MenuNode>)
    requires DistinctPks(s) && multiset(t) == multiset(s)
    ensures DistinctPks(t)
  {
    forall i, j | 0 <= i < j < |t|
      ensures t[i].pk != t[j].pk
    {
      if t[i] == t[j] {
        CountAtLeastTwo(t, i, j);
        DistinctPksCount(s, t[i]);
        assert false;
      }
      assert t[i] in multiset(s) && t[j] in multiset(s);
      var a :| 0 <= a < |s| && s[a] == t[i];
      var b :| 0 <= b < |s| && s[b] == t[j];
      assert a != b;
    }
  }

  /**
   * Nodes with pairwise different primary keys, once sorted, are strictly
   * ordered: the primary key breaks every tie.
   */
  lemma SortedWithUniquePksIsStrict(s: seq<MenuNode>)
    requires Sorted(s) && DistinctPks(s)
    ensures StrictlySorted(s)
  {
    forall i, j | 0 <= i < j < |s|
      ensures KeyLess(KeyOf(s[i]), KeyOf(s[j]))
    {
      KeyLessTotal(KeyOf(s[i]), KeyOf(s[j]));
    }
  }

  /** Two strictly sorted arrangements of the same nodes start with the same node. */
  lemma StrictlySortedSameHead(s: seq<MenuNode>, t: seq<MenuNode>)
    requires StrictlySorted(s) && StrictlySorted(t)
    requires multiset(s) == multiset(t) && s != []
    ensures t != [] && s[0] == t[0]
  {
    assert s[0] in multiset(t);
    var a :| 0 <= a < |t| && t[a] == s[0];
    assert t[0] in multiset(s);
    var b :| 0 <= b < |s| && s[b] == t[0];
    if a > 0 && b > 0 {
      KeyLessTransitive(KeyOf(s[0]), KeyOf(s[b]), KeyOf(s[0]));
      KeyLessIrreflexive(KeyOf(s[0]));
    }
  }

  lemma StrictlySortedTail(s: seq<MenuNode>)
    requires StrictlySorted(s) && s != []
    ensures StrictlySorted(s[1..])
    ensures multiset(s[1..]) == multiset(s) - multiset{s[0]}
  {
    assert s == [s[0]] + s[1..];
  }

  /**
   * There is only one strictly sorted arrangement of a collection of nodes, so
   * the model's sort and Python's Timsort agree whenever the keys differ.
   */
  lemma {:induction false} StrictlySortedIsUnique(s: seq<MenuNode>, t: seq<MenuNode>)
    requires StrictlySorted(s) && StrictlySorted(t)
    requires multiset(s) == multiset(t)
    ensures s == t
  {
    if s != [] {
      StrictlySortedSameHead(s, t);
      StrictlySortedTail(s);
      StrictlySortedTail(t);
      StrictlySortedIsUnique(s[1..], t[1..]);
    }
  }

  /**
   * When the primary keys differ, every sorted permutation of the nodes is
   * the one `SortNodes` computes: Python's sort and the model's agree.
   */
  lemma SortIsDetermined(s: seq<MenuNode>, t: seq<MenuNode>)
    requires DistinctPks(s)
    requires Sorted(t) && multiset(t) == multiset(s)
    ensures t == SortNodes(s)
  {
    SortNodesSorts(s);
    DistinctPksPermutation(s, SortNodes(s));
    DistinctPksPermutation(s, t);
    SortedWithUniquePksIsStrict(SortNodes(s));
    SortedWithUniquePksIsStrict(t);
    StrictlySortedIsUnique(t, SortNodes(s));
  }
}
