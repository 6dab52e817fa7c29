/**
 * The path normaliser of menus/services.py (`MenuTreeBuilder._normalize_path`)
 * and the part of Python's `urllib.parse.urlsplit` it relies on: extracting the
 * path component of a URL (the generic URI path of section 3.3 of RFC 3986).
 */
module UrlPaths {
  import opened Wrappers

  // ---------------------------------------------------------------------------
  // Searching a string
  // ---------------------------------------------------------------------------

  /** Index of the first `c` in `s`, or `|s|` when `s` holds no `c`. */
  function Find(s: string, c: char): (r: nat)
    ensures r <= |s|
    ensures r < |s| ==> s[r] == c
    ensures forall k :: 0 <= k < r ==> s[k] != c
  {
    if s == [] then 0
    else if s[0] == c then 0
    else 1 + Find(s[1..], c)
  }

  /** Characters that end the network location: `/`, `?` and `#`. */
  predicate IsNetlocEnd(c: char) {
    c == '/' || c == '?' || c == '#'
  }

  /** Index of the first network-location delimiter in `s`, or `|s|`. */
  function FindNetlocEnd(s: string): (r: nat)
    ensures r <= |s|
    ensures r < |s| ==> IsNetlocEnd(s[r])
    ensures forall k :: 0 <= k < r ==> !IsNetlocEnd(s[k])
  {
    if s == [] then 0
    else if IsNetlocEnd(s[0]) then 0
    else 1 + FindNetlocEnd(s[1..])
  }

  // ---------------------------------------------------------------------------
  // urlsplit(raw).path
  // ---------------------------------------------------------------------------

  predicate IsAsciiLetter(c: char) {
    'a' <= c <= 'z' || 'A' <= c <= 'Z'
  }

  /** The characters urllib accepts in a scheme name. */
  predicate IsSchemeChar(c: char) {
    IsAsciiLetter(c) || '0' <= c <= '9' || c == '+' || c == '-' || c == '.'
  }

  /**
   * True when `url` starts with a scheme: a first `:` that is not the first
   * character, preceded by an ASCII letter and then scheme characters only.
   */
  predicate HasScheme(url: string) {
    var i := Find(url, ':');
    0 < i < |url| && IsAsciiLetter(url[0]) && forall k :: 0 <= k < i ==> IsSchemeChar(url[k])
  }

  /** What urlsplit has left after removing the scheme and its colon. */
  function DropScheme(url: string): string {
    if HasScheme(url) then url[Find(url, ':') + 1..] else url
  }

  /** What urlsplit has left after removing `//` and the network location. */
  function DropNetloc(url: string): string {
    if |url| >= 2 && url[0] == '/' && url[1] == '/' then
      url[2 + FindNetlocEnd(url[2..])..]
    else
      url
  }

  /** The prefix of `s` before the first `c`. */
  function CutAt(s: string, c: char): (r: string)
    ensures r <= s && c !in r
    ensures |r| < |s| ==> s[|r|] == c
  {
    s[..Find(s, c)]
  }

  /** The path component of `urlsplit(url)`: no scheme, network location, fragment or query. */
  function UrlPath(url: string): (r: string)
    ensures '#' !in r && '?' !in r
  {
    CutAt(CutAt(DropNetloc(DropScheme(url)), '#'), '?')
  }

  // ---------------------------------------------------------------------------
  // _normalize_path
  // ---------------------------------------------------------------------------

  /** The path with a leading `/`; the empty path reads as `/`. */
  function WithLeadingSlash(path: string): (r: string)
    ensures r != [] && r[0] == '/'
  {
    if path == [] then "/"
    else if path[0] == '/' then path
    else "/" + path
  }

  /** Python's `s.rstrip('/')`. */
  function RStripSlashes(s: string): (r: string)
    ensures r <= s
    ensures r == [] || r[|r| - 1] != '/'
    ensures forall k :: |r| <= k < |s| ==> s[k] == '/'
  {
    if s != [] && s[|s| - 1] == '/' then RStripSlashes(s[..|s| - 1]) else s
  }

  /**
   * A path in canonical form: it starts with `/` and has no trailing `/` unless the
   * whole path is `/`. The result is the path with a leading slash, cut just
   * before its run of trailing slashes.
   */
  function Canonical(path: string): (r: string)
    ensures r != [] && r[0] == '/'
    ensures r[|r| - 1] == '/' ==> r == "/"
    ensures r <= WithLeadingSlash(path)
    ensures forall k :: |r| <= k < |WithLeadingSlash(path)| ==> WithLeadingSlash(path)[k] == '/'
  {
    var stripped := RStripSlashes(WithLeadingSlash(path));
    if stripped == [] then "/" else stripped
  }

  /** `MenuTreeBuilder._normalize_path`: None for None or the empty string. */
  function Normalize(raw: Option<string>): (r: Option<string>)
    ensures r.None? <==> raw.None? || raw.value == []
    ensures r.Some? ==> r.value != [] && r.value[0] == '/'
    ensures r.Some? && r.value[|r.value| - 1] == '/' ==> r.value == "/"
  {
    if raw.None? || raw.value == [] then None
    else Some(Canonical(UrlPath(raw.value)))
  }

  // ---------------------------------------------------------------------------
  // Properties
  // ---------------------------------------------------------------------------

  /** A canonical path is its own canonical form. */
  lemma CanonicalIsFixedPoint(path: string)
    ensures Canonical(Canonical(path)) == Canonical(path)
  {
    var r := Canonical(path);
    assert WithLeadingSlash(r) == r;
    if r != "/" {
      assert RStripSlashes(r) == r;
    } else {
      assert RStripSlashes("/"[..0]) == [];
    }
  }

  /** One more trailing slash does not change the canonical form. */
  lemma CanonicalIgnoresTrailingSlash(path: string)
    ensures Canonical(path + "/") == Canonical(path)
  {
    var lead := WithLeadingSlash(path);
    if path == [] {
      assert WithLeadingSlash(path + "/") == "/" == lead;
    } else {
      assert WithLeadingSlash(path + "/") == lead + "/";
      assert (lead + "/")[..|lead + "/"| - 1] == lead;
    }
  }

  /** A plain absolute path is its own urlsplit path. */
  lemma UrlPathOfPlainPath(path: string)
    requires path != [] && path[0] == '/'
    requires |path| == 1 || path[1] != '/'
    requires '?' !in path && '#' !in path
    ensures UrlPath(path) == path
  {
    assert !HasScheme(path);
    assert Find(path, '#') == |path|;
    assert Find(path, '?') == |path|;
  }

  lemma FindAppend(s: string, c: char, d: char)
    requires c != d
    ensures Find(s + [d], c) == if Find(s, c) < |s| then Find(s, c) else |s| + 1
  {
    if s != [] && s[0] != c {
      FindAppend(s[1..], c, d);
      assert (s + [d])[1..] == s[1..] + [d];
    }
  }

  lemma FindNetlocEndAppendSlash(s: string)
    ensures FindNetlocEnd(s + "/") == FindNetlocEnd(s)
  {
    if s != [] && !IsNetlocEnd(s[0]) {
      FindNetlocEndAppendSlash(s[1..]);
      assert (s + "/")[1..] == s[1..] + "/";
    }
  }

  lemma DropSchemeAppendSlash(url: string)
    ensures DropScheme(url + "/") == DropScheme(url) + "/"
  {
    FindAppend(url, ':', '/');
    var i := Find(url, ':');
    if i < |url| {
      assert forall k :: 0 <= k < i ==> (url + "/")[k] == url[k];
      assert HasScheme(url + "/") == HasScheme(url);
      if HasScheme(url) {
        assert (url + "/")[i + 1..] == url[i + 1..] + "/";
      }
    } else {
      assert !HasScheme(url + "/");
    }
  }

  lemma DropNetlocAppendSlash(url: string)
    ensures var r, r' := DropNetloc(url), DropNetloc(url + "/");
      r' == r + "/" || (r == [] && r' == "/") || (r == "/" && r' == [])
  {
    var u := url + "/";
    if |url| >= 2 && url[0] == '/' && url[1] == '/' {
      assert u[2..] == url[2..] + "/";
      FindNetlocEndAppendSlash(url[2..]);
      var n := FindNetlocEnd(url[2..]);
      assert u[2 + n..] == url[2 + n..] + "/";
    } else if url == "/" {
      assert u == "//";
      assert DropNetloc(u) == [];
    } else {
      assert DropNetloc(u) == u;
    }
  }

  lemma CutAtAppendSlash(s: string, c: char)
    requires c != '/'
    ensures CutAt(s + "/", c) == (if c in s then CutAt(s, c) else s + "/")
    ensures c !in s ==> CutAt(s, c) == s
  {
    FindAppend(s, c, '/');
    if c in s {
      assert Find(s, c) < |s|;
      assert (s + "/")[..Find(s, c)] == s[..Find(s, c)];
    }
  }

  /** Appending `/` to a URL appends `/` to its path, drops it, or empties the path `/`. */
  lemma UrlPathAppendSlash(url: string)
    ensures var p, p' := UrlPath(url), UrlPath(url + "/");
      p' == p || p' == p + "/" || (p == "/" && p' == [])
  {
    DropSchemeAppendSlash(url);
    var u := DropScheme(url);
    DropNetlocAppendSlash(u);
    var v, v' := DropNetloc(u), DropNetloc(u + "/");
    if v' == v + "/" {
      CutAtAppendSlash(v, '#');
      var w := CutAt(v, '#');
      if '#' !in v {
        CutAtAppendSlash(w, '?');
      }
    }
  }

  /**
   * `/contacts/` and `/contacts` normalise alike: a trailing slash never
   * changes the normalised form of a non-empty URL.
   */
  lemma NormalizeIgnoresTrailingSlash(url: string)
    requires url != []
    ensures Normalize(Some(url + "/")) == Normalize(Some(url))
  {
    UrlPathAppendSlash(url);
    var p, p' := UrlPath(url), UrlPath(url + "/");
    if p' == p + "/" {
      CanonicalIgnoresTrailingSlash(p);
    } else if p' != p {
      assert Canonical(p') == "/" == Canonical(p);
    }
  }

  /**
   * Normalising is not idempotent: the path `//x` of `http://h//x` is itself
   * read as a network location when split again.
   */
  lemma NormalizeNotIdempotent()
    ensures Normalize(Some("http://h//x")) == Some("//x")
    ensures Normalize(Some("//x")) == Some("/")
  {
    SplitOfSchemeUrl();
    SplitOfDoubleSlashPath();
  }

  lemma SplitOfSchemeUrl()
    ensures UrlPath("http://h//x") == "//x"
  {
    SchemeOfHttpUrl();
    NetlocOfHttpUrl();
    assert Find("//x", '#') == 3;
    assert Find("//x", '?') == 3;
  }

  lemma SchemeOfHttpUrl()
    ensures DropScheme("http://h//x") == "//h//x"
  {
    var url := "http://h//x";
    assert url[0] == 'h' && url[1] == 't' && url[2] == 't' && url[3] == 'p' && url[4] == ':';
    assert Find(url, ':') == 4;
    assert forall k :: 0 <= k < 4 ==> IsSchemeChar(url[k]);
    assert url[5..] == "//h//x";
  }

  lemma NetlocOfHttpUrl()
    ensures DropNetloc("//h//x") == "//x"
  {
    var rest := "//h//x";
    assert rest[2..] == "h//x";
    assert FindNetlocEnd("h//x") == 1;
    assert rest[3..] == "//x";
  }

  lemma SplitOfDoubleSlashPath()
    ensures UrlPath("//x") == []
  {
    assert Find("//x", ':') == 3;
    assert !HasScheme("//x");
    assert "//x"[2..] == "x";
    assert FindNetlocEnd("x") == 1;
    assert DropNetloc("//x") == [];
  }
}
