/** Request routing of the APK server (`do_GET`): the path component that
    `urllib.parse.urlparse` extracts from the request target is matched against
    the two fixed paths "/xiazai" and "/". */
module Routing {

  datatype Outcome = Download | Landing | NotFound

  const DownloadPath := "/xiazai"
  const LandingPath := "/"

  /** The targets this model covers: origin form, that is one leading '/' not
      followed by a second one (a "//" target makes `urlparse` read a network
      location), and no tab, CR or LF (the request line is split on whitespace,
      so they cannot occur). Scheme detection never applies to such a target. */
  predicate OriginForm(target: string) {
    && |target| >= 1 && target[0] == '/'
    && (|target| == 1 || target[1] != '/')
    && forall i :: 0 <= i < |target| ==> target[i] != '\t' && target[i] != '\r' && target[i] != '\n'
  }

  predicate EndsPath(c: char) {
    c == '?' || c == '#'
  }

  /** `urlsplit` cuts the fragment at the first '#' and the query at the first
      '?'; what remains is the longest prefix holding neither. */
  function CutQueryAndFragment(t: string): (r: string)
    ensures r <= t
    ensures forall i :: 0 <= i < |r| ==> !EndsPath(r[i])
    ensures |r| < |t| ==> EndsPath(t[|r|])
  {
    if t == [] || EndsPath(t[0]) then [] else [t[0]] + CutQueryAndFragment(t[1..])
  }

  /** Any prefix with the three properties above is the one CutQueryAndFragment returns. */
  lemma CutIsUnique(t: string, r: string)
    requires r <= t
    requires forall i :: 0 <= i < |r| ==> !EndsPath(r[i])
    requires |r| < |t| ==> EndsPath(t[|r|])
    ensures CutQueryAndFragment(t) == r
  {
  }

  /** Python's `s.rfind(c)`: the last index holding `c`, or -1. */
  function RFind(s: string, c: char): (r: int)
    ensures -1 <= r < |s|
    ensures r >= 0 <==> c in s
    ensures r >= 0 ==> s[r] == c
    ensures forall i :: r < i < |s| ==> s[i] != c
  {
    if s == [] then -1
    else if s[|s| - 1] == c then |s| - 1
    else RFind(s[..|s| - 1], c)
  }

  /** Python's `s.find(c, start)`: the first index at or after `start` holding `c`, or -1. */
  function FindFrom(s: string, c: char, start: nat): (r: int)
    ensures r == -1 || (start <= r < |s| && s[r] == c)
    ensures forall i :: start <= i < |s| && (r == -1 || i < r) ==> s[i] != c
    decreases |s| - start
  {
    if start >= |s| then -1
    else if s[start] == c then start
    else FindFrom(s, c, start + 1)
  }

  /** `urlparse`'s `_splitparams`: ";params" are cut off the last path segment,
      at the first ';' after the last '/'. */
  function StripParams(u: string): string {
    if ';' !in u then u
    else
      var i := if '/' in u then FindFrom(u, ';', RFind(u, '/')) else FindFrom(u, ';', 0);
      if i < 0 then u else u[..i]
  }

  /** `urlparse(target).path`. */
  function PathOf(target: string): string {
    StripParams(CutQueryAndFragment(target))
  }

  /** `do_GET`'s dispatch on the path component. */
  function Route(target: string): Outcome
    requires OriginForm(target)
  {
    var p := PathOf(target);
    if p == DownloadPath then Download
    else if p == LandingPath then Landing
    else NotFound
  }

  // ---------------------------------------------------------------------------

  /** A path with one leading '/' and no '/', ';', '?' or '#' after it. */
  predicate SimplePath(p: string) {
    && |p| >= 1 && p[0] == '/'
    && forall i :: 1 <= i < |p| ==> p[i] != '/' && p[i] != ';' && !EndsPath(p[i])
  }

  /** The targets whose path component is `p`: `p` itself, or `p` followed by a
      query, a fragment, or parameters that contain no further '/'. */
  predicate TargetOfPath(t: string, p: string) {
    && p <= t
    && var rest := t[|p|..];
       || rest == []
       || EndsPath(rest[0])
       || (rest[0] == ';' && '/' !in CutQueryAndFragment(rest))
  }

  /** Parameters after a simple path are cut off again by StripParams. */
  lemma ParamsAreStripped(p: string, cr: string)
    requires SimplePath(p)
    requires |cr| >= 1 && cr[0] == ';' && '/' !in cr
    ensures StripParams(p + cr) == p
  {
    var u := p + cr;
    assert u[|p|] == ';';
    assert u[0] == '/';
    var l := RFind(u, '/');
    assert l == 0;
    assert FindFrom(u, ';', 0) == |p|;
  }

  lemma PathOfTargetOfPath(t: string, p: string)
    requires SimplePath(p) && TargetOfPath(t, p)
    ensures PathOf(t) == p
  {
    var rest := t[|p|..];
    assert t == p + rest;
    if rest == [] || EndsPath(rest[0]) {
      CutIsUnique(t, p);
    } else {
      var cr := CutQueryAndFragment(rest);
      CutIsUnique(t, p + cr);
      ParamsAreStripped(p, cr);
    }
  }

  lemma TargetOfPathOfPath(t: string, p: string)
    requires SimplePath(p) && PathOf(t) == p
    ensures TargetOfPath(t, p)
  {
    var u := CutQueryAndFragment(t);
    if StripParams(u) == u {
      assert u == p;
    } else {
      var l := RFind(u, '/');
      var i := FindFrom(u, ';', l);
      assert u[..i] == p && i == |p|;
      var rest := t[|p|..];
      CutIsUnique(rest, u[|p|..]);
      forall j | 0 <= j < |u| - |p| ensures u[|p|..][j] != '/' {
        assert u[|p| + j] != '/';
      }
    }
  }

  /** For a simple path `p`, `urlparse(t).path == p` holds exactly for the
      targets TargetOfPath describes. */
  lemma PathOfSimple(t: string, p: string)
    requires SimplePath(p)
    ensures PathOf(t) == p <==> TargetOfPath(t, p)
  {
    if TargetOfPath(t, p) {
      PathOfTargetOfPath(t, p);
    }
    if PathOf(t) == p {
      TargetOfPathOfPath(t, p);
    }
  }

  /** `/xiazai` (with any query, fragment or parameters) is the download, and
      nothing else is. */
  lemma RouteDownload(t: string)
    requires OriginForm(t)
    ensures Route(t) == Download <==> TargetOfPath(t, DownloadPath)
  {
    PathOfSimple(t, DownloadPath);
  }

  /** `/` (with any query, fragment or parameters) is the landing page, and
      nothing else is. */
  lemma RouteLanding(t: string)
    requires OriginForm(t)
    ensures Route(t) == Landing <==> TargetOfPath(t, LandingPath)
  {
    PathOfSimple(t, LandingPath);
  }

  /** Every other target is answered 404. */
  lemma RouteNotFound(t: string)
    requires OriginForm(t)
    ensures Route(t) == NotFound <==> !TargetOfPath(t, DownloadPath) && !TargetOfPath(t, LandingPath)
  {
    RouteDownload(t);
    RouteLanding(t);
  }

  /** A query string or fragment appended to a target never changes the outcome. */
  lemma QueryIgnored(p: string, sep: char, q: string)
    requires OriginForm(p) && OriginForm(p + [sep] + q)
    requires EndsPath(sep) && forall i :: 0 <= i < |p| ==> !EndsPath(p[i])
    ensures Route(p + [sep] + q) == Route(p)
  {
    CutIsUnique(p + [sep] + q, p);
    CutIsUnique(p, p);
  }

  lemma DownloadExample()
    ensures Route("/xiazai") == Download
  {
    RouteDownload("/xiazai");
  }

  lemma DownloadQueryExample()
    ensures Route("/xiazai?v=2") == Download
  {
    var t := "/xiazai?v=2";
    assert t[|DownloadPath|..] == "?v=2";
    RouteDownload(t);
  }

  /** `urlparse` files ";params" after the last path segment apart from the
      path, so "/xiazai;v=2" still downloads. */
  lemma ParamsIgnored(params: string)
    requires OriginForm(DownloadPath + params)
    requires |params| >= 1 && params[0] == ';' && '/' !in params
    ensures Route(DownloadPath + params) == Download
  {
    var t := DownloadPath + params;
    var cut := CutQueryAndFragment(params);
    CutIsUnique(t, DownloadPath + cut);
    assert '/' !in cut by {
      forall j | 0 <= j < |cut| ensures cut[j] != '/' {
        assert cut[j] == params[j];
      }
    }
    ParamsAreStripped(DownloadPath, cut);
  }

  lemma LandingExamples()
    ensures Route("/") == Landing
    ensures Route("/?from=qr") == Landing
  {
    RouteLanding("/");
    RouteLanding("/?from=qr");
  }

  /** A path that is neither "/xiazai" nor "/" up to its first character after
      the common prefix is answered 404. */
  lemma NotFoundExample(t: string, k: nat)
    requires OriginForm(t) && 1 <= k < |t| && k <= |DownloadPath|
    requires t[..k] == DownloadPath[..k]
    requires t[k] != '?' && t[k] != '#' && t[k] != ';'
    requires k < |DownloadPath| ==> t[k] != DownloadPath[k]
    ensures Route(t) == NotFound
  {
    RouteNotFound(t);
  }

  lemma NotFoundExamples()
    ensures Route("/xiazai/") == NotFound
  {
    NotFoundExample("/xiazai/", 7);
  }

  lemma CaseSensitiveExample()
    ensures Route("/XIAZAI") == NotFound
  {
    NotFoundExample("/XIAZAI", 1);
  }

  lemma OtherPathExample()
    ensures Route("/index.html") == NotFound
  {
    NotFoundExample("/index.html", 1);
  }
}
