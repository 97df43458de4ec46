/** `pageRouteSchema` (`src/schemas/pageRouteSchema.ts`): a route path is
    `/` followed by one or more non-empty runs of `[a-z0-9-]` joined by `/`;
    a page route is such a path, or an object with a path and optional aliases
    that are paths too. */
module PageRouteSchema {
  import opened Wrappers
  import opened JsString
  import opened SegmentPattern

  /** `[a-z0-9-]` */
  predicate IsRouteChar(c: char) {
    ('a' <= c <= 'z') || IsAsciiDigit(c) || c == '-'
  }

  /** `PAGE_ROUTE_PATTERN`, `^\/([a-z0-9-]+)(?:\/[a-z0-9-]+)*$`. */
  predicate IsRoutePath(s: string) {
    s != [] && s[0] == '/' && Matches(s[1..], '/', IsRouteChar)
  }

  /** A page route: a bare path, or a path with optional aliases. */
  datatype PageRoute =
    | PathRoute(path: string)
    | ObjectRoute(path: string, aliases: Option<seq<string>>)

  /** The union schema: the path, and every alias given, is a route path. */
  predicate IsValidPageRoute(r: PageRoute) {
    IsRoutePath(r.path) &&
    (r.ObjectRoute? && r.aliases.Some? ==> forall i :: 0 <= i < |r.aliases.value| ==> IsRoutePath(r.aliases.value[i]))
  }

  /** A route path, character by character: it starts with `/`, does not end
      with one, has no `//`, and otherwise holds lowercase letters, digits and
      `-` only, so upper case and `_` are rejected anywhere. */
  lemma RoutePathShape(s: string)
    ensures IsRoutePath(s) <==>
      |s| >= 2 && s[0] == '/' && s[|s| - 1] != '/' &&
      (forall i :: 0 <= i < |s| ==> s[i] == '/' || IsRouteChar(s[i])) &&
      (forall i :: 0 <= i < |s| - 1 ==> s[i] != '/' || s[i + 1] != '/')
  {
    if s != [] && s[0] == '/' {
      var t := s[1..];
      MatchesIsDelimited(t, '/', IsRouteChar);
      assert forall i :: 0 <= i < |t| ==> t[i] == s[i + 1];
      if |s| >= 2 {
        assert s[|s| - 1] == t[|t| - 1];
        assert (forall i :: 0 <= i < |s| ==> s[i] == '/' || IsRouteChar(s[i])) <==>
          OnlyAllowed(t, '/', IsRouteChar);
        assert (forall i :: 0 <= i < |s| - 1 ==> s[i] != '/' || s[i + 1] != '/') <==>
          (t[0] != '/' && NoDoubleSeparator(t, '/'));
      }
    }
  }

  /** `/` alone, a trailing `/` and an empty segment are all rejected. */
  lemma RejectedPaths(a: string, b: string)
    ensures !IsRoutePath("/")
    ensures !IsRoutePath(a + "/")
    ensures !IsRoutePath(a + "//" + b)
  {
    RoutePathShape("/");
    RoutePathShape(a + "/");
    var s := a + "//" + b;
    RoutePathShape(s);
    assert s[|a|] == '/' && s[|a| + 1] == '/';
  }

  /** Every route path is built from `/` and a segment by appending further
      `/`-segments, and every such string is a route path. */
  lemma RoutePathSegments(s: string, seg: string)
    requires seg != [] && forall i :: 0 <= i < |seg| ==> IsRouteChar(seg[i])
    ensures IsRoutePath("/" + seg)
    ensures s != [] ==> (IsRoutePath(s + "/" + seg) <==> IsRoutePath(s))
  {
    OneSegment(seg, '/', IsRouteChar);
    assert ("/" + seg)[1..] == seg;
    if s != [] && s[0] == '/' {
      AddSegment(s[1..], seg, '/', IsRouteChar);
      assert (s + "/" + seg)[1..] == s[1..] + ['/'] + seg;
    }
  }

  /** The paths of the schema's examples. */
  lemma ExamplePaths()
    ensures IsRoutePath("/html") && IsRoutePath("/html/div") && IsRoutePath("/css/background-color")
  {
    HtmlDivPath();
    BackgroundColorPath();
  }

  lemma HtmlDivPath()
    ensures IsRoutePath("/html") && IsRoutePath("/html/div")
  {
    Path2("html", "div");
    assert "/" + "html" + "/" + "div" == "/html/div";
  }

  lemma BackgroundColorPath()
    ensures IsRoutePath("/css/background-color")
  {
    Path2("css", "background-color");
    assert "/" + "css" + "/" + "background-color" == "/css/background-color";
  }

  lemma Path2(a: string, b: string)
    requires a != [] && forall i :: 0 <= i < |a| ==> IsRouteChar(a[i])
    requires b != [] && forall i :: 0 <= i < |b| ==> IsRouteChar(b[i])
    ensures IsRoutePath("/" + a) && IsRoutePath("/" + a + "/" + b)
  {
    RoutePathSegments("/" + a, a);
    RoutePathSegments("/" + a, b);
  }
}
