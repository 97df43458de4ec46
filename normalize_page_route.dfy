/** `normalizePageRoute` (`src/utils/normalizePageRoute.ts`): every page
    route becomes an object with a path and a list of aliases. */
module NormalizePageRoute {
  import opened Wrappers
  import opened PageRouteSchema

  /** `Required<Exclude<PageRouteSchemaType, string>>` */
  datatype NormalizedRoute = NormalizedRoute(path: string, aliases: seq<string>)

  /** The path is kept, and a bare path gets no aliases. */
  function NormalizePageRoute(route: PageRoute): (r: NormalizedRoute)
    ensures r.path == route.path
    ensures route.PathRoute? ==> r.aliases == []
  {
    match route
    case PathRoute(p) => NormalizedRoute(p, [])
    case ObjectRoute(p, aliases) => NormalizedRoute(p, if aliases.Some? then aliases.value else [])
  }

  /** A normalised route read back as a page route. */
  function AsPageRoute(n: NormalizedRoute): PageRoute {
    ObjectRoute(n.path, Some(n.aliases))
  }

  /** The three cases of the tests: a bare path gets no aliases, given
      aliases are kept as they are, missing aliases become the empty list; the
      path is never changed. */
  lemma NormalizeCases(route: PageRoute)
    ensures NormalizePageRoute(route).path == route.path
    ensures route.PathRoute? ==> NormalizePageRoute(route).aliases == []
    ensures route.ObjectRoute? && route.aliases.Some? ==> NormalizePageRoute(route).aliases == route.aliases.value
    ensures route.ObjectRoute? && route.aliases.None? ==> NormalizePageRoute(route).aliases == []
  {
  }

  /** A normalised route comes back unchanged, so normalising twice is
      normalising once. */
  lemma NormalizeAsPageRoute(n: NormalizedRoute)
    ensures NormalizePageRoute(AsPageRoute(n)) == n
  {
  }

  lemma NormalizeIdempotent(route: PageRoute)
    ensures var n := NormalizePageRoute(route);
      NormalizePageRoute(AsPageRoute(n)) == n
  {
    NormalizeAsPageRoute(NormalizePageRoute(route));
  }

  /** A route the schema accepts normalises to route paths only. */
  lemma NormalizeKeepsValidity(route: PageRoute)
    requires IsValidPageRoute(route)
    ensures var n := NormalizePageRoute(route);
      IsRoutePath(n.path) && forall i :: 0 <= i < |n.aliases| ==> IsRoutePath(n.aliases[i])
    ensures IsValidPageRoute(AsPageRoute(NormalizePageRoute(route)))
  {
  }
}
