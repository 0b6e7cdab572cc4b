/**
 * `Atomik::route` (Atomik.php:352-428): the first route whose pattern fits
 * the URI and yields an `action` decides the request; leftover URI
 * segments become parameters; caller parameters and the query string fill
 * in what the route leaves open.
 */
module Router {
  import opened Text
  import opened PhpArray

  /** A request: parameter name to value. */
  type Request = map<string, string>

  /**
   * One entry of the `routes` configuration: a pattern with its defaults.
   * A bare pattern (an entry with an integer key) has no defaults.
   */
  datatype Route = Route(pattern: string, defaults: Request)

  /** `explode('/', trim($route, '/'))`. */
  function Segments(pattern: string): (segs: seq<string>)
    ensures |segs| >= 1
  {
    Split(Trim(pattern, '/'), '/')
  }

  /** A pattern segment starting with `:` names a parameter. */
  predicate IsParam(seg: string)
  {
    |seg| >= 1 && seg[0] == ':'
  }

  function ParamName(seg: string): string
    requires IsParam(seg)
  {
    seg[1..]
  }

  /** What pattern segment `i` needs from the URI. */
  predicate SegmentFits(seg: string, uri: seq<string>, i: nat, defaults: Request)
  {
    if IsParam(seg) then i < |uri| || ParamName(seg) in defaults
    else i < |uri| && uri[i] == seg
  }

  // ---------------------------------------------------------------------
  // The reference definition
  // ---------------------------------------------------------------------

  /**
   * The `for` loop over the pattern segments from `i` on: a parameter
   * present in the URI is bound; a missing one needs a default; a literal
   * must equal the URI segment.
   */
  function Walk(segs: seq<string>, uri: seq<string>, defaults: Request, i: nat, req: Request): (r: Option<Request>)
    requires i <= |segs|
    ensures r.Some? ==> req.Keys <= r.value.Keys
    ensures r.Some? ==> forall k :: k in r.value && k !in req ==>
                          exists j :: i <= j < |segs| && j < |uri| && IsParam(segs[j]) && ParamName(segs[j]) == k
    decreases |segs| - i
  {
    if i == |segs| then Some(req)
    else if IsParam(segs[i]) then
      if i < |uri| then Walk(segs, uri, defaults, i + 1, req[ParamName(segs[i]) := uri[i]])
      else if ParamName(segs[i]) in defaults then Walk(segs, uri, defaults, i + 1, req)
      else None
    else if i < |uri| && uri[i] == segs[i] then Walk(segs, uri, defaults, i + 1, req)
    else None
  }

  /**
   * The URI segments past the pattern, read as key/value pairs from `i` on:
   * no key is lost, and every new key is one of those segments.
   */
  function Overflow(uri: seq<string>, i: nat, req: Request): (r: Request)
    ensures req.Keys <= r.Keys
    ensures forall k :: k in r && k !in req ==> exists l :: i <= l < |uri| && uri[l] == k
    decreases |uri| - i
  {
    if i >= |uri| then req
    else Overflow(uri, i + 2, if i + 1 < |uri| then req[uri[i] := uri[i + 1]] else req)
  }

  /** A route once its pattern is exploded into segments. */
  datatype Pattern = Pattern(segs: seq<string>, defaults: Request)

  function Compile(route: Route): (p: Pattern)
    ensures |p.segs| >= 1
  {
    Pattern(Segments(route.pattern), route.defaults)
  }

  /** Every route of the list, compiled, in the same order. */
  function CompileAll(routes: seq<Route>): (ps: seq<Pattern>)
    ensures |ps| == |routes|
  {
    if routes == [] then [] else [Compile(routes[0])] + CompileAll(routes[1..])
  }

  lemma {:induction false} CompileAllAt(routes: seq<Route>, j: nat)
    requires j < |routes|
    ensures CompileAll(routes)[j] == Compile(routes[j])
  {
    if j > 0 {
      CompileAllAt(routes[1..], j - 1);
    }
  }

  /** The request one route yields for the URI, if it matches and names an action. */
  function MatchPattern(p: Pattern, uri: seq<string>): (r: Option<Request>)
    ensures r.Some? ==> "action" in r.value
  {
    match Walk(p.segs, uri, p.defaults, 0, p.defaults)
    case Some(req) =>
      if "action" in req then Some(Overflow(uri, |p.segs|, req)) else None
    case None => None
  }

  /** The first route, in order, that matches: its request names an action. */
  function FirstMatch(ps: seq<Pattern>, uri: seq<string>): (r: Option<Request>)
    ensures r.Some? ==> "action" in r.value
  {
    if ps == [] then None
    else match MatchPattern(ps[0], uri)
      case Some(req) => Some(req)
      case None => FirstMatch(ps[1..], uri)
  }

  /** `FirstMatch` is the result of the first route that matches; none only when none does. */
  lemma {:induction false} FirstMatchFirst(ps: seq<Pattern>, uri: seq<string>)
    ensures FirstMatch(ps, uri).Some? ==>
              exists k :: 0 <= k < |ps| && MatchPattern(ps[k], uri) == FirstMatch(ps, uri) &&
                          forall j :: 0 <= j < k ==> MatchPattern(ps[j], uri).None?
    ensures FirstMatch(ps, uri).None? ==> forall j :: 0 <= j < |ps| ==> MatchPattern(ps[j], uri).None?
  {
    if ps != [] && MatchPattern(ps[0], uri).None? {
      FirstMatchFirst(ps[1..], uri);
      var r := FirstMatch(ps[1..], uri);
      assert FirstMatch(ps, uri) == r;
      if r.Some? {
        var k :| 0 <= k < |ps| - 1 && MatchPattern(ps[1..][k], uri) == r &&
                 forall j :: 0 <= j < k ==> MatchPattern(ps[1..][j], uri).None?;
        assert ps[k + 1] == ps[1..][k];
        NoneBefore(ps, uri, k);
      } else {
        NoneBefore(ps, uri, |ps| - 1);
      }
    }
  }

  /** No match at the head and none among the next `k` routes is no match among the first `k + 1`. */
  lemma NoneBefore(ps: seq<Pattern>, uri: seq<string>, k: nat)
    requires 0 <= k < |ps| && MatchPattern(ps[0], uri).None?
    requires forall j :: 0 <= j < k ==> MatchPattern(ps[1..][j], uri).None?
    ensures forall j :: 0 <= j < k + 1 ==> MatchPattern(ps[j], uri).None?
  {
    forall j | 0 < j < k + 1 ensures MatchPattern(ps[j], uri).None? {
      assert ps[j] == ps[1..][j - 1];
    }
  }

  /** The matched request, or `{action: path}` when no route matches: an action either way. */
  function Resolved(routes: seq<Route>, path: string): (r: Request)
    ensures "action" in r
  {
    var p := Trim(path, '/');
    match FirstMatch(CompileAll(routes), Split(p, '/'))
    case Some(req) => req
    case None => map["action" := p]
  }

  /**
   * `route($uri, $params, $routes)` with the URI already split into its
   * path and its parsed query: `array_merge($query, $params)`, then
   * `array_merge($params, $request)`. The route's values win over the
   * caller's parameters, which win over the query string, and no other key
   * appears.
   */
  function RouteSpec(routes: seq<Route>, path: string, query: Request, params: Request): (r: Request)
    ensures var req := Resolved(routes, path);
            (forall k :: k in req ==> k in r && r[k] == req[k]) &&
            (forall k :: k in params && k !in req ==> k in r && r[k] == params[k]) &&
            (forall k :: k in query && k !in params && k !in req ==> k in r && r[k] == query[k]) &&
            (forall k :: k in r ==> k in req || k in params || k in query)
  {
    query + params + Resolved(routes, path)
  }

  // ---------------------------------------------------------------------
  // The loops of `route`
  // ---------------------------------------------------------------------

  /** `route` as the source runs it: a scan over the routes that stops at the first match. */
  method RouteRequest(routes: seq<Route>, path: string, query: Request, params: Request)
    returns (request: Request)
    ensures request == RouteSpec(routes, path, query, params)
  {
    var uri := Trim(path, '/');
    var uriSegments := Split(uri, '/');
    var merged := query + params;
    var m := ScanRoutes(routes, uriSegments);
    var req: Request;
    if m.Some? {
      req := m.value;
    } else {
      req := map["action" := uri];
    }
    request := merged + req;
  }

  /** The `foreach` over the routes, leaving at the first one that fits. */
  method ScanRoutes(routes: seq<Route>, uriSegments: seq<string>) returns (found: Option<Request>)
    ensures found == FirstMatch(CompileAll(routes), uriSegments)
  {
    found := None;
    var n := 0;
    while n < |routes|
      invariant 0 <= n <= |routes|
      invariant FirstMatch(CompileAll(routes), uriSegments) == FirstMatch(CompileAll(routes[n..]), uriSegments)
    {
      assert routes[n..][1..] == routes[n + 1..];
      assert CompileAll(routes[n..])[1..] == CompileAll(routes[n + 1..]);
      var m := TryRoute(routes[n], uriSegments);
      if m.Some? {
        found := m;
        return;
      }
      n := n + 1;
    }
  }

  /** One turn of the scan: walk the pattern, then read the leftover pairs. */
  method TryRoute(route: Route, uri: seq<string>) returns (r: Option<Request>)
    ensures r == MatchPattern(Compile(route), uri)
  {
    var p := Compile(route);
    var valid, request := WalkSegments(p.segs, uri, p.defaults);
    if valid && "action" in request {
      request := ReadPairs(uri, |p.segs|, request);
      r := Some(request);
    } else {
      r := None;
    }
  }

  /** The `for` loop over the pattern segments, which stops at the first misfit. */
  method WalkSegments(segs: seq<string>, uri: seq<string>, defaults: Request) returns (valid: bool, request: Request)
    ensures valid <==> Walk(segs, uri, defaults, 0, defaults).Some?
    ensures valid ==> request == Walk(segs, uri, defaults, 0, defaults).value
  {
    request := defaults;
    valid := true;
    var i := 0;
    while i < |segs|
      invariant 0 <= i <= |segs|
      invariant Walk(segs, uri, defaults, 0, defaults) == Walk(segs, uri, defaults, i, request)
    {
      if IsParam(segs[i]) {
        if i < |uri| {
          request := request[ParamName(segs[i]) := uri[i]];
        } else if ParamName(segs[i]) !in defaults {
          valid := false;
          break;
        }
      } else if !(i < |uri|) || uri[i] != segs[i] {
        valid := false;
        break;
      }
      i := i + 1;
    }
  }

  /** The loop that adds the URI segments past the pattern as key/value pairs. */
  method ReadPairs(uri: seq<string>, start: nat, req: Request) returns (request: Request)
    ensures request == Overflow(uri, start, req)
  {
    request := req;
    var j := start;
    while j < |uri|
      invariant start <= j
      invariant Overflow(uri, start, req) == Overflow(uri, j, request)
      decreases |uri| - j
    {
      if j + 1 < |uri| {
        request := request[uri[j] := uri[j + 1]];
      }
      j := j + 2;
    }
  }

  // ---------------------------------------------------------------------
  // Properties
  // ---------------------------------------------------------------------

  /** The walk succeeds exactly when every pattern segment from `i` on fits the URI. */
  lemma {:induction false} WalkFits(segs: seq<string>, uri: seq<string>, defaults: Request, i: nat, req: Request)
    requires i <= |segs|
    ensures Walk(segs, uri, defaults, i, req).Some? <==>
            forall j :: i <= j < |segs| ==> SegmentFits(segs[j], uri, j, defaults)
    decreases |segs| - i
  {
    if i < |segs| {
      var next := if IsParam(segs[i]) && i < |uri| then req[ParamName(segs[i]) := uri[i]] else req;
      WalkFits(segs, uri, defaults, i + 1, next);
    }
  }

  /** A successful walk binds a parameter present in the URI to its URI segment (the last such segment wins). */
  lemma {:induction false} WalkBindsParam(segs: seq<string>, uri: seq<string>, defaults: Request, i: nat, req: Request, j: nat)
    requires i <= j < |segs| && j < |uri| && IsParam(segs[j]) && Walk(segs, uri, defaults, i, req).Some?
    requires forall l :: j < l < |segs| && l < |uri| ==> segs[l] != segs[j]
    ensures ParamName(segs[j]) in Walk(segs, uri, defaults, i, req).value
    ensures Walk(segs, uri, defaults, i, req).value[ParamName(segs[j])] == uri[j]
    decreases |segs| - i
  {
    var next := if IsParam(segs[i]) && i < |uri| then req[ParamName(segs[i]) := uri[i]] else req;
    if j == i {
      var k := ParamName(segs[i]);
      forall l | i < l < |segs| && l < |uri| && IsParam(segs[l])
        ensures ParamName(segs[l]) != k
      {
        assert segs[l] == [':'] + ParamName(segs[l]);
        assert segs[i] == [':'] + k;
      }
      WalkKeepsOther(segs, uri, defaults, i + 1, next, k);
    } else {
      WalkBindsParam(segs, uri, defaults, i + 1, next, j);
    }
  }

  /** A key that no parameter present in the URI names keeps its value through the walk. */
  lemma {:induction false} WalkKeepsOther(segs: seq<string>, uri: seq<string>, defaults: Request, i: nat, req: Request, k: string)
    requires i <= |segs| && Walk(segs, uri, defaults, i, req).Some? && k in req
    requires forall l :: i <= l < |segs| && l < |uri| && IsParam(segs[l]) ==> ParamName(segs[l]) != k
    ensures k in Walk(segs, uri, defaults, i, req).value
    ensures Walk(segs, uri, defaults, i, req).value[k] == req[k]
    decreases |segs| - i
  {
    if i < |segs| {
      var next := if IsParam(segs[i]) && i < |uri| then req[ParamName(segs[i]) := uri[i]] else req;
      WalkKeepsOther(segs, uri, defaults, i + 1, next, k);
    }
  }

  /** A route matches exactly when its pattern fits and the walk's result names an action. */
  lemma MatchPatternFits(p: Pattern, uri: seq<string>)
    ensures MatchPattern(p, uri).Some? <==>
              (forall j :: 0 <= j < |p.segs| ==> SegmentFits(p.segs[j], uri, j, p.defaults)) &&
              Walk(p.segs, uri, p.defaults, 0, p.defaults).Some? &&
              "action" in Walk(p.segs, uri, p.defaults, 0, p.defaults).value
  {
    WalkFits(p.segs, uri, p.defaults, 0, p.defaults);
  }

  /** Every leftover pair is bound, unless a later pair reuses its key. */
  lemma {:induction false} OverflowPairs(uri: seq<string>, i: nat, req: Request, j: nat)
    requires i <= j && (j - i) % 2 == 0 && j + 1 < |uri|
    requires forall l :: j < l && (l - i) % 2 == 0 && l + 1 < |uri| ==> uri[l] != uri[j]
    ensures uri[j] in Overflow(uri, i, req) && Overflow(uri, i, req)[uri[j]] == uri[j + 1]
    decreases |uri| - i
  {
    var next := if i + 1 < |uri| then req[uri[i] := uri[i + 1]] else req;
    if j == i {
      OverflowUnmentioned(uri, i + 2, next, uri[i]);
    } else {
      OverflowPairs(uri, i + 2, next, j);
    }
  }

  /** A key that no later pair names keeps its value. */
  lemma {:induction false} OverflowUnmentioned(uri: seq<string>, i: nat, req: Request, k: string)
    requires k in req
    requires forall l :: i <= l && (l - i) % 2 == 0 && l + 1 < |uri| ==> uri[l] != k
    ensures k in Overflow(uri, i, req) && Overflow(uri, i, req)[k] == req[k]
    decreases |uri| - i
  {
    if i < |uri| {
      var next := if i + 1 < |uri| then req[uri[i] := uri[i + 1]] else req;
      OverflowUnmentioned(uri, i + 2, next, k);
    }
  }

  /** An unpaired last URI segment is dropped: the result is as if it were not there. */
  lemma {:induction false} OverflowDropsUnpaired(uri: seq<string>, i: nat, req: Request)
    requires i < |uri| && (|uri| - i) % 2 == 1
    ensures Overflow(uri, i, req) == Overflow(uri[..|uri| - 1], i, req)
    decreases |uri| - i
  {
    var short := uri[..|uri| - 1];
    if i + 1 < |uri| {
      assert short[i] == uri[i] && short[i + 1] == uri[i + 1];
      OverflowDropsUnpaired(uri, i + 2, req[uri[i] := uri[i + 1]]);
    }
  }

  /** Once a route has matched, routes after it are never consulted. */
  lemma {:induction false} LaterRoutesIgnored(ps: seq<Pattern>, more: seq<Pattern>, uri: seq<string>)
    requires FirstMatch(ps, uri).Some?
    ensures FirstMatch(ps + more, uri) == FirstMatch(ps, uri)
  {
    assert (ps + more)[0] == ps[0];
    if MatchPattern(ps[0], uri).None? {
      assert (ps + more)[1..] == ps[1..] + more;
      LaterRoutesIgnored(ps[1..], more, uri);
    }
  }

  /**
   * With no matching route the router's own request is exactly
   * `{action: trimmed path}`, so the request's action is the trimmed path.
   */
  lemma RouteFallback(routes: seq<Route>, path: string, query: Request, params: Request)
    requires forall j :: 0 <= j < |routes| ==> MatchPattern(Compile(routes[j]), Split(Trim(path, '/'), '/')).None?
    ensures Resolved(routes, path) == map["action" := Trim(path, '/')]
    ensures "action" in RouteSpec(routes, path, query, params)
    ensures RouteSpec(routes, path, query, params)["action"] == Trim(path, '/')
  {
    var uri := Split(Trim(path, '/'), '/');
    var ps := CompileAll(routes);
    FirstMatchFirst(ps, uri);
    if FirstMatch(ps, uri).Some? {
      var k :| 0 <= k < |ps| && MatchPattern(ps[k], uri) == FirstMatch(ps, uri);
      CompileAllAt(routes, k);
      assert false;
    }
  }
}
