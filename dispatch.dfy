/**
 * The decisions `Atomik::dispatch` takes before it runs an action
 * (Atomik.php:248-257, 271-292): which uri was asked for, what request it
 * resolves to, and whether the security gate lets the action through.
 */
module Dispatch {
  import opened Text
  import opened PhpArray
  import opened Router

  /**
   * PHP's `empty` on `$_GET[$trigger]`: absent, `""` or `"0"`. A parameter
   * of two characters or more is never empty, not even `"00"`.
   */
  predicate Blank(trigger: Option<string>): (r: bool)
    ensures trigger.None? ==> r
    ensures trigger.Some? && |trigger.value| >= 2 ==> !r
    ensures trigger.Some? && |trigger.value| == 1 ==> (r <==> trigger.value[0] == '0')
  {
    trigger.None? || trigger.value == "" || trigger.value == "0"
  }

  /**
   * The requested uri: the trigger parameter without its surrounding
   * slashes, or `atomik/default_action` when the parameter is blank.
   */
  function RequestedUri(trigger: Option<string>, defaultAction: string): (uri: string)
    ensures Blank(trigger) ==> uri == defaultAction
    ensures !Blank(trigger) ==> uri == [] || (uri[0] != '/' && uri[|uri| - 1] != '/')
    ensures !Blank(trigger) ==>
              exists i, j :: 0 <= i <= j <= |trigger.value| && uri == trigger.value[i..j] &&
                             (forall k :: 0 <= k < i ==> trigger.value[k] == '/') &&
                             (forall k :: j <= k < |trigger.value| ==> trigger.value[k] == '/')
  {
    if Blank(trigger) then defaultAction else Trim(trigger.value, '/')
  }

  /** A non-empty trigger of only slashes is not blank, yet asks for the empty uri. */
  lemma SlashesAreNotBlank(t: string, defaultAction: string)
    requires t != [] && forall k :: 0 <= k < |t| ==> t[k] == '/'
    ensures !Blank(Some(t)) && RequestedUri(Some(t), defaultAction) == ""
  {
    assert t[0] == '/';
  }

  /**
   * The request array: `route(uri, $_GET)` when routing is enabled, or just
   * the action otherwise. `query` is the query part of the uri, already
   * decoded. Both ways the request names an action; routed, it is the
   * router's whole result; bypassing the router keeps the uri as it is.
   */
  function ResolveRequest(uri: string, routing: bool, routes: seq<Route>, query: Request, params: Request): (req: Request)
    ensures "action" in req
    ensures routing ==> req == RouteSpec(routes, uri, query, params)
    ensures routing ==> req["action"] == Resolved(routes, uri)["action"]
    ensures !routing ==> req == map["action" := uri]
  {
    if routing then RouteSpec(routes, uri, query, params) else map["action" := uri]
  }

  // ---------------------------------------------------------------------
  // The security gate
  // ---------------------------------------------------------------------

  /**
   * The gate's test: `..` anywhere, a leading `_`, or `/_` anywhere; that
   * is, `..` or an underscore at the start or right after a slash.
   */
  predicate Forbidden(action: string)
    ensures Forbidden(action) <==>
              HasPair(action, '.', '.') ||
              exists k :: 0 <= k < |action| && action[k] == '_' && (k == 0 || action[k - 1] == '/')
  {
    HasPair(action, '.', '.') || (action != [] && action[0] == '_') || HasPair(action, '/', '_')
  }

  /** Some `/`-separated segment of `action` starts with an underscore. */
  predicate HiddenSegment(action: string)
  {
    exists p :: p in Split(action, '/') && p != [] && p[0] == '_'
  }

  /**
   * What the gate means: an action is refused exactly when it contains
   * `..` or one of its path segments starts with `_`.
   */
  lemma ForbiddenMeaning(action: string)
    ensures Forbidden(action) <==> HasPair(action, '.', '.') || HiddenSegment(action)
  {
    UnderscoreSegment(action);
  }

  lemma {:induction false} UnderscoreSegment(s: string)
    ensures ((s != [] && s[0] == '_') || HasPair(s, '/', '_')) <==> HiddenSegment(s)
    decreases |s|
  {
    if '/' !in s {
      assert Split(s, '/') == [s];
      assert !HasPair(s, '/', '_') by {
        forall k | 0 <= k < |s| - 1
          ensures s[k] != '/'
        {
          assert s[k] in s;
        }
      }
    } else {
      var i := IndexOf(s, '/');
      var rest := s[i + 1..];
      assert Split(s, '/') == [s[..i]] + Split(rest, '/');
      UnderscoreSegment(rest);
      PairAfterFirst(s, i);
      if i == 0 {
        assert s[..i] == [];
      } else {
        assert s[..i][0] == s[0];
      }
      assert forall p :: p in Split(s, '/') <==> p == s[..i] || p in Split(rest, '/');
    }
  }

  /** A `/_` lies at the first slash or somewhere after it. */
  lemma PairAfterFirst(s: string, i: nat)
    requires i < |s| && s[i] == '/' && '/' !in s[..i]
    ensures HasPair(s, '/', '_') <==> (s[i + 1..] != [] && s[i + 1] == '_') || HasPair(s[i + 1..], '/', '_')
  {
  }

  // ---------------------------------------------------------------------
  // The decision
  // ---------------------------------------------------------------------

  /** What `dispatch` goes on to do: a 404, or execute the request's action. */
  datatype Decision = NotFound | Execute(uri: string, request: Request)

  /**
   * The decision of `dispatch($uri)` for one request. A given `uri` is used
   * as it is; without one the trigger parameter decides. The trigger
   * parameter, `default_action`, `enable_routing` and the routes are read
   * from the configuration and `$_GET` by the caller.
   */
  function Decide(uri: Option<string>, trigger: Option<string>, defaultAction: string, routing: bool,
                  routes: seq<Route>, query: Request, params: Request): (d: Decision)
    ensures d.Execute? ==> d.uri == if uri.Some? then uri.value else RequestedUri(trigger, defaultAction)
    ensures d.Execute? ==> "action" in d.request && !Forbidden(d.request["action"])
    ensures d.Execute? ==> d.request == ResolveRequest(d.uri, routing, routes, query, params)
  {
    var u := if uri.Some? then uri.value else RequestedUri(trigger, defaultAction);
    var request := ResolveRequest(u, routing, routes, query, params);
    if Forbidden(request["action"]) then NotFound else Execute(u, request)
  }

  /**
   * An action with `..` or a segment starting with `_` is never executed,
   * and every other resolved request is.
   */
  lemma GateIsExact(uri: Option<string>, trigger: Option<string>, defaultAction: string, routing: bool,
                    routes: seq<Route>, query: Request, params: Request)
    ensures var u := if uri.Some? then uri.value else RequestedUri(trigger, defaultAction);
            var request := ResolveRequest(u, routing, routes, query, params);
            (Decide(uri, trigger, defaultAction, routing, routes, query, params).NotFound? <==>
              HasPair(request["action"], '.', '.') || HiddenSegment(request["action"]))
  {
    var u := if uri.Some? then uri.value else RequestedUri(trigger, defaultAction);
    ForbiddenMeaning(ResolveRequest(u, routing, routes, query, params)["action"]);
  }

  /** Without routing, a blank trigger executes the default action, when the gate lets it through. */
  lemma BlankRunsDefault(trigger: Option<string>, defaultAction: string, routes: seq<Route>, query: Request, params: Request)
    requires Blank(trigger) && !Forbidden(defaultAction)
    ensures Decide(None, trigger, defaultAction, false, routes, query, params) ==
            Execute(defaultAction, map["action" := defaultAction])
  {
  }

  /**
   * A uri handed to `dispatch` replaces the trigger parameter and
   * `default_action` altogether, and is not trimmed.
   */
  lemma GivenUriAsIs(u: string, trigger: Option<string>, defaultAction: string, trigger': Option<string>, defaultAction': string,
                     routing: bool, routes: seq<Route>, query: Request, params: Request)
    ensures Decide(Some(u), trigger, defaultAction, routing, routes, query, params) ==
            Decide(Some(u), trigger', defaultAction', routing, routes, query, params)
    ensures !routing && !Forbidden(u) ==>
              Decide(Some(u), trigger, defaultAction, routing, routes, query, params) == Execute(u, map["action" := u])
  {
  }
}
