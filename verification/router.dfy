/**
  Request dispatch of the current router (router/router.go): an ordered,
  immutable list of routes scanned first-match-wins. Handlers are the indices
  of their routes; the outcome says which handler runs and with what request.
 */
module Router {
  import opened Wrappers
  import opened Routes

  /** The identity derived from a client certificate. */
  datatype User = User(commonName: string, certificateHash: string)

  /** Result of resolving the request's certificate: no certificate resolves
      to `Resolved(None)`; a certificate that does not parse is `Malformed`. */
  datatype Identity = Resolved(user: Option<User>) | Malformed

  /** What a handler receives (`Request`), less the raw protocol request. */
  datatype Request = Request(
    pathParams: map<string, string>,
    queryParams: map<string, string>,
    queryString: string,
    user: Option<User>)

  /** The three outcomes of one dispatch. `NotFound` and `InternalError` stand
      for the status headers the router writes itself. */
  datatype Outcome =
    | Invoke(route: nat, request: Request)
    | NotFound
    | InternalError

  /** The router: routes in registration order (`NewRouter`). */
  datatype Router = Router(routes: seq<Route>)

  /** Every route is one the Go code can build. */
  predicate ValidRoutes(routes: seq<Route>)
  {
    forall i :: 0 <= i < |routes| ==> Valid(routes[i])
  }

  /** A parsed query: every key present has at least one value. */
  predicate NonEmptyValues(query: map<string, seq<string>>)
  {
    forall k :: k in query ==> |query[k]| > 0
  }

  /** Reference meaning of flattening: the same keys, each with its first value. */
  function FirstValues(query: map<string, seq<string>>): map<string, string>
    requires NonEmptyValues(query)
  {
    map k | k in query :: query[k][0]
  }

  /**
    `flattenQueryParams`: visits the keys in an unspecified order (Go's map
    iteration) and stores each key's first value.
   */
  method FlattenQueryParams(raw: map<string, seq<string>>) returns (params: map<string, string>)
    requires NonEmptyValues(raw)
    ensures params.Keys == raw.Keys
    ensures forall k :: k in raw ==> params[k] == raw[k][0]
    ensures params == FirstValues(raw)
  {
    params := map[];
    var todo := raw.Keys;
    while todo != {}
      invariant todo <= raw.Keys
      invariant params.Keys == raw.Keys - todo
      invariant forall k :: k in params ==> params[k] == raw[k][0]
      decreases todo
    {
      var k :| k in todo;
      params := params[k := raw[k][0]];
      todo := todo - {k};
    }
  }

  /** The outcome of `Match` for every route, in order. `Match` is pure, so
      scanning these in order is the same as calling it route by route. */
  function Results(routes: seq<Route>, path: string): (rs: seq<Option<map<string, string>>>)
    requires ValidRoutes(routes)
    ensures |rs| == |routes|
    ensures forall j :: 0 <= j < |routes| ==> rs[j] == Match(routes[j], path)
  {
    seq(|routes|, j requires 0 <= j < |routes| => Match(routes[j], path))
  }

  /**
    `Router.ServeGemini` as a decision: the lowest-index matching route's
    handler runs, once, with that route's captures; the identity is resolved
    only after a route has matched, and a malformed one stops before any
    handler runs.
   */
  function ServeGemini(router: Router, path: string, identity: Identity,
                       rawQuery: string, query: map<string, seq<string>>): (o: Outcome)
    requires ValidRoutes(router.routes) && NonEmptyValues(query)
    ensures o.NotFound? <==> forall j :: 0 <= j < |router.routes| ==> Match(router.routes[j], path).None?
    ensures o.InternalError? <==>
              identity.Malformed? && exists j :: 0 <= j < |router.routes| && Match(router.routes[j], path).Some?
    ensures o.Invoke? ==>
              && o.route < |router.routes|
              && Match(router.routes[o.route], path) == Some(o.request.pathParams)
              && (forall j :: 0 <= j < o.route ==> Match(router.routes[j], path).None?)
              && identity == Resolved(o.request.user)
              && o.request.queryParams == FirstValues(query)
              && o.request.queryString == rawQuery
  {
    var rs := Results(router.routes, path);
    match FirstSome(rs, 0)
    case None => NotFound
    case Some(i) =>
      match identity
      case Malformed => InternalError
      case Resolved(user) => Invoke(i, Request(rs[i].value, FirstValues(query), rawQuery, user))
  }

  /** Registration order decides: when two routes both match, the earlier
      one is never passed over for the later one. */
  lemma EarlierRouteWins(router: Router, path: string, identity: Identity,
                         rawQuery: string, query: map<string, seq<string>>, i: nat, j: nat)
    requires ValidRoutes(router.routes) && NonEmptyValues(query)
    requires i < j < |router.routes|
    requires Match(router.routes[i], path).Some? && Match(router.routes[j], path).Some?
    ensures ServeGemini(router, path, identity, rawQuery, query).Invoke? ==>
              ServeGemini(router, path, identity, rawQuery, query).route <= i
  {
  }

  /** The identity is consulted only after a match: whether a path is found
      does not depend on the certificate. */
  lemma NotFoundIgnoresIdentity(router: Router, path: string, id1: Identity, id2: Identity,
                                rawQuery: string, query: map<string, seq<string>>)
    requires ValidRoutes(router.routes) && NonEmptyValues(query)
    ensures ServeGemini(router, path, id1, rawQuery, query).NotFound?
        <==> ServeGemini(router, path, id2, rawQuery, query).NotFound?
  {
  }

  /** Registering a route after the others only adds a fallback: it never
      takes a request from the routes before it, and it is consulted exactly
      when none of them matches. */
  lemma AppendedRouteIsFallback(routes: seq<Route>, extra: Route, path: string,
                                identity: Identity, rawQuery: string, query: map<string, seq<string>>)
    requires ValidRoutes(routes) && Valid(extra) && NonEmptyValues(query)
    ensures ValidRoutes(routes + [extra])
    ensures var before := ServeGemini(Router(routes), path, identity, rawQuery, query);
            var after := ServeGemini(Router(routes + [extra]), path, identity, rawQuery, query);
            && (!before.NotFound? ==> after == before)
            && (before.NotFound? ==> (after.NotFound? <==> Match(extra, path).None?))
            && (before.NotFound? && after.Invoke? ==> after.route == |routes|)
  {
    var all := routes + [extra];
    assert ValidRoutes(all) by {
      forall j | 0 <= j < |all| ensures Valid(all[j]) {
        if j < |routes| { assert all[j] == routes[j]; }
      }
    }
    assert Results(all, path) == Results(routes, path) + [Match(extra, path)];
    AppendedIsFallback(Results(routes, path), Match(extra, path), 0);
  }
}
