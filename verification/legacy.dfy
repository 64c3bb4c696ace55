/**
  The older router kept in main.go. It has no splats (a `*key` token is a
  plain literal), construction never fails, and `Match` trims `/` from BOTH
  ends of the path, so a trailing `/` is ignored.
 */
module Legacy {
  import opened Wrappers
  import opened GoStrings

  /** One compiled pattern segment (`RoutePart` with its `Matcher` flag). */
  datatype Part = Literal(value: string) | Named(key: string)

  /** A compiled route; the handler is kept by the router, by index. */
  datatype Route = Route(parts: seq<Part>)

  /** The identity derived from a client certificate (`User`). */
  datatype User = User(commonName: string, certificateHash: string)

  /** Result of `getUser`: no certificate resolves to `Resolved(None)`. */
  datatype Identity = Resolved(user: Option<User>) | Malformed

  /** What the dispatch does: run handler `route` with its `RequestParams`,
      or write one of the two status headers. */
  datatype Outcome =
    | Invoke(route: nat, params: map<string, string>, user: Option<User>)
    | NotFound
    | InternalError

  /** The token a part is written as. */
  function Render(part: Part): string
  {
    match part
    case Literal(v) => v
    case Named(k) => ":" + k
  }

  /** Only `:` is a marker here; every other token is a literal. */
  function Classify(raw: string): (p: Part)
    ensures Render(p) == raw
    ensures p.Named? <==> HasPrefix(raw, ':')
  {
    if HasPrefix(raw, ':') then Named(raw[1..]) else Literal(raw)
  }

  /** `NewRoute`: one part per `/`-separated token of the trimmed pattern. */
  function NewRoute(path: string): (r: Route)
    ensures |r.parts| == Count(Trim(path, '/'), '/') + 1
    ensures forall i :: 0 <= i < |r.parts| ==> Render(r.parts[i]) == Split(Trim(path, '/'), '/')[i]
    ensures forall i :: 0 <= i < |r.parts| ==>
              (r.parts[i].Named? <==> HasPrefix(Split(Trim(path, '/'), '/')[i], ':'))
  {
    var raws := Split(Trim(path, '/'), '/');
    Route(seq(|raws|, i requires 0 <= i < |raws| => Classify(raws[i])))
  }

  /** The segments of a request path, `/` trimmed from both ends. */
  function Segments(path: string): seq<string>
  {
    Split(Trim(path, '/'), '/')
  }

  /** Every literal part from `i` on equals its segment. */
  predicate LiteralsAgree(parts: seq<Part>, raws: seq<string>, i: nat)
    requires |raws| == |parts|
  {
    forall j :: i <= j < |parts| && parts[j].Literal? ==> raws[j] == parts[j].value
  }

  /** The keys the parts from `i` on bind. */
  function BoundKeys(parts: seq<Part>, i: nat): set<string>
  {
    set j | i <= j < |parts| && parts[j].Named? :: parts[j].key
  }

  /** Part `j` names a key no later part names again. */
  predicate LastBinder(parts: seq<Part>, j: nat)
    requires j < |parts|
  {
    && parts[j].Named?
    && forall l :: j < l < |parts| && parts[l].Named? ==> parts[l].key != parts[j].key
  }

  /** Every key's value is the segment under the part that binds it last. */
  predicate Captures(parts: seq<Part>, raws: seq<string>, params: map<string, string>)
    requires |raws| == |parts|
  {
    forall j {:trigger LastBinder(parts, j)} :: 0 <= j < |parts| && LastBinder(parts, j) ==> parts[j].key in params && params[parts[j].key] == raws[j]
  }

  /** The comparison loop of `Match` from segment `i` on. */
  function MatchFrom(parts: seq<Part>, raws: seq<string>, i: nat, params: map<string, string>)
    : (r: Option<map<string, string>>)
    requires |raws| == |parts| && i <= |raws|
    ensures r.Some? <==> LiteralsAgree(parts, raws, i)
    decreases |raws| - i
  {
    if i == |raws| then Some(params)
    else
      match parts[i]
      case Named(k) => MatchFrom(parts, raws, i + 1, params[k := raws[i]])
      case Literal(v) => if raws[i] != v then None else MatchFrom(parts, raws, i + 1, params)
  }

  /** What a successful comparison loop from `i` on collects: the keys named
      from `i` on are added, earlier keys keep their values, and each key ends
      up with the segment under its last binder. */
  lemma {:induction false} MatchFromCaptures(parts: seq<Part>, raws: seq<string>, i: nat,
                                             params: map<string, string>)
    requires |raws| == |parts| && i <= |raws|
    requires MatchFrom(parts, raws, i, params).Some?
    ensures var m := MatchFrom(parts, raws, i, params).value;
            && m.Keys == params.Keys + BoundKeys(parts, i)
            && (forall k :: k in params && k !in BoundKeys(parts, i) ==> m[k] == params[k])
            && (forall j :: i <= j < |parts| && LastBinder(parts, j) ==> m[parts[j].key] == raws[j])
    decreases |raws| - i
  {
    if i < |raws| {
      match parts[i]
      case Named(k) => MatchFromCaptures(parts, raws, i + 1, params[k := raws[i]]);
      case Literal(v) => MatchFromCaptures(parts, raws, i + 1, params);
    }
  }

  /** `Route.Match`: the segment count must equal the part count exactly. */
  function Match(route: Route, path: string): (r: Option<map<string, string>>)
    ensures r.Some? <==> |Segments(path)| == |route.parts|
                         && LiteralsAgree(route.parts, Segments(path), 0)
  {
    var raws := Segments(path);
    if |raws| != |route.parts| then None
    else MatchFrom(route.parts, raws, 0, map[])
  }

  /** On a match, every key holds the segment under the part that binds it
      last (Go's map assignment keeps the later write). */
  lemma MatchCaptures(route: Route, path: string)
    requires Match(route, path).Some?
    ensures Match(route, path).value.Keys == BoundKeys(route.parts, 0)
    ensures Captures(route.parts, Segments(path), Match(route, path).value)
  {
    MatchFromCaptures(route.parts, Segments(path), 0, map[]);
  }

  /** Trailing `/` are ignored: a path matches, with the same captures,
      whether or not it ends in one more `/`. */
  lemma TrailingSlashIgnored(route: Route, path: string)
    ensures Match(route, path + "/") == Match(route, path)
  {
    TrimSnoc(path, '/');
  }

  /** The outcome of `Match` for every route, in order. */
  function Results(routes: seq<Route>, path: string): (rs: seq<Option<map<string, string>>>)
    ensures |rs| == |routes|
    ensures forall j :: 0 <= j < |routes| ==> rs[j] == Match(routes[j], path)
  {
    seq(|routes|, j requires 0 <= j < |routes| => Match(routes[j], path))
  }

  /** `Router.ServeGemini`: first matching route wins; a malformed identity
      on a matched path is an internal error; no match is not-found. */
  function ServeGemini(routes: seq<Route>, path: string, identity: Identity): (o: Outcome)
    ensures o.NotFound? <==> forall j :: 0 <= j < |routes| ==> Match(routes[j], path).None?
    ensures o.InternalError? <==>
              identity.Malformed? && exists j :: 0 <= j < |routes| && Match(routes[j], path).Some?
    ensures o.Invoke? ==>
              && o.route < |routes|
              && Match(routes[o.route], path) == Some(o.params)
              && (forall j :: 0 <= j < o.route ==> Match(routes[j], path).None?)
              && identity == Resolved(o.user)
  {
    var rs := Results(routes, path);
    match FirstSome(rs, 0)
    case None => NotFound
    case Some(i) =>
      match identity
      case Malformed => InternalError
      case Resolved(user) => Invoke(i, rs[i].value, user)
  }

  /** `name`: the display name of a possibly absent user. A present user
      is shown by its common name, an absent one as "anonymous", so the
      name reads "anonymous" exactly when nobody is known or the user's
      common name is itself "anonymous". */
  function Name(user: Option<User>): (r: string)
    ensures user.Some? ==> r == user.value.commonName
    ensures r == "anonymous" <==> (user.None? || user.value.commonName == "anonymous")
  {
    match user
    case None => "anonymous"
    case Some(u) => u.commonName
  }
}
