/**
  Pattern compilation and matching of the current router (router/route.go).
  A pattern compiles to a sequence of parts (literal tokens, `:key` named
  parts and a final `*key` splat); a request path matches when its
  `/`-separated segments line up with those parts.
 */
module Routes {
  import opened Wrappers
  import opened GoStrings

  /** One compiled pattern segment (`RoutePart`): the Go code encodes the three
      kinds with the flags `Matcher` and `Splat`, never both set. */
  datatype Part =
    | Literal(value: string)   // plain token, must equal its segment
    | Named(key: string)       // `:key`, captures one segment
    | Splat(key: string)       // `*key`, captures every remaining segment

  /** A compiled route. The handler is kept by the router, by index. */
  datatype Route = Route(parts: seq<Part>, endsInSplat: bool)

  /** The only construction error: a splat that is not the last part. */
  datatype RouteError = MisplacedSplat

  /** The `/`-separated tokens of a pattern, with `/` trimmed from both ends. */
  function Tokens(pattern: string): seq<string>
  {
    Split(Trim(pattern, '/'), '/')
  }

  /** The segments of a request path: only LEADING `/` are removed, so a
      trailing `/` leaves an empty last segment. */
  function Segments(path: string): seq<string>
  {
    Split(TrimLeft(path, '/'), '/')
  }

  /** The token a part is written as in a pattern: the inverse of `Classify`. */
  function Render(part: Part): string
  {
    match part
    case Literal(v) => v
    case Named(k) => ":" + k
    case Splat(k) => "*" + k
  }

  /** Classification of one token by its first character: `:` gives a named
      part and `*` a splat, each without its marker; anything else is a
      literal holding the whole token. */
  function Classify(raw: string): (p: Part)
    ensures Render(p) == raw
    ensures p.Named? <==> HasPrefix(raw, ':')
    ensures p.Splat? <==> HasPrefix(raw, '*')
  {
    if HasPrefix(raw, ':') then Named(raw[1..])
    else if HasPrefix(raw, '*') then Splat(raw[1..])
    else Literal(raw)
  }

  /** The parts of a pattern, one per `/`-separated token of the trimmed
      pattern, in order. */
  function Compile(pattern: string): (parts: seq<Part>)
    ensures |parts| == Count(Trim(pattern, '/'), '/') + 1
    ensures forall i :: 0 <= i < |parts| ==> Render(parts[i]) == Tokens(pattern)[i]
    ensures forall i :: 0 <= i < |parts| ==>
              && (parts[i].Named? <==> HasPrefix(Tokens(pattern)[i], ':'))
              && (parts[i].Splat? <==> HasPrefix(Tokens(pattern)[i], '*'))
  {
    var raws := Tokens(pattern);
    seq(|raws|, i requires 0 <= i < |raws| => Classify(raws[i]))
  }

  /** Rendering the compiled parts and joining them gives back the trimmed
      pattern: compilation loses nothing. */
  lemma CompileRoundTrip(pattern: string)
    ensures Join(RenderAll(Compile(pattern)), '/') == Trim(pattern, '/')
  {
    var parts := Compile(pattern);
    assert RenderAll(parts) == Tokens(pattern);
  }

  /** Every part rendered as its token. */
  function RenderAll(parts: seq<Part>): (raws: seq<string>)
    ensures |raws| == |parts|
    ensures forall i :: 0 <= i < |parts| ==> raws[i] == Render(parts[i])
  {
    seq(|parts|, i requires 0 <= i < |parts| => Render(parts[i]))
  }

  /** Some splat sits before the last part. */
  predicate HasMisplacedSplat(parts: seq<Part>)
  {
    exists j :: 0 <= j < |parts| - 1 && parts[j].Splat?
  }

  /** The last part exists and is a splat. */
  predicate LastIsSplat(parts: seq<Part>)
  {
    |parts| > 0 && parts[|parts| - 1].Splat?
  }

  /** What every route the Go code can build satisfies: `NewRoute` results
      and the zero `Route{}` (no parts, no splat) alike. */
  predicate Valid(route: Route)
  {
    && !HasMisplacedSplat(route.parts)
    && (route.endsInSplat <==> LastIsSplat(route.parts))
  }

  /**
    The splat-placement scan of `NewRoute` from index `i` on, carrying the
    `endsInSplat` flag: `None` is the error return.
   */
  function ScanSplats(parts: seq<Part>, i: nat, endsInSplat: bool): (r: Option<bool>)
    requires i <= |parts|
    ensures r.None? <==> exists j :: i <= j < |parts| - 1 && parts[j].Splat?
    ensures r.Some? ==> (r.value <==> endsInSplat || (i < |parts| && LastIsSplat(parts)))
    decreases |parts| - i
  {
    if i == |parts| then Some(endsInSplat)
    else if parts[i].Splat? then
      if i < |parts| - 1 then None
      else ScanSplats(parts, i + 1, true)
    else ScanSplats(parts, i + 1, endsInSplat)
  }

  /** `NewRoute`: compile a pattern, refusing a misplaced splat. */
  function NewRoute(pattern: string): (r: Result<Route, RouteError>)
    ensures r.Failure? <==> HasMisplacedSplat(Compile(pattern))
    ensures r.Success? ==> r.value.parts == Compile(pattern)
    ensures r.Success? ==> Valid(r.value)
    ensures r.Success? ==> (r.value.endsInSplat <==> LastIsSplat(Compile(pattern)))
  {
    var parts := Compile(pattern);
    match ScanSplats(parts, 0, false)
    case None => Failure(MisplacedSplat)
    case Some(ends) => Success(Route(parts, ends))
  }

  /** The length rule of `Match`. */
  predicate LengthOk(route: Route, n: nat)
  {
    if route.endsInSplat then n >= |route.parts| else n == |route.parts|
  }

  /** The segments `raws` satisfy the length rule and every literal. */
  predicate Accepts(route: Route, raws: seq<string>)
  {
    LengthOk(route, |raws|) && LiteralsAgree(route.parts, raws, 0)
  }

  /** Segment counts under which the match loop stays inside `parts`. */
  predicate InBounds(parts: seq<Part>, raws: seq<string>)
  {
    |raws| == |parts| || (LastIsSplat(parts) && |parts| <= |raws|)
  }

  /** Every literal part from `i` on equals its segment. */
  predicate LiteralsAgree(parts: seq<Part>, raws: seq<string>, i: nat)
  {
    forall j :: i <= j < |parts| && j < |raws| && parts[j].Literal? ==> raws[j] == parts[j].value
  }

  /** The keys the parts from `i` on bind. */
  function BoundKeys(parts: seq<Part>, i: nat): set<string>
  {
    set j | i <= j < |parts| && !parts[j].Literal? :: parts[j].key
  }

  /** Part `j` binds a key that no later part binds again, so its capture is
      the one the result keeps. */
  predicate LastBinder(parts: seq<Part>, j: nat)
    requires j < |parts|
  {
    && !parts[j].Literal?
    && forall l :: j < l < |parts| && !parts[l].Literal? ==> parts[l].key != parts[j].key
  }

  /** What part `j` captures: one segment, or for a splat `/` followed by the
      remaining segments joined with `/`. */
  function Capture(parts: seq<Part>, raws: seq<string>, j: nat): string
    requires j < |parts| && j < |raws|
  {
    if parts[j].Splat? then "/" + Join(raws[j..], '/') else raws[j]
  }

  /**
    The comparison loop of `Match` from segment `i` on, with the parameters
    collected so far. A splat captures the rest and stops the loop; a literal
    mismatch fails the whole match.
   */
  function MatchFrom(parts: seq<Part>, raws: seq<string>, i: nat, params: map<string, string>)
    : (r: Option<map<string, string>>)
    requires !HasMisplacedSplat(parts) && InBounds(parts, raws)
    requires i <= |raws| && (i < |raws| ==> i < |parts|)
    ensures r.Some? <==> LiteralsAgree(parts, raws, i)
    decreases |raws| - i
  {
    if i == |raws| then Some(params)
    else
      match parts[i]
      case Splat(k) => Some(params[k := "/" + Join(raws[i..], '/')])
      case Named(k) => MatchFrom(parts, raws, i + 1, params[k := raws[i]])
      case Literal(v) => if raws[i] != v then None else MatchFrom(parts, raws, i + 1, params)
  }

  /**
    What a successful comparison loop from `i` on collects: the keys bound
    from `i` on are added, keys bound before keep their values, and each key
    ends up with the capture of its last binder.
   */
  lemma {:induction false} MatchFromCaptures(parts: seq<Part>, raws: seq<string>, i: nat,
                                             params: map<string, string>)
    requires !HasMisplacedSplat(parts) && InBounds(parts, raws)
    requires i <= |raws| && (i < |raws| ==> i < |parts|)
    requires MatchFrom(parts, raws, i, params).Some?
    ensures var m := MatchFrom(parts, raws, i, params).value;
            && m.Keys == params.Keys + BoundKeys(parts, i)
            && (forall k :: k in params && k !in BoundKeys(parts, i) ==> m[k] == params[k])
            && (forall j :: i <= j < |parts| && LastBinder(parts, j) ==> m[parts[j].key] == Capture(parts, raws, j))
    decreases |raws| - i
  {
    if i < |raws| {
      BoundKeysStep(parts, i);
      match parts[i]
      case Splat(k) =>
        assert i == |parts| - 1;
        assert BoundKeys(parts, i + 1) == {};
      case Named(k) =>
        var p' := params[k := raws[i]];
        MatchFromCaptures(parts, raws, i + 1, p');
        var m := MatchFrom(parts, raws, i + 1, p').value;
        assert m == MatchFrom(parts, raws, i, params).value;
        if LastBinder(parts, i) {
          assert k !in BoundKeys(parts, i + 1);
          assert m[k] == raws[i];
        }
      case Literal(v) =>
        MatchFromCaptures(parts, raws, i + 1, params);
    }
  }

  /** The keys bound from `i` on: part `i`'s own, then the rest. */
  lemma BoundKeysStep(parts: seq<Part>, i: nat)
    requires i < |parts|
    ensures BoundKeys(parts, i) == (if parts[i].Literal? then {} else {parts[i].key}) + BoundKeys(parts, i + 1)
  {
  }

  /**
    `Route.Match`: `Some(params)` when the path matches, `None` otherwise.
    A match with no captures yields `Some(map[])`, never `None`.
   */
  function Match(route: Route, path: string): (r: Option<map<string, string>>)
    requires Valid(route)
    ensures r.Some? <==> Accepts(route, Segments(path))
  {
    var raws := Segments(path);
    if route.endsInSplat && |raws| < |route.parts| then None
    else if !route.endsInSplat && |raws| != |route.parts| then None
    else MatchFrom(route.parts, raws, 0, map[])
  }

  /** Every key holds the capture of the part that binds it last: one
      segment for a named part, the joined rest for the splat. */
  predicate Captures(parts: seq<Part>, raws: seq<string>, params: map<string, string>)
    requires |parts| <= |raws|
  {
    forall j {:trigger LastBinder(parts, j)} :: 0 <= j < |parts| && LastBinder(parts, j) ==>
      parts[j].key in params && params[parts[j].key] == Capture(parts, raws, j)
  }

  /** On a match, the parameter map holds exactly the captures (Go's map
      assignment keeps the later of two writes to one key). */
  lemma MatchCaptures(route: Route, path: string)
    requires Valid(route) && Match(route, path).Some?
    ensures Match(route, path).value.Keys == BoundKeys(route.parts, 0)
    ensures |route.parts| <= |Segments(path)|
    ensures Captures(route.parts, Segments(path), Match(route, path).value)
  {
    MatchFromCaptures(route.parts, Segments(path), 0, map[]);
  }

  /** The route `NewRoute("/")` builds: one empty literal. */
  const Root := Route([Literal("")], false)

  /**
    The root route matches exactly the paths made only of `/` (among them
    "/" itself, and "" too), always with an empty, present parameter map.
   */
  lemma RootMatches(path: string)
    ensures Match(Root, path) == (if AllOf(path, '/') then Some(map[]) else None)
  {
    var t := TrimLeft(path, '/');
    TrimLeftEmpty(path, '/');
    var raws := Segments(path);
    if t == "" {
      assert raws == [""];
      assert Match(Root, path) == MatchFrom(Root.parts, raws, 0, map[]);
    } else if |raws| == 1 {
      assert Join(raws, '/') == raws[0];
      assert raws[0] != "";
    }
  }

  /**
    Trailing separators are significant: when a path that does not reduce to
    the root matches a route without a splat, the same path with one more `/`
    does not match it.
   */
  lemma TrailingSlashSignificant(route: Route, path: string)
    requires Valid(route) && !route.endsInSplat
    requires !AllOf(path, '/')
    requires Match(route, path).Some?
    ensures Match(route, path + "/").None?
  {
    TrimLeftSnoc(path, '/');
    TrailingSeparator(TrimLeft(path, '/'), '/');
    assert |Segments(path + "/")| == |Segments(path)| + 1;
  }

  /** Every key a route binds has a last binder. */
  lemma {:induction false} LastBinderOf(parts: seq<Part>, k: string, j: nat) returns (l: nat)
    requires j < |parts| && !parts[j].Literal? && parts[j].key == k
    ensures j <= l < |parts| && LastBinder(parts, l) && parts[l].key == k
    decreases |parts| - j
  {
    if LastBinder(parts, j) {
      l := j;
    } else {
      var j' :| j < j' < |parts| && !parts[j'].Literal? && parts[j'].key == k;
      l := LastBinderOf(parts, k, j');
    }
  }

  /**
    On a splat route a trailing `/` is not dropped either: the path with one
    more `/` still matches, and the only difference is a trailing `/` on the
    splat's capture.
   */
  lemma SplatTrailingSlash(route: Route, path: string)
    requires Valid(route) && route.endsInSplat
    requires !AllOf(path, '/')
    requires Match(route, path).Some?
    ensures var m := Match(route, path).value;
            var key := route.parts[|route.parts| - 1].key;
            key in m && Match(route, path + "/") == Some(m[key := m[key] + "/"])
  {
    SegmentsSnoc(path);
    AcceptsSnoc(route, Segments(path));
    MatchCaptures(route, path);
    MatchCaptures(route, path + "/");
    SplatCapturesSnoc(route.parts, Segments(path), Match(route, path).value, Match(route, path + "/").value);
  }

  /** One more `/` after a path that keeps a non-separator character adds
      one empty segment at the end. */
  lemma SegmentsSnoc(path: string)
    requires !AllOf(path, '/')
    ensures Segments(path + "/") == Segments(path) + [""]
  {
    TrimLeftSnoc(path, '/');
    TrailingSeparator(TrimLeft(path, '/'), '/');
  }

  /** A splat route that accepts some segments also accepts them followed
      by one empty segment. */
  lemma AcceptsSnoc(route: Route, raws: seq<string>)
    requires Valid(route) && route.endsInSplat && Accepts(route, raws)
    ensures Accepts(route, raws + [""])
  {
    var raws' := raws + [""];
    forall j | 0 <= j < |route.parts| && j < |raws'| && route.parts[j].Literal?
      ensures raws'[j] == route.parts[j].value
    {
      assert raws'[j] == raws[j];
    }
  }

  /** Capture maps over `raws` and over `raws` plus one empty segment differ
      only in a trailing `/` on the final splat's capture. */
  lemma SplatCapturesSnoc(parts: seq<Part>, raws: seq<string>, m: map<string, string>, m': map<string, string>)
    requires !HasMisplacedSplat(parts) && LastIsSplat(parts) && |parts| <= |raws|
    requires m.Keys == BoundKeys(parts, 0) && Captures(parts, raws, m)
    requires m'.Keys == BoundKeys(parts, 0) && Captures(parts, raws + [""], m')
    ensures var key := parts[|parts| - 1].key;
            key in m && m' == m[key := m[key] + "/"]
  {
    var n := |parts| - 1;
    var key := parts[n].key;
    var raws' := raws + [""];
    assert LastBinder(parts, n);
    assert key in m && m[key] == Capture(parts, raws, n);
    assert m'[key] == Capture(parts, raws', n);
    CaptureSnoc(parts, raws, n);
    var m2 := m[key := m[key] + "/"];
    forall k | k in m'
      ensures k in m2 && m'[k] == m2[k]
    {
      var j :| 0 <= j < |parts| && !parts[j].Literal? && parts[j].key == k;
      var l := LastBinderOf(parts, k, j);
      if l < n {
        assert k != key;
        assert !parts[l].Splat?;
        assert m'[k] == raws'[l] && m[k] == raws[l];
        assert raws'[l] == raws[l];
        assert m2[k] == m[k];
      } else {
        assert k == key;
        assert m2[k] == m[key] + "/";
      }
    }
    assert m'.Keys == m2.Keys;
    assert m' == m2;
  }

  /** A splat's capture over one more, empty, segment ends in one more `/`. */
  lemma CaptureSnoc(parts: seq<Part>, raws: seq<string>, n: nat)
    requires n < |parts| && n < |raws| && parts[n].Splat?
    ensures Capture(parts, raws + [""], n) == Capture(parts, raws, n) + "/"
  {
    assert (raws + [""])[n..] == raws[n..] + [""];
    JoinSnoc(raws[n..], "", '/');
  }

  /** The literal values of a route made only of literals. */
  function Values(parts: seq<Part>): (vs: seq<string>)
    requires forall i :: 0 <= i < |parts| ==> parts[i].Literal?
    ensures |vs| == |parts|
    ensures forall i :: 0 <= i < |parts| ==> vs[i] == parts[i].value
  {
    seq(|parts|, i requires 0 <= i < |parts| => parts[i].value)
  }

  /**
    A route made only of literals matches exactly the paths whose segments
    are its literals, so a path differing in any one segment does not match;
    the match captures nothing.
   */
  lemma LiteralRouteMatches(route: Route, path: string)
    requires Valid(route)
    requires forall i :: 0 <= i < |route.parts| ==> route.parts[i].Literal?
    ensures Match(route, path).Some? <==> Segments(path) == Values(route.parts)
    ensures Match(route, path).Some? ==> Match(route, path).value == map[]
  {
    var raws := Segments(path);
    var vs := Values(route.parts);
    assert !route.endsInSplat;
    if raws == vs {
      assert Accepts(route, raws);
    }
    if Accepts(route, raws) {
      assert |raws| == |vs|;
      forall i | 0 <= i < |raws| ensures raws[i] == vs[i] {
        assert route.parts[i].Literal?;
      }
      assert raws == vs;
      MatchCaptures(route, path);
      assert BoundKeys(route.parts, 0) == {};
    }
  }
}
