/**
  How the current router (router/route.go) relates to the older one kept in
  main.go. On patterns without a `*` token both compile the same parts, and
  on paths that do not end in `/` both match the same way with the same
  captures; they differ only in the trailing `/` the current router keeps.
 */
module Versions {
  import opened Wrappers
  import opened GoStrings
  import Routes
  import Legacy

  /** The current part an older part corresponds to. */
  function Upgrade(p: Legacy.Part): Routes.Part
  {
    match p
    case Literal(v) => Routes.Literal(v)
    case Named(k) => Routes.Named(k)
  }

  /** An older route read as a current one: the same parts, no splat. */
  function UpgradeRoute(r: Legacy.Route): (u: Routes.Route)
    ensures Routes.Valid(u) && !u.endsInSplat
    ensures |u.parts| == |r.parts|
    ensures forall i :: 0 <= i < |r.parts| ==> u.parts[i] == Upgrade(r.parts[i])
  {
    Routes.Route(seq(|r.parts|, i requires 0 <= i < |r.parts| => Upgrade(r.parts[i])), false)
  }

  /** No token of the pattern is written as a splat. */
  predicate SplatFree(pattern: string)
  {
    forall i :: 0 <= i < |Routes.Tokens(pattern)| ==> !HasPrefix(Routes.Tokens(pattern)[i], '*')
  }

  /** Without splat tokens the current `NewRoute` succeeds and builds what
      the older one builds. */
  lemma SameCompile(pattern: string)
    requires SplatFree(pattern)
    ensures Routes.NewRoute(pattern) == Success(UpgradeRoute(Legacy.NewRoute(pattern)))
  {
    var parts := Routes.Compile(pattern);
    var prior := Legacy.NewRoute(pattern);
    var u := UpgradeRoute(prior);
    forall i | 0 <= i < |parts| ensures parts[i] == u.parts[i] {
      var tok := Routes.Tokens(pattern)[i];
      assert Routes.Render(parts[i]) == tok == Legacy.Render(prior.parts[i]);
    }
    assert parts == u.parts;
    assert !Routes.HasMisplacedSplat(parts);
    assert !Routes.LastIsSplat(parts);
  }

  /** The two comparison loops agree step by step. */
  lemma {:induction false} SameMatchFrom(r: Legacy.Route, raws: seq<string>, i: nat, params: map<string, string>)
    requires |raws| == |r.parts| && i <= |raws|
    ensures Routes.MatchFrom(UpgradeRoute(r).parts, raws, i, params)
            == Legacy.MatchFrom(r.parts, raws, i, params)
    decreases |raws| - i
  {
    var u := UpgradeRoute(r);
    assert Routes.InBounds(u.parts, raws);
    if i < |raws| {
      match r.parts[i]
      case Named(k) =>
        SameMatchFrom(r, raws, i + 1, params[k := raws[i]]);
      case Literal(v) =>
        if raws[i] == v {
          SameMatchFrom(r, raws, i + 1, params);
        }
    }
  }

  /** On a path that does not end in `/`, the current `Match` of an upgraded
      route gives exactly the older `Match`'s answer. */
  lemma SameMatch(r: Legacy.Route, path: string)
    requires |path| == 0 || path[|path| - 1] != '/'
    ensures Routes.Match(UpgradeRoute(r), path) == Legacy.Match(r, path)
  {
    TrimNoTrailing(path, '/');
    assert Routes.Segments(path) == Legacy.Segments(path);
    var raws := Legacy.Segments(path);
    if |raws| == |r.parts| {
      SameMatchFrom(r, raws, 0, map[]);
    }
  }
}
