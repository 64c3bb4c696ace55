/**
  The route table of the project's own test suite (gemser_test.go) and the
  two routes main.go registers, worked out on the model: which patterns
  build which routes, and which paths they match with which parameters.
  Each fact about a particular string is proved on its own and the facts are
  then combined, so no proof has to take apart many literals at once.
 */
module RouteCases {
  import opened Wrappers
  import opened GoStrings
  import opened Routes
  import Legacy

  /** Joining short lists, spelled out. */
  lemma Join2(a: string, b: string)
    ensures Join([a, b], '/') == a + "/" + b
  {
    assert [a, b][1..] == [b];
  }

  lemma Join4(a: string, b: string, c: string, d: string)
    ensures Join([a, b, c, d], '/') == a + "/" + b + "/" + c + "/" + d
  {
    assert [a, b, c, d][1..] == [b, c, d];
    assert [b, c, d][1..] == [c, d];
    Join2(c, d);
  }

  lemma Join5(a: string, b: string, c: string, d: string, e: string)
    ensures Join([a, b, c, d, e], '/') == a + "/" + b + "/" + c + "/" + d + "/" + e
  {
    assert [a, b, c, d, e][1..] == [b, c, d, e];
    Join4(b, c, d, e);
  }

  /** A `/`-led string whose body neither starts nor ends with `/` trims to
      that body. */
  lemma TrimLed(t: string)
    requires |t| > 0 && t[0] != '/' && t[|t| - 1] != '/'
    ensures Trim("/" + t, '/') == t
    ensures TrimLeft("/" + t, '/') == t
  {
    assert ("/" + t)[1..] == t;
    assert TrimLeft("/" + t, '/') == TrimLeft(t, '/');
  }

  /** A pattern or path that is `/` followed by the join of separator-free
      pieces `xs`, and does not end in `/`, splits back into `xs` under both
      routers. */
  lemma TokensOf(p: string, xs: seq<string>)
    requires |xs| > 0 && SepFree(xs, '/')
    requires p == "/" + Join(xs, '/')
    requires |p| > 1 && p[1] != '/' && p[|p| - 1] != '/'
    ensures Tokens(p) == xs
    ensures Segments(p) == xs
    ensures Legacy.Segments(p) == xs
  {
    var t := Join(xs, '/');
    assert t[0] == p[1] && t[|t| - 1] == p[|p| - 1];
    TrimLed(t);
    SplitJoin(xs, '/');
  }

  /** A pattern whose tokens classify one by one into the parts of a valid
      route builds that route. */
  lemma NewRouteOf(p: string, xs: seq<string>, route: Route)
    requires Tokens(p) == xs && |route.parts| == |xs|
    requires forall i :: 0 <= i < |xs| ==> route.parts[i] == Classify(xs[i])
    requires Valid(route)
    ensures NewRoute(p) == Success(route)
  {
    assert Compile(p) == route.parts;
  }

  /** The same, for a two-token pattern. */
  lemma NewRouteOf2(p: string, a: string, b: string, route: Route)
    requires Tokens(p) == [a, b] && route.parts == [Classify(a), Classify(b)]
    requires Valid(route)
    ensures NewRoute(p) == Success(route)
  {
    NewRouteOf(p, [a, b], route);
  }

  // ------------------------------------------------------------------------ /

  /** The root path, and the root pattern. */
  lemma RootSegments()
    ensures TrimLeft("/", '/') == ""
    ensures Segments("/") == [""]
    ensures Tokens("/") == [""]
    ensures Legacy.Segments("/") == [""]
  {
    assert "/"[1..] == "";
  }

  /** `NewRoute("/")` builds the root route. */
  lemma RootRoute()
    ensures NewRoute("/") == Success(Root)
  {
    RootSegments();
    NewRouteOf("/", [""], Root);
  }

  /** The root route matches "/" with no parameters, and not "/foo". */
  lemma RootCases()
    ensures Match(Root, "/") == Some(map[])
    ensures Match(Root, "/foo").None?
  {
    RootMatches("/");
    RootMatches("/foo");
    assert "/foo"[1] != '/';
  }

  // ------------------------------------------------------------- /users/:name

  /** `/users/:name`: one literal and one named part. */
  const Users := Route([Literal("users"), Named("name")], false)

  lemma UsersValid()
    ensures Valid(Users)
  {
  }

  lemma UsersParts()
    ensures Users.parts == [Classify("users"), Classify(":name")]
  {
    assert ":name"[1..] == "name";
  }

  lemma UsersPattern()
    ensures Tokens("/users/:name") == ["users", ":name"]
  {
    Join2("users", ":name");
    TokensOf("/users/:name", ["users", ":name"]);
  }

  lemma UsersRoute()
    ensures NewRoute("/users/:name") == Success(Users)
  {
    UsersValid();
    UsersParts();
    UsersPattern();
    NewRouteOf2("/users/:name", "users", ":name", Users);
  }

  lemma UsersPath()
    ensures Segments("/users/mplewis") == ["users", "mplewis"]
  {
    Join2("users", "mplewis");
    TokensOf("/users/mplewis", ["users", "mplewis"]);
  }

  /** `/users/:name` captures the user name ... */
  lemma UsersMatch()
    ensures Valid(Users)
    ensures Match(Users, "/users/mplewis") == Some(map["name" := "mplewis"])
  {
    UsersValid();
    UsersPath();
    var xs := ["users", "mplewis"];
    assert MatchFrom(Users.parts, xs, 1, map[]) == MatchFrom(Users.parts, xs, 2, map["name" := "mplewis"]);
  }

  /** ... refuses the same path with a trailing `/` ... */
  lemma UsersTrailing()
    ensures Valid(Users)
    ensures Match(Users, "/users/mplewis/").None?
  {
    UsersMatch();
    NotAllSlash("/users/mplewis");
    assert "/users/mplewis" + "/" == "/users/mplewis/";
    TrailingSlashSignificant(Users, "/users/mplewis");
  }

  /** A path whose second character is not `/` is not made only of `/`. */
  lemma NotAllSlash(p: string)
    requires |p| > 1 && p[1] != '/'
    ensures !AllOf(p, '/')
  {
  }

  /** ... and refuses the root. */
  lemma UsersRoot()
    ensures Valid(Users)
    ensures Match(Users, "/").None?
  {
    UsersValid();
    RootSegments();
  }

  // ------------------------------------------ /users/:name/posts/:id/comments

  /** `/users/:name/posts/:id/comments`: literals and named parts alternate. */
  const Comments := Route([Literal("users"), Named("name"), Literal("posts"), Named("id"), Literal("comments")], false)

  const CommentsTokens := ["users", ":name", "posts", ":id", "comments"]

  lemma CommentsValid()
    ensures Valid(Comments)
  {
  }

  lemma CommentsParts()
    ensures |Comments.parts| == |CommentsTokens|
    ensures forall i :: 0 <= i < |CommentsTokens| ==> Comments.parts[i] == Classify(CommentsTokens[i])
  {
    assert ":name"[1..] == "name";
    assert ":id"[1..] == "id";
    forall i | 0 <= i < |CommentsTokens| ensures Comments.parts[i] == Classify(CommentsTokens[i]) {
      if i == 0 {} else if i == 1 {} else if i == 2 {} else if i == 3 {} else {}
    }
  }

  lemma CommentsPatternText()
    ensures "/" + ("users" + "/" + ":name" + "/" + "posts" + "/" + ":id" + "/" + "comments")
            == "/users/:name/posts/:id/comments"
  {
  }

  lemma CommentsPattern()
    ensures Tokens("/users/:name/posts/:id/comments") == CommentsTokens
  {
    Join5("users", ":name", "posts", ":id", "comments");
    CommentsPatternText();
    TokensOf("/users/:name/posts/:id/comments", CommentsTokens);
  }

  lemma CommentsRoute()
    ensures NewRoute("/users/:name/posts/:id/comments") == Success(Comments)
  {
    CommentsValid();
    CommentsParts();
    CommentsPattern();
    NewRouteOf("/users/:name/posts/:id/comments", CommentsTokens, Comments);
  }

  const CommentsSegments := ["users", "mplewis", "posts", "123", "comments"]

  lemma CommentsPathText()
    ensures "/" + ("users" + "/" + "mplewis" + "/" + "posts" + "/" + "123" + "/" + "comments")
            == "/users/mplewis/posts/123/comments"
  {
  }

  lemma CommentsPath()
    ensures Segments("/users/mplewis/posts/123/comments") == CommentsSegments
  {
    Join5("users", "mplewis", "posts", "123", "comments");
    CommentsPathText();
    TokensOf("/users/mplewis/posts/123/comments", CommentsSegments);
  }

  /** Both named parts are captured. */
  lemma CommentsMatch()
    ensures Valid(Comments)
    ensures Match(Comments, "/users/mplewis/posts/123/comments")
            == Some(map["name" := "mplewis", "id" := "123"])
  {
    CommentsValid();
    CommentsPath();
    var xs := CommentsSegments;
    var m1 := map["name" := "mplewis"];
    var m2 := map["name" := "mplewis", "id" := "123"];
    assert MatchFrom(Comments.parts, xs, 3, m1) == MatchFrom(Comments.parts, xs, 4, m2);
    assert MatchFrom(Comments.parts, xs, 4, m2) == Some(m2);
    assert MatchFrom(Comments.parts, xs, 1, map[]) == MatchFrom(Comments.parts, xs, 3, m1);
  }

  // ------------------------------------------------------- /input/ and a splat

  /** The pattern `/input/` followed by the splat `next`. */
  const Input := Route([Literal("input"), Splat("next")], true)

  lemma InputValid()
    ensures Valid(Input)
  {
  }

  lemma InputParts()
    ensures Input.parts == [Classify("input"), Classify("*next")]
  {
    assert "*next"[1..] == "next";
  }

  lemma InputPattern()
    ensures Tokens("/input/*next") == ["input", "*next"]
  {
    Join2("input", "*next");
    TokensOf("/input/*next", ["input", "*next"]);
  }

  lemma InputRoute()
    ensures NewRoute("/input/*next") == Success(Input)
  {
    InputValid();
    InputParts();
    InputPattern();
    NewRouteOf2("/input/*next", "input", "*next", Input);
  }

  /** On segments led by `input`, the splat takes `/` and the rest. */
  lemma InputLoop(xs: seq<string>)
    requires |xs| >= 2 && xs[0] == "input"
    ensures MatchFrom(Input.parts, xs, 0, map[]) == Some(map["next" := "/" + Join(xs[1..], '/')])
  {
    InputValid();
    assert InBounds(Input.parts, xs);
  }

  lemma InputHomePath()
    ensures Segments("/input/home") == ["input", "home"]
  {
    Join2("input", "home");
    TokensOf("/input/home", ["input", "home"]);
  }

  lemma HomeCapture()
    ensures "/" + Join(["input", "home"][1..], '/') == "/home"
  {
    assert ["input", "home"][1..] == ["home"];
  }

  /** One segment after `/input` is captured with its leading `/` ... */
  lemma InputHome()
    ensures Valid(Input)
    ensures Match(Input, "/input/home") == Some(map["next" := "/home"])
  {
    InputValid();
    InputHomePath();
    InputLoop(["input", "home"]);
    HomeCapture();
  }

  const LongSegments := ["input", "some", "very", "long", "path"]

  lemma LongPathText()
    ensures "/" + ("input" + "/" + "some" + "/" + "very" + "/" + "long" + "/" + "path")
            == "/input/some/very/long/path"
  {
  }

  lemma InputLongPath()
    ensures Segments("/input/some/very/long/path") == LongSegments
  {
    Join5("input", "some", "very", "long", "path");
    LongPathText();
    TokensOf("/input/some/very/long/path", LongSegments);
  }

  lemma LongCapture()
    ensures "/" + Join(LongSegments[1..], '/') == "/some/very/long/path"
  {
    assert LongSegments[1..] == ["some", "very", "long", "path"];
    Join4("some", "very", "long", "path");
  }

  /** ... and so are several segments, together. */
  lemma InputLong()
    ensures Valid(Input)
    ensures Match(Input, "/input/some/very/long/path") == Some(map["next" := "/some/very/long/path"])
  {
    InputValid();
    InputLongPath();
    InputLoop(LongSegments);
    LongCapture();
  }

  /** A splat needs at least one segment of its own. */
  lemma InputBare()
    ensures Valid(Input)
    ensures Match(Input, "/input").None?
  {
    InputValid();
    InputBarePath();
  }

  /** ... but an empty segment is enough: `/input/` binds the splat to "/". */
  lemma InputSlash()
    ensures Valid(Input)
    ensures Match(Input, "/input/") == Some(map["next" := "/"])
  {
    InputValid();
    InputSlashPath();
    InputLoop(["input", ""]);
    assert ["input", ""][1..] == [""];
    assert "/" + Join([""], '/') == "/";
  }

  lemma InputBarePath()
    ensures Segments("/input") == ["input"]
    ensures !AllOf("/input", '/')
  {
    TokensOf("/input", ["input"]);
    assert "/input"[1] != '/';
  }

  lemma InputSlashText()
    ensures "/input" + "/" == "/input/"
  {
  }

  lemma InputSlashPath()
    ensures Segments("/input/") == ["input", ""]
  {
    InputBarePath();
    SegmentsSnoc("/input");
    InputSlashText();
    assert ["input"] + [""] == ["input", ""];
  }

  /** A splat anywhere but last is refused at construction. */
  lemma MisplacedSplatRefused()
    ensures NewRoute("/*rest/more") == Failure(MisplacedSplat)
  {
    Join2("*rest", "more");
    TokensOf("/*rest/more", ["*rest", "more"]);
    assert Compile("/*rest/more")[0].Splat?;
  }

  // ---------------------------------------------------------- main.go routes

  /** main.go registers `/` and `/foo/:bar`; under the older router these
      compile to the following routes. */
  const LegacyRoot := Legacy.Route([Legacy.Literal("")])
  const LegacyFoo := Legacy.Route([Legacy.Literal("foo"), Legacy.Named("bar")])

  /** The older `NewRoute` on a pattern whose tokens are `xs`. */
  lemma LegacyNewRouteOf(p: string, xs: seq<string>, route: Legacy.Route)
    requires Legacy.Segments(p) == xs && |route.parts| == |xs|
    requires forall i :: 0 <= i < |xs| ==> route.parts[i] == Legacy.Classify(xs[i])
    ensures Legacy.NewRoute(p) == route
  {
  }

  lemma LegacyNewRouteOf2(p: string, a: string, b: string, route: Legacy.Route)
    requires Legacy.Segments(p) == [a, b]
    requires route.parts == [Legacy.Classify(a), Legacy.Classify(b)]
    ensures Legacy.NewRoute(p) == route
  {
    LegacyNewRouteOf(p, [a, b], route);
  }

  lemma LegacyRootRoute()
    ensures Legacy.NewRoute("/") == LegacyRoot
  {
    RootSegments();
    LegacyNewRouteOf("/", [""], LegacyRoot);
  }

  lemma LegacyFooParts()
    ensures LegacyFoo.parts == [Legacy.Classify("foo"), Legacy.Classify(":bar")]
  {
    assert ":bar"[1..] == "bar";
  }

  lemma LegacyFooPattern()
    ensures Legacy.Segments("/foo/:bar") == ["foo", ":bar"]
  {
    Join2("foo", ":bar");
    TokensOf("/foo/:bar", ["foo", ":bar"]);
  }

  lemma LegacyFooRoute()
    ensures Legacy.NewRoute("/foo/:bar") == LegacyFoo
  {
    LegacyFooPattern();
    LegacyFooParts();
    LegacyNewRouteOf2("/foo/:bar", "foo", ":bar", LegacyFoo);
  }

  lemma FooPaths()
    ensures Segments("/foo/x") == ["foo", "x"]
    ensures Legacy.Segments("/foo/x") == ["foo", "x"]
  {
    Join2("foo", "x");
    TokensOf("/foo/x", ["foo", "x"]);
  }

  /** The older router captures `bar` with or without a trailing `/` ... */
  lemma LegacyFooMatch()
    ensures Legacy.Match(LegacyFoo, "/foo/x") == Some(map["bar" := "x"])
    ensures Legacy.Match(LegacyFoo, "/foo/x/") == Some(map["bar" := "x"])
  {
    FooPaths();
    var xs := ["foo", "x"];
    assert Legacy.MatchFrom(LegacyFoo.parts, xs, 1, map[]) == Legacy.MatchFrom(LegacyFoo.parts, xs, 2, map["bar" := "x"]);
    Legacy.TrailingSlashIgnored(LegacyFoo, "/foo/x");
    NotAllSlash("/foo/x");
    assert "/foo/x" + "/" == "/foo/x/";
  }

  /** ... where the current router refuses the trailing `/`. */
  const Foo := Route([Literal("foo"), Named("bar")], false)

  lemma FooMatch()
    ensures Valid(Foo)
    ensures Match(Foo, "/foo/x") == Some(map["bar" := "x"])
    ensures Match(Foo, "/foo/x/").None?
  {
    assert Valid(Foo);
    FooPaths();
    var xs := ["foo", "x"];
    assert MatchFrom(Foo.parts, xs, 1, map[]) == MatchFrom(Foo.parts, xs, 2, map["bar" := "x"]);
    NotAllSlash("/foo/x");
    assert "/foo/x" + "/" == "/foo/x/";
    TrailingSlashSignificant(Foo, "/foo/x");
  }

  /** `/foo/x` has two segments, so the root route does not match it. */
  lemma LegacyRootMisses()
    ensures Legacy.Match(LegacyRoot, "/foo/x").None?
  {
    FooPaths();
  }

  /** Dispatch over main.go's table: `/foo/x` runs the second handler with
      `bar` bound, or fails when the certificate is malformed; an anonymous
      visitor is named "anonymous". */
  lemma LegacyDispatch()
    ensures Legacy.ServeGemini([LegacyRoot, LegacyFoo], "/foo/x", Legacy.Resolved(None))
            == Legacy.Invoke(1, map["bar" := "x"], None)
    ensures Legacy.ServeGemini([LegacyRoot, LegacyFoo], "/foo/x", Legacy.Malformed) == Legacy.InternalError
    ensures Legacy.Name(None) == "anonymous"
  {
    LegacyFooMatch();
    LegacyRootMisses();
    SecondRouteRuns(LegacyRoot, LegacyFoo, "/foo/x", None, map["bar" := "x"]);
  }

  /** With two routes of which only the second matches, the second runs. */
  lemma SecondRouteRuns(r0: Legacy.Route, r1: Legacy.Route, path: string,
                        user: Option<Legacy.User>, m: map<string, string>)
    requires Legacy.Match(r0, path).None? && Legacy.Match(r1, path) == Some(m)
    ensures Legacy.ServeGemini([r0, r1], path, Legacy.Resolved(user)) == Legacy.Invoke(1, m, user)
    ensures Legacy.ServeGemini([r0, r1], path, Legacy.Malformed) == Legacy.InternalError
  {
    var rs := Legacy.Results([r0, r1], path);
    assert rs[0].None? && rs[1] == Some(m);
    assert FirstSome(rs, 1) == Some(1);
  }
}
