# gemser request routing, in Dafny

This project models the request-routing core of gemser, a small server for
the Gemini protocol, and proves properties of the model. It covers both
routers in the repository:

- **The current router** (`router/route.go`, `router/router.go`).
  - A pattern such as `/users/:name/files/*rest` compiles into parts: literal
    tokens, `:key` named parts, and at most one `*key` splat, which must come
    last.
  - A request path matches a route when its `/`-separated segments line up
    with those parts. A named part captures one segment. The splat captures
    `/` followed by all remaining segments.
  - The router tries its routes in registration order. The first match
    resolves the client identity and runs that route's handler with the path
    parameters, the flattened query and the raw query string.
  - A malformed certificate on a matched path is an internal error. No match
    at all is not-found.
- **The older router** kept in `main.go`. It has no splats, and it trims `/`
  from both ends of the request path as well as the pattern. Its table holds
  `/` and `/foo/:bar`.

Go's `strings.Split`, `Join`, `Trim`, `TrimLeft` and `HasPrefix` are modelled
on `string` (a sequence of characters) in `gostrings.dfy`, with their edge
cases. For example, `Split("", "/")` is `[""]`, and `TrimLeft` keeps trailing
separators. Handlers are identified by the index of their route. The client
identity, which gemser derives from the certificate, is an input: either
`Resolved(user)` or `Malformed`.

Files:

- `wrappers.dfy`: `Option`, `Result`, and a generic first-`Some` scan.
- `gostrings.dfy`: the Go string functions and their laws.
- `route.dfy` (module `Routes`): patterns, `NewRoute` and `Match`.
- `router.dfy` (module `Router`): `ServeGemini` and `flattenQueryParams`.
- `legacy.dfy` (module `Legacy`): the router in `main.go`.
- `versions.dfy`: where the two routers agree.
- `cases.dfy`: the concrete expectations of `gemser_test.go` and `main.go`,
  worked out on the model.

Two behaviours of the Go code are worth spelling out:

- **Splat minimum length.** A splat route needs at least as many segments as
  it has parts, so the splat gets one segment of its own, possibly an empty
  one. `/input/` therefore matches `/input/*next` with `next = "/"`
  (`RouteCases.InputSlash`), while `/input` does not.
- **The root.** The root pattern compiles to a single empty literal, and the
  path `/` splits into one empty segment, so both are one-element lists. The root
  route matches exactly the paths made only of `/` (`Routes.RootMatches`).

## Model

| member | source | states |
|---|---|---|
| Wrappers.FirstSome | router/router.go:35-39 | the index returned is the first whose result is present; there is none exactly when no result is present |
| Wrappers.AppendedIsFallback | router/router.go:35-39 | appending one more result leaves an earlier find unchanged and is found exactly when nothing before it is |
| GoStrings.TrimLeft | router/route.go:56 | only separators are dropped, all of them from the front, and what remains does not start with one |
| GoStrings.TrimLeftAt | router/route.go:56 | what `TrimLeft` keeps is a suffix of its input: its characters are the input's last ones, in order |
| GoStrings.Trim | router/route.go:25 | the result is no longer than the input and neither starts nor ends with the cut character |
| GoStrings.TrimPadded | router/route.go:25 | `Trim` keeps a contiguous middle stretch of its input, and everything it cuts is the cut character |
| GoStrings.Split | router/route.go:25 | one piece more than there are separators, no piece holds a separator, and joining the pieces gives back the input |
| GoStrings.SplitJoin | router/route.go:71 | splitting the join of a non-empty list of separator-free pieces recovers the list |
| GoStrings.SplitAppend | router/route.go:56 | splitting around one separator splits each side independently |
| GoStrings.TrailingSeparator | router/route.go:56 | one more trailing separator adds exactly one empty last piece |
| GoStrings.TrimLeftEmpty | router/route.go:56 | `TrimLeft` leaves nothing exactly when the string is all separators |
| GoStrings.TrimSnoc | main.go:77 | `Trim` ignores one more trailing cut character |
| GoStrings.TrimNoTrailing | main.go:77 | on a string not ending in the cut character, `Trim` and `TrimLeft` agree |
| Routes.Classify | router/route.go:27-35 | the part renders back to its token; it is named or a splat exactly when the token starts with `:` or `*` |
| Routes.Compile | router/route.go:25-35 | one part per token of the trimmed pattern, in order, each rendering back to its token with the kind its marker gives |
| Routes.CompileRoundTrip | router/route.go:25-35 | rendering the parts and joining them with `/` gives back the trimmed pattern |
| Routes.ScanSplats | router/route.go:37-45 | the scan fails exactly when a splat sits before the last part, and otherwise reports whether the last part is a splat |
| Routes.NewRoute | router/route.go:24-53 | construction fails exactly on a misplaced splat; otherwise the route holds the compiled parts, is valid, and ends in a splat exactly when its last part is one |
| Routes.MatchFrom | router/route.go:67-79 | the comparison loop succeeds exactly when every literal part from the current position on equals its segment |
| Routes.MatchFromCaptures | router/route.go:67-79 | a successful loop adds exactly the keys bound from that position on, keeps earlier values of other keys, and leaves each key with the capture of its last binder |
| Routes.Match | router/route.go:55-80 | a path matches exactly when its segment count obeys the length rule (equal, or at least as many for a splat route) and every literal agrees |
| Routes.MatchCaptures | router/route.go:55-80 | on a match the parameters hold exactly the route's keys, each with the segment, or for the splat `/` plus the rest, under its last binder |
| Routes.RootMatches | router/route.go:55-80 | the root route matches exactly the paths made only of `/`, with no parameters |
| Routes.TrailingSlashSignificant | router/route.go:56-65 | for a route without a splat and a path not made only of `/`, a matched path with one more `/` no longer matches |
| Routes.SplatTrailingSlash | router/route.go:56-72 | for a splat route and a path not made only of `/`, a matched path with one more `/` still matches, and only the splat's capture changes, gaining a trailing `/` |
| Routes.SegmentsSnoc | router/route.go:56 | one more `/` after a path that is not all `/` adds one empty last segment |
| Routes.AcceptsSnoc | router/route.go:57-60 | a splat route that accepts some segments also accepts them plus one empty segment |
| Routes.SplatCapturesSnoc | router/route.go:67-72 | capture maps over segments and over the same segments plus an empty one differ only by a `/` on the splat's value |
| Routes.CaptureSnoc | router/route.go:71 | a splat's capture over one more empty segment ends in one more `/` |
| Routes.LiteralRouteMatches | router/route.go:55-80 | a route of literals only matches exactly the paths whose segments are its literals, capturing nothing |
| Router.FlattenQueryParams | router/router.go:61-67 | the result has the same keys as the query, each bound to its first value, whatever order the keys are visited in |
| Router.ServeGemini | router/router.go:34-59 | not-found exactly when no route matches; internal error exactly when one matches and the identity is malformed; otherwise the first matching route runs, with its captures, the resolved user, the flattened query and the raw query string |
| Router.EarlierRouteWins | router/router.go:35-39 | when two routes match, the handler that runs is never one registered after the earlier of them |
| Router.NotFoundIgnoresIdentity | router/router.go:36-47 | whether a path is found does not depend on the certificate |
| Router.AppendedRouteIsFallback | router/router.go:30-59 | a route registered last never takes a request from the earlier routes, and it is the one tried exactly when none of them matches |
| Legacy.Classify | main.go:60-72 | the part renders back to its token, and it is named exactly when the token starts with `:` |
| Legacy.NewRoute | main.go:57-74 | one part per token of the trimmed pattern, each rendering back to it, named exactly for `:` tokens |
| Legacy.MatchFrom | main.go:81-90 | the loop succeeds exactly when every literal part from the current position on equals its segment |
| Legacy.MatchFromCaptures | main.go:81-90 | a successful loop adds exactly the keys named from that position on, keeps other values, and each key holds the segment under its last binder |
| Legacy.Match | main.go:76-91 | a path matches exactly when it has as many segments as the route has parts and every literal agrees |
| Legacy.MatchCaptures | main.go:76-91 | on a match the parameters hold exactly the named keys, each with the segment under its last binder |
| Legacy.TrailingSlashIgnored | main.go:77 | a path with one more trailing `/` matches in exactly the same way |
| Legacy.Name | main.go:139-144 | a present user is shown by its common name and an absent one as "anonymous"; the name is "anonymous" exactly when there is no user or the user's common name is "anonymous" |
| Legacy.ServeGemini | main.go:93-115 | not-found exactly when no route matches; internal error exactly when one matches under a malformed identity; otherwise the first matching route runs with its captures and the user |
| Versions.SameCompile | router/route.go:24-53 | on a pattern without `*` tokens, the current `NewRoute` succeeds and builds the parts the older one builds |
| Versions.SameMatchFrom | router/route.go:67-79 | the two comparison loops give the same result on a splat-free route |
| Versions.SameMatch | main.go:76-91 | on a path not ending in `/`, both routers give the same match and the same captures |
| RouteCases.RootRoute | gemser_test.go:30 | `NewRoute("/")` builds the root route |
| RouteCases.RootCases | gemser_test.go:30-33 | `/` matches `/` with no parameters and does not match `/foo` |
| RouteCases.UsersRoute | gemser_test.go:34 | `/users/:name` compiles to a literal and a named part |
| RouteCases.UsersMatch | gemser_test.go:35 | `/users/mplewis` matches with `name` bound to `mplewis` |
| RouteCases.UsersTrailing | gemser_test.go:36 | `/users/mplewis/` does not match |
| RouteCases.UsersRoot | gemser_test.go:37 | `/` does not match `/users/:name` |
| RouteCases.CommentsRoute | gemser_test.go:39 | `/users/:name/posts/:id/comments` compiles to alternating literals and named parts |
| RouteCases.CommentsMatch | gemser_test.go:40-44 | the comments path binds both `name` and `id` |
| RouteCases.InputRoute | gemser_test.go:46 | `/input/*next` compiles to a literal and a final splat |
| RouteCases.InputHome | gemser_test.go:47-51 | `/input/home` binds `next` to `/home` |
| RouteCases.InputLong | gemser_test.go:52-56 | `/input/some/very/long/path` binds `next` to `/some/very/long/path` |
| RouteCases.InputBare | gemser_test.go:57-60 | `/input` does not match the splat route |
| RouteCases.InputSlash | router/route.go:57-60 | `/input/` matches the splat route with `next` bound to `/` |
| RouteCases.MisplacedSplatRefused | router/route.go:39-42 | `NewRoute("/*rest/more")` fails with the misplaced-splat error |
| RouteCases.LegacyRootRoute | main.go:182 | the older `NewRoute("/")` builds a single empty literal |
| RouteCases.LegacyFooRoute | main.go:186 | the older `NewRoute("/foo/:bar")` builds a literal and a named part |
| RouteCases.LegacyFooMatch | main.go:76-91 | the older router binds `bar` to `x` for both `/foo/x` and `/foo/x/` |
| RouteCases.FooMatch | router/route.go:55-80 | the current router binds `bar` for `/foo/x` but refuses `/foo/x/` |
| RouteCases.LegacyDispatch | main.go:93-115 | over the table of `main.go`, `/foo/x` runs the second handler with `bar` bound; under a malformed certificate it is an internal error; a visitor without a certificate is named `anonymous` |

## Left out

- Transport and rendering: the Gemini listener, TLS setup, `main`, `render`,
  `renderFunc` and the `ResponseWriter`. Handlers are indices into the route
  list, and the two status headers the router writes itself are the outcomes
  `NotFound` and `InternalError`.
- Client identity: `getUser` and `user.Get` (X.509 parsing) and `hash`
  (SHA-256, base64) are cryptography. The identity is an input, either
  `Resolved(user)` or `Malformed`, and the `log.Println` of the error is not
  modelled. user/user.go is not part of this model.
- URL parsing: the path and the query (`rq.URL.Path`, `rq.URL.Query()`,
  `rq.URL.RawQuery`) are inputs. The parsed query is a map whose value lists
  are all non-empty, which is what Go's parser produces and what
  `flattenQueryParams`'s `v[0]` relies on. The raw request is not carried:
  neither router.go's `Request.Raw` nor main.go's `RequestParams.Req`
  (main.go:33) appears in the `Invoke` outcomes.
- `NewRouter` is the `Router` datatype's constructor, and the route handler
  field is left out (see above).
- Errors: the text of the misplaced-splat error is not kept, only its kind.
- Router.AppendedRouteIsFallback: states the fallback in terms of the
  outcomes' kinds and the index of the route that runs. The full equation
  for the outcome is `Wrappers.AppendedIsFallback` on the per-route results.
