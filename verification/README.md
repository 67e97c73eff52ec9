# dirtyroute in Dafny

A model of `dirtyroute`, a small Go controller/action URL router, and proofs
about it. A request (content-type header, URL path, HTTP method) goes through
four pure steps:

1. a **content-type gate**: an empty header counts as `Text/Plain`, and the
   request goes on only if its lower-cased type equals some lower-cased
   allow-list entry;
2. the **path parser** (`GetParams`): splits the path on `/`, skips the first
   component, takes the second as the controller name and the rest as segments,
   each empty component becoming the index marker `{/}`. No segments at all
   become `["{/}"]`;
3. the **controller lookup** (`GetController`): the first registered controller
   with that name;
4. the **action scan**: the controller's actions are tried in registration
   order. `Action.Matches` compares a pattern with the segments element by
   element. An element containing `{i||s}` accepts anything. One containing
   `{i}` accepts what `strconv.Atoi` parses, one containing `{s}` accepts what
   it rejects, and any other element must equal the segment. Each matching
   action is put to the auth handler, which either lets the handler run, stops
   dispatch through the error handler, or lets the scan continue.

`Route` returns an `Outcome`: which error the error handler would be called
with, or which action's handler would be called with which segments. So "at
most one handler runs per request" holds by construction. `Route` is a pure
function, so routing the same request twice against the same router gives the
same outcome.

Files:

- `go_errors.dfy` (`GoErrors`): Go's nil/non-nil `error` and `(T, error)` returns.
- `go_strings.dfy` (`GoStrings`): `strings.Split` for a one-character separator,
  with `Join` as its inverse. Also `strings.Contains` and ASCII `strings.ToLower`.
- `go_strconv.dfy` (`GoStrconv`): `strconv.Atoi` for a 64-bit `int`, with `Itoa`
  as its inverse.
- `dirtyroute.dfy` (`DirtyRoute`): the data model and the router's operations.
- `dirtyroute_props.dfy` (`DirtyRouteProps`): the properties.

Behaviour of the code that the model keeps, although a tagged-union reading of
the pattern language would not predict it:

- Token kinds are found by substring: `x{i}y` is an int wildcard. The pattern
  element `{i}` also accepts the segment `{i}` literally.
- `{/}` is an ordinary literal in patterns. A `{s}` element accepts it, because
  `Atoi` rejects it.
- An action with an empty pattern matches every request, whatever its method:
  0 hits equal length 0.
- The path `/` names the controller `{/}`. A path with no `/` at all names the
  empty controller.
- An element holding both `{i}` and `{s}` accepts every segment, since one of
  the two tests always holds.

## Model

| member | source | states |
|---|---|---|
| `DirtyRoute.Matches` | dirtyroute.go:116-133 | An empty pattern matches every request. A non-empty pattern fails when the segment count or the method differs. When both agree it succeeds iff every position is accepted by its element. Failure carries "Pattern did not match". |
| `DirtyRoute.ElementMatches` | dirtyroute.go:123-128 | The per-position test. Every element accepts its own text, and an element holding both `{i}` and `{s}` accepts every segment. |
| `DirtyRoute.Hits` | dirtyroute.go:118-129 | The hit count never exceeds the pattern length, and it equals the length iff every position is accepted. |
| `DirtyRouteProps.LiteralMatchesOnlyItself` | dirtyroute.go:125-128 | An element with no `{` accepts exactly the segment equal to it. |
| `DirtyRouteProps.AnyArgMatchesEverything` | dirtyroute.go:126 | An element containing `{i||s}` accepts every segment. |
| `DirtyRouteProps.IntArgMatchesIntegers` | dirtyroute.go:123-127 | The element `{i}` accepts exactly the segments `Atoi` accepts, plus its own text. |
| `DirtyRouteProps.StringArgMatchesNonIntegers` | dirtyroute.go:123-128 | The element `{s}` accepts exactly the segments `Atoi` rejects, the index marker `{/}` among them. |
| `DirtyRouteProps.IntAndStringArgsDisjoint` | dirtyroute.go:123-128 | Apart from the two marker texts, every segment is accepted by exactly one of `{i}` and `{s}`. |
| `DirtyRouteProps.IndexParamMatchesOnlyIndex` | dirtyroute.go:125-128 | The pattern element `{/}` accepts only the segment `{/}`. |
| `DirtyRouteProps.MarkerFacts` | dirtyroute.go:123-128 | The marker texts hold only their own marker, and none of them nor `{/}` is an integer. |
| `DirtyRouteProps.NoBraceNoMarker` | dirtyroute.go:126-128 | A string without `{` contains no marker. |
| `DirtyRoute.GetParams` | dirtyroute.go:142-154 | The segments are never empty and never contain an empty string. The controller is empty iff the path has no `/`, and such a path (`*` included) gives exactly the empty controller with segments `["{/}"]`. |
| `DirtyRoute.IndexIfEmpty` | dirtyroute.go:147 | An empty component becomes `{/}`, any other is kept, and the result is never empty. |
| `DirtyRoute.MapIndex` | dirtyroute.go:145-149 | Component by component and in place, empties become `{/}` and the rest are kept. |
| `DirtyRouteProps.GetParamsControllerOnly` | dirtyroute.go:142-154 | A path with one `/` gives the component after it as controller, `{/}` if empty, and the segments `["{/}"]`. |
| `DirtyRouteProps.GetParamsWithSegments` | dirtyroute.go:142-154 | A path `p/c/rest`, with no `/` in `p` or `c`, gives controller `c` (`{/}` if empty) and the split of `rest` in order, empties mapped to `{/}`. |
| `DirtyRouteProps.SplitPath` | dirtyroute.go:144 | A path `p/c/rest` splits into `p`, `c`, then the pieces of `rest`. |
| `DirtyRouteProps.GetParamsOfParts` | dirtyroute.go:145-152 | With three or more split components, the controller is component 1 and the segments are components 2.., each mapped. |
| `DirtyRouteProps.GetParamsTrailingSlash` | dirtyroute.go:142-154 | `/users` and `/users/` both parse to controller `users` with segments `["{/}"]`. |
| `DirtyRouteProps.GetParamsTwoSegments` | dirtyroute.go:142-154 | A path `/c/x/y` of slash-free components, such as `/users/42/edit`, parses to controller `c` with segments `[x, y]`, empties mapped to `{/}`. |
| `DirtyRouteProps.GetParamsRootAndEmpty` | dirtyroute.go:146-152 | `/` names controller `{/}`, because the replacement precedes the controller assignment. The empty path names the empty controller. |
| `DirtyRoute.GetController` | dirtyroute.go:157-166 | It succeeds iff some controller has the name, and then returns the first such controller in registration order. Otherwise it fails with "Controller not found". |
| `DirtyRouteProps.GetControllerAppend` | dirtyroute.go:160-162 | Appending a controller leaves every successful lookup unchanged. |
| `DirtyRoute.RegisterController` | dirtyroute.go:43-45 | The controller becomes the last one. The earlier controllers, the allow-list and the auth handler are unchanged. |
| `DirtyRouteProps.RegisterControllerKeepsLookups` | dirtyroute.go:43-45 | A later registration never shadows an earlier one with the same name, and the new name becomes findable. |
| `DirtyRoute.NewRouter` | dirtyroute.go:29-35 | A new router has no controllers, the given allow-list, and an auth handler that allows every action. |
| `DirtyRoute.DefaultAuth` | dirtyroute.go:181-187 | The default auth reply lets every action run: status 0 and a nil error. |
| `DirtyRoute.Scan` | dirtyroute.go:97-110 | An action the scan runs exists, matches the request, and its auth reply allows it. |
| `DirtyRouteProps.ScanSettlesOnFirstDecisive` | dirtyroute.go:97-110 | The scan ends at the first action that matches and whose auth reply either allows it or asks for error handling with an error. It runs that action, or stops with its status and error. |
| `DirtyRouteProps.ScanRunIff` | dirtyroute.go:97-104 | The scan runs action `k` iff `k` is the first decisive action and its auth reply allows it. |
| `DirtyRouteProps.ScanExhaustedIff` | dirtyroute.go:97-110 | The scan runs out of actions iff none is decisive. |
| `DirtyRouteProps.ScanAppendKeepsDecision` | dirtyroute.go:97-110 | Appending an action never changes a decision the earlier actions already reach. |
| `DirtyRoute.RegisterAction` | dirtyroute.go:59-61 | The action becomes the last one. The name and the earlier actions are unchanged. |
| `DirtyRouteProps.RegisterActionKeepsDecisions` | dirtyroute.go:59-61 | Registering an action keeps every request the controller already decided going where it went. |
| `DirtyRouteProps.SharedPatternFallsThrough` | dirtyroute.go:97-109 | When the first of two matching actions gets a reply that neither allows nor halts, the second is tried and runs if allowed. |
| `DirtyRouteProps.AuthSeesActionIdentity` | dirtyroute.go:100 | The auth handler gets the action itself, so a second registration that differs only in identity can be let through after the first is turned away. |
| `DirtyRoute.ContentTypeAllowed` | dirtyroute.go:72-75 | The type passes iff it equals some allow-list entry once both are lower-cased. |
| `DirtyRouteProps.ContentTypeIgnoresCase` | dirtyroute.go:74 | `application/JSON` passes an allow-list holding `application/json`. |
| `DirtyRoute.EffectiveContentType` | dirtyroute.go:68-69 | The effective type is the header when present and `Text/Plain` otherwise, so it is never empty. |
| `DirtyRouteProps.EmptyHeaderIsTextPlain` | dirtyroute.go:68-69 | A request without a content type is routed exactly like one with `Text/Plain`. |
| `DirtyRouteProps.RouteContentTypeGate` | dirtyroute.go:67-82 | A request ends in 422 "Unsupported content type" iff its effective type equals no allow-list entry up to case. No lookup or handler call happens then. |
| `DirtyRouteProps.RouteControllerNotFoundIff` | dirtyroute.go:88-93 | An accepted request ends in 404 "Controller not found" iff no controller has the parsed name. |
| `DirtyRouteProps.RouteWithoutControllers` | dirtyroute.go:88-93 | A fresh router with no controllers answers every accepted request with 404 "Controller not found". |
| `DirtyRoute.Route` | dirtyroute.go:64-113 | Unsupported outcomes carry 422, not-found outcomes carry 404, and a handler receives exactly the parsed segments. |
| `DirtyRouteProps.RouteHandledIff` | dirtyroute.go:97-104 | Handler `k` runs with `segs` iff the type is accepted, the controller is found, `k` is its first decisive action and is allowed, and `segs` are the parsed segments. |
| `DirtyRouteProps.RouteAuthFailedAt` | dirtyroute.go:105-108 | When the first decisive action's reply does not allow it, the request ends with that reply's status and error. |
| `DirtyRouteProps.RouteFellThroughIff` | dirtyroute.go:97-112 | Evaluating `err.Error()` on the nil `err` at the final call is reached iff the type is accepted, the controller exists, and none of its actions is decisive. |
| `DirtyRouteProps.DefaultAuthFirstMatchWins` | dirtyroute.go:97-104 | With the default auth handler, handler `k` runs iff action `k` is the first matching action. |
| `DirtyRouteProps.FellThroughExample` | dirtyroute.go:112 | A controller with no actions takes `/users` to the final call, whose argument dereferences the nil error. |
| `DirtyRoute.RouteCorrected` | dirtyroute.go:112 | It never ends in the nil-error panic. Where `Route` would, it gives 404 "Pattern did not match"; everywhere else it agrees with `Route`. |
| `DirtyRouteProps.RouteCorrectedNoActionMatchedIff` | dirtyroute.go:97-112 | The corrected dispatch answers 404 "Pattern did not match" iff the type is accepted, the controller exists, and none of its actions is decisive. |
| `DirtyRouteProps.CorrectedExample` | dirtyroute.go:112 | The corrected dispatch answers that same request with 404 "Pattern did not match". |
| `GoStrings.Split` | dirtyroute.go:144 | There is always at least one piece. |
| `GoStrings.JoinSplit` | dirtyroute.go:144 | Joining the pieces with the separator restores the path. |
| `GoStrings.SplitJoin` | dirtyroute.go:144 | Splitting a join of separator-free pieces gives the pieces back. |
| `GoStrings.SplitAfterPiece` | dirtyroute.go:144 | A separator-free piece followed by the separator splits off as the first piece, and the rest splits on its own. |
| `GoStrings.SplitPiecesLackSeparator` | dirtyroute.go:144 | No piece contains the separator. |
| `GoStrings.SplitCons` | dirtyroute.go:144 | The split of a string given as first character and rest: a leading separator opens an empty piece, and any other character joins the first piece. |
| `GoStrings.SplitWithoutSeparator` | dirtyroute.go:144 | A string without the separator is one piece. |
| `GoStrings.SplitCount` | dirtyroute.go:144 | There is one more piece than there are separators. |
| `GoStrings.Contains` | dirtyroute.go:126-128 | True iff the marker occurs at some position of the element. |
| `GoStrings.ToLower` | dirtyroute.go:74 | The length is kept, no ASCII capital remains, and other characters are unchanged. |
| `GoStrings.ToLowerIdempotent` | dirtyroute.go:74 | Lower-casing twice equals lower-casing once. |
| `GoStrings.ToLowerEqualIff` | dirtyroute.go:74 | Two strings lower-case alike iff they agree position by position up to ASCII case. |
| `GoStrconv.Atoi` | dirtyroute.go:123 | A string is accepted iff it is an optional `+` or `-` followed by one or more digits whose signed value lies in the 64-bit range, and then that signed value is the result. |
| `GoStrconv.AtoiOfPlusDigits` | dirtyroute.go:123 | `Atoi` reads a plus sign and a non-empty run of digits as their value when it fits in 64 bits. |
| `GoStrconv.AtoiItoa` | dirtyroute.go:123 | `Atoi` parses the decimal text of every 64-bit integer back to that integer. |
| `GoStrconv.NatDigitsValue` | dirtyroute.go:123 | The digits of a natural number read back as that number. |
| `GoStrconv.AtoiOfDigits` | dirtyroute.go:123 | `Atoi` reads a non-empty run of digits as its value when that value fits in 64 bits. |
| `GoStrconv.AtoiOfNegatedDigits` | dirtyroute.go:123 | `Atoi` reads a minus sign and a non-empty run of digits as the negated value when it fits in 64 bits. |
| `GoStrconv.AtoiAcceptsOnlyDigits` | dirtyroute.go:123 | Every character of an accepted string after the first is a digit. |
| `GoStrconv.NotIntWithForeignChar` | dirtyroute.go:123 | A string holding a character that is neither a digit nor a sign, such as `{`, is not an integer. |

## Findings

| source | as written | input that shows it | evidently intended | confidence | as-written member | corrected member |
|---|---|---|---|---|---|---|
| dirtyroute.go:112 | When no action decides the request, the final error-handler call passes `err.Error()` on the function-level `err`. That `err` is always nil here: the lookup at line 89 succeeded, and line 100 declares a new `err` with `:=` inside the loop. Evaluating `err.Error()` on the nil error panics before the error handler is called. | Allow-list `["text/plain"]`, no content-type header, one controller `users` with no actions, path `/users`, method `GET` | Answer 404 through the error handler with a "pattern did not match" message | high (not executed) | `DirtyRouteProps.FellThroughExample` | `DirtyRoute.RouteCorrected` |

`Route` keeps the code as written, so every property above describes the
source. `RouteCorrected` agrees with it on every other outcome, so those
properties carry over unchanged.

## Left out

- HTTP plumbing is left out: `http.ResponseWriter`, `*http.Request`, header and URL access. The content-type header, the path and the method are plain inputs, and an absent header is the empty string.
- Handler bodies are left out. A handler call appears as `Handled(k, segments)`, with `k` the action's position in the found controller.
- The error handler is left out, `defaultErrorHandler` included. It only writes a response (I/O), and it prints `args[1]` twice. Its call appears as an outcome carrying the status and the message.
- The `string(int)` conversion of the status passed to the error handler is not modelled. It yields a one-rune string, not decimal text. Statuses are kept as integers.
- `DirtyRoute.Router`: the auth handler is a pure function of the action. The action's `id` field stands for the `*Action` pointer it receives, so distinct registrations can be told apart. A Go auth handler also reads the request, which is fixed during one dispatch, and it may have side effects or vary between calls; those are not modelled.
- GoStrings.ToLower: maps only ASCII capitals, because Unicode case mapping is outside this model. Allow-lists and headers with non-ASCII capitals may compare differently from Go.
- GoStrconv.Atoi: assumes a 64-bit `int`. Its error values are not modelled beyond nil versus non-nil.
- Nil pointers other than the error at line 112 are not modelled: a nil `Options`, or a nil controller or action in the slices. The registry holds values.
- Concurrent use of the router is not modelled. The registry is an immutable value built by `NewRouter`, `RegisterController` and `RegisterAction`, which are plain appends.
