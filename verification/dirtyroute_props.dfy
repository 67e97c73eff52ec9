/** Properties of the router model: what the path parser yields, what each
    kind of pattern element accepts, which action the scan settles on, and
    how each stage of `Route` decides the outcome. */
module DirtyRouteProps {
  import opened GoErrors
  import opened GoStrings
  import opened GoStrconv
  import opened DirtyRoute

  /* ---------------------------------------------------------- Path parser */

  /** The split of a path whose first two components hold no slash. */
  lemma SplitPath(prefix: string, c: string, rest: string)
    requires '/' !in prefix && '/' !in c
    ensures Split(prefix + ['/'] + (c + ['/'] + rest), '/') == [prefix, c] + Split(rest, '/')
  {
    SplitAfterPiece(prefix, '/', c + ['/'] + rest);
    SplitAfterPiece(c, '/', rest);
  }

  /** `GetParams` read off a split with at least three components. */
  lemma GetParamsOfParts(path: string, c: string, rest: seq<string>)
    requires |rest| >= 1
    requires Split(path, '/') == [Split(path, '/')[0], c] + rest
    ensures GetParams(path) == Params(IndexIfEmpty(c), MapIndex(rest))
  {
    assert Split(path, '/')[2..] == rest;
  }

  /** A path with exactly one '/' names only a controller: the part after
      the slash (the index marker if empty), with the single index segment. */
  lemma GetParamsControllerOnly(prefix: string, c: string)
    requires '/' !in prefix && '/' !in c
    ensures GetParams(prefix + "/" + c) == Params(IndexIfEmpty(c), [IndexParam])
  {
    var path := prefix + ['/'] + c;
    assert prefix + "/" + c == path;
    SplitAfterPiece(prefix, '/', c);
    SplitWithoutSeparator(c, '/');
    assert Split(path, '/') == [prefix, c];
  }

  /** A path with two or more slashes: the second component is the
      controller and the remaining components, in order, are the segments,
      each empty one replaced by the index marker. */
  lemma GetParamsWithSegments(prefix: string, c: string, rest: string)
    requires '/' !in prefix && '/' !in c
    ensures GetParams(prefix + "/" + c + "/" + rest) == Params(IndexIfEmpty(c), MapIndex(Split(rest, '/')))
  {
    var path := prefix + ['/'] + (c + ['/'] + rest);
    assert prefix + "/" + c + "/" + rest == path;
    SplitPath(prefix, c, rest);
    GetParamsOfParts(path, c, Split(rest, '/'));
  }

  /** A trailing slash changes nothing: "/users" and "/users/" both name
      controller "users" with the single index segment. */
  lemma GetParamsTrailingSlash()
    ensures GetParams("/users") == Params("users", [IndexParam])
    ensures GetParams("/users/") == Params("users", [IndexParam])
  {
    GetParamsControllerOnly("", "users");
    assert "" + "/" + "users" == "/users";
    GetParamsWithSegments("", "users", "");
    assert "" + "/" + "users" + "/" + "" == "/users/";
    assert MapIndex(Split("", '/')) == [IndexParam];
  }

  /** A path "/c/x/y" with slash-free components names controller `c` with
      segments `x`, `y`, as in "/users/42/edit"; empty components become the
      index marker. */
  lemma GetParamsTwoSegments(c: string, x: string, y: string)
    requires '/' !in c && '/' !in x && '/' !in y
    ensures GetParams("/" + c + "/" + x + "/" + y) == Params(IndexIfEmpty(c), [IndexIfEmpty(x), IndexIfEmpty(y)])
  {
    var rest := x + ['/'] + y;
    assert Split(rest, '/') == [x, y] by {
      SplitAfterPiece(x, '/', y);
      SplitWithoutSeparator(y, '/');
    }
    assert "/" + c + "/" + x + "/" + y == "" + "/" + c + "/" + rest;
    GetParamsWithSegments("", c, rest);
  }

  /** The root path names the index marker as its controller; a path with
      no slash names the empty controller. */
  lemma GetParamsRootAndEmpty()
    ensures GetParams("/") == Params(IndexParam, [IndexParam])
    ensures GetParams("") == Params("", [IndexParam])
  {
    GetParamsControllerOnly("", "");
    assert "" + "/" + "" == "/";
  }

  /* ------------------------------------------------------------- Matching */

  /** A string with no '{' contains no string that starts with one. */
  lemma NoBraceNoMarker(p: string, marker: string)
    requires forall i :: 0 <= i < |p| ==> p[i] != '{'
    requires |marker| > 0 && marker[0] == '{'
    ensures !Contains(p, marker)
  {
    forall i | 0 <= i && i + |marker| <= |p| ensures !OccursAt(p, marker, i) {
      assert p[i..i + |marker|][0] == p[i];
    }
  }

  /** A pattern element without a '{' is a literal: it accepts exactly the
      segment equal to it. */
  lemma LiteralMatchesOnlyItself(p: string, seg: string)
    requires forall i :: 0 <= i < |p| ==> p[i] != '{'
    ensures ElementMatches(p, seg) <==> p == seg
  {
    NoBraceNoMarker(p, IntArg);
    NoBraceNoMarker(p, StringArg);
    NoBraceNoMarker(p, AnyArg);
  }

  /** An element containing the any-marker accepts every segment. */
  lemma AnyArgMatchesEverything(p: string, seg: string)
    requires Contains(p, AnyArg)
    ensures ElementMatches(p, seg)
  {
  }

  lemma MarkerFacts()
    ensures Contains(IntArg, IntArg) && !Contains(IntArg, StringArg) && !Contains(IntArg, AnyArg)
    ensures !Contains(StringArg, IntArg) && Contains(StringArg, StringArg) && !Contains(StringArg, AnyArg)
    ensures Contains(AnyArg, AnyArg)
    ensures !Contains(IndexParam, IntArg) && !Contains(IndexParam, StringArg) && !Contains(IndexParam, AnyArg)
    ensures !IsInt(IntArg) && !IsInt(StringArg) && !IsInt(IndexParam)
  {
    assert OccursAt(IntArg, IntArg, 0);
    assert OccursAt(StringArg, StringArg, 0);
    assert OccursAt(AnyArg, AnyArg, 0);
    assert IntArg[0] == '{' && StringArg[0] == '{' && IndexParam[0] == '{';
    NotIntWithForeignChar(IntArg, 0);
    NotIntWithForeignChar(StringArg, 0);
    NotIntWithForeignChar(IndexParam, 0);
  }

  /** The bare int-marker accepts exactly the segments `Atoi` accepts, plus
      its own text. */
  lemma IntArgMatchesIntegers(seg: string)
    ensures ElementMatches(IntArg, seg) <==> IsInt(seg) || seg == IntArg
  {
    MarkerFacts();
  }

  /** The bare string-marker accepts exactly the segments `Atoi` rejects;
      the index marker is one of them. */
  lemma StringArgMatchesNonIntegers(seg: string)
    ensures ElementMatches(StringArg, seg) <==> !IsInt(seg)
    ensures ElementMatches(StringArg, IndexParam)
  {
    MarkerFacts();
  }

  /** The int- and string-markers split the segments between them: no
      segment other than their own texts is accepted by both. */
  lemma IntAndStringArgsDisjoint(seg: string)
    requires seg != IntArg && seg != StringArg
    ensures !(ElementMatches(IntArg, seg) && ElementMatches(StringArg, seg))
    ensures ElementMatches(IntArg, seg) || ElementMatches(StringArg, seg)
  {
    MarkerFacts();
  }

  /** The index marker in a pattern is a literal: it accepts only itself. */
  lemma IndexParamMatchesOnlyIndex(seg: string)
    ensures ElementMatches(IndexParam, seg) <==> seg == IndexParam
  {
    MarkerFacts();
  }

  /* ----------------------------------------------------------------- Scan */

  /** Action `a` ends the scan: it matches, and its auth reply either lets
      its handler run or stops with an error. */
  predicate Decisive(a: Action, segs: seq<string>, verb: string, auth: Action -> AuthReply) {
    Matches(a, segs, verb).Nil? && (Allows(auth(a)) || Halts(auth(a)))
  }

  /** `k` is the first decisive action at or after `from`. */
  predicate FirstDecisive(actions: seq<Action>, segs: seq<string>, verb: string, auth: Action -> AuthReply, from: nat, k: int) {
    && from <= k < |actions|
    && Decisive(actions[k], segs, verb, auth)
    && forall j :: from <= j < k ==> !Decisive(actions[j], segs, verb, auth)
  }

  /** The scan result a decisive action `k` leads to. */
  function Verdict(reply: AuthReply, k: nat): ScanResult
    requires Allows(reply) || Halts(reply)
  {
    if Allows(reply) then Run(k) else Stop(reply.token.statusCode, reply.err.message)
  }

  /** The scan settles on the first decisive action. */
  lemma {:induction false} ScanSettlesOnFirstDecisive(actions: seq<Action>, segs: seq<string>, verb: string, auth: Action -> AuthReply, i: nat, k: nat)
    requires i <= |actions|
    requires FirstDecisive(actions, segs, verb, auth, i, k)
    ensures Scan(actions, segs, verb, auth, i) == Verdict(auth(actions[k]), k)
    decreases |actions| - i
  {
    if i < k {
      assert !Decisive(actions[i], segs, verb, auth);
      ScanSettlesOnFirstDecisive(actions, segs, verb, auth, i + 1, k);
    }
  }

  /** The scan is exhausted exactly when no action from `i` on is decisive. */
  lemma {:induction false} ScanExhaustedIff(actions: seq<Action>, segs: seq<string>, verb: string, auth: Action -> AuthReply, i: nat)
    requires i <= |actions|
    ensures Scan(actions, segs, verb, auth, i).Exhausted? <==>
              forall j :: i <= j < |actions| ==> !Decisive(actions[j], segs, verb, auth)
    decreases |actions| - i
  {
    if i < |actions| {
      ScanExhaustedIff(actions, segs, verb, auth, i + 1);
    }
  }

  /** The scan runs action `k` exactly when `k` is the first decisive action
      and its auth reply allows it. */
  lemma {:induction false} ScanRunIff(actions: seq<Action>, segs: seq<string>, verb: string, auth: Action -> AuthReply, i: nat, k: nat)
    requires i <= |actions|
    ensures Scan(actions, segs, verb, auth, i) == Run(k) <==>
              FirstDecisive(actions, segs, verb, auth, i, k) && Allows(auth(actions[k]))
    decreases |actions| - i
  {
    if i < |actions| && !Decisive(actions[i], segs, verb, auth) {
      ScanRunIff(actions, segs, verb, auth, i + 1, k);
    }
  }

  /** Appending an action never changes a decision the earlier actions
      already reach: registration order is priority order. */
  lemma {:induction false} ScanAppendKeepsDecision(actions: seq<Action>, a: Action, segs: seq<string>, verb: string, auth: Action -> AuthReply, i: nat)
    requires i <= |actions|
    requires !Scan(actions, segs, verb, auth, i).Exhausted?
    ensures Scan(actions + [a], segs, verb, auth, i) == Scan(actions, segs, verb, auth, i)
    decreases |actions| - i
  {
    var more := actions + [a];
    assert more[i] == actions[i];
    if !Decisive(actions[i], segs, verb, auth) {
      ScanAppendKeepsDecision(actions, a, segs, verb, auth, i + 1);
    }
  }

  /** `RegisterAction` keeps every request the controller already decided
      going where it went before. */
  lemma RegisterActionKeepsDecisions(c: Controller, a: Action, segs: seq<string>, verb: string, auth: Action -> AuthReply)
    requires !Scan(c.actions, segs, verb, auth, 0).Exhausted?
    ensures Scan(RegisterAction(c, a).actions, segs, verb, auth, 0) == Scan(c.actions, segs, verb, auth, 0)
  {
    ScanAppendKeepsDecision(c.actions, a, segs, verb, auth, 0);
  }

  /* ------------------------------------------------------------- Registry */

  /** Appending a controller keeps every successful lookup as it was. */
  lemma {:induction false} GetControllerAppend(cs: seq<Controller>, c: Controller, name: string)
    requires GetController(cs, name).Ok?
    ensures GetController(cs + [c], name) == GetController(cs, name)
    decreases |cs|
  {
    if cs[0].name != name {
      assert (cs + [c])[1..] == cs[1..] + [c];
      GetControllerAppend(cs[1..], c, name);
    }
  }

  /** Registering a controller never shadows one already registered under
      the same name, and makes its name findable. */
  lemma RegisterControllerKeepsLookups(router: Router, c: Controller, name: string)
    ensures GetController(router.controllers, name).Ok? ==>
              GetController(RegisterController(router, c).controllers, name) == GetController(router.controllers, name)
    ensures GetController(RegisterController(router, c).controllers, c.name).Ok?
  {
    var cs := router.controllers;
    assert (cs + [c])[|cs|] == c;
    if GetController(cs, name).Ok? {
      GetControllerAppend(cs, c, name);
    }
  }

  /* ------------------------------------------------------------ Route gates */

  /** An empty content-type header is treated as "Text/Plain". */
  lemma EmptyHeaderIsTextPlain(router: Router, path: string, verb: string)
    ensures Route(router, "", path, verb) == Route(router, "Text/Plain", path, verb)
  {
  }

  /** The content-type gate: a request is refused with 422 exactly when its
      effective content type equals no allow-list entry up to ASCII case;
      then no lookup or handler call happens. */
  lemma RouteContentTypeGate(router: Router, contentType: string, path: string, verb: string)
    ensures Route(router, contentType, path, verb).Unsupported? <==>
              forall i :: 0 <= i < |router.contentTypes| ==>
                ToLower(router.contentTypes[i]) != ToLower(EffectiveContentType(contentType))
    ensures Route(router, contentType, path, verb).Unsupported? ==>
              Route(router, contentType, path, verb) == Unsupported(StatusUnprocessableEntity, MsgUnsupportedContentType)
  {
  }

  /** The allow-list comparison ignores case: "application/JSON" passes an
      allow-list entry "application/json". */
  lemma ContentTypeIgnoresCase()
    ensures ContentTypeAllowed("application/JSON", ["application/json"])
  {
    assert ToLower("application/JSON") == ToLower("application/json") by {
      ToLowerEqualIff("application/JSON", "application/json");
    }
  }

  /** An accepted request ends in "Controller not found" exactly when no
      controller is registered under the parsed controller name. */
  lemma RouteControllerNotFoundIff(router: Router, contentType: string, path: string, verb: string)
    requires ContentTypeAllowed(EffectiveContentType(contentType), router.contentTypes)
    ensures Route(router, contentType, path, verb).ControllerNotFound? <==>
              forall i :: 0 <= i < |router.controllers| ==> router.controllers[i].name != GetParams(path).controller
    ensures Route(router, contentType, path, verb).ControllerNotFound? ==>
              Route(router, contentType, path, verb) == ControllerNotFound(StatusNotFound, MsgControllerNotFound)
  {
  }

  /** A router with no controllers refuses every accepted request with 404. */
  lemma RouteWithoutControllers(contentTypes: seq<string>, contentType: string, path: string, verb: string)
    requires ContentTypeAllowed(EffectiveContentType(contentType), contentTypes)
    ensures Route(NewRouter(contentTypes), contentType, path, verb) == ControllerNotFound(StatusNotFound, MsgControllerNotFound)
  {
  }

  /* ---------------------------------------------------------- Route scan */

  /** `Route` calls the handler of action `k` with `segs` exactly when the
      content type is accepted, the parsed controller name is registered,
      `k` is the first decisive action of the first controller under that
      name, its auth reply allows it, and `segs` are the parsed segments. */
  lemma RouteHandledIff(router: Router, contentType: string, path: string, verb: string, k: nat, segs: seq<string>)
    ensures Route(router, contentType, path, verb) == Handled(k, segs) <==>
              && ContentTypeAllowed(EffectiveContentType(contentType), router.contentTypes)
              && var params := GetParams(path);
                 && GetController(router.controllers, params.controller).Ok?
                 && var c := GetController(router.controllers, params.controller).value;
                    && FirstDecisive(c.actions, params.pattern, verb, router.auth, 0, k)
                    && Allows(router.auth(c.actions[k]))
                    && segs == params.pattern
  {
    var params := GetParams(path);
    var found := GetController(router.controllers, params.controller);
    if found.Ok? {
      ScanRunIff(found.value.actions, params.pattern, verb, router.auth, 0, k);
    }
  }

  /** `Route` stops through the error handler with the auth status and
      error exactly when the first decisive action's auth reply halts. */
  lemma RouteAuthFailedAt(router: Router, contentType: string, path: string, verb: string, k: nat)
    requires ContentTypeAllowed(EffectiveContentType(contentType), router.contentTypes)
    requires GetController(router.controllers, GetParams(path).controller).Ok?
    requires var c := GetController(router.controllers, GetParams(path).controller).value;
             FirstDecisive(c.actions, GetParams(path).pattern, verb, router.auth, 0, k) && !Allows(router.auth(c.actions[k]))
    ensures var reply := router.auth(GetController(router.controllers, GetParams(path).controller).value.actions[k]);
            Route(router, contentType, path, verb) == AuthFailed(reply.token.statusCode, reply.err.message)
  {
    var c := GetController(router.controllers, GetParams(path).controller).value;
    ScanSettlesOnFirstDecisive(c.actions, GetParams(path).pattern, verb, router.auth, 0, k);
  }

  /** `Route` reaches the panic on its final line, where `err.Error()` is
      evaluated on the nil `err`, exactly when the request is accepted, the
      controller exists, and none of its actions is decisive. */
  lemma RouteFellThroughIff(router: Router, contentType: string, path: string, verb: string)
    ensures Route(router, contentType, path, verb).FellThrough? <==>
              && ContentTypeAllowed(EffectiveContentType(contentType), router.contentTypes)
              && var params := GetParams(path);
                 && GetController(router.controllers, params.controller).Ok?
                 && var c := GetController(router.controllers, params.controller).value;
                    forall j :: 0 <= j < |c.actions| ==> !Decisive(c.actions[j], params.pattern, verb, router.auth)
  {
    var params := GetParams(path);
    var found := GetController(router.controllers, params.controller);
    if found.Ok? {
      ScanExhaustedIff(found.value.actions, params.pattern, verb, router.auth, 0);
    }
  }

  /** With the default auth handler every matching action is decisive and
      allowed, so the first matching action always wins. */
  lemma DefaultAuthFirstMatchWins(controllers: seq<Controller>, contentTypes: seq<string>, contentType: string, path: string, verb: string, k: nat)
    requires ContentTypeAllowed(EffectiveContentType(contentType), contentTypes)
    requires GetController(controllers, GetParams(path).controller).Ok?
    ensures var c := GetController(controllers, GetParams(path).controller).value;
            var segs := GetParams(path).pattern;
            Route(Router(controllers, contentTypes, DefaultAuth), contentType, path, verb) == Handled(k, segs) <==>
              && k < |c.actions|
              && Matches(c.actions[k], segs, verb).Nil?
              && forall j :: 0 <= j < k ==> Matches(c.actions[j], segs, verb).Error?
  {
    var router := Router(controllers, contentTypes, DefaultAuth);
    RouteHandledIff(router, contentType, path, verb, k, GetParams(path).pattern);
  }

  /** Two actions sharing a path: when the first one's auth reply neither
      allows nor asks for error handling, the second one is tried and runs
      if its own auth reply allows it. */
  lemma SharedPatternFallsThrough(a1: Action, a2: Action, segs: seq<string>, verb: string, auth: Action -> AuthReply)
    requires Matches(a1, segs, verb).Nil? && Matches(a2, segs, verb).Nil?
    requires !Allows(auth(a1)) && !Halts(auth(a1))
    requires Allows(auth(a2))
    ensures Scan([a1, a2], segs, verb, auth, 0) == Run(1)
  {
    ScanRunIff([a1, a2], segs, verb, auth, 0, 1);
  }

  /** The auth handler tells registrations apart by identity: the same
      action registered again under a new identity can be turned away the
      first time and let through the second. */
  lemma AuthSeesActionIdentity(a: Action, actions: seq<Action>, segs: seq<string>, verb: string)
    requires Matches(a, segs, verb).Nil?
    requires actions == [a, a.(id := a.id + 1)]
    ensures exists auth: Action -> AuthReply :: Scan(actions, segs, verb, auth, 0) == Run(1)
  {
    var auth := (b: Action) => if b.id == a.id then AuthReply(AuthToken(false, 401), Nil) else DefaultAuth(b);
    SharedPatternFallsThrough(a, actions[1], segs, verb, auth);
  }

  /* -------------------------------------------------- Nil error at the end */

  /** A controller with no actions: evaluating the final error-handler
      call's argument dereferences the nil error. */
  lemma FellThroughExample()
    ensures Route(Router([Controller("users", [])], ["text/plain"], DefaultAuth), "", "/users", "GET") == FellThrough
  {
    var router := Router([Controller("users", [])], ["text/plain"], DefaultAuth);
    assert ContentTypeAllowed(EffectiveContentType(""), router.contentTypes) by {
      ToLowerEqualIff("Text/Plain", "text/plain");
      assert ToLower("Text/Plain") == ToLower("text/plain");
    }
    assert GetParams("/users").controller == "users" by {
      GetParamsTrailingSlash();
    }
    assert GetController(router.controllers, "users") == Ok(Controller("users", []));
  }

  /** The corrected dispatch ends such requests in a 404 instead. */
  lemma CorrectedExample()
    ensures RouteCorrected(Router([Controller("users", [])], ["text/plain"], DefaultAuth), "", "/users", "GET")
            == NoActionMatched(StatusNotFound, MsgPatternDidNotMatch)
  {
    FellThroughExample();
  }

  /** The corrected dispatch answers 404 "Pattern did not match" exactly
      when the request is accepted, its controller exists, and none of that
      controller's actions is decisive. */
  lemma RouteCorrectedNoActionMatchedIff(router: Router, contentType: string, path: string, verb: string)
    ensures RouteCorrected(router, contentType, path, verb) == NoActionMatched(StatusNotFound, MsgPatternDidNotMatch) <==>
              && ContentTypeAllowed(EffectiveContentType(contentType), router.contentTypes)
              && var params := GetParams(path);
                 && GetController(router.controllers, params.controller).Ok?
                 && var c := GetController(router.controllers, params.controller).value;
                    forall j :: 0 <= j < |c.actions| ==> !Decisive(c.actions[j], params.pattern, verb, router.auth)
  {
    RouteFellThroughIff(router, contentType, path, verb);
  }
}
