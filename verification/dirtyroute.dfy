/** The controller/action router: path parsing, pattern matching,
    controller lookup and the dispatch decision of `Router.Route`, with the
    HTTP plumbing replaced by plain inputs and the handlers by the outcome
    they would be called with. */
module DirtyRoute {
  import opened GoErrors
  import opened GoStrings
  import opened GoStrconv

  /* ------------------------------------------------------------ Constants */

  const StatusNotFound: int := 404
  const StatusUnprocessableEntity: int := 422

  /** The content type assumed when the request carries none. */
  const DefaultContentType: string := "Text/Plain"

  /** Stands for an empty path component, and for "no segments at all". */
  const IndexParam: string := "{/}"

  /** Pattern markers: a pattern element containing one of these is a
      wildcard of that kind rather than a literal. */
  const IntArg: string := "{i}"
  const StringArg: string := "{s}"
  const AnyArg: string := "{i||s}"

  const MsgUnsupportedContentType: string := "Unsupported content type"
  const MsgControllerNotFound: string := "Controller not found"
  const MsgPatternDidNotMatch: string := "Pattern did not match"

  /* ----------------------------------------------------------- Data model */

  /** A routable endpoint. The handler itself is not part of the value: the
      outcome of a dispatch names the action by its position instead.
      `id` stands for the identity of the registered `*Action` pointer, which
      is all the auth handler gets: two distinct registrations carry distinct
      ids even when all their other fields agree. */
  datatype Action = Action(id: nat, name: string, pattern: seq<string>, verb: string, isPrivate: bool)

  datatype Controller = Controller(name: string, actions: seq<Action>)

  /** What the path parser extracts from a URL path. */
  datatype Params = Params(controller: string, pattern: seq<string>)

  /** An auth handler's verdict; a status code of 0 means "continue". */
  datatype AuthToken = AuthToken(handleError: bool, statusCode: int)

  /** What an auth handler returns: its token and its error. */
  datatype AuthReply = AuthReply(token: AuthToken, err: GoError)

  /** The registry of controllers, the content-type allow-list and the auth
      handler. The auth handler sees only the action: the request is fixed
      for one dispatch, so what it reads from the request is part of the
      function passed in. */
  datatype Router = Router(controllers: seq<Controller>, contentTypes: seq<string>, auth: Action -> AuthReply)

  /** What one request ends in: the error handler called with a status and a
      message, the handler of action `action` called with `segments`, or
      (`FellThrough`) the panic raised by evaluating `err.Error()` on the nil
      `err` before the final error-handler call, which therefore never runs. */
  datatype Outcome =
    | Unsupported(status: int, message: string)
    | ControllerNotFound(status: int, message: string)
    | AuthFailed(status: int, message: string)
    | Handled(action: nat, segments: seq<string>)
    | NoActionMatched(status: int, message: string)
    | FellThrough

  /* --------------------------------------------------------- Registration */

  /** A router with no controllers and the default auth handler. */
  function NewRouter(contentTypes: seq<string>): (r: Router)
    ensures r.controllers == [] && r.contentTypes == contentTypes
    ensures forall a :: Allows(r.auth(a))
  {
    Router([], contentTypes, DefaultAuth)
  }

  /** `Router.RegisterController`: `c` becomes the last controller; the
      earlier ones, the allow-list and the auth handler stay as they were. */
  function RegisterController(router: Router, c: Controller): (r: Router)
    ensures |r.controllers| == |router.controllers| + 1
    ensures r.controllers[..|router.controllers|] == router.controllers
    ensures r.controllers[|router.controllers|] == c
    ensures r.contentTypes == router.contentTypes && r.auth == router.auth
  {
    router.(controllers := router.controllers + [c])
  }

  /** `Controller.RegisterAction`: `a` becomes the last action; the name and
      the earlier actions stay as they were. */
  function RegisterAction(c: Controller, a: Action): (r: Controller)
    ensures |r.actions| == |c.actions| + 1
    ensures r.actions[..|c.actions|] == c.actions
    ensures r.actions[|c.actions|] == a
    ensures r.name == c.name
  {
    c.(actions := c.actions + [a])
  }

  /* ------------------------------------------------------------- Matching */

  /** Whether pattern element `p` accepts path segment `seg`: the element
      equals the segment, or it contains the any-marker, or it contains the
      int-marker and the segment is an integer, or it contains the
      string-marker and the segment is not one. Every element accepts its
      own text, and one holding both the int- and the string-marker accepts
      every segment. */
  predicate ElementMatches(p: string, seg: string)
    ensures p == seg ==> ElementMatches(p, seg)
    ensures Contains(p, IntArg) && Contains(p, StringArg) ==> ElementMatches(p, seg)
  {
    || p == seg
    || Contains(p, AnyArg)
    || (Contains(p, IntArg) && IsInt(seg))
    || (Contains(p, StringArg) && !IsInt(seg))
  }

  /** How many positions of `pattern` accept the segment at that position. */
  function Hits(pattern: seq<string>, segs: seq<string>): (n: nat)
    requires |pattern| == |segs|
    ensures n <= |pattern|
    ensures n == |pattern| <==> forall i :: 0 <= i < |pattern| ==> ElementMatches(pattern[i], segs[i])
    decreases |pattern|
  {
    if |pattern| == 0 then 0
    else
      var n := (if ElementMatches(pattern[0], segs[0]) then 1 else 0) + Hits(pattern[1..], segs[1..]);
      assert forall i :: 1 <= i < |pattern| ==> pattern[1..][i - 1] == pattern[i] && segs[1..][i - 1] == segs[i];
      n
  }

  /** `Action.Matches`: counts the accepting positions when the lengths and
      methods agree, and reports success iff the count equals the pattern
      length. An empty pattern therefore matches every request. */
  function Matches(a: Action, segs: seq<string>, verb: string): (err: GoError)
    ensures err.Error? ==> err.message == MsgPatternDidNotMatch
    ensures |a.pattern| == 0 ==> err.Nil?
    ensures |a.pattern| > 0 && (|a.pattern| != |segs| || a.verb != verb) ==> err.Error?
    ensures |a.pattern| == |segs| && a.verb == verb ==>
              (err.Nil? <==> forall i :: 0 <= i < |segs| ==> ElementMatches(a.pattern[i], segs[i]))
  {
    var hits := if |a.pattern| == |segs| && a.verb == verb then Hits(a.pattern, segs) else 0;
    if hits != |a.pattern| then Error(MsgPatternDidNotMatch) else Nil
  }

  /* ---------------------------------------------------------- Path parser */

  /** An empty path component becomes the index marker; any other one is
      kept. */
  function IndexIfEmpty(p: string): (r: string)
    ensures r != ""
    ensures p != "" ==> r == p
    ensures p == "" ==> r == IndexParam
  {
    if p == "" then IndexParam else p
  }

  /** Every empty component of `ps` becomes the index marker, in place. */
  function MapIndex(ps: seq<string>): (r: seq<string>)
    ensures |r| == |ps|
    ensures forall i :: 0 <= i < |r| ==> r[i] != ""
    ensures forall i :: 0 <= i < |r| ==> ps[i] != "" ==> r[i] == ps[i]
    ensures forall i :: 0 <= i < |r| ==> ps[i] == "" ==> r[i] == IndexParam
  {
    seq(|ps|, i requires 0 <= i < |ps| => IndexIfEmpty(ps[i]))
  }

  /** `Router.GetParams`: splits the path on '/', ignores the first
      component, takes the second as the controller name and the rest as
      the segments, empty components becoming the index marker; no
      segments at all become a single index marker. */
  function GetParams(path: string): (r: Params)
    ensures |r.pattern| >= 1
    ensures forall i :: 0 <= i < |r.pattern| ==> r.pattern[i] != ""
    ensures r.controller == "" <==> '/' !in path
    ensures '/' !in path ==> r == Params("", [IndexParam])
  {
    var parts := Split(path, '/');
    SplitCount(path, '/');
    assert '/' !in path ==> parts == [path] by {
      if '/' !in path { SplitWithoutSeparator(path, '/'); }
    }
    var controller := if |parts| >= 2 then IndexIfEmpty(parts[1]) else "";
    var segs := if |parts| >= 2 then MapIndex(parts[2..]) else [];
    Params(controller, if |segs| == 0 then [IndexParam] else segs)
  }

  /* ------------------------------------------------------------- Registry */

  /** Controller `i` is the first one registered under `name`. */
  predicate FirstNamed(controllers: seq<Controller>, name: string, i: int) {
    && 0 <= i < |controllers|
    && controllers[i].name == name
    && forall j :: 0 <= j < i ==> controllers[j].name != name
  }

  /** `Router.GetController`: the first controller registered under `name`,
      or "Controller not found". */
  function GetController(controllers: seq<Controller>, name: string): (r: Result<Controller>)
    ensures r.Ok? <==> exists i :: 0 <= i < |controllers| && controllers[i].name == name
    ensures r.Ok? ==> exists i :: FirstNamed(controllers, name, i) && controllers[i] == r.value
    ensures r.Err? ==> r.message == MsgControllerNotFound
    decreases |controllers|
  {
    if |controllers| == 0 then Err(MsgControllerNotFound)
    else if controllers[0].name == name then
      assert FirstNamed(controllers, name, 0);
      Ok(controllers[0])
    else
      var r := GetController(controllers[1..], name);
      assert forall i :: 1 <= i < |controllers| ==> controllers[1..][i - 1] == controllers[i];
      assert r.Ok? ==> exists i :: FirstNamed(controllers, name, i) && controllers[i] == r.value by {
        if r.Ok? {
          var i :| FirstNamed(controllers[1..], name, i) && controllers[1..][i] == r.value;
          assert FirstNamed(controllers, name, i + 1);
        }
      }
      r
  }

  /* ----------------------------------------------------------- Auth gate */

  /** `defaultAuthHandler`: asks for error handling, status 0, nil error,
      whatever the action (its private flag included). */
  function DefaultAuth(a: Action): (reply: AuthReply)
    ensures Allows(reply)
  {
    AuthReply(AuthToken(true, 0), Nil)
  }

  /** The auth reply lets the matched handler run. */
  predicate Allows(reply: AuthReply) {
    reply.token.statusCode == 0 && reply.err.Nil?
  }

  /** The auth reply stops dispatch through the error handler. */
  predicate Halts(reply: AuthReply) {
    reply.token.handleError && reply.err.Error?
  }

  /* ------------------------------------------------------------- Dispatch */

  /** How the scan over a controller's actions ends. */
  datatype ScanResult = Run(index: nat) | Stop(status: int, message: string) | Exhausted

  /** The action loop of `Router.Route`, from position `i` on: each matching
      action is put to the auth handler; an allowing reply runs it, a
      halting reply stops with its status and error, and any other reply
      moves on to the next action. */
  function Scan(actions: seq<Action>, segs: seq<string>, verb: string, auth: Action -> AuthReply, i: nat): (r: ScanResult)
    requires i <= |actions|
    ensures r.Run? ==> i <= r.index < |actions| && Allows(auth(actions[r.index]))
    ensures r.Run? ==> Matches(actions[r.index], segs, verb).Nil?
    decreases |actions| - i
  {
    if i == |actions| then Exhausted
    else if Matches(actions[i], segs, verb).Nil? then
      var reply := auth(actions[i]);
      if Allows(reply) then Run(i)
      else if Halts(reply) then Stop(reply.token.statusCode, reply.err.message)
      else Scan(actions, segs, verb, auth, i + 1)
    else Scan(actions, segs, verb, auth, i + 1)
  }

  /** The effective request content type: the header, or the default when
      the header is absent; it is never empty. */
  function EffectiveContentType(header: string): (r: string)
    ensures r != ""
    ensures header != "" ==> r == header
    ensures header == "" ==> r == DefaultContentType
  {
    if header == "" then DefaultContentType else header
  }

  /** The content-type gate: the type equals some allow-list entry once
      both are lower-cased. */
  function ContentTypeAllowed(contentType: string, allowed: seq<string>): (r: bool)
    ensures r <==> exists i :: 0 <= i < |allowed| && ToLower(allowed[i]) == ToLower(contentType)
    decreases |allowed|
  {
    if |allowed| == 0 then false
    else
      var r := ToLower(contentType) == ToLower(allowed[0]) || ContentTypeAllowed(contentType, allowed[1..]);
      assert forall i :: 1 <= i < |allowed| ==> allowed[1..][i - 1] == allowed[i];
      r
  }

  /** `Router.Route` as written: content-type gate, path parse, controller
      lookup, action scan. When the scan decides nothing, the final
      error-handler call evaluates `err.Error()` on the outer `err`, which is
      nil at that point, and panics before the handler runs. */
  function Route(router: Router, contentType: string, path: string, verb: string): (o: Outcome)
    ensures o.Unsupported? ==> o.status == StatusUnprocessableEntity
    ensures o.ControllerNotFound? ==> o.status == StatusNotFound
    ensures o.Handled? ==> o.segments == GetParams(path).pattern
    ensures !o.NoActionMatched?
  {
    if !ContentTypeAllowed(EffectiveContentType(contentType), router.contentTypes) then
      Unsupported(StatusUnprocessableEntity, MsgUnsupportedContentType)
    else
      var params := GetParams(path);
      match GetController(router.controllers, params.controller)
      case Err(msg) => ControllerNotFound(StatusNotFound, msg)
      case Ok(c) =>
        match Scan(c.actions, params.pattern, verb, router.auth, 0)
        case Run(k) => Handled(k, params.pattern)
        case Stop(status, msg) => AuthFailed(status, msg)
        case Exhausted => FellThrough
  }

  /** `Router.Route` with the final error-handler call given a real error:
      when no action decides the request, it ends in a 404. */
  function RouteCorrected(router: Router, contentType: string, path: string, verb: string): (o: Outcome)
    ensures !o.FellThrough?
    ensures Route(router, contentType, path, verb).FellThrough? ==>
              o == NoActionMatched(StatusNotFound, MsgPatternDidNotMatch)
    ensures !Route(router, contentType, path, verb).FellThrough? ==>
              o == Route(router, contentType, path, verb)
  {
    var o := Route(router, contentType, path, verb);
    if o.FellThrough? then NoActionMatched(StatusNotFound, MsgPatternDidNotMatch) else o
  }
}
