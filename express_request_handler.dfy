/**
 * The request pipeline of the express package
 * (express/src/server/request.handler.ts). Express has already matched the
 * route, so the handler receives the controller class and its route pattern;
 * the parameters are read positionally from the pattern (`getParameters`).
 * Unlike the server package, the controller is constructed outside
 * `safeInvoke`: a throwing constructor still ends in a 500, but is not logged.
 */
module ExpressRequests {
  import opened Common
  import opened Js
  import opened Strings
  import opened RouteNodes
  import opened Injection
  import opened Http
  import opened ServerConfigs

  /** How many segments of `pattern` are parameters. */
  function ParamCount(pattern: seq<string>): (r: nat)
    ensures r <= |pattern|
    decreases |pattern|
  {
    if pattern == [] then 0
    else ParamCount(pattern[..|pattern| - 1]) + (if IsParam(pattern[|pattern| - 1]) then 1 else 0)
  }

  /**
   * What `getParameters` has collected after the first `n` pattern segments:
   * for each parameter segment at index `i < n` that the URL reaches, the URL
   * segment at the same index, in index order. There are never more than
   * there are parameter segments, nor than the URL has segments.
   */
  function Positional(pattern: seq<string>, segs: seq<string>, n: nat): (r: seq<string>)
    requires n <= |pattern|
    ensures |r| <= ParamCount(pattern[..n])
    ensures |r| <= n && |r| <= |segs|
    ensures forall v | v in r :: v in segs[..if n < |segs| then n else |segs|]
    decreases n
  {
    if n == 0 then []
    else
      assert pattern[..n][..n - 1] == pattern[..n - 1];
      Positional(pattern, segs, n - 1) + (if IsParam(pattern[n - 1]) && n - 1 < |segs| then [segs[n - 1]] else [])
  }

  /**
   * `getParameters(path, url)`: the pattern and the URL both lose their query
   * part and their empty segments; then every parameter segment of the
   * pattern whose index the URL reaches contributes the URL segment at that
   * index.
   */
  method GetParameters(path: string, url: string) returns (result: seq<string>)
    ensures result == Positional(UrlSegments(path), UrlSegments(url), |UrlSegments(path)|)
  {
    result := [];
    var pathSegments := UrlSegments(path);
    var urlSegments := UrlSegments(url);
    for index := 0 to |pathSegments|
      invariant result == Positional(pathSegments, urlSegments, index)
    {
      var segment := pathSegments[index];
      if |segment| > 0 && segment[0] == ':' && index < |urlSegments| {
        result := result + [urlSegments[index]];
      }
    }
  }

  /** A pattern without a parameter segment yields no parameters. */
  lemma {:induction false} NoParamsNoValues(pattern: seq<string>, segs: seq<string>, n: nat)
    requires n <= |pattern| && forall i | 0 <= i < |pattern| :: !IsParam(pattern[i])
    ensures Positional(pattern, segs, n) == []
    decreases n
  {
    if n > 0 {
      NoParamsNoValues(pattern, segs, n - 1);
    }
  }

  /** When the URL is at least as long as the pattern, every parameter segment receives a value. */
  lemma {:induction false} LongUrlFillsEveryParam(pattern: seq<string>, segs: seq<string>, n: nat)
    requires n <= |pattern| && |pattern| <= |segs|
    ensures |Positional(pattern, segs, n)| == ParamCount(pattern[..n])
    decreases n
  {
    if n > 0 {
      LongUrlFillsEveryParam(pattern, segs, n - 1);
      assert pattern[..n][..n - 1] == pattern[..n - 1];
    }
  }

  /** `/a/b` is the two segments `a` and `b`. */
  lemma TwoSegments(a: string, b: string)
    requires a != "" && b != "" && '/' !in a && '/' !in b && '?' !in a && '?' !in b
    ensures UrlSegments("/" + a + "/" + b) == [a, b]
  {
    SegmentsOfPlain("");
    SegmentsOfPlain(a);
    SegmentsOfPlain(b);
    SegmentsConcat(a, b);
    SegmentsConcat("", a + "/" + b);
    assert "" + "/" + (a + "/" + b) == "/" + a + "/" + b;
    UrlSegmentsOfPath("/" + a + "/" + b);
  }

  /** The route `/user/:id` and the URL `/user/11` give the one parameter `11`. */
  lemma UserIdExample()
    ensures var pattern := UrlSegments("/user/:id");
      Positional(pattern, UrlSegments("/user/11"), |pattern|) == ["11"]
  {
    TwoSegments("user", ":id");
    assert "/" + "user" + "/" + ":id" == "/user/:id";
    TwoSegments("user", "11");
    assert "/" + "user" + "/" + "11" == "/user/11";
    var pattern, segs := ["user", ":id"], ["user", "11"];
    assert IsParam(pattern[1]) && !IsParam(pattern[0]);
    assert Positional(pattern, segs, 1) == [];
  }

  /** `new controllerClass(req, res)` is not wrapped: its throw rejects `handleController` without a log. */
  predicate ConstructorFails(access: Outcome<JsValue>, controllerClass: Value)
  {
    access.Value? && Truthy(access.v) && !Constructible(controllerClass)
  }

  /**
   * `handleController`: the same ladder as the server package's (401 for a
   * falsy access result, 404 for a missing method, the method's result
   * otherwise, `thrown` for what the `catch` turns into a 500), with the
   * parameters read from the route pattern `path`. A throwing access check or
   * method is logged once; a throwing constructor is not logged.
   */
  method HandleController(res: Response, controllerClass: Value, path: string, injector: Injector, config: ServerConfig,
      verb: string, url: string, access: Outcome<JsValue>, call: Outcome<JsValue>)
    returns (thrown: bool, controller: Option<Instance>, args: Option<seq<string>>, logged: nat)
    requires injector.Valid()
    modifies res
    ensures thrown <==> ControllerEnding(access, controllerClass, verb, call) == Failed
    ensures !thrown ==> res.State() == Finish(old(res.State()), ControllerEnding(access, controllerClass, verb, call),
      config.default401, config.default404, config.default500)
    ensures thrown ==> res.State() == old(res.State())
    ensures logged == if thrown && !ConstructorFails(access, controllerClass) then 1 else 0
    ensures controller.Some? <==> access.Value? && Truthy(access.v) && Constructible(controllerClass)
    ensures controller.Some? ==> fresh(controller.value) && controller.value.cls == controllerClass.cls
    ensures args.Some? <==> controller.Some? && GetFunction(verb, controllerClass.cls.methods).Some?
    ensures args.Some? ==> args.value == Positional(UrlSegments(path), UrlSegments(url), |UrlSegments(path)|)
    ensures args.Some? && injector.done ==>
      controller.value.fields == Wired(map[], injector.Props(controller.value), injector.store)
    ensures controller.Some? && (args.None? || !injector.done) ==> controller.value.fields == map[]
  {
    controller, args, logged := None, None, 0;
    if access.Throws? {
      return true, controller, args, 1;
    }
    if !Truthy(access.v) {
      res.HandleUnAuthorized(config.default401);
      return false, controller, args, 0;
    }
    if !Constructible(controllerClass) {
      return true, controller, args, 0;
    }
    var c := new Instance(controllerClass.cls);
    controller := Some(c);
    var fn := GetFunction(verb, c.cls.methods);
    if fn.None? {
      res.HandleResult(Undefined, config.default404);
      return false, controller, args, 0;
    }
    injector.Inject(c);
    var params := GetParameters(path, url);
    args := Some(params);
    var result := Invoke(fn.value, call);
    if result.Throws? {
      return true, controller, args, 1;
    }
    res.HandleResult(result.v, config.default404);
    thrown := false;
  }

  /**
   * `requestHandler`: run the controller and answer a rejection with a 500;
   * the response is ended exactly once, whichever way the request ends.
   */
  method RequestHandler(res: Response, controllerClass: Value, path: string, injector: Injector, config: ServerConfig,
      verb: string, url: string, access: Outcome<JsValue>, call: Outcome<JsValue>)
    returns (logged: nat)
    requires injector.Valid()
    modifies res
    ensures res.State() == Finish(old(res.State()), ControllerEnding(access, controllerClass, verb, call),
      config.default401, config.default404, config.default500)
    ensures res.ends == old(res.ends) + 1
    ensures logged == if ControllerEnding(access, controllerClass, verb, call) == Failed &&
      !ConstructorFails(access, controllerClass) then 1 else 0
  {
    var thrown, _, _, n := HandleController(res, controllerClass, path, injector, config, verb, url, access, call);
    logged := n;
    if thrown {
      res.HandleException(config.default500);
    }
  }
}
