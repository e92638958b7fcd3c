/**
 * The request pipeline of the server package
 * (server/src/server/request.handler.ts): resolve the URL in the route tree,
 * run the controller (access check, construction, method selection, field
 * injection, parameters, call) and write the reply; a URL without a
 * controller is served from the static paths when it is a GET, and is a 404
 * otherwise. Also `resolvePath`, which maps a request URL onto a static
 * directory.
 */
module ServerRequests {
  import opened Common
  import opened Js
  import opened Strings
  import opened RouteTrees
  import opened Injection
  import opened Http
  import opened ServerConfigs

  /**
   * `handleController`: `thrown` is the rejection that `requestHandler`'s
   * `catch` turns into a 500; every other way out has replied and ended the
   * response. `hasAccess`, the constructor and the method each run inside
   * `safeInvoke`, so each throw is logged once. The controller is constructed
   * only after a truthy access result; it is injected and receives the URL's
   * parameters only when it has a method for the verb.
   */
  method HandleController(tree: RouteTree, config: ServerConfig, injector: Injector, res: Response,
      verb: string, url: string, controllerClass: Value, access: Outcome<JsValue>, call: Outcome<JsValue>)
    returns (thrown: bool, controller: Option<Instance>, args: Option<seq<string>>, logged: nat)
    requires tree.Valid() && injector.Valid()
    modifies res
    ensures thrown <==> ControllerEnding(access, controllerClass, verb, call) == Failed
    ensures !thrown ==> res.State() == Finish(old(res.State()), ControllerEnding(access, controllerClass, verb, call),
      config.default401, config.default404, config.default500)
    ensures thrown ==> res.State() == old(res.State())
    ensures logged == if thrown then 1 else 0
    ensures controller.Some? <==> access.Value? && Truthy(access.v) && Constructible(controllerClass)
    ensures controller.Some? ==> fresh(controller.value) && controller.value.cls == controllerClass.cls
    ensures args.Some? <==> controller.Some? && GetFunction(verb, controllerClass.cls.methods).Some?
    ensures args.Some? ==> args.value == Params(tree.Children, tree.root, UrlSegments(url))
    ensures args.Some? && injector.done ==>
      controller.value.fields == Wired(map[], injector.Props(controller.value), injector.store)
    ensures controller.Some? && (args.None? || !injector.done) ==> controller.value.fields == map[]
  {
    controller, args, logged := None, None, 0;
    if access.Throws? {
      return true, controller, args, 1;
    }
    if !Truthy(access.v) {
      res.HandleUnAuthorized(config.default401);
      return false, controller, args, 0;
    }
    if !Constructible(controllerClass) {
      return true, controller, args, 1;
    }
    var c := new Instance(controllerClass.cls);
    controller := Some(c);
    var fn := GetFunction(verb, c.cls.methods);
    if fn.None? {
      res.HandleResult(Undefined, config.default404);
      return false, controller, args, 0;
    }
    injector.Inject(c);
    var params := tree.GetParameters(url);
    args := Some(params);
    var result := Invoke(fn.value, call);
    if result.Throws? {
      return true, controller, args, 1;
    }
    res.HandleResult(result.v, config.default404);
    thrown := false;
  }

  /**
   * `requestHandler`: a URL the route tree resolves runs its controller, and
   * a rejection of that run is answered with a 500; an unresolved GET is left
   * to the static file lookup (`toStatic`, the response untouched here); any
   * other unresolved request is a 404. Whatever the tree resolves, the
   * response is ended exactly once outside the static lookup.
   */
  method RequestHandler(tree: RouteTree, config: ServerConfig, injector: Injector, res: Response,
      verb: string, url: string, access: Outcome<JsValue>, call: Outcome<JsValue>)
    returns (toStatic: bool, logged: nat)
    requires tree.Valid() && injector.Valid()
    modifies res
    ensures var resolved := Resolve(tree.Children, tree.HandlerAt, tree.root, UrlSegments(url));
      && (toStatic <==> resolved.None? && verb == "GET")
      && (toStatic ==> res.State() == old(res.State()))
      && (resolved.None? && verb != "GET" ==> res.State() == OnResult(old(res.State()), Undefined, config.default404))
      && (resolved.Some? ==> res.State() == Finish(old(res.State()),
            ControllerEnding(access, resolved.value, verb, call), config.default401, config.default404, config.default500))
      && (logged == if resolved.Some? && ControllerEnding(access, resolved.value, verb, call) == Failed then 1 else 0)
  {
    var controllerClass := tree.GetControllerClass(url);
    toStatic, logged := false, 0;
    if controllerClass.Some? {
      var thrown, _, _, n := HandleController(tree, config, injector, res, verb, url, controllerClass.value, access, call);
      logged := n;
      if thrown {
        res.HandleException(config.default500);
      }
    } else if verb == "GET" {
      toStatic := true;
    } else {
      res.HandleResult(Undefined, config.default404);
    }
  }

  /**
   * `resolvePath(url, staticPath)` with `path.sep` as `sep`: when the mount
   * URL ends in `/` and the directory ends in neither `/` nor `\`, a `/` is
   * added to the directory; the first occurrence of the mount URL in the
   * request URL is replaced by the directory; every `/` becomes `sep`; and a
   * result ending in `sep` names that directory's `index.html`.
   */
  function ResolvePath(url: string, mountUrl: string, dir: string, sep: char): (r: string)
    ensures var sp := if EndsWith(mountUrl, '/') && !EndsWith(dir, '/') && !EndsWith(dir, '\\') then dir + "/" else dir;
      var replaced := ReplaceAllChar(ReplaceFirst(url, mountUrl, sp), '/', sep);
      && replaced <= r
      && (EndsWith(replaced, sep) <==> r == replaced + "index.html")
      && (!EndsWith(replaced, sep) <==> r == replaced)
    ensures sep != '/' ==> forall i | 0 <= i < |r| :: r[i] != '/'
  {
    var sp := if EndsWith(mountUrl, '/') && !EndsWith(dir, '/') && !EndsWith(dir, '\\') then dir + "/" else dir;
    var result := ReplaceAllChar(ReplaceFirst(url, mountUrl, sp), '/', sep);
    if EndsWith(result, sep) then result + "index.html" else result
  }

  /** `/s/` mounted on the directory `p` on a POSIX system: the mount URL itself names the index page. */
  lemma ResolvePathIndex()
    ensures ResolvePath("/s/", "/s/", "p", '/') == "p/" + "index.html"
  {
    assert "/s/"[0..3] == "/s/";
    assert ReplaceFirst("/s/", "/s/", "p/") == "p/";
    ReplaceAllCharNoop("p/", '/');
  }

  /** A file under the mount URL is looked up under the directory. */
  lemma ResolvePathFile()
    ensures ResolvePath("/s/a", "/s/", "p", '/') == "p/a"
  {
    assert "/s/a"[0..3] == "/s/";
    assert ReplaceFirst("/s/a", "/s/", "p/") == "p/a";
    ReplaceAllCharNoop("p/a", '/');
  }

  /**
   * On Windows the `/` added to a directory mounted under a URL ending in `/`
   * becomes `\\`, and the mount URL names the directory's `index.html`.
   */
  lemma ResolvePathWindows()
    ensures ResolvePath("/d/", "/d/", "C:", '\\') == "C:\\" + "index.html"
  {
    assert EndsWith("/d/", '/') && !EndsWith("C:", '/') && !EndsWith("C:", '\\');
    assert "C:" + "/" == "C:/";
    assert "/d/"[0..3] == "/d/";
    assert ReplaceFirst("/d/", "/d/", "C:/") == "C:/";
    assert "C:/"[1..] == ":/" && ":/"[1..] == "/" && "/"[1..] == "";
    assert ReplaceAllChar("/", '/', '\\') == "\\";
    assert ReplaceAllChar(":/", '/', '\\') == ":\\";
    assert ReplaceAllChar("C:/", '/', '\\') == "C:\\";
  }

  /** Mapping a character to itself changes nothing. */
  lemma ReplaceAllCharNoop(s: string, c: char)
    ensures ReplaceAllChar(s, c, c) == s
  {
    var r := ReplaceAllChar(s, c, c);
    assert forall i | 0 <= i < |s| :: r[i] == s[i];
  }
}
