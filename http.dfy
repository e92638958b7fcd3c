/**
 * What both request handlers do to the Node response once the outcome of a
 * request is known (`handleResult`, `handleUnAuthorized`, `handleException`),
 * and how they pick the controller method for an HTTP verb (`getFunction`).
 * The server and the express packages carry the same code for these.
 */
module Http {
  import opened Common
  import opened Js

  const CONTENT_TYPE: string := "Content-Type"
  const APPLICATION_JSON: string := "application/json"

  /**
   * The part of an `http.ServerResponse` the handlers touch: the status code,
   * the headers set, every value passed to `write` in order, and how many
   * times `end` was called.
   */
  datatype Reply = Reply(status: int, headers: map<string, string>, body: seq<JsValue>, ends: nat)

  class Response {
    var statusCode: int
    var headers: map<string, string>
    var written: seq<JsValue>
    var ends: nat

    /** A new response: status 200, no header, nothing written, not ended. */
    constructor ()
      ensures State() == Reply(200, map[], [], 0)
    {
      statusCode := 200;
      headers := map[];
      written := [];
      ends := 0;
    }

    function State(): Reply
      reads this
    {
      Reply(statusCode, headers, written, ends)
    }

    /** `handleResult(result, default404, res)`. */
    method HandleResult(result: JsValue, default404: JsValue)
      modifies this
      ensures State() == OnResult(old(State()), result, default404)
    {
      if result == Null {
      } else if result == Undefined {
        statusCode := 404;
        written := written + [default404];
      } else {
        if result.Obj? {
          headers := headers[CONTENT_TYPE := APPLICATION_JSON];
          written := written + [result];
        } else if result == Str("") {
          statusCode := 204;
        } else {
          written := written + [result];
        }
      }
      ends := ends + 1;
    }

    /** `handleUnAuthorized(default401, res)`. */
    method HandleUnAuthorized(default401: JsValue)
      modifies this
      ensures State() == OnFailure(old(State()), 401, default401)
    {
      statusCode := 401;
      written := written + [default401];
      ends := ends + 1;
    }

    /** `handleException(default500, res)`. */
    method HandleException(default500: JsValue)
      modifies this
      ensures State() == OnFailure(old(State()), 500, default500)
    {
      statusCode := 500;
      written := written + [default500];
      ends := ends + 1;
    }
  }

  /**
   * The response after `handleResult(result, default404, res)` on a response in
   * state `s`: `null` writes nothing and keeps the status, `undefined` is a 404
   * with `default404`, an object is written as JSON, `''` is a 204 without a
   * body, and any other value is written under the current status. The
   * response is ended exactly once in every case.
   */
  function OnResult(s: Reply, result: JsValue, default404: JsValue): (t: Reply)
    ensures t.ends == s.ends + 1
    ensures s.body <= t.body && |t.body| <= |s.body| + 1
    ensures |t.body| == |s.body| <==> result == Null || result == Str("")
    ensures t.status != s.status ==> result == Undefined || result == Str("")
    ensures result == Null ==> t == s.(ends := s.ends + 1)
    ensures result == Undefined ==> t.status == 404 && t.body == s.body + [default404]
    ensures result == Str("") ==> t.status == 204
    ensures result.Obj? ==> t.headers == s.headers[CONTENT_TYPE := APPLICATION_JSON] && t.body == s.body + [result]
    ensures !result.Obj? ==> t.headers == s.headers
    ensures result != Null && result != Undefined && result != Str("") ==> t.status == s.status && t.body == s.body + [result]
  {
    if result == Null then s.(ends := s.ends + 1)
    else if result == Undefined then s.(status := 404, body := s.body + [default404], ends := s.ends + 1)
    else if result.Obj? then
      s.(headers := s.headers[CONTENT_TYPE := APPLICATION_JSON], body := s.body + [result], ends := s.ends + 1)
    else if result == Str("") then s.(status := 204, ends := s.ends + 1)
    else s.(body := s.body + [result], ends := s.ends + 1)
  }

  /** The response after an error reply: the status `code`, the one body `message`, and the end. */
  function OnFailure(s: Reply, code: int, message: JsValue): (t: Reply)
    ensures t.status == code && t.headers == s.headers
    ensures t.body == s.body + [message] && t.ends == s.ends + 1
  {
    Reply(code, s.headers, s.body + [message], s.ends + 1)
  }

  /** The controller method name each verb selects. */
  const VERB_METHODS: map<string, string> :=
    map["GET" := "get", "POST" := "post", "PUT" := "put", "DELETE" := "delete", "OPTIONS" := "options"]

  /** What `getFunction` returns: a method of the controller, or the stand-in `() => ''` for OPTIONS. */
  datatype Handler = Method(name: string) | EmptyReply

  /**
   * `getFunction(verb, controller)`, where `methods` are the function-valued
   * properties the controller exposes: each known verb selects its lower-case
   * method when the controller has it; OPTIONS without an `options` method
   * still answers, with `''`; anything else selects nothing.
   */
  function GetFunction(verb: string, methods: set<string>): (r: Option<Handler>)
    ensures r.None? <==> verb !in VERB_METHODS || (verb != "OPTIONS" && VERB_METHODS[verb] !in methods)
    ensures r.Some? && r.value.Method? ==> verb in VERB_METHODS && r.value.name == VERB_METHODS[verb] && r.value.name in methods
    ensures r == Some(EmptyReply) <==> verb == "OPTIONS" && "options" !in methods
  {
    if verb == "GET" && "get" in methods then Some(Method("get"))
    else if verb == "POST" && "post" in methods then Some(Method("post"))
    else if verb == "PUT" && "put" in methods then Some(Method("put"))
    else if verb == "DELETE" && "delete" in methods then Some(Method("delete"))
    else if verb == "OPTIONS" then
      if "options" in methods then Some(Method("options")) else Some(EmptyReply)
    else None
  }

  /** What the selected handler yields when it is applied: the stand-in always yields `''`. */
  function Invoke(h: Handler, call: Outcome<JsValue>): (r: Outcome<JsValue>)
    ensures h.EmptyReply? ==> r == Value(Str(""))
    ensures h.Method? ==> r == call
  {
    match h
    case EmptyReply => Value(Str(""))
    case Method(_) => call
  }

  /** How a request ends: `handleResult` with a value, 401, or (when a step threw) 500. */
  datatype Ending = Replied(result: JsValue) | Unauthorized | Failed

  /** The response after a request ends as `e`, given the configured default bodies. */
  function Finish(s: Reply, e: Ending, default401: JsValue, default404: JsValue, default500: JsValue): (t: Reply)
    ensures t.ends == s.ends + 1
    ensures e == Unauthorized ==> t.status == 401 && t.body == s.body + [default401]
    ensures e == Failed ==> t.status == 500 && t.body == s.body + [default500]
    ensures e.Replied? ==> t == OnResult(s, e.result, default404)
  {
    match e
    case Replied(v) => OnResult(s, v, default404)
    case Unauthorized => OnFailure(s, 401, default401)
    case Failed => OnFailure(s, 500, default500)
  }

  /** An OPTIONS request to a controller without an `options` method is answered with 204 and no body. */
  lemma OptionsFallback(s: Reply, methods: set<string>, call: Outcome<JsValue>, default404: JsValue)
    requires "options" !in methods
    ensures GetFunction("OPTIONS", methods) == Some(EmptyReply)
    ensures var t := OnResult(s, Invoke(EmptyReply, call).v, default404);
      t.status == 204 && t.body == s.body && t.headers == s.headers
  {
  }

  /** `new controllerClass(...)` returns an instance: the value is a class whose constructor does not throw. */
  predicate Constructible(v: Value)
  {
    v.ClassRef? && !v.cls.ctorThrows
  }

  /**
   * How `handleController` ends, given what `hasAccess` does (`access`), the
   * resolved controller class, the request's verb and what the selected
   * controller method does (`call`): a throwing or rejecting access check is
   * a 500; a falsy access result is a 401 and nothing is constructed; a
   * constructor that throws is a 500; a controller without a method for the
   * verb is a 404; otherwise the method's result is the reply, or a 500 when
   * it throws.
   */
  function ControllerEnding(access: Outcome<JsValue>, cls: Value, verb: string, call: Outcome<JsValue>): (e: Ending)
    ensures e == Unauthorized <==> access.Value? && !Truthy(access.v)
    ensures e.Replied? ==> access.Value? && Truthy(access.v) && Constructible(cls)
    ensures e == Failed <==>
      || access.Throws?
      || (access.Value? && Truthy(access.v) && !Constructible(cls))
      || (access.Value? && Truthy(access.v) && Constructible(cls) &&
          GetFunction(verb, cls.cls.methods).Some? && Invoke(GetFunction(verb, cls.cls.methods).value, call).Throws?)
    ensures access.Value? && Truthy(access.v) && Constructible(cls) && GetFunction(verb, cls.cls.methods).None? ==>
      e == Replied(Undefined)
    ensures e.Replied? && GetFunction(verb, cls.cls.methods).Some? ==>
      Invoke(GetFunction(verb, cls.cls.methods).value, call) == Value(e.result)
  {
    match access
    case Throws => Failed
    case Value(a) =>
      if !Truthy(a) then Unauthorized
      else if !Constructible(cls) then Failed
      else match GetFunction(verb, cls.cls.methods)
        case None => Replied(Undefined)
        case Some(h) =>
          match Invoke(h, call)
          case Throws => Failed
          case Value(v) => Replied(v)
  }

  /**
   * On a response still at status 200, the final status tells the endings
   * apart: 401 only for a refused request, 500 only for a failure, 404 only
   * for an `undefined` reply and 204 only for `''`.
   */
  lemma StatusLadder(s: Reply, e: Ending, default401: JsValue, default404: JsValue, default500: JsValue)
    requires s.status == 200
    ensures var t := Finish(s, e, default401, default404, default500);
      && (t.status == 401 <==> e == Unauthorized)
      && (t.status == 500 <==> e == Failed)
      && (t.status == 404 <==> e == Replied(Undefined))
      && (t.status == 204 <==> e == Replied(Str("")))
      && (t.status == 200 <==> e.Replied? && e.result != Undefined && e.result != Str(""))
  {
  }
}
