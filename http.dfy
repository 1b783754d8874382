/** The request/response objects the middlewares work on. `Response` is the part of
    `customResponse` the core uses: `status(code)` and the `setCookie` helper that
    appends to the `Set-Cookie` header list. `Request` holds the fields the core
    reads and writes: the parsed cookies, the client address and `req.session`. */
module Http {
  import opened Wrappers
  import Session

  /** The value of a response header: a single string or a list of strings. */
  datatype HeaderValue = Text(text: string) | Many(items: seq<string>)

  /** `RouteError(status, message)`, the error a middleware throws to stop a request. */
  datatype RouteError = RouteError(status: int, message: string)

  /** What a middleware does with the request: let it continue, or throw. */
  datatype Outcome = Next | Reject(error: RouteError)

  /** A header value is falsy in JavaScript when it is the empty string. */
  predicate Falsy(v: Option<HeaderValue>)
  {
    v.None? || v == Some(Text(""))
  }

  /** The cookies already in the `Set-Cookie` header, in order, as `setCookie` sees them. */
  function PriorCookies(current: Option<HeaderValue>): seq<string>
  {
    match current
    case None => []
    case Some(Text(s)) => if s == "" then [] else [s]
    case Some(Many(xs)) => xs
  }

  /** The new `Set-Cookie` list: the prior cookies, in order, then `cookie` at the end. */
  function AppendCookie(current: Option<HeaderValue>, cookie: string): (cookies: seq<string>)
    ensures |cookies| == |PriorCookies(current)| + 1
    ensures cookies[..|cookies| - 1] == PriorCookies(current) && cookies[|cookies| - 1] == cookie
  {
    if Falsy(current) then [cookie]
    else match current.value
      case Many(xs) => xs + [cookie]
      case Text(s) => [s, cookie]
  }

  /** Two `setCookie` calls in a row keep both cookies, in call order, after the prior ones. */
  lemma AppendCookieTwice(current: Option<HeaderValue>, a: string, b: string)
    ensures AppendCookie(Some(Many(AppendCookie(current, a))), b) == PriorCookies(current) + [a, b]
  {
    var first := AppendCookie(current, a);
    assert first == PriorCookies(current) + [a];
  }

  function Lookup(headers: map<string, HeaderValue>, name: string): Option<HeaderValue>
  {
    if name in headers then Some(headers[name]) else None
  }

  class Response {
    var statusCode: int
    var headers: map<string, HeaderValue>

    constructor ()
      ensures statusCode == 200 && headers == map[]
    {
      statusCode := 200;
      headers := map[];
    }

    /** `res.setHeader(name, value)` of Node's `ServerResponse`. */
    method SetHeader(name: string, value: HeaderValue)
      modifies this`headers
      ensures headers == old(headers)[name := value]
    {
      headers := headers[name := value];
    }

    /** `res.status(code)`: sets the status and returns the same response. */
    method Status(code: int) returns (r: Response)
      modifies this`statusCode
      ensures r == this && statusCode == code
    {
      statusCode := code;
      r := this;
    }

    /** `res.json(data)`, its header: the content type is set to `text/json`. */
    method Json()
      modifies this`headers
      ensures headers == old(headers)["Content-Type" := Text("text/json")]
    {
      SetHeader("Content-Type", Text("text/json"));
    }

    /** `res.setCookie(cookie)`: a missing (or empty) header becomes `[cookie]`, a list
        gets `cookie` pushed at its end, a single value `v` becomes `[v, cookie]`. */
    method SetCookie(cookie: string)
      modifies this`headers
      ensures headers == old(headers)["Set-Cookie" := Many(AppendCookie(Lookup(old(headers), "Set-Cookie"), cookie))]
    {
      var current := Lookup(headers, "Set-Cookie");
      if current.None? || current.value == Text("") {
        SetHeader("Set-Cookie", Many([cookie]));
        return;
      }
      if current.value.Many? {
        var items := current.value.items + [cookie];
        SetHeader("Set-Cookie", Many(items));
        return;
      }
      SetHeader("Set-Cookie", Many([current.value.text, cookie]));
    }
  }

  class Request {
    var cookies: map<string, string>
    var ip: string
    var session: Option<Session.SessionInfo>

    constructor (cookies: map<string, string>, ip: string)
      ensures this.cookies == cookies && this.ip == ip && session == None
    {
      this.cookies := cookies;
      this.ip := ip;
      this.session := None;
    }
  }
}
