/** The authorization gate: `guard(role)` and `optional`, the middlewares that read
    the session cookie, validate it with the session service, forward the returned
    cookie, and either reject the request or attach the session to it; and
    `roleCheck`, the role hierarchy admin > editor > user.

    Each middleware is a method of `AuthMiddleware` that mutates the response, the
    request and the session store in the source's order, and is proved equal to a
    pure function (`GuardSpec`, `OptionalSpec`) whose contract states what every
    outcome looks like. */
module Auth {
  import opened Wrappers
  import Session
  import Http
  import Text
  import Cookies

  const CacheControl: string := "private, no-store"
  const Unauthorized: Http.RouteError := Http.RouteError(401, "n\U{00E3}o autorizado")
  const Forbidden: Http.RouteError := Http.RouteError(403, "sem permiss\U{00E3}o")

  predicate KnownRole(role: string)
  {
    role == "admin" || role == "editor" || role == "user"
  }

  /** The position of a known role in the hierarchy. */
  function Rank(role: string): nat
  {
    if role == "admin" then 3 else if role == "editor" then 2 else if role == "user" then 1 else 0
  }

  /** `roleCheck(requiredRole, userRole)`: does a user with `userRole` satisfy a
      requirement of `requiredRole`? Admin satisfies every requirement, the known
      roles otherwise compare by rank, and an unknown user role satisfies nothing. */
  function RoleCheck(requiredRole: string, userRole: string): (ok: bool)
    ensures ok <==>
      userRole == "admin" || (KnownRole(userRole) && KnownRole(requiredRole) && Rank(requiredRole) <= Rank(userRole))
    ensures !KnownRole(userRole) ==> !ok
  {
    if userRole == "admin" then true
    else if userRole == "editor" then requiredRole == "editor" || requiredRole == "user"
    else if userRole == "user" then requiredRole == "user"
    else false
  }

  /** "Satisfies" is a partial order on the three known roles (not equality): reflexive
      there, transitive and antisymmetric everywhere. */
  lemma RoleCheckIsPartialOrder(a: string, b: string, c: string)
    ensures KnownRole(a) ==> RoleCheck(a, a)
    ensures RoleCheck(a, b) && RoleCheck(b, c) ==> RoleCheck(a, c)
    ensures RoleCheck(a, b) && RoleCheck(b, a) ==> a == b
  {
  }

  /** The effects of one pass through a middleware. */
  datatype GateResult = GateResult(
    outcome: Http.Outcome,
    store: Session.Store,
    headers: map<string, Http.HeaderValue>,
    attached: Option<Session.SessionInfo>)

  /** `req.cookies[COOKIE_SID_KEY]`, with a missing cookie read as the empty string
      (both are falsy to `if (!sid)`). */
  function SidOf(cookies: map<string, string>): string
  {
    if Session.CookieSidKey in cookies then cookies[Session.CookieSidKey] else ""
  }

  predicate HasCacheHeaders(headers: map<string, Http.HeaderValue>)
  {
    Http.Lookup(headers, "Cache-Control") == Some(Http.Text(CacheControl)) && Http.Lookup(headers, "Vary") == Some(Http.Text("Cookie"))
  }

  /** The cookie at the end of the `Set-Cookie` list, if there is one. */
  function LastCookie(headers: map<string, Http.HeaderValue>): Option<string>
  {
    match Http.Lookup(headers, "Set-Cookie")
    case Some(Many(items)) => if items == [] then None else Some(items[|items| - 1])
    case _ => None
  }

  function WithCacheHeaders(headers: map<string, Http.HeaderValue>): map<string, Http.HeaderValue>
  {
    headers["Cache-Control" := Http.Text(CacheControl)]["Vary" := Http.Text("Cookie")]
  }

  function WithCookie(headers: map<string, Http.HeaderValue>, cookie: string): map<string, Http.HeaderValue>
  {
    headers["Set-Cookie" := Http.Many(Http.AppendCookie(Http.Lookup(headers, "Set-Cookie"), cookie))]
  }

  /** `guard(role)`: cache headers first, on every outcome; no cookie is a 401 without
      touching the store; otherwise the store takes the validation's effect, the
      returned cookie is forwarded, and the outcome is 401 for an invalid session, 403
      for an insufficient role, or the session attached to the request. */
  function GuardSpec(role: string, cookies: map<string, string>, st: Session.Store, sha256: string -> Session.Digest,
                     now: int, headers: map<string, Http.HeaderValue>, attached: Option<Session.SessionInfo>): (g: GateResult)
    ensures HasCacheHeaders(g.headers)
    ensures SidOf(cookies) == "" ==> g.outcome == Http.Reject(Unauthorized) && g.store == st
    ensures SidOf(cookies) != "" ==>
      var v := Session.ValidateSpec(st, sha256, SidOf(cookies), now);
      && g.store == v.1
      && LastCookie(g.headers) == Some(v.0.cookie)
      && (v.0.Invalid? ==> g.outcome == Http.Reject(Unauthorized))
      && (v.0.Valid? && !RoleCheck(role, v.0.session.role) ==> g.outcome == Http.Reject(Forbidden))
      && (v.0.Valid? && RoleCheck(role, v.0.session.role) ==> g.outcome == Http.Next && g.attached == Some(v.0.session))
      && g.headers == WithCookie(WithCacheHeaders(headers), v.0.cookie)
    ensures SidOf(cookies) == "" ==> g.headers == WithCacheHeaders(headers)
    ensures g.outcome.Next? ==>
      && SidOf(cookies) != "" && g.attached.Some?
      && Session.ValidateSpec(st, sha256, SidOf(cookies), now).0.Valid?
      && Session.ValidateSpec(st, sha256, SidOf(cookies), now).0.session == g.attached.value
      && RoleCheck(role, g.attached.value.role)
    ensures g.outcome.Reject? ==> g.attached == attached
    ensures g.outcome == Http.Next || g.outcome == Http.Reject(Unauthorized) || g.outcome == Http.Reject(Forbidden)
  {
    var cached := WithCacheHeaders(headers);
    var sid := SidOf(cookies);
    if sid == "" then GateResult(Http.Reject(Unauthorized), st, cached, attached)
    else
      var (v, st') := Session.ValidateSpec(st, sha256, sid, now);
      var forwarded := WithCookie(cached, v.cookie);
      if v.Invalid? then GateResult(Http.Reject(Unauthorized), st', forwarded, attached)
      else if !RoleCheck(role, v.session.role) then GateResult(Http.Reject(Forbidden), st', forwarded, attached)
      else GateResult(Http.Next, st', forwarded, Some(v.session))
  }

  /** `optional`: never rejects. No cookie: nothing happens at all. Otherwise the store
      takes the validation's effect and the cookie is forwarded; only a valid session
      sets the cache headers and is attached. */
  function OptionalSpec(cookies: map<string, string>, st: Session.Store, sha256: string -> Session.Digest,
                        now: int, headers: map<string, Http.HeaderValue>, attached: Option<Session.SessionInfo>): (g: GateResult)
    ensures g.outcome == Http.Next
    ensures SidOf(cookies) == "" ==> g == GateResult(Http.Next, st, headers, attached)
    ensures SidOf(cookies) != "" ==>
      var v := Session.ValidateSpec(st, sha256, SidOf(cookies), now);
      && g.store == v.1
      && LastCookie(g.headers) == Some(v.0.cookie)
      && (v.0.Valid? ==> g.attached == Some(v.0.session) && g.headers == WithCacheHeaders(WithCookie(headers, v.0.cookie)))
      && (v.0.Invalid? ==> g.attached == attached && g.headers == WithCookie(headers, v.0.cookie))
  {
    var sid := SidOf(cookies);
    if sid == "" then GateResult(Http.Next, st, headers, attached)
    else
      var (v, st') := Session.ValidateSpec(st, sha256, sid, now);
      var forwarded := WithCookie(headers, v.cookie);
      if v.Invalid? then GateResult(Http.Next, st', forwarded, attached)
      else GateResult(Http.Next, st', WithCacheHeaders(forwarded), Some(v.session))
  }

  /** The headers a middleware leaves: setting the cache headers and forwarding a
      cookie, in either order, sets `Cache-Control` and `Vary`, appends the cookie to
      the `Set-Cookie` list already there, and keeps every other header. */
  lemma ForwardedHeaders(headers: map<string, Http.HeaderValue>, cookie: string, name: string)
    ensures var both := WithCookie(WithCacheHeaders(headers), cookie);
      && both == WithCacheHeaders(WithCookie(headers, cookie))
      && HasCacheHeaders(both)
      && Http.Lookup(both, "Set-Cookie") == Some(Http.Many(Http.PriorCookies(Http.Lookup(headers, "Set-Cookie")) + [cookie]))
      && (name != "Cache-Control" && name != "Vary" && name != "Set-Cookie" ==> Http.Lookup(both, name) == Http.Lookup(headers, name))
  {
    CacheNamesDiffer();
    var cached := WithCacheHeaders(headers);
    assert Http.Lookup(cached, "Set-Cookie") == Http.Lookup(headers, "Set-Cookie");
    var appended := Http.AppendCookie(Http.Lookup(headers, "Set-Cookie"), cookie);
    assert appended == Http.PriorCookies(Http.Lookup(headers, "Set-Cookie")) + [cookie] by {
      assert appended == appended[..|appended| - 1] + [appended[|appended| - 1]];
    }
    CookieCommutes(headers, appended);
  }

  lemma CookieCommutes(headers: map<string, Http.HeaderValue>, appended: seq<string>)
    requires "Set-Cookie" != "Cache-Control" && "Set-Cookie" != "Vary"
    ensures WithCacheHeaders(headers)["Set-Cookie" := Http.Many(appended)]
         == WithCacheHeaders(headers["Set-Cookie" := Http.Many(appended)])
  {
  }

  lemma CacheNamesDiffer()
    ensures "Set-Cookie" != "Cache-Control" && "Set-Cookie" != "Vary" && "Cache-Control" != "Vary"
  {
    assert "Set-Cookie"[0] != "Cache-Control"[0];
    assert "Set-Cookie"[0] != "Vary"[0];
    assert "Cache-Control"[0] != "Vary"[0];
  }

  /** A `guard("admin")` rejects a live `user` session with 403; a `guard("user")`
      admits admin, editor and user sessions alike; an unknown role is rejected by
      every guard. */
  lemma GuardRoleOutcomes(required: string, cookies: map<string, string>, st: Session.Store, sha256: string -> Session.Digest,
                          now: int, headers: map<string, Http.HeaderValue>, attached: Option<Session.SessionInfo>)
    requires SidOf(cookies) != ""
    requires Session.ValidateSpec(st, sha256, SidOf(cookies), now).0.Valid?
    ensures var role := Session.ValidateSpec(st, sha256, SidOf(cookies), now).0.session.role;
      && (required == "admin" && role == "user" ==> GuardSpec(required, cookies, st, sha256, now, headers, attached).outcome == Http.Reject(Forbidden))
      && (required == "user" && KnownRole(role) ==> GuardSpec(required, cookies, st, sha256, now, headers, attached).outcome == Http.Next)
      && (!KnownRole(role) ==> GuardSpec(required, cookies, st, sha256, now, headers, attached).outcome == Http.Reject(Forbidden))
  {
  }

  /** The cookie the session service issues carries `sid` in its `name=value` part
      (the text before the first `;`); a client that sends that part back in its
      `Cookie` header has `sid` read back by the gate, provided `sid` itself holds no
      `;` and no surrounding whitespace. */
  lemma IssuedCookieReadBack(sid: string, maxAge: Option<nat>)
    requires ';' !in sid && Text.Trimmed(sid)
    ensures var nameValue := Text.Split(Session.SidCookie(sid, maxAge), ';')[0];
      && nameValue == Session.CookieSidKey + "=" + sid
      && SidOf(Cookies.CookieMap(Some(nameValue))) == sid
  {
    SidCookieNameValue(sid, maxAge);
    NameValueReadBack(sid);
  }

  lemma SidCookieNameValue(sid: string, maxAge: Option<nat>)
    requires ';' !in sid
    ensures Text.Split(Session.SidCookie(sid, maxAge), ';')[0] == Session.CookieSidKey + "=" + sid
  {
    var a := Session.CookieSidKey + "=" + sid;
    var age := if maxAge.Some? then maxAge.value else Session.TTLSec;
    var x := Text.NatToString(age);
    var lead := "; Path=/; Max-Age=";
    var tail := "; HttpOnly; Secure; SameSite=Lax";
    assert Session.SidCookie(sid, maxAge) == a + lead + x + tail;
    assert lead == [';'] + lead[1..];
    Regroup(a, lead[1..], x, tail);
    NameValueNoSemicolon(sid);
    SplitFirstPiece(a, lead[1..] + x + tail);
  }

  lemma NameValueNoSemicolon(sid: string)
    requires ';' !in sid
    ensures ';' !in Session.CookieSidKey + "=" + sid
  {
    assert forall i :: 0 <= i < |Session.CookieSidKey| ==> Session.CookieSidKey[i] != ';';
  }

  lemma Regroup(a: string, b: string, x: string, t: string)
    ensures a + ([';'] + b) + x + t == a + [';'] + (b + x + t)
  {
  }

  lemma SplitFirstPiece(a: string, b: string)
    requires ';' !in a
    ensures Text.Split(a + [';'] + b, ';')[0] == a
  {
    Text.IndexOfSeparator(a, ';', b);
    assert (a + [';'] + b)[..|a|] == a;
  }

  lemma NameValueReadBack(sid: string)
    requires ';' !in sid && Text.Trimmed(sid)
    ensures SidOf(Cookies.CookieMap(Some(Session.CookieSidKey + "=" + sid))) == sid
  {
    var p := (Session.CookieSidKey, sid);
    assert Cookies.CleanPair(p);
    Cookies.ParseSerialize([p]);
    assert Cookies.Serialize([p]) == Session.CookieSidKey + "=" + sid;
    assert Cookies.ToMap([p]) == map[Session.CookieSidKey := sid] by {
      assert [p][..0] == [];
    }
  }

  class AuthMiddleware {
    const session: Session.SessionService

    constructor (session: Session.SessionService)
      ensures this.session == session
    {
      this.session := session;
    }

    method Guard(role: string, req: Http.Request, res: Http.Response, now: int) returns (outcome: Http.Outcome)
      modifies session`sessions, req`session, res`headers
      ensures GateResult(outcome, session.State(), res.headers, req.session)
        == GuardSpec(role, req.cookies, old(session.State()), session.sha256, now, old(res.headers), old(req.session))
    {
      res.SetHeader("Cache-Control", Http.Text("private, no-store"));
      res.SetHeader("Vary", Http.Text("Cookie"));
      var sid := if Session.CookieSidKey in req.cookies then req.cookies[Session.CookieSidKey] else "";
      if sid == "" {
        return Http.Reject(Http.RouteError(401, "n\U{00E3}o autorizado"));
      }
      var v := session.Validate(sid, now);
      res.SetCookie(v.cookie);
      if !v.Valid? {
        return Http.Reject(Http.RouteError(401, "n\U{00E3}o autorizado"));
      }
      if !RoleCheck(role, v.session.role) {
        return Http.Reject(Http.RouteError(403, "sem permiss\U{00E3}o"));
      }
      req.session := Some(v.session);
      outcome := Http.Next;
    }

    method Optional(req: Http.Request, res: Http.Response, now: int) returns (outcome: Http.Outcome)
      modifies session`sessions, req`session, res`headers
      ensures GateResult(outcome, session.State(), res.headers, req.session)
        == OptionalSpec(req.cookies, old(session.State()), session.sha256, now, old(res.headers), old(req.session))
    {
      var sid := if Session.CookieSidKey in req.cookies then req.cookies[Session.CookieSidKey] else "";
      if sid == "" {
        return Http.Next;
      }
      var v := session.Validate(sid, now);
      res.SetCookie(v.cookie);
      if !v.Valid? {
        return Http.Next;
      }
      res.SetHeader("Cache-Control", Http.Text("private, no-store"));
      res.SetHeader("Vary", Http.Text("Cookie"));
      req.session := Some(v.session);
      outcome := Http.Next;
    }
  }
}
