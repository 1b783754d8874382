/** The router: per HTTP method, a table from route text to `{handler, middlewares}`
    kept in insertion order (the order `Object.keys` reports), the global middleware
    list, and `find`, which looks a request path up exactly and then tries the `:param`
    routes in order. Handlers and middlewares are values of the type parameters `H`
    and `M`; the router never calls them. */
module Router {
  import opened Wrappers
  import Text

  datatype RouteEntry<H, M> = RouteEntry(handler: H, middlewares: seq<M>)

  /** One method's routes: `keys` in insertion order, `entries` the dictionary. */
  datatype Table<H, M> = Table(keys: seq<string>, entries: map<string, RouteEntry<H, M>>)

  predicate ValidTable<H, M>(t: Table<H, M>)
  {
    && (forall i, j :: 0 <= i < j < |t.keys| ==> t.keys[i] != t.keys[j])
    && (forall k :: k in t.keys ==> k in t.entries)
    && (forall k :: k in t.entries ==> k in t.keys)
  }

  /** What `find` returns: the entry and the bound parameters. */
  datatype Found<H, M> = Found(route: RouteEntry<H, M>, params: map<string, string>)

  const Methods: set<string> := {"GET", "POST", "PUT", "DELETE", "HEAD"}

  /** `routes[verb][route] = entry`: an existing route keeps its place in the key
      order and has its entry replaced; a new route goes at the end. */
  function Register<H, M>(t: Table<H, M>, route: string, entry: RouteEntry<H, M>): (t': Table<H, M>)
    requires ValidTable(t)
    ensures ValidTable(t')
    ensures t'.entries == t.entries[route := entry]
    ensures route in t.entries ==> t'.keys == t.keys
    ensures route !in t.entries ==> t'.keys == t.keys + [route]
  {
    if route in t.entries then Table(t.keys, t.entries[route := entry])
    else Table(t.keys + [route], t.entries[route := entry])
  }

  /** `parts.filter(Boolean)` on strings: the non-empty ones, in order. */
  function NonEmpty(parts: seq<string>): (r: seq<string>)
    ensures forall i :: 0 <= i < |r| ==> r[i] != "" && r[i] in parts
    ensures forall x :: x in r <==> x in parts && x != ""
    ensures |r| <= |parts|
    ensures (forall i :: 0 <= i < |parts| ==> parts[i] != "") ==> r == parts
  {
    if parts == [] then []
    else if parts[0] == "" then NonEmpty(parts[1..])
    else [parts[0]] + NonEmpty(parts[1..])
  }

  /** `s.split("/").filter(Boolean)`: the path's non-empty segments, none holding `/`. */
  function Segments(s: string): (r: seq<string>)
    ensures forall i :: 0 <= i < |r| ==> r[i] != "" && '/' !in r[i]
  {
    NonEmpty(Text.Split(s, '/'))
  }

  /** A path written as `/` followed by its segments joined with `/` has exactly those
      segments. */
  lemma SegmentsOfPath(xs: seq<string>)
    requires forall i :: 0 <= i < |xs| ==> xs[i] != "" && '/' !in xs[i]
    ensures Segments("/" + Text.Join(xs, '/')) == xs
  {
    if xs == [] {
      RootSegments();
    } else {
      var parts := [""] + xs;
      LeadingSlashJoin(xs);
      Text.SplitOfJoin(parts, '/');
      assert parts[1..] == xs;
    }
  }

  lemma RootSegments()
    ensures Segments("/" + Text.Join([], '/')) == []
  {
    RootPathJoin();
    Text.SplitOfJoin(["", ""], '/');
    assert NonEmpty(["", ""]) == NonEmpty([""]) == NonEmpty([]);
  }

  lemma RootPathJoin()
    ensures Text.Join(["", ""], '/') == "/" + Text.Join([], '/')
  {
    assert ["", ""][1..] == [""];
  }

  lemma LeadingSlashJoin(xs: seq<string>)
    requires xs != []
    ensures Text.Join([""] + xs, '/') == "/" + Text.Join(xs, '/')
  {
    assert ([""] + xs)[1..] == xs;
  }

  predicate IsParam(segment: string)
  {
    |segment| > 0 && segment[0] == ':'
  }

  /** The inner loop: walks the route's segments against the request's, binding each
      `:name` to the request segment and giving up at the first literal mismatch. */
  function Bind(parts: seq<string>, req: seq<string>): Option<map<string, string>>
    requires |parts| == |req|
  {
    if parts == [] then Some(map[])
    else
      var n := |parts| - 1;
      var m := Bind(parts[..n], req[..n]);
      if m.None? then None
      else if IsParam(parts[n]) then Some(m.value[parts[n][1..] := req[n]])
      else if parts[n] != req[n] then None
      else m
  }

  /** `a[0] !== b[0]` compares `undefined` for an empty list. */
  function FirstPart(parts: seq<string>): Option<string>
  {
    if parts == [] then None else Some(parts[0])
  }

  /** One iteration of the outer loop: the parameters if `route` matches the request
      segments, `None` if the loop moves on. */
  function MatchRoute(route: string, req: seq<string>): Option<map<string, string>>
  {
    if ':' !in route then None
    else
      var parts := Segments(route);
      if |req| != |parts| then None
      else if FirstPart(req) != FirstPart(parts) then None
      else Bind(parts, req)
  }

  /** The outer loop over `keys`: the first route that matches. */
  function FirstMatch<H, M>(t: Table<H, M>, keys: seq<string>, req: seq<string>): Option<Found<H, M>>
    requires forall k :: k in keys ==> k in t.entries
  {
    if keys == [] then None
    else
      var m := MatchRoute(keys[0], req);
      if m.Some? then Some(Found(t.entries[keys[0]], m.value))
      else FirstMatch(t, keys[1..], req)
  }

  /** `find(method, pathname)`: `null` for an unknown method; the exact entry with no
      parameters when `pathname` is a route; otherwise the first `:param` route in
      key order that matches, or `null`. */
  function FindSpec<H, M>(routes: map<string, Table<H, M>>, verb: string, pathname: string): Option<Found<H, M>>
    requires forall m :: m in routes ==> ValidTable(routes[m])
  {
    if verb !in routes then None
    else
      var t := routes[verb];
      if pathname in t.entries then Some(Found(t.entries[pathname], map[]))
      else assert ValidTable(t); FirstMatch(t, t.keys, Segments(pathname))
  }

  /** When a route matches: its segment count is the request's, it has a `:`, its
      first segment is the request's first segment (even when that segment is a
      `:param`, which therefore binds only its own literal text), and every literal
      segment equals the request segment at its place. Conversely, a route with
      those properties matches. */
  lemma MatchRouteIff(route: string, req: seq<string>)
    ensures MatchRoute(route, req).Some? <==>
      var parts := Segments(route);
      && ':' in route && |parts| == |req| && |req| > 0 && parts[0] == req[0]
      && forall i :: 0 <= i < |req| && !IsParam(parts[i]) ==> parts[i] == req[i]
  {
    var parts := Segments(route);
    if ':' in route && |parts| == |req| {
      BindIff(parts, req);
      if |req| == 0 {
        ColonHasSegment(route);
      }
    }
  }

  lemma {:induction false} BindIff(parts: seq<string>, req: seq<string>)
    requires |parts| == |req|
    ensures Bind(parts, req).Some? <==> forall i :: 0 <= i < |req| && !IsParam(parts[i]) ==> parts[i] == req[i]
  {
    if parts != [] {
      var n := |parts| - 1;
      BindIff(parts[..n], req[..n]);
      assert forall i :: 0 <= i < n ==> parts[..n][i] == parts[i] && req[..n][i] == req[i];
    }
  }

  /** A route holding `:` has at least one non-empty segment. */
  lemma ColonHasSegment(route: string)
    requires ':' in route
    ensures |Segments(route)| > 0
  {
    var parts := Text.Split(route, '/');
    var k := ColonPiece(parts, route);
    NonEmptyKeeps(parts, k);
  }

  /** The piece of the split that holds the `:`. */
  lemma {:induction false} ColonPiece(parts: seq<string>, route: string) returns (k: nat)
    requires parts == Text.Split(route, '/') && ':' in route
    ensures k < |parts| && ':' in parts[k]
  {
    k := ColonInJoin(parts, '/', ':');
  }

  lemma {:induction false} ColonInJoin(parts: seq<string>, d: char, c: char) returns (k: nat)
    requires c != d && c in Text.Join(parts, d)
    ensures k < |parts| && c in parts[k]
  {
    if |parts| == 1 {
      k := 0;
    } else {
      var rest := Text.Join(parts[1..], d);
      assert Text.Join(parts, d) == parts[0] + [d] + rest;
      if c in parts[0] {
        k := 0;
      } else {
        assert c in rest;
        var j := ColonInJoin(parts[1..], d, c);
        k := j + 1;
      }
    }
  }

  lemma {:induction false} NonEmptyKeeps(parts: seq<string>, k: nat)
    requires k < |parts| && parts[k] != ""
    ensures |NonEmpty(parts)| > 0
  {
    if parts[0] == "" {
      NonEmptyKeeps(parts[1..], k - 1);
    }
  }

  /** With distinct parameter names, each `:name` is bound to the request segment
      at its own place. */
  lemma {:induction false} BindValues(parts: seq<string>, req: seq<string>, i: nat)
    requires |parts| == |req| && i < |parts| && IsParam(parts[i]) && Bind(parts, req).Some?
    requires forall j :: 0 <= j < |parts| && j != i && IsParam(parts[j]) ==> parts[j][1..] != parts[i][1..]
    ensures parts[i][1..] in Bind(parts, req).value && Bind(parts, req).value[parts[i][1..]] == req[i]
  {
    var n := |parts| - 1;
    if i < n {
      assert parts[..n][i] == parts[i];
      BindValues(parts[..n], req[..n], i);
    }
  }

  /** The outer loop returns the first matching route in key order: the route at the
      first index that matches, with its parameters. */
  lemma {:induction false} FirstMatchIsFirst<H, M>(t: Table<H, M>, keys: seq<string>, req: seq<string>, i: nat)
    requires forall k :: k in keys ==> k in t.entries
    requires i < |keys| && MatchRoute(keys[i], req).Some?
    requires forall j :: 0 <= j < i ==> MatchRoute(keys[j], req).None?
    ensures FirstMatch(t, keys, req) == Some(Found(t.entries[keys[i]], MatchRoute(keys[i], req).value))
  {
    if i > 0 {
      assert MatchRoute(keys[0], req).None?;
      assert keys[1..][i - 1] == keys[i];
      assert forall j :: 0 <= j < i - 1 ==> keys[1..][j] == keys[j + 1];
      FirstMatchIsFirst(t, keys[1..], req, i - 1);
    }
  }

  /** The outer loop finds nothing exactly when no route matches. */
  lemma {:induction false} FirstMatchNone<H, M>(t: Table<H, M>, keys: seq<string>, req: seq<string>)
    requires forall k :: k in keys ==> k in t.entries
    ensures FirstMatch(t, keys, req).None? <==> forall j :: 0 <= j < |keys| ==> MatchRoute(keys[j], req).None?
  {
    if keys != [] {
      FirstMatchNone(t, keys[1..], req);
      assert forall j :: 1 <= j < |keys| ==> keys[1..][j - 1] == keys[j];
    }
  }

  class Router<H, M> {
    var routes: map<string, Table<H, M>>
    var middlewares: seq<M>

    ghost predicate Valid()
      reads this
    {
      routes.Keys == Methods && forall m :: m in routes ==> ValidTable(routes[m])
    }

    constructor ()
      ensures Valid() && middlewares == []
      ensures forall m :: m in routes ==> routes[m] == Table([], map[])
    {
      routes := map["GET" := Table([], map[]), "POST" := Table([], map[]), "PUT" := Table([], map[]),
                    "DELETE" := Table([], map[]), "HEAD" := Table([], map[])];
      middlewares := [];
    }

    /** `routes[verb][route] = {handler, middlewares}`; no other table and no other
        route of this one changes. */
    method Add(verb: string, route: string, handler: H, middlewares: seq<M>)
      requires Valid() && verb in Methods
      modifies this`routes
      ensures Valid()
      ensures routes == old(routes)[verb := Register(old(routes)[verb], route, RouteEntry(handler, middlewares))]
    {
      var table := routes[verb];
      var entries := table.entries[route := RouteEntry(handler, middlewares)];
      var keys := if route in table.entries then table.keys else table.keys + [route];
      routes := routes[verb := Table(keys, entries)];
    }

    method Get(route: string, handler: H, middlewares: seq<M>)
      requires Valid()
      modifies this`routes
      ensures Valid()
      ensures routes == old(routes)["GET" := Register(old(routes)["GET"], route, RouteEntry(handler, middlewares))]
    {
      Add("GET", route, handler, middlewares);
    }

    method Put(route: string, handler: H, middlewares: seq<M>)
      requires Valid()
      modifies this`routes
      ensures Valid()
      ensures routes == old(routes)["PUT" := Register(old(routes)["PUT"], route, RouteEntry(handler, middlewares))]
    {
      Add("PUT", route, handler, middlewares);
    }

    method Delete(route: string, handler: H, middlewares: seq<M>)
      requires Valid()
      modifies this`routes
      ensures Valid()
      ensures routes == old(routes)["DELETE" := Register(old(routes)["DELETE"], route, RouteEntry(handler, middlewares))]
    {
      Add("DELETE", route, handler, middlewares);
    }

    method Head(route: string, handler: H, middlewares: seq<M>)
      requires Valid()
      modifies this`routes
      ensures Valid()
      ensures routes == old(routes)["HEAD" := Register(old(routes)["HEAD"], route, RouteEntry(handler, middlewares))]
    {
      Add("HEAD", route, handler, middlewares);
    }

    method Post(route: string, handler: H, middlewares: seq<M>)
      requires Valid()
      modifies this`routes
      ensures Valid()
      ensures routes == old(routes)["POST" := Register(old(routes)["POST"], route, RouteEntry(handler, middlewares))]
    {
      Add("POST", route, handler, middlewares);
    }

    /** `use(middlewares)`: appended, in order, after the ones already there. */
    method Use(middlewares: seq<M>)
      modifies this`middlewares
      ensures this.middlewares == old(this.middlewares) + middlewares
    {
      this.middlewares := this.middlewares + middlewares;
    }

    method Find(verb: string, pathname: string) returns (found: Option<Found<H, M>>)
      requires Valid()
      ensures found == FindSpec(routes, verb, pathname)
    {
      if verb !in routes {
        return None;
      }
      var routesByMethod := routes[verb];
      if pathname in routesByMethod.entries {
        return Some(Found(routesByMethod.entries[pathname], map[]));
      }
      var reqParts := Segments(pathname);
      var keys := routesByMethod.keys;
      for n := 0 to |keys|
        invariant FirstMatch(routesByMethod, keys, reqParts) == FirstMatch(routesByMethod, keys[n..], reqParts)
      {
        assert keys[n..][1..] == keys[n + 1..];
        var route := keys[n];
        if ':' !in route {
          continue;
        }
        var routeParts := Segments(route);
        if |reqParts| != |routeParts| {
          continue;
        }
        if FirstPart(reqParts) != FirstPart(routeParts) {
          continue;
        }
        var ok, params := BindParams(routeParts, reqParts);
        if ok {
          return Some(Found(routesByMethod.entries[route], params));
        }
      }
      return None;
    }
  }

  /** The inner loop of `find`: binds `params` segment by segment and stops with
      `ok = false` at the first literal segment that differs from the request's. */
  method BindParams(routeParts: seq<string>, reqParts: seq<string>) returns (ok: bool, params: map<string, string>)
    requires |routeParts| == |reqParts|
    ensures ok <==> Bind(routeParts, reqParts).Some?
    ensures ok ==> Bind(routeParts, reqParts) == Some(params)
  {
    params := map[];
    ok := true;
    var i := 0;
    while i < |reqParts|
      invariant 0 <= i <= |reqParts|
      invariant Bind(routeParts[..i], reqParts[..i]) == Some(params)
    {
      var segment := routeParts[i];
      var value := reqParts[i];
      assert routeParts[..i + 1][..i] == routeParts[..i] && reqParts[..i + 1][..i] == reqParts[..i];
      if IsParam(segment) {
        params := params[segment[1..] := value];
      } else if segment != value {
        ok := false;
        BindPrefixNone(routeParts, reqParts, i + 1);
        break;
      }
      i := i + 1;
    }
    if ok {
      assert routeParts[..i] == routeParts && reqParts[..i] == reqParts;
    }
  }

  /** Once the walk has failed on a prefix, it fails on the whole. */
  lemma {:induction false} BindPrefixNone(parts: seq<string>, req: seq<string>, k: nat)
    requires |parts| == |req| && k <= |parts| && Bind(parts[..k], req[..k]).None?
    ensures Bind(parts, req).None?
  {
    if k < |parts| {
      var n := |parts| - 1;
      assert parts[..n][..k] == parts[..k] && req[..n][..k] == req[..k];
      BindPrefixNone(parts[..n], req[..n], k);
    } else {
      assert parts[..k] == parts && req[..k] == req;
    }
  }

  /** After `get(route, handler, mws)` (or any other registration), `find` on that
      method and exactly that path returns the new entry with no parameters. */
  lemma RegisterThenFind<H, M>(routes: map<string, Table<H, M>>, verb: string, route: string, entry: RouteEntry<H, M>)
    requires verb in routes && forall m :: m in routes ==> ValidTable(routes[m])
    ensures var routes' := routes[verb := Register(routes[verb], route, entry)];
      FindSpec(routes', verb, route) == Some(Found(entry, map[]))
  {
  }

  /** Registering on one method never changes what `find` reports for another. */
  lemma RegisterOtherMethod<H, M>(routes: map<string, Table<H, M>>, verb: string, other: string, route: string,
                                  entry: RouteEntry<H, M>, pathname: string)
    requires verb in routes && other != verb && forall m :: m in routes ==> ValidTable(routes[m])
    ensures var routes' := routes[verb := Register(routes[verb], route, entry)];
      FindSpec(routes', other, pathname) == FindSpec(routes, other, pathname)
  {
  }
}
