/** `src/core/router.rs`: request methods, the per-method route tables (explicit map,
    parameter trie, wildcard map), registration, resolution of a request to a handler,
    and the redirect rewrite applied after a handler ran. */
module Router {
  import opened Text
  import opened Handler
  import opened Common
  import opened Trie
  import opened RouteParser

  /** `REST`: the request method a table is registered under. */
  datatype Rest = GET | PATCH | POST | PUT | DELETE | OPTIONS | OTHER(token: string)

  /** `ROUTE_ALL`: the catch-all table that `all` registers into. */
  const RouteAll: Rest := OTHER("*")

  /** `RequestPath`: how a registered path is to be matched. */
  datatype RequestPath = Explicit(path: string) | ExplicitWithParams(path: string) | WildCard(pattern: string)

  /** `RegexRoute`: the compiled pattern (kept as the text it was compiled from) and its handler. */
  datatype RegexRoute = RegexRoute(pattern: string, handler: Callback)

  /** `RouteMap`: one method's three tables. */
  datatype RouteMap = RouteMap(explicit: map<string, Callback>, trie: RouteTrie, wildcard: map<string, RegexRoute>)

  /** `RouteMap::new`. */
  function NewRouteMap(): (rm: RouteMap)
    ensures rm.explicit == map[] && rm.wildcard == map[] && IsEmpty(rm.trie)
  {
    RouteMap(map[], Initialize(), map[])
  }

  /** Every wildcard entry holds a pattern that compiled, stored under its lowercased text. */
  predicate WildcardsValid(rm: RouteMap, re: Engine)
  {
    forall k :: k in rm.wildcard ==> re.compiles(rm.wildcard[k].pattern) && k == Lower(rm.wildcard[k].pattern)
  }

  /** What `add(key, v, false)` promises: only the lowercased key can appear, every existing
      entry is kept, and `v` is stored only when that key was absent. */
  predicate FirstWins<T(==)>(m: map<string, T>, m': map<string, T>, key: string, v: T)
  {
    && m'.Keys == m.Keys + (if key == "" then {} else {Lower(key)})
    && (forall k :: k in m ==> m'[k] == m[k])
    && (key != "" && Lower(key) !in m ==> m'[Lower(key)] == v)
  }

  /** The outcome of `RouteMap::insert`: the updated tables, or a panic. */
  datatype Registration = Registered(routes: RouteMap) | Fatal

  /** The marker test of `insert`: the path holds "/:" or ":\". */
  predicate HasParams(p: string)
  {
    ContainsPair(p, '/', ':') || ContainsPair(p, ':', '\\')
  }

  /** `RouteMap::insert`. */
  function InsertPath(rm: RouteMap, path: RequestPath, cb: Callback, re: Engine): (r: Registration)
    // the panics: a bad explicit path, an empty pattern, a malformed or colliding parameter route
    ensures path.Explicit? ==> (r.Fatal? <==> path.path == "" || path.path[0] != '/')
    ensures path.WildCard? ==> (r.Fatal? <==> path.pattern == "")
    ensures path.ExplicitWithParams? ==>
      (r.Fatal? <==> HasParams(path.path) && (ParseRoute(path.path, re).Malformed?
                       || AddRoute(rm.trie, ParseRoute(path.path, re).fields, cb).None?))
    // explicit paths, and parameter paths without a marker, go to the explicit map, first wins
    ensures r.Registered? && (path.Explicit? || (path.ExplicitWithParams? && !HasParams(path.path))) ==>
      r.routes.trie == rm.trie && r.routes.wildcard == rm.wildcard
      && FirstWins(rm.explicit, r.routes.explicit, path.path, cb)
    // a wildcard is added only when its raw text is not a key yet and it compiles
    ensures r.Registered? && path.WildCard? ==>
      r.routes.explicit == rm.explicit && r.routes.trie == rm.trie
      && (path.pattern in rm.wildcard || !re.compiles(path.pattern) ==> r.routes.wildcard == rm.wildcard)
      && (path.pattern !in rm.wildcard && re.compiles(path.pattern) ==>
            FirstWins(rm.wildcard, r.routes.wildcard, path.pattern, RegexRoute(path.pattern, cb)))
    // a parameter route goes into the trie as the parsed fields
    ensures r.Registered? && path.ExplicitWithParams? && HasParams(path.path) ==>
      r.routes.explicit == rm.explicit && r.routes.wildcard == rm.wildcard
      && r.routes.trie == AddRoute(rm.trie, ParseRoute(path.path, re).fields, cb).value
      && DistinctParams(ParseRoute(path.path, re).fields)
    // the wildcard table only ever holds compiled patterns under their lowercased text
    ensures r.Registered? && WildcardsValid(rm, re) ==> WildcardsValid(r.routes, re)
  {
    match path
    case Explicit(p) =>
      if p == "" || p[0] != '/' then Fatal
      else Registered(rm.(explicit := Add(rm.explicit, p, cb, false).0))
    case WildCard(p) =>
      if p == "" then Fatal
      else if p in rm.wildcard then Registered(rm)
      else if re.compiles(p) then Registered(rm.(wildcard := Add(rm.wildcard, p, RegexRoute(p, cb), false).0))
      else Registered(rm)
    case ExplicitWithParams(p) =>
      if !HasParams(p) then Registered(rm.(explicit := Add(rm.explicit, p, cb, false).0))
      else
        match ParseRoute(p, re)
        case Malformed => Fatal
        case Parsed(fields) =>
          match AddRoute(rm.trie, fields, cb)
          case None => Fatal
          case Some(t) => Registered(rm.(trie := t))
  }

  // ---------------------------------------------------------------------------
  // Resolution

  /** `search_wildcard_router` may return the handler of any entry whose pattern matches
      (the map is visited in hash order), and returns None only when none matches. */
  ghost predicate WildcardResult(routes: map<string, RegexRoute>, uri: string, cb: Option<Callback>, re: Engine)
  {
    && (cb.Some? ==> exists k :: k in routes && re.matches(routes[k].pattern, uri) && routes[k].handler == cb.value)
    && (cb.None? <==> forall k :: k in routes ==> !re.matches(routes[k].pattern, uri))
  }

  /** `search_wildcard_router`: the first matching entry in an unspecified visiting order. */
  method SearchWildcard(routes: map<string, RegexRoute>, uri: string, re: Engine) returns (cb: Option<Callback>)
    ensures WildcardResult(routes, uri, cb, re)
  {
    var left := routes.Keys;
    while left != {}
      invariant left <= routes.Keys
      invariant forall k :: k in routes && k !in left ==> !re.matches(routes[k].pattern, uri)
      decreases |left|
    {
      var k :| k in left;
      if re.matches(routes[k].pattern, uri) {
        return Some(routes[k].handler);
      }
      left := left - {k};
    }
    return None;
  }

  /** The segments `search_params_router` looks up: the URI without its leading and
      trailing '/'s, split at every '/'. */
  function UriSegments(uri: string): (r: seq<string>)
    ensures |r| >= 1 && Join(r, '/') == TrimWith(uri, IsSlash)
    ensures forall i :: 0 <= i < |r| ==> '/' !in r[i]
  {
    Split(TrimWith(uri, IsSlash), '/')
  }

  /** `search_params_router`: a trie lookup from an empty parameter stack. */
  method SearchParamsRouter(t: RouteTrie, uri: string, re: Engine) returns (cb: Option<Callback>, bindings: Params)
    ensures (cb, bindings) == Trie.Find(t.root, UriSegments(uri), [], re)
    ensures cb.Some? ==> Routes(t.root, UriSegments(uri), cb.value, re)
  {
    cb, bindings := RecursiveFind(t.root, UriSegments(uri), [], re);
    if cb.Some? {
      FindSound(t.root, UriSegments(uri), [], re);
    }
  }

  /** The parameter map after inserting the bindings one after the other. */
  function BindAll(params: map<string, string>, bs: Params): map<string, string>
  {
    if |bs| == 0 then params
    else BindAll(params, bs[..|bs| - 1])[bs[|bs| - 1].0 := bs[|bs| - 1].1]
  }

  /** A name bound several times ends up with the value of its last binding. */
  lemma {:induction false} BindAllLastWins(params: map<string, string>, bs: Params, i: nat)
    requires i < |bs|
    requires forall j :: i < j < |bs| ==> bs[j].0 != bs[i].0
    ensures bs[i].0 in BindAll(params, bs) && BindAll(params, bs)[bs[i].0] == bs[i].1
  {
    if i < |bs| - 1 {
      BindAllLastWins(params, bs[..|bs| - 1], i);
    }
  }

  /** A name no binding mentions keeps its entry, or its absence. */
  lemma {:induction false} BindAllKeeps(params: map<string, string>, bs: Params, k: string)
    requires forall j :: 0 <= j < |bs| ==> bs[j].0 != k
    ensures k in BindAll(params, bs) <==> k in params
    ensures k in params ==> BindAll(params, bs)[k] == params[k]
  {
    if |bs| > 0 {
      BindAllKeeps(params, bs[..|bs| - 1], k);
    }
  }

  /** `RouteMap::seek_path`: the explicit map by the raw URI first, then the trie (whose
      bindings are copied into the parameter map), then the wildcard map. */
  ghost predicate SeekPathResult(rm: RouteMap, uri: string, params: map<string, string>,
                                 cb: Option<Callback>, bound: map<string, string>, re: Engine)
  {
    if uri in rm.explicit then cb == Some(rm.explicit[uri]) && bound == params
    else
      var hit := if IsEmpty(rm.trie) then (None, []) else Trie.Find(rm.trie.root, UriSegments(uri), [], re);
      if hit.0.Some? then cb == hit.0 && bound == BindAll(params, hit.1)
      else bound == params && WildcardResult(rm.wildcard, uri, cb, re)
  }

  /** The loop of `seek_path` that copies a trie hit's bindings into the parameter map. */
  method CopyBindings(params: map<string, string>, bindings: Params) returns (bound: map<string, string>)
    ensures bound == BindAll(params, bindings)
  {
    bound := params;
    var i := 0;
    while i < |bindings|
      invariant 0 <= i <= |bindings|
      invariant bound == BindAll(params, bindings[..i])
    {
      assert bindings[..i + 1][..i] == bindings[..i];
      bound := bound[bindings[i].0 := bindings[i].1];
      i := i + 1;
    }
    assert bindings[..|bindings|] == bindings;
  }

  method SeekPath(rm: RouteMap, uri: string, params: map<string, string>, re: Engine)
    returns (cb: Option<Callback>, bound: map<string, string>)
    ensures SeekPathResult(rm, uri, params, cb, bound, re)
  {
    if uri in rm.explicit {
      return Some(rm.explicit[uri]), params;
    }
    if !IsEmpty(rm.trie) {
      var found, bindings := SearchParamsRouter(rm.trie, uri, re);
      if found.Some? {
        bound := CopyBindings(params, bindings);
        return found, bound;
      }
    }
    bound := params;
    if |rm.wildcard| != 0 {
      cb := SearchWildcard(rm.wildcard, uri, re);
      return;
    }
    return None, bound;
  }

  // ---------------------------------------------------------------------------
  // Registration followed by resolution

  /** An explicit path that is already lowercase and new to its table resolves to its handler,
      with the parameter map untouched. */
  lemma RegisteredExplicitFound(rm: RouteMap, p: string, cb: Callback, re: Engine,
                                params: map<string, string>, found: Option<Callback>, bound: map<string, string>)
    requires InsertPath(rm, Explicit(p), cb, re).Registered?
    requires Lower(p) == p && p !in rm.explicit
    requires SeekPathResult(InsertPath(rm, Explicit(p), cb, re).routes, p, params, found, bound, re)
    ensures found == Some(cb) && bound == params
  {
  }

  /** Registration lowercases the key but resolution does not: a new explicit path with an
      upper-case letter never reaches its handler through the explicit map. */
  lemma MixedCaseExplicitMissed(rm: RouteMap, p: string, cb: Callback, re: Engine)
    requires InsertPath(rm, Explicit(p), cb, re).Registered?
    requires Lower(p) != p && p !in rm.explicit
    ensures p !in InsertPath(rm, Explicit(p), cb, re).routes.explicit
  {
  }

  /** A wildcard that compiled and was new is never ignored: whenever it matches the URI and
      neither the explicit map nor the trie answers first, some wildcard handler is returned. */
  lemma RegisteredWildcardAnswers(rm: RouteMap, p: string, cb: Callback, re: Engine, uri: string,
                                  params: map<string, string>, found: Option<Callback>, bound: map<string, string>)
    requires InsertPath(rm, WildCard(p), cb, re).Registered?
    requires p !in rm.wildcard && Lower(p) !in rm.wildcard && re.compiles(p) && re.matches(p, uri)
    requires SeekPathResult(InsertPath(rm, WildCard(p), cb, re).routes, uri, params, found, bound, re)
    ensures found.Some?
  {
    var routes := InsertPath(rm, WildCard(p), cb, re).routes;
    assert Lower(p) in routes.wildcard && routes.wildcard[Lower(p)] == RegexRoute(p, cb);
  }

  // ---------------------------------------------------------------------------
  // Redirects

  /** The `Location` value written for a redirect target: the target, with a '/' in front
      when it does not start with one. */
  predicate IsLocationFor(loc: string, redirect: string)
  {
    |loc| > 0 && loc[0] == '/' && (loc == redirect || loc == "/" + redirect)
  }

  /** What `handle_request` does to the response once the callback returned: a non-empty
      redirect becomes a 301 with a `Location` header replacing any earlier one. */
  function Redirected(resp: Response): (r: Response)
    ensures resp.redirect == "" ==> r == resp
    ensures resp.redirect != "" ==>
      && r.status == 301
      && r.redirect == resp.redirect && r.keepAlive == resp.keepAlive && r.headerOnly == resp.headerOnly
      && r.headers.Keys == resp.headers.Keys + {"Location"}
      && (forall k :: k in resp.headers && k != "Location" ==> r.headers[k] == resp.headers[k])
      && IsLocationFor(r.headers["Location"], resp.redirect)
  {
    if resp.redirect == "" then resp
    else
      var loc := if resp.redirect[0] == '/' then resp.redirect else "/" + resp.redirect;
      resp.(headers := resp.headers["Location" := loc], status := 301)
  }

  /** Applying the rewrite twice changes nothing more: the redirect target is kept, so the
      same `Location` is written again. */
  lemma RedirectedIdempotent(resp: Response)
    ensures Redirected(Redirected(resp)) == Redirected(resp)
  {
    var r := Redirected(resp);
    if resp.redirect != "" {
      assert r.headers["Location" := r.headers["Location"]] == r.headers;
    }
  }

  /** `handle_request`: run the callback (an opaque function of the request and the
      response), then rewrite a redirect. */
  method HandleRequest<Req>(invoke: (Callback, Req, Response) -> Response, cb: Callback, req: Req, resp: Response)
    returns (r: Response)
    ensures r == Redirected(invoke(cb, req, resp))
  {
    r := invoke(cb, req, resp);
    var redirect := r.redirect;
    if redirect != "" {
      if redirect[0] != '/' {
        redirect := "/" + redirect;
      }
      r := r.(headers := r.headers["Location" := redirect]);
      r := r.(status := 301);
    }
  }

  // ---------------------------------------------------------------------------
  // The per-method store

  /** `add_route` on the store as a value: the method's table (a new one if missing) gets
      the path, or the registration panics. */
  function Register(store: map<Rest, RouteMap>, m: Rest, path: RequestPath, cb: Callback, re: Engine)
    : (r: Option<map<Rest, RouteMap>>)
    ensures r.Some? ==> r.value.Keys == store.Keys + {m}
    ensures r.Some? ==> forall k :: k in store && k != m ==> r.value[k] == store[k]
    ensures r.Some? <==> InsertPath(if m in store then store[m] else NewRouteMap(), path, cb, re).Registered?
  {
    match InsertPath(if m in store then store[m] else NewRouteMap(), path, cb, re)
    case Registered(rm) => Some(store[m := rm])
    case Fatal => None
  }

  /** Registration keeps every table's wildcard entries compiled and keyed by their text. */
  lemma RegisterKeepsValid(store: map<Rest, RouteMap>, m: Rest, path: RequestPath, cb: Callback, re: Engine)
    requires forall k :: k in store ==> WildcardsValid(store[k], re)
    requires Register(store, m, path, cb, re).Some?
    ensures forall k :: k in Register(store, m, path, cb, re).value ==> WildcardsValid(Register(store, m, path, cb, re).value[k], re)
  {
    var base := if m in store then store[m] else NewRouteMap();
    assert WildcardsValid(base, re);
  }

  /** The tables `seek_handler` consults first: the request method's own, else GET's for a
      header-only request, else none. */
  function Primary(store: map<Rest, RouteMap>, m: Rest, headerOnly: bool): (r: Option<Rest>)
    ensures r.Some? ==> r.value in store
    ensures m in store ==> r == Some(m)
    ensures m !in store && r.Some? ==> headerOnly && r == Some(GET)
  {
    if m in store then Some(m) else if headerOnly && GET in store then Some(GET) else None
  }

  /** A table in which `uri` finds nothing. */
  ghost predicate Misses(rm: RouteMap, uri: string, re: Engine)
  {
    SeekPathResult(rm, uri, map[], None, map[], re)
  }

  /** A lookup that finds nothing hands back the parameter map it was given; one that finds
      a handler is not a miss. */
  lemma SeekPathMiss(rm: RouteMap, uri: string, cb: Option<Callback>, bound: map<string, string>, re: Engine)
    requires SeekPathResult(rm, uri, map[], cb, bound, re)
    ensures cb.None? <==> Misses(rm, uri, re)
    ensures cb.None? ==> bound == map[]
  {
  }

  /** What `seek_handler` sends: the primary table's answer when it has one, else the
      catch-all table's answer, else nothing; the parameter map starts empty each time. */
  ghost predicate HandlerResult(store: map<Rest, RouteMap>, m: Rest, uri: string, headerOnly: bool,
                                cb: Option<Callback>, params: map<string, string>, re: Engine)
  {
    var p := Primary(store, m, headerOnly);
    if p.Some? && !Misses(store[p.value], uri, re) then SeekPathResult(store[p.value], uri, map[], cb, params, re)
    else if RouteAll in store then SeekPathResult(store[RouteAll], uri, map[], cb, params, re)
    else cb == None && params == map[]
  }

  /** `Route`: the tables by method, and the optional authentication gate. */
  class Route {
    var store: map<Rest, RouteMap>
    var auth: Option<AuthFunc>

    /** Every table holds only compiled wildcards. */
    ghost predicate Valid(re: Engine)
      reads this
    {
      forall k :: k in store ==> WildcardsValid(store[k], re)
    }

    /** `Route::new`. */
    constructor ()
      ensures store == map[] && auth == None
    {
      store := map[];
      auth := None;
    }

    /** `set_auth_func`. */
    method SetAuthFunc(f: Option<AuthFunc>)
      modifies this
      ensures auth == f && store == old(store)
    {
      auth := f;
    }

    /** `add_route`: `ok` is false where the source panics, and then nothing changed. */
    method AddRoute(m: Rest, path: RequestPath, cb: Callback, re: Engine) returns (ok: bool)
      modifies this
      ensures ok == Register(old(store), m, path, cb, re).Some?
      ensures store == (if ok then Register(old(store), m, path, cb, re).value else old(store))
      ensures auth == old(auth)
      ensures old(Valid(re)) ==> Valid(re)
    {
      var base := if m in store then store[m] else NewRouteMap();
      var r := InsertPath(base, path, cb, re);
      if r.Fatal? {
        return false;
      }
      if old(Valid(re)) {
        RegisterKeepsValid(store, m, path, cb, re);
      }
      store := store[m := r.routes];
      return true;
    }

    method Get(path: RequestPath, cb: Callback, re: Engine) returns (ok: bool)
      modifies this
      ensures ok == Register(old(store), GET, path, cb, re).Some?
      ensures store == (if ok then Register(old(store), GET, path, cb, re).value else old(store))
      ensures auth == old(auth)
      ensures old(Valid(re)) ==> Valid(re)
    {
      ok := AddRoute(GET, path, cb, re);
    }

    method Patch(path: RequestPath, cb: Callback, re: Engine) returns (ok: bool)
      modifies this
      ensures ok == Register(old(store), PATCH, path, cb, re).Some?
      ensures store == (if ok then Register(old(store), PATCH, path, cb, re).value else old(store))
      ensures auth == old(auth)
      ensures old(Valid(re)) ==> Valid(re)
    {
      ok := AddRoute(PATCH, path, cb, re);
    }

    method Post(path: RequestPath, cb: Callback, re: Engine) returns (ok: bool)
      modifies this
      ensures ok == Register(old(store), POST, path, cb, re).Some?
      ensures store == (if ok then Register(old(store), POST, path, cb, re).value else old(store))
      ensures auth == old(auth)
      ensures old(Valid(re)) ==> Valid(re)
    {
      ok := AddRoute(POST, path, cb, re);
    }

    method Put(path: RequestPath, cb: Callback, re: Engine) returns (ok: bool)
      modifies this
      ensures ok == Register(old(store), PUT, path, cb, re).Some?
      ensures store == (if ok then Register(old(store), PUT, path, cb, re).value else old(store))
      ensures auth == old(auth)
      ensures old(Valid(re)) ==> Valid(re)
    {
      ok := AddRoute(PUT, path, cb, re);
    }

    method Delete(path: RequestPath, cb: Callback, re: Engine) returns (ok: bool)
      modifies this
      ensures ok == Register(old(store), DELETE, path, cb, re).Some?
      ensures store == (if ok then Register(old(store), DELETE, path, cb, re).value else old(store))
      ensures auth == old(auth)
      ensures old(Valid(re)) ==> Valid(re)
    {
      ok := AddRoute(DELETE, path, cb, re);
    }

    method Options(path: RequestPath, cb: Callback, re: Engine) returns (ok: bool)
      modifies this
      ensures ok == Register(old(store), OPTIONS, path, cb, re).Some?
      ensures store == (if ok then Register(old(store), OPTIONS, path, cb, re).value else old(store))
      ensures auth == old(auth)
      ensures old(Valid(re)) ==> Valid(re)
    {
      ok := AddRoute(OPTIONS, path, cb, re);
    }

    /** `other`: an empty method name panics; otherwise the table of the uppercased name. */
    method Other(name: string, path: RequestPath, cb: Callback, re: Engine) returns (ok: bool)
      modifies this
      ensures name == "" ==> !ok && store == old(store)
      ensures name != "" ==> ok == Register(old(store), OTHER(Upper(name)), path, cb, re).Some?
      ensures name != "" ==> store == (if ok then Register(old(store), OTHER(Upper(name)), path, cb, re).value else old(store))
      ensures auth == old(auth)
      ensures old(Valid(re)) ==> Valid(re)
    {
      if name == "" {
        return false;
      }
      ok := AddRoute(OTHER(Upper(name)), path, cb, re);
    }

    /** `all`: `other("*")`, which lands in the catch-all table. */
    method All(path: RequestPath, cb: Callback, re: Engine) returns (ok: bool)
      modifies this
      ensures ok == Register(old(store), RouteAll, path, cb, re).Some?
      ensures store == (if ok then Register(old(store), RouteAll, path, cb, re).value else old(store))
      ensures auth == old(auth)
      ensures old(Valid(re)) ==> Valid(re)
    {
      assert Upper("*") == "*";
      ok := Other("*", path, cb, re);
    }

    /** `seek_handler` (the pair it sends on the channel is returned): the primary table,
        then the catch-all table when nothing was found. */
    method SeekHandler(m: Rest, uri: string, headerOnly: bool, re: Engine)
      returns (cb: Option<Callback>, params: map<string, string>)
      ensures HandlerResult(store, m, uri, headerOnly, cb, params, re)
    {
      cb := None;
      params := map[];
      var primary := Primary(store, m, headerOnly);
      if primary.Some? {
        cb, params := SeekPath(store[primary.value], uri, params, re);
        SeekPathMiss(store[primary.value], uri, cb, params, re);
      }
      if cb.None? && RouteAll in store {
        cb, params := SeekPath(store[RouteAll], uri, params, re);
      }
    }
  }
}
