/** `src/router.rs`: the older flat router. Each of four methods has one map from a path
    descriptor to its callback, and a request is served by the first entry (in hash-map
    order) whose descriptor matches the request path. */
module LegacyRouter {
  import opened Text
  import opened Handler

  /** The older `REST` enum; `NONE` is its default. */
  datatype LegacyRest = NONE | GET | POST | PUT | DELETE

  const DefaultRest: LegacyRest := NONE

  /** `RequestPath` of the older router: a raw literal, an explicit literal, or a regex. */
  datatype LegacyPath = Raw(literal: string) | Explicit(literal: string) | WildCard(pattern: string)

  /** When the entry registered under `p` answers a request for `uri`: a raw literal
      answers every prefix of itself (`literal.starts_with(uri)`), an explicit literal
      only itself, and a wildcard every text its compiled pattern matches. */
  predicate Answers(p: LegacyPath, uri: string, re: Engine)
  {
    match p
    case Raw(literal) => uri <= literal
    case Explicit(literal) => literal == uri
    case WildCard(pattern) => re.compiles(pattern) && re.matches(pattern, uri)
  }

  /** The result of `seek_path`: the callback of some answering entry, and None only when
      no entry answers. */
  ghost predicate SeekResult(routes: map<LegacyPath, Callback>, uri: string, cb: Option<Callback>, re: Engine)
  {
    && (cb.Some? ==> exists p :: p in routes && Answers(p, uri, re) && routes[p] == cb.value)
    && (cb.None? <==> forall p :: p in routes ==> !Answers(p, uri, re))
  }

  /** `seek_path`: visit the entries in an unspecified order and stop at the first that
      answers. */
  method SeekPath(routes: map<LegacyPath, Callback>, uri: string, re: Engine) returns (cb: Option<Callback>)
    ensures SeekResult(routes, uri, cb, re)
  {
    var left := routes.Keys;
    while left != {}
      invariant left <= routes.Keys
      invariant forall p :: p in routes && p !in left ==> !Answers(p, uri, re)
      decreases |left|
    {
      var p :| p in left;
      match p {
        case Raw(literal) =>
          if uri <= literal {
            return Some(routes[p]);
          }
        case Explicit(literal) =>
          if literal == uri {
            return Some(routes[p]);
          }
        case WildCard(pattern) =>
          if re.compiles(pattern) && re.matches(pattern, uri) {
            return Some(routes[p]);
          }
      }
      left := left - {p};
    }
    return None;
  }

  /** The empty request path is a prefix of every raw literal, so any table holding a raw
      entry serves it. */
  lemma EmptyPathHitsRaw(routes: map<LegacyPath, Callback>, literal: string, cb: Option<Callback>, re: Engine)
    requires Raw(literal) in routes && SeekResult(routes, "", cb, re)
    ensures cb.Some?
  {
    assert Answers(Raw(literal), "", re);
  }

  /** A raw entry also answers a strict prefix of its literal, which an explicit entry with
      the same literal does not. */
  lemma RawAnswersPrefix(literal: string, uri: string, re: Engine)
    requires |uri| < |literal| && uri == literal[..|uri|]
    ensures Answers(Raw(literal), uri, re) && !Answers(Explicit(literal), uri, re)
  {
  }

  /** An entry registered under an explicit literal is the only possible answer for that
      literal when no other entry answers it. */
  lemma ExplicitOnlyAnswer(routes: map<LegacyPath, Callback>, literal: string, cb: Option<Callback>, re: Engine)
    requires Explicit(literal) in routes && SeekResult(routes, literal, cb, re)
    requires forall p :: p in routes && p != Explicit(literal) ==> !Answers(p, literal, re)
    ensures cb == Some(routes[Explicit(literal)])
  {
    assert Answers(Explicit(literal), literal, re);
  }

  /** What `handle_request_worker` leaves in the response: what the callback of some
      answering entry wrote, or the response untouched when no entry answers. */
  ghost predicate WorkerResult<Req>(routes: map<LegacyPath, Callback>, path: string, req: Req, resp: Response,
                                    invoke: (Callback, string, Req, Response) -> Response, re: Engine, r: Response)
  {
    || (exists p :: p in routes && Answers(p, path, re) && r == invoke(routes[p], path, req, resp))
    || ((forall p :: p in routes ==> !Answers(p, path, re)) && r == resp)
  }

  /** `handle_request_worker`: the callback (an opaque function of the path, the request
      and the response) runs only when `seek_path` finds one. */
  method HandleRequestWorker<Req>(routes: map<LegacyPath, Callback>, path: string, req: Req, resp: Response,
                                  invoke: (Callback, string, Req, Response) -> Response, re: Engine)
    returns (r: Response)
    ensures WorkerResult(routes, path, req, resp, invoke, re, r)
  {
    var cb := SeekPath(routes, path, re);
    r := resp;
    if cb.Some? {
      r := invoke(cb.value, path, req, resp);
    }
  }

  /** `Route`: one table per method. */
  class LegacyRoute {
    var get: map<LegacyPath, Callback>
    var post: map<LegacyPath, Callback>
    var put: map<LegacyPath, Callback>
    var delete: map<LegacyPath, Callback>

    /** `Route::new`: four empty tables. */
    constructor ()
      ensures get == map[] && post == map[] && put == map[] && delete == map[]
    {
      get := map[];
      post := map[];
      put := map[];
      delete := map[];
    }

    /** `Route::from`: a copy of the four tables of `source`. */
    constructor From(source: LegacyRoute)
      ensures get == source.get && post == source.post && put == source.put && delete == source.delete
    {
      get := source.get;
      post := source.post;
      put := source.put;
      delete := source.delete;
    }

    /** `get`: register in the GET table, replacing a callback under the same path. */
    method Get(uri: LegacyPath, cb: Callback)
      modifies this
      ensures get == old(get)[uri := cb]
      ensures post == old(post) && put == old(put) && delete == old(delete)
    {
      get := get[uri := cb];
    }

    method Put(uri: LegacyPath, cb: Callback)
      modifies this
      ensures put == old(put)[uri := cb]
      ensures get == old(get) && post == old(post) && delete == old(delete)
    {
      put := put[uri := cb];
    }

    method Post(uri: LegacyPath, cb: Callback)
      modifies this
      ensures post == old(post)[uri := cb]
      ensures get == old(get) && put == old(put) && delete == old(delete)
    {
      post := post[uri := cb];
    }

    method Delete(uri: LegacyPath, cb: Callback)
      modifies this
      ensures delete == old(delete)[uri := cb]
      ensures get == old(get) && post == old(post) && put == old(put)
    {
      delete := delete[uri := cb];
    }

    /** `handle_get`, `handle_put`, `handle_post`, `handle_delete`: the worker on the
        method's own table. */
    method Handle<Req>(m: LegacyRest, path: string, req: Req, resp: Response,
                       invoke: (Callback, string, Req, Response) -> Response, re: Engine)
      returns (r: Response)
      requires m != NONE
      ensures WorkerResult(Table(m), path, req, resp, invoke, re, r)
    {
      var routes := if m == GET then get else if m == PUT then put else if m == POST then post else delete;
      r := HandleRequestWorker(routes, path, req, resp, invoke, re);
    }

    /** The table of a method. */
    function Table(m: LegacyRest): map<LegacyPath, Callback>
      reads this
      requires m != NONE
    {
      match m
      case GET => get
      case PUT => put
      case POST => post
      case DELETE => delete
    }
  }
}
