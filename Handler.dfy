/** What the routing core treats as opaque: registered callbacks (Rust function pointers,
    compared by identity) and the `regex` crate, which the model receives as a pair of
    uninterpreted predicates instead of implementing regular expressions. */
module Handler {

  /** A registered request handler, identified by the function it points to. */
  datatype Callback = Callback(id: nat)

  /** An optional gate-keeper consulted after parsing, also identified by the function. */
  datatype AuthFunc = AuthFunc(id: nat)

  /** The `regex` crate: `compiles(p)` is `Regex::new(p).is_ok()`, and
      `matches(p, s)` is `is_match` of the compiled `p` on `s`. */
  datatype Engine = Engine(compiles: string -> bool, matches: (string, string) -> bool)

  /** The parts of `http::Response` that the core reads or writes: status code, header
      map, the redirect target a callback may set, keep-alive and header-only flags. */
  datatype Response = Response(status: int, headers: map<string, string>, redirect: string,
                               keepAlive: bool, headerOnly: bool)
}
