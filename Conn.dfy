/** `src/core/conn.rs`: the current connection pipeline. Reading a request text, splitting
    its request line, path, headers, cookies and body, resolving the handler through the
    router, mapping parse failures to responses, and preparing the response. */
module Conn {
  import opened Text
  import opened Handler
  import opened Common
  import opened KeyValue
  import opened Router

  // ---------------------------------------------------------------------------
  // Failures and what the connection does about them

  /** `ConnError`. */
  datatype ConnError = EmptyRequest | ReadStreamFailure | AccessDenied | ServiceUnavailable

  /** What `handle_connection` does for a failed parse: answer with a status, or shut the
      socket down without writing anything. */
  datatype Action = Reply(status: int) | Shutdown

  /** The error arm of `handle_connection`. */
  function ErrorAction(e: ConnError): (a: Action)
    ensures a.Shutdown? <==> e == ReadStreamFailure
    ensures a.Reply? ==> 400 <= a.status < 500
    ensures e == EmptyRequest ==> a == Reply(400)
    ensures e == AccessDenied ==> a == Reply(401)
    ensures e == ServiceUnavailable ==> a == Reply(404)
  {
    match e
    case EmptyRequest => Reply(400)
    case AccessDenied => Reply(401)
    case ServiceUnavailable => Reply(404)
    case ReadStreamFailure => Shutdown
  }

  /** Distinct failures are told apart by the client: no two answer with the same status. */
  lemma ErrorActionInjective(e1: ConnError, e2: ConnError)
    requires ErrorAction(e1) == ErrorAction(e2)
    ensures e1 == e2
  {
  }

  // ---------------------------------------------------------------------------
  // Request line

  /** The method arm of `deserialize_baseline`: the token is uppercased; five names map to
      their variants and every other token, PATCH included, to `OTHER` of the uppercased
      token. The second component is `header_only`, set by the token HEADER. */
  function MethodOf(token: string): (r: (Rest, bool))
    ensures r.1 <==> Upper(token) == "HEADER"
    ensures r.0.OTHER? ==> r.0.token == Upper(token)
    ensures r.0 != PATCH
    ensures r.0 == GET <==> Upper(token) == "GET"
    ensures r.0 == POST <==> Upper(token) == "POST"
    ensures r.0 == PUT <==> Upper(token) == "PUT"
    ensures r.0 == DELETE <==> Upper(token) == "DELETE"
    ensures r.0 == OPTIONS <==> Upper(token) == "OPTIONS"
    ensures r.0.OTHER? <==> Upper(token) !in {"GET", "PUT", "POST", "DELETE", "OPTIONS"}
  {
    var u := Upper(token);
    if u == "GET" then (GET, false)
    else if u == "PUT" then (PUT, false)
    else if u == "POST" then (POST, false)
    else if u == "DELETE" then (DELETE, false)
    else if u == "OPTIONS" then (OPTIONS, false)
    else (OTHER(u), u == "HEADER")
  }

  /** The method is read case-insensitively. */
  lemma MethodOfIgnoresCase(token: string)
    ensures MethodOf(Upper(token)) == MethodOf(token)
  {
    UpperIdempotent(token);
  }

  /** A PATCH request never reaches the PATCH table that `Route::patch` fills. */
  lemma PatchIsOther(token: string)
    requires Upper(token) == "PATCH"
    ensures MethodOf(token).0 == OTHER("PATCH")
  {
  }

  // ---------------------------------------------------------------------------
  // split_path

  /** The text before the first '#', and the fragment from the '#' on. */
  function CutFragment(s: string): (r: (string, string))
    ensures s == r.0 + r.1 && '#' !in r.0
    ensures r.1 == "" || r.1[0] == '#'
  {
    match Text.Find(s, '#')
    case None => (s, "")
    case Some(p) =>
      assert s == s[..p] + s[p..];
      (s[..p], s[p..])
  }

  /** The three outputs of `split_path`. */
  datatype PathParts = PathParts(uri: string, scheme: string, fragment: string)

  /** The last '/'-component of the trimmed path, without its fragment, holds a '?'. */
  predicate HasQuery(full: string)
  {
    '?' in CutFragment(RSplitOnce(Trim(full), '/').0).0
  }

  /** The input on which `split_path` indexes past the end of its parts: a query mark but no
      '/' at all. */
  predicate SplitPathPanics(full: string)
  {
    HasQuery(full) && RSplitOnce(Trim(full), '/').1.None?
  }

  /** `split_path`. The path is trimmed; the fragment is cut from the last component (and only
      removed from the URI when a query follows); the query keeps its '?'; the URI is the
      prefix, '/', and the leaf before the '?'; without a query one trailing '/' is dropped. */
  function SplitPath(full: string): (r: PathParts)
    requires !SplitPathPanics(full)
    ensures r.uri != ""
    ensures r.fragment == "" || r.fragment[0] == '#'
    ensures r.scheme == "" || r.scheme[0] == '?'
  {
    var uri := Trim(full);
    if uri == "" then PathParts("/", "", "")
    else
      var parts := RSplitOnce(uri, '/');
      var cut := CutFragment(parts.0);
      match Text.Find(cut.0, '?')
      case Some(q) =>
        TrimKeepsMark(cut.0[q..]);
        PathParts(JoinLeaf(parts.1.value, cut.0[..q]), Trim(cut.0[q..]), cut.1)
      case None =>
        PathParts(DropSlash(uri), "", cut.1)
  }

  /** The URI of the query branch: the prefix and the leaf joined by one '/'. */
  function JoinLeaf(prefix: string, leaf: string): (u: string)
    ensures u == prefix + "/" + leaf && u != ""
  {
    if prefix == "" then "/" + leaf else prefix + "/" + leaf
  }

  /** One trailing '/' removed from a path longer than one character. */
  function DropSlash(uri: string): (u: string)
    ensures u == uri || u + "/" == uri
    ensures uri != "" ==> u != ""
    ensures |uri| > 1 && uri[|uri| - 1] == '/' ==> u + "/" == uri
  {
    if |uri| > 1 && uri[|uri| - 1] == '/' then uri[..|uri| - 1] else uri
  }

  /** An empty path is the root. */
  lemma SplitPathEmpty(full: string)
    requires Trim(full) == ""
    ensures SplitPath(full) == PathParts("/", "", "")
  {
  }

  /** Without a query, the URI is the trimmed path minus at most one trailing '/', and a
      fragment stays inside it. */
  lemma SplitPathNoQuery(full: string)
    requires Trim(full) != "" && !HasQuery(full)
    ensures SplitPath(full).scheme == ""
    ensures SplitPath(full).uri == Trim(full) || SplitPath(full).uri + "/" == Trim(full)
  {
  }

  /** The query text of the last component: from its '?' to its fragment. */
  function QueryText(full: string): (q: string)
    requires HasQuery(full)
    ensures |q| > 0 && q[0] == '?'
  {
    FromMark(CutFragment(RSplitOnce(Trim(full), '/').0).0)
  }

  /** The text from its first '?' on. */
  function FromMark(s: string): (q: string)
    requires '?' in s
    ensures |q| > 0 && q[0] == '?'
  {
    s[Text.Find(s, '?').value..]
  }

  /** With a query, nothing but the whitespace around the query is lost: the trimmed path is
      the URI, then the query text, then the fragment; the scheme is the trimmed query text. */
  lemma SplitPathWithQuery(full: string)
    requires Trim(full) != "" && HasQuery(full) && !SplitPathPanics(full)
    ensures Trim(full) == SplitPath(full).uri + QueryText(full) + SplitPath(full).fragment
    ensures SplitPath(full).scheme == Trim(QueryText(full))
  {
    var uri := Trim(full);
    var parts := RSplitOnce(uri, '/');
    var cut := CutFragment(parts.0);
    var q := Text.Find(cut.0, '?').value;
    var r := SplitPath(full);
    assert r == PathParts(JoinLeaf(parts.1.value, cut.0[..q]), Trim(cut.0[q..]), cut.1);
    Reassemble(uri, parts.1.value, parts.0, cut.0, cut.1, q);
  }

  /** The pieces `split_path` cuts the path into put back together. */
  lemma Reassemble(uri: string, prefix: string, last: string, head: string, frag: string, q: nat)
    requires uri == prefix + "/" + last && last == head + frag && q <= |head|
    ensures uri == (prefix + "/" + head[..q]) + head[q..] + frag
  {
    assert head == head[..q] + head[q..];
  }

  /** Trimming text that starts with '?' keeps the '?' in front. */
  lemma TrimKeepsMark(s: string)
    requires |s| > 0 && s[0] == '?'
    ensures |Trim(s)| > 0 && Trim(s)[0] == '?'
  {
    var t := Trim(s);
    var a :| TrimmedAt(s, t, a, IsSpace);
    assert !IsSpace(s[0]);
  }

  // ---------------------------------------------------------------------------
  // Cookies

  /** `cookie_parser`, adding first-wins into `cookie`. The ghost `base` and `prior` say
      how `cookie` was filled by earlier Cookie lines, so that the merge can be stated over
      all of them. */
  method CookieParser(cookie: map<string, string>, body: string, ghost base: map<string, string>, ghost prior: Pairs)
    returns (r: map<string, string>)
    requires Merged(base, cookie, prior)
    ensures Merged(base, r, prior + PairsOf(body, ';'))
  {
    var ps := PairsOf(body, ';');
    if body == "" {
      EmptyPiecesAreRefused(prior, ps);
      return cookie;
    }
    r := AddAllFirst(cookie, ps, base, prior);
  }

  /** The loop of `cookie_parser`: each pair is added, first value wins. */
  method AddAllFirst(cookie: map<string, string>, ps: Pairs, ghost base: map<string, string>, ghost prior: Pairs)
    returns (r: map<string, string>)
    requires Merged(base, cookie, prior)
    ensures Merged(base, r, prior + ps)
  {
    r := cookie;
    var i := 0;
    assert prior + ps[..0] == prior;
    while i < |ps|
      invariant 0 <= i <= |ps|
      invariant Merged(base, r, prior + ps[..i])
    {
      MergedAdd(base, r, prior + ps[..i], ps[i]);
      assert prior + ps[..i + 1] == (prior + ps[..i]) + [ps[i]];
      r := Add(r, ps[i].0, ps[i].1, false).0;
      i := i + 1;
    }
    assert ps[..|ps|] == ps;
  }

  /** The pairs of an empty text: a single empty key, which `add` refuses. */
  lemma EmptyPiecesAreRefused(prior: Pairs, ps: Pairs)
    requires ps == PairsOf("", ';')
    ensures Lowered(prior + ps) == Lowered(prior)
  {
    TrimNoop("");
    assert Split("", ';') == [""];
    assert ps == [Pair("")];
    assert Pair("").0 == "";
    LoweredSnoc(prior, Pair(""));
  }

  // ---------------------------------------------------------------------------
  // Headers and body

  /** A header line cut at its first ':' after trimming; key and value trimmed. None when
      the line has no ':'. */
  function HeaderFields(line: string): (r: Option<(string, string)>)
    ensures r.None? <==> ':' !in Trim(line)
    ensures r.Some? ==> ':' !in r.value.0
  {
    var halves := SplitOnce(Trim(line), ':');
    if halves.1.None? then None
    else
      NoMarkAfterTrim(halves.0, ':');
      Some((Trim(halves.0), Trim(halves.1.value)))
  }

  /** Trimming never brings a character in. */
  lemma NoMarkAfterTrim(s: string, c: char)
    requires c !in s
    ensures c !in Trim(s)
  {
    var t := Trim(s);
    var a :| TrimmedAt(s, t, a, IsSpace);
    assert forall i :: 0 <= i < |t| ==> t[i] == s[a + i];
  }

  /** The header pair a line before the blank line contributes: the key spelled exactly
      `cookie` goes to the cookie parser instead. */
  function HeaderPairsOf(line: string): (r: Pairs)
    ensures |r| <= 1
  {
    match HeaderFields(line)
    case Some(kv) => if kv.0 == "cookie" then [] else [kv]
    case None => []
  }

  /** The cookie pairs a line before the blank line contributes. */
  function CookiePairsOf(line: string): (r: Pairs)
  {
    match HeaderFields(line)
    case Some(kv) => if kv.0 == "cookie" then PairsOf(kv.1, ';') else []
    case None => []
  }

  function HeaderPairs(ls: seq<string>): Pairs
  {
    if |ls| == 0 then [] else HeaderPairs(ls[..|ls| - 1]) + HeaderPairsOf(ls[|ls| - 1])
  }

  function CookiePairs(ls: seq<string>): Pairs
  {
    if |ls| == 0 then [] else CookiePairs(ls[..|ls| - 1]) + CookiePairsOf(ls[|ls| - 1])
  }

  /** `deserialize_headers`: a body line is appended to the body; a header line either feeds
      the cookie parser (key `cookie`) or is added to the headers, replacing an earlier value;
      a line without ':' is ignored. */
  method DeserializeHeaders(line: string, isBody: bool, header: map<string, string>,
                            cookie: map<string, string>, body: seq<string>,
                            ghost hs: Pairs, ghost cs: Pairs)
    returns (header': map<string, string>, cookie': map<string, string>, body': seq<string>)
    requires Replaced(map[], header, hs) && Merged(map[], cookie, cs)
    ensures isBody ==> header' == header && cookie' == cookie && body' == body + [line]
    ensures !isBody ==> body' == body
    ensures !isBody ==> Replaced(map[], header', hs + HeaderPairsOf(line))
    ensures !isBody ==> Merged(map[], cookie', cs + CookiePairsOf(line))
  {
    header', cookie', body' := header, cookie, body;
    if isBody {
      body' := body + [line];
      return;
    }
    match HeaderFields(line)
    case None =>
      assert hs + [] == hs && cs + [] == cs;
    case Some(kv) =>
      if kv.0 == "cookie" {
        assert hs + [] == hs;
        cookie' := CookieParser(cookie, kv.1, map[], cs);
      } else {
        assert cs + [] == cs;
        ReplacedAdd(map[], header, hs, kv);
        if kv.0 != "" {
          header' := Add(header, kv.0, kv.1, true).0;
        }
      }
  }

  /** Index of the first empty line (the end of the header part), or the number of lines. */
  function FirstEmpty(ls: seq<string>): (e: nat)
    ensures e <= |ls|
    ensures forall j :: 0 <= j < e ==> ls[j] != ""
    ensures e < |ls| ==> ls[e] == ""
  {
    if |ls| == 0 || ls[0] == "" then 0 else 1 + FirstEmpty(ls[1..])
  }

  /** Headers, cookies and body lines of a request. */
  datatype Remainder = Remainder(headers: map<string, string>, cookies: map<string, string>, body: seq<string>)

  /** The remainder of a request, as the lines of `text` give it: the lines before the
      first empty one are header lines, the lines after it (empty ones included) the body. */
  ghost predicate RemainderOf(text: string, r: Remainder)
  {
    var ls := Lines(text);
    var e := FirstEmpty(ls);
    && Replaced(map[], r.headers, HeaderPairs(ls[..e]))
    && Merged(map[], r.cookies, CookiePairs(ls[..e]))
    && r.body == (if e < |ls| then ls[e + 1..] else [])
  }

  /** The state of the remainder loop after `i` lines. */
  ghost predicate RemainderAfter(ls: seq<string>, i: nat, isBody: bool, r: Remainder)
    requires i <= |ls|
  {
    var e := FirstEmpty(ls);
    var hd := if isBody then e else i;
    && (isBody <==> e < i)
    && Replaced(map[], r.headers, HeaderPairs(ls[..hd]))
    && Merged(map[], r.cookies, CookiePairs(ls[..hd]))
    && r.body == (if isBody then ls[e + 1..i] else [])
  }

  /** The loop the worker runs over the remainder: the first empty line switches to the body
      and is dropped. */
  method ParseRemainder(text: string) returns (r: Remainder)
    ensures RemainderOf(text, r)
  {
    var ls := Lines(text);
    r := Remainder(map[], map[], []);
    var isBody := false;
    var i := 0;
    RemainderStart(ls);
    while i < |ls|
      invariant 0 <= i <= |ls|
      invariant RemainderAfter(ls, i, isBody, r)
    {
      isBody, r := RemainderStep(ls, i, isBody, r);
      i := i + 1;
    }
    RemainderDone(text, ls, isBody, r);
  }

  /** One turn of the remainder loop. */
  method RemainderStep(ls: seq<string>, i: nat, isBody: bool, r: Remainder) returns (isBody': bool, r': Remainder)
    requires i < |ls| && RemainderAfter(ls, i, isBody, r)
    ensures RemainderAfter(ls, i + 1, isBody', r')
  {
    var line := ls[i];
    if line == "" && !isBody {
      EnterBody(ls, i, r);
      return true, r;
    }
    var hd := if isBody then FirstEmpty(ls) else i;
    var header, cookie, body := DeserializeHeaders(line, isBody, r.headers, r.cookies, r.body,
                                                   HeaderPairs(ls[..hd]), CookiePairs(ls[..hd]));
    isBody', r' := isBody, Remainder(header, cookie, body);
    if isBody {
      BodyLine(ls, i, r, r');
    } else {
      HeaderLinePairs(ls, i, r');
      FirstEmptyBeyond(ls, i + 1);
      HeaderState(ls, i + 1, r');
    }
  }

  /** Before the first line nothing has been read. */
  lemma RemainderStart(ls: seq<string>)
    ensures RemainderAfter(ls, 0, false, Remainder(map[], map[], []))
  {
    assert ls[..0] == [];
  }

  /** After the last line the loop state is the remainder of the text. */
  lemma RemainderDone(text: string, ls: seq<string>, isBody: bool, r: Remainder)
    requires ls == Lines(text) && RemainderAfter(ls, |ls|, isBody, r)
    ensures RemainderOf(text, r)
  {
    var e := FirstEmpty(ls);
    if !isBody {
      assert ls[..|ls|] == ls[..e];
    }
  }

  /** The first empty line ends the header part. */
  lemma EnterBody(ls: seq<string>, i: nat, r: Remainder)
    requires i < |ls| && ls[i] == "" && RemainderAfter(ls, i, false, r)
    ensures RemainderAfter(ls, i + 1, true, r)
  {
    assert ls[i + 1..i + 1] == [];
  }

  /** A line in the body part is appended to the body. */
  lemma BodyLine(ls: seq<string>, i: nat, r: Remainder, r': Remainder)
    requires i < |ls| && RemainderAfter(ls, i, true, r)
    requires r'.headers == r.headers && r'.cookies == r.cookies && r'.body == r.body + [ls[i]]
    ensures RemainderAfter(ls, i + 1, true, r')
  {
    var e := FirstEmpty(ls);
    assert ls[e + 1..i + 1] == ls[e + 1..i] + [ls[i]];
    assert Replaced(map[], r'.headers, HeaderPairs(ls[..e]));
    assert Merged(map[], r'.cookies, CookiePairs(ls[..e]));
  }

  /** A header line's pairs extend those of the lines before it. */
  lemma HeaderLinePairs(ls: seq<string>, i: nat, r': Remainder)
    requires i < |ls|
    requires Replaced(map[], r'.headers, HeaderPairs(ls[..i]) + HeaderPairsOf(ls[i]))
    requires Merged(map[], r'.cookies, CookiePairs(ls[..i]) + CookiePairsOf(ls[i]))
    ensures Replaced(map[], r'.headers, HeaderPairs(ls[..i + 1]))
    ensures Merged(map[], r'.cookies, CookiePairs(ls[..i + 1]))
  {
    StepPairs(ls, i);
    ReplacedSame(map[], r'.headers, HeaderPairs(ls[..i]) + HeaderPairsOf(ls[i]), HeaderPairs(ls[..i + 1]));
    MergedSame(map[], r'.cookies, CookiePairs(ls[..i]) + CookiePairsOf(ls[i]), CookiePairs(ls[..i + 1]));
  }

  lemma ReplacedSame(base: map<string, string>, r: map<string, string>, ps: Pairs, qs: Pairs)
    requires ps == qs && Replaced(base, r, ps)
    ensures Replaced(base, r, qs)
  {
  }

  lemma MergedSame(base: map<string, string>, r: map<string, string>, ps: Pairs, qs: Pairs)
    requires ps == qs && Merged(base, r, ps)
    ensures Merged(base, r, qs)
  {
  }

  /** The loop state while still in the header part. */
  lemma HeaderState(ls: seq<string>, i: nat, r: Remainder)
    requires i <= |ls| && FirstEmpty(ls) >= i && r.body == []
    requires Replaced(map[], r.headers, HeaderPairs(ls[..i]))
    requires Merged(map[], r.cookies, CookiePairs(ls[..i]))
    ensures RemainderAfter(ls, i, false, r)
  {
  }

  /** No empty line among the first `n` puts the first empty line at `n` or later. */
  lemma FirstEmptyBeyond(ls: seq<string>, n: nat)
    requires n <= |ls| && forall j :: 0 <= j < n ==> ls[j] != ""
    ensures FirstEmpty(ls) >= n
  {
  }

  lemma StepPairs(ls: seq<string>, i: nat)
    requires i < |ls|
    ensures HeaderPairs(ls[..i + 1]) == HeaderPairs(ls[..i]) + HeaderPairsOf(ls[i])
    ensures CookiePairs(ls[..i + 1]) == CookiePairs(ls[..i]) + CookiePairsOf(ls[i])
  {
    assert ls[..i + 1][..i] == ls[..i];
  }

  // ---------------------------------------------------------------------------
  // Request line

  /** What `deserialize_baseline` reads from the request line: the method and the
      header-only flag from the first token, the path parts from the second, the version
      from the third. */
  datatype LineParts = LineParts(verb: Option<Rest>, headerOnly: bool, path: Option<PathParts>, version: Option<string>)

  /** The request line read token by token; None when `split_path` would panic. */
  function RequestLine(line: string): (r: Option<LineParts>)
    ensures r.None? <==> |SplitWhitespace(line)| > 1 && SplitPathPanics(SplitWhitespace(line)[1])
    ensures r.Some? ==> (r.value.verb.Some? <==> |SplitWhitespace(line)| > 0)
    ensures r.Some? ==> (r.value.path.Some? <==> |SplitWhitespace(line)| > 1)
    ensures r.Some? ==> (r.value.version.Some? <==> |SplitWhitespace(line)| > 2)
    ensures r.Some? && r.value.path.Some? ==> r.value.path.value.uri != ""
  {
    var ts := SplitWhitespace(line);
    if |ts| > 1 && SplitPathPanics(ts[1]) then None
    else
      Some(LineParts(if |ts| > 0 then Some(MethodOf(ts[0]).0) else None,
                     |ts| > 0 && MethodOf(ts[0]).1,
                     if |ts| > 1 then Some(SplitPath(ts[1])) else None,
                     if |ts| > 2 then Some(ts[2]) else None))
  }

  /** The token loop of `deserialize_baseline`: tokens after the third are not looked at.
      None stands for the panic of `split_path`. */
  method ReadRequestLine(line: string) returns (lp: Option<LineParts>)
    ensures lp == RequestLine(line)
  {
    var ts := SplitWhitespace(line);
    var m: Option<Rest> := None;
    var headerOnly := false;
    var path: Option<PathParts> := None;
    var version: Option<string> := None;
    var index := 0;
    while index < |ts|
      invariant 0 <= index <= |ts| && index <= 3
      invariant m == (if index > 0 then Some(MethodOf(ts[0]).0) else None)
      invariant headerOnly == (index > 0 && MethodOf(ts[0]).1)
      invariant index > 1 ==> !SplitPathPanics(ts[1])
      invariant path == (if index > 1 then Some(SplitPath(ts[1])) else None)
      invariant version == (if index > 2 then Some(ts[2]) else None)
    {
      if index == 0 {
        var mo := MethodOf(ts[0]);
        m, headerOnly := Some(mo.0), mo.1;
      } else if index == 1 {
        if SplitPathPanics(ts[1]) {
          return None;
        }
        path := Some(SplitPath(ts[1]));
      } else if index == 2 {
        version := Some(ts[2]);
      } else {
        break;
      }
      index := index + 1;
    }
    return Some(LineParts(m, headerOnly, path, version));
  }

  // ---------------------------------------------------------------------------
  // The request

  /** The fields of `http::Request` the pipeline fills. */
  datatype Request = Request(verb: Option<Rest>, uri: string, version: Option<string>, fragment: string,
                             scheme: map<string, seq<string>>, params: map<string, string>,
                             headers: map<string, string>, cookies: map<string, string>,
                             body: seq<string>, host: Option<string>)

  /** A fresh request: nothing set. */
  function NewRequest(): (r: Request)
    ensures r.verb.None? && r.uri == "" && r.headers == map[] && r.params == map[]
  {
    Request(None, "", None, "", map[], map[], map[], map[], [], None)
  }

  /** The request line: the trimmed text up to its first CRLF. */
  function RequestHead(text: string): string
  {
    SplitOncePair(Trim(text), '\r', '\n').0
  }

  /** The remainder: the trimmed text after its first CRLF, empty if there is none. */
  function RequestRest(text: string): (r: string)
    ensures r != "" ==> Trim(text) == RequestHead(text) + "\r\n" + r
  {
    var halves := SplitOncePair(Trim(text), '\r', '\n');
    if halves.1.Some? then halves.1.value else ""
  }

  /** What `deserialize` leaves in the request and hands back, for a text whose request
      line parses: without a path nothing is looked up and the remainder is not read; with
      one, the handler and parameters are those `seek_handler` finds for the method and URI,
      the query string is parsed into lists per key, and the remainder gives the headers,
      cookies and body. */
  ghost predicate Deserialized(store: map<Rest, RouteMap>, text: string, cb: Option<Callback>, req: Request, re: Engine)
  {
    match RequestLine(RequestHead(text))
    case None => false
    case Some(lp) =>
      if lp.path.None? then
        cb == None && req == NewRequest().(verb := lp.verb, version := lp.version)
      else
        var pp := lp.path.value;
        var rest := RequestRest(text);
        && lp.verb.Some?
        && req.verb == lp.verb && req.version == lp.version && req.host == None
        && req.uri == pp.uri && req.fragment == pp.fragment
        && HandlerResult(store, lp.verb.value, pp.uri, lp.headerOnly, cb, req.params, re)
        && SchemeOf(pp.scheme, req.scheme)
        && RestOf(rest, Remainder(req.headers, req.cookies, req.body))
  }

  /** The query map: for each key, all its values in order; empty for an empty query. */
  ghost predicate SchemeOf(raw: string, m: map<string, seq<string>>)
  {
    && (forall k :: k in m <==> raw != "" && ValuesOf(PairsOf(raw, '&'), k) != [])
    && (forall k :: k in m ==> m[k] == ValuesOf(PairsOf(raw, '&'), k))
  }

  /** The remainder is read only when there is one. */
  ghost predicate RestOf(rest: string, r: Remainder)
  {
    if rest == "" then r == Remainder(map[], map[], []) else RemainderOf(rest, r)
  }

  /** A lookup that finds nothing leaves no parameters. */
  lemma HandlerMissHasNoParams(store: map<Rest, RouteMap>, m: Rest, uri: string, headerOnly: bool,
                               params: map<string, string>, re: Engine)
    requires HandlerResult(store, m, uri, headerOnly, None, params, re)
    ensures params == map[]
  {
    var p := Primary(store, m, headerOnly);
    if p.Some? && !Misses(store[p.value], uri, re) {
      SeekPathMiss(store[p.value], uri, None, params, re);
    } else if RouteAll in store {
      SeekPathMiss(store[RouteAll], uri, None, params, re);
    }
  }

  /** `deserialize` of a text that is not empty, with the two worker jobs run to completion.
      None stands for the panic of `split_path`. */
  method Deserialize(text: string, route: Route, re: Engine) returns (out: Option<(Option<Callback>, Request)>)
    ensures out.None? <==> RequestLine(RequestHead(text)).None?
    ensures out.Some? ==> Deserialized(route.store, text, out.value.0, out.value.1, re)
  {
    var lp := ReadRequestLine(RequestHead(text));
    if lp.None? {
      return None;
    }
    var line := lp.value;
    if line.path.None? {
      return Some((None, NewRequest().(verb := line.verb, version := line.version)));
    }
    var pp := line.path.value;
    var cb, params := route.SeekHandler(line.verb.value, pp.uri, line.headerOnly, re);
    if cb.None? {
      HandlerMissHasNoParams(route.store, line.verb.value, pp.uri, line.headerOnly, params, re);
    }
    var scheme := ParseScheme(pp.scheme);
    var rem := ParseRest(RequestRest(text));
    var req := Request(line.verb, pp.uri, line.version, pp.fragment, scheme,
                       if cb.Some? then params else map[], rem.headers, rem.cookies, rem.body, None);
    return Some((cb, req));
  }

  /** The query-string step of `deserialize_baseline`: parsed only when not empty. */
  method ParseScheme(raw: string) returns (m: map<string, seq<string>>)
    ensures SchemeOf(raw, m)
  {
    m := map[];
    if raw != "" {
      m := SchemeParser(map[], raw);
    }
  }

  /** The remainder step of `deserialize`: run only on a non-empty remainder. */
  method ParseRest(rest: string) returns (r: Remainder)
    ensures RestOf(rest, r)
  {
    r := Remainder(map[], map[], []);
    if rest != "" {
      r := ParseRemainder(rest);
    }
  }

  // ---------------------------------------------------------------------------
  // parse_request and handle_connection

  /** What `parse_request` concludes. */
  datatype Parsed = Failed(err: ConnError) | Found(cb: Callback) | Crash

  /** The last two checks of `parse_request`: the authentication gate, if one is set, is
      asked first; only then does a missing handler count. */
  function Verdict(auth: Option<AuthFunc>, allow: (AuthFunc, Request, string) -> bool,
                   cb: Option<Callback>, req: Request): (o: Parsed)
    ensures o == Failed(AccessDenied) <==> auth.Some? && !allow(auth.value, req, req.uri)
    ensures o == Failed(ServiceUnavailable) <==> (auth.None? || allow(auth.value, req, req.uri)) && cb.None?
    ensures o.Found? <==> (auth.None? || allow(auth.value, req, req.uri)) && cb.Some?
    ensures o.Found? ==> o.cb == cb.value
    ensures !o.Crash? && o != Failed(EmptyRequest) && o != Failed(ReadStreamFailure)
  {
    if auth.Some? && !allow(auth.value, req, req.uri) then Failed(AccessDenied)
    else if cb.None? then Failed(ServiceUnavailable)
    else Found(cb.value)
  }

  /** The host is copied from the `host` header when there is one. */
  function WithHost(req: Request): (r: Request)
    ensures r.(host := req.host) == req
    ensures "host" in req.headers ==> r.host == Some(req.headers["host"])
    ensures "host" !in req.headers ==> r.host == req.host
  {
    if "host" in req.headers then req.(host := Some(req.headers["host"])) else req
  }

  /** The whole of `parse_request`: `raw` is the text read from the stream, or None when
      the read fails; `cb` is what `deserialize` returned. */
  ghost predicate ParsedAs(raw: Option<string>, store: map<Rest, RouteMap>, auth: Option<AuthFunc>,
                           allow: (AuthFunc, Request, string) -> bool, re: Engine,
                           o: Parsed, req: Request, cb: Option<Callback>)
  {
    match raw
    case None => o == Failed(ReadStreamFailure) && req == NewRequest()
    case Some(text) =>
      if TrimWith(text, IsCrLf) == "" then o == Failed(EmptyRequest) && req == NewRequest()
      else if RequestLine(RequestHead(text)).None? then o == Crash
      else
        && Deserialized(store, text, cb, req.(host := None), re)
        && req == WithHost(req.(host := None))
        && o == Verdict(auth, allow, cb, req)
  }

  /** `parse_request`. */
  method ParseRequest(raw: Option<string>, route: Route, re: Engine, allow: (AuthFunc, Request, string) -> bool)
    returns (o: Parsed, req: Request, ghost cb: Option<Callback>)
    ensures ParsedAs(raw, route.store, route.auth, allow, re, o, req, cb)
    ensures raw.None? ==> o == Failed(ReadStreamFailure)
    ensures raw.Some? && TrimWith(raw.value, IsCrLf) == "" ==> o == Failed(EmptyRequest) && req == NewRequest()
  {
    req := NewRequest();
    cb := None;
    if raw.None? {
      return Failed(ReadStreamFailure), req, cb;
    }
    var text := raw.value;
    if TrimWith(text, IsCrLf) == "" {
      return Failed(EmptyRequest), req, cb;
    }
    var auth := route.auth;
    var out := Deserialize(text, route, re);
    if out.None? {
      return Crash, req, cb;
    }
    var callback := out.value.0;
    cb := callback;
    req := WithHost(out.value.1);
    o := Verdict(auth, allow, callback, req);
  }

  /** The response `handle_response` hands to the callback: keep-alive unless the
      `connection` header is exactly `close`, and header-only for a HEAD request. */
  function Prepared(initial: Response, req: Request): (r: Response)
    ensures r.keepAlive <==> !("connection" in req.headers && req.headers["connection"] == "close")
    ensures r.headerOnly <==> initial.headerOnly || req.verb == Some(OTHER("HEAD"))
    ensures r.(keepAlive := initial.keepAlive, headerOnly := initial.headerOnly) == initial
  {
    var keep := !("connection" in req.headers && req.headers["connection"] == "close");
    initial.(keepAlive := keep, headerOnly := initial.headerOnly || req.verb == Some(OTHER("HEAD")))
  }

  /** What the connection ends with: a response for the callback's request, an error status,
      a shutdown without reply, or a worker that panicked. */
  datatype Reply = Respond(resp: Response) | ErrorReply(status: int) | Close | Crashed

  /** `handle_connection`, up to the response to write: `invoke` is the registered callback
      run on the request and the response, `initial` the response built from the configured
      default header. */
  method HandleConnection(raw: Option<string>, route: Route, re: Engine, allow: (AuthFunc, Request, string) -> bool,
                          invoke: (Callback, Request, Response) -> Response, initial: Response)
    returns (reply: Reply, ghost o: Parsed, ghost req: Request, ghost cb: Option<Callback>)
    ensures ParsedAs(raw, route.store, route.auth, allow, re, o, req, cb)
    ensures o.Failed? && o.err == ReadStreamFailure ==> reply == Close
    ensures o.Failed? && o.err != ReadStreamFailure ==> reply == ErrorReply(ErrorAction(o.err).status)
    ensures o.Crash? ==> reply == Crashed
    ensures o.Found? ==> reply == Respond(Redirected(invoke(o.cb, req, Prepared(initial, req))))
    ensures raw.None? ==> reply == Close
    ensures raw.Some? && TrimWith(raw.value, IsCrLf) == "" ==> reply == ErrorReply(400)
  {
    var parsed, request, found := ParseRequest(raw, route, re, allow);
    o, req, cb := parsed, request, found;
    match parsed {
      case Crash =>
        reply := Crashed;
      case Failed(err) =>
        var action := ErrorAction(err);
        reply := if action.Shutdown? then Close else ErrorReply(action.status);
      case Found(handler) =>
        var resp := HandleRequest(invoke, handler, request, Prepared(initial, request));
        reply := Respond(resp);
    }
  }

  // ---------------------------------------------------------------------------
  // Worked cases

  /** Without a query the fragment is reported and still left at the end of the URI. */
  lemma FragmentStaysInUri(full: string)
    requires Trim(full) != "" && !HasQuery(full)
    requires SplitPath(full).fragment != ""
    ensures SplitPath(full).uri == Trim(full)
    ensures Suffix(SplitPath(full).fragment, Trim(full))
  {
    var uri := Trim(full);
    var parts := RSplitOnce(uri, '/');
    var cut := CutFragment(parts.0);
    SplitPathNoQueryValue(full);
    var frag := SplitPath(full).fragment;
    assert frag == cut.1;
    SlashFreeSuffix(uri, parts.1, parts.0, cut.0, frag);
  }

  /** The value of `split_path` without a query. */
  lemma SplitPathNoQueryValue(full: string)
    requires Trim(full) != "" && !HasQuery(full)
    ensures SplitPath(full) == PathParts(DropSlash(Trim(full)), "", CutFragment(RSplitOnce(Trim(full), '/').0).1)
  {
  }

  /** A path whose last component ends in a fragment does not end in '/'. */
  lemma SlashFreeSuffix(uri: string, prefix: Option<string>, last: string, head: string, frag: string)
    requires prefix.Some? ==> uri == prefix.value + "/" + last
    requires prefix.None? ==> uri == last
    requires '/' !in last && last == head + frag && frag != ""
    ensures DropSlash(uri) == uri
    ensures Suffix(frag, uri)
  {
    if prefix.Some? {
      EndsWith(uri, prefix.value + "/", last);
    } else {
      assert uri[0..] == uri;
    }
    EndsWith(last, head, frag);
    SuffixOfSuffix(uri, last, frag);
    assert last[|last| - 1] in last;
    assert uri[|uri| - 1] == uri[|uri| - |last|..][|last| - 1];
  }

  /** `t` ends `s`. */
  predicate Suffix(t: string, s: string)
  {
    |t| <= |s| && s[|s| - |t|..] == t
  }

  lemma EndsWith(s: string, a: string, b: string)
    requires s == a + b
    ensures |b| <= |s| && s[|s| - |b|..] == b
  {
  }

  lemma SuffixOfSuffix(s: string, t: string, u: string)
    requires |u| <= |t| <= |s| && s[|s| - |t|..] == t && t[|t| - |u|..] == u
    ensures s[|s| - |u|..] == u
  {
    assert s[|s| - |u|..] == s[|s| - |t|..][|t| - |u|..];
  }

  /** The query text starts with '?', and so does the first key parsed from it. */
  lemma SchemeFirstKeyMarked(raw: string)
    requires |raw| > 0 && raw[0] == '?'
    ensures |PairsOf(raw, '&')[0].0| > 0 && PairsOf(raw, '&')[0].0[0] == '?'
  {
    TrimKeepsMark(raw);
    FirstPieceKeepsMark(Trim(raw));
    PairKeyMarked(Split(Trim(raw), '&')[0]);
  }

  /** A piece starting with '?' gives a key starting with '?'. */
  lemma PairKeyMarked(piece: string)
    requires |piece| > 0 && piece[0] == '?'
    ensures |Pair(piece).0| > 0 && Pair(piece).0[0] == '?'
  {
    TrimKeepsMark(piece);
    var halves := SplitOnce(Trim(piece), '=');
    assert |halves.0| > 0 && halves.0[0] == '?' by {
      if halves.1.Some? {
        assert Trim(piece) == halves.0 + "=" + halves.1.value;
        assert Trim(piece)[0] != '=';
      }
    }
    TrimKeepsMark(halves.0);
  }

  /** The first '&'-piece of a text starting with '?' starts with '?'. */
  lemma FirstPieceKeepsMark(t: string)
    requires |t| > 0 && t[0] == '?'
    ensures |Split(t, '&')[0]| > 0 && Split(t, '&')[0][0] == '?'
  {
    match Text.Find(t, '&')
    case None =>
    case Some(i) =>
      assert i > 0;
      assert Split(t, '&')[0] == t[..i];
  }

  /** A header whose key lowercases to `cookie` but is not spelled exactly so is stored as
      the header `cookie` and contributes no cookies. */
  lemma CookieCaseMatters(line: string)
    requires HeaderFields(line).Some?
    requires HeaderFields(line).value.0 != "cookie" && Lower(HeaderFields(line).value.0) == "cookie"
    ensures CookiePairsOf(line) == []
    ensures Lowered(HeaderPairsOf(line)) == [("cookie", HeaderFields(line).value.1)]
  {
    assert HeaderPairsOf(line)[..0] == [];
  }

  /** `Cookie` is such a key. */
  lemma LowerCookie()
    ensures Lower("Cookie") == "cookie" && "Cookie" != "cookie"
  {
  }

  /** A HEAD request is looked up under `OTHER("HEAD")` without the GET fallback, which only
      the token HEADER enables; the response is made header-only for HEAD alone. */
  lemma HeadAndHeaderDiffer()
    ensures MethodOf("HEAD") == (OTHER("HEAD"), false)
    ensures MethodOf("HEADER") == (OTHER("HEADER"), true)
  {
    assert Upper("HEAD") == "HEAD";
    assert Upper("HEADER") == "HEADER";
  }
}
