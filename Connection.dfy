/** `src/core/connection.rs`: the older connection pipeline. The request text is cut into
    lines; the first line gives the method, path, query string and version, the lines up
    to the first empty one are headers (the Cookie header going to its own parser), and
    the non-empty lines after it are the body. A request without a method is answered with
    the default 500 page. */
module Connection {
  import opened Text
  import opened Handler
  import opened KeyValue
  import opened Router
  import Conn

  // ---------------------------------------------------------------------------
  // Request line

  /** The method arm of `parse_request_base`: case-sensitive; five exact names map to their
      variants, the empty token to nothing, and every other token to `OTHER` of the token
      in lower case. */
  function BaseMethod(token: string): (r: Option<Rest>)
    ensures r.None? <==> token == ""
    ensures r == Some(GET) <==> token == "GET"
    ensures r == Some(PUT) <==> token == "PUT"
    ensures r == Some(POST) <==> token == "POST"
    ensures r == Some(DELETE) <==> token == "DELETE"
    ensures r == Some(OPTIONS) <==> token == "OPTIONS"
    ensures r != Some(PATCH)
    ensures r.Some? && r.value.OTHER? ==> r.value.token == Lower(token)
  {
    if token == "GET" then Some(GET)
    else if token == "PUT" then Some(PUT)
    else if token == "POST" then Some(POST)
    else if token == "DELETE" then Some(DELETE)
    else if token == "OPTIONS" then Some(OPTIONS)
    else if token == "" then None
    else Some(OTHER(Lower(token)))
  }

  /** A request is a HEAD request, whose body `handle_connection` leaves out, exactly when
      its method token is "head" in any letter case. */
  lemma HeadInAnyCase(token: string)
    ensures BaseMethod(token) == Some(OTHER("head")) <==> Lower(token) == "head"
  {
    if Lower(token) == "head" {
      assert |token| == 4;
      assert token != "GET" && token != "PUT" && token != "POST" && token != "OPTIONS" by {
        assert Lower(token)[0] == 'h';
      }
      assert token != "DELETE";
    }
  }

  /** The names are matched as written: a lower-case "get" is not a GET request. */
  lemma MethodIsCaseSensitive()
    ensures BaseMethod("get") == Some(OTHER("get"))
  {
    assert Lower("get") == "get";
  }

  /** The two outputs of this `split_path`: the URI and the query string. */
  datatype BasePath = BasePath(uri: string, scheme: string)

  /** The input on which `split_path` indexes past the end of its parts: a '?' in a path
      with no '/'. */
  predicate SplitPathPanics(full: string)
  {
    '?' in RSplitOnce(Trim(full), '/').0 && RSplitOnce(Trim(full), '/').1.None?
  }

  /** `split_path`: the trimmed path; when its last '/'-component holds a '?', the URI is
      the prefix, '/' and the text before the '?', and the query string is the trimmed text
      from the '?' on; otherwise one trailing '/' is dropped from a path longer than one
      character. The empty path is the root. */
  function SplitPath(full: string): (r: BasePath)
    requires !SplitPathPanics(full)
    ensures r.uri != ""
    ensures r.scheme == "" || r.scheme[0] == '?'
  {
    var uri := Trim(full);
    if uri == "" then BasePath("/", "")
    else
      var parts := RSplitOnce(uri, '/');
      match Text.Find(parts.0, '?')
      case Some(q) =>
        Conn.TrimKeepsMark(parts.0[q..]);
        BasePath(Conn.JoinLeaf(parts.1.value, parts.0[..q]), Trim(parts.0[q..]))
      case None =>
        BasePath(Conn.DropSlash(uri), "")
  }

  /** The last component holds a '?'. */
  predicate HasQuery(full: string)
  {
    '?' in RSplitOnce(Trim(full), '/').0
  }

  /** The query text of the last component, from its first '?' on. */
  function QueryText(full: string): (q: string)
    requires HasQuery(full)
    ensures |q| > 0 && q[0] == '?'
  {
    Conn.FromMark(RSplitOnce(Trim(full), '/').0)
  }

  /** With a query, only the whitespace around the query is lost: the trimmed path is the URI
      followed by the query text, and the query string is that text trimmed. */
  lemma SplitPathWithQuery(full: string)
    requires HasQuery(full) && !SplitPathPanics(full)
    ensures Trim(full) == SplitPath(full).uri + QueryText(full)
    ensures SplitPath(full).scheme == Trim(QueryText(full))
  {
    var uri := Trim(full);
    var parts := RSplitOnce(uri, '/');
    var q := Text.Find(parts.0, '?').value;
    var r := SplitPath(full);
    var qt := QueryText(full);
    assert r.uri == parts.1.value + "/" + parts.0[..q] && qt == parts.0[q..] && r.scheme == Trim(qt);
    Glue(uri, parts.1.value, parts.0, q, r.uri, qt);
  }

  /** A path cut at its last '/' and the last component cut at `q`, put back together. */
  lemma Glue(uri: string, prefix: string, last: string, q: nat, u: string, qt: string)
    requires uri == prefix + "/" + last && q <= |last|
    requires u == prefix + "/" + last[..q] && qt == last[q..]
    ensures uri == u + qt
  {
    assert last == last[..q] + last[q..];
  }

  /** Without a query the query string is empty and the URI is the trimmed path, less one
      trailing '/' when it is longer than one character. */
  lemma SplitPathNoQuery(full: string)
    requires Trim(full) != "" && !HasQuery(full)
    ensures SplitPath(full).scheme == ""
    ensures SplitPath(full).uri == Trim(full) || SplitPath(full).uri + "/" == Trim(full)
    ensures |Trim(full)| > 1 && Trim(full)[|Trim(full)| - 1] == '/' ==> SplitPath(full).uri + "/" == Trim(full)
  {
  }

  /** An empty path is the root, with no query. */
  lemma SplitPathEmpty(full: string)
    requires Trim(full) == ""
    ensures SplitPath(full) == BasePath("/", "")
  {
  }

  /** On a path without '#' the two versions of `split_path` agree on the URI and the query;
      the newer one only adds the fragment. */
  lemma SplitPathAgrees(full: string)
    requires '#' !in Trim(full) && !SplitPathPanics(full)
    ensures !Conn.SplitPathPanics(full)
    ensures SplitPath(full) == BasePath(Conn.SplitPath(full).uri, Conn.SplitPath(full).scheme)
    ensures Conn.SplitPath(full).fragment == ""
  {
    var uri := Trim(full);
    var last := RSplitOnce(uri, '/').0;
    RSplitOnceKeepsOut(uri, '/', '#');
    NoFragment(last);
    assert !Conn.SplitPathPanics(full);
    assert Text.Find(Conn.CutFragment(last).0, '?') == Text.Find(last, '?');
  }

  /** Cutting the fragment off a text without '#' changes nothing. */
  lemma NoFragment(s: string)
    requires '#' !in s
    ensures Conn.CutFragment(s) == (s, "")
  {
  }

  // ---------------------------------------------------------------------------
  // parse_request_base

  /** What the request line gives: method, URI, version (empty when missing) and the raw
      query string. */
  datatype BaseLine = BaseLine(verb: Option<Rest>, uri: string, version: string, query: string)

  /** The request line read token by token: method from the first token, URI and query
      from the second, version from the third; later tokens are ignored. None when
      `split_path` panics on the second token. */
  function LineBase(line: string): (r: Option<BaseLine>)
    ensures r.None? <==> |SplitWhitespace(line)| > 1 && SplitPathPanics(SplitWhitespace(line)[1])
    ensures r.Some? ==> (r.value.verb.Some? <==> |SplitWhitespace(line)| > 0)
    ensures r.Some? ==> (r.value.uri != "" <==> |SplitWhitespace(line)| > 1)
  {
    var ts := SplitWhitespace(line);
    if |ts| > 1 && SplitPathPanics(ts[1]) then None
    else
      Some(BaseLine(if |ts| > 0 then BaseMethod(ts[0]) else None,
                    if |ts| > 1 then SplitPath(ts[1]).uri else "",
                    if |ts| > 2 then ts[2] else "",
                    if |ts| > 1 then SplitPath(ts[1]).scheme else ""))
  }

  /** What `parse_request_base` sends back. */
  datatype RequestBase = RequestBase(verb: Option<Rest>, uri: string, version: string, scheme: map<string, seq<string>>)

  /** `b` is what the worker sends for `line`: nothing when `split_path` panics, otherwise
      the request line's parts with the query string parsed into lists per key. */
  ghost predicate BaseOf(line: string, b: Option<RequestBase>)
  {
    BaseMatches(LineBase(line), b)
  }

  /** The base sent is the request line's parts, the query parsed. */
  ghost predicate BaseMatches(l: Option<BaseLine>, b: Option<RequestBase>)
  {
    match l
    case None => b.None?
    case Some(l) =>
      && b.Some? && b.value.verb == l.verb && b.value.uri == l.uri && b.value.version == l.version
      && Conn.SchemeOf(l.query, b.value.scheme)
  }

  /** `parse_request_base`: the token loop, stopping after the third token. */
  method ParseRequestBase(line: string) returns (b: Option<RequestBase>)
    ensures BaseOf(line, b)
  {
    var ts := SplitWhitespace(line);
    var verb: Option<Rest> := None;
    var uri := "";
    var version := "";
    var scheme: map<string, seq<string>> := map[];
    var index := 0;
    while index < |ts|
      invariant 0 <= index <= |ts| && index <= 3
      invariant verb == (if index > 0 then BaseMethod(ts[0]) else None)
      invariant index > 1 ==> !SplitPathPanics(ts[1])
      invariant uri == (if index > 1 then SplitPath(ts[1]).uri else "")
      invariant version == (if index > 2 then ts[2] else "")
      invariant Conn.SchemeOf(if index > 1 then SplitPath(ts[1]).scheme else "", scheme)
    {
      if index == 0 {
        verb := BaseMethod(ts[0]);
      } else if index == 1 {
        if SplitPathPanics(ts[1]) {
          return None;
        }
        var parts := SplitPath(ts[1]);
        uri := parts.uri;
        scheme := Conn.ParseScheme(parts.scheme);
      } else if index == 2 {
        version := ts[2];
      } else {
        break;
      }
      index := index + 1;
    }
    return Some(RequestBase(verb, uri, version, scheme));
  }

  // ---------------------------------------------------------------------------
  // cookie_parser

  /** `r` maps every key of `ps` to the first value given for it, and holds nothing else.
      Keys are kept as written, the empty key included. */
  ghost predicate FirstWins(r: map<string, string>, ps: Pairs)
  {
    && (forall k :: k in r <==> FirstValue(ps, k).Some?)
    && (forall k :: k in r ==> r[k] == FirstValue(ps, k).value)
  }

  /** `cookie_parser`: nothing is sent for an empty cookie text; otherwise every ';'-piece
      is entered first-wins, key and value trimmed, a bare key mapping to "". */
  method CookieParser(body: string) returns (r: Option<map<string, string>>)
    ensures r.None? <==> body == ""
    ensures r.Some? ==> FirstWins(r.value, PairsOf(body, ';'))
  {
    if body == "" {
      return None;
    }
    var cookie := InsertFirst(PairsOf(body, ';'));
    return Some(cookie);
  }

  /** The loop of `cookie_parser`: a key already present keeps its value. */
  method InsertFirst(ps: Pairs) returns (cookie: map<string, string>)
    ensures FirstWins(cookie, ps)
  {
    cookie := map[];
    var i := 0;
    assert ps[..0] == [];
    while i < |ps|
      invariant 0 <= i <= |ps|
      invariant FirstWins(cookie, ps[..i])
    {
      FirstWinsSnoc(cookie, ps[..i], ps[i]);
      assert ps[..i + 1] == ps[..i] + [ps[i]];
      if ps[i].0 !in cookie {
        cookie := cookie[ps[i].0 := ps[i].1];
      }
      i := i + 1;
    }
    assert ps[..|ps|] == ps;
  }

  /** One more first-wins entry extends `FirstWins` by that pair. */
  lemma FirstWinsSnoc(r: map<string, string>, ps: Pairs, p: (string, string))
    requires FirstWins(r, ps)
    ensures FirstWins(if p.0 in r then r else r[p.0 := p.1], ps + [p])
  {
    forall k {
      FirstValueSnoc(ps, p, k);
    }
  }

  /** The first piece's key is always present, with the first piece's value, spelled as
      written: unlike the newer parser, keys are not lowercased and may be empty. */
  lemma FirstPieceKept(body: string, r: map<string, string>)
    requires FirstWins(r, PairsOf(body, ';'))
    ensures PairsOf(body, ';')[0].0 in r
    ensures r[PairsOf(body, ';')[0].0] == PairsOf(body, ';')[0].1
  {
    var ps := PairsOf(body, ';');
    assert FirstValue(ps, ps[0].0) == Some(ps[0].1);
  }

  // ---------------------------------------------------------------------------
  // The line loop of parse_request

  /** What a line before the body does: a header field (key trimmed and lowercased, value
      trimmed), the text after ':' of a Cookie line (any letter case of the key), or
      nothing when it has no ':'. */
  datatype HeaderLine = Field(key: string, value: string) | CookieLine(body: string) | Ignored

  function Classify(line: string): HeaderLine
  {
    var halves := SplitOnce(Trim(line), ':');
    if halves.1.None? then Ignored
    else if Lower(Trim(halves.0)) == "cookie" then CookieLine(halves.1.value)
    else Field(Lower(Trim(halves.0)), Trim(halves.1.value))
  }

  /** The kind of every line, in order. */
  function Kinds(ls: seq<string>): (ks: seq<HeaderLine>)
    ensures |ks| == |ls|
    ensures forall j {:trigger Classify(ls[j])} :: 0 <= j < |ls| ==> ks[j] == Classify(ls[j])
  {
    seq(|ls|, j requires 0 <= j < |ls| => Classify(ls[j]))
  }

  /** The header field a line of the given kind contributes. */
  function FieldOf(k: HeaderLine): (r: Pairs)
    ensures |r| <= 1
  {
    match k
    case Field(key, value) => [(key, value)]
    case _ => []
  }

  /** The Cookie text a line of the given kind contributes. */
  function CookieOf(k: HeaderLine): (r: seq<string>)
    ensures |r| <= 1
  {
    match k
    case CookieLine(b) => [b]
    case _ => []
  }

  /** What a body line contributes: nothing for an empty line, else the line and "\r\n". */
  function BodyOf(line: string): (r: seq<string>)
  {
    if line == "" then [] else [line, "\r\n"]
  }

  /** The header fields of a run of header lines, in order. */
  function FieldPairs(ks: seq<HeaderLine>): Pairs
  {
    if |ks| == 0 then [] else FieldPairs(ks[..|ks| - 1]) + FieldOf(ks[|ks| - 1])
  }

  /** The Cookie texts of a run of header lines, in order. */
  function CookieBodies(ks: seq<HeaderLine>): seq<string>
  {
    if |ks| == 0 then [] else CookieBodies(ks[..|ks| - 1]) + CookieOf(ks[|ks| - 1])
  }

  /** The body kept from a run of body lines: empty lines are dropped, and every other
      line is followed by its own "\r\n" entry. */
  function BodyLines(ls: seq<string>): seq<string>
  {
    if |ls| == 0 then [] else BodyLines(ls[..|ls| - 1]) + BodyOf(ls[|ls| - 1])
  }

  /** The body alternates between a non-empty line of the input and "\r\n". */
  lemma {:induction false} BodyLinesAlternate(ls: seq<string>)
    ensures |BodyLines(ls)| % 2 == 0
    ensures forall j :: 0 <= j < |BodyLines(ls)| ==>
      (if j % 2 == 0 then BodyLines(ls)[j] != "" && BodyLines(ls)[j] in ls else BodyLines(ls)[j] == "\r\n")
  {
    if |ls| > 0 {
      var init := ls[..|ls| - 1];
      var last := ls[|ls| - 1];
      BodyLinesAlternate(init);
      var b := BodyLines(init);
      var r := BodyLines(ls);
      assert r == b + BodyOf(last);
      forall j | 0 <= j < |r|
        ensures if j % 2 == 0 then r[j] != "" && r[j] in ls else r[j] == "\r\n"
      {
        if j < |b| {
          assert r[j] == b[j];
          assert b[j] in init ==> b[j] in ls;
        } else {
          assert last != "";
          assert j == |b| || j == |b| + 1;
          assert r[j] == BodyOf(last)[j - |b|];
        }
      }
    }
  }

  /** `r` holds, for every key, the last value the fields give it, and nothing else. */
  ghost predicate LastWins(r: map<string, string>, ps: Pairs)
  {
    && (forall k :: k in r <==> LastValue(ps, k).Some?)
    && (forall k :: k in r ==> r[k] == LastValue(ps, k).value)
  }

  /** What the loop gathers from the lines after the request line. */
  datatype Gathered = Gathered(header: map<string, string>, cookieBodies: seq<string>, body: seq<string>)

  /** The gathering of all lines after the request line: the lines before the first empty
      one are header lines, the others body lines. */
  ghost predicate GatheredFrom(ls: seq<string>, g: Gathered)
  {
    GatheredOver(ls, Kinds(ls), g)
  }

  /** The gathering of the lines `ls` of kinds `ks`. */
  ghost predicate GatheredOver(ls: seq<string>, ks: seq<HeaderLine>, g: Gathered)
    requires |ks| == |ls|
  {
    var e := Conn.FirstEmpty(ls);
    && LastWins(g.header, FieldPairs(ks[..e]))
    && g.cookieBodies == CookieBodies(ks[..e])
    && g.body == BodyLines(ls[e..])
  }

  /** The state of the loop after `i` of the lines `ls` of kinds `ks`. */
  ghost predicate GatheredAfter(ls: seq<string>, ks: seq<HeaderLine>, i: nat, isBody: bool, g: Gathered)
    requires i <= |ls| == |ks|
  {
    var e := Conn.FirstEmpty(ls);
    var hd := if isBody then e else i;
    && (isBody <==> e < i)
    && LastWins(g.header, FieldPairs(ks[..hd]))
    && g.cookieBodies == CookieBodies(ks[..hd])
    && g.body == (if isBody then BodyLines(ls[e..i]) else [])
  }

  /** The loop of `parse_request` over the lines after the request line. */
  method GatherLines(ls: seq<string>) returns (g: Gathered)
    ensures GatheredFrom(ls, g)
  {
    g := GatherLoop(ls, Kinds(ls));
  }

  /** The loop itself, with the kinds of the lines as a ghost. */
  method GatherLoop(ls: seq<string>, ghost ks: seq<HeaderLine>) returns (g: Gathered)
    requires |ks| == |ls|
    requires forall j {:trigger Classify(ls[j])} :: 0 <= j < |ls| ==> ks[j] == Classify(ls[j])
    ensures GatheredOver(ls, ks, g)
  {
    g := Gathered(map[], [], []);
    var isBody := false;
    var i := 0;
    GatherStart(ls, ks);
    while i < |ls|
      invariant 0 <= i <= |ls|
      invariant GatheredAfter(ls, ks, i, isBody, g)
    {
      assert ks[i] == Classify(ls[i]);
      isBody, g := GatherStep(ls, ks, i, isBody, g);
      i := i + 1;
    }
    GatherDone(ls, ks, isBody, g);
  }

  /** Before the first line nothing is gathered. */
  lemma GatherStart(ls: seq<string>, ks: seq<HeaderLine>)
    requires |ks| == |ls|
    ensures GatheredAfter(ls, ks, 0, false, Gathered(map[], [], []))
  {
    assert ks[..0] == [];
  }

  /** One turn of the loop: an empty line switches to the body and is dropped; a body line
      is stored with a line break after it; a header line is classified. */
  method GatherStep(ls: seq<string>, ghost ks: seq<HeaderLine>, i: nat, isBody: bool, g: Gathered)
    returns (isBody': bool, g': Gathered)
    requires i < |ls| == |ks| && ks[i] == Classify(ls[i])
    requires GatheredAfter(ls, ks, i, isBody, g)
    ensures GatheredAfter(ls, ks, i + 1, isBody', g')
  {
    var line := ls[i];
    if line == "" {
      EmptyLine(ls, ks, i, isBody, g);
      return true, g;
    }
    if isBody {
      g' := g.(body := g.body + [line, "\r\n"]);
      BodyStep(ls, ks, i, g, g');
      return true, g';
    }
    var c := Classify(line);
    g' := HeaderLineStep(c, g, FieldPairs(ks[..i]));
    HeaderStep(ls, ks, i, g, g');
    return false, g';
  }

  /** A header line of kind `c`: a field is entered last-wins, a Cookie text is kept for its
      parser, and anything else is ignored. */
  method HeaderLineStep(c: HeaderLine, g: Gathered, ghost ps: Pairs) returns (g': Gathered)
    requires LastWins(g.header, ps)
    ensures LastWins(g'.header, ps + FieldOf(c))
    ensures g'.cookieBodies == g.cookieBodies + CookieOf(c)
    ensures g'.body == g.body
  {
    g' := g;
    if c.Field? {
      LastWinsSnoc(g.header, ps, (c.key, c.value));
      g' := g.(header := g.header[c.key := c.value]);
    } else if c.CookieLine? {
      g' := g.(cookieBodies := g.cookieBodies + [c.body]);
      assert ps + FieldOf(c) == ps;
    } else {
      assert ps + FieldOf(c) == ps;
      assert g.cookieBodies + CookieOf(c) == g.cookieBodies;
    }
  }

  /** An empty line starts the body (or, in the body, is dropped). */
  lemma EmptyLine(ls: seq<string>, ks: seq<HeaderLine>, i: nat, isBody: bool, g: Gathered)
    requires i < |ls| == |ks| && ls[i] == "" && GatheredAfter(ls, ks, i, isBody, g)
    ensures GatheredAfter(ls, ks, i + 1, true, g)
  {
    var e := Conn.FirstEmpty(ls);
    if isBody {
      BodyLinesSnoc(ls, e, i);
    } else {
      assert e == i;
      assert ls[i..i + 1][..0] == [];
    }
  }

  /** A non-empty body line is stored with a "\r\n" entry after it. */
  lemma BodyStep(ls: seq<string>, ks: seq<HeaderLine>, i: nat, g: Gathered, g': Gathered)
    requires i < |ls| == |ks| && ls[i] != "" && GatheredAfter(ls, ks, i, true, g)
    requires g' == g.(body := g.body + [ls[i], "\r\n"])
    ensures GatheredAfter(ls, ks, i + 1, true, g')
  {
    BodyLinesSnoc(ls, Conn.FirstEmpty(ls), i);
  }

  /** One more line extends the body lines of a run by that line's contribution. */
  lemma BodyLinesSnoc(ls: seq<string>, e: nat, i: nat)
    requires e <= i < |ls|
    ensures BodyLines(ls[e..i + 1]) == BodyLines(ls[e..i]) + BodyOf(ls[i])
  {
    assert ls[e..i + 1][..i - e] == ls[e..i];
  }

  /** One more field entered last-wins extends `LastWins` by that pair. */
  lemma LastWinsSnoc(h: map<string, string>, ps: Pairs, p: (string, string))
    requires LastWins(h, ps)
    ensures LastWins(h[p.0 := p.1], ps + [p])
  {
    forall k {
      LastValueSnoc(ps, p, k);
    }
  }

  /** A header line extends the fields and the Cookie texts by what it contributes. */
  lemma HeaderStep(ls: seq<string>, ks: seq<HeaderLine>, i: nat, g: Gathered, g': Gathered)
    requires i < |ls| == |ks| && ls[i] != "" && GatheredAfter(ls, ks, i, false, g)
    requires LastWins(g'.header, FieldPairs(ks[..i]) + FieldOf(ks[i]))
    requires g'.cookieBodies == g.cookieBodies + CookieOf(ks[i])
    requires g'.body == []
    ensures GatheredAfter(ls, ks, i + 1, false, g')
  {
    assert ks[..i + 1][..i] == ks[..i];
    assert FieldPairs(ks[..i + 1]) == FieldPairs(ks[..i]) + FieldOf(ks[i]);
    assert CookieBodies(ks[..i + 1]) == CookieBodies(ks[..i]) + CookieOf(ks[i]);
    Conn.FirstEmptyBeyond(ls, i + 1);
  }

  /** After the last line the loop state is the gathering of all lines. */
  lemma GatherDone(ls: seq<string>, ks: seq<HeaderLine>, isBody: bool, g: Gathered)
    requires |ls| == |ks| && GatheredAfter(ls, ks, |ls|, isBody, g)
    ensures GatheredOver(ls, ks, g)
  {
    var e := Conn.FirstEmpty(ls);
    if isBody {
      assert ls[e..|ls|] == ls[e..];
    } else {
      assert ks[..|ls|] == ks[..e];
      assert ls[e..] == [];
    }
  }

  // ---------------------------------------------------------------------------
  // parse_request

  /** The request `Request::build_from` assembles. */
  datatype Request = Request(verb: Option<Rest>, uri: string, scheme: map<string, seq<string>>,
                             cookies: map<string, string>, headers: map<string, string>, body: seq<string>)

  /** The Cookie texts whose worker sends a map back: the non-empty ones. */
  function Sent(bodies: seq<string>): (r: seq<string>)
    ensures forall j :: 0 <= j < |r| ==> r[j] != "" && r[j] in bodies
    ensures (forall j :: 0 <= j < |bodies| ==> bodies[j] == "") <==> r == []
  {
    if |bodies| == 0 then []
    else
      var rest := Sent(bodies[1..]);
      assert forall j :: 1 <= j < |bodies| ==> bodies[j] == bodies[1..][j - 1];
      (if bodies[0] == "" then [] else [bodies[0]]) + rest
  }

  /** The cookie map is the one received first: that of some Cookie line whose worker sends
      one, or empty when none does. */
  ghost predicate CookiesFrom(bodies: seq<string>, c: map<string, string>)
  {
    var sent := Sent(bodies);
    if sent == [] then c == map[]
    else exists j :: 0 <= j < |sent| && FirstWins(c, PairsOf(sent[j], ';'))
  }

  /** Receiving the cookie map: which worker answers first is up to the scheduler. */
  method ReceiveCookies(bodies: seq<string>) returns (c: map<string, string>)
    ensures CookiesFrom(bodies, c)
  {
    var sent := Sent(bodies);
    if sent == [] {
      return map[];
    }
    var j :| 0 <= j < |sent|;
    var m := CookieParser(sent[j]);
    c := m.value;
  }

  /** The base of the request: that of the first line, if that line is not empty. */
  function BaseLineOf(ls: seq<string>): Option<BaseLine>
  {
    if |ls| > 0 && ls[0] != "" then LineBase(ls[0]) else None
  }

  /** The lines after the first. */
  function LaterLines(ls: seq<string>): seq<string>
  {
    if |ls| > 0 then ls[1..] else []
  }

  /** The request `parse_request` builds from a non-empty text: see `Assembled`. */
  ghost predicate RequestOf(text: string, req: Request)
  {
    var ls := Lines(Trim(text));
    Assembled(BaseLineOf(ls), LaterLines(ls), req)
  }

  /** The request assembled from the base of the first line (defaults when its worker
      sends nothing) and the later lines: those up to the first empty one give the headers,
      where the version of the base counts as a header given before all others, so that a
      header "http_version" overrides it; the cookies are those of one Cookie line; the
      lines after it are the body. */
  ghost predicate Assembled(base: Option<BaseLine>, rest: seq<string>, req: Request)
  {
    var e := Conn.FirstEmpty(rest);
    && req.verb == (if base.Some? then base.value.verb else None)
    && req.uri == (if base.Some? then base.value.uri else "")
    && Conn.SchemeOf(if base.Some? then base.value.query else "", req.scheme)
    && LastWins(req.headers, VersionField(base) + FieldPairs(Kinds(rest)[..e]))
    && CookiesFrom(CookieBodies(Kinds(rest)[..e]), req.cookies)
    && req.body == BodyLines(rest[e..])
  }

  /** The version of the base as a field, if a base was sent. */
  function VersionField(base: Option<BaseLine>): (r: Pairs)
    ensures |r| <= 1
  {
    if base.Some? then [("http_version", base.value.version)] else []
  }

  /** `parse_request`, with both workers run to completion: None only for an empty text. */
  method ParseRequest(request: string) returns (r: Option<Request>)
    ensures r.None? <==> request == ""
    ensures r.Some? ==> RequestOf(request, r.value)
  {
    if request == "" {
      return None;
    }
    var ls := Lines(Trim(request));
    var req := Assemble(ls);
    return Some(req);
  }

  /** The body of `parse_request` after the text is cut into lines. */
  method Assemble(ls: seq<string>) returns (req: Request)
    ensures Assembled(BaseLineOf(ls), LaterLines(ls), req)
  {
    var base := ReadBase(ls);
    ghost var lb := BaseLineOf(ls);
    var rest := LaterLines(ls);
    var g := GatherLines(rest);
    var cookies := ReceiveCookies(g.cookieBodies);
    ghost var e := Conn.FirstEmpty(rest);
    var header := AddVersion(g.header, base, lb, FieldPairs(Kinds(rest)[..e]));
    var verb := if base.Some? then base.value.verb else None;
    var uri := if base.Some? then base.value.uri else "";
    var scheme := if base.Some? then base.value.scheme else map[];
    req := Request(verb, uri, scheme, cookies, header, g.body);
    AssembledOf(lb, base, rest, req);
  }

  /** The parts, put together, are the assembled request. */
  lemma AssembledOf(lb: Option<BaseLine>, base: Option<RequestBase>, rest: seq<string>, req: Request)
    requires BaseMatches(lb, base)
    requires CookiesFrom(CookieBodies(Kinds(rest)[..Conn.FirstEmpty(rest)]), req.cookies)
    requires req.body == BodyLines(rest[Conn.FirstEmpty(rest)..])
    requires LastWins(req.headers, VersionField(lb) + FieldPairs(Kinds(rest)[..Conn.FirstEmpty(rest)]))
    requires req.verb == (if base.Some? then base.value.verb else None)
    requires req.uri == (if base.Some? then base.value.uri else "")
    requires req.scheme == (if base.Some? then base.value.scheme else map[])
    ensures Assembled(lb, rest, req)
  {
    if lb.Some? {
      assert Conn.SchemeOf(lb.value.query, req.scheme);
    } else {
      assert base.None?;
    }
  }

  /** The base worker runs only on a non-empty first line. */
  method ReadBase(ls: seq<string>) returns (base: Option<RequestBase>)
    ensures BaseMatches(BaseLineOf(ls), base)
  {
    base := None;
    if |ls| > 0 && ls[0] != "" {
      base := ParseRequestBase(ls[0]);
    }
  }

  /** The version is entered under "http_version" only when that header is absent. */
  method AddVersion(header: map<string, string>, base: Option<RequestBase>, ghost lb: Option<BaseLine>, ghost ps: Pairs)
    returns (header': map<string, string>)
    requires LastWins(header, ps) && BaseMatches(lb, base)
    ensures LastWins(header', VersionField(lb) + ps)
  {
    header' := header;
    if base.Some? {
      VersionFirst(header, ps, base.value.version);
      if "http_version" !in header {
        header' := header["http_version" := base.value.version];
      }
    } else {
      assert [] + ps == ps;
    }
  }

  /** The last value given after a first pair: the pair only counts when nothing later
      gives the key. */
  lemma {:induction false} LastValueCons(p: (string, string), ps: Pairs, k: string)
    ensures LastValue([p] + ps, k) ==
      (if LastValue(ps, k).Some? then LastValue(ps, k) else if p.0 == k then Some(p.1) else None)
  {
    if |ps| > 0 {
      var init := ps[..|ps| - 1];
      assert ([p] + ps)[..|ps|] == [p] + init;
      LastValueCons(p, init, k);
    } else {
      assert [p] + ps == [p];
    }
  }

  /** `or_insert` of the version into last-wins headers is last-wins with the version as
      the earliest field. */
  lemma VersionFirst(h: map<string, string>, ps: Pairs, v: string)
    requires LastWins(h, ps)
    ensures LastWins(if "http_version" in h then h else h["http_version" := v], [("http_version", v)] + ps)
  {
    forall k {
      LastValueCons(("http_version", v), ps, k);
    }
  }

  /** Text made only of whitespace is not empty, so it is parsed, but it yields no method. */
  lemma BlankRequestHasNoMethod(text: string, req: Request)
    requires Trim(text) == "" && RequestOf(text, req)
    ensures req.verb.None? && req.uri == "" && req.body == []
  {
    assert Lines(Trim(text)) == [];
    assert LaterLines([]) == [];
    assert Conn.FirstEmpty([]) == 0;
  }

  // ---------------------------------------------------------------------------
  // handle_connection

  /** How the connection ends: a response written (its body left out for a HEAD request),
      the default page with its status, or a shutdown without writing. */
  datatype Outcome = Written(resp: Response, ignoreBody: bool) | DefaultPage(status: int) | ShutDown

  /** The status of `build_default_response`. */
  const DefaultStatus := 500

  /** The outcome for what `read_request` produced: a failed parse (no request) and a
      request without a method both get the default page; otherwise `dispatch`, the
      router's handling of the request on the initial response, gives the response. */
  function Answer(req: Option<Request>, dispatch: (Request, Response) -> Response, initial: Response): (out: Outcome)
    ensures out.DefaultPage? <==> req.None? || req.value.verb.None?
    ensures out.DefaultPage? ==> out.status == DefaultStatus
    ensures out.Written? ==> out.resp == dispatch(req.value, initial)
    ensures out.Written? ==> (out.ignoreBody <==> req.value.verb == Some(OTHER("head")))
    ensures !out.ShutDown?
  {
    if req.None? || req.value.verb.None? then DefaultPage(DefaultStatus)
    else Written(dispatch(req.value, initial), req.value.verb == Some(OTHER("head")))
  }

  /** `handle_connection`, up to the response to write: `raw` is the text read, or None when
      the read fails. */
  method HandleConnection(raw: Option<string>, dispatch: (Request, Response) -> Response, initial: Response)
    returns (out: Outcome, ghost req: Option<Request>)
    ensures raw.None? <==> out == ShutDown
    ensures raw.Some? ==> (req.None? <==> raw.value == "")
    ensures raw.Some? && req.Some? ==> RequestOf(raw.value, req.value)
    ensures raw.Some? ==> out == Answer(req, dispatch, initial)
  {
    req := None;
    if raw.None? {
      return ShutDown, req;
    }
    var parsed := ParseRequest(raw.value);
    req := parsed;
    out := Answer(parsed, dispatch, initial);
  }
}
