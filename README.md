# rust_simple_server: routing, request parsing and sessions in Dafny

This project models the request-handling core of `rust_simple_server`, a small HTTP
server written in Rust. It also proves properties of that model. The modelled parts are:

- **Segment trie** (`src/support/trie.rs`, module `Trie`). It stores parameterised
  routes such as `/user/:id(\d+)`. A node has literal children in a map and parameter
  children in an ordered list. Insertion takes fields from the end of the field vector.
  Lookup pushes and pops a stack of parameter bindings.
- **Route tables** (`src/core/router.rs`, modules `Router` and `RouteParser`).
  - Each HTTP method has an explicit map, a trie and a wildcard map.
  - `params_parser` is a four-state character automaton that turns a route text into
    trie fields.
  - `seek_path` tries the three tables in a fixed order.
  - `seek_handler` falls back to the GET table, then to the catch-all `*` table.
  - `handle_request` turns a redirect into a 301 reply with a `Location` header.
- **Map update policy** (`src/support/common.rs`, module `Common`). `MapUpdates::add`
  lowercases keys and either replaces or keeps the first value.
- **Request-text parsing**, current variant (`src/core/conn.rs`, module `Conn`). This
  covers the method mapping, `split_path`, the request line, header lines, the Cookie
  header, the query string, the header/body split, the decisions of `parse_request`,
  and the mapping from errors to status codes.
- **Query and cookie pair lists** (module `KeyValue`). These are shared by both request
  parsers.
- **Request-text parsing**, older variant (`src/core/connection.rs`, module
  `Connection`). It is case-sensitive, keeps the last header value, and follows each
  body line with `"\r\n"`.
- **Legacy flat router** (`src/router.rs`, module `LegacyRouter`). It has four maps keyed
  by path descriptor and a match-any search.
- **Sessions** (`src/support/session.rs`, module `Session`). This covers the session
  value and its delimiter-based text form, the session setters, and the registry of live
  sessions with its expiry cleanup.
- **Shared modules.** `Text` holds the Rust string operations the core relies on:
  ASCII case mapping, `trim`, `split`, `splitn`, `rsplitn`, `find`, `lines` and
  `split_whitespace`. `Handler` holds the opaque parts.

How the model represents the parts it cannot see:

- **Callbacks.** Callbacks and auth functions are identified by a number.
- **Regular expressions.** The `regex` crate is an `Engine` value: two uninterpreted
  functions, `compiles(p)` and `matches(p, s)`.
- **Panics.** A panic is an explicit result: `Fatal`, `Malformed`, `KeyCollision`,
  `Crash`, or `None` where the caller sees nothing.
- **Hash-map iteration order.** Where this order decides a result, the model makes a
  nondeterministic choice. The proofs hold for every choice.
- **Time.** Time is an integer number of seconds. RFC 3339 rendering and parsing are a
  `TimeFormat` parameter.
- **Threads.** The worker threads and channels of the parsers are run to completion in
  sequence.

## Model

| member | source | states |
|---|---|---|
| Common.Add | src/support/common.rs:12-26 | An empty field changes nothing and returns None. Otherwise the only key that changes is the lowercased field. In replace mode the new value is stored and the displaced one is returned. In first-wins mode an existing value is kept and the result is always None. |
| Text.TokenOfWord | src/core/conn.rs:279 | A run of non-whitespace characters, followed by whitespace or by nothing, is exactly one leading token of `split_whitespace`. |
| Text.WordThen | src/core/conn.rs:279 | A word followed by whitespace, or by nothing, is the first word that `split_whitespace` yields. The rest is split on its own. |
| Text.SpaceThen | src/core/conn.rs:279 | `split_whitespace` skips a leading whitespace character, whichever one of the Unicode White_Space set it is. |
| Text.LastWord | src/core/connection.rs:207 | A word without whitespace is the only word `split_whitespace` yields. |
| Text.SpaceTrimmed | src/core/conn.rs:355 | `trim` removes any leading whitespace character from a word, so a header value after a no-break space is stored without it. |
| Text.NonAsciiSpaces | src/core/conn.rs:279 | The ideographic space, the no-break space and the line separator count as whitespace, as `char::is_whitespace` has it. ASCII letters do not. |
| Trie.FieldEqIsEquality | src/support/trie.rs:35-52 | Field equality compares name, kind and validator text, with both validators present or both absent. It is exactly structural equality. |
| Trie.NewNode | src/support/trie.rs:63-71 | A new node has no literal and no parameter children. |
| Trie.Insert | src/support/trie.rs:73-120 | The last field becomes a child of the node. A parameter field never collides and appends exactly one new branch after the existing ones. A literal field changes only the literal child of that name. Giving a callback to an existing literal child that already has one is a key collision. A node without literal children never collides. |
| Trie.BuildNewChild | src/support/trie.rs:122-138 | The new child carries the field. It holds the callback only when no fields remain. |
| Trie.Initialize | src/support/trie.rs:158-166 | A new trie has the root "/" with no callback, and it is empty. |
| Trie.AddRoute | src/support/trie.rs:173-175 | Adding succeeds exactly when insertion into the root does not collide, and the result is that insertion. |
| Trie.Pop | src/support/trie.rs:244 | Popping a non-empty stack drops its last binding. |
| Trie.Find | src/support/trie.rs:187-200 | The stack given on entry is always a prefix of the stack on return. An empty segment list finds nothing and leaves the stack as it was. |
| Trie.RecursiveFind | src/support/trie.rs:202-250 | The loop over literal and parameter children, with its pushes and pops, returns exactly the callback and stack of the lookup function `Find`. |
| Trie.FindParams | src/support/trie.rs:225-248 | The loop over parameter children returns a stack that extends the one it was given. |
| Trie.FindSound | src/support/trie.rs:202-250 | A found callback ends a real route below the node. At each level the segment picks either the literal child of that name or a parameter child that accepts it. |
| Trie.FindParamsSound | src/support/trie.rs:225-248 | A callback found in the loop over parameter children comes from a child that accepts the segment and ends the route. |
| Trie.LiteralShadowsParams | src/support/trie.rs:217-223 | When the first segment names a literal child, the parameter children of that level play no part in the result. |
| Trie.RejectedParamSkipped | src/support/trie.rs:226-234 | A parameter child with an empty name, or whose validator rejects the segment, is skipped and the stack is not touched. |
| Trie.InsertThenFind | src/support/trie.rs:73-120 | After an all-literal route is inserted without collision, looking up its names in reverse order finds its callback and pushes no bindings. |
| Trie.BuildThenFind | src/support/trie.rs:122-138 | A branch built from literal fields leads to the callback by those names in reverse order. |
| Trie.EmptyTrieFindsNothing | src/support/trie.rs:158-166 | A lookup in a new trie finds nothing. |
| Trie.ReversedRouteExample | src/support/trie.rs:78 | The route parsed from "/user/:id" answers the segments "7/user", binding id to "7". It does not answer "user/7". |
| Trie.ReversedNames | src/support/trie.rs:78 | Gives the names of the fields from last to first. This is the order in which insertion consumes them. |
| Router.NewRouteMap | src/core/router.rs:90-96 | A new route map has an empty explicit map, an empty trie and an empty wildcard map. |
| Router.InsertPath | src/core/router.rs:98-130 | The registration is fatal exactly in these cases: an explicit path that is empty or lacks a leading '/'; an empty wildcard pattern; a parameter route that is malformed or whose insertion collides. Explicit paths, and parameter paths without "/:" or ":\\", go to the explicit map, where the first registration wins. A wildcard is added only when its text is not yet a key and it compiles. A parameter route goes into the trie as its parsed fields, which have unique parameter names. The wildcard map only ever holds compiled patterns. |
| Router.SearchWildcard | src/core/router.rs:437-447 | The loop over the wildcard map returns the callback of some route whose pattern matches the URI. It returns None only when no pattern matches. |
| Router.UriSegments | src/core/router.rs:454-458 | The segments contain no '/', and joining them with '/' gives back the URI with its outer slashes trimmed. |
| Router.SearchParamsRouter | src/core/router.rs:449-465 | The result is the trie lookup of the URI's segments from an empty stack. A found callback ends a route that matches the segments. |
| Router.BindAllLastWins | src/core/router.rs:241-243 | After the bindings are copied into the parameter map, each name holds its last bound value. |
| Router.BindAllKeeps | src/core/router.rs:241-243 | A name that no binding mentions keeps its earlier value, or stays absent. |
| Router.CopyBindings | src/core/router.rs:241-243 | The loop leaves the parameter map with every binding inserted in order. |
| Router.SeekPath | src/core/router.rs:231-254 | An explicit hit on the raw URI answers first. Otherwise a trie hit answers and its bindings are copied into the parameters. Otherwise the wildcard search answers. The parameters change only on a trie hit. |
| Router.SeekPathMiss | src/core/router.rs:231-254 | The lookup finds nothing exactly when none of the three tables answers. In that case no parameters are bound. |
| Router.RegisteredExplicitFound | src/core/router.rs:100-106 | An explicit path that is already lowercase, registered on a map that did not hold it, is found again by its own text. No parameters are bound. |
| Router.MixedCaseExplicitMissed | src/core/router.rs:105 | An explicit path with upper-case letters is stored only under its lowercased key. Looking up its own text therefore misses. |
| Router.RegisteredWildcardAnswers | src/core/router.rs:107-119 | A new wildcard that compiles and matches the URI makes the lookup answer. |
| Router.Redirected | src/core/router.rs:392-401 | An empty redirect leaves the response as it was. Otherwise the status becomes 301. The Location header holds the redirect, with a '/' put in front when it is missing. No other header or flag changes. |
| Router.RedirectedIdempotent | src/core/router.rs:392-401 | Applying the redirect rewrite twice gives the same response as applying it once. |
| Router.HandleRequest | src/core/router.rs:388-402 | The response is the callback's response with the redirect rewrite applied. |
| Router.Register | src/core/router.rs:290-302 | Registering under a method touches only that method's table. The table is created when missing. The registration succeeds exactly when inserting the path into that table does. |
| Router.RegisterKeepsValid | src/core/router.rs:290-302 | Every table's wildcard map keeps holding only compiled patterns. |
| Router.Primary | src/core/router.rs:414-423 | The table searched first is always a stored table. It is the method's own when that exists. Otherwise the only possible choice is the GET table, and only for a header-only request. |
| Router.Route.constructor | src/core/router.rs:273-278 | A new router has no tables and no auth function. |
| Router.Route.SetAuthFunc | src/core/router.rs:286-288 | Sets the auth function and leaves the tables alone. |
| Router.Route.AddRoute | src/core/router.rs:290-302 | The tables become those of `Register`, or stay as they were on a fatal registration. Tables holding only compiled wildcards keep that invariant. |
| Router.Route.Get | src/core/router.rs:326-329 | Registers the path in the GET table, as `AddRoute` does. |
| Router.Route.Patch | src/core/router.rs:331-334 | Registers the path in the PATCH table. |
| Router.Route.Post | src/core/router.rs:336-339 | Registers the path in the POST table. |
| Router.Route.Put | src/core/router.rs:341-344 | Registers the path in the PUT table. |
| Router.Route.Delete | src/core/router.rs:346-349 | Registers the path in the DELETE table. |
| Router.Route.Options | src/core/router.rs:351-354 | Registers the path in the OPTIONS table. |
| Router.Route.Other | src/core/router.rs:356-365 | An empty method name is fatal and changes nothing. Any other name registers under OTHER of the upper-cased name. |
| Router.Route.All | src/core/router.rs:371-373 | Registers the path in the catch-all table OTHER("*"). |
| Router.Route.SeekHandler | src/core/router.rs:404-434 | The handler and parameters come from the primary table's lookup. When that finds nothing, they come from the catch-all table. |
| RouteParser.FieldOf | src/core/router.rs:183-227 | An empty piece is skipped. An emitted field has a non-empty name. A parameter's name is new and is added to the names seen. A validator appears only on a parameter and always compiles. |
| RouteParser.AppendField | src/core/router.rs:217-221 | Appending a field with a fresh parameter name keeps parameter names unique and adds exactly that name. |
| RouteParser.ParseFromConsistent | src/core/router.rs:143-228 | A parse that succeeds extends the fields found so far. Its parameter names are unique and all its names are non-empty. |
| RouteParser.ParseRoute | src/core/router.rs:132-229 | A parsed route has non-empty field names and unique parameter names. |
| RouteParser.ParamsParser | src/core/router.rs:132-229 | The loop runs the split automaton and the field builder character by character. Its result is that of `ParseRoute`. |
| RouteParser.AbortSticks | src/core/router.rs:159-172 | Once the automaton has panicked, it stays panicked. |
| RouteParser.AbortFrom | src/core/router.rs:143-182 | A panic of the automaton anywhere in the text makes the parse fatal from any earlier point. |
| RouteParser.AutomatonAbortIsFatal | src/core/router.rs:143-182 | Any automaton panic makes the whole route fatal. |
| RouteParser.EmptySegmentFatal | src/core/router.rs:163-165 | "//" outside a validator is fatal. |
| RouteParser.BadNameCharFatal | src/core/router.rs:167-169 | A character in a parameter name that is not alphanumeric, '(' or '/' is fatal. |
| RouteParser.BadNameCharAborts | src/core/router.rs:167-169 | Such a character puts the automaton in its panic state. |
| RouteParser.TextAfterRegexFatal | src/core/router.rs:171-173 | Any character other than '/' after a validator's closing ')' is fatal. |
| RouteParser.PieceAborts | src/core/router.rs:191-219 | These pieces are fatal: ":" alone; ":(re)" without a name; ":name()" without a pattern; a parameter name already used. |
| RouteParser.NamelessAborts | src/core/router.rs:203-205 | A validated parameter without a name is fatal. |
| RouteParser.PatternlessAborts | src/core/router.rs:199-207 | A validated parameter with an empty pattern is fatal. |
| RouteParser.ParseRendered | src/core/router.rs:132-229 | A route written from well-formed segments parses back to exactly the fields those segments stand for. This holds with or without a trailing '/'. The leading '/' and a trailing '/' give no field. A '/' inside a validator does not split. |
| RouteParser.ExampleOk | src/core/router.rs:472-489 | The unit test's segments are well formed when its validator compiles. |
| RouteParser.ExampleRender | src/core/router.rs:474 | The unit test's route text is those segments written out, with a trailing '/'. |
| RouteParser.ParserExample | src/core/router.rs:472-489 | The unit test's route "/root/api/:Tes中t(a=[/]bdc)/this./:check/" parses to the five fields the test expects. |
| KeyValue.Pair | src/core/conn.rs:424-429 | A trimmed piece is split at its first '='. A piece without '=' gives its text as the key and "" as the value. The key never contains '='. |
| KeyValue.PairsOf | src/core/conn.rs:423-424 | There is one pair per piece of the trimmed text split at the delimiter. |
| KeyValue.FirstValueIsEarliest | src/core/conn.rs:423-430 | The first value for a key is that of its earliest pair. There is none exactly when no pair has the key. |
| KeyValue.FirstValueSnoc | src/core/conn.rs:426-428 | A later pair never changes a key's first value. |
| KeyValue.ValuesOf | src/core/conn.rs:446-452 | A key has at most one value per pair. |
| KeyValue.ValuesOfSnoc | src/core/conn.rs:446-452 | A new pair appends its value to its key's list. |
| KeyValue.ValuesOfEmpty | src/core/conn.rs:446-452 | A key has no values exactly when no pair has it. |
| KeyValue.AppendedPush | src/core/conn.rs:446-452 | Pushing a pair keeps every key's values in order of appearance. |
| KeyValue.AppendValues | src/core/conn.rs:435-454 | The loop appends each pair's value to its key's list, in order. |
| KeyValue.SchemeParser | src/core/conn.rs:433-457 | The keys are those already present plus those of the query. Each key's list is its earlier values followed by its query values in order. |
| KeyValue.LowerPair | src/support/common.rs:13-17 | A pair with an empty key is refused. Any other pair is stored under its lowercased key. |
| KeyValue.Lowered | src/support/common.rs:13-17 | Lowering never adds pairs. |
| KeyValue.LoweredSnoc | src/support/common.rs:13-17 | Lowering the keys works pair by pair. |
| KeyValue.LastValueIsLatest | src/core/conn.rs:355 | The last value for a key is that of its latest pair. There is none exactly when no pair has the key. |
| KeyValue.LastValueSnoc | src/core/conn.rs:355 | A new pair for a key becomes its last value. |
| KeyValue.ReplacedAdd | src/core/conn.rs:355 | Adding in replace mode keeps the map equal to the last lowercased value per key. |
| KeyValue.MergedAdd | src/core/conn.rs:426-428 | Adding in first-wins mode keeps the map equal to the first lowercased value per key. |
| Conn.ErrorAction | src/core/conn.rs:33-55 | A read failure shuts the socket down and writes nothing. An empty request gets 400, a denied request 401, and a request without a handler 404. |
| Conn.ErrorActionInjective | src/core/conn.rs:35-47 | Distinct errors lead to distinct actions. |
| Conn.MethodOf | src/core/conn.rs:285-302 | The method token is upper-cased. GET, PUT, POST, DELETE and OPTIONS each map to their own variant, exactly for that upper-cased name. Every other token maps to OTHER of its upper-case form, and never to PATCH. The header-only flag is set exactly for "HEADER". |
| Conn.MethodOfIgnoresCase | src/core/conn.rs:286 | The method mapping ignores the case of the token. |
| Conn.PatchIsOther | src/core/conn.rs:292-299 | "PATCH" in any case maps to OTHER("PATCH"). |
| Conn.HeadAndHeaderDiffer | src/core/conn.rs:294-296 | "HEAD" maps to OTHER("HEAD") without the header-only flag. Only "HEADER" sets the flag. |
| Conn.CutFragment | src/core/conn.rs:383-390 | The last component is cut at its first '#'. The fragment keeps its '#'. The two parts give back the component. |
| Conn.SplitPath | src/core/conn.rs:368-412 | The URI is never empty. A fragment starts with '#' and a query starts with '?'. |
| Conn.JoinLeaf | src/core/conn.rs:397-401 | The URI is the prefix, a '/' and the last component, and is never empty. |
| Conn.DropSlash | src/core/conn.rs:405-410 | One trailing '/' is dropped from a URI longer than one character. Nothing else changes. |
| Conn.SplitPathEmpty | src/core/conn.rs:374-378 | An input that is blank after trimming gives the URI "/" and nothing else. |
| Conn.SplitPathNoQuery | src/core/conn.rs:404-411 | Without a '?' there is no query, and the URI is the trimmed input, less at most one trailing '/'. |
| Conn.SplitPathNoQueryValue | src/core/conn.rs:383-411 | Without a '?' the URI keeps the fragment text. The fragment is still reported. |
| Conn.FragmentStaysInUri | src/core/conn.rs:404-410 | When there is a fragment but no '?', the URI is the whole trimmed input and ends with the fragment. |
| Conn.QueryText | src/core/conn.rs:393-394 | The query text runs from the first '?' of the last component, without its fragment, and starts with '?'. |
| Conn.FromMark | src/core/conn.rs:393-394 | The text from the first '?' on starts with '?'. |
| Conn.SplitPathWithQuery | src/core/conn.rs:393-403 | With a '?', the URI, then the query text, then the fragment give back the trimmed input. The query is the trimmed query text, '?' included. |
| Conn.SchemeFirstKeyMarked | src/core/conn.rs:393-403 | The query handed to the query parser keeps its '?'. The first query key therefore starts with '?'. |
| Conn.CookieParser | src/core/conn.rs:418-431 | The cookie map takes each ';' piece's pair, lowercased, with empty keys refused. The first value given for a key wins over later ones and over nothing already present. |
| Conn.AddAllFirst | src/core/conn.rs:423-430 | The loop adds every pair in first-wins mode. |
| Conn.EmptyPiecesAreRefused | src/core/conn.rs:419-421 | The pairs of an empty cookie text, once lowered, add nothing: their only key is empty, and `add` refuses an empty key. The early return on an empty text therefore changes nothing. |
| Conn.HeaderFields | src/core/conn.rs:345-357 | A header line gives a key and a value exactly when its trimmed text has a ':'. The key is the text before the first ':'. |
| Conn.HeaderPairsOf | src/core/conn.rs:352-356 | A line gives at most one header. |
| Conn.CookieCaseMatters | src/core/conn.rs:349 | A "Cookie" key that is not exactly "cookie" is stored as an ordinary header under "cookie". It is not parsed as cookies. |
| Conn.DeserializeHeaders | src/core/conn.rs:336-366 | In body mode the line is appended to the body. Otherwise a "cookie" line feeds the cookie map in first-wins mode, and any other keyed line is stored with the last value winning. The body is unchanged. |
| Conn.FirstEmpty | src/core/conn.rs:228-232 | Gives the index of the first empty line, or the number of lines when there is none. |
| Conn.ParseRemainder | src/core/conn.rs:225-235 | The lines before the first empty one are header lines. The lines after it, empty ones included, are the body in order. The first empty line itself is dropped. |
| Conn.RemainderStep | src/core/conn.rs:226-235 | One line of the remainder loop, with its body-mode flag, extends the parse of the lines before it by that line. |
| Conn.RequestLine | src/core/conn.rs:279-310 | The first token gives the method, the second the path parts, the third the version. Later tokens are ignored. The line is None exactly when `split_path` would panic on the second token. |
| Conn.ReadRequestLine | src/core/conn.rs:279-310 | The token loop gives the same parts as `RequestLine`. |
| Conn.NewRequest | src/core/conn.rs:31 | A new request has no method, URI, headers or parameters. |
| Conn.RequestRest | src/core/conn.rs:212-217 | When there is a remainder, the trimmed text is the request line, then CRLF, then that remainder. |
| Conn.HandlerMissHasNoParams | src/core/conn.rs:249-253 | When no handler is found, no route parameters are set. |
| Conn.Deserialize | src/core/conn.rs:198-268 | A request line on which `split_path` panics gives None. Without a path nothing is looked up. With a path, the handler and parameters come from `seek_handler`. The query is parsed into value lists per key, and the remainder gives the headers, cookies and body. |
| Conn.ParseScheme | src/core/conn.rs:326-328 | An empty query gives an empty map. Any other query gives each key's values in order. |
| Conn.ParseRest | src/core/conn.rs:215-243 | An empty remainder gives nothing. Any other remainder is parsed line by line. |
| Conn.Verdict | src/core/conn.rs:183-194 | A refusing auth function gives AccessDenied, even when a handler was found. Otherwise a missing handler gives ServiceUnavailable, and a found one is returned. |
| Conn.WithHost | src/core/conn.rs:174-177 | The host is taken from the "host" header when there is one. Nothing else changes. |
| Conn.ParseRequest | src/core/conn.rs:152-196 | A failed read is ReadStreamFailure. A text that is blank after trimming CR and LF is EmptyRequest. A request line that panics crashes. Anything else is deserialized and then judged as in `Verdict`. |
| Conn.Prepared | src/core/conn.rs:72-79 | Keep-alive is off exactly when the "connection" header is "close". OTHER("HEAD") makes the response header-only. Nothing else changes. |
| Conn.HandleConnection | src/core/conn.rs:30-85 | A read failure closes the socket. Any other error writes its status from `ErrorAction`. A crash is reported as such. A found handler answers with its response, prepared and then rewritten for redirects. |
| Connection.BaseMethod | src/core/connection.rs:209-218 | Exactly "GET", "PUT", "POST", "DELETE" and "OPTIONS" map to their variants. An empty token gives no method. Anything else maps to OTHER of the lowercased token. PATCH is never produced. |
| Connection.HeadInAnyCase | src/core/connection.rs:217 | The method is OTHER("head") exactly when the token lowercases to "head". |
| Connection.MethodIsCaseSensitive | src/core/connection.rs:210-217 | "get" is not GET: it maps to OTHER("get"). |
| Connection.SplitPath | src/core/connection.rs:272-303 | The URI is never empty, and a query starts with '?'. |
| Connection.QueryText | src/core/connection.rs:280-281 | The query text runs from the first '?' of the last component and starts with '?'. |
| Connection.SplitPathWithQuery | src/core/connection.rs:280-291 | With a '?', the URI followed by the query text gives back the trimmed input. The query is the trimmed query text. |
| Connection.SplitPathNoQuery | src/core/connection.rs:292-302 | Without a '?' there is no query. The URI is the trimmed input, with one trailing '/' dropped when the input is longer than one character. |
| Connection.SplitPathEmpty | src/core/connection.rs:273-276 | An input that is blank after trimming gives ("/", ""). |
| Connection.SplitPathAgrees | src/core/connection.rs:272-303 | Without a '#', the older `split_path` gives the same URI and query as the current one. |
| Connection.LineBase | src/core/connection.rs:207-233 | The first token gives the method, the second the URI and query, the third the version. The result is None exactly when `split_path` would panic. |
| Connection.ParseRequestBase | src/core/connection.rs:201-243 | The token loop sends the request line's parts, with the query parsed into value lists per key. |
| Connection.CookieParser | src/core/connection.rs:309-327 | An empty cookie text sends nothing. Otherwise each key, kept as written, maps to its first value. |
| Connection.InsertFirst | src/core/connection.rs:313-322 | The loop keeps the first value of every key. |
| Connection.FirstWinsSnoc | src/core/connection.rs:316-320 | A later pair for a key already present changes nothing. |
| Connection.FirstPieceKept | src/core/connection.rs:313-322 | The first piece's pair is always in the cookie map with its own value. |
| Connection.Kinds | src/core/connection.rs:153-172 | Each line is classified on its own, in order. |
| Connection.FieldOf | src/core/connection.rs:153-172 | A classified line gives at most one header field. |
| Connection.CookieOf | src/core/connection.rs:158-164 | A classified line gives at most one cookie text. |
| Connection.BodyLinesAlternate | src/core/connection.rs:173-176 | The body alternates between non-empty request lines and "\r\n" entries. |
| Connection.GatherLines | src/core/connection.rs:135-178 | Header lines before the first empty line are stored under their lowercased trimmed key, with the last value winning. Cookie lines are collected. The first empty line is dropped, and so is every later empty line. Each later line is stored, followed by "\r\n". |
| Connection.GatherLoop | src/core/connection.rs:135-178 | The loop with its body-mode flag gathers exactly what `GatherLines` states. |
| Connection.HeaderLineStep | src/core/connection.rs:153-172 | A header line adds its field with the last value winning, or adds its cookie text. The body is untouched. |
| Connection.LastWinsSnoc | src/core/connection.rs:167-170 | Inserting a field keeps the map equal to the last value per key. |
| Connection.Sent | src/core/connection.rs:310 | Only non-empty cookie texts produce a map. |
| Connection.ReceiveCookies | src/core/connection.rs:194-196 | The cookie map is that of some Cookie line whose worker sends one, or empty when none does. |
| Connection.VersionField | src/core/connection.rs:191 | There is at most one version field. |
| Connection.VersionFirst | src/core/connection.rs:191 | The version is inserted only when there is no "http_version" header. It therefore acts as a field given before all header lines. |
| Connection.AddVersion | src/core/connection.rs:187-192 | After the version is added, each header key holds its last value, with the version counted first. |
| Connection.LastValueCons | src/core/connection.rs:187-192 | A field put in front of the header lines is the last value for its key only when no header line has that key. |
| Connection.AssembledOf | src/core/connection.rs:135-198 | The request line, the cookie map, the body and the last-wins headers together meet `RequestOf`. |
| Connection.ReadBase | src/core/connection.rs:135-145 | The base is that of the first line, and absent when the first line is empty. |
| Connection.ParseRequest | src/core/connection.rs:116-199 | Only an empty text gives no request. Any other text gives the method, URI and query of its first line; the headers and version with the last value winning; the cookies of one Cookie line; and the body lines. |
| Connection.Assemble | src/core/connection.rs:135-198 | The request is assembled from the first line and the later lines, as `ParseRequest` states. |
| Connection.BlankRequestHasNoMethod | src/core/connection.rs:116-199 | A text that is blank after trimming gives a request with no method, no URI and no body. |
| Connection.Answer | src/core/connection.rs:50-67 | No request, or no method, gives the default page with status 500. Otherwise the router's response is written, with the body left out exactly for OTHER("head"). |
| Connection.HandleConnection | src/core/connection.rs:26-69 | A failed read shuts the socket down. Otherwise only an empty text gives no request, and the outcome is that of `Answer`. |
| LegacyRouter.SeekPath | src/router.rs:148-172 | The callback returned belongs to an entry that answers the URI. A raw literal answers every prefix of itself, an explicit literal only itself, and a wildcard what its compiled pattern matches. The result is None exactly when no entry answers. |
| LegacyRouter.EmptyPathHitsRaw | src/router.rs:151-154 | Any raw entry answers the empty path. |
| LegacyRouter.RawAnswersPrefix | src/router.rs:151-160 | A raw literal answers a proper prefix of itself, where an explicit one does not. |
| LegacyRouter.ExplicitOnlyAnswer | src/router.rs:156-159 | When only an explicit entry answers, its callback is the one found. |
| LegacyRouter.HandleRequestWorker | src/router.rs:141-146 | The found callback is invoked on the request path. Without one, the response is left untouched. |
| LegacyRouter.LegacyRoute.constructor | src/router.rs:86-93 | A new router has four empty maps. |
| LegacyRouter.LegacyRoute.From | src/router.rs:95-102 | The copy has the same four maps. |
| LegacyRouter.LegacyRoute.Get | src/router.rs:106-108 | Only the GET map changes, and the path now maps to the callback, replacing any earlier one. |
| LegacyRouter.LegacyRoute.Put | src/router.rs:110-112 | Only the PUT map changes, as for GET. |
| LegacyRouter.LegacyRoute.Post | src/router.rs:114-116 | Only the POST map changes, as for GET. |
| LegacyRouter.LegacyRoute.Delete | src/router.rs:118-120 | Only the DELETE map changes, as for GET. |
| LegacyRouter.LegacyRoute.Handle | src/router.rs:123-139 | Each handler searches its own method's map. |
| Session.EntryOf | src/support/session.rs:518-522 | An entry is split at its first LV4 delimiter. The key is non-empty, and the value starts with the delimiter. There is no result without a delimiter or with an empty key. |
| Session.ParseSessionStore | src/support/session.rs:514-525 | An empty field adds nothing. Otherwise the field is trimmed and split at LV3, and the entries are added in order. |
| Session.InsertEntries | src/support/session.rs:517-524 | The loop adds the entries in order, as `AddEntries` does. |
| Session.InsertEntry | src/support/session.rs:518-523 | An entry with a key not yet present is stored under that key. Anything else changes nothing. |
| Session.AddEntryFacts | src/support/session.rs:518-523 | An entry adds only its own key, and never changes an existing key. |
| Session.AddEntriesKey | src/support/session.rs:514-525 | A key ends up in the store exactly when it was there already or some entry carries it. |
| Session.AddEntriesKeys | src/support/session.rs:514-525 | The same, for all keys at once. |
| Session.AddEntriesOld | src/support/session.rs:521 | A key already present keeps its value. |
| Session.AddEntriesFirst | src/support/session.rs:521 | A new key takes the value of the first entry that carries it. |
| Session.Serialize | src/support/session.rs:55-70 | An empty id gives "". Otherwise the text is: the id, the rendered expiry, then "true" or "false", each followed by LV2; then, for the store's keys in some order, key + LV4 + value + LV3. |
| Session.EntriesTextSnoc | src/support/session.rs:64-67 | One more key appends exactly its entry. |
| Session.SessionOfFields | src/support/session.rs:80-106 | The id is the first field and is non-empty. A parsed expiry is kept, and is not before now. Without a parsable expiry the default is used. Auto-renewal is on exactly when the third field is "true". |
| Session.Deserialized | src/support/session.rs:72-107 | Empty input gives None. A result has a non-empty id without LV2. |
| Session.Deserialize | src/support/session.rs:72-107 | The loop over the LV2 fields, which stops after the fourth, gives what `Deserialized` states. |
| Session.ReadFields | src/support/session.rs:80-99 | The field loop gives the session that `SessionOfFields` states. |
| Session.SerializeRoundTrip | src/support/session.rs:55-107 | Reading back a serialized unexpired session gives its id, expiry and flag. Each store value comes back with the LV4 delimiter in front. |
| Session.FieldsSession | src/support/session.rs:80-106 | Four fields with a non-empty id and an unexpired expiry that reads back give exactly that session. Its store is parsed from the fourth field. |
| Session.SerializedFields | src/support/session.rs:55-70 | Split at LV2, the serialized text gives exactly its four fields. |
| Session.StoreReadBack | src/support/session.rs:514-525 | Parsing the serialized store gives every key, with the LV4 delimiter in front of its value. |
| Session.CleanTime | src/support/session.rs:183-190 | The cleanup time is the later of the given time and now. |
| Session.SleepPeriod | src/support/session.rs:206-211 | The sleep period is at least 60 seconds, and is the given period when that is longer. |
| Session.CleanedExactly | src/support/session.rs:495-510 | When sessions are stored under their ids, a session is removed exactly when its expiry is not after the cleanup time. |
| Session.Lookup | src/support/session.rs:134-153 | `from_id` returns the stored session exactly when its id is present and it has not expired. |
| Session.CleanupAndLookup | src/support/session.rs:134-153 | A cleanup up to a time before now never removes a session that `from_id` would return. A cleanup up to now does remove one that expires exactly now. |
| Session.SessionStore.constructor | src/support/session.rs:24 | A new registry is empty. |
| Session.SessionStore.NewSession | src/support/session.rs:394-421 | A given id is used as is. Otherwise the generated id is used, and a missing or empty one gives None with nothing stored. The new session renews automatically, has an empty store and replaces any session with its id. |
| Session.SessionStore.FromOrNew | src/support/session.rs:155-161 | A live session under the id is returned and nothing changes. Otherwise a session is created as `initialize_new` creates it. |
| Session.SessionStore.Release | src/support/session.rs:485-493 | Only the session under the id is removed. |
| Session.SessionStore.CleanUpTo | src/support/session.rs:495-512 | The loops remove exactly the sessions whose ids belong to a session expiring no later than the time. Every other session is left unchanged. |
| Session.SessionStore.CleanUpToAtLeastNow | src/support/session.rs:183-195 | Cleans up to the later of the given time and now. |
| Session.Session.FromData | src/support/session.rs:46-53 | The object holds exactly the given fields. |
| Session.Session.GetId | src/support/session.rs:255-257 | Returns the id. |
| Session.Session.GetValue | src/support/session.rs:259-265 | Returns the stored value for the key, or None when the key is absent. |
| Session.Session.SetValue | src/support/session.rs:269-271 | Stores the value and returns the previous one. Nothing else changes. |
| Session.Session.AutoLifetimeRenew | src/support/session.rs:273-275 | Sets only the auto-renewal flag. |
| Session.Session.SetExpiresAt | src/support/session.rs:279-285 | Sets the expiry and turns auto-renewal off. |
| Session.Session.Save | src/support/session.rs:287-289 | The expiry is refreshed only when auto-renewal is on. The registry then holds a copy of the session under its id, and nothing else in the registry changes. |

## Left out

- **Sockets and I/O.** These are `write_to_stream`, `stream_shutdown`, `send_err_resp`,
  `build_err_response`, `initialize_response`, `flush_buffer`, `write_to_buff`, the
  flush retry loop, `peer_addr` and the reads themselves. The model starts from the text
  read, or None for a failed read, and ends at the response to write or the decision to
  close.
- **Read buffers.** The fixed 1024- and 512-byte read buffers, their zero padding and
  lossy UTF-8 decoding are not modelled. The input is the text as read, of any content.
  This covers what the padding produces, because the parsers decode the whole buffer
  (src/core/conn.rs:165, src/core/connection.rs:100). As a result, in the program:
  - the current variant's empty-request outcome (400) is reached only by a buffer made
    entirely of CR and LF;
  - the older variant's `EmptyRequestErr` is never reached, because its decoded text is
    never empty;
  - an empty read gives a text of NUL characters rather than an empty text;
  - a short request ends with a line of NUL characters, which lands in the body.

  The model's contracts hold for every text, so they hold for these texts too. They do
  not state that the padding is present.
- **Threads, channels and timeouts.** Baseline lookup, remainder parsing and the cookie
  workers run to completion in sequence. Timeouts are not modelled, so a late worker
  never degrades the result.
- **The `http` and `config` modules.** They are not part of this model. The response is
  an abstract record: status, headers, redirect, keep-alive, header-only. The router's
  handling of a request in the older variant, and the callback invocation, are function
  parameters. `validate_and_update`, `check_and_update` and default headers are left out.
- **Regular expressions.** These are the `compiles` and `matches` parameters.
- **Unicode.** Case mapping and `char::is_alphanumeric` are restricted to ASCII. The
  alphanumeric test also accepts every code point of 128 and above, standing for the
  non-ASCII letters the route test uses. Whitespace for `trim` and `split_whitespace`
  is the full Unicode White_Space set that `char::is_whitespace` uses.
- **HTTP version.** The version token of the request line is kept in a separate
  `version` field of `Conn.Request`. The source writes it into the request's header map
  under `HTTP_VERSION` through `write_header` (src/core/conn.rs:305), and that map is
  not part of this model. The model therefore does not capture how a request header of
  that name interacts with the version.
- **Hash-map order.** The wildcard search, the legacy `seek_path`, the order of store
  entries in `serialize`, and which cookie worker answers first are nondeterministic
  choices.
- **Trie static-file locations.** `add_global_static`, `add_local_static` and the unused
  `.` check in `find` are left out; they are stubs.
- Trie.RecursiveFind: does not prove that a failed descent leaves the parameter stack
  clean. A tail parameter node without a callback can leave a stale binding, and the
  model keeps that behaviour without stating a property about it.
- **Session persistence.** `init_from_file`, `save_to_file` and
  `recreate_session_from_raw` are file I/O and are left out.
- **Session id generation.** `gen_session_id` uses a random generator and a wall-clock
  budget. Its result is the `generated` parameter of `NewSession`.
- **Session globals and time.** The global `RwLock` store is a `SessionStore` object, so
  lock failures are not modelled. `get_next_expiration` and `Utc::now` are integer
  parameters, and chrono's RFC 3339 text is the `TimeFormat` parameter.
  `set_default_session_lifetime`, `store_size`, `clean`, `auto_clean_has_stopped` and
  `auto_clean_is_running` set or read globals from other threads, and are left out. Of
  `auto_clean_start`, only the clamping of the sleep period is modelled.
- **The removal thread of `from_id`.** Removing an expired session on another thread is
  not part of `Lookup`; `Release` models that removal.
- Session.SerializeRoundTrip: is weaker than an exact round trip. `parse_session_store`
  keeps the LV4 delimiter at the front of each value, so what is read back differs from
  the stored value by that delimiter. The lemma states exactly that. It also assumes
  that keys and values are free of the delimiters and of leading whitespace, and that
  the time format reads back its own text.
- **Other source files.** `src/lib.rs`, `src/support/mod.rs` and
  `src/support/logger.rs` are accept loop, wiring and logging, and are not part of this
  model.
