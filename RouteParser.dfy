/** `RouteMap::params_parser` of `src/core/router.rs`: the character automaton that decides
    where a registered route is cut into segments, and the per-segment conversion into trie
    `Field`s. Every `panic!` of the parser is the `Malformed` result. */
module RouteParser {
  import opened Text
  import opened Handler
  import opened Trie

  // ---------------------------------------------------------------------------
  // The split automaton

  /** `split_status`: 0 normal, 1 just split, 2 in a parameter name, 4 in a parameter's
      regex, 8 right after a parameter's regex (the next character must be '/'). */
  datatype SplitStatus = Normal | JustSplit | InName | InRegex | RegexEnd

  /** What the splitting closure does with one character: cut here, keep going in a new
      status, or panic. */
  datatype Step = Cut | Keep(next: SplitStatus) | Abort

  /** The splitting closure, arm by arm. */
  function Advance(st: SplitStatus, c: char): Step
  {
    if c == ':' && st == JustSplit then Keep(InName)
    else if c == '(' && st == InName then Keep(InRegex)
    else if c == ')' && st == InRegex then Keep(RegexEnd)
    else if c == '/' && (st == Normal || st == InName || st == RegexEnd) then Cut
    else if c == '/' && st == JustSplit then Abort
    else if st == InName && !IsAlphanumeric(c) then Abort
    else if st == RegexEnd then Abort
    else if st == JustSplit then Keep(Normal)
    else Keep(st)
  }

  /** The automaton's status before character `i`, or `None` once it has panicked. */
  function StatusAt(s: string, i: nat): Option<SplitStatus>
    requires i <= |s|
  {
    if i == 0 then Some(Normal)
    else match StatusAt(s, i - 1)
      case None => None
      case Some(st) =>
        match Advance(st, s[i - 1])
        case Abort => None
        case Cut => Some(JustSplit)
        case Keep(next) => Some(next)
  }

  // ---------------------------------------------------------------------------
  // One segment into a field

  /** What the `filter_map` closure does with one piece: skip it, emit a field (with the
      parameter names seen so far), or panic. */
  datatype PieceResult = Skip | Emit(field: Field, names: set<string>) | PieceAbort

  /** The `filter_map` closure: empty pieces are skipped; a piece starting with ':' is a
      parameter whose name may end in "(regex)"; anything else is a literal segment. */
  function FieldOf(piece: string, names: set<string>, re: Engine): (r: PieceResult)
    ensures r.Emit? ==> r.field.name != "" && r.names == names + (if r.field.isParam then {r.field.name} else {})
    ensures r.Emit? && r.field.isParam ==> r.field.name !in names
    ensures r.Emit? && r.field.validation.Some? ==> r.field.isParam && re.compiles(r.field.validation.value)
    ensures r.Skip? <==> piece == ""
  {
    if piece == "" then Skip
    else if piece[0] != ':' then Emit(Field(piece, false, None), names)
    else
      var name := piece[1..];
      if name == "" then PieceAbort
      else
        var split := if |name| > 1 && name[|name| - 1] == ')' then SplitOnce(name[..|name| - 1], '(') else (name, None);
        if split.1.Some? && (split.0 == "" || split.1.value == "") then PieceAbort
        else
          var named := if split.1.Some? && re.compiles(split.1.value) then (split.0, Some(split.1.value)) else (name, None);
          if named.0 in names then PieceAbort
          else Emit(Field(named.0, true, named.1), names + {named.0})
  }

  // ---------------------------------------------------------------------------
  // The whole parser

  datatype ParseResult = Parsed(fields: seq<Field>) | Malformed

  /** The parser's state between characters: the automaton status, where the current piece
      started, the parameter names seen and the fields emitted. */
  datatype ParseState = ParseState(status: SplitStatus, start: nat, names: set<string>, fields: seq<Field>)

  /** Names of the parameter fields of `fs`. */
  function ParamNames(fs: seq<Field>): set<string>
  {
    set i | 0 <= i < |fs| && fs[i].isParam :: fs[i].name
  }

  /** Parameter names of a registered route are unique. */
  predicate DistinctParams(fs: seq<Field>)
  {
    forall i, j :: 0 <= i < j < |fs| && fs[i].isParam && fs[j].isParam ==> fs[i].name != fs[j].name
  }

  /** Every field has a name. */
  predicate Named(fs: seq<Field>)
  {
    forall i :: 0 <= i < |fs| ==> fs[i].name != ""
  }

  predicate Consistent(ps: ParseState)
  {
    ps.names == ParamNames(ps.fields) && DistinctParams(ps.fields) && Named(ps.fields)
  }

  lemma AppendField(fs: seq<Field>, f: Field)
    requires DistinctParams(fs)
    requires f.isParam ==> f.name !in ParamNames(fs)
    ensures ParamNames(fs + [f]) == ParamNames(fs) + (if f.isParam then {f.name} else {})
    ensures DistinctParams(fs + [f])
    ensures Named(fs) && f.name != "" ==> Named(fs + [f])
  {
    var g := fs + [f];
    assert forall k :: 0 <= k < |fs| ==> g[k] == fs[k];
    forall i, j | 0 <= i < j < |g| && g[i].isParam && g[j].isParam
      ensures g[i].name != g[j].name
    {
      if j == |fs| {
        assert g[i] == fs[i];
        assert fs[i].name in ParamNames(fs);
      }
    }
    forall x | x in ParamNames(g)
      ensures x in ParamNames(fs) + (if f.isParam then {f.name} else {})
    {
      var i :| 0 <= i < |g| && g[i].isParam && g[i].name == x;
      if i < |fs| { assert fs[i] == g[i]; }
    }
    forall x | x in ParamNames(fs) + (if f.isParam then {f.name} else {})
      ensures x in ParamNames(g)
    {
      if x in ParamNames(fs) {
        var i :| 0 <= i < |fs| && fs[i].isParam && fs[i].name == x;
        assert g[i] == fs[i];
      } else {
        assert g[|fs|] == f;
      }
    }
  }

  /** The parser from character `i` on: the splitting closure runs on every character, and
      each piece is converted as soon as it is cut (the iterator chain is lazy); the last
      piece is converted at the end of the text. */
  function ParseFrom(s: string, i: nat, ps: ParseState, re: Engine): ParseResult
    requires ps.start <= i <= |s|
    decreases |s| - i
  {
    if i == |s| then
      match FieldOf(s[ps.start..], ps.names, re)
      case Skip => Parsed(ps.fields)
      case PieceAbort => Malformed
      case Emit(f, _) => Parsed(ps.fields + [f])
    else
      match Advance(ps.status, s[i])
      case Abort => Malformed
      case Keep(st) => ParseFrom(s, i + 1, ps.(status := st), re)
      case Cut =>
        match FieldOf(s[ps.start..i], ps.names, re)
        case PieceAbort => Malformed
        case Skip => ParseFrom(s, i + 1, ParseState(JustSplit, i + 1, ps.names, ps.fields), re)
        case Emit(f, names) => ParseFrom(s, i + 1, ParseState(JustSplit, i + 1, names, ps.fields + [f]), re)
  }

  /** The emitted fields only grow, keep their names, and never repeat a parameter name. */
  lemma {:induction false} ParseFromConsistent(s: string, i: nat, ps: ParseState, re: Engine)
    requires ps.start <= i <= |s| && Consistent(ps)
    ensures ParseFrom(s, i, ps, re).Parsed? ==>
      DistinctParams(ParseFrom(s, i, ps, re).fields) && Named(ParseFrom(s, i, ps, re).fields)
      && ps.fields <= ParseFrom(s, i, ps, re).fields
    decreases |s| - i
  {
    var piece := if i == |s| then FieldOf(s[ps.start..], ps.names, re) else FieldOf(s[ps.start..i], ps.names, re);
    if piece.Emit? {
      AppendField(ps.fields, piece.field);
    }
    if i < |s| {
      match Advance(ps.status, s[i])
      case Abort =>
      case Keep(st) => ParseFromConsistent(s, i + 1, ps.(status := st), re);
      case Cut =>
        if piece.Skip? {
          ParseFromConsistent(s, i + 1, ParseState(JustSplit, i + 1, ps.names, ps.fields), re);
        } else if piece.Emit? {
          var next := ParseState(JustSplit, i + 1, piece.names, ps.fields + [piece.field]);
          ParseFromConsistent(s, i + 1, next, re);
          assert ps.fields <= next.fields;
        }
    }
  }

  function Start(): ParseState { ParseState(Normal, 0, {}, []) }

  /** `params_parser(source_uri)`. A parsed route has non-empty field names and unique
      parameter names. */
  function ParseRoute(s: string, re: Engine): (r: ParseResult)
    ensures r.Parsed? ==> DistinctParams(r.fields) && Named(r.fields)
  {
    ParseFromConsistent(s, 0, Start(), re);
    ParseFrom(s, 0, Start(), re)
  }

  /** The parser as the source runs it: one pass over the characters with mutable status,
      piece start, name set and field vector. */
  method ParamsParser(s: string, re: Engine) returns (r: ParseResult)
    ensures r == ParseRoute(s, re)
  {
    var status := Normal;
    var start := 0;
    var names: set<string> := {};
    var fields: seq<Field> := [];
    var i := 0;
    while i < |s|
      invariant start <= i <= |s|
      invariant ParseFrom(s, i, ParseState(status, start, names, fields), re) == ParseRoute(s, re)
    {
      var step := Advance(status, s[i]);
      if step.Abort? {
        return Malformed;
      } else if step.Keep? {
        status := step.next;
      } else {
        var piece := FieldOf(s[start..i], names, re);
        if piece.PieceAbort? {
          return Malformed;
        } else if piece.Emit? {
          fields := fields + [piece.field];
          names := piece.names;
        }
        status := JustSplit;
        start := i + 1;
      }
      i := i + 1;
    }
    var last := FieldOf(s[start..], names, re);
    if last.PieceAbort? {
      r := Malformed;
    } else if last.Emit? {
      r := Parsed(fields + [last.field]);
    } else {
      r := Parsed(fields);
    }
  }

  // ---------------------------------------------------------------------------
  // What the automaton rejects

  /** Once the automaton has panicked it stays panicked. */
  lemma AbortSticks(s: string, i: nat, j: nat)
    requires i <= j <= |s|
    requires StatusAt(s, i).None?
    ensures StatusAt(s, j).None?
    decreases j - i
  {
    if i < j {
      AbortSticks(s, i, j - 1);
    }
  }

  /** The parse follows the automaton: from a state whose status is the automaton's status
      at `i`, a panic of the automaton at or after `i` makes the parse fail, whatever the
      pieces are. */
  lemma {:induction false} AbortFrom(s: string, i: nat, ps: ParseState, re: Engine)
    requires ps.start <= i <= |s|
    requires StatusAt(s, i) == Some(ps.status)
    requires StatusAt(s, |s|).None?
    ensures ParseFrom(s, i, ps, re) == Malformed
    decreases |s| - i
  {
    if i == |s| {
      assert false;
    } else {
      match Advance(ps.status, s[i])
      case Abort =>
      case Keep(st) =>
        AbortFrom(s, i + 1, ps.(status := st), re);
      case Cut =>
        match FieldOf(s[ps.start..i], ps.names, re)
        case PieceAbort =>
        case Skip =>
          AbortFrom(s, i + 1, ParseState(JustSplit, i + 1, ps.names, ps.fields), re);
        case Emit(f, names) =>
          AbortFrom(s, i + 1, ParseState(JustSplit, i + 1, names, ps.fields + [f]), re);
    }
  }

  /** Any panic of the splitting closure makes the whole route malformed. */
  lemma AutomatonAbortIsFatal(s: string, k: nat, re: Engine)
    requires k <= |s|
    requires StatusAt(s, k).None?
    ensures ParseRoute(s, re) == Malformed
  {
    AbortSticks(s, k, |s|);
    AbortFrom(s, 0, Start(), re);
  }

  /** Two '/' in a row outside a parameter's regex: "empty segment between '/'s". */
  lemma EmptySegmentFatal(s: string, k: nat, re: Engine)
    requires k + 1 < |s| && s[k] == '/' && s[k + 1] == '/'
    requires StatusAt(s, k) != Some(InRegex)
    ensures ParseRoute(s, re) == Malformed
  {
    assert StatusAt(s, k + 2).None?;
    AutomatonAbortIsFatal(s, k + 2, re);
  }

  /** A character other than '(' or '/' that is not alphanumeric, inside a parameter name. */
  lemma BadNameCharFatal(s: string, k: nat, re: Engine)
    requires k < |s| && StatusAt(s, k) == Some(InName)
    requires s[k] != '(' && s[k] != '/' && !IsAlphanumeric(s[k])
    ensures ParseRoute(s, re) == Malformed
  {
    BadNameCharAborts(s, k);
    AutomatonAbortIsFatal(s, k + 1, re);
  }

  lemma BadNameCharAborts(s: string, k: nat)
    requires k < |s| && StatusAt(s, k) == Some(InName)
    requires s[k] != '(' && s[k] != '/' && !IsAlphanumeric(s[k])
    ensures StatusAt(s, k + 1) == None
  {
    assert Advance(InName, s[k]) == Abort;
    AbortAt(s, k, InName);
  }

  /** One panicking step of the automaton. */
  lemma AbortAt(s: string, k: nat, st: SplitStatus)
    requires k < |s| && StatusAt(s, k) == Some(st) && Advance(st, s[k]) == Abort
    ensures StatusAt(s, k + 1) == None
  {
  }

  /** Anything but '/' right after a parameter's ")" . */
  lemma TextAfterRegexFatal(s: string, k: nat, re: Engine)
    requires k < |s| && StatusAt(s, k) == Some(RegexEnd) && s[k] != '/'
    ensures ParseRoute(s, re) == Malformed
  {
    AbortAt(s, k, RegexEnd);
    AutomatonAbortIsFatal(s, k + 1, re);
  }

  /** Pieces the field conversion refuses: an empty parameter name, an empty name before
      a regex, an empty regex, and a parameter name used twice. */
  lemma PieceAborts(name: string, pattern: string, names: set<string>, re: Engine)
    requires '(' !in name && ')' !in name
    ensures FieldOf(":", names, re) == PieceAbort
    ensures FieldOf(":(" + pattern + ")", names, re) == PieceAbort
    ensures name != "" ==> FieldOf(":" + name + "()", names, re) == PieceAbort
    ensures name != "" && name in names ==> FieldOf(":" + name, names, re) == PieceAbort
  {
    NamelessAborts(pattern, names, re);
    if name != "" {
      PatternlessAborts(name, names, re);
      var p3 := ":" + name;
      assert p3[1..] == name;
      assert name[|name| - 1] != ')' by { assert name[|name| - 1] in name; }
    }
  }

  lemma NamelessAborts(pattern: string, names: set<string>, re: Engine)
    ensures FieldOf(":(" + pattern + ")", names, re) == PieceAbort
  {
    var p1 := ":(" + pattern + ")";
    assert p1[1..] == "(" + pattern + ")";
    assert p1[1..][..|p1| - 2] == "(" + pattern;
    assert Text.Find("(" + pattern, '(') == Some(0);
  }

  lemma PatternlessAborts(name: string, names: set<string>, re: Engine)
    requires name != "" && '(' !in name
    ensures FieldOf(":" + name + "()", names, re) == PieceAbort
  {
    var p2 := ":" + name + "()";
    assert p2[1..] == name + "()";
    assert p2[1..][..|p2| - 2] == name + ['('] + "";
    SplitAtFirst(name, "", '(');
  }

  // ---------------------------------------------------------------------------
  // What the parser accepts: a route built from well-formed segments

  /** The three shapes of a segment: a literal, `:name`, and `:name(regex)`. */
  datatype Segment = Literal(text: string) | Param(name: string) | Validated(name: string, pattern: string)

  function SegmentText(g: Segment): string
  {
    match g
    case Literal(t) => t
    case Param(n) => ":" + n
    case Validated(n, p) => ":" + n + "(" + p + ")"
  }

  /** "/seg1/seg2/...". */
  function Render(segs: seq<Segment>): string
  {
    if segs == [] then "" else "/" + SegmentText(segs[0]) + Render(segs[1..])
  }

  function Expect(g: Segment): Field
  {
    match g
    case Literal(t) => Field(t, false, None)
    case Param(n) => Field(n, true, None)
    case Validated(n, p) => Field(n, true, Some(p))
  }

  function Expected(segs: seq<Segment>): seq<Field>
  {
    if segs == [] then [] else [Expect(segs[0])] + Expected(segs[1..])
  }

  predicate NameOk(n: string)
  {
    |n| > 0 && forall i :: 0 <= i < |n| ==> IsAlphanumeric(n[i])
  }

  /** A literal is non-empty, holds no '/' and does not start with ':'; a parameter name is
      alphanumeric; a regex is non-empty, holds no ')' and compiles. */
  predicate SegmentOk(g: Segment, re: Engine)
  {
    match g
    case Literal(t) => |t| > 0 && t[0] != ':' && '/' !in t
    case Param(n) => NameOk(n)
    case Validated(n, p) => NameOk(n) && |p| > 0 && ')' !in p && re.compiles(p)
  }

  function SegmentNames(segs: seq<Segment>): set<string>
  {
    if segs == [] then {}
    else (if segs[0].Literal? then {} else {segs[0].name}) + SegmentNames(segs[1..])
  }

  /** Well-formed segments with pairwise distinct parameter names. */
  predicate RouteOk(segs: seq<Segment>, re: Engine)
  {
    segs == [] ||
    (SegmentOk(segs[0], re) && RouteOk(segs[1..], re) &&
     (segs[0].Literal? || segs[0].name !in SegmentNames(segs[1..])))
  }

  function EndStatus(g: Segment): SplitStatus
  {
    match g
    case Literal(_) => Normal
    case Param(_) => InName
    case Validated(_, _) => RegexEnd
  }

  /** `t` occurs in `s` at position `i`. */
  predicate At(s: string, i: nat, t: string)
  {
    i + |t| <= |s| && forall k :: 0 <= k < |t| ==> s[i + k] == t[k]
  }

  lemma AtSuffix(s: string, i: nat, t: string)
    requires i <= |s| && s[i..] == t
    ensures At(s, i, t)
  {
    forall k | 0 <= k < |t| ensures s[i + k] == t[k] {
      assert s[i..][k] == s[i + k];
    }
  }

  lemma AtSlice(s: string, i: nat, j: nat, t: string)
    requires i <= j <= |s| && s[i..j] == t
    ensures At(s, i, t)
  {
    forall k | 0 <= k < |t| ensures s[i + k] == t[k] {
      assert s[i..j][k] == s[i + k];
    }
  }

  lemma SliceOfAt(s: string, i: nat, t: string)
    requires At(s, i, t)
    ensures s[i..i + |t|] == t
  {
    forall k | 0 <= k < |t| ensures s[i..i + |t|][k] == t[k] {
      assert s[i..i + |t|][k] == s[i + k];
    }
  }

  lemma AtJoin(s: string, i: nat, a: string, b: string)
    requires At(s, i, a) && At(s, i + |a|, b)
    ensures At(s, i, a + b)
  {
    forall k | 0 <= k < |a + b| ensures s[i + k] == (a + b)[k] {
      if k >= |a| {
        assert s[i + k] == s[i + |a| + (k - |a|)];
      }
    }
  }

  lemma AtSplit(s: string, i: nat, a: string, b: string)
    requires At(s, i, a + b)
    ensures At(s, i, a) && At(s, i + |a|, b)
  {
    forall k | 0 <= k < |a| ensures s[i + k] == a[k] {
      assert (a + b)[k] == a[k];
    }
    forall k | 0 <= k < |b| ensures s[i + |a| + k] == b[k] {
      assert (a + b)[|a| + k] == b[k];
    }
  }

  lemma NormalKeeps(c: char)
    requires c != '/'
    ensures Advance(Normal, c) == Keep(Normal)
  {
  }

  lemma NameKeeps(c: char)
    requires IsAlphanumeric(c)
    ensures Advance(InName, c) == Keep(InName)
  {
  }

  lemma RegexKeeps(c: char)
    requires c != ')'
    ensures Advance(InRegex, c) == Keep(InRegex)
  {
  }

  /** One character that keeps the parser going, unfolded. */
  lemma KeepStep(s: string, i: nat, ps: ParseState, re: Engine)
    requires ps.start <= i < |s|
    requires Advance(ps.status, s[i]).Keep?
    ensures ParseFrom(s, i, ps, re) == ParseFrom(s, i + 1, ps.(status := Advance(ps.status, s[i]).next), re)
  {
  }

  /** A cut after a piece that becomes a field, unfolded. */
  lemma CutStep(s: string, i: nat, ps: ParseState, f: Field, names: set<string>, re: Engine)
    requires ps.start <= i < |s|
    requires Advance(ps.status, s[i]) == Cut
    requires FieldOf(s[ps.start..i], ps.names, re) == Emit(f, names)
    ensures ParseFrom(s, i, ps, re) == ParseFrom(s, i + 1, ParseState(JustSplit, i + 1, names, ps.fields + [f]), re)
  {
  }

  /** A run of characters that keep the automaton in status `st` changes nothing. */
  lemma {:induction false} ScanRun(s: string, i: nat, t: string, ps: ParseState, re: Engine)
    requires ps.start <= i && At(s, i, t)
    requires forall k :: 0 <= k < |t| ==> Advance(ps.status, t[k]) == Keep(ps.status)
    ensures ParseFrom(s, i, ps, re) == ParseFrom(s, i + |t|, ps, re)
    decreases |t|
  {
    if |t| > 0 {
      assert s[i] == t[0];
      KeepStep(s, i, ps, re);
      assert ps.(status := ps.status) == ps;
      AtSplit(s, i, t[..1], t[1..]);
      assert t[..1] + t[1..] == t;
      ScanRun(s, i + 1, t[1..], ps, re);
    }
  }

  lemma ScanLiteral(s: string, i: nat, x: string, names: set<string>, fields: seq<Field>, re: Engine)
    requires SegmentOk(Literal(x), re) && At(s, i, x)
    ensures ParseFrom(s, i, ParseState(JustSplit, i, names, fields), re)
         == ParseFrom(s, i + |x|, ParseState(Normal, i, names, fields), re)
  {
    assert s[i] == x[0];
    KeepStep(s, i, ParseState(JustSplit, i, names, fields), re);
    assert x == x[..1] + x[1..];
    AtSplit(s, i, x[..1], x[1..]);
    LiteralKeeps(x[1..]);
    ScanRun(s, i + 1, x[1..], ParseState(Normal, i, names, fields), re);
  }

  lemma LiteralKeeps(t: string)
    requires '/' !in t
    ensures forall k :: 0 <= k < |t| ==> Advance(Normal, t[k]) == Keep(Normal)
  {
    forall k | 0 <= k < |t| ensures Advance(Normal, t[k]) == Keep(Normal) {
      NormalKeeps(t[k]);
    }
  }

  lemma ScanName(s: string, i: nat, n: string, ps: ParseState, re: Engine)
    requires NameOk(n) && At(s, i, n) && ps.status == InName && ps.start <= i
    ensures ParseFrom(s, i, ps, re) == ParseFrom(s, i + |n|, ps, re)
  {
    forall k | 0 <= k < |n| ensures Advance(InName, n[k]) == Keep(InName) {
      NameKeeps(n[k]);
    }
    ScanRun(s, i, n, ps, re);
  }

  lemma ScanParam(s: string, i: nat, n: string, names: set<string>, fields: seq<Field>, re: Engine)
    requires NameOk(n) && At(s, i, ":" + n)
    ensures ParseFrom(s, i, ParseState(JustSplit, i, names, fields), re)
         == ParseFrom(s, i + 1 + |n|, ParseState(InName, i, names, fields), re)
  {
    AtSplit(s, i, ":", n);
    assert s[i + 0] == ":"[0];
    KeepStep(s, i, ParseState(JustSplit, i, names, fields), re);
    ScanName(s, i + 1, n, ParseState(InName, i, names, fields), re);
  }

  lemma ValidatedParts(s: string, i: nat, n: string, p: string)
    requires At(s, i, ":" + n + "(" + p + ")")
    ensures At(s, i, ":" + n) && At(s, i + 2 + |n|, p) && i + 3 + |n| + |p| <= |s|
    ensures s[i + 1 + |n|] == '(' && s[i + 2 + |n| + |p|] == ')'
  {
    AtSplit(s, i, ":" + n + "(" + p, ")");
    AtSplit(s, i, ":" + n + "(", p);
    AtSplit(s, i, ":" + n, "(");
    assert s[i + 1 + |n| + 0] == "("[0];
    assert s[i + 2 + |n| + |p| + 0] == ")"[0];
  }

  lemma ScanValidated(s: string, i: nat, n: string, p: string, names: set<string>, fields: seq<Field>, re: Engine)
    requires SegmentOk(Validated(n, p), re)
    requires At(s, i, ":" + n) && At(s, i + 2 + |n|, p) && i + 3 + |n| + |p| <= |s|
    requires s[i + 1 + |n|] == '(' && s[i + 2 + |n| + |p|] == ')'
    ensures ParseFrom(s, i, ParseState(JustSplit, i, names, fields), re)
         == ParseFrom(s, i + 3 + |n| + |p|, ParseState(RegexEnd, i, names, fields), re)
  {
    ScanParam(s, i, n, names, fields, re);
    ScanRegexGroup(s, i + 1 + |n|, i + 2 + |n|, i + 2 + |n| + |p|, i + 3 + |n| + |p|, p, i, names, fields, re);
  }

  /** "(regex)" after a parameter name: '(' at `a`, the regex from `b`, ')' at `c`. */
  lemma ScanRegexGroup(s: string, a: nat, b: nat, c: nat, e: nat, p: string,
                       start: nat, names: set<string>, fields: seq<Field>, re: Engine)
    requires start <= a && b == a + 1 && c == b + |p| && e == c + 1 && e <= |s|
    requires ')' !in p && At(s, b, p)
    requires s[a] == '(' && s[c] == ')'
    ensures ParseFrom(s, a, ParseState(InName, start, names, fields), re)
         == ParseFrom(s, e, ParseState(RegexEnd, start, names, fields), re)
  {
    var inRegex := ParseState(InRegex, start, names, fields);
    KeepTo(s, a, ParseState(InName, start, names, fields), InRegex, b, re);
    ScanRegex(s, b, p, inRegex, re);
    KeepTo(s, c, inRegex, RegexEnd, e, re);
  }

  /** One character that keeps the parser going, with the new status and position named. */
  lemma KeepTo(s: string, i: nat, ps: ParseState, st: SplitStatus, j: nat, re: Engine)
    requires ps.start <= i < |s| && j == i + 1
    requires Advance(ps.status, s[i]) == Keep(st)
    ensures ParseFrom(s, i, ps, re) == ParseFrom(s, j, ParseState(st, ps.start, ps.names, ps.fields), re)
  {
    assert ps.(status := st) == ParseState(st, ps.start, ps.names, ps.fields);
  }

  lemma ScanRegex(s: string, i: nat, p: string, ps: ParseState, re: Engine)
    requires ')' !in p && At(s, i, p) && ps.status == InRegex && ps.start <= i
    ensures ParseFrom(s, i, ps, re) == ParseFrom(s, i + |p|, ps, re)
  {
    forall k | 0 <= k < |p| ensures Advance(InRegex, p[k]) == Keep(InRegex) {
      assert p[k] in p;
      RegexKeeps(p[k]);
    }
    ScanRun(s, i, p, ps, re);
  }

  /** Reading one well-formed segment right after a cut only changes the status. */
  lemma ScanSegment(s: string, i: nat, g: Segment, names: set<string>, fields: seq<Field>, re: Engine)
    requires SegmentOk(g, re) && At(s, i, SegmentText(g))
    ensures ParseFrom(s, i, ParseState(JustSplit, i, names, fields), re)
         == ParseFrom(s, i + |SegmentText(g)|, ParseState(EndStatus(g), i, names, fields), re)
  {
    match g
    case Literal(x) => ScanLiteral(s, i, x, names, fields, re);
    case Param(n) => ScanParam(s, i, n, names, fields, re);
    case Validated(n, p) => ScanValidatedSegment(s, i, n, p, names, fields, re);
  }

  lemma ScanValidatedSegment(s: string, i: nat, n: string, p: string, names: set<string>, fields: seq<Field>, re: Engine)
    requires SegmentOk(Validated(n, p), re) && At(s, i, SegmentText(Validated(n, p)))
    ensures ParseFrom(s, i, ParseState(JustSplit, i, names, fields), re)
         == ParseFrom(s, i + |SegmentText(Validated(n, p))|, ParseState(RegexEnd, i, names, fields), re)
  {
    ValidatedParts(s, i, n, p);
    ScanValidated(s, i, n, p, names, fields, re);
  }

  /** `splitn(2, d)` stops at the first `d`. */
  lemma SplitAtFirst(n: string, p: string, d: char)
    requires d !in n
    ensures SplitOnce(n + [d] + p, d) == (n, Some(p))
  {
    var u := n + [d] + p;
    assert u[|n|] == d;
    var r := SplitOnce(u, d);
    var a := r.0;
    assert u == a + [d] + r.1.value;
    if |a| < |n| {
      assert false;
    } else if |a| > |n| {
      assert false;
    }
    assert a == u[..|a|] == n;
    assert r.1.value == u[|a| + 1..] == p;
  }

  lemma FieldOfParam(n: string, names: set<string>, re: Engine)
    requires NameOk(n) && n !in names
    ensures FieldOf(":" + n, names, re) == Emit(Field(n, true, None), names + {n})
  {
    assert (":" + n)[1..] == n;
    assert n[|n| - 1] != ')' by { assert IsAlphanumeric(n[|n| - 1]); }
  }

  lemma FieldOfValidated(n: string, p: string, names: set<string>, re: Engine)
    requires SegmentOk(Validated(n, p), re) && n !in names
    ensures FieldOf(":" + n + "(" + p + ")", names, re) == Emit(Field(n, true, Some(p)), names + {n})
  {
    var t := ":" + n + "(" + p + ")";
    ValidatedText(n, p);
    assert '(' !in n by {
      forall k | 0 <= k < |n| ensures n[k] != '(' { assert IsAlphanumeric(n[k]); }
    }
    SplitAtFirst(n, p, '(');
    FieldOfSplit(t, n, p, names, re);
  }

  /** The text of a validated segment is ':', then the name, '(', the pattern and ')'. */
  lemma ValidatedText(n: string, p: string)
    ensures var t := ":" + n + "(" + p + ")";
      t[0] == ':' && |t[1..]| > 1 && t[1..][|t[1..]| - 1] == ')' && t[1..][..|t[1..]| - 1] == n + ['('] + p
  {
    var t := ":" + n + "(" + p + ")";
    assert t[1..] == n + "(" + p + ")";
  }

  /** A ':' piece whose name part splits at '(' into a fresh name and a compiling pattern. */
  lemma FieldOfSplit(t: string, n: string, p: string, names: set<string>, re: Engine)
    requires t != "" && t[0] == ':' && |t[1..]| > 1 && t[1..][|t[1..]| - 1] == ')'
    requires SplitOnce(t[1..][..|t[1..]| - 1], '(') == (n, Some(p))
    requires n != "" && p != "" && re.compiles(p) && n !in names
    ensures FieldOf(t, names, re) == Emit(Field(n, true, Some(p)), names + {n})
  {
  }
  /** The field conversion of a well-formed segment's text is its expected field. */
  lemma FieldOfSegment(g: Segment, names: set<string>, re: Engine)
    requires SegmentOk(g, re)
    requires !g.Literal? ==> g.name !in names
    ensures FieldOf(SegmentText(g), names, re) == Emit(Expect(g), names + Bound(g))
  {
    match g
    case Literal(t) =>
    case Param(n) => FieldOfParam(n, names, re);
    case Validated(n, p) => FieldOfValidated(n, p, names, re);
  }

  /** After the last segment, with or without a trailing '/', the parse is done. */
  lemma FinishSegment(s: string, i: nat, g: Segment, trailing: bool, names: set<string>, fields: seq<Field>, re: Engine)
    requires SegmentOk(g, re) && (!g.Literal? ==> g.name !in names)
    requires i + |SegmentText(g)| + (if trailing then 1 else 0) == |s|
    requires At(s, i, SegmentText(g))
    requires trailing ==> s[|s| - 1] == '/'
    ensures ParseFrom(s, i, ParseState(JustSplit, i, names, fields), re) == Parsed(fields + [Expect(g)])
  {
    ScanSegment(s, i, g, names, fields, re);
    SliceOfAt(s, i, SegmentText(g));
    FinishPiece(s, i, g, trailing, names, fields, re);
  }

  /** The field of the last segment's piece ends the parse. */
  lemma FinishPiece(s: string, i: nat, g: Segment, trailing: bool, names: set<string>, fields: seq<Field>, re: Engine)
    requires SegmentOk(g, re) && (!g.Literal? ==> g.name !in names)
    requires i + |SegmentText(g)| + (if trailing then 1 else 0) == |s|
    requires s[i..i + |SegmentText(g)|] == SegmentText(g)
    requires trailing ==> s[|s| - 1] == '/'
    ensures ParseFrom(s, i + |SegmentText(g)|, ParseState(EndStatus(g), i, names, fields), re) == Parsed(fields + [Expect(g)])
  {
    var j := i + |SegmentText(g)|;
    PieceIsSegment(s, i, j, g, names, re);
    if trailing {
      FinishAfterCut(s, i, j, g, names, fields, re);
    } else {
      FinishAtEnd(s, i, g, names, fields, re);
    }
  }

  /** The segment's field is emitted at the final '/', and the empty piece after it is skipped. */
  lemma FinishAfterCut(s: string, i: nat, j: nat, g: Segment, names: set<string>, fields: seq<Field>, re: Engine)
    requires i <= j && j + 1 == |s| && s[j] == '/'
    requires FieldOf(s[i..j], names, re) == Emit(Expect(g), names + Bound(g))
    ensures ParseFrom(s, j, ParseState(EndStatus(g), i, names, fields), re) == Parsed(fields + [Expect(g)])
  {
    EndCut(g);
    CutStep(s, j, ParseState(EndStatus(g), i, names, fields), Expect(g), names + Bound(g), re);
    assert s[j + 1..] == "";
  }

  /** The segment's field is emitted at the end of the text. */
  lemma FinishAtEnd(s: string, i: nat, g: Segment, names: set<string>, fields: seq<Field>, re: Engine)
    requires i + |SegmentText(g)| == |s|
    requires FieldOf(s[i..i + |SegmentText(g)|], names, re) == Emit(Expect(g), names + Bound(g))
    ensures ParseFrom(s, |s|, ParseState(EndStatus(g), i, names, fields), re) == Parsed(fields + [Expect(g)])
  {
    assert s[i..] == s[i..i + |SegmentText(g)|];
  }

  function Bound(g: Segment): set<string>
  {
    if g.Literal? then {} else {g.name}
  }

  /** Text `t` followed by text `r` that starts with '/'. */
  lemma SlashAfter(s: string, i: nat, t: string, r: string, tail: string)
    requires i <= |s| && s[i..] == t + r + tail && |r| > 0 && r[0] == '/'
    ensures i + |t| < |s| && s[i + |t|] == '/'
    ensures s[i..i + |t|] == t && s[i + |t| + 1..] == r[1..] + tail
  {
    var u := t + r + tail;
    assert u[|t|] == '/';
    assert s[i + |t|] == s[i..][|t|];
    assert s[i..i + |t|] == s[i..][..|t|] == u[..|t|] == t;
    assert s[i + |t| + 1..] == s[i..][|t| + 1..] == u[|t| + 1..];
    assert u[|t| + 1..] == r[1..] + tail;
  }

  lemma EndCut(g: Segment)
    ensures Advance(EndStatus(g), '/') == Cut
  {
  }

  /** A well-formed segment followed by '/' emits its field and leaves the parser just
      after the cut. */
  lemma SegmentThenCut(s: string, i: nat, j: nat, g: Segment, names: set<string>, fields: seq<Field>, re: Engine)
    requires SegmentOk(g, re) && (!g.Literal? ==> g.name !in names)
    requires j == i + |SegmentText(g)| && j < |s| && s[j] == '/'
    requires At(s, i, SegmentText(g))
    ensures ParseFrom(s, i, ParseState(JustSplit, i, names, fields), re)
         == ParseFrom(s, j + 1, ParseState(JustSplit, j + 1, names + Bound(g), fields + [Expect(g)]), re)
  {
    var ps := ParseState(EndStatus(g), i, names, fields);
    SliceOfAt(s, i, SegmentText(g));
    ScanSegment(s, i, g, names, fields, re);
    PieceIsSegment(s, i, j, g, names, re);
    EndCut(g);
    CutStep(s, j, ps, Expect(g), names + Bound(g), re);
  }

  lemma PieceIsSegment(s: string, i: nat, j: nat, g: Segment, names: set<string>, re: Engine)
    requires SegmentOk(g, re) && (!g.Literal? ==> g.name !in names)
    requires i <= j <= |s| && s[i..j] == SegmentText(g)
    ensures FieldOf(s[i..j], names, re) == Emit(Expect(g), names + Bound(g))
  {
    FieldOfSegment(g, names, re);
  }

  lemma RenderCons(segs: seq<Segment>)
    requires segs != []
    ensures Render(segs) == "/" + (SegmentText(segs[0]) + Render(segs[1..]))
  { }

  lemma SlashHead(y: string)
    ensures |"/" + y| > 0 && ("/" + y)[0] == '/' && ("/" + y)[1..] == y
  { }

  /** From position `i` to its end, `s` spells the segments' texts joined by '/', then `tail`. */
  predicate Spells(s: string, i: nat, segs: seq<Segment>, tail: string)
    decreases |segs|
  {
    segs != [] && At(s, i, SegmentText(segs[0])) &&
    if |segs| == 1 then
      i + |SegmentText(segs[0])| + |tail| == |s| && At(s, i + |SegmentText(segs[0])|, tail)
    else
      i + |SegmentText(segs[0])| < |s| && s[i + |SegmentText(segs[0])|] == '/'
      && Spells(s, i + |SegmentText(segs[0])| + 1, segs[1..], tail)
  }

  /** A rendered text spells its segments. */
  lemma {:induction false} RenderSpells(s: string, i: nat, segs: seq<Segment>, tail: string)
    requires segs != []
    requires i + |SegmentText(segs[0]) + Render(segs[1..]) + tail| == |s|
    requires At(s, i, SegmentText(segs[0]) + Render(segs[1..]) + tail)
    ensures Spells(s, i, segs, tail)
    decreases |segs|
  {
    if |segs| == 1 {
      assert SegmentText(segs[0]) + Render(segs[1..]) == SegmentText(segs[0]);
      AtSplit(s, i, SegmentText(segs[0]), tail);
    } else {
      RenderedNext(s, i, segs, tail);
      RenderSpells(s, i + |SegmentText(segs[0])| + 1, segs[1..], tail);
    }
  }

  /** The text facts for the first of several segments of a rendered route. */
  lemma RenderedNext(s: string, i: nat, segs: seq<Segment>, tail: string)
    requires |segs| > 1
    requires i + |SegmentText(segs[0]) + Render(segs[1..]) + tail| == |s|
    requires At(s, i, SegmentText(segs[0]) + Render(segs[1..]) + tail)
    ensures At(s, i, SegmentText(segs[0]))
    ensures i + |SegmentText(segs[0])| < |s| && s[i + |SegmentText(segs[0])|] == '/'
    ensures i + |SegmentText(segs[0])| + 1 + |SegmentText(segs[1..][0]) + Render(segs[1..][1..]) + tail| == |s|
    ensures At(s, i + |SegmentText(segs[0])| + 1, SegmentText(segs[1..][0]) + Render(segs[1..][1..]) + tail)
  {
    var t := SegmentText(segs[0]);
    var x := SegmentText(segs[1..][0]) + Render(segs[1..][1..]);
    RenderCons(segs[1..]);
    assert t + Render(segs[1..]) + tail == t + ("/" + (x + tail));
    AtSplit(s, i, t, "/" + (x + tail));
    AtSplit(s, i + |t|, "/", x + tail);
    assert s[i + |t| + 0] == "/"[0];
  }

  /** The name facts for reading the first of several remaining segments. */
  lemma AdvanceNames(segs: seq<Segment>, names: set<string>, re: Engine)
    requires segs != [] && RouteOk(segs, re)
    requires SegmentNames(segs) !! names
    ensures SegmentOk(segs[0], re) && (!segs[0].Literal? ==> segs[0].name !in names)
    ensures RouteOk(segs[1..], re) && SegmentNames(segs[1..]) !! names + Bound(segs[0])
  {
    assert SegmentNames(segs) == Bound(segs[0]) + SegmentNames(segs[1..]);
  }

  /** What parsing from just after a cut needs: well-formed segments with fresh names, spelled
      out from `i` to the end of `s`, with or without a trailing '/'. */
  predicate CutReady(s: string, i: nat, segs: seq<Segment>, tail: string, names: set<string>, re: Engine)
  {
    RouteOk(segs, re) && SegmentNames(segs) !! names && (tail == "" || tail == "/") && Spells(s, i, segs, tail)
  }

  /** Parsing from just after a cut, over the remaining well-formed segments; `ready` stands for
      `CutReady`, passed as one fact. */
  lemma {:induction false} ParseAfterCut(s: string, i: nat, segs: seq<Segment>, tail: string,
                                         names: set<string>, fields: seq<Field>, re: Engine, ready: bool)
    requires ready == CutReady(s, i, segs, tail, names, re) && ready
    ensures ParseFrom(s, i, ParseState(JustSplit, i, names, fields), re) == Parsed(fields + Expected(segs))
    decreases |segs|
  {
    if |segs| == 1 {
      FinishLast(s, i, segs, tail, names, fields, re, ready);
    } else {
      var g := segs[0];
      var j := i + |SegmentText(g)|;
      NextReady(s, i, segs, tail, names, re, ready);
      ghost var next := CutReady(s, j + 1, segs[1..], tail, names + Bound(g), re);
      ParseAfterCut(s, j + 1, segs[1..], tail, names + Bound(g), fields + [Expect(g)], re, next);
      StepOver(s, i, segs, tail, names, fields, re, ready);
    }
  }

  /** Before several segments, the first is well-formed, spelled and cut by a '/', and the
      rest are ready to parse. */
  lemma NextReady(s: string, i: nat, segs: seq<Segment>, tail: string, names: set<string>, re: Engine, ready: bool)
    requires |segs| > 1 && ready == CutReady(s, i, segs, tail, names, re) && ready
    ensures SegmentOk(segs[0], re) && (!segs[0].Literal? ==> segs[0].name !in names)
    ensures At(s, i, SegmentText(segs[0]))
    ensures i + |SegmentText(segs[0])| < |s| && s[i + |SegmentText(segs[0])|] == '/'
    ensures CutReady(s, i + |SegmentText(segs[0])| + 1, segs[1..], tail, names + Bound(segs[0]), re)
  {
    AdvanceNames(segs, names, re);
  }

  /** When the rest parses after the first segment's cut, the whole parses. */
  lemma StepOver(s: string, i: nat, segs: seq<Segment>, tail: string, names: set<string>, fields: seq<Field>, re: Engine, ready: bool)
    requires |segs| > 1 && ready == CutReady(s, i, segs, tail, names, re) && ready
    requires ParseFrom(s, i + |SegmentText(segs[0])| + 1,
                       ParseState(JustSplit, i + |SegmentText(segs[0])| + 1, names + Bound(segs[0]), fields + [Expect(segs[0])]), re)
          == Parsed(fields + [Expect(segs[0])] + Expected(segs[1..]))
    ensures ParseFrom(s, i, ParseState(JustSplit, i, names, fields), re) == Parsed(fields + Expected(segs))
  {
    var j := i + |SegmentText(segs[0])|;
    NextReady(s, i, segs, tail, names, re, ready);
    SegmentThenCut(s, i, j, segs[0], names, fields, re);
    ParsedThrough(s, i, j + 1, segs, names, fields, re);
  }

  /** Parsing a segment and then the rest yields the segment's field before the rest's. */
  lemma ParsedThrough(s: string, i: nat, k: nat, segs: seq<Segment>, names: set<string>, fields: seq<Field>, re: Engine)
    requires segs != [] && i <= k <= |s|
    requires ParseFrom(s, i, ParseState(JustSplit, i, names, fields), re)
          == ParseFrom(s, k, ParseState(JustSplit, k, names + Bound(segs[0]), fields + [Expect(segs[0])]), re)
    requires ParseFrom(s, k, ParseState(JustSplit, k, names + Bound(segs[0]), fields + [Expect(segs[0])]), re)
          == Parsed(fields + [Expect(segs[0])] + Expected(segs[1..]))
    ensures ParseFrom(s, i, ParseState(JustSplit, i, names, fields), re) == Parsed(fields + Expected(segs))
  {
    assert fields + [Expect(segs[0])] + Expected(segs[1..]) == fields + ([Expect(segs[0])] + Expected(segs[1..]));
  }

  /** The last segment. */
  lemma FinishLast(s: string, i: nat, segs: seq<Segment>, tail: string, names: set<string>, fields: seq<Field>, re: Engine, ready: bool)
    requires |segs| == 1 && ready == CutReady(s, i, segs, tail, names, re) && ready
    ensures ParseFrom(s, i, ParseState(JustSplit, i, names, fields), re) == Parsed(fields + Expected(segs))
  {
    var g := segs[0];
    var j := i + |SegmentText(g)|;
    assert segs[1..] == [];
    assert Expected(segs) == [Expect(g)];
    assert SegmentNames(segs) == Bound(g);
    assert tail == "/" ==> s[j + 0] == tail[0];
    FinishSegment(s, i, g, tail == "/", names, fields, re);
  }

  /** A route written from well-formed segments, with or without a trailing '/', parses
      back to exactly the fields those segments stand for. */
  lemma ParseRendered(segs: seq<Segment>, trailing: bool, re: Engine)
    requires RouteOk(segs, re)
    requires trailing ==> segs != []
    ensures ParseRoute(Render(segs) + (if trailing then "/" else ""), re) == Parsed(Expected(segs))
  {
    var s := Render(segs) + (if trailing then "/" else "");
    if segs != [] {
      RenderedReady(segs, if trailing then "/" else "", re);
      LeadingSlash(s, re);
      ghost var ready := CutReady(s, 1, segs, if trailing then "/" else "", {}, re);
      ParseAfterCut(s, 1, segs, if trailing then "/" else "", {}, [], re, ready);
    }
  }

  /** After its leading '/', a rendered route is ready to parse. */
  lemma RenderedReady(segs: seq<Segment>, tail: string, re: Engine)
    requires segs != [] && RouteOk(segs, re) && (tail == "" || tail == "/")
    ensures |Render(segs) + tail| > 0 && (Render(segs) + tail)[0] == '/'
    ensures CutReady(Render(segs) + tail, 1, segs, tail, {}, re)
  {
    var s := Render(segs) + tail;
    RenderedStart(segs, tail);
    AtSuffix(s, 1, SegmentText(segs[0]) + Render(segs[1..]) + tail);
    RenderSpells(s, 1, segs, tail);
  }

  /** The leading '/' of a route is an empty first piece: it is cut and skipped. */
  lemma LeadingSlash(s: string, re: Engine)
    requires |s| > 0 && s[0] == '/'
    ensures ParseRoute(s, re) == ParseFrom(s, 1, ParseState(JustSplit, 1, {}, []), re)
  {
    assert s[0..0] == "";
  }

  /** A rendered route, followed by any tail, opens with '/' and the first segment's text. */
  lemma RenderedStart(segs: seq<Segment>, tail: string)
    requires segs != []
    ensures |Render(segs) + tail| > 0 && (Render(segs) + tail)[0] == '/'
    ensures (Render(segs) + tail)[1..] == SegmentText(segs[0]) + Render(segs[1..]) + tail
  {
    var x := SegmentText(segs[0]) + Render(segs[1..]);
    RenderCons(segs);
    SlashHead(x + tail);
    assert Render(segs) + tail == "/" + (x + tail);
  }

  /** The unit test of `router.rs`: "/root/api/:Tes中t(a=[/]bdc)/this./:check/" gives the
      fields root, api, Tes中t validated by "a=[/]bdc", "this." and check. */
  lemma ParserExample(re: Engine)
    requires re.compiles("a=[/]bdc")
    ensures ParseRoute("/root/api/:Tes中t(a=[/]bdc)/this./:check/", re)
         == Parsed([Field("root", false, None), Field("api", false, None),
                    Field("Tes中t", true, Some("a=[/]bdc")), Field("this.", false, None),
                    Field("check", true, None)])
  {
    var segs := ExampleSegments();
    ExampleOk(re);
    ExampleRender();
    ParseRendered(segs, true, re);
    assert Expected(segs) == [Field("root", false, None), Field("api", false, None),
                              Field("Tes中t", true, Some("a=[/]bdc")), Field("this.", false, None),
                              Field("check", true, None)];
  }

  function ExampleSegments(): seq<Segment>
  {
    [Literal("root"), Literal("api"), Validated("Tes中t", "a=[/]bdc"), Literal("this."), Param("check")]
  }

  lemma ExampleOk(re: Engine)
    requires re.compiles("a=[/]bdc")
    ensures RouteOk(ExampleSegments(), re)
  {
    var segs := ExampleSegments();
    assert NameOk("Tes中t") by { assert '中' as int >= 128; }
    assert NameOk("check");
    assert '/' !in "this.";
    assert ')' !in "a=[/]bdc";
    assert RouteOk(segs[4..], re);
    assert RouteOk(segs[3..], re);
    assert SegmentNames(segs[3..]) == {"check"};
    assert RouteOk(segs[2..], re);
    assert RouteOk(segs[1..], re);
  }

  lemma ExampleRender()
    ensures Render(ExampleSegments()) + "/" == "/root/api/:Tes中t(a=[/]bdc)/this./:check/"
  {
    var segs := ExampleSegments();
    assert segs[4] == Param("check") && segs[3] == Literal("this.") && segs[2] == Validated("Tes中t", "a=[/]bdc");
    assert segs[1] == Literal("api") && segs[0] == Literal("root") && segs[5..] == [] && segs[0..] == segs;
    TextCheck();
    TextValidated();
    RenderStep(segs, 4);
    JoinCheck();
    RenderStep(segs, 3);
    JoinThis();
    RenderStep(segs, 2);
    JoinValidated();
    RenderStep(segs, 1);
    JoinApi();
    RenderStep(segs, 0);
    JoinRoot();
  }

  lemma TextCheck()
    ensures SegmentText(Param("check")) == ":check"
  {
  }

  lemma TextValidated()
    ensures SegmentText(Validated("Tes中t", "a=[/]bdc")) == ":Tes中t(a=[/]bdc)"
  {
    assert ":" + "Tes中t" == ":Tes中t";
    assert ":Tes中t" + "(" == ":Tes中t(";
    assert ":Tes中t(" + "a=[/]bdc" == ":Tes中t(a=[/]bdc";
    assert ":Tes中t(a=[/]bdc" + ")" == ":Tes中t(a=[/]bdc)";
  }

  lemma RenderStep(segs: seq<Segment>, k: nat)
    requires k < |segs|
    ensures Render(segs[k..]) == "/" + SegmentText(segs[k]) + Render(segs[k + 1..])
  {
    assert segs[k..][1..] == segs[k + 1..];
  }

  lemma JoinCheck()
    ensures "/" + ":check" + "" == "/:check"
  {
  }

  lemma JoinThis()
    ensures "/" + "this." + "/:check" == "/this./:check"
  {
  }

  lemma JoinValidated()
    ensures "/" + ":Tes中t(a=[/]bdc)" + "/this./:check" == "/:Tes中t(a=[/]bdc)/this./:check"
  {
  }

  lemma JoinApi()
    ensures "/" + "api" + "/:Tes中t(a=[/]bdc)/this./:check" == "/api/:Tes中t(a=[/]bdc)/this./:check"
  {
    assert "/" + "api" == "/api";
  }

  lemma JoinRoot()
    ensures "/" + "root" + "/api/:Tes中t(a=[/]bdc)/this./:check" + "/" == "/root/api/:Tes中t(a=[/]bdc)/this./:check/"
  {
    JoinRootBody();
    JoinRootTail();
  }

  lemma JoinRootBody()
    ensures "/" + "root" + "/api/:Tes中t(a=[/]bdc)/this./:check" == "/root/api/:Tes中t(a=[/]bdc)/this./:check"
  {
    var x1, x2 := "/api/:Tes中t(a=[/]bdc)", "/this./:check";
    JoinHalves();
    JoinRootHalf();
    JoinRootRest();
    assert "/" + "root" == "/root";
    assert "/root" + (x1 + x2) == ("/root" + x1) + x2;
  }

  lemma JoinHalves()
    ensures "/api/:Tes中t(a=[/]bdc)" + "/this./:check" == "/api/:Tes中t(a=[/]bdc)/this./:check"
  { }

  lemma JoinRootHalf()
    ensures "/root" + "/api/:Tes中t(a=[/]bdc)" == "/root/api/:Tes中t(a=[/]bdc)"
  { }

  lemma JoinRootRest()
    ensures "/root/api/:Tes中t(a=[/]bdc)" + "/this./:check" == "/root/api/:Tes中t(a=[/]bdc)/this./:check"
  { }

  lemma JoinRootTail()
    ensures "/root/api/:Tes中t(a=[/]bdc)/this./:check" + "/" == "/root/api/:Tes中t(a=[/]bdc)/this./:check/"
  { }
}
