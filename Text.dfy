/** Text utilities over `string` (= `seq<char>`) mirroring the parts of Rust's `str`
    API the server uses: `trim`, `trim_matches`, `split`, `splitn(2, _)`, `rsplitn(2, _)`,
    `find`, `split_whitespace`, `lines`, and ASCII case mapping. */
module Text {

  datatype Option<T> = None | Some(value: T)

  // ---------------------------------------------------------------------------
  // Character classes

  /** Rust's `char::is_whitespace`: the characters with the Unicode White_Space property. */
  predicate IsSpace(c: char)
  {
    || ('\t' <= c <= '\r') || c == ' ' || c == '\U{0085}' || c == '\U{00A0}' || c == '\U{1680}'
    || ('\U{2000}' <= c <= '\U{200A}') || c == '\U{2028}' || c == '\U{2029}' || c == '\U{202F}'
    || c == '\U{205F}' || c == '\U{3000}'
  }

  predicate IsCrLf(c: char) { c == '\r' || c == '\n' }

  predicate IsSlash(c: char) { c == '/' }

  /** `char::is_alphanumeric`: ASCII letters and digits; every non-ASCII character is
      treated as alphanumeric (Unicode categories are not modelled). */
  predicate IsAlphanumeric(c: char)
  {
    ('a' <= c <= 'z') || ('A' <= c <= 'Z') || ('0' <= c <= '9') || c as int >= 128
  }

  // ---------------------------------------------------------------------------
  // ASCII case mapping (`to_lowercase` / `to_uppercase` on ASCII text)

  function LowerChar(c: char): char
  {
    if 'A' <= c <= 'Z' then (c as int + 32) as char else c
  }

  function UpperChar(c: char): char
  {
    if 'a' <= c <= 'z' then (c as int - 32) as char else c
  }

  function Lower(s: string): (r: string)
    ensures |r| == |s|
    ensures forall i :: 0 <= i < |s| ==> r[i] == LowerChar(s[i])
    ensures forall i :: 0 <= i < |r| ==> !('A' <= r[i] <= 'Z')
  {
    seq(|s|, i requires 0 <= i < |s| => LowerChar(s[i]))
  }

  function Upper(s: string): (r: string)
    ensures |r| == |s|
    ensures forall i :: 0 <= i < |s| ==> r[i] == UpperChar(s[i])
    ensures forall i :: 0 <= i < |r| ==> !('a' <= r[i] <= 'z')
  {
    seq(|s|, i requires 0 <= i < |s| => UpperChar(s[i]))
  }

  /** Lowercasing a lowercased key changes nothing, so re-adding a stored key is stable. */
  lemma LowerIdempotent(s: string)
    ensures Lower(Lower(s)) == Lower(s)
  {
  }

  /** Uppercasing an uppercased method token changes nothing. */
  lemma UpperIdempotent(s: string)
    ensures Upper(Upper(s)) == Upper(s)
  {
  }

  // ---------------------------------------------------------------------------
  // Searching

  /** `str::find(c)`: index of the first occurrence of `c`. */
  function Find(s: string, c: char): (r: Option<nat>)
    ensures r.None? <==> c !in s
    ensures r.Some? ==> r.value < |s| && s[r.value] == c && c !in s[..r.value]
  {
    if |s| == 0 then None
    else if s[0] == c then Some(0)
    else match Find(s[1..], c)
      case None => None
      case Some(i) => Some(i + 1)
  }

  /** `str::rfind(c)`: index of the last occurrence of `c`. */
  function RFind(s: string, c: char): (r: Option<nat>)
    ensures r.None? <==> c !in s
    ensures r.Some? ==> r.value < |s| && s[r.value] == c && c !in s[r.value + 1..]
  {
    if |s| == 0 then None
    else if s[|s| - 1] == c then Some(|s| - 1)
    else
      var r := RFind(s[..|s| - 1], c);
      assert s[..|s| - 1] + [s[|s| - 1]] == s;
      r
  }

  /** The first occurrence pinned down by its index. */
  lemma FindAt(s: string, c: char, i: nat)
    requires i < |s| && s[i] == c && forall k :: 0 <= k < i ==> s[k] != c
    ensures Find(s, c) == Some(i)
  {
    var j := Find(s, c).value;
    assert forall k :: 0 <= k < j ==> s[k] != c by {
      forall k | 0 <= k < j ensures s[k] != c {
        assert s[..j][k] == s[k];
      }
    }
  }

  /** The last occurrence pinned down by its index. */
  lemma RFindAt(s: string, c: char, i: nat)
    requires i < |s| && s[i] == c && forall k :: i < k < |s| ==> s[k] != c
    ensures RFind(s, c) == Some(i)
  {
    var j := RFind(s, c).value;
    assert forall k :: j < k < |s| ==> s[k] != c by {
      forall k | j < k < |s| ensures s[k] != c {
        assert s[j + 1..][k - j - 1] == s[k];
      }
    }
  }

  /** `str::contains(pat)` for a two-character pattern `[x, y]`. */
  predicate ContainsPair(s: string, x: char, y: char)
  {
    exists i :: 0 <= i < |s| - 1 && s[i] == x && s[i + 1] == y
  }

  /** `str::find(pat)` for a two-character pattern `[x, y]`: the first position. */
  function FindPair(s: string, x: char, y: char): (r: Option<nat>)
    ensures r.None? <==> !ContainsPair(s, x, y)
    ensures r.Some? ==> r.value + 1 < |s| && s[r.value] == x && s[r.value + 1] == y
    ensures r.Some? ==> !ContainsPair(s[..r.value + 1], x, y)
    decreases |s|
  {
    if |s| < 2 then None
    else if s[0] == x && s[1] == y then Some(0)
    else
      match FindPair(s[1..], x, y)
      case None =>
        assert forall i :: 1 <= i < |s| - 1 ==> s[i] == s[1..][i - 1] && s[i + 1] == s[1..][i];
        None
      case Some(i) =>
        PairShift(s, s[1..], x, y, i);
        Some(i + 1)
  }

  /** No pair in `s[..i + 2]` when there is none at 0 and none in the matching prefix of
      `s[1..]`. */
  lemma PairShift(s: string, rest: string, x: char, y: char, i: nat)
    requires |s| >= 2 && rest == s[1..] && !(s[0] == x && s[1] == y)
    requires i + 1 < |rest| && !ContainsPair(rest[..i + 1], x, y)
    ensures !ContainsPair(s[..i + 2], x, y)
  {
    var p := s[..i + 2];
    forall j | 0 <= j < |p| - 1 ensures !(p[j] == x && p[j + 1] == y) {
      if j > 0 {
        assert p[j] == rest[..i + 1][j - 1] && p[j + 1] == rest[..i + 1][j];
      }
    }
  }

  // ---------------------------------------------------------------------------
  // Trimming

  /** `str::trim_start_matches(drop)`. */
  function TrimStartWith(s: string, drop: char -> bool): (r: string)
    ensures |r| <= |s| && r == s[|s| - |r|..]
    ensures forall i :: 0 <= i < |s| - |r| ==> drop(s[i])
    ensures r == [] || !drop(r[0])
  {
    if |s| > 0 && drop(s[0]) then
      var r := TrimStartWith(s[1..], drop);
      StartStep(s, s[1..], drop, r);
      r
    else s
  }

  /** A suffix of `s[1..]` preceded only by dropped text is one of `s` when `s[0]` is dropped. */
  lemma StartStep(s: string, rest: string, drop: char -> bool, r: string)
    requires |s| > 0 && drop(s[0]) && rest == s[1..]
    requires |r| <= |rest| && r == rest[|rest| - |r|..]
    requires forall i :: 0 <= i < |rest| - |r| ==> drop(rest[i])
    ensures r == s[|s| - |r|..] && forall i :: 0 <= i < |s| - |r| ==> drop(s[i])
  {
    forall i | 0 <= i < |s| - |r| ensures drop(s[i]) {
      if i > 0 {
        assert s[i] == rest[i - 1];
      }
    }
  }

  /** `str::trim_end_matches(drop)`. */
  function TrimEndWith(s: string, drop: char -> bool): (r: string)
    ensures |r| <= |s| && r == s[..|r|]
    ensures forall i :: |r| <= i < |s| ==> drop(s[i])
    ensures r == [] || !drop(r[|r| - 1])
  {
    if |s| > 0 && drop(s[|s| - 1]) then
      var r := TrimEndWith(s[..|s| - 1], drop);
      EndStep(s, s[..|s| - 1], drop, r);
      r
    else s
  }

  /** A prefix of `s` without its last character, followed only by dropped text, is one of
      `s` when that last character is dropped. */
  lemma EndStep(s: string, front: string, drop: char -> bool, r: string)
    requires |s| > 0 && drop(s[|s| - 1]) && front == s[..|s| - 1]
    requires |r| <= |front| && r == front[..|r|]
    requires forall i :: |r| <= i < |front| ==> drop(front[i])
    ensures r == s[..|r|] && forall i :: |r| <= i < |s| ==> drop(s[i])
  {
    forall i | |r| <= i < |s| ensures drop(s[i]) {
      if i < |front| {
        assert s[i] == front[i];
      }
    }
  }

  /** `r` is `s` with a run of `drop` characters removed at each end. */
  ghost predicate TrimmedOf(s: string, r: string, drop: char -> bool)
  {
    exists a :: TrimmedAt(s, r, a, drop)
  }

  /** `r` is the slice of `s` starting at `a`, and everything around it is dropped. */
  ghost predicate TrimmedAt(s: string, r: string, a: int, drop: char -> bool)
  {
    && 0 <= a <= |s| - |r| && r == s[a..a + |r|]
    && (forall i :: 0 <= i < a ==> drop(s[i]))
    && (forall i :: a + |r| <= i < |s| ==> drop(s[i]))
  }

  /** `str::trim_matches(drop)`: both ends. */
  function TrimWith(s: string, drop: char -> bool): (r: string)
    ensures TrimmedOf(s, r, drop)
    ensures r == [] || (!drop(r[0]) && !drop(r[|r| - 1]))
  {
    var t := TrimStartWith(s, drop);
    var r := TrimEndWith(t, drop);
    TrimBothAt(s, drop, t, r);
    r
  }

  /** Trimming the start and then the end leaves a slice of `s` with dropped text around it. */
  lemma TrimBothAt(s: string, drop: char -> bool, t: string, r: string)
    requires |t| <= |s| && t == s[|s| - |t|..] && forall i :: 0 <= i < |s| - |t| ==> drop(s[i])
    requires |r| <= |t| && r == t[..|r|] && forall i :: |r| <= i < |t| ==> drop(t[i])
    ensures TrimmedAt(s, r, |s| - |t|, drop)
  {
    var a := |s| - |t|;
    forall i | a + |r| <= i < |s| ensures drop(s[i]) {
      assert s[i] == t[i - a];
    }
  }

  /** `str::trim`. */
  function Trim(s: string): (r: string)
    ensures TrimmedOf(s, r, IsSpace)
    ensures r == [] || (!IsSpace(r[0]) && !IsSpace(r[|r| - 1]))
  {
    TrimWith(s, IsSpace)
  }

  /** Text whose two ends are not whitespace is left alone by `trim`. */
  lemma TrimNoop(s: string)
    requires s == [] || (!IsSpace(s[0]) && !IsSpace(s[|s| - 1]))
    ensures Trim(s) == s
  {
    var t := TrimStartWith(s, IsSpace);
    assert t == s;
  }

  /** Trimming adds no character. */
  lemma TrimKeepsOut(s: string, c: char)
    requires c !in s
    ensures c !in Trim(s)
  {
    var t := Trim(s);
    var a :| TrimmedAt(s, t, a, IsSpace);
    forall i | 0 <= i < |t| ensures t[i] != c {
      assert t[i] == s[a + i];
    }
  }

  // ---------------------------------------------------------------------------
  // Splitting

  /** `str::split(d)` for a single character: never empty, pieces hold no `d`. */
  function Split(s: string, d: char): (r: seq<string>)
    ensures |r| >= 1
    ensures forall i :: 0 <= i < |r| ==> d !in r[i]
    ensures Join(r, d) == s
    decreases |s|
  {
    match Find(s, d)
    case None => [s]
    case Some(i) =>
      var rest := Split(s[i + 1..], d);
      assert Join([s[..i]] + rest, d) == s[..i] + [d] + Join(rest, d) by {
        assert ([s[..i]] + rest)[1..] == rest;
      }
      assert s == s[..i] + [d] + s[i + 1..];
      [s[..i]] + rest
  }

  /** The inverse of `Split`: pieces glued with the separator. */
  function Join(pieces: seq<string>, d: char): string
  {
    if |pieces| == 0 then ""
    else if |pieces| == 1 then pieces[0]
    else pieces[0] + [d] + Join(pieces[1..], d)
  }

  /** Splitting a join of separator-free pieces gives the pieces back. */
  lemma {:induction false} SplitJoin(pieces: seq<string>, d: char)
    requires |pieces| >= 1
    requires forall i :: 0 <= i < |pieces| ==> d !in pieces[i]
    ensures Split(Join(pieces, d), d) == pieces
  {
    if |pieces| > 1 {
      var s := Join(pieces, d);
      assert s == pieces[0] + [d] + Join(pieces[1..], d);
      assert s[|pieces[0]|] == d;
      assert s[..|pieces[0]|] == pieces[0];
      assert Find(s, d) == Some(|pieces[0]|);
      assert s[|pieces[0]| + 1..] == Join(pieces[1..], d);
      SplitJoin(pieces[1..], d);
      assert [pieces[0]] + pieces[1..] == pieces;
    }
  }

  /** `str::splitn(2, d)`: the text before the first `d`, and the rest after it if any. */
  function SplitOnce(s: string, d: char): (r: (string, Option<string>))
    ensures r.1.None? <==> d !in s
    ensures r.1.None? ==> r.0 == s
    ensures r.1.Some? ==> s == r.0 + [d] + r.1.value && d !in r.0
  {
    match Find(s, d)
    case None => (s, None)
    case Some(i) =>
      assert s == s[..i] + [d] + s[i + 1..];
      (s[..i], Some(s[i + 1..]))
  }

  /** `str::splitn(2, pat)` for a two-character pattern `[x, y]`. */
  function SplitOncePair(s: string, x: char, y: char): (r: (string, Option<string>))
    ensures r.1.None? <==> !ContainsPair(s, x, y)
    ensures r.1.None? ==> r.0 == s
    ensures r.1.Some? ==> s == r.0 + [x, y] + r.1.value && !ContainsPair(r.0 + [x], x, y)
  {
    match FindPair(s, x, y)
    case None => (s, None)
    case Some(i) =>
      assert s == s[..i] + [x, y] + s[i + 2..];
      assert s[..i + 1] == s[..i] + [x];
      (s[..i], Some(s[i + 2..]))
  }

  /** `str::rsplitn(2, d)`: the text after the last `d`, and the text before it if any. */
  function RSplitOnce(s: string, d: char): (r: (string, Option<string>))
    ensures r.1.None? <==> d !in s
    ensures r.1.None? ==> r.0 == s
    ensures r.1.Some? ==> s == r.1.value + [d] + r.0 && d !in r.0
  {
    match RFind(s, d)
    case None => (s, None)
    case Some(i) =>
      assert s == s[..i] + [d] + s[i + 1..];
      (s[i + 1..], Some(s[..i]))
  }

  /** The last piece of `rsplit_once` holds no character the text does not hold. */
  lemma RSplitOnceKeepsOut(s: string, d: char, c: char)
    requires c !in s
    ensures c !in RSplitOnce(s, d).0
  {
    var r := RSplitOnce(s, d);
    if r.1.Some? {
      forall i | 0 <= i < |r.0| ensures r.0[i] != c {
        assert r.0[i] == s[|r.1.value| + 1 + i];
      }
    }
  }

  /** `str::split_whitespace`: maximal runs of non-whitespace characters. */
  function SplitWhitespace(s: string): (r: seq<string>)
    ensures forall i :: 0 <= i < |r| ==> |r[i]| > 0
    decreases |s|
  {
    var t := TrimStartWith(s, IsSpace);
    if |t| == 0 then []
    else
      var n := TokenLength(t);
      var rest := SplitWhitespace(t[n..]);
      NonEmptyCons(t[..n], rest);
      [t[..n]] + rest
  }

  /** Prepending a non-empty word keeps every word non-empty. */
  lemma NonEmptyCons(w: string, rest: seq<string>)
    requires |w| > 0 && forall i :: 0 <= i < |rest| ==> |rest[i]| > 0
    ensures forall i :: 0 <= i < |[w] + rest| ==> |([w] + rest)[i]| > 0
  {
  }

  /** A word followed by whitespace, or by nothing, is the first word. */
  lemma WordThen(w: string, rest: string)
    requires |w| > 0 && forall i :: 0 <= i < |w| ==> !IsSpace(w[i])
    requires rest == [] || IsSpace(rest[0])
    ensures SplitWhitespace(w + rest) == [w] + SplitWhitespace(rest)
  {
    var s := w + rest;
    assert !IsSpace(s[0]);
    TokenOfWord(w, rest);
    assert s[..|w|] == w && s[|w|..] == rest;
  }

  /** The leading token of a word followed by whitespace, or by nothing, is that word. */
  lemma {:induction false} TokenOfWord(w: string, rest: string)
    requires forall i :: 0 <= i < |w| ==> !IsSpace(w[i])
    requires rest == [] || IsSpace(rest[0])
    ensures TokenLength(w + rest) == |w|
    decreases |w|
  {
    if |w| == 0 {
      assert w + rest == rest;
    } else {
      assert (w + rest)[0] == w[0] && (w + rest)[1..] == w[1..] + rest;
      TokenOfWord(w[1..], rest);
    }
  }

  /** Leading whitespace is skipped. */
  lemma SpaceThen(c: char, rest: string)
    requires IsSpace(c)
    ensures SplitWhitespace([c] + rest) == SplitWhitespace(rest)
  {
    assert ([c] + rest)[1..] == rest;
  }

  /** A word alone is the only word. */
  lemma LastWord(w: string)
    requires |w| > 0 && forall i :: 0 <= i < |w| ==> !IsSpace(w[i])
    ensures SplitWhitespace(w) == [w]
  {
    assert w + [] == w;
    WordThen(w, []);
  }

  /** Any whitespace character in front of a word is trimmed. */
  lemma SpaceTrimmed(c: char, w: string)
    requires IsSpace(c)
    requires |w| > 0 && !IsSpace(w[0]) && !IsSpace(w[|w| - 1])
    ensures Trim([c] + w) == w
  {
    assert ([c] + w)[1..] == w;
  }

  /** The ideographic space (U+3000) and the no-break space (U+00A0) are whitespace, as in
      Rust; ASCII letters are not. */
  lemma NonAsciiSpaces(c: char)
    requires 'A' <= c <= 'Z' || 'a' <= c <= 'z'
    ensures IsSpace('\U{3000}') && IsSpace('\U{00A0}') && IsSpace('\U{2028}') && !IsSpace(c)
  {
  }

  /** Length of the leading run of non-whitespace characters. */
  function TokenLength(s: string): (n: nat)
    ensures n <= |s|
    ensures forall i :: 0 <= i < n ==> !IsSpace(s[i])
    ensures n < |s| ==> IsSpace(s[n])
  {
    if |s| == 0 || IsSpace(s[0]) then 0 else 1 + TokenLength(s[1..])
  }

  /** `str::lines`: split at `\n`, a `\r` right before the `\n` is dropped, and a final
      line ending does not start an extra empty line. */
  function Lines(s: string): (r: seq<string>)
    ensures s == [] <==> r == []
    ensures forall i :: 0 <= i < |r| ==> '\n' !in r[i]
    decreases |s|
  {
    if s == [] then []
    else match Find(s, '\n')
      case None => [s]
      case Some(i) => [DropCr(s[..i])] + Lines(s[i + 1..])
  }

  function DropCr(line: string): (r: string)
    ensures r == line || (line == r + "\r")
  {
    if |line| > 0 && line[|line| - 1] == '\r' then line[..|line| - 1] else line
  }
}
