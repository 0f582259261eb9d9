/** The `key=value` splitting shared by the query-string and cookie parsers of
    `src/core/conn.rs` and `src/core/connection.rs`, with reference definitions of
    "the first value given for a key" and "all values given for a key, in order". */
module KeyValue {
  import opened Text
  import opened Common

  type Pairs = seq<(string, string)>

  /** One piece: trimmed, split at its first '=', both sides trimmed; without '=' the
      value is empty. */
  function Pair(piece: string): (r: (string, string))
    ensures '=' !in r.0
    ensures '=' !in Trim(piece) ==> r == (Trim(piece), "")
    ensures '=' in Trim(piece) ==> Trim(piece) == SplitOnce(Trim(piece), '=').0 + "=" + SplitOnce(Trim(piece), '=').1.value
  {
    var halves := SplitOnce(Trim(piece), '=');
    if halves.1.None? then
      TrimNoop(Trim(piece));
      (Trim(halves.0), "")
    else
      TrimKeepsOut(halves.0, '=');
      (Trim(halves.0), Trim(halves.1.value))
  }

  /** The pairs of `text` split at `d` after trimming it. */
  function PairsOf(text: string, d: char): (r: Pairs)
    ensures |r| == |Split(Trim(text), d)|
    ensures forall i :: 0 <= i < |r| ==> r[i] == Pair(Split(Trim(text), d)[i])
  {
    var pieces := Split(Trim(text), d);
    seq(|pieces|, i requires 0 <= i < |pieces| => Pair(pieces[i]))
  }

  /** The value of the first pair with key `k`. */
  function FirstValue(ps: Pairs, k: string): (r: Option<string>)
  {
    if |ps| == 0 then None
    else if ps[0].0 == k then Some(ps[0].1)
    else FirstValue(ps[1..], k)
  }

  /** `FirstValue` finds exactly the earliest pair with the key. */
  lemma {:induction false} FirstValueIsEarliest(ps: Pairs, k: string)
    ensures FirstValue(ps, k).None? <==> forall i :: 0 <= i < |ps| ==> ps[i].0 != k
    ensures FirstValue(ps, k).Some? ==>
      exists i :: 0 <= i < |ps| && ps[i] == (k, FirstValue(ps, k).value)
                  && forall j :: 0 <= j < i ==> ps[j].0 != k
  {
    if |ps| > 0 && ps[0].0 != k {
      FirstValueIsEarliest(ps[1..], k);
      if FirstValue(ps, k).Some? {
        var i :| 0 <= i < |ps[1..]| && ps[1..][i] == (k, FirstValue(ps, k).value)
                 && forall j :: 0 <= j < i ==> ps[1..][j].0 != k;
        assert ps[i + 1] == (k, FirstValue(ps, k).value);
        assert forall j :: 0 <= j < i + 1 ==> ps[j].0 != k by {
          forall j | 0 < j < i + 1 ensures ps[j].0 != k {
            assert ps[j] == ps[1..][j - 1];
          }
        }
      } else {
        forall i | 0 <= i < |ps| ensures ps[i].0 != k {
          if i > 0 { assert ps[i] == ps[1..][i - 1]; }
        }
      }
    }
  }

  /** Appending a pair changes the first value only when the key had none. */
  lemma {:induction false} FirstValueSnoc(ps: Pairs, p: (string, string), k: string)
    ensures FirstValue(ps + [p], k) ==
      (if FirstValue(ps, k).Some? then FirstValue(ps, k) else if p.0 == k then Some(p.1) else None)
  {
    if |ps| > 0 {
      assert (ps + [p])[1..] == ps[1..] + [p];
      FirstValueSnoc(ps[1..], p, k);
    } else {
      assert (ps + [p])[1..] == [];
    }
  }

  /** The values of all pairs with key `k`, in order. */
  function ValuesOf(ps: Pairs, k: string): (r: seq<string>)
    ensures |r| <= |ps|
  {
    if |ps| == 0 then []
    else (if ps[0].0 == k then [ps[0].1] else []) + ValuesOf(ps[1..], k)
  }

  lemma {:induction false} ValuesOfSnoc(ps: Pairs, p: (string, string), k: string)
    ensures ValuesOf(ps + [p], k) == ValuesOf(ps, k) + (if p.0 == k then [p.1] else [])
  {
    if |ps| > 0 {
      assert (ps + [p])[1..] == ps[1..] + [p];
      ValuesOfSnoc(ps[1..], p, k);
    } else {
      assert (ps + [p])[1..] == [];
    }
  }

  /** `ValuesOf` is empty exactly when no pair has the key. */
  lemma {:induction false} ValuesOfEmpty(ps: Pairs, k: string)
    ensures ValuesOf(ps, k) == [] <==> forall i :: 0 <= i < |ps| ==> ps[i].0 != k
  {
    if |ps| > 0 {
      ValuesOfEmpty(ps[1..], k);
      assert forall i :: 1 <= i < |ps| ==> ps[i] == ps[1..][i - 1];
    }
  }

  /** `r` holds, for each key, the list it had in `into` followed by the values `ps` gives it. */
  ghost predicate Appended(into: map<string, seq<string>>, r: map<string, seq<string>>, ps: Pairs)
  {
    && (forall k :: k in r <==> k in into || ValuesOf(ps, k) != [])
    && (forall k :: k in r ==> r[k] == (if k in into then into[k] else []) + ValuesOf(ps, k))
  }

  /** Appending one value to its key's list (a new list for a new key). */
  function Push(r: map<string, seq<string>>, p: (string, string)): map<string, seq<string>>
  {
    if p.0 in r then r[p.0 := r[p.0] + [p.1]] else r[p.0 := [p.1]]
  }

  lemma AppendedPush(into: map<string, seq<string>>, r: map<string, seq<string>>, ps: Pairs, p: (string, string))
    requires Appended(into, r, ps)
    ensures Appended(into, Push(r, p), ps + [p])
  {
    var r' := Push(r, p);
    forall k
      ensures k in r' <==> k in into || ValuesOf(ps + [p], k) != []
      ensures k in r' ==> r'[k] == (if k in into then into[k] else []) + ValuesOf(ps + [p], k)
    {
      ValuesOfSnoc(ps, p, k);
      if k == p.0 {
        if k in r {
          assert r'[k] == r[k] + [p.1];
        } else {
          assert ValuesOf(ps, k) == [] && k !in into;
          assert r'[k] == [p.1];
        }
      } else {
        assert (k in r' <==> k in r) && (k in r ==> r'[k] == r[k]);
      }
    }
  }

  /** The loop of `scheme_parser` over its pairs. */
  method AppendValues(into: map<string, seq<string>>, ps: Pairs) returns (r: map<string, seq<string>>)
    ensures Appended(into, r, ps)
  {
    r := into;
    var i := 0;
    while i < |ps|
      invariant 0 <= i <= |ps|
      invariant Appended(into, r, ps[..i])
    {
      var key := ps[i].0;
      var val := ps[i].1;
      AppendedPush(into, r, ps[..i], ps[i]);
      assert ps[..i + 1] == ps[..i] + [ps[i]];
      if key in r {
        r := r[key := r[key] + [val]];
      } else {
        r := r[key := [val]];
      }
      i := i + 1;
    }
    assert ps[..|ps|] == ps;
  }

  /** `scheme_parser`: for every pair of the '&'-separated text, the value is appended to
      the list of its key (a new list for a new key). Keys are kept as they are. */
  method SchemeParser(into: map<string, seq<string>>, text: string) returns (r: map<string, seq<string>>)
    ensures forall k :: k in r <==> k in into || ValuesOf(PairsOf(text, '&'), k) != []
    ensures forall k :: k in r ==> r[k] == (if k in into then into[k] else []) + ValuesOf(PairsOf(text, '&'), k)
  {
    r := AppendValues(into, PairsOf(text, '&'));
  }

  // ---------------------------------------------------------------------------
  // Maps filled through `MapUpdates::add`

  /** What `add` does to a pair's key: an empty key is dropped, any other is lowercased. */
  function LowerPair(p: (string, string)): (r: Pairs)
    ensures p.0 == "" <==> r == []
  {
    if p.0 == "" then [] else [(Lower(p.0), p.1)]
  }

  /** The pairs as `add` stores them, in order. */
  function Lowered(ps: Pairs): (r: Pairs)
    ensures |r| <= |ps|
  {
    if |ps| == 0 then [] else Lowered(ps[..|ps| - 1]) + LowerPair(ps[|ps| - 1])
  }

  lemma LoweredSnoc(ps: Pairs, p: (string, string))
    ensures Lowered(ps + [p]) == Lowered(ps) + LowerPair(p)
  {
    assert (ps + [p])[..|ps|] == ps;
  }

  /** The value of the last pair with key `k`. */
  function LastValue(ps: Pairs, k: string): (r: Option<string>)
  {
    if |ps| == 0 then None
    else if ps[|ps| - 1].0 == k then Some(ps[|ps| - 1].1)
    else LastValue(ps[..|ps| - 1], k)
  }

  /** `LastValue` finds exactly the latest pair with the key. */
  lemma {:induction false} LastValueIsLatest(ps: Pairs, k: string)
    ensures LastValue(ps, k).None? <==> forall i :: 0 <= i < |ps| ==> ps[i].0 != k
    ensures LastValue(ps, k).Some? ==>
      exists i :: 0 <= i < |ps| && ps[i] == (k, LastValue(ps, k).value)
                  && forall j :: i < j < |ps| ==> ps[j].0 != k
  {
    if |ps| > 0 && ps[|ps| - 1].0 != k {
      var init := ps[..|ps| - 1];
      LastValueIsLatest(init, k);
      if LastValue(ps, k).Some? {
        var i :| 0 <= i < |init| && init[i] == (k, LastValue(ps, k).value)
                 && forall j :: i < j < |init| ==> init[j].0 != k;
        assert ps[i] == init[i];
        assert forall j :: i < j < |ps| ==> ps[j].0 != k by {
          forall j | i < j < |ps| ensures ps[j].0 != k {
            if j < |init| { assert ps[j] == init[j]; }
          }
        }
      } else {
        forall i | 0 <= i < |ps| ensures ps[i].0 != k {
          if i < |init| { assert ps[i] == init[i]; }
        }
      }
    }
  }

  /** `r` is `base` after `add(key, value, true)` of every pair of `ps`: for each key, the
      last value given for it wins, and keys `ps` never mentions keep their entry. */
  ghost predicate Replaced(base: map<string, string>, r: map<string, string>, ps: Pairs)
  {
    && (forall k :: k in r <==> k in base || LastValue(Lowered(ps), k).Some?)
    && (forall k :: k in r ==> r[k] == (if LastValue(Lowered(ps), k).Some? then LastValue(Lowered(ps), k).value else base[k]))
  }

  /** `r` is `base` after `add(key, value, false)` of every pair of `ps`: an existing entry is
      never replaced, and a new key gets the first value given for it. */
  ghost predicate Merged(base: map<string, string>, r: map<string, string>, ps: Pairs)
  {
    && (forall k :: k in r <==> k in base || FirstValue(Lowered(ps), k).Some?)
    && (forall k :: k in r ==> r[k] == (if k in base then base[k] else FirstValue(Lowered(ps), k).value))
  }

  lemma LastValueSnoc(ps: Pairs, p: (string, string), k: string)
    ensures LastValue(ps + [p], k) == (if p.0 == k then Some(p.1) else LastValue(ps, k))
  {
    assert (ps + [p])[..|ps|] == ps;
  }

  /** One more replacing `add` extends `Replaced` by that pair. */
  lemma ReplacedAdd(base: map<string, string>, r: map<string, string>, ps: Pairs, p: (string, string))
    requires Replaced(base, r, ps)
    ensures Replaced(base, Add(r, p.0, p.1, true).0, ps + [p])
  {
    LoweredSnoc(ps, p);
    if p.0 != "" {
      forall k {
        LastValueSnoc(Lowered(ps), (Lower(p.0), p.1), k);
      }
    } else {
      assert Lowered(ps + [p]) == Lowered(ps);
    }
  }

  /** One more first-wins `add` extends `Merged` by that pair. */
  lemma MergedAdd(base: map<string, string>, r: map<string, string>, ps: Pairs, p: (string, string))
    requires Merged(base, r, ps)
    ensures Merged(base, Add(r, p.0, p.1, false).0, ps + [p])
  {
    LoweredSnoc(ps, p);
    if p.0 != "" {
      forall k {
        FirstValueSnoc(Lowered(ps), (Lower(p.0), p.1), k);
      }
    } else {
      assert Lowered(ps + [p]) == Lowered(ps);
    }
  }
}
