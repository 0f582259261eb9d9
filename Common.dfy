/** Shared helpers of `src/support/common.rs`: the `MapUpdates::add` policy used by every
    string-keyed map of the server (headers, cookies, explicit routes, wildcard routes). */
module Common {
  import opened Text

  /** `MapUpdates::add(field, value, allow_replace)` on a `HashMap<String, T>`. The map is
      passed and returned by value; the second component is what `add` returns. */
  function Add<T>(m: map<string, T>, field: string, value: T, allowReplace: bool): (r: (map<string, T>, Option<T>))
    // an empty field is refused: nothing changes and nothing is returned
    ensures field == "" ==> r == (m, None)
    // the only key that can change is the lowercased field
    ensures r.0.Keys == m.Keys + (if field == "" then {} else {Lower(field)})
    ensures forall k :: k in m && k != Lower(field) ==> r.0[k] == m[k]
    // replace: store the new value, hand back the one it displaced
    ensures field != "" && allowReplace ==>
      r.0[Lower(field)] == value && r.1 == (if Lower(field) in m then Some(m[Lower(field)]) else None)
    // first wins: an existing value is kept, and the result is always None
    ensures field != "" && !allowReplace ==>
      r.0[Lower(field)] == (if Lower(field) in m then m[Lower(field)] else value) && r.1 == None
  {
    if field == "" then (m, None)
    else
      var f := Lower(field);
      if allowReplace then (m[f := value], if f in m then Some(m[f]) else None)
      else if f in m then (m, None)
      else (m[f := value], None)
  }
}
