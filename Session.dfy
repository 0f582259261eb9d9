/** `src/support/session.rs`: a session (id, expiry, auto-renewal flag and a string store),
    its delimiter-based text form, the setters a handler calls, and the server-wide
    registry of sessions with its expiry cleanup. Time is an integer count of seconds;
    the RFC 3339 text of a time is produced and read by a `TimeFormat` the model receives
    as a parameter. */
module Session {
  import opened Text

  /** The four delimiter levels: between sessions in a file, between the fields of one
      session, between store entries, and between a key and its value. */
  const LV1: char := '\U{0005}'
  const LV2: char := '\U{0006}'
  const LV3: char := '\U{0007}'
  const LV4: char := '\U{0008}'

  /** chrono's `to_rfc3339` and `parse::<DateTime<Utc>>`. */
  datatype TimeFormat = TimeFormat(render: int -> string, parse: string -> Option<int>)

  /** A copy of a session's fields: what the registry holds and what `from_id`,
      `new_session` and `deserialize` hand out. */
  datatype SessionData = SessionData(id: string, expiresAt: int, autoRenewal: bool, store: map<string, string>)

  // ---------------------------------------------------------------------------
  // `parse_session_store`

  /** One store entry split at its first level-4 delimiter: the key before it (refused when
      empty) and the value from the delimiter on, the delimiter included. */
  function EntryOf(entry: string): (r: Option<(string, string)>)
    ensures r.None? <==> LV4 !in entry || entry[0] == LV4
    ensures r.Some? ==> entry == r.value.0 + r.value.1 && r.value.0 != "" && LV4 !in r.value.0
    ensures r.Some? ==> |r.value.1| > 0 && r.value.1[0] == LV4
  {
    match Find(entry, LV4)
    case None => None
    case Some(pos) =>
      assert entry == entry[..pos] + entry[pos..];
      if pos == 0 then None else Some((entry[..pos], entry[pos..]))
  }

  /** `store.entry(key).or_insert(value)` for one entry that has a key. */
  function AddEntry(m: map<string, string>, entry: string): map<string, string>
  {
    match EntryOf(entry)
    case None => m
    case Some(kv) => if kv.0 in m then m else m[kv.0 := kv.1]
  }

  /** The entries added in order, each first-wins. */
  function AddEntries(m: map<string, string>, entries: seq<string>): map<string, string>
    decreases |entries|
  {
    if entries == [] then m
    else AddEntry(AddEntries(m, entries[..|entries| - 1]), entries[|entries| - 1])
  }

  /** The store field's entries: the trimmed text split at every level-3 delimiter. */
  function StoreEntries(field: string): seq<string>
  {
    Split(Trim(field), LV3)
  }

  /** What `parse_session_store` leaves in `store`. */
  function ParsedStore(store: map<string, string>, field: string): map<string, string>
  {
    if field == "" then store else AddEntries(store, StoreEntries(field))
  }

  /** `parse_session_store`: an empty field adds nothing; otherwise each entry with a
      non-empty key is added unless its key is already present. */
  method ParseSessionStore(store: map<string, string>, field: string) returns (r: map<string, string>)
    ensures r == ParsedStore(store, field)
  {
    r := store;
    if field == "" {
      return;
    }
    r := InsertEntries(store, StoreEntries(field));
  }

  /** The loop of `parse_session_store` over the entries. */
  method InsertEntries(store: map<string, string>, entries: seq<string>) returns (r: map<string, string>)
    ensures r == AddEntries(store, entries)
  {
    r := store;
    var i := 0;
    while i < |entries|
      invariant 0 <= i <= |entries|
      invariant r == AddEntries(store, entries[..i])
    {
      ghost var before := r;
      r := InsertEntry(r, entries[i]);
      AddEntriesNext(store, entries, i, before, r);
      i := i + 1;
    }
    assert entries[..|entries|] == entries;
  }

  lemma AddEntriesNext(m: map<string, string>, entries: seq<string>, i: nat, before: map<string, string>, after: map<string, string>)
    requires i < |entries|
    requires before == AddEntries(m, entries[..i]) && after == AddEntry(before, entries[i])
    ensures after == AddEntries(m, entries[..i + 1])
  {
    assert entries[..i + 1][..i] == entries[..i];
  }

  lemma AddEntryFound(m: map<string, string>, entry: string, pos: nat, after: map<string, string>)
    requires Find(entry, LV4) == Some(pos)
    requires after == (if entry[..pos] != "" && entry[..pos] !in m then m[entry[..pos] := entry[pos..]] else m)
    ensures after == AddEntry(m, entry)
  {
  }

  lemma AddEntryMissing(m: map<string, string>, entry: string)
    requires Find(entry, LV4) == None
    ensures m == AddEntry(m, entry)
  {
  }

  /** One pass of the loop of `parse_session_store`: split the entry at its first level-4
      delimiter and insert a non-empty key unless it is already present. */
  method InsertEntry(store: map<string, string>, entry: string) returns (r: map<string, string>)
    ensures r == AddEntry(store, entry)
  {
    r := store;
    match Find(entry, LV4) {
      case Some(pos) =>
        var key, value := entry[..pos], entry[pos..];
        if key != "" && key !in r {
          r := r[key := value];
        }
        AddEntryFound(store, entry, pos, r);
      case None =>
        AddEntryMissing(store, entry);
    }
  }

  /** Entry `e` has key `k`. */
  predicate HasKey(e: string, k: string)
  {
    EntryOf(e).Some? && EntryOf(e).value.0 == k
  }

  /** Some entry has key `k`. */
  ghost predicate Carries(entries: seq<string>, k: string)
  {
    exists i :: 0 <= i < |entries| && HasKey(entries[i], k)
  }

  /** `entries[i]` is the first entry that carries key `k`. */
  ghost predicate FirstWithKey(entries: seq<string>, k: string, i: int)
  {
    && 0 <= i < |entries| && HasKey(entries[i], k)
    && forall j :: 0 <= j < i ==> !HasKey(entries[j], k)
  }

  /** One entry added first-wins, as facts about keys and values. */
  lemma AddEntryFacts(m: map<string, string>, e: string)
    ensures forall k :: k in AddEntry(m, e) <==> k in m || HasKey(e, k)
    ensures forall k :: k in m ==> AddEntry(m, e)[k] == m[k]
    ensures forall k :: HasKey(e, k) && k !in m ==> AddEntry(m, e)[k] == EntryOf(e).value.1
  {
  }

  /** Adding entries first-wins: the keys are the old ones and those the entries carry. */
  lemma AddEntriesKeys(m: map<string, string>, entries: seq<string>)
    ensures forall k :: k in AddEntries(m, entries) <==> k in m || Carries(entries, k)
  {
    forall k ensures k in AddEntries(m, entries) <==> k in m || Carries(entries, k) {
      AddEntriesKey(m, entries, k);
    }
  }

  /** `AddEntriesKeys` for one key, by induction on the entries. */
  lemma {:induction false} AddEntriesKey(m: map<string, string>, entries: seq<string>, k: string)
    ensures k in AddEntries(m, entries) <==> k in m || Carries(entries, k)
    decreases |entries|
  {
    if entries != [] {
      var n := |entries| - 1;
      AddEntriesKey(m, entries[..n], k);
      AddEntryFacts(AddEntries(m, entries[..n]), entries[n]);
      CarriesSnoc(entries[..n], entries[n], entries, k);
    }
  }

  /** An entry appended to a list carries its key in the longer list. */
  lemma CarriesSnoc(front: seq<string>, e: string, entries: seq<string>, k: string)
    requires entries == front + [e]
    ensures Carries(entries, k) <==> Carries(front, k) || HasKey(e, k)
  {
    if Carries(front, k) {
      var i :| 0 <= i < |front| && HasKey(front[i], k);
      assert entries[i] == front[i];
    }
    if HasKey(e, k) {
      assert entries[|front|] == e;
    }
    if Carries(entries, k) {
      var i :| 0 <= i < |entries| && HasKey(entries[i], k);
      if i < |front| {
        assert front[i] == entries[i];
      }
    }
  }

  /** Adding entries first-wins never changes the value of a key already there. */
  lemma {:induction false} AddEntriesOld(m: map<string, string>, entries: seq<string>, k: string)
    requires k in m
    ensures k in AddEntries(m, entries) && AddEntries(m, entries)[k] == m[k]
    decreases |entries|
  {
    if entries != [] {
      var n := |entries| - 1;
      AddEntriesOld(m, entries[..n], k);
      AddEntryFacts(AddEntries(m, entries[..n]), entries[n]);
    }
  }

  /** A key that was not there gets the value of the first entry that carries it. */
  lemma {:induction false} AddEntriesFirst(m: map<string, string>, entries: seq<string>, k: string, i: nat)
    requires k !in m && FirstWithKey(entries, k, i)
    ensures k in AddEntries(m, entries) && AddEntries(m, entries)[k] == EntryOf(entries[i]).value.1
    decreases |entries|
  {
    var n := |entries| - 1;
    var front := entries[..n];
    AddEntryFacts(AddEntries(m, front), entries[n]);
    if i < n {
      assert forall j :: 0 <= j <= i ==> front[j] == entries[j];
      AddEntriesFirst(m, front, k, i);
    } else {
      AddEntriesKey(m, front, k);
      forall j | 0 <= j < n ensures !HasKey(front[j], k) {
        assert front[j] == entries[j];
      }
    }
  }

  // ---------------------------------------------------------------------------
  // `serialize`

  function Flag(b: bool): string
  {
    if b then "true" else "false"
  }

  /** The three leading fields, each followed by a level-2 delimiter. */
  function Header(s: SessionData, fmt: TimeFormat): string
  {
    s.id + [LV2] + fmt.render(s.expiresAt) + [LV2] + Flag(s.autoRenewal) + [LV2]
  }

  /** One store entry: key, level-4 delimiter, value, level-3 delimiter. */
  function EntryText(k: string, v: string): string
  {
    k + [LV4] + v + [LV3]
  }

  /** The store entries in the order `order` visits their keys. */
  function EntriesText(store: map<string, string>, order: seq<string>): string
    requires forall i :: 0 <= i < |order| ==> order[i] in store
  {
    if order == [] then "" else EntryText(order[0], store[order[0]]) + EntriesText(store, order[1..])
  }

  /** `order` visits every key of `keys` exactly once. */
  ghost predicate Listing(order: seq<string>, keys: set<string>)
  {
    && (forall i, j :: 0 <= i < j < |order| ==> order[i] != order[j])
    && (forall k :: k in keys <==> k in order)
  }

  lemma {:induction false} EntriesTextSnoc(store: map<string, string>, order: seq<string>, k: string)
    requires forall i :: 0 <= i < |order| ==> order[i] in store
    requires k in store
    ensures EntriesText(store, order + [k]) == EntriesText(store, order) + EntryText(k, store[k])
    decreases |order|
  {
    if order == [] {
      assert EntriesText(store, [k][1..]) == "";
    } else {
      assert (order + [k])[1..] == order[1..] + [k];
      EntriesTextSnoc(store, order[1..], k);
    }
  }

  /** `serialize`: empty for a session without id; otherwise the header, then one entry
      per store key in hash-map order (`order`). */
  method Serialize(s: SessionData, fmt: TimeFormat) returns (r: string, ghost order: seq<string>)
    ensures s.id == "" ==> r == ""
    ensures s.id != "" ==> Listing(order, s.store.Keys) && r == Header(s, fmt) + EntriesText(s.store, order)
  {
    order := [];
    if s.id == "" {
      return "", order;
    }
    r := s.id + [LV2];
    r := r + fmt.render(s.expiresAt) + [LV2];
    r := r + Flag(s.autoRenewal) + [LV2];
    var left := s.store.Keys;
    while left != {}
      invariant left <= s.store.Keys
      invariant forall i :: 0 <= i < |order| ==> order[i] in s.store && order[i] !in left
      invariant forall k :: k in s.store ==> k in left || k in order
      invariant forall i, j :: 0 <= i < j < |order| ==> order[i] != order[j]
      invariant r == Header(s, fmt) + EntriesText(s.store, order)
      decreases |left|
    {
      var key :| key in left;
      EntriesTextSnoc(s.store, order, key);
      r := r + (key + [LV4] + s.store[key] + [LV3]);
      order := order + [key];
      left := left - {key};
    }
  }

  // ---------------------------------------------------------------------------
  // `deserialize`

  /** The session a list of level-2 fields stands for: the id (refused when empty), the
      expiry (refused when it parses to a time before `now`, the default when it does not
      parse), the flag (set only by exactly "true"), and the store; later fields are
      ignored. */
  function SessionOfFields(fields: seq<string>, defaultExpires: int, now: int, fmt: TimeFormat): (r: Option<SessionData>)
    requires |fields| >= 1
    ensures r.Some? ==> r.value.id == fields[0] != ""
    ensures r.Some? && |fields| > 1 && fmt.parse(fields[1]).Some? ==> r.value.expiresAt == fmt.parse(fields[1]).value >= now
    ensures r.Some? && (|fields| == 1 || fmt.parse(fields[1]).None?) ==> r.value.expiresAt == defaultExpires
    ensures r.Some? ==> (r.value.autoRenewal <==> |fields| > 2 && fields[2] == "true")
  {
    if fields[0] == "" then None
    else if |fields| > 1 && fmt.parse(fields[1]).Some? && fmt.parse(fields[1]).value < now then None
    else
      Some(SessionData(fields[0],
                       if |fields| > 1 && fmt.parse(fields[1]).Some? then fmt.parse(fields[1]).value else defaultExpires,
                       |fields| > 2 && fields[2] == "true",
                       if |fields| > 3 then ParsedStore(map[], fields[3]) else map[]))
  }

  /** What `deserialize` returns for `raw`. */
  function Deserialized(raw: string, defaultExpires: int, now: int, fmt: TimeFormat): (r: Option<SessionData>)
    ensures raw == "" ==> r.None?
    ensures r.Some? ==> r.value.id != "" && LV2 !in r.value.id
  {
    if raw == "" then None else SessionOfFields(Split(Trim(raw), LV2), defaultExpires, now, fmt)
  }

  /** `deserialize`: an empty text gives nothing; otherwise the trimmed text is split at
      every level-2 delimiter and the fields are read in order. */
  method Deserialize(raw: string, defaultExpires: int, now: int, fmt: TimeFormat) returns (r: Option<SessionData>)
    ensures r == Deserialized(raw, defaultExpires, now, fmt)
  {
    if raw == "" {
      return None;
    }
    r := ReadFields(Split(Trim(raw), LV2), defaultExpires, now, fmt);
  }

  /** The loop of `deserialize` over the enumerated fields: the id, the expiry time, the
      renewal flag and the store; later fields are ignored. */
  method ReadFields(fields: seq<string>, defaultExpires: int, now: int, fmt: TimeFormat) returns (r: Option<SessionData>)
    requires |fields| >= 1
    ensures r == SessionOfFields(fields, defaultExpires, now, fmt)
  {
    var id := "";
    var expiresAt := defaultExpires;
    var autoRenewal := false;
    var store: map<string, string> := map[];
    var index := 0;
    while index < |fields|
      invariant 0 <= index <= |fields| && index <= 4
      invariant index >= 1 ==> id == fields[0] != ""
      invariant index > 1 ==> !(fmt.parse(fields[1]).Some? && fmt.parse(fields[1]).value < now)
      invariant expiresAt == (if index > 1 && fmt.parse(fields[1]).Some? then fmt.parse(fields[1]).value else defaultExpires)
      invariant autoRenewal == (index > 2 && fields[2] == "true")
      invariant store == (if index > 3 then ParsedStore(map[], fields[3]) else map[])
    {
      if index == 0 {
        id := fields[0];
        if id == "" {
          return None;
        }
      } else if index == 1 {
        match fmt.parse(fields[1]) {
          case Some(t) =>
            expiresAt := t;
            if t < now {
              return None;
            }
          case None =>
        }
      } else if index == 2 {
        if fields[2] == "true" {
          autoRenewal := true;
        }
      } else if index == 3 {
        store := ParseSessionStore(store, fields[3]);
      } else {
        break;
      }
      index := index + 1;
    }
    r := Some(SessionData(id, expiresAt, autoRenewal, store));
  }

  // ---------------------------------------------------------------------------
  // The text form read back

  /** What the text form can carry unchanged: the fields hold no delimiter that would cut
      them, keys are non-empty, the id and the first key do not start with whitespace
      (the whole text and the store field are trimmed), and the time text reads back. */
  ghost predicate Carried(s: SessionData, order: seq<string>, fmt: TimeFormat)
  {
    && s.id != "" && !IsSpace(s.id[0]) && LV2 !in s.id
    && LV2 !in fmt.render(s.expiresAt) && fmt.parse(fmt.render(s.expiresAt)) == Some(s.expiresAt)
    && (forall k :: k in s.store ==> k != "" && LV2 !in k && LV3 !in k && LV4 !in k)
    && (forall k :: k in s.store ==> LV2 !in s.store[k] && LV3 !in s.store[k])
    && (order != [] ==> order[0] != "" && !IsSpace(order[0][0]))
  }

  /** Reading a serialized session back gives its id, expiry and flag, and the same store
      keys; each value comes back with the level-4 delimiter in front of it, because
      `parse_session_store` keeps the delimiter in the value. */
  lemma SerializeRoundTrip(s: SessionData, order: seq<string>, fmt: TimeFormat, defaultExpires: int, now: int)
    requires Listing(order, s.store.Keys) && Carried(s, order, fmt)
    requires s.expiresAt >= now
    ensures Deserialized(Header(s, fmt) + EntriesText(s.store, order), defaultExpires, now, fmt)
         == Some(SessionData(s.id, s.expiresAt, s.autoRenewal, map k | k in s.store :: [LV4] + s.store[k]))
  {
    var e := EntriesText(s.store, order);
    SerializedFields(s, order, fmt);
    StoreReadBack(s, order);
    FieldsSession(s.id, s.expiresAt, s.autoRenewal, e, defaultExpires, now, fmt);
  }

  /** The four fields of a serialized session give back its id, expiry and flag. */
  lemma FieldsSession(id: string, t: int, auto: bool, e: string, defaultExpires: int, now: int, fmt: TimeFormat)
    requires id != "" && fmt.parse(fmt.render(t)) == Some(t) && t >= now
    ensures SessionOfFields([id, fmt.render(t), Flag(auto), e], defaultExpires, now, fmt)
         == Some(SessionData(id, t, auto, ParsedStore(map[], e)))
  {
    var f := [id, fmt.render(t), Flag(auto), e];
    assert f[0] == id && f[1] == fmt.render(t) && f[2] == Flag(auto) && f[3] == e;
    if !auto {
      assert Flag(auto)[0] != "true"[0];
    }
  }

  /** The serialized text splits back into its four level-2 fields. */
  lemma SerializedFields(s: SessionData, order: seq<string>, fmt: TimeFormat)
    requires Listing(order, s.store.Keys) && Carried(s, order, fmt)
    ensures var e := EntriesText(s.store, order);
      Split(Trim(Header(s, fmt) + e), LV2) == [s.id, fmt.render(s.expiresAt), Flag(s.autoRenewal), e]
  {
    var e := EntriesText(s.store, order);
    var fields := [s.id, fmt.render(s.expiresAt), Flag(s.autoRenewal), e];
    HeaderJoin(s, fmt, e);
    SerializedFree(s, order, fmt);
    SerializedEnds(s, order, fmt);
    FieldsRead(fields, Header(s, fmt) + e);
  }

  /** No field of the serialized text holds a level-2 delimiter. */
  lemma SerializedFree(s: SessionData, order: seq<string>, fmt: TimeFormat)
    requires Listing(order, s.store.Keys) && Carried(s, order, fmt)
    ensures LV2 !in s.id && LV2 !in fmt.render(s.expiresAt) && LV2 !in Flag(s.autoRenewal)
    ensures LV2 !in EntriesText(s.store, order)
  {
    EntriesFree(s.store, order, LV2);
  }

  /** The serialized text starts with the id and ends with a delimiter, so trimming
      leaves it alone. */
  lemma SerializedEnds(s: SessionData, order: seq<string>, fmt: TimeFormat)
    requires Listing(order, s.store.Keys) && Carried(s, order, fmt)
    ensures var raw := Header(s, fmt) + EntriesText(s.store, order);
      raw != [] && !IsSpace(raw[0]) && !IsSpace(raw[|raw| - 1])
  {
    var e := EntriesText(s.store, order);
    HeaderJoin(s, fmt, e);
    if order != [] {
      EntriesEnds(s.store, order);
    }
  }

  /** Level-2 fields free of the delimiter, joined into text whose ends are not
      whitespace, are split back by `deserialize`. */
  lemma FieldsRead(fields: seq<string>, raw: string)
    requires |fields| == 4 && raw == Join(fields, LV2)
    requires LV2 !in fields[0] && LV2 !in fields[1] && LV2 !in fields[2] && LV2 !in fields[3]
    requires raw == [] || (!IsSpace(raw[0]) && !IsSpace(raw[|raw| - 1]))
    ensures Split(Trim(raw), LV2) == fields
  {
    TrimNoop(raw);
    SplitJoin(fields, LV2);
  }

  lemma HeaderJoin(s: SessionData, fmt: TimeFormat, e: string)
    ensures Header(s, fmt) + e == Join([s.id, fmt.render(s.expiresAt), Flag(s.autoRenewal), e], LV2)
    ensures |Header(s, fmt) + e| > 0 && (Header(s, fmt) + e)[0] == (if s.id == "" then LV2 else s.id[0])
    ensures e == "" ==> (Header(s, fmt) + e)[|Header(s, fmt) + e| - 1] == LV2
    ensures e != "" ==> (Header(s, fmt) + e)[|Header(s, fmt) + e| - 1] == e[|e| - 1]
  {
    var f := [s.id, fmt.render(s.expiresAt), Flag(s.autoRenewal), e];
    assert f[1..][1..][1..] == [e];
    assert f[1..][1..] == [Flag(s.autoRenewal), e];
    assert f[1..] == [fmt.render(s.expiresAt), Flag(s.autoRenewal), e];
    assert Join(f[1..][1..], LV2) == Flag(s.autoRenewal) + [LV2] + e;
    assert Join(f[1..], LV2) == fmt.render(s.expiresAt) + [LV2] + (Flag(s.autoRenewal) + [LV2] + e);
    assert Join(f, LV2) == s.id + [LV2] + (fmt.render(s.expiresAt) + [LV2] + (Flag(s.autoRenewal) + [LV2] + e));
  }

  /** A character that no key or value holds, other than the two entry delimiters, is not
      in the entries' text. */
  lemma {:induction false} EntriesFree(store: map<string, string>, order: seq<string>, c: char)
    requires forall i :: 0 <= i < |order| ==> order[i] in store
    requires c != LV3 && c != LV4
    requires forall k :: k in store ==> c !in k && c !in store[k]
    ensures c !in EntriesText(store, order)
    decreases |order|
  {
    if order != [] {
      EntriesFree(store, order[1..], c);
    }
  }

  /** The entries' text ends with a level-3 delimiter and starts with the first key. */
  lemma EntriesEnds(store: map<string, string>, order: seq<string>)
    requires forall i :: 0 <= i < |order| ==> order[i] in store && order[i] != ""
    requires order != []
    ensures var e := EntriesText(store, order); |e| > 0 && e[|e| - 1] == LV3 && e[0] == order[0][0]
  {
    var e := EntriesText(store, order);
    assert e == EntryText(order[0], store[order[0]]) + EntriesText(store, order[1..]);
    if order[1..] != [] {
      EntriesEnds(store, order[1..]);
    }
  }

  /** The entry pieces of a listing. */
  function Pieces(store: map<string, string>, order: seq<string>): (r: seq<string>)
    requires forall i :: 0 <= i < |order| ==> order[i] in store
    ensures |r| == |order|
    ensures forall i :: 0 <= i < |order| ==> r[i] == order[i] + [LV4] + store[order[i]]
  {
    seq(|order|, i requires 0 <= i < |order| => order[i] + [LV4] + store[order[i]])
  }

  lemma {:induction false} EntriesJoin(store: map<string, string>, order: seq<string>)
    requires forall i :: 0 <= i < |order| ==> order[i] in store
    ensures EntriesText(store, order) == Join(Pieces(store, order) + [""], LV3)
    decreases |order|
  {
    if order != [] {
      EntriesJoin(store, order[1..]);
      var ps := Pieces(store, order) + [""];
      assert ps[1..] == Pieces(store, order[1..]) + [""];
      assert Join(ps, LV3) == ps[0] + [LV3] + Join(ps[1..], LV3);
    }
  }

  /** The store field of a serialized session reads back as the store with every value
      prefixed by the level-4 delimiter. */
  lemma StoreReadBack(s: SessionData, order: seq<string>)
    requires Listing(order, s.store.Keys)
    requires forall k :: k in s.store ==> k != "" && LV3 !in k && LV4 !in k && LV3 !in s.store[k]
    requires order != [] ==> order[0] != "" && !IsSpace(order[0][0])
    ensures ParsedStore(map[], EntriesText(s.store, order)) == map k | k in s.store :: [LV4] + s.store[k]
  {
    if order == [] {
      assert s.store.Keys == {};
    } else {
      var entries := Pieces(s.store, order) + [""];
      EntriesSplit(s.store, order);
      PiecesRead(s.store, order);
      ListingRead(s.store, order, entries);
    }
  }

  /** The store field of a non-empty listing splits into its pieces and a final empty one. */
  lemma EntriesSplit(store: map<string, string>, order: seq<string>)
    requires order != [] && forall i :: 0 <= i < |order| ==> order[i] in store
    requires forall k :: k in store ==> k != "" && LV3 !in k && LV3 !in store[k]
    requires !IsSpace(order[0][0])
    ensures EntriesText(store, order) != "" && StoreEntries(EntriesText(store, order)) == Pieces(store, order) + [""]
  {
    var e := EntriesText(store, order);
    var ps := Pieces(store, order);
    var entries := ps + [""];
    EntriesEnds(store, order);
    TrimNoop(e);
    EntriesJoin(store, order);
    forall i | 0 <= i < |entries| ensures LV3 !in entries[i] {
      if i < |ps| {
        assert entries[i] == order[i] + [LV4] + store[order[i]];
      }
    }
    SplitJoin(entries, LV3);
  }

  /** Each piece of a listing reads as its key and the delimited value; the final empty
      piece reads as nothing. */
  lemma PiecesRead(store: map<string, string>, order: seq<string>)
    requires forall i :: 0 <= i < |order| ==> order[i] in store
    requires forall k :: k in store ==> k != "" && LV4 !in k
    ensures var entries := Pieces(store, order) + [""];
      && (forall i :: 0 <= i < |order| ==> EntryOf(entries[i]) == Some((order[i], [LV4] + store[order[i]])))
      && EntryOf(entries[|order|]) == None
  {
    var entries := Pieces(store, order) + [""];
    forall i | 0 <= i < |order| ensures EntryOf(entries[i]) == Some((order[i], [LV4] + store[order[i]])) {
      PieceEntry(order[i], store[order[i]]);
    }
  }

  /** The first-wins map of a listing's pieces is the store with delimited values. */
  lemma ListingRead(store: map<string, string>, order: seq<string>, entries: seq<string>)
    requires Listing(order, store.Keys)
    requires |entries| == |order| + 1
    requires forall i :: 0 <= i < |order| ==> EntryOf(entries[i]) == Some((order[i], [LV4] + store[order[i]]))
    requires EntryOf(entries[|order|]) == None
    ensures AddEntries(map[], entries) == map k | k in store :: [LV4] + store[k]
  {
    var got := AddEntries(map[], entries);
    var want := map k | k in store :: [LV4] + store[k];
    AddEntriesKeys(map[], entries);
    forall k ensures k in got <==> k in want {
      ListingKey(store, order, entries, k);
    }
    forall k | k in got ensures got[k] == want[k] {
      ListingKey(store, order, entries, k);
      ListingValue(store, order, entries, k);
    }
    SameMaps(got, want);
  }

  /** Maps with the same keys and the same values are equal. */
  lemma SameMaps(a: map<string, string>, b: map<string, string>)
    requires forall k :: k in a <==> k in b
    requires forall k :: k in a ==> a[k] == b[k]
    ensures a == b
  {
  }

  /** A listed key reads back with its delimited value. */
  lemma ListingValue(store: map<string, string>, order: seq<string>, entries: seq<string>, k: string)
    requires Listing(order, store.Keys) && k in store
    requires |entries| == |order| + 1
    requires forall i :: 0 <= i < |order| ==> EntryOf(entries[i]) == Some((order[i], [LV4] + store[order[i]]))
    ensures k in AddEntries(map[], entries) && AddEntries(map[], entries)[k] == [LV4] + store[k]
  {
    var i :| 0 <= i < |order| && order[i] == k;
    ListingFirst(store, order, entries, i);
    AddEntriesFirst(map[], entries, k, i);
  }

  /** A key is carried by some piece exactly when it is listed. */
  lemma ListingKey(store: map<string, string>, order: seq<string>, entries: seq<string>, k: string)
    requires Listing(order, store.Keys)
    requires |entries| == |order| + 1
    requires forall i :: 0 <= i < |order| ==> EntryOf(entries[i]) == Some((order[i], [LV4] + store[order[i]]))
    requires EntryOf(entries[|order|]) == None
    ensures Carries(entries, k) <==> k in store
  {
    if k in store {
      var i :| 0 <= i < |order| && order[i] == k;
      assert HasKey(entries[i], k);
    }
    if Carries(entries, k) {
      var i :| 0 <= i < |entries| && HasKey(entries[i], k);
      if i == |order| {
        assert false;
      } else {
        assert EntryOf(entries[i]) == Some((order[i], [LV4] + store[order[i]]));
      }
    }
  }

  /** In a listing of distinct keys, the piece of a key is the first to carry it. */
  lemma ListingFirst(store: map<string, string>, order: seq<string>, entries: seq<string>, i: nat)
    requires Listing(order, store.Keys)
    requires |entries| == |order| + 1 && i < |order|
    requires forall i :: 0 <= i < |order| ==> EntryOf(entries[i]) == Some((order[i], [LV4] + store[order[i]]))
    ensures FirstWithKey(entries, order[i], i) && EntryOf(entries[i]).value.1 == [LV4] + store[order[i]]
  {
    forall j | 0 <= j < i ensures !HasKey(entries[j], order[i]) {
      assert EntryOf(entries[j]) == Some((order[j], [LV4] + store[order[j]]));
    }
  }

  lemma PieceEntry(k: string, v: string)
    requires k != "" && LV4 !in k
    ensures EntryOf(k + [LV4] + v) == Some((k, [LV4] + v))
  {
    var p := k + [LV4] + v;
    assert p[|k|] == LV4;
    assert forall j :: 0 <= j < |k| ==> p[j] == k[j];
    FindAt(p, LV4, |k|);
    assert p[..|k|] == k;
    assert p[|k|..] == [LV4] + v;
  }

  // ---------------------------------------------------------------------------
  // Times used by the cleanup

  /** The trait-level `clean_up_to(lifetime)`: a time not after now is replaced by now. */
  function CleanTime(lifetime: int, now: int): (r: int)
    ensures r >= now && r >= lifetime
    ensures r == now || r == lifetime
  {
    if lifetime <= now then now else lifetime
  }

  /** `auto_clean_start`: the sleep period, in seconds, is at least a minute. */
  function SleepPeriod(period: nat): (r: nat)
    ensures r >= 60 && r >= period
    ensures r == 60 || r == period
  {
    if period < 60 then 60 else period
  }

  // ---------------------------------------------------------------------------
  // The registry of live sessions

  /** Ids of the sessions whose expiry is not after `t`. */
  ghost predicate IsStaleId(sessions: map<string, SessionData>, t: int, x: string)
  {
    exists k :: k in sessions && sessions[k].expiresAt <= t && sessions[k].id == x
  }

  /** Every session is stored under its own id. */
  ghost predicate KeyedById(sessions: map<string, SessionData>)
  {
    forall k :: k in sessions ==> sessions[k].id == k
  }

  /** With sessions stored under their ids, the cleanup keeps exactly those that expire
      after `t`, unchanged. */
  lemma CleanedExactly(sessions: map<string, SessionData>, t: int, k: string)
    requires KeyedById(sessions) && k in sessions
    ensures IsStaleId(sessions, t, k) <==> sessions[k].expiresAt <= t
  {
    if IsStaleId(sessions, t, k) {
      var k' :| k' in sessions && sessions[k'].expiresAt <= t && sessions[k'].id == k;
      assert k' == k;
    }
  }

  /** What `from_id` returns: a copy of a stored session that has not expired at `now`. */
  function Lookup(sessions: map<string, SessionData>, id: string, now: int): (r: Option<SessionData>)
    ensures r.Some? <==> id in sessions && sessions[id].expiresAt >= now
    ensures r.Some? ==> r.value == sessions[id]
  {
    if id in sessions && sessions[id].expiresAt >= now then Some(sessions[id]) else None
  }

  /** A cleanup up to a time before `now` never takes away a session `from_id` returns at
      `now`; a cleanup up to `now` itself does take one that expires exactly at `now`. */
  lemma CleanupAndLookup(sessions: map<string, SessionData>, cleaned: map<string, SessionData>, t: int, now: int, id: string)
    requires KeyedById(sessions)
    requires forall k :: k in cleaned <==> k in sessions && !IsStaleId(sessions, t, k)
    requires forall k :: k in cleaned ==> cleaned[k] == sessions[k]
    ensures t < now ==> Lookup(cleaned, id, now) == Lookup(sessions, id, now)
    ensures t == now && id in sessions && sessions[id].expiresAt == now ==>
      Lookup(sessions, id, now).Some? && Lookup(cleaned, id, now).None?
  {
    if id in sessions {
      CleanedExactly(sessions, t, id);
    }
  }

  /** The server-wide session store. */
  class SessionStore {
    var sessions: map<string, SessionData>

    constructor ()
      ensures sessions == map[]
    {
      sessions := map[];
    }

    /** `from_id`. The removal of an expired session it starts on another thread is not
        part of the call. */
    function FromId(id: string, now: int): Option<SessionData>
      reads this
    {
      Lookup(sessions, id, now)
    }

    /** `new_session`: a non-empty `id` is used as given; otherwise `generated` is what the
        id generator produced, and a missing or empty one gives None. The new session
        renews automatically, has an empty store and replaces any session with its id. */
    method NewSession(id: string, generated: Option<string>, nextExpiration: int) returns (r: Option<SessionData>)
      modifies this
      ensures var next := if id != "" then id else if generated.Some? then generated.value else "";
        && (next == "" ==> r.None? && sessions == old(sessions))
        && (next != "" ==> r == Some(SessionData(next, nextExpiration, true, map[]))
                           && sessions == old(sessions)[next := r.value])
      ensures KeyedById(old(sessions)) ==> KeyedById(sessions)
    {
      var nextId: string;
      if id == "" {
        nextId := if generated.Some? then generated.value else "";
        if nextId == "" {
          return None;
        }
      } else {
        nextId := id;
      }
      var session := SessionData(nextId, nextExpiration, true, map[]);
      sessions := sessions[session.id := session];
      r := Some(session);
    }

    /** `from_or_new`: the live session stored under `id`, or else a session with a
        generated id, as `initialize_new` makes it. */
    method FromOrNew(id: string, now: int, generated: Option<string>, nextExpiration: int) returns (r: Option<SessionData>)
      modifies this
      ensures Lookup(old(sessions), id, now).Some? ==> r == Lookup(old(sessions), id, now) && sessions == old(sessions)
      ensures Lookup(old(sessions), id, now).None? && generated.Some? && generated.value != "" ==>
        r == Some(SessionData(generated.value, nextExpiration, true, map[]))
        && sessions == old(sessions)[generated.value := r.value]
      ensures Lookup(old(sessions), id, now).None? && (generated.None? || generated.value == "") ==>
        r.None? && sessions == old(sessions)
      ensures KeyedById(old(sessions)) ==> KeyedById(sessions)
    {
      r := FromId(id, now);
      if r.None? {
        r := NewSession("", generated, nextExpiration);
      }
    }

    /** `release`: drop the session stored under `id`. */
    method Release(id: string)
      modifies this
      ensures sessions == old(sessions) - {id}
      ensures KeyedById(old(sessions)) ==> KeyedById(sessions)
    {
      sessions := sessions - {id};
    }

    /** `clean_up_to(time)`: collect the ids of the sessions whose expiry is not after
        `time`, then remove the sessions stored under those ids. */
    method CleanUpTo(time: int)
      modifies this
      ensures forall k :: k in sessions <==> k in old(sessions) && !IsStaleId(old(sessions), time, k)
      ensures forall k :: k in sessions ==> sessions[k] == old(sessions)[k]
      ensures KeyedById(old(sessions)) ==> KeyedById(sessions)
    {
      var stale: seq<string> := [];
      var left := sessions.Keys;
      while left != {}
        invariant left <= sessions.Keys
        invariant forall x :: x in stale ==> IsStaleId(sessions, time, x)
        invariant forall k :: k in sessions && k !in left && sessions[k].expiresAt <= time ==> sessions[k].id in stale
        decreases |left|
      {
        var key :| key in left;
        if sessions[key].expiresAt <= time {
          stale := stale + [sessions[key].id];
        }
        left := left - {key};
      }
      assert forall x :: IsStaleId(sessions, time, x) ==> x in stale;
      var i := 0;
      var kept := sessions;
      while i < |stale|
        invariant 0 <= i <= |stale|
        invariant forall k :: k in kept <==> k in sessions && k !in stale[..i]
        invariant forall k :: k in kept ==> kept[k] == sessions[k]
      {
        assert stale[..i + 1] == stale[..i] + [stale[i]];
        kept := kept - {stale[i]};
        i := i + 1;
      }
      assert stale[..|stale|] == stale;
      sessions := kept;
    }

    /** The trait-level `clean_up_to(lifetime)`, with the cleanup it starts on another
        thread run in place. */
    method CleanUpToAtLeastNow(lifetime: int, now: int)
      modifies this
      ensures forall k :: k in sessions <==> k in old(sessions) && !IsStaleId(old(sessions), CleanTime(lifetime, now), k)
      ensures forall k :: k in sessions ==> sessions[k] == old(sessions)[k]
    {
      var time := if lifetime <= now then now else lifetime;
      CleanUpTo(time);
    }
  }

  /** A session as a request handler holds it: its fields change in place. */
  class Session {
    var id: string
    var expiresAt: int
    var autoRenewal: bool
    var store: map<string, string>

    /** The copy `to_owned` makes. */
    function Data(): SessionData
      reads this
    {
      SessionData(id, expiresAt, autoRenewal, store)
    }

    /** A handle on a copy of `d`. */
    constructor FromData(d: SessionData)
      ensures Data() == d
    {
      id := d.id;
      expiresAt := d.expiresAt;
      autoRenewal := d.autoRenewal;
      store := d.store;
    }

    method GetId() returns (r: string)
      ensures r == id
    {
      r := id;
    }

    /** `get_value`: the stored value, or None for a missing key. */
    method GetValue(key: string) returns (r: Option<string>)
      ensures r.Some? <==> key in store
      ensures r.Some? ==> r.value == store[key]
    {
      if key in store {
        r := Some(store[key]);
      } else {
        r := None;
      }
    }

    /** `set_value`: store the value and return the one it replaced. */
    method SetValue(key: string, val: string) returns (prev: Option<string>)
      modifies this
      ensures store == old(store)[key := val]
      ensures prev == (if key in old(store) then Some(old(store)[key]) else None)
      ensures id == old(id) && expiresAt == old(expiresAt) && autoRenewal == old(autoRenewal)
    {
      prev := if key in store then Some(store[key]) else None;
      store := store[key := val];
    }

    /** `auto_lifetime_renew`. */
    method AutoLifetimeRenew(autoRenew: bool)
      modifies this
      ensures autoRenewal == autoRenew
      ensures id == old(id) && expiresAt == old(expiresAt) && store == old(store)
    {
      autoRenewal := autoRenew;
    }

    /** The `expires_at` setter: a fixed expiry turns automatic renewal off. */
    method SetExpiresAt(time: int)
      modifies this
      ensures expiresAt == time && !autoRenewal
      ensures id == old(id) && store == old(store)
    {
      if autoRenewal {
        autoRenewal := false;
      }
      expiresAt := time;
    }

    /** `save`: an auto-renewing session gets the next expiration time, then a copy is
        stored under the session's id, replacing any earlier one. */
    method Save(registry: SessionStore, nextExpiration: int)
      modifies this, registry
      ensures expiresAt == (if old(autoRenewal) then nextExpiration else old(expiresAt))
      ensures id == old(id) && autoRenewal == old(autoRenewal) && store == old(store)
      ensures registry.sessions == old(registry.sessions)[id := Data()]
      ensures KeyedById(old(registry.sessions)) ==> KeyedById(registry.sessions)
    {
      if autoRenewal {
        expiresAt := nextExpiration;
      }
      registry.sessions := registry.sessions[id := Data()];
    }
  }
}
