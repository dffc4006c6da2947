/**
 * The key-value storage adapter over its page-local fallback backend.
 *
 * The page's `localStorage` holds text. The model keeps, per key, either the
 * text `JSON.stringify(v)` of a JSON value `v` (written by `set`) or a piece
 * of text that is not JSON at all (written by other code on the page);
 * reading parses the first back to `v` and hands the second back verbatim.
 */
module Storage {
  import opened Options

  /** JSON values; numbers are integers here. */
  datatype Json =
    | JNull
    | JBool(b: bool)
    | JNumber(n: int)
    | JString(s: string)
    | JArray(elements: seq<Json>)
    | JObject(members: seq<(string, Json)>)

  /** What `localStorage` holds under one key. */
  datatype Stored =
    | Encoded(value: Json)   // the text JSON.stringify(value)
    | Text(raw: string)      // text that JSON.parse rejects

  datatype Area = Local | Sync

  /** The `string | string[]` argument of the backend's `get` and `remove`. */
  datatype KeyArg = OneKey(key: string) | KeyList(keys: seq<string>)

  /** JavaScript truthiness of a JSON value. */
  predicate Truthy(v: Json) {
    match v
    case JNull => false
    case JBool(b) => b
    case JNumber(n) => n != 0
    case JString(s) => s != ""
    case JArray(_) => true
    case JObject(_) => true
  }

  /**
   * `JSON.parse(localStorage.getItem(key) || 'null')`, falling back to the raw
   * text when parsing throws.
   */
  function ReadItem(items: map<string, Stored>, key: string): (v: Json)
    ensures key !in items ==> v == JNull
    ensures key in items && items[key].Encoded? ==> v == items[key].value
    ensures key in items && items[key].Text? ==>
              v == if items[key].raw == "" then JNull else JString(items[key].raw)
  {
    if key !in items then JNull
    else match items[key]
      case Encoded(value) => value
      case Text(raw) => if raw == "" then JNull else JString(raw)
  }

  /** The keys a backend `get` answers for: every non-empty stored key for `null`. */
  function RequestedKeys(items: map<string, Stored>, keys: Option<KeyArg>): set<string> {
    match keys
    case None => items.Keys - {""}
    case Some(OneKey(k)) => {k}
    case Some(KeyList(ks)) => set k | k in ks
  }

  /** The keys a backend `remove` deletes. */
  function RemovedKeys(keys: KeyArg): set<string> {
    match keys
    case OneKey(k) => {k}
    case KeyList(ks) => set k | k in ks
  }

  /** The store after the backend `set(entries)`: each entry's JSON text replaces or adds its key. */
  function Written(items: map<string, Stored>, entries: map<string, Json>): (r: map<string, Stored>)
    ensures r.Keys == items.Keys + entries.Keys
    ensures forall k :: k in entries ==> r[k] == Encoded(entries[k])
    ensures forall k :: k in items && k !in entries ==> r[k] == items[k]
  {
    map k | k in items.Keys + entries.Keys :: if k in entries then Encoded(entries[k]) else items[k]
  }

  /** Writing one more entry is one more update of the store. */
  lemma WrittenOneMore(items: map<string, Stored>, done: map<string, Json>, k: string, v: Json)
    ensures Written(items, done)[k := Encoded(v)] == Written(items, done[k := v])
  {
  }

  /** `result[key] || null` of the service's `get`. */
  function StoredValue(items: map<string, Stored>, key: string): Json {
    var v := ReadItem(items, key);
    if Truthy(v) then v else JNull
  }

  /** `!!result[key]` of the service's `has`. */
  predicate Present(items: map<string, Stored>, key: string) {
    Truthy(ReadItem(items, key))
  }

  /** The fallback backend: a `local` area and a `sync` area that forwards to it. */
  class LocalStorageFallback {
    var items: map<string, Stored>

    constructor (initial: map<string, Stored>)
      ensures items == initial
    {
      items := initial;
    }

    /** `local.get(keys)`: an entry for every requested key, absent keys reading as null. */
    method LocalGet(keys: Option<KeyArg>) returns (result: map<string, Json>)
      ensures result.Keys == RequestedKeys(items, keys)
      ensures forall k :: k in result ==> result[k] == ReadItem(items, k)
    {
      result := map[];
      match keys {
        case None =>
          var remaining := items.Keys;
          while remaining != {}
            invariant remaining <= items.Keys
            invariant result.Keys == (items.Keys - remaining) - {""}
            invariant forall k :: k in result ==> result[k] == ReadItem(items, k)
            decreases |remaining|
          {
            var k :| k in remaining;
            if k != "" {
              result := result[k := ReadItem(items, k)];
            }
            remaining := remaining - {k};
          }
        case Some(OneKey(k)) =>
          result := result[k := ReadItem(items, k)];
        case Some(KeyList(ks)) =>
          for i := 0 to |ks|
            invariant result.Keys == set k | k in ks[..i]
            invariant forall k :: k in result ==> result[k] == ReadItem(items, k)
          {
            result := result[ks[i] := ReadItem(items, ks[i])];
            assert ks[..i + 1] == ks[..i] + [ks[i]];
          }
          assert ks[..|ks|] == ks;
      }
    }

    /** `local.set(entries)`: store each entry's JSON text under its key. */
    method LocalSet(entries: map<string, Json>)
      modifies this
      ensures items == Written(old(items), entries)
    {
      var remaining := entries.Keys;
      ghost var done: map<string, Json> := map[];
      while remaining != {}
        invariant remaining <= entries.Keys
        invariant done.Keys == entries.Keys - remaining
        invariant forall k :: k in done ==> done[k] == entries[k]
        invariant items == Written(old(items), done)
        decreases |remaining|
      {
        var k :| k in remaining;
        WrittenOneMore(old(items), done, k, entries[k]);
        items := items[k := Encoded(entries[k])];
        done := done[k := entries[k]];
        remaining := remaining - {k};
      }
      assert done == entries;
    }

    /** `local.remove(keys)`: delete each key; an absent key is skipped silently. */
    method LocalRemove(keys: KeyArg)
      modifies this
      ensures items == old(items) - RemovedKeys(keys)
    {
      match keys {
        case OneKey(k) =>
          items := items - {k};
        case KeyList(ks) =>
          for i := 0 to |ks|
            invariant items == old(items) - set k | k in ks[..i]
          {
            assert ks[..i + 1] == ks[..i] + [ks[i]];
            items := items - {ks[i]};
          }
          assert ks[..|ks|] == ks;
      }
    }

    /** `local.clear()`. */
    method LocalClear()
      modifies this
      ensures items == map[]
    {
      items := map[];
    }

    /** `sync.get(keys)` forwards to `local.get(keys)`. */
    method SyncGet(keys: Option<KeyArg>) returns (result: map<string, Json>)
      ensures result.Keys == RequestedKeys(items, keys)
      ensures forall k :: k in result ==> result[k] == ReadItem(items, k)
    {
      result := LocalGet(keys);
    }

    /** `sync.set(entries)` forwards to `local.set(entries)`. */
    method SyncSet(entries: map<string, Json>)
      modifies this
      ensures items == Written(old(items), entries)
    {
      LocalSet(entries);
    }

    /** `sync.remove(keys)` forwards to `local.remove(keys)`. */
    method SyncRemove(keys: KeyArg)
      modifies this
      ensures items == old(items) - RemovedKeys(keys)
    {
      LocalRemove(keys);
    }

    /** `sync.clear()` forwards to `local.clear()`. */
    method SyncClear()
      modifies this
      ensures items == map[]
    {
      LocalClear();
    }

    /** `storage[area].get(keys)`: either area answers from the one store. */
    method AreaGet(area: Area, keys: Option<KeyArg>) returns (result: map<string, Json>)
      ensures result.Keys == RequestedKeys(items, keys)
      ensures forall k :: k in result ==> result[k] == ReadItem(items, k)
    {
      match area {
        case Local => result := LocalGet(keys);
        case Sync => result := SyncGet(keys);
      }
    }
  }

  /** The service: one backend, chosen at construction. */
  class StorageService {
    const backend: LocalStorageFallback

    constructor (initial: map<string, Stored>)
      ensures fresh(backend) && backend.items == initial
    {
      backend := new LocalStorageFallback(initial);
    }

    /** `set(key, value, area)`: writes `{[key]: value}` to the area. */
    method Set(key: string, value: Json, area: Area)
      modifies backend
      ensures backend.items == old(backend.items)[key := Encoded(value)]
    {
      match area {
        case Local => backend.LocalSet(map[key := value]);
        case Sync => backend.SyncSet(map[key := value]);
      }
    }

    /** `get(key, area)`: the stored value, with every falsy value reading as null. */
    method Get(key: string, area: Area) returns (value: Json)
      ensures value == StoredValue(backend.items, key)
      ensures Truthy(value) || value == JNull
    {
      var result := backend.AreaGet(area, Some(OneKey(key)));
      value := if Truthy(result[key]) then result[key] else JNull;
    }

    /** `getMultiple(keys, area)`: the backend's answer as it is, with no falsy-to-null step. */
    method GetMultiple(keys: seq<string>, area: Area) returns (result: map<string, Json>)
      ensures forall k :: k in result <==> k in keys
      ensures forall k :: k in result ==> result[k] == ReadItem(backend.items, k)
    {
      result := backend.AreaGet(area, Some(KeyList(keys)));
    }

    /** `remove(key, area)`. */
    method Remove(key: string, area: Area)
      modifies backend
      ensures backend.items == old(backend.items) - {key}
    {
      match area {
        case Local => backend.LocalRemove(OneKey(key));
        case Sync => backend.SyncRemove(OneKey(key));
      }
    }

    /** `clear(area)`. */
    method Clear(area: Area)
      modifies backend
      ensures backend.items == map[]
    {
      match area {
        case Local => backend.LocalClear();
        case Sync => backend.SyncClear();
      }
    }

    /** `has(key, area)`: whether the stored value is truthy. */
    method Has(key: string, area: Area) returns (present: bool)
      ensures present == Present(backend.items, key)
      ensures present <==> StoredValue(backend.items, key) != JNull
    {
      var result := backend.AreaGet(area, Some(OneKey(key)));
      present := Truthy(result[key]);
    }
  }

  // ---------------------------------------------------------------------
  // What a sequence of service calls observes
  // ---------------------------------------------------------------------

  /** After `set(k, v)`, `get(k)` gives `v` back unless it is falsy, and `has(k)` agrees. */
  lemma GetAfterSet(items: map<string, Stored>, k: string, v: Json)
    ensures StoredValue(items[k := Encoded(v)], k) == if Truthy(v) then v else JNull
    ensures Present(items[k := Encoded(v)], k) <==> Truthy(v)
    ensures Written(items, map[k := v]) == items[k := Encoded(v)]
  {
  }

  /** `set` of one key leaves every other key reading as before. */
  lemma SetLeavesOthers(items: map<string, Stored>, k: string, v: Json, other: string)
    requires other != k
    ensures ReadItem(items[k := Encoded(v)], other) == ReadItem(items, other)
  {
  }

  /** `has(k)` holds exactly when `get(k)` is not null. */
  lemma HasAgreesWithGet(items: map<string, Stored>, k: string)
    ensures Present(items, k) <==> StoredValue(items, k) != JNull
  {
  }

  /** A missing key reads as null and is not present. */
  lemma MissingKeyReadsNull(items: map<string, Stored>, k: string)
    requires k !in items
    ensures StoredValue(items, k) == JNull && !Present(items, k)
  {
  }

  /**
   * `remove(k)` makes `get(k)` null, changes nothing when `k` is absent and
   * leaves every other key reading as before.
   */
  lemma RemoveEffects(items: map<string, Stored>, k: string, other: string)
    ensures StoredValue(items - {k}, k) == JNull
    ensures k !in items ==> items - {k} == items
    ensures other != k ==> ReadItem(items - {k}, other) == ReadItem(items, other)
  {
  }

  /** After `clear()` every key is absent and reads as null. */
  lemma ClearEffects(k: string)
    ensures StoredValue(map[], k) == JNull && !Present(map[], k)
  {
  }

  /** `get(null)` lists every stored key except the empty one. */
  lemma GetAllListsStoredKeys(items: map<string, Stored>, k: string)
    ensures k in RequestedKeys(items, None) <==> k in items && k != ""
  {
  }
}
