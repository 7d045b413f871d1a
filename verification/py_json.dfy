/**
 A parsed JSON document as Python holds it (dicts, lists, strs, numbers,
 booleans, None), with strs limited to Unicode scalar values, together with the few built-in Python operations the
 widget-metadata fix applies to such values: `in`, `len`, subscription,
 item assignment and `dict.get`. Each operation raises exactly where
 Python raises, so the script's behaviour on unexpected shapes is modelled
 rather than excluded.
 */
module PyJson {

  /** A JSON value. Numbers are kept opaque: the fix never inspects them. */
  datatype Json =
    | JNull
    | JBool(b: bool)
    | JNumber(n: int)
    | JString(s: string)
    | JArray(items: seq<Json>)
    | JObject(fields: map<string, Json>)
  {
    /** None, bool and numbers: the values `in` and `len` reject with a TypeError. */
    predicate IsScalar() {
      JNull? || JBool? || JNumber?
    }
  }

  /** The Python exceptions the operations below can raise. */
  datatype PyError = TypeError | KeyError(key: string)

  datatype Result<T> = Ok(value: T) | Err(error: PyError)

  /** Search for `needle` by peeling one character off the front of `hay`
      at a time. */
  predicate IsSubstring(needle: string, hay: string)
    decreases |hay|
  {
    needle <= hay || (|hay| > 0 && IsSubstring(needle, hay[1..]))
  }

  /** Reference meaning of a substring: some offset of `hay` starts with `needle`. */
  ghost predicate OccursAt(needle: string, hay: string) {
    exists i :: 0 <= i && i + |needle| <= |hay| && needle <= hay[i..]
  }

  /** Reference meaning of list membership: some position holds the string. */
  ghost predicate ListHas(items: seq<Json>, needle: string) {
    exists i :: 0 <= i < |items| && items[i] == JString(needle)
  }

  /** The recursive search finds `needle` exactly when it occurs at some offset. */
  lemma {:induction false} IsSubstringIff(needle: string, hay: string)
    ensures IsSubstring(needle, hay) <==> OccursAt(needle, hay)
    decreases |hay|
  {
    assert hay[0..] == hay;
    if |hay| > 0 {
      IsSubstringIff(needle, hay[1..]);
      if OccursAt(needle, hay[1..]) {
        var i :| 0 <= i && i + |needle| <= |hay[1..]| && needle <= hay[1..][i..];
        assert hay[1..][i..] == hay[i + 1..];
      }
      if OccursAt(needle, hay) {
        var i :| 0 <= i && i + |needle| <= |hay| && needle <= hay[i..];
        if i > 0 {
          assert hay[1..][i - 1..] == hay[i..];
        }
      }
    }
  }

  /** When Python's `needle in j` evaluates to True: a dict key, a list
      element equal to the string, or a substring of a str. */
  ghost predicate Holds(j: Json, needle: string) {
    || (j.JObject? && needle in j.fields.Keys)
    || (j.JArray? && ListHas(j.items, needle))
    || (j.JString? && OccursAt(needle, j.s))
  }

  /** Python's `needle in container` for a str needle: None, bool and numbers
      are not iterable. */
  function In(needle: string, container: Json): (r: Result<bool>)
    ensures r.Err? <==> (container.JNull? || container.JBool? || container.JNumber?)
    ensures r.Err? ==> r.error == TypeError
    ensures r.Ok? ==> (r.value <==> Holds(container, needle))
  {
    match container
    case JObject(fields) => Ok(needle in fields)
    case JArray(items) => Ok(JString(needle) in items)
    case JString(s) =>
      IsSubstringIff(needle, s);
      Ok(IsSubstring(needle, s))
    case _ => Err(TypeError)
  }

  /** Python's `container[key]` for a str key: only a dict accepts it, and
      a missing key raises KeyError. */
  function GetItem(container: Json, key: string): (r: Result<Json>)
    ensures r.Ok? <==> container.JObject? && key in container.fields
    ensures r.Ok? ==> r.value == container.fields[key]
    ensures r == Err(KeyError(key)) <==> container.JObject? && key !in container.fields
    ensures r == Err(TypeError) <==> !container.JObject?
  {
    match container
    case JObject(fields) =>
      if key in fields then Ok(fields[key]) else Err(KeyError(key))
    case _ => Err(TypeError)
  }

  /** Python's `container[key] = value` for a str key, returning the updated
      container: only a dict supports it. */
  function SetItem(container: Json, key: string, value: Json): (r: Result<Json>)
    ensures r.Ok? <==> container.JObject?
    ensures r.Err? ==> r.error == TypeError
    ensures r.Ok? ==>
              && r.value.JObject?
              && r.value.fields.Keys == container.fields.Keys + {key}
              && r.value.fields[key] == value
              && (forall k :: k in container.fields && k != key ==> r.value.fields[k] == container.fields[k])
  {
    match container
    case JObject(fields) => Ok(JObject(fields[key := value]))
    case _ => Err(TypeError)
  }

  /** Python's `len(container)`: keys of a dict, items of a list, code points of a str. */
  function Len(container: Json): (r: Result<nat>)
    ensures r.Err? <==> (container.JNull? || container.JBool? || container.JNumber?)
    ensures r.Err? ==> r.error == TypeError
    ensures container.JObject? ==> r == Ok(|container.fields.Keys|)
    ensures container.JArray? ==> r == Ok(|container.items|)
    ensures container.JString? ==> r == Ok(|container.s|)
  {
    match container
    case JObject(fields) => Ok(|fields|)
    case JArray(items) => Ok(|items|)
    case JString(s) => Ok(|s|)
    case _ => Err(TypeError)
  }

  /** Python's `d.get(key, default)` on a dict. */
  function Get(d: map<string, Json>, key: string, default: Json): (r: Json)
    ensures key in d ==> r == d[key]
    ensures key !in d ==> r == default
  {
    if key in d then d[key] else default
  }

  /** The membership guard at line 27 protects the subscription at line 31
      only for a dict: there, `key in c` holds exactly when `c[key]` succeeds.
      A list or str that holds the key still rejects the subscription. */
  lemma GuardProtectsSubscript(c: Json, key: string)
    ensures c.JObject? ==> (In(key, c) == Ok(true) <==> GetItem(c, key).Ok?)
    ensures (c.JArray? || c.JString?) && In(key, c) == Ok(true) ==> GetItem(c, key) == Err(TypeError)
  {
  }

  /** `dict.get` is the guarded subscription: the value when `key in d`,
      the default otherwise. */
  lemma GetIsGuardedSubscript(d: map<string, Json>, key: string, default: Json)
    ensures Get(d, key, default) ==
              if In(key, JObject(d)) == Ok(true) then GetItem(JObject(d), key).value else default
  {
  }

  /** `len` raises on exactly the values `in` raises on, so once the test at
      line 34 has returned, the `len` at line 39 cannot raise; and a dict
      holding a key has at least one entry. */
  lemma LenDefinedWhereInIs(c: Json, key: string)
    ensures In(key, c).Ok? <==> Len(c).Ok?
    ensures c.JObject? && In(key, c) == Ok(true) ==> Len(c).value >= 1
  {
    if c.JObject? && key in c.fields {
      assert c.fields.Keys == (c.fields.Keys - {key}) + {key};
    }
  }
}
