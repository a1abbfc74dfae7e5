/**
 * The values `json.loads` produces, with the two Python operations the
 * backend applies to them: truthiness (`if x:`) and membership (`"k" in x`).
 * A JSON object is a Python dict; its key order is not modelled.
 */
module JsonValue {
  import opened Wrappers
  import Text

  datatype Json =
    | JNull
    | JBool(b: bool)
    | JInt(i: int)
    | JReal(r: real)
    | JString(s: string)
    | JArray(items: seq<Json>)
    | JObject(fields: map<string, Json>)

  /** Python truthiness: None, False, 0, 0.0 and empty containers are false. */
  predicate Truthy(v: Json) {
    match v
    case JNull => false
    case JBool(b) => b
    case JInt(i) => i != 0
    case JReal(r) => r != 0.0
    case JString(s) => s != []
    case JArray(items) => items != []
    case JObject(fields) => fields != map[]
  }

  /**
   * Python's `key in v`: a dict tests its keys, a list its elements, a string
   * its substrings; any other value raises TypeError, modelled as None.
   */
  function Member(key: string, v: Json): (r: Option<bool>)
    ensures r.None? <==> !(v.JObject? || v.JArray? || v.JString?)
  {
    match v
    case JObject(fields) => Some(key in fields)
    case JArray(items) => Some(JString(key) in items)
    case JString(s) => Some(Text.Contains(s, key))
    case _ => None
  }

  /** What membership means for each kind of container. */
  lemma MemberMeaning(key: string, v: Json)
    ensures v.JObject? ==> Member(key, v) == Some(key in v.fields)
    ensures v.JArray? ==> Member(key, v) == Some(exists k :: 0 <= k < |v.items| && v.items[k] == JString(key))
    ensures v.JString? ==> Member(key, v) == Some(exists k :: Text.OccursAt(v.s, key, k))
  {
    if v.JString? {
      Text.ContainsIffOccurs(v.s, key);
    }
  }

  /** A value that contains some non-empty key is truthy. */
  lemma MemberImpliesTruthy(key: string, v: Json)
    requires key != [] && Member(key, v) == Some(true)
    ensures Truthy(v)
  {
    MemberMeaning(key, v);
    if v.JString? {
      var k :| Text.OccursAt(v.s, key, k);
      assert |v.s| >= |key|;
    }
  }
}
