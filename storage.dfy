/** The check applied to the persisted catalogue when the store starts: the
    stored text is accepted only if it is present and non-empty, decodes, and
    the decoded value is an object whose `breakfast` entry is truthy.
    Decoding itself is a parameter: it stands for the platform's JSON parser,
    with `None` for a parse failure. */
module Storage {

  datatype Option<T> = None | Some(value: T)

  /** A decoded JSON value. Numbers are integers here. */
  datatype Json =
    | JNull
    | JBool(b: bool)
    | JNumber(n: int)
    | JString(s: string)
    | JArray(items: seq<Json>)
    | JObject(fields: map<string, Json>)

  /** JavaScript truthiness of a decoded value: `null`, `false`, `0` and the
      empty string are falsy, every array and object is truthy. */
  predicate Truthy(j: Json)
    ensures !Truthy(j) <==> j in {JNull, JBool(false), JNumber(0), JString("")}
  {
    match j
    case JNull => false
    case JBool(b) => b
    case JNumber(n) => n != 0
    case JString(s) => s != ""
    case _ => true
  }

  /** Property lookup on a decoded value; a missing property (or one looked up
      on anything but an object) reads as `null`, which is falsy like
      `undefined`. */
  function Property(j: Json, key: string): Json
  {
    if j.JObject? && key in j.fields then j.fields[key] else JNull
  }

  /** The value is truthy, of type `object` (arrays included), and has a
      truthy `breakfast` property. Arrays have no such property, so exactly
      the objects with a truthy `breakfast` entry pass. */
  predicate LooksLikeMenu(j: Json)
    ensures LooksLikeMenu(j) <==>
              j.JObject? && "breakfast" in j.fields && Truthy(j.fields["breakfast"])
  {
    Truthy(j) && (j.JArray? || j.JObject?) && Truthy(Property(j, "breakfast"))
  }

  /** The persisted catalogue if the stored text passes the check, else
      `None` (the caller then falls back to the seed catalogue). */
  function LoadMenuFromStorage(stored: Option<string>, parse: string -> Option<Json>): (r: Option<Json>)
    ensures r.Some? ==> stored.Some? && stored.value != "" && parse(stored.value) == r
    ensures r.Some? ==> r.value.JObject? && "breakfast" in r.value.fields
                        && Truthy(r.value.fields["breakfast"])
    ensures stored == None || stored == Some("") ==> r == None
  {
    if stored.Some? && stored.value != "" then
      match parse(stored.value)
      case Some(parsed) => if LooksLikeMenu(parsed) then Some(parsed) else None
      case None => None
    else None
  }

  /** Conversely, every object with a truthy `breakfast` entry decoded from
      non-empty text is accepted as it is. */
  lemma LoadMenuAcceptsMenuObjects(text: string, parse: string -> Option<Json>, fields: map<string, Json>)
    requires text != "" && parse(text) == Some(JObject(fields))
    requires "breakfast" in fields && Truthy(fields["breakfast"])
    ensures LoadMenuFromStorage(Some(text), parse) == Some(JObject(fields))
  {
  }

  /** An array is rejected even though its type is `object`: it has no
      `breakfast` property. */
  lemma LoadMenuRejectsArrays(text: string, parse: string -> Option<Json>)
    requires parse(text).Some? && parse(text).value.JArray?
    ensures LoadMenuFromStorage(Some(text), parse) == None
  {
  }
}
