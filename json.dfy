/** Decoded JSON values, as `json.loads` hands them to the Snips handler.
    JSON floating-point numbers are not modelled: every number is an
    integer. */
module JsonValues {

  /** A decoded JSON document. An object is a dictionary: after decoding, key
      order does not matter and a repeated key has already been resolved. */
  datatype Json =
    | JNull
    | JBool(b: bool)
    | JInt(i: int)
    | JString(s: string)
    | JArray(items: seq<Json>)
    | JObject(fields: map<string, Json>)

  /** `key in obj` for a dictionary; false for every other value. */
  predicate Has(j: Json, key: string)
  {
    j.JObject? && key in j.fields
  }

  /** `obj[key]`, for an object known to have the key. */
  function Field(j: Json, key: string): Json
    requires Has(j, key)
  {
    j.fields[key]
  }

  /** `isinstance(obj.get(key), str)`: the key is present and holds a string. */
  predicate HasString(j: Json, key: string)
  {
    Has(j, key) && Field(j, key).JString?
  }

  /** The string held at `key`, for an object where `HasString` holds. */
  function StringField(j: Json, key: string): string
    requires HasString(j, key)
  {
    Field(j, key).s
  }

  /** `obj.get(key, default)`. */
  function GetOr(j: Json, key: string, default: Json): Json
  {
    if Has(j, key) then Field(j, key) else default
  }
}
