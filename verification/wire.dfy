/** What travels over the wire: decoded JSON responses and request parameters. */
module Wire {
  import opened Wrappers
  import opened JavaInt

  /** One value of a decoded JSON object, seen only through the two ways the
      client reads it: `text` is its `toString()` (which is also what
      `getString` returns), and `number` is what `getInt` returns, `None`
      when `getInt` throws. */
  datatype Value = Value(text: string, number: Option<Int32>)

  /** A decoded JSON object: its keys and their values. */
  type Response = map<string, Value>

  /** One `RequestParams.add(key, value)` entry, in the order added. */
  datatype Param = Param(key: string, value: string)

  /** `response.getInt(key)`, with a thrown JSONException as `None`. */
  function GetInt(r: Response, key: string): (n: Option<Int32>)
    ensures n.Some? <==> key in r && r[key].number.Some?
    ensures n.Some? ==> n.value == r[key].number.value
  {
    if key in r then r[key].number else None
  }
}
