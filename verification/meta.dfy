/** `parseResponseMeta`: the pagination metadata of a listing response. */
module ResponseMeta {
  import opened Wrappers
  import opened JavaInt
  import opened Wire

  /** A JSONException thrown by `getInt`, naming the key it could not read. */
  datatype JsonError = JsonError(key: string)

  /** `count` is read first and `pages` last, both with a throwing
      `getInt`; `count_total` is read in between with its exception
      swallowed, so it falls back to 0. The three numbers come back as
      their `Integer.toString` spellings. */
  function ParseResponseMeta(r: Response): (m: Result<map<string, string>, JsonError>)
    ensures m.Failure? <==> GetInt(r, "count").None? || GetInt(r, "pages").None?
    ensures m.Failure? ==> m.error == JsonError(if GetInt(r, "count").None? then "count" else "pages")
    ensures m.Success? ==> m.value.Keys == {"count", "count_total", "pages"}
  {
    match GetInt(r, "count")
    case None => Failure(JsonError("count"))
    case Some(count) =>
      var countTotal := GetInt(r, "count_total").GetOr(0);
      match GetInt(r, "pages")
      case None => Failure(JsonError("pages"))
      case Some(pages) =>
        Success(map["count" := ToString(count), "count_total" := ToString(countTotal), "pages" := ToString(pages)])
  }

  /** Each entry of the metadata parses back, with `Integer.parseInt`, to
      the number it was made from: `count` and `pages` exactly as the
      response holds them, and `count_total` as the response holds it when
      `getInt` can read it, 0 otherwise. */
  lemma MetaRoundTrip(r: Response)
    requires ParseResponseMeta(r).Success?
    ensures var m := ParseResponseMeta(r).value;
      && ParseInt(m["count"]) == GetInt(r, "count")
      && ParseInt(m["pages"]) == GetInt(r, "pages")
      && ParseInt(m["count_total"]) == Some(GetInt(r, "count_total").GetOr(0))
  {
    ParseToString(GetInt(r, "count").value);
    ParseToString(GetInt(r, "pages").value);
    ParseToString(GetInt(r, "count_total").GetOr(0));
  }

  /** A response without `count_total` still yields metadata, with "0". */
  lemma MissingCountTotalIsZero(r: Response)
    requires GetInt(r, "count").Some? && GetInt(r, "pages").Some?
    requires "count_total" !in r
    ensures ParseResponseMeta(r).Success?
    ensures ParseResponseMeta(r).value["count_total"] == "0"
  {
  }

  /** Only the three keys are read: anything else in the response does not
      affect the result. */
  lemma MetaReadsOnlyItsKeys(r: Response, key: string, v: Value)
    requires key != "count" && key != "count_total" && key != "pages"
    ensures ParseResponseMeta(r[key := v]) == ParseResponseMeta(r)
  {
  }
}
