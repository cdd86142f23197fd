/** The response classifiers of the login and registration handshakes. */
module Classify {
  import opened Wrappers
  import opened JavaInt
  import opened Wire
  import Codes

  /** What a status check does with a response: answer true, answer false,
      or throw a NullPointerException because `status` was never read. */
  datatype Check = Accepted | Rejected | NullStatus

  /** `isNonceOk` and `isCookieOk` of the login flow and `isNonceOk` of the
      registration flow, three copies of one body: read `status` and compare
      its string form with "ok". A missing `status` leaves the local `null`,
      and `null.equals("ok")` throws. */
  function ClassifyStatus(r: Response): (c: Check)
    ensures c == Accepted <==> "status" in r && r["status"].text == "ok"
    ensures c == Rejected <==> "status" in r && r["status"].text != "ok"
    ensures c == NullStatus <==> "status" !in r
  {
    if "status" !in r then NullStatus
    else if r["status"].text == "ok" then Accepted
    else Rejected
  }

  /** The conservative classifier the handshake is meant to have: a missing
      `status` reads as "not ok" instead of throwing. */
  function IntendedStatusOk(r: Response): (ok: bool)
  {
    "status" in r && r["status"].text == "ok"
  }

  /** The two classifiers agree on every response that has a `status`; the
      written one never accepts a response the intended one rejects, and it
      throws exactly where the intended one folds into "not ok". */
  lemma ClassifyAgreesWhereStatusPresent(r: Response)
    ensures ClassifyStatus(r) == Accepted <==> IntendedStatusOk(r)
    ensures "status" in r ==> (ClassifyStatus(r) == Rejected <==> !IntendedStatusOk(r))
    ensures ClassifyStatus(r) == NullStatus ==> !IntendedStatusOk(r)
  {
  }

  /** The response `{}` makes the written classifier throw. */
  lemma EmptyResponseThrows()
    ensures ClassifyStatus(map[]) == NullStatus
    ensures !IntendedStatusOk(map[])
  {
  }

  /** The login cookie rejection reads `code` with `getInt`, defaulting to
      LOGIN_FAILED when the key is missing or not a number. */
  function LoginCode(r: Response): (code: int)
    ensures GetInt(r, "code").Some? ==> code == GetInt(r, "code").value
    ensures GetInt(r, "code").None? ==> code == Codes.LOGIN_FAILED
  {
    GetInt(r, "code").GetOr(Codes.LOGIN_FAILED)
  }

  /** `registrationStatus`: `Integer.parseInt` of the string form of `code`,
      or -1 when `code` is missing or does not parse. */
  function RegistrationStatus(r: Response): (code: int)
    ensures code == -1 || ("code" in r && ParseInt(r["code"].text) == Some(code))
    ensures "code" in r && ParseInt(r["code"].text).Some? ==> code == ParseInt(r["code"].text).value
    ensures "code" !in r ==> code == -1
  {
    if "code" in r then ParseInt(r["code"].text).GetOr(-1) else -1
  }

  /** `registrationStatus` never looks at `status`: replacing or removing it
      leaves the result unchanged. */
  lemma RegistrationStatusIgnoresStatus(r: Response, v: Value)
    ensures RegistrationStatus(r["status" := v]) == RegistrationStatus(r)
    ensures RegistrationStatus(r - {"status"}) == RegistrationStatus(r)
  {
    assert "status" != "code";
  }

  /** A `code` whose string form is the decimal spelling of an `int` k
      (a JSON number k, or the string "k") yields exactly k. */
  lemma RegistrationStatusOfDecimal(r: Response, k: Int32)
    requires "code" in r && r["code"].text == ToString(k)
    ensures RegistrationStatus(r) == k
  {
    ParseToString(k);
  }

  /** A JSON integer k under `code` (string form its decimal spelling,
      `getInt` value k) is read as k by both readers: the login rejection's
      `getInt` and `registrationStatus`'s `parseInt` of the string form. */
  lemma CodeReadersAgreeOnIntegers(r: Response, k: Int32)
    requires "code" in r && r["code"] == Value(ToString(k), Some(k))
    ensures LoginCode(r) == k
    ensures RegistrationStatus(r) == k
  {
    ParseToString(k);
  }
}
