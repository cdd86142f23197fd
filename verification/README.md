# WordPress JSON API client: handshake and response logic

`Wordpress` is an Android client for a WordPress site running the JSON API
plugin. It logs users in with a two-request handshake (nonce, then auth
cookie) and registers new users with another two-request handshake (nonce,
then registration). It reads the status and error codes of the server's JSON
answers, builds the parameters of new posts, and extracts pagination
metadata from listing responses. All network traffic goes through an
asynchronous HTTP client, and the results arrive as listener callbacks.

This project models the decision logic of that class in Dafny:

- `Wire` holds decoded JSON objects (`map<string, Value>`) and request parameters.
  - A `Value` is seen through its string form and through what `getInt` returns.
- `JavaInt` holds `Integer.parseInt` and `Integer.toString` on 32-bit `int`, and their round trip.
- `Codes` holds the public result constants.
- `Classify` holds the status classifiers (`isNonceOk`, `isCookieOk`) and the two code readers (`getInt("code")` and `registrationStatus`).
- `Login` and `Register` model the handshakes as pure state machines.
  - A `Flow` holds the state, the session or stored nonce, and the trace of callbacks and requests the attempt has produced.
  - `Step` delivers one event: a start, a response, or a transport failure.
  - `Run` delivers a sequence of events.
  - A response handler that throws moves the flow to `Crashed`, and every later event is ignored.
- `ResponseMeta` models `parseResponseMeta`.
- `CreatePost` models the slug joining and the attachment guard of `createPost`.
- `Counting` counts the effects in a trace that satisfy a predicate.

The handshakes deliberately follow the code as written, including its
defects: the fall-through rejection `switch` of the login flow, and the
registration request that is still sent after a nonce decode error. The
corrected behaviour is defined next to each defect and compared with the
written behaviour under "## Findings".

A missing `status` key leaves the local `status` at `null`, and `status.equals("ok")` (Wordpress.java:730, :746, :859) throws. The model follows the code: `ClassifyStatus` returns `NullStatus`, and a handshake that receives such a response stops silently.

## Model

| member | source | states |
|---|---|---|
| JavaInt.ParseInt | src/com/jogeeks/wordpress/Wordpress.java:870 | `Integer.parseInt` succeeds exactly on an optional sign followed by at least one decimal digit whose signed value fits in `int`, and then yields that signed value; every other string is a NumberFormatException |
| JavaInt.ParseIntExamples | src/com/jogeeks/wordpress/Wordpress.java:870 | "-05" reads as -5 and "+7" as 7; the spellings of MAX_VALUE + 1 and MIN_VALUE - 1, a lone "-" and "1a" do not parse |
| JavaInt.ToStringShape | src/com/jogeeks/wordpress/Wordpress.java:939-941 | `Integer.toString` output is non-empty, starts with '-' exactly for negative numbers, and is otherwise only digits |
| JavaInt.ParseToString | src/com/jogeeks/wordpress/Wordpress.java:939-941 | parsing the `Integer.toString` spelling of any `int` gives back that `int` |
| Classify.ClassifyStatus | src/com/jogeeks/wordpress/Wordpress.java:721-751 | a status check accepts exactly when `status` is present with string form "ok", rejects exactly when it is present with any other string form, and throws exactly when it is absent; the registration copy at lines 850-864 is the same body |
| Classify.ClassifyAgreesWhereStatusPresent | src/com/jogeeks/wordpress/Wordpress.java:850-864 | the written check accepts exactly the responses the intended "missing means not ok" check accepts, agrees with it on every response that has a `status`, and throws only where the intended check says "not ok" |
| Classify.EmptyResponseThrows | src/com/jogeeks/wordpress/Wordpress.java:722-730 | the empty response `{}` makes the written check throw, where the intended check answers "not ok" |
| Classify.LoginCode | src/com/jogeeks/wordpress/Wordpress.java:678-682 | the login rejection code is the number under `code` when `getInt` can read it, and LOGIN_FAILED (-1) otherwise |
| Classify.RegistrationStatus | src/com/jogeeks/wordpress/Wordpress.java:866-875 | the registration result is either -1 or the value `parseInt` gives for the string form of `code`; a parseable `code` always gives its value, and a missing `code` gives -1 |
| Classify.RegistrationStatusIgnoresStatus | src/com/jogeeks/wordpress/Wordpress.java:866-875 | the registration result does not depend on the response's `status`: replacing or removing it leaves the result unchanged |
| Classify.CodeReadersAgreeOnIntegers | src/com/jogeeks/wordpress/Wordpress.java:680 | a JSON integer k under `code` is read as k both by the login rejection's `getInt` (line 680) and by `registrationStatus`'s `parseInt` of its string form (line 870) |
| Classify.RegistrationStatusOfDecimal | src/com/jogeeks/wordpress/Wordpress.java:870 | a `code` whose string form is the decimal spelling of an `int` k yields exactly k |
| Login.FallFrom | src/com/jogeeks/wordpress/Wordpress.java:684-697 | entering the break-less `switch` at case k reports 4 - k failures, the i-th stamped with status k + i, and leaves the session stamped 3 |
| Login.Rejection | src/com/jogeeks/wordpress/Wordpress.java:684-697 | codes 1 to 3 report 4 - code failures with ascending statuses and end with status 3; any other code changes nothing and reports nothing; the nonce and cookie flag are untouched |
| Login.IntendedRejection | src/com/jogeeks/wordpress/Wordpress.java:684-697 | the switch with a `break` after each case reports exactly one failure, carrying the final session, with the code as status (LOGIN_FAILED for an unknown code) |
| Login.RejectionMatchesIntendedOnlyForThree | src/com/jogeeks/wordpress/Wordpress.java:684-697 | the written switch equals the intended one exactly for code 3, and the number of failures it reports is 4 - code for codes 1 to 3 and 0 otherwise |
| Login.Step | src/com/jogeeks/wordpress/Wordpress.java:618-719 | a step keeps the credentials, only appends to the trace, and changes nothing once the attempt has ended or crashed |
| Login.RunReachable | src/com/jogeeks/wordpress/Wordpress.java:618-719 | any sequence of events keeps the trace-shape invariant of the login attempt: opening, then at most one nonce outcome, then at most one cookie outcome |
| Login.LoginGuarantees | src/com/jogeeks/wordpress/Wordpress.java:618-719 | for any events, the trace starts with OnLoginStart and the nonce request; it holds at most one cookie request, one success, one connection failure and three failures; a success excludes every failure, and a connection failure excludes failures and successes |
| Login.BadNonce | src/com/jogeeks/wordpress/Wordpress.java:708-711 | a rejected nonce stamps BAD_NONCE, reports exactly one failure, and never sends the cookie request, whatever arrives later |
| Login.AcceptedNonce | src/com/jogeeks/wordpress/Wordpress.java:644-658 | an accepted nonce is stored and sent with the username and password in the cookie request; without a `nonce` key the request goes out with no parameters and nothing is stored |
| Login.CookieAccepted | src/com/jogeeks/wordpress/Wordpress.java:665-675 | an accepted cookie sets the session, stamps LOGIN_SUCCESS, and reports one success and no failure |
| Login.CookieRejected | src/com/jogeeks/wordpress/Wordpress.java:677-697 | a rejected cookie with code 1 to 3 reports 4 - code failures and ends with status 3; any other code reports nothing and leaves the status unstamped; there is never a success or a connection failure |
| Login.TransportFailureAtNonce | src/com/jogeeks/wordpress/Wordpress.java:714-717 | a failed nonce request reports only a connection failure and leaves the session untouched |
| Login.TransportFailureAtCookie | src/com/jogeeks/wordpress/Wordpress.java:701-706 | a failed cookie request reports one connection failure after the one cookie request, and no success or failure |
| Login.MissingStatusIsSilent | src/com/jogeeks/wordpress/Wordpress.java:721-751 | a nonce or cookie response without `status` crashes the handler, and the listener hears neither success nor failure nor connection failure |
| Register.Step | src/com/jogeeks/wordpress/Wordpress.java:785-848 | a step keeps the applicant, only appends to the trace, and changes nothing once the attempt has ended or crashed |
| Register.RunReachable | src/com/jogeeks/wordpress/Wordpress.java:785-848 | any sequence of events keeps the trace-shape invariant of the registration attempt: opening, then one nonce outcome, then at most one answer to the request |
| Register.RegisterGuarantees | src/com/jogeeks/wordpress/Wordpress.java:785-848 | for any events, the trace starts with onRegisterStart and the nonce request; it holds at most one registration request, one success, one connection failure (never both a success and a connection failure), and two failures, where two only happen when the first is the decode error's REGISTRATION_FAILED; every success and failure callback carries a code consistent with its kind |
| Register.RegisterBadNonce | src/com/jogeeks/wordpress/Wordpress.java:835-838 | a rejected nonce reports one failure with BAD_NONCE, the same number as REGISTRATION_INVALID_EMAIL, and sends no registration request |
| Register.RegisterNonceAccepted | src/com/jogeeks/wordpress/Wordpress.java:795-811 | an accepted nonce is stored and sent with username, display name, email and password in that order; without a `nonce` key, REGISTRATION_FAILED is reported and the request still goes out with no parameters |
| Register.IntendedOnNonce | src/com/jogeeks/wordpress/Wordpress.java:806-811 | with the decode error made terminal, a missing nonce ends the attempt with exactly the REGISTRATION_FAILED report; every other nonce response is handled as written |
| Register.RegisterAnswered | src/com/jogeeks/wordpress/Wordpress.java:815-824 | after a proper request, the answer ends the attempt with one callback: a success for result 0, otherwise a failure carrying the result |
| Register.DecodeErrorThenSuccess | src/com/jogeeks/wordpress/Wordpress.java:806-824 | a nonce response without `nonce`, followed by a successful registration answer, reports both a failure and a success for one attempt |
| Register.IntendedDecodeErrorEnds | src/com/jogeeks/wordpress/Wordpress.java:806-811 | with the intended handler, the decode error ends the attempt: one failure, no success, no request, and later events change nothing |
| Register.RegisterTransportFailure | src/com/jogeeks/wordpress/Wordpress.java:827-832 | a transport failure while either request is outstanding ends the attempt with one connection failure, adds no success, failure or request, and leaves the earlier trace as it was; the nonce request's failure handler at lines 842-845 behaves the same |
| Register.RegisterMissingStatusIsSilent | src/com/jogeeks/wordpress/Wordpress.java:859 | a nonce response without `status` crashes the handler after the opening, with no callback |
| ResponseMeta.ParseResponseMeta | src/com/jogeeks/wordpress/Wordpress.java:923-944 | the metadata fails exactly when `count` or `pages` cannot be read by `getInt`, naming `count` first; otherwise it has exactly the keys count, count_total and pages |
| ResponseMeta.MetaRoundTrip | src/com/jogeeks/wordpress/Wordpress.java:936-941 | each metadata string parses back to its source number: `count` and `pages` as the response holds them, and `count_total` as held or 0 when unreadable |
| ResponseMeta.MissingCountTotalIsZero | src/com/jogeeks/wordpress/Wordpress.java:928-935 | a response with readable `count` and `pages` but no `count_total` yields metadata whose count_total is "0" |
| ResponseMeta.MetaReadsOnlyItsKeys | src/com/jogeeks/wordpress/Wordpress.java:925-936 | keys other than the three are never read: changing them leaves the result unchanged |
| CreatePost.JoinSlugs | src/com/jogeeks/wordpress/Wordpress.java:469-487 | the slug loop, as written, produces the slugs joined by ", ", with no separator after the last one and the empty string for no terms |
| CreatePost.SplitJoined | src/com/jogeeks/wordpress/Wordpress.java:469-478 | cutting the joined slugs at every ", " gives back the slugs, when there is at least one slug and none contains a comma |
| CreatePost.JoinedLength | src/com/jogeeks/wordpress/Wordpress.java:480-487 | the joined string's length is the sum of the slug lengths plus two for each of the n - 1 separators |
| CreatePost.AttachmentGuard | src/com/jogeeks/wordpress/Wordpress.java:500 | the guard throws exactly for a null attachment and is true for every other one, the empty path included |
| CreatePost.GuardAgreesOnlyOnNonEmpty | src/com/jogeeks/wordpress/Wordpress.java:500 | the written guard agrees with the intended non-null, non-empty test exactly on non-empty paths; for "" it lets the attachment attempt go ahead, where the intended test does not |
| CreatePost.CreatePostRequest | src/com/jogeeks/wordpress/Wordpress.java:490-507 | the request fails exactly for a null attachment; otherwise it has seven parameters, starting with nonce and cookie and ending with the joined categories and tags, and it tries to attach the given path |
| CreatePost.IntendedCreatePostRequest | src/com/jogeeks/wordpress/Wordpress.java:490-507 | the request with the intended guard has the same parameters, never throws, and tries to attach a path exactly when it is non-null and non-empty |
| CreatePost.RequestAgreesOnlyOnNonEmpty | src/com/jogeeks/wordpress/Wordpress.java:500 | the written request equals the intended one exactly for non-null, non-empty paths; with the path "" the written request tries to attach it and the intended one does not try |

## Left out

- The HTTP transport, AsyncHttpClient and its callback threads are left out. A response or a transport failure becomes an event, and the order of events is left to the caller.
- Request cancellation and the client teardown are left out, because they are calls into the HTTP library.
- The request URLs, built from the Android `Context`, string resources and `BASE_URL`, are left out. Requests are identified by their kind and parameters.
- Logging, `printStackTrace` and the `Bundle` that carries the registration fields are left out. The fields arrive as an `Applicant`.
- WPSession persistence is not part of this model. `setNonce` is modelled as the stored nonce. `setSession` is modelled only as a flag, because its parsing of the cookie response lives in WPSession.
- The outer response handler, the dispatcher, and the listener setters and slots are left out.
- The query-URL builders, `getPosts` and its variants, the custom-field builders, `updatePost` and the generic API request are left out. They are outside the handshake and response logic modelled here.
- Login.FallFrom and Login.Rejection: the source passes one shared session object to every `OnLoginFailure` call (lines 635, 688, 692, 696), so a listener that keeps the object sees status 3 on all of them. The model records a copy of the session at each call, which is what a listener that reads the status during the callback sees; the sharing is not modelled.
- The empty listener stubs of `Wordpress` itself (lines 879-921) do nothing and are left out.
- Opening the attachment file and the swallowed FileNotFoundException (lines 501-506) are left out. The model records only the path it tries to attach.
- How org.json's `getInt` coerces strings and doubles is left out. Each value carries what `getInt` returns, or `None` when it throws.
- JavaInt.ParseInt: recognises ASCII digits only, not other Unicode decimal digits. It accepts a leading '+' as Java 7 and later do; earlier Android runtimes reject it.
- Null strings are left out: every credential, applicant field, nonce, cookie, post field and slug is a string in the model. `RequestParams.add` drops a parameter whose value is null.
- CreatePost.CreatePostRequest: its seven parameters are not promised by the source for a post with a null title, content or status, or for a null cookie, because `RequestParams.add` drops those; null values are not modelled.
- CreatePost.JoinSlugs: Java string concatenation appends a null slug as the text "null" (lines 472, 475, 482, 484), and a null category or tag list throws; neither is modelled.
- Login.AcceptedNonce and Register.RegisterNonceAccepted: the request carries fewer parameters in the source when a credential or applicant field is null, which the model does not represent.
- Only the `onFailure(Throwable, JSONObject)` overload is overridden (lines 701-706, 714-717, 827-832, 842-845), and `TransportFailure` stands for a failure delivered to that overload. A failure the HTTP library reports through another overload, or a success whose body is not a JSON object, reaches no overridden handler, so the listener hears nothing. The model has no event for those, and an attempt that receives one stays waiting.
- The unused private string constant `BAD_NONCE` of `WPLogin` (line 609) is left out. Nothing reads it.
- A JSON value of null under `status` is left out. Its string form "null" is an ordinary rejection here.

## Findings

| source | as written | input that shows it | evidently intended | confidence | as-written member | corrected member |
|---|---|---|---|---|---|---|
| src/com/jogeeks/wordpress/Wordpress.java:684-697 | the rejection `switch` has no `break`, so code 1 reports three failures (statuses 1, 2, 3), code 2 reports two, and any other code, including LOGIN_FAILED from a missing `code`, reports nothing | a cookie response `{"status":"error","code":1}` after an accepted nonce | one failure carrying the server's code, and a failure for unknown codes too | not executed | Login.RejectionMatchesIntendedOnlyForThree | Login.IntendedRejection |
| src/com/jogeeks/wordpress/Wordpress.java:806-811 | when the accepted nonce response has no `nonce`, the catch block reports REGISTRATION_FAILED and the registration request is still sent, with no parameters; its answer is reported as a second callback | `{"status":"ok"}` for the nonce, then `{"code":0}` for the registration | the decode error ends the attempt with one failure and no request | not executed | Register.DecodeErrorThenSuccess | Register.IntendedDecodeErrorEnds |
| src/com/jogeeks/wordpress/Wordpress.java:500 | `!attachment.equals(null)` is true for every string, so the guard lets the empty path through to the attachment attempt and throws a NullPointerException for a null one; for "" the attempt's FileNotFoundException is swallowed at line 505, so the only observable differences are the exception for null and a pointless file attempt for "" | attachment null, or "" | try to attach only a non-null, non-empty path, and send the post without a file otherwise | not executed | CreatePost.RequestAgreesOnlyOnNonEmpty | CreatePost.IntendedCreatePostRequest |
| src/com/jogeeks/wordpress/Wordpress.java:721-735 | a response without `status` leaves the local `null`, and `status.equals("ok")` throws instead of answering false | the response `{}` | a missing `status` reads as "not ok" | not executed | Classify.EmptyResponseThrows | Classify.ClassifyAgreesWhereStatusPresent |
