/** The login handshake of `WPLogin`, as an event-driven state machine.

    The constructor signals the start and asks for a nonce. The nonce
    response, when accepted, is turned into a cookie request carrying the
    nonce and the credentials; the cookie response ends the handshake in a
    success or in the rejection `switch`. A transport failure at either
    request goes to the connection-failure listener. Each transition returns
    the new flow, whose trace is the old trace followed by what the
    transition emitted. */
module Login {
  import opened Wrappers
  import opened Wire
  import opened Classify
  import opened Counting
  import Codes

  /** The `WPSession` of one attempt: the stored nonce, the stamped status
      (`None` until a branch calls `setStatus`), and whether `setSession`
      has been called with the cookie response. */
  datatype Session = Session(nonce: Option<string>, status: Option<int>, cookieSet: bool)

  const Unstamped := Session(None, None, false)

  datatype State = Idle | NonceRequested | CookieRequested | Done | Crashed

  /** What the event loop can deliver to the attempt. */
  datatype Event =
    | Start
    | NonceResponse(response: Response)
    | CookieResponse(response: Response)
    | TransportFailure

  /** What the attempt does that the outside world sees: listener callbacks
      (with the session as it is at the moment of the call) and requests. */
  datatype Effect =
    | OnLoginStart
    | NonceRequest
    | CookieRequest(params: seq<Param>)
    | OnLoginSuccess(session: Session)
    | OnLoginFailure(session: Session)
    | OnConnectionFailed

  datatype Flow = Flow(state: State, session: Session, trace: seq<Effect>, username: string, password: string)

  /** A `WPLogin` that has not yet run its constructor body. */
  function Fresh(username: string, password: string): (f: Flow) {
    Flow(Idle, Unstamped, [], username, password)
  }

  predicate IsSuccess(e: Effect) { e.OnLoginSuccess? }
  predicate IsFailure(e: Effect) { e.OnLoginFailure? }
  predicate IsConnectionFailure(e: Effect) { e.OnConnectionFailed? }
  predicate IsCookieRequest(e: Effect) { e.CookieRequest? }

  /** The parameters of the cookie request. They are added only after
      `getString("nonce")` returned, so a missing nonce leaves them empty. */
  function CookieParams(nonce: Option<string>, username: string, password: string): (params: seq<Param>) {
    match nonce
    case None => []
    case Some(n) => [Param("nonce", n), Param("username", username), Param("password", password)]
  }

  /** The status each `case` label of the rejection `switch` stamps. */
  function CaseStatus(entry: int): (status: int)
    requires 1 <= entry <= 3
  {
    if entry == 1 then Codes.LOGIN_USER_NAME_ERROR
    else if entry == 2 then Codes.LOGIN_PASSWORD_ERROR
    else Codes.LOGIN_CHECK_PASSWORD_AND_OR_USERNAME
  }

  /** The `switch` body run from `case entry` to its end: no case has a
      `break`, so every later case stamps and reports too. Entry 4 stands
      for the end of the body. */
  function FallFrom(entry: int, s: Session): (res: (Session, seq<Effect>))
    requires 1 <= entry <= 4
    ensures |res.1| == 4 - entry
    ensures forall i :: 0 <= i < |res.1| ==> res.1[i] == OnLoginFailure(s.(status := Some(entry + i)))
    ensures entry <= 3 ==> res.0 == s.(status := Some(Codes.LOGIN_CHECK_PASSWORD_AND_OR_USERNAME))
    ensures entry == 4 ==> res.0 == s
    decreases 4 - entry
  {
    if entry == 4 then (s, [])
    else
      var s' := s.(status := Some(CaseStatus(entry)));
      var rest := FallFrom(entry + 1, s');
      (rest.0, [OnLoginFailure(s')] + rest.1)
  }

  /** The rejection `switch` as written: entered at the matching label, and
      skipped entirely for any other code. */
  function Rejection(code: int, s: Session): (res: (Session, seq<Effect>))
    ensures 1 <= code <= 3 ==> |res.1| == 4 - code
    ensures 1 <= code <= 3 ==> res.0.status == Some(Codes.LOGIN_CHECK_PASSWORD_AND_OR_USERNAME)
    ensures !(1 <= code <= 3) ==> res == (s, [])
    ensures forall i :: 0 <= i < |res.1| ==> res.1[i].OnLoginFailure? && res.1[i].session.status == Some(code + i)
    ensures res.0.nonce == s.nonce && res.0.cookieSet == s.cookieSet
  {
    if 1 <= code <= 3 then FallFrom(code, s) else (s, [])
  }

  /** The rejection with a `break` after each case, and an unknown code
      reported as LOGIN_FAILED instead of dropped. */
  function IntendedRejection(code: int, s: Session): (res: (Session, seq<Effect>))
    ensures |res.1| == 1 && res.1[0] == OnLoginFailure(res.0)
    ensures 1 <= code <= 3 ==> res.0.status == Some(code)
    ensures !(1 <= code <= 3) ==> res.0.status == Some(Codes.LOGIN_FAILED)
    ensures res.0.nonce == s.nonce && res.0.cookieSet == s.cookieSet
  {
    var s' := s.(status := Some(if 1 <= code <= 3 then CaseStatus(code) else Codes.LOGIN_FAILED));
    (s', [OnLoginFailure(s')])
  }

  /** The as-written rejection reports once, as intended, only for code 3:
      codes 1 and 2 report too often and every other code not at all. */
  lemma RejectionMatchesIntendedOnlyForThree(code: int, s: Session)
    ensures Rejection(code, s) == IntendedRejection(code, s) <==> code == 3
    ensures Count(Rejection(code, s).1, IsFailure) == (if 1 <= code <= 3 then 4 - code else 0)
  {
    var fx := Rejection(code, s).1;
    CountAll(fx, IsFailure);
    if code == 3 {
      var s3 := s.(status := Some(CaseStatus(3)));
      assert FallFrom(4, s3) == (s3, []);
      assert [OnLoginFailure(s3)] + [] == [OnLoginFailure(s3)];
      assert Rejection(code, s) == (s3, [OnLoginFailure(s3)]);
    } else {
      assert |fx| != 1;
    }
  }

  /** The nonce response handler of `WPLogin`. */
  function OnNonce(f: Flow, r: Response): (g: Flow) {
    match ClassifyStatus(r)
    case NullStatus => f.(state := Crashed)
    case Rejected =>
      var s := f.session.(status := Some(Codes.BAD_NONCE));
      f.(state := Done, session := s, trace := f.trace + [OnLoginFailure(s)])
    case Accepted =>
      var nonce := if "nonce" in r then Some(r["nonce"].text) else None;
      var s := if nonce.Some? then f.session.(nonce := nonce) else f.session;
      f.(state := CookieRequested, session := s,
         trace := f.trace + [CookieRequest(CookieParams(nonce, f.username, f.password))])
  }

  /** The cookie response handler of `WPLogin`. */
  function OnCookie(f: Flow, r: Response): (g: Flow) {
    match ClassifyStatus(r)
    case NullStatus => f.(state := Crashed)
    case Accepted =>
      var s := f.session.(cookieSet := true, status := Some(Codes.LOGIN_SUCCESS));
      f.(state := Done, session := s, trace := f.trace + [OnLoginSuccess(s)])
    case Rejected =>
      var res := Rejection(LoginCode(r), f.session);
      f.(state := Done, session := res.0, trace := f.trace + res.1)
  }

  /** One delivered event. An event that no outstanding request is waiting
      for changes nothing; so does every event after the attempt ended. */
  function Step(f: Flow, e: Event): (g: Flow)
    ensures g.username == f.username && g.password == f.password
    ensures |f.trace| <= |g.trace| && g.trace[..|f.trace|] == f.trace
    ensures f.state == Done || f.state == Crashed ==> g == f
  {
    match (f.state, e)
    case (Idle, Start) => f.(state := NonceRequested, trace := f.trace + [OnLoginStart, NonceRequest])
    case (NonceRequested, NonceResponse(r)) => OnNonce(f, r)
    case (NonceRequested, TransportFailure) => f.(state := Done, trace := f.trace + [OnConnectionFailed])
    case (CookieRequested, CookieResponse(r)) => OnCookie(f, r)
    case (CookieRequested, TransportFailure) => f.(state := Done, trace := f.trace + [OnConnectionFailed])
    case _ => f
  }

  function Run(f: Flow, es: seq<Event>): (g: Flow)
    decreases |es|
  {
    if |es| == 0 then f else Run(Step(f, es[0]), es[1..])
  }

  /** Once the attempt has ended (reported, or thrown out of a handler),
      no later event changes anything. */
  lemma {:induction false} EndedAbsorbs(f: Flow, es: seq<Event>)
    requires f.state == Done || f.state == Crashed
    ensures Run(f, es) == f
    decreases |es|
  {
    if |es| > 0 {
      EndedAbsorbs(Step(f, es[0]), es[1..]);
    }
  }

  /** Splitting off the first two events of a run. */
  lemma RunPrefix2(f: Flow, a: Event, b: Event, es: seq<Event>)
    ensures Run(f, [a, b] + es) == Run(Step(Step(f, a), b), es)
  {
    assert ([a, b] + es)[0] == a && ([a, b] + es)[1..] == [b] + es;
    assert ([b] + es)[0] == b && ([b] + es)[1..] == es;
  }

  /** Splitting off the first three events of a run. */
  lemma RunPrefix3(f: Flow, a: Event, b: Event, c: Event, es: seq<Event>)
    ensures Run(f, [a, b, c] + es) == Run(Step(Step(Step(f, a), b), c), es)
  {
    assert ([a, b, c] + es)[0] == a && ([a, b, c] + es)[1..] == [b, c] + es;
    assert Run(f, [a, b, c] + es) == Run(Step(f, a), [b, c] + es);
    assert ([b, c] + es)[0] == b && ([b, c] + es)[1..] == [c] + es;
    assert Run(Step(f, a), [b, c] + es) == Run(Step(Step(f, a), b), [c] + es);
    assert ([c] + es)[0] == c && ([c] + es)[1..] == es;
  }

  /** The effects every started attempt begins with. */
  const Opening: seq<Effect> := [OnLoginStart, NonceRequest]

  /** Only requests and the start signal precede what the server answers,
      so the opening contains no outcome and no cookie request. */
  lemma CountOpening(rest: seq<Effect>)
    ensures Count(Opening + rest, IsSuccess) == Count(rest, IsSuccess)
    ensures Count(Opening + rest, IsFailure) == Count(rest, IsFailure)
    ensures Count(Opening + rest, IsConnectionFailure) == Count(rest, IsConnectionFailure)
    ensures Count(Opening + rest, IsCookieRequest) == Count(rest, IsCookieRequest)
  {
    CountNone(Opening, IsSuccess);
    CountNone(Opening, IsFailure);
    CountNone(Opening, IsConnectionFailure);
    CountNone(Opening, IsCookieRequest);
    CountAppend(Opening, rest, IsSuccess);
    CountAppend(Opening, rest, IsFailure);
    CountAppend(Opening, rest, IsConnectionFailure);
    CountAppend(Opening, rest, IsCookieRequest);
  }

  // ---------------------------------------------------------------------
  // The traces a login attempt can produce.

  /** What the rejection `switch` can report: a run of failures ending with
      LOGIN_CHECK_PASSWORD_AND_OR_USERNAME, with consecutive statuses. */
  ghost predicate FailureRun(t: seq<Effect>) {
    && 1 <= |t| <= 3
    && forall i :: 0 <= i < |t| ==> t[i].OnLoginFailure? && t[i].session.status == Some(4 - |t| + i)
  }

  /** What can follow the cookie request. */
  ghost predicate AfterCookie(t: seq<Effect>) {
    || t == []
    || t == [OnConnectionFailed]
    || (|t| == 1 && t[0].OnLoginSuccess? && t[0].session.status == Some(Codes.LOGIN_SUCCESS))
    || FailureRun(t)
  }

  /** What can follow the nonce request. */
  ghost predicate AfterNonce(t: seq<Effect>) {
    || t == []
    || t == [OnConnectionFailed]
    || (|t| == 1 && t[0].OnLoginFailure? && t[0].session.status == Some(Codes.BAD_NONCE))
    || (|t| >= 1 && t[0].CookieRequest? && AfterCookie(t[1..]))
  }

  /** The flows reachable from `Fresh`, described by their state. */
  ghost predicate Reachable(f: Flow) {
    match f.state
    case Idle => f.trace == [] && f.session == Unstamped
    case NonceRequested => f.trace == [OnLoginStart, NonceRequest] && f.session == Unstamped
    case CookieRequested =>
      && f.trace == [OnLoginStart, NonceRequest, CookieRequest(CookieParams(f.session.nonce, f.username, f.password))]
      && f.session.status.None? && !f.session.cookieSet
    case _ => |f.trace| >= 2 && f.trace[..2] == [OnLoginStart, NonceRequest] && AfterNonce(f.trace[2..])
  }

  lemma StepReachable(f: Flow, e: Event)
    requires Reachable(f)
    ensures Reachable(Step(f, e))
  {
    var g := Step(f, e);
    match (f.state, e)
    case (Idle, Start) =>
    case (NonceRequested, NonceResponse(r)) =>
      if ClassifyStatus(r) == Accepted {
        assert g.trace[2..] == [g.trace[2]];
        assert g.trace[2..][1..] == [];
      } else if ClassifyStatus(r) == Rejected {
        assert g.trace[2..] == [g.trace[2]];
      } else {
        assert g.trace[2..] == [];
      }
    case (NonceRequested, TransportFailure) =>
      assert g.trace[2..] == [OnConnectionFailed];
    case (CookieRequested, CookieResponse(r)) =>
      var tail := g.trace[2..];
      assert tail[0] == f.trace[2];
      if ClassifyStatus(r) == Accepted {
        assert tail[1..] == [g.trace[3]];
      } else if ClassifyStatus(r) == Rejected {
        var res := Rejection(LoginCode(r), f.session);
        assert tail[1..] == res.1;
      } else {
        assert tail[1..] == [];
      }
    case (CookieRequested, TransportFailure) =>
      assert g.trace[2..][1..] == [OnConnectionFailed];
    case _ =>
  }

  lemma {:induction false} RunReachable(f: Flow, es: seq<Event>)
    requires Reachable(f)
    ensures Reachable(Run(f, es))
    decreases |es|
  {
    if |es| > 0 {
      StepReachable(f, es[0]);
      RunReachable(Step(f, es[0]), es[1..]);
    }
  }

  lemma AfterCookieCounts(t: seq<Effect>)
    requires AfterCookie(t)
    ensures Count(t, IsCookieRequest) == 0
    ensures Count(t, IsSuccess) <= 1 && Count(t, IsConnectionFailure) <= 1 && Count(t, IsFailure) <= 3
    ensures Count(t, IsSuccess) == 1 ==> Count(t, IsFailure) == 0 && Count(t, IsConnectionFailure) == 0
    ensures Count(t, IsConnectionFailure) == 1 ==> Count(t, IsFailure) == 0 && Count(t, IsSuccess) == 0
  {
    if FailureRun(t) {
      CountAll(t, IsFailure);
      CountNone(t, IsSuccess);
      CountNone(t, IsConnectionFailure);
      CountNone(t, IsCookieRequest);
    } else if t != [] {
      CountSingle(t[0], IsFailure);
      CountSingle(t[0], IsSuccess);
      CountSingle(t[0], IsConnectionFailure);
      CountSingle(t[0], IsCookieRequest);
    }
  }

  lemma AfterNonceCounts(t: seq<Effect>)
    requires AfterNonce(t)
    ensures Count(t, IsCookieRequest) <= 1
    ensures Count(t, IsSuccess) <= 1 && Count(t, IsConnectionFailure) <= 1 && Count(t, IsFailure) <= 3
    ensures Count(t, IsSuccess) == 1 ==> Count(t, IsFailure) == 0 && Count(t, IsConnectionFailure) == 0
    ensures Count(t, IsConnectionFailure) == 1 ==> Count(t, IsFailure) == 0 && Count(t, IsSuccess) == 0
  {
    if |t| >= 1 && t[0].CookieRequest? && AfterCookie(t[1..]) {
      assert t == [t[0]] + t[1..];
      CountAppend([t[0]], t[1..], IsCookieRequest);
      CountAppend([t[0]], t[1..], IsSuccess);
      CountAppend([t[0]], t[1..], IsFailure);
      CountAppend([t[0]], t[1..], IsConnectionFailure);
      CountSingle(t[0], IsCookieRequest);
      CountSingle(t[0], IsSuccess);
      CountSingle(t[0], IsFailure);
      CountSingle(t[0], IsConnectionFailure);
      AfterCookieCounts(t[1..]);
    } else if t != [] {
      CountSingle(t[0], IsFailure);
      CountSingle(t[0], IsSuccess);
      CountSingle(t[0], IsConnectionFailure);
      CountSingle(t[0], IsCookieRequest);
    }
  }

  /** Every reachable trace is empty or the opening followed by what the
      nonce answer allows. */
  lemma ReachableShape(f: Flow)
    requires Reachable(f)
    ensures f.trace == [] || (|f.trace| >= 2 && f.trace == Opening + f.trace[2..] && AfterNonce(f.trace[2..]))
  {
    if f.state == CookieRequested {
      assert f.trace[2..] == [f.trace[2]];
      assert f.trace[2..][1..] == [];
    } else if f.state == NonceRequested {
      assert f.trace[2..] == [];
    }
    if f.trace != [] {
      assert f.trace == f.trace[..2] + f.trace[2..];
    }
  }

  /** Exactly-once and ordering guarantees of every login attempt, whatever
      the server answers and whatever the event loop delivers: the start is
      signalled before the nonce request; at most one cookie request, one
      success and one connection failure are emitted; a success or a
      connection failure is the only outcome of its attempt; and at most
      three failures are reported. */
  lemma LoginGuarantees(username: string, password: string, es: seq<Event>)
    ensures var t := Run(Fresh(username, password), es).trace;
      && (|t| > 0 ==> |t| >= 2 && t[0] == OnLoginStart && t[1] == NonceRequest)
      && Count(t, IsCookieRequest) <= 1
      && Count(t, IsSuccess) <= 1
      && Count(t, IsConnectionFailure) <= 1
      && Count(t, IsFailure) <= 3
      && (Count(t, IsSuccess) == 1 ==> Count(t, IsFailure) == 0 && Count(t, IsConnectionFailure) == 0)
      && (Count(t, IsConnectionFailure) == 1 ==> Count(t, IsFailure) == 0 && Count(t, IsSuccess) == 0)
  {
    var g := Run(Fresh(username, password), es);
    RunReachable(Fresh(username, password), es);
    ReachableShape(g);
    if g.trace != [] {
      CountOpening(g.trace[2..]);
      AfterNonceCounts(g.trace[2..]);
    }
  }

  // ---------------------------------------------------------------------
  // Outcomes of particular server answers, with any events after them.

  lemma StartStep(username: string, password: string)
    ensures Step(Fresh(username, password), Start) == Flow(NonceRequested, Unstamped, Opening, username, password)
  {
  }

  lemma CountsOfOneReport(e: Effect)
    requires e.OnLoginFailure? || e.OnConnectionFailed?
    ensures Count(Opening + [e], IsFailure) == (if e.OnLoginFailure? then 1 else 0)
    ensures Count(Opening + [e], IsConnectionFailure) == (if e.OnConnectionFailed? then 1 else 0)
    ensures Count(Opening + [e], IsSuccess) == 0
    ensures Count(Opening + [e], IsCookieRequest) == 0
  {
    CountOpening([e]);
    CountSingle(e, IsFailure);
    CountSingle(e, IsConnectionFailure);
    CountSingle(e, IsSuccess);
    CountSingle(e, IsCookieRequest);
  }

  /** A rejected nonce stamps BAD_NONCE, reports exactly one failure and
      never asks for a cookie. */
  lemma BadNonce(username: string, password: string, r: Response, es: seq<Event>)
    requires ClassifyStatus(r) == Rejected
    ensures var g := Run(Fresh(username, password), [Start, NonceResponse(r)] + es);
      && g.state == Done
      && g.session.status == Some(Codes.BAD_NONCE)
      && g.trace == [OnLoginStart, NonceRequest, OnLoginFailure(g.session)]
      && Count(g.trace, IsFailure) == 1
      && Count(g.trace, IsCookieRequest) == 0
  {
    var f := Fresh(username, password);
    RunPrefix2(f, Start, NonceResponse(r), es);
    StartStep(username, password);
    var g := OnNonce(Flow(NonceRequested, Unstamped, Opening, username, password), r);
    EndedAbsorbs(g, es);
    var s := Unstamped.(status := Some(Codes.BAD_NONCE));
    assert g.trace == Opening + [OnLoginFailure(s)];
    CountsOfOneReport(OnLoginFailure(s));
  }

  /** An accepted nonce is stored in the session, and the cookie request
      that follows carries it together with the credentials. Without a
      `nonce` key the request still goes out, with no parameters. */
  lemma AcceptedNonce(username: string, password: string, r: Response)
    requires ClassifyStatus(r) == Accepted
    ensures var g := Run(Fresh(username, password), [Start, NonceResponse(r)]);
      && g.state == CookieRequested
      && ("nonce" in r ==>
            && g.session.nonce == Some(r["nonce"].text)
            && g.trace == [OnLoginStart, NonceRequest,
                           CookieRequest([Param("nonce", r["nonce"].text), Param("username", username), Param("password", password)])])
      && ("nonce" !in r ==> g.session == Unstamped && g.trace == [OnLoginStart, NonceRequest, CookieRequest([])])
  {
    var f := Fresh(username, password);
    RunPrefix2(f, Start, NonceResponse(r), []);
    assert [Start, NonceResponse(r)] + [] == [Start, NonceResponse(r)];
  }

  /** The first two steps of an attempt whose nonce was accepted: the
      opening followed by the cookie request. */
  lemma AfterAcceptedNonce(username: string, password: string, r: Response)
    requires ClassifyStatus(r) == Accepted
    ensures var f2 := Step(Step(Fresh(username, password), Start), NonceResponse(r));
      && f2.state == CookieRequested
      && f2.session.status == None
      && |f2.trace| == 3 && f2.trace == Opening + [f2.trace[2]] && f2.trace[2].CookieRequest?
  {
  }

  /** Counting over the opening, the cookie request, and what follows. */
  lemma CountAfterRequest(req: Effect, rest: seq<Effect>)
    requires req.CookieRequest?
    ensures Count(Opening + [req] + rest, IsSuccess) == Count(rest, IsSuccess)
    ensures Count(Opening + [req] + rest, IsFailure) == Count(rest, IsFailure)
    ensures Count(Opening + [req] + rest, IsConnectionFailure) == Count(rest, IsConnectionFailure)
    ensures Count(Opening + [req] + rest, IsCookieRequest) == 1 + Count(rest, IsCookieRequest)
  {
    assert Opening + [req] + rest == Opening + ([req] + rest);
    CountOpening([req] + rest);
    CountSingle(req, IsSuccess);
    CountSingle(req, IsFailure);
    CountSingle(req, IsConnectionFailure);
    CountSingle(req, IsCookieRequest);
    CountAppend([req], rest, IsSuccess);
    CountAppend([req], rest, IsFailure);
    CountAppend([req], rest, IsConnectionFailure);
    CountAppend([req], rest, IsCookieRequest);
  }

  /** The counts of a trace that ends with one answer to the cookie request. */
  lemma CountsAfterRequestOf(req: Effect, e: Effect)
    requires req.CookieRequest?
    ensures Count(Opening + [req] + [e], IsSuccess) == (if e.OnLoginSuccess? then 1 else 0)
    ensures Count(Opening + [req] + [e], IsFailure) == (if e.OnLoginFailure? then 1 else 0)
    ensures Count(Opening + [req] + [e], IsConnectionFailure) == (if e.OnConnectionFailed? then 1 else 0)
    ensures Count(Opening + [req] + [e], IsCookieRequest) == (if e.CookieRequest? then 2 else 1)
  {
    CountAfterRequest(req, [e]);
    CountSingle(e, IsSuccess);
    CountSingle(e, IsFailure);
    CountSingle(e, IsConnectionFailure);
    CountSingle(e, IsCookieRequest);
  }

  /** An accepted cookie stamps LOGIN_SUCCESS and reports exactly one
      success and no failure. */
  lemma CookieAccepted(username: string, password: string, r1: Response, r2: Response, es: seq<Event>)
    requires ClassifyStatus(r1) == Accepted && ClassifyStatus(r2) == Accepted
    ensures var g := Run(Fresh(username, password), [Start, NonceResponse(r1), CookieResponse(r2)] + es);
      && g.state == Done
      && g.session.status == Some(Codes.LOGIN_SUCCESS) && g.session.cookieSet
      && |g.trace| == 4 && g.trace[3] == OnLoginSuccess(g.session)
      && Count(g.trace, IsSuccess) == 1
      && Count(g.trace, IsFailure) == 0
      && Count(g.trace, IsConnectionFailure) == 0
  {
    var f := Fresh(username, password);
    RunPrefix3(f, Start, NonceResponse(r1), CookieResponse(r2), es);
    AfterAcceptedNonce(username, password, r1);
    var f2 := Step(Step(f, Start), NonceResponse(r1));
    var g := Step(f2, CookieResponse(r2));
    EndedAbsorbs(g, es);
    assert g.trace == Opening + [f2.trace[2]] + [OnLoginSuccess(g.session)];
    CountsAfterRequestOf(f2.trace[2], OnLoginSuccess(g.session));
  }

  /** A rejected cookie: the `code` read with LOGIN_FAILED as default
      decides everything. Codes 1, 2 and 3 fall through the `switch`,
      reporting 4 - code failures and leaving
      LOGIN_CHECK_PASSWORD_AND_OR_USERNAME stamped; any other code reports
      nothing at all and leaves the status unstamped. */
  lemma CookieRejected(username: string, password: string, r1: Response, r2: Response, es: seq<Event>)
    requires ClassifyStatus(r1) == Accepted && ClassifyStatus(r2) == Rejected
    ensures var g := Run(Fresh(username, password), [Start, NonceResponse(r1), CookieResponse(r2)] + es);
      var code := LoginCode(r2);
      && g.state == Done
      && Count(g.trace, IsSuccess) == 0
      && Count(g.trace, IsConnectionFailure) == 0
      && (1 <= code <= 3 ==>
            Count(g.trace, IsFailure) == 4 - code
            && g.session.status == Some(Codes.LOGIN_CHECK_PASSWORD_AND_OR_USERNAME))
      && (!(1 <= code <= 3) ==> Count(g.trace, IsFailure) == 0 && g.session.status == None)
  {
    var f := Fresh(username, password);
    RunPrefix3(f, Start, NonceResponse(r1), CookieResponse(r2), es);
    AfterAcceptedNonce(username, password, r1);
    var f2 := Step(Step(f, Start), NonceResponse(r1));
    var g := Step(f2, CookieResponse(r2));
    EndedAbsorbs(g, es);
    var res := Rejection(LoginCode(r2), f2.session);
    assert g.trace == Opening + [f2.trace[2]] + res.1;
    CountAfterRequest(f2.trace[2], res.1);
    CountAll(res.1, IsFailure);
    CountNone(res.1, IsSuccess);
    CountNone(res.1, IsConnectionFailure);
  }

  /** A transport failure of the nonce request reports only the connection
      failure and issues nothing further. */
  lemma TransportFailureAtNonce(username: string, password: string, es: seq<Event>)
    ensures var g := Run(Fresh(username, password), [Start, TransportFailure] + es);
      && g.state == Done
      && g.trace == [OnLoginStart, NonceRequest, OnConnectionFailed]
      && g.session == Unstamped
  {
    var f := Fresh(username, password);
    RunPrefix2(f, Start, TransportFailure, es);
    EndedAbsorbs(Step(Step(f, Start), TransportFailure), es);
  }

  /** A transport failure of the cookie request reports only the connection
      failure: no success, no failure, and no second cookie request. */
  lemma TransportFailureAtCookie(username: string, password: string, r: Response, es: seq<Event>)
    requires ClassifyStatus(r) == Accepted
    ensures var g := Run(Fresh(username, password), [Start, NonceResponse(r), TransportFailure] + es);
      && g.state == Done
      && |g.trace| == 4 && g.trace[3] == OnConnectionFailed
      && Count(g.trace, IsConnectionFailure) == 1
      && Count(g.trace, IsCookieRequest) == 1
      && Count(g.trace, IsSuccess) == 0
      && Count(g.trace, IsFailure) == 0
  {
    var f := Fresh(username, password);
    RunPrefix3(f, Start, NonceResponse(r), TransportFailure, es);
    AfterAcceptedNonce(username, password, r);
    var f2 := Step(Step(f, Start), NonceResponse(r));
    var g := Step(f2, TransportFailure);
    EndedAbsorbs(g, es);
    assert g.trace == Opening + [f2.trace[2]] + [OnConnectionFailed];
    CountsAfterRequestOf(f2.trace[2], OnConnectionFailed);
  }

  /** A response without `status` throws out of the handler: the attempt
      ends without any terminal callback, at either step. */
  lemma MissingStatusIsSilent(username: string, password: string, r1: Response, r2: Response, es: seq<Event>)
    requires ClassifyStatus(r1) == NullStatus || (ClassifyStatus(r1) == Accepted && ClassifyStatus(r2) == NullStatus)
    ensures var g := Run(Fresh(username, password), [Start, NonceResponse(r1), CookieResponse(r2)] + es);
      && g.state == Crashed
      && Count(g.trace, IsSuccess) == 0
      && Count(g.trace, IsFailure) == 0
      && Count(g.trace, IsConnectionFailure) == 0
  {
    var f := Fresh(username, password);
    RunPrefix3(f, Start, NonceResponse(r1), CookieResponse(r2), es);
    var f2 := Step(Step(f, Start), NonceResponse(r1));
    var g := Step(f2, CookieResponse(r2));
    EndedAbsorbs(g, es);
    if ClassifyStatus(r1) == Accepted {
      AfterAcceptedNonce(username, password, r1);
      assert g.trace == Opening + [f2.trace[2]] + [];
      CountAfterRequest(f2.trace[2], []);
    } else {
      assert g.trace == Opening + [];
      CountOpening([]);
    }
  }
}
