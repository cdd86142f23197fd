/** The registration handshake of `WPRegister`, as an event-driven state
    machine parallel to the login one.

    `register()` signals the start and asks for a nonce. An accepted nonce
    is stored and the registration fields are sent with it; the answer to
    that request is reduced to one integer by `registrationStatus` and
    reported as a success (0) or a failure (anything else). A transport
    failure at either request goes to the connection-failure listener. */
module Register {
  import opened Wrappers
  import opened Wire
  import opened Classify
  import opened Counting
  import Codes

  /** The four strings read from the registration bundle. */
  datatype Applicant = Applicant(username: string, displayName: string, email: string, password: string)

  datatype State = Idle | NonceRequested | RegisterRequested | Done | Crashed

  datatype Event =
    | Start
    | NonceResponse(response: Response)
    | RegisterResponse(response: Response)
    | TransportFailure

  datatype Effect =
    | OnRegisterStart
    | NonceRequest
    | RegisterRequest(params: seq<Param>)
    | OnRegisterSuccess(code: int)
    | OnRegisterFailure(code: int)
    | OnConnectionFailed

  /** `storedNonce` is what was handed to `WPSession.setNonce`. */
  datatype Flow = Flow(state: State, storedNonce: Option<string>, trace: seq<Effect>, applicant: Applicant)

  function Fresh(a: Applicant): (f: Flow) {
    Flow(Idle, None, [], a)
  }

  predicate IsSuccess(e: Effect) { e.OnRegisterSuccess? }
  predicate IsFailure(e: Effect) { e.OnRegisterFailure? }
  predicate IsConnectionFailure(e: Effect) { e.OnConnectionFailed? }
  predicate IsRegisterRequest(e: Effect) { e.RegisterRequest? }

  /** The parameters of the registration request, in the order added. */
  function RegisterParams(nonce: string, a: Applicant): (params: seq<Param>) {
    [Param("nonce", nonce), Param("username", a.username), Param("display_name", a.displayName),
     Param("email", a.email), Param("password", a.password)]
  }

  /** The nonce response handler of `WPRegister`, as written: when the
      accepted response has no `nonce`, the catch block reports
      REGISTRATION_FAILED and the request is then issued anyway, with no
      parameters. */
  function OnNonce(f: Flow, r: Response): (g: Flow) {
    match ClassifyStatus(r)
    case NullStatus => f.(state := Crashed)
    case Rejected => f.(state := Done, trace := f.trace + [OnRegisterFailure(Codes.BAD_NONCE)])
    case Accepted =>
      if "nonce" in r then
        var n := r["nonce"].text;
        f.(state := RegisterRequested, storedNonce := Some(n),
           trace := f.trace + [RegisterRequest(RegisterParams(n, f.applicant))])
      else
        f.(state := RegisterRequested,
           trace := f.trace + [OnRegisterFailure(Codes.REGISTRATION_FAILED), RegisterRequest([])])
  }

  /** The nonce handler with the decode error treated as the terminal
      failure it reports: no request follows it. */
  function IntendedOnNonce(f: Flow, r: Response): (g: Flow)
    ensures ClassifyStatus(r) == Accepted && "nonce" !in r ==>
      g.state == Done && g.trace == f.trace + [OnRegisterFailure(Codes.REGISTRATION_FAILED)]
    ensures !(ClassifyStatus(r) == Accepted && "nonce" !in r) ==> g == OnNonce(f, r)
  {
    if ClassifyStatus(r) == Accepted && "nonce" !in r then
      f.(state := Done, trace := f.trace + [OnRegisterFailure(Codes.REGISTRATION_FAILED)])
    else OnNonce(f, r)
  }

  /** The registration response handler: `registrationStatus` never throws,
      so this step always ends the attempt with one callback. */
  function OnRegistered(f: Flow, r: Response): (g: Flow) {
    f.(state := Done, trace := f.trace + [Report(RegistrationStatus(r))])
  }

  /** The callback `registrationStatus`'s result selects. */
  function Report(result: int): (e: Effect) {
    if result == Codes.REGISTRATION_SUCCESS then OnRegisterSuccess(result) else OnRegisterFailure(result)
  }

  function Step(f: Flow, e: Event): (g: Flow)
    ensures g.applicant == f.applicant
    ensures |f.trace| <= |g.trace| && g.trace[..|f.trace|] == f.trace
    ensures f.state == Done || f.state == Crashed ==> g == f
  {
    match (f.state, e)
    case (Idle, Start) => f.(state := NonceRequested, trace := f.trace + [OnRegisterStart, NonceRequest])
    case (NonceRequested, NonceResponse(r)) => OnNonce(f, r)
    case (NonceRequested, TransportFailure) => f.(state := Done, trace := f.trace + [OnConnectionFailed])
    case (RegisterRequested, RegisterResponse(r)) => OnRegistered(f, r)
    case (RegisterRequested, TransportFailure) => f.(state := Done, trace := f.trace + [OnConnectionFailed])
    case _ => f
  }

  function Run(f: Flow, es: seq<Event>): (g: Flow)
    decreases |es|
  {
    if |es| == 0 then f else Run(Step(f, es[0]), es[1..])
  }

  lemma {:induction false} EndedAbsorbs(f: Flow, es: seq<Event>)
    requires f.state == Done || f.state == Crashed
    ensures Run(f, es) == f
    decreases |es|
  {
    if |es| > 0 {
      EndedAbsorbs(Step(f, es[0]), es[1..]);
    }
  }

  lemma RunPrefix2(f: Flow, a: Event, b: Event, es: seq<Event>)
    ensures Run(f, [a, b] + es) == Run(Step(Step(f, a), b), es)
  {
    assert ([a, b] + es)[0] == a && ([a, b] + es)[1..] == [b] + es;
    assert ([b] + es)[0] == b && ([b] + es)[1..] == es;
  }

  lemma RunPrefix3(f: Flow, a: Event, b: Event, c: Event, es: seq<Event>)
    ensures Run(f, [a, b, c] + es) == Run(Step(Step(Step(f, a), b), c), es)
  {
    assert ([a, b, c] + es)[0] == a && ([a, b, c] + es)[1..] == [b, c] + es;
    assert Run(f, [a, b, c] + es) == Run(Step(f, a), [b, c] + es);
    assert ([b, c] + es)[0] == b && ([b, c] + es)[1..] == [c] + es;
    assert Run(Step(f, a), [b, c] + es) == Run(Step(Step(f, a), b), [c] + es);
    assert ([c] + es)[0] == c && ([c] + es)[1..] == es;
  }

  const Opening: seq<Effect> := [OnRegisterStart, NonceRequest]

  lemma CountOpening(rest: seq<Effect>)
    ensures Count(Opening + rest, IsSuccess) == Count(rest, IsSuccess)
    ensures Count(Opening + rest, IsFailure) == Count(rest, IsFailure)
    ensures Count(Opening + rest, IsConnectionFailure) == Count(rest, IsConnectionFailure)
    ensures Count(Opening + rest, IsRegisterRequest) == Count(rest, IsRegisterRequest)
  {
    CountNone(Opening, IsSuccess);
    CountNone(Opening, IsFailure);
    CountNone(Opening, IsConnectionFailure);
    CountNone(Opening, IsRegisterRequest);
    CountAppend(Opening, rest, IsSuccess);
    CountAppend(Opening, rest, IsFailure);
    CountAppend(Opening, rest, IsConnectionFailure);
    CountAppend(Opening, rest, IsRegisterRequest);
  }

  // ---------------------------------------------------------------------
  // The traces a registration attempt can produce.

  /** Every code a callback carries agrees with the callback: success is
      only ever reported with 0, failure never with 0. */
  ghost predicate CodesAgree(t: seq<Effect>) {
    forall i :: 0 <= i < |t| ==>
      (t[i].OnRegisterSuccess? ==> t[i].code == Codes.REGISTRATION_SUCCESS) &&
      (t[i].OnRegisterFailure? ==> t[i].code != Codes.REGISTRATION_SUCCESS)
  }

  /** What can follow the registration request: nothing yet, or one answer. */
  ghost predicate AfterRequest(t: seq<Effect>) {
    || t == []
    || t == [OnConnectionFailed]
    || t == [OnRegisterSuccess(Codes.REGISTRATION_SUCCESS)]
    || (|t| == 1 && t[0].OnRegisterFailure? && t[0].code != Codes.REGISTRATION_SUCCESS)
  }

  /** What can follow the nonce request. */
  ghost predicate AfterNonce(t: seq<Effect>) {
    || t == []
    || t == [OnConnectionFailed]
    || t == [OnRegisterFailure(Codes.BAD_NONCE)]
    || (|t| >= 1 && t[0].RegisterRequest? && AfterRequest(t[1..]))
    || (|t| >= 2 && t[0] == OnRegisterFailure(Codes.REGISTRATION_FAILED) && t[1] == RegisterRequest([])
        && AfterRequest(t[2..]))
  }

  /** The flows reachable from `Fresh`, described by their state. */
  ghost predicate Reachable(f: Flow) {
    match f.state
    case Idle => f.trace == []
    case NonceRequested => f.trace == Opening
    case RegisterRequested =>
      && |f.trace| >= 3 && f.trace == Opening + f.trace[2..] && AfterNonce(f.trace[2..])
      && f.trace[|f.trace| - 1].RegisterRequest?
    case _ => |f.trace| >= 2 && f.trace == Opening + f.trace[2..] && AfterNonce(f.trace[2..])
  }

  lemma NonceStepReachable(f: Flow, r: Response)
    requires Reachable(f) && f.state == NonceRequested
    ensures Reachable(OnNonce(f, r))
  {
    var g := OnNonce(f, r);
    var tail := g.trace[2..];
    assert g.trace == Opening + tail;
    if ClassifyStatus(r) == Accepted {
      if "nonce" in r {
        assert tail == [tail[0]] && tail[1..] == [];
      } else {
        assert tail[2..] == [];
      }
    }
  }

  /** The trace of a flow waiting for the registration answer: the opening,
      what the nonce answer added, and the request as the last entry. */
  lemma WaitingShape(f: Flow)
    requires Reachable(f) && f.state == RegisterRequested
    ensures var tail := f.trace[2..];
      || (tail == [tail[0]] && tail[0].RegisterRequest?)
      || tail == [OnRegisterFailure(Codes.REGISTRATION_FAILED), RegisterRequest([])]
  {
  }

  /** Whatever ends the wait for the registration answer adds one entry. */
  lemma AnsweredReachable(f: Flow, last: Effect)
    requires Reachable(f) && f.state == RegisterRequested
    requires last == OnConnectionFailed || last == OnRegisterSuccess(Codes.REGISTRATION_SUCCESS)
             || (last.OnRegisterFailure? && last.code != Codes.REGISTRATION_SUCCESS)
    ensures Reachable(f.(state := Done, trace := f.trace + [last]))
  {
    var g := f.(state := Done, trace := f.trace + [last]);
    var tail := f.trace[2..];
    WaitingShape(f);
    assert g.trace == Opening + (tail + [last]);
    if |tail| == 1 {
      assert (tail + [last])[1..] == [last];
    } else {
      assert (tail + [last])[2..] == [last];
    }
  }

  lemma StepReachable(f: Flow, e: Event)
    requires Reachable(f)
    ensures Reachable(Step(f, e))
  {
    match (f.state, e)
    case (Idle, Start) =>
      assert Step(f, e).trace[2..] == [];
    case (NonceRequested, NonceResponse(r)) =>
      NonceStepReachable(f, r);
    case (NonceRequested, TransportFailure) =>
      assert Step(f, e).trace == Opening + [OnConnectionFailed];
    case (RegisterRequested, RegisterResponse(r)) =>
      AnsweredReachable(f, Report(RegistrationStatus(r)));
    case (RegisterRequested, TransportFailure) =>
      AnsweredReachable(f, OnConnectionFailed);
    case _ =>
  }

  lemma {:induction false} RunReachable(f: Flow, es: seq<Event>)
    requires Reachable(f)
    ensures Reachable(Run(f, es))
    decreases |es|
  {
    if |es| > 0 {
      StepReachable(f, es[0]);
      RunReachable(Step(f, es[0]), es[1..]);
    }
  }

  /** The counts of a one-effect trace. */
  lemma CountOne(e: Effect)
    ensures Count([e], IsSuccess) == (if IsSuccess(e) then 1 else 0)
    ensures Count([e], IsFailure) == (if IsFailure(e) then 1 else 0)
    ensures Count([e], IsConnectionFailure) == (if IsConnectionFailure(e) then 1 else 0)
    ensures Count([e], IsRegisterRequest) == (if IsRegisterRequest(e) then 1 else 0)
  {
    CountSingle(e, IsSuccess);
    CountSingle(e, IsFailure);
    CountSingle(e, IsConnectionFailure);
    CountSingle(e, IsRegisterRequest);
  }

  /** Counting over one leading effect and what follows it. */
  lemma CountCons(e: Effect, rest: seq<Effect>)
    ensures Count([e] + rest, IsSuccess) == Count([e], IsSuccess) + Count(rest, IsSuccess)
    ensures Count([e] + rest, IsFailure) == Count([e], IsFailure) + Count(rest, IsFailure)
    ensures Count([e] + rest, IsConnectionFailure) == Count([e], IsConnectionFailure) + Count(rest, IsConnectionFailure)
    ensures Count([e] + rest, IsRegisterRequest) == Count([e], IsRegisterRequest) + Count(rest, IsRegisterRequest)
  {
    CountAppend([e], rest, IsSuccess);
    CountAppend([e], rest, IsFailure);
    CountAppend([e], rest, IsConnectionFailure);
    CountAppend([e], rest, IsRegisterRequest);
  }

  lemma AfterRequestCounts(t: seq<Effect>)
    requires AfterRequest(t)
    ensures Count(t, IsRegisterRequest) == 0
    ensures Count(t, IsSuccess) + Count(t, IsFailure) + Count(t, IsConnectionFailure) == |t| <= 1
    ensures CodesAgree(t)
  {
    if t != [] {
      CountOne(t[0]);
    }
  }

  lemma AfterNonceCounts(t: seq<Effect>)
    requires AfterNonce(t)
    ensures Count(t, IsRegisterRequest) <= 1
    ensures Count(t, IsSuccess) <= 1 && Count(t, IsConnectionFailure) <= 1 && Count(t, IsFailure) <= 2
    ensures Count(t, IsSuccess) + Count(t, IsConnectionFailure) <= 1
    ensures Count(t, IsFailure) == 2 ==> t[0] == OnRegisterFailure(Codes.REGISTRATION_FAILED)
    ensures CodesAgree(t)
  {
    if |t| >= 1 && t[0].RegisterRequest? && AfterRequest(t[1..]) {
      assert t == [t[0]] + t[1..];
      CountCons(t[0], t[1..]);
      CountOne(t[0]);
      AfterRequestCounts(t[1..]);
      assert CodesAgree(t[1..]);
    } else if |t| >= 2 && t[0] == OnRegisterFailure(Codes.REGISTRATION_FAILED) && t[1] == RegisterRequest([])
              && AfterRequest(t[2..]) {
      assert t == [t[0]] + ([t[1]] + t[2..]);
      CountCons(t[0], [t[1]] + t[2..]);
      CountCons(t[1], t[2..]);
      CountOne(t[0]);
      CountOne(t[1]);
      AfterRequestCounts(t[2..]);
      assert CodesAgree(t[2..]);
    } else if t != [] {
      CountOne(t[0]);
    }
  }

  /** Guarantees of every registration attempt, whatever the server answers
      and whatever the event loop delivers: the start is signalled before
      the nonce request; at most one registration request, one success and
      one connection failure are emitted, never a success together with a
      connection failure; a success always carries 0 and a failure never
      does; and two failures occur only when the first is the decode error
      REGISTRATION_FAILED. */
  lemma RegisterGuarantees(a: Applicant, es: seq<Event>)
    ensures var t := Run(Fresh(a), es).trace;
      && (|t| > 0 ==> |t| >= 2 && t[0] == OnRegisterStart && t[1] == NonceRequest)
      && Count(t, IsRegisterRequest) <= 1
      && Count(t, IsSuccess) <= 1
      && Count(t, IsConnectionFailure) <= 1
      && Count(t, IsSuccess) + Count(t, IsConnectionFailure) <= 1
      && Count(t, IsFailure) <= 2
      && (Count(t, IsFailure) == 2 ==> t[2] == OnRegisterFailure(Codes.REGISTRATION_FAILED))
      && CodesAgree(t)
  {
    var g := Run(Fresh(a), es);
    RunReachable(Fresh(a), es);
    if g.trace != [] {
      var tail := g.trace[2..];
      CountOpening(tail);
      AfterNonceCounts(tail);
      assert CodesAgree(tail);
      forall i | 0 <= i < |g.trace|
        ensures (g.trace[i].OnRegisterSuccess? ==> g.trace[i].code == Codes.REGISTRATION_SUCCESS)
        ensures (g.trace[i].OnRegisterFailure? ==> g.trace[i].code != Codes.REGISTRATION_SUCCESS)
      {
        if i >= 2 {
          assert g.trace[i] == tail[i - 2];
        }
      }
    }
  }

  // ---------------------------------------------------------------------
  // Outcomes of particular server answers, with any events after them.

  /** A rejected nonce reports exactly one failure, with BAD_NONCE, and no
      registration request is issued. BAD_NONCE is the number 4, the same
      as REGISTRATION_INVALID_EMAIL, so the listener receives exactly what
      an invalid-email rejection would give it. */
  lemma RegisterBadNonce(a: Applicant, r: Response, es: seq<Event>)
    requires ClassifyStatus(r) == Rejected
    ensures var g := Run(Fresh(a), [Start, NonceResponse(r)] + es);
      && g.state == Done
      && g.trace == Opening + [OnRegisterFailure(Codes.BAD_NONCE)]
      && OnRegisterFailure(Codes.BAD_NONCE) == OnRegisterFailure(Codes.REGISTRATION_INVALID_EMAIL)
      && Count(g.trace, IsFailure) == 1
      && Count(g.trace, IsSuccess) == 0
      && Count(g.trace, IsRegisterRequest) == 0
  {
    RunPrefix2(Fresh(a), Start, NonceResponse(r), es);
    var g := Step(Step(Fresh(a), Start), NonceResponse(r));
    EndedAbsorbs(g, es);
    CountOpening([OnRegisterFailure(Codes.BAD_NONCE)]);
    CountOne(OnRegisterFailure(Codes.BAD_NONCE));
  }

  /** An accepted nonce is stored and sent with the four registration
      fields; without a `nonce` key, REGISTRATION_FAILED is reported and the
      registration request is issued all the same, with no parameters. */
  lemma RegisterNonceAccepted(a: Applicant, r: Response)
    requires ClassifyStatus(r) == Accepted
    ensures var g := Run(Fresh(a), [Start, NonceResponse(r)]);
      && g.state == RegisterRequested
      && ("nonce" in r ==>
            && g.storedNonce == Some(r["nonce"].text)
            && g.trace == Opening + [RegisterRequest([
                 Param("nonce", r["nonce"].text), Param("username", a.username),
                 Param("display_name", a.displayName), Param("email", a.email),
                 Param("password", a.password)])])
      && ("nonce" !in r ==>
            && g.storedNonce == None
            && g.trace == Opening + [OnRegisterFailure(Codes.REGISTRATION_FAILED), RegisterRequest([])])
  {
    RunPrefix2(Fresh(a), Start, NonceResponse(r), []);
    assert [Start, NonceResponse(r)] + [] == [Start, NonceResponse(r)];
  }

  lemma StartStep(a: Applicant)
    ensures Step(Fresh(a), Start) == Flow(NonceRequested, None, Opening, a)
  {
  }

  /** The first two steps of an attempt whose nonce was accepted and
      decoded: the opening followed by the request. */
  lemma SentTrace(a: Applicant, r: Response)
    requires ClassifyStatus(r) == Accepted && "nonce" in r
    ensures var f2 := Step(Step(Fresh(a), Start), NonceResponse(r));
      f2.state == RegisterRequested && f2.trace == Opening + [RegisterRequest(RegisterParams(r["nonce"].text, a))]
  {
    StartStep(a);
  }

  /** The first two steps of an attempt whose accepted nonce has no
      `nonce` key. */
  lemma DecodeErrorTrace(a: Applicant, r: Response)
    requires ClassifyStatus(r) == Accepted && "nonce" !in r
    ensures var f2 := Step(Step(Fresh(a), Start), NonceResponse(r));
      f2.state == RegisterRequested
      && f2.trace == Opening + [OnRegisterFailure(Codes.REGISTRATION_FAILED), RegisterRequest([])]
  {
    StartStep(a);
  }

  lemma CountsOfAnswered(req: Effect, report: Effect)
    requires req.RegisterRequest? && (report.OnRegisterSuccess? || report.OnRegisterFailure?)
    ensures var t := Opening + [req, report];
      && Count(t, IsConnectionFailure) == 0
      && Count(t, IsSuccess) == (if report.OnRegisterSuccess? then 1 else 0)
      && Count(t, IsFailure) == (if report.OnRegisterFailure? then 1 else 0)
  {
    assert [req, report] == [req] + [report];
    CountOpening([req, report]);
    CountCons(req, [report]);
    CountOne(req);
    CountOne(report);
  }

  /** The answer to the registration request: `registrationStatus` of the
      response decides alone. Result 0 reports exactly one success with 0;
      any other result, -1 included, reports exactly one failure with that
      result. */
  lemma RegisterAnswered(a: Applicant, r1: Response, r2: Response, es: seq<Event>)
    requires ClassifyStatus(r1) == Accepted && "nonce" in r1
    ensures var g := Run(Fresh(a), [Start, NonceResponse(r1), RegisterResponse(r2)] + es);
      var result := RegistrationStatus(r2);
      && g.state == Done
      && |g.trace| == 4
      && Count(g.trace, IsConnectionFailure) == 0
      && (result == Codes.REGISTRATION_SUCCESS ==>
            g.trace[3] == OnRegisterSuccess(0) && Count(g.trace, IsSuccess) == 1 && Count(g.trace, IsFailure) == 0)
      && (result != Codes.REGISTRATION_SUCCESS ==>
            g.trace[3] == OnRegisterFailure(result) && Count(g.trace, IsFailure) == 1 && Count(g.trace, IsSuccess) == 0)
  {
    RunPrefix3(Fresh(a), Start, NonceResponse(r1), RegisterResponse(r2), es);
    SentTrace(a, r1);
    var f2 := Step(Step(Fresh(a), Start), NonceResponse(r1));
    var g := Step(f2, RegisterResponse(r2));
    EndedAbsorbs(g, es);
    var req := RegisterRequest(RegisterParams(r1["nonce"].text, a));
    var report := Report(RegistrationStatus(r2));
    assert g.trace == Opening + [req, report];
    CountsOfAnswered(req, report);
  }

  lemma CountsOfDecodeErrorThenSuccess()
    ensures var t := Opening + [OnRegisterFailure(Codes.REGISTRATION_FAILED), RegisterRequest([]), OnRegisterSuccess(0)];
      Count(t, IsFailure) == 1 && Count(t, IsSuccess) == 1
  {
    var fail := OnRegisterFailure(Codes.REGISTRATION_FAILED);
    var tail := [fail, RegisterRequest([]), OnRegisterSuccess(0)];
    assert tail == [fail] + ([RegisterRequest([])] + [OnRegisterSuccess(0)]);
    CountOpening(tail);
    CountCons(fail, [RegisterRequest([])] + [OnRegisterSuccess(0)]);
    CountCons(RegisterRequest([]), [OnRegisterSuccess(0)]);
    CountOne(fail);
    CountOne(RegisterRequest([]));
    CountOne(OnRegisterSuccess(0));
  }

  /** The decode error does not end the attempt: the request it still
      issues is answered too, so a single attempt can report
      REGISTRATION_FAILED and then a success. */
  lemma DecodeErrorThenSuccess(a: Applicant, r1: Response, r2: Response, es: seq<Event>)
    requires ClassifyStatus(r1) == Accepted && "nonce" !in r1
    requires RegistrationStatus(r2) == Codes.REGISTRATION_SUCCESS
    ensures var g := Run(Fresh(a), [Start, NonceResponse(r1), RegisterResponse(r2)] + es);
      && g.trace == Opening + [OnRegisterFailure(Codes.REGISTRATION_FAILED), RegisterRequest([]), OnRegisterSuccess(0)]
      && Count(g.trace, IsFailure) == 1
      && Count(g.trace, IsSuccess) == 1
  {
    RunPrefix3(Fresh(a), Start, NonceResponse(r1), RegisterResponse(r2), es);
    DecodeErrorTrace(a, r1);
    var f2 := Step(Step(Fresh(a), Start), NonceResponse(r1));
    var g := Step(f2, RegisterResponse(r2));
    EndedAbsorbs(g, es);
    assert g.trace == f2.trace + [OnRegisterSuccess(0)];
    CountsOfDecodeErrorThenSuccess();
  }

  /** With the intended nonce handler, the decode error is the one and only
      report of the attempt and no request follows it. */
  lemma IntendedDecodeErrorEnds(a: Applicant, r: Response, es: seq<Event>)
    requires ClassifyStatus(r) == Accepted && "nonce" !in r
    ensures var g := IntendedOnNonce(Step(Fresh(a), Start), r);
      && Run(g, es) == g
      && g.trace == Opening + [OnRegisterFailure(Codes.REGISTRATION_FAILED)]
      && Count(g.trace, IsFailure) == 1
      && Count(g.trace, IsSuccess) == 0
      && Count(g.trace, IsRegisterRequest) == 0
  {
    var g := IntendedOnNonce(Step(Fresh(a), Start), r);
    EndedAbsorbs(g, es);
    CountOpening([OnRegisterFailure(Codes.REGISTRATION_FAILED)]);
    CountOne(OnRegisterFailure(Codes.REGISTRATION_FAILED));
  }

  /** A flow that still waits for an answer has reported neither a
      success nor a connection failure. */
  lemma WaitingCounts(f: Flow)
    requires Reachable(f)
    requires f.state == NonceRequested || f.state == RegisterRequested
    ensures Count(f.trace, IsSuccess) == 0 && Count(f.trace, IsConnectionFailure) == 0
  {
    var tail := f.trace[2..];
    CountOpening(tail);
    if f.state == RegisterRequested {
      WaitingShape(f);
      if |tail| == 1 {
        CountOne(tail[0]);
      } else {
        assert tail == [tail[0]] + [tail[1]];
        CountCons(tail[0], [tail[1]]);
        CountOne(tail[0]);
        CountOne(tail[1]);
      }
    } else {
      assert tail == [];
    }
  }

  /** A transport failure at either request adds only the connection
      failure: no success, no failure, no further request, and the attempt
      is over. */
  lemma RegisterTransportFailure(f: Flow, es: seq<Event>)
    requires Reachable(f)
    requires f.state == NonceRequested || f.state == RegisterRequested
    ensures var g := Run(f, [TransportFailure] + es);
      && g.state == Done
      && g.trace == f.trace + [OnConnectionFailed]
      && Count(g.trace, IsSuccess) == Count(f.trace, IsSuccess) == 0
      && Count(g.trace, IsFailure) == Count(f.trace, IsFailure)
      && Count(g.trace, IsRegisterRequest) == Count(f.trace, IsRegisterRequest)
      && Count(g.trace, IsConnectionFailure) == 1
  {
    assert ([TransportFailure] + es)[0] == TransportFailure && ([TransportFailure] + es)[1..] == es;
    var g := Step(f, TransportFailure);
    EndedAbsorbs(g, es);
    CountAppend(f.trace, [OnConnectionFailed], IsSuccess);
    CountAppend(f.trace, [OnConnectionFailed], IsFailure);
    CountAppend(f.trace, [OnConnectionFailed], IsRegisterRequest);
    CountAppend(f.trace, [OnConnectionFailed], IsConnectionFailure);
    CountOne(OnConnectionFailed);
    WaitingCounts(f);
  }

  /** A nonce response without `status` throws out of the handler: the
      attempt ends with no terminal callback at all. */
  lemma RegisterMissingStatusIsSilent(a: Applicant, r: Response, es: seq<Event>)
    requires ClassifyStatus(r) == NullStatus
    ensures var g := Run(Fresh(a), [Start, NonceResponse(r)] + es);
      && g.state == Crashed
      && g.trace == Opening
      && Count(g.trace, IsSuccess) + Count(g.trace, IsFailure) + Count(g.trace, IsConnectionFailure) == 0
  {
    RunPrefix2(Fresh(a), Start, NonceResponse(r), es);
    EndedAbsorbs(Step(Step(Fresh(a), Start), NonceResponse(r)), es);
    CountOpening([]);
    assert Opening + [] == Opening;
  }
}
