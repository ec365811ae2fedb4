/** One login submission: verification on the worker or on a pool thread, completion, and throttle accounting. */
module Login {
  import opened ByteStrings
  import opened Codes
  import opened Tokens
  import opened NonceStore
  import opened SharedStore
  import GpgStatus
  import Throttle
  import ThrottleRuns

  /** What gpg_verify produced: whether it ran, and its verdict, fingerprint and signed text. */
  datatype Signed = Signed(ran: bool, valid: bool, fpr: Bytes, plain: Bytes)

  /** What comes back from the gpg subprocess: its status output and the signed text. */
  datatype GpgOut = GpgOut(ran: bool, out: Bytes, truncated: bool, plain: Bytes)

  /** A fingerprint as the status parse leaves it: none, or 32 to 79 hexadecimal digits. */
  predicate FprShape(fpr: Bytes) {
    fpr == [] || (GpgStatus.FPR_MIN <= |fpr| <= GpgStatus.FPR_MAX && AllHex(fpr))
  }

  /** The buffer for the signed text; a text that fills it counts as truncated. */
  const PLAINTEXT_MAX := 8192

  predicate SignedShape(s: Signed) { FprShape(s.fpr) && (s.valid ==> |s.plain| < PLAINTEXT_MAX) }

  /** gpg_verify's reading of it. */
  function Reading(g: GpgOut): (s: Signed)
    ensures SignedShape(s)
  {
    var long := |g.plain| >= PLAINTEXT_MAX;
    var r := GpgStatus.Result(g.out, g.truncated || long);
    GpgStatus.StatusMeans(g.out, g.truncated || long);
    Signed(g.ran, r.valid, r.fpr, if long then g.plain[..PLAINTEXT_MAX] else g.plain)
  }

  /** The verdict is that of a whole status output over a whole text; everything else is taken over as it is. */
  lemma ReadingMeans(g: GpgOut)
    ensures var s, whole := Reading(g), GpgStatus.Result(g.out, false);
      && s.ran == g.ran && (|g.plain| < 8192 ==> s.plain == g.plain)
      && (s.valid <==> whole.valid && !g.truncated && |g.plain| < 8192)
      && s.fpr == if s.valid then whole.fpr else []
  {
  }

  /** Everything else a verification depends on, fixed while it runs. */
  datatype Env = Env(
    mac: Mac, secrets: Secrets, scope: Bytes, ip: Bytes, ua: Bytes, now: int, hmac: Hmac,
    storage: Storage, alloc: bool, retry: bool, wire: Wire)

  type Store = Option<Nonces>

  /** validate_consume: check the challenge, then record its nonce; a store that cannot answer is NGX_ABORT. */
  function ValidateConsume(env: Env, store: Store, plain: Bytes): (r: (Store, Code)) {
    match CheckChallenge(env.mac, env.secrets, env.scope, env.ip, env.ua, plain, env.now, env.hmac)
    case Refused(code) => (store, code)
    case Admitted(exp, nonce) =>
      var call := Call(nonce, exp, env.now, env.alloc, env.retry);
      var (next, code) := CheckAndSetStep(env.storage, store, call, env.wire);
      (next, if code == Ok || code == Declined then code else Abort)
  }

  /** verify_post: `prior` is the code a pool thread already obtained; `granted` says the response could be built. */
  function VerifyPost(env: Env, store: Store, s: Signed, revoked: bool, prior: Option<Code>, granted: bool)
    : (r: (Store, Code))
  {
    if !s.valid || revoked then (store, Declined)
    else
      var (next, code) := if prior.Some? then (store, prior.value) else ValidateConsume(env, store, s.plain);
      (next, if code != Ok then code else if granted then SeeOther else Error)
  }

  /** The synchronous order: gpg, revocation, then challenge and nonce. */
  function Synchronous(env: Env, store: Store, s: Signed, revoked: bool, granted: bool): (Store, Code) {
    if !s.ran then (store, Error) else VerifyPost(env, store, s, revoked, None, granted)
  }

  /** gpg_thread: challenge and nonce right after a good signature. */
  function OnThread(env: Env, store: Store, s: Signed): (Store, Option<Code>) {
    if s.ran && s.valid then
      var (next, code) := ValidateConsume(env, store, s.plain);
      (next, Some(code))
    else (store, None)
  }

  /** The thread has a code exactly after a good signature, and it is never the redirect. */
  lemma ThreadCodes(env: Env, store: Store, s: Signed)
    ensures var prior := OnThread(env, store, s).1;
      && (prior.Some? <==> s.ran && s.valid) && prior != Some(SeeOther)
      && (prior == Some(Ok) ==> ValidateConsume(env, store, s.plain).1 == Ok)
  {
  }

  /** verify_thread_done: the rest of a verification, on the worker. */
  function Complete(env: Env, store: Store, s: Signed, revoked: bool, prior: Option<Code>, granted: bool)
    : (Store, Code)
  {
    if !s.ran then (store, Error) else VerifyPost(env, store, s, revoked, prior, granted)
  }

  /** After the thread's part the completion consumes nothing more, and grants only what the thread admitted. */
  lemma CompleteGrants(env: Env, store: Store, s: Signed, revoked: bool, prior: Option<Code>, granted: bool)
    requires prior.Some? <==> s.ran && s.valid
    ensures Complete(env, store, s, revoked, prior, granted).0 == store
    ensures Complete(env, store, s, revoked, prior, granted).1 == SeeOther && prior != Some(SeeOther)
        ==> prior == Some(Ok) && !revoked
  {
  }

  /** The threaded order: the pool thread first, the worker's completion handler after it. */
  function Threaded(env: Env, store: Store, s: Signed, revoked: bool, granted: bool): (Store, Code) {
    var (next, prior) := OnThread(env, store, s);
    Complete(env, next, s, revoked, prior, granted)
  }

  /**
   * Both orders end with the same code; the stores differ exactly when a good
   * signature comes from a revoked key and its challenge would have been consumed.
   */
  lemma OrdersAgree(env: Env, store: Store, s: Signed, revoked: bool, granted: bool)
    ensures Synchronous(env, store, s, revoked, granted).1 == Threaded(env, store, s, revoked, granted).1
    ensures Synchronous(env, store, s, revoked, granted).0 != Threaded(env, store, s, revoked, granted).0
       <==> s.ran && s.valid && revoked && ValidateConsume(env, store, s.plain).0 != store
  {
  }

  function Verify(threaded: bool, env: Env, store: Store, s: Signed, revoked: bool, granted: bool): (Store, Code) {
    if threaded then Threaded(env, store, s, revoked, granted) else Synchronous(env, store, s, revoked, granted)
  }

  /** A grant needs a good signature by an unrevoked key over an admitted challenge whose nonce the store took. */
  lemma GrantNeeds(threaded: bool, env: Env, store: Store, s: Signed, revoked: bool, granted: bool)
    requires Verify(threaded, env, store, s, revoked, granted).1 == SeeOther
    ensures s.ran && s.valid && !revoked && ValidateConsume(env, store, s.plain).1 == Ok
    ensures
      var v := CheckChallenge(env.mac, env.secrets, env.scope, env.ip, env.ua, s.plain, env.now, env.hmac);
      && v.Admitted?
      && (Verify(threaded, env, store, s, revoked, granted).0, Ok)
         == CheckAndSetStep(env.storage, store, Call(v.nonce, v.exp, env.now, env.alloc, env.retry), env.wire)
  {
    OrdersAgree(env, store, s, revoked, granted);
  }

  /**
   * An honest login succeeds exactly when the store takes it: a challenge issued under a
   * secret still accepted, for the same keyring and client, signed by an unrevoked keyring
   * key and submitted while now <= exp, is granted a session iff the single-use store, of
   * whichever kind, takes its nonce, wherever it stands in the signed text.
   */
  lemma HonestLoginGranted(
    threaded: bool, env: Env, store: Store, s: Signed,
    secret: Bytes, exp: nat, nonce: Bytes, before: Bytes, tail: Bytes)
    requires MakesTags(env.mac) && Accepts(env.secrets, secret) && env.now <= exp <= MAX_TIME
    requires AllHex(nonce) && NoMarker(before, |before|) && EndsLine(tail)
    requires
      var tag := env.mac(secret, Frame(ChallengeFields(env.scope, env.ip, env.ua, ChallengePayload(exp, nonce))));
      s.plain == before + ChallengeText(exp, nonce, tag) + tail
    requires s.ran && s.valid && env.hmac == Hmac(true, true)
    ensures Verify(threaded, env, store, s, false, true).1 == SeeOther
       <==> Takes(env.storage, store, Call(nonce, exp, env.now, env.alloc, env.retry), env.wire)
  {
    IssuedChallengeAdmittedExactly(
      env.mac, env.secrets, secret, env.scope, env.ip, env.ua, before, exp, nonce, tail, env.now);
    VerdictTable(env.storage, store, Call(nonce, exp, env.now, env.alloc, env.retry), env.wire);
    OrdersAgree(env, store, s, false, true);
  }

  // ---- the request across the thread boundary ----

  /** What pins a request: blocked count, aio flag, watchdog, verification in flight, and the answers sent. */
  datatype Pin = Pin(blocked: int, aio: bool, timer: bool, inFlight: bool, answers: nat)

  datatype Event = Submit(pool: bool, posted: bool) | Watchdog | Completion

  ghost predicate Possible(p: Pin, e: Event) {
    match e
    case Submit(_, _) => !p.inFlight && p.answers == 0
    case Watchdog => p.timer
    case Completion => p.inFlight
  }

  function PinNext(p: Pin, e: Event): Pin {
    match e
    case Submit(pool, posted) =>
      if pool && posted then p.(blocked := p.blocked + 1, aio := true, timer := true, inFlight := true)
      else p.(answers := p.answers + 1)
    case Watchdog => p.(timer := false)
    case Completion =>
      p.(blocked := p.blocked - 1, aio := false, timer := false, inFlight := false, answers := p.answers + 1)
  }

  class Request {
    var blocked: int
    var aio: bool
    var timerSet: bool
    var timedout: bool
    var inFlight: bool
    var answers: nat

    function State(): Pin
      reads this
    {
      Pin(blocked, aio, timerSet, inFlight, answers)
    }

    constructor (blocked: int)
      ensures State() == Pin(blocked, false, false, false, 0) && !timedout
    {
      this.blocked, aio, timerSet, timedout, inFlight, answers := blocked, false, false, false, false, 0;
    }

    /** auth_submit from posting to the pool on; without a pool or on failure to post it verifies at once. */
    method Submit(pool: bool, posted: bool)
      requires !timedout
      modifies this
      ensures State() == PinNext(old(State()), Event.Submit(pool, posted)) && !timedout
    {
      if pool {
        if posted {
          timerSet, inFlight := true, true;
          blocked := blocked + 1;
          aio := true;
          return;
        }
      }
      answers := answers + 1;
    }

    /** verify_thread_done, entered by the watchdog (timedout set) or by the finished thread. */
    method ThreadDone()
      requires timedout || inFlight
      modifies this
      ensures !timedout
      ensures old(timedout) ==> State() == old(State())
      ensures !old(timedout) ==> State() == PinNext(old(State()), Completion)
    {
      if timedout {
        timedout := false;
        return;
      }
      if timerSet { timerSet := false; }
      blocked := blocked - 1;
      aio := false;
      inFlight := false;
      answers := answers + 1;
    }

    /** The event loop expires the watchdog timer and calls the handler. */
    method Expire()
      requires timerSet && !timedout
      modifies this
      ensures State() == PinNext(old(State()), Watchdog) && !timedout
    {
      timerSet, timedout := false, true;
      ThreadDone();
    }
  }

  ghost predicate PinRun(pins: seq<Pin>, events: seq<Event>, blocked: int) {
    && |pins| == |events| + 1 && pins[0] == Pin(blocked, false, false, false, 0)
    && forall i :: 0 <= i < |events| ==>
         && Possible(pins[i], events[i]) && pins[i + 1] == PinNext(pins[i], events[i])
  }

  /**
   * In every order of events the request is pinned exactly while its verification is in
   * flight, is answered at most once, and once answered is unpinned with nothing
   * left to happen to it; the watchdog changes none of this.
   */
  lemma {:induction false} PinBalanced(pins: seq<Pin>, events: seq<Event>, blocked: int, n: nat)
    requires PinRun(pins, events, blocked) && n < |pins|
    ensures var p := pins[n];
      && p.blocked == blocked + (if p.inFlight then 1 else 0) && p.aio == p.inFlight
      && p.answers <= 1 && (p.timer ==> p.inFlight)
      && (n > 0 ==> (p.answers == 1 <==> !p.inFlight))
      && (p.answers == 1 ==> forall e :: !Possible(p, e))
  {
    if n > 0 { PinBalanced(pins, events, blocked, n - 1); }
  }

  // ---- what the throttle is told ----

  /** Everything the verdict on one clear-signed message depends on. */
  datatype Case = Case(threaded: bool, env: Env, store: Store, s: Signed, revoked: bool, granted: bool)

  /** How far a submission gets. */
  datatype Stage = BodyAllocFailed | BodyUnreadable | NotClearSigned | ResultAllocFailed | Decided(c: Case)

  function VerdictOf(c: Case): Code { Verify(c.threaded, c.env, c.store, c.s, c.revoked, c.granted).1 }

  datatype Response = ServiceUnavailable | InternalError | SeeOther303 | ChallengeAgain

  /** verify_finalize: the response, and the outcome reported to the throttle if any. */
  function Finalize(code: Code): (r: (Response, Option<bool>))
    ensures r.0 == ChallengeAgain <==> r.1 == Some(false)
    ensures r.0 == SeeOther303 <==> r.1 == Some(true)
    ensures r.0 == ServiceUnavailable <==> code == Abort
    ensures r.0 == InternalError <==> code == Error
  {
    match code
    case Abort => (ServiceUnavailable, None)
    case Error => (InternalError, None)
    case SeeOther => (SeeOther303, Some(true))
    case _ => (ChallengeAgain, Some(false))
  }

  /** auth_submit: what each end of a submission is answered; without memory for the result it is finalized directly. */
  function Respond(s: Stage): (Response, Option<bool>) {
    match s
    case BodyAllocFailed => Finalize(Error)
    case BodyUnreadable => Finalize(Declined)
    case NotClearSigned => Finalize(Declined)
    case ResultAllocFailed => (InternalError, None)
    case Decided(c) => Finalize(VerdictOf(c))
  }

  // ---- whose fault it is ----

  /** The bytes a challenge's MAC is computed over. */
  function MacInput(env: Env, payload: Bytes): Bytes {
    "chal\U{1E}" + env.scope + "\U{1E}" + payload + "\U{1E}" + env.ip + "\U{1E}" + env.ua
  }

  /** The signed text holds a challenge of ours that has not expired. */
  predicate Answering(env: Env, plain: Bytes) {
    && ParseChallenge(plain).Some? && env.hmac.current
    && var t := ParseChallenge(plain).value;
       RightTag(env.mac, env.secrets, MacInput(env, t.payload), t.tag, env.hmac)
       && ParseTime(t.exp) != -1 && env.now <= ParseTime(t.exp)
  }

  /** It holds none at all, or one with a wrong tag, an unreadable expiry or its time up. */
  predicate Unanswering(env: Env, plain: Bytes) {
    || ParseChallenge(plain).None?
    || (env.hmac.current
        && var t := ParseChallenge(plain).value;
           !RightTag(env.mac, env.secrets, MacInput(env, t.payload), t.tag, env.hmac)
           || ParseTime(t.exp) == -1 || ParseTime(t.exp) < env.now)
  }

  /** The call a consumed challenge makes to the single-use store. */
  function CallFor(env: Env, plain: Bytes): Call
    requires ParseChallenge(plain).Some?
  {
    var t := ParseChallenge(plain).value;
    Call(t.name, ParseTime(t.exp), env.now, env.alloc, env.retry)
  }

  /** gpg vouched for a key that is not revoked. */
  predicate SignedWell(c: Case) { c.s.ran && c.s.valid && !c.revoked }

  /** The store was asked and could not say. */
  ghost predicate StoreFault(c: Case) {
    && SignedWell(c) && Answering(c.env, c.s.plain)
    && CannotAnswer(c.env.storage, c.store, CallFor(c.env, c.s.plain), c.env.wire)
  }

  /** The client's own doing: no good signature, a revoked key, no live challenge of ours, or a used one. */
  ghost predicate ClientFault(c: Case) {
    c.s.ran &&
    (|| !c.s.valid || c.revoked || Unanswering(c.env, c.s.plain)
     || (Answering(c.env, c.s.plain)
         && Replays(c.env.storage, c.store, CallFor(c.env, c.s.plain), c.env.wire)))
  }

  ghost predicate Deserved(c: Case) {
    && SignedWell(c) && Answering(c.env, c.s.plain)
    && Takes(c.env.storage, c.store, CallFor(c.env, c.s.plain), c.env.wire)
  }

  lemma CheckedMeans(env: Env, plain: Bytes)
    ensures var v := CheckChallenge(env.mac, env.secrets, env.scope, env.ip, env.ua, plain, env.now, env.hmac);
      && (v.Admitted? <==> Answering(env, plain))
      && (v.Admitted? ==> v.nonce == CallFor(env, plain).nonce && v.exp == CallFor(env, plain).exp)
      && (v == Refused(Declined) <==> Unanswering(env, plain))
      && (v == Refused(Error) <==> ParseChallenge(plain).Some? && !env.hmac.current)
  {
    if ParseChallenge(plain).Some? {
      var t := ParseChallenge(plain).value;
      assert Frame(ChallengeFields(env.scope, env.ip, env.ua, t.payload)) == MacInput(env, t.payload);
    }
  }

  /** validate_consume, from its inputs: the code says whether the challenge was taken, was bad, or had no answer. */
  lemma ConsumeMeans(env: Env, store: Store, plain: Bytes)
    ensures var code := ValidateConsume(env, store, plain).1;
      && (Answering(env, plain) ==>
            && (code == Ok <==> Takes(env.storage, store, CallFor(env, plain), env.wire))
            && (code == Declined <==> Replays(env.storage, store, CallFor(env, plain), env.wire))
            && (code == Abort <==> CannotAnswer(env.storage, store, CallFor(env, plain), env.wire)))
      && (Unanswering(env, plain) ==> code == Declined)
      && (!Answering(env, plain) && !Unanswering(env, plain) ==> code == Error)
  {
    CheckedMeans(env, plain);
    if Answering(env, plain) { VerdictTable(env.storage, store, CallFor(env, plain), env.wire); }
  }

  /**
   * What every submission is answered and what the throttle is told, from the inputs and
   * in both orders: 503 and no report exactly when the store could not answer, the
   * challenge again and a failure exactly when it is the client's doing, the redirect and a
   * success exactly when it was deserved and could be built, and otherwise 500 and no report.
   */
  lemma OutcomeTable(c: Case)
    ensures var r := Finalize(VerdictOf(c));
      && (r == (ServiceUnavailable, None) <==> StoreFault(c))
      && (r == (ChallengeAgain, Some(false)) <==> ClientFault(c))
      && (r == (SeeOther303, Some(true)) <==> Deserved(c) && c.granted)
      && (r == (InternalError, None) <==> !StoreFault(c) && !ClientFault(c) && !(Deserved(c) && c.granted))
  {
    OrdersAgree(c.env, c.store, c.s, c.revoked, c.granted);
    ConsumeMeans(c.env, c.store, c.s.plain);
  }

  /** Client traffic at throttled locations. */
  datatype Traffic =
    | Visit(client: Bytes, at: int)
    | Post(client: Bytes, stage: Stage, p: Throttle.Params, at: int, alloc: bool, retry: bool)

  /** The throttle calls one piece of traffic causes. */
  function ThrottleCalls(t: Traffic): seq<ThrottleRuns.Event> {
    match t
    case Visit(client, at) => [ThrottleRuns.Check(client, at)]
    case Post(client, stage, p, at, alloc, retry) =>
      var report := Respond(stage).1;
      if report.None? then []
      else [ThrottleRuns.Report(Throttle.Outcome(client, report.value, p, at, alloc, retry))]
  }

  function AllCalls(ts: seq<Traffic>): seq<ThrottleRuns.Event> {
    if ts == [] then [] else ThrottleCalls(ts[0]) + AllCalls(ts[1..])
  }

  /** The submission was the client's failure: an unreadable or unsigned body, or its own fault when judged. */
  ghost predicate ClientFailed(t: Traffic) {
    t.Post? && (t.stage.BodyUnreadable? || t.stage.NotClearSigned? || (t.stage.Decided? && ClientFault(t.stage.c)))
  }

  /** The four ends before a verdict: a fault of the server is answered 500 and not reported, one of the client is. */
  lemma EarlyEnds()
    ensures Respond(BodyAllocFailed) == Respond(ResultAllocFailed) == (InternalError, None)
    ensures Respond(BodyUnreadable) == Respond(NotClearSigned) == (ChallengeAgain, Some(false))
  {
  }

  ghost function FailedTimes(ts: seq<Traffic>, ip: Bytes): seq<int> {
    if ts == [] then []
    else (if ClientFailed(ts[0]) && ts[0].client == ip then [ts[0].at] else []) + FailedTimes(ts[1..], ip)
  }

  lemma {:induction false} FailTimesAppend(a: seq<ThrottleRuns.Event>, b: seq<ThrottleRuns.Event>, ip: Bytes)
    ensures ThrottleRuns.FailTimes(a + b, ip) == ThrottleRuns.FailTimes(a, ip) + ThrottleRuns.FailTimes(b, ip)
  {
    if a == [] {
      assert a + b == b;
    } else {
      assert (a + b)[1..] == a[1..] + b;
      FailTimesAppend(a[1..], b, ip);
    }
  }

  /** The failures the throttle is told of are exactly the client's own, at their times and in their order. */
  lemma {:induction false} FailuresAreTheClients(ts: seq<Traffic>, ip: Bytes)
    ensures ThrottleRuns.FailTimes(AllCalls(ts), ip) == FailedTimes(ts, ip)
  {
    if ts != [] {
      FailuresAreTheClients(ts[1..], ip);
      if ts[0].Post? && ts[0].stage.Decided? { OutcomeTable(ts[0].stage.c); }
      var calls := ThrottleCalls(ts[0]);
      FailTimesAppend(calls, AllCalls(ts[1..]), ip);
      assert calls != [] ==> calls[1..] == [];
      assert ThrottleRuns.FailTimes(calls, ip) == if ClientFailed(ts[0]) && ts[0].client == ip then [ts[0].at] else [];
    }
  }

  /** The ban checks of one address in a run, and its visits. */
  function CheckTimes(events: seq<ThrottleRuns.Event>, ip: Bytes): seq<int> {
    if events == [] then []
    else (if events[0].Check? && events[0].client == ip then [events[0].at] else []) + CheckTimes(events[1..], ip)
  }

  function VisitTimes(ts: seq<Traffic>, ip: Bytes): seq<int> {
    if ts == [] then []
    else (if ts[0].Visit? && ts[0].client == ip then [ts[0].at] else []) + VisitTimes(ts[1..], ip)
  }

  lemma {:induction false} CheckTimesAppend(a: seq<ThrottleRuns.Event>, b: seq<ThrottleRuns.Event>, ip: Bytes)
    ensures CheckTimes(a + b, ip) == CheckTimes(a, ip) + CheckTimes(b, ip)
  {
    if a == [] {
      assert a + b == b;
    } else {
      assert (a + b)[1..] == a[1..] + b;
      CheckTimesAppend(a[1..], b, ip);
    }
  }

  /** Every visit is checked for a ban, at its time, and nothing else is. */
  lemma {:induction false} ChecksAreTheVisits(ts: seq<Traffic>, ip: Bytes)
    ensures CheckTimes(AllCalls(ts), ip) == VisitTimes(ts, ip)
  {
    if ts != [] {
      ChecksAreTheVisits(ts[1..], ip);
      var calls := ThrottleCalls(ts[0]);
      CheckTimesAppend(calls, AllCalls(ts[1..]), ip);
      assert calls != [] ==> calls[1..] == [];
    }
  }

  /** Without a recorded failure an address has no record, so no check ever finds it banned. */
  lemma {:induction false} NoFailureNoBan(q: Throttle.Records, events: seq<ThrottleRuns.Event>, ip: Bytes, n: nat)
    requires Distinct(q) && Find(q, ip).None? && ThrottleRuns.FailTimes(events, ip) == []
    requires n < |events| && events[n].Check? && events[n].client == ip
    ensures ThrottleRuns.StoreRun(q, events)[n] == ThrottleRuns.Answer(false)
    decreases events
  {
    if n > 0 {
      var e := events[0];
      if e.Report? { Throttle.RecordEffect(q, e.o, ip); }
      NoFailureNoBan(ThrottleRuns.StoreNext(q, e), events[1..], ip, n - 1);
    }
  }

  /**
   * A client whose submissions only ever succeed or fail through the server (store
   * outage, internal error) is never banned, in any run, whatever others do.
   */
  lemma ServerFaultsNeverBan(ts: seq<Traffic>, ip: Bytes, n: nat)
    requires forall i :: 0 <= i < |ts| && ts[i].client == ip ==> !ClientFailed(ts[i])
    requires var calls := AllCalls(ts); n < |calls| && calls[n].Check? && calls[n].client == ip
    ensures ThrottleRuns.StoreRun([], AllCalls(ts))[n] == ThrottleRuns.Answer(false)
  {
    FailuresAreTheClients(ts, ip);
    NoneFailed(ts, ip);
    NoFailureNoBan([], AllCalls(ts), ip, n);
  }

  lemma {:induction false} NoneFailed(ts: seq<Traffic>, ip: Bytes)
    requires forall i :: 0 <= i < |ts| && ts[i].client == ip ==> !ClientFailed(ts[i])
    ensures FailedTimes(ts, ip) == []
  {
    if ts != [] { NoneFailed(ts[1..], ip); }
  }
}
