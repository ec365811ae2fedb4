/**
 * Whole runs of the module on any number of nodes: challenges, logins on the worker
 * and on pool threads, changes of settings, restarts, Redis, and arbitrary presented
 * cookies, in any order.
 */
module AuthRun {
  import opened ByteStrings
  import opened Codes
  import opened Tokens
  import opened NonceStore
  import opened Login
  import opened Readings
  import Config

  /** A location with the module on: its settings, its node's zone and its Redis. */
  datatype Site = Site(
    keyring: Bytes, bindIp: bool, bindUa: bool, challengeTimeout: nat, sessionTimeout: nat, secrets: Secrets,
    storage: Storage, zone: nat, server: nat, prefix: Bytes)

  /** What a request carries that the decisions depend on. */
  datatype Client = Client(ip: Bytes, ua: Option<Bytes>)

  /** Settings as merge_loc_conf leaves them. */
  ghost predicate Configured(o: Origins, s: Site) {
    && Config.MIN_CHALLENGE <= s.challengeTimeout <= Config.MAX_CHALLENGE && s.sessionTimeout <= Config.MAX_SESSION
    && o.path(s.keyring) && s.secrets.current != []
  }

  ghost predicate Genuine(o: Origins, c: Client) { o.address(c.ip) && (c.ua.Some? ==> o.agent(c.ua.value)) }

  /** binding: the parts of the client a location folds into its MACs. */
  function BoundIp(s: Site, c: Client): Bytes { if s.bindIp then c.ip else [] }

  function BoundUa(s: Site, c: Client): Bytes { if s.bindUa && c.ua.Some? then c.ua.value else [] }

  /** An issued challenge, and when it was issued. */
  datatype Issued = Issued(secret: Bytes, fields: Fields, exp: nat, nonce: Bytes, at: int)

  /** A consumed challenge: whose login it was, when, and the nonce and expiry read from the signed text. */
  datatype Use = Use(site: Site, c: Client, signed: Signed, at: int, nonce: Bytes, exp: int)

  /** A login on the pool: posted, judged by the thread, or answered by the worker. */
  datatype Phase = Posted | Judged(env: Env, signed: Signed, prior: Option<Code>, use: Option<nat>) | Answered

  /** A pool login keeps the settings and the client it was posted with. */
  datatype Job = Job(site: Site, c: Client, phase: Phase)

  /** A granted session, and the consumed challenge that led to it. */
  datatype Granted = Granted(secret: Bytes, fields: Fields, exp: nat, fpr: Bytes, use: nat)

  /** One life of a node's zone, and of a Redis server with its keys and the instants they disappear. */
  type Zones = map<nat, Nonces>
  type Servers = map<nat, map<Bytes, int>>

  datatype System = System(
    now: int, sites: map<nat, Site>, zones: Zones, servers: Servers,
    challenges: seq<Issued>, uses: seq<Use>, jobs: seq<Job>, grants: seq<Granted>)

  /** What a run is about: the MAC, and who and what can occur in it. */
  datatype Setup = Setup(mac: Mac, origins: Origins)

  /** How the fallible parts of a verification turn out. */
  datatype Luck = Luck(h: Hmac, alloc: bool, retry: bool, wire: Wire)

  /** The verdicts of one worker's revocation check at one moment. */
  type Revoked = Bytes -> bool

  datatype Step =
    | Tick(d: nat)
    | Configure(id: nat, site: Option<Site>)               // new secrets or any other settings, or switched off
    | NewZone(zone: nat, nodes: Nonces)                    // a node restarts with a new zone
    | NewServer(server: nat, keys: map<Bytes, int>)        // a Redis starts, or goes on after losing keys
    | Foreign(server: nat, key: Bytes, until: int)         // an abandoned SET or another client creates a key
    | Challenge(id: nat, c: Client, nonce: Bytes)
    | Submit(id: nat, c: Client, g: GpgOut, luck: Luck, revoked: Revoked, granted: bool)  // on the worker
    | Post(id: nat, c: Client)                                                            // handed to the pool
    | Thread(job: nat, g: GpgOut, luck: Luck)                                             // the pool thread's part
    | Finish(job: nat, revoked: Revoked, granted: bool)                                   // the worker's part
    | Access(id: nat, c: Client, cookie: Option<Bytes>, h: Hmac, revoked: Revoked)

  function EnvOf(u: Setup, now: int, s: Site, c: Client, luck: Luck): Env {
    Env(u.mac, s.secrets, s.keyring, BoundIp(s, c), BoundUa(s, c), now, luck.h,
        s.storage, luck.alloc, luck.retry, luck.wire)
  }

  predicate Denied(revoked: Revoked, fpr: Bytes) { fpr != [] && revoked(fpr) }

  function NewChallenge(now: nat, s: Site, c: Client, nonce: Bytes): Issued {
    var exp := now + s.challengeTimeout;
    Issued(s.secrets.current,
           ChallengeFields(s.keyring, BoundIp(s, c), BoundUa(s, c), ChallengePayload(exp, nonce)), exp, nonce, now)
  }

  /** The outcome of the challenge check of a login. */
  function Checked(env: Env, s: Signed): Verdict {
    CheckChallenge(env.mac, env.secrets, env.scope, env.ip, env.ua, s.plain, env.now, env.hmac)
  }

  function NewUse(site: Site, c: Client, s: Signed, env: Env): Use {
    var v := Checked(env, s);
    Use(site, c, s, env.now, if v.Admitted? then v.nonce else [], if v.Admitted? then v.exp else 0)
  }

  /** grant: the session issued to a client whose signature was accepted. */
  function NewGrant(now: nat, s: Site, c: Client, fpr: Bytes, use: nat): Granted {
    var exp := if s.sessionTimeout == 0 then 0 else now + s.sessionTimeout;
    Granted(s.secrets.current,
            SessionFields(s.keyring, BoundIp(s, c), BoundUa(s, c), SessionPayload(exp, fpr)), exp, fpr, use)
  }

  /** What auth_handler answers. */
  datatype Answer = Proceed | Forbidden | TooManyRequests | BodyTooLarge | ReadBody | ChallengePage

  function Handle(enable: bool, session: bool, main: bool, banned: bool, submission: bool, tooLarge: bool): (a: Answer)
    ensures a == Proceed <==> !enable || session
    ensures a == Forbidden <==> enable && !session && !main
    ensures a == TooManyRequests <==> enable && !session && main && banned
    ensures a in {BodyTooLarge, ReadBody, ChallengePage} <==> enable && !session && main && !banned
    ensures a in {BodyTooLarge, ReadBody} ==> submission && (a == BodyTooLarge <==> tooLarge)
    ensures a == ChallengePage ==> !submission
  {
    if !enable then Proceed
    else if session then Proceed
    else if !main then Forbidden
    else if banned then TooManyRequests
    else if submission then (if tooLarge then BodyTooLarge else ReadBody)
    else ChallengePage
  }

  /** The session check of a presented cookie at a location. */
  predicate HasSession(u: Setup, y: System, t: Step)
    requires t.Access? && t.id in y.sites
  {
    var s := y.sites[t.id];
    t.cookie.Some?
    && SessionOk(u.mac, s.secrets, s.keyring, BoundIp(s, t.c), BoundUa(s, t.c), t.cookie.value, y.now, t.h,
                 fpr => Denied(t.revoked, fpr))
  }

  // ---- the ideal MAC ----

  ghost predicate TaggedChallenge(y: System, secret: Bytes, message: Bytes) {
    exists i :: 0 <= i < |y.challenges| && y.challenges[i].secret == secret && Frame(y.challenges[i].fields) == message
  }

  ghost predicate TaggedGrant(y: System, secret: Bytes, message: Bytes) {
    exists i :: 0 <= i < |y.grants| && y.grants[i].secret == secret && Frame(y.grants[i].fields) == message
  }

  /** A presented tag is right under an accepted secret only if the module itself made it. */
  ghost predicate Unforged(u: Setup, y: System, s: Secrets, f: Fields, tag: Bytes) {
    forall secret :: Accepts(s, secret) && tag == u.mac(secret, Frame(f)) ==>
      TaggedChallenge(y, secret, Frame(f)) || TaggedGrant(y, secret, Frame(f))
  }

  /** The MAC input of a challenge found in signed text. */
  function Submitted(s: Site, c: Client, payload: Bytes): Fields {
    ChallengeFields(s.keyring, BoundIp(s, c), BoundUa(s, c), payload)
  }

  /** The MAC input of a presented cookie. */
  function Presented(s: Site, c: Client, payload: Bytes): Fields {
    SessionFields(s.keyring, BoundIp(s, c), BoundUa(s, c), payload)
  }

  ghost predicate UnforgedText(u: Setup, y: System, s: Site, c: Client, plain: Bytes) {
    ParseChallenge(plain).Some? ==>
      var p := ParseChallenge(plain).value;
      Unforged(u, y, s.secrets, Submitted(s, c, p.payload), p.tag)
  }

  ghost predicate UnforgedCookie(u: Setup, y: System, s: Site, c: Client, cookie: Bytes) {
    ParseCookie(cookie).Some? ==>
      var p := ParseCookie(cookie).value;
      Unforged(u, y, s.secrets, Presented(s, c, p.payload), p.tag)
  }

  // ---- the stores ----

  function ZoneOf(zones: Zones, s: Site): Store { if s.zone in zones then Some(zones[s.zone]) else None }

  function KeyOf(s: Site, nonce: Bytes): Bytes { s.prefix + nonce }

  predicate KeyLive(servers: Servers, s: Site, nonce: Bytes, now: int) {
    s.server in servers && KeyOf(s, nonce) in servers[s.server] && now < servers[s.server][KeyOf(s, nonce)]
  }

  /** A reply to SET NX EX comes from a running Redis that got the whole command, and "+" means the key was free. */
  ghost predicate Truthful(y: System, site: Site, v: Verdict, wire: Wire) {
    v.Admitted? && site.storage == RedisStore && y.now < v.exp && wire.Reply? ==>
      && site.server in y.servers && SetFits(site.prefix, v.nonce, v.exp - y.now)
      && (wire.first == '+' ==> !KeyLive(y.servers, site, v.nonce, y.now))
      && (wire.first in {'$', '_'} ==> KeyLive(y.servers, site, v.nonce, y.now))
  }

  /** The node's zone after a call. */
  function Stored(zones: Zones, s: Site, store: Store): Zones {
    if store.Some? then zones[s.zone := store.value] else zones
  }

  /** The Redis keys after an accepted use: the nonce's key lives as long as the challenge. */
  function Kept(servers: Servers, x: Use): Servers {
    if x.site.storage == RedisStore && x.site.server in servers
    then servers[x.site.server := servers[x.site.server][KeyOf(x.site, x.nonce) := x.exp]]
    else servers
  }

  /** The signed text a login hands to validate_consume, with what bounds its outcome. */
  ghost predicate Admissible(u: Setup, y: System, site: Site, c: Client, s: Signed, luck: Luck) {
    UnforgedText(u, y, site, c, s.plain) && Truthful(y, site, Checked(EnvOf(u, y.now, site, c, luck), s), luck.wire)
  }

  ghost predicate Enabled(u: Setup, y: System, t: Step) {
    && y.now >= 0
    && match t
       case Tick(_) => true
       case Configure(_, site) => site.Some? ==> Configured(u.origins, site.value)
       case NewZone(zone, _) => zone !in y.zones
       case NewServer(server, _) => server !in y.servers
       case Foreign(server, key, _) =>
         server in y.servers && !(key in y.servers[server] && y.now < y.servers[server][key])
       case Challenge(id, c, nonce) =>
         && id in y.sites && Genuine(u.origins, c) && NonceShape(nonce)
         && y.now + y.sites[id].challengeTimeout <= MAX_TIME
       case Submit(id, c, g, luck, _, _) =>
         && id in y.sites && Genuine(u.origins, c) && y.now + y.sites[id].sessionTimeout <= MAX_TIME
         && Admissible(u, y, y.sites[id], c, Reading(g), luck)
       case Post(id, c) => id in y.sites && Genuine(u.origins, c)
       case Thread(k, g, luck) =>
         && k < |y.jobs| && y.jobs[k].phase.Posted?
         && Admissible(u, y, y.jobs[k].site, y.jobs[k].c, Reading(g), luck)
       case Finish(k, _, _) =>
         k < |y.jobs| && y.jobs[k].phase.Judged? && y.now + y.jobs[k].site.sessionTimeout <= MAX_TIME
       case Access(id, c, cookie, _, _) =>
         && id in y.sites && Genuine(u.origins, c)
         && (cookie.Some? ==> UnforgedCookie(u, y, y.sites[id], c, cookie.value))
  }

  /** A login verified on the worker: revocation first, then challenge, nonce and grant, at one instant. */
  ghost function NextSubmit(
    u: Setup, y: System, id: nat, c: Client, s: Signed, luck: Luck, revoked: bool, granted: bool): System
    requires y.now >= 0 && id in y.sites
  {
    var site := y.sites[id];
    var env := EnvOf(u, y.now, site, c, luck);
    var (store, code) := Synchronous(env, ZoneOf(y.zones, site), s, revoked, granted);
    var used := s.ran && s.valid && !revoked && ValidateConsume(env, ZoneOf(y.zones, site), s.plain).1 == Ok;
    var x := NewUse(site, c, s, env);
    y.(zones := Stored(y.zones, site, store), servers := if used then Kept(y.servers, x) else y.servers,
       uses := if used then y.uses + [x] else y.uses,
       grants := if code == SeeOther then y.grants + [NewGrant(y.now, site, c, s.fpr, |y.uses|)] else y.grants)
  }

  /** The pool thread's part of a login: challenge and nonce, with the settings it was posted with. */
  ghost function NextThread(u: Setup, y: System, k: nat, s: Signed, luck: Luck): System
    requires k < |y.jobs|
  {
    var b := y.jobs[k];
    var env := EnvOf(u, y.now, b.site, b.c, luck);
    var (store, prior) := OnThread(env, ZoneOf(y.zones, b.site), s);
    var used := prior == Some(Ok);
    var x := NewUse(b.site, b.c, s, env);
    y.(zones := Stored(y.zones, b.site, store), servers := if used then Kept(y.servers, x) else y.servers,
       uses := if used then y.uses + [x] else y.uses,
       jobs := y.jobs[k := b.(phase := Judged(env, s, prior, if used then Some(|y.uses|) else None))])
  }

  /** The worker's part: revocation as it stands now, and the grant. */
  ghost function NextFinish(y: System, k: nat, revoked: Revoked, granted: bool): System
    requires y.now >= 0 && k < |y.jobs| && y.jobs[k].phase.Judged?
  {
    var b := y.jobs[k];
    var v := b.phase;
    var (store, code) :=
      Complete(v.env, ZoneOf(y.zones, b.site), v.signed, Denied(revoked, v.signed.fpr), v.prior, granted);
    var use := if v.use.Some? then v.use.value else 0;
    y.(zones := Stored(y.zones, b.site, store),
       jobs := y.jobs[k := b.(phase := Answered)],
       grants := if code == SeeOther then y.grants + [NewGrant(y.now, b.site, b.c, v.signed.fpr, use)] else y.grants)
  }

  ghost function Next(u: Setup, y: System, t: Step): System
    requires Enabled(u, y, t)
  {
    match t
    case Tick(d) => y.(now := y.now + d)
    case Configure(id, site) => y.(sites := if site.Some? then y.sites[id := site.value] else y.sites - {id})
    case NewZone(zone, nodes) => y.(zones := y.zones[zone := nodes])
    case NewServer(server, keys) => y.(servers := y.servers[server := keys])
    case Foreign(server, key, until) => y.(servers := y.servers[server := y.servers[server][key := until]])
    case Challenge(id, c, nonce) =>
      y.(challenges := y.challenges + [NewChallenge(y.now, y.sites[id], c, nonce)])
    case Submit(id, c, g, luck, revoked, granted) =>
      NextSubmit(u, y, id, c, Reading(g), luck, Denied(revoked, Reading(g).fpr), granted)
    case Post(id, c) => y.(jobs := y.jobs + [Job(y.sites[id], c, Posted)])
    case Thread(k, g, luck) => NextThread(u, y, k, Reading(g), luck)
    case Finish(k, revoked, granted) => NextFinish(y, k, revoked, granted)
    case Access(_, _, _, _, _) => y
  }

  ghost predicate Leads(u: Setup, y: System, t: Step, z: System) { Enabled(u, y, t) && z == Next(u, y, t) }

  /** Zones and Redis servers may hold anything at the start. */
  ghost predicate Start(u: Setup, y: System) {
    && y.now >= 0 && (forall id :: id in y.sites ==> Configured(u.origins, y.sites[id]))
    && y.challenges == [] && y.uses == [] && y.jobs == [] && y.grants == []
  }

  ghost predicate Run(u: Setup, ys: seq<System>, ts: seq<Step>) {
    && MakesTags(u.mac) && |ys| == |ts| + 1 && Start(u, ys[0])
    && forall i :: 0 <= i < |ts| ==> Leads(u, ys[i], ts[i], ys[i + 1])
  }

  // ---- what every step keeps ----

  /** A challenge as issued, by the clock of that moment. */
  ghost predicate ChallengeShape(c: Issued) {
    && c.fields.kind == CHAL && c.fields.data == ChallengePayload(c.exp, c.nonce) && NonceShape(c.nonce)
    && c.secret != [] && 0 <= c.at && c.exp <= MAX_TIME
    && c.at + Config.MIN_CHALLENGE <= c.exp <= c.at + Config.MAX_CHALLENGE
  }

  ghost predicate ChallengeFormed(o: Origins, y: System, c: Issued) {
    ChallengeShape(c) && Plausible(o, c.fields) && c.at <= y.now
  }

  /** The challenge in the signed text was issued before, under an accepted secret, over the same MAC input. */
  ghost predicate Signs(x: Use, c: Issued) {
    && ParseChallenge(x.signed.plain).Some? && Accepts(x.site.secrets, c.secret)
    && Frame(c.fields) == Frame(Submitted(x.site, x.c, ParseChallenge(x.signed.plain).value.payload))
    && c.at <= x.at
  }

  ghost predicate HasChallenge(y: System, x: Use) {
    exists q :: 0 <= q < |y.challenges| && Signs(x, y.challenges[q])
  }

  /** Nonce and expiry are those the payload spells out, and the store could be asked about them in time. */
  ghost predicate Spelled(x: Use) {
    && ParseChallenge(x.signed.plain).Some?
    && var b := ParseChallenge(x.signed.plain).value.payload;
       && Consumable(b) && x.nonce == SpelledName(b) && x.exp == SpelledExp(b)
       && 0 <= x.at <= Until(x.site.storage, x.exp)
       && (x.site.storage == RedisStore ==> SetFits(x.site.prefix, x.nonce, x.exp - x.at))
  }

  ghost predicate UseFormed(o: Origins, y: System, x: Use) {
    && x.signed.ran && x.signed.valid && FprShape(x.signed.fpr) && x.at <= y.now
    && Configured(o, x.site) && Genuine(o, x.c) && Spelled(x) && HasChallenge(y, x)
  }

  /** The challenge a pool login consumed. */
  predicate UseOf(x: Use, b: Job)
    requires b.phase.Judged?
  {
    x.site == b.site && x.c == b.c && x.signed == b.phase.signed
  }

  ghost predicate JobFormed(o: Origins, y: System, b: Job) {
    && Configured(o, b.site) && Genuine(o, b.c)
    && (b.phase.Judged? ==>
          var v := b.phase;
          && (v.prior.Some? <==> v.signed.ran && v.signed.valid) && v.prior != Some(SeeOther)
          && (v.prior == Some(Ok) <==> v.use.Some?)
          && (v.use.Some? ==> v.use.value < |y.uses| && UseOf(y.uses[v.use.value], b)))
  }

  ghost predicate GrantFormed(y: System, g: Granted) {
    && g.use < |y.uses| && g.exp <= MAX_TIME && (g.exp == 0 || g.exp <= y.now + Config.MAX_SESSION)
    && var x := y.uses[g.use];
       && g.secret == x.site.secrets.current && g.fpr == x.signed.fpr
       && g.fields == Presented(x.site, x.c, SessionPayload(g.exp, g.fpr))
  }

  ghost predicate WellFormed(o: Origins, y: System) {
    && y.now >= 0
    && (forall id :: id in y.sites ==> Configured(o, y.sites[id]))
    && (forall i :: 0 <= i < |y.challenges| ==> ChallengeFormed(o, y, y.challenges[i]))
    && (forall i :: 0 <= i < |y.uses| ==> UseFormed(o, y, y.uses[i]))
    && (forall i :: 0 <= i < |y.jobs| ==> JobFormed(o, y, y.jobs[i]))
    && (forall i :: 0 <= i < |y.grants| ==> GrantFormed(y, y.grants[i]))
  }

  /** What is well formed stays so when the histories grow. */
  lemma UseStays(o: Origins, y: System, z: System, x: Use)
    requires UseFormed(o, y, x) && y.challenges <= z.challenges && y.now <= z.now
    ensures UseFormed(o, z, x)
  {
    var q :| 0 <= q < |y.challenges| && Signs(x, y.challenges[q]);
    assert z.challenges[q] == y.challenges[q];
  }

  lemma UsesStay(o: Origins, y: System, z: System)
    requires y.challenges <= z.challenges && y.uses <= z.uses && y.now <= z.now
    requires forall i :: 0 <= i < |y.uses| ==> UseFormed(o, y, y.uses[i])
    requires forall i :: |y.uses| <= i < |z.uses| ==> UseFormed(o, z, z.uses[i])
    ensures forall i :: 0 <= i < |z.uses| ==> UseFormed(o, z, z.uses[i])
  {
    forall i | 0 <= i < |z.uses| ensures UseFormed(o, z, z.uses[i]) {
      if i < |y.uses| {
        assert z.uses[i] == y.uses[i];
        UseStays(o, y, z, z.uses[i]);
      }
    }
  }

  /** A step that only adds well-formed entries. */
  lemma Grows(o: Origins, y: System, z: System)
    requires WellFormed(o, y) && y.now <= z.now
    requires forall id :: id in z.sites ==> Configured(o, z.sites[id])
    requires y.challenges <= z.challenges && y.uses <= z.uses && y.grants <= z.grants && |y.jobs| <= |z.jobs|
    requires forall i :: |y.challenges| <= i < |z.challenges| ==> ChallengeFormed(o, z, z.challenges[i])
    requires forall i :: |y.uses| <= i < |z.uses| ==> UseFormed(o, z, z.uses[i])
    requires forall i :: 0 <= i < |z.jobs| ==> (i < |y.jobs| && z.jobs[i] == y.jobs[i]) || JobFormed(o, z, z.jobs[i])
    requires forall i :: |y.grants| <= i < |z.grants| ==> GrantFormed(z, z.grants[i])
    ensures WellFormed(o, z)
  {
    forall i | 0 <= i < |z.challenges| ensures ChallengeFormed(o, z, z.challenges[i]) {
      if i < |y.challenges| {
        assert z.challenges[i] == y.challenges[i];
        assert ChallengeFormed(o, y, y.challenges[i]);
      }
    }
    UsesStay(o, y, z);
    assert forall i :: 0 <= i < |y.uses| ==> z.uses[i] == y.uses[i];
    forall i | 0 <= i < |z.jobs| ensures JobFormed(o, z, z.jobs[i]) {
      if i < |y.jobs| && z.jobs[i] == y.jobs[i] { assert JobFormed(o, y, y.jobs[i]); }
    }
    forall i | 0 <= i < |z.grants| ensures GrantFormed(z, z.grants[i]) {
      if i < |y.grants| {
        assert z.grants[i] == y.grants[i];
        assert GrantFormed(y, y.grants[i]);
      }
    }
  }

  /** A right challenge tag leads to an issued challenge with the same MAC input. */
  lemma TagLeadsToChallenge(u: Setup, y: System, s: Secrets, f: Fields, tag: Bytes, h: Hmac) returns (q: nat)
    requires WellFormed(u.origins, y) && Unforged(u, y, s, f, tag) && TagOk(u.mac, s, f, tag, h) && f.kind == CHAL
    ensures q < |y.challenges| && Accepts(s, y.challenges[q].secret) && Frame(y.challenges[q].fields) == Frame(f)
    ensures y.challenges[q].at <= y.now
  {
    var secret := if tag == u.mac(s.current, Frame(f)) then s.current else s.previous;
    if TaggedGrant(y, secret, Frame(f)) {
      var i :| 0 <= i < |y.grants| && y.grants[i].secret == secret && Frame(y.grants[i].fields) == Frame(f);
      assert GrantFormed(y, y.grants[i]);
      KindsSeparate(f, y.grants[i].fields);
    }
    q :| 0 <= q < |y.challenges| && y.challenges[q].secret == secret && Frame(y.challenges[q].fields) == Frame(f);
    assert ChallengeFormed(u.origins, y, y.challenges[q]);
  }

  /** A right session tag leads to a grant with the same MAC input. */
  lemma TagLeadsToGrant(u: Setup, y: System, s: Secrets, f: Fields, tag: Bytes, h: Hmac) returns (i: nat)
    requires WellFormed(u.origins, y) && Unforged(u, y, s, f, tag) && TagOk(u.mac, s, f, tag, h) && f.kind == SESS
    ensures i < |y.grants| && Accepts(s, y.grants[i].secret) && Frame(y.grants[i].fields) == Frame(f)
  {
    var secret := if tag == u.mac(s.current, Frame(f)) then s.current else s.previous;
    if TaggedChallenge(y, secret, Frame(f)) {
      var q :| 0 <= q < |y.challenges| && y.challenges[q].secret == secret && Frame(y.challenges[q].fields) == Frame(f);
      assert ChallengeFormed(u.origins, y, y.challenges[q]);
      KindsSeparate(y.challenges[q].fields, f);
    }
    i :| 0 <= i < |y.grants| && y.grants[i].secret == secret && Frame(y.grants[i].fields) == Frame(f);
  }

  /** An accepted tag has the length of a tag. */
  lemma TagLength(u: Setup, s: Secrets, f: Fields, tag: Bytes, h: Hmac)
    requires MakesTags(u.mac) && TagOk(u.mac, s, f, tag, h)
    ensures |tag| == 64
  {
    assert IsTag(u.mac(s.current, Frame(f))) && IsTag(u.mac(s.previous, Frame(f)));
  }

  /** What an accepted consumption read off the signed text. */
  lemma AcceptedIsSpelled(u: Setup, y: System, site: Site, c: Client, s: Signed, luck: Luck)
    requires MakesTags(u.mac) && y.now >= 0 && |s.plain| < PLAINTEXT_MAX
    requires Truthful(y, site, Checked(EnvOf(u, y.now, site, c, luck), s), luck.wire)
    requires ValidateConsume(EnvOf(u, y.now, site, c, luck), ZoneOf(y.zones, site), s.plain).1 == Ok
    ensures Spelled(NewUse(site, c, s, EnvOf(u, y.now, site, c, luck)))
  {
    var env, p := EnvOf(u, y.now, site, c, luck), ParseChallenge(s.plain).value;
    TagLength(u, site.secrets, Submitted(site, c, p.payload), p.tag, luck.h);
    ParsedConsumable(s.plain);
    var v := Checked(env, s);
    AcceptedInTime(site.storage, ZoneOf(y.zones, site), Call(v.nonce, v.exp, env.now, env.alloc, env.retry), env.wire);
  }

  /** With Redis only a "+" before the expiry is accepted. */
  lemma AcceptedInTime(storage: Storage, store: Store, call: Call, wire: Wire)
    requires CheckAndSetStep(storage, store, call, wire).1 == Ok
    ensures storage == RedisStore ==> wire == Reply('+') && call.now < call.exp
  {
  }

  /** A consumed challenge was issued. */
  lemma UseIsFormed(u: Setup, y: System, site: Site, c: Client, s: Signed, luck: Luck)
    requires MakesTags(u.mac) && WellFormed(u.origins, y) && Configured(u.origins, site) && Genuine(u.origins, c)
    requires SignedShape(s) && Admissible(u, y, site, c, s, luck) && s.ran && s.valid
    requires ValidateConsume(EnvOf(u, y.now, site, c, luck), ZoneOf(y.zones, site), s.plain).1 == Ok
    ensures UseFormed(u.origins, y, NewUse(site, c, s, EnvOf(u, y.now, site, c, luck)))
  {
    AcceptedIsSpelled(u, y, site, c, s, luck);
    var p := ParseChallenge(s.plain).value;
    var q := TagLeadsToChallenge(u, y, site.secrets, Submitted(site, c, p.payload), p.tag, luck.h);
    assert Signs(NewUse(site, c, s, EnvOf(u, y.now, site, c, luck)), y.challenges[q]);
  }

  /** Adding a formed use and possibly its grant. */
  lemma AddsUse(o: Origins, y: System, z: System, site: Site, c: Client, s: Signed, env: Env)
    requires WellFormed(o, y) && y.now + site.sessionTimeout <= MAX_TIME && UseFormed(o, y, NewUse(site, c, s, env))
    requires z == y.(zones := z.zones, servers := z.servers, uses := y.uses + [NewUse(site, c, s, env)],
                     grants := z.grants)
    requires z.grants == y.grants || z.grants == y.grants + [NewGrant(y.now, site, c, s.fpr, |y.uses|)]
    ensures WellFormed(o, z)
  {
    var x := NewUse(site, c, s, env);
    UseStays(o, y, z, x);
    assert z.uses[|y.uses|] == x;
    Grows(o, y, z);
  }

  /** A login on the worker keeps the histories well formed, whatever gpg reported. */
  lemma SubmitKeeps(u: Setup, y: System, id: nat, c: Client, s: Signed, luck: Luck, revoked: bool, granted: bool)
    requires MakesTags(u.mac) && WellFormed(u.origins, y) && id in y.sites && Genuine(u.origins, c)
    requires y.now + y.sites[id].sessionTimeout <= MAX_TIME
    requires SignedShape(s) && Admissible(u, y, y.sites[id], c, s, luck)
    ensures var z := NextSubmit(u, y, id, c, s, luck, revoked, granted);
      WellFormed(u.origins, z) && (|z.grants| > |y.grants| ==> !revoked && |z.uses| > |y.uses|)
  {
    var z, site := NextSubmit(u, y, id, c, s, luck, revoked, granted), y.sites[id];
    var env := EnvOf(u, y.now, site, c, luck);
    if |z.grants| > |y.grants| { GrantNeeds(false, env, ZoneOf(y.zones, site), s, revoked, granted); }
    if |z.uses| > |y.uses| {
      UseIsFormed(u, y, site, c, s, luck);
      AddsUse(u.origins, y, z, site, c, s, env);
    } else {
      Grows(u.origins, y, z);
    }
  }

  /** The pool thread's part keeps them, and records what the worker will need. */
  lemma ThreadKeeps(u: Setup, y: System, k: nat, s: Signed, luck: Luck)
    requires MakesTags(u.mac) && WellFormed(u.origins, y) && k < |y.jobs|
    requires SignedShape(s) && Admissible(u, y, y.jobs[k].site, y.jobs[k].c, s, luck)
    ensures WellFormed(u.origins, NextThread(u, y, k, s, luck))
  {
    var z, b := NextThread(u, y, k, s, luck), y.jobs[k];
    var env := EnvOf(u, y.now, b.site, b.c, luck);
    assert JobFormed(u.origins, y, b);
    ThreadCodes(env, ZoneOf(y.zones, b.site), s);
    if |z.uses| > |y.uses| {
      UseIsFormed(u, y, b.site, b.c, s, luck);
      UseStays(u.origins, y, z, NewUse(b.site, b.c, s, env));
    }
    assert JobFormed(u.origins, z, z.jobs[k]);
    assert forall i :: 0 <= i < |y.jobs| && i != k ==> z.jobs[i] == y.jobs[i];
    Grows(u.origins, y, z);
  }

  lemma SameStored(zones: Zones, s: Site)
    ensures Stored(zones, s, ZoneOf(zones, s)) == zones
  {
  }

  /** The worker's part consumes nothing and grants only what the thread admitted, to a key not revoked now. */
  lemma FinishGrants(o: Origins, y: System, k: nat, revoked: Revoked, granted: bool)
    requires y.now >= 0 && k < |y.jobs| && JobFormed(o, y, y.jobs[k]) && y.jobs[k].phase.Judged?
    ensures var z, b := NextFinish(y, k, revoked, granted), y.jobs[k];
      && z == y.(jobs := y.jobs[k := b.(phase := Answered)], grants := z.grants)
      && (z.grants != y.grants ==>
            && b.phase.use.Some? && !Denied(revoked, b.phase.signed.fpr)
            && z.grants == y.grants + [NewGrant(y.now, b.site, b.c, b.phase.signed.fpr, b.phase.use.value)])
  {
    var b := y.jobs[k];
    var v, zone := b.phase, ZoneOf(y.zones, b.site);
    CompleteGrants(v.env, zone, v.signed, Denied(revoked, v.signed.fpr), v.prior, granted);
    SameStored(y.zones, b.site);
  }

  lemma FinishKeeps(o: Origins, y: System, k: nat, revoked: Revoked, granted: bool)
    requires WellFormed(o, y) && k < |y.jobs| && y.jobs[k].phase.Judged?
    requires y.now + y.jobs[k].site.sessionTimeout <= MAX_TIME
    ensures WellFormed(o, NextFinish(y, k, revoked, granted))
  {
    assert JobFormed(o, y, y.jobs[k]);
    FinishGrants(o, y, k, revoked, granted);
    AnswerKeeps(o, y, NextFinish(y, k, revoked, granted), k);
  }

  lemma AnswerKeeps(o: Origins, y: System, z: System, k: nat)
    requires WellFormed(o, y) && k < |y.jobs| && y.jobs[k].phase.Judged?
    requires y.now + y.jobs[k].site.sessionTimeout <= MAX_TIME
    requires z == y.(jobs := y.jobs[k := y.jobs[k].(phase := Answered)], grants := z.grants)
    requires z.grants != y.grants ==>
               var b := y.jobs[k];
               && b.phase.use.Some?
               && z.grants == y.grants + [NewGrant(y.now, b.site, b.c, b.phase.signed.fpr, b.phase.use.value)]
    ensures WellFormed(o, z)
  {
    assert JobFormed(o, y, y.jobs[k]);
    assert forall i :: 0 <= i < |y.jobs| && i != k ==> z.jobs[i] == y.jobs[i];
    Grows(o, y, z);
  }

  lemma BoundPlausible(o: Origins, s: Site, c: Client, kind: Bytes, data: Bytes)
    requires Configured(o, s) && Genuine(o, c)
    ensures Plausible(o, Fields(kind, s.keyring, data, BoundIp(s, c), BoundUa(s, c)))
  {
  }

  lemma ChallengeKeeps(o: Origins, y: System, id: nat, c: Client, nonce: Bytes)
    requires WellFormed(o, y) && id in y.sites && Genuine(o, c) && NonceShape(nonce)
    requires y.now + y.sites[id].challengeTimeout <= MAX_TIME
    ensures WellFormed(o, y.(challenges := y.challenges + [NewChallenge(y.now, y.sites[id], c, nonce)]))
  {
    var z := y.(challenges := y.challenges + [NewChallenge(y.now, y.sites[id], c, nonce)]);
    BoundPlausible(o, y.sites[id], c, CHAL, z.challenges[|y.challenges|].fields.data);
    Grows(o, y, z);
  }

  /** The steps that touch neither challenges nor logins. */
  lemma SettingsKeep(u: Setup, y: System, t: Step)
    requires WellFormed(u.origins, y) && Enabled(u, y, t)
    requires t.Tick? || t.Configure? || t.NewZone? || t.NewServer? || t.Foreign? || t.Access? || t.Post?
    ensures WellFormed(u.origins, Next(u, y, t))
  {
    Grows(u.origins, y, Next(u, y, t));
  }

  lemma LoginKeeps(u: Setup, y: System, t: Step, z: System)
    requires MakesTags(u.mac) && WellFormed(u.origins, y) && Leads(u, y, t, z) && (t.Submit? || t.Thread?)
    ensures WellFormed(u.origins, z)
  {
    if t.Submit? {
      SubmitKeeps(u, y, t.id, t.c, Reading(t.g), t.luck, Denied(t.revoked, Reading(t.g).fpr), t.granted);
    } else {
      ThreadKeeps(u, y, t.job, Reading(t.g), t.luck);
    }
  }

  lemma StepKeeps(u: Setup, y: System, t: Step, z: System)
    requires MakesTags(u.mac) && WellFormed(u.origins, y) && Leads(u, y, t, z)
    ensures WellFormed(u.origins, z)
  {
    if t.Submit? || t.Thread? {
      LoginKeeps(u, y, t, z);
    } else if t.Finish? {
      FinishKeeps(u.origins, y, t.job, t.revoked, t.granted);
    } else if t.Challenge? {
      ChallengeKeeps(u.origins, y, t.id, t.c, t.nonce);
    } else {
      SettingsKeep(u, y, t);
    }
  }

  lemma {:induction false} RunKeeps(u: Setup, ys: seq<System>, ts: seq<Step>, n: nat)
    requires Run(u, ys, ts) && n < |ys|
    ensures WellFormed(u.origins, ys[n])
  {
    if n > 0 {
      RunKeeps(u, ys, ts, n - 1);
      StepKeeps(u, ys[n - 1], ts[n - 1], ys[n]);
    }
  }

  // ---- who gets in ----

  /** A grant for this keyring and client, under an accepted secret, unexpired and not revoked now. */
  ghost predicate Covers(y: System, t: Step, g: Granted)
    requires t.Access? && t.id in y.sites
  {
    var s := y.sites[t.id];
    && Accepts(s.secrets, g.secret)
    && g.fields.scope == s.keyring && g.fields.ip == BoundIp(s, t.c) && g.fields.ua == BoundUa(s, t.c)
    && (g.exp == 0 || y.now <= g.exp) && !Denied(t.revoked, g.fpr)
  }

  /** The consumed challenge is this one: issued for the same keyring and client, with this nonce and expiry. */
  ghost predicate Answers(x: Use, c: Issued) {
    && Accepts(x.site.secrets, c.secret)
    && c.fields.scope == x.site.keyring && c.fields.ip == BoundIp(x.site, x.c) && c.fields.ua == BoundUa(x.site, x.c)
    && c.nonce == x.nonce && c.exp == x.exp && c.at <= x.at <= c.exp
  }

  /** The MAC input a login consumed. */
  function Consumed(x: Use): Fields
    requires ParseChallenge(x.signed.plain).Some?
  {
    Submitted(x.site, x.c, ParseChallenge(x.signed.plain).value.payload)
  }

  /** The MAC input of an access that presents a cookie. */
  function AccessFields(y: System, t: Step): Fields
    requires t.Access? && t.id in y.sites && t.cookie.Some? && ParseCookie(t.cookie.value).Some?
  {
    Presented(y.sites[t.id], t.c, ParseCookie(t.cookie.value).value.payload)
  }

  /** The payload check_session finds in a cookie is well spelt, and unexpired, whenever the session passes. */
  lemma PassesWellspelt(u: Setup, y: System, t: Step)
    requires t.Access? && t.id in y.sites && HasSession(u, y, t) && y.now >= 0
    ensures var b := AccessFields(y, t).data;
      && Wellspelt(b) && (CookieExp(b) == 0 || y.now <= CookieExp(b))
      && CookieFpr(b) == ParseCookie(t.cookie.value).value.name && !Denied(t.revoked, CookieFpr(b))
  {
    var c := t.cookie.value;
    var s1 := IndexOf(c, BAR, 0, |c|);
    var s2 := IndexOf(c, BAR, s1 + 1, |c|);
    var b := c[..s2];
    assert forall k :: 0 <= k < s1 ==> b[k] == c[k];
    IndexOfAt(b, BAR, 0, s1, |b|);
    assert b[..s1] == c[..s1] && b[s1 + 1..] == c[s1 + 1..s2];
    AbsentFree(c, BAR, s1 + 1, s2);
  }

  /** A grant with the very fields of a passing cookie covers the request. */
  lemma SameFieldsCover(u: Setup, y: System, t: Step, g: Granted)
    requires t.Access? && t.id in y.sites && HasSession(u, y, t) && y.now >= 0
    requires g.exp <= MAX_TIME && FprShape(g.fpr) && g.fields.data == SessionPayload(g.exp, g.fpr)
    requires Accepts(y.sites[t.id].secrets, g.secret) && g.fields == AccessFields(y, t)
    ensures Covers(y, t, g) && g.fpr == ParseCookie(t.cookie.value).value.name
  {
    PassesWellspelt(u, y, t);
    GrantedSpells(g.exp, g.fpr);
  }

  /** A grant that shares the MAC input of a passing cookie is another session for it, or has its very fields. */
  lemma SharedFrameReads(u: Setup, y: System, t: Step, i: nat)
    requires WellFormed(u.origins, y) && t.Access? && t.id in y.sites && HasSession(u, y, t) && i < |y.grants|
    requires Frame(y.grants[i].fields) == Frame(AccessFields(y, t))
    ensures y.grants[i].fields == AccessFields(y, t) || OtherSession(u.origins, AccessFields(y, t))
  {
    var g := y.grants[i];
    assert GrantFormed(y, g);
    var x := y.uses[g.use];
    assert UseFormed(u.origins, y, x);
    BoundPlausible(u.origins, x.site, x.c, SESS, SessionPayload(g.exp, g.fpr));
    PassesWellspelt(u, y, t);
    if g.fields != AccessFields(y, t) {
      OtherSessionIsCut(u.origins, AccessFields(y, t), g.fields, g.exp, g.fpr);
    }
  }

  /** A passing cookie whose MAC input reads in one way only leads to a covering grant. */
  lemma PassingIsCovered(u: Setup, y: System, t: Step) returns (i: nat)
    requires WellFormed(u.origins, y) && t.Access? && Enabled(u, y, t) && HasSession(u, y, t)
    requires !OtherSession(u.origins, AccessFields(y, t))
    ensures i < |y.grants| && Covers(y, t, y.grants[i]) && y.grants[i].fields == AccessFields(y, t)
    ensures y.grants[i].fpr == ParseCookie(t.cookie.value).value.name
  {
    i := TagLeadsToGrant(u, y, y.sites[t.id].secrets, AccessFields(y, t), ParseCookie(t.cookie.value).value.tag, t.h);
    SharedFrameReads(u, y, t, i);
    assert GrantFormed(y, y.grants[i]);
    assert UseFormed(u.origins, y, y.uses[y.grants[i].use]);
    SameFieldsCover(u, y, t, y.grants[i]);
  }

  /** A consumed challenge whose MAC input reads in one way only is the issued one. */
  lemma SignedIsAnswered(o: Origins, x: Use, c: Issued)
    requires Signs(x, c) && Spelled(x) && ChallengeShape(c) && Plausible(o, c.fields)
    requires !OtherChallenge(o, x.site.storage, Consumed(x))
    ensures Answers(x, c) && c.fields == Consumed(x)
  {
    if c.fields != Consumed(x) {
      OtherChallengeIsCut(o, x.site.storage, Consumed(x), c.fields, c.exp, c.nonce);
    }
    IssuedConsumable(c.exp, c.nonce);
  }

  /** The use behind a grant, and a challenge it signed. */
  lemma GrantHasChallenge(o: Origins, y: System, i: nat) returns (q: nat)
    requires WellFormed(o, y) && i < |y.grants|
    ensures y.grants[i].use < |y.uses| && q < |y.challenges|
    ensures var x, c := y.uses[y.grants[i].use], y.challenges[q];
      && x.signed.ran && x.signed.valid && x.signed.fpr == y.grants[i].fpr && Spelled(x) && Signs(x, c)
      && (!OtherChallenge(o, x.site.storage, Consumed(x)) ==> Answers(x, c))
  {
    assert GrantFormed(y, y.grants[i]);
    var x := y.uses[y.grants[i].use];
    assert UseFormed(o, y, x);
    q :| 0 <= q < |y.challenges| && Signs(x, y.challenges[q]);
    assert ChallengeFormed(o, y, y.challenges[q]);
    if !OtherChallenge(o, x.site.storage, Consumed(x)) { SignedIsAnswered(o, x, y.challenges[q]); }
  }

  /**
   * In every run, a request past a location with the module on, whose cookie reads in
   * one way only, has a grant for that keyring and client, unexpired and not revoked now; the
   * grant followed a valid signature by that key over the MAC input of an issued
   * challenge, consumed no later than the expiry it spells; and where the signed challenge
   * reads in one way only, it was issued for the same keyring and client. Nothing is
   * assumed of any other token.
   */
  lemma AuthenticatedAccess(
    u: Setup, ys: seq<System>, ts: seq<Step>, n: nat, main: bool, banned: bool, submission: bool, tooLarge: bool)
    returns (i: nat, q: nat)
    requires Run(u, ys, ts) && n < |ts| && ts[n].Access? && ts[n].id in ys[n].sites
    requires Handle(true, HasSession(u, ys[n], ts[n]), main, banned, submission, tooLarge) == Proceed
    requires !OtherSession(u.origins, AccessFields(ys[n], ts[n]))
    ensures i < |ys[n].grants| && Covers(ys[n], ts[n], ys[n].grants[i])
    ensures ys[n].grants[i].use < |ys[n].uses| && q < |ys[n].challenges|
    ensures var x, c := ys[n].uses[ys[n].grants[i].use], ys[n].challenges[q];
      && x.signed.ran && x.signed.valid && x.signed.fpr == ys[n].grants[i].fpr && Spelled(x) && Signs(x, c)
      && (!OtherChallenge(u.origins, x.site.storage, Consumed(x)) ==>
            Answers(x, c) && c.fields.scope == ys[n].sites[ts[n].id].keyring)
  {
    RunKeeps(u, ys, ts, n);
    assert Leads(u, ys[n], ts[n], ys[n + 1]);
    i := PassingIsCovered(u, ys[n], ts[n]);
    q := GrantHasChallenge(u.origins, ys[n], i);
    assert GrantFormed(ys[n], ys[n].grants[i]);
  }

  /** Where the request's fields hold no separator, neither do those of the login behind its grant. */
  lemma CoveredConsumption(o: Origins, y: System, t: Step, i: nat)
    requires WellFormed(o, y) && t.Access? && t.id in y.sites && i < |y.grants| && Covers(y, t, y.grants[i])
    requires var s := y.sites[t.id]; Free(s.keyring, SEP) && Free(BoundIp(s, t.c), SEP) && Free(BoundUa(s, t.c), SEP)
    requires y.grants[i].use < |y.uses| && ParseChallenge(y.uses[y.grants[i].use].signed.plain).Some?
    requires Free(ParseChallenge(y.uses[y.grants[i].use].signed.plain).value.payload, SEP)
    ensures forall storage :: !OtherChallenge(o, storage, Consumed(y.uses[y.grants[i].use]))
  {
    assert GrantFormed(y, y.grants[i]);
    forall storage ensures !OtherChallenge(o, storage, Consumed(y.uses[y.grants[i].use])) {
      SepFreeNoOtherChallenge(o, storage, Consumed(y.uses[y.grants[i].use]));
    }
  }

  /** In particular for a request without the separator byte, whatever bytes other clients send. */
  lemma PlainRequestAuthenticated(u: Setup, ys: seq<System>, ts: seq<Step>, n: nat) returns (i: nat, q: nat)
    requires Run(u, ys, ts) && n < |ts| && ts[n].Access? && ts[n].id in ys[n].sites && HasSession(u, ys[n], ts[n])
    requires var s := ys[n].sites[ts[n].id];
      && Free(ts[n].cookie.value, SEP) && Free(s.keyring, SEP)
      && Free(BoundIp(s, ts[n].c), SEP) && Free(BoundUa(s, ts[n].c), SEP)
    ensures i < |ys[n].grants| && Covers(ys[n], ts[n], ys[n].grants[i])
    ensures ys[n].grants[i].use < |ys[n].uses| && q < |ys[n].challenges|
    ensures var x, c := ys[n].uses[ys[n].grants[i].use], ys[n].challenges[q];
      && x.signed.ran && x.signed.valid && x.signed.fpr == ys[n].grants[i].fpr && Signs(x, c)
      && (Free(ParseChallenge(x.signed.plain).value.payload, SEP) ==> Answers(x, c))
  {
    var y, t := ys[n], ts[n];
    SepFreeNoOther(u.origins, AccessFields(y, t));
    i, q := AuthenticatedAccess(u, ys, ts, n, true, false, false, false);
    RunKeeps(u, ys, ts, n);
    if Free(ParseChallenge(y.uses[y.grants[i].use].signed.plain).value.payload, SEP) {
      CoveredConsumption(u.origins, y, t, i);
    }
  }

  // ---- one grant per consumed challenge ----

  ghost predicate Pending(b: Job) { b.phase.Judged? && b.phase.use.Some? }

  /** No consumed challenge serves two grants, or a grant and a login still in flight. */
  ghost predicate UsedOnce(y: System) {
    && (forall i, j :: 0 <= i < j < |y.grants| ==> y.grants[i].use != y.grants[j].use)
    && (forall k, i :: 0 <= k < |y.jobs| && 0 <= i < |y.grants| && Pending(y.jobs[k]) ==>
          y.jobs[k].phase.use.value != y.grants[i].use)
    && (forall k, m :: 0 <= k < m < |y.jobs| && Pending(y.jobs[k]) && Pending(y.jobs[m]) ==>
          y.jobs[k].phase.use.value != y.jobs[m].phase.use.value)
  }

  /** A new grant may take a consumed challenge nothing else refers to. */
  lemma NewGrantOnce(y: System, z: System, g: Granted)
    requires UsedOnce(y) && z.jobs == y.jobs && z.grants == y.grants + [g]
    requires forall i :: 0 <= i < |y.grants| ==> y.grants[i].use != g.use
    requires forall k :: 0 <= k < |y.jobs| && Pending(y.jobs[k]) ==> y.jobs[k].phase.use.value != g.use
    ensures UsedOnce(z)
  {
  }

  /** A job that moves on gives up its challenge, or takes one nothing else refers to. */
  lemma MovedJobOnce(y: System, z: System, k: nat)
    requires UsedOnce(y) && k < |y.jobs| == |z.jobs| && z.grants == y.grants && z.jobs == y.jobs[k := z.jobs[k]]
    requires Pending(z.jobs[k]) ==>
               var use := z.jobs[k].phase.use.value;
               && (forall i :: 0 <= i < |y.grants| ==> y.grants[i].use != use)
               && (forall m :: 0 <= m < |y.jobs| && Pending(y.jobs[m]) ==> y.jobs[m].phase.use.value != use)
    ensures UsedOnce(z)
  {
  }

  /** Everything referred to so far is an earlier use than the next. */
  lemma NextUseUnused(o: Origins, y: System)
    requires WellFormed(o, y)
    ensures forall i :: 0 <= i < |y.grants| ==> y.grants[i].use < |y.uses|
    ensures forall k :: 0 <= k < |y.jobs| && Pending(y.jobs[k]) ==> y.jobs[k].phase.use.value < |y.uses|
  {
    forall i | 0 <= i < |y.grants| ensures y.grants[i].use < |y.uses| { assert GrantFormed(y, y.grants[i]); }
    forall k | 0 <= k < |y.jobs| && Pending(y.jobs[k]) ensures y.jobs[k].phase.use.value < |y.uses| {
      assert JobFormed(o, y, y.jobs[k]);
    }
  }

  lemma FinishUsedOnce(o: Origins, y: System, k: nat, revoked: Revoked, granted: bool)
    requires y.now >= 0 && UsedOnce(y) && k < |y.jobs| && JobFormed(o, y, y.jobs[k]) && y.jobs[k].phase.Judged?
    ensures UsedOnce(NextFinish(y, k, revoked, granted))
  {
    var z := NextFinish(y, k, revoked, granted);
    FinishGrants(o, y, k, revoked, granted);
    var w := y.(jobs := z.jobs);
    MovedJobOnce(y, w, k);
    if z.grants != y.grants { NewGrantOnce(w, z, z.grants[|y.grants|]); }
  }

  lemma SubmitUsedOnce(
    u: Setup, y: System, id: nat, c: Client, s: Signed, luck: Luck, revoked: bool, granted: bool)
    requires WellFormed(u.origins, y) && UsedOnce(y) && id in y.sites
    ensures UsedOnce(NextSubmit(u, y, id, c, s, luck, revoked, granted))
  {
    var z := NextSubmit(u, y, id, c, s, luck, revoked, granted);
    NextUseUnused(u.origins, y);
    if z.grants != y.grants { NewGrantOnce(y, z, z.grants[|y.grants|]); }
  }

  lemma ThreadUsedOnce(u: Setup, y: System, k: nat, s: Signed, luck: Luck)
    requires WellFormed(u.origins, y) && UsedOnce(y) && k < |y.jobs|
    ensures UsedOnce(NextThread(u, y, k, s, luck))
  {
    NextUseUnused(u.origins, y);
    MovedJobOnce(y, NextThread(u, y, k, s, luck), k);
  }

  lemma PostUsedOnce(y: System, z: System, b: Job)
    requires UsedOnce(y) && z.grants == y.grants && z.jobs == y.jobs + [b] && !Pending(b)
    ensures UsedOnce(z)
  {
  }

  predicate Idle(t: Step) { !t.Submit? && !t.Thread? && !t.Finish? && !t.Post? }

  /** What the other steps leave alone. */
  lemma IdleStep(u: Setup, y: System, t: Step)
    requires Idle(t) && Enabled(u, y, t)
    ensures var z := Next(u, y, t);
      && z.jobs == y.jobs && z.grants == y.grants && z.uses == y.uses && y.now <= z.now
      && (forall k :: k in y.zones ==> k in z.zones && z.zones[k] == y.zones[k])
      && (forall k, key :: k in y.servers && key in y.servers[k] && y.now < y.servers[k][key] ==>
            k in z.servers && key in z.servers[k] && z.servers[k][key] == y.servers[k][key])
  {
  }

  lemma IdleUsedOnce(u: Setup, y: System, t: Step)
    requires (Idle(t) || t.Post?) && Enabled(u, y, t) && UsedOnce(y)
    ensures UsedOnce(Next(u, y, t))
  {
    if t.Post? {
      PostUsedOnce(y, Next(u, y, t), Job(y.sites[t.id], t.c, Posted));
    } else {
      IdleStep(u, y, t);
    }
  }

  lemma LoginUsedOnce(u: Setup, y: System, t: Step, z: System)
    requires WellFormed(u.origins, y) && UsedOnce(y) && Leads(u, y, t, z) && (t.Submit? || t.Thread?)
    ensures UsedOnce(z)
  {
    if t.Submit? {
      SubmitUsedOnce(u, y, t.id, t.c, Reading(t.g), t.luck, Denied(t.revoked, Reading(t.g).fpr), t.granted);
    } else {
      ThreadUsedOnce(u, y, t.job, Reading(t.g), t.luck);
    }
  }

  lemma UsedOnceKeeps(u: Setup, y: System, t: Step, z: System)
    requires WellFormed(u.origins, y) && UsedOnce(y) && Leads(u, y, t, z)
    ensures UsedOnce(z)
  {
    if t.Submit? || t.Thread? {
      LoginUsedOnce(u, y, t, z);
    } else if t.Finish? {
      assert JobFormed(u.origins, y, y.jobs[t.job]);
      FinishUsedOnce(u.origins, y, t.job, t.revoked, t.granted);
    } else {
      IdleUsedOnce(u, y, t);
    }
  }

  // ---- one use per challenge and store ----

  /** Two locations that track single use together: one node's zone, or one Redis and key prefix. */
  predicate SameStore(a: Site, b: Site) {
    || (a.storage == b.storage == MemoryStore && a.zone == b.zone)
    || (a.storage == b.storage == RedisStore && a.server == b.server && a.prefix == b.prefix)
  }

  predicate SameEntry(x: Use, w: Use) {
    || (x.site.storage == w.site.storage == MemoryStore && x.site.zone == w.site.zone && x.nonce == w.nonce)
    || (x.site.storage == w.site.storage == RedisStore && x.site.server == w.site.server
        && KeyOf(x.site, x.nonce) == KeyOf(w.site, w.nonce))
  }

  /** The store a use went to still knows it. */
  ghost predicate Held(zones: Zones, servers: Servers, x: Use) {
    match x.site.storage
    case NoStore => true
    case MemoryStore => x.site.zone in zones && Live(zones[x.site.zone], x.nonce, x.exp - 1)
    case RedisStore =>
      && x.site.server in servers && KeyOf(x.site, x.nonce) in servers[x.site.server]
      && x.exp <= servers[x.site.server][KeyOf(x.site, x.nonce)]
  }

  /** Every consumed challenge is known until it expires, and no store accepts one again before. */
  ghost predicate Spent(y: System) {
    && (forall i :: 0 <= i < |y.uses| ==> |y.uses[i].nonce| <= MAX_NONCE)
    && (forall i :: 0 <= i < |y.uses| && y.now < y.uses[i].exp ==> Held(y.zones, y.servers, y.uses[i]))
    && (forall i, j :: 0 <= i < j < |y.uses| && SameEntry(y.uses[i], y.uses[j]) ==> y.uses[j].at >= y.uses[i].exp)
  }

  /** A call on a zone keeps what it holds, and refuses it. */
  lemma ZoneHolds(zones: Zones, servers: Servers, site: Site, call: Call, x: Use)
    requires Held(zones, servers, x) && call.now < x.exp && |x.nonce| <= MAX_NONCE
    ensures Held(Stored(zones, site, LocalStep(ZoneOf(zones, site), call).0), servers, x)
    ensures x.site.storage == MemoryStore && x.site.zone == site.zone && call.nonce == x.nonce
        ==> LocalStep(ZoneOf(zones, site), call).1 == Declined
  {
    if x.site.storage == MemoryStore && x.site.zone == site.zone {
      MemoryKeepsLive(zones[site.zone], call, x.nonce, x.exp - 1);
    }
  }

  /** A new use whose key was free keeps what Redis holds, and shares no entry with it. */
  lemma RedisHolds(zones: Zones, servers: Servers, n: Use, x: Use, now: int)
    requires Held(zones, servers, x) && now < x.exp
    requires n.site.storage == RedisStore ==> !KeyLive(servers, n.site, n.nonce, now)
    ensures Held(zones, Kept(servers, n), x)
    ensures n.site.storage == RedisStore ==> !SameEntry(x, n)
  {
  }

  /** An accepted use is held by its store. */
  lemma NewUseHeld(zones: Zones, servers: Servers, call: Call, wire: Wire, n: Use)
    requires CheckAndSetStep(n.site.storage, ZoneOf(zones, n.site), call, wire).1 == Ok
    requires call.nonce == n.nonce && call.exp == n.exp && call.now < n.exp
    requires n.site.storage == RedisStore ==> n.site.server in servers
    ensures var store := CheckAndSetStep(n.site.storage, ZoneOf(zones, n.site), call, wire).0;
      Held(Stored(zones, n.site, store), Kept(servers, n), n)
  {
    if n.site.storage == MemoryStore { MemoryKeepsLive(zones[n.site.zone], call, n.nonce, n.exp - 1); }
  }

  /** The stores after a call, and what they still hold. */
  lemma CallHolds(y: System, site: Site, c: Client, s: Signed, env: Env, x: Use)
    requires env.storage == site.storage && env.now == y.now && Truthful(y, site, Checked(env, s), env.wire)
    requires Held(y.zones, y.servers, x) && y.now < x.exp && |x.nonce| <= MAX_NONCE
    ensures var (store, code) := ValidateConsume(env, ZoneOf(y.zones, site), s.plain);
      var n := NewUse(site, c, s, env);
      && Held(Stored(y.zones, site, store), if code == Ok then Kept(y.servers, n) else y.servers, x)
      && (code == Ok ==> !SameEntry(x, n))
  {
    var v := Checked(env, s);
    if v.Admitted? {
      var call := Call(v.nonce, v.exp, env.now, env.alloc, env.retry);
      var (store, code) := CheckAndSetStep(site.storage, ZoneOf(y.zones, site), call, env.wire);
      ZoneHolds(y.zones, y.servers, site, call, x);
      if code == Ok {
        AcceptedInTime(site.storage, ZoneOf(y.zones, site), call, env.wire);
        var zones := Stored(y.zones, site, store);
        assert Held(zones, y.servers, x);
        RedisHolds(zones, y.servers, NewUse(site, c, s, env), x, y.now);
      }
    }
  }

  lemma CallHoldsNew(y: System, site: Site, c: Client, s: Signed, env: Env)
    requires env.storage == site.storage && env.now == y.now && Truthful(y, site, Checked(env, s), env.wire)
    requires ValidateConsume(env, ZoneOf(y.zones, site), s.plain).1 == Ok
    ensures var store, n := ValidateConsume(env, ZoneOf(y.zones, site), s.plain).0, NewUse(site, c, s, env);
      y.now < n.exp ==> Held(Stored(y.zones, site, store), Kept(y.servers, n), n)
  {
    var v := Checked(env, s);
    var call := Call(v.nonce, v.exp, env.now, env.alloc, env.retry);
    AcceptedInTime(site.storage, ZoneOf(y.zones, site), call, env.wire);
    if y.now < v.exp { NewUseHeld(y.zones, y.servers, call, env.wire, NewUse(site, c, s, env)); }
  }

  lemma AddedSpent(y: System, z: System, n: Use)
    requires Spent(y) && z.now == y.now == n.at && z.uses == y.uses + [n] && |n.nonce| <= MAX_NONCE
    requires forall i :: 0 <= i < |y.uses| && y.now < y.uses[i].exp ==>
               Held(z.zones, z.servers, y.uses[i]) && !SameEntry(y.uses[i], n)
    requires y.now < n.exp ==> Held(z.zones, z.servers, n)
    ensures Spent(z)
  {
  }

  /** One consumption, by whichever thread, keeps the promise of every store. */
  lemma ConsumeKeeps(y: System, z: System, site: Site, c: Client, s: Signed, env: Env)
    requires Spent(y) && Spelled(NewUse(site, c, s, env)) && z.now == y.now
    requires env.storage == site.storage && env.now == y.now && Truthful(y, site, Checked(env, s), env.wire)
    requires ValidateConsume(env, ZoneOf(y.zones, site), s.plain).1 == Ok
    requires z.zones == Stored(y.zones, site, ValidateConsume(env, ZoneOf(y.zones, site), s.plain).0)
    requires z.servers == Kept(y.servers, NewUse(site, c, s, env)) && z.uses == y.uses + [NewUse(site, c, s, env)]
    ensures Spent(z)
  {
    var n := NewUse(site, c, s, env);
    forall i | 0 <= i < |y.uses| && y.now < y.uses[i].exp
      ensures Held(z.zones, z.servers, y.uses[i]) && !SameEntry(y.uses[i], n)
    {
      CallHolds(y, site, c, s, env, y.uses[i]);
    }
    CallHoldsNew(y, site, c, s, env);
    AddedSpent(y, z, n);
  }

  /** A refused call keeps it too. */
  lemma RefusalKeeps(y: System, z: System, site: Site, c: Client, s: Signed, env: Env)
    requires Spent(y) && z.now == y.now && z.servers == y.servers && z.uses == y.uses
    requires env.storage == site.storage && env.now == y.now && Truthful(y, site, Checked(env, s), env.wire)
    requires ValidateConsume(env, ZoneOf(y.zones, site), s.plain).1 != Ok
    requires z.zones == Stored(y.zones, site, ValidateConsume(env, ZoneOf(y.zones, site), s.plain).0)
    ensures Spent(z)
  {
    forall i | 0 <= i < |y.uses| && y.now < y.uses[i].exp ensures Held(z.zones, z.servers, y.uses[i]) {
      CallHolds(y, site, c, s, env, y.uses[i]);
    }
  }

  /** Nothing consumed: time passes, zones and servers are added, free keys are taken. */
  lemma IdleKeeps(y: System, z: System)
    requires Spent(y) && z.uses == y.uses && y.now <= z.now
    requires forall k :: k in y.zones ==> k in z.zones && z.zones[k] == y.zones[k]
    requires forall k, key :: k in y.servers && key in y.servers[k] && y.now < y.servers[k][key] ==>
               k in z.servers && key in z.servers[k] && z.servers[k][key] == y.servers[k][key]
    ensures Spent(z)
  {
    forall i | 0 <= i < |z.uses| && z.now < z.uses[i].exp ensures Held(z.zones, z.servers, z.uses[i]) {
      assert Held(y.zones, y.servers, y.uses[i]);
    }
  }

  lemma SubmitSpends(u: Setup, y: System, id: nat, c: Client, s: Signed, luck: Luck, revoked: bool, granted: bool)
    requires MakesTags(u.mac) && y.now >= 0 && Spent(y) && id in y.sites
    requires SignedShape(s) && Admissible(u, y, y.sites[id], c, s, luck)
    ensures Spent(NextSubmit(u, y, id, c, s, luck, revoked, granted))
  {
    var z, site := NextSubmit(u, y, id, c, s, luck, revoked, granted), y.sites[id];
    var env := EnvOf(u, y.now, site, c, luck);
    if s.ran && s.valid && !revoked {
      if ValidateConsume(env, ZoneOf(y.zones, site), s.plain).1 == Ok {
        AcceptedIsSpelled(u, y, site, c, s, luck);
        ConsumeKeeps(y, z, site, c, s, env);
      } else {
        RefusalKeeps(y, z, site, c, s, env);
      }
    } else {
      IdleKeeps(y, z);
    }
  }

  lemma ThreadSpends(u: Setup, y: System, k: nat, s: Signed, luck: Luck)
    requires MakesTags(u.mac) && y.now >= 0 && Spent(y) && k < |y.jobs|
    requires SignedShape(s) && Admissible(u, y, y.jobs[k].site, y.jobs[k].c, s, luck)
    ensures Spent(NextThread(u, y, k, s, luck))
  {
    var z, b := NextThread(u, y, k, s, luck), y.jobs[k];
    var env := EnvOf(u, y.now, b.site, b.c, luck);
    if s.ran && s.valid {
      if ValidateConsume(env, ZoneOf(y.zones, b.site), s.plain).1 == Ok {
        AcceptedIsSpelled(u, y, b.site, b.c, s, luck);
        ConsumeKeeps(y, z, b.site, b.c, s, env);
      } else {
        RefusalKeeps(y, z, b.site, b.c, s, env);
      }
    } else {
      IdleKeeps(y, z);
    }
  }

  lemma FinishSpends(o: Origins, y: System, k: nat, revoked: Revoked, granted: bool)
    requires y.now >= 0 && Spent(y) && k < |y.jobs| && JobFormed(o, y, y.jobs[k]) && y.jobs[k].phase.Judged?
    ensures Spent(NextFinish(y, k, revoked, granted))
  {
    FinishGrants(o, y, k, revoked, granted);
    IdleKeeps(y, NextFinish(y, k, revoked, granted));
  }

  lemma IdleSpends(u: Setup, y: System, t: Step)
    requires (Idle(t) || t.Post?) && Enabled(u, y, t) && Spent(y)
    ensures Spent(Next(u, y, t))
  {
    if !t.Post? { IdleStep(u, y, t); }
    IdleKeeps(y, Next(u, y, t));
  }

  lemma LoginSpends(u: Setup, y: System, t: Step, z: System)
    requires MakesTags(u.mac) && Spent(y) && Leads(u, y, t, z) && (t.Submit? || t.Thread?)
    ensures Spent(z)
  {
    if t.Submit? {
      SubmitSpends(u, y, t.id, t.c, Reading(t.g), t.luck, Denied(t.revoked, Reading(t.g).fpr), t.granted);
    } else {
      ThreadSpends(u, y, t.job, Reading(t.g), t.luck);
    }
  }

  lemma SpentKeeps(u: Setup, y: System, t: Step, z: System)
    requires MakesTags(u.mac) && WellFormed(u.origins, y) && Spent(y) && Leads(u, y, t, z)
    ensures Spent(z)
  {
    if t.Submit? || t.Thread? {
      LoginSpends(u, y, t, z);
    } else if t.Finish? {
      assert JobFormed(u.origins, y, y.jobs[t.job]);
      FinishSpends(u.origins, y, t.job, t.revoked, t.granted);
    } else {
      IdleSpends(u, y, t);
    }
  }

  lemma {:induction false} RunUsedOnce(u: Setup, ys: seq<System>, ts: seq<Step>, n: nat)
    requires Run(u, ys, ts) && n < |ys|
    ensures UsedOnce(ys[n])
  {
    if n > 0 {
      RunKeeps(u, ys, ts, n - 1);
      RunUsedOnce(u, ys, ts, n - 1);
      UsedOnceKeeps(u, ys[n - 1], ts[n - 1], ys[n]);
    }
  }

  lemma {:induction false} RunSpends(u: Setup, ys: seq<System>, ts: seq<Step>, n: nat)
    requires Run(u, ys, ts) && n < |ys|
    ensures Spent(ys[n])
  {
    if n > 0 {
      RunKeeps(u, ys, ts, n - 1);
      RunSpends(u, ys, ts, n - 1);
      SpentKeeps(u, ys[n - 1], ts[n - 1], ys[n]);
    }
  }

  // ---- one session per challenge ----

  /** A use before `exp` whose reading is not the challenge's own is a second use. */
  lemma UsedUnderItsNonce(o: Origins, x: Use, c: Issued)
    requires Signs(x, c) && Spelled(x) && Configured(o, x.site) && Genuine(o, x.c) && x.at < c.exp
    requires !OtherUse(o, x.site.storage, c.fields, c.at, c.exp, c.nonce)
    ensures x.nonce == c.nonce && x.exp >= c.exp
  {
    var b, g := ParseChallenge(x.signed.plain).value.payload, Consumed(x);
    BoundPlausible(o, x.site, x.c, CHAL, b);
    if x.nonce != c.nonce || x.exp < c.exp {
      UseAskable(x, c.exp);
      OtherUseIsCut(o, x.site.storage, c.fields, g, c.at, c.exp, c.nonce);
    }
  }

  /** What the store was asked at x.at it could be asked later, with the empty prefix. */
  lemma UseAskable(x: Use, before: int)
    requires Spelled(x) && x.at < before
    ensures Askable(x.site.storage, ParseChallenge(x.signed.plain).value.payload, before)
  {
    var b := ParseChallenge(x.signed.plain).value.payload;
    if x.site.storage == RedisStore {
      var t := Latest(RedisStore, b, before);
      assert x.at <= t < x.exp;
      SetFitsShorter(x.site.prefix, x.nonce, x.exp - x.at, x.exp - t);
    }
  }

  /** Two sessions stand for one issued challenge, both consumed before its expiry. */
  ghost predicate OpenedTwice(y: System, c: Issued, i: int, j: int) {
    && c in y.challenges && 0 <= i < j < |y.grants| && y.grants[i].use < |y.uses| && y.grants[j].use < |y.uses|
    && var a, b := y.uses[y.grants[i].use], y.uses[y.grants[j].use];
       Signs(a, c) && a.at < c.exp && Signs(b, c) && b.at < c.exp
  }

  /** And that through one store. */
  ghost predicate GrantedTwice(y: System, c: Issued, storage: Storage, i: int, j: int) {
    && OpenedTwice(y, c, i, j)
    && var a, b := y.uses[y.grants[i].use].site, y.uses[y.grants[j].use].site;
       a.storage == b.storage == storage && (storage == NoStore || SameStore(a, b))
  }

  /**
   * In every run, with the memory zone of a node or with a Redis shared by any number of
   * nodes, an issued challenge opens at most one session before its expiry, unless its
   * MAC input has another use.
   */
  lemma OneSessionPerChallenge(
    u: Setup, ys: seq<System>, ts: seq<Step>, n: nat, c: Issued, storage: Storage, i: int, j: int)
    requires Run(u, ys, ts) && n < |ys| && storage != NoStore
    requires !OtherUse(u.origins, storage, c.fields, c.at, c.exp, c.nonce)
    ensures !GrantedTwice(ys[n], c, storage, i, j)
  {
    RunKeeps(u, ys, ts, n);
    RunUsedOnce(u, ys, ts, n);
    RunSpends(u, ys, ts, n);
    var y := ys[n];
    if GrantedTwice(y, c, storage, i, j) {
      var a, b := y.uses[y.grants[i].use], y.uses[y.grants[j].use];
      assert UseFormed(u.origins, y, a) && UseFormed(u.origins, y, b);
      UsedUnderItsNonce(u.origins, a, c);
      UsedUnderItsNonce(u.origins, b, c);
      TwoUsesApart(y, y.grants[i].use, y.grants[j].use);
    }
  }

  lemma TwoUsesApart(y: System, i: nat, j: nat)
    requires Spent(y) && i < |y.uses| && j < |y.uses| && i != j
    requires SameStore(y.uses[i].site, y.uses[j].site) && y.uses[i].nonce == y.uses[j].nonce
    ensures y.uses[i].at >= y.uses[j].exp || y.uses[j].at >= y.uses[i].exp
  {
    assert SameEntry(y.uses[i], y.uses[j]) && SameEntry(y.uses[j], y.uses[i]);
  }

  /** A login with a separator-free keyring path and submitted payload. */
  ghost predicate PlainUse(x: Use) {
    && Free(x.site.keyring, SEP) && ParseChallenge(x.signed.plain).Some?
    && Free(ParseChallenge(x.signed.plain).value.payload, SEP)
  }

  /** Such a login consumes the challenge under its own nonce and expiry. */
  lemma PlainUseReads(x: Use, c: Issued)
    requires Signs(x, c) && Spelled(x) && ChallengeShape(c) && Free(c.fields.scope, SEP) && PlainUse(x)
    ensures x.nonce == c.nonce && x.exp == c.exp
  {
    DecimalPlain(c.exp);
    HexPlain(c.nonce);
    ScopeAndData(c.fields);
    ScopeAndData(Consumed(x));
    IssuedConsumable(c.exp, c.nonce);
  }

  /** In particular a second session needs a separator in a keyring path or a submitted payload. */
  lemma OneSessionPerPlainChallenge(
    u: Setup, ys: seq<System>, ts: seq<Step>, n: nat, c: Issued, storage: Storage, i: int, j: int)
    requires Run(u, ys, ts) && n < |ys| && Free(c.fields.scope, SEP) && storage != NoStore
    requires GrantedTwice(ys[n], c, storage, i, j)
    ensures !PlainUse(ys[n].uses[ys[n].grants[i].use]) || !PlainUse(ys[n].uses[ys[n].grants[j].use])
  {
    RunKeeps(u, ys, ts, n);
    RunUsedOnce(u, ys, ts, n);
    RunSpends(u, ys, ts, n);
    var y := ys[n];
    var a, b := y.uses[y.grants[i].use], y.uses[y.grants[j].use];
    if PlainUse(a) && PlainUse(b) {
      var q :| 0 <= q < |y.challenges| && y.challenges[q] == c;
      assert ChallengeFormed(u.origins, y, y.challenges[q]);
      assert UseFormed(u.origins, y, a) && UseFormed(u.origins, y, b);
      PlainUseReads(a, c);
      PlainUseReads(b, c);
      TwoUsesApart(y, y.grants[i].use, y.grants[j].use);
    }
  }

  // ---- what a grant is good for ----

  /** The cookie a grant sets. */
  function CookieOf(u: Setup, g: Granted): Bytes { CookieText(g.exp, g.fpr, u.mac(g.secret, Frame(g.fields))) }

  /** A request at a location and from a client with the keyring and binding of the grant, with its cookie. */
  ghost predicate Returns(u: Setup, y: System, t: Step, g: Granted) {
    && t.Access? && t.id in y.sites && t.h == Hmac(true, true) && t.cookie == Some(CookieOf(u, g))
    && var s := y.sites[t.id];
       && Accepts(s.secrets, g.secret) && s.keyring == g.fields.scope
       && BoundIp(s, t.c) == g.fields.ip && BoundUa(s, t.c) == g.fields.ua
  }

  /** The cookie of a grant passes, under the same keyring and binding, exactly while unexpired and unrevoked. */
  lemma GrantedCookiePasses(u: Setup, y: System, i: nat, t: Step)
    requires WellFormed(u.origins, y) && i < |y.grants| && Returns(u, y, t, y.grants[i])
    ensures HasSession(u, y, t)
       <==> (y.grants[i].exp == 0 || y.now <= y.grants[i].exp) && !Denied(t.revoked, y.grants[i].fpr)
  {
    var g, s := y.grants[i], y.sites[t.id];
    assert GrantFormed(y, g);
    assert UseFormed(u.origins, y, y.uses[g.use]);
    HexPlain(g.fpr);
    GrantedSessionHonouredExactly(u.mac, s.secrets, g.secret, g.fields.scope, g.fields.ip, g.fields.ua,
                                  g.exp, g.fpr, y.now, fpr => Denied(t.revoked, fpr));
  }

  /** A session granted without a fingerprint passes until it expires, whatever the revocation list says. */
  lemma NoFingerprintNeverRevoked(u: Setup, y: System, i: nat, t: Step)
    requires WellFormed(u.origins, y) && i < |y.grants| && Returns(u, y, t, y.grants[i]) && y.grants[i].fpr == []
    ensures HasSession(u, y, t) <==> y.grants[i].exp == 0 || y.now <= y.grants[i].exp
  {
    GrantedCookiePasses(u, y, i, t);
  }

  // ---- what the binding settings do ----

  /** With the User-Agent binding off, another User-Agent, or none, changes no token and no verdict. */
  lemma UnboundAgentIgnored(
    u: Setup, y: System, id: nat, c: Client, ua: Option<Bytes>, cookie: Option<Bytes>, h: Hmac, revoked: Revoked,
    s: Signed, luck: Luck, nonce: Bytes, fpr: Bytes)
    requires y.now >= 0 && id in y.sites && !y.sites[id].bindUa
    ensures HasSession(u, y, Access(id, c, cookie, h, revoked))
         == HasSession(u, y, Access(id, c.(ua := ua), cookie, h, revoked))
    ensures var site, d := y.sites[id], c.(ua := ua);
      && Checked(EnvOf(u, y.now, site, c, luck), s) == Checked(EnvOf(u, y.now, site, d, luck), s)
      && NewChallenge(y.now, site, c, nonce) == NewChallenge(y.now, site, d, nonce)
      && NewGrant(y.now, site, c, fpr, 0) == NewGrant(y.now, site, d, fpr, 0)
  {
  }

  /** With the address binding off, another address changes no token and no verdict. */
  lemma UnboundAddressIgnored(
    u: Setup, y: System, id: nat, c: Client, ip: Bytes, cookie: Option<Bytes>, h: Hmac, revoked: Revoked,
    s: Signed, luck: Luck, nonce: Bytes, fpr: Bytes)
    requires y.now >= 0 && id in y.sites && !y.sites[id].bindIp
    ensures HasSession(u, y, Access(id, c, cookie, h, revoked))
         == HasSession(u, y, Access(id, c.(ip := ip), cookie, h, revoked))
    ensures var site, d := y.sites[id], c.(ip := ip);
      && Checked(EnvOf(u, y.now, site, c, luck), s) == Checked(EnvOf(u, y.now, site, d, luck), s)
      && NewChallenge(y.now, site, c, nonce) == NewChallenge(y.now, site, d, nonce)
      && NewGrant(y.now, site, c, fpr, 0) == NewGrant(y.now, site, d, fpr, 0)
  {
  }

  /**
   * With a binding on, a session stays with its client: in every run, the login behind a
   * request whose cookie reads in one way only was made for the same keyring, from the same
   * address where the location binds it, and with the same User-Agent where it binds that.
   */
  lemma SessionStaysWithClient(u: Setup, ys: seq<System>, ts: seq<Step>, n: nat) returns (i: nat)
    requires Run(u, ys, ts) && n < |ts| && ts[n].Access? && ts[n].id in ys[n].sites && HasSession(u, ys[n], ts[n])
    requires !OtherSession(u.origins, AccessFields(ys[n], ts[n]))
    ensures i < |ys[n].grants| && Covers(ys[n], ts[n], ys[n].grants[i]) && ys[n].grants[i].use < |ys[n].uses|
    ensures var x, s, c := ys[n].uses[ys[n].grants[i].use], ys[n].sites[ts[n].id], ts[n].c;
      && x.site.keyring == s.keyring
      && (s.bindIp && c.ip != [] ==> x.site.bindIp && x.c.ip == c.ip)
      && (s.bindUa && c.ua.Some? && c.ua.value != [] ==> x.site.bindUa && x.c.ua == c.ua)
      && (!s.bindUa || c.ua.None? ==> !x.site.bindUa || x.c.ua == None || x.c.ua == Some([]))
      && (!s.bindIp ==> !x.site.bindIp || x.c.ip == [])
  {
    RunKeeps(u, ys, ts, n);
    assert Leads(u, ys[n], ts[n], ys[n + 1]);
    i := PassingIsCovered(u, ys[n], ts[n]);
    assert GrantFormed(ys[n], ys[n].grants[i]);
  }

  /** Two deployments with prefixes of one length share a Redis without seeing each other's keys. */
  lemma PrefixesApart(servers: Servers, x: Use, s: Site, nonce: Bytes, now: int)
    requires x.site.storage == RedisStore && x.site.server in servers
    ensures |x.site.prefix| == |s.prefix| && x.site.prefix != s.prefix ==>
      (KeyLive(Kept(servers, x), s, nonce, now) <==> KeyLive(servers, s, nonce, now))
    ensures s.server == x.site.server && s.prefix == x.site.prefix && nonce == x.nonce ==>
      (KeyLive(Kept(servers, x), s, nonce, now) <==> now < x.exp)
  {
    if |x.site.prefix| == |s.prefix| && x.site.prefix != s.prefix {
      assert KeyOf(x.site, x.nonce)[..|s.prefix|] == x.site.prefix && KeyOf(s, nonce)[..|s.prefix|] == s.prefix;
    }
  }
}
