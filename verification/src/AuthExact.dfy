/**
 * The exact conditions of the run theorems: whenever a MAC input has a second
 * reading, a run in which the module accepts it.
 */
module AuthExact {
  import opened ByteStrings
  import opened Codes
  import opened SharedStore
  import opened Tokens
  import opened NonceStore
  import opened Login
  import opened Readings
  import opened AuthRun
  import GpgStatus
  import Config

  // ---- building runs ----

  const LUCK := Luck(Hmac(true, true), true, true, Reply('+'))

  /** The default of pgp_challenge_timeout. */
  const CHALLENGE_DEFAULT := 120

  /** A location and a client whose MAC inputs are the given fields. */
  function SiteFor(o: Origins, f: Fields, secret: Bytes, storage: Storage, challenge: nat, session: nat): Site {
    Site(f.scope, o.address(f.ip), f.ua != [], challenge, session, Secrets(secret, []), storage, 0, 0, [])
  }

  ghost function ClientFor(o: Origins, f: Fields): Client
    requires Plausible(o, f)
  {
    Client(if o.address(f.ip) then f.ip else (var a :| o.address(a); a), if f.ua == [] then None else Some(f.ua))
  }

  lemma ForFields(o: Origins, f: Fields, secret: Bytes, storage: Storage, challenge: nat, session: nat)
    requires Plausible(o, f) && secret != []
    requires Config.MIN_CHALLENGE <= challenge <= Config.MAX_CHALLENGE && session <= Config.MAX_SESSION
    ensures var s, c := SiteFor(o, f, secret, storage, challenge, session), ClientFor(o, f);
      Configured(o, s) && Genuine(o, c) && s.keyring == f.scope && BoundIp(s, c) == f.ip && BoundUa(s, c) == f.ua
  {
  }

  /** A status output that reports a valid signature by this key. */
  function GoodOutput(fpr: Bytes): Bytes {
    if fpr != [] then GpgStatus.ValidsigLine(fpr)
    else GpgStatus.ValidsigLine(seq(40, _ => 'A')) + [LF] + GpgStatus.ValidsigLine("x")
  }

  lemma GoodReading(fpr: Bytes, plain: Bytes)
    requires FprShape(fpr) && |plain| < PLAINTEXT_MAX
    ensures Reading(GpgOut(true, GoodOutput(fpr), false, plain)) == Signed(true, true, fpr, plain)
  {
    if fpr != [] { GpgStatus.UsableOutput(fpr); } else { GpgStatus.ValidWithoutFingerprint(seq(40, _ => 'A')); }
  }

  /** A run goes on with any step that is enabled in its last state. */
  lemma RunExtends(u: Setup, ys: seq<System>, ts: seq<Step>, t: Step) returns (zs: seq<System>, rs: seq<Step>)
    requires Run(u, ys, ts) && Enabled(u, ys[|ts|], t)
    ensures Run(u, zs, rs) && |rs| == |ts| + 1 && zs[|ts|] == ys[|ts|] && rs[|ts|] == t
    ensures zs[|rs|] == Next(u, ys[|ts|], t)
  {
    zs, rs := ys + [Next(u, ys[|ts|], t)], ts + [t];
    forall i | 0 <= i < |rs| ensures Leads(u, zs[i], rs[i], zs[i + 1]) {
      if i < |ts| {
        assert zs[i] == ys[i] && zs[i + 1] == ys[i + 1] && rs[i] == ts[i];
        assert Leads(u, ys[i], ts[i], ys[i + 1]);
      }
    }
  }

  /** A signed text holding a challenge payload and its tag. */
  function SignedText(u: Setup, s: Site, c: Client, b: Bytes): Bytes {
    b + [BAR] + u.mac(s.secrets.current, Frame(Submitted(s, c, b)))
  }

  /** A login over such a text. */
  function Redemption(u: Setup, y: System, id: nat, c: Client, b: Bytes, fpr: Bytes): Step
    requires id in y.sites
  {
    var g := GpgOut(true, GoodOutput(fpr), false, SignedText(u, y.sites[id], c, b));
    Step.Submit(id, c, g, LUCK, _ => false, true)
  }

  function UseMade(u: Setup, y: System, id: nat, c: Client, b: Bytes, fpr: Bytes): Use
    requires id in y.sites && Consumable(b)
  {
    var s := y.sites[id];
    Use(s, c, Signed(true, true, fpr, SignedText(u, s, c, b)), y.now, SpelledName(b), SpelledExp(b))
  }

  function CallMade(y: System, b: Bytes): Call
    requires Consumable(b)
  {
    Call(SpelledName(b), SpelledExp(b), y.now, true, true)
  }

  /** The store of the location takes the nonce. */
  ghost predicate Accepted(y: System, s: Site, b: Bytes)
    requires Consumable(b)
  {
    && CheckAndSetStep(s.storage, ZoneOf(y.zones, s), CallMade(y, b), Reply('+')).1 == Ok
    && Truthful(y, s, Admitted(SpelledExp(b), SpelledName(b)), Reply('+'))
  }

  /** The state after the login. */
  function Redeemed(u: Setup, y: System, id: nat, c: Client, b: Bytes, fpr: Bytes): System
    requires y.now >= 0 && id in y.sites && Consumable(b)
  {
    var s, x := y.sites[id], UseMade(u, y, id, c, b, fpr);
    y.(zones := Stored(y.zones, s, CheckAndSetStep(s.storage, ZoneOf(y.zones, s), CallMade(y, b), Reply('+')).0),
       servers := Kept(y.servers, x), uses := y.uses + [x],
       grants := y.grants + [NewGrant(y.now, s, c, fpr, |y.uses|)])
  }

  /** Some challenge was issued over this MAC input, under the only secret of the location. */
  ghost predicate Redeemable(u: Setup, y: System, id: nat, c: Client, b: Bytes) {
    && id in y.sites && y.sites[id].secrets.previous == [] && Genuine(u.origins, c)
    && y.now + y.sites[id].sessionTimeout <= MAX_TIME
    && TaggedChallenge(y, y.sites[id].secrets.current, Frame(Submitted(y.sites[id], c, b)))
  }

  /** A login over this payload opens a session now. */
  ghost predicate Ready(u: Setup, y: System, id: nat, c: Client, b: Bytes) {
    Redeemable(u, y, id, c, b) && Consumable(b) && 0 <= y.now <= SpelledExp(b) && Accepted(y, y.sites[id], b)
  }

  lemma RedeemAdmitted(u: Setup, y: System, s: Site, c: Client, b: Bytes)
    requires MakesTags(u.mac) && Consumable(b) && y.now <= SpelledExp(b)
    ensures |SignedText(u, s, c, b)| < PLAINTEXT_MAX
    ensures ParseChallenge(SignedText(u, s, c, b)).Some?
    ensures ParseChallenge(SignedText(u, s, c, b)).value.payload == b
    ensures ParseChallenge(SignedText(u, s, c, b)).value.tag == u.mac(s.secrets.current, Frame(Submitted(s, c, b)))
    ensures CheckChallenge(u.mac, s.secrets, s.keyring, BoundIp(s, c), BoundUa(s, c), SignedText(u, s, c, b), y.now,
                           Hmac(true, true)) == Admitted(SpelledExp(b), SpelledName(b))
  {
    var tag := u.mac(s.secrets.current, Frame(Submitted(s, c, b)));
    assert IsTag(tag);
    ConsumableParses(b, tag);
  }

  lemma RedeemAdmissible(u: Setup, y: System, id: nat, c: Client, b: Bytes, fpr: Bytes)
    requires MakesTags(u.mac) && Ready(u, y, id, c, b)
    ensures Admissible(u, y, y.sites[id], c, Signed(true, true, fpr, SignedText(u, y.sites[id], c, b)), LUCK)
  {
    RedeemAdmitted(u, y, y.sites[id], c, b);
  }

  lemma RedeemNext(u: Setup, y: System, id: nat, c: Client, b: Bytes, fpr: Bytes)
    requires MakesTags(u.mac) && Ready(u, y, id, c, b)
    ensures NextSubmit(u, y, id, c, Signed(true, true, fpr, SignedText(u, y.sites[id], c, b)), LUCK, false, true)
         == Redeemed(u, y, id, c, b, fpr)
  {
    RedeemAdmitted(u, y, y.sites[id], c, b);
  }

  /** Whoever presents the MAC input of an issued challenge, under any reading of it, gets a session. */
  lemma Redeem(u: Setup, y: System, id: nat, c: Client, b: Bytes, fpr: Bytes)
    requires MakesTags(u.mac) && Ready(u, y, id, c, b) && FprShape(fpr)
    ensures Enabled(u, y, Redemption(u, y, id, c, b, fpr))
    ensures Next(u, y, Redemption(u, y, id, c, b, fpr)) == Redeemed(u, y, id, c, b, fpr)
  {
    var s, t := y.sites[id], Redemption(u, y, id, c, b, fpr);
    var signed := Signed(true, true, fpr, t.g.plain);
    RedeemAdmitted(u, y, s, c, b);
    GoodReading(fpr, t.g.plain);
    RedeemAdmissible(u, y, id, c, b, fpr);
    RedeemNext(u, y, id, c, b, fpr);
    assert Next(u, y, t) == NextSubmit(u, y, id, c, signed, LUCK, false, true);
  }

  /** What such a login is recorded as. */
  lemma RedeemedSigns(u: Setup, y: System, id: nat, c: Client, b: Bytes, fpr: Bytes, i: Issued)
    requires MakesTags(u.mac) && id in y.sites && Consumable(b) && y.now <= SpelledExp(b) && i.at <= y.now
    requires Accepts(y.sites[id].secrets, i.secret) && Frame(i.fields) == Frame(Submitted(y.sites[id], c, b))
    ensures var x := UseMade(u, y, id, c, b, fpr); Signs(x, i) && Consumed(x) == Submitted(y.sites[id], c, b)
  {
    RedeemAdmitted(u, y, y.sites[id], c, b);
  }

  /** The start of a run with two locations on one node. */
  function Init(now: int, s0: Site, s1: Site): System {
    System(now, map[0 := s0, 1 := s1], map[0 := []], map[0 := map[]], [], [], [], [])
  }

  /** Empty stores take a challenge. */
  lemma EmptyAccepts(y: System, s: Site, b: Bytes)
    requires Consumable(b) && s.zone in y.zones && y.zones[s.zone] == []
    requires s.server in y.servers && y.servers[s.server] == map[] && s.prefix == []
    requires s.storage == RedisStore ==> y.now < SpelledExp(b) && SetFits([], SpelledName(b), SpelledExp(b) - y.now)
    ensures Accepted(y, s, b)
  {
    VerdictTable(s.storage, Some([]), CallMade(y, b), Reply('+'));
  }

  /** A challenge is issued at location 0. */
  lemma IssueRun(u: Setup, i: Issued, s0: Site, s1: Site, c: Client) returns (ys: seq<System>, ts: seq<Step>)
    requires MakesTags(u.mac) && NonceShape(i.nonce) && Genuine(u.origins, c) && i.at >= 0 && i.exp <= MAX_TIME
    requires Configured(u.origins, s0) && Configured(u.origins, s1) && i == NewChallenge(i.at, s0, c, i.nonce)
    ensures Run(u, ys, ts) && |ts| == 1 && ys[1] == Init(i.at, s0, s1).(challenges := [i])
  {
    var y, t := Init(i.at, s0, s1), Challenge(0, c, i.nonce);
    assert Run(u, [y], []);
    ys, ts := RunExtends(u, [y], [], t);
  }

  lemma TickRun(u: Setup, ys: seq<System>, ts: seq<Step>, at: int) returns (zs: seq<System>, rs: seq<Step>)
    requires Run(u, ys, ts) && 0 <= ys[|ts|].now <= at
    ensures Run(u, zs, rs) && |rs| == |ts| + 1 && zs[|rs|] == ys[|ts|].(now := at)
  {
    zs, rs := RunExtends(u, ys, ts, Tick(at - ys[|ts|].now));
  }

  /** The run goes on with a login over that challenge, at a later time and under any reading. */
  lemma RedeemRun(u: Setup, ys: seq<System>, ts: seq<Step>, at: int, id: nat, c: Client, b: Bytes, fpr: Bytes)
    returns (zs: seq<System>, rs: seq<Step>)
    requires Run(u, ys, ts) && 0 <= ys[|ts|].now <= at && FprShape(fpr)
    requires Ready(u, ys[|ts|].(now := at), id, c, b)
    ensures Run(u, zs, rs) && |rs| == |ts| + 2
    ensures zs[|rs|] == Redeemed(u, ys[|ts|].(now := at), id, c, b, fpr)
  {
    zs, rs := TickRun(u, ys, ts, at);
    var y := ys[|ts|].(now := at);
    Redeem(u, y, id, c, b, fpr);
    zs, rs := RunExtends(u, zs, rs, Redemption(u, y, id, c, b, fpr));
  }

  // ---- sessions read in two ways ----

  /** An access step whose session check computes its MAC over f. */
  ghost predicate Presents(y: System, t: Step, f: Fields) {
    && t.Access? && t.id in y.sites && t.cookie.Some? && ParseCookie(t.cookie.value).Some? && AccessFields(y, t) == f
  }

  lemma CookieSlices(b: Bytes, tag: Bytes, k: nat)
    requires k < |b|
    ensures var c := b + [BAR] + tag;
      && c[..|b|] == b && c[..k] == b[..k] && c[k + 1..|b|] == b[k + 1..] && c[|b| + 1..] == tag
      && c[k] == b[k] && c[|b|] == BAR
  {
  }

  lemma WellspeltParses(b: Bytes, tag: Bytes)
    requires Wellspelt(b)
    ensures var k := IndexOf(b, BAR, 0, |b|);
      ParseCookie(b + [BAR] + tag) == Some(Parsed(b, b[..k], b[k + 1..], tag))
  {
    var k, c := IndexOf(b, BAR, 0, |b|), b + [BAR] + tag;
    CookieSlices(b, tag, k);
    AbsentFree(c, BAR, k + 1, |b|);
    assert Absent(c, BAR, 0, k) by { assert forall i :: 0 <= i < k ==> c[i] == b[i]; }
    IndexOfAt(c, BAR, 0, k, |c|);
    IndexOfAt(c, BAR, k + 1, |b|, |c|);
  }

  /** A request with a cookie over the MAC input of a grant, under any reading of it. */
  ghost function AnyAccess(u: Setup, secret: Bytes, f: Fields, revoked: Revoked): Step
    requires Plausible(u.origins, f)
  {
    var cookie := f.data + [BAR] + u.mac(secret, Frame(f));
    Access(1, ClientFor(u.origins, f), Some(cookie), Hmac(true, true), revoked)
  }

  lemma AnyAccessPasses(u: Setup, y: System, secret: Bytes, f: Fields, revoked: Revoked)
    requires f.kind == SESS && Plausible(u.origins, f) && Wellspelt(f.data) && y.now >= 0 && secret != []
    requires 1 in y.sites && y.sites[1] == SiteFor(u.origins, f, secret, MemoryStore, CHALLENGE_DEFAULT, 0)
    requires TaggedGrant(y, secret, Frame(f)) && !Denied(revoked, CookieFpr(f.data))
    requires CookieExp(f.data) == 0 || y.now <= CookieExp(f.data)
    ensures var t := AnyAccess(u, secret, f, revoked); Enabled(u, y, t) && Presents(y, t, f) && HasSession(u, y, t)
  {
    WellspeltParses(f.data, u.mac(secret, Frame(f)));
    ForFields(u.origins, f, secret, MemoryStore, CHALLENGE_DEFAULT, 0);
    var t := AnyAccess(u, secret, f, revoked);
    assert Presented(y.sites[1], t.c, f.data) == f;
  }

  /** When a session with this expiry is granted, as late as the configured maximum allows. */
  function GrantedAt(exp: nat): nat { if exp <= Config.MAX_SESSION then 0 else exp - Config.MAX_SESSION }

  lemma NonceFits(nonce: Bytes, ttl: nat)
    requires |nonce| <= 256 && ttl <= Config.MAX_CHALLENGE
    ensures SetFits([], nonce, ttl)
  {
    DecimalShort(|nonce|, 3, Power10(3));
    DecimalShort(ttl, 4, Power10(4));
    DecimalShort(|Decimal(ttl)|, 1, Power10(1));
  }

  /** An issued challenge with the MAC input of a login can be redeemed there. */
  lemma IssuedRedeemable(u: Setup, y: System, i: Issued, id: nat, c: Client, b: Bytes)
    requires y.challenges == [i] && id in y.sites && Genuine(u.origins, c)
    requires y.sites[id].secrets == Secrets(i.secret, []) && y.now + y.sites[id].sessionTimeout <= MAX_TIME
    requires Frame(i.fields) == Frame(Submitted(y.sites[id], c, b))
    ensures Redeemable(u, y, id, c, b)
  {
    assert y.challenges[0].secret == i.secret;
  }

  lemma NewGrantIs(o: Origins, g: Fields, exp: nat, fpr: Bytes, secret: Bytes)
    requires g.kind == SESS && g.data == SessionPayload(exp, fpr) && Plausible(o, g) && secret != []
    ensures var site := SiteFor(o, g, secret, MemoryStore, CHALLENGE_DEFAULT, exp - GrantedAt(exp));
      NewGrant(GrantedAt(exp), site, ClientFor(o, g), fpr, 0) == Granted(secret, g, exp, fpr, 0)
  {
    ForFields(o, g, secret, MemoryStore, CHALLENGE_DEFAULT, exp - GrantedAt(exp));
  }

  /** A fresh challenge is ready for its own client. */
  lemma ReadyOwn(u: Setup, y: System, i: Issued, c: Client)
    requires y.now >= 0 && 0 in y.sites && y.challenges == [i]
    requires y.zones == map[0 := []] && y.servers == map[0 := map[]]
    requires i == NewChallenge(y.now, y.sites[0], c, i.nonce) && NonceShape(i.nonce) && i.exp <= MAX_TIME
    requires Genuine(u.origins, c) && y.now + y.sites[0].sessionTimeout <= MAX_TIME
    requires y.sites[0].storage == MemoryStore && y.sites[0].zone == y.sites[0].server == 0 && y.sites[0].prefix == []
    requires y.sites[0].secrets.previous == []
    ensures Ready(u, y, 0, c, i.fields.data)
  {
    IssuedConsumable(i.exp, i.nonce);
    EmptyAccepts(y, y.sites[0], i.fields.data);
    IssuedRedeemable(u, y, i, 0, c, i.fields.data);
  }

  /** A client gets a challenge and logs in with it. */
  lemma LoginRun(u: Setup, now: nat, site: Site, other: Site, c: Client, nonce: Bytes, fpr: Bytes)
    returns (ys: seq<System>, ts: seq<Step>)
    requires MakesTags(u.mac) && NonceShape(nonce) && Genuine(u.origins, c) && FprShape(fpr)
    requires Configured(u.origins, site) && Configured(u.origins, other) && site.storage == MemoryStore
    requires site.zone == site.server == 0 && site.prefix == [] && site.secrets.previous == []
    requires now + site.challengeTimeout <= MAX_TIME && now + site.sessionTimeout <= MAX_TIME
    ensures Run(u, ys, ts) && |ts| == 3
    ensures ys[3].now == now && ys[3].sites == map[0 := site, 1 := other]
    ensures ys[3].grants == [NewGrant(now, site, c, fpr, 0)]
  {
    var i := NewChallenge(now, site, c, nonce);
    ys, ts := IssueRun(u, i, site, other, c);
    ReadyOwn(u, ys[1], i, c);
    assert ys[1].(now := now) == ys[1];
    ys, ts := RedeemRun(u, ys, ts, now, 0, c, i.fields.data, fpr);
  }

  /** A session with these fields is granted. */
  lemma GrantRun(u: Setup, g: Fields, exp: nat, fpr: Bytes, secret: Bytes, other: Site)
    returns (ys: seq<System>, ts: seq<Step>)
    requires MakesTags(u.mac) && g.kind == SESS && g.data == SessionPayload(exp, fpr) && exp <= MAX_TIME
    requires FprShape(fpr) && Plausible(u.origins, g) && secret != [] && Configured(u.origins, other)
    ensures Run(u, ys, ts) && |ts| == 3
    ensures var y := ys[3];
      && y.now == GrantedAt(exp) && 1 in y.sites && y.sites[1] == other
      && y.grants == [Granted(secret, g, exp, fpr, 0)]
  {
    var now, nonce: Bytes := GrantedAt(exp), seq(NONCE_LEN, _ => '0');
    var site := SiteFor(u.origins, g, secret, MemoryStore, CHALLENGE_DEFAULT, exp - now);
    ForFields(u.origins, g, secret, MemoryStore, CHALLENGE_DEFAULT, exp - now);
    NewGrantIs(u.origins, g, exp, fpr, secret);
    ys, ts := LoginRun(u, now, site, other, ClientFor(u.origins, g), nonce, fpr);
  }

  /** A grant with fields g, then a cookie that reads the same MAC input as f, under any revocation list. */
  lemma SessionRun(u: Setup, f: Fields, g: Fields, exp: nat, fpr: Bytes, secret: Bytes, revoked: Revoked)
    returns (ys: seq<System>, ts: seq<Step>)
    requires MakesTags(u.mac) && f.kind == SESS && g.kind == SESS && Frame(f) == Frame(g) && secret != []
    requires g.data == SessionPayload(exp, fpr) && exp <= MAX_TIME && FprShape(fpr) && Plausible(u.origins, g)
    requires Wellspelt(f.data) && !Denied(revoked, CookieFpr(f.data)) && Plausible(u.origins, f)
    requires Overlap(CookieExp(f.data), exp)
    ensures Run(u, ys, ts) && |ts| == 4 && ts[3] == AnyAccess(u, secret, f, revoked)
    ensures Presents(ys[3], ts[3], f) && HasSession(u, ys[3], ts[3])
    ensures ys[3].grants == [Granted(secret, g, exp, fpr, 0)]
  {
    ForFields(u.origins, f, secret, MemoryStore, CHALLENGE_DEFAULT, 0);
    ys, ts := GrantRun(u, g, exp, fpr, secret, SiteFor(u.origins, f, secret, MemoryStore, CHALLENGE_DEFAULT, 0));
    assert ys[3].grants[0].secret == secret && Frame(ys[3].grants[0].fields) == Frame(f);
    AnyAccessPasses(u, ys[3], secret, f, revoked);
    ys, ts := RunExtends(u, ys, ts, AnyAccess(u, secret, f, revoked));
  }

  ghost predicate Covered(y: System, t: Step)
    requires t.Access? && t.id in y.sites
  {
    exists i :: 0 <= i < |y.grants| && Covers(y, t, y.grants[i])
  }

  /** In every run, whatever passes the session check with MAC input f has a covering grant. */
  ghost predicate AlwaysCovered(u: Setup, f: Fields) {
    forall ys, ts, n :: Run(u, ys, ts) && 0 <= n < |ts| && Presents(ys[n], ts[n], f) && HasSession(u, ys[n], ts[n])
      ==> Covered(ys[n], ts[n])
  }

  lemma SameFrameSameData(f: Fields, g: Fields)
    requires Frame(f) == Frame(g) && f.kind == g.kind && f.scope == g.scope && f.ip == g.ip && f.ua == g.ua
    ensures f == g
  {
    var n := |f.kind| + |f.scope| + 2;
    assert |f.data| == |g.data|;
    assert f.data == Frame(f)[n..n + |f.data|];
    assert g.data == Frame(g)[n..n + |g.data|];
  }

  lemma OtherGrantNotCovers(y: System, t: Step, f: Fields, g: Granted)
    requires Presents(y, t, f) && y.grants == [g] && g.fields != f && Frame(g.fields) == Frame(f)
    requires g.fields.kind == f.kind
    ensures !Covered(y, t)
  {
    if Covered(y, t) { SameFrameSameData(f, g.fields); }
  }

  lemma UncoveredRun(u: Setup, f: Fields) returns (ys: seq<System>, ts: seq<Step>)
    requires MakesTags(u.mac) && f.kind == SESS && Plausible(u.origins, f) && OtherSession(u.origins, f)
    ensures Run(u, ys, ts) && |ts| == 4 && Presents(ys[3], ts[3], f) && HasSession(u, ys[3], ts[3])
    ensures !Covered(ys[3], ts[3])
  {
    var g, exp, fpr := OtherSessionReads(u.origins, f);
    ys, ts := SessionRun(u, f, g, exp, fpr, "secret", _ => false);
    OtherGrantNotCovers(ys[3], ts[3], f, Granted("secret", g, exp, fpr, 0));
  }

  /** What is presented in a run has an origin. */
  lemma PresentedPlausible(u: Setup, ys: seq<System>, ts: seq<Step>, n: nat, f: Fields)
    requires Run(u, ys, ts) && n < |ts| && Presents(ys[n], ts[n], f)
    ensures Plausible(u.origins, f)
  {
    RunKeeps(u, ys, ts, n);
    assert Leads(u, ys[n], ts[n], ys[n + 1]);
    BoundPlausible(u.origins, ys[n].sites[ts[n].id], ts[n].c, SESS, f.data);
  }

  /**
   * The access theorem holds of a MAC input exactly when no location and client have it,
   * or it is refused on sight, or it reads as no other session the module could have
   * granted to some location and client in time.
   */
  lemma AccessCoveredExactly(u: Setup, f: Fields)
    requires MakesTags(u.mac) && f.kind == SESS
    ensures AlwaysCovered(u, f) <==> !(Plausible(u.origins, f) && OtherSession(u.origins, f))
  {
    if Plausible(u.origins, f) && OtherSession(u.origins, f) {
      var ys, ts := UncoveredRun(u, f);
    } else {
      forall ys, ts, n |
        Run(u, ys, ts) && 0 <= n < |ts| && Presents(ys[n], ts[n], f) && HasSession(u, ys[n], ts[n])
        ensures Covered(ys[n], ts[n])
      {
        PresentedPlausible(u, ys, ts, n, f);
        RunKeeps(u, ys, ts, n);
        assert Leads(u, ys[n], ts[n], ys[n + 1]);
        var i := PassingIsCovered(u, ys[n], ts[n]);
      }
    }
  }

  lemma MovedPayloadWellspelt(exp: nat, fpr: Bytes, ip: Bytes)
    requires exp <= MAX_TIME && FprShape(fpr) && Free(ip, BAR)
    ensures var b := SessionPayload(exp, fpr) + [SEP] + ip;
      Wellspelt(b) && CookieExp(b) == exp && CookieFpr(b) == fpr + [SEP] + ip
  {
    var b, d := SessionPayload(exp, fpr) + [SEP] + ip, Decimal(exp);
    DecimalPlain(exp);
    DecimalRoundTrip(exp);
    HexPlain(fpr);
    assert b == d + [BAR] + (fpr + [SEP] + ip);
    assert forall i :: 0 <= i < |d| ==> b[i] == d[i];
    IndexOfAt(b, BAR, 0, |d|, |b|);
    assert b[..|d|] == d && b[|d| + 1..] == fpr + [SEP] + ip;
  }

  /** A client that can send both User-Agents the failing inputs need. */
  ghost predicate Shifty(o: Origins, scope: Bytes, ip: Bytes, ua: Bytes) {
    && o.path(scope) && o.address(ip) && o.agent(ip + [SEP] + ua) && (ua == [] || o.agent(ua))
    && Free(ip, BAR) && Free(ip, LF)
  }

  /**
   * The failing input: a session granted to a client whose User-Agent is an address,
   * the separator and another User-Agent. Although its key is revoked now, the same client
   * gets in, by moving the address from the User-Agent into the cookie.
   */
  lemma RevokedKeyKeepsSession(
    u: Setup, scope: Bytes, ip: Bytes, ua: Bytes, exp: nat, fpr: Bytes, secret: Bytes)
    returns (ys: seq<System>, ts: seq<Step>)
    requires MakesTags(u.mac) && Shifty(u.origins, scope, ip, ua) && secret != []
    requires exp <= MAX_TIME && FprShape(fpr) && fpr != []
    ensures Run(u, ys, ts) && |ts| == 4 && ts[3].Access? && ts[3].c.ip == ip
    ensures ys[3].grants
         == [Granted(secret, SessionFields(scope, ip, ip + [SEP] + ua, SessionPayload(exp, fpr)), exp, fpr, 0)]
    ensures Denied(ts[3].revoked, fpr) && ts[3].id in ys[3].sites && HasSession(u, ys[3], ts[3])
  {
    var g := SessionFields(scope, ip, ip + [SEP] + ua, SessionPayload(exp, fpr));
    var f := SessionFields(scope, ip, ua, SessionPayload(exp, fpr) + [SEP] + ip);
    MoveUa(g, ip, ua);
    MovedPayloadWellspelt(exp, fpr, ip);
    assert |fpr + [SEP] + ip| > |fpr|;
    ys, ts := SessionRun(u, f, g, exp, fpr, secret, x => x == fpr);
  }

  /** A valid signature without a fingerprint opens a session that no revocation list ends. */
  lemma UnrevocableSession(u: Setup, f: Fields, exp: nat, secret: Bytes, revoked: Revoked)
    returns (ys: seq<System>, ts: seq<Step>)
    requires MakesTags(u.mac) && exp <= MAX_TIME && secret != [] && Plausible(u.origins, f)
    requires f.kind == SESS && f.data == SessionPayload(exp, [])
    ensures Run(u, ys, ts) && |ts| == 4 && ys[3].grants == [Granted(secret, f, exp, [], 0)]
    ensures ts[3].Access? && ts[3].id in ys[3].sites && ts[3].revoked == revoked && HasSession(u, ys[3], ts[3])
  {
    GrantedSpells(exp, []);
    ys, ts := SessionRun(u, f, f, exp, [], secret, revoked);
  }

  // ---- challenges read in two ways ----

  /** Use i consumed MAC input f at a location with this backend. */
  ghost predicate Consumes(y: System, i: int, storage: Storage, f: Fields) {
    && 0 <= i < |y.uses| && y.uses[i].site.storage == storage
    && ParseChallenge(y.uses[i].signed.plain).Some? && Consumed(y.uses[i]) == f
  }

  /** The stores after this nonce was taken. */
  ghost predicate StoresHold(y: System, storage: Storage, name: Bytes, exp: int) {
    && y.zones == map[0 := if storage == NoStore then [] else [Cell(name, exp)]]
    && y.servers == map[0 := if storage == RedisStore then map[name := exp] else map[]]
  }

  /** Only challenge c was issued, and it was consumed as g at this time, at location 1. */
  ghost predicate ConsumedAs(o: Origins, y: System, c: Issued, g: Fields, storage: Storage, at: int)
    requires Consumable(g.data) && c.at <= c.exp
  {
    && y.now == at && 0 in y.sites && y.sites[0] == SiteFor(o, c.fields, c.secret, storage, c.exp - c.at, 0)
    && y.challenges == [c]
    && StoresHold(y, storage, SpelledName(g.data), SpelledExp(g.data))
    && UsedAs(y, c, g, SiteFor(o, g, c.secret, storage, CHALLENGE_DEFAULT, 0), at)
  }

  /** The only use consumed challenge c as g at this location, and led to the only grant. */
  ghost predicate UsedAs(y: System, c: Issued, g: Fields, site: Site, at: int) {
    && |y.uses| == 1 && Signs(y.uses[0], c) && y.uses[0].at == at && y.uses[0].site == site
    && Consumes(y, 0, site.storage, g) && |y.grants| == 1 && y.grants[0].use == 0
  }

  /** A challenge that could be issued, and a reading of it that some location and client have. */
  ghost predicate Readable(u: Setup, c: Issued, g: Fields) {
    && MakesTags(u.mac) && ChallengeShape(c) && Plausible(u.origins, c.fields) && c.at <= c.exp
    && g.kind == CHAL && Frame(g) == Frame(c.fields) && Plausible(u.origins, g) && Consumable(g.data)
  }

  /** The store can be asked about a payload at this time. */
  predicate Timely(storage: Storage, b: Bytes, at: int)
    requires Consumable(b)
  {
    at <= Until(storage, SpelledExp(b))
    && (storage == RedisStore ==> SetFits([], SpelledName(b), SpelledExp(b) - at))
  }

  lemma FirstTaken(storage: Storage, name: Bytes, exp: int, at: int)
    requires |name| <= MAX_NONCE && (storage == RedisStore ==> at < exp)
    ensures CheckAndSetStep(storage, Some([]), Call(name, exp, at, true, true), Reply('+')).0
         == Some(if storage == NoStore then [] else [Cell(name, exp)])
  {
    var q: Nonces := [];
    var call := Call(name, exp, at, true, true);
    assert MemoryStep(q, call).0 == [Cell(name, exp)] + q == [Cell(name, exp)];
    assert LocalStep(Some(q), call).0 == Some(MemoryStep(q, call).0);
  }

  lemma RedeemedStores(u: Setup, y: System, c: Client, b: Bytes, fpr: Bytes)
    requires y.now >= 0 && 1 in y.sites && Consumable(b) && Timely(y.sites[1].storage, b, y.now)
    requires y.zones == map[0 := []] && y.servers == map[0 := map[]]
    requires y.sites[1].zone == y.sites[1].server == 0 && y.sites[1].prefix == []
    ensures StoresHold(Redeemed(u, y, 1, c, b, fpr), y.sites[1].storage, SpelledName(b), SpelledExp(b))
  {
    FirstTaken(y.sites[1].storage, SpelledName(b), SpelledExp(b), y.now);
    assert KeyOf(y.sites[1], SpelledName(b)) == SpelledName(b);
  }

  lemma RedeemedUsed(u: Setup, y: System, c: Issued, g: Fields, client: Client, fpr: Bytes)
    requires MakesTags(u.mac) && Consumable(g.data) && 0 <= y.now <= SpelledExp(g.data) && c.at <= y.now
    requires 1 in y.sites && y.uses == [] && y.grants == [] && Accepts(y.sites[1].secrets, c.secret)
    requires Frame(c.fields) == Frame(g) && Submitted(y.sites[1], client, g.data) == g
    ensures UsedAs(Redeemed(u, y, 1, client, g.data, fpr), c, g, y.sites[1], y.now)
  {
    RedeemedSigns(u, y, 1, client, g.data, fpr, c);
  }

  /** Challenge c has been issued at location 0; location 1 has the fields of g. */
  ghost function Scene(o: Origins, c: Issued, g: Fields, storage: Storage, now: int): System
    requires c.at <= c.exp
  {
    Init(now, SiteFor(o, c.fields, c.secret, storage, c.exp - c.at, 0),
         SiteFor(o, g, c.secret, storage, CHALLENGE_DEFAULT, 0)).(challenges := [c])
  }

  /** Nothing has been consumed at this scene. */
  ghost predicate Untouched(y: System, c: Issued, s0: Site, s1: Site) {
    && 0 in y.sites && 1 in y.sites && y.sites[0] == s0 && y.sites[1] == s1 && y.challenges == [c]
    && y.zones == map[0 := []] && y.servers == map[0 := map[]] && y.uses == [] && y.grants == []
  }

  lemma RedeemedIsConsumed(u: Setup, y: System, c: Issued, g: Fields, fpr: Bytes, storage: Storage)
    requires Readable(u, c, g) && c.at <= y.now && Timely(storage, g.data, y.now)
    requires Untouched(y, c, SiteFor(u.origins, c.fields, c.secret, storage, c.exp - c.at, 0),
                       SiteFor(u.origins, g, c.secret, storage, CHALLENGE_DEFAULT, 0))
    ensures ConsumedAs(u.origins, Redeemed(u, y, 1, ClientFor(u.origins, g), g.data, fpr), c, g, storage, y.now)
  {
    ForFields(u.origins, g, c.secret, storage, CHALLENGE_DEFAULT, 0);
    RedeemedUsed(u, y, c, g, ClientFor(u.origins, g), fpr);
    RedeemedStores(u, y, ClientFor(u.origins, g), g.data, fpr);
  }

  lemma ReadyOther(u: Setup, c: Issued, g: Fields, storage: Storage, at: int)
    requires Readable(u, c, g) && c.at <= at && Timely(storage, g.data, at)
    ensures Ready(u, Scene(u.origins, c, g, storage, at), 1, ClientFor(u.origins, g), g.data)
  {
    var y, c1 := Scene(u.origins, c, g, storage, at), ClientFor(u.origins, g);
    ForFields(u.origins, g, c.secret, storage, CHALLENGE_DEFAULT, 0);
    assert Submitted(y.sites[1], c1, g.data) == g;
    EmptyAccepts(y, y.sites[1], g.data);
    IssuedRedeemable(u, y, c, 1, c1, g.data);
  }

  lemma ScenePeople(u: Setup, c: Issued, g: Fields, storage: Storage)
    requires Readable(u, c, g)
    ensures var y, client := Scene(u.origins, c, g, storage, c.at), ClientFor(u.origins, c.fields);
      && Configured(u.origins, y.sites[0]) && Configured(u.origins, y.sites[1]) && Genuine(u.origins, client)
      && NewChallenge(c.at, y.sites[0], client, c.nonce) == c
  {
    ForFields(u.origins, c.fields, c.secret, storage, c.exp - c.at, 0);
    ForFields(u.origins, g, c.secret, storage, CHALLENGE_DEFAULT, 0);
  }

  /** Such a run. */
  lemma ConsumeRun(u: Setup, c: Issued, g: Fields, fpr: Bytes, storage: Storage, at: int)
    returns (ys: seq<System>, ts: seq<Step>)
    requires Readable(u, c, g) && c.at <= at && Timely(storage, g.data, at) && FprShape(fpr)
    ensures Run(u, ys, ts) && |ts| == 3 && ConsumedAs(u.origins, ys[3], c, g, storage, at)
  {
    var y := Scene(u.origins, c, g, storage, c.at);
    ScenePeople(u, c, g, storage);
    ys, ts := IssueRun(u, c, y.sites[0], y.sites[1], ClientFor(u.origins, c.fields));
    assert ys[1].(now := at) == Scene(u.origins, c, g, storage, at);
    ReadyOther(u, c, g, storage, at);
    ys, ts := RedeemRun(u, ys, ts, at, 1, ClientFor(u.origins, g), g.data, fpr);
    RedeemedIsConsumed(u, Scene(u.origins, c, g, storage, at), c, g, fpr, storage);
  }

  ghost predicate AnsweredAt(y: System, i: int)
    requires 0 <= i < |y.uses|
  {
    exists q :: 0 <= q < |y.challenges| && Answers(y.uses[i], y.challenges[q])
  }

  /** In every run, a login with this backend that consumes MAC input f answers a challenge issued for it. */
  ghost predicate AlwaysAnswered(u: Setup, storage: Storage, f: Fields) {
    forall ys, ts, n, i :: Run(u, ys, ts) && 0 <= n < |ys| && Consumes(ys[n], i, storage, f) ==> AnsweredAt(ys[n], i)
  }

  lemma OtherIssueNotAnswers(y: System, storage: Storage, f: Fields, c: Issued)
    requires Consumes(y, 0, storage, f) && y.challenges == [c] && c.fields != f && Frame(c.fields) == Frame(f)
    requires c.fields.kind == f.kind
    ensures !AnsweredAt(y, 0)
  {
    if AnsweredAt(y, 0) { SameFrameSameData(f, c.fields); }
  }

  /** A payload that some login with this backend can consume. */
  predicate ConsumableBy(storage: Storage, b: Bytes) {
    Consumable(b) && Askable(storage, b, SpelledExp(b) + 1)
  }

  lemma UnansweredRun(u: Setup, storage: Storage, f: Fields) returns (ys: seq<System>, ts: seq<Step>)
    requires MakesTags(u.mac) && f.kind == CHAL && Plausible(u.origins, f)
    requires ConsumableBy(storage, f.data) && OtherChallenge(u.origins, storage, f)
    ensures Run(u, ys, ts) && |ts| == 3 && Consumes(ys[3], 0, storage, f) && !AnsweredAt(ys[3], 0)
  {
    var g, exp, nonce := OtherChallengeReads(u.origins, storage, f);
    var at := if exp <= Config.MAX_CHALLENGE then 0 else exp - Config.MAX_CHALLENGE;
    var c := Issued("secret", g, exp, nonce, at);
    ys, ts := ConsumeRun(u, c, f, [], storage, Until(storage, SpelledExp(f.data)));
    OtherIssueNotAnswers(ys[3], storage, f, c);
  }

  lemma ConsumedAnswers(u: Setup, y: System, storage: Storage, f: Fields, i: int)
    requires WellFormed(u.origins, y) && Consumes(y, i, storage, f)
    requires !(Plausible(u.origins, f) && ConsumableBy(storage, f.data) && OtherChallenge(u.origins, storage, f))
    ensures AnsweredAt(y, i)
  {
    var x := y.uses[i];
    assert UseFormed(u.origins, y, x);
    BoundPlausible(u.origins, x.site, x.c, CHAL, f.data);
    UseAskable(x, x.exp + 1);
    var q :| 0 <= q < |y.challenges| && Signs(x, y.challenges[q]);
    assert ChallengeFormed(u.origins, y, y.challenges[q]);
    SignedIsAnswered(u.origins, x, y.challenges[q]);
  }

  /**
   * With any backend, a login answers a challenge issued for its own keyring and client
   * exactly when no location and client have its MAC input, or the payload or the store
   * refuses it on sight, or it reads as no other challenge that could be issued in time.
   */
  lemma LoginAnswersExactly(u: Setup, storage: Storage, f: Fields)
    requires MakesTags(u.mac) && f.kind == CHAL
    ensures AlwaysAnswered(u, storage, f)
       <==> !(Plausible(u.origins, f) && ConsumableBy(storage, f.data) && OtherChallenge(u.origins, storage, f))
  {
    if Plausible(u.origins, f) && ConsumableBy(storage, f.data) && OtherChallenge(u.origins, storage, f) {
      var ys, ts := UnansweredRun(u, storage, f);
    } else {
      forall ys, ts, n, i | Run(u, ys, ts) && 0 <= n < |ys| && Consumes(ys[n], i, storage, f)
        ensures AnsweredAt(ys[n], i)
      {
        RunKeeps(u, ys, ts, n);
        ConsumedAnswers(u, ys[n], storage, f, i);
      }
    }
  }

  // ---- challenges used twice ----

  /** In every run the challenge opens at most one session before its expiry through one store of this kind. */
  ghost predicate AlwaysOnce(u: Setup, storage: Storage, c: Issued) {
    forall ys, ts, n, i, j :: Run(u, ys, ts) && 0 <= n < |ys| ==> !GrantedTwice(ys[n], c, storage, i, j)
  }

  /** The zone takes a challenge's own nonce after another reading of it was consumed. */
  lemma ZoneTakesBoth(name: Bytes, e: int, nonce: Bytes, exp: nat, at: int)
    requires |nonce| <= MAX_NONCE && (name != nonce || e <= at)
    ensures LocalStep(Some([Cell(name, e)]), Call(nonce, exp, at, true, true)).1 == Ok
  {
    var q := [Cell(name, e)];
    if e <= at { assert q[..|q| - 1] == []; }
  }

  /** What a login over another reading leaves takes the challenge itself. */
  lemma SecondAccepted(y: System, s: Site, b: Bytes, name: Bytes, e: int)
    requires Consumable(b) && y.now < SpelledExp(b) <= y.now + Config.MAX_CHALLENGE && |SpelledName(b)| == NONCE_LEN
    requires s.zone == s.server == 0 && s.prefix == [] && StoresHold(y, s.storage, name, e)
    requires s.storage == NoStore || name != SpelledName(b) || e <= y.now
    ensures Accepted(y, s, b)
  {
    if s.storage != NoStore { ZoneTakesBoth(name, e, SpelledName(b), SpelledExp(b), y.now); }
    NonceFits(SpelledName(b), SpelledExp(b) - y.now);
    assert KeyOf(s, SpelledName(b)) == SpelledName(b);
  }

  lemma BothSigned(u: Setup, z: System, c: Issued, client: Client, fpr: Bytes)
    requires z.now >= 0 && 0 in z.sites && Consumable(c.fields.data) && z.now < c.exp && c in z.challenges
    requires |z.uses| == 1 && Signs(z.uses[0], c) && z.uses[0].at < c.exp && |z.grants| == 1 && z.grants[0].use == 0
    requires Signs(UseMade(u, z, 0, client, c.fields.data, fpr), c)
    ensures var w := Redeemed(u, z, 0, client, c.fields.data, fpr);
      OpenedTwice(w, c, 0, 1) && w.uses[w.grants[0].use] == z.uses[0] && w.uses[w.grants[1].use].site == z.sites[0]
  {
    var w := Redeemed(u, z, 0, client, c.fields.data, fpr);
    assert w.grants[0] == z.grants[0] && w.grants[1].use == 1 && w.uses[0] == z.uses[0];
  }

  /** After the other reading the challenge itself still opens a session. */
  lemma ReadyAgain(u: Setup, y: System, c: Issued, g: Fields, fpr: Bytes, storage: Storage, at: int, later: int)
    requires Readable(u, c, g) && c.at <= at <= later < c.exp && ConsumedAs(u.origins, y, c, g, storage, at)
    requires storage == NoStore || SpelledName(g.data) != c.nonce || SpelledExp(g.data) <= later
    ensures var z, client := y.(now := later), ClientFor(u.origins, c.fields);
      && Ready(u, z, 0, client, c.fields.data)
      && GrantedTwice(Redeemed(u, z, 0, client, c.fields.data, fpr), c, storage, 0, 1)
  {
    var z, client, b := y.(now := later), ClientFor(u.origins, c.fields), c.fields.data;
    IssuedConsumable(c.exp, c.nonce);
    SecondAccepted(z, z.sites[0], b, SpelledName(g.data), SpelledExp(g.data));
    ForFields(u.origins, c.fields, c.secret, storage, c.exp - c.at, 0);
    assert Submitted(z.sites[0], client, b) == c.fields;
    IssuedRedeemable(u, z, c, 0, client, b);
    RedeemedSigns(u, z, 0, client, b, fpr, c);
    BothSigned(u, z, c, client, fpr);
  }

  /** A reading of a challenge and the challenge itself both open a session before its expiry. */
  lemma TwoSessionsRun(u: Setup, c: Issued, g: Fields, fpr: Bytes, storage: Storage, at: int, later: int)
    returns (ys: seq<System>, ts: seq<Step>)
    requires Readable(u, c, g) && FprShape(fpr) && c.at <= at <= later < c.exp && Timely(storage, g.data, at)
    requires storage == NoStore || SpelledName(g.data) != c.nonce || SpelledExp(g.data) <= later
    ensures Run(u, ys, ts) && |ts| == 5 && GrantedTwice(ys[5], c, storage, 0, 1)
  {
    ys, ts := ConsumeRun(u, c, g, fpr, storage, at);
    ReadyAgain(u, ys[3], c, g, fpr, storage, at, later);
    ys, ts := RedeemRun(u, ys, ts, later, 0, ClientFor(u.origins, c.fields), c.fields.data, fpr);
  }

  /** When a second use and the challenge itself are consumed, one after the other. */
  lemma SecondUseRun(u: Setup, c: Issued, g: Fields, fpr: Bytes, storage: Storage)
    returns (ys: seq<System>, ts: seq<Step>)
    requires Readable(u, c, g) && FprShape(fpr) && SecondUse(storage, g.data, c.at, c.exp, c.nonce)
    ensures Run(u, ys, ts) && |ts| == 5 && GrantedTwice(ys[5], c, storage, 0, 1)
  {
    var at := Latest(storage, g.data, c.exp);
    var later := if SpelledName(g.data) != c.nonce then at else SpelledExp(g.data);
    ys, ts := TwoSessionsRun(u, c, g, fpr, storage, at, later);
  }

  /**
   * An issued challenge opens at most one session before its expiry through one store, in
   * every run, exactly when there is a store and no cut of its MAC input that some
   * location and client have can be consumed in time under another name or an earlier expiry.
   */
  lemma OneSessionExactly(u: Setup, storage: Storage, c: Issued)
    requires MakesTags(u.mac) && ChallengeShape(c)
    ensures AlwaysOnce(u, storage, c)
       <==> !(Plausible(u.origins, c.fields)
              && (storage == NoStore || OtherUse(u.origins, storage, c.fields, c.at, c.exp, c.nonce)))
  {
    if !Plausible(u.origins, c.fields) {
      forall ys, ts, n, i, j | Run(u, ys, ts) && 0 <= n < |ys| ensures !GrantedTwice(ys[n], c, storage, i, j) {
        if GrantedTwice(ys[n], c, storage, i, j) { IssuedPlausible(u, ys, ts, n, c); }
      }
    } else if storage == NoStore {
      IssuedConsumable(c.exp, c.nonce);
      var ys, ts := TwoSessionsRun(u, c, c.fields, [], storage, c.at, c.at);
    } else if OtherUse(u.origins, storage, c.fields, c.at, c.exp, c.nonce) {
      var g := OtherUseReads(u.origins, storage, c.fields, c.at, c.exp, c.nonce);
      var ys, ts := SecondUseRun(u, c, g, [], storage);
    } else {
      forall ys, ts, n, i, j | Run(u, ys, ts) && 0 <= n < |ys| ensures !GrantedTwice(ys[n], c, storage, i, j) {
        OneSessionPerChallenge(u, ys, ts, n, c, storage, i, j);
      }
    }
  }

  lemma IssuedPlausible(u: Setup, ys: seq<System>, ts: seq<Step>, n: nat, c: Issued)
    requires Run(u, ys, ts) && n < |ys| && c in ys[n].challenges
    ensures Plausible(u.origins, c.fields)
  {
    RunKeeps(u, ys, ts, n);
    var q :| 0 <= q < |ys[n].challenges| && ys[n].challenges[q] == c;
    assert ChallengeFormed(u.origins, ys[n], ys[n].challenges[q]);
  }

  lemma MovedPayloadConsumable(exp: nat, nonce: Bytes, ip: Bytes)
    requires exp <= MAX_TIME && NonceShape(nonce) && Free(ip, BAR) && Free(ip, LF) && |ip| <= 200
    ensures var b := ChallengePayload(exp, nonce) + [SEP] + ip;
      Consumable(b) && SpelledExp(b) == exp && SpelledName(b) == nonce + [SEP] + ip
  {
    DecimalPlain(exp);
    HexPlain(nonce);
    DecimalRoundTrip(exp);
    TimeShort(exp);
    ExpiryBarAt(Decimal(exp), nonce + [SEP] + ip);
    assert ChallengePayload(exp, nonce) + [SEP] + ip == MARKER + Decimal(exp) + [BAR] + (nonce + [SEP] + ip);
  }

  /**
   * The failing input: a challenge issued to a client whose User-Agent is its address,
   * the separator and another User-Agent opens two sessions before its expiry, under
   * its nonce and under the nonce with the address appended, with any backend.
   */
  lemma ChallengeUsedTwice(
    u: Setup, storage: Storage, scope: Bytes, ip: Bytes, ua: Bytes, c: Issued, fpr: Bytes)
    returns (ys: seq<System>, ts: seq<Step>)
    requires MakesTags(u.mac) && FprShape(fpr) && Shifty(u.origins, scope, ip, ua) && |ip| <= 200
    requires ChallengeShape(c)
          && c.fields == ChallengeFields(scope, ip, ip + [SEP] + ua, ChallengePayload(c.exp, c.nonce))
    ensures Run(u, ys, ts) && |ts| == 5 && GrantedTwice(ys[5], c, storage, 0, 1)
  {
    var g := ChallengeFields(scope, ip, ua, ChallengePayload(c.exp, c.nonce) + [SEP] + ip);
    MoveUa(c.fields, ip, ua);
    MovedPayloadConsumable(c.exp, c.nonce, ip);
    assert |c.nonce + [SEP] + ip| > |c.nonce|;
    NonceFits(c.nonce + [SEP] + ip, 1);
    ys, ts := SecondUseRun(u, c, g, fpr, storage);
  }

  /** A restart with an empty zone, as the node's location sees it. */
  lemma RestartRun(u: Setup, ys: seq<System>, ts: seq<Step>) returns (zs: seq<System>, rs: seq<Step>)
    requires Run(u, ys, ts) && ys[|ts|].now >= 0 && 0 in ys[|ts|].sites && 1 !in ys[|ts|].zones
    requires Configured(u.origins, ys[|ts|].sites[0])
    ensures Run(u, zs, rs) && |rs| == |ts| + 2
    ensures var y := ys[|ts|];
      zs[|rs|] == y.(zones := y.zones[1 := []], sites := y.sites[0 := y.sites[0].(zone := 1)])
  {
    zs, rs := RunExtends(u, ys, ts, NewZone(1, []));
    zs, rs := RunExtends(u, zs, rs, Configure(0, Some(ys[|ts|].sites[0].(zone := 1))));
  }

  lemma ReadyAfterRestart(u: Setup, y: System, z: System, c: Issued, fpr: Bytes)
    requires Readable(u, c, c.fields) && ConsumedAs(u.origins, y, c, c.fields, MemoryStore, c.at)
    requires z == y.(zones := y.zones[1 := []], sites := y.sites[0 := y.sites[0].(zone := 1)])
    ensures var client := ClientFor(u.origins, c.fields);
      && Ready(u, z, 0, client, c.fields.data)
      && OpenedTwice(Redeemed(u, z, 0, client, c.fields.data, fpr), c, 0, 1)
  {
    var client, b := ClientFor(u.origins, c.fields), c.fields.data;
    IssuedConsumable(c.exp, c.nonce);
    EmptyAccepts(z, z.sites[0], b);
    ForFields(u.origins, c.fields, c.secret, MemoryStore, c.exp - c.at, 0);
    assert Submitted(z.sites[0], client, b) == c.fields;
    IssuedRedeemable(u, z, c, 0, client, b);
    RedeemedSigns(u, z, 0, client, b, fpr, c);
    BothSigned(u, z, c, client, fpr);
  }

  /** One store is needed: after a restart with an empty zone any challenge opens a second session. */
  lemma RestartForgets(u: Setup, c: Issued, fpr: Bytes) returns (ys: seq<System>, ts: seq<Step>)
    requires MakesTags(u.mac) && ChallengeShape(c) && Plausible(u.origins, c.fields) && FprShape(fpr)
    ensures Run(u, ys, ts) && |ts| == 7 && OpenedTwice(ys[7], c, 0, 1)
  {
    IssuedConsumable(c.exp, c.nonce);
    ys, ts := ConsumeRun(u, c, c.fields, fpr, MemoryStore, c.at);
    var y := ys[3];
    ForFields(u.origins, c.fields, c.secret, MemoryStore, c.exp - c.at, 0);
    ys, ts := RestartRun(u, ys, ts);
    ReadyAfterRestart(u, y, ys[5], c, fpr);
    assert ys[5].(now := c.at) == ys[5];
    ys, ts := RedeemRun(u, ys, ts, c.at, 0, ClientFor(u.origins, c.fields), c.fields.data, fpr);
  }
}
