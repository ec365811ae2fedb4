/** Inheritance and bounding of the numeric lifetimes across nested configuration blocks. */
module Config {

  const UNSET := -1                              // NGX_CONF_UNSET
  const UNSET_UINT := 0xFFFF_FFFF_FFFF_FFFF      // NGX_CONF_UNSET_UINT, NGX_CONF_UNSET_MSEC

  const MIN_CHALLENGE := 5
  const MAX_CHALLENGE := 3600
  const MAX_SESSION := 2592000

  /** The numeric part of a location configuration; `throttled` says a failure zone is attached. */
  datatype Settings = Settings(
    enable: int, challenge: int, session: int, limit: int, window: int, ban: int, gpg: int, throttled: bool)

  /** ngx_conf_merge_*_value. */
  function Inherit(conf: int, prev: int, unset: int, default: int): int {
    if conf != unset then conf else if prev != unset then prev else default
  }

  function ClampChallenge(v: int): int {
    if v < MIN_CHALLENGE then MIN_CHALLENGE else if v > MAX_CHALLENGE then MAX_CHALLENGE else v
  }

  function CapSession(v: int): int { if v > MAX_SESSION then MAX_SESSION else v }

  function BoundWindow(v: int): int { if v < 1 || v > 3600 then 60 else v }

  function BoundBan(v: int): int { if v < 1 || v > 86400 then 300 else v }

  function ClampGpg(v: int): int { if v < 1000 then 1000 else if v > 60000 then 60000 else v }

  /** merge_loc_conf: the child's fields are rewritten from the parent's and then bounded. */
  function Merged(prev: Settings, conf: Settings): Settings {
    var limit := Inherit(conf.limit, prev.limit, UNSET_UINT, 0);
    var window := Inherit(conf.window, prev.window, UNSET, 60);
    var ban := Inherit(conf.ban, prev.ban, UNSET, 300);
    var enable := Inherit(conf.enable, prev.enable, UNSET, 0);
    Settings(
      enable,
      ClampChallenge(Inherit(conf.challenge, prev.challenge, UNSET, 120)),
      CapSession(Inherit(conf.session, prev.session, UNSET, 3600)),
      limit,
      if limit > 0 then BoundWindow(window) else window,
      if limit > 0 then BoundBan(ban) else ban,
      ClampGpg(Inherit(conf.gpg, prev.gpg, UNSET_UINT, 2000)),
      (enable != 0 && limit > 0) || conf.throttled)
  }

  class LocConf {
    var enable: int
    var challengeTimeout: int
    var sessionTimeout: int
    var failureLimit: int
    var failureWindow: int
    var failureBanTime: int
    var gpgTimeout: int
    var failureZone: bool

    function Values(): Settings
      reads this
    {
      Settings(enable, challengeTimeout, sessionTimeout, failureLimit, failureWindow, failureBanTime,
               gpgTimeout, failureZone)
    }

    /** create_loc_conf: every field unset. */
    constructor ()
      ensures Values() == Settings(UNSET, UNSET, UNSET, UNSET_UINT, UNSET, UNSET, UNSET_UINT, false)
    {
      enable, challengeTimeout, sessionTimeout := UNSET, UNSET, UNSET;
      failureLimit, failureWindow, failureBanTime := UNSET_UINT, UNSET, UNSET;
      gpgTimeout, failureZone := UNSET_UINT, false;
    }

    method MergeTimeouts(prev: LocConf)
      requires prev != this
      modifies this`challengeTimeout, this`sessionTimeout, this`gpgTimeout
      ensures challengeTimeout == ClampChallenge(Inherit(old(challengeTimeout), prev.challengeTimeout, UNSET, 120))
      ensures sessionTimeout == CapSession(Inherit(old(sessionTimeout), prev.sessionTimeout, UNSET, 3600))
      ensures gpgTimeout == ClampGpg(Inherit(old(gpgTimeout), prev.gpgTimeout, UNSET_UINT, 2000))
    {
      challengeTimeout := Inherit(challengeTimeout, prev.challengeTimeout, UNSET, 120);
      if challengeTimeout < 5 {
        challengeTimeout := 5;
      } else if challengeTimeout > 3600 {
        challengeTimeout := 3600;
      }
      sessionTimeout := Inherit(sessionTimeout, prev.sessionTimeout, UNSET, 3600);
      if sessionTimeout > 2592000 { sessionTimeout := 2592000; }
      gpgTimeout := Inherit(gpgTimeout, prev.gpgTimeout, UNSET_UINT, 2000);
      if gpgTimeout < 1000 {
        gpgTimeout := 1000;
      } else if gpgTimeout > 60000 {
        gpgTimeout := 60000;
      }
    }

    method MergeThrottle(prev: LocConf)
      requires prev != this
      modifies this`failureLimit, this`failureWindow, this`failureBanTime
      ensures failureLimit == Inherit(old(failureLimit), prev.failureLimit, UNSET_UINT, 0)
      ensures var w := Inherit(old(failureWindow), prev.failureWindow, UNSET, 60);
        failureWindow == if failureLimit > 0 then BoundWindow(w) else w
      ensures var b := Inherit(old(failureBanTime), prev.failureBanTime, UNSET, 300);
        failureBanTime == if failureLimit > 0 then BoundBan(b) else b
    {
      failureLimit := Inherit(failureLimit, prev.failureLimit, UNSET_UINT, 0);
      failureWindow := Inherit(failureWindow, prev.failureWindow, UNSET, 60);
      failureBanTime := Inherit(failureBanTime, prev.failureBanTime, UNSET, 300);
      if failureLimit > 0 {
        if failureWindow < 1 || failureWindow > 3600 { failureWindow := 60; }
        if failureBanTime < 1 || failureBanTime > 86400 { failureBanTime := 300; }
      }
    }

    method Merge(prev: LocConf)
      requires prev != this
      modifies this
      ensures Values() == Merged(prev.Values(), old(Values()))
    {
      enable := Inherit(enable, prev.enable, UNSET, 0);
      MergeTimeouts(prev);
      MergeThrottle(prev);
      if enable != 0 && failureLimit > 0 { failureZone := true; }
    }
  }

  /** What a configuration file can say at one level: unset or non-negative, no zone yet. */
  predicate Written(c: Settings) {
    && c.enable in {UNSET, 0, 1} && !c.throttled
    && c.challenge >= UNSET && c.session >= UNSET && c.window >= UNSET && c.ban >= UNSET
    && 0 <= c.limit <= UNSET_UINT && 0 <= c.gpg <= UNSET_UINT
  }

  ghost predicate AllWritten(levels: seq<Settings>) {
    forall i :: 0 <= i < |levels| ==> Written(levels[i])
  }

  /** The settings in force at the last of a chain of blocks; the outermost is never merged itself. */
  function Effective(levels: seq<Settings>): Settings
    requires levels != []
  {
    if |levels| == 1 then levels[0]
    else Merged(Effective(levels[..|levels| - 1]), levels[|levels| - 1])
  }

  /** The value written at the nearest enclosing block, or the default. */
  function Nearest(levels: seq<Settings>, field: Settings -> int, unset: int, default: int): int {
    if levels == [] then default
    else if field(levels[|levels| - 1]) != unset then field(levels[|levels| - 1])
    else Nearest(levels[..|levels| - 1], field, unset, default)
  }

  function Challenge(c: Settings): int { c.challenge }
  function Session(c: Settings): int { c.session }
  function Limit(c: Settings): int { c.limit }
  function Window(c: Settings): int { c.window }
  function Ban(c: Settings): int { c.ban }
  function Gpg(c: Settings): int { c.gpg }
  function Enable(c: Settings): int { c.enable }

  /** A field some level of which may already hold its bounded value. */
  ghost predicate Carries(value: int, nearest: int, bounded: int) {
    value == nearest || value == bounded
  }

  /** Every level hands down the nearest written value, as written or already bounded. */
  lemma {:induction false} ChainCarries(levels: seq<Settings>)
    requires |levels| >= 2 && AllWritten(levels)
    ensures
      var e := Effective(levels);
      var window, ban := Nearest(levels, Window, UNSET, 60), Nearest(levels, Ban, UNSET, 300);
      && e.enable == Nearest(levels, Enable, UNSET, 0)
      && e.challenge == ClampChallenge(Nearest(levels, Challenge, UNSET, 120))
      && e.session == CapSession(Nearest(levels, Session, UNSET, 3600))
      && e.gpg == ClampGpg(Nearest(levels, Gpg, UNSET_UINT, 2000))
      && e.limit == Nearest(levels, Limit, UNSET_UINT, 0)
      && window >= 0 && ban >= 0 && 0 <= e.limit < UNSET_UINT
      && Carries(e.window, window, BoundWindow(window)) && Carries(e.ban, ban, BoundBan(ban))
      && (e.limit > 0 ==> e.window == BoundWindow(window) && e.ban == BoundBan(ban))
      && e.throttled == (e.enable != 0 && e.limit > 0)
  {
    var init := levels[..|levels| - 1];
    assert Written(levels[|levels| - 1]);
    if |levels| > 2 {
      ChainCarries(init);
    } else {
      assert Written(levels[0]) && init == [levels[0]];
      forall field: Settings -> int, unset: int, default: int
        ensures Nearest(init, field, unset, default) == if field(levels[0]) != unset then field(levels[0]) else default
      {
        assert init[..|init| - 1] == [];
      }
    }
  }

  /**
   * For nested blocks of any depth each effective lifetime is the bound applied to
   * the nearest written value (or the default) and lies in its documented range;
   * the window and ban bounds hold wherever a throttle zone is attached.
   */
  lemma EffectiveLifetimes(levels: seq<Settings>)
    requires |levels| >= 2 && AllWritten(levels)
    ensures
      var e := Effective(levels);
      && e.challenge == ClampChallenge(Nearest(levels, Challenge, UNSET, 120)) && 5 <= e.challenge <= 3600
      && e.session == CapSession(Nearest(levels, Session, UNSET, 3600)) && 0 <= e.session <= 2592000
      && e.gpg == ClampGpg(Nearest(levels, Gpg, UNSET_UINT, 2000)) && 1000 <= e.gpg <= 60000
      && (e.throttled ==>
            && e.limit >= 1
            && e.window == BoundWindow(Nearest(levels, Window, UNSET, 60)) && 1 <= e.window <= 3600
            && e.ban == BoundBan(Nearest(levels, Ban, UNSET, 300)) && 1 <= e.ban <= 86400)
    ensures
      var e := Effective(levels);
      var session, challenge := Nearest(levels, Session, -1, 3600), Nearest(levels, Challenge, -1, 120);
      var window, ban := Nearest(levels, Window, -1, 60), Nearest(levels, Ban, -1, 300);
      var gpg := Nearest(levels, Gpg, 0xFFFF_FFFF_FFFF_FFFF, 2000);
      && e.session == (if session > 2592000 then 2592000 else session)
      && e.challenge == (if challenge < 5 then 5 else if challenge > 3600 then 3600 else challenge)
      && e.gpg == (if gpg < 1000 then 1000 else if gpg > 60000 then 60000 else gpg)
      && (e.throttled ==> e.window == (if 1 <= window <= 3600 then window else 60))
      && (e.throttled ==> e.ban == (if 1 <= ban <= 86400 then ban else 300))
  {
    ChainCarries(levels);
    NearestNonNegative(levels, Session, UNSET, 3600);
  }

  lemma {:induction false} NearestNonNegative(levels: seq<Settings>, field: Settings -> int, unset: int, default: int)
    requires default >= 0 && forall i :: 0 <= i < |levels| ==> field(levels[i]) == unset || field(levels[i]) >= 0
    ensures Nearest(levels, field, unset, default) >= 0
  {
    if levels != [] { NearestNonNegative(levels[..|levels| - 1], field, unset, default); }
  }

  /** The challenge and session lifetimes some configuration gives a location are exactly those in range. */
  lemma LifetimesExactly(challenge: int, session: int)
    ensures (exists levels :: |levels| >= 2 && AllWritten(levels)
                              && Effective(levels).challenge == challenge && Effective(levels).session == session)
       <==> MIN_CHALLENGE <= challenge <= MAX_CHALLENGE && 0 <= session <= MAX_SESSION
  {
    if levels :| |levels| >= 2 && AllWritten(levels)
                 && Effective(levels).challenge == challenge && Effective(levels).session == session
    {
      EffectiveLifetimes(levels);
    }
    if MIN_CHALLENGE <= challenge <= MAX_CHALLENGE && 0 <= session <= MAX_SESSION {
      var unset := Settings(UNSET, UNSET, UNSET, UNSET_UINT, UNSET, UNSET, UNSET_UINT, false);
      var levels := [unset, unset.(challenge := challenge, session := session)];
      assert levels[..1] == [unset] && Effective([unset]) == unset;
      assert AllWritten(levels) && Effective(levels) == Merged(unset, levels[1]);
    }
  }
}
