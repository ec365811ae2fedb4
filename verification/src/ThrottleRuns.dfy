/** Whole runs of the throttle: what a client sees does not depend on eviction, and bans are tight and justified. */
module ThrottleRuns {
  import opened ByteStrings
  import opened SharedStore
  import opened Throttle
  import Config

  datatype Event = Check(client: Bytes, at: int) | Report(o: Outcome)

  function Time(e: Event): int { if e.Check? then e.at else e.o.now }

  ghost predicate Chronological(events: seq<Event>, from: int) {
    && 0 <= from && (forall i :: 0 <= i < |events| ==> from <= Time(events[i]))
    && (forall i, j :: 0 <= i < j < |events| ==> Time(events[i]) <= Time(events[j]))
  }

  /** What a step lets the outside see: the ban answer, or the count and the ban in force after an outcome. */
  datatype Seen = Answer(banned: bool) | After(count: nat, until: int)

  function SeenOf(r: Option<Rec>, now: int): Seen {
    if r.None? then After(0, 0) else After(r.value.count, if r.value.until > now then r.value.until else 0)
  }

  function StoreNext(q: Records, e: Event): Records {
    if e.Check? then q else RecordStep(q, e.o)
  }

  function StoreSees(q: Records, e: Event): Seen {
    if e.Check? then Answer(Banned(q, e.client, e.at))
    else if !Keyable(e.o.ip) then After(0, 0)
    else SeenOf(Find(RecordStep(q, e.o), e.o.ip), e.o.now)
  }

  function StoreRun(q: Records, events: seq<Event>): (r: seq<Seen>)
    ensures |r| == |events|
    decreases events
  {
    if events == [] then [] else [StoreSees(q, events[0])] + StoreRun(StoreNext(q, events[0]), events[1..])
  }

  // ---- the reference: one record per address, never evicted, never full ----

  type Ideal = map<Bytes, Rec>

  function Get(m: Ideal, ip: Bytes): Option<Rec> { if ip in m then Some(m[ip]) else None }

  function IdealNext(m: Ideal, e: Event): Ideal {
    if e.Check? || !Keyable(e.o.ip) then m
    else if e.o.success then m - {e.o.ip}
    else m[e.o.ip := Bump(Get(m, e.o.ip), e.o.p, e.o.now)]
  }

  function IdealSees(m: Ideal, e: Event): Seen {
    if e.Check? then Answer(Keyable(e.client) && e.client in m && m[e.client].until > e.at)
    else if !Keyable(e.o.ip) then After(0, 0)
    else SeenOf(Get(IdealNext(m, e), e.o.ip), e.o.now)
  }

  function IdealRun(m: Ideal, events: seq<Event>): (r: seq<Seen>)
    ensures |r| == |events|
    decreases events
  {
    if events == [] then [] else [IdealSees(m, events[0])] + IdealRun(IdealNext(m, events[0]), events[1..])
  }

  // ---- eviction is unobservable ----

  /** The windows in use fit one horizon: none exceeds it, and no eviction reclaims earlier. */
  predicate Fits(p: Params, horizon: int) {
    p.window <= horizon <= Max(p.window, STALE_FLOOR)
  }

  /** A failure that needed a node got one, and its window fits. */
  predicate SmoothStep(q: Records, e: Event, horizon: int) {
    e.Report? && !e.o.success && Keyable(e.o.ip) ==> Recorded(q, e.o) && Fits(e.o.p, horizon)
  }

  /** The zone is never full during the run, and all windows fit. */
  predicate Smooth(q: Records, events: seq<Event>, horizon: int)
    decreases events
  {
    events == [] || (SmoothStep(q, events[0], horizon) && Smooth(StoreNext(q, events[0]), events[1..], horizon))
  }

  /** Stored records are the reference ones (old bans aside); missing ones are past mattering. */
  ghost predicate Matches(r: Option<Rec>, m: Option<Rec>, now: int, horizon: int) {
    match (r, m)
    case (None, None) => true
    case (None, Some(b)) => b.until <= now && b.start + horizon <= now
    case (Some(a), Some(b)) =>
      a.start == b.start && a.count == b.count && (a.until == b.until || (a.until <= now && b.until <= now))
    case (Some(_), None) => false
  }

  ghost predicate Simulates(q: Records, m: Ideal, now: int, horizon: int) {
    Distinct(q) && forall ip :: Matches(Find(q, ip), Get(m, ip), now, horizon)
  }

  lemma BumpMatches(r: Option<Rec>, m: Option<Rec>, p: Params, now: int, horizon: int)
    requires Matches(r, m, now, horizon) && Fits(p, horizon) && now >= 0
    ensures Matches(Some(Bump(r, p, now)), Some(Bump(m, p, now)), now, horizon)
    ensures Bump(r, p, now).count == Bump(m, p, now).count
  {
  }

  lemma StepSimulates(q: Records, m: Ideal, e: Event, from: int, horizon: int)
    requires Simulates(q, m, from, horizon) && 0 <= from <= Time(e) && SmoothStep(q, e, horizon)
    ensures StoreSees(q, e) == IdealSees(m, e)
    ensures Simulates(StoreNext(q, e), IdealNext(m, e), Time(e), horizon)
  {
    var q', m', now := StoreNext(q, e), IdealNext(m, e), Time(e);
    forall ip ensures Distinct(q') && Matches(Find(q', ip), Get(m', ip), now, horizon) {
      assert Matches(Find(q, ip), Get(m, ip), from, horizon);
      if e.Report? {
        RecordEffect(q, e.o, ip);
        if ip == e.o.ip && Recorded(q, e.o) && !e.o.success {
          BumpMatches(Find(q, ip), Get(m, ip), e.o.p, now, horizon);
        }
      }
    }
    if e.Report? {
      assert Matches(Find(q', e.o.ip), Get(m', e.o.ip), now, horizon);
      assert Matches(Find(q, e.o.ip), Get(m, e.o.ip), from, horizon);
      RecordEffect(q, e.o, e.o.ip);
    } else {
      assert Matches(Find(q, e.client), Get(m, e.client), from, horizon);
    }
  }

  /**
   * While the zone is never full, the evicting store answers every ban check and
   * reports every count exactly as an unbounded per-address map would, for any mix
   * of windows that fit one horizon.
   */
  lemma {:induction false} EvictionUnobservable(q: Records, m: Ideal, events: seq<Event>, from: int, horizon: int)
    requires Simulates(q, m, from, horizon) && Chronological(events, from) && Smooth(q, events, horizon)
    ensures StoreRun(q, events) == IdealRun(m, events)
    decreases events
  {
    if events != [] {
      StepSimulates(q, m, events[0], from, horizon);
      EvictionUnobservable(StoreNext(q, events[0]), IdealNext(m, events[0]), events[1..], Time(events[0]), horizon);
    }
  }

  lemma EmptySimulates(from: int, horizon: int)
    ensures Simulates([], map[], from, horizon)
  {
  }

  /** Parameters a location with an attached throttle zone can have after the configuration merge. */
  ghost predicate Configured(p: Params) {
    exists levels: seq<Config.Settings> ::
      && |levels| >= 2 && Config.AllWritten(levels)
      && var e := Config.Effective(levels);
         e.throttled && e.limit == p.limit && e.window == p.window && e.ban == p.ban
  }

  /** No failure with these settings was skipped because the zone was full. */
  ghost predicate NeverFull(q: Records, events: seq<Event>)
    decreases events
  {
    events != [] ==>
    && (events[0].Report? && !events[0].o.success && Keyable(events[0].o.ip) ==>
          Recorded(q, events[0].o) && Configured(events[0].o.p))
    && NeverFull(StoreNext(q, events[0]), events[1..])
  }

  lemma ConfiguredFits(p: Params)
    requires Configured(p)
    ensures Fits(p, 3600)
  {
    var levels: seq<Config.Settings> :|
      && |levels| >= 2 && Config.AllWritten(levels)
      && var e := Config.Effective(levels);
         e.throttled && e.limit == p.limit && e.window == p.window && e.ban == p.ban;
    Config.EffectiveLifetimes(levels);
  }

  lemma {:induction false} NeverFullSmooth(q: Records, events: seq<Event>)
    requires NeverFull(q, events)
    ensures Smooth(q, events, 3600)
    decreases events
  {
    if events != [] {
      var e := events[0];
      if e.Report? && !e.o.success && Keyable(e.o.ip) { ConfiguredFits(e.o.p); }
      NeverFullSmooth(StoreNext(q, e), events[1..]);
    }
  }

  /**
   * Every configuration makes eviction unobservable, even when locations with
   * different windows share the zone: the merge forces each window into 1..3600.
   */
  lemma ConfiguredEvictionUnobservable(events: seq<Event>)
    requires Chronological(events, 0) && NeverFull([], events)
    ensures StoreRun([], events) == IdealRun(map[], events)
  {
    NeverFullSmooth([], events);
    EmptySimulates(0, 3600);
    EvictionUnobservable([], map[], events, 0, 3600);
  }

  /** The clamp is what makes it true: any two windows with w > max(v, 3600) make eviction visible. */
  lemma WiderWindowsObservable(w: int, v: int, a: Bytes, b: Bytes)
    requires w > Max(v, STALE_FLOOR) && v >= 1 && Keyable(a) && Keyable(b) && a != b
    ensures
      var t := Max(v, STALE_FLOOR);
      var events := [Report(Outcome(a, false, Params(2, w, 300), 0, true, true)),
                     Report(Outcome(b, false, Params(2, v, 300), t, true, true)),
                     Report(Outcome(a, false, Params(2, w, 300), t, true, true))];
      && Chronological(events, 0)
      && StoreRun([], events)[2] == After(1, 0) && IdealRun(map[], events)[2] == After(2, t + 300)
  {
    var t := Max(v, STALE_FLOOR);
    var wide := Params(2, w, 300);
    var e0 := Report(Outcome(a, false, wide, 0, true, true));
    var e1 := Report(Outcome(b, false, Params(2, v, 300), t, true, true));
    var e2 := Report(Outcome(a, false, wide, t, true, true));
    var events := [e0, e1, e2];
    assert events[1..] == [e1, e2] && events[1..][1..] == [e2];
    var q1 := StoreNext([], e0);
    assert q1 == [Cell(a, Rec(0, 0, 1))];
    assert q1[..|q1| - 1] == [] && q1[1..] == [];
    assert EvictStale(q1, t, v, 8) == [];
    assert Find(q1, b).None?;
    var q2 := StoreNext(q1, e1);
    assert q2 == [Cell(b, Rec(t, 0, 1))];
    assert q2[1..] == [];
    RecordEffect(q2, e2.o, a);
    assert StoreRun([], events)[2] == StoreRun(q1, [e1, e2])[1] == StoreRun(q2, [e2])[0] == StoreSees(q2, e2);
    var m1: Ideal := IdealNext(map[], e0);
    var m2 := IdealNext(m1, e1);
    assert Get(m2, a) == Some(Rec(0, 0, 1));
    assert IdealRun(map[], events)[2] == IdealRun(m1, [e1, e2])[1] == IdealRun(m2, [e2])[0] == IdealSees(m2, e2);
  }

  // ---- the tight bound of the tumbling window ----

  /** No failure in the list triggers a ban, starting from record r. */
  predicate NoBan(r: Option<Rec>, p: Params, times: seq<int>)
    decreases times
  {
    times == [] || (Bump(r, p, times[0]).count < p.limit && NoBan(Some(Bump(r, p, times[0])), p, times[1..]))
  }

  ghost predicate Ascending(times: seq<int>) {
    forall i, j :: 0 <= i < j < |times| ==> times[i] <= times[j]
  }

  /** Inside one window every failure is counted. */
  lemma {:induction false} OneWindow(r: Rec, p: Params, times: seq<int>)
    requires NoBan(Some(r), p, times) && forall i :: 0 <= i < |times| ==> times[i] < r.start + p.window
    ensures times == [] || r.count + |times| < p.limit
    decreases times
  {
    if times != [] { OneWindow(Bump(Some(r), p, times[0]), p, times[1..]); }
  }

  /** A window's worth of failures without a ban spans at most the rest of one window and one more. */
  lemma {:induction false} TwoWindows(r: Rec, p: Params, times: seq<int>)
    requires NoBan(Some(r), p, times) && Ascending(times) && r.count >= 1
    requires times != [] ==> times[|times| - 1] < times[0] + p.window
    ensures |times| <= Max(0, p.limit - 1 - r.count) + Max(0, p.limit - 1)
    decreases times
  {
    if times != [] {
      var next := Bump(Some(r), p, times[0]);
      if r.start + p.window <= times[0] {
        OneWindow(next, p, times[1..]);
      } else {
        TwoWindows(next, p, times[1..]);
      }
    }
  }

  /** Any max(1, 2*limit - 2) failures within less than one window trigger a ban, whatever came before. */
  lemma BanWithinBound(r: Option<Rec>, p: Params, times: seq<int>)
    requires p.limit >= 1 && Ascending(times) && |times| >= Max(1, 2 * p.limit - 2)
    requires times[|times| - 1] < times[0] + p.window
    requires r.Some? ==> r.value.count >= 1
    ensures !NoBan(r, p, times)
  {
    if NoBan(r, p, times) {
      if r.Some? {
        TwoWindows(r.value, p, times);
      } else {
        OneWindow(Bump(None, p, times[0]), p, times[1..]);
      }
    }
  }

  function Repeat(t: int, n: nat): (s: seq<int>)
    ensures |s| == n && forall i :: 0 <= i < n ==> s[i] == t
  {
    if n == 0 then [] else [t] + Repeat(t, n - 1)
  }

  lemma {:induction false} RepeatNoBan(r: Rec, p: Params, t: int, n: nat, rest: seq<int>)
    requires t < r.start + p.window && r.count + n < p.limit
    requires NoBan(Some(r.(count := r.count + n)), p, rest)
    ensures NoBan(Some(r), p, Repeat(t, n) + rest)
    decreases n
  {
    if n > 0 {
      var times := Repeat(t, n) + rest;
      assert times[0] == t && times[1..] == Repeat(t, n - 1) + rest;
      RepeatNoBan(Bump(Some(r), p, t), p, t, n - 1, rest);
    } else {
      assert Repeat(t, 0) + rest == rest;
    }
  }

  /** One failure opens a window; then limit-2 at its last second and limit-1 in the next. */
  function Slowest(p: Params): seq<int>
    requires p.limit >= 2
  {
    Repeat(p.window - 1, p.limit - 2) + Repeat(p.window, p.limit - 1)
  }

  lemma SlowestShape(p: Params)
    requires p.limit >= 2 && p.window >= 2
    ensures |Slowest(p)| == 2 * p.limit - 3 && Ascending(Slowest(p))
    ensures forall i :: 0 <= i < |Slowest(p)| ==> p.window - 1 <= Slowest(p)[i] <= p.window
  {
  }

  /** A full window rolls over and counts from one again. */
  lemma NextWindowNoBan(p: Params)
    requires p.limit >= 2 && p.window >= 2
    ensures NoBan(Some(Rec(0, 0, p.limit - 1)), p, Repeat(p.window, p.limit - 1))
  {
    var full, late := Rec(0, 0, p.limit - 1), Repeat(p.window, p.limit - 1);
    assert late[0] == p.window && late[1..] == Repeat(p.window, p.limit - 2) + [];
    RepeatNoBan(Bump(Some(full), p, p.window), p, p.window, p.limit - 2, []);
  }

  /** The bound is tight: 2*limit - 3 failures inside two seconds can go without a ban. */
  lemma BoundIsTight(p: Params)
    requires p.limit >= 2 && p.window >= 2
    ensures NoBan(None, p, [0] + Slowest(p))
  {
    NextWindowNoBan(p);
    RepeatNoBan(Rec(0, 0, 1), p, p.window - 1, p.limit - 2, Repeat(p.window, p.limit - 1));
    var times := [0] + Slowest(p);
    assert times[0] == 0 && times[1..] == Slowest(p) && Bump(None, p, 0) == Rec(0, 0, 1);
  }

  /** The times at which one address fails in a run. */
  function FailTimes(events: seq<Event>, ip: Bytes): seq<int> {
    if events == [] then []
    else if events[0].Report? && events[0].o.ip == ip && !events[0].o.success
    then [events[0].o.now] + FailTimes(events[1..], ip)
    else FailTimes(events[1..], ip)
  }

  /** Fixed parameters, and no success of this address. */
  ghost predicate Failing(events: seq<Event>, ip: Bytes, p: Params) {
    forall i :: 0 <= i < |events| && events[i].Report? && events[i].o.ip == ip ==>
      events[i].o.p == p && !events[i].o.success
  }

  /** Some failure of this address reaches the limit during the run. */
  ghost predicate TriggersBan(seen: seq<Seen>, events: seq<Event>, ip: Bytes, limit: nat)
    requires |seen| == |events|
  {
    exists i ::
      0 <= i < |events| && events[i].Report? && events[i].o.ip == ip && seen[i].After? && seen[i].count >= limit
  }

  lemma TriggersTail(seen: seq<Seen>, events: seq<Event>, ip: Bytes, limit: nat)
    requires |seen| == |events| && events != [] && TriggersBan(seen[1..], events[1..], ip, limit)
    ensures TriggersBan(seen, events, ip, limit)
  {
    var i :| 0 <= i < |events[1..]| && events[1..][i].Report? && events[1..][i].o.ip == ip
             && seen[1..][i].After? && seen[1..][i].count >= limit;
    assert events[i + 1].Report? && seen[i + 1].After?;
  }

  /** A run without a trigger is, for each address, a list of failures without a ban. */
  lemma {:induction false} NoTriggerNoBan(m: Ideal, events: seq<Event>, ip: Bytes, p: Params)
    requires Keyable(ip) && Failing(events, ip, p)
    requires !TriggersBan(IdealRun(m, events), events, ip, p.limit)
    ensures NoBan(Get(m, ip), p, FailTimes(events, ip))
    decreases events
  {
    if events != [] {
      var e, seen := events[0], IdealRun(m, events);
      if TriggersBan(seen[1..], events[1..], ip, p.limit) { TriggersTail(seen, events, ip, p.limit); }
      NoTriggerNoBan(IdealNext(m, e), events[1..], ip, p);
      if e.Report? && e.o.ip == ip {
        assert !(events[0].Report? && seen[0].After? && seen[0].count >= p.limit);
        assert FailTimes(events, ip)[1..] == FailTimes(events[1..], ip);
      }
    }
  }

  lemma {:induction false} FailTimesAscend(events: seq<Event>, ip: Bytes, from: int)
    requires Chronological(events, from)
    ensures Ascending(FailTimes(events, ip))
    ensures forall i :: 0 <= i < |FailTimes(events, ip)| ==> from <= FailTimes(events, ip)[i]
    decreases events
  {
    if events != [] { FailTimesAscend(events[1..], ip, Time(events[0])); }
  }

  function StoreAfter(q: Records, events: seq<Event>): Records
    decreases events
  {
    if events == [] then q else StoreAfter(StoreNext(q, events[0]), events[1..])
  }

  function IdealAfter(m: Ideal, events: seq<Event>): Ideal
    decreases events
  {
    if events == [] then m else IdealAfter(IdealNext(m, events[0]), events[1..])
  }

  ghost predicate Counting(m: Ideal) { forall ip :: ip in m ==> m[ip].count >= 1 }

  lemma {:induction false} AfterSimulates(q: Records, m: Ideal, events: seq<Event>, from: int, to: int, horizon: int)
    requires Simulates(q, m, from, horizon) && Counting(m) && Smooth(q, events, horizon)
    requires Chronological(events, from) && from <= to && forall i :: 0 <= i < |events| ==> Time(events[i]) <= to
    ensures Simulates(StoreAfter(q, events), IdealAfter(m, events), to, horizon) && Counting(IdealAfter(m, events))
    decreases events
  {
    if events == [] {
      forall ip ensures Matches(Find(q, ip), Get(m, ip), to, horizon) {
        assert Matches(Find(q, ip), Get(m, ip), from, horizon);
      }
    } else {
      StepSimulates(q, m, events[0], from, horizon);
      AfterSimulates(StoreNext(q, events[0]), IdealNext(m, events[0]), events[1..], Time(events[0]), to, horizon);
    }
  }

  /** Enough failures of one address, close enough together. */
  ghost predicate Barrage(events: seq<Event>, ip: Bytes, p: Params) {
    var times := FailTimes(events, ip);
    |times| >= Max(1, 2 * p.limit - 2) && times[|times| - 1] < times[0] + p.window
  }

  lemma IdealTriggersBan(m: Ideal, events: seq<Event>, from: int, ip: Bytes, p: Params)
    requires Counting(m) && Chronological(events, from) && Keyable(ip)
    requires Failing(events, ip, p) && p.limit >= 1 && Barrage(events, ip, p)
    ensures TriggersBan(IdealRun(m, events), events, ip, p.limit)
  {
    FailTimesAscend(events, ip, from);
    BanWithinBound(Get(m, ip), p, FailTimes(events, ip));
    if !TriggersBan(IdealRun(m, events), events, ip, p.limit) {
      NoTriggerNoBan(m, events, ip, p);
    }
  }

  /** The whole past is within the zone's means and lies before `from`. */
  ghost predicate Past(past: seq<Event>, from: int) {
    && Chronological(past, 0) && Smooth([], past, 3600)
    && 0 <= from && forall i :: 0 <= i < |past| ==> Time(past[i]) <= from
  }

  /**
   * The bound on whole runs of the evicting store, after any past and with other
   * addresses interleaved at will: a stretch with max(1, 2*limit - 2) failures of
   * one address spanning less than a window, and no success of it, contains the
   * failure that bans it.
   */
  lemma RunTriggersBan(past: seq<Event>, events: seq<Event>, from: int, ip: Bytes, p: Params)
    requires Past(past, from) && Keyable(ip)
    requires Chronological(events, from) && Smooth(StoreAfter([], past), events, 3600)
    requires Failing(events, ip, p) && p.limit >= 1 && Barrage(events, ip, p)
    ensures TriggersBan(StoreRun(StoreAfter([], past), events), events, ip, p.limit)
  {
    EmptySimulates(0, 3600);
    AfterSimulates([], map[], past, 0, from, 3600);
    EvictionUnobservable(StoreAfter([], past), IdealAfter(map[], past), events, from, 3600);
    IdealTriggersBan(IdealAfter(map[], past), events, from, ip, p);
  }

  /** One address failing at the given times. */
  function Reports(ip: Bytes, p: Params, times: seq<int>): (r: seq<Event>)
    ensures |r| == |times| && forall i :: 0 <= i < |r| ==> r[i] == Report(Outcome(ip, false, p, times[i], true, true))
  {
    if times == [] then [] else [Report(Outcome(ip, false, p, times[0], true, true))] + Reports(ip, p, times[1..])
  }

  lemma {:induction false} NoBanNoTrigger(m: Ideal, ip: Bytes, p: Params, times: seq<int>)
    requires Keyable(ip) && NoBan(Get(m, ip), p, times)
    ensures !TriggersBan(IdealRun(m, Reports(ip, p, times)), Reports(ip, p, times), ip, p.limit)
    decreases times
  {
    if times != [] {
      var events := Reports(ip, p, times);
      var seen := IdealRun(m, events);
      assert events[1..] == Reports(ip, p, times[1..]);
      NoBanNoTrigger(IdealNext(m, events[0]), ip, p, times[1..]);
      forall i | 0 <= i < |events| ensures !(seen[i].After? && seen[i].count >= p.limit) {
        if i > 0 { assert seen[i] == seen[1..][i - 1] && events[1..][i - 1] == events[i]; }
      }
    }
  }

  lemma ReportsChronological(ip: Bytes, p: Params, times: seq<int>)
    requires Ascending(times) && forall i :: 0 <= i < |times| ==> times[i] >= 0
    ensures Chronological(Reports(ip, p, times), 0)
  {
  }

  lemma {:induction false} ReportsSmooth(q: Records, ip: Bytes, p: Params, times: seq<int>)
    requires Fits(p, 3600)
    ensures Smooth(q, Reports(ip, p, times), 3600)
    decreases times
  {
    if times != [] {
      var events := Reports(ip, p, times);
      assert events[1..] == Reports(ip, p, times[1..]);
      ReportsSmooth(StoreNext(q, events[0]), ip, p, times[1..]);
    }
  }

  /** The bound cannot be lowered: this run of the real store has 2*limit - 3 such failures and no ban. */
  lemma TightRun(ip: Bytes, p: Params)
    requires Keyable(ip) && p.limit >= 2 && 2 <= p.window <= 3600
    ensures var events := Reports(ip, p, [0] + Slowest(p));
      && |Slowest(p)| == 2 * p.limit - 3 && Slowest(p)[|Slowest(p)| - 1] < Slowest(p)[0] + p.window
      && !TriggersBan(StoreRun([], events), events, ip, p.limit)
  {
    var times := [0] + Slowest(p);
    var events := Reports(ip, p, times);
    BoundIsTight(p);
    SlowestShape(p);
    NoBanNoTrigger(map[], ip, p, times);
    EmptySimulates(0, 3600);
    ReportsChronological(ip, p, times);
    ReportsSmooth([], ip, p, times);
    EvictionUnobservable([], map[], events, 0, 3600);
  }

  // ---- no unjustified ban ----

  /** A recorded outcome of one address. */
  datatype Mark = Mark(at: int, success: bool)

  /** The mark one event leaves on an address: outcomes that reached its record do. */
  function MarkOf(q: Records, e: Event, ip: Bytes): seq<Mark> {
    if e.Report? && e.o.ip == ip && Recorded(q, e.o) then [Mark(e.o.now, e.o.success)] else []
  }

  /** The recorded outcomes of one address over a run, in order. */
  function History(q: Records, events: seq<Event>, ip: Bytes): seq<Mark>
    decreases events
  {
    if events == [] then []
    else MarkOf(q, events[0], ip) + History(StoreNext(q, events[0]), events[1..], ip)
  }

  /** Marks i..j are failures only, at least `limit` of them, within less than a window. */
  ghost predicate Burst(h: seq<Mark>, p: Params, i: int, j: int) {
    && 0 <= i <= j < |h| && j - i + 1 >= p.limit
    && h[j].at - h[i].at < p.window
    && forall k :: i <= k <= j ==> !h[k].success
  }

  /** No success from mark i on. */
  ghost predicate NoSuccessSince(h: seq<Mark>, i: int) {
    forall k :: 0 <= k < |h| && i <= k ==> !h[k].success
  }

  /** Some burst ended less than the ban time ago, and the address has not succeeded since. */
  ghost predicate Justified(h: seq<Mark>, p: Params, now: int) {
    exists i, j :: Burst(h, p, i, j) && NoSuccessSince(h, i) && now < h[j].at + p.ban
  }

  /** What a record says about the history of its address. */
  ghost predicate Explains(h: seq<Mark>, p: Params, r: Option<Rec>) {
    r.Some? ==>
      var n, c := |h|, r.value.count;
      && 1 <= c <= n && h[n - c].at == r.value.start && h[n - 1].at - r.value.start < p.window
      && (forall k :: n - c <= k < n ==> !h[k].success)
      && (r.value.until == 0
          || exists i, j :: Burst(h, p, i, j) && NoSuccessSince(h, i) && r.value.until == h[j].at + p.ban)
  }

  lemma ExtendBurst(h: seq<Mark>, m: Mark, p: Params, i: int, j: int)
    requires Burst(h, p, i, j)
    ensures Burst(h + [m], p, i, j) && (h + [m])[j] == h[j]
  {
  }

  lemma BumpExplains(h: seq<Mark>, p: Params, r: Option<Rec>, now: int)
    requires Explains(h, p, r) && p.window >= 1
    ensures Explains(h + [Mark(now, false)], p, Some(Bump(r, p, now)))
  {
    var g, s := h + [Mark(now, false)], Bump(r, p, now);
    if s.count >= p.limit {
      assert Burst(g, p, |g| - s.count, |g| - 1) && NoSuccessSince(g, |g| - s.count);
    } else if r.Some? && r.value.until != 0 {
      var i, j :| Burst(h, p, i, j) && NoSuccessSince(h, i) && r.value.until == h[j].at + p.ban;
      ExtendBurst(h, Mark(now, false), p, i, j);
      assert NoSuccessSince(g, i);
    }
  }

  lemma StepExplains(q: Records, e: Event, ip: Bytes, p: Params, past: seq<Mark>)
    requires Distinct(q) && Explains(past, p, Find(q, ip)) && p.window >= 1
    requires e.Report? && e.o.ip == ip ==> e.o.p == p
    ensures Distinct(StoreNext(q, e)) && Explains(past + MarkOf(q, e, ip), p, Find(StoreNext(q, e), ip))
  {
    var marks := MarkOf(q, e, ip);
    if marks == [] { assert past + marks == past; }
    if e.Report? {
      RecordEffect(q, e.o, ip);
      if marks != [] && !e.o.success { BumpExplains(past, p, Find(q, ip), e.o.now); }
    }
  }

  lemma BanJustified(q: Records, ip: Bytes, p: Params, h: seq<Mark>, now: int)
    requires Explains(h, p, Find(q, ip)) && Banned(q, ip, now) && now >= 0
    ensures Justified(h, p, now)
  {
    var r := Find(q, ip).value;
    var i, j :| Burst(h, p, i, j) && NoSuccessSince(h, i) && r.until == h[j].at + p.ban;
  }

  /** Fixed parameters for one address. */
  ghost predicate Fixed(events: seq<Event>, ip: Bytes, p: Params) {
    forall i :: 0 <= i < |events| && events[i].Report? && events[i].o.ip == ip ==> events[i].o.p == p
  }

  lemma PrefixTail(events: seq<Event>, n: nat)
    requires 0 < n <= |events|
    ensures events[..n][0] == events[0] && events[..n][1..] == events[1..][..n - 1]
  {
  }

  /** A run cut before its last event. */
  lemma {:induction false} AfterSnoc(q: Records, events: seq<Event>, n: nat)
    requires n < |events|
    ensures StoreAfter(q, events[..n + 1]) == StoreNext(StoreAfter(q, events[..n]), events[n])
    decreases n
  {
    PrefixTail(events, n + 1);
    if n == 0 {
      assert events[1..][..0] == [];
    } else {
      PrefixTail(events, n);
      AfterSnoc(StoreNext(q, events[0]), events[1..], n - 1);
    }
  }

  lemma {:induction false} RunAt(q: Records, events: seq<Event>, n: nat)
    requires n < |events|
    ensures StoreRun(q, events)[n] == StoreSees(StoreAfter(q, events[..n]), events[n])
    decreases n
  {
    if n > 0 {
      PrefixTail(events, n);
      RunAt(StoreNext(q, events[0]), events[1..], n - 1);
    }
  }

  lemma {:induction false} HistorySnoc(q: Records, events: seq<Event>, ip: Bytes, n: nat)
    requires n < |events|
    ensures History(q, events[..n + 1], ip)
         == History(q, events[..n], ip) + MarkOf(StoreAfter(q, events[..n]), events[n], ip)
    decreases n
  {
    PrefixTail(events, n + 1);
    if n == 0 {
      assert events[1..][..0] == [];
    } else {
      PrefixTail(events, n);
      HistorySnoc(StoreNext(q, events[0]), events[1..], ip, n - 1);
    }
  }

  lemma {:induction false} RunExplains(events: seq<Event>, ip: Bytes, p: Params, n: nat)
    requires p.window >= 1 && Fixed(events, ip, p) && n <= |events|
    ensures Distinct(StoreAfter([], events[..n]))
    ensures Explains(History([], events[..n], ip), p, Find(StoreAfter([], events[..n]), ip))
    decreases n
  {
    if n > 0 {
      RunExplains(events, ip, p, n - 1);
      AfterSnoc([], events, n - 1);
      HistorySnoc([], events, ip, n - 1);
      StepExplains(StoreAfter([], events[..n - 1]), events[n - 1], ip, p, History([], events[..n - 1], ip));
    }
  }

  /**
   * No unjustified ban, in every multi-address run from an empty zone, full-zone
   * skips and evictions included: a client is told it is banned only if, less than
   * the ban time ago, it had `limit` recorded failures in a row within one window, and
   * has not succeeded since.
   */
  lemma NoUnjustifiedBan(events: seq<Event>, ip: Bytes, p: Params, n: nat)
    requires p.window >= 1 && Fixed(events, ip, p)
    requires n < |events| && events[n].Check? && events[n].client == ip && events[n].at >= 0
    requires StoreRun([], events)[n] == Answer(true)
    ensures Justified(History([], events[..n], ip), p, events[n].at)
  {
    RunExplains(events, ip, p, n);
    RunAt([], events, n);
    BanJustified(StoreAfter([], events[..n]), ip, p, History([], events[..n], ip), events[n].at);
  }

  // ---- a ban lasts ----

  lemma BanStays(q: Records, e: Event, ip: Bytes, p: Params, end: int)
    requires Distinct(q) && Keyable(ip) && Find(q, ip).Some? && Find(q, ip).value.until >= end
    requires Failing([e], ip, p) && end - p.ban <= Time(e) < end
    ensures Distinct(StoreNext(q, e)) && Find(StoreNext(q, e), ip).Some? && Find(StoreNext(q, e), ip).value.until >= end
  {
    assert [e][0] == e;
    if e.Report? { RecordEffect(q, e.o, ip); }
  }

  lemma {:induction false} BanHolds(q: Records, events: seq<Event>, ip: Bytes, p: Params, end: int, n: nat)
    requires Distinct(q) && Keyable(ip) && Find(q, ip).Some? && Find(q, ip).value.until >= end
    requires Failing(events, ip, p) && n < |events| && events[n].Check? && events[n].client == ip && events[n].at < end
    requires forall i :: 0 <= i <= n ==> end - p.ban <= Time(events[i]) <= events[n].at
    ensures StoreRun(q, events)[n] == Answer(true)
    decreases n
  {
    if n > 0 {
      assert Failing([events[0]], ip, p);
      BanStays(q, events[0], ip, p, end);
      BanHolds(StoreNext(q, events[0]), events[1..], ip, p, end, n - 1);
    }
  }

  /**
   * A ban lasts its full time in the evicting store: after a failure that reaches
   * the limit, every check of the address in the following `ban` seconds is answered
   * with a refusal, whatever other addresses do, unless the address succeeds first.
   */
  lemma BanLasts(q: Records, e: Event, events: seq<Event>, ip: Bytes, p: Params, n: nat)
    requires Distinct(q) && Keyable(ip) && e.Report? && e.o.ip == ip && !e.o.success && e.o.p == p && Recorded(q, e.o)
    requires StoreSees(q, e).count >= p.limit && Chronological(events, e.o.now) && Failing(events, ip, p)
    requires n < |events| && events[n].Check? && events[n].client == ip && events[n].at < e.o.now + p.ban
    ensures StoreRun(StoreNext(q, e), events)[n] == Answer(true)
  {
    TriggerSetsBan(q, e, ip, p);
    BanHolds(StoreNext(q, e), events, ip, p, e.o.now + p.ban, n);
  }

  lemma TriggerSetsBan(q: Records, e: Event, ip: Bytes, p: Params)
    requires Distinct(q) && Keyable(ip) && e.Report? && e.o.ip == ip && !e.o.success && e.o.p == p && Recorded(q, e.o)
    requires StoreSees(q, e).count >= p.limit
    ensures Distinct(StoreNext(q, e)) && Find(StoreNext(q, e), ip).Some?
    ensures Find(StoreNext(q, e), ip).value.until == e.o.now + p.ban
  {
    RecordEffect(q, e.o, ip);
  }
}
