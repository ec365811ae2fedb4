/** The adaptive per-IP failure throttle: one record per client address in an evicting zone. */
module Throttle {
  import opened ByteStrings
  import opened SharedStore

  /** Failure window start, end of the ban (0 = none), failures counted in the window. */
  datatype Rec = Rec(start: int, until: int, count: nat)

  datatype Params = Params(limit: nat, window: int, ban: int)

  type Records = Queue<Rec>

  const STALE_FLOOR := 3600
  const MAX_IP := 65535

  predicate Keyable(ip: Bytes) { 0 < |ip| <= MAX_IP }

  function Max(a: int, b: int): int { if a >= b then a else b }

  /** Neither banned nor inside any window the zone still has to remember. */
  predicate Stale(r: Rec, now: int, window: int) {
    r.until <= now && r.start + Max(window, STALE_FLOOR) <= now
  }

  /** One more failure: a new record, or the old one with its window rolled over if it elapsed. */
  function Bump(r: Option<Rec>, p: Params, now: int): (s: Rec)
    ensures s.count >= 1
  {
    var base := if r.None? then Rec(now, 0, 0) else r.value;
    var open := if base.start + p.window <= now then base.(start := now, count := 0) else base;
    var counted := open.(count := open.count + 1);
    if counted.count >= p.limit then counted.(until := now + p.ban) else counted
  }

  /** The queue after up to `max` nodes were examined from the old end. */
  function EvictStale(q: Records, now: int, window: int, max: nat): Records
    decreases max
  {
    if max == 0 || q == [] then q
    else
      var oldest := q[|q| - 1];
      var rest := EvictStale(q[..|q| - 1], now, window, max - 1);
      if Stale(oldest.value, now, window) then rest else rest + [oldest]
  }

  /** The walk over the queue: unlike the nonce zone it does not stop at a live node. */
  method Evict(zone: Zone<Rec>, now: int, window: int, max: nat)
    requires zone.Valid()
    modifies zone
    ensures zone.Valid() && zone.queue == EvictStale(old(zone.queue), now, window, max)
  {
    var i, left := |zone.queue|, max;
    assert zone.queue[..i] == zone.queue && zone.queue[i..] == [];
    while left > 0 && i > 0
      invariant zone.Valid() && 0 <= i <= |zone.queue|
      invariant EvictStale(old(zone.queue), now, window, max)
             == EvictStale(zone.queue[..i], now, window, left) + zone.queue[i..]
    {
      ghost var q := zone.queue;
      i := i - 1;
      left := left - 1;
      assert q[..i + 1][..i] == q[..i] && q[i..] == [q[i]] + q[i + 1..];
      if Stale(zone.queue[i].value, now, window) {
        zone.Remove(i);
        assert zone.queue[..i] == q[..i] && zone.queue[i..] == q[i + 1..];
      }
    }
    assert zone.queue[..i] + zone.queue[i..] == zone.queue;
    assert EvictStale(zone.queue[..i], now, window, left) == zone.queue[..i];
  }

  /** The queue without the node of one key. */
  function Cleared(q: Records, ip: Bytes): Records {
    if q == [] then [] else if q[0].key == ip then q[1..] else [q[0]] + Cleared(q[1..], ip)
  }

  lemma {:induction false} ClearedIsWithout(q: Records, i: nat)
    requires Distinct(q) && i < |q|
    ensures Cleared(q, q[i].key) == Without(q, i)
  {
    if i > 0 {
      assert q[1..][i - 1] == q[i];
      ClearedIsWithout(q[1..], i - 1);
      assert Without(q, i) == [q[0]] + Without(q[1..], i - 1);
    }
  }

  /** One reported login outcome. */
  datatype Outcome = Outcome(ip: Bytes, success: bool, p: Params, now: int, alloc: bool, retry: bool)

  /** throttle_record on the zone's nodes. */
  function RecordStep(q: Records, e: Outcome): Records {
    if !Keyable(e.ip) then q
    else
      var r := Find(q, e.ip);
      if e.success then Cleared(q, e.ip)
      else if r.Some? then [Cell(e.ip, Bump(r, e.p, e.now))] + Cleared(q, e.ip)
      else
        var q1 := EvictStale(q, e.now, e.p.window, 8);
        var q2 := if e.alloc then q1 else EvictStale(q1, e.now, e.p.window, 512);
        if e.alloc || e.retry then [Cell(e.ip, Bump(None, e.p, e.now))] + q2 else q2
  }

  /** The counting part: roll the window over if it elapsed, count, and ban at the limit. */
  method CountFailure(r: Rec, p: Params, now: int) returns (s: Rec)
    ensures s == Bump(Some(r), p, now)
  {
    s := r;
    if s.start + p.window <= now { s := s.(start := now, count := 0); }
    s := s.(count := s.count + 1);
    if s.count >= p.limit { s := s.(until := now + p.ban); }
  }

  /** A failure from an address that has a node: move it to the head and count. */
  method CountAgain(zone: Zone<Rec>, e: Outcome)
    requires zone.Valid() && Keyable(e.ip) && !e.success && Has(zone.queue, e.ip)
    modifies zone
    ensures zone.Valid() && zone.queue == RecordStep(old(zone.queue), e)
  {
    var i := zone.Position(e.ip);
    ClearedIsWithout(zone.queue, i);
    FindAt(zone.queue, i);
    var r := CountFailure(zone.queue[i].value, e.p, e.now);
    zone.RefreshHead(i, r);
  }

  /** A failure from a new address: make room, allocate, and give up silently if the zone is full. */
  method CountFirst(zone: Zone<Rec>, e: Outcome)
    requires zone.Valid() && Keyable(e.ip) && !e.success && Find(zone.queue, e.ip).None?
    modifies zone
    ensures zone.Valid() && zone.queue == RecordStep(old(zone.queue), e)
  {
    EvictFinds(zone.queue, e.now, e.p.window, 8, e.ip);
    Evict(zone, e.now, e.p.window, 8);
    if !e.alloc {
      EvictFinds(zone.queue, e.now, e.p.window, 512, e.ip);
      Evict(zone, e.now, e.p.window, 512);
      if !e.retry { return; }
    }
    FindHas(zone.queue, e.ip);
    zone.InsertHead(e.ip, Bump(None, e.p, e.now));
  }

  method Record(zone: Zone?<Rec>, e: Outcome)
    requires zone != null ==> zone.Valid()
    modifies zone
    ensures zone != null ==> zone.Valid() && zone.queue == RecordStep(old(zone.queue), e)
  {
    if zone == null || !Keyable(e.ip) { return; }
    FindHas(zone.queue, e.ip);
    var found := zone.Contains(e.ip);
    if e.success {
      if found {
        var i := zone.Position(e.ip);
        ClearedIsWithout(zone.queue, i);
        zone.Remove(i);
      } else {
        ClearedAbsent(zone.queue, e.ip);
      }
    } else if found {
      CountAgain(zone, e);
    } else {
      CountFirst(zone, e);
    }
  }

  /** throttle_is_banned. */
  method IsBanned(zone: Zone?<Rec>, ip: Bytes, now: int) returns (banned: bool)
    requires zone != null ==> zone.Valid()
    ensures banned <==> zone != null && Banned(zone.queue, ip, now)
  {
    if zone == null || !Keyable(ip) { return false; }
    FindHas(zone.queue, ip);
    var found := zone.Contains(ip);
    if !found { return false; }
    var i := zone.Position(ip);
    FindAt(zone.queue, i);
    return zone.queue[i].value.until > now;
  }

  predicate Banned(q: Records, ip: Bytes, now: int) {
    Keyable(ip) && Find(q, ip).Some? && Find(q, ip).value.until > now
  }

  // ---- what one step does to the record of any one address ----

  lemma {:induction false} ClearedAbsent(q: Records, ip: Bytes)
    requires Find(q, ip).None?
    ensures Cleared(q, ip) == q
  {
    if q != [] { ClearedAbsent(q[1..], ip); }
  }

  lemma ClearedKeys(q: Records, ip: Bytes)
    requires Distinct(q)
    ensures Distinct(Cleared(q, ip)) && !Has(Cleared(q, ip), ip)
  {
    FindHas(q, ip);
    if Has(q, ip) {
      var i :| 0 <= i < |q| && q[i].key == ip;
      ClearedIsWithout(q, i);
      WithoutKeys(q, i);
    } else {
      ClearedAbsent(q, ip);
    }
  }

  lemma {:induction false} ClearedFinds(q: Records, ip: Bytes, other: Bytes)
    requires Distinct(q)
    ensures Find(Cleared(q, ip), other) == if other == ip then None else Find(q, other)
  {
    if q != [] {
      if q[0].key != ip {
        ClearedFinds(q[1..], ip, other);
      } else if other == ip {
        FindHas(q[1..], ip);
      }
    }
  }

  lemma SnocKeys(q: Records, c: Cell<Rec>)
    ensures forall k :: Has(q + [c], k) <==> Has(q, k) || k == c.key
    ensures Distinct(q) && !Has(q, c.key) ==> Distinct(q + [c])
    ensures Distinct(q + [c]) ==> Distinct(q) && !Has(q, c.key)
  {
    var r := q + [c];
    forall k ensures Has(r, k) <==> Has(q, k) || k == c.key {
      if Has(q, k) {
        var i :| 0 <= i < |q| && q[i].key == k;
        assert r[i].key == k;
      }
      assert r[|q|] == c;
    }
    if Distinct(r) {
      forall i, j | 0 <= i < j < |q| ensures q[i].key != q[j].key { assert r[i].key != r[j].key; }
      forall i | 0 <= i < |q| ensures q[i].key != c.key { assert r[i].key != r[|q|].key; }
    }
  }

  /** Eviction adds no node and no duplicate. */
  lemma {:induction false} EvictKeys(q: Records, now: int, window: int, max: nat)
    requires Distinct(q)
    ensures Distinct(EvictStale(q, now, window, max))
    ensures forall k :: Has(EvictStale(q, now, window, max), k) ==> Has(q, k)
    decreases max
  {
    if max > 0 && q != [] {
      var init, last := q[..|q| - 1], q[|q| - 1];
      assert q == init + [last];
      SnocKeys(init, last);
      EvictKeys(init, now, window, max - 1);
      SnocKeys(EvictStale(init, now, window, max - 1), last);
    }
  }

  /** Eviction forgets only stale records. */
  lemma {:induction false} EvictFindsOnly(q: Records, now: int, window: int, max: nat, ip: Bytes)
    requires Distinct(q)
    ensures var r := EvictStale(q, now, window, max);
      Find(r, ip) == Find(q, ip) || (Find(r, ip).None? && Find(q, ip).Some? && Stale(Find(q, ip).value, now, window))
    decreases max
  {
    if max > 0 && q != [] {
      var init, last := q[..|q| - 1], q[|q| - 1];
      assert q == init + [last];
      SnocKeys(init, last);
      EvictFindsOnly(init, now, window, max - 1, ip);
      FindAppend(init, [last], ip);
      FindAppend(EvictStale(init, now, window, max - 1), [last], ip);
      FindHas(init, ip);
    }
  }

  lemma EvictFinds(q: Records, now: int, window: int, max: nat, ip: Bytes)
    requires Distinct(q)
    ensures
      var r := EvictStale(q, now, window, max);
      && Distinct(r) && (forall k :: Has(r, k) ==> Has(q, k))
      && (Find(r, ip) == Find(q, ip)
          || (Find(r, ip).None? && Find(q, ip).Some? && Stale(Find(q, ip).value, now, window)))
  {
    EvictKeys(q, now, window, max);
    EvictFindsOnly(q, now, window, max, ip);
  }

  lemma EvictTwiceFinds(q: Records, now: int, window: int, ip: Bytes)
    requires Distinct(q)
    ensures
      var r := EvictStale(EvictStale(q, now, window, 8), now, window, 512);
      && Distinct(r) && (forall k :: Has(r, k) ==> Has(q, k))
      && (Find(r, ip) == Find(q, ip)
          || (Find(r, ip).None? && Find(q, ip).Some? && Stale(Find(q, ip).value, now, window)))
  {
    EvictFinds(q, now, window, 8, ip);
    EvictFinds(EvictStale(q, now, window, 8), now, window, 512, ip);
  }

  /** An address that cannot be keyed is never recorded and never banned; any other is found by its record. */
  lemma UnkeyableIgnored(q: Records, e: Outcome, now: int)
    ensures |e.ip| == 0 || |e.ip| > 65535 ==> RecordStep(q, e) == q && !Banned(q, e.ip, now)
    ensures 0 < |e.ip| <= 65535 ==> (Banned(q, e.ip, now) <==> Find(q, e.ip).Some? && Find(q, e.ip).value.until > now)
    ensures 0 < |e.ip| <= 65535 && !e.success && (e.alloc || e.retry) ==> Find(RecordStep(q, e), e.ip).Some?
  {
  }

  /** Exactly which node an eviction keeps: one out of reach of the bound, banned, or with a window still remembered. */
  lemma {:induction false} EvictKeepsExactly(q: Records, now: int, window: int, max: nat, i: nat)
    requires Distinct(q) && i < |q|
    ensures Has(EvictStale(q, now, window, max), q[i].key) <==>
      || |q| - i > max || q[i].value.until > now
      || q[i].value.start + (if window > 3600 then window else 3600) > now
    decreases max
  {
    if max > 0 {
      var init, last := q[..|q| - 1], q[|q| - 1];
      assert q == init + [last];
      SnocKeys(init, last);
      EvictKeys(init, now, window, max - 1);
      SnocKeys(EvictStale(init, now, window, max - 1), last);
      if i < |init| {
        assert init[i] == q[i];
        EvictKeepsExactly(init, now, window, max - 1, i);
      }
    } else {
      assert q[i].key == q[i].key;
    }
  }

  /** Whether the outcome reaches the record of its own address. */
  predicate Recorded(q: Records, e: Outcome) {
    Keyable(e.ip) && (e.success || Find(q, e.ip).Some? || e.alloc || e.retry)
  }

  /** The record of the outcome's own address is bumped or cleared; any other is kept or, if stale, forgotten. */
  lemma RecordEffect(q: Records, e: Outcome, ip: Bytes)
    requires Distinct(q)
    ensures Distinct(RecordStep(q, e))
    ensures ip == e.ip && Recorded(q, e) ==>
      Find(RecordStep(q, e), ip) == if e.success then None else Some(Bump(Find(q, ip), e.p, e.now))
    ensures ip == e.ip && !Recorded(q, e) ==> Find(RecordStep(q, e), ip) == Find(q, ip)
    ensures ip != e.ip ==>
      || Find(RecordStep(q, e), ip) == Find(q, ip)
      || (!e.success && Find(RecordStep(q, e), ip).None? && Find(q, ip).Some?
          && Stale(Find(q, ip).value, e.now, e.p.window))
  {
    if Keyable(e.ip) {
      var r := RecordStep(q, e);
      ClearedKeys(q, e.ip);
      if e.success {
        ClearedFinds(q, e.ip, ip);
      } else if Find(q, e.ip).Some? {
        ClearedFinds(q, e.ip, ip);
        var c := Cell(e.ip, Bump(Find(q, e.ip), e.p, e.now));
        ConsKeys(c, Cleared(q, e.ip));
        assert r == [c] + Cleared(q, e.ip) && r[1..] == Cleared(q, e.ip);
      } else {
        EvictFinds(q, e.now, e.p.window, 8, ip);
        EvictTwiceFinds(q, e.now, e.p.window, ip);
        var q2 := if e.alloc then EvictStale(q, e.now, e.p.window, 8)
                  else EvictStale(EvictStale(q, e.now, e.p.window, 8), e.now, e.p.window, 512);
        FindHas(q, e.ip);
        var c := Cell(e.ip, Bump(None, e.p, e.now));
        ConsKeys(c, q2);
        assert ([c] + q2)[1..] == q2;
        assert r == [c] + q2 || r == q2;
      }
    }
  }
}
