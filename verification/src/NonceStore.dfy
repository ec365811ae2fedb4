/** Single-use challenge tracking: the memory zone, the Redis verdict, and their precedence. */
module NonceStore {
  import opened ByteStrings
  import opened SharedStore
  import opened Codes

  /** The payload of a nonce node is the expiry of its challenge. */
  type Nonces = Queue<int>

  /** An unexpired entry for the nonce. */
  ghost predicate Live(q: Nonces, nonce: Bytes, now: int) {
    exists i :: 0 <= i < |q| && q[i].key == nonce && q[i].value > now
  }

  /** Reclaim from the old end, at most `max` nodes, stopping at the first unexpired one. */
  function EvictExpired(q: Nonces, now: int, max: nat): (r: Nonces)
    ensures r <= q
    ensures forall i :: 0 <= i < |q| && q[i].value > now ==> i < |r|
    decreases max
  {
    if max == 0 || q == [] || q[|q| - 1].value > now then q
    else EvictExpired(q[..|q| - 1], now, max - 1)
  }

  /** The eviction loop. */
  method Evict(zone: Zone<int>, now: int, max: nat)
    requires zone.Valid()
    modifies zone
    ensures zone.Valid() && zone.queue == EvictExpired(old(zone.queue), now, max)
  {
    var left := max;
    while left > 0 && zone.queue != []
      invariant zone.Valid()
      invariant EvictExpired(zone.queue, now, left) == EvictExpired(old(zone.queue), now, max)
    {
      var last := |zone.queue| - 1;
      if zone.queue[last].value > now { break; }
      assert Without(zone.queue, last) == zone.queue[..last];
      zone.Remove(last);
      left := left - 1;
    }
  }

  /**
   * Exactly which node an eviction keeps: one out of reach of the bound, or with
   * an unexpired node at or behind its place in the queue.
   */
  lemma {:induction false} EvictKeepsExactly(q: Nonces, now: int, max: nat, i: nat)
    requires i < |q|
    ensures i < |EvictExpired(q, now, max)|
       <==> |q| - i > max || exists j :: i <= j < |q| && q[j].value > now
    decreases max
  {
    if max > 0 && q[|q| - 1].value <= now && i < |q| - 1 {
      EvictKeepsExactly(q[..|q| - 1], now, max - 1, i);
    }
  }

  /** Two evictions in a row reach as far as one with both bounds. */
  lemma {:induction false} EvictTwice(q: Nonces, now: int, m: nat, n: nat)
    ensures EvictExpired(EvictExpired(q, now, m), now, n) == EvictExpired(q, now, m + n)
    decreases m
  {
    if m > 0 && q != [] && q[|q| - 1].value <= now { EvictTwice(q[..|q| - 1], now, m - 1, n); }
  }

  /** One call: the nonce, its expiry, the clock, and whether each allocation attempt succeeds. */
  datatype Call = Call(nonce: Bytes, exp: int, now: int, alloc: bool, retry: bool)

  const MAX_NONCE := 65535

  /** nonce_memory on the zone's nodes. */
  function MemoryStep(q: Nonces, c: Call): (r: (Nonces, Code)) {
    if |c.nonce| > MAX_NONCE then (q, Error)
    else
      var q1 := EvictExpired(q, c.now, 8);
      if Has(q1, c.nonce) then (q1, Declined)
      else
        var q2 := if c.alloc then q1 else EvictExpired(q1, c.now, 512);
        if c.alloc || c.retry then ([Cell(c.nonce, c.exp)] + q2, Ok)
        else (q2, Error)
  }

  method Memory(zone: Zone<int>, c: Call) returns (code: Code)
    requires zone.Valid()
    modifies zone
    ensures zone.Valid() && (zone.queue, code) == MemoryStep(old(zone.queue), c)
  {
    if |c.nonce| > MAX_NONCE { return Error; }
    Evict(zone, c.now, 8);
    var seen := zone.Contains(c.nonce);
    if seen { return Declined; }
    if !c.alloc {
      Evict(zone, c.now, 512);
      if !c.retry { return Error; }
    }
    zone.InsertHead(c.nonce, c.exp);
    return Ok;
  }

  /**
   * Exactly what a call for a new nonce leaves of the zone: an expired node is reclaimed
   * if it is among the 8 oldest, or among the 520 oldest when the zone is full, and no
   * unexpired node is behind it; and the new node is put at the head.
   */
  lemma NewNonceReclaims(q: Nonces, c: Call, i: nat)
    requires i < |q| && MemoryStep(q, c).1 == Ok
    ensures var r := MemoryStep(q, c).0;
      && r[0] == Cell(c.nonce, c.exp) && r[1..] <= q
      && (i < |r| - 1 <==> |q| - i > (if c.alloc then 8 else 520) || exists j :: i <= j < |q| && q[j].value > c.now)
  {
    var reach := Reach(c);
    NewNonceLeaves(q, c, 8, 512, reach);
    EvictKeepsExactly(q, c.now, reach, i);
    assert MemoryStep(q, c).0[1..] == EvictExpired(q, c.now, reach);
  }

  /** How many of the oldest nodes a call for a new nonce looks at. */
  function Reach(c: Call): nat { if c.alloc then 8 else 520 }

  lemma NewNonceLeaves(q: Nonces, c: Call, some: nat, more: nat, reach: nat)
    requires MemoryStep(q, c).1 == Ok && some == 8 && more == 512 && reach == if c.alloc then some else some + more
    ensures MemoryStep(q, c).0 == [Cell(c.nonce, c.exp)] + EvictExpired(q, c.now, reach)
  {
    var q1 := EvictExpired(q, c.now, some);
    assert MemoryStep(q, c).0 == [Cell(c.nonce, c.exp)] + (if c.alloc then q1 else EvictExpired(q1, c.now, more));
    EvictTwice(q, c.now, some, more);
  }

  /** No call, full zone or not, drops a live nonce; an accepted one is live until its expiry. */
  lemma MemoryKeepsLive(q: Nonces, c: Call, nonce: Bytes, t: int)
    requires c.now <= t
    ensures Live(q, nonce, t) ==> Live(MemoryStep(q, c).0, nonce, t)
    ensures MemoryStep(q, c).1 == Ok && t < c.exp ==> Live(MemoryStep(q, c).0, c.nonce, t)
    ensures |nonce| <= MAX_NONCE && nonce == c.nonce && Live(q, nonce, t) ==> MemoryStep(q, c).1 == Declined
  {
    var r := MemoryStep(q, c).0;
    if Live(q, nonce, t) {
      var i :| 0 <= i < |q| && q[i].key == nonce && q[i].value > t;
      var q1 := EvictExpired(q, c.now, 8);
      assert q1[i] == q[i];
      var q2 := EvictExpired(q1, c.now, 512);
      assert q2[i] == q[i];
      assert r[i] == q[i] || r[i + 1] == q[i];
    }
    if MemoryStep(q, c).1 == Ok { assert r[0] == Cell(c.nonce, c.exp); }
  }

  // ---- whole runs of the memory zone ----

  ghost predicate Chronological(calls: seq<Call>) {
    forall i, j :: 0 <= i < j < |calls| ==> calls[i].now <= calls[j].now
  }

  /** The verdicts of a run of calls against one zone. */
  function Verdicts(q: Nonces, calls: seq<Call>): (r: seq<Code>)
    ensures |r| == |calls|
    decreases calls
  {
    if calls == [] then []
    else
      var (next, code) := MemoryStep(q, calls[0]);
      [code] + Verdicts(next, calls[1..])
  }

  lemma {:induction false} RememberedUntilExpiry(q: Nonces, calls: seq<Call>, j: nat)
    requires Chronological(calls) && j < |calls|
    requires |calls[j].nonce| <= MAX_NONCE && Live(q, calls[j].nonce, calls[j].now)
    ensures Verdicts(q, calls)[j] == Declined
    decreases calls
  {
    MemoryKeepsLive(q, calls[0], calls[j].nonce, calls[j].now);
    if j > 0 {
      RememberedUntilExpiry(MemoryStep(q, calls[0]).0, calls[1..], j - 1);
    }
  }

  /**
   * Single use over whole runs: once a nonce with expiry e is accepted, every
   * later call with it before e is a replay, whatever else happens in between.
   */
  lemma {:induction false} MemorySingleUse(q: Nonces, calls: seq<Call>, i: nat, j: nat)
    requires Chronological(calls) && i < j < |calls|
    requires Verdicts(q, calls)[i] == Ok
    requires calls[j].nonce == calls[i].nonce && calls[j].now < calls[i].exp
    ensures Verdicts(q, calls)[j] == Declined
    decreases calls
  {
    var next := MemoryStep(q, calls[0]).0;
    if i == 0 {
      MemoryKeepsLive(q, calls[0], calls[0].nonce, calls[j].now);
      RememberedUntilExpiry(next, calls[1..], j - 1);
    } else {
      MemorySingleUse(next, calls[1..], i - 1, j - 1);
    }
  }

  /**
   * For a nonce the zone holds, the exact condition under which the call is
   * refused as a replay, at every clock value including its own expiry second.
   */
  lemma ReplayRefusedExactly(q: Nonces, c: Call, i: nat)
    requires Distinct(q) && i < |q| && q[i].key == c.nonce && |c.nonce| <= MAX_NONCE
    ensures MemoryStep(q, c).1 == Declined
       <==> |q| - i > 8 || exists j :: i <= j < |q| && q[j].value > c.now
  {
    EvictKeepsExactly(q, c.now, 8, i);
    var q1 := EvictExpired(q, c.now, 8);
    assert i < |q1| ==> q1[i].key == c.nonce;
  }

  /** The zone just before call j of a run. */
  function ZoneBefore(q: Nonces, calls: seq<Call>, j: nat): Nonces
    requires j <= |calls|
    decreases calls
  {
    if j == 0 then q else ZoneBefore(MemoryStep(q, calls[0]).0, calls[1..], j - 1)
  }

  lemma MemoryKeepsDistinct(q: Nonces, c: Call)
    requires Distinct(q)
    ensures Distinct(MemoryStep(q, c).0)
  {
    var q1 := EvictExpired(q, c.now, 8);
    var q2 := EvictExpired(q1, c.now, 512);
    if !Has(q1, c.nonce) {
      forall i | 0 <= i < |q2| ensures q2[i].key != c.nonce { assert q2[i] == q1[i]; }
      ConsKeys(Cell(c.nonce, c.exp), q1);
      ConsKeys(Cell(c.nonce, c.exp), q2);
    }
  }

  /** The node at place i is out of reach of the eviction of a call at `now`. */
  ghost predicate Survives(q: Nonces, i: int, now: int) {
    0 <= i < |q| && (|q| - i > 8 || exists j :: i <= j < |q| && q[j].value > now)
  }

  /**
   * Every verdict of every run, at every clock value: a call is refused as a replay
   * exactly when the zone at that call holds its nonce at a place eviction spares.
   */
  lemma RunRefusesExactly(q: Nonces, calls: seq<Call>, j: nat)
    requires j < |calls| && |calls[j].nonce| <= MAX_NONCE
    ensures var z := ZoneBefore(q, calls, j);
      Verdicts(q, calls)[j] == Declined <==> exists i :: Survives(z, i, calls[j].now) && z[i].key == calls[j].nonce
  {
    VerdictAt(q, calls, j);
    RefusesExactly(ZoneBefore(q, calls, j), calls[j]);
  }

  lemma {:induction false} ZoneDistinct(q: Nonces, calls: seq<Call>, j: nat)
    requires Distinct(q) && j <= |calls|
    ensures Distinct(ZoneBefore(q, calls, j))
    decreases calls
  {
    if j > 0 {
      MemoryKeepsDistinct(q, calls[0]);
      ZoneDistinct(MemoryStep(q, calls[0]).0, calls[1..], j - 1);
    }
  }

  lemma RefusesExactly(q: Nonces, c: Call)
    requires |c.nonce| <= MAX_NONCE
    ensures MemoryStep(q, c).1 == Declined <==> exists i :: Survives(q, i, c.now) && q[i].key == c.nonce
  {
    var q1 := EvictExpired(q, c.now, 8);
    forall i | 0 <= i < |q| ensures i < |q1| <==> Survives(q, i, c.now) { EvictKeepsExactly(q, c.now, 8, i); }
    if Has(q1, c.nonce) {
      var i :| 0 <= i < |q1| && q1[i].key == c.nonce;
      assert Survives(q, i, c.now) && q[i] == q1[i];
    }
    if i :| Survives(q, i, c.now) && q[i].key == c.nonce { assert q1[i] == q[i]; }
  }

  /**
   * The expiry second itself: after an accepted call with expiry e, and only calls
   * before e in between, the nonce is still in the zone at now == e, and the zone's
   * size and younger entries alone decide whether it is refused.
   */
  lemma {:induction false} ExpirySecondDecided(q: Nonces, calls: seq<Call>, i: nat, j: nat) returns (k: nat)
    requires Distinct(q) && i < j < |calls| && Verdicts(q, calls)[i] == Ok && calls[j].nonce == calls[i].nonce
    requires calls[j].now == calls[i].exp && forall m :: i <= m < j ==> calls[m].now < calls[i].exp
    ensures var z := ZoneBefore(q, calls, j);
      && k < |z| && z[k].key == calls[j].nonce
      && (Verdicts(q, calls)[j] == Declined <==> Survives(z, k, calls[j].now))
    decreases calls
  {
    var next := MemoryStep(q, calls[0]).0;
    MemoryKeepsDistinct(q, calls[0]);
    if i > 0 {
      k := ExpirySecondDecided(next, calls[1..], i - 1, j - 1);
    } else {
      MemoryKeepsLive(q, calls[0], calls[0].nonce, calls[0].exp - 1);
      HeldUntilExpiry(next, calls[1..], j - 1, calls[0].nonce, calls[0].exp);
      ZoneDistinct(next, calls[1..], j - 1);
      var z := ZoneBefore(next, calls[1..], j - 1);
      k :| 0 <= k < |z| && z[k].key == calls[0].nonce && z[k].value > calls[0].exp - 1;
      ReplayRefusedExactly(z, calls[j], k);
      VerdictAt(next, calls[1..], j - 1);
    }
  }

  lemma {:induction false} HeldUntilExpiry(q: Nonces, calls: seq<Call>, j: nat, nonce: Bytes, exp: int)
    requires j <= |calls| && Live(q, nonce, exp - 1) && forall m :: 0 <= m < j ==> calls[m].now < exp
    ensures Live(ZoneBefore(q, calls, j), nonce, exp - 1)
    decreases calls
  {
    if j > 0 {
      MemoryKeepsLive(q, calls[0], nonce, exp - 1);
      HeldUntilExpiry(MemoryStep(q, calls[0]).0, calls[1..], j - 1, nonce, exp);
    }
  }

  lemma {:induction false} VerdictAt(q: Nonces, calls: seq<Call>, j: nat)
    requires j < |calls|
    ensures Verdicts(q, calls)[j] == MemoryStep(ZoneBefore(q, calls, j), calls[j]).1
    decreases calls
  {
    if j > 0 { VerdictAt(MemoryStep(q, calls[0]).0, calls[1..], j - 1); }
  }

  /** In the closed interval single use fails: at `now == exp` the nonce is reclaimed and accepted again. */
  lemma BoundarySecondReplay()
    ensures
      var c := Call("n", 5, 5, true, true);
      Verdicts([], [c, c]) == [Ok, Ok]
  {
    var c := Call("n", 5, 5, true, true);
    var q := MemoryStep([], c).0;
    assert q == [Cell("n", 5)];
    ReplayRefusedExactly(q, c, 0);
    assert MemoryStep(q, c).1 == Ok;
    assert [c, c][1..] == [c];
    assert Verdicts(q, [c]) == [Ok];
  }

  // ---- the Redis verdict and the precedence of the two stores ----

  datatype Storage = NoStore | MemoryStore | RedisStore

  /** What comes back from one Redis exchange. */
  datatype Wire =
    | ConnectFailed            // refused, timed out, partitioned, no descriptor
    | SessionFailed            // bad address, TLS failure or AUTH not answered "+"
    | NoReply                  // the SET round trip failed
    | Reply(first: byte)       // first byte of the reply to SET NX EX

  /** The size of the buffer a Redis command is printed into; a longer one is cut off and never answered. */
  const REDIS_BUFFER := 512

  /** One argument of a Redis command: its length, then its bytes. */
  function Bulk(s: Bytes): Bytes { "$" + Decimal(|s|) + "\r\n" + s + "\r\n" }

  function Bulks(args: seq<Bytes>): Bytes {
    if args == [] then [] else Bulk(args[0]) + Bulks(args[1..])
  }

  /** SET prefix+nonce 1 NX EX ttl, as it goes over the wire. */
  function SetCommand(prefix: Bytes, nonce: Bytes, ttl: nat): Bytes {
    "*6\r\n" + Bulks(["SET", prefix + nonce, "1", "NX", "EX", Decimal(ttl)])
  }

  /** How long that is, for a key of this length. */
  function SetLength(key: nat, ttl: nat): nat {
    46 + key + |Decimal(key)| + |Decimal(ttl)| + |Decimal(|Decimal(ttl)|)|
  }

  predicate SetFits(prefix: Bytes, nonce: Bytes, ttl: nat) { SetLength(|prefix| + |nonce|, ttl) <= REDIS_BUFFER }

  lemma BulksCons(arg: Bytes, rest: seq<Bytes>)
    ensures Bulks([arg] + rest) == Bulk(arg) + Bulks(rest)
    ensures |Bulk(arg)| == 5 + |Decimal(|arg|)| + |arg|
  {
    assert ([arg] + rest)[1..] == rest;
  }

  lemma SetCommandLength(prefix: Bytes, nonce: Bytes, ttl: nat)
    ensures |SetCommand(prefix, nonce, ttl)| == SetLength(|prefix| + |nonce|, ttl)
    ensures SetFits(prefix, nonce, ttl) <==> |SetCommand(prefix, nonce, ttl)| <= 512
  {
    var t: seq<Bytes> := [Decimal(ttl)];
    BulksCons(Decimal(ttl), []);
    BulksCons("EX", t);
    BulksCons("NX", ["EX"] + t);
    BulksCons("1", ["NX"] + (["EX"] + t));
    BulksCons(prefix + nonce, ["1"] + (["NX"] + (["EX"] + t)));
    BulksCons("SET", [prefix + nonce] + (["1"] + (["NX"] + (["EX"] + t))));
    assert t == [Decimal(ttl)] + [] && |Decimal(1)| == |Decimal(2)| == |Decimal(3)| == 1;
    assert ["SET", prefix + nonce, "1", "NX", "EX", Decimal(ttl)]
        == ["SET"] + ([prefix + nonce] + (["1"] + (["NX"] + (["EX"] + t))));
  }

  /** How Redis reads one argument off the front of its input: the argument and the rest. */
  function ReadBulk(s: Bytes): Option<(Bytes, Bytes)> {
    if s == [] || s[0] != '$' then None
    else
      var k := IndexOf(s, '\r', 0, |s|);
      if k < 1 then None
      else
        var n := ParseTime(s[1..k]);
        if n == -1 || k + 2 + n + 2 > |s| then None else Some((s[k + 2..k + 2 + n], s[k + 2 + n + 2..]))
  }

  function ReadBulks(s: Bytes, n: nat): Option<(seq<Bytes>, Bytes)> {
    if n == 0 then Some(([], s))
    else
      var first := ReadBulk(s);
      if first.None? then None
      else
        var more := ReadBulks(first.value.1, n - 1);
        if more.None? then None else Some(([first.value.0] + more.value.0, more.value.1))
  }

  lemma ReadsBulk(arg: Bytes, rest: Bytes)
    requires |arg| <= MAX_TIME
    ensures ReadBulk(Bulk(arg) + rest) == Some((arg, rest))
  {
    var s, d := Bulk(arg) + rest, Decimal(|arg|);
    var k := 1 + |d|;
    DecimalRoundTrip(|arg|);
    assert s[1..k] == d && s[0] == '$' && s[k] == '\r';
    assert Absent(s, '\r', 0, k) by { assert forall i :: 1 <= i < k ==> s[i] == d[i - 1]; }
    IndexOfAt(s, '\r', 0, k, |s|);
    assert s[k + 2..k + 2 + |arg|] == arg && s[k + 2 + |arg| + 2..] == rest;
  }

  lemma ReadsOneMore(s: Bytes, arg: Bytes, more: Bytes, args: seq<Bytes>, rest: Bytes, n: nat)
    requires ReadBulk(s) == Some((arg, more)) && ReadBulks(more, n) == Some((args, rest))
    ensures ReadBulks(s, n + 1) == Some(([arg] + args, rest))
  {
  }

  lemma BulksSplit(args: seq<Bytes>, rest: Bytes)
    requires args != [] && |args[0]| <= MAX_TIME
    ensures ReadBulk(Bulks(args) + rest) == Some((args[0], Bulks(args[1..]) + rest))
  {
    assert Bulks(args) + rest == Bulk(args[0]) + (Bulks(args[1..]) + rest);
    ReadsBulk(args[0], Bulks(args[1..]) + rest);
  }

  lemma {:induction false} ReadsBulks(args: seq<Bytes>, rest: Bytes)
    requires forall i :: 0 <= i < |args| ==> |args[i]| <= MAX_TIME
    ensures ReadBulks(Bulks(args) + rest, |args|) == Some((args, rest))
  {
    if args == [] {
      assert Bulks(args) + rest == rest;
    } else {
      ReadsBulks(args[1..], rest);
      BulksSplit(args, rest);
      ReadsOneMore(Bulks(args) + rest, args[0], Bulks(args[1..]) + rest, args[1..], rest, |args| - 1);
      assert args == [args[0]] + args[1..];
    }
  }

  lemma CommandReads(args: seq<Bytes>)
    requires forall i :: 0 <= i < |args| ==> |args[i]| <= MAX_TIME
    ensures var s := "*6\r\n" + Bulks(args); s[..4] == "*6\r\n" && ReadBulks(s[4..], |args|) == Some((args, []))
  {
    ReadsBulks(args, []);
    assert ("*6\r\n" + Bulks(args))[4..] == Bulks(args) + [];
  }

  /** Whatever bytes prefix and nonce hold, Redis reads the command as SET key 1 NX EX ttl and nothing more. */
  lemma SetCommandReads(prefix: Bytes, nonce: Bytes, ttl: nat)
    requires |prefix| + |nonce| <= MAX_TIME && |Decimal(ttl)| <= MAX_TIME
    ensures var s := SetCommand(prefix, nonce, ttl);
      && s[..4] == "*6\r\n"
      && ReadBulks(s[4..], 6) == Some((["SET", prefix + nonce, "1", "NX", "EX", Decimal(ttl)], []))
  {
    CommandReads(["SET", prefix + nonce, "1", "NX", "EX", Decimal(ttl)]);
  }

  /** With the empty prefix and a lifetime of one digit, names of up to 461 bytes fit. */
  lemma SetFitsUpTo(nonce: Bytes, ttl: nat)
    requires 0 < ttl < 10
    ensures SetFits([], nonce, ttl) <==> |nonce| <= 461
  {
    assert |Decimal(461)| == 3 by { assert |Decimal(46)| == 2; }
    if |nonce| <= 461 { DecimalGrows(|nonce|, 461); } else { DecimalGrows(462, |nonce|); }
    assert |Decimal(462)| == 3 by { assert |Decimal(46)| == 2; }
  }

  lemma {:induction false} DecimalGrows(m: nat, n: nat)
    requires m <= n
    ensures |Decimal(m)| <= |Decimal(n)|
  {
    if m >= 10 { DecimalGrows(m / 10, n / 10); }
  }

  /** A shorter prefix and a shorter lifetime make the command no longer. */
  lemma SetFitsShorter(prefix: Bytes, nonce: Bytes, ttl: nat, less: nat)
    requires SetFits(prefix, nonce, ttl) && less <= ttl
    ensures SetFits([], nonce, less)
  {
    DecimalGrows(|nonce|, |prefix| + |nonce|);
    DecimalGrows(less, ttl);
    DecimalGrows(|Decimal(less)|, |Decimal(ttl)|);
  }

  function RedisCode(exp: int, now: int, wire: Wire): Code {
    if exp - now <= 0 then Declined
    else match wire
      case ConnectFailed => Abort
      case SessionFailed => Error
      case NoReply => Error
      case Reply(b) => if b == '+' then Ok else if b == '$' || b == '_' then Declined else Error
  }

  /** Only Redis's own answer counts; an unreachable or erring Redis is an error. */
  function RedisVerdict(exp: int, now: int, wire: Wire): Code {
    var code := RedisCode(exp, now, wire);
    if code == Ok || code == Declined then code else Error
  }

  /** The first half of the Redis backend: the local zone may refuse at once. */
  function LocalStep(q: Option<Nonces>, c: Call): (Option<Nonces>, Code) {
    if q.None? then (None, Error)
    else var (next, code) := MemoryStep(q.value, c); (Some(next), code)
  }

  /** nonce_check_and_set on the nodes of the (possibly absent) local zone. */
  function CheckAndSetStep(storage: Storage, q: Option<Nonces>, c: Call, wire: Wire): (r: (Option<Nonces>, Code)) {
    match storage
    case NoStore => (q, Ok)
    case MemoryStore => LocalStep(q, c)
    case RedisStore =>
      var local := LocalStep(q, c);
      if local.1 == Declined then local
      else
        (local.0, RedisVerdict(c.exp, c.now, wire))
  }

  /** The zone holds the nonce at a place the eviction of a call at `now` spares. */
  ghost predicate Known(q: Option<Nonces>, nonce: Bytes, now: int) {
    q.Some? && |nonce| <= 65535 && exists i :: Survives(q.value, i, now) && q.value[i].key == nonce
  }

  /** The store takes the nonce as new. */
  ghost predicate Takes(storage: Storage, q: Option<Nonces>, c: Call, wire: Wire) {
    match storage
    case NoStore => true
    case MemoryStore => q.Some? && |c.nonce| <= 65535 && !Known(q, c.nonce, c.now) && (c.alloc || c.retry)
    case RedisStore => !Known(q, c.nonce, c.now) && c.now < c.exp && wire == Reply('+')
  }

  /** The store knows the nonce as used; Redis also refuses one whose time is up. */
  ghost predicate Replays(storage: Storage, q: Option<Nonces>, c: Call, wire: Wire) {
    match storage
    case NoStore => false
    case MemoryStore => Known(q, c.nonce, c.now)
    case RedisStore => Known(q, c.nonce, c.now) || c.exp <= c.now || wire == Reply('$') || wire == Reply('_')
  }

  /** The store cannot say: no zone, no room, or no usable word from Redis. */
  ghost predicate CannotAnswer(storage: Storage, q: Option<Nonces>, c: Call, wire: Wire) {
    match storage
    case NoStore => false
    case MemoryStore => q.None? || |c.nonce| > 65535 || (!Known(q, c.nonce, c.now) && !c.alloc && !c.retry)
    case RedisStore =>
      && !Known(q, c.nonce, c.now) && c.now < c.exp
      && (wire.Reply? ==> wire.first != '+' && wire.first != '$' && wire.first != '_')
  }

  /** The exact verdict of every backend for every call: accepted, replay, or no answer. */
  lemma VerdictTable(storage: Storage, q: Option<Nonces>, c: Call, wire: Wire)
    ensures var code := CheckAndSetStep(storage, q, c, wire).1;
      && (code == Ok <==> Takes(storage, q, c, wire))
      && (code == Declined <==> Replays(storage, q, c, wire))
      && (code == Error <==> CannotAnswer(storage, q, c, wire))
  {
    if q.Some? && |c.nonce| <= MAX_NONCE { RefusesExactly(q.value, c); }
  }

  /** In Redis mode the local zone can refuse but never admit; no failure of Redis admits, or is called a replay. */
  lemma RedisModeRejectOnly(q: Option<Nonces>, c: Call, wire: Wire)
    ensures var code := CheckAndSetStep(RedisStore, q, c, wire).1;
      && code in {Ok, Declined, Error}
      && (code == Ok ==> wire == Reply('+') && c.now < c.exp)
      && (q.Some? && |c.nonce| <= MAX_NONCE && Live(q.value, c.nonce, c.now) ==> code == Declined)
      && (code == Declined ==> c.exp <= c.now || wire in {Reply('$'), Reply('_')} || (q.Some? && Has(q.value, c.nonce)))
  {
    if q.Some? && Has(EvictExpired(q.value, c.now, 8), c.nonce) {
      var i :| 0 <= i < |EvictExpired(q.value, c.now, 8)| && EvictExpired(q.value, c.now, 8)[i].key == c.nonce;
      assert q.value[i].key == c.nonce;
    }
    if q.Some? { MemoryKeepsLive(q.value, c, c.nonce, c.now); }
  }

  ghost function NodesOf(zone: Zone?<int>): Option<Nonces>
    reads zone
  {
    if zone == null then None else Some(zone.queue)
  }

  method CheckAndSet(storage: Storage, zone: Zone?<int>, c: Call, wire: Wire) returns (code: Code)
    requires zone != null ==> zone.Valid()
    modifies zone
    ensures zone != null ==> zone.Valid()
    ensures (NodesOf(zone), code) == CheckAndSetStep(storage, old(NodesOf(zone)), c, wire)
  {
    match storage {
      case NoStore => code := Ok;
      case MemoryStore =>
        if zone == null { return Error; }
        code := Memory(zone, c);
      case RedisStore =>
        if zone != null {
          code := Memory(zone, c);
          if code == Declined { return; }
        }
        code := RedisCode(c.exp, c.now, wire);
        if code != Ok && code != Declined { code := Error; }
    }
  }
}
