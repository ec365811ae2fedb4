/**
 * The Redis backend as a distributed protocol: any number of nodes, each with a
 * private zone, and one Redis reached with SET NX EX. Requests and replies may be
 * delayed or lost, nodes restart, and a SET may run after its client gave up.
 */
module NonceFleet {
  import opened ByteStrings
  import opened NonceStore
  import opened Codes

  /** The Redis side of one call. */
  datatype Remote = NotSent | Sent(ttl: int) | Executed(won: bool, at: int)

  /** The client side of one call. */
  datatype Local = Open | Closed(code: Code)

  /** One check-and-set call, kept for the whole run. */
  datatype Attempt = Attempt(
    node: nat, life: nat,      // which node, and how often it had restarted
    nonce: Bytes, exp: int, begun: int,
    recorded: bool,            // the local zone accepted and stored the nonce
    remote: Remote, local: Local)

  datatype Fleet = Fleet(
    now: int,
    zones: map<nat, Nonces>, lives: map<nat, nat>,
    keys: map<Bytes, int>,     // Redis: key -> the instant it disappears
    attempts: seq<Attempt>)

  datatype Step =
    | Tick(d: nat)
    | Begin(node: nat, nonce: Bytes, exp: int, alloc: bool, retry: bool)
    | Execute(id: nat)                    // Redis runs the SET NX EX of a call
    | Deliver(id: nat)                    // the reply reaches the node
    | Fail(id: nat, wire: Wire)           // outage, timeout, error or lost reply
    | Restart(node: nat)                  // a node comes back with an empty zone
    | Lose(kept: set<Bytes>)              // Redis is flushed or evicts keys

  function Initial(nodes: set<nat>, now: int): Fleet {
    Fleet(now, map n | n in nodes :: [], map n | n in nodes :: 0, map[], [])
  }

  ghost predicate Enabled(f: Fleet, s: Step) {
    match s
    case Tick(_) => true
    case Begin(node, _, _, _, _) => node in f.zones && node in f.lives
    case Execute(id) => id < |f.attempts| && f.attempts[id].remote.Sent?
    case Deliver(id) => id < |f.attempts| && f.attempts[id].remote.Executed? && f.attempts[id].local.Open?
    case Fail(id, wire) => id < |f.attempts| && f.attempts[id].local.Open?
                           && (wire.Reply? ==> wire.first !in {'+', '$', '_'})
    case Restart(node) => node in f.zones && node in f.lives
    case Lose(_) => true
  }

  function KeyLive(f: Fleet, key: Bytes): bool {
    key in f.keys && f.now < f.keys[key]
  }

  /** One call arrives at a node: the local zone first, then the SET is sent with the remaining lifetime. */
  function Started(f: Fleet, node: nat, nonce: Bytes, exp: int, alloc: bool, retry: bool): (Nonces, Attempt)
    requires node in f.zones && node in f.lives
  {
    var (q, code) := MemoryStep(f.zones[node], Call(nonce, exp, f.now, alloc, retry));
    var refused := code == Declined || exp - f.now <= 0;
    (q, Attempt(node, f.lives[node], nonce, exp, f.now, code == Ok,
                if refused then NotSent else Sent(exp - f.now),
                if refused then Closed(Declined) else Open))
  }

  /** The call ends with what its Redis exchange said. */
  function Answered(f: Fleet, id: nat, wire: Wire): Fleet
    requires id < |f.attempts|
  {
    var a := f.attempts[id];
    f.(attempts := f.attempts[id := a.(local := Closed(RedisVerdict(a.exp, a.begun, wire)))])
  }

  /** The phases of one call add up to the sequential check-and-set. */
  lemma PhasesMatchCheckAndSet(f: Fleet, node: nat, nonce: Bytes, exp: int, alloc: bool, retry: bool, wire: Wire)
    requires node in f.zones && node in f.lives
    ensures
      var (q, a) := Started(f, node, nonce, exp, alloc, retry);
      var code := if a.local.Closed? then a.local.code else RedisVerdict(a.exp, a.begun, wire);
      (Some(q), code) == CheckAndSetStep(RedisStore, Some(f.zones[node]), Call(nonce, exp, f.now, alloc, retry), wire)
  {
  }

  /** The effect of a step; `prefix` is the configured key namespace. */
  ghost function Next(prefix: Bytes, f: Fleet, s: Step): Fleet
    requires Enabled(f, s)
  {
    match s
    case Tick(d) => f.(now := f.now + d)
    case Begin(node, nonce, exp, alloc, retry) =>
      var (q, a) := Started(f, node, nonce, exp, alloc, retry);
      f.(zones := f.zones[node := q], attempts := f.attempts + [a])
    case Execute(id) =>
      var a := f.attempts[id];
      var key := prefix + a.nonce;
      var won := !KeyLive(f, key);
      f.(keys := if won then f.keys[key := f.now + a.remote.ttl] else f.keys,
         attempts := f.attempts[id := a.(remote := Executed(won, f.now))])
    case Deliver(id) =>
      Answered(f, id, Reply(if f.attempts[id].remote.won then '+' else '$'))
    case Fail(id, wire) => Answered(f, id, wire)
    case Restart(node) => f.(zones := f.zones[node := []], lives := f.lives[node := f.lives[node] + 1])
    case Lose(kept) => f.(keys := map k | k in f.keys && k in kept :: f.keys[k])
  }

  /** A run: consecutive states joined by enabled steps. */
  ghost predicate Run(prefix: Bytes, states: seq<Fleet>, steps: seq<Step>) {
    && |states| == |steps| + 1
    && (exists nodes: set<nat> :: states[0] == Initial(nodes, states[0].now))
    && (forall i :: 0 <= i < |steps| ==>
          Enabled(states[i], steps[i]) && states[i + 1] == Next(prefix, states[i], steps[i]))
  }

  // ---- what every step keeps, whatever Redis loses ----

  /** The call's code is the check-and-set code of its two halves. */
  ghost predicate Sound(a: Attempt) {
    && (a.remote.NotSent? ==> a.local == Closed(Declined))
    && (a.remote.Sent? ==> a.remote.ttl == a.exp - a.begun && a.local in {Open, Closed(Error)})
    && (!a.remote.NotSent? ==> a.begun < a.exp)
    && (a.local == Closed(Ok) ==> a.remote.Executed? && a.remote.won)
    && (a.local == Closed(Declined) ==> a.remote.NotSent? || (a.remote.Executed? && !a.remote.won))
    && a.local in {Open, Closed(Ok), Closed(Declined), Closed(Error)}
  }

  /** Every recorded nonce of a node's current life is in its zone until it expires. */
  ghost predicate Recorded(f: Fleet) {
    forall i :: 0 <= i < |f.attempts| ==>
      var a := f.attempts[i];
      && Sound(a) && a.begun <= f.now
      && a.node in f.zones && a.node in f.lives && a.life <= f.lives[a.node]
      && (a.recorded ==> |a.nonce| <= MAX_NONCE)
      && (a.recorded && a.life == f.lives[a.node] && f.now < a.exp ==> Live(f.zones[a.node], a.nonce, a.exp - 1))
  }

  /** A call begun after a recording one, in the same life of the node and before the expiry, was refused locally. */
  ghost predicate LaterRefused(f: Fleet) {
    forall i, j :: 0 <= i < j < |f.attempts| ==>
      var a, b := f.attempts[i], f.attempts[j];
      a.recorded && a.node == b.node && a.life == b.life && a.nonce == b.nonce && b.begun < a.exp
      ==> b.remote.NotSent? && b.local == Closed(Declined)
  }

  lemma StepKeepsRecorded(prefix: Bytes, f: Fleet, s: Step)
    requires Recorded(f) && Enabled(f, s)
    ensures Recorded(Next(prefix, f, s))
  {
    var g := Next(prefix, f, s);
    forall i | 0 <= i < |g.attempts| ensures Sound(g.attempts[i]) {}
    forall i | 0 <= i < |g.attempts| &&
      var a := g.attempts[i]; a.recorded && a.node in g.lives && a.life == g.lives[a.node] && g.now < a.exp
      ensures g.attempts[i].node in g.zones
      ensures Live(g.zones[g.attempts[i].node], g.attempts[i].nonce, g.attempts[i].exp - 1)
    {
      var a := g.attempts[i];
      if s.Begin? {
        MemoryKeepsLive(f.zones[s.node], Call(s.nonce, s.exp, f.now, s.alloc, s.retry), a.nonce, a.exp - 1);
      }
    }
  }

  lemma StepKeepsLaterRefused(prefix: Bytes, f: Fleet, s: Step)
    requires Recorded(f) && LaterRefused(f) && Enabled(f, s)
    ensures LaterRefused(Next(prefix, f, s))
  {
    if s.Begin? {
      var g := Next(prefix, f, s);
      var b := Started(f, s.node, s.nonce, s.exp, s.alloc, s.retry).1;
      MemoryKeepsLive(f.zones[s.node], Call(s.nonce, s.exp, f.now, s.alloc, s.retry), s.nonce, f.now);
      assert forall i :: 0 <= i < |f.attempts| ==> g.attempts[i] == f.attempts[i];
    }
  }

  lemma {:induction false} RunKeepsRecorded(prefix: Bytes, states: seq<Fleet>, steps: seq<Step>, n: nat)
    requires Run(prefix, states, steps) && n < |states|
    ensures Recorded(states[n]) && LaterRefused(states[n])
  {
    if n > 0 {
      RunKeepsRecorded(prefix, states, steps, n - 1);
      StepKeepsRecorded(prefix, states[n - 1], steps[n - 1]);
      StepKeepsLaterRefused(prefix, states[n - 1], steps[n - 1]);
    }
  }

  /**
   * The local zone is reject-only, in every run, even if Redis loses any keys at
   * any moment: a call that ends with NGX_OK was answered "+" by Redis itself, and
   * once a node has recorded a nonce no later call at that node ends with NGX_OK
   * for it before the expiry (until the node restarts).
   */
  lemma FleetRejectOnly(prefix: Bytes, states: seq<Fleet>, steps: seq<Step>, n: nat)
    requires Run(prefix, states, steps) && n < |states|
    ensures forall i :: 0 <= i < |states[n].attempts| ==>
      var a := states[n].attempts[i]; a.local == Closed(Ok) ==> a.remote.Executed? && a.remote.won
    ensures forall i, j :: 0 <= i < j < |states[n].attempts| ==>
      var a, b := states[n].attempts[i], states[n].attempts[j];
      a.recorded && a.node == b.node && a.life == b.life && a.nonce == b.nonce && b.begun < a.exp
      ==> b.local == Closed(Declined)
  {
    RunKeepsRecorded(prefix, states, steps, n);
  }

  /**
   * What Redis found is what the node says, in every run: a delivered reply closes the
   * call with NGX_OK if its SET won and as a replay if it lost, and any failure closes it
   * with an error; and no call is ever called a replay for another reason than a lost
   * SET, a local refusal or its own expiry.
   */
  lemma DeliveredVerdict(prefix: Bytes, states: seq<Fleet>, steps: seq<Step>, n: nat)
    requires Run(prefix, states, steps) && n < |steps|
    ensures steps[n].Deliver? ==>
      var a, b := states[n].attempts[steps[n].id], states[n + 1].attempts[steps[n].id];
      b.local == Closed(if a.remote.won then Ok else Declined)
    ensures steps[n].Fail? ==> states[n + 1].attempts[steps[n].id].local == Closed(Error)
    ensures forall i :: 0 <= i < |states[n].attempts| ==>
      var a := states[n].attempts[i];
      a.local == Closed(Declined) ==> a.remote.NotSent? || (a.remote.Executed? && !a.remote.won)
  {
    RunKeepsRecorded(prefix, states, steps, n);
    assert Enabled(states[n], steps[n]) && states[n + 1] == Next(prefix, states[n], steps[n]);
    if steps[n].Deliver? || steps[n].Fail? { assert Sound(states[n].attempts[steps[n].id]); }
  }

  // ---- fleet-wide at most once ----

  lemma PrefixInjective(prefix: Bytes, a: Bytes, b: Bytes)
    requires prefix + a == prefix + b
    ensures a == b
  {
    assert a == (prefix + a)[|prefix|..];
    assert b == (prefix + b)[|prefix|..];
  }

  /** When the key set by a winning call disappears: its lifetime counts from the execution of the SET. */
  function Deadline(a: Attempt): int
    requires a.remote.Executed?
  {
    a.remote.at + (a.exp - a.begun)
  }

  predicate WonBy(a: Attempt, nonce: Bytes) {
    a.nonce == nonce && a.remote.Executed? && a.remote.won
  }

  /** Each key Redis holds is that of a winning call, and it holds the latest deadline of its winners. */
  ghost predicate KeysOfWinners(prefix: Bytes, f: Fleet) {
    && (forall i :: 0 <= i < |f.attempts| && WonBy(f.attempts[i], f.attempts[i].nonce) ==>
          prefix + f.attempts[i].nonce in f.keys && Deadline(f.attempts[i]) <= f.keys[prefix + f.attempts[i].nonce])
    && (forall nonce: Bytes :: prefix + nonce in f.keys ==>
          exists i :: 0 <= i < |f.attempts| && WonBy(f.attempts[i], nonce)
                      && f.keys[prefix + nonce] == Deadline(f.attempts[i]))
  }

  lemma ExecuteKeepsKeys(prefix: Bytes, f: Fleet, s: Step)
    requires s.Execute? && Recorded(f) && KeysOfWinners(prefix, f) && Enabled(f, s)
    ensures KeysOfWinners(prefix, Next(prefix, f, s))
  {
    var g, a := Next(prefix, f, s), f.attempts[s.id];
    assert Sound(a);
    forall i | 0 <= i < |g.attempts| && WonBy(g.attempts[i], g.attempts[i].nonce)
      ensures prefix + g.attempts[i].nonce in g.keys
      ensures Deadline(g.attempts[i]) <= g.keys[prefix + g.attempts[i].nonce]
    {
      if i != s.id && prefix + f.attempts[i].nonce == prefix + a.nonce {
        PrefixInjective(prefix, f.attempts[i].nonce, a.nonce);
      }
    }
    forall nonce: Bytes | prefix + nonce in g.keys
      ensures exists i ::
        0 <= i < |g.attempts| && WonBy(g.attempts[i], nonce) && g.keys[prefix + nonce] == Deadline(g.attempts[i])
    {
      if prefix + nonce == prefix + a.nonce { PrefixInjective(prefix, nonce, a.nonce); }
      if prefix + nonce == prefix + a.nonce && g.attempts[s.id].remote.won {
        assert WonBy(g.attempts[s.id], nonce);
      } else {
        var i :|
          0 <= i < |f.attempts| && WonBy(f.attempts[i], nonce) && f.keys[prefix + nonce] == Deadline(f.attempts[i]);
        assert g.attempts[i] == f.attempts[i];
      }
    }
  }

  lemma OtherKeepsKeys(prefix: Bytes, f: Fleet, s: Step)
    requires !s.Execute? && !s.Lose? && KeysOfWinners(prefix, f) && Enabled(f, s)
    ensures KeysOfWinners(prefix, Next(prefix, f, s))
  {
    var g := Next(prefix, f, s);
    assert forall i :: 0 <= i < |f.attempts| ==>
      g.attempts[i].(local := f.attempts[i].local) == f.attempts[i];
    forall nonce: Bytes | prefix + nonce in g.keys
      ensures exists i ::
        0 <= i < |g.attempts| && WonBy(g.attempts[i], nonce) && g.keys[prefix + nonce] == Deadline(g.attempts[i])
    {
      var i :|
        0 <= i < |f.attempts| && WonBy(f.attempts[i], nonce) && f.keys[prefix + nonce] == Deadline(f.attempts[i]);
      assert WonBy(g.attempts[i], nonce);
    }
  }

  lemma {:induction false} RunKeepsKeys(prefix: Bytes, states: seq<Fleet>, steps: seq<Step>, n: nat)
    requires Run(prefix, states, steps) && n < |states| && forall i :: 0 <= i < |steps| ==> !steps[i].Lose?
    ensures KeysOfWinners(prefix, states[n])
  {
    if n > 0 {
      RunKeepsKeys(prefix, states, steps, n - 1);
      RunKeepsRecorded(prefix, states, steps, n - 1);
      if steps[n - 1].Execute? {
        ExecuteKeepsKeys(prefix, states[n - 1], steps[n - 1]);
      } else {
        OtherKeepsKeys(prefix, states[n - 1], steps[n - 1]);
      }
    }
  }

  /** Of two winners with one nonce, one SET ran at or after the other's deadline; no SET runs before its call. */
  ghost predicate WinnersApart(f: Fleet) {
    && (forall i :: 0 <= i < |f.attempts| && f.attempts[i].remote.Executed? ==>
          f.attempts[i].begun <= f.attempts[i].remote.at)
    && (forall i, j :: 0 <= i < j < |f.attempts| ==> Apart(f.attempts[i], f.attempts[j]))
  }

  ghost predicate Apart(a: Attempt, b: Attempt) {
    WonBy(a, a.nonce) && WonBy(b, a.nonce) ==> a.remote.at >= Deadline(b) || b.remote.at >= Deadline(a)
  }

  lemma ExecuteKeepsApart(prefix: Bytes, f: Fleet, s: Step)
    requires s.Execute? && Recorded(f) && KeysOfWinners(prefix, f) && WinnersApart(f) && Enabled(f, s)
    ensures WinnersApart(Next(prefix, f, s))
  {
    var g, a := Next(prefix, f, s), f.attempts[s.id];
    forall i | 0 <= i < |f.attempts| && i != s.id ensures Apart(g.attempts[i], g.attempts[s.id]) {
      assert WonBy(f.attempts[i], a.nonce) && !KeyLive(f, prefix + a.nonce) ==> Deadline(f.attempts[i]) <= f.now;
    }
    forall i, j | 0 <= i < j < |g.attempts| ensures Apart(g.attempts[i], g.attempts[j]) {
      if i == s.id { assert Apart(g.attempts[j], g.attempts[i]); }
    }
  }

  lemma GrownApart(f: Fleet, g: Fleet)
    requires WinnersApart(f) && |f.attempts| <= |g.attempts|
    requires forall i :: 0 <= i < |f.attempts| ==> g.attempts[i].(local := f.attempts[i].local) == f.attempts[i]
    requires forall i :: |f.attempts| <= i < |g.attempts| ==> !g.attempts[i].remote.Executed?
    ensures WinnersApart(g)
  {
    forall i, j | 0 <= i < j < |g.attempts| ensures Apart(g.attempts[i], g.attempts[j]) {
      if j < |f.attempts| { assert Apart(f.attempts[i], f.attempts[j]); }
    }
  }

  lemma StepKeepsApart(prefix: Bytes, f: Fleet, s: Step)
    requires Recorded(f) && KeysOfWinners(prefix, f) && WinnersApart(f) && Enabled(f, s)
    ensures WinnersApart(Next(prefix, f, s))
  {
    if s.Execute? {
      ExecuteKeepsApart(prefix, f, s);
    } else {
      var g := Next(prefix, f, s);
      assert forall i :: 0 <= i < |f.attempts| ==> g.attempts[i].(local := f.attempts[i].local) == f.attempts[i];
      GrownApart(f, g);
    }
  }

  lemma {:induction false} RunKeepsApart(prefix: Bytes, states: seq<Fleet>, steps: seq<Step>, n: nat)
    requires Run(prefix, states, steps) && n < |states| && forall i :: 0 <= i < |steps| ==> !steps[i].Lose?
    ensures WinnersApart(states[n])
  {
    if n > 0 {
      RunKeepsApart(prefix, states, steps, n - 1);
      RunKeepsRecorded(prefix, states, steps, n - 1);
      RunKeepsKeys(prefix, states, steps, n - 1);
      StepKeepsApart(prefix, states[n - 1], steps[n - 1]);
    }
  }

  /**
   * Fleet-wide at most once: over any number of nodes and any interleaving of
   * outages, error replies, lost replies, late executions and restarts, two calls
   * with one nonce, with whatever expiries, both end with NGX_OK only if one SET ran
   * at or after the other call's expiry. So when every SET runs before every expiry
   * the nonce came with, there is at most one.
   */
  lemma FleetAtMostOnce(prefix: Bytes, states: seq<Fleet>, steps: seq<Step>, n: nat, i: nat, j: nat)
    requires Run(prefix, states, steps) && n < |states| && forall i :: 0 <= i < |steps| ==> !steps[i].Lose?
    requires i < j < |states[n].attempts|
    ensures var a, b := states[n].attempts[i], states[n].attempts[j];
      a.nonce == b.nonce && a.local == Closed(Ok) && b.local == Closed(Ok)
      ==> a.remote.Executed? && b.remote.Executed? && (a.remote.at >= b.exp || b.remote.at >= a.exp)
  {
    RunKeepsApart(prefix, states, steps, n);
    RunKeepsRecorded(prefix, states, steps, n);
    assert Sound(states[n].attempts[i]) && Sound(states[n].attempts[j]);
    assert Apart(states[n].attempts[i], states[n].attempts[j]);
  }

  /**
   * The timing condition is exact: in every run without key loss a SET wins iff it
   * runs at or after the deadline of every earlier winner with its nonce, where a
   * deadline is the winner's execution time plus the lifetime it was sent with.
   */
  lemma SetWinsExactly(prefix: Bytes, states: seq<Fleet>, steps: seq<Step>, n: nat)
    requires Run(prefix, states, steps) && forall i :: 0 <= i < |steps| ==> !steps[i].Lose?
    requires n < |steps| && steps[n].Execute?
    ensures var f, id := states[n], steps[n].id;
      id < |states[n + 1].attempts| && (WonBy(states[n + 1].attempts[id], f.attempts[id].nonce) <==>
        forall i :: 0 <= i < |f.attempts| && WonBy(f.attempts[i], f.attempts[id].nonce) ==>
          Deadline(f.attempts[i]) <= f.now)
  {
    RunKeepsKeys(prefix, states, steps, n);
    var f, id := states[n], steps[n].id;
    assert Enabled(f, steps[n]) && states[n + 1] == Next(prefix, f, steps[n]);
    if KeyLive(f, prefix + f.attempts[id].nonce) {
      var i :| 0 <= i < |f.attempts| && WonBy(f.attempts[i], f.attempts[id].nonce)
               && f.keys[prefix + f.attempts[id].nonce] == Deadline(f.attempts[i]);
    }
  }
}
