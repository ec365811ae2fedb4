/** The run theorems with the revocation verdicts of a worker's cache: a key on the list as it is now gets nowhere. */
module ListedKeys {
  import opened ByteStrings
  import opened Tokens
  import opened Login
  import opened Readings
  import opened AuthRun
  import Revocation

  /** The history of one worker's cache for one location, up to its request number m. */
  datatype Watch = Watch(
    policy: Revocation.Policy, worlds: seq<Revocation.World>, events: seq<Revocation.Event>, m: nat)

  /** Request m of the history asked about fpr, every write of the list having had a new mtime. */
  ghost predicate Asked(w: Watch, fpr: Bytes) {
    && Revocation.Run(w.policy, w.worlds, w.events) && Revocation.FreshTimes(w.events)
    && w.m < |w.events| && w.events[w.m].Request? && w.events[w.m].fpr == fpr
  }

  /** The list as it is at that moment. */
  function ListNow(w: Watch): Revocation.File
    requires w.m < |w.worlds|
  {
    w.worlds[w.m].file
  }

  /** The verdict of a step is the one the worker's cache gave then. */
  ghost predicate CacheSays(w: Watch, revoked: Revoked, fpr: Bytes) {
    && Asked(w, fpr)
    && var world, io := w.worlds[w.m], w.events[w.m].io;
       revoked(fpr) <==> Revocation.Decide(w.policy, world.cached, Revocation.StatOf(world.file), io, fpr).1
  }

  /** The location has a list, and an unreadable one denies. */
  predicate FailsClosed(w: Watch) { w.policy.configured && !w.policy.failOpen }

  /** The list is there and does not name the key. */
  ghost predicate Unlisted(w: Watch, fpr: Bytes)
    requires w.m < |w.worlds|
  {
    ListNow(w).Present? && !Revocation.Listed(ListNow(w).content, fpr)
  }

  lemma UndeniedUnlisted(w: Watch, revoked: Revoked, fpr: Bytes)
    requires CacheSays(w, revoked, fpr) && FailsClosed(w) && fpr != [] && !Denied(revoked, fpr)
    ensures Unlisted(w, fpr)
  {
    Revocation.RevocationCoherent(w.policy, w.worlds, w.events, w.m);
  }

  /**
   * In every run, a request past a location with a revocation list that fails closed,
   * whose cookie reads in one way only, has a covering grant; and the list file, as it is
   * at that moment, is there and does not name its key, unless the key is unknown.
   */
  lemma ListedKeyNeverPasses(u: Setup, ys: seq<System>, ts: seq<Step>, n: nat, w: Watch) returns (i: nat)
    requires Run(u, ys, ts) && n < |ts| && ts[n].Access? && ts[n].id in ys[n].sites && HasSession(u, ys[n], ts[n])
    requires !OtherSession(u.origins, AccessFields(ys[n], ts[n])) && FailsClosed(w)
    requires CacheSays(w, ts[n].revoked, ParseCookie(ts[n].cookie.value).value.name)
    ensures i < |ys[n].grants| && Covers(ys[n], ts[n], ys[n].grants[i])
    ensures w.m < |w.worlds| && (ys[n].grants[i].fpr == [] || Unlisted(w, ys[n].grants[i].fpr))
  {
    RunKeeps(u, ys, ts, n);
    assert Leads(u, ys[n], ts[n], ys[n + 1]);
    i := PassingIsCovered(u, ys[n], ts[n]);
    if ys[n].grants[i].fpr != [] { UndeniedUnlisted(w, ts[n].revoked, ys[n].grants[i].fpr); }
  }

  /** Nor does a login on the worker grant a session to a key on the list. */
  lemma ListedKeyNeverGranted(
    u: Setup, y: System, id: nat, c: Client, s: Signed, luck: Luck, revoked: Revoked, granted: bool, w: Watch)
    requires MakesTags(u.mac) && WellFormed(u.origins, y) && id in y.sites && Genuine(u.origins, c)
    requires y.now + y.sites[id].sessionTimeout <= MAX_TIME
    requires SignedShape(s) && Admissible(u, y, y.sites[id], c, s, luck)
    requires CacheSays(w, revoked, s.fpr) && FailsClosed(w)
    ensures w.m < |w.worlds|
    ensures var z := NextSubmit(u, y, id, c, s, luck, Denied(revoked, s.fpr), granted);
      |z.grants| > |y.grants| ==> s.fpr == [] || Unlisted(w, s.fpr)
  {
    SubmitKeeps(u, y, id, c, s, luck, Denied(revoked, s.fpr), granted);
    if !Denied(revoked, s.fpr) && s.fpr != [] { UndeniedUnlisted(w, revoked, s.fpr); }
  }

  /** Nor does the worker's part of a pool login, by the list as it is then, not as it was when the thread ran. */
  lemma ListedKeyNeverFinished(o: Origins, y: System, k: nat, revoked: Revoked, granted: bool, w: Watch)
    requires WellFormed(o, y) && k < |y.jobs| && y.jobs[k].phase.Judged?
    requires CacheSays(w, revoked, y.jobs[k].phase.signed.fpr) && FailsClosed(w)
    ensures w.m < |w.worlds|
    ensures var z, fpr := NextFinish(y, k, revoked, granted), y.jobs[k].phase.signed.fpr;
      z.grants != y.grants ==> fpr == [] || Unlisted(w, fpr)
  {
    var fpr := y.jobs[k].phase.signed.fpr;
    assert JobFormed(o, y, y.jobs[k]);
    FinishGrants(o, y, k, revoked, granted);
    if !Denied(revoked, fpr) && fpr != [] { UndeniedUnlisted(w, revoked, fpr); }
  }
}
