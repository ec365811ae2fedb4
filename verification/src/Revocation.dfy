/** The revocation list: its scanner, and the per-worker cache keyed by the file's mtime. */
module Revocation {
  import opened ByteStrings

  predicate IsBlank(c: byte) { c == ' ' || c == '\t' }

  /** Blanks removed, letters lower-cased. */
  function Normal(s: Bytes): Bytes {
    if s == [] then []
    else if IsBlank(s[0]) then Normal(s[1..])
    else [ToLower(s[0])] + Normal(s[1..])
  }

  /** Letters lower-cased, nothing removed. */
  function Folded(s: Bytes): Bytes {
    if s == [] then [] else [ToLower(s[0])] + Folded(s[1..])
  }

  /** The line, spacing and case aside, is not a comment and is the fingerprint. */
  predicate Lists(line: Bytes, fpr: Bytes) {
    Normal(line) != [] && Normal(line)[0] != '#' && Normal(line) == Folded(fpr)
  }

  const NEWLINES: set<byte> := {LF, CR}

  ghost predicate SomeLists(lines: seq<Bytes>, fpr: Bytes) {
    exists i :: 0 <= i < |lines| && Lists(lines[i], fpr)
  }

  /** Some CR- or LF-delimited line of the file lists the fingerprint. */
  ghost predicate Listed(content: Bytes, fpr: Bytes) {
    SomeLists(Split(content, NEWLINES), fpr)
  }

  // ---- the scanner ----

  /** fpr_eq: compare an entry with a fingerprint, skipping blanks of the entry. */
  method FprEq(entry: Bytes, fpr: Bytes) returns (eq: bool)
    ensures eq <==> Normal(entry) == Folded(fpr)
  {
    var a, b := 0, 0;
    assert entry[0..] == entry && fpr[0..] == fpr;
    while a < |entry|
      invariant a <= |entry| && b <= |fpr|
      invariant Normal(entry) == Folded(fpr) <==> Normal(entry[a..]) == Folded(fpr[b..])
    {
      assert entry[a..][1..] == entry[a + 1..];
      if IsBlank(entry[a]) {
        a := a + 1;
        continue;
      }
      if b == |fpr| { return false; }
      assert fpr[b..][1..] == fpr[b + 1..];
      if ToLower(entry[a]) != ToLower(fpr[b]) {
        assert Normal(entry[a..])[0] != Folded(fpr[b..])[0];
        return false;
      }
      HeadsAgree(ToLower(entry[a]), Normal(entry[a + 1..]), Folded(fpr[b + 1..]));
      a, b := a + 1, b + 1;
    }
    return b == |fpr|;
  }

  lemma HeadsAgree(c: byte, x: Bytes, y: Bytes)
    ensures [c] + x == [c] + y <==> x == y
  {
    if [c] + x == [c] + y { assert x == ([c] + x)[1..] && y == ([c] + y)[1..]; }
  }

  lemma {:induction false} NormalAppend(a: Bytes, b: Bytes)
    ensures Normal(a + b) == Normal(a) + Normal(b)
  {
    if a == [] {
      assert a + b == b;
    } else {
      assert (a + b)[1..] == a[1..] + b;
      NormalAppend(a[1..], b);
    }
  }

  /** Trim one line, skip comments, and compare it. */
  method LineLists(line: Bytes, fpr: Bytes) returns (listed: bool)
    requires CR !in line
    ensures listed <==> Lists(line, fpr)
  {
    var s, e := 0, |line|;
    assert line[0..|line|] == line;
    while s < e && IsBlank(line[s])
      invariant s <= e == |line| && Normal(line[s..e]) == Normal(line)
    {
      assert line[s..e][1..] == line[s + 1..e];
      s := s + 1;
    }
    while e > s && (IsBlank(line[e - 1]) || line[e - 1] == CR)
      invariant s <= e <= |line| && Normal(line[s..e]) == Normal(line)
      invariant s < e ==> !IsBlank(line[s])
    {
      assert line[s..e] == line[s..e - 1] + [line[e - 1]];
      NormalAppend(line[s..e - 1], [line[e - 1]]);
      e := e - 1;
    }
    if s == e || line[s] == '#' { return false; }
    listed := FprEq(line[s..e], fpr);
  }

  lemma ListedAppend(a: Bytes, c: byte, b: Bytes, fpr: Bytes)
    requires c in NEWLINES
    ensures Listed(a + [c] + b, fpr) <==> Listed(a, fpr) || Listed(b, fpr)
  {
    SplitAppend(a, c, b, NEWLINES);
    SomeAppend(Split(a, NEWLINES), Split(b, NEWLINES), fpr);
  }

  lemma SomeAppend(x: seq<Bytes>, y: seq<Bytes>, fpr: Bytes)
    ensures SomeLists(x + y, fpr) <==> SomeLists(x, fpr) || SomeLists(y, fpr)
  {
    forall i | 0 <= i < |x| ensures (x + y)[i] == x[i] {}
    forall i | 0 <= i < |y| ensures (x + y)[|x| + i] == y[i] {}
  }

  lemma ListedLine(line: Bytes, fpr: Bytes)
    requires LF !in line && CR !in line
    ensures Listed(line, fpr) <==> Lists(line, fpr)
  {
    SplitFree(line, NEWLINES);
    assert [line][0] == line;
  }

  /** The next CR or LF, whichever comes first, or the end. */
  method LineEnd(content: Bytes, pos: nat) returns (nl: nat)
    requires pos < |content|
    ensures pos <= nl <= |content| && LF !in content[pos..nl] && CR !in content[pos..nl]
    ensures nl < |content| ==> content[nl] in NEWLINES
  {
    var end := |content|;
    var lf, cr := IndexOf(content, LF, pos, end), IndexOf(content, CR, pos, end);
    var first := if lf == -1 then cr else if cr == -1 then lf else if cr < lf then cr else lf;
    nl := if first == -1 then end else first;
    AbsentFree(content, LF, pos, nl);
    AbsentFree(content, CR, pos, nl);
  }

  lemma ListedFrom(content: Bytes, pos: nat, nl: nat, fpr: Bytes)
    requires pos <= nl <= |content| && LF !in content[pos..nl] && CR !in content[pos..nl]
    requires nl < |content| ==> content[nl] in NEWLINES
    ensures Listed(content[pos..], fpr)
       <==> Lists(content[pos..nl], fpr) || (nl < |content| && Listed(content[nl + 1..], fpr))
  {
    var line := content[pos..nl];
    ListedLine(line, fpr);
    if nl < |content| {
      assert content[pos..] == line + [content[nl]] + content[nl + 1..];
      ListedAppend(line, content[nl], content[nl + 1..], fpr);
    } else {
      assert content[pos..] == line;
    }
  }

  /** The line loop of is_revoked over the cached contents. */
  method Scan(content: Bytes, fpr: Bytes) returns (revoked: bool)
    ensures revoked <==> Listed(content, fpr)
  {
    var pos := 0;
    assert content[0..] == content;
    while pos < |content|
      invariant pos <= |content| + 1
      invariant Listed(content, fpr) <==> pos <= |content| && Listed(content[pos..], fpr)
    {
      var nl := LineEnd(content, pos);
      ListedFrom(content, pos, nl, fpr);
      var hit := LineLists(content[pos..nl], fpr);
      if hit { return true; }
      pos := nl + 1;
    }
    if pos == |content| { ListedLine(content[pos..], fpr); }
    return false;
  }

  // ---- what the verdict does not depend on ----

  /** Line ends an editor may use. */
  predicate IsTerminator(t: Bytes) { t == "\n" || t == "\r" || t == "\r\n" }

  /** Lines written with the given terminators, and a last line without one. */
  function WrittenOut(lines: seq<Bytes>, ends: seq<Bytes>, last: Bytes): Bytes
    requires |lines| == |ends|
    decreases lines
  {
    if lines == [] then last else lines[0] + ends[0] + WrittenOut(lines[1..], ends[1..], last)
  }

  ghost predicate NewlineFree(lines: seq<Bytes>) {
    forall i :: 0 <= i < |lines| ==> LF !in lines[i] && CR !in lines[i]
  }

  /** A line with any terminator, and what follows it. */
  lemma TerminatedLine(line: Bytes, end: Bytes, rest: Bytes, fpr: Bytes)
    requires LF !in line && CR !in line && IsTerminator(end)
    ensures Listed(line + end + rest, fpr) <==> Lists(line, fpr) || Listed(rest, fpr)
  {
    ListedLine(line, fpr);
    if end == [CR, LF] {
      assert line + end + rest == line + [CR] + ([] + [LF] + rest);
      ListedAppend(line, CR, [] + [LF] + rest, fpr);
      ListedAppend([], LF, rest, fpr);
      ListedLine([], fpr);
    } else {
      ListedAppend(line, end[0], rest, fpr);
    }
  }

  /** The verdict is the same for LF, CR and CRLF files, or any mixture of them. */
  lemma {:induction false} TerminatorsIrrelevant(lines: seq<Bytes>, ends: seq<Bytes>, last: Bytes, fpr: Bytes)
    requires |lines| == |ends| && NewlineFree(lines) && NewlineFree([last])
    requires forall i :: 0 <= i < |ends| ==> IsTerminator(ends[i])
    ensures Listed(WrittenOut(lines, ends, last), fpr) <==> SomeLists(lines + [last], fpr)
    decreases lines
  {
    if lines == [] {
      assert lines + [last] == [last] && [last][0] == last;
      ListedLine(last, fpr);
      assert SomeLists([last], fpr) <==> Lists(last, fpr);
    } else {
      var rest := WrittenOut(lines[1..], ends[1..], last);
      TerminatorsIrrelevant(lines[1..], ends[1..], last, fpr);
      TerminatedLine(lines[0], ends[0], rest, fpr);
      assert lines + [last] == [lines[0]] + (lines[1..] + [last]);
      SomeAppend([lines[0]], lines[1..] + [last], fpr);
      assert [lines[0]][0] == lines[0];
    }
  }

  /** One letter in either case, or one other byte. */
  predicate SameLetter(a: byte, b: byte) {
    a == b || ('A' <= a <= 'Z' && b as int == a as int + 32) || ('A' <= b <= 'Z' && a as int == b as int + 32)
  }

  predicate SameText(s: Bytes, t: Bytes) { |s| == |t| && forall i :: 0 <= i < |s| ==> SameLetter(s[i], t[i]) }

  lemma LetterFolds(a: byte, b: byte)
    ensures SameLetter(a, b) <==> ToLower(a) == ToLower(b)
  {
  }

  lemma {:induction false} TextFolds(s: Bytes, t: Bytes)
    ensures SameText(s, t) <==> Folded(s) == Folded(t)
  {
    FoldedLength(s);
    FoldedLength(t);
    if |s| == |t| && s != [] {
      LetterFolds(s[0], t[0]);
      TextFolds(s[1..], t[1..]);
      assert SameText(s, t) <==> SameLetter(s[0], t[0]) && SameText(s[1..], t[1..]) by {
        if SameLetter(s[0], t[0]) && SameText(s[1..], t[1..]) {
          forall i | 0 <= i < |s| ensures SameLetter(s[i], t[i]) {
            if i > 0 { assert SameLetter(s[1..][i - 1], t[1..][i - 1]); }
          }
        }
      }
      assert Folded(s)[1..] == Folded(s[1..]) && Folded(t)[1..] == Folded(t[1..]);
    }
  }

  lemma {:induction false} FoldedLength(s: Bytes)
    ensures |Folded(s)| == |s|
  {
    if s != [] { FoldedLength(s[1..]); }
  }

  lemma {:induction false} NormalFolds(s: Bytes)
    requires ' ' !in s && '\t' !in s
    ensures Normal(s) == Folded(s)
  {
    if s != [] { NormalFolds(s[1..]); }
  }

  /** A line without blanks lists a fingerprint iff it is no comment and spells it in any case. */
  lemma PlainLineLists(line: Bytes, fpr: Bytes)
    requires ' ' !in line && '\t' !in line
    ensures Lists(line, fpr) <==> line != [] && line[0] != '#' && SameText(line, fpr)
  {
    NormalFolds(line);
    TextFolds(line, fpr);
    if line != [] { LetterFolds(line[0], '#'); }
  }

  /** A space or tab anywhere in a line changes no verdict. */
  lemma BlankIrrelevant(a: Bytes, c: byte, b: Bytes, fpr: Bytes)
    requires c == ' ' || c == '\t'
    ensures Lists(a + [c] + b, fpr) <==> Lists(a + b, fpr)
  {
    NormalAppend(a + [c], b);
    NormalAppend(a, [c]);
    NormalAppend(a, b);
    assert Normal([c]) == [];
  }

  /** Case changes no verdict, neither in the list nor in the fingerprint. */
  lemma CaseIrrelevant(line: Bytes, line': Bytes, fpr: Bytes, fpr': Bytes)
    requires SameText(line, line') && SameText(fpr, fpr')
    ensures Lists(line, fpr) <==> Lists(line', fpr')
  {
    SameNormal(line, line');
    TextFolds(fpr, fpr');
  }

  lemma {:induction false} SameNormal(s: Bytes, t: Bytes)
    requires SameText(s, t)
    ensures Normal(s) == Normal(t)
  {
    if s != [] {
      LetterFolds(s[0], t[0]);
      forall i | 0 <= i < |s| - 1 ensures SameLetter(s[1..][i], t[1..][i]) { assert SameLetter(s[i + 1], t[i + 1]); }
      SameNormal(s[1..], t[1..]);
    }
  }

  function NormalEach(lines: seq<Bytes>): (r: seq<Bytes>)
    ensures |r| == |lines| && forall i :: 0 <= i < |r| ==> r[i] == Normal(lines[i])
  {
    if lines == [] then [] else [Normal(lines[0])] + NormalEach(lines[1..])
  }

  lemma {:induction false} NormalSplit(s: Bytes)
    ensures Split(Normal(s), NEWLINES) == NormalEach(Split(s, NEWLINES))
  {
    if s != [] {
      NormalSplit(s[1..]);
      var rest := Split(s[1..], NEWLINES);
      if s[0] in NEWLINES {
        assert Normal(s)[1..] == Normal(s[1..]) && Normal(s)[0] == s[0];
      } else {
        assert ([s[0]] + rest[0])[1..] == rest[0];
        if !IsBlank(s[0]) {
          assert Normal(s)[1..] == Normal(s[1..]) && Normal(s)[0] == ToLower(s[0]);
        }
      }
    }
  }

  /** Two files that differ only in blanks and letter case give every fingerprint one verdict. */
  lemma SpacingAndCaseIrrelevant(a: Bytes, b: Bytes, fpr: Bytes)
    requires Normal(a) == Normal(b)
    ensures Listed(a, fpr) <==> Listed(b, fpr)
  {
    NormalSplit(a);
    NormalSplit(b);
    var x, y := Split(a, NEWLINES), Split(b, NEWLINES);
    var n := NormalEach(x);
    assert n == NormalEach(y);
    forall i | 0 <= i < |n| ensures Normal(x[i]) == n[i] == Normal(y[i]) {}
  }

  /** Appending whole lines only adds revocations. */
  lemma AppendingLinesMonotone(content: Bytes, c: byte, more: Bytes, fpr: Bytes)
    requires c in NEWLINES && Listed(content, fpr)
    ensures Listed(content + [c] + more, fpr)
  {
    ListedAppend(content, c, more, fpr);
  }

  // ---- the cache ----

  /** What stat reports. */
  datatype Stat = NoFile | Found(mtime: int, size: nat)

  /** How the operations of one reload turn out; `text` is what was read, at most `size` bytes, or an error. */
  datatype Io = Io(opens: bool, alloc: bool, text: Option<Bytes>)

  datatype Cached = Cached(text: Option<Bytes>, mtime: int)

  /** The settings of a location: whether a list is configured, the failure policy, the size limit (0 = none). */
  datatype Policy = Policy(configured: bool, failOpen: bool, maxSize: nat)

  predicate LoadFails(policy: Policy, size: nat, io: Io) {
    !io.opens || (policy.maxSize > 0 && size > policy.maxSize) || !io.alloc || io.text.None?
  }

  /** A cached copy made at the file's present mtime. */
  predicate Hit(c: Cached, stat: Stat) { c.text.Some? && stat.Found? && stat.mtime == c.mtime }

  /** is_revoked: the verdict, and the cache it leaves. */
  ghost function Decide(policy: Policy, c: Cached, stat: Stat, io: Io, fpr: Bytes): (Cached, bool) {
    if !policy.configured || fpr == [] then (c, false)
    else if stat.NoFile? then (c, !policy.failOpen)
    else if Hit(c, stat) then (c, Listed(c.text.value, fpr))
    else if LoadFails(policy, stat.size, io) then (c, !policy.failOpen)
    else (Cached(io.text, stat.mtime), Listed(io.text.value, fpr))
  }

  /**
   * What each outcome of the file operations means when the copy is missing or old: an
   * absent list, one that cannot be opened, is over the limit, finds no memory or cannot be
   * read is denied or admitted by policy and leaves the copy alone; any other is read and scanned.
   */
  lemma DecideTable(policy: Policy, c: Cached, size: nat, mtime: int, io: Io, fpr: Bytes)
    requires policy.configured && fpr != []
    ensures Decide(policy, c, NoFile, io, fpr) == (c, !policy.failOpen)
    ensures c.text.Some? && c.mtime == mtime ==>
      Decide(policy, c, Found(mtime, size), io, fpr) == (c, Listed(c.text.value, fpr))
    ensures c.text.None? || c.mtime != mtime ==>
      var bad := !io.opens || (policy.maxSize != 0 && size > policy.maxSize) || !io.alloc || io.text == None;
      && (bad ==> Decide(policy, c, Found(mtime, size), io, fpr) == (c, !policy.failOpen))
      && (!bad ==> Decide(policy, c, Found(mtime, size), io, fpr)
                   == (Cached(io.text, mtime), Listed(io.text.value, fpr)))
  {
  }

  class Worker {
    const policy: Policy
    var cache: Option<Bytes>      // revoc_cache
    var mtime: int                // revoc_mtime

    constructor (policy: Policy)
      ensures this.policy == policy && cache == None
    {
      this.policy, cache, mtime := policy, None, 0;
    }

    /** The file may change between stat and read: `io.text` is whatever the read returned. */
    method IsRevoked(stat: Stat, io: Io, fpr: Bytes) returns (revoked: bool)
      modifies this
      ensures (Cached(cache, mtime), revoked) == Decide(policy, old(Cached(cache, mtime)), stat, io, fpr)
    {
      if !policy.configured || fpr == [] { return false; }
      var deny := !policy.failOpen;
      if stat.NoFile? { return deny; }
      if cache == None || stat.mtime != mtime {
        if !io.opens { return deny; }
        if policy.maxSize > 0 && stat.size > policy.maxSize { return deny; }
        if !io.alloc || io.text.None? { return deny; }
        cache := io.text;
        mtime := stat.mtime;
      }
      revoked := Scan(cache.value, fpr);
    }
  }

  datatype File = Missing | Present(mtime: int, content: Bytes)

  function StatOf(file: File): Stat {
    if file.Missing? then NoFile else Found(file.mtime, |file.content|)
  }

  /** The file system as one worker sees it; `versions` remembers what each mtime stood for. */
  datatype World = World(file: File, versions: map<int, Bytes>, cached: Cached)

  datatype Event =
    | Edit(mtime: int, content: Bytes)   // a write, with an mtime not used before
    | Rewrite(content: Bytes)            // a write that keeps the mtime
    | Vanish
    | Restore(mtime: int)                // an earlier version comes back, mtime and all
    | Request(io: Io, fpr: Bytes)

  ghost predicate Allowed(w: World, e: Event) {
    match e
    case Edit(mtime, _) => mtime !in w.versions
    case Rewrite(_) => w.file.Present?
    case Vanish => true
    case Restore(mtime) => mtime in w.versions
    case Request(io, _) => w.file.Present? && io.text.Some? ==> io.text.value == w.file.content
  }

  ghost function NextWorld(policy: Policy, w: World, e: Event): World
    requires Allowed(w, e)
  {
    match e
    case Edit(mtime, content) => World(Present(mtime, content), w.versions[mtime := content], w.cached)
    case Rewrite(content) => w.(file := Present(w.file.mtime, content))
    case Vanish => w.(file := Missing)
    case Restore(mtime) => w.(file := Present(mtime, w.versions[mtime]))
    case Request(io, fpr) => w.(cached := Decide(policy, w.cached, StatOf(w.file), io, fpr).0)
  }

  ghost predicate Run(policy: Policy, worlds: seq<World>, events: seq<Event>) {
    && |worlds| == |events| + 1 && worlds[0] == World(Missing, map[], Cached(None, 0))
    && forall i :: 0 <= i < |events| ==>
         Allowed(worlds[i], events[i]) && worlds[i + 1] == NextWorld(policy, worlds[i], events[i])
  }

  /** Every write gets a new mtime. */
  ghost predicate FreshTimes(events: seq<Event>) { forall i :: 0 <= i < |events| ==> !events[i].Rewrite? }

  /** File and cache each hold the version of their mtime. */
  ghost predicate Coherent(w: World) {
    && (w.file.Present? ==> w.file.mtime in w.versions && w.versions[w.file.mtime] == w.file.content)
    && (w.cached.text.Some? ==> w.cached.mtime in w.versions && w.versions[w.cached.mtime] == w.cached.text.value)
  }

  lemma {:induction false} RunCoherent(policy: Policy, worlds: seq<World>, events: seq<Event>, n: nat)
    requires Run(policy, worlds, events) && n < |worlds| && FreshTimes(events)
    ensures Coherent(worlds[n])
  {
    if n > 0 {
      RunCoherent(policy, worlds, events, n - 1);
      assert worlds[n] == NextWorld(policy, worlds[n - 1], events[n - 1]);
    }
  }

  /**
   * Over every run of edits with new mtimes, disappearances and requests: a verdict taken from the
   * cache, fresh or old, is that of the file as it is now; and unless failures are
   * set to admit, a fingerprint the file lists now is reported revoked.
   */
  lemma RevocationCoherent(policy: Policy, worlds: seq<World>, events: seq<Event>, n: nat)
    requires Run(policy, worlds, events) && n < |events| && events[n].Request?
    requires FreshTimes(events) && policy.configured && events[n].fpr != []
    ensures
      var w, e := worlds[n], events[n];
      var revoked := Decide(policy, w.cached, StatOf(w.file), e.io, e.fpr).1;
      && (w.file.Present? && (Hit(w.cached, StatOf(w.file)) || !LoadFails(policy, |w.file.content|, e.io))
          ==> (revoked <==> Listed(w.file.content, e.fpr)))
      && (!policy.failOpen && (w.file.Present? ==> Listed(w.file.content, e.fpr)) ==> revoked)
  {
    RunCoherent(policy, worlds, events, n);
    assert Allowed(worlds[n], events[n]);
  }

  lemma RunExtends(policy: Policy, worlds: seq<World>, events: seq<Event>, e: Event)
    requires Run(policy, worlds, events) && Allowed(worlds[|events|], e)
    ensures Run(policy, worlds + [NextWorld(policy, worlds[|events|], e)], events + [e])
  {
  }

  /**
   * The fresh mtime is needed: for any two contents there is a run in which the file is
   * rewritten from one to the other under its mtime and the next verdict, whatever the
   * file operations do, is that of the old content.
   */
  lemma SameMtimeEditUnseen(policy: Policy, mtime: int, before: Bytes, after: Bytes, fpr: Bytes, io: Io)
    returns (worlds: seq<World>, events: seq<Event>)
    requires policy.configured && fpr != [] && (policy.maxSize == 0 || |before| <= policy.maxSize)
    ensures Run(policy, worlds, events) && |events| == 3 && worlds[3].file == Present(mtime, after)
    ensures Decide(policy, worlds[3].cached, StatOf(worlds[3].file), io, fpr)
         == (worlds[3].cached, Listed(before, fpr))
  {
    var w := World(Missing, map[], Cached(None, 0));
    var read := Request(Io(true, true, Some(before)), fpr);
    worlds, events := [w], [];
    assert Run(policy, worlds, events);
    RunExtends(policy, worlds, events, Edit(mtime, before));
    w := NextWorld(policy, w, Edit(mtime, before));
    worlds, events := worlds + [w], events + [Edit(mtime, before)];
    RunExtends(policy, worlds, events, read);
    w := NextWorld(policy, w, read);
    worlds, events := worlds + [w], events + [read];
    RunExtends(policy, worlds, events, Rewrite(after));
    worlds, events := worlds + [NextWorld(policy, w, Rewrite(after))], events + [Rewrite(after)];
  }
}
