/** Every way one MAC input can be cut into fields. */
module Readings {
  import opened ByteStrings
  import opened Tokens
  import Login
  import NonceStore
  import Config

  /** The stretches of a MAC input between its separator bytes. */
  function Pieces(f: Fields): seq<Bytes> { Split(Frame(f), {SEP}) }

  function Join(ps: seq<Bytes>): Bytes
    requires ps != []
  {
    if |ps| == 1 then ps[0] else ps[0] + [SEP] + Join(ps[1..])
  }

  lemma {:induction false} JoinSplit(s: Bytes)
    ensures Join(Split(s, {SEP})) == s
  {
    if s != [] {
      JoinSplit(s[1..]);
      var rest := Split(s[1..], {SEP});
      if s[0] == SEP {
        assert ([[]] + rest)[1..] == rest;
      } else {
        assert ([[s[0]] + rest[0]] + rest[1..])[1..] == rest[1..];
      }
    }
  }

  lemma {:induction false} JoinAppend(a: seq<Bytes>, b: seq<Bytes>)
    requires a != [] && b != []
    ensures Join(a + b) == Join(a) + [SEP] + Join(b)
  {
    if |a| == 1 {
      assert (a + b)[1..] == b;
    } else {
      assert (a + b)[1..] == a[1..] + b;
      JoinAppend(a[1..], b);
    }
  }

  /** The fields read off by cutting the pieces at k, m and j. */
  function Cut(ps: seq<Bytes>, k: int, m: int, j: int): Fields
    requires 1 < k < m < j < |ps|
  {
    Fields(ps[0], Join(ps[1..k]), Join(ps[k..m]), Join(ps[m..j]), Join(ps[j..]))
  }

  /** Every cut has the frame it was cut from. */
  lemma CutFrame(f: Fields, k: int, m: int, j: int)
    requires 1 < k < m < j < |Pieces(f)|
    ensures Frame(Cut(Pieces(f), k, m, j)) == Frame(f)
  {
    var ps := Pieces(f);
    JoinSplit(Frame(f));
    assert ps == ps[..j] + ps[j..];
    JoinAppend(ps[..j], ps[j..]);
    assert ps[..j] == ps[..m] + ps[m..j];
    JoinAppend(ps[..m], ps[m..j]);
    assert ps[..m] == ps[..k] + ps[k..m];
    JoinAppend(ps[..k], ps[k..m]);
    assert ps[..k] == [ps[0]] + ps[1..k];
    JoinAppend([ps[0]], ps[1..k]);
    assert Join([ps[0]]) == ps[0];
  }

  lemma FivePlaces(a: seq<Bytes>, b: seq<Bytes>, c: seq<Bytes>, d: seq<Bytes>, e: seq<Bytes>)
    requires |a| == 1 && b != [] && c != [] && d != [] && e != []
    ensures var ps, k, m, j := a + b + c + d + e, 1 + |b|, 1 + |b| + |c|, 1 + |b| + |c| + |d|;
      && 1 < k < m < j < |ps| && ps[0] == a[0]
      && ps[1..k] == b && ps[k..m] == c && ps[m..j] == d && ps[j..] == e
  {
  }

  lemma CutOfParts(kind: Bytes, b: seq<Bytes>, c: seq<Bytes>, d: seq<Bytes>, e: seq<Bytes>)
    requires b != [] && c != [] && d != [] && e != []
    ensures var ps, k, m, j := [kind] + b + c + d + e, 1 + |b|, 1 + |b| + |c|, 1 + |b| + |c| + |d|;
      1 < k < m < j < |ps| && Cut(ps, k, m, j) == Fields(kind, Join(b), Join(c), Join(d), Join(e))
  {
    FivePlaces([kind], b, c, d, e);
  }

  /** Conversely any fields with the same frame are one of its cuts. */
  lemma ReadingIsCut(f: Fields, g: Fields) returns (k: int, m: int, j: int)
    requires Free(g.kind, SEP) && Frame(g) == Frame(f)
    ensures 1 < k < m < j < |Pieces(f)| && Cut(Pieces(f), k, m, j) == g
    ensures Free(g.data, SEP) ==> m == k + 1
  {
    FrameSplit(g);
    SplitFree(g.kind, {SEP});
    var b, c, d := Split(g.scope, {SEP}), Split(g.data, {SEP}), Split(g.ip, {SEP});
    CutOfParts(g.kind, b, c, d, Split(g.ua, {SEP}));
    k, m, j := 1 + |b|, 1 + |b| + |c|, 1 + |b| + |c| + |d|;
    JoinSplit(g.scope);
    JoinSplit(g.data);
    JoinSplit(g.ip);
    JoinSplit(g.ua);
    if Free(g.data, SEP) { SplitFree(g.data, {SEP}); }
  }

  lemma OnePieceJoin(ps: seq<Bytes>, k: int)
    requires 0 <= k < |ps|
    ensures ps[k..k + 1] != [] && Join(ps[k..k + 1]) == ps[k]
  {
  }

  lemma KindPiece(f: Fields)
    requires Free(f.kind, SEP)
    ensures |Pieces(f)| >= 5 && Pieces(f)[0] == f.kind
  {
    FrameSplit(f);
    SplitFree(f.kind, {SEP});
  }

  /** With separator-free scope and data these are pieces of the frame, whatever follows them. */
  lemma ScopeAndData(f: Fields)
    requires Free(f.kind, SEP) && Free(f.scope, SEP) && Free(f.data, SEP)
    ensures |Pieces(f)| > 2 && Pieces(f)[1] == f.scope && Pieces(f)[2] == f.data
  {
    FrameSplit(f);
    SplitFree(f.kind, {SEP});
    SplitFree(f.scope, {SEP});
    SplitFree(f.data, {SEP});
  }

  // ---- payloads as the module prints them ----

  /** A session payload: a decimal time, a bar, a fingerprint. */
  predicate LooksGranted(b: Bytes) {
    var k := IndexOf(b, BAR, 0, |b|);
    k != -1 && Login.FprShape(b[k + 1..])
    && var exp := ParseTime(b[..k]); exp != -1 && b[..k] == Decimal(exp)
  }

  lemma GrantedLooks(exp: nat, fpr: Bytes)
    requires exp <= MAX_TIME && Login.FprShape(fpr)
    ensures LooksGranted(SessionPayload(exp, fpr))
  {
    var b, d := SessionPayload(exp, fpr), Decimal(exp);
    DecimalPlain(exp);
    DecimalRoundTrip(exp);
    assert forall i :: 0 <= i < |d| ==> b[i] == d[i];
    IndexOfAt(b, BAR, 0, |d|, |b|);
    assert b[..|d|] == d && b[|d| + 1..] == fpr;
  }

  lemma LooksGrantedParts(b: Bytes) returns (exp: nat, fpr: Bytes)
    requires LooksGranted(b)
    ensures exp <= MAX_TIME && Login.FprShape(fpr) && b == SessionPayload(exp, fpr)
  {
    var k := IndexOf(b, BAR, 0, |b|);
    exp, fpr := ParseTime(b[..k]), b[k + 1..];
    assert b == b[..k] + [b[k]] + b[k + 1..];
  }

  /** The bar after the expiry in a challenge payload. */
  function ExpiryBar(b: Bytes): int
    requires MARKER <= b
  {
    IndexOf(b, BAR, 3, |b|)
  }

  /** A challenge payload: the marker, a decimal time, a bar, a nonce. */
  predicate LooksIssued(b: Bytes) {
    MARKER <= b
    && var k := ExpiryBar(b);
       k != -1 && NonceShape(b[k + 1..]) && var exp := ParseTime(b[3..k]); exp != -1 && b[3..k] == Decimal(exp)
  }

  lemma ExpiryBarAt(exp: Bytes, name: Bytes)
    requires Free(exp, BAR)
    ensures var b := MARKER + exp + [BAR] + name;
      && MARKER <= b && ExpiryBar(b) == 3 + |exp| && b[3..3 + |exp|] == exp && b[4 + |exp|..] == name
  {
    var b := MARKER + exp + [BAR] + name;
    PayloadBars(b, exp, name);
    assert b[..3] == MARKER;
    IndexOfAt(b, BAR, 3, 3 + |exp|, |b|);
  }

  lemma IssuedLooks(exp: nat, nonce: Bytes)
    requires exp <= MAX_TIME && NonceShape(nonce)
    ensures var b := ChallengePayload(exp, nonce); LooksIssued(b) && IssuedExp(b) == exp
  {
    DecimalPlain(exp);
    DecimalRoundTrip(exp);
    ExpiryBarAt(Decimal(exp), nonce);
  }

  function IssuedExp(b: Bytes): nat
    requires LooksIssued(b)
  {
    ParseTime(b[3..ExpiryBar(b)])
  }

  lemma LooksIssuedParts(b: Bytes) returns (exp: nat, nonce: Bytes)
    requires LooksIssued(b)
    ensures exp <= MAX_TIME && NonceShape(nonce) && b == ChallengePayload(exp, nonce) && exp == IssuedExp(b)
  {
    var k := ExpiryBar(b);
    exp, nonce := ParseTime(b[3..k]), b[k + 1..];
    assert b == b[..3] + b[3..k] + [b[k]] + b[k + 1..];
  }

  // ---- what a session check and a login read off a payload ----

  /** A payload check_session does not refuse on sight: one bar, a time before it. */
  predicate Wellspelt(payload: Bytes) {
    var k := IndexOf(payload, BAR, 0, |payload|);
    k != -1 && Free(payload[k + 1..], BAR) && ParseTime(payload[..k]) != -1
  }

  /** The expiry and the fingerprint in it. */
  function CookieExp(payload: Bytes): nat
    requires Wellspelt(payload)
  {
    ParseTime(payload[..IndexOf(payload, BAR, 0, |payload|)])
  }

  function CookieFpr(payload: Bytes): Bytes
    requires Wellspelt(payload)
  {
    payload[IndexOf(payload, BAR, 0, |payload|) + 1..]
  }

  lemma GrantedSpells(exp: nat, fpr: Bytes)
    requires exp <= MAX_TIME && Login.FprShape(fpr)
    ensures var b := SessionPayload(exp, fpr);
      LooksGranted(b) && Wellspelt(b) && CookieExp(b) == exp && CookieFpr(b) == fpr
  {
    var b, d := SessionPayload(exp, fpr), Decimal(exp);
    GrantedLooks(exp, fpr);
    DecimalPlain(exp);
    DecimalRoundTrip(exp);
    HexPlain(fpr);
    assert forall i :: 0 <= i < |d| ==> b[i] == d[i];
    IndexOfAt(b, BAR, 0, |d|, |b|);
    assert b[..|d|] == d && b[|d| + 1..] == fpr;
  }

  /** A payload validate_consume can accept: the marker, a time, a bar, a name, short enough to be signed with a tag. */
  predicate Consumable(b: Bytes) {
    MARKER <= b && Free(b, LF) && |b| + 65 < Login.PLAINTEXT_MAX
    && var k := ExpiryBar(b);
       k != -1 && ParseTime(b[3..k]) != -1 && Free(b[k + 1..], BAR)
  }

  function SpelledExp(b: Bytes): nat
    requires Consumable(b)
  {
    ParseTime(b[3..ExpiryBar(b)])
  }

  function SpelledName(b: Bytes): (name: Bytes)
    requires Consumable(b)
    ensures |name| <= NonceStore.MAX_NONCE
  {
    b[ExpiryBar(b) + 1..]
  }

  lemma {:induction false} DecimalShort(n: nat, k: nat, bound: nat)
    requires n < bound && bound == Power10(k) && k > 0
    ensures |Decimal(n)| <= k
  {
    if n >= 10 { DecimalShort(n / 10, k - 1, Power10(k - 1)); }
  }

  lemma TimeShort(n: nat)
    requires n <= MAX_TIME
    ensures |Decimal(n)| <= 19
  {
    assert Power10(19) == 10_000_000_000_000_000_000 by { PowersOfTen(); }
    DecimalShort(n, 19, Power10(19));
  }

  lemma PowersOfTen()
    ensures Power10(19) == 10_000_000_000_000_000_000
  {
    assert Power10(4) == 10_000;
    assert Power10(8) == 100_000_000;
    assert Power10(12) == 1_000_000_000_000;
    assert Power10(16) == 10_000_000_000_000_000;
  }

  lemma IssuedConsumable(exp: nat, nonce: Bytes)
    requires exp <= MAX_TIME && NonceShape(nonce)
    ensures var b := ChallengePayload(exp, nonce);
      Consumable(b) && SpelledExp(b) == exp && SpelledName(b) == nonce
  {
    DecimalPlain(exp);
    HexPlain(nonce);
    DecimalRoundTrip(exp);
    TimeShort(exp);
    ExpiryBarAt(Decimal(exp), nonce);
  }

  /** A line of payload and tag parses back into them. */
  lemma ConsumableParses(b: Bytes, tag: Bytes)
    requires Consumable(b) && IsTag(tag)
    ensures var k := ExpiryBar(b);
      ParseChallenge(b + [BAR] + tag) == Some(Parsed(b, b[3..k], b[k + 1..], tag))
  {
    var k, s := ExpiryBar(b), b + [BAR] + tag;
    var exp, name := b[3..k], b[k + 1..];
    assert b == MARKER + exp + [BAR] + name;
    AbsentFree(b, BAR, 3, k);
    HexPlain(tag);
    assert s[|s| - 1] == tag[63];
    assert Free(s, LF);
    assert LineEnd(s, 0) == |s|;
    assert s[0..|s|] == s;
    assert MarkerAt(s, 0);
    ParseAt(s, 0, |s|, exp, name, tag);
  }

  lemma ParsedSlices(s: Bytes, p: nat, s2: nat, s3: nat)
    requires p + 3 <= s2 < s3 <= |s| && s[s2] == BAR && Absent(s, BAR, p + 3, s2)
    requires MarkerAt(s, p)
    ensures var b := s[p..s3];
      && MARKER <= b && ExpiryBar(b) == s2 - p && b[3..s2 - p] == s[p + 3..s2] && b[s2 - p + 1..] == s[s2 + 1..s3]
  {
    var b := s[p..s3];
    assert b[..3] == MARKER;
    assert forall k :: 3 <= k < s2 - p ==> b[k] == s[p + k];
    IndexOfAt(b, BAR, 3, s2 - p, |b|);
    SubSlice(s, p, s3, 3, s2 - p);
    SubSlice(s, p, s3, s2 - p + 1, |b|);
  }

  /** Conversely a challenge with a tag and a readable expiry, found in any text, has such a payload. */
  lemma ParsedConsumable(s: Bytes)
    requires ParseChallenge(s).Some? && ParseTime(ParseChallenge(s).value.exp) != -1
    requires |s| < Login.PLAINTEXT_MAX && |ParseChallenge(s).value.tag| == 64
    ensures var t := ParseChallenge(s).value;
      Consumable(t.payload) && SpelledExp(t.payload) == ParseTime(t.exp) && SpelledName(t.payload) == t.name
  {
    var p, s2, s3 := ParsedPlaces(s);
    ParsedSlices(s, p, s2, s3);
    AbsentFree(s, LF, p, s3);
    AbsentFree(s, BAR, s2 + 1, s3);
  }

  // ---- who can be behind a MAC input ----

  /** Which keyring paths a location, and which addresses and User-Agents a client can have. */
  datatype Origins = Origins(path: Bytes -> bool, address: Bytes -> bool, agent: Bytes -> bool)

  /** Some location and client have these fields; an address or User-Agent that is not bound is empty. */
  ghost predicate Plausible(o: Origins, f: Fields) {
    && o.path(f.scope) && (f.ua == [] || o.agent(f.ua))
    && (o.address(f.ip) || (f.ip == [] && exists a :: o.address(a)))
  }

  // ---- other sessions with the same MAC input ----

  /** A session printed with expiry `exp` can exist before a cookie that says `e` expires (0: never). */
  predicate Overlap(e: int, exp: int) { e == 0 || exp == 0 || exp <= e + Config.MAX_SESSION }

  /** Cutting at k and j reads the payload of a session that could have been granted, in fields other than f. */
  ghost predicate OtherSessionAt(o: Origins, ps: seq<Bytes>, f: Fields, k: int, j: int)
    requires Wellspelt(f.data)
  {
    && 2 <= k && k + 1 < j < |ps| && LooksGranted(ps[k])
    && (var g := Cut(ps, k, k + 1, j); g != f && Plausible(o, g))
    && Overlap(CookieExp(f.data), ParseTime(ps[k][..IndexOf(ps[k], BAR, 0, |ps[k]|)]))
  }

  /** A cookie with this MAC input is not refused on sight and can also be read as another session. */
  ghost predicate OtherSession(o: Origins, f: Fields) {
    Wellspelt(f.data)
    && exists k, j :: 0 <= k < |Pieces(f)| && 0 <= j < |Pieces(f)| && OtherSessionAt(o, Pieces(f), f, k, j)
  }

  lemma OtherSessionReads(o: Origins, f: Fields) returns (g: Fields, exp: nat, fpr: Bytes)
    requires f.kind == SESS && OtherSession(o, f)
    ensures g.kind == SESS && g != f && Frame(g) == Frame(f) && Plausible(o, g)
    ensures exp <= MAX_TIME && Login.FprShape(fpr) && g.data == SessionPayload(exp, fpr)
    ensures Overlap(CookieExp(f.data), exp)
  {
    var k, j :| OtherSessionAt(o, Pieces(f), f, k, j);
    g, exp, fpr := SessionCut(o, f, k, j);
  }

  lemma SessionCut(o: Origins, f: Fields, k: int, j: int) returns (g: Fields, exp: nat, fpr: Bytes)
    requires f.kind == SESS && Wellspelt(f.data) && OtherSessionAt(o, Pieces(f), f, k, j)
    ensures g.kind == SESS && g != f && Frame(g) == Frame(f) && Plausible(o, g)
    ensures exp <= MAX_TIME && Login.FprShape(fpr) && g.data == SessionPayload(exp, fpr)
    ensures Overlap(CookieExp(f.data), exp)
  {
    g := Cut(Pieces(f), k, k + 1, j);
    CutFrame(f, k, k + 1, j);
    OnePieceJoin(Pieces(f), k);
    KindPiece(f);
    exp, fpr := LooksGrantedParts(g.data);
    GrantedSpells(exp, fpr);
  }

  /** Conversely every other session with the same frame is found. */
  lemma OtherSessionIsCut(o: Origins, f: Fields, g: Fields, exp: nat, fpr: Bytes)
    requires Frame(g) == Frame(f) && g != f && g.kind == SESS && Plausible(o, g) && Wellspelt(f.data)
    requires exp <= MAX_TIME && Login.FprShape(fpr) && g.data == SessionPayload(exp, fpr)
    requires Overlap(CookieExp(f.data), exp)
    ensures OtherSession(o, f)
  {
    DecimalPlain(exp);
    HexPlain(fpr);
    GrantedSpells(exp, fpr);
    var k, m, j := ReadingIsCut(f, g);
    OnePieceJoin(Pieces(f), k);
    assert OtherSessionAt(o, Pieces(f), f, k, j);
  }

  /** Separator-free fields have no other reading. */
  lemma SepFreeNoOther(o: Origins, f: Fields)
    requires f.kind == SESS && SepFree(f)
    ensures !OtherSession(o, f)
  {
    if OtherSession(o, f) {
      var g, exp, fpr := OtherSessionReads(o, f);
      FrameInjective(f, g);
    }
  }

  // ---- other challenges with the same MAC input ----

  /** The last instant at which a challenge with this expiry is consumed; Redis refuses the expiry second. */
  function Until(storage: NonceStore.Storage, exp: int): int {
    if storage == NonceStore.RedisStore then exp - 1 else exp
  }

  ghost predicate OtherChallengeAt(o: Origins, ps: seq<Bytes>, f: Fields, last: int, k: int, j: int) {
    && 2 <= k && k + 1 < j < |ps| && LooksIssued(ps[k])
    && (var g := Cut(ps, k, k + 1, j); g != f && Plausible(o, g))
    && Config.MIN_CHALLENGE <= IssuedExp(ps[k]) <= last + Config.MAX_CHALLENGE
  }

  /** A challenge with this MAC input can be consumed and can also be read as another one issued before that. */
  ghost predicate OtherChallenge(o: Origins, storage: NonceStore.Storage, f: Fields) {
    Consumable(f.data)
    && var last := Until(storage, SpelledExp(f.data));
       last >= 0 && exists k, j :: 0 <= k < |Pieces(f)| && 0 <= j < |Pieces(f)|
                                   && OtherChallengeAt(o, Pieces(f), f, last, k, j)
  }

  lemma OtherChallengeReads(o: Origins, storage: NonceStore.Storage, f: Fields)
    returns (g: Fields, exp: nat, nonce: Bytes)
    requires f.kind == CHAL && OtherChallenge(o, storage, f)
    ensures g.kind == CHAL && g != f && Frame(g) == Frame(f) && Plausible(o, g)
    ensures exp <= MAX_TIME && NonceShape(nonce) && g.data == ChallengePayload(exp, nonce)
    ensures Config.MIN_CHALLENGE <= exp <= Until(storage, SpelledExp(f.data)) + Config.MAX_CHALLENGE
    ensures Until(storage, SpelledExp(f.data)) >= 0
  {
    var last := Until(storage, SpelledExp(f.data));
    var k, j :| OtherChallengeAt(o, Pieces(f), f, last, k, j);
    g, exp, nonce := ChallengeCut(o, f, last, k, j);
  }

  lemma ChallengeCut(o: Origins, f: Fields, last: int, k: int, j: int)
    returns (g: Fields, exp: nat, nonce: Bytes)
    requires f.kind == CHAL && OtherChallengeAt(o, Pieces(f), f, last, k, j)
    ensures g.kind == CHAL && g != f && Frame(g) == Frame(f) && Plausible(o, g)
    ensures exp <= MAX_TIME && NonceShape(nonce) && g.data == ChallengePayload(exp, nonce)
    ensures Config.MIN_CHALLENGE <= exp <= last + Config.MAX_CHALLENGE
  {
    g := Cut(Pieces(f), k, k + 1, j);
    CutFrame(f, k, k + 1, j);
    OnePieceJoin(Pieces(f), k);
    KindPiece(f);
    exp, nonce := LooksIssuedParts(g.data);
  }

  lemma OtherChallengeIsCut(o: Origins, storage: NonceStore.Storage, f: Fields, g: Fields, exp: nat, nonce: Bytes)
    requires Frame(g) == Frame(f) && g != f && g.kind == CHAL && Plausible(o, g) && Consumable(f.data)
    requires exp <= MAX_TIME && NonceShape(nonce) && g.data == ChallengePayload(exp, nonce)
    requires Config.MIN_CHALLENGE <= exp <= Until(storage, SpelledExp(f.data)) + Config.MAX_CHALLENGE
    requires Until(storage, SpelledExp(f.data)) >= 0
    ensures OtherChallenge(o, storage, f)
  {
    DecimalPlain(exp);
    HexPlain(nonce);
    IssuedLooks(exp, nonce);
    var k, m, j := ReadingIsCut(f, g);
    OnePieceJoin(Pieces(f), k);
    assert OtherChallengeAt(o, Pieces(f), f, Until(storage, SpelledExp(f.data)), k, j);
  }

  lemma SepFreeNoOtherChallenge(o: Origins, storage: NonceStore.Storage, f: Fields)
    requires f.kind == CHAL && SepFree(f)
    ensures !OtherChallenge(o, storage, f)
  {
    if OtherChallenge(o, storage, f) {
      var g, exp, nonce := OtherChallengeReads(o, storage, f);
      FrameInjective(f, g);
    }
  }

  // ---- other uses of one challenge ----

  /** The latest instant, earlier than `before`, at which the challenge with payload b can be consumed. */
  function Latest(storage: NonceStore.Storage, b: Bytes, before: int): int
    requires Consumable(b)
  {
    var last := Until(storage, SpelledExp(b));
    if last < before then last else before - 1
  }

  /** The store can be asked about it then: a Redis command must fit its buffer. */
  predicate Askable(storage: NonceStore.Storage, b: Bytes, before: int)
    requires Consumable(b)
  {
    storage == NonceStore.RedisStore ==>
      NonceStore.SetFits([], SpelledName(b), SpelledExp(b) - Latest(storage, b, before))
  }

  /** A payload that can be consumed between at and exp under another name or an earlier expiry. */
  predicate SecondUse(storage: NonceStore.Storage, b: Bytes, at: int, exp: int, nonce: Bytes) {
    && Consumable(b) && at <= Until(storage, SpelledExp(b)) && Askable(storage, b, exp)
    && (SpelledName(b) != nonce || SpelledExp(b) < exp)
  }

  ghost predicate OtherUseAt(
    o: Origins, storage: NonceStore.Storage, ps: seq<Bytes>, at: int, exp: int, nonce: Bytes, k: int, m: int, j: int)
  {
    1 < k < m < j < |ps| && Plausible(o, Cut(ps, k, m, j)) && SecondUse(storage, Join(ps[k..m]), at, exp, nonce)
  }

  /** Some cut of the MAC input of a challenge reads such a payload. */
  ghost predicate OtherUse(o: Origins, storage: NonceStore.Storage, f: Fields, at: int, exp: int, nonce: Bytes) {
    exists k, m, j :: 0 <= k < |Pieces(f)| && 0 <= m < |Pieces(f)| && 0 <= j < |Pieces(f)|
      && OtherUseAt(o, storage, Pieces(f), at, exp, nonce, k, m, j)
  }

  lemma OtherUseIsCut(
    o: Origins, storage: NonceStore.Storage, f: Fields, g: Fields, at: int, exp: int, nonce: Bytes)
    requires g.kind == CHAL && Frame(g) == Frame(f) && Plausible(o, g) && SecondUse(storage, g.data, at, exp, nonce)
    ensures OtherUse(o, storage, f, at, exp, nonce)
  {
    var k, m, j := ReadingIsCut(f, g);
    assert OtherUseAt(o, storage, Pieces(f), at, exp, nonce, k, m, j);
  }

  lemma OtherUseReads(o: Origins, storage: NonceStore.Storage, f: Fields, at: int, exp: int, nonce: Bytes)
    returns (g: Fields)
    requires f.kind == CHAL && OtherUse(o, storage, f, at, exp, nonce)
    ensures g.kind == CHAL && Frame(g) == Frame(f) && Plausible(o, g) && SecondUse(storage, g.data, at, exp, nonce)
  {
    var k, m, j :| OtherUseAt(o, storage, Pieces(f), at, exp, nonce, k, m, j);
    g := UseCut(o, storage, f, at, exp, nonce, k, m, j);
  }

  lemma UseCut(
    o: Origins, storage: NonceStore.Storage, f: Fields, at: int, exp: int, nonce: Bytes, k: int, m: int, j: int)
    returns (g: Fields)
    requires f.kind == CHAL && OtherUseAt(o, storage, Pieces(f), at, exp, nonce, k, m, j)
    ensures g.kind == CHAL && Frame(g) == Frame(f) && Plausible(o, g) && SecondUse(storage, g.data, at, exp, nonce)
  {
    g := Cut(Pieces(f), k, m, j);
    CutFrame(f, k, m, j);
    KindPiece(f);
  }

  /** A challenge whose fields hold no separator has one use only. */
  lemma SepFreeNoOtherUse(o: Origins, storage: NonceStore.Storage, f: Fields, at: int, exp: nat, nonce: Bytes)
    requires f.kind == CHAL && SepFree(f) && f.data == ChallengePayload(exp, nonce)
    requires exp <= MAX_TIME && NonceShape(nonce)
    ensures !OtherUse(o, storage, f, at, exp, nonce)
  {
    if OtherUse(o, storage, f, at, exp, nonce) {
      var g := OtherUseReads(o, storage, f, at, exp, nonce);
      FrameInjective(f, g);
      IssuedConsumable(exp, nonce);
    }
  }
}
