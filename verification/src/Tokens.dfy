/** Challenges and sessions: MAC'd strings that are printed, found again, split and checked. */
module Tokens {
  import opened ByteStrings
  import opened Codes

  const SEP: byte := '\U{1E}'
  const BAR: byte := '|'
  const CHAL: Bytes := "chal"
  const SESS: Bytes := "sess"
  const MARKER: Bytes := "v1|"
  const NONCE_LEN := 32

  /** A nonce as ngx_hex_dump prints 16 random bytes. */
  predicate NonceShape(n: Bytes) {
    |n| == NONCE_LEN && forall i :: 0 <= i < |n| ==> IsDigit(n[i]) || 'a' <= n[i] <= 'f'
  }

  /** HMAC in hexadecimal, as a function of secret and message. */
  type Mac = (Bytes, Bytes) -> Bytes

  predicate IsTag(tag: Bytes) { |tag| == 64 && AllHex(tag) }

  ghost predicate MakesTags(mac: Mac) { forall k, m :: IsTag(mac(k, m)) }

  /** Everything a MAC covers. */
  datatype Fields = Fields(kind: Bytes, scope: Bytes, data: Bytes, ip: Bytes, ua: Bytes)

  /** hmac_raw's layout: the fields joined by 0x1e. */
  function Frame(f: Fields): Bytes {
    f.kind + [SEP] + f.scope + [SEP] + f.data + [SEP] + f.ip + [SEP] + f.ua
  }

  // ---- the framing ----

  /** A challenge input never equals a session input, whatever the other fields hold. */
  lemma KindsSeparate(f: Fields, g: Fields)
    requires f.kind == CHAL && g.kind == SESS
    ensures Frame(f) != Frame(g)
  {
    assert Frame(f)[0] == 'c' && Frame(g)[0] == 's';
  }

  predicate SepFree(f: Fields) {
    Free(f.kind, SEP) && Free(f.scope, SEP) && Free(f.data, SEP) && Free(f.ip, SEP) && Free(f.ua, SEP)
  }

  lemma FrameSplit(f: Fields)
    ensures Split(Frame(f), {SEP})
         == Split(f.kind, {SEP}) + Split(f.scope, {SEP}) + Split(f.data, {SEP}) + Split(f.ip, {SEP})
            + Split(f.ua, {SEP})
  {
    var a := f.kind + [SEP] + f.scope;
    var b := a + [SEP] + f.data;
    var c := b + [SEP] + f.ip;
    SplitAppend(f.kind, SEP, f.scope, {SEP});
    SplitAppend(a, SEP, f.data, {SEP});
    SplitAppend(b, SEP, f.ip, {SEP});
    SplitAppend(c, SEP, f.ua, {SEP});
  }

  lemma {:induction false} OnePiece(s: Bytes, seps: set<byte>)
    requires |Split(s, seps)| == 1
    ensures Split(s, seps) == [s]
  {
    if s != [] {
      OnePiece(s[1..], seps);
      assert s == [s[0]] + s[1..];
    }
  }

  lemma FivePieces(x: seq<Bytes>, a: seq<Bytes>, b: seq<Bytes>, c: seq<Bytes>, d: seq<Bytes>, e: seq<Bytes>)
    requires x == a + b + c + d + e && |x| == 5 && a != [] && b != [] && c != [] && d != [] && e != []
    ensures a == [x[0]] && b == [x[1]] && c == [x[2]] && d == [x[3]] && e == [x[4]]
  {
    assert |a| == |b| == |c| == |d| == |e| == 1;
    assert x[0] == a[0] && x[1] == b[0] && x[2] == c[0] && x[3] == d[0] && x[4] == e[0];
  }

  lemma SepFreeSplit(f: Fields)
    requires SepFree(f)
    ensures Split(Frame(f), {SEP}) == [f.kind, f.scope, f.data, f.ip, f.ua]
  {
    FrameSplit(f);
    SplitFree(f.kind, {SEP});
    SplitFree(f.scope, {SEP});
    SplitFree(f.data, {SEP});
    SplitFree(f.ip, {SEP});
    SplitFree(f.ua, {SEP});
  }

  /** A frame of separator-free fields is the frame of no other fields at all. */
  lemma FrameInjective(f: Fields, g: Fields)
    requires SepFree(f) && Frame(f) == Frame(g)
    ensures f == g
  {
    SepFreeSplit(f);
    FrameSplit(g);
    FivePieces(Split(Frame(f), {SEP}), Split(g.kind, {SEP}), Split(g.scope, {SEP}),
               Split(g.data, {SEP}), Split(g.ip, {SEP}), Split(g.ua, {SEP}));
    OnePiece(g.kind, {SEP});
    OnePiece(g.scope, {SEP});
    OnePiece(g.data, {SEP});
    OnePiece(g.ip, {SEP});
    OnePiece(g.ua, {SEP});
  }

  /** A byte string cut at one of its separators. */
  lemma CutAtSep(s: Bytes) returns (x: Bytes, y: Bytes)
    requires !Free(s, SEP)
    ensures s == x + [SEP] + y
  {
    var k :| 0 <= k < |s| && s[k] == SEP;
    x, y := s[..k], s[k + 1..];
  }

  lemma MoveUa(f: Fields, x: Bytes, y: Bytes)
    requires f.ua == x + [SEP] + y
    ensures Frame(f.(data := f.data + [SEP] + f.ip, ip := x, ua := y)) == Frame(f)
  {
  }

  lemma MoveIp(f: Fields, x: Bytes, y: Bytes)
    requires f.ip == x + [SEP] + y
    ensures Frame(f.(data := f.data + [SEP] + x, ip := y)) == Frame(f)
  {
  }

  lemma MoveData(f: Fields, x: Bytes, y: Bytes)
    requires f.data == x + [SEP] + y
    ensures Frame(f.(scope := f.scope + [SEP] + x, data := y)) == Frame(f)
  {
  }

  lemma MoveScope(f: Fields, x: Bytes, y: Bytes)
    requires f.scope == x + [SEP] + y
    ensures Frame(f.(scope := x, data := y + [SEP] + f.data)) == Frame(f)
  {
  }

  /** Other fields with the same frame, made by moving a boundary to a separator inside a field. */
  lemma FrameAmbiguous(f: Fields) returns (g: Fields)
    requires !SepFree(f) && Free(f.kind, SEP)
    ensures Frame(g) == Frame(f) && g != f
  {
    var x, y;
    if !Free(f.ua, SEP) {
      x, y := CutAtSep(f.ua);
      g := f.(data := f.data + [SEP] + f.ip, ip := x, ua := y);
      MoveUa(f, x, y);
      assert |g.ua| < |f.ua|;
    } else if !Free(f.ip, SEP) {
      x, y := CutAtSep(f.ip);
      g := f.(data := f.data + [SEP] + x, ip := y);
      MoveIp(f, x, y);
      assert |g.ip| < |f.ip|;
    } else if !Free(f.data, SEP) {
      x, y := CutAtSep(f.data);
      g := f.(scope := f.scope + [SEP] + x, data := y);
      MoveData(f, x, y);
      assert |g.data| < |f.data|;
    } else {
      x, y := CutAtSep(f.scope);
      g := f.(scope := x, data := y + [SEP] + f.data);
      MoveScope(f, x, y);
      assert |g.scope| < |f.scope|;
    }
  }

  /** The framing pins down the fields of an issued token exactly when none of them holds the separator. */
  lemma FrameInjectiveExactly(f: Fields)
    requires Free(f.kind, SEP)
    ensures (forall g :: Frame(g) == Frame(f) ==> g == f) <==> SepFree(f)
  {
    if SepFree(f) {
      forall g | Frame(g) == Frame(f) ensures g == f { FrameInjective(f, g); }
    } else {
      var g := FrameAmbiguous(f);
    }
  }

  // ---- secrets ----

  /** The current secret and, during a rotation, the previous one ([] = none). */
  datatype Secrets = Secrets(current: Bytes, previous: Bytes)

  predicate Accepts(s: Secrets, secret: Bytes) {
    secret == s.current || (s.previous != [] && secret == s.previous)
  }

  // ---- challenges ----

  function ChallengePayload(exp: nat, nonce: Bytes): Bytes { MARKER + Decimal(exp) + [BAR] + nonce }

  /** send_challenge's token: payload and tag. */
  function ChallengeText(exp: nat, nonce: Bytes, tag: Bytes): Bytes { ChallengePayload(exp, nonce) + [BAR] + tag }

  datatype Parsed = Parsed(payload: Bytes, exp: Bytes, name: Bytes, tag: Bytes)

  predicate MarkerAt(s: Bytes, p: nat) { p + 3 <= |s| && s[p] == 'v' && s[p + 1] == '1' && s[p + 2] == BAR }

  ghost predicate NoMarker(s: Bytes, end: nat) { forall p :: 0 <= p < end ==> !MarkerAt(s, p) }

  /** The end of the line starting at p, without a CR before it. */
  function LineEnd(s: Bytes, p: nat): (e: nat)
    requires p <= |s|
    ensures p <= e <= |s|
  {
    var lf := IndexOf(s, LF, p, |s|);
    var e := if lf == -1 then |s| else lf;
    if e > p && s[e - 1] == CR then e - 1 else e
  }

  /** The first three bars in p..e. */
  function Bars(s: Bytes, p: nat, e: nat): (r: Option<(nat, nat, nat)>)
    requires p <= e <= |s|
    ensures r.Some? ==> p <= r.value.0 < r.value.1 < r.value.2 < e
  {
    var s1 := IndexOf(s, BAR, p, e);
    if s1 == -1 then None
    else
      var s2 := IndexOf(s, BAR, s1 + 1, e);
      if s2 == -1 then None
      else
        var s3 := IndexOf(s, BAR, s2 + 1, e);
        if s3 == -1 then None else Some((s1, s2, s3))
  }

  /** Split the line at p into "v1", expiry, nonce and tag. */
  function SplitChallenge(s: Bytes, p: nat): Option<Parsed>
    requires p <= |s|
  {
    var e := LineEnd(s, p);
    match Bars(s, p, e)
    case None => None
    case Some((s1, s2, s3)) => Some(Parsed(s[p..s3], s[s1 + 1..s2], s[s2 + 1..s3], s[s3 + 1..e]))
  }

  /** The first marker at or after p. */
  function FirstMarker(s: Bytes, p: nat): (r: int)
    ensures r == -1 || (p <= r && MarkerAt(s, r))
    ensures forall k :: p <= k < |s| && (r == -1 || k < r) ==> !MarkerAt(s, k)
    decreases |s| - p
  {
    if p + 3 > |s| then -1 else if MarkerAt(s, p) then p else FirstMarker(s, p + 1)
  }

  function ParseChallenge(s: Bytes): Option<Parsed> {
    var p := FirstMarker(s, 0);
    if p == -1 then None else SplitChallenge(s, p)
  }

  /** The search loop of validate_consume. */
  method LocateChallenge(plain: Bytes) returns (r: Option<Parsed>)
    ensures r == ParseChallenge(plain)
  {
    var p := 0;
    while p + 3 <= |plain| && !MarkerAt(plain, p)
      invariant p <= |plain|
      invariant FirstMarker(plain, p) == FirstMarker(plain, 0)
    {
      p := p + 1;
    }
    if p + 3 > |plain| { return None; }
    return SplitChallenge(plain, p);
  }

  /** What may follow a challenge in the signed text. */
  predicate EndsLine(tail: Bytes) {
    tail == [] || tail[0] == LF || (tail[0] == CR && (|tail| == 1 || tail[1] == LF))
  }

  predicate Plain(s: Bytes) { Free(s, BAR) && Free(s, LF) && Free(s, CR) }

  lemma SliceAppend(a: Bytes, b: Bytes, c: Bytes)
    ensures (a + b + c)[|a|..|a| + |b|] == b
  {
  }

  /** The line holding the challenge ends right after its tag. */
  lemma ChallengeLine(before: Bytes, text: Bytes, tail: Bytes)
    requires Free(text, LF) && Free(text, CR) && text != [] && EndsLine(tail)
    ensures LineEnd(before + text + tail, |before|) == |before| + |text|
  {
    var s, p, e := before + text + tail, |before|, |before| + |text|;
    SliceAppend(before, text, tail);
    assert s[e - 1] == text[|text| - 1];
    assert s[e..] == tail;
    if tail == [] {
      assert s[p..|s|] == text;
    } else if tail[0] == LF {
      IndexOfAt(s, LF, p, e, |s|);
    } else {
      assert s[p..e + 1] == text + [CR];
      if |tail| == 1 {
        assert s[p..|s|] == text + [CR];
      } else {
        assert s[e + 1] == tail[1];
        IndexOfAt(s, LF, p, e + 1, |s|);
      }
    }
  }

  /** A marker cannot begin before the challenge when the text before it holds none. */
  lemma MarkerFound(before: Bytes, text: Bytes, tail: Bytes)
    requires NoMarker(before, |before|) && MARKER <= text
    ensures FirstMarker(before + text + tail, 0) == |before|
  {
    var s, p := before + text + tail, |before|;
    assert s[p] == 'v' && s[p + 1] == '1' && s[p + 2] == BAR;
    forall k | 0 <= k < p ensures !MarkerAt(s, k) {
      if k + 3 <= p { assert !MarkerAt(before, k); }
    }
    assert MarkerAt(s, p);
  }

  lemma SubSlice(s: Bytes, p: nat, e: nat, a: nat, b: nat)
    requires p <= e <= |s| && a <= b <= e - p
    ensures s[p..e][a..b] == s[p + a..p + b]
  {
    var line := s[p..e];
    forall k | 0 <= k < b - a ensures line[a..b][k] == s[p + a..p + b][k] { assert line[a + k] == s[p + a + k]; }
  }

  /** Bars at s1, s2, s3 and nowhere else before s3. */
  lemma BarsAt(s: Bytes, p: nat, s1: nat, s2: nat, s3: nat, e: nat)
    requires p <= s1 < s2 < s3 < e <= |s|
    requires s[s1] == s[s2] == s[s3] == BAR
    requires Absent(s, BAR, p, s1) && Absent(s, BAR, s1 + 1, s2) && Absent(s, BAR, s2 + 1, s3)
    ensures Bars(s, p, e) == Some((s1, s2, s3))
  {
    IndexOfAt(s, BAR, p, s1, e);
    IndexOfAt(s, BAR, s1 + 1, s2, e);
    IndexOfAt(s, BAR, s2 + 1, s3, e);
  }

  /** The places of the fields in a challenge. */
  lemma FieldPlaces(line: Bytes, exp: Bytes, nonce: Bytes, tag: Bytes)
    requires line == MARKER + exp + [BAR] + nonce + [BAR] + tag
    ensures var m, n := |exp| + 3, |exp| + |nonce| + 4;
      && |line| == n + 1 + |tag| && line[2] == line[m] == line[n] == BAR && line[0..2] == "v1"
      && line[3..m] == exp && line[m + 1..n] == nonce && line[n + 1..|line|] == tag
      && line[0..n] == MARKER + exp + [BAR] + nonce
  {
  }

  /** A challenge at p..e of a text, with m and n the offsets of its second and third bar. */
  predicate ChallengeAt(s: Bytes, p: nat, e: nat, exp: Bytes, nonce: Bytes, tag: Bytes, m: nat, n: nat) {
    && p + 3 <= p + m < p + n < e <= |s|
    && s[p + 2] == s[p + m] == s[p + n] == BAR && s[p..p + 2] == "v1"
    && s[p + 3..p + m] == exp && s[p + m + 1..p + n] == nonce && s[p + n + 1..e] == tag
    && s[p..p + n] == MARKER + exp + [BAR] + nonce
  }

  lemma FieldPlacesIn(s: Bytes, p: nat, e: nat, exp: Bytes, nonce: Bytes, tag: Bytes)
    requires p <= e <= |s| && s[p..e] == MARKER + exp + [BAR] + nonce + [BAR] + tag
    ensures ChallengeAt(s, p, e, exp, nonce, tag, |exp| + 3, |exp| + |nonce| + 4)
  {
    var line := s[p..e];
    var m, n := |exp| + 3, |exp| + |nonce| + 4;
    FieldPlaces(line, exp, nonce, tag);
    SubSlice(s, p, e, 0, 2);
    SubSlice(s, p, e, 0, n);
    SubSlice(s, p, e, 3, m);
    SubSlice(s, p, e, m + 1, n);
    SubSlice(s, p, e, n + 1, |line|);
    assert s[p + 2] == line[2] && s[p + m] == line[m] && s[p + n] == line[n];
  }

  lemma ChallengeBars(s: Bytes, p: nat, e: nat, exp: Bytes, nonce: Bytes, tag: Bytes, m: nat, n: nat)
    requires ChallengeAt(s, p, e, exp, nonce, tag, m, n) && Free(exp, BAR) && Free(nonce, BAR)
    ensures Bars(s, p, e) == Some((p + 2, p + m, p + n))
  {
    AbsentFree(s, BAR, p, p + 2);
    AbsentFree(s, BAR, p + 3, p + m);
    AbsentFree(s, BAR, p + m + 1, p + n);
    BarsAt(s, p, p + 2, p + m, p + n, e);
  }

  /** Splitting a line of exactly three bars. */
  lemma SplitFields(s: Bytes, p: nat, e: nat, exp: Bytes, nonce: Bytes, tag: Bytes, m: nat, n: nat)
    requires ChallengeAt(s, p, e, exp, nonce, tag, m, n) && LineEnd(s, p) == e
    requires Bars(s, p, e) == Some((p + 2, p + m, p + n))
    ensures SplitChallenge(s, p) == Some(Parsed(MARKER + exp + [BAR] + nonce, exp, nonce, tag))
  {
  }

  lemma SplitText(s: Bytes, p: nat, e: nat, exp: Bytes, nonce: Bytes, tag: Bytes, m: nat, n: nat)
    requires ChallengeAt(s, p, e, exp, nonce, tag, m, n) && LineEnd(s, p) == e && Free(exp, BAR) && Free(nonce, BAR)
    ensures SplitChallenge(s, p) == Some(Parsed(MARKER + exp + [BAR] + nonce, exp, nonce, tag))
  {
    ChallengeBars(s, p, e, exp, nonce, tag, m, n);
    SplitFields(s, p, e, exp, nonce, tag, m, n);
  }

  lemma ParseAt(s: Bytes, p: nat, e: nat, exp: Bytes, nonce: Bytes, tag: Bytes)
    requires FirstMarker(s, 0) == p && p <= e <= |s| && LineEnd(s, p) == e
    requires s[p..e] == MARKER + exp + [BAR] + nonce + [BAR] + tag && Free(exp, BAR) && Free(nonce, BAR)
    ensures ParseChallenge(s) == Some(Parsed(MARKER + exp + [BAR] + nonce, exp, nonce, tag))
  {
    FieldPlacesIn(s, p, e, exp, nonce, tag);
    SplitText(s, p, e, exp, nonce, tag, |exp| + 3, |exp| + |nonce| + 4);
  }

  /** Any challenge placed in signed text comes back as exactly its expiry, nonce and tag. */
  lemma ChallengeRoundTrip(before: Bytes, exp: nat, nonce: Bytes, tag: Bytes, tail: Bytes)
    requires NoMarker(before, |before|) && Plain(nonce) && Plain(tag) && EndsLine(tail)
    ensures ParseChallenge(before + ChallengeText(exp, nonce, tag) + tail)
         == Some(Parsed(ChallengePayload(exp, nonce), Decimal(exp), nonce, tag))
  {
    var text := ChallengeText(exp, nonce, tag);
    DecimalPlain(exp);
    assert MARKER <= text by { assert text[..3] == MARKER; }
    assert Free(text, LF) && Free(text, CR) by { ChallengeOneLine(exp, nonce, tag); }
    MarkerFound(before, text, tail);
    ChallengeLine(before, text, tail);
    SliceAppend(before, text, tail);
    ParseAt(before + text + tail, |before|, |before| + |text|, Decimal(exp), nonce, tag);
  }

  lemma DecimalPlain(n: nat)
    ensures Plain(Decimal(n)) && Free(Decimal(n), SEP)
  {
    var d := Decimal(n);
    assert forall c :: c in d ==> IsDigit(c);
  }

  lemma ChallengeOneLine(exp: nat, nonce: Bytes, tag: Bytes)
    requires Plain(nonce) && Plain(tag)
    ensures Free(ChallengeText(exp, nonce, tag), LF) && Free(ChallengeText(exp, nonce, tag), CR)
  {
    DecimalPlain(exp);
  }

  lemma HexPlain(s: Bytes)
    requires AllHex(s)
    ensures Plain(s) && Free(s, SEP)
  {
    assert forall c :: c in s ==> IsHex(c);
  }

  lemma PayloadBars(payload: Bytes, exp: Bytes, nonce: Bytes)
    requires payload == MARKER + exp + [BAR] + nonce && Free(exp, BAR)
    ensures |payload| == 4 + |exp| + |nonce| && payload[3 + |exp|] == BAR && Absent(payload, BAR, 3, 3 + |exp|)
    ensures payload[3..3 + |exp|] == exp && payload[4 + |exp|..|payload|] == nonce
  {
    assert forall k :: 3 <= k < 3 + |exp| ==> payload[k] == exp[k - 3];
  }

  /** The first bar of a challenge line is the marker's. */
  lemma MarkerBar(s: Bytes, p: nat, e: nat)
    requires p <= e <= |s| && MarkerAt(s, p) && Bars(s, p, e).Some?
    ensures var (s1, s2, s3) := Bars(s, p, e).value;
      s1 == p + 2 && s[s2] == BAR && Absent(s, BAR, p + 3, s2) && Absent(s, BAR, s2 + 1, s3)
  {
  }

  lemma LineHasNoLf(s: Bytes, p: nat)
    requires p <= |s|
    ensures Absent(s, LF, p, LineEnd(s, p))
  {
  }

  /** Where the parts of a parsed challenge come from. */
  lemma ParsedPlaces(s: Bytes) returns (p: nat, s2: nat, s3: nat)
    requires ParseChallenge(s).Some?
    ensures p + 3 <= s2 < s3 <= |s| && MarkerAt(s, p) && s[s2] == BAR
    ensures Absent(s, BAR, p + 3, s2) && Absent(s, BAR, s2 + 1, s3) && Absent(s, LF, p, s3)
    ensures s3 + 1 + |ParseChallenge(s).value.tag| <= |s|
    ensures var t := ParseChallenge(s).value; t.payload == s[p..s3] && t.exp == s[p + 3..s2] && t.name == s[s2 + 1..s3]
  {
    p := FirstMarker(s, 0);
    var e := LineEnd(s, p);
    var bars := Bars(s, p, e).value;
    s2, s3 := bars.1, bars.2;
    MarkerBar(s, p, e);
    LineHasNoLf(s, p);
  }

  /** What a challenge found in a text says is what its payload spells out. */
  lemma ChallengePayloadSpelled(s: Bytes, exp: nat, nonce: Bytes)
    requires ParseChallenge(s).Some? && ParseChallenge(s).value.payload == ChallengePayload(exp, nonce)
    ensures ParseChallenge(s).value.exp == Decimal(exp) && ParseChallenge(s).value.name == nonce
  {
    var p, s2, s3 := ParsedPlaces(s);
    BarPlace(s, p, s2, s3, Decimal(exp), nonce);
  }

  lemma BarPlace(s: Bytes, p: nat, s2: nat, s3: nat, exp: Bytes, nonce: Bytes)
    requires p + 3 <= s2 < s3 <= |s| && s[s2] == BAR && Absent(s, BAR, p + 3, s2)
    requires s[p..s3] == MARKER + exp + [BAR] + nonce && forall i :: 0 <= i < |exp| ==> IsDigit(exp[i])
    ensures s[p + 3..s2] == exp && s[s2 + 1..s3] == nonce
  {
    var payload := s[p..s3];
    PayloadBars(payload, exp, nonce);
    assert payload[s2 - p] == BAR;
    assert s[p + 3 + |exp|] == payload[3 + |exp|];
    assert forall k :: 3 <= k < s2 - p ==> payload[k] == s[p + k];
    assert s2 == p + 3 + |exp|;
    SubSlice(s, p, s3, 3, 3 + |exp|);
    SubSlice(s, p, s3, 4 + |exp|, |payload|);
  }

  /** Whether each HMAC computation succeeds. */
  datatype Hmac = Hmac(current: bool, previous: bool)

  datatype Verdict = Refused(code: Code) | Admitted(exp: int, nonce: Bytes)

  /** The tag check, with its retry against the previous secret. */
  predicate TagOk(mac: Mac, s: Secrets, f: Fields, tag: Bytes, h: Hmac) {
    tag == mac(s.current, Frame(f)) || (s.previous != [] && h.previous && tag == mac(s.previous, Frame(f)))
  }

  function ChallengeFields(scope: Bytes, ip: Bytes, ua: Bytes, payload: Bytes): Fields {
    Fields(CHAL, scope, payload, ip, ua)
  }

  /** validate_consume up to the single-use store. */
  function CheckChallenge(
    mac: Mac, s: Secrets, scope: Bytes, ip: Bytes, ua: Bytes, plain: Bytes, now: int, h: Hmac): Verdict
  {
    match ParseChallenge(plain)
    case None => Refused(Declined)
    case Some(t) =>
      if !h.current then Refused(Error)
      else if !TagOk(mac, s, ChallengeFields(scope, ip, ua, t.payload), t.tag, h) then Refused(Declined)
      else
        var exp := ParseTime(t.exp);
        if exp == -1 || exp < now then Refused(Declined) else Admitted(exp, t.name)
  }

  /** An issued challenge is admitted, under the same binding and either secret, exactly while now <= exp. */
  lemma IssuedChallengeAdmittedExactly(
    mac: Mac, s: Secrets, secret: Bytes, scope: Bytes, ip: Bytes, ua: Bytes,
    before: Bytes, exp: nat, nonce: Bytes, tail: Bytes, now: int)
    requires MakesTags(mac) && Accepts(s, secret) && exp <= MAX_TIME
    requires NoMarker(before, |before|) && AllHex(nonce) && EndsLine(tail)
    ensures
      var tag := mac(secret, Frame(ChallengeFields(scope, ip, ua, ChallengePayload(exp, nonce))));
      CheckChallenge(mac, s, scope, ip, ua, before + ChallengeText(exp, nonce, tag) + tail, now, Hmac(true, true))
      == if now <= exp then Admitted(exp, nonce) else Refused(Declined)
  {
    var tag := mac(secret, Frame(ChallengeFields(scope, ip, ua, ChallengePayload(exp, nonce))));
    assert IsTag(tag);
    HexPlain(nonce);
    HexPlain(tag);
    ChallengeRoundTrip(before, exp, nonce, tag, tail);
    DecimalRoundTrip(exp);
  }

  // ---- sessions ----

  function SessionPayload(exp: nat, fpr: Bytes): Bytes { Decimal(exp) + [BAR] + fpr }

  function CookieText(exp: nat, fpr: Bytes, tag: Bytes): Bytes { SessionPayload(exp, fpr) + [BAR] + tag }

  /** check_session's split: "<exp>|<fpr>|<mac>". */
  function ParseCookie(c: Bytes): Option<Parsed> {
    var s1 := IndexOf(c, BAR, 0, |c|);
    if s1 == -1 then None
    else
      var s2 := IndexOf(c, BAR, s1 + 1, |c|);
      if s2 == -1 then None
      else Some(Parsed(c[..s2], c[..s1], c[s1 + 1..s2], c[s2 + 1..]))
  }

  /** A granted cookie splits back into its expiry and fingerprint. */
  lemma CookieRoundTrip(exp: nat, fpr: Bytes, tag: Bytes)
    requires Free(fpr, BAR)
    ensures ParseCookie(CookieText(exp, fpr, tag)) == Some(Parsed(SessionPayload(exp, fpr), Decimal(exp), fpr, tag))
  {
    var c, d := CookieText(exp, fpr, tag), Decimal(exp);
    var s1, s2 := |d|, |d| + 1 + |fpr|;
    DecimalPlain(exp);
    assert c[0..s1] == d;
    IndexOfAt(c, BAR, 0, s1, |c|);
    assert c[s1 + 1..s2] == fpr;
    IndexOfAt(c, BAR, s1 + 1, s2, |c|);
    assert c[..s2] == SessionPayload(exp, fpr) && c[..s1] == d && c[s2 + 1..] == tag;
  }

  function SessionFields(scope: Bytes, ip: Bytes, ua: Bytes, payload: Bytes): Fields {
    Fields(SESS, scope, payload, ip, ua)
  }

  /** check_session on a presented cookie; `revoked` is the revocation verdict for its fingerprint. */
  predicate SessionOk(
    mac: Mac, s: Secrets, scope: Bytes, ip: Bytes, ua: Bytes, cookie: Bytes, now: int, h: Hmac,
    revoked: Bytes -> bool)
  {
    match ParseCookie(cookie)
    case None => false
    case Some(t) =>
      && h.current && TagOk(mac, s, SessionFields(scope, ip, ua, t.payload), t.tag, h)
      && (ParseTime(t.exp) == 0 || now <= ParseTime(t.exp))
      && !revoked(t.name)
  }

  /** A granted session is honoured, under the same binding and either secret, exactly while unexpired and unrevoked. */
  lemma GrantedSessionHonouredExactly(
    mac: Mac, s: Secrets, secret: Bytes, scope: Bytes, ip: Bytes, ua: Bytes,
    exp: nat, fpr: Bytes, now: int, revoked: Bytes -> bool)
    requires Accepts(s, secret) && exp <= MAX_TIME && Free(fpr, BAR)
    ensures
      var tag := mac(secret, Frame(SessionFields(scope, ip, ua, SessionPayload(exp, fpr))));
      SessionOk(mac, s, scope, ip, ua, CookieText(exp, fpr, tag), now, Hmac(true, true), revoked)
      <==> (exp == 0 || now <= exp) && !revoked(fpr)
  {
    CookieRoundTrip(exp, fpr, mac(secret, Frame(SessionFields(scope, ip, ua, SessionPayload(exp, fpr)))));
    DecimalRoundTrip(exp);
  }

  // ---- the formats, spelled out ----

  /** A challenge, and the bytes its MAC is computed over. */
  lemma ChallengeLayout(scope: Bytes, ip: Bytes, ua: Bytes, exp: nat, nonce: Bytes, tag: Bytes)
    ensures Frame(ChallengeFields(scope, ip, ua, ChallengePayload(exp, nonce)))
         == "chal\U{1E}" + scope + "\U{1E}v1|" + Decimal(exp) + "|" + nonce + "\U{1E}" + ip + "\U{1E}" + ua
    ensures ChallengeText(exp, nonce, tag) == "v1|" + Decimal(exp) + "|" + nonce + "|" + tag
  {
    var data := "v1|" + Decimal(exp) + "|" + nonce;
    assert ChallengePayload(exp, nonce) == data;
    assert "chal\U{1E}" + scope + "\U{1E}" + data == "chal\U{1E}" + scope + "\U{1E}v1|" + Decimal(exp) + "|" + nonce;
  }

  /** A session cookie, and the bytes its MAC is computed over. */
  lemma SessionLayout(scope: Bytes, ip: Bytes, ua: Bytes, exp: nat, fpr: Bytes, tag: Bytes)
    ensures Frame(SessionFields(scope, ip, ua, SessionPayload(exp, fpr)))
         == "sess\U{1E}" + scope + "\U{1E}" + Decimal(exp) + "|" + fpr + "\U{1E}" + ip + "\U{1E}" + ua
    ensures CookieText(exp, fpr, tag) == Decimal(exp) + "|" + fpr + "|" + tag
  {
    assert SessionPayload(exp, fpr) == Decimal(exp) + "|" + fpr;
  }

  lemma MarkerMeans(s: Bytes, p: nat)
    ensures MarkerAt(s, p) <==> p + 3 <= |s| && s[p..p + 3] == "v1|"
  {
  }

  /** The tag is right under the current secret, or under a previous one that is set and could be tried. */
  predicate RightTag(mac: Mac, s: Secrets, message: Bytes, tag: Bytes, h: Hmac) {
    (s.previous != [] && h.previous && mac(s.previous, message) == tag) || mac(s.current, message) == tag
  }

  /** Everything that can be wrong with a presented cookie, and nothing else, refuses it. */
  lemma SessionRefusedExactly(
    mac: Mac, s: Secrets, scope: Bytes, ip: Bytes, ua: Bytes, exp: Bytes, fpr: Bytes, tag: Bytes, now: nat, h: Hmac,
    revoked: Bytes -> bool)
    requires Free(exp, BAR) && Free(fpr, BAR)
    ensures SessionOk(mac, s, scope, ip, ua, exp + "|" + fpr + "|" + tag, now, h, revoked) <==>
      && h.current
      && RightTag(mac, s, "sess\U{1E}" + scope + "\U{1E}" + exp + "|" + fpr + "\U{1E}" + ip + "\U{1E}" + ua, tag, h)
      && ParseTime(exp) != -1 && (ParseTime(exp) == 0 || now <= ParseTime(exp)) && !revoked(fpr)
  {
    var c := exp + "|" + fpr + "|" + tag;
    CookieParts(exp, fpr, tag);
    assert Frame(SessionFields(scope, ip, ua, exp + "|" + fpr))
        == "sess\U{1E}" + scope + "\U{1E}" + exp + "|" + fpr + "\U{1E}" + ip + "\U{1E}" + ua;
  }

  lemma CookieParts(exp: Bytes, fpr: Bytes, tag: Bytes)
    requires Free(exp, BAR) && Free(fpr, BAR)
    ensures ParseCookie(exp + "|" + fpr + "|" + tag) == Some(Parsed(exp + "|" + fpr, exp, fpr, tag))
  {
    var c, s1, s2 := exp + "|" + fpr + "|" + tag, |exp|, |exp| + 1 + |fpr|;
    assert c[0..s1] == exp && c[s1 + 1..s2] == fpr;
    AbsentFree(c, BAR, 0, s1);
    AbsentFree(c, BAR, s1 + 1, s2);
    IndexOfAt(c, BAR, 0, s1, |c|);
    IndexOfAt(c, BAR, s1 + 1, s2, |c|);
    assert c[..s2] == exp + "|" + fpr && c[..s1] == exp && c[s2 + 1..] == tag;
  }

  /** A cookie with fewer than two bars is refused. */
  lemma TooFewBars(a: Bytes, b: Bytes)
    requires Free(a, BAR) && Free(b, BAR)
    ensures ParseCookie(a).None? && ParseCookie(a + "|" + b).None?
  {
    var c := a + "|" + b;
    assert a[0..|a|] == a && c[0..|a|] == a && c[|a| + 1..|c|] == b;
    AbsentFree(a, BAR, 0, |a|);
    AbsentFree(c, BAR, 0, |a|);
    AbsentFree(c, BAR, |a| + 1, |c|);
    IndexOfAt(c, BAR, 0, |a|, |c|);
  }
}
