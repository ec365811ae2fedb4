/** Byte strings and the small nginx string helpers the module is written with. */
module ByteStrings {

  /** One octet. A subset of `char`, so that string literals denote byte strings. */
  type byte = c: char | c < '\U{100}'

  type Bytes = seq<byte>

  datatype Option<+T> = None | Some(value: T)

  const LF: byte := '\n'
  const CR: byte := '\r'
  const NUL: byte := '\0'

  /** The largest value of a 64-bit time_t. */
  const MAX_TIME: int := 0x7FFF_FFFF_FFFF_FFFF

  predicate IsDigit(c: byte) { '0' <= c <= '9' }

  predicate IsHex(c: byte) { IsDigit(c) || 'a' <= c <= 'f' || 'A' <= c <= 'F' }

  predicate AllHex(s: Bytes) { forall i :: 0 <= i < |s| ==> IsHex(s[i]) }

  predicate Free(s: Bytes, c: byte) { c !in s }

  /** ngx_tolower */
  function ToLower(c: byte): byte {
    if 'A' <= c <= 'Z' then (c as int + 32) as char else c
  }

  /** No `c` at positions lo..hi. */
  predicate Absent(s: Bytes, c: byte, lo: nat, hi: nat)
    requires hi <= |s|
  {
    forall j :: lo <= j < hi ==> s[j] != c
  }

  /** ngx_strlchr(s + lo, s + hi, c): the first position of `c` in [lo, hi), or -1. */
  function IndexOf(s: Bytes, c: byte, lo: nat, hi: nat): (k: int)
    requires lo <= hi <= |s|
    ensures k == -1 || (lo <= k < hi && s[k] == c && Absent(s, c, lo, k))
    ensures k == -1 <==> Absent(s, c, lo, hi)
    decreases hi - lo
  {
    if lo == hi then -1 else if s[lo] == c then lo else IndexOf(s, c, lo + 1, hi)
  }

  /** The first occurrence is found at the end of a separator-free stretch. */
  lemma IndexOfAt(s: Bytes, c: byte, lo: nat, k: nat, hi: nat)
    requires lo <= k < hi <= |s| && s[k] == c && Absent(s, c, lo, k)
    ensures IndexOf(s, c, lo, hi) == k
  {
  }

  lemma AbsentFree(s: Bytes, c: byte, lo: nat, hi: nat)
    requires lo <= hi <= |s|
    ensures Absent(s, c, lo, hi) <==> Free(s[lo..hi], c)
  {
    assert forall j :: lo <= j < hi ==> s[j] == s[lo..hi][j - lo];
  }

  /** "%T": the decimal form of a non-negative time. */
  function Decimal(n: nat): (s: Bytes)
    ensures s != [] && forall i :: 0 <= i < |s| ==> IsDigit(s[i])
  {
    var d := [(n % 10 + '0' as int) as char];
    if n < 10 then d else Decimal(n / 10) + d
  }

  /** The value of a digit string, -1 once a byte is no digit or the value leaves time_t. */
  function DigitsValue(s: Bytes): (v: int)
    ensures -1 <= v <= MAX_TIME
  {
    if s == [] then 0
    else
      var v := DigitsValue(s[..|s| - 1]);
      var c := s[|s| - 1];
      if v < 0 || !IsDigit(c) then -1
      else
        var w := v * 10 + (c as int - '0' as int);
        if w > MAX_TIME then -1 else w
  }

  /** ngx_atotm: NGX_ERROR (-1) on the empty string, a non-digit, or overflow. */
  function ParseTime(s: Bytes): (v: int)
    ensures -1 <= v <= MAX_TIME
  {
    if s == [] then -1 else DigitsValue(s)
  }

  lemma {:induction false} DecimalRoundTrip(n: nat)
    requires n <= MAX_TIME
    ensures ParseTime(Decimal(n)) == n
  {
    var s := Decimal(n);
    if n < 10 {
      assert s[..|s| - 1] == [] && DigitsValue([]) == 0;
      assert DigitsValue(s) == n;
    } else {
      DecimalRoundTrip(n / 10);
      assert s[..|s| - 1] == Decimal(n / 10);
    }
  }

  /** The pieces of `s` between separator bytes, in order; never empty. */
  function Split(s: Bytes, seps: set<byte>): (r: seq<Bytes>)
    ensures r != []
  {
    if s == [] then [[]]
    else
      var rest := Split(s[1..], seps);
      if s[0] in seps then [[]] + rest else [[s[0]] + rest[0]] + rest[1..]
  }

  /** Splitting distributes over a separator. */
  lemma {:induction false} SplitAppend(a: Bytes, c: byte, b: Bytes, seps: set<byte>)
    requires c in seps
    ensures Split(a + [c] + b, seps) == Split(a, seps) + Split(b, seps)
  {
    var s := a + [c] + b;
    if a == [] {
      assert s == [c] + b;
      assert s[1..] == b;
    } else {
      assert s[0] == a[0] && s[1..] == a[1..] + [c] + b;
      SplitAppend(a[1..], c, b, seps);
    }
  }

  /** A separator-free string is one piece. */
  lemma {:induction false} SplitFree(s: Bytes, seps: set<byte>)
    requires forall i :: 0 <= i < |s| ==> s[i] !in seps
    ensures Split(s, seps) == [s]
  {
    if s != [] {
      SplitFree(s[1..], seps);
      assert s == [s[0]] + s[1..];
    }
  }

  // ---- what the small helpers mean ----

  lemma HexDigits(c: byte)
    ensures IsDigit(c) <==> c in "0123456789"
    ensures IsHex(c) <==> c in "0123456789abcdefABCDEF"
  {
    var digits, hex := "0123456789", "0123456789abcdefABCDEF";
    if IsDigit(c) { assert digits[c as int - 48] == c && hex[c as int - 48] == c; }
    if 'a' <= c <= 'f' { assert hex[c as int - 87] == c; }
    if 'A' <= c <= 'F' { assert hex[c as int - 49] == c; }
  }

  function Power10(k: nat): nat { if k == 0 then 1 else 10 * Power10(k - 1) }

  /** The number a digit string denotes, place by place. */
  function Number(s: Bytes): int {
    if s == [] then 0 else (s[0] as int - 48) * Power10(|s| - 1) + Number(s[1..])
  }

  lemma {:induction false} NumberSnoc(s: Bytes, c: byte)
    ensures Number(s + [c]) == 10 * Number(s) + (c as int - 48)
  {
    if s == [] {
      assert s + [c] == [c] && [c][1..] == [];
    } else {
      assert (s + [c])[1..] == s[1..] + [c] && (s + [c])[0] == s[0];
      NumberSnoc(s[1..], c);
      var d, p := s[0] as int - 48, Power10(|s| - 1);
      assert d * (10 * p) == 10 * (d * p);
    }
  }

  predicate AllDigits(s: Bytes) { forall i :: 0 <= i < |s| ==> IsDigit(s[i]) }

  lemma {:induction false} DigitsMean(s: Bytes)
    ensures DigitsValue(s) == if AllDigits(s) && Number(s) <= MAX_TIME then Number(s) else -1
    ensures AllDigits(s) ==> Number(s) >= 0
  {
    if s != [] {
      var init, c := s[..|s| - 1], s[|s| - 1];
      DigitsMean(init);
      assert s == init + [c];
      NumberSnoc(init, c);
      if i :| 0 <= i < |init| && !IsDigit(init[i]) { assert s[i] == init[i]; }
      assert AllDigits(s) <==> AllDigits(init) && IsDigit(c);
    }
  }

  /** ngx_atotm reads a non-empty string of digits up to the largest 64-bit time, and nothing else. */
  lemma ParseTimeMeans(s: Bytes)
    ensures ParseTime(s)
         == if s != [] && (forall i :: 0 <= i < |s| ==> s[i] in "0123456789") && Number(s) <= 9223372036854775807
            then Number(s) else -1
  {
    DigitsMean(s);
    forall i | 0 <= i < |s| ensures IsDigit(s[i]) <==> s[i] in "0123456789" { HexDigits(s[i]); }
  }
}
