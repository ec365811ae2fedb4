/** The in-place decoder of the "signed=..." form field. */
module Form {
  import opened ByteStrings

  const FIELD: Bytes := "signed="

  /** ngx_hextoi on one byte, -1 if it is no hexadecimal digit. */
  function HexValue(c: byte): (v: int)
    ensures -1 <= v < 16 && (v >= 0 <==> IsHex(c))
  {
    if IsDigit(c) then c as int - '0' as int
    else if 'a' <= c <= 'f' then c as int - 'a' as int + 10
    else if 'A' <= c <= 'F' then c as int - 'A' as int + 10
    else -1
  }

  /** '%' with two hexadecimal digits after it. */
  predicate Escape(s: Bytes) {
    |s| > 2 && s[0] == '%' && IsHex(s[1]) && IsHex(s[2])
  }

  function EscapeByte(hi: byte, lo: byte): byte
    requires IsHex(hi) && IsHex(lo)
  {
    (HexValue(hi) * 16 + HexValue(lo)) as char
  }

  /** The decoded value of the field whose raw text starts at s. */
  function Decode(s: Bytes): Bytes {
    if s == [] || s[0] == '&' then []
    else if s[0] == '+' then " " + Decode(s[1..])
    else if Escape(s) then [EscapeByte(s[1], s[2])] + Decode(s[3..])
    else [s[0]] + Decode(s[1..])
  }

  /** The byte written for the input at s, and how much input it stands for. */
  function NextByte(s: Bytes): (r: (byte, nat))
    requires s != [] && s[0] != '&'
    ensures 1 <= r.1 <= |s|
  {
    if s[0] == '+' then (' ', 1)
    else if Escape(s) then (EscapeByte(s[1], s[2]), 3)
    else (s[0], 1)
  }

  /** One turn of the decoding loop, reading the buffer at src. */
  method ReadByte(body: array<byte>, src: nat) returns (b: byte, step: nat)
    requires src < body.Length && body[src] != '&'
    ensures (b, step) == NextByte(body[src..])
  {
    assert body[src..][0] == body[src];
    if body[src] == '+' {
      return ' ', 1;
    } else if body[src] == '%' && src + 2 < body.Length {
      assert body[src..][1] == body[src + 1] && body[src..][2] == body[src + 2];
      var hi, lo := HexValue(body[src + 1]), HexValue(body[src + 2]);
      if hi != -1 && lo != -1 {
        return (hi * 16 + lo) as char, 3;
      }
    }
    return body[src], 1;
  }

  /**
   * The state of the loop, on the buffer as a sequence: what is decoded so far
   * and the decoding of the unread original together are the value.
   */
  ghost predicate Decoding(buf: Bytes, orig: Bytes, start: nat, src: nat, dst: nat, value: Bytes) {
    && |buf| == |orig| && start <= dst <= src <= |buf|
    && buf[..start] == orig[..start] && buf[dst..] == orig[dst..]
    && buf[start..dst] + Decode(orig[src..]) == value
  }

  /** What writing one byte behind the read position leaves. */
  lemma WriteSlices(buf: Bytes, orig: Bytes, start: nat, dst: nat, b: byte)
    requires start <= dst < |buf| == |orig| && buf[dst..] == orig[dst..]
    ensures var next := buf[dst := b];
      && next[..start] == buf[..start] && next[start..dst + 1] == buf[start..dst] + [b]
      && next[dst + 1..] == orig[dst + 1..]
  {
    var next := buf[dst := b];
    assert next[dst + 1..] == buf[dst..][1..] && orig[dst + 1..] == orig[dst..][1..];
  }

  lemma DecodingTurn(buf: Bytes, orig: Bytes, start: nat, src: nat, dst: nat, value: Bytes)
    requires Decoding(buf, orig, start, src, dst, value) && src < |buf| && buf[src] != '&'
    ensures var (b, step) := NextByte(buf[src..]);
      src + step <= |buf| && Decoding(buf[dst := b], orig, start, src + step, dst + 1, value)
  {
    var (b, step) := NextByte(buf[src..]);
    assert buf[src..] == buf[dst..][src - dst..] && orig[src..] == orig[dst..][src - dst..];
    assert orig[src..][step..] == orig[src + step..];
    WriteSlices(buf, orig, start, dst, b);
    assert Decode(orig[src..]) == [b] + Decode(orig[src + step..]);
  }

  lemma DecodingEnds(buf: Bytes, orig: Bytes, start: nat, src: nat, dst: nat, value: Bytes)
    requires Decoding(buf, orig, start, src, dst, value) && (src == |buf| || buf[src] == '&')
    ensures buf[start..dst] == value
  {
    assert src < |buf| ==> orig[src] == orig[dst..][src - dst] == buf[dst..][src - dst];
  }

  /** One turn: the byte read at src goes to dst, which never passes src. */
  method DecodeTurn(body: array<byte>, ghost orig: Bytes, start: nat, src: nat, dst: nat, ghost value: Bytes)
    returns (src': nat, dst': nat)
    requires Decoding(body[..], orig, start, src, dst, value) && src < body.Length && body[src] != '&'
    modifies body
    ensures src < src' && dst' == dst + 1 && Decoding(body[..], orig, start, src', dst', value)
  {
    ghost var buf := body[..];
    var b, step := ReadByte(body, src);
    assert body[src..] == buf[src..];
    DecodingTurn(buf, orig, start, src, dst, value);
    body[dst] := b;
    assert body[..] == buf[dst := b];
    return src + step, dst + 1;
  }

  /** form_field's loop: source and destination share the buffer, and no byte is overwritten before it is read. */
  method DecodeLoop(body: array<byte>, start: nat, ghost value: Bytes) returns (src: nat, dst: nat)
    requires start <= body.Length && value == Decode(body[..][start..])
    modifies body
    ensures Decoding(body[..], old(body[..]), start, src, dst, value) && (src == body.Length || body[src] == '&')
  {
    ghost var orig := body[..];
    src, dst := start, start;
    while src < body.Length && body[src] != '&'
      invariant src <= body.Length
      invariant Decoding(body[..], orig, start, src, dst, value)
    {
      src, dst := DecodeTurn(body, orig, start, src, dst, value);
    }
  }

  /**
   * The result is the decoding of the bytes as they were, and nothing before the
   * field or behind the write position is touched.
   */
  method DecodeInPlace(body: array<byte>, start: nat) returns (len: nat)
    requires start <= body.Length
    modifies body
    ensures start + len <= body.Length
    ensures body[..][start..start + len] == Decode(old(body[..])[start..])
    ensures body[..][..start] == old(body[..])[..start]
    ensures body[..][start + len..] == old(body[..])[start + len..]
  {
    ghost var orig, value := body[..], Decode(body[..][start..]);
    var src, dst := DecodeLoop(body, start, value);
    DecodingEnds(body[..], orig, start, src, dst, value);
    return dst - start;
  }

  /** form_field: the body must begin with the field name; otherwise it is left alone. */
  method DecodeField(body: array<byte>) returns (found: bool, len: nat)
    modifies body
    ensures found <==> "signed=" <= old(body[..])
    ensures !found ==> body[..] == old(body[..])
    ensures found ==>
      && 7 + len <= body.Length && body[..][7..7 + len] == Decode(old(body[..])[7..]) && body[..][..7] == "signed="
  {
    if body.Length < |FIELD| || body[..|FIELD|] != FIELD {
      assert body.Length >= |FIELD| ==> body[..][..|FIELD|] == body[..|FIELD|];
      return false, 0;
    }
    assert body[..][..|FIELD|] == FIELD;
    len := DecodeInPlace(body, |FIELD|);
    return true, len;
  }

  // ---- the decoder inverts every legal encoding ----

  /** How an encoder may write one byte. */
  datatype Piece = Raw(b: byte) | Plus | Percent(hi: byte, lo: byte)

  /** A byte stands for itself unless it is one of the three the syntax uses. */
  predicate Legal(p: Piece) {
    match p
    case Raw(b) => b != '+' && b != '%' && b != '&'
    case Plus => true
    case Percent(hi, lo) => IsHex(hi) && IsHex(lo)
  }

  function Written(p: Piece): Bytes {
    match p
    case Raw(b) => [b]
    case Plus => "+"
    case Percent(hi, lo) => ['%', hi, lo]
  }

  function Meant(p: Piece): byte
    requires Legal(p)
  {
    match p
    case Raw(b) => b
    case Plus => ' '
    case Percent(hi, lo) => EscapeByte(hi, lo)
  }

  predicate AllLegal(ps: seq<Piece>) { forall i :: 0 <= i < |ps| ==> Legal(ps[i]) }

  function Encoding(ps: seq<Piece>): Bytes {
    if ps == [] then [] else Written(ps[0]) + Encoding(ps[1..])
  }

  function Meaning(ps: seq<Piece>): Bytes
    requires AllLegal(ps)
  {
    if ps == [] then [] else [Meant(ps[0])] + Meaning(ps[1..])
  }

  lemma DecodePiece(p: Piece, tail: Bytes)
    requires Legal(p)
    ensures Decode(Written(p) + tail) == [Meant(p)] + Decode(tail)
  {
    var s := Written(p) + tail;
    assert s[|Written(p)|..] == tail;
    if p.Percent? { assert s[0] == '%' && s[1] == p.hi && s[2] == p.lo; }
  }

  /** Decoding any legal encoding gives back its value, alone or with a further field after it. */
  lemma {:induction false} DecodeInvertsEncoding(ps: seq<Piece>, rest: Bytes)
    requires AllLegal(ps) && (rest == [] || rest[0] == '&')
    ensures Decode(Encoding(ps) + rest) == Meaning(ps)
  {
    if ps == [] {
      assert Encoding(ps) + rest == rest;
    } else {
      assert Encoding(ps) + rest == Written(ps[0]) + (Encoding(ps[1..]) + rest);
      DecodePiece(ps[0], Encoding(ps[1..]) + rest);
      DecodeInvertsEncoding(ps[1..], rest);
    }
  }

  function HexDigit(v: nat): byte
    requires v < 16
  {
    if v < 10 then (v + '0' as int) as char else (v - 10 + 'A' as int) as char
  }

  /** Percent-encode every byte. */
  function PercentAll(v: Bytes): seq<Piece> {
    if v == [] then []
    else [Percent(HexDigit(v[0] as int / 16), HexDigit(v[0] as int % 16))] + PercentAll(v[1..])
  }

  /** Every byte string has a legal encoding, so the decoder reaches every byte string. */
  lemma {:induction false} EveryValueEncodable(v: Bytes)
    ensures AllLegal(PercentAll(v)) && Meaning(PercentAll(v)) == v
  {
    if v != [] {
      var hi, lo := HexDigit(v[0] as int / 16), HexDigit(v[0] as int % 16);
      assert HexValue(hi) == v[0] as int / 16 && HexValue(lo) == v[0] as int % 16;
      assert EscapeByte(hi, lo) == v[0];
      EveryValueEncodable(v[1..]);
    }
  }

  /** Both cases of the hexadecimal digits, and no other byte, have their values. */
  lemma HexValueMeans(v: nat)
    requires v < 16
    ensures HexValue("0123456789abcdef"[v]) == HexValue("0123456789ABCDEF"[v]) == v
  {
  }

  /** Every byte, escaped with digits of either case, decodes to itself. */
  lemma EscapeDecodes(b: byte, hi: byte, lo: byte, tail: Bytes)
    requires hi == "0123456789abcdef"[b as int / 16] || hi == "0123456789ABCDEF"[b as int / 16]
    requires lo == "0123456789abcdef"[b as int % 16] || lo == "0123456789ABCDEF"[b as int % 16]
    ensures Decode(['%', hi, lo] + tail) == [b] + Decode(tail)
  {
    HexValueMeans(b as int / 16);
    HexValueMeans(b as int % 16);
    DecodePiece(Percent(hi, lo), tail);
  }
}
