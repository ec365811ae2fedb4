/** The parse of gpg's machine-readable status output. */
module GpgStatus {
  import opened ByteStrings

  const PREFIX: Bytes := "[GNUPG:] "
  const VALIDSIG: Bytes := "VALIDSIG "

  const FPR_MIN := 32
  const FPR_MAX := 79            // sizeof(fpr) - 1

  /** What the scan of the lines has established so far; `good` and `bad` never reset, `fpr` does. */
  datatype Scan = Scan(good: bool, bad: bool, fpr: Bytes)

  /** fpr_is_hex: long enough and all hexadecimal. */
  predicate Usable(f: Bytes) { |f| >= FPR_MIN && AllHex(f) }

  method FprIsHex(s: Bytes) returns (ok: bool)
    ensures ok <==> Usable(s)
  {
    if |s| < FPR_MIN { return false; }
    for i := 0 to |s|
      invariant forall j :: 0 <= j < i ==> IsHex(s[j])
    {
      if !IsHex(s[i]) { return false; }
    }
    return true;
  }

  /** The text up to the first space. */
  function TakeField(s: Bytes): (f: Bytes)
    ensures f <= s
  {
    if s == [] || s[0] == ' ' then [] else [s[0]] + TakeField(s[1..])
  }

  /** At most as much of a field as the result buffer holds. */
  function Clip(f: Bytes): Bytes { if |f| <= FPR_MAX then f else f[..FPR_MAX] }

  /** The last space-separated field of s, or d if there is none. */
  function LastField(s: Bytes, d: Bytes): Bytes
    decreases |s|
  {
    if s == [] then d
    else if s[0] == ' ' then LastField(s[1..], d)
    else LastField(s[|TakeField(s)|..], TakeField(s))
  }

  /** The fingerprint a VALIDSIG line yields: its last field, else its first, if usable. */
  function LineFpr(args: Bytes): (f: Option<Bytes>)
    ensures f.Some? ==> FPR_MIN <= |f.value| <= FPR_MAX && AllHex(f.value)
  {
    var last, first := Clip(LastField(args, [])), Clip(TakeField(args));
    if Usable(last) then Some(last) else if Usable(first) then Some(first) else None
  }

  predicate IsStatus(line: Bytes) { PREFIX <= line }

  predicate IsValidsig(line: Bytes) { IsStatus(line) && VALIDSIG <= line[|PREFIX|..] }

  function Args(line: Bytes): Bytes
    requires IsValidsig(line)
  {
    line[|PREFIX| + |VALIDSIG|..]
  }

  /** A status line with one of the five failure markers. */
  predicate IsFailure(line: Bytes) {
    IsStatus(line) &&
    var p := line[|PREFIX|..];
    "REVKEYSIG" <= p || "EXPKEYSIG" <= p || "EXPSIG" <= p || "BADSIG" <= p || "ERRSIG" <= p
  }

  function ScanLine(st: Scan, line: Bytes): Scan {
    if IsValidsig(line) then
      var f := LineFpr(Args(line));
      if f.Some? then st.(good := true, fpr := f.value) else st.(fpr := [])
    else if IsFailure(line) then st.(bad := true)
    else st
  }

  function ScanAll(st: Scan, lines: seq<Bytes>): Scan
    decreases lines
  {
    if lines == [] then st else ScanAll(ScanLine(st, lines[0]), lines[1..])
  }

  function Lines(text: Bytes): seq<Bytes> { Split(text, {LF}) }

  // ---- the loops ----

  /** A space-free stretch is the beginning of the field, and all of it when a space or the end follows. */
  lemma {:induction false} FieldAt(s: Bytes, from: nat, end: nat)
    requires from <= end <= |s| && ' ' !in s[from..end]
    ensures s[from..end] <= TakeField(s[from..])
    ensures end == |s| || s[end] == ' ' ==> TakeField(s[from..]) == s[from..end]
    decreases end - from
  {
    if from < end {
      assert s[from..end] == [s[from]] + s[from + 1..end] && s[from..][1..] == s[from + 1..];
      FieldAt(s, from + 1, end);
    }
  }

  /** Copy a field into the bounded fingerprint buffer. */
  method CopyField(s: Bytes, from: nat) returns (f: Bytes)
    requires from <= |s|
    ensures f == Clip(TakeField(s[from..]))
  {
    var n := 0;
    while from + n < |s| && s[from + n] != ' ' && n < FPR_MAX
      invariant n <= FPR_MAX && from + n <= |s| && ' ' !in s[from..from + n]
    {
      n := n + 1;
    }
    FieldAt(s, from, from + n);
    return s[from..from + n];
  }

  lemma SkipSpace(s: Bytes, q: nat, d: Bytes)
    requires q < |s| && s[q] == ' '
    ensures LastField(s[q + 1..], d) == LastField(s[q..], d)
  {
    assert s[q..][1..] == s[q + 1..];
  }

  method SkipSpaces(s: Bytes, start: nat, ghost d: Bytes) returns (q: nat)
    requires start <= |s|
    ensures start <= q <= |s| && (q == |s| || s[q] != ' ')
    ensures start < q ==> s[start] == ' '
    ensures LastField(s[q..], d) == LastField(s[start..], d)
  {
    ghost var answer := LastField(s[start..], d);
    q := start;
    while q < |s| && s[q] == ' '
      invariant start <= q <= |s| && (start < q ==> s[start] == ' ')
      invariant LastField(s[q..], d) == answer
    {
      SkipSpace(s, q, d);
      q := q + 1;
    }
  }

  method SkipToken(s: Bytes, tok: nat, ghost d: Bytes) returns (q: nat)
    requires tok < |s| && s[tok] != ' '
    ensures tok < q <= |s| && TakeField(s[tok..]) == s[tok..q]
    ensures LastField(s[tok..], d) == LastField(s[q..], s[tok..q])
  {
    q := tok;
    while q < |s| && s[q] != ' '
      invariant tok <= q <= |s| && ' ' !in s[tok..q]
    {
      q := q + 1;
    }
    FieldAt(s, tok, q);
    assert s[tok..][q - tok..] == s[q..];
  }

  /** The position of the last token, walking token by token. */
  method LastToken(s: Bytes) returns (tok: nat)
    ensures tok <= |s| && TakeField(s[tok..]) == LastField(s, [])
  {
    ghost var last: Bytes, answer := [], LastField(s, []);
    assert s[0..] == s;
    tok := 0;
    var q := SkipSpaces(s, 0, last);
    while q < |s|
      invariant q <= |s| && (q == |s| || s[q] != ' ')
      invariant LastField(s[q..], last) == answer
      invariant tok <= |s| && (q == |s| ==> TakeField(s[tok..]) == last)
      decreases |s| - q
    {
      tok := q;
      q := SkipToken(s, tok, last);
      last := s[tok..q];
      q := SkipSpaces(s, q, last);
    }
  }

  /** One line of the status loop. */
  method ReadLine(st: Scan, line: Bytes) returns (next: Scan)
    ensures next == ScanLine(st, line)
  {
    if !IsStatus(line) { return st; }
    if IsValidsig(line) {
      var args := Args(line);
      var tok := LastToken(args);
      var f := CopyField(args, tok);
      var ok := FprIsHex(f);
      if !ok {
        assert args[0..] == args;
        f := CopyField(args, 0);
        ok := FprIsHex(f);
      }
      return if ok then st.(good := true, fpr := f) else st.(fpr := []);
    }
    return if IsFailure(line) then st.(bad := true) else st;
  }

  lemma {:induction false} ScanAppend(st: Scan, a: seq<Bytes>, b: seq<Bytes>)
    ensures ScanAll(st, a + b) == ScanAll(ScanAll(st, a), b)
    decreases a
  {
    if a == [] {
      assert a + b == b;
    } else {
      assert (a + b)[1..] == a[1..] + b;
      ScanAppend(ScanLine(st, a[0]), a[1..], b);
    }
  }

  lemma ScanBlank(st: Scan, rest: seq<Bytes>)
    ensures ScanAll(st, [[]] + rest) == ScanAll(st, rest)
  {
    var lines: seq<Bytes> := [[]] + rest;
    assert lines[1..] == rest && ScanLine(st, []) == st;
  }

  /** Scanning a text is scanning its first line and then the rest; empty lines do not matter. */
  lemma ScanFirstLine(st: Scan, line: Bytes, rest: Bytes)
    requires LF !in line && (rest == [] || rest[0] == LF)
    ensures ScanAll(st, Lines(line + rest)) == ScanAll(ScanLine(st, line), Lines(rest))
  {
    SplitFree(line, {LF});
    assert [line][1..] == [];
    assert ScanAll(st, [line]) == ScanLine(st, line);
    var after := ScanLine(st, line);
    if rest == [] {
      assert line + rest == line;
      ScanBlank(after, []);
    } else {
      assert line + rest == line + [LF] + rest[1..];
      SplitAppend(line, LF, rest[1..], {LF});
      ScanAppend(st, [line], Lines(rest[1..]));
      assert Lines(rest) == [[]] + Lines(rest[1..]);
      ScanBlank(after, Lines(rest[1..]));
    }
  }

  /** The C string in the buffer: everything before the first NUL. */
  function CString(out: Bytes): (text: Bytes)
    ensures text <= out && NUL !in text
  {
    if out == [] || out[0] == NUL then [] else [out[0]] + CString(out[1..])
  }

  datatype Verified = Verified(valid: bool, fpr: Bytes)

  /** The result of scanning an output, and the rule that truncated output is invalid. */
  function Result(out: Bytes, truncated: bool): Verified {
    var st := ScanAll(Scan(false, false, []), Lines(CString(out)));
    var valid := st.good && !st.bad && !truncated;
    Verified(valid, if valid then st.fpr else [])
  }

  lemma ScanNewline(st: Scan, text: Bytes, pos: nat)
    requires pos < |text| && text[pos] == LF
    ensures ScanAll(st, Lines(text[pos..])) == ScanAll(st, Lines(text[pos + 1..]))
  {
    assert text[pos..][1..] == text[pos + 1..];
    ScanBlank(st, Lines(text[pos + 1..]));
  }

  lemma ScanNextLine(st: Scan, text: Bytes, start: nat, end: nat)
    requires start <= end <= |text| && LF !in text[start..end] && (end == |text| || text[end] == LF)
    ensures ScanAll(st, Lines(text[start..])) == ScanAll(ScanLine(st, text[start..end]), Lines(text[end..]))
  {
    assert text[start..] == text[start..end] + text[end..];
    ScanFirstLine(st, text[start..end], text[end..]);
  }

  method FindNewline(text: Bytes, start: nat) returns (end: nat)
    requires start <= |text|
    ensures start <= end <= |text| && LF !in text[start..end] && (end == |text| || text[end] == LF)
  {
    end := start;
    while end < |text| && text[end] != LF
      invariant start <= end <= |text| && LF !in text[start..end]
    {
      end := end + 1;
    }
  }

  /** The strtok_r loop over the status output. */
  method ParseStatus(out: Bytes, truncated: bool) returns (r: Verified)
    ensures r == Result(out, truncated)
  {
    var text := CString(out);
    var st := Scan(false, false, []);
    ghost var answer := ScanAll(st, Lines(text));
    var pos := 0;
    assert text[0..] == text;
    while pos < |text|
      invariant pos <= |text|
      invariant ScanAll(st, Lines(text[pos..])) == answer
    {
      if text[pos] == LF {
        ScanNewline(st, text, pos);
        pos := pos + 1;
      } else {
        var end := FindNewline(text, pos);
        ScanNextLine(st, text, pos, end);
        st := ReadLine(st, text[pos..end]);
        pos := end;
      }
    }
    assert text[pos..] == [];
    ScanBlank(st, []);
    var valid := st.good && !st.bad && !truncated;
    r := Verified(valid, if valid then st.fpr else []);
  }

  // ---- what the parse means ----

  /** A VALIDSIG line with a usable last or first field. */
  predicate UsableLine(line: Bytes) { IsValidsig(line) && LineFpr(Args(line)).Some? }

  /** The last VALIDSIG line. */
  function LastValidsig(lines: seq<Bytes>): Option<Bytes> {
    if lines == [] then None
    else
      var rest := LastValidsig(lines[1..]);
      if rest.Some? then rest else if IsValidsig(lines[0]) then Some(lines[0]) else None
  }

  /** The fingerprint the last VALIDSIG line leaves behind. */
  function FinalFpr(lines: seq<Bytes>, before: Bytes): Bytes {
    var last := LastValidsig(lines);
    if last.None? || !IsValidsig(last.value) then before
    else if LineFpr(Args(last.value)).Some? then LineFpr(Args(last.value)).value else []
  }

  lemma FailureIsNoValidsig(line: Bytes)
    requires IsFailure(line)
    ensures !IsValidsig(line)
  {
    assert line[|PREFIX|..][0] != 'V';
  }

  lemma {:induction false} LastValidsigIs(lines: seq<Bytes>)
    ensures LastValidsig(lines).Some? ==> LastValidsig(lines).value in lines && IsValidsig(LastValidsig(lines).value)
  {
    if lines != [] { LastValidsigIs(lines[1..]); }
  }

  ghost predicate SomeUsable(lines: seq<Bytes>) { exists i :: 0 <= i < |lines| && UsableLine(lines[i]) }

  ghost predicate SomeFailure(lines: seq<Bytes>) { exists i :: 0 <= i < |lines| && IsFailure(lines[i]) }

  lemma SomeCons(lines: seq<Bytes>)
    requires lines != []
    ensures SomeUsable(lines) <==> UsableLine(lines[0]) || SomeUsable(lines[1..])
    ensures SomeFailure(lines) <==> IsFailure(lines[0]) || SomeFailure(lines[1..])
  {
    forall i | 0 <= i < |lines| ensures i == 0 || lines[i] == lines[1..][i - 1] {}
    forall i | 0 <= i < |lines[1..]| ensures lines[1..][i] == lines[i + 1] {}
  }

  /** What one line changes. */
  lemma ScanLineMeans(st: Scan, line: Bytes)
    ensures ScanLine(st, line).good <==> st.good || UsableLine(line)
    ensures ScanLine(st, line).bad <==> st.bad || IsFailure(line)
    ensures ScanLine(st, line).fpr == FinalFpr([line], st.fpr)
  {
    if IsFailure(line) { FailureIsNoValidsig(line); }
    var one := [line];
    assert one[1..] == [] && one[0] == line;
    assert LastValidsig(one) == if IsValidsig(line) then Some(line) else None;
  }

  lemma {:induction false} ScanFlags(st: Scan, lines: seq<Bytes>)
    ensures ScanAll(st, lines).good <==> st.good || SomeUsable(lines)
    ensures ScanAll(st, lines).bad <==> st.bad || SomeFailure(lines)
    decreases lines
  {
    if lines != [] {
      ScanLineMeans(st, lines[0]);
      SomeCons(lines);
      ScanFlags(ScanLine(st, lines[0]), lines[1..]);
    }
  }

  lemma {:induction false} ScanFpr(st: Scan, lines: seq<Bytes>)
    ensures ScanAll(st, lines).fpr == FinalFpr(lines, st.fpr)
    decreases lines
  {
    if lines != [] {
      ScanLineMeans(st, lines[0]);
      LastValidsigIs(lines[1..]);
      ScanFpr(ScanLine(st, lines[0]), lines[1..]);
      var one := [lines[0]];
      assert one[1..] == [];
    }
  }

  /**
   * A signature is reported valid iff the output is whole, some VALIDSIG status
   * line is usable, and no status line carries a failure marker. The fingerprint
   * is that of the last VALIDSIG line: empty exactly when that line is unusable,
   * and otherwise 32 to 79 hexadecimal digits.
   */
  lemma StatusMeans(out: Bytes, truncated: bool)
    ensures
      var lines, r := Lines(CString(out)), Result(out, truncated);
      && (r.valid <==> !truncated && SomeUsable(lines) && !SomeFailure(lines))
      && (r.valid ==> LastValidsig(lines).Some? && r.fpr == FinalFpr(lines, []))
      && (r.fpr != [] <==> r.valid && UsableLine(LastValidsig(lines).value))
      && (r.fpr == [] || (FPR_MIN <= |r.fpr| <= FPR_MAX && AllHex(r.fpr)))
  {
    var lines := Lines(CString(out));
    var st := Scan(false, false, []);
    ScanFlags(st, lines);
    ScanFpr(st, lines);
    LastValidsigIs(lines);
    if SomeUsable(lines) {
      var i :| 0 <= i < |lines| && UsableLine(lines[i]);
      SomeValidsig(lines, i);
    }
  }

  lemma {:induction false} SomeValidsig(lines: seq<Bytes>, i: nat)
    requires i < |lines| && IsValidsig(lines[i])
    ensures LastValidsig(lines).Some?
  {
    if i > 0 { SomeValidsig(lines[1..], i - 1); }
  }

  /** Validity depends on which lines occur, not on their order or repetition. */
  lemma ValidityIgnoresOrder(a: Bytes, b: Bytes, truncated: bool)
    requires forall line :: line in Lines(CString(a)) <==> line in Lines(CString(b))
    ensures Result(a, truncated).valid == Result(b, truncated).valid
  {
    SameLinesSameValidity(a, b, truncated);
    SameLinesSameValidity(b, a, truncated);
  }

  lemma SameLinesSameValidity(a: Bytes, b: Bytes, truncated: bool)
    requires forall line :: line in Lines(CString(a)) <==> line in Lines(CString(b))
    ensures Result(a, truncated).valid ==> Result(b, truncated).valid
  {
    StatusMeans(a, truncated);
    StatusMeans(b, truncated);
    SameLinesSameFlags(Lines(CString(a)), Lines(CString(b)));
  }

  lemma SameLinesSameFlags(a: seq<Bytes>, b: seq<Bytes>)
    requires forall line :: line in a <==> line in b
    ensures SomeUsable(a) ==> SomeUsable(b)
    ensures SomeFailure(b) ==> SomeFailure(a)
  {
    forall i | 0 <= i < |a| ensures a[i] in b {}
    forall i | 0 <= i < |b| ensures b[i] in a {}
  }

  // ---- the two fields are what splitting at spaces gives ----

  function LastNonEmpty(pieces: seq<Bytes>, d: Bytes): Bytes
    decreases pieces
  {
    if pieces == [] then d
    else LastNonEmpty(pieces[1..], if pieces[0] == [] then d else pieces[0])
  }

  lemma {:induction false} TakeFieldIsFirstPiece(s: Bytes)
    ensures TakeField(s) == Split(s, {' '})[0]
  {
    if s != [] { TakeFieldIsFirstPiece(s[1..]); }
  }

  lemma {:induction false} TakeFieldEnds(s: Bytes)
    ensures ' ' !in TakeField(s)
    ensures |TakeField(s)| == |s| || s[|TakeField(s)|] == ' '
  {
    if s != [] { TakeFieldEnds(s[1..]); }
  }

  /** A blank first piece changes nothing; a non-blank one becomes the default. */
  lemma LastNonEmptyCons(piece: Bytes, rest: seq<Bytes>, d: Bytes)
    ensures LastNonEmpty([piece] + rest, d) == LastNonEmpty(rest, if piece == [] then d else piece)
  {
    var all := [piece] + rest;
    assert all[0] == piece && all[1..] == rest;
  }

  /** Splitting at the end of the first field. */
  lemma SplitAfterField(s: Bytes, t: Bytes, rest: Bytes)
    requires s == t + rest && ' ' !in t && (rest == [] || rest[0] == ' ')
    ensures rest == [] ==> Split(s, {' '}) == [t] && Split(rest, {' '}) == [[]]
    ensures rest != [] ==> Split(s, {' '}) == [t] + Split(rest[1..], {' '})
    ensures rest != [] ==> Split(rest, {' '}) == [[]] + Split(rest[1..], {' '})
  {
    SplitFree(t, {' '});
    if rest != [] {
      assert s == t + [' '] + rest[1..];
      SplitAppend(t, ' ', rest[1..], {' '});
    } else {
      assert s == t;
    }
  }

  lemma {:induction false} LastFieldIsLastPiece(s: Bytes, d: Bytes)
    ensures LastField(s, d) == LastNonEmpty(Split(s, {' '}), d)
    decreases |s|
  {
    if s != [] {
      if s[0] == ' ' {
        LastFieldIsLastPiece(s[1..], d);
        LastNonEmptyCons([], Split(s[1..], {' '}), d);
      } else {
        var t := TakeField(s);
        var rest := s[|t|..];
        TakeFieldEnds(s);
        LastFieldIsLastPiece(rest, t);
        SplitAfterField(s, t, rest);
        var tail: seq<Bytes> := if rest == [] then [] else Split(rest[1..], {' '});
        assert [t] + [] == [t];
        LastNonEmptyCons(t, tail, d);
        LastNonEmptyCons([], tail, t);
      }
    }
  }

  /** A VALIDSIG line is identified by its last space-separated field, or failing that by its first. */
  lemma LineFprIsLastElseFirst(args: Bytes)
    ensures
      var fields := Split(args, {' '});
      var last, first := Clip(LastNonEmpty(fields, [])), Clip(fields[0]);
      LineFpr(args) == if Usable(last) then Some(last) else if Usable(first) then Some(first) else None
  {
    LastFieldIsLastPiece(args, []);
    TakeFieldIsFirstPiece(args);
  }

  // ---- outputs that give a chosen fingerprint ----

  function ValidsigLine(args: Bytes): Bytes { PREFIX + VALIDSIG + args }

  lemma ValidsigLineIs(args: Bytes)
    ensures IsValidsig(ValidsigLine(args)) && Args(ValidsigLine(args)) == args
  {
    var line := ValidsigLine(args);
    assert line[..|PREFIX|] == PREFIX && line[|PREFIX|..] == VALIDSIG + args;
    assert line[|PREFIX|..][..|VALIDSIG|] == VALIDSIG && line[|PREFIX| + |VALIDSIG|..] == args;
  }

  lemma SpaceFreeFields(f: Bytes)
    requires f != [] && ' ' !in f
    ensures TakeField(f) == f && LastField(f, []) == f
  {
    assert f[0..] == f && f[0..|f|] == f;
    FieldAt(f, 0, |f|);
    assert f[|f|..] == [];
  }

  /** One line with a usable fingerprint. */
  lemma UsableScan(st: Scan, f: Bytes)
    requires FPR_MIN <= |f| <= FPR_MAX && AllHex(f)
    ensures ScanLine(st, ValidsigLine(f)) == st.(good := true, fpr := f)
  {
    ValidsigLineIs(f);
    assert forall c :: c in f ==> IsHex(c);
    SpaceFreeFields(f);
  }

  /** One line without a usable fingerprint. */
  lemma UnusableScan(st: Scan)
    ensures ScanLine(st, ValidsigLine("x")) == st.(fpr := [])
  {
    ValidsigLineIs("x");
    SpaceFreeFields("x");
  }

  lemma {:induction false} CStringOf(s: Bytes)
    requires NUL !in s
    ensures CString(s) == s
  {
    if s != [] { CStringOf(s[1..]); }
  }

  lemma TextBytes(f: Bytes)
    requires AllHex(f)
    ensures NUL !in ValidsigLine(f) && LF !in ValidsigLine(f)
    ensures NUL !in ValidsigLine("x") && LF !in ValidsigLine("x")
  {
    assert forall c :: c in f ==> IsHex(c);
  }

  /** Every usable fingerprint is what some output yields. */
  lemma UsableOutput(f: Bytes)
    requires FPR_MIN <= |f| <= FPR_MAX && AllHex(f)
    ensures Result(ValidsigLine(f), false) == Verified(true, f)
  {
    TextBytes(f);
    CStringOf(ValidsigLine(f));
    SplitFree(ValidsigLine(f), {LF});
    var st, lines := Scan(false, false, []), [ValidsigLine(f)];
    UsableScan(st, f);
    assert lines[1..] == [] && lines[0] == ValidsigLine(f);
    assert ScanAll(st, lines) == ScanLine(st, lines[0]);
  }

  /** A usable VALIDSIG line followed by an unusable one: valid, with an empty fingerprint. */
  lemma ValidWithoutFingerprint(f: Bytes)
    requires FPR_MIN <= |f| <= FPR_MAX && AllHex(f)
    ensures Result(ValidsigLine(f) + [LF] + ValidsigLine("x"), false) == Verified(true, [])
  {
    var a, b := ValidsigLine(f), ValidsigLine("x");
    TextBytes(f);
    CStringOf(a + [LF] + b);
    SplitFree(a, {LF});
    SplitFree(b, {LF});
    SplitAppend(a, LF, b, {LF});
    var st, lines := Scan(false, false, []), [a, b];
    var tail := [b];
    assert [a] + tail == lines && lines[1..] == tail && tail[1..] == [];
    UsableScan(st, f);
    UnusableScan(ScanLine(st, a));
    var after := ScanLine(st, a);
    assert ScanAll(after, tail) == ScanAll(ScanLine(after, b), []);
    assert lines[0] == a && ScanAll(st, lines) == ScanAll(after, tail);
  }

  // ---- the same, spelled out ----

  /** A status line that says the signature must not count. */
  predicate Condemns(line: Bytes) {
    || "[GNUPG:] REVKEYSIG" <= line || "[GNUPG:] EXPKEYSIG" <= line || "[GNUPG:] EXPSIG" <= line
    || "[GNUPG:] BADSIG" <= line || "[GNUPG:] ERRSIG" <= line
  }

  /** At least 32 bytes, of which the 79 that fit the buffer are hexadecimal. */
  predicate Identifies(field: Bytes) {
    |field| >= 32 && forall i :: 0 <= i < |field| && i < 79 ==> field[i] in "0123456789abcdefABCDEF"
  }

  /** A VALIDSIG line whose last or first field identifies a key. */
  predicate Vouches(line: Bytes) {
    "[GNUPG:] VALIDSIG " <= line
    && var fields := Split(line[18..], {' '}); Identifies(LastNonEmpty(fields, [])) || Identifies(fields[0])
  }

  lemma PrefixParts(a: Bytes, b: Bytes, s: Bytes)
    ensures a + b <= s <==> a <= s && b <= s[|a|..]
  {
    if a + b <= s {
      assert s[..|a|] == (a + b)[..|a|] == a;
      assert s[|a|..][..|b|] == s[..|a + b|][|a|..] == b;
    }
    if a <= s && b <= s[|a|..] { assert s[..|a| + |b|] == s[..|a|] + s[|a|..][..|b|] == a + b; }
  }

  /** A status line with this marker, taken as one text. */
  lemma MarkerLine(whole: Bytes, marker: Bytes, line: Bytes)
    requires whole == "[GNUPG:] " + marker
    ensures whole <= line <==> IsStatus(line) && marker <= line[|PREFIX|..]
  {
    PrefixParts(PREFIX, marker, line);
  }

  lemma CondemnsIsFailure(line: Bytes)
    ensures Condemns(line) <==> IsFailure(line)
  {
    MarkerLine("[GNUPG:] REVKEYSIG", "REVKEYSIG", line);
    MarkerLine("[GNUPG:] EXPKEYSIG", "EXPKEYSIG", line);
    MarkerLine("[GNUPG:] EXPSIG", "EXPSIG", line);
    MarkerLine("[GNUPG:] BADSIG", "BADSIG", line);
    MarkerLine("[GNUPG:] ERRSIG", "ERRSIG", line);
  }

  lemma IdentifiesIsUsable(field: Bytes)
    ensures Identifies(field) <==> Usable(Clip(field))
  {
    var f := Clip(field);
    forall i | 0 <= i < |f| ensures IsHex(f[i]) <==> field[i] in "0123456789abcdefABCDEF" { HexDigits(f[i]); }
    if Usable(f) {
      forall i | 0 <= i < |field| && i < 79 ensures field[i] in "0123456789abcdefABCDEF" { assert IsHex(f[i]); }
    } else if |f| >= 32 {
      var i :| 0 <= i < |f| && !IsHex(f[i]);
      assert field[i] !in "0123456789abcdefABCDEF";
    }
  }

  lemma VouchesIsUsable(line: Bytes)
    ensures Vouches(line) <==> UsableLine(line)
  {
    MarkerLine("[GNUPG:] VALIDSIG ", "VALIDSIG ", line);
    if IsValidsig(line) {
      var fields := Split(line[18..], {' '});
      LineFprIsLastElseFirst(line[18..]);
      IdentifiesIsUsable(LastNonEmpty(fields, []));
      IdentifiesIsUsable(fields[0]);
    }
  }

  lemma {:induction false} CStringIs(text: Bytes, rest: Bytes)
    requires '\0' !in text && (rest == [] || rest[0] == '\0')
    ensures CString(text + rest) == text
  {
    if text == [] {
      assert text + rest == rest;
    } else {
      assert (text + rest)[1..] == text[1..] + rest;
      CStringIs(text[1..], rest);
    }
  }

  /**
   * The rule in gpg's own words: the text before any NUL is a valid signature iff it is
   * whole, some line vouches for a key, and no line reports a revoked, expired, bad or
   * unverifiable signature.
   */
  lemma StatusSpelledOut(text: Bytes, rest: Bytes, truncated: bool)
    requires '\0' !in text && (rest == [] || rest[0] == '\0')
    ensures var lines := Split(text, {'\n'});
      Result(text + rest, truncated).valid <==>
        && !truncated && (exists i :: 0 <= i < |lines| && Vouches(lines[i]))
        && (forall i :: 0 <= i < |lines| ==> !Condemns(lines[i]))
  {
    CStringIs(text, rest);
    StatusMeans(text + rest, truncated);
    forall line ensures (Condemns(line) <==> IsFailure(line)) && (Vouches(line) <==> UsableLine(line)) {
      CondemnsIsFailure(line);
      VouchesIsUsable(line);
    }
  }

  /** The key of one VALIDSIG line: its last field, cut to the buffer, if that identifies one, else its first. */
  lemma SignerSpelledOut(line: Bytes)
    requires "[GNUPG:] VALIDSIG " <= line
    ensures
      var fields := Split(line[18..], {' '});
      var last, first := LastNonEmpty(fields, []), fields[0];
      && IsValidsig(line)
      && LineFpr(Args(line)) == if Identifies(last) then Some(if |last| > 79 then last[..79] else last)
                                else if Identifies(first) then Some(if |first| > 79 then first[..79] else first)
                                else None
  {
    MarkerLine("[GNUPG:] VALIDSIG ", "VALIDSIG ", line);
    LineFprIsLastElseFirst(line[18..]);
    IdentifiesIsUsable(LastNonEmpty(Split(line[18..], {' '}), []));
    IdentifiesIsUsable(Split(line[18..], {' '})[0]);
  }
}
