/** Null-terminated text: `strtol`, `strsep`, `strncpy`, `strndup` and the integer reader of utils.c. */
module CText {
  import opened Seqs
  import opened Wrappers

  const NUL: char := '\0'
  const INT_MIN: int := -0x8000_0000
  const INT_MAX: int := 0x7FFF_FFFF
  const LONG_MIN: int := -0x8000_0000_0000_0000
  const LONG_MAX: int := 0x7FFF_FFFF_FFFF_FFFF

  // ---------------------------------------------------------------- numerals

  /** `isspace` in the "C" locale. */
  predicate IsSpace(c: char) { c == ' ' || 9 <= c as int <= 13 }

  predicate IsDigit(c: char) { '0' <= c <= '9' }

  function DigitValue(c: char): (d: nat)
    requires IsDigit(c)
    ensures d < 10
  { c as int - '0' as int }

  predicate AllDigits(s: string) { forall i | 0 <= i < |s| :: IsDigit(s[i]) }

  predicate AllSpaces(s: string) { forall i | 0 <= i < |s| :: IsSpace(s[i]) }

  /** Length of the longest prefix of `s` whose characters satisfy `p`. */
  function Span(s: string, p: char -> bool): (n: nat)
    ensures n <= |s|
    ensures forall i | 0 <= i < n :: p(s[i])
    ensures n < |s| ==> !p(s[n])
  {
    if s == "" || !p(s[0]) then 0 else 1 + Span(s[1..], p)
  }

  lemma SpanUnique(s: string, p: char -> bool, n: nat)
    requires n <= |s| && (forall i | 0 <= i < n :: p(s[i])) && (n < |s| ==> !p(s[n]))
    ensures Span(s, p) == n
  {}

  /** Value of a string of decimal digits. */
  function DecValue(ds: string): nat
    requires AllDigits(ds)
  {
    if ds == "" then 0 else 10 * DecValue(ds[..|ds| - 1]) + DigitValue(ds[|ds| - 1])
  }

  function Clamp(v: int, lo: int, hi: int): int {
    if v < lo then lo else if v > hi then hi else v
  }

  function SignLength(s: string): (n: nat)
    ensures n <= |s|
  {
    if s != "" && (s[0] == '+' || s[0] == '-') then 1 else 0
  }

  function SignedValue(sign: string, m: nat): int { if sign == "-" then 0 - m else m }

  /** The value `strtol` returns and the offset it stores through its second argument. */
  datatype Number = Number(value: int, end: nat)

  /** `strtol(s, &end, 10)` with a 64-bit `long` (section 7.20.1.4 of ISO/IEC 9899:1999): leading white
      space, an optional sign, digits, saturation; `end` is 0 when no digit was found. */
  function Strtol(s: string): Number {
    var w := Span(s, IsSpace);
    var g := SignLength(s[w..]);
    StrtolDigits(s[w..w + g], s[w + g..], w + g)
  }

  function StrtolDigits(sign: string, t: string, from: nat): Number {
    var d := Span(t, IsDigit);
    if d == 0 then Number(0, 0)
    else Number(Clamp(SignedValue(sign, DecValue(t[..d])), LONG_MIN, LONG_MAX), from + d)
  }

  /** What a reader of integers makes of a whole text. */
  function ParseInt(s: string): Option<int> {
    var Number(value, end) := Strtol(s);
    if 0 < end == |s| && INT_MIN <= value <= INT_MAX then Some(value) else None
  }

  /** A text that is white space, an optional sign and at least one digit, nothing else. */
  ghost predicate IsNumeral(s: string, ws: string, sign: string, ds: string) {
    && s == ws + sign + ds
    && AllSpaces(ws)
    && (sign == "" || sign == "+" || sign == "-")
    && ds != ""
    && AllDigits(ds)
  }

  /** Where the three parts of a numeral sit in the text. */
  lemma NumeralParts(s: string, ws: string, sign: string, ds: string)
    requires s == ws + sign + ds
    ensures |s| == |ws| + |sign| + |ds|
    ensures s[|ws|..] == sign + ds
    ensures s[|ws|..|ws| + |sign|] == sign
    ensures s[|ws| + |sign|..] == ds
    ensures forall i | 0 <= i < |ws| :: s[i] == ws[i]
  {}

  lemma SpanSpaces(ws: string, rest: string)
    requires AllSpaces(ws) && (rest == "" || !IsSpace(rest[0]))
    ensures Span(ws + rest, IsSpace) == |ws|
  {
    var s := ws + rest;
    forall i | 0 <= i < |ws| ensures IsSpace(s[i]) { assert s[i] == ws[i] && ws[i] in ws; }
    SpanUnique(s, IsSpace, |ws|);
  }

  lemma StrtolAllDigits(sign: string, ds: string, from: nat)
    requires ds != "" && AllDigits(ds)
    ensures StrtolDigits(sign, ds, from)
         == Number(Clamp(SignedValue(sign, DecValue(ds)), LONG_MIN, LONG_MAX), from + |ds|)
  {
    SpanUnique(ds, IsDigit, |ds|);
    assert ds[..|ds|] == ds;
  }

  lemma SpanPrefix(s: string, ws: string, sign: string, ds: string)
    requires s == ws + sign + ds && AllSpaces(ws) && (sign == "" || sign == "+" || sign == "-")
    requires ds != "" && IsDigit(ds[0])
    ensures Span(s, IsSpace) == |ws|
  {
    assert s == ws + (sign + ds);
    SpanSpaces(ws, sign + ds);
  }

  lemma StrtolPrefix(s: string, ws: string, sign: string, ds: string)
    requires s == ws + sign + ds && AllSpaces(ws) && (sign == "" || sign == "+" || sign == "-")
    requires ds != "" && IsDigit(ds[0])
    ensures Strtol(s) == StrtolDigits(sign, ds, |ws| + |sign|)
  {
    NumeralParts(s, ws, sign, ds);
    SpanPrefix(s, ws, sign, ds);
    assert SignLength(sign + ds) == |sign|;
  }

  lemma StrtolNumeral(s: string, ws: string, sign: string, ds: string)
    requires IsNumeral(s, ws, sign, ds)
    ensures Strtol(s) == Number(Clamp(SignedValue(sign, DecValue(ds)), LONG_MIN, LONG_MAX), |s|)
  {
    StrtolPrefix(s, ws, sign, ds);
    StrtolAllDigits(sign, ds, |ws| + |sign|);
  }

  /** A numeral is read as its value exactly when that value fits in `int`, whatever `strtol` saturates. */
  lemma ParseIntNumeral(s: string, ws: string, sign: string, ds: string)
    requires IsNumeral(s, ws, sign, ds)
    ensures var v := SignedValue(sign, DecValue(ds));
            ParseInt(s) == if INT_MIN <= v <= INT_MAX then Some(v) else None
  {
    StrtolNumeral(s, ws, sign, ds);
  }

  /** A text that is scanned to its end falls into white space, sign and digits. */
  lemma ScannedParts(s: string, w: nat, g: nat)
    requires w == Span(s, IsSpace) && g == SignLength(s[w..]) && Span(s[w + g..], IsDigit) == |s[w + g..]| > 0
    ensures IsNumeral(s, s[..w], s[w..w + g], s[w + g..])
  {
    ThreeParts(s, w, g);
    ScannedSign(s[w..]);
    ScannedDigits(s[w + g..]);
  }

  lemma ThreeParts(s: string, w: nat, g: nat)
    requires w + g <= |s|
    ensures s[..w] + s[w..w + g] + s[w + g..] == s && s[w..w + g] == s[w..][..g]
  {}

  lemma ScannedSign(t: string)
    ensures var sign := t[..SignLength(t)]; sign == "" || sign == "+" || sign == "-"
  {}

  lemma ScannedDigits(ds: string)
    requires Span(ds, IsDigit) == |ds|
    ensures AllDigits(ds)
  {}

  lemma NumeralAlphabet(s: string, ws: string, sign: string, ds: string)
    requires IsNumeral(s, ws, sign, ds)
    ensures forall c | c in s :: IsSpace(c) || IsDigit(c) || c == '+' || c == '-'
  {}

  /** Nothing but a numeral is read. */
  lemma ParseIntOnlyNumerals(s: string) returns (ws: string, sign: string, ds: string)
    requires ParseInt(s).Some?
    ensures IsNumeral(s, ws, sign, ds)
    ensures forall c | c in s :: IsSpace(c) || IsDigit(c) || c == '+' || c == '-'
  {
    var w := Span(s, IsSpace);
    var g := SignLength(s[w..]);
    ws, sign, ds := s[..w], s[w..w + g], s[w + g..];
    ScannedParts(s, w, g);
    NumeralAlphabet(s, ws, sign, ds);
  }

  /** The reference meaning of "a valid integer": a numeral whose value fits in `int`. */
  ghost predicate DenotesInt(s: string, v: int) {
    INT_MIN <= v <= INT_MAX
    && exists ws, sign, ds :: IsNumeral(s, ws, sign, ds) && v == SignedValue(sign, DecValue(ds))
  }

  lemma ParseIntMeaning(s: string, v: int)
    ensures ParseInt(s) == Some(v) <==> DenotesInt(s, v)
  {
    if ParseInt(s).Some? {
      var ws, sign, ds := ParseIntOnlyNumerals(s);
      ParseIntNumeral(s, ws, sign, ds);
    }
    if DenotesInt(s, v) {
      var ws, sign, ds :| IsNumeral(s, ws, sign, ds) && v == SignedValue(sign, DecValue(ds));
      ParseIntNumeral(s, ws, sign, ds);
    }
  }

  /** `_check_int` of utils.c; `errno` is whatever the variable holds after the conversion, stale or not. */
  function CheckInt(buffer: string, errno: int): (rc: int)
    ensures rc == 0 || rc == -1
    ensures rc == 0 <==> exists v :: DenotesInt(buffer, v)
  {
    var Number(value, end) := Strtol(buffer);
    assert ParseInt(buffer).Some? <==> exists v :: DenotesInt(buffer, v) by {
      forall v ensures ParseInt(buffer) == Some(v) <==> DenotesInt(buffer, v) { ParseIntMeaning(buffer, v); }
      if ParseInt(buffer).Some? { assert DenotesInt(buffer, ParseInt(buffer).value); }
    }
    if end == 0 then -1
    else if end != |buffer| then -1
    else if (value == LONG_MIN || value == LONG_MAX) && errno != 0 then -1
    else if value < INT_MIN || value > INT_MAX then -1
    else 0
  }

  /** `read_int_from_buffer`: `n` holds the old value of the target, `n'` the new one. */
  method ReadIntFromBuffer(buffer: string, n: int) returns (rc: int, n': int)
    ensures rc == 0 ==> DenotesInt(buffer, n')
    ensures rc != 0 ==> rc == -1 && n' == n && forall v :: !DenotesInt(buffer, v)
    ensures rc == 0 <==> ParseInt(buffer).Some?
    ensures rc == 0 ==> n' == ParseInt(buffer).value
  {
    n' := n;
    forall v ensures ParseInt(buffer) == Some(v) <==> DenotesInt(buffer, v) { ParseIntMeaning(buffer, v); }
    var errno: int := *; // never reset before the conversion
    if CheckInt(buffer, errno) == -1 { return -1, n'; }
    n' := Strtol(buffer).value;
    rc := 0;
  }

  // ---------------------------------------------------------------- tokens

  /** The pieces of `s` between the delimiters. */
  function Split(s: string, delim: char): (ts: seq<string>)
    ensures ts != []
  {
    var i := IndexOf(s, delim);
    if i == |s| then [s] else [s[..i]] + Split(s[i + 1..], delim)
  }

  lemma SplitHead(s: string, delim: char)
    ensures var i, ts := IndexOf(s, delim), Split(s, delim);
            && ts[0] == s[..i]
            && (i == |s| ==> |ts| == 1)
            && (i < |s| ==> |ts| > 1 && ts[1..] == Split(s[i + 1..], delim))
  {}

  function Join(ts: seq<string>, delim: char): string
    requires ts != []
  {
    if |ts| == 1 then ts[0] else ts[0] + [delim] + Join(ts[1..], delim)
  }

  ghost predicate NoneContains(ts: seq<string>, c: char) { forall t | t in ts :: c !in t }

  lemma {:induction false} SplitPieces(s: string, delim: char)
    ensures NoneContains(Split(s, delim), delim)
  {
    SplitHead(s, delim);
    if IndexOf(s, delim) < |s| {
      SplitPieces(s[IndexOf(s, delim) + 1..], delim);
      assert Split(s, delim) == [Split(s, delim)[0]] + Split(s, delim)[1..];
    }
  }

  /** Splitting is the inverse of joining: it is the only list of delimiter-free pieces that joins back. */
  lemma {:induction false} SplitJoin(s: string, delim: char)
    ensures NoneContains(Split(s, delim), delim) && Join(Split(s, delim), delim) == s
  {
    var i := IndexOf(s, delim);
    SplitPieces(s, delim);
    SplitHead(s, delim);
    if i == |s| {
      assert s[..i] == s;
    } else {
      SplitJoin(s[i + 1..], delim);
      assert s == s[..i] + [delim] + s[i + 1..];
    }
  }

  lemma {:induction false} JoinSplit(ts: seq<string>, delim: char)
    requires ts != [] && NoneContains(ts, delim)
    ensures Split(Join(ts, delim), delim) == ts
  {
    var s, t := Join(ts, delim), ts[0];
    assert t in ts;
    if |ts| == 1 {
      IndexOfUnique(s, delim, |s|);
    } else {
      assert s[..|t|] == t && s[|t| + 1..] == Join(ts[1..], delim);
      IndexOfUnique(s, delim, |t|);
      JoinSplit(ts[1..], delim);
      assert ts == [t] + ts[1..];
    }
  }

  /** A character of `s` is the delimiter or belongs to a piece. */
  lemma {:induction false} SplitCovers(s: string, delim: char, c: char)
    requires c in s && c != delim
    ensures exists t :: t in Split(s, delim) && c in t
  {
    var i := IndexOf(s, delim);
    if i == |s| {
      assert s in Split(s, delim);
    } else if c in s[..i] {
      assert s[..i] in Split(s, delim);
    } else {
      assert s == s[..i] + [s[i]] + s[i + 1..];
      SplitCovers(s[i + 1..], delim, c);
      var t :| t in Split(s[i + 1..], delim) && c in t;
      assert t in Split(s, delim);
    }
  }

  // ---------------------------------------------------------------- character arrays

  /** The C string stored in `buf`: everything before the first NUL. */
  function Text(buf: seq<char>): (s: string)
    ensures NUL !in s
  { buf[..IndexOf(buf, NUL)] }

  lemma TextOf(buf: seq<char>, s: string)
    requires |s| < |buf| && s <= buf && NUL !in s && buf[|s|] == NUL
    ensures Text(buf) == s
  {
    IndexOfUnique(buf, NUL, |s|);
  }

  /** A text that can be typed as one line. */
  predicate OneLine(s: string) { NUL !in s && '\n' !in s }

  /** The line in a buffer filled by `read`: its text up to the newline, if there is one. */
  function LineIn(buf: seq<char>): (line: string)
    ensures OneLine(line)
  { Text(buf)[..IndexOf(Text(buf), '\n')] }

  /** The buffer holds a line that ends somewhere: at a newline, or at the NUL the buffer was filled with. */
  predicate HoldsLine(buf: seq<char>) { NUL in buf || '\n' in buf }

  /** A newline in the text is the first one of the buffer, and terminating the buffer there leaves the line. */
  lemma NewlineInText(buf: seq<char>)
    requires '\n' in Text(buf)
    ensures var p := IndexOf(Text(buf), '\n');
            p < |buf| && buf[p] == '\n' && Text(buf[p := NUL]) == LineIn(buf)
  {
    var p := IndexOf(Text(buf), '\n');
    IndexOfIn(Text(buf), '\n');
    TextOf(buf[p := NUL], LineIn(buf));
  }

  lemma NoNewlineInText(buf: seq<char>)
    requires HoldsLine(buf) && '\n' !in Text(buf)
    ensures NUL in buf && LineIn(buf) == Text(buf)
  {
    IndexOfIn(buf, NUL);
    IndexOfIn(Text(buf), '\n');
    assert NUL !in buf ==> Text(buf) == buf;
  }

  /** `remove_newline`: the first newline is overwritten; when there is none, the rest of the input line is
      thrown away. */
  method RemoveNewline(buf: array<char>) returns (flushed: bool)
    requires HoldsLine(buf[..])
    modifies buf
    ensures NUL in buf[..] && Text(buf[..]) == LineIn(old(buf[..]))
    ensures flushed <==> '\n' !in Text(old(buf[..]))
    ensures flushed ==> buf[..] == old(buf[..])
  {
    ghost var before := buf[..];
    var p := IndexOf(Text(buf[..]), '\n');
    IndexOfIn(Text(buf[..]), '\n');
    if p < |Text(buf[..])| {
      NewlineInText(buf[..]);
      buf[p] := NUL;
      assert buf[..] == before[p := NUL] && buf[..][p] == NUL;
      flushed := false;
    } else {
      NoNewlineInText(buf[..]);
      flushed := true;
    }
  }

  /** `strncpy(dst, src, n)` (section 7.21.2.4 of ISO/IEC 9899:1999): at most `n` characters, zero padded. */
  method StrNCpy(dst: array<char>, src: string, n: nat)
    requires n <= dst.Length && NUL !in src
    modifies dst
    ensures dst[n..] == old(dst[n..])
    ensures forall i | 0 <= i < n :: dst[i] == if i < |src| then src[i] else NUL
    ensures |src| < n ==> Text(dst[..]) == src
  {
    var i := 0;
    while i < n
      invariant i <= n
      invariant dst[n..] == old(dst[n..])
      invariant forall j | 0 <= j < i :: dst[j] == if j < |src| then src[j] else NUL
    {
      dst[i] := if i < |src| then src[i] else NUL;
      i := i + 1;
    }
    if |src| < n { TextOf(dst[..], src); }
  }

  /** The prefix of a text that `strndup(s, n)` or `strncpy(_, s, n)` keeps. */
  function Prefix(s: string, n: nat): (p: string)
    ensures p <= s && |p| == if |s| <= n then |s| else n
    ensures |s| <= n ==> p == s
  { if |s| <= n then s else s[..n] }

  /** `strndup`: a fresh, always terminated copy. */
  method StrNDup(src: string, n: nat) returns (copy: array<char>)
    requires NUL !in src
    ensures fresh(copy) && copy.Length == |Prefix(src, n)| + 1
    ensures copy[..copy.Length - 1] == Prefix(src, n) && copy[copy.Length - 1] == NUL
    ensures Text(copy[..]) == Prefix(src, n)
  {
    var p := Prefix(src, n);
    copy := new char[|p| + 1](i requires 0 <= i < |p| + 1 => if i < |p| then p[i] else NUL);
    TextOf(copy[..], p);
  }

  /** The first character of `buf` at or after which scanning stops, seen from both texts. */
  lemma StopAt(before: seq<char>, k: nat, delim: char)
    requires NUL in before && delim != NUL && k < |before|
    requires NUL !in before[..k] && delim !in before[..k] && (before[k] == NUL || before[k] == delim)
    ensures var rest := Text(before);
            && k <= |rest| && before[..k] == rest[..k]
            && IndexOf(rest, delim) == k
            && (before[k] == NUL <==> k == |rest|)
  {
    var z := IndexOf(before, NUL);
    var rest := Text(before);
    assert k <= z;
    assert before[..k] == rest[..k];
    if before[k] == NUL { IndexOfUnique(before, NUL, k); }
    IndexOfUnique(rest, delim, k);
  }

  /** Terminating a buffer at `k` leaves the text before `k`, and the rest of the text after it. */
  lemma CutAt(before: seq<char>, k: nat)
    requires NUL in before && k < |Text(before)|
    ensures Text(before[k := NUL]) == Text(before)[..k]
    ensures NUL in before[k + 1..] && Text(before[k + 1..]) == Text(before)[k + 1..]
  {
    var z := IndexOf(before, NUL);
    IndexOfIn(before, NUL);
    var cut, tail := before[k := NUL], before[k + 1..];
    assert cut[..k] == Text(before)[..k];
    TextOf(cut, Text(before)[..k]);
    assert tail[z - k - 1] == NUL && tail[..z - k - 1] == Text(before)[k + 1..];
    TextOf(tail, Text(before)[k + 1..]);
  }

  /** A text starts at `at`. */
  predicate Terminated(buf: seq<char>, at: int) { 0 <= at <= |buf| && NUL in buf[at..] }

  function TextAt(buf: seq<char>, at: int): string
    requires Terminated(buf, at)
  { Text(buf[at..]) }

  /** What one call of `strsep(&p, delim)` does, where `at` is the offset of `p` before and `next` after it: the text
      from `at` on is terminated at its first delimiter and the rest of it starts behind; a text without delimiter is
      left as it is, and `next` is -1 for a null pointer. */
  predicate Separated(before: seq<char>, after: seq<char>, at: int, next: int, delim: char)
    requires Terminated(before, at)
  {
    var rest := TextAt(before, at);
    var i := IndexOf(rest, delim);
    && at + i < |before| && Terminated(after, at) && TextAt(after, at) == rest[..i]
    && if i == |rest| then next == -1 && after == before
       else next == at + i + 1 && after == before[at + i := NUL]
            && Terminated(after, next) && TextAt(after, next) == rest[i + 1..]
  }

  lemma CutText(all: seq<char>, at: nat, k: nat)
    requires Terminated(all, at) && k < |TextAt(all, at)| && at + k < |all|
    ensures var cut := all[at + k := NUL];
            && Terminated(cut, at) && TextAt(cut, at) == TextAt(all, at)[..k]
            && Terminated(cut, at + k + 1) && TextAt(cut, at + k + 1) == TextAt(all, at)[k + 1..]
  {
    CutAt(all[at..], k);
    assert all[at + k := NUL][at..] == all[at..][k := NUL];
    assert all[at + k := NUL][at + k + 1..] == all[at..][k + 1..];
    assert all[at + k := NUL][at..][k] == NUL;
  }

  lemma CutBuffer(all: seq<char>, at: nat, k: nat, delim: char)
    requires Terminated(all, at) && k < |TextAt(all, at)| && k == IndexOf(TextAt(all, at), delim) && at + k < |all|
    ensures Separated(all, all[at + k := NUL], at, at + k + 1, delim)
  {
    CutText(all, at, k);
  }

  lemma UncutBuffer(all: seq<char>, at: nat, delim: char)
    requires Terminated(all, at) && IndexOf(TextAt(all, at), delim) == |TextAt(all, at)|
    requires at + |TextAt(all, at)| < |all|
    ensures Separated(all, all, at, -1, delim)
  {
    assert TextAt(all, at)[..|TextAt(all, at)|] == TextAt(all, at);
  }

  /** The scan inside `strsep`: the offset of the first delimiter or NUL from `at` on. */
  method ScanToken(buf: array<char>, at: nat, delim: char) returns (k: nat)
    requires Terminated(buf[..], at) && delim != NUL
    ensures at + k < buf.Length && k == IndexOf(TextAt(buf[..], at), delim)
    ensures buf[at + k] == NUL <==> k == |TextAt(buf[..], at)|
  {
    ghost var rest := buf[..][at..];
    ghost var z := IndexOf(rest, NUL);
    IndexOfIn(rest, NUL);
    assert rest[z] == buf[at + z];
    k := 0;
    while buf[at + k] != NUL && buf[at + k] != delim
      invariant k <= z
      invariant NUL !in rest[..k] && delim !in rest[..k]
      decreases z - k
    {
      assert rest[k] == buf[at + k] && rest[..k + 1] == rest[..k] + [rest[k]];
      k := k + 1;
    }
    assert rest[k] == buf[at + k];
    StopAt(rest, k, delim);
  }

  /** One call of `strsep(&p, delim)` with `p == &buf[at]`. */
  method StrSep(buf: array<char>, at: nat, delim: char) returns (next: int)
    requires Terminated(buf[..], at) && delim != NUL
    modifies buf
    ensures Separated(old(buf[..]), buf[..], at, next, delim)
  {
    ghost var all := buf[..];
    var k := ScanToken(buf, at, delim);
    if buf[at + k] == NUL {
      UncutBuffer(all, at, delim);
      next := -1;
    } else {
      CutBuffer(all, at, k, delim);
      buf[at + k] := NUL;
      next := at + k + 1;
      assert buf[..] == all[at + k := NUL];
    }
  }

  /** `token = strsep(&p, delim)`, seen as taking the head of the list of pieces. */
  method NextToken(buf: array<char>, at: nat, delim: char) returns (token: string, next: int)
    requires Terminated(buf[..], at) && delim != NUL
    modifies buf
    ensures var ts := Split(TextAt(old(buf[..]), at), delim);
            && token == ts[0]
            && (next == -1 <==> |ts| == 1)
            && (next != -1 ==> Terminated(buf[..], next) && Split(TextAt(buf[..], next), delim) == ts[1..])
  {
    SplitHead(TextAt(buf[..], at), delim);
    next := StrSep(buf, at, delim);
    token := TextAt(buf[..], at);
  }
}
