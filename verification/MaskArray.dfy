/** The array of masks in the calibration file: how the calibrator prints it and how the daemon reads it. */
module MaskArray {
  import opened Options
  import opened Arithmetic

  const MAX_BANK_MASKS: nat := 32

  const TEXT_SIZE: nat := 64

  datatype Rc = Ok | JsonError | TooManyMasks | Rejected

  predicate IsSpace(c: char) {
    c == ' ' || c == '\t' || c == '\n' || c == '\r' || c == 11 as char || c == 12 as char
  }

  predicate Blank(s: string) {
    forall i :: 0 <= i < |s| ==> IsSpace(s[i])
  }

  // ----- Numbers

  function HexDigit(d: nat): char
    requires d < 16
  {
    if d < 10 then '0' + d as char else 'a' + (d - 10) as char
  }

  predicate IsHex(c: char) {
    '0' <= c <= '9' || 'a' <= c <= 'f' || 'A' <= c <= 'F'
  }

  function DigitValue(c: char): nat
    requires IsHex(c)
  {
    if c <= '9' then (c - '0') as nat else if c <= 'F' then (c - 'A') as nat + 10 else (c - 'a') as nat + 10
  }

  /** The last `n` hexadecimal digits. */
  function HexDigits(m: nat, n: nat): string {
    if n == 0 then "" else HexDigits(m / 16, n - 1) + [HexDigit(m % 16)]
  }

  /** A mask as the calibrator prints it. */
  function Printed(m: nat): string {
    "0x" + HexDigits(m, 16)
  }

  predicate AllHex(s: string) {
    forall i :: 0 <= i < |s| ==> IsHex(s[i])
  }

  function HexValue(s: string): nat
    requires AllHex(s)
  {
    if s == "" then 0 else HexValue(s[..|s| - 1]) * 16 + DigitValue(s[|s| - 1])
  }

  /** The number a whole text denotes to the C library, in the hexadecimal form; `other` says what it makes of the
      texts of any other form. */
  function NumberOf(other: string -> Option<nat>, s: string): Option<nat> {
    if |s| > 2 && s[0] == '0' && (s[1] == 'x' || s[1] == 'X') && AllHex(s[2..]) then
      if HexValue(s[2..]) < LIMIT then Some(HexValue(s[2..])) else None
    else other(s)
  }

  function Bound(n: nat): nat {
    if n == 0 then 1 else 16 * Bound(n - 1)
  }

  lemma {:induction false} HexRoundTrip(m: nat, n: nat)
    requires m < Bound(n)
    ensures |HexDigits(m, n)| == n && AllHex(HexDigits(m, n)) && HexValue(HexDigits(m, n)) == m
  {
    if n > 0 {
      HexRoundTrip(m / 16, n - 1);
      var s, d := HexDigits(m, n), m % 16;
      assert s[..n - 1] == HexDigits(m / 16, n - 1);
      DigitRoundTrip(d);
    }
  }

  lemma WordBound()
    ensures Bound(16) == LIMIT
  {
    assert Bound(4) == 16 * Bound(3) == 256 * Bound(2) == 0x1_0000;
    assert Bound(8) == 16 * Bound(7) == 256 * Bound(6) == 0x1000 * Bound(5) == 0x1_0000 * Bound(4);
    assert Bound(12) == 16 * Bound(11) == 256 * Bound(10) == 0x1000 * Bound(9) == 0x1_0000 * Bound(8);
    assert Bound(16) == 16 * Bound(15) == 256 * Bound(14) == 0x1000 * Bound(13) == 0x1_0000 * Bound(12);
  }

  lemma DigitRoundTrip(d: nat)
    requires d < 16
    ensures IsHex(HexDigit(d)) && DigitValue(HexDigit(d)) == d
  {
  }

  const LOWER := "0123456789abcdef"

  const UPPER := "0123456789ABCDEF"

  /** The digits are these, in either case, and their values are their places. */
  lemma DigitsMean(c: char)
    ensures IsHex(c) <==> c in LOWER || c in UPPER
    ensures forall d :: 0 <= d < 16 ==>
              && IsHex(LOWER[d]) && DigitValue(LOWER[d]) == d && IsHex(UPPER[d]) && DigitValue(UPPER[d]) == d
  {
    if '0' <= c <= '9' {
      assert LOWER[(c - '0') as nat] == c;
    } else if 'a' <= c <= 'f' {
      assert LOWER[(c - 'a') as nat + 10] == c;
    } else if 'A' <= c <= 'F' {
      assert UPPER[(c - 'A') as nat + 10] == c;
    }
  }

  /** A hexadecimal number is `0x` or `0X` and at least one digit; it must fit in 64 bits. */
  lemma NumberMeans(other: string -> Option<nat>, s: string)
    ensures forall digits :: digits != "" && AllHex(digits) && (s == "0x" + digits || s == "0X" + digits) ==>
              NumberOf(other, s) == if HexValue(digits) < LIMIT then Some(HexValue(digits)) else None
    ensures (forall digits :: digits != "" && AllHex(digits) ==> s != "0x" + digits && s != "0X" + digits) ==>
              NumberOf(other, s) == other(s)
  {
    if |s| > 2 {
      var digits := s[2..];
      assert s[..2] + digits == s;
      assert (s[0] == '0' && s[1] == 'x' ==> s == "0x" + digits) && (s[0] == '0' && s[1] == 'X' ==> s == "0X" + digits);
    }
    forall digits | digits != "" && AllHex(digits) && (s == "0x" + digits || s == "0X" + digits)
      ensures s[2..] == digits
    {
    }
  }

  /** Every 64-bit number is read back as printed. */
  lemma PrintedRoundTrip(other: string -> Option<nat>, m: nat)
    requires m < LIMIT
    ensures NumberOf(other, Printed(m)) == Some(m)
    ensures |Printed(m)| == 18 && forall i :: 0 <= i < 18 ==> Printed(m)[i] != '"' && Printed(m)[i] != '\\'
  {
    WordBound();
    HexRoundTrip(m, 16);
    assert Printed(m)[2..] == HexDigits(m, 16);
  }

  // ----- Reading the array

  function SkipSpace(s: string): string {
    if s != "" && IsSpace(s[0]) then SkipSpace(s[1..]) else s
  }

  /** The text up to the closing quote, and what follows it; a text must fit the buffer with its terminator. */
  function TakeText(s: string, text: string): Option<(string, string)> {
    if s == "" then None
    else if s[0] == '"' then Some((text, s[1..]))
    else if |text| + 1 >= TEXT_SIZE then None
    else TakeText(s[1..], text + [s[0]])
  }

  lemma {:induction false} SkipSpaceShorter(s: string)
    ensures |SkipSpace(s)| <= |s|
  {
    if s != "" && IsSpace(s[0]) {
      SkipSpaceShorter(s[1..]);
    }
  }

  lemma {:induction false} TakeTextShorter(s: string, text: string)
    ensures TakeText(s, text).Some? ==> |TakeText(s, text).value.1| < |s|
  {
    if s != "" && s[0] != '"' && |text| + 1 < TEXT_SIZE {
      TakeTextShorter(s[1..], text + [s[0]]);
    }
  }

  /** What is read from the inside of the array after some masks. */
  function ReadMasks(s: string, other: string -> Option<nat>, masks: seq<nat>): (Rc, seq<nat>)
    decreases |s|
  {
    var t := SkipSpace(s);
    SkipSpaceShorter(s);
    if t == "" then (if |masks| > 0 then Ok else Rejected, masks)
    else if t[0] == ',' then ReadMasks(t[1..], other, masks)
    else if t[0] != '"' then (JsonError, masks)
    else
      TakeTextShorter(t[1..], "");
      match TakeText(t[1..], "")
      case None => (JsonError, masks)
      case Some((text, rest)) =>
        if |masks| >= MAX_BANK_MASKS then (TooManyMasks, masks)
        else
          var number := NumberOf(other, text);
          if number.None? || number.value == 0 then (JsonError, masks)
          else ReadMasks(rest, other, masks + [number.value])
  }

  method SkipWs(text: string, p: nat, end: nat) returns (q: nat)
    requires p <= end <= |text|
    ensures p <= q <= end && text[q..end] == SkipSpace(text[p..end])
  {
    q := p;
    while q < end && IsSpace(text[q])
      invariant p <= q <= end && SkipSpace(text[q..end]) == SkipSpace(text[p..end])
    {
      assert text[q..end][1..] == text[q + 1..end];
      q := q + 1;
    }
  }

  /** Reads the text after an opening quote. */
  method ReadText(text: string, p: nat, end: nat) returns (read: Option<string>, q: nat)
    requires p <= end <= |text|
    ensures p <= q <= end
    ensures match TakeText(text[p..end], "")
            case None => read.None?
            case Some((word, rest)) => read == Some(word) && p < q && rest == text[q..end]
  {
    var word := "";
    q := p;
    while q < end && text[q] != '"'
      invariant p <= q <= end && TakeText(text[q..end], word) == TakeText(text[p..end], "")
    {
      if |word| + 1 >= TEXT_SIZE {
        return None, q;
      }
      assert text[q..end][1..] == text[q + 1..end];
      word := word + [text[q]];
      q := q + 1;
    }
    if q >= end {
      return None, q;
    }
    assert text[q..end][1..] == text[q + 1..end];
    return Some(word), q + 1;
  }

  method ParseBankMasks(text: string, begin: nat, end: nat, other: string -> Option<nat>)
      returns (rc: Rc, masks: seq<nat>)
    requires begin + 2 <= end <= |text|
    ensures (rc, masks) == ReadMasks(text[begin + 1..end - 1], other, [])
  {
    masks := [];
    var p, last := begin + 1, end - 1;
    while p < last
      invariant p <= last
      invariant ReadMasks(text[p..last], other, masks) == ReadMasks(text[begin + 1..last], other, [])
    {
      p := SkipWs(text, p, last);
      if p >= last {
        break;
      }
      assert text[p..last][1..] == text[p + 1..last];
      if text[p] == ',' {
        p := p + 1;
        continue;
      }
      if text[p] != '"' {
        return JsonError, masks;
      }
      var read;
      read, p := ReadText(text, p + 1, last);
      if read.None? {
        return JsonError, masks;
      }
      if |masks| >= MAX_BANK_MASKS {
        return TooManyMasks, masks;
      }
      var number := NumberOf(other, read.value);
      if number.None? || number.value == 0 {
        return JsonError, masks;
      }
      masks := masks + [number.value];
    }
    rc := if |masks| > 0 then Ok else Rejected;
  }

  // ----- Finding the end of the array

  /** How far a bracketed range reaches, from a point at a depth, inside or outside a quoted string. */
  function Scan(s: string, depth: int, inString: bool, escaped: bool, open: char, close: char): Option<nat> {
    if s == "" then None
    else if inString then
      Further(
        if escaped then Scan(s[1..], depth, true, false, open, close)
        else if s[0] == '\\' then Scan(s[1..], depth, true, true, open, close)
        else Scan(s[1..], depth, s[0] != '"', false, open, close), 1)
    else if s[0] == '"' then Further(Scan(s[1..], depth, true, escaped, open, close), 1)
    else if s[0] == open then Further(Scan(s[1..], depth + 1, false, escaped, open, close), 1)
    else if s[0] == close then
      if depth == 1 then Some(1) else Further(Scan(s[1..], depth - 1, false, escaped, open, close), 1)
    else Further(Scan(s[1..], depth, false, escaped, open, close), 1)
  }

  function Further(found: Option<nat>, n: nat): Option<nat> {
    if found.Some? then Some(found.value + n) else None
  }

  method ScanBalanced(text: string, at: nat, end: nat, open: char, close: char) returns (found: Option<nat>)
    requires end <= |text|
    ensures found == if at >= end || text[at] != open then None
                     else Further(Scan(text[at..end], 0, false, false, open, close), at)
  {
    if at >= end || text[at] != open {
      return None;
    }
    var depth := 0;
    var inString, escaped := false, false;
    for p := at to end
      invariant Further(Scan(text[at..end], 0, false, false, open, close), at)
             == Further(Scan(text[p..end], depth, inString, escaped, open, close), p)
    {
      var c := text[p];
      assert text[p..end][0] == c && text[p..end][1..] == text[p + 1..end];
      if inString {
        if escaped {
          escaped := false;
        } else if c == '\\' {
          escaped := true;
        } else if c == '"' {
          inString := false;
        }
        continue;
      }
      if c == '"' {
        inString := true;
        continue;
      }
      if c == open {
        depth := depth + 1;
      } else if c == close {
        depth := depth - 1;
        if depth == 0 {
          return Some(p + 1);
        }
      }
    }
    return None;
  }

  // ----- Structured text

  /** A character of a quoted string: itself, or escaped by a backslash. */
  datatype StringChar = Bare(c: char) | Escaped(c: char)

  /** Text with balanced brackets of one kind, in which quoted strings may hold anything. */
  datatype Pieces =
    | End
    | Plain(c: char, next: Pieces)
    | Quoted(chars: seq<StringChar>, next: Pieces)
    | Group(inner: Pieces, next: Pieces)

  function ShowChars(chars: seq<StringChar>): string {
    if chars == [] then ""
    else (match chars[0] case Bare(c) => [c] case Escaped(c) => ['\\', c]) + ShowChars(chars[1..])
  }

  function Show(p: Pieces, open: char, close: char): string {
    match p
    case End => ""
    case Plain(c, next) => [c] + Show(next, open, close)
    case Quoted(chars, next) => ['"'] + ShowChars(chars) + ['"'] + Show(next, open, close)
    case Group(inner, next) => [open] + Show(inner, open, close) + [close] + Show(next, open, close)
  }

  predicate WellFormedChars(chars: seq<StringChar>) {
    forall i :: 0 <= i < |chars| && chars[i].Bare? ==> chars[i].c != '"' && chars[i].c != '\\'
  }

  predicate WellFormed(p: Pieces, open: char, close: char) {
    match p
    case End => true
    case Plain(c, next) => c != '"' && c != open && c != close && WellFormed(next, open, close)
    case Quoted(chars, next) =>
      WellFormedChars(chars) && WellFormed(next, open, close)
    case Group(inner, next) => WellFormed(inner, open, close) && WellFormed(next, open, close)
  }

  /** A quoted string is skipped whatever it holds, escaped quotes and brackets included. */
  lemma {:induction false} ScanString(chars: seq<StringChar>, rest: string, depth: int, open: char, close: char)
    requires WellFormedChars(chars)
    ensures Scan(ShowChars(chars) + ['"'] + rest, depth, true, false, open, close)
         == Further(Scan(rest, depth, false, false, open, close), |ShowChars(chars)| + 1)
  {
    var s := ShowChars(chars) + ['"'] + rest;
    if chars == [] {
      assert s[1..] == rest;
    } else {
      var t := ShowChars(chars[1..]) + ['"'] + rest;
      ScanString(chars[1..], rest, depth, open, close);
      match chars[0]
      case Bare(c) =>
        assert s[0] == c && s[1..] == t;
      case Escaped(c) =>
        assert s[0] == '\\' && s[1..][0] == c && s[1..][1..] == t;
    }
  }

  /** One character outside strings. */
  lemma ScanStep(c: char, t: string, depth: int, open: char, close: char)
    requires open != close && open != '"' && close != '"'
    ensures Scan([c] + t, depth, false, false, open, close)
         == if c == '"' then Further(Scan(t, depth, true, false, open, close), 1)
            else if c == open then Further(Scan(t, depth + 1, false, false, open, close), 1)
            else if c == close then if depth == 1 then Some(1)
                else Further(Scan(t, depth - 1, false, false, open, close), 1)
            else Further(Scan(t, depth, false, false, open, close), 1)
  {
    assert ([c] + t)[1..] == t;
  }

  lemma FurtherTwice(found: Option<nat>, m: nat, n: nat, sum: nat)
    requires sum == m + n
    ensures Further(Further(found, m), n) == Further(found, sum)
  {
  }

  /** Inside a bracket, balanced text is passed over. */
  lemma {:induction false} ScanPieces(p: Pieces, rest: string, depth: int, open: char, close: char)
    requires WellFormed(p, open, close) && depth > 0 && open != close && open != '"' && close != '"'
    ensures Scan(Show(p, open, close) + rest, depth, false, false, open, close)
         == Further(Scan(rest, depth, false, false, open, close), |Show(p, open, close)|)
  {
    match p
    case End =>
      assert "" + rest == rest;
    case Plain(c, next) =>
      var after := Show(next, open, close) + rest;
      ScanPieces(next, rest, depth, open, close);
      ScanStep(c, after, depth, open, close);
      FurtherTwice(Scan(rest, depth, false, false, open, close), |Show(next, open, close)|, 1, |Show(p, open, close)|);
      assert [c] + after == Show(p, open, close) + rest;
    case Quoted(chars, next) =>
      ScanPieces(next, rest, depth, open, close);
      QuotedPiece(chars, Show(next, open, close), rest, depth, open, close);
    case Group(inner, next) =>
      var i, n := Show(inner, open, close), Show(next, open, close);
      ScanPieces(next, rest, depth, open, close);
      ScanPieces(inner, [close] + (n + rest), depth + 1, open, close);
      GroupPiece(i, n, rest, depth, open, close);
  }

  lemma QuotedPiece(chars: seq<StringChar>, next: string, rest: string, depth: int, open: char, close: char)
    requires WellFormedChars(chars)
    requires open != close && open != '"' && close != '"'
    requires Scan(next + rest, depth, false, false, open, close)
             == Further(Scan(rest, depth, false, false, open, close), |next|)
    ensures Scan(['"'] + ShowChars(chars) + ['"'] + next + rest, depth, false, false, open, close)
         == Further(Scan(rest, depth, false, false, open, close), |['"'] + ShowChars(chars) + ['"'] + next|)
  {
    var t := ShowChars(chars) + ['"'] + (next + rest);
    ScanString(chars, next + rest, depth, open, close);
    ScanStep('"', t, depth, open, close);
    assert ['"'] + t == ['"'] + ShowChars(chars) + ['"'] + next + rest;
  }

  lemma GroupPiece(inner: string, next: string, rest: string, depth: int, open: char, close: char)
    requires open != close && open != '"' && close != '"' && depth > 0
    requires Scan(next + rest, depth, false, false, open, close)
             == Further(Scan(rest, depth, false, false, open, close), |next|)
    requires Scan(inner + ([close] + (next + rest)), depth + 1, false, false, open, close)
          == Further(Scan([close] + (next + rest), depth + 1, false, false, open, close), |inner|)
    ensures Scan([open] + inner + [close] + next + rest, depth, false, false, open, close)
         == Further(Scan(rest, depth, false, false, open, close), |[open] + inner + [close] + next|)
  {
    var t := inner + ([close] + (next + rest));
    ScanStep(close, next + rest, depth + 1, open, close);
    ScanStep(open, t, depth, open, close);
    assert [open] + t == [open] + inner + [close] + next + rest;
  }

  /** The range found is exactly the bracketed text, whatever follows it. */
  lemma ScanGroup(inner: Pieces, rest: string, open: char, close: char)
    requires WellFormed(inner, open, close) && open != close && open != '"' && close != '"'
    ensures Scan([open] + Show(inner, open, close) + [close] + rest, 0, false, false, open, close)
         == Some(|Show(inner, open, close)| + 2)
  {
    var s := [open] + Show(inner, open, close) + [close] + rest;
    ScanPieces(inner, [close] + rest, 1, open, close);
    assert s[0] == open && s[1..] == Show(inner, open, close) + ([close] + rest);
  }

  // ----- What a range found consists of

  /** From inside a string, the scan goes on behind the quote that ends it. */
  lemma {:induction false} StringFound(s: string, depth: int, open: char, close: char)
      returns (chars: seq<StringChar>, rest: string)
    requires Scan(s, depth, true, false, open, close).Some?
    ensures WellFormedChars(chars) && s == ShowChars(chars) + ['"'] + rest
    ensures Scan(s, depth, true, false, open, close)
         == Further(Scan(rest, depth, false, false, open, close), |ShowChars(chars)| + 1)
    decreases |s|
  {
    if s[0] == '"' {
      chars, rest := [], s[1..];
    } else if s[0] == '\\' {
      var more;
      more, rest := StringFound(s[1..][1..], depth, open, close);
      chars := [Escaped(s[1])] + more;
      assert chars[1..] == more;
      assert s == ['\\', s[1]] + s[1..][1..];
      FurtherTwice(Scan(rest, depth, false, false, open, close), |ShowChars(more)| + 1, 2, |ShowChars(chars)| + 1);
    } else {
      var more;
      more, rest := StringFound(s[1..], depth, open, close);
      chars := [Bare(s[0])] + more;
      assert chars[1..] == more;
      FurtherTwice(Scan(rest, depth, false, false, open, close), |ShowChars(more)| + 1, 1, |ShowChars(chars)| + 1);
    }
  }

  predicate AllWellFormed(levels: seq<Pieces>, open: char, close: char) {
    forall i :: 0 <= i < |levels| ==> WellFormed(levels[i], open, close)
  }

  /** The text that closes some brackets, with what comes before each closing one. */
  function Closing(levels: seq<Pieces>, open: char, close: char): string {
    if levels == [] then "" else Show(levels[0], open, close) + [close] + Closing(levels[1..], open, close)
  }

  /** A scan at a depth ends behind text that closes that many brackets. */
  lemma {:induction false} LevelsFound(s: string, depth: nat, open: char, close: char)
      returns (levels: seq<Pieces>, rest: string)
    requires depth > 0 && open != close && open != '"' && close != '"'
    requires Scan(s, depth, false, false, open, close).Some?
    ensures |levels| == depth && AllWellFormed(levels, open, close) && s == Closing(levels, open, close) + rest
    ensures Scan(s, depth, false, false, open, close) == Some(|Closing(levels, open, close)|)
    decreases |s|
  {
    var c, t := s[0], s[1..];
    assert s == [c] + t;
    ScanStep(c, t, depth, open, close);
    if c == '"' {
      levels, rest := QuotedFound(t, depth, open, close);
    } else if c == open {
      var more;
      more, rest := LevelsFound(t, depth + 1, open, close);
      OpenedLevel(more, open, close);
      levels := [Group(more[0], more[1])] + more[2..];
      OneLonger(c, Closing(more, open, close), Closing(levels, open, close), rest);
    } else if c == close && depth == 1 {
      levels, rest := [End], t;
      assert Closing([End], open, close) == [close];
    } else if c == close {
      var more;
      more, rest := LevelsFound(t, depth - 1, open, close);
      ClosedLevel(more, open, close);
      levels := [End] + more;
      OneLonger(c, Closing(more, open, close), Closing(levels, open, close), rest);
    } else {
      var more;
      more, rest := LevelsFound(t, depth, open, close);
      PlainLevel(c, more, open, close);
      levels := [Plain(c, more[0])] + more[1..];
      OneLonger(c, Closing(more, open, close), Closing(levels, open, close), rest);
    }
  }

  lemma OneLonger(c: char, text: string, longer: string, rest: string)
    requires longer == [c] + text
    ensures longer + rest == [c] + (text + rest) && |longer| == |text| + 1
  {
  }

  /** The case of a string: `t` is what follows its opening quote. */
  lemma {:induction false} QuotedFound(t: string, depth: nat, open: char, close: char)
      returns (levels: seq<Pieces>, rest: string)
    requires depth > 0 && open != close && open != '"' && close != '"'
    requires Scan(t, depth, true, false, open, close).Some?
    ensures |levels| == depth && AllWellFormed(levels, open, close) && ['"'] + t == Closing(levels, open, close) + rest
    ensures Further(Scan(t, depth, true, false, open, close), 1) == Some(|Closing(levels, open, close)|)
    decreases |t|
  {
    var chars, after := StringFound(t, depth, open, close);
    var more;
    more, rest := LevelsFound(after, depth, open, close);
    QuotedLevel(chars, more, open, close);
    levels := [Quoted(chars, more[0])] + more[1..];
    OneLonger('"', ShowChars(chars) + ['"'] + Closing(more, open, close), Closing(levels, open, close), rest);
  }

  lemma QuotedLevel(chars: seq<StringChar>, levels: seq<Pieces>, open: char, close: char)
    requires levels != [] && AllWellFormed(levels, open, close) && WellFormedChars(chars)
    ensures var levels' := [Quoted(chars, levels[0])] + levels[1..];
            && AllWellFormed(levels', open, close)
            && Closing(levels', open, close) == ['"'] + (ShowChars(chars) + ['"'] + Closing(levels, open, close))
  {
    var levels' := [Quoted(chars, levels[0])] + levels[1..];
    assert levels'[1..] == levels[1..];
  }

  lemma OpenedLevel(levels: seq<Pieces>, open: char, close: char)
    requires |levels| >= 2 && AllWellFormed(levels, open, close)
    ensures var levels' := [Group(levels[0], levels[1])] + levels[2..];
            && AllWellFormed(levels', open, close)
            && Closing(levels', open, close) == [open] + Closing(levels, open, close)
  {
    var levels' := [Group(levels[0], levels[1])] + levels[2..];
    assert levels'[1..] == levels[2..] == levels[1..][1..] && levels[1..][0] == levels[1];
  }

  lemma ClosedLevel(levels: seq<Pieces>, open: char, close: char)
    requires AllWellFormed(levels, open, close)
    ensures AllWellFormed([End] + levels, open, close)
    ensures Closing([End] + levels, open, close) == [close] + Closing(levels, open, close)
  {
    assert ([End] + levels)[1..] == levels;
  }

  lemma PlainLevel(c: char, levels: seq<Pieces>, open: char, close: char)
    requires levels != [] && AllWellFormed(levels, open, close) && c != '"' && c != open && c != close
    ensures var levels' := [Plain(c, levels[0])] + levels[1..];
            && AllWellFormed(levels', open, close)
            && Closing(levels', open, close) == [c] + Closing(levels, open, close)
  {
    var levels' := [Plain(c, levels[0])] + levels[1..];
    assert levels'[1..] == levels[1..];
  }

  /** Whatever the text, a range that is found is bracketed text with balanced brackets. */
  lemma FoundIsGroup(s: string, open: char, close: char) returns (inner: Pieces)
    requires s != "" && s[0] == open && open != close && open != '"' && close != '"'
    requires Scan(s, 0, false, false, open, close).Some?
    ensures WellFormed(inner, open, close)
    ensures var n := Scan(s, 0, false, false, open, close).value;
            n <= |s| && s[..n] == [open] + Show(inner, open, close) + [close]
  {
    assert s == [open] + s[1..];
    ScanStep(open, s[1..], 0, open, close);
    var levels, rest := LevelsFound(s[1..], 1, open, close);
    inner := levels[0];
    assert levels[1..] == [];
    assert Closing(levels, open, close) == Show(inner, open, close) + [close];
    assert s == [open] + Show(inner, open, close) + [close] + rest;
  }

  // ----- Round trip

  /** White space around one element of the array. */
  datatype Gap = Gap(before: string, after: string)

  function Spaces(s: string, next: Pieces): Pieces {
    if s == "" then next else Plain(s[0], Spaces(s[1..], next))
  }

  function BareChars(s: string): seq<StringChar> {
    seq(|s|, i requires 0 <= i < |s| => Bare(s[i]))
  }

  /** The inside of the array as the calibrator prints it, with any white space around the elements. */
  function Elements(masks: seq<nat>, gaps: seq<Gap>, first: bool): Pieces
    requires |gaps| == |masks|
  {
    if masks == [] then End
    else
      var element := Spaces(gaps[0].before,
          Quoted(BareChars(Printed(masks[0])), Spaces(gaps[0].after, Elements(masks[1..], gaps[1..], false))));
      if first then element else Plain(',', element)
  }

  ghost predicate BlankGaps(gaps: seq<Gap>) {
    forall i :: 0 <= i < |gaps| ==> Blank(gaps[i].before) && Blank(gaps[i].after)
  }

  ghost predicate Words64(masks: seq<nat>) {
    forall i :: 0 <= i < |masks| ==> 0 < masks[i] < LIMIT
  }

  lemma {:induction false} ShowSpaces(s: string, next: Pieces)
    ensures Show(Spaces(s, next), '[', ']') == s + Show(next, '[', ']')
    ensures Blank(s) && WellFormed(next, '[', ']') ==> WellFormed(Spaces(s, next), '[', ']')
  {
    if s != "" {
      ShowSpaces(s[1..], next);
    }
  }

  lemma {:induction false} ShowBare(s: string)
    ensures ShowChars(BareChars(s)) == s
  {
    if s != "" {
      ShowBare(s[1..]);
      assert BareChars(s)[1..] == BareChars(s[1..]);
    }
  }

  lemma {:induction false} ElementsWellFormed(masks: seq<nat>, gaps: seq<Gap>, first: bool)
    requires |gaps| == |masks| && BlankGaps(gaps) && Words64(masks)
    ensures WellFormed(Elements(masks, gaps, first), '[', ']')
  {
    if masks != [] {
      ElementsWellFormed(masks[1..], gaps[1..], false);
      PrintedRoundTrip(_ => None, masks[0]);
      var next := Elements(masks[1..], gaps[1..], false);
      ShowSpaces(gaps[0].after, next);
      ShowSpaces(gaps[0].before, Quoted(BareChars(Printed(masks[0])), Spaces(gaps[0].after, next)));
    }
  }

  lemma {:induction false} SkipBlank(w: string, s: string)
    requires Blank(w)
    ensures SkipSpace(w + s) == SkipSpace(s)
  {
    if w != "" {
      assert (w + s)[1..] == w[1..] + s;
      SkipBlank(w[1..], s);
    } else {
      assert w + s == s;
    }
  }

  lemma {:induction false} TakeWhole(word: string, rest: string, text: string)
    requires |text| + |word| < TEXT_SIZE && forall i :: 0 <= i < |word| ==> word[i] != '"'
    ensures TakeText(word + ['"'] + rest, text) == Some((text + word, rest))
  {
    var s := word + ['"'] + rest;
    if word == "" {
      assert s[1..] == rest && text + word == text;
    } else {
      assert s[1..] == word[1..] + ['"'] + rest && s[0] == word[0];
      TakeWhole(word[1..], rest, text + [s[0]]);
      assert text + [s[0]] + word[1..] == text + word;
    }
  }

  lemma ReadSkips(w: string, s: string, other: string -> Option<nat>, masks: seq<nat>)
    requires Blank(w)
    ensures ReadMasks(w + s, other, masks) == ReadMasks(s, other, masks)
  {
    SkipBlank(w, s);
  }

  lemma ReadComma(s: string, other: string -> Option<nat>, masks: seq<nat>)
    ensures ReadMasks([','] + s, other, masks) == ReadMasks(s, other, masks)
  {
    assert ([','] + s)[1..] == s;
  }

  /** One element is read as the mask it was printed from. */
  lemma ReadElement(m: nat, rest: string, other: string -> Option<nat>, masks: seq<nat>)
    requires 0 < m < LIMIT
    ensures ReadMasks(['"'] + Printed(m) + ['"'] + rest, other, masks)
         == if |masks| >= MAX_BANK_MASKS then (TooManyMasks, masks) else ReadMasks(rest, other, masks + [m])
  {
    PrintedRoundTrip(other, m);
    var s := ['"'] + Printed(m) + ['"'] + rest;
    assert s[1..] == Printed(m) + ['"'] + rest;
    TakeWhole(Printed(m), rest, "");
    assert "" + Printed(m) == Printed(m);
  }

  /** The text of the first element, followed by that of the others. */
  lemma ShowElement(masks: seq<nat>, gaps: seq<Gap>, first: bool)
    requires |gaps| == |masks| > 0
    ensures var tail := Show(Elements(masks[1..], gaps[1..], false), '[', ']');
            var body := ['"'] + Printed(masks[0]) + ['"'] + (gaps[0].after + tail);
            Show(Elements(masks, gaps, first), '[', ']') == if first then gaps[0].before + body
                else [','] + (gaps[0].before + body)
  {
    var next := Elements(masks[1..], gaps[1..], false);
    var quoted := Quoted(BareChars(Printed(masks[0])), Spaces(gaps[0].after, next));
    ShowSpaces(gaps[0].after, next);
    ShowBare(Printed(masks[0]));
    assert Show(quoted, '[', ']') == ['"'] + Printed(masks[0]) + ['"'] + (gaps[0].after + Show(next, '[', ']'));
    ShowSpaces(gaps[0].before, quoted);
  }

  /** The first element is read, or refused, before the others. */
  lemma ReadFirst(masks: seq<nat>, gaps: seq<Gap>, first: bool, other: string -> Option<nat>, before: seq<nat>)
    requires |gaps| == |masks| > 0 && BlankGaps(gaps) && Words64(masks)
    ensures ReadMasks(Show(Elements(masks, gaps, first), '[', ']'), other, before)
         == if |before| >= MAX_BANK_MASKS then (TooManyMasks, before)
            else ReadMasks(Show(Elements(masks[1..], gaps[1..], false), '[', ']'), other, before + [masks[0]])
  {
    var tail := Show(Elements(masks[1..], gaps[1..], false), '[', ']');
    var body := ['"'] + Printed(masks[0]) + ['"'] + (gaps[0].after + tail);
    ShowElement(masks, gaps, first);
    if !first {
      ReadComma(gaps[0].before + body, other, before);
    }
    ReadSkips(gaps[0].before, body, other, before);
    ReadElement(masks[0], gaps[0].after + tail, other, before);
    ReadSkips(gaps[0].after, tail, other, before + [masks[0]]);
  }

  lemma {:induction false} ReadElements(
    masks: seq<nat>, gaps: seq<Gap>, first: bool, other: string -> Option<nat>, before: seq<nat>)
    requires |gaps| == |masks| && BlankGaps(gaps) && Words64(masks) && |before| + |masks| > 0
             && |before| <= MAX_BANK_MASKS
    ensures ReadMasks(Show(Elements(masks, gaps, first), '[', ']'), other, before)
         == if |before| + |masks| <= MAX_BANK_MASKS then (Ok, before + masks)
            else (TooManyMasks, before + masks[..MAX_BANK_MASKS - |before|])
    decreases |masks|
  {
    if masks == [] {
      assert before + masks == before;
    } else {
      ReadFirst(masks, gaps, first, other, before);
      if |before| < MAX_BANK_MASKS {
        ReadElements(masks[1..], gaps[1..], false, other, before + [masks[0]]);
        FirstOfMasks(masks, before);
      } else {
        assert before + masks[..0] == before;
      }
    }
  }

  lemma FirstOfMasks(masks: seq<nat>, before: seq<nat>)
    requires masks != [] && |before| < MAX_BANK_MASKS
    ensures before + [masks[0]] + masks[1..] == before + masks
    ensures |before| + |masks| > MAX_BANK_MASKS ==>
              before + [masks[0]] + masks[1..][..MAX_BANK_MASKS - |before| - 1]
                  == before + masks[..MAX_BANK_MASKS - |before|]
  {
  }

  /** The text of the array. */
  function ArrayText(masks: seq<nat>, gaps: seq<Gap>): string
    requires |gaps| == |masks|
  {
    ['['] + Show(Elements(masks, gaps, true), '[', ']') + [']']
  }

  /** Any list of nonzero 64-bit masks, printed with any white space in any file, is delimited exactly and read back as
      it was if there are at most 32, and is refused as too long otherwise. */
  lemma PrintParseRoundTrip(
    prefix: string, masks: seq<nat>, gaps: seq<Gap>, suffix: string, other: string -> Option<nat>, text: string,
    end: nat)
    requires masks != [] && |gaps| == |masks| && BlankGaps(gaps) && Words64(masks)
    requires text == prefix + ArrayText(masks, gaps) + suffix && end == |prefix| + |ArrayText(masks, gaps)|
    ensures text[|prefix|] == '[' && Further(Scan(text[|prefix|..], 0, false, false, '[', ']'), |prefix|) == Some(end)
    ensures ReadMasks(text[|prefix| + 1..end - 1], other, [])
         == if |masks| <= MAX_BANK_MASKS then (Ok, masks) else (TooManyMasks, masks[..MAX_BANK_MASKS])
  {
    var inner := Show(Elements(masks, gaps, true), '[', ']');
    ElementsWellFormed(masks, gaps, true);
    ScanGroup(Elements(masks, gaps, true), suffix, '[', ']');
    InText(prefix, inner, suffix, text);
    ReadArray(masks, gaps, other);
  }

  lemma InText(prefix: string, inner: string, suffix: string, text: string)
    requires text == prefix + (['['] + inner + [']']) + suffix
    ensures text[|prefix|..] == ['['] + inner + [']'] + suffix
    ensures text[|prefix| + 1..|prefix| + |inner| + 1] == inner
  {
  }

  lemma ReadArray(masks: seq<nat>, gaps: seq<Gap>, other: string -> Option<nat>)
    requires masks != [] && |gaps| == |masks| && BlankGaps(gaps) && Words64(masks)
    ensures ReadMasks(Show(Elements(masks, gaps, true), '[', ']'), other, [])
         == if |masks| <= MAX_BANK_MASKS then (Ok, masks) else (TooManyMasks, masks[..MAX_BANK_MASKS])
  {
    ReadElements(masks, gaps, true, other, []);
    assert [] + masks == masks;
    if |masks| > MAX_BANK_MASKS {
      assert [] + masks[..MAX_BANK_MASKS] == masks[..MAX_BANK_MASKS];
    }
  }

  // ----- What is accepted

  /** The inside of an array: white space and commas anywhere, and quoted texts. */
  datatype Token = Filler(c: char) | Word(text: string)

  function TokenText(token: Token): string {
    match token
    case Filler(c) => [c]
    case Word(text) => ['"'] + text + ['"']
  }

  function TextOf(tokens: seq<Token>): string {
    if tokens == [] then "" else TokenText(tokens[0]) + TextOf(tokens[1..])
  }

  /** Gaps are white space or commas; a text has at most 63 characters, no quote among them, and is a nonzero number. */
  predicate GoodToken(token: Token, other: string -> Option<nat>) {
    match token
    case Filler(c) => c in " \t\n\r," || c == 11 as char || c == 12 as char
    case Word(text) =>
      && |text| <= 63 && (forall i :: 0 <= i < |text| ==> text[i] != '"')
      && NumberOf(other, text).Some? && NumberOf(other, text).value != 0
  }

  predicate GoodTokens(tokens: seq<Token>, other: string -> Option<nat>) {
    forall i :: 0 <= i < |tokens| ==> GoodToken(tokens[i], other)
  }

  /** The numbers the quoted texts denote. */
  function Numbers(tokens: seq<Token>, other: string -> Option<nat>): seq<nat>
    requires GoodTokens(tokens, other)
  {
    if tokens == [] then []
    else
      assert forall i :: 0 <= i < |tokens| - 1 ==> tokens[1..][i] == tokens[i + 1];
      if tokens[0].Word? then [NumberOf(other, tokens[0].text).value] + Numbers(tokens[1..], other)
      else Numbers(tokens[1..], other)
  }

  /** One more token in front. */
  lemma MoreGood(token: Token, rest: seq<Token>, other: string -> Option<nat>)
    requires GoodToken(token, other) && GoodTokens(rest, other)
    ensures GoodTokens([token] + rest, other)
  {
  }

  lemma MoreText(token: Token, rest: seq<Token>)
    ensures TextOf([token] + rest) == TokenText(token) + TextOf(rest)
  {
    assert ([token] + rest)[1..] == rest;
  }

  lemma MoreFiller(c: char, rest: seq<Token>, other: string -> Option<nat>)
    requires GoodTokens(rest, other) && GoodTokens([Filler(c)] + rest, other)
    ensures Numbers([Filler(c)] + rest, other) == Numbers(rest, other)
  {
    assert ([Filler(c)] + rest)[1..] == rest;
  }

  lemma MoreNumbers(text: string, rest: seq<Token>, other: string -> Option<nat>, masks: seq<nat>)
    requires GoodTokens(rest, other) && GoodTokens([Word(text)] + rest, other)
    requires NumberOf(other, text).Some?
    ensures masks + [NumberOf(other, text).value] + Numbers(rest, other)
         == masks + Numbers([Word(text)] + rest, other)
  {
    assert ([Word(text)] + rest)[1..] == rest;
  }

  /** Any sequence of good tokens with 1 to 32 texts is read as their numbers. */
  lemma {:induction false} TokensAccepted(tokens: seq<Token>, other: string -> Option<nat>, masks: seq<nat>)
    requires GoodTokens(tokens, other) && 1 <= |masks| + |Numbers(tokens, other)| <= 32
    ensures ReadMasks(TextOf(tokens), other, masks) == (Ok, masks + Numbers(tokens, other))
    decreases |tokens|
  {
    if tokens == [] {
      assert masks + Numbers(tokens, other) == masks;
    } else {
      var rest := tokens[1..];
      assert tokens == [tokens[0]] + rest;
      MoreText(tokens[0], rest);
      match tokens[0] {
        case Filler(c) =>
          MoreFiller(c, rest, other);
          TokensAccepted(rest, other, masks);
          FillerRead(c, TextOf(rest), other, masks);
        case Word(text) =>
          MoreNumbers(text, rest, other, masks);
          WordRead(text, TextOf(rest), other, masks);
          TokensAccepted(rest, other, masks + [NumberOf(other, text).value]);
      }
    }
  }

  lemma FillerRead(c: char, rest: string, other: string -> Option<nat>, masks: seq<nat>)
    requires IsSpace(c) || c == ','
    ensures ReadMasks([c] + rest, other, masks) == ReadMasks(rest, other, masks)
  {
    if c == ',' {
      ReadComma(rest, other, masks);
    } else {
      ReadSkips([c], rest, other, masks);
    }
  }

  lemma WordRead(text: string, rest: string, other: string -> Option<nat>, masks: seq<nat>)
    requires GoodToken(Word(text), other) && |masks| < 32
    ensures ReadMasks(['"'] + text + ['"'] + rest, other, masks)
         == ReadMasks(rest, other, masks + [NumberOf(other, text).value])
  {
    var s := ['"'] + text + ['"'] + rest;
    assert s[1..] == text + ['"'] + rest;
    TakeWhole(text, rest, "");
    assert "" + text == text;
  }

  lemma AcceptedFiller(s: string, other: string -> Option<nat>, masks: seq<nat>)
    requires s != "" && (IsSpace(s[0]) || s[0] == ',')
    ensures ReadMasks(s, other, masks) == ReadMasks(s[1..], other, masks)
    ensures s == TokenText(Filler(s[0])) + s[1..]
  {
  }

  lemma AcceptedWord(s: string, other: string -> Option<nat>, masks: seq<nat>) returns (text: string, after: string)
    requires s != "" && !IsSpace(s[0]) && s[0] != ',' && |masks| <= 32 && ReadMasks(s, other, masks).0 == Ok
    ensures s == TokenText(Word(text)) + after && GoodToken(Word(text), other) && |masks| < 32
    ensures ReadMasks(s, other, masks) == ReadMasks(after, other, masks + [NumberOf(other, text).value])
  {
    assert SkipSpace(s) == s;
    var taken := TakeText(s[1..], "").value;
    text, after := taken.0, taken.1;
    TakenText(s[1..], "");
    assert "" + s[1..] == s[1..] && s == ['"'] + s[1..];
  }

  /** And nothing else is accepted. */
  lemma {:induction false} AcceptedTokens(s: string, other: string -> Option<nat>, masks: seq<nat>)
      returns (tokens: seq<Token>)
    requires |masks| <= 32 && ReadMasks(s, other, masks).0 == Ok
    ensures GoodTokens(tokens, other) && s == TextOf(tokens)
    ensures ReadMasks(s, other, masks).1 == masks + Numbers(tokens, other)
    ensures 1 <= |masks| + |Numbers(tokens, other)| <= 32
    decreases |s|
  {
    if s == "" {
      tokens := [];
      assert masks + Numbers(tokens, other) == masks;
    } else if IsSpace(s[0]) || s[0] == ',' {
      AcceptedFiller(s, other, masks);
      var rest := AcceptedTokens(s[1..], other, masks);
      tokens := [Filler(s[0])] + rest;
      MoreGood(Filler(s[0]), rest, other);
      MoreText(Filler(s[0]), rest);
      MoreFiller(s[0], rest, other);
    } else {
      var text, after := AcceptedWord(s, other, masks);
      var rest := AcceptedTokens(after, other, masks + [NumberOf(other, text).value]);
      tokens := [Word(text)] + rest;
      MoreGood(Word(text), rest, other);
      MoreText(Word(text), rest);
      MoreNumbers(text, rest, other, masks);
    }
  }

  /** A text taken ends at the first quote and fits the buffer. */
  lemma {:induction false} TakenText(s: string, text: string)
    requires TakeText(s, text).Some? && |text| <= 63 && forall i :: 0 <= i < |text| ==> text[i] != '"'
    ensures var (taken, after) := TakeText(s, text).value;
            && text + s == taken + ['"'] + after
            && |taken| <= 63 && forall i :: 0 <= i < |taken| ==> taken[i] != '"'
  {
    if s[0] == '"' {
      assert s == ['"'] + s[1..];
    } else {
      TakenText(s[1..], text + [s[0]]);
      assert text + [s[0]] + s[1..] == text + s;
    }
  }
}
