/**
 * What the recursive-descent parser of json.c computes, as functions of the
 * input bytes: where each piece of the grammar ends, the value it denotes,
 * and the error (kind and offset) at which it stops. The parser's mutable
 * state (module JsonParser) is proved to follow these functions step by
 * step.
 */
module JsonGrammar {
  import opened Wrappers
  import opened Bytes
  import opened JsonValues

  /** MAX_JSON_DEPTH: a container entered deeper than this is refused. */
  const MAX_JSON_DEPTH: nat := 1000

  /** One constructor per message that set_error can record. */
  datatype ErrorKind =
    | UnterminatedEscape        // "Unterminated escape"
    | ControlCharacter          // "Control character in string"
    | UnterminatedString        // "Unterminated string"
    | UnicodeEscapeTruncated    // "Invalid unicode escape"
    | UnicodeEscapeBadDigit     // "Invalid unicode escape character"
    | InvalidEscape             // "Invalid escape sequence"
    | InvalidNumber             // "Invalid number format"
    | DepthExceeded             // "Maximum JSON depth exceeded"
    | UnexpectedEndInArray      // "Unexpected end of input in array"
    | TrailingCommaInArray      // "Trailing comma in array"
    | ExpectedCommaOrBracket    // "Expected ',' or ']'"
    | UnclosedArray             // "Unclosed array"
    | ExpectedKey               // "Expected string key"
    | ExpectedColon             // "Expected ':' after key"
    | UnexpectedEndInObject     // "Unexpected end of input in object"
    | TrailingCommaInObject     // "Trailing comma in object"
    | ExpectedCommaOrBrace      // "Expected ',' or '}'"
    | UnclosedObject            // "Unclosed object"
    | UnexpectedEnd             // "Unexpected end of input"
    | UnexpectedChar(c: byte)   // "Unexpected character '%c'"
    | TrailingGarbage           // "Unexpected garbage after JSON data"

  /** A 1-based line and column. */
  datatype Pos = Pos(line: nat, col: nat)

  /** JsonError without its message text: the kind, the position and the byte offset. */
  datatype JsonError = JsonError(kind: ErrorKind, line: nat, col: nat, offset: nat)

  /** A piece of the grammar read from some offset: its value and where it ends, or an error. */
  datatype Outcome<T> = Done(value: T, next: nat) | Fail(kind: ErrorKind, at: nat)

  /**
   * The line and column of offset `k`: a line feed starts a new line at
   * column 1, any other byte moves one column on.
   */
  function Position(s: seq<byte>, k: nat): (pos: Pos)
    requires k <= |s|
    ensures pos.line >= 1 && pos.col >= 1
    decreases k
  {
    if k == 0 then Pos(1, 1)
    else
      var pos := Position(s, k - 1);
      if s[k - 1] == '\n' then Pos(pos.line + 1, 1) else Pos(pos.line, pos.col + 1)
  }

  /** The number of line feeds in `t`. */
  function LineFeeds(t: seq<byte>): (n: nat)
    decreases |t|
  {
    if t == [] then 0 else LineFeeds(t[..|t| - 1]) + (if t[|t| - 1] == '\n' then 1 else 0)
  }

  /**
   * The line is one more than the line feeds before `k`, and the column
   * counts the bytes since the last line feed (or since the start).
   */
  lemma {:induction false} PositionCounts(s: seq<byte>, k: nat)
    requires k <= |s|
    ensures Position(s, k).line == 1 + LineFeeds(s[..k])
    ensures var c := Position(s, k).col;
      && c <= k + 1
      && (forall i :: k + 1 - c <= i < k ==> s[i] != '\n')
      && (c <= k ==> s[k - c] == '\n')
    decreases k
  {
    if k > 0 {
      PositionCounts(s, k - 1);
      assert s[..k][..k - 1] == s[..k - 1];
    }
  }

  /** advance_fast: over bytes that are not line feeds, the column moves by their number. */
  lemma {:induction false} PositionOverLine(s: seq<byte>, k: nat, n: nat)
    requires k + n <= |s|
    requires forall i :: k <= i < k + n ==> s[i] != '\n'
    ensures Position(s, k + n) == Pos(Position(s, k).line, Position(s, k).col + n)
    decreases n
  {
    if n > 0 {
      PositionOverLine(s, k, n - 1);
    }
  }

  /** The error that set_error records when the cursor is at `at`. */
  function ErrorAt(s: seq<byte>, kind: ErrorKind, at: nat): (e: JsonError)
    requires at <= |s|
    ensures e.offset == at && e.kind == kind
    ensures Pos(e.line, e.col) == Position(s, at)
  {
    var pos := Position(s, at);
    JsonError(kind, pos.line, pos.col, at)
  }

  /** skip_whitespace: where the run of whitespace starting at `p` ends. */
  function SkipWs(s: seq<byte>, p: nat): (q: nat)
    requires p <= |s|
    ensures p <= q <= |s|
    decreases |s| - p
  {
    if p < |s| && IsWhitespace(s[p]) then SkipWs(s, p + 1) else p
  }

  /** What SkipWs skips is whitespace, and it stops at the end or at a byte that is not. */
  lemma {:induction false} SkipWsSpans(s: seq<byte>, p: nat)
    requires p <= |s|
    ensures forall i :: p <= i < SkipWs(s, p) ==> IsWhitespace(s[i])
    ensures SkipWs(s, p) < |s| ==> !IsWhitespace(s[SkipWs(s, p)])
    decreases |s| - p
  {
    if p < |s| && IsWhitespace(s[p]) {
      SkipWsSpans(s, p + 1);
    }
  }

  /* ---------------------------------------------------------------- */
  /* Strings                                                          */
  /* ---------------------------------------------------------------- */

  /** A byte the escape-free path copies as it is: printable, not `\` and not `"`. */
  predicate Plain(c: byte) {
    c as int >= 0x20 && c != '\\' && c != '"'
  }

  /** What the scan for the closing quote finds. */
  datatype Scan = Closed(close: nat, escapes: bool) | Broken(kind: ErrorKind)

  /**
   * The first loop of parse_string, from offset `i` with `escapes` seen so
   * far: a backslash makes the next byte part of the string whatever it is;
   * an unescaped byte below 0x20 is refused.
   */
  function ScanString(s: seq<byte>, i: nat, escapes: bool): (r: Scan)
    requires i <= |s|
    ensures r.Closed? ==> i <= r.close < |s| && s[r.close] == '"'
    ensures r.Broken? ==> r.kind in {UnterminatedString, UnterminatedEscape, ControlCharacter}
    decreases |s| - i
  {
    if i == |s| then Broken(UnterminatedString)
    else if s[i] == '"' then Closed(i, escapes)
    else if s[i] == '\\' then
      if i + 1 == |s| then Broken(UnterminatedEscape) else ScanString(s, i + 2, true)
    else if s[i] as int < 0x20 then Broken(ControlCharacter)
    else ScanString(s, i + 1, escapes)
  }

  /**
   * A scan that closes without having met a backslash went over plain
   * bytes only; one that met a backslash saw one at or after `i`, unless
   * it had already seen one before.
   */
  lemma {:induction false} ScanSpans(s: seq<byte>, i: nat, escapes: bool)
    requires i <= |s|
    ensures var r := ScanString(s, i, escapes);
      r.Closed? && !r.escapes ==> !escapes && forall j :: i <= j < r.close ==> Plain(s[j])
    ensures var r := ScanString(s, i, escapes);
      r.Closed? && r.escapes ==> escapes || exists j :: i <= j < r.close && s[j] == '\\'
    decreases |s| - i
  {
    if i < |s| && s[i] != '"' {
      if s[i] == '\\' {
        if i + 1 < |s| {
          ScanSpans(s, i + 2, true);
        }
      } else if s[i] as int >= 0x20 {
        ScanSpans(s, i + 1, escapes);
      }
    }
  }

  /**
   * The three ways the scan fails, from offset `i` over plain bytes up to
   * `k`: a raw byte below 0x20 at `k`, a backslash that is the input's last
   * byte, or the input ending with no closing quote. A scan over input
   * that holds no quote at all never closes.
   */
  lemma {:induction false} ScanRejects(s: seq<byte>, i: nat, escapes: bool, k: nat)
    requires i <= k <= |s| && forall j :: i <= j < k ==> Plain(s[j])
    ensures k < |s| && s[k] as int < 0x20 ==> ScanString(s, i, escapes) == Broken(ControlCharacter)
    ensures k + 1 == |s| && s[k] == '\\' ==> ScanString(s, i, escapes) == Broken(UnterminatedEscape)
    ensures k == |s| ==> ScanString(s, i, escapes) == Broken(UnterminatedString)
    ensures (forall j :: i <= j < |s| ==> s[j] != '"') ==> ScanString(s, i, escapes).Broken?
    decreases k - i
  {
    if i < k {
      ScanRejects(s, i + 1, escapes, k);
    }
  }

  /** `r` with `prefix` in front of its bytes, or the same error. */
  function Prepend(prefix: seq<byte>, r: Result<seq<byte>, ErrorKind>): (t: Result<seq<byte>, ErrorKind>)
    ensures t.Ok? <==> r.Ok?
    ensures t.Ok? ==> t.value == prefix + r.value
    ensures t.Err? ==> t == r
  {
    if r.Ok? then Ok(prefix + r.value) else r
  }

  /** Prepending in two steps is prepending the concatenation; nothing is a no-op. */
  lemma PrependTwice(a: seq<byte>, b: seq<byte>, r: Result<seq<byte>, ErrorKind>)
    ensures Prepend(a + b, r) == Prepend(a, Prepend(b, r))
    ensures Prepend([], r) == r
  {
    if r.Ok? {
      assert (a + b) + r.value == a + (b + r.value);
      assert [] + r.value == r.value;
    }
  }

  /** The byte a one-character escape stands for, for the eight that exist. */
  function SimpleEscape(c: byte): (r: Option<byte>) {
    if c == '"' then Some('"')
    else if c == '\\' then Some('\\')
    else if c == '/' then Some('/')
    else if c == 'b' then Some(8 as char)
    else if c == 'f' then Some(12 as char)
    else if c == 'n' then Some('\n')
    else if c == 'r' then Some('\r')
    else if c == 't' then Some('\t')
    else None
  }

  /** 16 to the power `n`. */
  function Pow16(n: nat): (r: nat)
    ensures r >= 1
  {
    if n == 0 then 1 else 16 * Pow16(n - 1)
  }

  /**
   * The four digits after `\u`, starting at offset `j`, `n` of them read
   * and worth `acc` so far. Each digit is checked in turn: first that it
   * lies before the closing quote at `stop`, then that it is hexadecimal.
   */
  function HexQuad(s: seq<byte>, j: nat, stop: nat, n: nat, acc: nat): (r: Result<nat, ErrorKind>)
    requires stop < |s| && n <= 4 && acc < Pow16(n)
    ensures r.Ok? ==> j + 4 <= stop && r.value < 0x10000
    ensures r.Ok? ==> forall k :: j + n <= k < j + 4 ==> IsHexDigit(s[k])
    ensures r.Err? ==> r.error == UnicodeEscapeTruncated || r.error == UnicodeEscapeBadDigit
    decreases 4 - n
  {
    if n == 4 then
      assert Pow16(4) == 0x10000;
      if j + 4 <= stop then Ok(acc) else Err(UnicodeEscapeTruncated)
    else if j + n >= stop then Err(UnicodeEscapeTruncated)
    else if !IsHexDigit(s[j + n]) then Err(UnicodeEscapeBadDigit)
    else HexQuad(s, j, stop, n + 1, acc * 16 + HexValue(s[j + n]))
  }

  /**
   * The UTF-8 encoding the escape-decoding path writes for a code point of
   * a `\u` escape: one byte up to 0x7F, two up to 0x7FF, three otherwise.
   */
  function Utf8(cp: nat): (r: seq<byte>)
    requires cp < 0x10000
    ensures 1 <= |r| <= 3
    ensures |r| == 1 <==> cp <= 0x7F
    ensures |r| == 2 <==> 0x80 <= cp <= 0x7FF
  {
    if cp <= 0x7F then [cp as char]
    else if cp <= 0x7FF then [(0xC0 + cp / 64) as char, (0x80 + cp % 64) as char]
    else [(0xE0 + cp / 4096) as char, (0x80 + (cp / 64) % 64) as char, (0x80 + cp % 64) as char]
  }

  /** Reading one to three bytes back as a code point, the way RFC 3629, section 3, decodes them. */
  function Utf8Decode(t: seq<byte>): (cp: int)
    requires 1 <= |t| <= 3
  {
    if |t| == 1 then t[0] as int
    else if |t| == 2 then (t[0] as int - 0xC0) * 64 + (t[1] as int - 0x80)
    else (t[0] as int - 0xE0) * 4096 + (t[1] as int - 0x80) * 64 + (t[2] as int - 0x80)
  }

  /** A continuation byte of UTF-8: 10xxxxxx. */
  predicate Continuation(c: byte) {
    0x80 <= c as int <= 0xBF
  }

  /**
   * The bytes written for a `\u` escape decode back to its code point, and
   * have the shape RFC 3629 gives sequences of that length: a lead byte of
   * the right range followed by continuation bytes, in the shortest form.
   */
  lemma Utf8RoundTrip(cp: nat)
    requires cp < 0x10000
    ensures Utf8Decode(Utf8(cp)) == cp
    ensures var t := Utf8(cp);
      && (|t| == 1 ==> t[0] as int < 0x80)
      && (|t| == 2 ==> 0xC2 <= t[0] as int <= 0xDF && Continuation(t[1]))
      && (|t| == 3 ==> 0xE0 <= t[0] as int <= 0xEF && Continuation(t[1]) && Continuation(t[2])
                       && (t[0] as int == 0xE0 ==> t[1] as int >= 0xA0))
  {
    if 0x7FF < cp {
      assert cp == (cp / 4096) * 4096 + ((cp / 64) % 64) * 64 + cp % 64;
    }
  }

  /**
   * The second loop of parse_string over offsets `i` up to the closing
   * quote at `stop`: the decoded bytes, or the first error. A backslash
   * takes the byte after it (the scan guarantees there is one before
   * `stop`) as the escape character.
   */
  function Unescape(s: seq<byte>, i: nat, stop: nat): (r: Result<seq<byte>, ErrorKind>)
    requires stop < |s| && i <= stop + 1
    ensures r.Ok? && i <= stop ==> |r.value| <= stop - i
    ensures i >= stop ==> r == Ok([])
    ensures r.Err? ==> r.error in {UnicodeEscapeTruncated, UnicodeEscapeBadDigit, InvalidEscape}
    decreases stop + 1 - i
  {
    if i >= stop then Ok([])
    else if s[i] != '\\' then Prepend([s[i]], Unescape(s, i + 1, stop))
    else
      var c := s[i + 1];
      if SimpleEscape(c).Some? then Prepend([SimpleEscape(c).value], Unescape(s, i + 2, stop))
      else if c == 'u' then
        var hex := HexQuad(s, i + 2, stop, 0, 0);
        if hex.Err? then Err(hex.error)
        else Prepend(Utf8(hex.value), Unescape(s, i + 6, stop))
      else Err(InvalidEscape)
  }

  /**
   * parse_string with the cursor on the opening quote at `q`. Errors are
   * reported at the first content byte, where the cursor stands when they
   * are found. The value is the string a C reader sees: the decoded bytes
   * up to the first NUL.
   */
  function StringAt(s: seq<byte>, q: nat): (o: Outcome<seq<byte>>)
    requires q < |s| && s[q] == '"'
    ensures o.Done? ==> q + 1 < o.next <= |s| && s[o.next - 1] == '"' && NulFree(o.value)
    ensures o.Fail? ==> o.at == q + 1
  {
    var start := q + 1;
    var scan := ScanString(s, start, false);
    if scan.Broken? then Fail(scan.kind, start)
    else if !scan.escapes then
      assert NulFree(s[start..scan.close]) by {
        ScanSpans(s, start, false);
        forall j | 0 <= j < scan.close - start ensures s[start..scan.close][j] != NUL {
          assert Plain(s[start + j]);
        }
      }
      Done(s[start..scan.close], scan.close + 1)
    else
      var dec := Unescape(s, start, scan.close);
      if dec.Err? then Fail(dec.error, start) else Done(UpToNul(dec.value), scan.close + 1)
  }

  /**
   * parse_string's three scan errors, reported at the first content byte:
   * a raw byte below 0x20, a backslash that ends the input, and no closing
   * quote, each after plain bytes from the opening quote to `k`.
   */
  lemma StringRejects(s: seq<byte>, q: nat, k: nat)
    requires q < |s| && s[q] == '"'
    requires q + 1 <= k <= |s| && forall j :: q + 1 <= j < k ==> Plain(s[j])
    ensures k < |s| && s[k] as int < 0x20 ==> StringAt(s, q) == Fail(ControlCharacter, q + 1)
    ensures k + 1 == |s| && s[k] == '\\' ==> StringAt(s, q) == Fail(UnterminatedEscape, q + 1)
    ensures k == |s| ==> StringAt(s, q) == Fail(UnterminatedString, q + 1)
    ensures (forall j :: q < j < |s| ==> s[j] != '"') ==> StringAt(s, q).Fail?
  {
    ScanRejects(s, q + 1, false, k);
  }

  /** Strings without a backslash are copied byte for byte; the cursor moves past the closing quote. */
  lemma StringWithoutEscapes(s: seq<byte>, q: nat, close: nat)
    requires q < close < |s| && s[q] == '"' && s[close] == '"'
    requires forall j :: q < j < close ==> Plain(s[j])
    ensures StringAt(s, q) == Done(s[q + 1..close], close + 1)
  {
    ScanPlain(s, q + 1, close);
  }

  lemma {:induction false} ScanPlain(s: seq<byte>, i: nat, close: nat)
    requires i <= close < |s| && s[close] == '"'
    requires forall j :: i <= j < close ==> Plain(s[j])
    ensures ScanString(s, i, false) == Closed(close, false)
    decreases close - i
  {
    if i < close {
      ScanPlain(s, i + 1, close);
    }
  }

  /* ---------------------------------------------------------------- */
  /* Numbers                                                          */
  /* ---------------------------------------------------------------- */

  /** Where the run of digits starting at `i` ends. */
  function DigitsEnd(s: seq<byte>, i: nat): (j: nat)
    requires i <= |s|
    ensures i <= j <= |s|
    decreases |s| - i
  {
    if i < |s| && IsDigit(s[i]) then DigitsEnd(s, i + 1) else i
  }

  /** What DigitsEnd skips is digits, and it stops at the end or at a byte that is not one. */
  lemma {:induction false} DigitsEndSpans(s: seq<byte>, i: nat)
    requires i <= |s|
    ensures forall k :: i <= k < DigitsEnd(s, i) ==> IsDigit(s[k])
    ensures DigitsEnd(s, i) < |s| ==> !IsDigit(s[DigitsEnd(s, i)])
    decreases |s| - i
  {
    if i < |s| && IsDigit(s[i]) {
      DigitsEndSpans(s, i + 1);
    }
  }

  /** The integer part from `i`: a lone 0 (not followed by a digit, `x` or `X`), or a run led by 1-9. */
  function IntegerEnd(s: seq<byte>, i: nat): (r: Option<nat>)
    requires i <= |s|
    ensures r.Some? ==> i < r.value <= |s|
  {
    if i >= |s| then None
    else if s[i] == '0' then
      if i + 1 < |s| && (s[i + 1] == 'x' || s[i + 1] == 'X' || IsDigit(s[i + 1])) then None
      else Some(i + 1)
    else if IsDigit(s[i]) then Some(DigitsEnd(s, i))
    else None
  }

  /** An optional fraction from `k`: a `.` must be followed by at least one digit. */
  function FractionEnd(s: seq<byte>, k: nat): (r: Option<nat>)
    requires k <= |s|
    ensures r.Some? ==> k <= r.value <= |s|
  {
    if k < |s| && s[k] == '.' then
      if k + 1 >= |s| || !IsDigit(s[k + 1]) then None else Some(DigitsEnd(s, k + 1))
    else Some(k)
  }

  /** An optional exponent from `k`: `e`/`E`, an optional sign, at least one digit. */
  function ExponentEnd(s: seq<byte>, k: nat): (r: Option<nat>)
    requires k <= |s|
    ensures r.Some? ==> k <= r.value <= |s|
  {
    if k < |s| && (s[k] == 'e' || s[k] == 'E') then
      var m := if k + 1 < |s| && (s[k + 1] == '+' || s[k + 1] == '-') then k + 2 else k + 1;
      if m >= |s| || !IsDigit(s[m]) then None else Some(DigitsEnd(s, m))
    else Some(k)
  }

  /**
   * is_valid_json_number from `p`: whether it accepts, and where its cursor
   * stops, which is also how far strtod reads.
   */
  function NumberEnd(s: seq<byte>, p: nat): (r: Option<nat>)
    requires p <= |s|
    ensures r.Some? ==> p < r.value <= |s|
  {
    var i := if p < |s| && s[p] == '-' then p + 1 else p;
    var whole := IntegerEnd(s, i);
    if whole.None? then None
    else
      var frac := FractionEnd(s, whole.value);
      if frac.None? then None else ExponentEnd(s, frac.value)
  }

  /** A byte that would extend or spoil a number written just before it. */
  predicate NumberContinues(c: byte) {
    IsDigit(c) || c == '.' || c == 'e' || c == 'E' || c == 'x' || c == 'X'
  }

  /** A slice whose bytes are all digits, as AllDigits says and index by index. */
  lemma DigitsSlice(s: seq<byte>, i: nat, j: nat)
    requires i < j <= |s|
    ensures AllDigits(s[i..j]) <==> forall k :: i <= k < j ==> IsDigit(s[k])
  {
    if AllDigits(s[i..j]) {
      forall k | i <= k < j ensures IsDigit(s[k]) {
        assert s[k] == s[i..j][k - i];
      }
    }
  }

  lemma IntegerEndSound(s: seq<byte>, i: nat)
    requires i <= |s| && IntegerEnd(s, i).Some?
    ensures IsIntPart(s[i..IntegerEnd(s, i).value])
  {
    var b := IntegerEnd(s, i).value;
    if s[i] != '0' {
      DigitsEndSpans(s, i);
      DigitsSlice(s, i, b);
    }
  }

  lemma FractionEndSound(s: seq<byte>, k: nat)
    requires k <= |s| && FractionEnd(s, k).Some?
    ensures IsFracPart(s[k..FractionEnd(s, k).value])
  {
    var c := FractionEnd(s, k).value;
    if c > k {
      DigitsEndSpans(s, k + 1);
      DigitsSlice(s, k + 1, c);
      assert s[k..c][1..] == s[k + 1..c];
    }
  }

  lemma ExponentEndSound(s: seq<byte>, k: nat)
    requires k <= |s| && ExponentEnd(s, k).Some?
    ensures IsExpPart(s[k..ExponentEnd(s, k).value])
  {
    var e := ExponentEnd(s, k).value;
    if e > k {
      var m := if k + 1 < |s| && (s[k + 1] == '+' || s[k + 1] == '-') then k + 2 else k + 1;
      DigitsEndSpans(s, m);
      DigitsSlice(s, m, e);
      assert s[k..e][m - k..] == s[m..e];
    }
  }

  /** `t[x..y]` of a slice `t == s[p..e]` is `s[p + x..p + y]`. */
  lemma SliceOfSlice(s: seq<byte>, p: nat, e: nat, x: nat, y: nat)
    requires p <= e <= |s| && x <= y <= e - p
    ensures s[p..e][x..y] == s[p + x..p + y]
  {
    assert |s[p..e][x..y]| == y - x == |s[p + x..p + y]|;
    forall k | 0 <= k < y - x ensures s[p..e][x..y][k] == s[p + x..p + y][k] {
      assert s[p..e][x..y][k] == s[p..e][x + k] == s[p + x + k];
    }
  }

  /** Whatever is_valid_json_number accepts is a number as RFC 8259, section 6, writes it. */
  lemma NumberEndSound(s: seq<byte>, p: nat)
    requires p <= |s| && NumberEnd(s, p).Some?
    ensures IsJsonNumber(s[p..NumberEnd(s, p).value])
  {
    var e := NumberEnd(s, p).value;
    var i := if p < |s| && s[p] == '-' then p + 1 else p;
    var b := IntegerEnd(s, i).value;
    var c := FractionEnd(s, b).value;
    IntegerEndSound(s, i);
    FractionEndSound(s, b);
    ExponentEndSound(s, c);
    PartsToSlice(s, p, e, i, b, c);
  }

  /** Parts read off the input at `p <= i <= b <= c <= e` make a number of `s[p..e]`. */
  lemma PartsToSlice(s: seq<byte>, p: nat, e: nat, i: nat, b: nat, c: nat)
    requires p <= i <= b <= c <= e <= |s|
    requires (if p < |s| && s[p] == '-' then p + 1 else p) == i
    requires IsIntPart(s[i..b]) && IsFracPart(s[b..c]) && IsExpPart(s[c..e])
    ensures NumberParts(s[p..e], i - p, b - p, c - p)
  {
    SignOfSlice(s, p, e, i);
    IntPartOfSlice(s, p, e, i, b);
    FracPartOfSlice(s, p, e, b, c);
    ExpPartOfSlice(s, p, e, c);
  }

  lemma SignOfSlice(s: seq<byte>, p: nat, e: nat, i: nat)
    requires p <= i <= e <= |s| && (if p < |s| && s[p] == '-' then p + 1 else p) == i
    ensures s[p..e][..i - p] == [] || s[p..e][..i - p] == ['-']
  {
    SliceOfSlice(s, p, e, 0, i - p);
  }

  lemma IntPartOfSlice(s: seq<byte>, p: nat, e: nat, i: nat, b: nat)
    requires p <= i <= b <= e <= |s| && IsIntPart(s[i..b])
    ensures IsIntPart(s[p..e][i - p..b - p])
  {
    SliceOfSlice(s, p, e, i - p, b - p);
  }

  lemma FracPartOfSlice(s: seq<byte>, p: nat, e: nat, b: nat, c: nat)
    requires p <= b <= c <= e <= |s| && IsFracPart(s[b..c])
    ensures IsFracPart(s[p..e][b - p..c - p])
  {
    SliceOfSlice(s, p, e, b - p, c - p);
  }

  lemma ExpPartOfSlice(s: seq<byte>, p: nat, e: nat, c: nat)
    requires p <= c <= e <= |s| && IsExpPart(s[c..e])
    ensures IsExpPart(s[p..e][c - p..])
  {
    SliceOfSlice(s, p, e, c - p, e - p);
    assert s[p..e][c - p..] == s[p..e][c - p..e - p];
  }

  /**
   * Conversely, a number written at `p` and not followed by a byte that
   * would extend or spoil it is accepted, and exactly its bytes are read.
   */
  lemma NumberEndComplete(s: seq<byte>, p: nat, e: nat)
    requires p <= e <= |s| && IsJsonNumber(s[p..e])
    requires e == |s| || !NumberContinues(s[e])
    ensures NumberEnd(s, p) == Some(e)
  {
    var a: nat, b: nat, c: nat :| NumberParts(s[p..e], a, b, c);
    PartsEnd(s, p, e, a, b, c);
  }

  /** A number written at `p` in the three parts `a <= b <= c` of its text, then a delimiter. */
  lemma PartsEnd(s: seq<byte>, p: nat, e: nat, a: nat, b: nat, c: nat)
    requires p <= e <= |s| && NumberParts(s[p..e], a, b, c)
    requires e == |s| || !NumberContinues(s[e])
    ensures NumberEnd(s, p) == Some(e)
  {
    PartsOnInput(s, p, e, a, b, c);
    NumberPartsEnd(s, p, e, p + a, p + b, p + c);
  }

  /** The three parts, at offsets `i <= b <= c <= e` of the input, each end where the scan says. */
  lemma NumberPartsEnd(s: seq<byte>, p: nat, e: nat, i: nat, b: nat, c: nat)
    requires p <= i <= b <= c <= e <= |s|
    requires (if p < |s| && s[p] == '-' then p + 1 else p) == i
    requires IsIntPart(s[i..b]) && IsFracPart(s[b..c]) && IsExpPart(s[c..e])
    requires b < e ==> s[b] == '.' || s[b] == 'e' || s[b] == 'E'
    requires c < e ==> s[c] == 'e' || s[c] == 'E'
    requires e == |s| || !NumberContinues(s[e])
    ensures NumberEnd(s, p) == Some(e)
  {
    IntegerPartEnd(s, i, b);
    FractionPartEnd(s, b, c);
    ExponentPartEnd(s, c, e);
  }

  /** The parts of a number written at `p`, read off the input itself. */
  lemma PartsOnInput(s: seq<byte>, p: nat, e: nat, a: nat, b: nat, c: nat)
    requires p <= e <= |s| && NumberParts(s[p..e], a, b, c)
    ensures p + a <= p + b <= p + c <= e
    ensures (if p < |s| && s[p] == '-' then p + 1 else p) == p + a
    ensures IsIntPart(s[p + a..p + b]) && IsFracPart(s[p + b..p + c]) && IsExpPart(s[p + c..e])
    ensures p + b < e ==> s[p + b] == '.' || s[p + b] == 'e' || s[p + b] == 'E'
    ensures p + c < e ==> s[p + c] == 'e' || s[p + c] == 'E'
  {
    var t := s[p..e];
    SliceOfSlice(s, p, e, a, b);
    SliceOfSlice(s, p, e, b, c);
    SliceOfSlice(s, p, e, c, e - p);
    assert t[c..] == t[c..e - p];
    if a == 1 {
      assert t[..a][0] == s[p];
    } else {
      assert s[p] == t[a..b][0];
    }
    if p + b < e {
      if c > b { assert s[p + b] == t[b..c][0]; } else { assert s[p + b] == t[c..][0]; }
    }
    if p + c < e {
      assert s[p + c] == t[c..][0];
    }
  }

  lemma IntegerPartEnd(s: seq<byte>, i: nat, j: nat)
    requires i <= j <= |s| && IsIntPart(s[i..j])
    requires j < |s| ==> !IsDigit(s[j]) && s[j] != 'x' && s[j] != 'X'
    ensures IntegerEnd(s, i) == Some(j)
  {
    assert s[i] == s[i..j][0];
    if s[i..j] != ['0'] {
      DigitsSlice(s, i, j);
      DigitsEndAt(s, i, j);
    }
  }

  lemma FractionPartEnd(s: seq<byte>, j: nat, k: nat)
    requires j <= k <= |s| && IsFracPart(s[j..k])
    requires k < |s| ==> !IsDigit(s[k]) && (k == j ==> s[k] != '.')
    ensures FractionEnd(s, j) == Some(k)
  {
    if k > j {
      assert s[j] == s[j..k][0] && s[j + 1] == s[j..k][1];
      assert s[j..k][1..] == s[j + 1..k];
      DigitsSlice(s, j + 1, k);
      DigitsEndAt(s, j + 1, k);
    }
  }

  lemma ExponentPartEnd(s: seq<byte>, k: nat, e: nat)
    requires k <= e <= |s| && IsExpPart(s[k..e])
    requires e < |s| ==> !IsDigit(s[e]) && (e == k ==> s[e] != 'e' && s[e] != 'E')
    ensures ExponentEnd(s, k) == Some(e)
  {
    if e > k {
      var x := s[k..e];
      assert s[k] == x[0] && s[k + 1] == x[1];
      if AllDigits(x[1..]) {
        assert x[1..] == s[k + 1..e];
        DigitsSlice(s, k + 1, e);
        DigitsEndAt(s, k + 1, e);
      } else {
        assert s[k + 2] == x[2];
        assert x[2..] == s[k + 2..e];
        DigitsSlice(s, k + 2, e);
        DigitsEndAt(s, k + 2, e);
      }
    }
  }

  /** A run of digits from `i` to `j` not followed by a digit ends at `j`. */
  lemma {:induction false} DigitsEndAt(s: seq<byte>, i: nat, j: nat)
    requires i <= j <= |s| && (forall k :: i <= k < j ==> IsDigit(s[k]))
    requires j < |s| ==> !IsDigit(s[j])
    ensures DigitsEnd(s, i) == j
    decreases j - i
  {
    if i < j {
      DigitsEndAt(s, i + 1, j);
    }
  }

  /**
   * The integer fast path of parse_number: an optional minus sign and a run
   * of digits led by 1-9, not followed by `.`, `e` or `E`, is exactly what
   * is_valid_json_number accepts there.
   */
  lemma FastPathAgrees(s: seq<byte>, p: nat, q: nat)
    requires p <= |s|
    requires var i := if p < |s| && s[p] == '-' then p + 1 else p;
      i < q <= |s| && s[i] != '0' && forall k :: i <= k < q ==> IsDigit(s[k])
    requires q == |s| || (s[q] != '.' && s[q] != 'e' && s[q] != 'E' && !IsDigit(s[q]))
    ensures NumberEnd(s, p) == Some(q)
  {
    var i := if p < |s| && s[p] == '-' then p + 1 else p;
    DigitsEndAt(s, i, q);
  }

  /**
   * parse_number from `p`, on the slow path (strtod): the number covers the
   * bytes is_valid_json_number accepts; an invalid number fails at `p`.
   */
  function NumberAt(s: seq<byte>, p: nat): (o: Outcome<Json>)
    requires p <= |s|
    ensures o.Done? ==> p < o.next <= |s| && o.value.Number? && o.value.d == Finite(s[p..o.next])
    ensures o.Fail? ==> o == Fail(InvalidNumber, p)
  {
    var e := NumberEnd(s, p);
    if e.None? then Fail(InvalidNumber, p) else Done(Number(Finite(s[p..e.value])), e.value)
  }

  /* ---------------------------------------------------------------- */
  /* Values                                                           */
  /* ---------------------------------------------------------------- */

  /** Whether `lit` is written at `p`, reading no further than the input goes. */
  predicate LiteralAt(s: seq<byte>, p: nat, lit: string) {
    p + |lit| <= |s| && s[p..p + |lit|] == lit
  }

  /** A literal is matched exactly when every one of its bytes lies within the input and agrees with it. */
  lemma LiteralAtBytes(s: seq<byte>, p: nat, lit: string)
    ensures LiteralAt(s, p, lit) <==> p + |lit| <= |s| && forall k :: 0 <= k < |lit| ==> s[p + k] == lit[k]
  {
    if p + |lit| <= |s| && forall k :: 0 <= k < |lit| ==> s[p + k] == lit[k] {
      assert s[p..p + |lit|] == lit;
    }
  }

  /**
   * parse_element at `p` and depth `depth`: whitespace, then one value
   * chosen by its first byte.
   */
  function Element(s: seq<byte>, p: nat, depth: nat): (o: Outcome<Json>)
    requires p <= |s|
    ensures o.Done? ==> p < o.next <= |s|
    ensures o.Fail? ==> p <= o.at <= |s|
    decreases |s| - p, 2
  {
    var q := SkipWs(s, p);
    if q == |s| then Fail(UnexpectedEnd, q)
    else
      var c := s[q];
      if c == '"' then
        var str := StringAt(s, q);
        if str.Fail? then Fail(str.kind, str.at) else Done(String(str.value), str.next)
      else if c == '[' then ArrayAt(s, q, depth)
      else if c == '{' then ObjectAt(s, q, depth)
      else if IsDigit(c) || c == '-' then NumberAt(s, q)
      else if LiteralAt(s, q, "true") then Done(Bool(true), q + 4)
      else if LiteralAt(s, q, "false") then Done(Bool(false), q + 5)
      else if LiteralAt(s, q, "null") then Done(Null, q + 4)
      else Fail(UnexpectedChar(c), q)
  }

  /**
   * The literals of parse_element: `true`, `false` and `null` written out
   * in full are read with the cursor just past them; a literal the input
   * cuts short is an unexpected character at its first byte.
   */
  lemma ElementLiteral(s: seq<byte>, p: nat, depth: nat)
    requires p <= |s|
    ensures var q := SkipWs(s, p);
      && (q + 4 <= |s| && s[q..q + 4] == "true" ==> Element(s, p, depth) == Done(Bool(true), q + 4))
      && (q + 5 <= |s| && s[q..q + 5] == "false" ==> Element(s, p, depth) == Done(Bool(false), q + 5))
      && (q + 4 <= |s| && s[q..q + 4] == "null" ==> Element(s, p, depth) == Done(Null, q + 4))
      && (q < |s| && s[q] in "tfn" && |s| < q + 4 ==> Element(s, p, depth) == Fail(UnexpectedChar(s[q]), q))
  {
    var q := SkipWs(s, p);
    if q + 4 <= |s| && s[q..q + 4] == "true" {
      assert s[q] == s[q..q + 4][0];
    }
    if q + 5 <= |s| && s[q..q + 5] == "false" {
      assert s[q] == s[q..q + 5][0];
      assert !LiteralAt(s, q, "true") by {
        assert s[q] != "true"[0];
      }
    }
    if q + 4 <= |s| && s[q..q + 4] == "null" {
      assert s[q] == s[q..q + 4][0];
      assert !LiteralAt(s, q, "true") && !LiteralAt(s, q, "false") by {
        assert s[q] != "true"[0] && s[q] != "false"[0];
      }
    }
  }

  /** parse_array with the cursor on `[` at `q`. */
  function ArrayAt(s: seq<byte>, q: nat, depth: nat): (o: Outcome<Json>)
    requires q < |s| && s[q] == '['
    ensures o.Done? ==> q < o.next <= |s| && o.value.Array? && s[o.next - 1] == ']'
    ensures o.Fail? ==> q <= o.at <= |s|
    decreases |s| - q, 1
  {
    if depth > MAX_JSON_DEPTH then Fail(DepthExceeded, q)
    else
      var r := SkipWs(s, q + 1);
      if r < |s| && s[r] == ']' then Done(Array([]), r + 1)
      else Items(s, r, depth, [])
  }

  /**
   * The element loop of parse_array at offset `r`, with the elements
   * `acc` already read: the loop test, then one element.
   */
  function Items(s: seq<byte>, r: nat, depth: nat, acc: seq<Json>): (o: Outcome<Json>)
    requires r <= |s|
    ensures o.Done? ==> r < o.next <= |s| && o.value.Array? && s[o.next - 1] == ']'
    ensures o.Fail? ==> r <= o.at <= |s|
    decreases |s| - r, 3
  {
    if r == |s| then Fail(UnclosedArray, r)
    else
      var elem := Element(s, r, depth + 1);
      if elem.Fail? then Fail(elem.kind, elem.at)
      else AfterItem(s, SkipWs(s, elem.next), depth, acc + [elem.value])
  }

  /**
   * What parse_array does after an element, at the first non-whitespace
   * offset `t`: `]` closes the array, `,` not followed by `]` goes round
   * the loop again.
   */
  function AfterItem(s: seq<byte>, t: nat, depth: nat, items: seq<Json>): (o: Outcome<Json>)
    requires t <= |s|
    ensures o.Done? ==> t < o.next <= |s| && o.value.Array? && s[o.next - 1] == ']'
    ensures o.Fail? ==> t <= o.at <= |s|
    decreases |s| - t, 4
  {
    if t == |s| then Fail(UnexpectedEndInArray, t)
    else if s[t] == ']' then Done(Array(items), t + 1)
    else if s[t] == ',' then
      var u := SkipWs(s, t + 1);
      if u < |s| && s[u] == ']' then Fail(TrailingCommaInArray, u)
      else Items(s, u, depth, items)
    else Fail(ExpectedCommaOrBracket, t)
  }

  /**
   * The separator errors of parse_array: input ending after an element, a
   * comma whose next non-whitespace byte is `]`, and any byte other than
   * `,` or `]`. An array closes only on `]`.
   */
  lemma AfterItemRejects(s: seq<byte>, t: nat, depth: nat, items: seq<Json>)
    requires t <= |s|
    ensures var o := AfterItem(s, t, depth, items);
      && (t == |s| ==> o == Fail(UnexpectedEndInArray, t))
      && (t < |s| && s[t] == ']' ==> o == Done(Array(items), t + 1))
      && (t < |s| && s[t] == ',' && SkipWs(s, t + 1) < |s| && s[SkipWs(s, t + 1)] == ']' ==>
            o == Fail(TrailingCommaInArray, SkipWs(s, t + 1)))
      && (t < |s| && s[t] != ',' && s[t] != ']' ==> o == Fail(ExpectedCommaOrBracket, t))
  {
  }

  /** parse_object with the cursor on `{` at `q`. */
  function ObjectAt(s: seq<byte>, q: nat, depth: nat): (o: Outcome<Json>)
    requires q < |s| && s[q] == '{'
    ensures o.Done? ==> q < o.next <= |s| && o.value.Object? && s[o.next - 1] == '}'
    ensures o.Fail? ==> q <= o.at <= |s|
    decreases |s| - q, 1
  {
    if depth > MAX_JSON_DEPTH then Fail(DepthExceeded, q)
    else
      var r := SkipWs(s, q + 1);
      if r < |s| && s[r] == '}' then Done(Object([]), r + 1)
      else Members(s, r, depth, [])
  }

  /**
   * The member loop of parse_object at offset `r`, with the members `acc`
   * already read: the loop test, a key, then one element.
   */
  function Members(s: seq<byte>, r: nat, depth: nat, acc: seq<Member>): (o: Outcome<Json>)
    requires r <= |s|
    ensures o.Done? ==> r < o.next <= |s| && o.value.Object? && s[o.next - 1] == '}'
    ensures o.Fail? ==> r <= o.at <= |s|
    decreases |s| - r, 3
  {
    if r == |s| then Fail(UnclosedObject, r)
    else
      var key := KeyAt(s, r);
      if key.Fail? then Fail(key.kind, key.at)
      else
        var elem := Element(s, key.next, depth + 1);
        if elem.Fail? then Fail(elem.kind, elem.at)
        else AfterMember(s, SkipWs(s, elem.next), depth, acc + [Member(key.value, elem.value)])
  }

  /**
   * The start of parse_object's loop body at offset `r`: a string key,
   * whitespace and `:`; the key and the offset after the colon.
   */
  function KeyAt(s: seq<byte>, r: nat): (o: Outcome<seq<byte>>)
    requires r < |s|
    ensures o.Done? ==> r < o.next <= |s|
    ensures o.Fail? ==> r <= o.at <= |s|
    ensures s[r] != '"' ==> o == Fail(ExpectedKey, r)
    ensures o.Done? ==> s[o.next - 1] == ':'
  {
    if s[r] != '"' then Fail(ExpectedKey, r)
    else
      var key := StringAt(s, r);
      if key.Fail? then Fail(key.kind, key.at)
      else
        var t := SkipWs(s, key.next);
        if t == |s| || s[t] != ':' then Fail(ExpectedColon, t)
        else Done(key.value, t + 1)
  }

  /** A key that KeyAt accepts is the string at `r`, then only whitespace up to the colon. */
  lemma KeyAtDone(s: seq<byte>, r: nat)
    requires r < |s| && KeyAt(s, r).Done?
    ensures s[r] == '"' && StringAt(s, r).Done?
    ensures KeyAt(s, r).value == StringAt(s, r).value
    ensures SkipWs(s, StringAt(s, r).next) == KeyAt(s, r).next - 1
  {
  }

  /**
   * What parse_object does after a member's value, at the first
   * non-whitespace offset `w`: `}` closes the object, `,` not followed by
   * `}` goes round the loop again.
   */
  function AfterMember(s: seq<byte>, w: nat, depth: nat, members: seq<Member>): (o: Outcome<Json>)
    requires w <= |s|
    ensures o.Done? ==> w < o.next <= |s| && o.value.Object? && s[o.next - 1] == '}'
    ensures o.Fail? ==> w <= o.at <= |s|
    decreases |s| - w, 4
  {
    if w == |s| then Fail(UnexpectedEndInObject, w)
    else if s[w] == '}' then Done(Object(members), w + 1)
    else if s[w] == ',' then
      var u := SkipWs(s, w + 1);
      if u < |s| && s[u] == '}' then Fail(TrailingCommaInObject, u)
      else Members(s, u, depth, members)
    else Fail(ExpectedCommaOrBrace, w)
  }

  /**
   * The separator errors of parse_object: input ending after a member, a
   * comma whose next non-whitespace byte is `}`, and any byte other than
   * `,` or `}`. An object closes only on `}`.
   */
  lemma AfterMemberRejects(s: seq<byte>, w: nat, depth: nat, members: seq<Member>)
    requires w <= |s|
    ensures var o := AfterMember(s, w, depth, members);
      && (w == |s| ==> o == Fail(UnexpectedEndInObject, w))
      && (w < |s| && s[w] == '}' ==> o == Done(Object(members), w + 1))
      && (w < |s| && s[w] == ',' && SkipWs(s, w + 1) < |s| && s[SkipWs(s, w + 1)] == '}' ==>
            o == Fail(TrailingCommaInObject, SkipWs(s, w + 1)))
      && (w < |s| && s[w] != ',' && s[w] != '}' ==> o == Fail(ExpectedCommaOrBrace, w))
  {
  }

  /** What json_parse hands back: NULL with nothing recorded, a root, or NULL with an error. */
  datatype ParseResult = NoInput | Parsed(root: Json) | Failed(error: JsonError)

  /**
   * json_parse: one element from offset 0 at depth 0, then nothing but
   * whitespace. Empty input is refused before any error is recorded.
   */
  function Parse(s: seq<byte>): (r: ParseResult)
    ensures r.NoInput? <==> |s| == 0
    ensures r.Parsed? <==> |s| > 0 && Element(s, 0, 0).Done? && SkipWs(s, Element(s, 0, 0).next) == |s|
    ensures r.Parsed? ==> r.root == Element(s, 0, 0).value
    ensures |s| > 0 && Element(s, 0, 0).Fail? ==>
      r == Failed(ErrorAt(s, Element(s, 0, 0).kind, Element(s, 0, 0).at))
    ensures |s| > 0 && Element(s, 0, 0).Done? && SkipWs(s, Element(s, 0, 0).next) < |s| ==>
      r == Failed(ErrorAt(s, TrailingGarbage, SkipWs(s, Element(s, 0, 0).next)))
    ensures r.Failed? ==>
      r.error.offset <= |s| && Pos(r.error.line, r.error.col) == Position(s, r.error.offset)
  {
    if |s| == 0 then NoInput
    else
      var root := Element(s, 0, 0);
      if root.Fail? then Failed(ErrorAt(s, root.kind, root.at))
      else
        var t := SkipWs(s, root.next);
        if t != |s| then Failed(ErrorAt(s, TrailingGarbage, t)) else Parsed(root.value)
  }
}
