/**
 * The parser of json.c as the source runs it: a ParseState whose cursor,
 * line and column move through the input, and one method per parse_*
 * function. Each method is proved to do what the corresponding function of
 * JsonGrammar describes: on success the value and the new cursor, on
 * failure the error set_error records.
 */
module JsonParser {
  import opened Wrappers
  import opened Bytes
  import opened JsonValues
  import opened JsonGrammar

  /**
   * is_valid_json_number: whether a number in the grammar of RFC 8259,
   * section 6, starts at `cursor`, with the source's extra refusals of
   * `0x`, `0X` and a leading zero followed by a digit.
   */
  method IsValidJsonNumber(s: seq<byte>, cursor: nat) returns (ok: bool)
    requires cursor <= |s|
    ensures ok <==> NumberEnd(s, cursor).Some?
  {
    var p := cursor;
    if p < |s| && s[p] == '-' {
      p := p + 1;
    }
    ok, p := ScanInteger(s, p);
    if !ok {
      return false;
    }
    ok, p := ScanFraction(s, p);
    if !ok {
      return false;
    }
    ok, p := ScanExponent(s, p);
  }

  /** The integer part of is_valid_json_number: a lone 0, or digits led by 1-9. */
  method ScanInteger(s: seq<byte>, i: nat) returns (ok: bool, p: nat)
    requires i <= |s|
    ensures ok <==> IntegerEnd(s, i).Some?
    ensures ok ==> p == IntegerEnd(s, i).value
  {
    p := i;
    if p >= |s| {
      return false, p;
    }
    if s[p] == '0' {
      p := p + 1;
      if p < |s| && (s[p] == 'x' || s[p] == 'X') {
        return false, p;
      }
      if p < |s| && IsDigit(s[p]) {
        return false, p;
      }
    } else if IsDigit(s[p]) {
      p := SkipDigits(s, p);
    } else {
      return false, p;
    }
    return true, p;
  }

  /** The fraction part of is_valid_json_number: nothing, or `.` and at least one digit. */
  method ScanFraction(s: seq<byte>, k: nat) returns (ok: bool, p: nat)
    requires k <= |s|
    ensures ok <==> FractionEnd(s, k).Some?
    ensures ok ==> p == FractionEnd(s, k).value
  {
    p := k;
    if p < |s| && s[p] == '.' {
      p := p + 1;
      if p >= |s| || !IsDigit(s[p]) {
        return false, p;
      }
      p := SkipDigits(s, p);
    }
    return true, p;
  }

  /** The exponent part of is_valid_json_number: nothing, or `e`/`E`, a sign, at least one digit. */
  method ScanExponent(s: seq<byte>, k: nat) returns (ok: bool, p: nat)
    requires k <= |s|
    ensures ok <==> ExponentEnd(s, k).Some?
    ensures ok ==> p == ExponentEnd(s, k).value
  {
    p := k;
    if p < |s| && (s[p] == 'e' || s[p] == 'E') {
      p := p + 1;
      if p < |s| && (s[p] == '+' || s[p] == '-') {
        p := p + 1;
      }
      if p >= |s| || !IsDigit(s[p]) {
        return false, p;
      }
      p := SkipDigits(s, p);
    }
    return true, p;
  }

  /** `while (p < end && isdigit(*p)) p++;` */
  method SkipDigits(s: seq<byte>, from: nat) returns (p: nat)
    requires from <= |s|
    ensures p == DigitsEnd(s, from)
    ensures forall k :: from <= k < p ==> IsDigit(s[k])
    ensures p < |s| ==> !IsDigit(s[p])
  {
    p := from;
    while p < |s| && IsDigit(s[p])
      invariant from <= p <= |s|
      invariant DigitsEnd(s, p) == DigitsEnd(s, from)
      invariant forall k :: from <= k < p ==> IsDigit(s[k])
    {
      p := p + 1;
    }
  }

  /** Where a container's loop goes after one element: close, another element, or an error. */
  datatype Step = Close | More | Stop

  /** ParseState: the input, the cursor with its line and column, and the error record. */
  class ParseState {
    const input: seq<byte>
    var curr: nat
    var line: nat
    var col: nat
    var err: Option<JsonError>

    /** The cursor is inside the input and the line and column are those of the cursor. */
    ghost predicate Valid()
      reads this
    {
      curr <= |input| && Pos(line, col) == Position(input, curr)
    }

    /** The state json_parse sets up: cursor at the start, line 1, column 1, no error. */
    constructor (input: seq<byte>)
      ensures Valid() && this.input == input && curr == 0 && err.None?
    {
      this.input := input;
      curr := 0;
      line := 1;
      col := 1;
      err := None;
    }

    /** set_error: record the kind with the cursor's line, column and offset. */
    method SetError(kind: ErrorKind)
      requires Valid()
      modifies this
      ensures Valid() && curr == old(curr)
      ensures err == Some(ErrorAt(input, kind, curr))
    {
      err := Some(JsonError(kind, line, col, curr));
    }

    /** advance: up to `n` bytes, stopping at the end; a line feed starts a new line. */
    method Advance(n: nat)
      requires Valid()
      modifies this
      ensures Valid() && err == old(err)
      ensures curr == if old(curr) + n <= |input| then old(curr) + n else |input|
    {
      var i := 0;
      while i < n
        invariant i <= n
        invariant Valid() && err == old(err)
        invariant curr == if old(curr) + i <= |input| then old(curr) + i else |input|
      {
        if curr >= |input| {
          break;
        }
        if input[curr] == '\n' {
          line := line + 1;
          col := 1;
        } else {
          col := col + 1;
        }
        curr := curr + 1;
        i := i + 1;
      }
    }

    /** advance_fast: `n` bytes known to hold no line feed. */
    method AdvanceFast(n: nat)
      requires Valid() && curr + n <= |input|
      requires forall i :: curr <= i < curr + n ==> input[i] != '\n'
      modifies this
      ensures Valid() && curr == old(curr) + n && err == old(err)
    {
      PositionOverLine(input, curr, n);
      curr := curr + n;
      col := col + n;
    }

    /** skip_whitespace: only space, tab, CR and LF are skipped. */
    method SkipWhitespace()
      requires Valid()
      modifies this
      ensures Valid() && curr == SkipWs(input, old(curr)) && err == old(err)
    {
      while curr < |input|
        invariant Valid() && err == old(err)
        invariant SkipWs(input, curr) == SkipWs(input, old(curr))
        decreases |input| - curr
      {
        var c := input[curr];
        if c == ' ' || c == '\t' || c == '\r' {
          curr := curr + 1;
          col := col + 1;
        } else if c == '\n' {
          curr := curr + 1;
          line := line + 1;
          col := 1;
        } else {
          break;
        }
      }
    }

    /** The four hexadecimal digits of a `\u` escape, from offset `j`, before `stop`. */
    method ReadHexQuad(j: nat, stop: nat) returns (r: Result<nat, ErrorKind>)
      requires stop < |input|
      ensures r == HexQuad(input, j, stop, 0, 0)
    {
      var n: nat := 0;
      var acc: nat := 0;
      while n < 4
        invariant n <= 4 && acc < Pow16(n) && (n > 0 ==> j + n <= stop)
        invariant HexQuad(input, j, stop, n, acc) == HexQuad(input, j, stop, 0, 0)
      {
        if j + n >= stop {
          return Err(UnicodeEscapeTruncated);
        }
        var c := input[j + n];
        if !IsHexDigit(c) {
          return Err(UnicodeEscapeBadDigit);
        }
        assert acc * 16 + HexValue(c) < Pow16(n + 1) by {
          assert acc * 16 <= (Pow16(n) - 1) * 16;
        }
        acc := acc * 16 + HexValue(c);
        n := n + 1;
      }
      return Ok(acc);
    }

    /**
     * The escape-decoding loop of parse_string: decode the content from
     * `start` up to the closing quote at `stop` into `buf`, which has room
     * for `stop - start + 1` bytes; the count written, or the error.
     */
    method Decode(buf: array<byte>, start: nat, stop: nat) returns (r: Result<nat, ErrorKind>)
      requires start <= stop < |input| && buf.Length == stop - start + 1
      modifies buf
      ensures var u := Unescape(input, start, stop);
        && (u.Ok? ==> r.Ok? && r.value <= stop - start && buf[..r.value] == u.value)
        && (u.Err? ==> r == Err(u.error))
    {
      var o: nat := 0;
      var p: nat := start;
      assert buf[..o] == [];
      PrependTwice([], [], Unescape(input, start, stop));
      while p < stop
        invariant start <= p <= stop + 1
        invariant o <= p - start && o <= stop - start
        invariant Prepend(buf[..o], Unescape(input, p, stop)) == Unescape(input, start, stop)
        decreases stop + 1 - p
      {
        if input[p] == '\\' {
          var step := DecodeEscape(buf, o, p, stop);
          if step.Err? {
            return Err(step.error);
          }
          o, p := step.value.0, step.value.1;
        } else {
          ghost var before := buf[..o];
          buf[o] := input[p];
          o := o + 1;
          assert buf[..o] == before + [input[p]];
          PrependTwice(before, [input[p]], Unescape(input, p + 1, stop));
        }
        p := p + 1;
      }
      return Ok(o);
    }

    /**
     * One escape of the decoding loop, with the backslash at `p` and the
     * output at `o`: write the bytes it stands for; the new output count and
     * the offset of the escape's last byte, or the error.
     */
    method DecodeEscape(buf: array<byte>, o: nat, p: nat, stop: nat) returns (r: Result<(nat, nat), ErrorKind>)
      requires p < stop < |input| && input[p] == '\\' && o + (stop - p) <= buf.Length
      modifies buf
      ensures r.Err? ==> Unescape(input, p, stop) == Err(r.error)
      ensures r.Ok? ==>
        var (next, last) := r.value;
        && o < next <= buf.Length && p < last <= stop && next - o <= last + 1 - p
        && Prepend(old(buf[..o]), Unescape(input, p, stop)) == Prepend(buf[..next], Unescape(input, last + 1, stop))
    {
      ghost var before := buf[..o];
      var c := input[p + 1];
      var simple := SimpleEscape(c);
      if simple.Some? {
        buf[o] := simple.value;
        assert buf[..o + 1] == before + [simple.value];
        PrependTwice(before, [simple.value], Unescape(input, p + 2, stop));
        return Ok((o + 1, p + 1));
      } else if c == 'u' {
        var hex := ReadHexQuad(p + 2, stop);
        if hex.Err? {
          return Err(hex.error);
        }
        var next := PutUtf8(buf, o, hex.value);
        PrependTwice(before, Utf8(hex.value), Unescape(input, p + 6, stop));
        return Ok((next, p + 5));
      }
      return Err(InvalidEscape);
    }

    /** The UTF-8 bytes of a `\u` escape's code point, written at `o`. */
    method PutUtf8(buf: array<byte>, o: nat, cp: nat) returns (next: nat)
      requires cp < 0x10000 && o + |Utf8(cp)| <= buf.Length
      modifies buf
      ensures next == o + |Utf8(cp)|
      ensures buf[..next] == old(buf[..o]) + Utf8(cp)
    {
      if cp <= 0x7F {
        buf[o] := cp as char;
        next := o + 1;
      } else if cp <= 0x7FF {
        buf[o] := (0xC0 + cp / 64) as char;
        buf[o + 1] := (0x80 + cp % 64) as char;
        next := o + 2;
      } else {
        buf[o] := (0xE0 + cp / 4096) as char;
        buf[o + 1] := (0x80 + (cp / 64) % 64) as char;
        buf[o + 2] := (0x80 + cp % 64) as char;
        next := o + 3;
      }
    }

    /**
     * The first loop of parse_string, from the first content byte at
     * `start`: find the closing quote, noting whether a backslash came
     * before it, or the error that stops the scan.
     */
    method ScanForQuote(start: nat) returns (scan: Scan)
      requires start <= |input|
      ensures scan == ScanString(input, start, false)
    {
      var i := start;
      var hasEscapes := false;
      while i < |input|
        invariant start <= i <= |input|
        invariant ScanString(input, i, hasEscapes) == ScanString(input, start, false)
        decreases |input| - i
      {
        var c := input[i];
        if c == '"' {
          return Closed(i, hasEscapes);
        }
        if c == '\\' {
          hasEscapes := true;
          i := i + 1;
          if i >= |input| {
            return Broken(UnterminatedEscape);
          }
        } else if c as int < 0x20 {
          return Broken(ControlCharacter);
        }
        i := i + 1;
      }
      return Broken(UnterminatedString);
    }

    /**
     * parse_string with the cursor on the opening quote: scan for the
     * closing quote, then copy the content as it is when it holds no
     * backslash, or decode it into a buffer of the content's size.
     */
    method ParseString() returns (ok: bool, str: seq<byte>)
      requires Valid() && curr < |input| && input[curr] == '"'
      modifies this
      ensures Valid()
      ensures var o := StringAt(input, old(curr));
        && (o.Done? ==> ok && str == o.value && curr == o.next && err == old(err))
        && (o.Fail? ==> !ok && err == Some(ErrorAt(input, o.kind, o.at)))
    {
      Advance(1);
      var start := curr;
      var scan := ScanForQuote(start);
      if scan.Broken? {
        SetError(scan.kind);
        return false, [];
      }
      var hasEscapes := scan.escapes;
      var stop := scan.close;
      var rawLen := stop - start;
      if !hasEscapes {
        ScanSpans(input, start, false);
        str := input[start..stop];
        AdvanceFast(rawLen + 1);
        return true, str;
      }
      var buf := new byte[rawLen + 1];
      var dec := Decode(buf, start, stop);
      if dec.Err? {
        SetError(dec.error);
        return false, [];
      }
      buf[dec.value] := NUL;
      str := UpToNul(buf[..dec.value]);
      Advance(rawLen + 1);
      return true, str;
    }

    /**
     * parse_number: an integer without fraction or exponent takes the fast
     * path; anything else is checked by is_valid_json_number and read by
     * strtod, which stops where that check stops.
     */
    method ParseNumber() returns (ok: bool, v: Json)
      requires Valid() && curr < |input|
      modifies this
      ensures Valid()
      ensures var o := NumberAt(input, old(curr));
        && (o.Done? ==> ok && v == o.value && curr == o.next && err == old(err))
        && (o.Fail? ==> !ok && err == Some(ErrorAt(input, o.kind, o.at)))
    {
      var p := curr;
      if p < |input| && input[p] == '-' {
        p := p + 1;
      }
      if !(p < |input| && input[p] == '0') {
        var startDigits := p;
        p := SkipDigits(input, p);
        if p == |input| || (input[p] != '.' && input[p] != 'e' && input[p] != 'E') {
          if p != startDigits {
            FastPathAgrees(input, curr, p);
            v := Number(Finite(input[curr..p]));
            AdvanceFast(p - curr);
            return true, v;
          }
        }
      }
      // USE_STRTOD
      var valid := IsValidJsonNumber(input, curr);
      if !valid {
        SetError(InvalidNumber);
        return false, Null;
      }
      var stop := NumberEnd(input, curr).value;
      v := Number(Finite(input[curr..stop]));
      Advance(stop - curr);
      return true, v;
    }

    /** parse_element: whitespace, then the value its first byte announces. */
    method ParseElement(depth: nat) returns (ok: bool, v: Json)
      requires Valid()
      modifies this
      ensures Valid()
      ensures var o := Element(input, old(curr), depth);
        && (o.Done? ==> ok && v == o.value && curr == o.next && err == old(err))
        && (o.Fail? ==> !ok && err == Some(ErrorAt(input, o.kind, o.at)))
      decreases |input| - curr, 2
    {
      SkipWhitespace();
      if curr >= |input| {
        SetError(UnexpectedEnd);
        return false, Null;
      }
      var c := input[curr];
      if c == '"' {
        var str;
        ok, str := ParseString();
        return ok, String(str);
      } else if c == '[' {
        ok, v := ParseArray(depth);
      } else if c == '{' {
        ok, v := ParseObject(depth);
      } else if IsDigit(c) || c == '-' {
        ok, v := ParseNumber();
      } else if LiteralAt(input, curr, "true") {
        Advance(4);
        return true, Bool(true);
      } else if LiteralAt(input, curr, "false") {
        Advance(5);
        return true, Bool(false);
      } else if LiteralAt(input, curr, "null") {
        Advance(4);
        return true, Null;
      } else {
        SetError(UnexpectedChar(c));
        return false, Null;
      }
    }

    /** parse_array with the cursor on `[`. */
    method ParseArray(depth: nat) returns (ok: bool, v: Json)
      requires Valid() && curr < |input| && input[curr] == '['
      modifies this
      ensures Valid()
      ensures var o := ArrayAt(input, old(curr), depth);
        && (o.Done? ==> ok && v == o.value && curr == o.next && err == old(err))
        && (o.Fail? ==> !ok && err == Some(ErrorAt(input, o.kind, o.at)))
      decreases |input| - curr, 1
    {
      if depth > MAX_JSON_DEPTH {
        SetError(DepthExceeded);
        return false, Null;
      }
      ghost var q := curr;
      Advance(1);
      SkipWhitespace();
      if curr < |input| && input[curr] == ']' {
        Advance(1);
        return true, Array([]);
      }
      var items: seq<Json> := [];
      while curr < |input|
        invariant Valid() && err == old(err) && q < curr <= |input|
        invariant Items(input, curr, depth, items) == ArrayAt(input, q, depth)
        decreases |input| - curr
      {
        var elemOk, elem := ParseElement(depth + 1);
        if !elemOk {
          return false, Null;
        }
        items := items + [elem];
        var step := ArraySeparator(depth, items);
        if step == Close {
          return true, Array(items);
        } else if step == Stop {
          return false, Null;
        }
      }
      SetError(UnclosedArray);
      return false, Null;
    }

    /**
     * The end of parse_array's loop body, after an element: whitespace,
     * then `]` closes the array, and `,` not followed by `]` goes round
     * the loop again.
     */
    method ArraySeparator(depth: nat, ghost items: seq<Json>) returns (step: Step)
      requires Valid()
      modifies this
      ensures Valid()
      ensures var o := AfterItem(input, SkipWs(input, old(curr)), depth, items);
        && (step == Close ==> o == Done(Array(items), curr) && err == old(err))
        && (step == More ==> old(curr) < curr && o == Items(input, curr, depth, items) && err == old(err))
        && (step == Stop ==> o.Fail? && err == Some(ErrorAt(input, o.kind, o.at)))
    {
      SkipWhitespace();
      if curr >= |input| {
        SetError(UnexpectedEndInArray);
        return Stop;
      }
      if input[curr] == ']' {
        Advance(1);
        return Close;
      }
      if input[curr] == ',' {
        Advance(1);
        SkipWhitespace();
        if curr < |input| && input[curr] == ']' {
          SetError(TrailingCommaInArray);
          return Stop;
        }
        return More;
      }
      SetError(ExpectedCommaOrBracket);
      return Stop;
    }

    /**
     * The start of parse_object's loop body: a string key, whitespace and
     * `:`, leaving the cursor after the colon.
     */
    method ParseKey() returns (ok: bool, key: seq<byte>)
      requires Valid() && curr < |input|
      modifies this
      ensures Valid()
      ensures var o := KeyAt(input, old(curr));
        && (o.Done? ==> ok && key == o.value && curr == o.next && err == old(err))
        && (o.Fail? ==> !ok && err == Some(ErrorAt(input, o.kind, o.at)))
    {
      if input[curr] != '"' {
        SetError(ExpectedKey);
        return false, [];
      }
      ok, key := ParseString();
      if !ok {
        return false, [];
      }
      SkipWhitespace();
      if curr >= |input| || input[curr] != ':' {
        SetError(ExpectedColon);
        return false, [];
      }
      Advance(1);
    }

    /** parse_object with the cursor on `{`. */
    method ParseObject(depth: nat) returns (ok: bool, v: Json)
      requires Valid() && curr < |input| && input[curr] == '{'
      modifies this
      ensures Valid()
      ensures var o := ObjectAt(input, old(curr), depth);
        && (o.Done? ==> ok && v == o.value && curr == o.next && err == old(err))
        && (o.Fail? ==> !ok && err == Some(ErrorAt(input, o.kind, o.at)))
      decreases |input| - curr, 1
    {
      if depth > MAX_JSON_DEPTH {
        SetError(DepthExceeded);
        return false, Null;
      }
      ghost var q := curr;
      Advance(1);
      SkipWhitespace();
      if curr < |input| && input[curr] == '}' {
        Advance(1);
        return true, Object([]);
      }
      var members: seq<Member> := [];
      while curr < |input|
        invariant Valid() && err == old(err) && q < curr <= |input|
        invariant Members(input, curr, depth, members) == ObjectAt(input, q, depth)
        decreases |input| - curr
      {
        var keyOk, key := ParseKey();
        if !keyOk {
          return false, Null;
        }
        var valOk, val := ParseElement(depth + 1);
        if !valOk {
          return false, Null;
        }
        members := members + [Member(key, val)];
        var step := ObjectSeparator(depth, members);
        if step == Close {
          return true, Object(members);
        } else if step == Stop {
          return false, Null;
        }
      }
      SetError(UnclosedObject);
      return false, Null;
    }
    /**
     * The end of parse_object's loop body, after a member's value:
     * whitespace, then `}` closes the object, and `,` not followed by `}`
     * goes round the loop again.
     */
    method ObjectSeparator(depth: nat, ghost members: seq<Member>) returns (step: Step)
      requires Valid()
      modifies this
      ensures Valid()
      ensures var o := AfterMember(input, SkipWs(input, old(curr)), depth, members);
        && (step == Close ==> o == Done(Object(members), curr) && err == old(err))
        && (step == More ==> old(curr) < curr && o == Members(input, curr, depth, members) && err == old(err))
        && (step == Stop ==> o.Fail? && err == Some(ErrorAt(input, o.kind, o.at)))
    {
      SkipWhitespace();
      ghost var o := AfterMember(input, curr, depth, members);
      if curr >= |input| {
        assert o == Fail(UnexpectedEndInObject, curr);
        SetError(UnexpectedEndInObject);
        return Stop;
      }
      if input[curr] == '}' {
        assert o == Done(Object(members), curr + 1);
        Advance(1);
        return Close;
      }
      if input[curr] == ',' {
        Advance(1);
        SkipWhitespace();
        if curr < |input| && input[curr] == '}' {
          assert o == Fail(TrailingCommaInObject, curr);
          SetError(TrailingCommaInObject);
          return Stop;
        }
        assert o == Members(input, curr, depth, members);
        return More;
      }
      assert o == Fail(ExpectedCommaOrBrace, curr);
      SetError(ExpectedCommaOrBrace);
      return Stop;
    }
  }

  /**
   * json_parse: refuse empty input, parse one element at depth 0 and
   * refuse anything but whitespace after it.
   */
  method JsonParse(input: seq<byte>) returns (r: ParseResult)
    ensures r == Parse(input)
  {
    if |input| == 0 {
      return NoInput;
    }
    var s := new ParseState(input);
    var ok, root := s.ParseElement(0);
    if !ok {
      return Failed(s.err.value);
    }
    s.SkipWhitespace();
    if s.curr != |input| {
      s.SetError(TrailingGarbage);
      return Failed(s.err.value);
    }
    return Parsed(root);
  }
}
