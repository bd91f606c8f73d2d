/**
 * The serializer of json.c: w_char, w_str, w_escaped_string,
 * json_write_internal and json_to_string.
 *
 * Render is the text json_write_internal produces for a value. The methods
 * write it the way the source does, advancing a position and storing into
 * the buffer only when there is one. Each method's contract says that it
 * advances the position by exactly the length of that text whether or not
 * a buffer is given. So the counting pass and the writing pass agree, and
 * json_to_string fills its `len + 1` bytes with the text and a NUL.
 */
module JsonWriter {
  import opened Wrappers
  import opened Bytes
  import opened JsonValues
  import opened Arenas

  /* ---------------------------------------------------------------- */
  /* The text                                                         */
  /* ---------------------------------------------------------------- */

  /** What w_escaped_string writes for one byte of a string. */
  function EscapeByte(c: byte): (t: seq<byte>)
    ensures 1 <= |t| <= 6
  {
    if EscapeLetter(c).Some? then ['\\', EscapeLetter(c).value]
    else if c as int < 0x20 then ['\\', 'u', '0', '0', HexUpper(c as int / 16), HexUpper(c as int % 16)]
    else [c]
  }

  /** The letter of the two-byte escape w_escaped_string writes for `c`, for the seven bytes that have one. */
  function EscapeLetter(c: byte): (r: Option<byte>) {
    if c == '"' then Some('"')
    else if c == '\\' then Some('\\')
    else if c == 8 as char then Some('b')
    else if c == 12 as char then Some('f')
    else if c == '\n' then Some('n')
    else if c == '\r' then Some('r')
    else if c == '\t' then Some('t')
    else None
  }

  /** The escaped form of every byte of `x`, in order. */
  function Escape(x: seq<byte>): (t: seq<byte>)
    ensures |x| <= |t| <= 6 * |x|
    decreases |x|
  {
    if x == [] then [] else EscapeByte(x[0]) + Escape(x[1..])
  }

  /** w_escaped_string: the C string `s` (its bytes before the first NUL) between quotes. */
  function Quoted(s: seq<byte>): (t: seq<byte>)
    ensures |t| >= 2 && t[0] == '"' && t[|t| - 1] == '"'
  {
    ['"'] + Escape(UpToNul(s)) + ['"']
  }

  /** `n` spaces. */
  function Spaces(n: nat): (t: seq<byte>)
    ensures |t| == n
  {
    if n == 0 then [] else Spaces(n - 1) + [' ']
  }

  /** What pretty mode puts after an opening bracket or a comma: a line feed. */
  function Newline(pretty: bool): (t: seq<byte>) {
    if pretty then ['\n'] else []
  }

  /** The indentation of the elements of a container written at `indent`. */
  function Lead(indent: nat, pretty: bool): (t: seq<byte>) {
    if pretty then Spaces(indent + 2) else []
  }

  /** The indent the elements of a container written at `indent` are written at. */
  function Inner(indent: nat, pretty: bool): (n: nat) {
    if pretty then indent + 2 else indent
  }

  /** What follows an element: nothing after the last one, a comma (and a line feed) otherwise. */
  function Separator(last: bool, pretty: bool): (t: seq<byte>) {
    if last then [] else [','] + Newline(pretty)
  }

  /** What comes before the closing bracket of a non-empty container. */
  function Closing(indent: nat, pretty: bool): (t: seq<byte>) {
    if pretty then ['\n'] + Spaces(indent) else []
  }

  /** The key separator: `": "` in pretty mode, `":"` otherwise. */
  function Colon(pretty: bool): (t: seq<byte>) {
    if pretty then [':', ' '] else [':']
  }

  /**
   * json_write_internal: the text of `v` written at indent `indent`.
   * A finite number is written as its text (the stand-in for `%.17g`), a
   * NaN or an infinity as `null`.
   */
  function Render(v: Json, indent: nat, pretty: bool): (t: seq<byte>)
    decreases v, 2
  {
    match v
    case Null => "null"
    case Bool(b) => if b then "true" else "false"
    case Number(d) => if d.Finite? then d.text else "null"
    case String(s) => Quoted(s)
    case Array(items) => ['['] + (Inside(v, indent, pretty) + [']'])
    case Object(members) => ['{'] + (Inside(v, indent, pretty) + ['}'])
  }

  /**
   * What is written between the brackets of a container: nothing when it
   * is empty; otherwise its elements or members, in pretty mode after a
   * line feed and followed by a line feed and the container's indentation.
   */
  function Inside(v: Json, indent: nat, pretty: bool): (t: seq<byte>)
    requires v.Array? || v.Object?
    decreases v, 1
  {
    if v.Array? then
      if v.items == [] then [] else Newline(pretty) + (RenderItems(v, 0, indent, pretty) + Closing(indent, pretty))
    else
      if v.members == [] then [] else Newline(pretty) + (RenderMembers(v, 0, indent, pretty) + Closing(indent, pretty))
  }

  /** The elements of an array from the `i`-th on, each led by its indentation. */
  function RenderItems(v: Json, i: nat, indent: nat, pretty: bool): (t: seq<byte>)
    requires v.Array? && i <= |v.items|
    decreases v, 0, |v.items| - i, 1
  {
    if i == |v.items| then []
    else ItemText(v, i, indent, pretty) + RenderItems(v, i + 1, indent, pretty)
  }

  /** The `i`-th element of an array: indentation, value, separator. */
  function ItemText(v: Json, i: nat, indent: nat, pretty: bool): (t: seq<byte>)
    requires v.Array? && i < |v.items|
    decreases v, 0, |v.items| - i, 0
  {
    Lead(indent, pretty) + (Render(v.items[i], Inner(indent, pretty), pretty)
      + Separator(i + 1 == |v.items|, pretty))
  }

  /** The members of an object from the `i`-th on. */
  function RenderMembers(v: Json, i: nat, indent: nat, pretty: bool): (t: seq<byte>)
    requires v.Object? && i <= |v.members|
    decreases v, 0, |v.members| - i, 1
  {
    if i == |v.members| then []
    else MemberText(v, i, indent, pretty) + RenderMembers(v, i + 1, indent, pretty)
  }

  /** The `i`-th member of an object: indentation, quoted key, colon, value, separator. */
  function MemberText(v: Json, i: nat, indent: nat, pretty: bool): (t: seq<byte>)
    requires v.Object? && i < |v.members|
    decreases v, 0, |v.members| - i, 0
  {
    Lead(indent, pretty) + (Quoted(v.members[i].key) + (Colon(pretty)
      + (Render(v.members[i].value, Inner(indent, pretty), pretty)
      + Separator(i + 1 == |v.members|, pretty))))
  }

  /* ---------------------------------------------------------------- */
  /* Writing into a buffer                                            */
  /* ---------------------------------------------------------------- */

  /** `a` with `t` written over it from offset `pos`. */
  function Splice(a: seq<byte>, pos: nat, t: seq<byte>): (r: seq<byte>)
    requires pos + |t| <= |a|
    ensures |r| == |a|
  {
    a[..pos] + t + a[pos + |t|..]
  }

  /** Writing `t` and then `c` right after it is writing `t + c`. */
  lemma SpliceMore(a: seq<byte>, pos: nat, t: seq<byte>, c: seq<byte>, at: nat)
    requires at == pos + |t| && at + |c| <= |a|
    ensures Splice(Splice(a, pos, t), at, c) == Splice(a, pos, t + c)
  {
    var b := Splice(a, pos, t);
    assert b[..pos + |t|] == a[..pos] + t;
    assert b[pos + |t| + |c|..] == a[pos + |t| + |c|..];
  }

  /** Writing nothing changes nothing. */
  lemma SpliceNothing(a: seq<byte>, pos: nat)
    requires pos <= |a|
    ensures Splice(a, pos, []) == a
  {
    assert a[..pos] + a[pos..] == a;
  }

  /** With `t == w + c + rest` still to come after `w`, writing `c` leaves `rest`. */
  lemma Consume(t: seq<byte>, w: seq<byte>, c: seq<byte>, rest: seq<byte>)
    requires t == w + (c + rest)
    ensures t == (w + c) + rest
  {
  }

  /** Appending nothing, on either side, changes nothing. */
  lemma Unit(s: seq<byte>)
    ensures s + [] == s && [] + s == s
  {
  }

  lemma NewlineThen(pretty: bool, r: seq<byte>)
    ensures Newline(pretty) + r == if pretty then ['\n'] + r else r
  {
  }

  lemma ClosingThen(indent: nat, pretty: bool, r: seq<byte>)
    ensures Closing(indent, pretty) + r == if pretty then ['\n'] + (Spaces(indent) + r) else r
  {
  }

  lemma ItemsStep(v: Json, i: nat, indent: nat, pretty: bool, tail: seq<byte>)
    requires v.Array? && i < |v.items|
    ensures RenderItems(v, i, indent, pretty) + tail
      == ItemText(v, i, indent, pretty) + (RenderItems(v, i + 1, indent, pretty) + tail)
  {
  }

  lemma MembersStep(v: Json, i: nat, indent: nat, pretty: bool, tail: seq<byte>)
    requires v.Object? && i < |v.members|
    ensures RenderMembers(v, i, indent, pretty) + tail
      == MemberText(v, i, indent, pretty) + (RenderMembers(v, i + 1, indent, pretty) + tail)
  {
  }

  lemma LeadThen(indent: nat, pretty: bool, r: seq<byte>)
    ensures Lead(indent, pretty) + r == if pretty then Spaces(indent + 2) + r else r
  {
  }

  lemma SeparatorIs(last: bool, pretty: bool)
    ensures Separator(last, pretty) == if last then [] else if pretty then [','] + ['\n'] else [',']
  {
  }

  /** A quoted string: a quote, the escaped bytes before the first NUL, a quote. */
  lemma QuotedParts(s: seq<byte>)
    ensures Quoted(s) == ['"'] + (Escape(UpToNul(s)[0..]) + ['"'])
  {
    assert UpToNul(s)[0..] == UpToNul(s);
  }

  /** The escaped text from the `i`-th byte on starts with the `i`-th byte escaped. */
  lemma EscapeStep(u: seq<byte>, i: nat, tail: seq<byte>)
    requires i < |u|
    ensures Escape(u[i..]) + tail == EscapeByte(u[i]) + (Escape(u[i + 1..]) + tail)
  {
    assert u[i..][1..] == u[i + 1..];
  }

  /** Writing `t` over all but the last byte of `b`, then a NUL, gives `t` and a NUL. */
  lemma Terminate(b: seq<byte>, t: seq<byte>)
    requires |b| == |t| + 1
    ensures Splice(b, 0, [] + t)[|t| := NUL] == t + [NUL]
  {
    assert [] + t == t;
  }

  /** With a buffer, it holds `a` with `y` written over it from `base`. */
  ghost predicate Holds(buf: array?<byte>, a: seq<byte>, base: nat, y: seq<byte>)
    reads buf
  {
    buf != null ==> base + |y| <= |a| == buf.Length && buf[..] == Splice(a, base, y)
  }

  /*
   * The write methods take, as ghost parameters, the contents `a` the
   * buffer had before the current top-level write began at `base`, and the
   * text `x` written since, so that `pos == base + |x|`. Each one leaves
   * `x` followed by what it writes spliced into `a` from `base`.
   */

  /** w_char: store `c` at `pos` when there is a buffer; advance by one either way. */
  method WChar(buf: array?<byte>, pos: nat, c: byte, ghost a: seq<byte>, ghost base: nat, ghost x: seq<byte>)
    returns (next: nat)
    requires pos == base + |x|
    requires buf != null ==> |a| == buf.Length && pos < |a|
    requires Holds(buf, a, base, x)
    modifies buf
    ensures next == pos + 1
    ensures Holds(buf, a, base, x + [c])
  {
    if buf != null {
      SpliceMore(a, base, x, [c], pos);
      buf[pos] := c;
    }
    next := pos + 1;
  }

  /** w_str: copy `s` (memcpy) when there is a buffer; advance by its length either way. */
  method WStr(buf: array?<byte>, pos: nat, s: seq<byte>, ghost a: seq<byte>, ghost base: nat, ghost x: seq<byte>)
    returns (next: nat)
    requires pos == base + |x|
    requires buf != null ==> |a| == buf.Length && pos + |s| <= |a|
    requires Holds(buf, a, base, x)
    modifies buf
    ensures next == pos + |s|
    ensures Holds(buf, a, base, x + s)
  {
    if buf != null {
      var i := 0;
      while i < |s|
        invariant i <= |s|
        invariant buf[..] == Splice(a, base, x + s[..i])
      {
        SpliceMore(a, base, x + s[..i], [s[i]], pos + i);
        buf[pos + i] := s[i];
        assert x + s[..i] + [s[i]] == x + s[..i + 1];
        i := i + 1;
      }
      assert s[..i] == s;
    }
    next := pos + |s|;
  }

  /** The `for (i = 0; i < n; i++) w_char(buf, pos, ' ')` loops of json_write_internal. */
  method WSpaces(buf: array?<byte>, pos: nat, n: nat, ghost a: seq<byte>, ghost base: nat, ghost x: seq<byte>)
    returns (next: nat)
    requires pos == base + |x|
    requires buf != null ==> |a| == buf.Length && pos + n <= |a|
    requires Holds(buf, a, base, x)
    modifies buf
    ensures next == pos + n
    ensures Holds(buf, a, base, x + Spaces(n))
  {
    next := pos;
    var i := 0;
    assert x + Spaces(0) == x;
    while i < n
      invariant i <= n && next == pos + i
      invariant Holds(buf, a, base, x + Spaces(i))
    {
      next := WChar(buf, next, ' ', a, base, x + Spaces(i));
      assert x + Spaces(i) + [' ' as byte] == x + Spaces(i + 1);
      i := i + 1;
    }
  }

  /** The escape sequence w_escaped_string writes for one byte of a string. */
  method WEscapeByte(buf: array?<byte>, pos: nat, c: byte, ghost a: seq<byte>, ghost base: nat, ghost x: seq<byte>)
    returns (next: nat)
    requires pos == base + |x|
    requires buf != null ==> |a| == buf.Length && pos + |EscapeByte(c)| <= |a|
    requires Holds(buf, a, base, x)
    modifies buf
    ensures next == pos + |EscapeByte(c)|
    ensures Holds(buf, a, base, x + EscapeByte(c))
  {
    if c == '"' {
      next := WStr(buf, pos, ['\\', '"'], a, base, x);
    } else if c == '\\' {
      next := WStr(buf, pos, ['\\', '\\'], a, base, x);
    } else if c == 8 as char {
      next := WStr(buf, pos, ['\\', 'b'], a, base, x);
    } else if c == 12 as char {
      next := WStr(buf, pos, ['\\', 'f'], a, base, x);
    } else if c == '\n' {
      next := WStr(buf, pos, ['\\', 'n'], a, base, x);
    } else if c == '\r' {
      next := WStr(buf, pos, ['\\', 'r'], a, base, x);
    } else if c == '\t' {
      next := WStr(buf, pos, ['\\', 't'], a, base, x);
    } else if c as int < 0x20 {
      // sprintf(hex, "\\u00%02X", c)
      var hex := ['\\', 'u', '0', '0', HexUpper(c as int / 16), HexUpper(c as int % 16)];
      next := WStr(buf, pos, hex, a, base, x);
    } else {
      next := WChar(buf, pos, c, a, base, x);
    }
  }

  /**
   * w_escaped_string: a quote, each byte of `s` before its first NUL in
   * its escaped form, a quote.
   */
  method WEscapedString(buf: array?<byte>, pos: nat, s: seq<byte>, ghost a: seq<byte>, ghost base: nat, ghost x: seq<byte>)
    returns (next: nat)
    requires pos == base + |x|
    requires buf != null ==> |a| == buf.Length && pos + |Quoted(s)| <= |a|
    requires Holds(buf, a, base, x)
    modifies buf
    ensures next == pos + |Quoted(s)|
    ensures Holds(buf, a, base, x + Quoted(s))
  {
    ghost var u := UpToNul(s);
    ghost var whole: seq<byte> := x + Quoted(s);
    QuotedParts(s);
    Consume(whole, x, ['"' as byte], Escape(u[0..]) + ['"' as byte]);
    next := WChar(buf, pos, '"', a, base, x);
    ghost var y: seq<byte> := x + ['"' as byte];
    var i := 0;
    while i < |s| && s[i] != NUL
      invariant i <= |u|
      invariant next == base + |y|
      invariant whole == y + (Escape(u[i..]) + ['"' as byte])
      invariant Holds(buf, a, base, y)
      decreases |s| - i
    {
      assert i < |u|;
      var c := s[i];
      EscapeStep(u, i, ['"' as byte]);
      Consume(whole, y, EscapeByte(c), Escape(u[i + 1..]) + ['"' as byte]);
      next := WEscapeByte(buf, next, c, a, base, y);
      y := y + EscapeByte(c);
      i := i + 1;
    }
    assert i == |u|;
    assert Escape(u[i..]) == [];
    Unit(['"' as byte]);
    next := WChar(buf, next, '"', a, base, y);
  }

  /**
   * json_write_internal: write the text of `v` at `pos`, into `buf` when
   * there is one; the position after it.
   */
  method WriteValue(v: Json, buf: array?<byte>, pos: nat, indent: nat, pretty: bool,
                    ghost a: seq<byte>, ghost base: nat, ghost x: seq<byte>)
    returns (next: nat)
    requires pos == base + |x|
    requires buf != null ==> |a| == buf.Length && pos + |Render(v, indent, pretty)| <= |a|
    requires Holds(buf, a, base, x)
    modifies buf
    ensures next == pos + |Render(v, indent, pretty)|
    ensures Holds(buf, a, base, x + Render(v, indent, pretty))
    decreases v, 1
  {
    match v
    case Null =>
      next := WStr(buf, pos, "null", a, base, x);
    case Bool(b) =>
      next := WStr(buf, pos, if b then "true" else "false", a, base, x);
    case Number(d) =>
      if d.Finite? {
        next := WStr(buf, pos, d.text, a, base, x);
      } else {
        next := WStr(buf, pos, "null", a, base, x);
      }
    case String(s) =>
      next := WEscapedString(buf, pos, s, a, base, x);
    case Array(items) =>
      next := WriteArray(v, buf, pos, indent, pretty, a, base, x);
    case Object(members) =>
      next := WriteObject(v, buf, pos, indent, pretty, a, base, x);
  }

  /** The JSON_ARRAY case of json_write_internal. */
  method WriteArray(v: Json, buf: array?<byte>, pos: nat, indent: nat, pretty: bool,
                    ghost a: seq<byte>, ghost base: nat, ghost x: seq<byte>)
    returns (next: nat)
    requires v.Array? && pos == base + |x|
    requires buf != null ==> |a| == buf.Length && pos + |Render(v, indent, pretty)| <= |a|
    requires Holds(buf, a, base, x)
    modifies buf
    ensures next == pos + |Render(v, indent, pretty)|
    ensures Holds(buf, a, base, x + Render(v, indent, pretty))
    decreases v, 0
  {
    ghost var whole: seq<byte> := x + Render(v, indent, pretty);
    Consume(whole, x, ['[' as byte], Inside(v, indent, pretty) + [']' as byte]);
    next := WChar(buf, pos, '[', a, base, x);
    ghost var y: seq<byte> := x + ['[' as byte];
    if v.items != [] {
      Consume(whole, y, Inside(v, indent, pretty), [']' as byte]);
      next := WriteElements(v, buf, next, indent, pretty, a, base, y);
      y := y + Inside(v, indent, pretty);
    } else {
      Unit([']' as byte]);
    }
    next := WChar(buf, next, ']', a, base, y);
  }

  /**
   * The non-empty JSON_ARRAY case between its brackets: a line feed in
   * pretty mode, the elements, and the line feed and indentation of the
   * closing bracket.
   */
  method WriteElements(v: Json, buf: array?<byte>, pos: nat, indent: nat, pretty: bool,
              ghost a: seq<byte>, ghost base: nat, ghost x: seq<byte>)
    returns (next: nat)
    requires v.Array? && v.items != [] && pos == base + |x|
    requires buf != null ==> |a| == buf.Length && pos + |Inside(v, indent, pretty)| <= |a|
    requires Holds(buf, a, base, x)
    modifies buf
    ensures next == pos + |Inside(v, indent, pretty)|
    ensures Holds(buf, a, base, x + Inside(v, indent, pretty))
    decreases v, 0, |v.items| + 2
  {
    ghost var close: seq<byte> := Closing(indent, pretty);
    ghost var list: seq<byte> := RenderItems(v, 0, indent, pretty);
    ghost var whole: seq<byte> := x + (Newline(pretty) + (list + close));
    ghost var y: seq<byte> := x;
    next := pos;
    NewlineThen(pretty, list + close);
    if pretty {
      Consume(whole, y, ['\n' as byte], list + close);
      next := WChar(buf, next, '\n', a, base, y);
      y := y + ['\n' as byte];
    }
    Consume(whole, y, list, close);
    next := WriteElementList(v, buf, next, indent, pretty, a, base, y);
    y := y + list;
    ClosingThen(indent, pretty, []);
    Unit(close);
    Unit(Spaces(indent));
    if pretty {
      Consume(whole, y, ['\n' as byte], Spaces(indent));
      next := WChar(buf, next, '\n', a, base, y);
      y := y + ['\n' as byte];
      next := WSpaces(buf, next, indent, a, base, y);
    } else {
      Unit(y);
    }
  }

  /** The `while (curr)` loop of the JSON_ARRAY case: every element, in list order. */
  method WriteElementList(v: Json, buf: array?<byte>, pos: nat, indent: nat, pretty: bool,
                  ghost a: seq<byte>, ghost base: nat, ghost x: seq<byte>)
    returns (next: nat)
    requires v.Array? && pos == base + |x|
    requires buf != null ==> |a| == buf.Length && pos + |RenderItems(v, 0, indent, pretty)| <= |a|
    requires Holds(buf, a, base, x)
    modifies buf
    ensures next == pos + |RenderItems(v, 0, indent, pretty)|
    ensures Holds(buf, a, base, x + RenderItems(v, 0, indent, pretty))
    decreases v, 0, |v.items| + 1
  {
    ghost var whole: seq<byte> := x + RenderItems(v, 0, indent, pretty);
    ghost var y: seq<byte> := x;
    Unit(RenderItems(v, 0, indent, pretty));
    next := pos;
    var i := 0;
    while i < |v.items|
      invariant i <= |v.items| && next == base + |y|
      invariant whole == y + (RenderItems(v, i, indent, pretty) + [])
      invariant Holds(buf, a, base, y)
    {
      ItemsStep(v, i, indent, pretty, []);
      Consume(whole, y, ItemText(v, i, indent, pretty), RenderItems(v, i + 1, indent, pretty) + []);
      next := WriteItem(v, i, buf, next, indent, pretty, a, base, y);
      y := y + ItemText(v, i, indent, pretty);
      i := i + 1;
    }
    Unit(y);
  }

  /**
   * One turn of the element loop of the JSON_ARRAY case: indentation,
   * the element, and a separator when it is not the last.
   */
  method WriteItem(v: Json, i: nat, buf: array?<byte>, pos: nat, indent: nat, pretty: bool,
                   ghost a: seq<byte>, ghost base: nat, ghost x: seq<byte>)
    returns (next: nat)
    requires v.Array? && i < |v.items| && pos == base + |x|
    requires buf != null ==> |a| == buf.Length && pos + |ItemText(v, i, indent, pretty)| <= |a|
    requires Holds(buf, a, base, x)
    modifies buf
    ensures next == pos + |ItemText(v, i, indent, pretty)|
    ensures Holds(buf, a, base, x + ItemText(v, i, indent, pretty))
    decreases v, 0, |v.items| - i
  {
    ghost var whole: seq<byte> := x + ItemText(v, i, indent, pretty);
    ghost var value := Render(v.items[i], Inner(indent, pretty), pretty);
    ghost var sep := Separator(i + 1 == |v.items|, pretty);
    LeadThen(indent, pretty, value + sep);
    ghost var y: seq<byte> := x;
    next := pos;
    if pretty {
      Consume(whole, y, Spaces(indent + 2), value + sep);
      next := WSpaces(buf, next, indent + 2, a, base, y);
      y := y + Spaces(indent + 2);
    }
    next := WriteValue(v.items[i], buf, next, Inner(indent, pretty), pretty, a, base, y);
    Consume(whole, y, value, sep);
    y := y + value;
    SeparatorIs(i + 1 == |v.items|, pretty);
    if i + 1 < |v.items| {
      if pretty {
        Consume(whole, y, [',' as byte], ['\n' as byte]);
      }
      next := WChar(buf, next, ',', a, base, y);
      y := y + [',' as byte];
      if pretty {
        next := WChar(buf, next, '\n', a, base, y);
        y := y + ['\n' as byte];
      }
    } else {
      Unit(y);
    }
  }

  /** The JSON_OBJECT case of json_write_internal. */
  method WriteObject(v: Json, buf: array?<byte>, pos: nat, indent: nat, pretty: bool,
                     ghost a: seq<byte>, ghost base: nat, ghost x: seq<byte>)
    returns (next: nat)
    requires v.Object? && pos == base + |x|
    requires buf != null ==> |a| == buf.Length && pos + |Render(v, indent, pretty)| <= |a|
    requires Holds(buf, a, base, x)
    modifies buf
    ensures next == pos + |Render(v, indent, pretty)|
    ensures Holds(buf, a, base, x + Render(v, indent, pretty))
    decreases v, 0
  {
    ghost var whole: seq<byte> := x + Render(v, indent, pretty);
    Consume(whole, x, ['{' as byte], Inside(v, indent, pretty) + ['}' as byte]);
    next := WChar(buf, pos, '{', a, base, x);
    ghost var y: seq<byte> := x + ['{' as byte];
    if v.members != [] {
      Consume(whole, y, Inside(v, indent, pretty), ['}' as byte]);
      next := WriteMembers(v, buf, next, indent, pretty, a, base, y);
      y := y + Inside(v, indent, pretty);
    } else {
      Unit(['}' as byte]);
    }
    next := WChar(buf, next, '}', a, base, y);
  }

  /**
   * The non-empty JSON_OBJECT case between its braces: a line feed in
   * pretty mode, the members, and the line feed and indentation of the
   * closing brace.
   */
  method WriteMembers(v: Json, buf: array?<byte>, pos: nat, indent: nat, pretty: bool,
                ghost a: seq<byte>, ghost base: nat, ghost x: seq<byte>)
    returns (next: nat)
    requires v.Object? && v.members != [] && pos == base + |x|
    requires buf != null ==> |a| == buf.Length && pos + |Inside(v, indent, pretty)| <= |a|
    requires Holds(buf, a, base, x)
    modifies buf
    ensures next == pos + |Inside(v, indent, pretty)|
    ensures Holds(buf, a, base, x + Inside(v, indent, pretty))
    decreases v, 0, |v.members| + 2
  {
    ghost var close: seq<byte> := Closing(indent, pretty);
    ghost var list: seq<byte> := RenderMembers(v, 0, indent, pretty);
    ghost var whole: seq<byte> := x + (Newline(pretty) + (list + close));
    ghost var y: seq<byte> := x;
    next := pos;
    NewlineThen(pretty, list + close);
    if pretty {
      Consume(whole, y, ['\n' as byte], list + close);
      next := WChar(buf, next, '\n', a, base, y);
      y := y + ['\n' as byte];
    }
    Consume(whole, y, list, close);
    next := WriteMemberList(v, buf, next, indent, pretty, a, base, y);
    y := y + list;
    ClosingThen(indent, pretty, []);
    Unit(close);
    Unit(Spaces(indent));
    if pretty {
      Consume(whole, y, ['\n' as byte], Spaces(indent));
      next := WChar(buf, next, '\n', a, base, y);
      y := y + ['\n' as byte];
      next := WSpaces(buf, next, indent, a, base, y);
    } else {
      Unit(y);
    }
  }

  /** The `while (curr)` loop of the JSON_OBJECT case: every member, in list order. */
  method WriteMemberList(v: Json, buf: array?<byte>, pos: nat, indent: nat, pretty: bool,
                    ghost a: seq<byte>, ghost base: nat, ghost x: seq<byte>)
    returns (next: nat)
    requires v.Object? && pos == base + |x|
    requires buf != null ==> |a| == buf.Length && pos + |RenderMembers(v, 0, indent, pretty)| <= |a|
    requires Holds(buf, a, base, x)
    modifies buf
    ensures next == pos + |RenderMembers(v, 0, indent, pretty)|
    ensures Holds(buf, a, base, x + RenderMembers(v, 0, indent, pretty))
    decreases v, 0, |v.members| + 1
  {
    ghost var whole: seq<byte> := x + RenderMembers(v, 0, indent, pretty);
    ghost var y: seq<byte> := x;
    Unit(RenderMembers(v, 0, indent, pretty));
    next := pos;
    var i := 0;
    while i < |v.members|
      invariant i <= |v.members| && next == base + |y|
      invariant whole == y + (RenderMembers(v, i, indent, pretty) + [])
      invariant Holds(buf, a, base, y)
    {
      MembersStep(v, i, indent, pretty, []);
      Consume(whole, y, MemberText(v, i, indent, pretty), RenderMembers(v, i + 1, indent, pretty) + []);
      next := WriteMember(v, i, buf, next, indent, pretty, a, base, y);
      y := y + MemberText(v, i, indent, pretty);
      i := i + 1;
    }
    Unit(y);
  }

  /**
   * One turn of the member loop of the JSON_OBJECT case: indentation, the
   * quoted key, the colon, the value, and a separator when it is not the
   * last.
   */
  method WriteMember(v: Json, i: nat, buf: array?<byte>, pos: nat, indent: nat, pretty: bool,
                     ghost a: seq<byte>, ghost base: nat, ghost x: seq<byte>)
    returns (next: nat)
    requires v.Object? && i < |v.members| && pos == base + |x|
    requires buf != null ==> |a| == buf.Length && pos + |MemberText(v, i, indent, pretty)| <= |a|
    requires Holds(buf, a, base, x)
    modifies buf
    ensures next == pos + |MemberText(v, i, indent, pretty)|
    ensures Holds(buf, a, base, x + MemberText(v, i, indent, pretty))
    decreases v, 0, |v.members| - i
  {
    var m := v.members[i];
    ghost var whole: seq<byte> := x + MemberText(v, i, indent, pretty);
    ghost var value := Render(m.value, Inner(indent, pretty), pretty);
    ghost var sep := Separator(i + 1 == |v.members|, pretty);
    LeadThen(indent, pretty, Quoted(m.key) + (Colon(pretty) + (value + sep)));
    ghost var y: seq<byte> := x;
    next := pos;
    if pretty {
      Consume(whole, y, Spaces(indent + 2), Quoted(m.key) + (Colon(pretty) + (value + sep)));
      next := WSpaces(buf, next, indent + 2, a, base, y);
      y := y + Spaces(indent + 2);
    }
    next := WEscapedString(buf, next, m.key, a, base, y);
    Consume(whole, y, Quoted(m.key), Colon(pretty) + (value + sep));
    y := y + Quoted(m.key);
    var colon: seq<byte> := if pretty then ": " else ":";
    assert colon == Colon(pretty);
    next := WStr(buf, next, colon, a, base, y);
    Consume(whole, y, colon, value + sep);
    y := y + colon;
    next := WriteValue(m.value, buf, next, Inner(indent, pretty), pretty, a, base, y);
    Consume(whole, y, value, sep);
    y := y + value;
    SeparatorIs(i + 1 == |v.members|, pretty);
    if i + 1 < |v.members| {
      if pretty {
        Consume(whole, y, [',' as byte], ['\n' as byte]);
      }
      next := WChar(buf, next, ',', a, base, y);
      y := y + [',' as byte];
      if pretty {
        next := WChar(buf, next, '\n', a, base, y);
        y := y + ['\n' as byte];
      }
    } else {
      Unit(y);
    }
  }

  /**
   * json_to_string: a counting pass without a buffer, an allocation of
   * `len + 1` bytes from the arena, a writing pass into it, and a NUL at
   * `len`. A NULL value, or an allocation that fails, gives NULL.
   */
  method ToString(arena: Arena, v: Option<Json>, pretty: bool, initBase: Option<nat>, growBase: Option<nat>)
    returns (r: Option<array<byte>>)
    requires arena.Valid()
    modifies arena
    ensures arena.Valid()
    ensures v.None? ==> r.None? && arena.View() == old(arena.View())
    ensures v.Some? ==>
      var text := Render(v.value, 0, pretty);
      var alloc := Allocate(old(arena.View()), |text| + 1, initBase, growBase);
      && arena.View() == alloc.after
      && (r.Some? <==> alloc.ptr.Some?)
      && (r.Some? ==> fresh(r.value) && r.value[..] == text + [NUL])
  {
    if v.None? {
      return None;
    }
    var len := WriteValue(v.value, null, 0, 0, pretty, [], 0, []);
    var p := arena.Alloc(len + 1, initBase, growBase);
    if p.None? {
      return None;
    }
    var result := new byte[len + 1];
    ghost var blank := result[..];
    SpliceNothing(blank, 0);
    var pos := WriteValue(v.value, result, 0, 0, pretty, blank, 0, []);
    Terminate(blank, Render(v.value, 0, pretty));
    result[pos] := NUL;
    return Some(result);
  }
}
