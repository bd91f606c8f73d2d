/**
 * What the parser makes of the writer's text: reading back what
 * json_to_string writes in compact mode gives the value that was written.
 */
module JsonRoundTrip {
  import opened Wrappers
  import opened Bytes
  import opened JsonValues
  import opened JsonGrammar
  import opened JsonWriter
  import opened ByteText

  /* ---------------------------------------------------------------- */
  /* Strings                                                          */
  /* ---------------------------------------------------------------- */

  /**
   * The three shapes of the escape of one byte: the byte itself when the
   * scan copies it, a backslash and a letter that decodes back to it, or
   * `\u00` and two upper-case hexadecimal digits.
   */
  lemma EscapeByteShape(c: byte)
    ensures var t := EscapeByte(c);
      && (|t| == 1 <==> Plain(c))
      && (|t| == 1 ==> t == [c])
      && (|t| == 2 ==> t[0] == '\\' && SimpleEscape(t[1]) == Some(c))
      && (|t| != 1 && |t| != 2 ==>
            && |t| == 6 && c as int < 0x20
            && t == ['\\', 'u', '0', '0', HexUpper(c as int / 16), HexUpper(c as int % 16)])
  {
  }

  /** The scan over the escape of one byte at `i`. */
  lemma ScanChunk(s: seq<byte>, i: nat, c: byte, e: bool)
    requires At(s, i, EscapeByte(c)) && i + |EscapeByte(c)| < |s|
    ensures var n := |EscapeByte(c)|;
      ScanString(s, i, e) == ScanString(s, i + n, if n == 1 then e else true)
  {
    var t := EscapeByte(c);
    EscapeByteShape(c);
    AtIndex(s, i, t, 0);
    if |t| > 2 {
      AtIndex(s, i, t, 2);
      AtIndex(s, i, t, 3);
      AtIndex(s, i, t, 4);
      AtIndex(s, i, t, 5);
      assert ScanString(s, i + 2, true) == ScanString(s, i + 3, true);
      assert ScanString(s, i + 3, true) == ScanString(s, i + 4, true);
      assert ScanString(s, i + 4, true) == ScanString(s, i + 5, true);
    }
  }

  /** The scan for the closing quote walks over an escaped text and stops at the quote after it. */
  lemma {:induction false} ScanEscaped(s: seq<byte>, i: nat, x: seq<byte>, e: bool)
    requires At(s, i, Escape(x) + ['"'])
    ensures ScanString(s, i, e).Closed? && ScanString(s, i, e).close == i + |Escape(x)|
    decreases |x|
  {
    if x == [] {
      assert Escape(x) + ['"'] == ['"'];
      AtIndex(s, i, ['"'], 0);
    } else {
      var chunk, rest := EscapeByte(x[0]), Escape(x[1..]);
      assert Escape(x) == chunk + rest;
      Assoc(chunk, rest, ['"']);
      AtSplit(s, i, chunk, rest + ['"']);
      ScanEscaped(s, i + |chunk|, x[1..], if |chunk| == 1 then e else true);
      ScanChunk(s, i, x[0], e);
    }
  }

  /** An escaped text without a byte the scan would count as an escape is the text itself. */
  lemma {:induction false} PlainEscape(x: seq<byte>)
    requires forall j :: 0 <= j < |Escape(x)| ==> Plain(Escape(x)[j])
    ensures Escape(x) == x
    decreases |x|
  {
    if x != [] {
      var chunk := EscapeByte(x[0]);
      assert Escape(x) == chunk + Escape(x[1..]);
      assert Plain(Escape(x)[0]);
      EscapeByteShape(x[0]);
      forall j | 0 <= j < |Escape(x[1..])|
        ensures Plain(Escape(x[1..])[j])
      {
        assert Escape(x[1..])[j] == Escape(x)[|chunk| + j];
      }
      PlainEscape(x[1..]);
    }
  }

  /** The four digits of a `\u00XY` escape the writer produces read back as the byte `c`. */
  lemma HexQuadOfEscape(s: seq<byte>, j: nat, stop: nat, c: byte)
    requires j + 4 <= stop < |s| && c as int < 0x20
    requires s[j] == '0' && s[j + 1] == '0'
    requires s[j + 2] == HexUpper(c as int / 16) && s[j + 3] == HexUpper(c as int % 16)
    ensures HexQuad(s, j, stop, 0, 0) == Ok(c as int)
  {
    var hi := c as int / 16;
    var lo := c as int % 16;
    assert HexValue(s[j]) == 0 && HexValue(s[j + 1]) == 0;
    assert HexQuad(s, j, stop, 0, 0) == HexQuad(s, j, stop, 1, 0);
    assert HexQuad(s, j, stop, 1, 0) == HexQuad(s, j, stop, 2, 0);
    assert HexQuad(s, j, stop, 2, 0) == HexQuad(s, j, stop, 3, hi);
    assert HexQuad(s, j, stop, 3, hi) == HexQuad(s, j, stop, 4, hi * 16 + lo);
  }

  /** Decoding the escape of one byte at `i` gives that byte. */
  lemma UnescapeChunk(s: seq<byte>, i: nat, c: byte, stop: nat)
    requires At(s, i, EscapeByte(c)) && i + |EscapeByte(c)| <= stop < |s|
    ensures Unescape(s, i, stop) == Prepend([c], Unescape(s, i + |EscapeByte(c)|, stop))
  {
    var t := EscapeByte(c);
    EscapeByteShape(c);
    AtIndex(s, i, t, 0);
    if |t| > 1 {
      AtIndex(s, i, t, 1);
    }
    if |t| > 2 {
      AtIndex(s, i, t, 2);
      AtIndex(s, i, t, 3);
      AtIndex(s, i, t, 4);
      AtIndex(s, i, t, 5);
      HexQuadOfEscape(s, i + 2, stop, c);
      assert Utf8(c as int) == [c];
    }
  }

  /** Decoding an escaped text between `i` and the quote at `stop` gives the text back. */
  lemma {:induction false} UnescapeEscaped(s: seq<byte>, i: nat, x: seq<byte>, stop: nat)
    requires At(s, i, Escape(x)) && stop == i + |Escape(x)| && stop < |s|
    ensures Unescape(s, i, stop) == Ok(x)
    decreases |x|
  {
    if x != [] {
      var chunk := EscapeByte(x[0]);
      EscapeHead(x);
      AtSplit(s, i, chunk, Escape(x[1..]));
      UnescapeEscaped(s, i + |chunk|, x[1..], stop);
      UnescapeChunk(s, i, x[0], stop);
    }
  }

  /** A text is its first byte and the rest, and so is its escape. */
  lemma EscapeHead(x: seq<byte>)
    requires x != []
    ensures x == [x[0]] + x[1..] && Escape(x) == EscapeByte(x[0]) + Escape(x[1..])
  {
  }

  /** w_escaped_string's text, read by parse_string, gives the string back with the cursor after it. */
  lemma StringRoundTrip(s: seq<byte>, q: nat, x: seq<byte>)
    requires NulFree(x) && At(s, q, Quoted(x))
    ensures q < |s| && s[q] == '"'
    ensures StringAt(s, q) == Done(x, q + |Quoted(x)|)
  {
    UpToNulOfNulFree(x);
    assert Quoted(x) == ['"'] + (Escape(x) + ['"']);
    AtSplit(s, q, ['"'], Escape(x) + ['"']);
    AtIndex(s, q, ['"'], 0);
    ScanEscaped(s, q + 1, x, false);
    if ScanString(s, q + 1, false).escapes {
      EscapedString(s, q, x);
    } else {
      PlainString(s, q, x);
    }
  }

  /** The writer's text of a string in which the scan met no backslash. */
  lemma PlainString(s: seq<byte>, q: nat, x: seq<byte>)
    requires q < |s| && s[q] == '"' && At(s, q + 1, Escape(x) + ['"'])
    requires ScanString(s, q + 1, false) == Closed(q + 1 + |Escape(x)|, false)
    ensures StringAt(s, q) == Done(x, q + 1 + |Escape(x)| + 1)
  {
    AtSplit(s, q + 1, Escape(x), ['"']);
    ScanSpans(s, q + 1, false);
    forall j | 0 <= j < |Escape(x)|
      ensures Plain(Escape(x)[j])
    {
      AtIndex(s, q + 1, Escape(x), j);
    }
    PlainEscape(x);
    AtSlice(s, q + 1, Escape(x));
  }

  /** The writer's text of a string in which the scan met a backslash. */
  lemma EscapedString(s: seq<byte>, q: nat, x: seq<byte>)
    requires NulFree(x) && q < |s| && s[q] == '"' && At(s, q + 1, Escape(x) + ['"'])
    requires ScanString(s, q + 1, false) == Closed(q + 1 + |Escape(x)|, true)
    ensures StringAt(s, q) == Done(x, q + 1 + |Escape(x)| + 1)
  {
    AtSplit(s, q + 1, Escape(x), ['"']);
    UpToNulOfNulFree(x);
    UnescapeEscaped(s, q + 1, x, q + 1 + |Escape(x)|);
    DecodedString(s, q, q + 1 + |Escape(x)|, x);
  }

  /** parse_string over a string with escapes: the decoded bytes up to the first NUL. */
  lemma DecodedString(s: seq<byte>, q: nat, close: nat, x: seq<byte>)
    requires q < |s| && s[q] == '"' && ScanString(s, q + 1, false) == Closed(close, true)
    requires close < |s| && Unescape(s, q + 1, close) == Ok(x)
    ensures StringAt(s, q) == Done(UpToNul(x), close + 1)
  {
  }

  /* ---------------------------------------------------------------- */
  /* How the writer's text begins                                     */
  /* ---------------------------------------------------------------- */

  /**
   * How the writer's text of a value begins: never with whitespace, a
   * closing bracket or brace, or a comma.
   */
  predicate Opens(c: byte) {
    !IsWhitespace(c) && c != ']' && c != '}' && c != ','
  }

  /** A number's text begins with a digit or a minus sign. */
  lemma NumberStart(t: seq<byte>)
    requires IsJsonNumber(t)
    ensures |t| > 0 && (IsDigit(t[0]) || t[0] == '-')
  {
    var a: nat, b: nat, c: nat :| NumberParts(t, a, b, c);
    if a == 0 {
      assert t[a..b][0] == t[0];
    } else {
      assert t[..a][0] == t[0];
    }
  }

  lemma RenderStart(v: Json, indent: nat, pretty: bool, room: nat)
    requires Fits(v, room)
    ensures |Render(v, indent, pretty)| > 0 && Opens(Render(v, indent, pretty)[0])
  {
    if v.Number? {
      NumberStart(v.d.text);
    }
  }

  /**
   * `v` is well formed and its arrays and objects nest at most `room`
   * deep: the depth bound the parser enforces, stated container by container.
   */
  ghost predicate Fits(v: Json, room: nat)
    decreases v, 1
  {
    match v
    case Array(_) => room > 0 && ItemsFit(v, 0, room - 1)
    case Object(_) => room > 0 && MembersFit(v, 0, room - 1)
    case _ => WellFormed(v)
  }

  ghost predicate ItemsFit(v: Json, i: nat, room: nat)
    requires v.Array? && i <= |v.items|
    decreases v, 0, |v.items| - i
  {
    i == |v.items| || (Fits(v.items[i], room) && ItemsFit(v, i + 1, room))
  }

  ghost predicate MembersFit(v: Json, i: nat, room: nat)
    requires v.Object? && i <= |v.members|
    decreases v, 0, |v.members| - i
  {
    i == |v.members| || (NulFree(v.members[i].key) && Fits(v.members[i].value, room) && MembersFit(v, i + 1, room))
  }

  /** A well-formed value of height at most `room` fits in `room`. */
  lemma {:induction false} FitsOf(v: Json, room: nat)
    requires WellFormed(v) && Height(v) <= room
    ensures Fits(v, room)
    decreases v, 1
  {
    match v {
      case Array(_) => ItemsFitOf(v, 0, room - 1);
      case Object(_) => MembersFitOf(v, 0, room - 1);
      case _ =>
    }
  }

  lemma {:induction false} ItemsFitOf(v: Json, i: nat, room: nat)
    requires v.Array? && i <= |v.items| && ItemsWellFormed(v, i) && Height(v) <= room + 1
    ensures ItemsFit(v, i, room)
    decreases v, 0, |v.items| - i
  {
    if i < |v.items| {
      FitsOf(v.items[i], room);
      ItemsFitOf(v, i + 1, room);
    }
  }

  lemma {:induction false} MembersFitOf(v: Json, i: nat, room: nat)
    requires v.Object? && i <= |v.members| && MembersWellFormed(v, i) && Height(v) <= room + 1
    ensures MembersFit(v, i, room)
    decreases v, 0, |v.members| - i
  {
    if i < |v.members| {
      FitsOf(v.members[i].value, room);
      MembersFitOf(v, i + 1, room);
    }
  }

  lemma FitsItem(v: Json, i: nat, room: nat)
    requires v.Array? && Fits(v, room) && i < |v.items|
    ensures room > 0 && Fits(v.items[i], room - 1)
  {
    ItemsFitFrom(v, 0, i, room - 1);
  }

  lemma {:induction false} ItemsFitFrom(v: Json, j: nat, i: nat, room: nat)
    requires v.Array? && j <= i < |v.items| && ItemsFit(v, j, room)
    ensures Fits(v.items[i], room)
    decreases i - j
  {
    if j < i {
      ItemsFitFrom(v, j + 1, i, room);
    }
  }

  lemma FitsMember(v: Json, i: nat, room: nat)
    requires v.Object? && Fits(v, room) && i < |v.members|
    ensures room > 0 && NulFree(v.members[i].key) && Fits(v.members[i].value, room - 1)
  {
    MembersFitFrom(v, 0, i, room - 1);
  }

  lemma {:induction false} MembersFitFrom(v: Json, j: nat, i: nat, room: nat)
    requires v.Object? && j <= i < |v.members| && MembersFit(v, j, room)
    ensures NulFree(v.members[i].key) && Fits(v.members[i].value, room)
    decreases i - j
  {
    if j < i {
      MembersFitFrom(v, j + 1, i, room);
    }
  }

  /* ---------------------------------------------------------------- */
  /* The parser's view of the writer's text                           */
  /* ---------------------------------------------------------------- */

  /** Offset `e` ends the input or holds a byte that would not extend a number. */
  predicate Delimited(s: seq<byte>, e: nat) {
    e <= |s| && (e == |s| || !NumberContinues(s[e]))
  }

  /**
   * The text of `v` lies in `s` from `p` to `e` as the parser sees it: no
   * whitespace at `p`, brackets and braces where the parser looks for them,
   * the elements one after the other with their separators, every key
   * readable by the key step, the scalars as the writer writes them, and
   * containers nested at most `room` deep.
   */
  ghost predicate Shown(s: seq<byte>, p: nat, v: Json, e: nat, room: nat)
    decreases v, 2
  {
    match v
    case Array(_) =>
      p < |s| && SkipWs(s, p) == p && room > 0 && s[p] == '[' &&
      var u := SkipWs(s, p + 1);
      u < |s| &&
      if v.items == [] then s[u] == ']' && e == u + 1
      else s[u] != ']' && ShownItems(s, u, v, 0, e, room - 1)
    case Object(_) =>
      p < |s| && SkipWs(s, p) == p && room > 0 && s[p] == '{' &&
      var u := SkipWs(s, p + 1);
      u < |s| &&
      if v.members == [] then s[u] == '}' && e == u + 1
      else s[u] != '}' && ShownMembers(s, u, v, 0, e, room - 1)
    case _ =>
      p < |s| && SkipWs(s, p) == p &&
      WellFormed(v) && At(s, p, Render(v, 0, false)) && e == p + |Render(v, 0, false)|
  }

  /** The elements of array `v` from the `i`-th on start at `r`; the closing bracket ends at `e`. */
  ghost predicate ShownItems(s: seq<byte>, r: nat, v: Json, i: nat, e: nat, room: nat)
    requires v.Array? && i < |v.items|
    decreases v, 1, |v.items| - i, 2
  {
    exists m: nat :: ShownItem(s, r, v, i, m, e, room)
  }

  /** The `i`-th element lies from `r` to `m`, and what follows it from `m` to `e`. */
  ghost predicate ShownItem(s: seq<byte>, r: nat, v: Json, i: nat, m: nat, e: nat, room: nat)
    requires v.Array? && i < |v.items|
    decreases v, 1, |v.items| - i, 1
  {
    Delimited(s, m) && Shown(s, r, v.items[i], m, room) && AfterShownItem(s, m, v, i, e, room)
  }

  /** After the `i`-th element at `m`: a comma and the next element, or the closing bracket. */
  ghost predicate AfterShownItem(s: seq<byte>, m: nat, v: Json, i: nat, e: nat, room: nat)
    requires v.Array? && i < |v.items| && m <= |s|
    decreases v, 1, |v.items| - i, 0
  {
    var c := SkipWs(s, m);
    c < |s| &&
    if i + 1 < |v.items| then
      s[c] == ',' &&
      var u := SkipWs(s, c + 1);
      u < |s| && s[u] != ']' && ShownItems(s, u, v, i + 1, e, room)
    else s[c] == ']' && e == c + 1
  }

  /** The members of object `v` from the `i`-th on start at `r`; the closing brace ends at `e`. */
  ghost predicate ShownMembers(s: seq<byte>, r: nat, v: Json, i: nat, e: nat, room: nat)
    requires v.Object? && i < |v.members|
    decreases v, 1, |v.members| - i, 2
  {
    exists m: nat :: ShownMember(s, r, v, i, m, e, room)
  }

  /**
   * The `i`-th key, quoted as the writer quotes it, lies at `r` with a
   * colon after it; its value ends at `m`, and what follows ends at `e`.
   */
  ghost predicate ShownMember(s: seq<byte>, r: nat, v: Json, i: nat, m: nat, e: nat, room: nat)
    requires v.Object? && i < |v.members|
    decreases v, 1, |v.members| - i, 1
  {
    var key := v.members[i].key;
    NulFree(key) && At(s, r, Quoted(key)) &&
    var c := r + |Quoted(key)|;
    c < |s| && s[c] == ':' &&
    Delimited(s, m) && Shown(s, c + 1, v.members[i].value, m, room) &&
    AfterShownMember(s, m, v, i, e, room)
  }

  /** After the `i`-th member's value at `m`: a comma and the next member, or the closing brace. */
  ghost predicate AfterShownMember(s: seq<byte>, m: nat, v: Json, i: nat, e: nat, room: nat)
    requires v.Object? && i < |v.members| && m <= |s|
    decreases v, 1, |v.members| - i, 0
  {
    var c := SkipWs(s, m);
    c < |s| &&
    if i + 1 < |v.members| then
      s[c] == ',' &&
      var u := SkipWs(s, c + 1);
      u < |s| && s[u] != '}' && ShownMembers(s, u, v, i + 1, e, room)
    else s[c] == '}' && e == c + 1
  }

  /* ---------------------------------------------------------------- */
  /* The writer's compact text, seen by the parser                    */
  /* ---------------------------------------------------------------- */

  /** The compact text of a value that fits in `room` is shown to the parser as that value. */
  lemma {:induction false} LayElement(s: seq<byte>, p: nat, v: Json, room: nat)
    requires Fits(v, room) && At(s, p, Render(v, 0, false))
    ensures p < |s| && Opens(s[p]) && SkipWs(s, p) == p
    ensures Shown(s, p, v, p + |Render(v, 0, false)|, room)
    decreases v, 2
  {
    RenderStart(v, 0, false, room);
    AtIndex(s, p, Render(v, 0, false), 0);
    match v {
      case Array(_) => LayArray(s, p, v, room);
      case Object(_) => LayObject(s, p, v, room);
      case _ =>
    }
  }

  lemma {:induction false} LayArray(s: seq<byte>, p: nat, v: Json, room: nat)
    requires v.Array? && Fits(v, room) && At(s, p, Render(v, 0, false))
    ensures Shown(s, p, v, p + |Render(v, 0, false)|, room)
    decreases v, 1
  {
    var list := RenderItems(v, 0, 0, false);
    assert Render(v, 0, false) == ['['] + (list + [']']);
    AtSplit(s, p, ['['], list + [']']);
    AtIndex(s, p, ['['], 0);
    if v.items == [] {
      AtIndex(s, p + 1, list + [']'], 0);
    } else {
      LayItems(s, p + 1, v, 0, p + |Render(v, 0, false)|, room);
    }
    ArrayShown(s, p, v, p + |Render(v, 0, false)|, room);
  }

  /** An array is shown by its opening bracket, then its elements or, if it has none, the closing bracket. */
  lemma ArrayShown(s: seq<byte>, p: nat, v: Json, e: nat, room: nat)
    requires v.Array? && p + 1 < |s| && s[p] == '[' && room > 0 && SkipWs(s, p + 1) == p + 1
    requires v.items == [] ==> s[p + 1] == ']' && e == p + 2
    requires v.items != [] ==> s[p + 1] != ']' && ShownItems(s, p + 1, v, 0, e, room - 1)
    ensures Shown(s, p, v, e, room)
  {
  }

  /** The elements of an array in the compact text, from the `i`-th on, up to the bracket ending at `e`. */
  lemma {:induction false} LayItems(s: seq<byte>, p: nat, v: Json, i: nat, e: nat, room: nat)
    requires v.Array? && Fits(v, room) && i < |v.items|
    requires At(s, p, RenderItems(v, i, 0, false) + [']']) && e == p + |RenderItems(v, i, 0, false)| + 1
    ensures p < |s| && SkipWs(s, p) == p && s[p] != ']'
    ensures room > 0 && ShownItems(s, p, v, i, e, room - 1)
    decreases v, 0, |v.items| - i, 1
  {
    var R := Render(v.items[i], 0, false);
    FitsItem(v, i, room);
    ItemAt(s, p, v, i);
    LayAfterItem(s, p + |R|, v, i, e, room);
    LayItemValue(s, p, v, i, p + |R|, e, room - 1);
  }

  /** The compact text of the `i`-th element at `p`, and what follows it. */
  lemma {:induction false} LayItemValue(s: seq<byte>, p: nat, v: Json, i: nat, m: nat, e: nat, room: nat)
    requires v.Array? && i < |v.items| && Fits(v.items[i], room)
    requires At(s, p, Render(v.items[i], 0, false)) && m == p + |Render(v.items[i], 0, false)|
    requires Delimited(s, m) && AfterShownItem(s, m, v, i, e, room)
    ensures p < |s| && SkipWs(s, p) == p && s[p] != ']'
    ensures ShownItem(s, p, v, i, m, e, room)
    decreases v, 0, |v.items| - i, 0
  {
    LayElement(s, p, v.items[i], room);
  }

  /** The `i`-th element's text, then its separator and the rest. */
  lemma ItemAt(s: seq<byte>, p: nat, v: Json, i: nat)
    requires v.Array? && i < |v.items| && At(s, p, RenderItems(v, i, 0, false) + [']'])
    ensures At(s, p, Render(v.items[i], 0, false))
    ensures At(s, p + |Render(v.items[i], 0, false)|,
      Separator(i + 1 == |v.items|, false) + (RenderItems(v, i + 1, 0, false) + [']']))
    ensures |RenderItems(v, i, 0, false)| == |Render(v.items[i], 0, false)|
      + |Separator(i + 1 == |v.items|, false)| + |RenderItems(v, i + 1, 0, false)|
  {
    var R, sep, x := Render(v.items[i], 0, false), Separator(i + 1 == |v.items|, false), RenderItems(v, i + 1, 0, false) + [']'];
    ItemsStep(v, i, 0, false, [']']);
    assert ItemText(v, i, 0, false) == R + sep;
    Assoc(R, sep, x);
    AtSplit(s, p, R, sep + x);
  }

  /** What follows the `i`-th element in the compact text: a comma and the next elements, or the bracket. */
  lemma {:induction false} LayAfterItem(s: seq<byte>, m: nat, v: Json, i: nat, e: nat, room: nat)
    requires v.Array? && Fits(v, room) && i < |v.items|
    requires At(s, m, Separator(i + 1 == |v.items|, false) + (RenderItems(v, i + 1, 0, false) + [']']))
    requires e == m + |Separator(i + 1 == |v.items|, false)| + |RenderItems(v, i + 1, 0, false)| + 1
    ensures Delimited(s, m) && room > 0 && AfterShownItem(s, m, v, i, e, room - 1)
    decreases v, 0, |v.items| - i, 0
  {
    if i + 1 < |v.items| {
      LayNextItem(s, m, v, i, e, room);
    } else {
      LayLastItem(s, m, v, i, e, room);
    }
  }

  lemma {:induction false} LayNextItem(s: seq<byte>, m: nat, v: Json, i: nat, e: nat, room: nat)
    requires v.Array? && Fits(v, room) && i + 1 < |v.items|
    requires At(s, m, Separator(false, false) + (RenderItems(v, i + 1, 0, false) + [']']))
    requires e == m + 1 + |RenderItems(v, i + 1, 0, false)| + 1
    ensures Delimited(s, m) && room > 0 && AfterShownItem(s, m, v, i, e, room - 1)
    decreases v, 0, |v.items| - i, 0, 0
  {
    SplitHead(s, m, ',', RenderItems(v, i + 1, 0, false) + [']']);
    LayItems(s, m + 1, v, i + 1, e, room);
  }

  lemma LayLastItem(s: seq<byte>, m: nat, v: Json, i: nat, e: nat, room: nat)
    requires v.Array? && Fits(v, room) && i + 1 == |v.items|
    requires At(s, m, Separator(true, false) + (RenderItems(v, i + 1, 0, false) + [']']))
    requires e == m + 1
    ensures Delimited(s, m) && room > 0 && AfterShownItem(s, m, v, i, e, room - 1)
  {
    SplitHead(s, m, ']', []);
  }

  /** A byte `c` and the text `x` after it. */
  lemma SplitHead(s: seq<byte>, m: nat, c: byte, x: seq<byte>)
    requires At(s, m, [c] + x)
    ensures m < |s| && s[m] == c && At(s, m + 1, x)
  {
    AtSplit(s, m, [c], x);
    AtIndex(s, m, [c], 0);
  }

  lemma {:induction false} LayObject(s: seq<byte>, p: nat, v: Json, room: nat)
    requires v.Object? && Fits(v, room) && At(s, p, Render(v, 0, false))
    ensures Shown(s, p, v, p + |Render(v, 0, false)|, room)
    decreases v, 1
  {
    var list := RenderMembers(v, 0, 0, false);
    assert Render(v, 0, false) == ['{'] + (list + ['}']);
    AtSplit(s, p, ['{'], list + ['}']);
    AtIndex(s, p, ['{'], 0);
    if v.members == [] {
      AtIndex(s, p + 1, list + ['}'], 0);
    } else {
      LayMembers(s, p + 1, v, 0, p + |Render(v, 0, false)|, room);
    }
    ObjectShown(s, p, v, p + |Render(v, 0, false)|, room);
  }

  /** An object is shown by its opening brace, then its members or, if it has none, the closing brace. */
  lemma ObjectShown(s: seq<byte>, p: nat, v: Json, e: nat, room: nat)
    requires v.Object? && p + 1 < |s| && s[p] == '{' && room > 0 && SkipWs(s, p + 1) == p + 1
    requires v.members == [] ==> s[p + 1] == '}' && e == p + 2
    requires v.members != [] ==> s[p + 1] != '}' && ShownMembers(s, p + 1, v, 0, e, room - 1)
    ensures Shown(s, p, v, e, room)
  {
  }

  /** The members of an object in the compact text, from the `i`-th on, up to the brace ending at `e`. */
  lemma {:induction false} LayMembers(s: seq<byte>, p: nat, v: Json, i: nat, e: nat, room: nat)
    requires v.Object? && Fits(v, room) && i < |v.members|
    requires At(s, p, RenderMembers(v, i, 0, false) + ['}']) && e == p + |RenderMembers(v, i, 0, false)| + 1
    ensures p < |s| && SkipWs(s, p) == p && s[p] != '}'
    ensures room > 0 && ShownMembers(s, p, v, i, e, room - 1)
    decreases v, 0, |v.members| - i, 1
  {
    var u := p + |Quoted(v.members[i].key)| + 1;
    var m := u + |Render(v.members[i].value, 0, false)|;
    FitsMember(v, i, room);
    MemberKeyAt(s, p, v, i);
    MemberAt(s, p, v, i);
    MemberRestAt(s, p, v, i);
    LayAfterMember(s, m, v, i, e, room);
    LayMemberValue(s, p, v, i, m, e, room - 1);
  }

  /** A key and colon at `p`, the compact text of the value after them, and what follows the value. */
  lemma {:induction false} LayMemberValue(s: seq<byte>, p: nat, v: Json, i: nat, m: nat, e: nat, room: nat)
    requires v.Object? && i < |v.members| && NulFree(v.members[i].key) && Fits(v.members[i].value, room)
    requires At(s, p, Quoted(v.members[i].key))
    requires p + |Quoted(v.members[i].key)| < |s| && s[p + |Quoted(v.members[i].key)|] == ':'
    requires At(s, p + |Quoted(v.members[i].key)| + 1, Render(v.members[i].value, 0, false))
    requires m == p + |Quoted(v.members[i].key)| + 1 + |Render(v.members[i].value, 0, false)|
    requires Delimited(s, m) && AfterShownMember(s, m, v, i, e, room)
    ensures ShownMember(s, p, v, i, m, e, room)
    decreases v, 0, |v.members| - i, 0
  {
    LayElement(s, p + |Quoted(v.members[i].key)| + 1, v.members[i].value, room);
  }

  /** The `i`-th member's key, colon and value, then its separator and the rest. */
  lemma MemberAt(s: seq<byte>, p: nat, v: Json, i: nat)
    requires v.Object? && i < |v.members| && At(s, p, RenderMembers(v, i, 0, false) + ['}'])
    ensures At(s, p + |Quoted(v.members[i].key)| + 1, Render(v.members[i].value, 0, false))
    ensures |RenderMembers(v, i, 0, false)| == |Quoted(v.members[i].key)| + 1
      + |Render(v.members[i].value, 0, false)|
      + |Separator(i + 1 == |v.members|, false)| + |RenderMembers(v, i + 1, 0, false)|
  {
    var K, R := Quoted(v.members[i].key), Render(v.members[i].value, 0, false);
    var y := Separator(i + 1 == |v.members|, false) + (RenderMembers(v, i + 1, 0, false) + ['}']);
    MemberPieces(v, i, ['}']);
    SplitAround(s, p, K, ':', R, y);
  }

  /** What follows the `i`-th member's value: its separator, the later members and the brace. */
  lemma MemberRestAt(s: seq<byte>, p: nat, v: Json, i: nat)
    requires v.Object? && i < |v.members| && At(s, p, RenderMembers(v, i, 0, false) + ['}'])
    ensures At(s, p + |Quoted(v.members[i].key)| + 1 + |Render(v.members[i].value, 0, false)|,
      Separator(i + 1 == |v.members|, false) + (RenderMembers(v, i + 1, 0, false) + ['}']))
  {
    var K, R := Quoted(v.members[i].key), Render(v.members[i].value, 0, false);
    var y := Separator(i + 1 == |v.members|, false) + (RenderMembers(v, i + 1, 0, false) + ['}']);
    MemberPieces(v, i, ['}']);
    SplitAround(s, p, K, ':', R, y);
  }

  /** The `i`-th member's quoted key and the colon after it. */
  lemma MemberKeyAt(s: seq<byte>, p: nat, v: Json, i: nat)
    requires v.Object? && i < |v.members| && At(s, p, RenderMembers(v, i, 0, false) + ['}'])
    ensures At(s, p, Quoted(v.members[i].key))
    ensures p < |s| && s[p] == '"' && SkipWs(s, p) == p
    ensures p + |Quoted(v.members[i].key)| < |s| && s[p + |Quoted(v.members[i].key)|] == ':'
  {
    var K, R := Quoted(v.members[i].key), Render(v.members[i].value, 0, false);
    var y := Separator(i + 1 == |v.members|, false) + (RenderMembers(v, i + 1, 0, false) + ['}']);
    MemberPieces(v, i, ['}']);
    SplitAround(s, p, K, ':', R, y);
    KeyOpens(s, p, v.members[i].key);
  }

  /** A quoted key begins with its quote. */
  lemma KeyOpens(s: seq<byte>, p: nat, key: seq<byte>)
    requires At(s, p, Quoted(key))
    ensures p < |s| && s[p] == '"' && SkipWs(s, p) == p
  {
    AtIndex(s, p, Quoted(key), 0);
  }

  /** A text `k`, a byte `c`, a text `r` and the rest `y`, one after the other. */
  lemma SplitAround(s: seq<byte>, p: nat, k: seq<byte>, c: byte, r: seq<byte>, y: seq<byte>)
    requires At(s, p, k + ([c] + (r + y)))
    ensures At(s, p, k) && p + |k| < |s| && s[p + |k|] == c
    ensures At(s, p + |k| + 1, r) && At(s, p + |k| + 1 + |r|, y)
  {
    AtSplit(s, p, k, [c] + (r + y));
    AtSplit(s, p + |k|, [c], r + y);
    AtSplit(s, p + |k| + 1, r, y);
    AtIndex(s, p + |k|, [c], 0);
  }

  /** The compact text of the members from the `i`-th on, cut into the `i`-th member's pieces and the rest. */
  lemma MemberPieces(v: Json, i: nat, tail: seq<byte>)
    requires v.Object? && i < |v.members|
    ensures RenderMembers(v, i, 0, false) + tail
      == Quoted(v.members[i].key) + ([':'] + (Render(v.members[i].value, 0, false)
        + (Separator(i + 1 == |v.members|, false) + (RenderMembers(v, i + 1, 0, false) + tail))))
    ensures |RenderMembers(v, i, 0, false)| == |Quoted(v.members[i].key)| + 1
      + |Render(v.members[i].value, 0, false)|
      + |Separator(i + 1 == |v.members|, false)| + |RenderMembers(v, i + 1, 0, false)|
  {
    var K, R := Quoted(v.members[i].key), Render(v.members[i].value, 0, false);
    var sep, x := Separator(i + 1 == |v.members|, false), RenderMembers(v, i + 1, 0, false) + tail;
    MembersStep(v, i, 0, false, tail);
    assert MemberText(v, i, 0, false) == K + ([':'] + (R + sep));
    Assoc(K, [':'] + (R + sep), x);
    Assoc([':'], R + sep, x);
    Assoc(R, sep, x);
  }

  /** What follows the `i`-th member in the compact text: a comma and the next members, or the brace. */
  lemma {:induction false} LayAfterMember(s: seq<byte>, m: nat, v: Json, i: nat, e: nat, room: nat)
    requires v.Object? && Fits(v, room) && i < |v.members|
    requires At(s, m, Separator(i + 1 == |v.members|, false) + (RenderMembers(v, i + 1, 0, false) + ['}']))
    requires e == m + |Separator(i + 1 == |v.members|, false)| + |RenderMembers(v, i + 1, 0, false)| + 1
    ensures Delimited(s, m) && room > 0 && AfterShownMember(s, m, v, i, e, room - 1)
    decreases v, 0, |v.members| - i, 0
  {
    if i + 1 < |v.members| {
      LayNextMember(s, m, v, i, e, room);
    } else {
      LayLastMember(s, m, v, i, e, room);
    }
  }

  lemma {:induction false} LayNextMember(s: seq<byte>, m: nat, v: Json, i: nat, e: nat, room: nat)
    requires v.Object? && Fits(v, room) && i + 1 < |v.members|
    requires At(s, m, Separator(false, false) + (RenderMembers(v, i + 1, 0, false) + ['}']))
    requires e == m + 1 + |RenderMembers(v, i + 1, 0, false)| + 1
    ensures Delimited(s, m) && room > 0 && AfterShownMember(s, m, v, i, e, room - 1)
    decreases v, 0, |v.members| - i, 0, 0
  {
    SplitHead(s, m, ',', RenderMembers(v, i + 1, 0, false) + ['}']);
    LayMembers(s, m + 1, v, i + 1, e, room);
  }

  lemma LayLastMember(s: seq<byte>, m: nat, v: Json, i: nat, e: nat, room: nat)
    requires v.Object? && Fits(v, room) && i + 1 == |v.members|
    requires At(s, m, Separator(true, false) + (RenderMembers(v, i + 1, 0, false) + ['}']))
    requires e == m + 1
    ensures Delimited(s, m) && room > 0 && AfterShownMember(s, m, v, i, e, room - 1)
  {
    SplitHead(s, m, '}', []);
  }

  /* ---------------------------------------------------------------- */
  /* What the parser reads                                            */
  /* ---------------------------------------------------------------- */

  lemma ElementOpens(s: seq<byte>, p: nat, depth: nat)
    requires p < |s| && SkipWs(s, p) == p
    ensures s[p] == '[' ==> Element(s, p, depth) == ArrayAt(s, p, depth)
    ensures s[p] == '{' ==> Element(s, p, depth) == ObjectAt(s, p, depth)
  {
  }

  lemma KeyThen(s: seq<byte>, r: nat, key: seq<byte>, c: nat)
    requires r < |s| && s[r] == '"' && StringAt(s, r) == Done(key, c)
    requires c < |s| && s[c] == ':'
    ensures KeyAt(s, r) == Done(key, c + 1)
  {
  }

  /** The scalars: a literal, a number read up to the delimiter, a quoted string. */
  lemma ScalarRound(s: seq<byte>, p: nat, v: Json, e: nat, depth: nat, room: nat)
    requires !v.Array? && !v.Object? && Shown(s, p, v, e, room) && Delimited(s, e)
    ensures Element(s, p, depth) == Done(v, e)
  {
    match v {
      case Number(d) => NumberRound(s, p, d, depth);
      case String(x) => StringRoundTrip(s, p, x);
      case _ => LiteralRound(s, p, v, depth);
    }
  }

  lemma LiteralRound(s: seq<byte>, p: nat, v: Json, depth: nat)
    requires v.Null? || v.Bool?
    requires At(s, p, Render(v, 0, false)) && p < |s| && SkipWs(s, p) == p
    ensures Element(s, p, depth) == Done(v, p + |Render(v, 0, false)|)
  {
    var t := Render(v, 0, false);
    AtSlice(s, p, t);
    AtIndex(s, p, t, 0);
    match v {
      case Null =>
        OtherLiteral(s, p, "true");
        OtherLiteral(s, p, "false");
      case Bool(b) =>
        if !b {
          OtherLiteral(s, p, "true");
        }
    }
  }

  /** A literal whose first byte is not the one at `p` is not written at `p`. */
  lemma OtherLiteral(s: seq<byte>, p: nat, lit: string)
    requires p < |s| && |lit| > 0 && s[p] != lit[0]
    ensures !LiteralAt(s, p, lit)
  {
  }

  lemma NumberRound(s: seq<byte>, p: nat, d: Double, depth: nat)
    requires WellFormed(Number(d))
    requires At(s, p, Render(Number(d), 0, false)) && Delimited(s, p + |Render(Number(d), 0, false)|)
    requires p < |s| && SkipWs(s, p) == p
    ensures Element(s, p, depth) == Done(Number(d), p + |Render(Number(d), 0, false)|)
  {
    NumberStart(d.text);
    AtSlice(s, p, d.text);
    NumberEndComplete(s, p, p + |d.text|);
  }

  /**
   * parse_element reads a value shown from `p` to `e` back and stops at
   * `e`, as long as the value's containers, opened at `depth`, stay
   * within the depth limit.
   */
  lemma {:induction false} ReadElement(s: seq<byte>, p: nat, v: Json, e: nat, depth: nat, room: nat)
    requires Shown(s, p, v, e, room) && Delimited(s, e) && depth + room <= MAX_JSON_DEPTH + 1
    ensures Element(s, p, depth) == Done(v, e)
    decreases v, 3
  {
    match v {
      case Array(_) =>
        ReadArray(s, p, v, e, depth, room);
        ElementOpens(s, p, depth);
      case Object(_) =>
        ReadObject(s, p, v, e, depth, room);
        ElementOpens(s, p, depth);
      case _ =>
        ScalarRound(s, p, v, e, depth, room);
    }
  }

  lemma {:induction false} ReadArray(s: seq<byte>, p: nat, v: Json, e: nat, depth: nat, room: nat)
    requires v.Array? && Shown(s, p, v, e, room) && depth + room <= MAX_JSON_DEPTH + 1
    ensures p < |s| && s[p] == '[' && ArrayAt(s, p, depth) == Done(v, e)
    decreases v, 2
  {
    if v.items != [] {
      ReadItems(s, SkipWs(s, p + 1), v, 0, e, depth, room - 1);
      assert v.items[..0] == [];
    }
  }

  /** The element loop of parse_array, from the `i`-th element on. */
  lemma {:induction false} ReadItems(s: seq<byte>, r: nat, v: Json, i: nat, e: nat, depth: nat, room: nat)
    requires v.Array? && i < |v.items| && ShownItems(s, r, v, i, e, room)
    requires depth + 1 + room <= MAX_JSON_DEPTH + 1
    ensures r <= |s| && Items(s, r, depth, v.items[..i]) == Done(v, e)
    decreases v, 1, |v.items| - i, 1
  {
    var m: nat :| ShownItem(s, r, v, i, m, e, room);
    ReadItem(s, r, v, i, m, e, depth, room, v.items[..i]);
    ReadAfterItem(s, m, v, i, e, depth, room);
    assert v.items[..i] + [v.items[i]] == v.items[..i + 1];
  }

  /** One round of parse_array's loop over the `i`-th element, which ends at `m`. */
  lemma {:induction false} ReadItem(s: seq<byte>, r: nat, v: Json, i: nat, m: nat, e: nat, depth: nat, room: nat, acc: seq<Json>)
    requires v.Array? && i < |v.items| && ShownItem(s, r, v, i, m, e, room)
    requires depth + 1 + room <= MAX_JSON_DEPTH + 1
    ensures r < |s| && m <= |s|
    ensures Items(s, r, depth, acc) == AfterItem(s, SkipWs(s, m), depth, acc + [v.items[i]])
    decreases v, 1, |v.items| - i, 0
  {
    ReadElement(s, r, v.items[i], m, depth + 1, room);
  }

  /** What parse_array does after the `i`-th element. */
  lemma {:induction false} ReadAfterItem(s: seq<byte>, m: nat, v: Json, i: nat, e: nat, depth: nat, room: nat)
    requires v.Array? && i < |v.items| && m <= |s| && AfterShownItem(s, m, v, i, e, room)
    requires depth + 1 + room <= MAX_JSON_DEPTH + 1
    ensures AfterItem(s, SkipWs(s, m), depth, v.items[..i + 1]) == Done(v, e)
    decreases v, 1, |v.items| - i, 0
  {
    var c := SkipWs(s, m);
    if i + 1 < |v.items| {
      ReadItems(s, SkipWs(s, c + 1), v, i + 1, e, depth, room);
    } else {
      assert v.items[..i + 1] == v.items;
    }
  }

  lemma {:induction false} ReadObject(s: seq<byte>, p: nat, v: Json, e: nat, depth: nat, room: nat)
    requires v.Object? && Shown(s, p, v, e, room) && depth + room <= MAX_JSON_DEPTH + 1
    ensures p < |s| && s[p] == '{' && ObjectAt(s, p, depth) == Done(v, e)
    decreases v, 2
  {
    if v.members != [] {
      ReadMembers(s, SkipWs(s, p + 1), v, 0, e, depth, room - 1);
      assert v.members[..0] == [];
    }
  }

  /** The member loop of parse_object, from the `i`-th member on. */
  lemma {:induction false} ReadMembers(s: seq<byte>, r: nat, v: Json, i: nat, e: nat, depth: nat, room: nat)
    requires v.Object? && i < |v.members| && ShownMembers(s, r, v, i, e, room)
    requires depth + 1 + room <= MAX_JSON_DEPTH + 1
    ensures r <= |s| && Members(s, r, depth, v.members[..i]) == Done(v, e)
    decreases v, 1, |v.members| - i, 1
  {
    var m: nat :| ShownMember(s, r, v, i, m, e, room);
    ReadMember(s, r, v, i, m, e, depth, room, v.members[..i]);
    ReadAfterMember(s, m, v, i, e, depth, room);
    assert v.members[..i] + [v.members[i]] == v.members[..i + 1];
  }

  /**
   * One round of parse_object's loop over the `i`-th member: its key and
   * colon, then its value, which ends at `m`.
   */
  lemma {:induction false} ReadMember(s: seq<byte>, r: nat, v: Json, i: nat, m: nat, e: nat, depth: nat, room: nat, acc: seq<Member>)
    requires v.Object? && i < |v.members| && ShownMember(s, r, v, i, m, e, room)
    requires depth + 1 + room <= MAX_JSON_DEPTH + 1
    ensures r < |s| && m <= |s|
    ensures Members(s, r, depth, acc) == AfterMember(s, SkipWs(s, m), depth, acc + [v.members[i]])
    decreases v, 1, |v.members| - i, 0
  {
    var key := v.members[i].key;
    var c := r + |Quoted(key)|;
    OpenMember(s, r, v, i, m, e, room);
    StringRoundTrip(s, r, key);
    KeyThen(s, r, key, c);
    ReadElement(s, c + 1, v.members[i].value, m, depth + 1, room);
    MemberStep(s, r, depth, acc, key, c + 1, v.members[i].value, m);
  }

  /** One round of parse_object's loop: a key read at `r`, then an element at `k` that ends at `m`. */
  lemma MemberStep(s: seq<byte>, r: nat, depth: nat, acc: seq<Member>, key: seq<byte>, k: nat, x: Json, m: nat)
    requires r < |s| && KeyAt(s, r) == Done(key, k) && Element(s, k, depth + 1) == Done(x, m)
    ensures Members(s, r, depth, acc) == AfterMember(s, SkipWs(s, m), depth, acc + [Member(key, x)])
  {
  }

  /** The pieces of a shown member. */
  lemma OpenMember(s: seq<byte>, r: nat, v: Json, i: nat, m: nat, e: nat, room: nat)
    requires v.Object? && i < |v.members| && ShownMember(s, r, v, i, m, e, room)
    ensures NulFree(v.members[i].key) && At(s, r, Quoted(v.members[i].key))
    ensures r + |Quoted(v.members[i].key)| < |s| && s[r + |Quoted(v.members[i].key)|] == ':'
    ensures Delimited(s, m) && Shown(s, r + |Quoted(v.members[i].key)| + 1, v.members[i].value, m, room)
  {
  }

  /** What parse_object does after the `i`-th member's value. */
  lemma {:induction false} ReadAfterMember(s: seq<byte>, m: nat, v: Json, i: nat, e: nat, depth: nat, room: nat)
    requires v.Object? && i < |v.members| && m <= |s| && AfterShownMember(s, m, v, i, e, room)
    requires depth + 1 + room <= MAX_JSON_DEPTH + 1
    ensures AfterMember(s, SkipWs(s, m), depth, v.members[..i + 1]) == Done(v, e)
    decreases v, 1, |v.members| - i, 0
  {
    var c := SkipWs(s, m);
    if i + 1 < |v.members| {
      ReadMembers(s, SkipWs(s, c + 1), v, i + 1, e, depth, room);
    } else {
      assert v.members[..i + 1] == v.members;
    }
  }

  /**
   * json_parse reads json_to_string's compact text of a well-formed value
   * back as that value, as long as its containers nest no deeper than the
   * parser allows.
   */
  lemma ParseRender(v: Json)
    requires WellFormed(v) && Height(v) <= MAX_JSON_DEPTH + 1
    ensures Parse(Render(v, 0, false)) == Parsed(v)
  {
    var s := Render(v, 0, false);
    AtWhole(s, 0);
    assert s[0..] == s;
    FitsOf(v, MAX_JSON_DEPTH + 1);
    LayElement(s, 0, v, MAX_JSON_DEPTH + 1);
    ReadElement(s, 0, v, |s|, 0, MAX_JSON_DEPTH + 1);
  }
}
