/**
 * The layout of the text json_write_internal produces. Empty containers are
 * two brackets. Compact text holds no line feed, carriage return or tab,
 * and does not depend on the indentation it is written at. Pretty text
 * puts each element of a container on a line of its own, two spaces deeper
 * than the container, with `": "` after each key.
 */
module JsonLayout {
  import opened Bytes
  import opened JsonValues
  import opened JsonWriter

  /** No line feed, carriage return or tab in `t`. */
  predicate Unbroken(t: seq<byte>) {
    forall k :: 0 <= k < |t| ==> t[k] != '\n' && t[k] != '\r' && t[k] != '\t'
  }

  lemma UnbrokenConcat(a: seq<byte>, b: seq<byte>)
    requires Unbroken(a) && Unbroken(b)
    ensures Unbroken(a + b)
  {
    forall k | 0 <= k < |a + b|
      ensures (a + b)[k] != '\n' && (a + b)[k] != '\r' && (a + b)[k] != '\t'
    {
      if k < |a| {
        assert (a + b)[k] == a[k];
      } else {
        assert (a + b)[k] == b[k - |a|];
      }
    }
  }

  /* ---------------------------------------------------------------- */
  /* Empty containers                                                 */
  /* ---------------------------------------------------------------- */

  /** An array or object with nothing in it is written as its two brackets, in either mode. */
  lemma EmptyContainers(indent: nat, pretty: bool)
    ensures Render(Array([]), indent, pretty) == ['[', ']']
    ensures Render(Object([]), indent, pretty) == ['{', '}']
  {
  }

  /* ---------------------------------------------------------------- */
  /* Compact mode                                                     */
  /* ---------------------------------------------------------------- */

  /** w_escaped_string writes no line break or tab: those bytes are escaped. */
  lemma {:induction false} EscapeUnbroken(x: seq<byte>)
    ensures Unbroken(Escape(x))
    decreases |x|
  {
    if x != [] {
      var c := x[0];
      var e := EscapeByte(c);
      if EscapeLetter(c).None? && c as int < 0x20 {
        var hi, lo := HexUpper(c as int / 16), HexUpper(c as int % 16);
        assert IsHexDigit(hi) && IsHexDigit(lo);
      }
      assert Unbroken(e);
      EscapeUnbroken(x[1..]);
      UnbrokenConcat(e, Escape(x[1..]));
    }
  }

  /** A quoted string or key holds no line break or tab. */
  lemma QuotedUnbroken(s: seq<byte>)
    ensures Unbroken(Quoted(s))
  {
    EscapeUnbroken(UpToNul(s));
    UnbrokenConcat(['"'], Escape(UpToNul(s)));
    UnbrokenConcat(['"'] + Escape(UpToNul(s)), ['"']);
  }

  /** A byte a JSON number can hold: a digit, a sign, a point or an exponent letter. */
  predicate NumberByte(c: byte) {
    IsDigit(c) || c == '-' || c == '+' || c == '.' || c == 'e' || c == 'E'
  }

  /** Every byte of a number in JSON syntax is a digit, a sign, a point or an exponent letter. */
  lemma NumberBytes(t: seq<byte>)
    requires IsJsonNumber(t)
    ensures forall k :: 0 <= k < |t| ==> NumberByte(t[k])
  {
    var a: nat, b: nat, c: nat :| NumberParts(t, a, b, c);
    forall k | 0 <= k < |t|
      ensures NumberByte(t[k])
    {
      if k < a {
        assert t[k] == t[..a][k];
      } else if k < b {
        assert t[k] == t[a..b][k - a];
      } else if k < c {
        var f := t[b..c];
        assert t[k] == f[k - b];
        if k > b {
          assert f[k - b] == f[1..][k - b - 1];
        }
      } else {
        var x := t[c..];
        assert t[k] == x[k - c];
        if k > c + 1 {
          assert x[k - c] == x[1..][k - c - 1];
          if !AllDigits(x[1..]) {
            assert x[k - c] == x[2..][k - c - 2];
          }
        } else if k == c + 1 && AllDigits(x[1..]) {
          assert x[1] == x[1..][0];
        }
      }
    }
  }

  /**
   * The compact text of a well-formed value holds no line feed, carriage
   * return or tab, and is the same at every indentation.
   */
  lemma {:induction false} CompactLayout(v: Json, indent: nat)
    requires WellFormed(v)
    ensures Unbroken(Render(v, indent, false))
    ensures Render(v, indent, false) == Render(v, 0, false)
    decreases v, 2
  {
    match v
    case Number(d) =>
      NumberBytes(d.text);
    case String(s) =>
      QuotedUnbroken(s);
    case Array(_) =>
      CompactArray(v, indent);
    case Object(_) =>
      CompactObject(v, indent);
    case _ =>
  }

  lemma {:induction false} CompactArray(v: Json, indent: nat)
    requires v.Array? && WellFormed(v)
    ensures Unbroken(Render(v, indent, false))
    ensures Render(v, indent, false) == Render(v, 0, false)
    decreases v, 0
  {
    if v.items != [] {
      var body := RenderItems(v, 0, indent, false);
      assert ItemsWellFormed(v, 0);
      CompactItems(v, 0, indent);
      assert Inside(v, indent, false) == body && Inside(v, 0, false) == body;
      UnbrokenConcat(['['], body);
      UnbrokenConcat(['['] + body, [']']);
      assert ['['] + (body + [']']) == ['['] + body + [']'];
    }
  }

  lemma {:induction false} CompactObject(v: Json, indent: nat)
    requires v.Object? && WellFormed(v)
    ensures Unbroken(Render(v, indent, false))
    ensures Render(v, indent, false) == Render(v, 0, false)
    decreases v, 0
  {
    if v.members != [] {
      var body := RenderMembers(v, 0, indent, false);
      assert MembersWellFormed(v, 0);
      CompactMembers(v, 0, indent);
      assert Inside(v, indent, false) == body && Inside(v, 0, false) == body;
      UnbrokenConcat(['{'], body);
      UnbrokenConcat(['{'] + body, ['}']);
      assert ['{'] + (body + ['}']) == ['{'] + body + ['}'];
    }
  }

  lemma {:induction false} CompactItems(v: Json, i: nat, indent: nat)
    requires v.Array? && i <= |v.items| && ItemsWellFormed(v, i)
    ensures Unbroken(RenderItems(v, i, indent, false))
    ensures RenderItems(v, i, indent, false) == RenderItems(v, i, 0, false)
    decreases v, 0, 0, |v.items| - i
  {
    if i < |v.items| {
      CompactLayout(v.items[i], indent);
      CompactLayout(v.items[i], 0);
      CompactItems(v, i + 1, indent);
      var r := Render(v.items[i], indent, false);
      var sep := Separator(i + 1 == |v.items|, false);
      assert ItemText(v, i, indent, false) == r + sep;
      assert ItemText(v, i, 0, false) == r + sep;
      UnbrokenConcat(r, sep);
      UnbrokenConcat(r + sep, RenderItems(v, i + 1, indent, false));
    }
  }

  lemma {:induction false} CompactMembers(v: Json, i: nat, indent: nat)
    requires v.Object? && i <= |v.members| && MembersWellFormed(v, i)
    ensures Unbroken(RenderMembers(v, i, indent, false))
    ensures RenderMembers(v, i, indent, false) == RenderMembers(v, i, 0, false)
    decreases v, 0, 0, |v.members| - i
  {
    if i < |v.members| {
      CompactLayout(v.members[i].value, indent);
      CompactLayout(v.members[i].value, 0);
      CompactMembers(v, i + 1, indent);
      var k := Quoted(v.members[i].key);
      var r := Render(v.members[i].value, indent, false);
      var sep := Separator(i + 1 == |v.members|, false);
      assert MemberText(v, i, indent, false) == k + ([':'] + (r + sep));
      assert MemberText(v, i, 0, false) == k + ([':'] + (r + sep));
      QuotedUnbroken(v.members[i].key);
      UnbrokenConcat(r, sep);
      UnbrokenConcat([':'], r + sep);
      UnbrokenConcat(k, [':'] + (r + sep));
      UnbrokenConcat(k + ([':'] + (r + sep)), RenderMembers(v, i + 1, indent, false));
    }
  }

  /* ---------------------------------------------------------------- */
  /* Pretty mode                                                      */
  /* ---------------------------------------------------------------- */

  /**
   * The elements of a pretty-printed array from the `i`-th on, one per
   * line: a line feed, the indentation two spaces deeper than the array,
   * the element written at that indentation, and a comma unless it is the
   * last.
   */
  function PrettyItems(v: Json, i: nat, indent: nat): (t: seq<byte>)
    requires v.Array? && i <= |v.items|
    decreases |v.items| - i
  {
    if i == |v.items| then []
    else
      ['\n'] + Spaces(indent + 2) + Render(v.items[i], indent + 2, true)
        + (if i + 1 == |v.items| then [] else [',']) + PrettyItems(v, i + 1, indent)
  }

  /**
   * The members of a pretty-printed object from the `i`-th on, one per
   * line: a line feed, the deeper indentation, the quoted key, `": "`, the
   * value, and a comma unless it is the last.
   */
  function PrettyMembers(v: Json, i: nat, indent: nat): (t: seq<byte>)
    requires v.Object? && i <= |v.members|
    decreases |v.members| - i
  {
    if i == |v.members| then []
    else
      ['\n'] + Spaces(indent + 2) + Quoted(v.members[i].key) + [':', ' ']
        + Render(v.members[i].value, indent + 2, true)
        + (if i + 1 == |v.members| then [] else [',']) + PrettyMembers(v, i + 1, indent)
  }

  /** Moving the line feed after a comma to the front of the next line. */
  lemma ItemRegroup(lead: seq<byte>, val: seq<byte>, rest: seq<byte>)
    ensures ['\n'] + ((lead + (val + ([','] + ['\n']))) + rest) == ['\n'] + lead + val + [','] + (['\n'] + rest)
  {
  }

  /** The same for a member, whose line holds a key and a colon before the value. */
  lemma MemberRegroup(lead: seq<byte>, key: seq<byte>, val: seq<byte>, rest: seq<byte>)
    ensures ['\n'] + ((lead + (key + ([':', ' '] + (val + ([','] + ['\n']))))) + rest)
      == ['\n'] + lead + key + [':', ' '] + val + [','] + (['\n'] + rest)
  {
  }

  lemma {:induction false} PrettyItemsLayout(v: Json, i: nat, indent: nat)
    requires v.Array? && i < |v.items|
    ensures ['\n'] + RenderItems(v, i, indent, true) == PrettyItems(v, i, indent)
    decreases |v.items| - i
  {
    var lead, val := Spaces(indent + 2), Render(v.items[i], indent + 2, true);
    var rest := RenderItems(v, i + 1, indent, true);
    if i + 1 == |v.items| {
      assert RenderItems(v, i, indent, true) == (lead + (val + [])) + [];
      assert PrettyItems(v, i, indent) == ['\n'] + lead + val + [] + [];
    } else {
      PrettyItemsLayout(v, i + 1, indent);
      assert RenderItems(v, i, indent, true) == (lead + (val + ([','] + ['\n']))) + rest;
      ItemRegroup(lead, val, rest);
    }
  }

  lemma {:induction false} PrettyMembersLayout(v: Json, i: nat, indent: nat)
    requires v.Object? && i < |v.members|
    ensures ['\n'] + RenderMembers(v, i, indent, true) == PrettyMembers(v, i, indent)
    decreases |v.members| - i
  {
    var lead, key := Spaces(indent + 2), Quoted(v.members[i].key);
    var val := Render(v.members[i].value, indent + 2, true);
    var rest := RenderMembers(v, i + 1, indent, true);
    if i + 1 == |v.members| {
      assert RenderMembers(v, i, indent, true) == (lead + (key + ([':', ' '] + (val + [])))) + [];
      assert PrettyMembers(v, i, indent) == ['\n'] + lead + key + [':', ' '] + val + [] + [];
    } else {
      PrettyMembersLayout(v, i + 1, indent);
      assert RenderMembers(v, i, indent, true) == (lead + (key + ([':', ' '] + (val + ([','] + ['\n']))))) + rest;
      MemberRegroup(lead, key, val, rest);
    }
  }

  /**
   * A non-empty array in pretty mode: `[`, its elements one per line two
   * spaces deeper, then a line feed and the array's own indentation
   * before `]`.
   */
  lemma PrettyArray(v: Json, indent: nat)
    requires v.Array? && v.items != []
    ensures Render(v, indent, true) == ['['] + PrettyItems(v, 0, indent) + ['\n'] + Spaces(indent) + [']']
  {
    PrettyItemsLayout(v, 0, indent);
  }

  /**
   * A non-empty object in pretty mode: `{`, its members one per line two
   * spaces deeper with `": "` after each key, then a line feed and the
   * object's own indentation before `}`.
   */
  lemma PrettyObject(v: Json, indent: nat)
    requires v.Object? && v.members != []
    ensures Render(v, indent, true) == ['{'] + PrettyMembers(v, 0, indent) + ['\n'] + Spaces(indent) + ['}']
  {
    PrettyMembersLayout(v, 0, indent);
  }
}
