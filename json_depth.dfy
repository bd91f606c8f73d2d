/**
 * The nesting limit of json.c, on the simplest input that reaches it: `n`
 * opening brackets followed by `n` closing ones. The root is parsed at
 * depth 0 and a container is refused only when it is entered at a depth
 * above MAX_JSON_DEPTH, so 1001 nested arrays are read and 1002 are not.
 */
module JsonDepth {
  import opened Bytes
  import opened JsonValues
  import opened JsonGrammar
  import opened JsonWriter
  import opened JsonRoundTrip

  /** `n` arrays, each the only element of the one around it; the innermost is empty. */
  function Nested(n: nat): (v: Json)
    requires n >= 1
    ensures v.Array?
    decreases n
  {
    if n == 1 then Array([]) else Array([Nested(n - 1)])
  }

  /** `n` opening brackets, then `n` closing brackets. */
  function Brackets(n: nat): (t: seq<byte>)
    ensures |t| == 2 * n
    decreases n
  {
    if n == 0 then [] else ['['] + (Brackets(n - 1) + [']'])
  }

  /** The first half of the bracket text opens and the second half closes. */
  lemma {:induction false} BracketsAt(n: nat, k: nat)
    requires k < 2 * n
    ensures Brackets(n)[k] == if k < n then '[' else ']'
    decreases n
  {
    var t := Brackets(n - 1);
    if 0 < k < 2 * n - 1 {
      assert Brackets(n)[k] == t[k - 1];
      BracketsAt(n - 1, k - 1);
    }
  }

  /** The compact text of `n` nested arrays is the bracket text. */
  lemma {:induction false} NestedText(n: nat)
    requires n >= 1
    ensures Render(Nested(n), 0, false) == Brackets(n)
    decreases n
  {
    var v := Nested(n);
    if n == 1 {
      assert Brackets(0) == [];
    } else {
      NestedText(n - 1);
      assert RenderItems(v, 1, 0, false) == [];
      assert RenderItems(v, 0, 0, false) == Render(Nested(n - 1), 0, false);
    }
  }

  /** `n` nested arrays are well formed and `n` deep. */
  lemma {:induction false} NestedShape(n: nat)
    requires n >= 1
    ensures WellFormed(Nested(n)) && Height(Nested(n)) == n
    decreases n
  {
    var v := Nested(n);
    if n > 1 {
      NestedShape(n - 1);
      assert ItemsWellFormed(v, 1);
      assert ItemsHeight(v, 1) == 0;
      assert ItemsHeight(v, 0) == n - 1;
    }
  }

  /**
   * From the `k`-th opening bracket, entered at depth `k`, the parser goes
   * down one level per bracket until the container entered at depth 1001,
   * which it refuses there.
   */
  lemma {:induction false} DescentFails(n: nat, k: nat)
    requires MAX_JSON_DEPTH + 1 < n && k <= MAX_JSON_DEPTH + 1
    ensures Element(Brackets(n), k, k) == Fail(DepthExceeded, MAX_JSON_DEPTH + 1)
    decreases MAX_JSON_DEPTH + 1 - k
  {
    var s := Brackets(n);
    BracketsAt(n, k);
    assert SkipWs(s, k) == k;
    if k <= MAX_JSON_DEPTH {
      BracketsAt(n, k + 1);
      assert SkipWs(s, k + 1) == k + 1;
      DescentFails(n, k + 1);
      assert Items(s, k + 1, k, []) == Fail(DepthExceeded, MAX_JSON_DEPTH + 1);
    }
  }

  /**
   * json_parse on `n` nested arrays: read back for up to 1001 of them,
   * refused with DepthExceeded at offset 1001 (the opening bracket of the
   * 1002nd) beyond that.
   */
  lemma NestingLimit(n: nat)
    requires n >= 1
    ensures n <= MAX_JSON_DEPTH + 1 ==> Parse(Brackets(n)) == Parsed(Nested(n))
    ensures n > MAX_JSON_DEPTH + 1 ==>
      Parse(Brackets(n)) == Failed(ErrorAt(Brackets(n), DepthExceeded, MAX_JSON_DEPTH + 1))
  {
    if n <= MAX_JSON_DEPTH + 1 {
      NestedShape(n);
      NestedText(n);
      ParseRender(Nested(n));
    } else {
      DescentFails(n, 0);
    }
  }
}
