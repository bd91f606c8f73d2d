/**
 * Byte texts inside a larger input: the relation "the input holds this
 * text at this offset", and how it splits and joins.
 */
module ByteText {
  import opened Bytes

  /** A text seen as empty, or as its first byte and the rest. */
  datatype View = Empty | Cons(head: byte, tail: seq<byte>)

  function ViewOf(t: seq<byte>): (w: View)
    ensures w.Cons? ==> |w.tail| < |t|
  {
    if t == [] then Empty else Cons(t[0], t[1..])
  }

  /** The bytes of `s` from offset `p` on begin with `t`, compared one byte at a time. */
  predicate At(s: seq<byte>, p: nat, t: seq<byte>)
    decreases |t|
  {
    match ViewOf(t)
    case Empty => p <= |s|
    case Cons(h, rest) => p < |s| && s[p] == h && At(s, p + 1, rest)
  }

  /** `At` is the slice of `s` from `p` being `t`. */
  lemma {:induction false} AtSlice(s: seq<byte>, p: nat, t: seq<byte>)
    requires At(s, p, t)
    ensures p + |t| <= |s| && s[p..p + |t|] == t
    decreases |t|
  {
    if t != [] {
      assert ViewOf(t) == Cons(t[0], t[1..]);
      AtSlice(s, p + 1, t[1..]);
      assert s[p..p + |t|] == [s[p]] + s[p + 1..p + 1 + |t[1..]|];
      assert t == [t[0]] + t[1..];
    }
  }

  lemma {:induction false} SliceAt(s: seq<byte>, p: nat, t: seq<byte>)
    requires p + |t| <= |s| && s[p..p + |t|] == t
    ensures At(s, p, t)
    decreases |t|
  {
    if t != [] {
      assert s[p] == s[p..p + |t|][0];
      assert s[p + 1..p + 1 + |t[1..]|] == s[p..p + |t|][1..];
      SliceAt(s, p + 1, t[1..]);
      assert ViewOf(t) == Cons(t[0], t[1..]);
    }
  }

  lemma AtSplit(s: seq<byte>, p: nat, a: seq<byte>, b: seq<byte>)
    requires At(s, p, a + b)
    ensures At(s, p, a) && At(s, p + |a|, b)
  {
    AtSlice(s, p, a + b);
    assert s[p..p + |a|] == (a + b)[..|a|];
    assert s[p + |a|..p + |a| + |b|] == (a + b)[|a|..];
    SliceAt(s, p, a);
    SliceAt(s, p + |a|, b);
  }

  lemma AtIndex(s: seq<byte>, p: nat, t: seq<byte>, k: nat)
    requires At(s, p, t) && k < |t|
    ensures p + |t| <= |s| && s[p + k] == t[k]
  {
    AtSlice(s, p, t);
    assert s[p..p + |t|][k] == t[k];
  }

  /** `s` begins with itself. */
  lemma AtWhole(s: seq<byte>, p: nat)
    requires p <= |s|
    ensures At(s, p, s[p..])
  {
    SliceAt(s, p, s[p..]);
  }

  lemma Assoc(a: seq<byte>, b: seq<byte>, c: seq<byte>)
    ensures (a + b) + c == a + (b + c)
  {
  }
}
