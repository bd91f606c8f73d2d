/**
 * The JSON value tree of json.h (JsonValue, JsonNode), the two queries
 * json_get and json_at, and the builder (json_create_*, json_add*,
 * json_append*).
 *
 * The source links the children of an array or object in a singly linked
 * list of JsonNode; here they are a sequence in list order. Array nodes
 * carry no key (the source leaves theirs NULL or unset and never reads it),
 * object nodes always carry one, so the two lists get their own types.
 */
module JsonValues {
  import opened Wrappers
  import opened Bytes

  /**
   * A C `double`, kept abstract. A finite number is represented by the
   * decimal text it was read from or is printed as; NonFinite stands for
   * the infinities and NaN.
   */
  datatype Double = Finite(text: seq<byte>) | NonFinite

  datatype Json =
    | Null
    | Bool(b: bool)
    | Number(d: Double)
    | String(s: seq<byte>)
    | Array(items: seq<Json>)
    | Object(members: seq<Member>)

  /** An object node: its key and its value. */
  datatype Member = Member(key: seq<byte>, value: Json)

  /** How many containers are nested at the deepest point of `v` (0 for a scalar). */
  function Height(v: Json): (h: nat)
    ensures (v.Array? || v.Object?) <==> h > 0
    ensures v.Array? ==> forall i :: 0 <= i < |v.items| ==> Height(v.items[i]) < h
    ensures v.Object? ==> forall i :: 0 <= i < |v.members| ==> Height(v.members[i].value) < h
    decreases v, 1
  {
    match v
    case Array(items) => 1 + ItemsHeight(v, 0)
    case Object(members) => 1 + MembersHeight(v, 0)
    case _ => 0
  }

  function ItemsHeight(v: Json, i: nat): (h: nat)
    requires v.Array? && i <= |v.items|
    ensures forall j :: i <= j < |v.items| ==> Height(v.items[j]) <= h
    decreases v, 0, |v.items| - i
  {
    if i == |v.items| then 0
    else
      var here := Height(v.items[i]);
      var rest := ItemsHeight(v, i + 1);
      if here < rest then rest else here
  }

  function MembersHeight(v: Json, i: nat): (h: nat)
    requires v.Object? && i <= |v.members|
    ensures forall j :: i <= j < |v.members| ==> Height(v.members[j].value) <= h
    decreases v, 0, |v.members| - i
  {
    if i == |v.members| then 0
    else
      var here := Height(v.members[i].value);
      var rest := MembersHeight(v, i + 1);
      if here < rest then rest else here
  }

  /** json_get on a non-NULL key: the value of the first member whose key is `key`. */
  function Get(obj: Json, key: seq<byte>): (r: Option<Json>)
  {
    if obj.Object? then FirstMatch(obj.members, UpToNul(key)) else None
  }

  /** The value of the first member of `ms` whose key, read as a C string, is `key`. */
  function FirstMatch(ms: seq<Member>, key: seq<byte>): (r: Option<Json>)
    ensures r.Some? <==> exists i :: 0 <= i < |ms| && UpToNul(ms[i].key) == key
    ensures r.Some? ==> exists i :: 0 <= i < |ms| && UpToNul(ms[i].key) == key && ms[i].value == r.value
                           && forall j :: 0 <= j < i ==> UpToNul(ms[j].key) != key
    decreases |ms|
  {
    if ms == [] then None
    else if UpToNul(ms[0].key) == key then Some(ms[0].value)
    else
      var r := FirstMatch(ms[1..], key);
      assert forall i :: 1 <= i < |ms| ==> ms[i] == ms[1..][i - 1];
      r
  }

  /**
   * json_get, walking the member list. A NULL object or key is None here
   * and gives NULL, as does a value that is not an object or a key that
   * no member has.
   */
  method JsonGet(obj: Option<Json>, key: Option<seq<byte>>) returns (r: Option<Json>)
    ensures obj.None? || key.None? ==> r.None?
    ensures obj.Some? && key.Some? ==> r == Get(obj.value, key.value)
  {
    if obj.None? || key.None? {
      return None;
    }
    var o := obj.value;
    if !o.Object? {
      return None;
    }
    var k := UpToNul(key.value);
    var i := 0;
    while i < |o.members|
      invariant i <= |o.members|
      invariant FirstMatch(o.members, k) == FirstMatch(o.members[i..], k)
    {
      if UpToNul(o.members[i].key) == k {
        return Some(o.members[i].value);
      }
      assert o.members[i..][1..] == o.members[i + 1..];
      i := i + 1;
    }
    return None;
  }

  /**
   * json_at: the index-th element of an array, counting from 0; None for a
   * NULL or non-array value, a negative index or one past the end.
   */
  method JsonAt(arr: Option<Json>, index: int) returns (r: Option<Json>)
    ensures r.Some? <==> arr.Some? && arr.value.Array? && 0 <= index < |arr.value.items|
    ensures r.Some? ==> r.value == arr.value.items[index]
  {
    if arr.None? {
      return None;
    }
    var a := arr.value;
    if !a.Array? {
      return None;
    }
    if index < 0 {
      return None;
    }
    var i := 0;
    while i < |a.items|
      invariant i <= |a.items| && i <= index
    {
      if i == index {
        return Some(a.items[i]);
      }
      i := i + 1;
    }
    return None;
  }

  /** json_create_string: a copy of the text before the first NUL. */
  function CreateString(str: seq<byte>): (v: Json)
    ensures v.String? && NulFree(v.s) && v.s <= str
    ensures NulFree(str) ==> v.s == str
  {
    assert NulFree(str) ==> UpToNul(str) == str by {
      if NulFree(str) {
        UpToNulOfNulFree(str);
      }
    }
    String(UpToNul(str))
  }

  /**
   * json_add: append a member after the last one of an object, copying the
   * key up to its NUL. A NULL key or value, or a target that is not an
   * object, leaves the target as it is.
   */
  function Add(obj: Json, key: Option<seq<byte>>, val: Option<Json>): (r: Json)
    ensures r.Object? <==> obj.Object?
    ensures obj.Object? && key.Some? && val.Some? ==>
      |r.members| == |obj.members| + 1
      && r.members[..|obj.members|] == obj.members
      && r.members[|obj.members|] == Member(UpToNul(key.value), val.value)
    ensures !obj.Object? || key.None? || val.None? ==> r == obj
  {
    if key.None? || val.None? || !obj.Object? then obj
    else Object(obj.members + [Member(UpToNul(key.value), val.value)])
  }

  /**
   * json_append: add an element after the last one of an array. A NULL
   * value, or a target that is not an array, leaves the target as it is.
   */
  function Append(arr: Json, val: Option<Json>): (r: Json)
    ensures r.Array? <==> arr.Array?
    ensures arr.Array? && val.Some? ==>
      |r.items| == |arr.items| + 1
      && r.items[..|arr.items|] == arr.items
      && r.items[|arr.items|] == val.value
    ensures !arr.Array? || val.None? ==> r == arr
  {
    if val.None? || !arr.Array? then arr
    else Array(arr.items + [val.value])
  }

  /** json_add_string: a NULL string adds nothing. */
  function AddString(obj: Json, key: Option<seq<byte>>, val: Option<seq<byte>>): (r: Json)
    ensures val.None? || key.None? || !obj.Object? ==> r == obj
    ensures val.Some? && key.Some? && obj.Object? ==>
      r == Object(obj.members + [Member(UpToNul(key.value), String(UpToNul(val.value)))])
  {
    if val.None? then obj else Add(obj, key, Some(CreateString(val.value)))
  }

  /** json_append_string: a NULL string appends nothing. */
  function AppendString(arr: Json, val: Option<seq<byte>>): (r: Json)
    ensures val.None? || !arr.Array? ==> r == arr
    ensures val.Some? && arr.Array? ==> r == Array(arr.items + [String(UpToNul(val.value))])
  {
    if val.None? then arr else Append(arr, Some(CreateString(val.value)))
  }

  /**
   * Looking a key up after json_add: an earlier member with that key still
   * wins (the first match is returned); otherwise the added member is found
   * when its key is the one looked up.
   */
  lemma GetAfterAdd(obj: Json, key: seq<byte>, val: Json, probe: seq<byte>)
    requires obj.Object?
    ensures Get(Add(obj, Some(key), Some(val)), probe) ==
      if Get(obj, probe).Some? then Get(obj, probe)
      else if UpToNul(key) == UpToNul(probe) then Some(val)
      else None
  {
    FirstMatchAppend(obj.members, Member(UpToNul(key), val), UpToNul(probe));
    UpToNulIdempotent(key);
  }

  lemma {:induction false} FirstMatchAppend(ms: seq<Member>, m: Member, key: seq<byte>)
    ensures FirstMatch(ms + [m], key) ==
      if FirstMatch(ms, key).Some? then FirstMatch(ms, key)
      else if UpToNul(m.key) == key then Some(m.value)
      else None
    decreases |ms|
  {
    if ms != [] {
      assert (ms + [m])[1..] == ms[1..] + [m];
      FirstMatchAppend(ms[1..], m, key);
    }
  }

  lemma UpToNulIdempotent(s: seq<byte>)
    ensures UpToNul(UpToNul(s)) == UpToNul(s)
  {
    UpToNulOfNulFree(UpToNul(s));
  }

  /** After json_append the new element is the last index; earlier indices are unchanged. */
  lemma AtAfterAppend(arr: Json, val: Json, index: int)
    requires arr.Array?
    ensures var r := Append(arr, Some(val));
      && (0 <= index < |arr.items| ==> r.items[index] == arr.items[index])
      && (index == |arr.items| ==> r.items[index] == val)
      && |r.items| == |arr.items| + 1
  {
  }

  /** The text of a number as RFC 8259, section 6, writes it. */
  ghost predicate IsJsonNumber(t: seq<byte>) {
    exists a: nat, b: nat, c: nat :: NumberParts(t, a, b, c)
  }

  /**
   * `t` splits at `a <= b <= c` into an optional minus sign, an integer
   * part without leading zeros, an optional fraction and an optional
   * exponent.
   */
  predicate NumberParts(t: seq<byte>, a: nat, b: nat, c: nat) {
    && a <= b <= c <= |t|
    && (t[..a] == [] || t[..a] == ['-'])
    && IsIntPart(t[a..b]) && IsFracPart(t[b..c]) && IsExpPart(t[c..])
  }

  predicate AllDigits(t: seq<byte>) {
    |t| > 0 && forall i :: 0 <= i < |t| ==> IsDigit(t[i])
  }

  predicate IsIntPart(t: seq<byte>) {
    t == ['0'] || (AllDigits(t) && t[0] != '0')
  }

  predicate IsFracPart(t: seq<byte>) {
    t == [] || (|t| > 1 && t[0] == '.' && AllDigits(t[1..]))
  }

  predicate IsExpPart(t: seq<byte>) {
    || t == []
    || (|t| > 1 && (t[0] == 'e' || t[0] == 'E')
        && (AllDigits(t[1..]) || (|t| > 2 && (t[1] == '+' || t[1] == '-') && AllDigits(t[2..]))))
  }

  /**
   * The values the parser can produce: strings and keys hold no NUL, and
   * every number is finite and keeps the text it was read from.
   */
  ghost predicate WellFormed(v: Json)
    decreases v, 1
  {
    match v
    case String(s) => NulFree(s)
    case Number(d) => d.Finite? && IsJsonNumber(d.text)
    case Array(items) => ItemsWellFormed(v, 0)
    case Object(members) => MembersWellFormed(v, 0)
    case _ => true
  }

  ghost predicate ItemsWellFormed(v: Json, i: nat)
    requires v.Array? && i <= |v.items|
    decreases v, 0, |v.items| - i
  {
    i == |v.items| || (WellFormed(v.items[i]) && ItemsWellFormed(v, i + 1))
  }

  ghost predicate MembersWellFormed(v: Json, i: nat)
    requires v.Object? && i <= |v.members|
    decreases v, 0, |v.members| - i
  {
    i == |v.members| || (NulFree(v.members[i].key) && WellFormed(v.members[i].value) && MembersWellFormed(v, i + 1))
  }
}
