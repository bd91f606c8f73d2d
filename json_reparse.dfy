/**
 * What json_parse hands back is something json_to_string and json_parse
 * agree on: every parsed tree is well formed and nests no deeper than the
 * parser allows, so its compact text parses back to the same tree. The
 * builder keeps trees well formed as long as what it is given is.
 */
module JsonReparse {
  import opened Wrappers
  import opened Bytes
  import opened JsonValues
  import opened JsonGrammar
  import opened JsonWriter
  import opened JsonRoundTrip

  /**
   * A value read by parse_element at `depth`: well formed, and a container
   * nests no deeper than the limit allows from there. A scalar can be read
   * at any depth.
   */
  ghost predicate Readable(v: Json, depth: nat) {
    WellFormed(v) && (Height(v) == 0 || depth + Height(v) <= MAX_JSON_DEPTH + 1)
  }

  ghost predicate ItemsReadable(items: seq<Json>, depth: nat) {
    forall i :: 0 <= i < |items| ==> Readable(items[i], depth)
  }

  ghost predicate MembersReadable(members: seq<Member>, depth: nat) {
    forall i :: 0 <= i < |members| ==> NulFree(members[i].key) && Readable(members[i].value, depth)
  }

  /* ---------------------------------------------------------------- */
  /* Containers built from readable parts                             */
  /* ---------------------------------------------------------------- */

  lemma {:induction false} ItemsWellFormedFrom(v: Json, i: nat)
    requires v.Array? && i <= |v.items|
    requires forall j :: i <= j < |v.items| ==> WellFormed(v.items[j])
    ensures ItemsWellFormed(v, i)
    decreases |v.items| - i
  {
    if i < |v.items| {
      ItemsWellFormedFrom(v, i + 1);
    }
  }

  lemma {:induction false} ItemsHeightAtMost(v: Json, i: nat, bound: nat)
    requires v.Array? && i <= |v.items|
    requires forall j :: i <= j < |v.items| ==> Height(v.items[j]) <= bound
    ensures ItemsHeight(v, i) <= bound
    decreases |v.items| - i
  {
    if i < |v.items| {
      ItemsHeightAtMost(v, i + 1, bound);
    }
  }

  lemma {:induction false} MembersWellFormedFrom(v: Json, i: nat)
    requires v.Object? && i <= |v.members|
    requires forall j :: i <= j < |v.members| ==> NulFree(v.members[j].key) && WellFormed(v.members[j].value)
    ensures MembersWellFormed(v, i)
    decreases |v.members| - i
  {
    if i < |v.members| {
      MembersWellFormedFrom(v, i + 1);
    }
  }

  lemma {:induction false} MembersHeightAtMost(v: Json, i: nat, bound: nat)
    requires v.Object? && i <= |v.members|
    requires forall j :: i <= j < |v.members| ==> Height(v.members[j].value) <= bound
    ensures MembersHeight(v, i) <= bound
    decreases |v.members| - i
  {
    if i < |v.members| {
      MembersHeightAtMost(v, i + 1, bound);
    }
  }

  /** An array entered within the limit, whose elements were read one level down, is readable. */
  lemma ArrayReadable(items: seq<Json>, depth: nat)
    requires depth <= MAX_JSON_DEPTH && ItemsReadable(items, depth + 1)
    ensures Readable(Array(items), depth)
  {
    var v := Array(items);
    ItemsWellFormedFrom(v, 0);
    ItemsHeightAtMost(v, 0, MAX_JSON_DEPTH - depth);
  }

  /** An object entered within the limit, whose members were read one level down, is readable. */
  lemma ObjectReadable(members: seq<Member>, depth: nat)
    requires depth <= MAX_JSON_DEPTH && MembersReadable(members, depth + 1)
    ensures Readable(Object(members), depth)
  {
    var v := Object(members);
    MembersWellFormedFrom(v, 0);
    MembersHeightAtMost(v, 0, MAX_JSON_DEPTH - depth);
  }

  lemma ItemsReadableAppend(items: seq<Json>, x: Json, depth: nat)
    requires ItemsReadable(items, depth) && Readable(x, depth)
    ensures ItemsReadable(items + [x], depth)
  {
    assert forall i :: 0 <= i < |items| ==> (items + [x])[i] == items[i];
  }

  lemma MembersReadableAppend(members: seq<Member>, m: Member, depth: nat)
    requires MembersReadable(members, depth) && NulFree(m.key) && Readable(m.value, depth)
    ensures MembersReadable(members + [m], depth)
  {
    assert forall i :: 0 <= i < |members| ==> (members + [m])[i] == members[i];
  }

  /* ---------------------------------------------------------------- */
  /* Whatever the parser reads is readable                            */
  /* ---------------------------------------------------------------- */

  /** A number parse_number reads keeps text that is a JSON number. */
  lemma NumberReadable(s: seq<byte>, q: nat, depth: nat)
    requires q <= |s|
    ensures NumberAt(s, q).Done? ==> Readable(NumberAt(s, q).value, depth)
  {
    if NumberEnd(s, q).Some? {
      NumberEndSound(s, q);
    }
  }

  /** parse_element reads a readable value. */
  lemma {:induction false} ElementReadable(s: seq<byte>, p: nat, depth: nat)
    requires p <= |s|
    ensures Element(s, p, depth).Done? ==> Readable(Element(s, p, depth).value, depth)
    decreases |s| - p, 2
  {
    var q := SkipWs(s, p);
    if q < |s| {
      if s[q] == '[' {
        ArrayAtReadable(s, q, depth);
      } else if s[q] == '{' {
        ObjectAtReadable(s, q, depth);
      } else if s[q] != '"' && (IsDigit(s[q]) || s[q] == '-') {
        NumberReadable(s, q, depth);
      }
    }
  }

  lemma {:induction false} ArrayAtReadable(s: seq<byte>, q: nat, depth: nat)
    requires q < |s| && s[q] == '['
    ensures ArrayAt(s, q, depth).Done? ==> Readable(ArrayAt(s, q, depth).value, depth)
    decreases |s| - q, 1
  {
    if depth <= MAX_JSON_DEPTH {
      var r := SkipWs(s, q + 1);
      if r < |s| && s[r] == ']' {
        ArrayReadable([], depth);
      } else {
        ItemsReadableFrom(s, r, depth, []);
      }
    }
  }

  lemma {:induction false} ItemsReadableFrom(s: seq<byte>, r: nat, depth: nat, acc: seq<Json>)
    requires r <= |s| && depth <= MAX_JSON_DEPTH && ItemsReadable(acc, depth + 1)
    ensures Items(s, r, depth, acc).Done? ==> Readable(Items(s, r, depth, acc).value, depth)
    decreases |s| - r, 3
  {
    if r < |s| {
      var elem := Element(s, r, depth + 1);
      if elem.Done? {
        ElementReadable(s, r, depth + 1);
        ItemsReadableAppend(acc, elem.value, depth + 1);
        AfterItemReadable(s, SkipWs(s, elem.next), depth, acc + [elem.value]);
      }
    }
  }

  lemma {:induction false} AfterItemReadable(s: seq<byte>, t: nat, depth: nat, items: seq<Json>)
    requires t <= |s| && depth <= MAX_JSON_DEPTH && ItemsReadable(items, depth + 1)
    ensures AfterItem(s, t, depth, items).Done? ==> Readable(AfterItem(s, t, depth, items).value, depth)
    decreases |s| - t, 4
  {
    if t < |s| {
      if s[t] == ']' {
        ArrayReadable(items, depth);
      } else if s[t] == ',' {
        var u := SkipWs(s, t + 1);
        if !(u < |s| && s[u] == ']') {
          ItemsReadableFrom(s, u, depth, items);
        }
      }
    }
  }

  lemma {:induction false} ObjectAtReadable(s: seq<byte>, q: nat, depth: nat)
    requires q < |s| && s[q] == '{'
    ensures ObjectAt(s, q, depth).Done? ==> Readable(ObjectAt(s, q, depth).value, depth)
    decreases |s| - q, 1
  {
    if depth <= MAX_JSON_DEPTH {
      var r := SkipWs(s, q + 1);
      if r < |s| && s[r] == '}' {
        ObjectReadable([], depth);
      } else {
        MembersReadableFrom(s, r, depth, []);
      }
    }
  }

  lemma {:induction false} MembersReadableFrom(s: seq<byte>, r: nat, depth: nat, acc: seq<Member>)
    requires r <= |s| && depth <= MAX_JSON_DEPTH && MembersReadable(acc, depth + 1)
    ensures Members(s, r, depth, acc).Done? ==> Readable(Members(s, r, depth, acc).value, depth)
    decreases |s| - r, 3
  {
    if r < |s| {
      var key := KeyAt(s, r);
      if key.Done? {
        var elem := Element(s, key.next, depth + 1);
        if elem.Done? {
          ElementReadable(s, key.next, depth + 1);
          MembersReadableAppend(acc, Member(key.value, elem.value), depth + 1);
          AfterMemberReadable(s, SkipWs(s, elem.next), depth, acc + [Member(key.value, elem.value)]);
        }
      }
    }
  }

  lemma {:induction false} AfterMemberReadable(s: seq<byte>, w: nat, depth: nat, members: seq<Member>)
    requires w <= |s| && depth <= MAX_JSON_DEPTH && MembersReadable(members, depth + 1)
    ensures AfterMember(s, w, depth, members).Done? ==> Readable(AfterMember(s, w, depth, members).value, depth)
    decreases |s| - w, 4
  {
    if w < |s| {
      if s[w] == '}' {
        ObjectReadable(members, depth);
      } else if s[w] == ',' {
        var u := SkipWs(s, w + 1);
        if !(u < |s| && s[u] == '}') {
          MembersReadableFrom(s, u, depth, members);
        }
      }
    }
  }

  /**
   * A tree json_parse returns is well formed, and its containers nest at
   * most MAX_JSON_DEPTH + 1 deep.
   */
  lemma ParsedWellFormed(s: seq<byte>)
    requires Parse(s).Parsed?
    ensures WellFormed(Parse(s).root) && Height(Parse(s).root) <= MAX_JSON_DEPTH + 1
  {
    ElementReadable(s, 0, 0);
  }

  /**
   * json_to_string in compact mode, then json_parse, gives back every tree
   * json_parse can return.
   */
  lemma Reparse(s: seq<byte>)
    requires Parse(s).Parsed?
    ensures Parse(Render(Parse(s).root, 0, false)) == Parse(s)
  {
    ParsedWellFormed(s);
    ParseRender(Parse(s).root);
  }

  /* ---------------------------------------------------------------- */
  /* The builder keeps trees well formed                              */
  /* ---------------------------------------------------------------- */

  lemma ItemsWellFormedAll(v: Json)
    requires v.Array? && WellFormed(v)
    ensures forall j :: 0 <= j < |v.items| ==> WellFormed(v.items[j])
  {
    forall j | 0 <= j < |v.items| ensures WellFormed(v.items[j]) {
      ItemsWellFormedAt(v, 0, j);
    }
  }

  lemma {:induction false} ItemsWellFormedAt(v: Json, i: nat, j: nat)
    requires v.Array? && i <= j < |v.items| && ItemsWellFormed(v, i)
    ensures WellFormed(v.items[j])
    decreases j - i
  {
    if i < j {
      ItemsWellFormedAt(v, i + 1, j);
    }
  }

  lemma MembersWellFormedAll(v: Json)
    requires v.Object? && WellFormed(v)
    ensures forall j :: 0 <= j < |v.members| ==> NulFree(v.members[j].key) && WellFormed(v.members[j].value)
  {
    forall j | 0 <= j < |v.members| ensures NulFree(v.members[j].key) && WellFormed(v.members[j].value) {
      MembersWellFormedAt(v, 0, j);
    }
  }

  lemma {:induction false} MembersWellFormedAt(v: Json, i: nat, j: nat)
    requires v.Object? && i <= j < |v.members| && MembersWellFormed(v, i)
    ensures NulFree(v.members[j].key) && WellFormed(v.members[j].value)
    decreases j - i
  {
    if i < j {
      MembersWellFormedAt(v, i + 1, j);
    }
  }

  /** json_add of a well-formed value to a well-formed object gives a well-formed object. */
  lemma AddWellFormed(obj: Json, key: Option<seq<byte>>, val: Option<Json>)
    requires WellFormed(obj) && (val.Some? ==> WellFormed(val.value))
    ensures WellFormed(Add(obj, key, val))
  {
    var r := Add(obj, key, val);
    if r != obj {
      MembersWellFormedAll(obj);
      assert forall j :: 0 <= j < |obj.members| ==> r.members[j] == obj.members[j];
      MembersWellFormedFrom(r, 0);
    }
  }

  /** json_append of a well-formed value to a well-formed array gives a well-formed array. */
  lemma AppendWellFormed(arr: Json, val: Option<Json>)
    requires WellFormed(arr) && (val.Some? ==> WellFormed(val.value))
    ensures WellFormed(Append(arr, val))
  {
    var r := Append(arr, val);
    if r != arr {
      ItemsWellFormedAll(arr);
      assert forall j :: 0 <= j < |arr.items| ==> r.items[j] == arr.items[j];
      ItemsWellFormedFrom(r, 0);
    }
  }

  /** json_create_string always gives a well-formed string. */
  lemma CreateStringWellFormed(str: seq<byte>)
    ensures WellFormed(CreateString(str))
  {
  }
}
