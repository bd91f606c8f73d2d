/**
 * The region allocator of arena.h.
 *
 * An arena is a singly linked chain of regions. `begin` is the head of the
 * chain and `end` the region allocations currently bump into. Here the
 * chain is a sequence (its first element is `begin`) and `end` is an index
 * into it. A region's `data` address is kept abstract as `base`: only its
 * remainder modulo the alignment matters, and only through the padding.
 *
 * The pure functions below (Allocate, Rewound, Capture, Restored) give each
 * operation's effect on an ArenaView. The class Arena performs the same
 * operations in place, and each method is proved to agree with its function.
 */
module Arenas {
  import opened Wrappers

  /** ARENA_ALIGNMENT: twice the width of a pointer on a 64-bit target. */
  const ALIGNMENT: nat := 16

  /** ARENA_DEFAULT_BLOCK_SIZE. */
  const DEFAULT_BLOCK_SIZE: nat := 8 * 1024

  predicate IsPowerOfTwo(a: nat)
    decreases a
  {
    a == 1 || (a >= 2 && a % 2 == 0 && IsPowerOfTwo(a / 2))
  }

  predicate IsMultiple(m: nat, a: nat)
    requires a > 0
  {
    m % a == 0
  }

  /**
   * arena__align_forward. The source computes `p & (a - 1)`, which is
   * `p % a` when `a` is a power of two; the model writes the remainder.
   * The result is the least multiple of `a` that is at least `p`.
   */
  function AlignForward(p: nat, a: nat): (r: nat)
    requires IsPowerOfTwo(a)
    ensures IsMultiple(r, a) && p <= r < p + a
    ensures forall m: nat :: IsMultiple(m, a) && p <= m ==> r <= m
  {
    var modulo := p % a;
    var r := if modulo != 0 then p + (a - modulo) else p;
    AlignForwardIsLeast(p, a, r);
    r
  }

  lemma MulNonnegative(x: int, y: int)
    requires x >= 0 && y >= 0
    ensures x * y >= 0
  {
  }

  lemma DivModUnique(m: int, a: int, q: int, rem: int)
    requires a > 0 && 0 <= rem < a && m == q * a + rem
    ensures m / a == q && m % a == rem
  {
    var q', rem' := m / a, m % a;
    assert m == q' * a + rem';
    if q > q' {
      MulNonnegative(q - q' - 1, a);
    } else if q < q' {
      MulNonnegative(q' - q - 1, a);
    }
  }

  lemma AlignForwardIsLeast(p: nat, a: nat, r: nat)
    requires a > 0
    requires r == if p % a != 0 then p + (a - p % a) else p
    ensures IsMultiple(r, a) && p <= r < p + a
    ensures forall m: nat :: IsMultiple(m, a) && p <= m ==> r <= m
  {
    var q, modulo := p / a, p % a;
    assert p == q * a + modulo;
    if modulo != 0 {
      assert r == (q + 1) * a + 0;
      DivModUnique(r, a, q + 1, 0);
    }
    forall m: nat | IsMultiple(m, a) && p <= m
      ensures r <= m
    {
      var k := m / a;
      assert m == k * a + 0;
      if m < r {
        if k >= q + 1 {
          MulNonnegative(k - q - 1, a);
        } else {
          MulNonnegative(q - k, a);
        }
      }
    }
  }

  /** One region: its abstract data address, its capacity and its used count. */
  datatype Region = Region(base: nat, capacity: nat, count: nat)

  /** A pointer into a region: the address `base + offset`. */
  datatype Ptr = Ptr(base: nat, offset: nat)

  /** The chain (its head is `begin`) and the index of `end` (None is NULL). */
  datatype ArenaView = ArenaView(chain: seq<Region>, end: Option<nat>)

  /**
   * What arena_temp_begin captures: `old_end`, a pointer to a region, here
   * that region's data address (None is NULL), and `old_count`.
   */
  datatype Checkpoint = Checkpoint(oldEnd: Option<nat>, oldCount: nat)

  /** The state after arena_alloc and the pointer it returns. */
  datatype Allocation = Allocation(after: ArenaView, ptr: Option<Ptr>)

  /** The arena's invariant: `end` is in the chain and no region is over-full. */
  predicate Consistent(v: ArenaView) {
    && (v.end.Some? ==> v.end.value < |v.chain|)
    && forall i :: 0 <= i < |v.chain| ==> v.chain[i].count <= v.chain[i].capacity
  }

  predicate SameRegion(r: Region, s: Region) {
    r.base == s.base && r.capacity == s.capacity
  }

  /** The bytes skipped so that the next block starts aligned. */
  function Padding(r: Region): (pad: nat)
    ensures pad < ALIGNMENT
    ensures IsMultiple(r.base + r.count + pad, ALIGNMENT)
  {
    AlignForward(r.base + r.count, ALIGNMENT) - (r.base + r.count)
  }

  /** The capacity of a region created at step 3 of arena_alloc. */
  function NewCapacity(current: nat, size: nat): (cap: nat)
    ensures cap >= 2 * current && cap >= size + ALIGNMENT && cap >= DEFAULT_BLOCK_SIZE
    ensures cap == 2 * current || cap == size + ALIGNMENT || cap == DEFAULT_BLOCK_SIZE
  {
    var doubled := current * 2;
    var wanted := if size + ALIGNMENT > doubled then size + ALIGNMENT else doubled;
    if wanted < DEFAULT_BLOCK_SIZE then DEFAULT_BLOCK_SIZE else wanted
  }

  /** ALLOC_PROCEED: bump region `e`, which becomes `end`, by padding and size. */
  function Bump(chain: seq<Region>, e: nat, size: nat): (a: Allocation)
    requires e < |chain|
  {
    var r := chain[e];
    var pad := Padding(r);
    Allocation(ArenaView(chain[e := r.(count := r.count + pad + size)], Some(e)),
               Some(Ptr(r.base, r.count + pad)))
  }

  /**
   * Steps 2 and 3 of arena_alloc, entered when `size` does not fit in the
   * end region `e`: walk the regions after `e`, adopting the first one that
   * can hold `size + ALIGNMENT` and unlinking every smaller one on the way;
   * when none is left, link a new region (at `growBase`, or fail if the
   * system allocator returns NULL) directly after `e`.
   */
  function Walk(chain: seq<Region>, e: nat, size: nat, growBase: Option<nat>): (a: Allocation)
    requires e < |chain|
    decreases |chain| - e
  {
    if e + 1 < |chain| then
      var next := chain[e + 1];
      if next.capacity >= size + ALIGNMENT then
        Bump(chain[e + 1 := next.(count := 0)], e + 1, size)
      else
        Walk(chain[..e + 1] + chain[e + 2..], e, size, growBase)
    else if growBase.None? then
      Allocation(ArenaView(chain, Some(e)), None)
    else
      Bump(chain + [Region(growBase.value, NewCapacity(chain[e].capacity, size), 0)], e + 1, size)
  }

  /** Step 1 of arena_alloc: bump the end region if the request fits, else walk. */
  function Fit(chain: seq<Region>, e: nat, size: nat, growBase: Option<nat>): (a: Allocation)
    requires e < |chain|
  {
    var r := chain[e];
    if r.count + Padding(r) + size > r.capacity then Walk(chain, e, size, growBase)
    else Bump(chain, e, size)
  }

  /**
   * A block handed out by an allocation: it starts at an aligned address
   * inside the new end region and ends at that region's new count, which
   * does not exceed the capacity.
   */
  predicate Serves(a: Allocation, size: nat) {
    && a.ptr.Some?
    && a.after.end.Some?
    && a.after.end.value < |a.after.chain|
    && var r := a.after.chain[a.after.end.value];
      && a.ptr.value.base == r.base
      && a.ptr.value.offset + size == r.count <= r.capacity
      && IsMultiple(a.ptr.value.base + a.ptr.value.offset, ALIGNMENT)
  }

  /**
   * No region before the old end region `e` is touched, `e` itself is still
   * the same region (only its count may differ), and `end` does not move
   * backwards.
   */
  predicate KeepsPrefix(v: ArenaView, w: ArenaView)
    requires v.end.Some?
  {
    var e := v.end.value;
    && w.end.Some?
    && e <= w.end.value < |w.chain|
    && e < |v.chain|
    && w.chain[..e] == v.chain[..e]
    && SameRegion(w.chain[e], v.chain[e])
  }

  /**
   * arena_alloc. `initBase` and `growBase` are the answers of the system
   * allocator to the two requests arena_alloc can make (the first region of
   * an empty arena, a region added at step 3); None stands for NULL.
   */
  function Allocate(v: ArenaView, size: nat, initBase: Option<nat>, growBase: Option<nat>): (a: Allocation)
    requires Consistent(v)
    ensures Consistent(a.after)
    ensures size == 0 ==> a == Allocation(v, None)
    ensures a.ptr.Some? ==> Serves(a, size)
    ensures v.end.Some? ==> KeepsPrefix(v, a.after)
    ensures |v.chain| > 0 ==> |a.after.chain| > 0 && SameRegion(a.after.chain[0], v.chain[0])
  {
    if size == 0 then Allocation(v, None)
    else if v.end.Some? then
      FitProperties(v.chain, v.end.value, size, growBase);
      Fit(v.chain, v.end.value, size, growBase)
    else if |v.chain| > 0 then
      var chain := v.chain[0 := v.chain[0].(count := 0)];
      FitProperties(chain, 0, size, growBase);
      Fit(chain, 0, size, growBase)
    else if initBase.None? then Allocation(v, None)
    else
      var cap := if size > DEFAULT_BLOCK_SIZE then size else DEFAULT_BLOCK_SIZE;
      FitProperties([Region(initBase.value, cap, 0)], 0, size, growBase);
      Fit([Region(initBase.value, cap, 0)], 0, size, growBase)
  }

  lemma BumpProperties(chain: seq<Region>, e: nat, size: nat)
    requires e < |chain|
    requires Consistent(ArenaView(chain, Some(e)))
      || (forall i :: 0 <= i < |chain| && i != e ==> chain[i].count <= chain[i].capacity)
    requires chain[e].count + Padding(chain[e]) + size <= chain[e].capacity
    ensures var a := Bump(chain, e, size);
      && Consistent(a.after) && Serves(a, size)
      && |a.after.chain| == |chain| && a.after.chain[..e] == chain[..e]
      && a.after.chain[e + 1..] == chain[e + 1..]
      && SameRegion(a.after.chain[e], chain[e])
      && a.after.chain[e].count == chain[e].count + Padding(chain[e]) + size
  {
    var a := Bump(chain, e, size);
    var r := chain[e];
    var pad := Padding(r);
    assert a.after.chain[e] == r.(count := r.count + pad + size);
    forall i | 0 <= i < |a.after.chain|
      ensures a.after.chain[i].count <= a.after.chain[i].capacity
    {
      if i != e {
        assert a.after.chain[i] == chain[i];
      }
    }
  }

  /** What Walk leaves behind: the facts Allocate promises, for the walk alone. */
  lemma {:induction false} WalkProperties(chain: seq<Region>, e: nat, size: nat, growBase: Option<nat>)
    requires e < |chain| && Consistent(ArenaView(chain, Some(e)))
    ensures var a := Walk(chain, e, size, growBase);
      && Consistent(a.after)
      && (a.ptr.Some? ==> Serves(a, size))
      && a.after.end.Some? && e <= a.after.end.value
      && |a.after.chain| > e
      && a.after.chain[..e + 1] == chain[..e + 1]
      && (a.ptr.None? ==> a.after.end == Some(e))
      && (a.ptr.Some? ==> a.after.end == Some(e + 1))
      && (a.ptr.Some? ==> var r := a.after.chain[e + 1]; r.count == Padding(r.(count := 0)) + size)
    decreases |chain| - e
  {
    if e + 1 < |chain| {
      var next := chain[e + 1];
      if next.capacity >= size + ALIGNMENT {
        var c := chain[e + 1 := next.(count := 0)];
        assert Padding(c[e + 1]) < ALIGNMENT;
        BumpProperties(c, e + 1, size);
        assert c[..e + 1] == chain[..e + 1];
        assert c[e + 1] == Bump(c, e + 1, size).after.chain[e + 1].(count := 0);
      } else {
        var c := chain[..e + 1] + chain[e + 2..];
        assert Consistent(ArenaView(c, Some(e))) by {
          forall i | 0 <= i < |c| ensures c[i].count <= c[i].capacity {
            if i <= e { assert c[i] == chain[i]; } else { assert c[i] == chain[i + 1]; }
          }
        }
        WalkProperties(c, e, size, growBase);
        assert c[..e + 1] == chain[..e + 1];
      }
    } else if growBase.Some? {
      var grown := Region(growBase.value, NewCapacity(chain[e].capacity, size), 0);
      var c := chain + [grown];
      assert Padding(c[e + 1]) < ALIGNMENT;
      BumpProperties(c, e + 1, size);
      assert c[..e + 1] == chain[..e + 1];
      assert c[e + 1] == Bump(c, e + 1, size).after.chain[e + 1].(count := 0);
    }
  }

  lemma FitProperties(chain: seq<Region>, e: nat, size: nat, growBase: Option<nat>)
    requires e < |chain| && Consistent(ArenaView(chain, Some(e)))
    ensures var a := Fit(chain, e, size, growBase);
      && Consistent(a.after)
      && (a.ptr.Some? ==> Serves(a, size))
      && KeepsPrefix(ArenaView(chain, Some(e)), a.after)
      && (e > 0 ==> a.after.chain[0] == chain[0])
      && SameRegion(a.after.chain[0], chain[0])
      && (a.ptr.Some? && a.after.end == Some(e) ==> a.after.chain[e].count == chain[e].count + Padding(chain[e]) + size)
      && (a.after.end != Some(e) ==> a.after.chain[e] == chain[e])
      && (a.ptr.Some? && a.after.end != Some(e) ==>
            var r := a.after.chain[a.after.end.value]; r.count == Padding(r.(count := 0)) + size)
  {
    var r := chain[e];
    if r.count + Padding(r) + size > r.capacity {
      WalkProperties(chain, e, size, growBase);
      var a := Walk(chain, e, size, growBase);
      assert a.after.chain[..e + 1] == chain[..e + 1];
      assert a.after.chain[e] == chain[e];
      assert a.after.chain[..e] == chain[..e];
      assert a.after.chain[0] == chain[0];
    } else {
      BumpProperties(chain, e, size);
      var a := Bump(chain, e, size);
      if e > 0 {
        assert a.after.chain[0] == a.after.chain[..e][0];
      }
    }
  }

  /** The index of the first region at or after `from` that can hold `need` bytes. */
  function FirstFit(chain: seq<Region>, from: nat, need: nat): (k: nat)
    requires from <= |chain|
    ensures from <= k <= |chain|
    ensures k < |chain| ==> chain[k].capacity >= need
    ensures forall j :: from <= j < k ==> chain[j].capacity < need
    decreases |chain| - from
  {
    if from == |chain| then from
    else if chain[from].capacity >= need then from
    else FirstFit(chain, from + 1, need)
  }

  /**
   * The walk of step 2 in one statement: with `k` the first region after
   * `e` that can hold `size + ALIGNMENT`, every region strictly between `e`
   * and `k` is unlinked; then region `k` is adopted with its count reset, or,
   * when there is no such region, a new region of NewCapacity is linked as
   * the tail and becomes `end`.
   */
  lemma WalkAdoptsFirstFit(chain: seq<Region>, e: nat, size: nat, growBase: Option<nat>)
    requires e < |chain|
    ensures var k := FirstFit(chain, e + 1, size + ALIGNMENT);
      var kept := chain[..e + 1] + chain[k..];
      Walk(chain, e, size, growBase) ==
        if k < |chain| then Bump(kept[e + 1 := chain[k].(count := 0)], e + 1, size)
        else if growBase.None? then Allocation(ArenaView(kept, Some(e)), None)
        else Bump(kept + [Region(growBase.value, NewCapacity(chain[e].capacity, size), 0)], e + 1, size)
  {
    var k := FirstFit(chain, e + 1, size + ALIGNMENT);
    var kept := chain[..e + 1] + chain[k..];
    WalkSkipsSmall(chain, e, size, growBase);
    assert kept[e] == chain[e];
    if k < |chain| {
      assert kept[e + 1] == chain[k];
    } else {
      assert kept == chain[..e + 1];
    }
  }

  /** Walking from `e` is walking the chain with the too-small regions after `e` unlinked. */
  lemma {:induction false} WalkSkipsSmall(chain: seq<Region>, e: nat, size: nat, growBase: Option<nat>)
    requires e < |chain|
    ensures Walk(chain, e, size, growBase)
         == Walk(chain[..e + 1] + chain[FirstFit(chain, e + 1, size + ALIGNMENT)..], e, size, growBase)
    decreases |chain| - e
  {
    var k := FirstFit(chain, e + 1, size + ALIGNMENT);
    if e + 1 < |chain| && chain[e + 1].capacity < size + ALIGNMENT {
      var c := chain[..e + 1] + chain[e + 2..];
      WalkSkipsSmall(c, e, size, growBase);
      KeptAfterUnlink(chain, e, size + ALIGNMENT);
    } else {
      assert chain[..e + 1] + chain[k..] == chain;
    }
  }

  /** Unlinking a too-small region after `e` keeps the same regions before and from the first fit. */
  lemma KeptAfterUnlink(chain: seq<Region>, e: nat, need: nat)
    requires e + 1 < |chain| && chain[e + 1].capacity < need
    ensures var c := chain[..e + 1] + chain[e + 2..];
      c[..e + 1] + c[FirstFit(c, e + 1, need)..] == chain[..e + 1] + chain[FirstFit(chain, e + 1, need)..]
  {
    var c := chain[..e + 1] + chain[e + 2..];
    FirstFitShift(chain, e, need);
    var k, kc := FirstFit(chain, e + 1, need), FirstFit(c, e + 1, need);
    assert c[..e + 1] == chain[..e + 1];
    assert c[kc..] == chain[k..];
  }

  /** Unlinking the region after `e` shifts the first fit down by one. */
  lemma {:induction false} FirstFitShift(chain: seq<Region>, e: nat, need: nat)
    requires e + 1 < |chain| && chain[e + 1].capacity < need
    ensures var c := chain[..e + 1] + chain[e + 2..];
      FirstFit(c, e + 1, need) + 1 == FirstFit(chain, e + 1, need)
  {
    var c := chain[..e + 1] + chain[e + 2..];
    FirstFitShiftFrom(chain, c, e + 1, e + 1, need);
  }

  lemma {:induction false} FirstFitShiftFrom(chain: seq<Region>, c: seq<Region>, e1: nat, j: nat, need: nat)
    requires e1 < |chain| && c == chain[..e1] + chain[e1 + 1..] && e1 <= j <= |c|
    requires j == e1 ==> chain[e1].capacity < need
    ensures FirstFit(c, j, need) + 1 == FirstFit(chain, j + 1, need) || (j == e1 && FirstFit(c, j, need) + 1 == FirstFit(chain, j, need))
    ensures j == e1 ==> FirstFit(c, j, need) + 1 == FirstFit(chain, j + 1, need)
    decreases |c| - j
  {
    if j < |c| {
      assert c[j] == chain[j + 1];
      if c[j].capacity < need {
        FirstFitShiftFrom(chain, c, e1, j + 1, need);
      }
    }
  }

  /** arena_reset: `end` back to `begin` with a zero count; nothing is released. */
  function Rewound(v: ArenaView): (w: ArenaView)
    requires Consistent(v)
    ensures Consistent(w)
    ensures |w.chain| == |v.chain|
    ensures forall i :: 0 <= i < |v.chain| ==> SameRegion(w.chain[i], v.chain[i])
    ensures |v.chain| > 0 ==> w.chain[1..] == v.chain[1..]
    ensures |v.chain| > 0 ==> w.end == Some(0) && w.chain[0].count == 0
    ensures |v.chain| == 0 ==> w.end.None?
  {
    if |v.chain| > 0 then ArenaView(v.chain[0 := v.chain[0].(count := 0)], Some(0))
    else ArenaView(v.chain, None)
  }

  /** Regions that are linked at the same time occupy different memory, so their data addresses differ. */
  predicate DistinctBases(chain: seq<Region>) {
    forall i, j :: 0 <= i < j < |chain| ==> chain[i].base != chain[j].base
  }

  /**
   * The position in the chain, at or after `from`, of the first region
   * whose data address is `base`; `|chain|` when no such region is linked.
   */
  function Locate(chain: seq<Region>, base: nat, from: nat): (k: nat)
    requires from <= |chain|
    ensures from <= k <= |chain|
    ensures k < |chain| ==> chain[k].base == base
    ensures forall j :: from <= j < k ==> chain[j].base != base
    decreases |chain| - from
  {
    if from == |chain| || chain[from].base == base then from else Locate(chain, base, from + 1)
  }

  /** arena_temp_begin: the end region, by its address, and its count (0 when end is NULL). */
  function Capture(v: ArenaView): (cp: Checkpoint)
    requires Consistent(v)
    ensures cp.oldEnd.None? <==> v.end.None?
    ensures v.end.Some? ==> cp.oldEnd.value == v.chain[v.end.value].base && cp.oldCount == v.chain[v.end.value].count
    ensures v.end.None? ==> cp.oldCount == 0
  {
    if v.end.Some? then Checkpoint(Some(v.chain[v.end.value].base), v.chain[v.end.value].count)
    else Checkpoint(None, 0)
  }

  /**
   * What arena_temp_end needs to be defined: the captured region is still
   * linked (the source would write to freed memory otherwise) and the
   * captured count still fits in it.
   */
  predicate CanRestore(v: ArenaView, cp: Checkpoint) {
    cp.oldEnd.Some? ==>
      var k := Locate(v.chain, cp.oldEnd.value, 0);
      k < |v.chain| && cp.oldCount <= v.chain[k].capacity
  }

  /**
   * arena_temp_end: `end` is the captured region again, wherever it now
   * sits in the chain, and its count is put back.
   */
  function Restored(v: ArenaView, cp: Checkpoint): (w: ArenaView)
    requires Consistent(v) && CanRestore(v, cp)
    ensures Consistent(w)
    ensures |w.chain| == |v.chain|
    ensures forall i :: 0 <= i < |v.chain| ==> SameRegion(w.chain[i], v.chain[i])
    ensures forall i :: 0 <= i < |v.chain| && Some(i) != w.end ==> w.chain[i] == v.chain[i]
    ensures w.end.None? <==> cp.oldEnd.None?
    ensures cp.oldEnd.Some? ==>
      var e := w.end.value;
      && e < |w.chain|
      && w.chain[e].base == cp.oldEnd.value && w.chain[e].count == cp.oldCount
      && forall j :: 0 <= j < e ==> v.chain[j].base != cp.oldEnd.value
  {
    if cp.oldEnd.Some? then
      var e := Locate(v.chain, cp.oldEnd.value, 0);
      var w := ArenaView(v.chain[e := v.chain[e].(count := cp.oldCount)], Some(e));
      assert forall i :: 0 <= i < |w.chain| && i != e ==> w.chain[i] == v.chain[i];
      w
    else ArenaView(v.chain, None)
  }

  /**
   * When the captured region is linked at position `i`, whatever
   * allocations moved it there, arena_temp_end makes it the end again with
   * the captured count; every other region is left as it was.
   */
  lemma RestoreFindsRegion(v: ArenaView, cp: Checkpoint, i: nat)
    requires Consistent(v) && DistinctBases(v.chain) && cp.oldEnd.Some?
    requires i < |v.chain| && v.chain[i].base == cp.oldEnd.value && cp.oldCount <= v.chain[i].capacity
    ensures CanRestore(v, cp)
    ensures Restored(v, cp).end == Some(i) && Restored(v, cp).chain == v.chain[i := v.chain[i].(count := cp.oldCount)]
  {
  }

  /** One arena_alloc call with the system allocator's answers. */
  datatype Request = Request(size: nat, initBase: Option<nat>, growBase: Option<nat>)

  /** The state after a series of arena_alloc calls. */
  function AllocateAll(v: ArenaView, reqs: seq<Request>): (w: ArenaView)
    requires Consistent(v)
    ensures Consistent(w)
    decreases |reqs|
  {
    if reqs == [] then v
    else AllocateAll(Allocate(v, reqs[0].size, reqs[0].initBase, reqs[0].growBase).after, reqs[1..])
  }

  lemma {:induction false} AllocateAllKeepsPrefix(v: ArenaView, reqs: seq<Request>)
    requires Consistent(v) && v.end.Some?
    ensures KeepsPrefix(v, AllocateAll(v, reqs))
    decreases |reqs|
  {
    if reqs != [] {
      var v1 := Allocate(v, reqs[0].size, reqs[0].initBase, reqs[0].growBase).after;
      AllocateAllKeepsPrefix(v1, reqs[1..]);
      var w := AllocateAll(v1, reqs[1..]);
      var e := v.end.value;
      var e1 := v1.end.value;
      assert w.chain[..e1][..e] == w.chain[..e];
      assert v1.chain[..e1][..e] == v1.chain[..e];
      if e1 > e {
        assert w.chain[e] == w.chain[..e1][e];
        assert v1.chain[e] == v1.chain[..e1][e];
      }
    }
  }

  /**
   * A checkpoint taken at a non-NULL end survives any series of allocations
   * and, once ended, puts the arena back where it was: the same end, and the
   * chain up to and including it exactly as captured. Regions after it may
   * differ: allocations in the scope may have unlinked or added some.
   */
  lemma CheckpointRestores(v: ArenaView, reqs: seq<Request>)
    requires Consistent(v) && v.end.Some? && DistinctBases(v.chain)
    ensures var w := AllocateAll(v, reqs);
      && CanRestore(w, Capture(v))
      && Restored(w, Capture(v)).end == v.end
      && Restored(w, Capture(v)).chain[..v.end.value + 1] == v.chain[..v.end.value + 1]
  {
    var w := AllocateAll(v, reqs);
    var e := v.end.value;
    AllocateAllKeepsPrefix(v, reqs);
    assert Locate(w.chain, v.chain[e].base, 0) == e by {
      assert w.chain[..e] == v.chain[..e];
    }
    var r := Restored(w, Capture(v));
    assert r.chain[..e] == w.chain[..e];
    assert r.chain[e] == v.chain[e];
    assert r.chain[..e + 1] == r.chain[..e] + [r.chain[e]];
    assert v.chain[..e + 1] == v.chain[..e] + [v.chain[e]];
  }

  /** The capacity of every region in `chain`, added up. */
  function TotalCapacity(chain: seq<Region>): (n: nat)
    decreases |chain|
  {
    if chain == [] then 0 else TotalCapacity(chain[..|chain| - 1]) + chain[|chain| - 1].capacity
  }

  /** The count of every region in `chain`, added up. */
  function TotalUsed(chain: seq<Region>): (n: nat)
    decreases |chain|
  {
    if chain == [] then 0 else TotalUsed(chain[..|chain| - 1]) + chain[|chain| - 1].count
  }

  /** In a consistent arena the bytes in use never exceed the bytes reserved. */
  lemma {:induction false} UsedWithinCapacity(chain: seq<Region>)
    requires forall i :: 0 <= i < |chain| ==> chain[i].count <= chain[i].capacity
    ensures TotalUsed(chain) <= TotalCapacity(chain)
    decreases |chain|
  {
    if chain != [] {
      var init := chain[..|chain| - 1];
      assert forall i :: 0 <= i < |init| ==> init[i] == chain[i];
      UsedWithinCapacity(init);
    }
  }

  /** The arena: the chain of regions and the current `end`, updated in place. */
  class Arena {
    var chain: seq<Region>
    var end: Option<nat>

    function View(): (v: ArenaView)
      reads this
    {
      ArenaView(chain, end)
    }

    ghost predicate Valid()
      reads this
    {
      Consistent(View())
    }

    /** arena_init: `begin` and `end` are NULL. */
    constructor Init()
      ensures Valid() && View() == ArenaView([], None)
    {
      chain := [];
      end := None;
    }

    /** arena_alloc, performed in place. */
    method Alloc(size: nat, initBase: Option<nat>, growBase: Option<nat>) returns (p: Option<Ptr>)
      requires Valid()
      modifies this
      ensures Valid()
      ensures Allocation(View(), p) == Allocate(old(View()), size, initBase, growBase)
    {
      if size == 0 {
        return None;
      }
      if end.None? {
        if |chain| > 0 {
          end := Some(0);
          chain := chain[0 := chain[0].(count := 0)];
        } else {
          var cap := DEFAULT_BLOCK_SIZE;
          if size > cap {
            cap := size;
          }
          if initBase.None? {
            return None;
          }
          chain := [Region(initBase.value, cap, 0)];
          end := Some(0);
        }
      }
      var e := end.value;
      assert Allocate(old(View()), size, initBase, growBase) == Fit(chain, e, size, growBase);
      if chain[e].count + Padding(chain[e]) + size > chain[e].capacity {
        p := Grow(e, size, growBase);
      } else {
        p := Proceed(e, size);
      }
    }

    /** Steps 2 and 3 of arena_alloc: the end region `e` cannot hold `size`. */
    method Grow(e: nat, size: nat, growBase: Option<nat>) returns (p: Option<Ptr>)
      requires Valid() && end == Some(e)
      modifies this
      ensures Valid()
      ensures Allocation(View(), p) == Walk(old(chain), e, size, growBase)
    {
      ghost var target := Walk(chain, e, size, growBase);
      WalkProperties(chain, e, size, growBase);
      var adopted := false;
      var i: nat := e;
      while !adopted && i + 1 < |chain|
        invariant i < |chain|
        invariant !adopted ==> end == Some(i) && Walk(chain, i, size, growBase) == target
        invariant adopted ==> Bump(chain, i, size) == target
        decreases |chain| - i, if adopted then 0 else 1
      {
        var next := chain[i + 1];
        if next.capacity >= size + ALIGNMENT {
          // Found a region that is big enough: reuse it.
          end := Some(i + 1);
          chain := chain[i + 1 := next.(count := 0)];
          i := i + 1;
          adopted := true;
        } else {
          // Too small to serve this or any larger request: unlink it.
          chain := chain[..i + 1] + chain[i + 2..];
        }
      }
      if !adopted {
        // No region after the end can serve the request: link a new one.
        var newCap := chain[i].capacity * 2;
        if size + ALIGNMENT > newCap {
          newCap := size + ALIGNMENT;
        }
        if newCap < DEFAULT_BLOCK_SIZE {
          newCap := DEFAULT_BLOCK_SIZE;
        }
        if growBase.None? {
          return None;
        }
        chain := chain + [Region(growBase.value, newCap, 0)];
        end := Some(i + 1);
        i := i + 1;
      }
      p := Proceed(i, size);
    }

    /** ALLOC_PROCEED: hand out the aligned address in region `e` and bump its count. */
    method Proceed(e: nat, size: nat) returns (p: Option<Ptr>)
      requires e < |chain|
      modifies this
      ensures Allocation(View(), p) == Bump(old(chain), e, size)
    {
      var r := chain[e];
      var pad := Padding(r);
      p := Some(Ptr(r.base, r.count + pad));
      chain := chain[e := r.(count := r.count + pad + size)];
      end := Some(e);
    }

    /** arena_reset: rewind to `begin`, keeping every region. */
    method Reset()
      requires Valid()
      modifies this
      ensures Valid() && View() == Rewound(old(View()))
    {
      if |chain| > 0 {
        end := Some(0);
        chain := chain[0 := chain[0].(count := 0)];
      } else {
        end := None;
      }
    }

    /** arena_free: hand every region back, from `begin` onwards. */
    method Free()
      modifies this
      ensures Valid() && View() == ArenaView([], None)
    {
      while chain != []
        decreases |chain|
      {
        chain := chain[1..];
      }
      end := None;
    }

    /**
     * The figures arena_print_stats reports (the number of regions, the bytes
     * used, the bytes reserved), gathered by walking the chain from `begin`.
     */
    method Stats() returns (regions: nat, used: nat, total: nat)
      requires Valid()
      ensures regions == |chain|
      ensures used == TotalUsed(chain) && total == TotalCapacity(chain)
      ensures used <= total
    {
      regions, used, total := 0, 0, 0;
      while regions < |chain|
        invariant regions <= |chain|
        invariant used == TotalUsed(chain[..regions])
        invariant total == TotalCapacity(chain[..regions])
      {
        assert chain[..regions + 1][..regions] == chain[..regions];
        total := total + chain[regions].capacity;
        used := used + chain[regions].count;
        regions := regions + 1;
      }
      assert chain[..regions] == chain;
      UsedWithinCapacity(chain);
    }

    /** arena_temp_begin. */
    method TempBegin() returns (cp: Checkpoint)
      requires Valid()
      ensures cp.oldEnd.None? <==> end.None?
      ensures end.Some? ==> cp.oldEnd.value == chain[end.value].base && cp.oldCount == chain[end.value].count
      ensures end.None? ==> cp.oldCount == 0
      ensures cp == Capture(View())
    {
      if end.Some? {
        cp := Checkpoint(Some(chain[end.value].base), chain[end.value].count);
      } else {
        cp := Checkpoint(None, 0);
      }
    }

    /** arena_temp_end. */
    method TempEnd(cp: Checkpoint)
      requires Valid() && CanRestore(View(), cp)
      modifies this
      ensures Valid() && View() == Restored(old(View()), cp)
    {
      if cp.oldEnd.Some? {
        var e := Locate(chain, cp.oldEnd.value, 0);
        end := Some(e);
        chain := chain[e := chain[e].(count := cp.oldCount)];
      } else {
        end := None;
      }
    }
  }
}
