/** The allocator of packet ids and topic aliases: free values kept as a list of disjoint intervals. */
module ValueAllocator {
  import opened Wrappers

  datatype Interval = Interval(low: nat, high: nat)

  type Pool = seq<Interval>

  predicate Holds(iv: Interval, v: nat) {
    iv.low <= v <= iv.high
  }

  ghost predicate Free(pool: Pool, v: nat) {
    exists i :: 0 <= i < |pool| && Holds(pool[i], v)
  }

  /** At least one value is missing between the two lists. */
  predicate Gap(a: Pool, b: Pool) {
    a != [] && b != [] ==> a[|a| - 1].high + 1 < b[0].low
  }

  /** Sorted, disjoint and with at least one value missing between neighbours. */
  predicate Canonical(pool: Pool) {
    && (forall i | 0 <= i < |pool| :: pool[i].low <= pool[i].high)
    && (forall i | 0 < i < |pool| :: pool[i - 1].high + 1 < pool[i].low)
  }

  /** Free values are those of `before` less `v`. */
  ghost predicate Lost(before: Pool, after: Pool, v: nat) {
    forall w: nat :: Free(after, w) <==> Free(before, w) && w != v
  }

  ghost predicate Gained(before: Pool, after: Pool, v: nat) {
    forall w: nat :: Free(after, w) <==> Free(before, w) || w == v
  }

  ghost predicate Within(pool: Pool, highest: nat) {
    forall w: nat | Free(pool, w) :: w <= highest
  }

  // ----- lists of intervals

  lemma IsFree(pool: Pool, i: nat, v: nat)
    requires i < |pool| && Holds(pool[i], v)
    ensures Free(pool, v)
  {
  }

  lemma FreeOne(iv: Interval, w: nat)
    ensures Free([iv], w) <==> Holds(iv, w)
  {
    if Holds(iv, w) {
      IsFree([iv], 0, w);
    }
  }

  lemma NoneFree(w: nat)
    ensures !Free([], w) && Canonical([])
  {
  }

  lemma CanonicalOne(iv: Interval)
    ensures Canonical([iv]) <==> iv.low <= iv.high
  {
    assert [iv][0] == iv;
  }

  lemma FreeConcat(a: Pool, b: Pool, w: nat)
    ensures Free(a + b, w) <==> Free(a, w) || Free(b, w)
  {
    if i :| 0 <= i < |a| && Holds(a[i], w) {
      IsFree(a + b, i, w);
    }
    if i :| 0 <= i < |b| && Holds(b[i], w) {
      IsFree(a + b, |a| + i, w);
    }
    if i :| 0 <= i < |a + b| && Holds((a + b)[i], w) {
      if i < |a| {
        IsFree(a, i, w);
      } else {
        IsFree(b, i - |a|, w);
      }
    }
  }

  lemma CanonicalConcat(a: Pool, b: Pool)
    ensures Canonical(a + b) <==> Canonical(a) && Canonical(b) && Gap(a, b)
  {
    var c := a + b;
    if Canonical(c) {
      assert forall i | 0 <= i < |a| :: a[i] == c[i];
      assert forall i | 0 <= i < |b| :: b[i] == c[|a| + i];
    }
    if Canonical(a) && Canonical(b) && Gap(a, b) {
      forall i | 0 < i < |c| ensures c[i - 1].high + 1 < c[i].low {
        if i < |a| {
          assert a[i - 1].high + 1 < a[i].low;
        } else if i > |a| {
          assert b[i - |a| - 1].high + 1 < b[i - |a|].low;
        }
      }
    }
  }

  lemma {:induction false} Sorted(pool: Pool, i: nat, j: nat)
    requires Canonical(pool) && i < j < |pool|
    ensures pool[i].high + 1 < pool[j].low
    decreases j - i
  {
    assert pool[j - 1].high + 1 < pool[j].low && pool[j - 1].low <= pool[j - 1].high;
    if i < j - 1 {
      Sorted(pool, i, j - 1);
    }
  }

  /** All free values lie between the first low and the last high. */
  lemma Span(pool: Pool, w: nat)
    requires Canonical(pool) && Free(pool, w)
    ensures pool != [] && pool[0].low <= w <= pool[|pool| - 1].high
  {
    var i :| 0 <= i < |pool| && Holds(pool[i], w);
    if i > 0 {
      Sorted(pool, 0, i);
    }
    if i < |pool| - 1 {
      Sorted(pool, i, |pool| - 1);
    }
  }

  /** Replacing the middle of a list by something that keeps its distance on both sides. */
  lemma Splice(a: Pool, m: Pool, m': Pool, b: Pool)
    requires Canonical(a + m + b) && Canonical(m')
    requires Gap(a, m') && Gap(m', b) && (m == [] || m' == [] ==> Gap(a, b))
    ensures Canonical(a + m' + b)
    ensures forall w: nat :: Free(a + m' + b, w) <==> (Free(a + m + b, w) && !Free(m, w)) || Free(m', w)
  {
    hide Free;
    hide Canonical;
    CanonicalConcat(a + m, b);
    CanonicalConcat(a, m);
    CanonicalConcat(a, m');
    CanonicalConcat(a + m', b);
    if m' == [] {
      assert a + m' == a;
    }
    forall w: nat ensures Free(a + m' + b, w) <==> (Free(a + m + b, w) && !Free(m, w)) || Free(m', w) {
      FreeConcat(a + m', b, w);
      FreeConcat(a, m', w);
      FreeConcat(a + m, b, w);
      FreeConcat(a, m, w);
      if Free(m, w) {
        Span(m, w);
        OutsideMiddle(a, m, b, w);
      }
    }
  }

  lemma OutsideMiddle(a: Pool, m: Pool, b: Pool, w: nat)
    requires Canonical(a) && Canonical(m) && Canonical(b) && Gap(a, m) && Gap(a + m, b) && Free(m, w)
    ensures !Free(a, w) && !Free(b, w)
  {
    Span(m, w);
    assert (a + m)[|a + m| - 1] == m[|m| - 1];
    if Free(a, w) {
      Span(a, w);
    }
    if Free(b, w) {
      Span(b, w);
    }
  }

  // ----- the ordered set

  /** Position of the first interval that starts after `v`. */
  function UpperBound(pool: Pool, v: nat): (n: nat)
    ensures n <= |pool|
    ensures forall i | 0 <= i < n :: pool[i].low <= v
    ensures n < |pool| ==> v < pool[n].low
  {
    if pool == [] || v < pool[0].low then 0 else 1 + UpperBound(pool[1..], v)
  }

  /** Position of the interval that holds `v`, or the length of the pool. */
  function Locate(pool: Pool, v: nat): nat {
    var n := UpperBound(pool, v);
    if n > 0 && v <= pool[n - 1].high then n - 1 else |pool|
  }

  lemma LocateFinds(pool: Pool, v: nat)
    requires Canonical(pool)
    ensures var n := Locate(pool, v);
            n <= |pool| && (n < |pool| <==> Free(pool, v)) && (n < |pool| ==> Holds(pool[n], v))
  {
    var r: int := UpperBound(pool, v);
    if r > 0 && v <= pool[r - 1].high {
      IsFree(pool, r - 1, v);
    } else {
      forall i | 0 <= i < |pool| ensures !Holds(pool[i], v) {
        if i < r - 1 {
          Sorted(pool, i, r - 1);
        } else if i > r {
          Sorted(pool, r, i);
        }
      }
    }
  }

  /** Two intervals count as the same element of the set as soon as they share a value. */
  predicate Clash(pool: Pool, iv: Interval) {
    exists i :: 0 <= i < |pool| && pool[i].low <= iv.high && iv.low <= pool[i].high
  }

  /** emplace: no effect when an element that counts as equal is present. */
  function Emplace(pool: Pool, iv: Interval): Pool {
    if Clash(pool, iv) then pool
    else var n := UpperBound(pool, iv.low); pool[..n] + [iv] + pool[n..]
  }

  /** An interval that fits between two parts of the list goes there. */
  lemma EmplaceBetween(a: Pool, iv: Interval, b: Pool)
    requires Canonical(a + b) && iv.low <= iv.high && Gap(a, [iv]) && Gap([iv], b)
    ensures Emplace(a + b, iv) == a + [iv] + b
  {
    CanonicalConcat(a, b);
    NoClash(a, iv, b);
    var c := a + b;
    if a != [] {
      AllBefore(a, |a| - 1);
    }
    forall i | 0 <= i < |a| ensures c[i].low <= iv.low {
      AllBefore(a, i);
    }
    UpperBoundIs(c, iv.low, |a|);
    assert c[..|a|] == a && c[|a|..] == b;
  }

  lemma UpperBoundIs(pool: Pool, v: nat, n: nat)
    requires n <= |pool| && (forall i | 0 <= i < n :: pool[i].low <= v) && (n < |pool| ==> v < pool[n].low)
    ensures UpperBound(pool, v) == n
  {
    var m := UpperBound(pool, v);
    assert !(m < n) && !(n < m);
  }

  lemma NoClash(a: Pool, iv: Interval, b: Pool)
    requires Canonical(a) && Canonical(b) && Gap(a, [iv]) && Gap([iv], b) && iv.low <= iv.high
    ensures !Clash(a + b, iv)
  {
    var c := a + b;
    forall i | 0 <= i < |c| ensures !(c[i].low <= iv.high && iv.low <= c[i].high) {
      if i < |a| {
        AllBefore(a, i);
      } else {
        AllAfter(b, i - |a|);
      }
    }
  }

  lemma AllBefore(a: Pool, i: nat)
    requires Canonical(a) && i < |a|
    ensures a[i].low <= a[i].high <= a[|a| - 1].high
  {
    if i < |a| - 1 {
      Sorted(a, i, |a| - 1);
    }
  }

  lemma AllAfter(b: Pool, i: nat)
    requires Canonical(b) && i < |b|
    ensures b[0].low <= b[i].low
  {
    if i > 0 {
      Sorted(b, 0, i);
    }
  }

  // ----- the list is determined by the free values

  lemma FirstFree(pool: Pool)
    requires Canonical(pool) && pool != []
    ensures Free(pool, pool[0].low) && forall w: nat | Free(pool, w) :: pool[0].low <= w
  {
    IsFree(pool, 0, pool[0].low);
    forall w: nat | Free(pool, w) ensures pool[0].low <= w {
      Span(pool, w);
    }
  }

  /** The first interval is the first free run, and the rest of the list is the rest. */
  lemma SplitFirst(pool: Pool)
    requires Canonical(pool) && pool != []
    ensures Canonical(pool[1..]) && pool[0].low <= pool[0].high
    ensures forall w: nat :: Free(pool, w) <==> Holds(pool[0], w) || Free(pool[1..], w)
    ensures forall w: nat | Free(pool[1..], w) :: pool[0].high + 1 < w
  {
    assert pool == [pool[0]] + pool[1..];
    CanonicalConcat([pool[0]], pool[1..]);
    forall w: nat ensures Free(pool, w) <==> Holds(pool[0], w) || Free(pool[1..], w) {
      FreeConcat([pool[0]], pool[1..], w);
      FreeOne(pool[0], w);
    }
    forall w: nat | Free(pool[1..], w) ensures pool[0].high + 1 < w {
      Span(pool[1..], w);
    }
  }

  /** There is exactly one list of maximal intervals for a set of free values. */
  lemma {:induction false} PoolUnique(p: Pool, q: Pool)
    requires Canonical(p) && Canonical(q)
    requires forall w: nat :: Free(p, w) <==> Free(q, w)
    ensures p == q
    decreases |p|
  {
    if p == [] || q == [] {
      if p != [] {
        FirstFree(p);
      }
      if q != [] {
        FirstFree(q);
      }
    } else {
      SplitFirst(p);
      SplitFirst(q);
      FirstFree(p);
      FirstFree(q);
      SameRun(p, q);
      PoolUnique(p[1..], q[1..]);
      assert p == [p[0]] + p[1..] && q == [q[0]] + q[1..];
    }
  }

  lemma SameRun(p: Pool, q: Pool)
    requires Canonical(p) && Canonical(q) && p != [] && q != [] && p[0].low == q[0].low
    requires forall w: nat :: Free(p, w) <==> Free(q, w)
    ensures p[0] == q[0] && forall w: nat :: Free(p[1..], w) <==> Free(q[1..], w)
  {
    hide Free;
    hide Canonical;
    SplitFirst(p);
    SplitFirst(q);
    assert Free(p, p[0].high + 1) <==> Free(q, p[0].high + 1);
    assert Free(p, q[0].high + 1) <==> Free(q, q[0].high + 1);
    assert p[0].high == q[0].high;
    forall w: nat ensures Free(p[1..], w) <==> Free(q[1..], w) {
      assert Free(p, w) <==> Free(q, w);
      assert Free(p, w) <==> Holds(p[0], w) || Free(p[1..], w);
    }
  }

  /** `v` is free and the next value is not. */
  ghost predicate EndsRun(pool: Pool, v: nat) {
    Free(pool, v) && !Free(pool, v + 1)
  }

  ghost function RunEnds(pool: Pool): set<nat> {
    if pool == [] then {} else {pool[0].high} + RunEnds(pool[1..])
  }

  lemma EndsFirst(pool: Pool, v: nat)
    requires Canonical(pool) && pool != []
    ensures Canonical(pool[1..]) && !EndsRun(pool[1..], pool[0].high)
    ensures EndsRun(pool, v) <==> v == pool[0].high || EndsRun(pool[1..], v)
  {
    hide Canonical;
    hide Free;
    SplitFirst(pool);
    assert Free(pool, v) <==> Holds(pool[0], v) || Free(pool[1..], v);
    assert Free(pool, v + 1) <==> Holds(pool[0], v + 1) || Free(pool[1..], v + 1);
    assert !Free(pool[1..], pool[0].high);
  }

  lemma {:induction false} RunEndsAre(pool: Pool)
    requires Canonical(pool)
    ensures |RunEnds(pool)| == |pool|
    ensures forall v: nat :: v in RunEnds(pool) <==> EndsRun(pool, v)
  {
    if pool == [] {
      forall v: nat ensures !EndsRun(pool, v) {
        NoneFree(v);
      }
    } else {
      hide Canonical;
      hide EndsRun;
      EndsFirst(pool, pool[0].high);
      RunEndsAre(pool[1..]);
      forall v: nat ensures EndsRun(pool, v) <==> v == pool[0].high || EndsRun(pool[1..], v) {
        EndsFirst(pool, v);
      }
    }
  }

  // ----- the allocator

  /** The values of a type: `+ 1` is exact for 16 bits, which promote to int, and wraps for 32 bits. */
  function Successor(v: nat, modulus: Option<nat>): nat {
    if modulus == Some(v + 1) then 0 else v + 1
  }

  /** The one state in which `+ 1` wraps: the greatest value of the type is the only free one. */
  ghost predicate OnlyGreatestFree(pool: Pool, modulus: Option<nat>) {
    modulus.Some? && modulus.value > 0 && pool == [Interval(modulus.value - 1, modulus.value - 1)]
  }

  /**
   * The one state in which freeing a value wraps: everything from 0 up is free, and 0 looks like the next value after
   * it.
   */
  ghost predicate GreatestBeforeZero(pool: Pool, modulus: Option<nat>, v: nat) {
    v == 0 && modulus.Some? && modulus.value > 0 && pool == [Interval(0, modulus.value - 1)]
  }

  class ValueAllocator {
    const lowest: nat
    const highest: nat
    const modulus: Option<nat>
    var pool: Pool

    ghost predicate Valid()
      reads this
    {
      && Canonical(pool) && lowest <= highest
      && (modulus.Some? ==> highest < modulus.value)
      && Within(pool, highest)
    }

    constructor (lowest: nat, highest: nat, modulus: Option<nat>)
      requires lowest <= highest && (modulus.Some? ==> highest < modulus.value)
      ensures Valid() && this.lowest == lowest && this.highest == highest && this.modulus == modulus
      ensures forall v: nat :: Free(pool, v) <==> lowest <= v <= highest
    {
      this.lowest := lowest;
      this.highest := highest;
      this.modulus := modulus;
      pool := [Interval(lowest, highest)];
      new;
      forall v: nat ensures Free(pool, v) <==> lowest <= v <= highest {
        FreeOne(pool[0], v);
      }
    }

    /** Takes the smallest free value, unless that is the greatest value of a type that wraps. */
    method Allocate() returns (v: Option<nat>)
      requires Valid()
      modifies this
      ensures v.None? <==> forall w: nat :: !Free(old(pool), w)
      ensures v.None? ==> pool == old(pool)
      ensures v.Some? ==> Free(old(pool), v.value) && forall w: nat | Free(old(pool), w) :: v.value <= w
      ensures v.Some? && !OnlyGreatestFree(old(pool), modulus) ==> Valid() && Lost(old(pool), pool, v.value)
      ensures OnlyGreatestFree(old(pool), modulus) ==> pool == [Interval(0, modulus.value - 1)]
    {
      hide Canonical;
      hide Free;
      if pool == [] {
        forall w: nat ensures !Free(pool, w) {
          NoneFree(w);
        }
        return None;
      }
      FirstFree(pool);
      var first := pool[0];
      v := Some(first.low);
      InRange(pool, 0, highest);
      TakeFirst(pool);
      if Successor(first.low, modulus) <= first.high {
        if first.low == first.high {
          OnlyGreatest(pool, highest, modulus);
        }
        pool := pool[0 := Interval(Successor(first.low, modulus), first.high)];
      } else {
        pool := pool[1..];
      }
    }

    /** The smallest free value, without taking it. */
    method FirstVacant() returns (v: Option<nat>)
      requires Valid()
      ensures v.None? <==> forall w: nat :: !Free(pool, w)
      ensures v.Some? ==> Free(pool, v.value) && forall w: nat | Free(pool, w) :: v.value <= w
    {
      if pool == [] {
        return None;
      }
      FirstFree(pool);
      v := Some(pool[0].low);
    }

    /** Makes a value free: merged with the neighbouring intervals it touches, no effect when it is free already. */
    method Deallocate(v: nat)
      requires Valid() && lowest <= v <= highest
      modifies this
      ensures !GreatestBeforeZero(old(pool), modulus, v) ==>
                Valid() && Gained(old(pool), pool, v) && (Free(old(pool), v) ==> pool == old(pool))
      ensures GreatestBeforeZero(old(pool), modulus, v) ==> pool == [Interval(0, 0)]
    {
      hide Canonical;
      hide Free;
      var r := UpperBound(pool, v);
      if r > 0 {
        InRange(pool, r - 1, highest);
      }
      if r < |pool| {
        InRange(pool, r, highest);
      }
      if 0 < r < |pool| {
        Sorted(pool, r - 1, r);
      }
      if r == |pool| {
        if r == 0 {
          Alone(pool, v);
          pool := Emplace(pool, Interval(v, v));
          return;
        }
        var left := pool[r - 1];
        if Successor(left.high, modulus) == v {
          if left.high + 1 == v {
            GrowRight(pool, r - 1, v);
          } else {
            AboveZero(pool);
          }
          pool := pool[r - 1 := Interval(left.low, v)];
        } else {
          Alone(pool, v);
          pool := Emplace(pool, Interval(v, v));
        }
      } else if r == 0 {
        if Successor(v, modulus) == pool[r].low {
          GrowLeft(pool, r, v);
          pool := pool[r := Interval(v, pool[r].high)];
        } else {
          Alone(pool, v);
          pool := Emplace(pool, Interval(v, v));
        }
      } else {
        var left, right := pool[r - 1], pool[r];
        if Successor(left.high, modulus) == v {
          if Successor(v, modulus) == right.low {
            Bridge(pool, r, v);
            pool := pool[..r] + pool[r + 1..];
            pool := pool[r - 1 := Interval(left.low, right.high)];
          } else {
            GrowRight(pool, r - 1, v);
            pool := pool[r - 1 := Interval(left.low, v)];
          }
        } else {
          if Successor(v, modulus) == right.low {
            GrowLeft(pool, r, v);
            pool := pool[r := Interval(v, right.high)];
          } else {
            Alone(pool, v);
            pool := Emplace(pool, Interval(v, v));
          }
        }
      }
    }

    /** Takes a given value; false when it is not free. */
    method Use(v: nat) returns (ok: bool)
      requires Valid()
      modifies this
      ensures ok <==> Free(old(pool), v)
      ensures !ok ==> pool == old(pool)
      ensures ok && !OnlyGreatestFree(old(pool), modulus) ==> Valid() && Lost(old(pool), pool, v)
      ensures ok && OnlyGreatestFree(old(pool), modulus) ==> pool == [Interval(0, modulus.value - 1)]
    {
      hide Canonical;
      hide Free;
      hide Emplace;
      hide Remainders;
      LocateFinds(pool, v);
      var n := Locate(pool, v);
      if n == |pool| {
        return false;
      }
      ok := true;
      var iv := pool[n];
      UseResult(pool, n, v, highest, modulus);
      CarveLoses(pool, n, v);
      pool := pool[..n] + pool[n + 1..];
      if iv.low < v {
        pool := Emplace(pool, Interval(iv.low, v - 1));
      }
      if Successor(v, modulus) <= iv.high {
        pool := Emplace(pool, Interval(Successor(v, modulus), iv.high));
      }
    }

    method IsUsed(v: nat) returns (used: bool)
      requires Valid()
      ensures used <==> !Free(pool, v)
    {
      LocateFinds(pool, v);
      used := Locate(pool, v) == |pool|;
    }

    method Clear()
      requires Valid()
      modifies this
      ensures Valid() && forall v: nat :: Free(pool, v) <==> lowest <= v <= highest
    {
      pool := [Interval(lowest, highest)];
      forall v: nat ensures Free(pool, v) <==> lowest <= v <= highest {
        FreeOne(pool[0], v);
      }
    }

    /** The number of free runs. */
    method IntervalCount() returns (n: nat)
      requires Valid()
      ensures n == |RunEnds(pool)| && forall v: nat :: v in RunEnds(pool) <==> EndsRun(pool, v)
    {
      RunEndsAre(pool);
      n := |pool|;
    }
  }

  lemma Cut(pool: Pool, i: nat)
    requires i < |pool|
    ensures pool == pool[..i] + [pool[i]] + pool[i + 1..]
  {
  }

  lemma InRange(pool: Pool, i: nat, highest: nat)
    requires Canonical(pool) && Within(pool, highest) && i < |pool|
    ensures pool[i].low <= pool[i].high <= highest
  {
    IsFree(pool, i, pool[i].high);
    assert Free(pool, pool[i].high);
  }

  lemma OnlyGreatest(pool: Pool, highest: nat, modulus: Option<nat>)
    requires Canonical(pool) && pool != [] && pool[0].low == pool[0].high
    requires Within(pool, highest) && modulus == Some(pool[0].low + 1) && highest < modulus.value
    ensures OnlyGreatestFree(pool, modulus)
  {
    if |pool| > 1 {
      InRange(pool, 1, highest);
    }
    assert pool == [pool[0]];
  }

  /** Taking the first value of the first interval. */
  lemma TakeFirst(pool: Pool)
    requires Canonical(pool) && pool != []
    ensures var first := pool[0];
            var after := if first.low < first.high then pool[0 := Interval(first.low + 1, first.high)] else pool[1..];
            Canonical(after) && Lost(pool, after, first.low)
  {
    hide Free;
    hide Canonical;
    var first, rest := pool[0], pool[1..];
    assert pool == [] + [first] + rest && pool == [first] + rest;
    CanonicalConcat([first], rest);
    CanonicalOne(first);
    NoneFree(0);
    if first.low < first.high {
      ShortenFirst(first, rest);
      assert pool[0 := Interval(first.low + 1, first.high)] == [Interval(first.low + 1, first.high)] + rest;
    } else {
      Splice([], [first], [], rest);
      assert rest == [] + [] + rest;
      forall w: nat ensures Free(rest, w) <==> Free(pool, w) && w != first.low {
        FreeOne(first, w);
        NoneFree(w);
      }
    }
  }

  lemma ShortenFirst(first: Interval, rest: Pool)
    requires Canonical([first] + rest) && first.low < first.high
    ensures var after := [Interval(first.low + 1, first.high)] + rest;
            Canonical(after) && Lost([first] + rest, after, first.low)
  {
    hide Free;
    hide Canonical;
    var shorter := Interval(first.low + 1, first.high);
    CanonicalConcat([first], rest);
    CanonicalOne(first);
    CanonicalOne(shorter);
    NoneFree(0);
    assert [] + [first] + rest == [first] + rest && [] + [shorter] + rest == [shorter] + rest;
    Splice([], [first], [shorter], rest);
    forall w: nat ensures Free([shorter] + rest, w) <==> Free([first] + rest, w) && w != first.low {
      FreeOne(first, w);
      FreeOne(shorter, w);
      if Holds(first, w) {
        IsFree([first] + rest, 0, w);
      }
    }
  }

  /** An interval that has another one before it does not start at 0. */
  lemma AboveZero(pool: Pool)
    requires Canonical(pool)
    ensures |pool| > 1 ==> pool[|pool| - 1].low > 0
  {
    var n := |pool| - 1;
    assert n > 0 ==> pool[n - 1].high + 1 < pool[n].low;
  }

  lemma GrowRight(pool: Pool, i: nat, v: nat)
    requires Canonical(pool) && i < |pool| && pool[i].high + 1 == v
    requires i + 1 < |pool| ==> v + 1 < pool[i + 1].low
    ensures Canonical(pool[i := Interval(pool[i].low, v)]) && Gained(pool, pool[i := Interval(pool[i].low, v)], v)
    ensures !Free(pool, v)
  {
    hide Free;
    hide Canonical;
    Cut(pool, i);
    var a, b, grown := pool[..i], pool[i + 1..], Interval(pool[i].low, v);
    CanonicalConcat(a + [pool[i]], b);
    CanonicalConcat(a, [pool[i]]);
    CanonicalOne(pool[i]);
    CanonicalOne(grown);
    Splice(a, [pool[i]], [grown], b);
    assert pool[i := grown] == a + [grown] + b;
    forall w: nat ensures Free(pool[i := grown], w) <==> Free(pool, w) || w == v {
      FreeOne(pool[i], w);
      FreeOne(grown, w);
      if Holds(pool[i], w) {
        IsFree(pool, i, w);
      }
    }
    NotFreeBetween(pool, i + 1, v);
  }

  lemma GrowLeft(pool: Pool, i: nat, v: nat)
    requires Canonical(pool) && i < |pool| && v + 1 == pool[i].low
    requires i > 0 ==> pool[i - 1].high + 1 < v
    ensures Canonical(pool[i := Interval(v, pool[i].high)]) && Gained(pool, pool[i := Interval(v, pool[i].high)], v)
    ensures !Free(pool, v)
  {
    hide Free;
    hide Canonical;
    Cut(pool, i);
    var a, b, grown := pool[..i], pool[i + 1..], Interval(v, pool[i].high);
    CanonicalConcat(a + [pool[i]], b);
    CanonicalConcat(a, [pool[i]]);
    CanonicalOne(pool[i]);
    CanonicalOne(grown);
    Splice(a, [pool[i]], [grown], b);
    assert pool[i := grown] == a + [grown] + b;
    forall w: nat ensures Free(pool[i := grown], w) <==> Free(pool, w) || w == v {
      FreeOne(pool[i], w);
      FreeOne(grown, w);
      if Holds(pool[i], w) {
        IsFree(pool, i, w);
      }
    }
    NotFreeBetween(pool, i, v);
  }

  lemma NotFreeBetween(pool: Pool, r: nat, v: nat)
    requires Canonical(pool) && r <= |pool|
    requires (r > 0 ==> pool[r - 1].high < v) && (r < |pool| ==> v < pool[r].low)
    ensures !Free(pool, v)
  {
    forall i | 0 <= i < |pool| ensures !Holds(pool[i], v) {
      if i < r - 1 {
        Sorted(pool, i, r - 1);
      } else if i > r {
        Sorted(pool, r, i);
      }
    }
  }

  lemma Bridge(pool: Pool, r: nat, v: nat)
    requires Canonical(pool) && 0 < r < |pool| && pool[r - 1].high + 1 == v && v + 1 == pool[r].low
    ensures var after := (pool[..r] + pool[r + 1..])[r - 1 := Interval(pool[r - 1].low, pool[r].high)];
            Canonical(after) && Gained(pool, after, v)
    ensures !Free(pool, v)
  {
    hide Free;
    hide Canonical;
    var l, h := pool[r - 1], pool[r];
    var a, b, one := pool[..r - 1], pool[r + 1..], Interval(l.low, h.high);
    assert pool == a + [l, h] + b;
    CanonicalConcat(a + [l, h], b);
    CanonicalConcat(a, [l, h]);
    assert [l, h] == [l] + [h];
    CanonicalConcat([l], [h]);
    CanonicalOne(l);
    CanonicalOne(h);
    CanonicalOne(one);
    Splice(a, [l, h], [one], b);
    assert (pool[..r] + pool[r + 1..])[r - 1 := one] == a + [one] + b;
    forall w: nat ensures Free(a + [one] + b, w) <==> Free(pool, w) || w == v {
      assert [l, h] == [l] + [h];
      FreeConcat([l], [h], w);
      FreeOne(l, w);
      FreeOne(h, w);
      FreeOne(one, w);
      if Holds(l, w) {
        IsFree(pool, r - 1, w);
      }
      if Holds(h, w) {
        IsFree(pool, r, w);
      }
    }
    NotFreeBetween(pool, r, v);
  }

  /** A value that touches no interval becomes one of its own, or is part of one already. */
  lemma Alone(pool: Pool, v: nat)
    requires Canonical(pool)
    requires var r := UpperBound(pool, v);
             (r > 0 ==> pool[r - 1].high + 1 != v) && (r < |pool| ==> v + 1 != pool[r].low)
    ensures Canonical(Emplace(pool, Interval(v, v))) && Gained(pool, Emplace(pool, Interval(v, v)), v)
    ensures Free(pool, v) ==> Emplace(pool, Interval(v, v)) == pool
  {
    hide Free;
    hide Canonical;
    var r, one := UpperBound(pool, v), Interval(v, v);
    if r > 0 && v <= pool[r - 1].high {
      IsFree(pool, r - 1, v);
      assert Clash(pool, one);
    } else {
      assert pool == pool[..r] + pool[r..];
      InsertOne(pool[..r], one, pool[r..]);
      NotFreeBetween(pool, r, v);
    }
  }

  lemma InsertOne(a: Pool, one: Interval, b: Pool)
    requires Canonical(a + b) && one.low == one.high && Gap(a, [one]) && Gap([one], b)
    ensures Canonical(Emplace(a + b, one)) && Gained(a + b, Emplace(a + b, one), one.low)
  {
    hide Free;
    hide Canonical;
    CanonicalConcat(a, b);
    EmplaceBetween(a, one, b);
    CanonicalOne(one);
    NoneFree(0);
    assert a + [] + b == a + b;
    Splice(a, [], [one], b);
    forall w: nat ensures Free(a + [one] + b, w) <==> Free(a + b, w) || w == one.low {
      FreeOne(one, w);
      NoneFree(w);
    }
  }

  /** What is left of interval `n` on either side of a value taken from it. */
  function Remainders(iv: Interval, v: nat): Pool
    requires Holds(iv, v)
  {
    (if iv.low < v then [Interval(iv.low, v - 1)] else []) + (if v < iv.high then [Interval(v + 1, iv.high)] else [])
  }

  lemma RemaindersFree(iv: Interval, v: nat, w: nat)
    requires Holds(iv, v)
    ensures Canonical(Remainders(iv, v)) && (Free(Remainders(iv, v), w) <==> Holds(iv, w) && w != v)
  {
    var l: Pool := if iv.low < v then [Interval(iv.low, v - 1)] else [];
    var h: Pool := if v < iv.high then [Interval(v + 1, iv.high)] else [];
    FreeConcat(l, h, w);
    if iv.low < v {
      FreeOne(Interval(iv.low, v - 1), w);
    }
    if v < iv.high {
      FreeOne(Interval(v + 1, iv.high), w);
    }
  }

  /** Putting the remainders back one by one. */
  lemma Carve(pool: Pool, n: nat, v: nat)
    requires Canonical(pool) && n < |pool| && Holds(pool[n], v)
    ensures var iv := pool[n];
            var erased := pool[..n] + pool[n + 1..];
            var left := if iv.low < v then Emplace(erased, Interval(iv.low, v - 1)) else erased;
            var both := if v < iv.high then Emplace(left, Interval(v + 1, iv.high)) else left;
            && left == pool[..n] + (if iv.low < v then [Interval(iv.low, v - 1)] else []) + pool[n + 1..]
            && both == pool[..n] + Remainders(iv, v) + pool[n + 1..]
  {
    hide Free;
    hide Canonical;
    var iv, a, b := pool[n], pool[..n], pool[n + 1..];
    Apart(pool, n);
    var l: Pool := if iv.low < v then [Interval(iv.low, v - 1)] else [];
    if iv.low < v {
      EmplaceBetween(a, Interval(iv.low, v - 1), b);
    } else {
      assert a + l + b == a + b;
    }
    if v < iv.high {
      CarveHigh(a, iv, v, b);
    } else {
      assert Remainders(iv, v) == l;
    }
  }

  /** The parts before and after interval `n`. */
  lemma Apart(pool: Pool, n: nat)
    requires Canonical(pool) && n < |pool|
    ensures var iv, a, b := pool[n], pool[..n], pool[n + 1..];
            Canonical(a + b) && Canonical(a) && Canonical(b) && Gap(a, [iv]) && Gap([iv], b) && iv.low <= iv.high
  {
    var iv, a, b := pool[n], pool[..n], pool[n + 1..];
    Cut(pool, n);
    CanonicalConcat(a + [iv], b);
    CanonicalConcat(a, [iv]);
    CanonicalConcat(a, b);
    if a != [] && b != [] {
      Sorted(pool, n - 1, n + 1);
    }
  }

  lemma CarveHigh(a: Pool, iv: Interval, v: nat, b: Pool)
    requires Canonical(a) && Canonical(b) && Canonical(a + b) && Gap(a, [iv]) && Gap([iv], b) && iv.low <= v < iv.high
    ensures var l: Pool := if iv.low < v then [Interval(iv.low, v - 1)] else [];
            Emplace(a + l + b, Interval(v + 1, iv.high)) == a + Remainders(iv, v) + b
  {
    hide Free;
    hide Canonical;
    hide Emplace;
    var h := Interval(v + 1, iv.high);
    if iv.low < v {
      var l := Interval(iv.low, v - 1);
      CanonicalOne(l);
      CanonicalConcat(a, [l]);
      CanonicalConcat(a + [l], b);
      assert (a + [l])[|a|] == l;
      EmplaceBetween(a + [l], h, b);
      assert Remainders(iv, v) == [l] + [h];
      assert a + [l] + [h] + b == a + ([l] + [h]) + b;
    } else {
      assert a + [] == a;
      EmplaceBetween(a, h, b);
      assert Remainders(iv, v) == [h];
    }
  }

  lemma CarveLoses(pool: Pool, n: nat, v: nat)
    requires Canonical(pool) && n < |pool| && Holds(pool[n], v)
    ensures var both := pool[..n] + Remainders(pool[n], v) + pool[n + 1..]; Canonical(both) && Lost(pool, both, v)
  {
    hide Free;
    hide Canonical;
    var iv, a, b := pool[n], pool[..n], pool[n + 1..];
    Cut(pool, n);
    CanonicalConcat(a + [iv], b);
    CanonicalConcat(a, [iv]);
    RemaindersFree(iv, v, v);
    Apart(pool, n);
    CanonicalConcat(a, b);
    RemaindersGap(a, iv, v, b);
    CanonicalOne(iv);
    Splice(a, [iv], Remainders(iv, v), b);
    forall w: nat ensures Free(a + Remainders(iv, v) + b, w) <==> Free(pool, w) && w != v {
      RemaindersFree(iv, v, w);
      FreeOne(iv, w);
      if Holds(iv, w) {
        IsFree(pool, n, w);
      }
    }
  }

  lemma RemaindersGap(a: Pool, iv: Interval, v: nat, b: Pool)
    requires Holds(iv, v) && Gap(a, [iv]) && Gap([iv], b)
    ensures Gap(a, Remainders(iv, v)) && Gap(Remainders(iv, v), b)
  {
  }

  /** When the successor wraps to 0, what is put back clashes with anything still in the list. */
  lemma WrapClashes(pool: Pool, n: nat, v: nat, highest: nat, modulus: Option<nat>, left: Pool)
    requires Canonical(pool) && n < |pool| && Holds(pool[n], v) && modulus == Some(v + 1) && highest < modulus.value
    requires Within(pool, highest)
    requires left == pool[..n] + (if pool[n].low < v then [Interval(pool[n].low, v - 1)] else []) + pool[n + 1..]
    ensures pool[n].high == v
    ensures if OnlyGreatestFree(pool, modulus) then left == [] else Emplace(left, Interval(0, v)) == left
  {
    InRange(pool, n, highest);
    if pool[n].low == v && |pool| == 1 {
      assert pool == [Interval(v, v)];
    } else {
      var k := if n > 0 then 0 else if pool[n].low < v then n else 1;
      if k < n {
        assert left[0] == pool[0];
        InRange(pool, 0, highest);
      } else if pool[n].low < v {
        assert left[0] == Interval(pool[n].low, v - 1);
      } else {
        assert left[0] == pool[1];
        InRange(pool, 1, highest);
      }
      assert Clash(left, Interval(0, v));
      assert !OnlyGreatestFree(pool, modulus);
    }
  }

  lemma EmplaceFirst(iv: Interval)
    ensures Emplace([], iv) == [iv]
  {
  }

  /** The list `use` ends up with. */
  lemma UseResult(pool: Pool, n: nat, v: nat, highest: nat, modulus: Option<nat>)
    requires Canonical(pool) && n < |pool| && Holds(pool[n], v) && Within(pool, highest)
    requires modulus.Some? ==> highest < modulus.value
    ensures var iv := pool[n];
            var erased := pool[..n] + pool[n + 1..];
            var left := if iv.low < v then Emplace(erased, Interval(iv.low, v - 1)) else erased;
            var next := Successor(v, modulus);
            var both := if next <= iv.high then Emplace(left, Interval(next, iv.high)) else left;
            both == if OnlyGreatestFree(pool, modulus) then [Interval(0, v)]
              else pool[..n] + Remainders(iv, v) + pool[n + 1..]
    ensures OnlyGreatestFree(pool, modulus) ==> modulus == Some(v + 1)
  {
    hide Canonical;
    hide Free;
    hide Within;
    hide Emplace;
    var iv := pool[n];
    InRange(pool, n, highest);
    Carve(pool, n, v);
    var erased := pool[..n] + pool[n + 1..];
    var left := if iv.low < v then Emplace(erased, Interval(iv.low, v - 1)) else erased;
    if modulus == Some(v + 1) {
      WrapClashes(pool, n, v, highest, modulus, left);
      EmplaceFirst(Interval(0, v));
    }
  }

  // ----- two runs in which the successor wraps

  const WORD: nat := 0x1_0000_0000

  lemma OneLeft(pool: Pool, v: nat)
    requires Canonical(pool) && forall w: nat :: Free(pool, w) <==> w == v
    ensures pool == [Interval(v, v)]
  {
    var one := [Interval(v, v)];
    hide Free;
    forall w: nat ensures Free(one, w) <==> w == v {
      FreeOne(Interval(v, v), w);
    }
    PoolUnique(pool, one);
  }

  lemma AllLeft(pool: Pool, low: nat, high: nat)
    requires low <= high && Canonical(pool) && forall w: nat :: Free(pool, w) <==> low <= w <= high
    ensures pool == [Interval(low, high)]
  {
    var all := [Interval(low, high)];
    hide Free;
    forall w: nat ensures Free(all, w) <==> low <= w <= high {
      FreeOne(Interval(low, high), w);
    }
    PoolUnique(pool, all);
  }

  /** 32-bit values, two of them to give out: the third one given out is 0, which is not in the range. */
  method GreatestTaken() returns (first: Option<nat>, second: Option<nat>, third: Option<nat>)
    ensures first == Some(WORD - 2) && second == Some(WORD - 1) && third == Some(0)
  {
    hide Free;
    hide Canonical;
    var a := new ValueAllocator(WORD - 2, WORD - 1, Some(WORD));
    assert Free(a.pool, WORD - 2) && Free(a.pool, WORD - 1);
    AllLeft(a.pool, WORD - 2, WORD - 1);
    first := a.Allocate();
    assert forall w: nat :: Free(a.pool, w) <==> w == WORD - 1;
    OneLeft(a.pool, WORD - 1);
    second := a.Allocate();
    assert second == Some(WORD - 1);
    WholeWord(a.pool);
    third := a.Allocate();
  }

  lemma WholeWord(pool: Pool)
    requires pool == [Interval(0, WORD - 1)]
    ensures Canonical(pool) && Within(pool, WORD - 1) && Free(pool, 0) && forall w: nat :: Free(pool, w) <==> w < WORD
  {
    forall w: nat ensures Free(pool, w) <==> w < WORD {
      FreeOne(Interval(0, WORD - 1), w);
    }
  }

  /** 32-bit values from 0, none of them taken: freeing 0 leaves 1 in use. */
  method ZeroFreed() returns (before: bool, after: bool)
    ensures !before && after
  {
    hide Free;
    hide Canonical;
    var a := new ValueAllocator(0, WORD - 1, Some(WORD));
    AllLeft(a.pool, 0, WORD - 1);
    before := a.IsUsed(1);
    a.Deallocate(0);
    ZeroOnly(a.pool);
    after := a.IsUsed(1);
  }

  lemma ZeroOnly(pool: Pool)
    requires pool == [Interval(0, 0)]
    ensures Canonical(pool) && Within(pool, WORD - 1) && !Free(pool, 1)
  {
    forall w: nat ensures Free(pool, w) <==> w == 0 {
      FreeOne(Interval(0, 0), w);
    }
  }
}
