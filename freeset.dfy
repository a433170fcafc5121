/** Bookkeeping state of Shenandoah's free set
    (src/share/vm/gc_implementation/shenandoah/shenandoahFreeSet.hpp): two
    free-region bitmaps over `max` regions, one for mutator allocation and
    one for collector allocation, a [leftmost, rightmost] window per bitmap
    outside of which no region is free, and the capacity and used counters. */
module FreeSet {

  /** Number of set bits in a bitmap (BitMap::count_one_bits). */
  function CountOnes(bits: seq<bool>): (n: nat)
    ensures n <= |bits|
  {
    if bits == [] then 0
    else (if bits[0] then 1 else 0) + CountOnes(bits[1..])
  }

  /** The number of regions in the index window [lo, hi]; 0 when it is empty. */
  function WindowSize(lo: int, hi: int): nat
  {
    if hi < lo then 0 else hi - lo + 1
  }

  /** A bitmap has no set bit outside [lo, hi]. */
  predicate WithinWindow(bits: seq<bool>, lo: int, hi: int)
  {
    forall i | 0 <= i < |bits| && bits[i] :: lo <= i <= hi
  }

  /** A bitmap counts no more set bits than its window holds regions; in
      particular an empty window means no set bit at all. */
  lemma {:induction false} CountOnesWithinWindow(bits: seq<bool>, lo: int, hi: int)
    requires WithinWindow(bits, lo, hi)
    ensures CountOnes(bits) <= WindowSize(lo, hi)
  {
    if bits != [] {
      var tail := bits[1..];
      if bits[0] {
        assert lo <= 0 <= hi;
        assert WithinWindow(tail, 0, hi - 1) by {
          forall j | 0 <= j < |tail| && tail[j] ensures 0 <= j <= hi - 1 {
            assert bits[j + 1];
          }
        }
        CountOnesWithinWindow(tail, 0, hi - 1);
      } else {
        assert WithinWindow(tail, lo - 1, hi - 1) by {
          forall j | 0 <= j < |tail| && tail[j] ensures lo - 1 <= j <= hi - 1 {
            assert bits[j + 1];
          }
        }
        CountOnesWithinWindow(tail, lo - 1, hi - 1);
      }
    }
  }

  /** A bitmap counts zero set bits exactly when no bit is set. */
  lemma {:induction false} CountOnesZero(bits: seq<bool>)
    ensures CountOnes(bits) == 0 <==> forall i | 0 <= i < |bits| :: !bits[i]
  {
    if bits != [] {
      CountOnesZero(bits[1..]);
      assert forall i | 1 <= i < |bits| :: bits[i] == bits[1..][i - 1];
    }
  }

  class ShenandoahFreeSet {
    /** Number of heap regions the bitmaps cover (`_max`). */
    const max: nat
    /** `_mutator_free_bitmap` and `_collector_free_bitmap`. */
    const mutatorFree: array<bool>
    const collectorFree: array<bool>

    var mutatorLeftmost: nat
    var mutatorRightmost: nat
    var collectorLeftmost: nat
    var collectorRightmost: nat

    var capacity: nat
    var used: nat

    /** The object invariant: both bitmaps cover `max` regions, no free
        region lies outside its bitmap's [leftmost, rightmost] window, and
        no more is used than there is capacity. */
    ghost predicate Valid()
      reads this, mutatorFree, collectorFree
    {
      mutatorFree.Length == max && collectorFree.Length == max &&
      mutatorFree != collectorFree &&
      WithinWindow(mutatorFree[..], mutatorLeftmost, mutatorRightmost) &&
      WithinWindow(collectorFree[..], collectorLeftmost, collectorRightmost) &&
      used <= capacity
    }

    /** Both bitmaps are clear, nothing is counted, and both windows are the
        empty window [max, 0]. */
    ghost predicate Empty()
      reads this, mutatorFree, collectorFree
    {
      (forall i | 0 <= i < mutatorFree.Length :: !mutatorFree[i]) &&
      (forall i | 0 <= i < collectorFree.Length :: !collectorFree[i]) &&
      mutatorLeftmost == max && mutatorRightmost == 0 &&
      collectorLeftmost == max && collectorRightmost == 0 &&
      capacity == 0 && used == 0
    }

    /** A free set over `maxRegions` regions, with nothing free yet. */
    constructor (maxRegions: nat)
      ensures Valid() && Empty()
      ensures max == maxRegions
      ensures fresh(mutatorFree) && fresh(collectorFree)
    {
      max := maxRegions;
      mutatorFree := new bool[maxRegions](_ => false);
      collectorFree := new bool[maxRegions](_ => false);
      mutatorLeftmost, mutatorRightmost := maxRegions, 0;
      collectorLeftmost, collectorRightmost := maxRegions, 0;
      capacity, used := 0, 0;
    }

    /** `clear_internal`: forget every free region and both counters. */
    method ClearInternal()
      requires Valid()
      modifies this, mutatorFree, collectorFree
      ensures Valid() && Empty()
    {
      forall i | 0 <= i < mutatorFree.Length {
        mutatorFree[i] := false;
      }
      forall i | 0 <= i < collectorFree.Length {
        collectorFree[i] := false;
      }
      mutatorLeftmost, mutatorRightmost := max, 0;
      collectorLeftmost, collectorRightmost := max, 0;
      capacity, used := 0, 0;
    }

    /** `clear`: the public entry point to clear_internal. */
    method Clear()
      requires Valid()
      modifies this, mutatorFree, collectorFree
      ensures Valid() && Empty()
    {
      ClearInternal();
    }

    /** `increase_used`: account `amount` more as used. */
    method IncreaseUsed(amount: nat)
      requires Valid()
      requires used + amount <= capacity
      modifies this
      ensures Valid()
      ensures used == old(used) + amount
      ensures capacity == old(capacity)
      ensures mutatorLeftmost == old(mutatorLeftmost) && mutatorRightmost == old(mutatorRightmost)
      ensures collectorLeftmost == old(collectorLeftmost) && collectorRightmost == old(collectorRightmost)
    {
      used := used + amount;
    }

    /** `is_mutator_free`: region `idx` is free for the mutator, which puts
        it inside the mutator window. */
    method IsMutatorFree(idx: nat) returns (r: bool)
      requires Valid()
      requires idx < max
      ensures r == mutatorFree[idx]
      ensures r ==> mutatorLeftmost <= idx <= mutatorRightmost
    {
      r := mutatorFree[idx];
      assert mutatorFree[..][idx] == r;
    }

    /** `is_collector_free`: region `idx` is free for the collector, which
        puts it inside the collector window. */
    method IsCollectorFree(idx: nat) returns (r: bool)
      requires Valid()
      requires idx < max
      ensures r == collectorFree[idx]
      ensures r ==> collectorLeftmost <= idx <= collectorRightmost
    {
      r := collectorFree[idx];
      assert collectorFree[..][idx] == r;
    }

    /** `touches_bounds`: region `num` sits on one of the four window ends. */
    method TouchesBounds(num: nat) returns (r: bool)
      ensures r <==> num in {mutatorLeftmost, mutatorRightmost, collectorLeftmost, collectorRightmost}
    {
      r := num == collectorLeftmost || num == collectorRightmost ||
           num == mutatorLeftmost || num == mutatorRightmost;
    }

    /** `mutator_count`: the number of mutator-free regions, which never
        exceeds the size of the mutator window. */
    method MutatorCount() returns (n: nat)
      requires Valid()
      ensures n == CountOnes(mutatorFree[..])
      ensures n <= WindowSize(mutatorLeftmost, mutatorRightmost)
      ensures n == 0 <==> forall i | 0 <= i < max :: !mutatorFree[i]
    {
      n := CountOnes(mutatorFree[..]);
      CountOnesWithinWindow(mutatorFree[..], mutatorLeftmost, mutatorRightmost);
      CountOnesZero(mutatorFree[..]);
    }

    /** `collector_count`: the number of collector-free regions, which never
        exceeds the size of the collector window. */
    method CollectorCount() returns (n: nat)
      requires Valid()
      ensures n == CountOnes(collectorFree[..])
      ensures n <= WindowSize(collectorLeftmost, collectorRightmost)
      ensures n == 0 <==> forall i | 0 <= i < max :: !collectorFree[i]
    {
      n := CountOnes(collectorFree[..]);
      CountOnesWithinWindow(collectorFree[..], collectorLeftmost, collectorRightmost);
      CountOnesZero(collectorFree[..]);
    }

    /** `capacity()`. */
    method Capacity() returns (c: nat)
      ensures c == capacity
    {
      c := capacity;
    }

    /** `used()`. */
    method Used() returns (u: nat)
      ensures u == used
    {
      u := used;
    }

    /** `available()`: what is left of the capacity, so that available and
        used together make up the capacity. */
    method Available() returns (a: nat)
      requires used <= capacity
      ensures a + used == capacity
    {
      a := capacity - used;
    }
  }
}
