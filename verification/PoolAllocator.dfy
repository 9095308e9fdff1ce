/** The slot allocator behind the list nodes. */
module PoolAllocators {

  /** The address of slot index in block block. */
  datatype Slot = Slot(block: nat, index: nat)

  function Max(a: nat, b: nat): (m: nat)
    ensures m >= a && m >= b && (m == a || m == b)
  {
    if a >= b then a else b
  }

  function Pow2(k: nat): nat {
    if k == 0 then 1 else 2 * Pow2(k - 1)
  }

  function Total(blocks: seq<nat>): nat {
    if blocks == [] then 0 else Total(blocks[..|blocks| - 1]) + blocks[|blocks| - 1]
  }

  /** The slots of one block, in address order. */
  function BlockSlots(block: nat, size: nat): (s: seq<Slot>)
    ensures |s| == size && forall i :: 0 <= i < size ==> s[i] == Slot(block, i)
  {
    seq(size, i requires 0 <= i < size => Slot(block, i))
  }

  predicate Exists(s: Slot, blocks: seq<nat>) {
    s.block < |blocks| && s.index < blocks[s.block]
  }

  predicate Distinct(s: seq<Slot>) {
    forall i, j :: 0 <= i < j < |s| ==> s[i] != s[j]
  }

  /** Every slot ever created is free or live, and not both; no free one is listed twice. */
  ghost predicate Partition(blocks: seq<nat>, free: seq<Slot>, live: set<Slot>) {
    && Distinct(free)
    && (forall s :: s in free ==> s !in live)
    && (forall s :: Exists(s, blocks) <==> s in free || s in live)
  }

  /** After |blocks| expansions the pool has doubled each time, at least. */
  ghost predicate Grown(initial: nat, blocks: seq<nat>, poolSize: nat) {
    && poolSize >= initial * Pow2(|blocks|)
    && Total(blocks) >= initial * (Pow2(|blocks|) - 1)
  }

  lemma GrowOnce(initial: nat, blocks: seq<nat>, poolSize: nat, n: nat)
    requires Grown(initial, blocks, poolSize)
    ensures Grown(initial, blocks + [Max(poolSize, n)], Max(poolSize, n) * 2)
  {
  }

  lemma PartitionGrows(blocks: seq<nat>, free: seq<Slot>, live: set<Slot>, size: nat)
    requires Partition(blocks, free, live)
    ensures Partition(blocks + [size], free + BlockSlots(|blocks|, size), live)
  {
    var blocks', free' := blocks + [size], free + BlockSlots(|blocks|, size);
    forall s ensures Exists(s, blocks') <==> s in free' || s in live {
      if s.block == |blocks| && s.index < size {
        assert BlockSlots(|blocks|, size)[s.index] == s;
        assert free'[|free| + s.index] == s;
      }
      if s in BlockSlots(|blocks|, size) {
        var i :| 0 <= i < size && BlockSlots(|blocks|, size)[i] == s;
      }
    }
    forall i, j | 0 <= i < j < |free'| ensures free'[i] != free'[j] {
      if i < |free| { assert Exists(free[i], blocks); }
    }
    forall s | s in free' ensures s !in live {
    }
  }

  lemma PartitionTakes(blocks: seq<nat>, free: seq<Slot>, live: set<Slot>)
    requires Partition(blocks, free, live) && free != []
    ensures Partition(blocks, free[..|free| - 1], live + {free[|free| - 1]})
  {
  }

  lemma PartitionReturns(blocks: seq<nat>, free: seq<Slot>, live: set<Slot>, s: Slot)
    requires Partition(blocks, free, live) && s in live
    ensures Partition(blocks, free + [s], live - {s})
  {
  }

  function Row(block: nat, size: nat): (row: set<Slot>)
    ensures forall s :: s in row <==> s.block == block && s.index < size
    ensures |row| == size
  {
    if size == 0 then {} else Row(block, size - 1) + {Slot(block, size - 1)}
  }

  function AllSlots(blocks: seq<nat>): (slots: set<Slot>)
    ensures forall s :: s in slots <==> Exists(s, blocks)
    ensures |slots| == Total(blocks)
  {
    if blocks == [] then {}
    else
      var n := |blocks| - 1;
      var older, row := AllSlots(blocks[..n]), Row(n, blocks[n]);
      assert older !! row && |older + row| == |older| + |row|;
      older + row
  }

  lemma {:induction false} DistinctCount(s: seq<Slot>)
    requires Distinct(s)
    ensures |set x | x in s| == |s|
  {
    if s != [] {
      var n := |s| - 1;
      DistinctCount(s[..n]);
      assert s == s[..n] + [s[n]];
      assert (set x | x in s) == (set x | x in s[..n]) + {s[n]};
    } else {
      assert (set x | x in s) == {};
    }
  }

  /** No slot is lost or made up: the free and the live ones are all there are. */
  lemma SlotsConserved(blocks: seq<nat>, free: seq<Slot>, live: set<Slot>)
    requires Partition(blocks, free, live)
    ensures |free| + |live| == Total(blocks)
  {
    var freeSet := set x | x in free;
    DistinctCount(free);
    assert freeSet !! live;
    assert AllSlots(blocks) == freeSet + live;
  }

  class PoolAllocator {
    var poolSize: nat
    var poolBlocks: seq<nat>    // the size of each block
    var freeList: seq<Slot>
    ghost const Initial: nat
    ghost var Live: set<Slot>   // handed out and not yet returned

    ghost predicate Valid()
      reads this
    {
      && poolBlocks != []
      && Partition(poolBlocks, freeList, Live)
      && Grown(Initial, poolBlocks, poolSize)
    }

    constructor (initialSize: nat)
      ensures Valid() && Initial == initialSize && Live == {}
      ensures poolBlocks == [initialSize] && freeList == BlockSlots(0, initialSize)
    {
      poolSize := initialSize;
      poolBlocks, freeList := [], [];
      Initial, Live := initialSize, {};
      new;
      assert Pow2(0) == 1;
      ExpandPool(initialSize);
      assert [] + BlockSlots(0, initialSize) == BlockSlots(0, initialSize);
    }

    method ExpandPool(n: nat)
      requires Partition(poolBlocks, freeList, Live) && Grown(Initial, poolBlocks, poolSize)
      modifies this`poolSize, this`poolBlocks, this`freeList
      ensures Valid()
      ensures var size := Max(old(poolSize), n);
              && poolBlocks == old(poolBlocks) + [size]
              && freeList == old(freeList) + BlockSlots(|old(poolBlocks)|, size)
              && poolSize == size * 2
    {
      hide Partition;
      hide Grown;
      var newPoolSize := Max(poolSize, n);
      PartitionGrows(poolBlocks, freeList, Live, newPoolSize);
      GrowOnce(Initial, poolBlocks, poolSize, n);
      ghost var block := |poolBlocks|;
      poolBlocks := poolBlocks + [newPoolSize];
      var i := 0;
      while i < newPoolSize
        invariant 0 <= i <= newPoolSize
        invariant poolBlocks == old(poolBlocks) + [newPoolSize]
        invariant freeList == old(freeList) + BlockSlots(block, newPoolSize)[..i]
      {
        freeList := freeList + [Slot(|poolBlocks| - 1, i)];
        i := i + 1;
      }
      assert BlockSlots(block, newPoolSize)[..i] == BlockSlots(block, newPoolSize);
      poolSize := newPoolSize * 2;
    }

    /** However often the pool has grown, at least this many slots have been created, and
        none of them lost: the blocks alone say so, so k blocks hold initial * (2^k - 1). */
    lemma DoublesEachTime()
      requires Valid()
      ensures |freeList| + |Live| == Total(poolBlocks)
      ensures |freeList| + |Live| >= Initial * (Pow2(|poolBlocks|) - 1)
    {
      SlotsConserved(poolBlocks, freeList, Live);
    }

    /** One slot, whatever n is; n only decides whether to grow first. */
    method Allocate(n: nat) returns (result: Slot)
      requires Valid() && (n > 0 || freeList != [])
      modifies this
      ensures Valid()
      ensures result !in old(Live) && Exists(result, poolBlocks) && Live == old(Live) + {result}
      ensures |old(freeList)| >= n ==>
        poolBlocks == old(poolBlocks) && poolSize == old(poolSize) && freeList + [result] == old(freeList)
      ensures |old(freeList)| < n ==>
        var size := Max(old(poolSize), n);
        && poolBlocks == old(poolBlocks) + [size] && poolSize == size * 2
        && freeList + [result] == old(freeList) + BlockSlots(|old(poolBlocks)|, size)
    {
      hide Grown;
      hide Distinct;
      if |freeList| < n {
        ExpandPool(n);
      }
      PartitionTakes(poolBlocks, freeList, Live);
      result := freeList[|freeList| - 1];
      assert freeList == freeList[..|freeList| - 1] + [result];
      freeList := freeList[..|freeList| - 1];
      Live := Live + {result};
    }

    method Deallocate(slot: Slot)
      requires Valid() && slot in Live
      modifies this`freeList, this`Live
      ensures Valid()
      ensures Live == old(Live) - {slot} && freeList == old(freeList) + [slot]
    {
      PartitionReturns(poolBlocks, freeList, Live, slot);
      freeList := freeList + [slot];
      Live := Live - {slot};
    }
  }
}
