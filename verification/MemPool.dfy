/** The pool allocator: blocks of items, threaded by a free list through the items that are not in use. */
module MemPools {
  import opened Seqs

  /** Memory for one object; `next` has a meaning only while the item is free. */
  class Item {
    var next: Item?

    constructor ()
      ensures next == null
    {
      next := null;
    }
  }

  function Flatten<T>(blocks: seq<seq<T>>): (r: seq<T>) {
    if blocks == [] then [] else Flatten(blocks[..|blocks| - 1]) + blocks[|blocks| - 1]
  }

  lemma {:induction false} SizeOfFlatten<T>(blocks: seq<seq<T>>, per: nat)
    requires forall b | 0 <= b < |blocks| :: |blocks[b]| == per
    ensures |Flatten(blocks)| == |blocks| * per
  {
    if blocks != [] {
      var n := |blocks| - 1;
      SizeOfFlatten(blocks[..n], per);
      assert n * per + per == (n + 1) * per;
    }
  }

  /** Every item of `all` is either in the free list, once, or live. */
  predicate Splits<T(==)>(all: seq<T>, free: seq<T>, live: set<T>) {
    && NoRepeats(all) && NoRepeats(free)
    && (forall x | x in free :: x in all && x !in live)
    && (forall x | x in live :: x in all)
    && (forall x | x in all :: x in free || x in live)
  }

  lemma SplitsAll<T>(all: seq<T>, free: seq<T>, live: set<T>)
    requires Splits(all, free, live)
    ensures forall x | x in all :: x in free || x in live
  {
  }

  lemma SplitsTake<T>(all: seq<T>, free: seq<T>, live: set<T>)
    requires Splits(all, free, live) && free != []
    ensures Splits(all, free[1..], live + {free[0]}) && free[0] in free && free[0] !in live
  {
    assert free == [free[0]] + free[1..];
    assert forall x | x in free[1..] :: x in free;
    assert free[0] !in free[1..];
  }

  lemma SplitsGive<T>(all: seq<T>, free: seq<T>, live: set<T>, x: T)
    requires Splits(all, free, live) && x in live
    ensures Splits(all, [x] + free, live - {x}) && x !in free
  {
    assert forall y | y in [x] + free :: y == x || y in free;
    assert forall y | y in free :: y in [x] + free;
    assert ([x] + free)[0] == x && x in [x] + free;
  }

  lemma SplitsGrow<T>(all: seq<T>, live: set<T>, block: seq<T>)
    requires Splits(all, [], live) && NoRepeats(block) && forall i | 0 <= i < |block| :: block[i] !in all
    ensures Splits(all + block, block, live)
  {
    var r := all + block;
    assert forall x | x in all :: x in r;
    assert forall x | x in block :: x in r;
    assert forall x | x in r :: x in all || x in block;
  }

  lemma SizeOfSplit<T>(all: seq<T>, free: seq<T>, live: set<T>)
    requires Splits(all, free, live)
    ensures |all| == |free| + |live|
  {
    SizeOfElements(all);
    SizeOfElements(free);
    assert Elements(all) == Elements(free) + live && Elements(free) !! live;
  }

  class MemPool {
    const itemsPerBlock: nat
    var blockPtrs: seq<seq<Item>>
    var root: Item?
    var currentAllocs: int
    var nAllocs: int
    var maxAllocs: int
    var nUntracked: int

    ghost var free: seq<Item>
    ghost var live: set<Item>

    ghost function FreeAt(i: nat): Item?
      reads this`free
    {
      if i < |free| then free[i] else null
    }

    /** The links from `root` on are the free list and come to an end. */
    ghost predicate Threaded()
      reads this`root, this`free, free
    {
      root == FreeAt(0) && forall i | 0 <= i < |free| :: free[i].next == FreeAt(i + 1)
    }

    ghost predicate Valid()
      reads this, free
    {
      && itemsPerBlock > 0
      && Threaded() && Splits(Flatten(blockPtrs), free, live)
      && (forall b | 0 <= b < |blockPtrs| :: |blockPtrs[b]| == itemsPerBlock)
      && currentAllocs == |live| && currentAllocs <= maxAllocs && currentAllocs <= nAllocs
    }

    constructor (itemSize: nat)
      requires 0 < itemSize <= 4 * 1024
      ensures Valid() && itemsPerBlock == 4 * 1024 / itemSize && live == {} && blockPtrs == []
      ensures nAllocs == 0 && nUntracked == 0
    {
      itemsPerBlock := 4 * 1024 / itemSize;
      blockPtrs, root, currentAllocs, nAllocs, maxAllocs, nUntracked := [], null, 0, 0, 0, 0;
      free, live := [], {};
    }

    /** Blocks times items per block is what is live plus what is free. */
    lemma Capacity()
      requires Valid()
      ensures |blockPtrs| * itemsPerBlock == |live| + |free|
    {
      SizeOfFlatten(blockPtrs, itemsPerBlock);
      SizeOfSplit(Flatten(blockPtrs), free, live);
    }

    /** A new block, its items linked one to the next. */
    method NewBlock() returns (block: seq<Item>)
      requires itemsPerBlock > 0
      ensures |block| == itemsPerBlock && NoRepeats(block)
      ensures forall i | 0 <= i < |block| :: fresh(block[i])
      ensures forall i | 0 <= i < |block| - 1 :: block[i].next == block[i + 1]
      ensures block[|block| - 1].next == null
    {
      block := [];
      while |block| < itemsPerBlock
        invariant |block| <= itemsPerBlock && NoRepeats(block)
        invariant forall i | 0 <= i < |block| :: fresh(block[i]) && block[i].next == null
      {
        var item := new Item();
        block := block + [item];
      }
      var i := 0;
      while i < itemsPerBlock - 1
        invariant 0 <= i < itemsPerBlock
        invariant forall j | 0 <= j < i :: block[j].next == block[j + 1]
        invariant forall j | i <= j < |block| :: block[j].next == null
      {
        block[i].next := block[i + 1];
        i := i + 1;
      }
    }

    /** With no free item left, the items of a new block become the free list. */
    method Refill()
      requires Valid() && root == null
      modifies this`blockPtrs, this`root, this`free
      ensures Valid() && root != null && free != [] && fresh(free[0])
      ensures |blockPtrs| == |old(blockPtrs)| + 1
    {
      hide Splits, Flatten, NoRepeats;
      assert free == [];
      ghost var all := Flatten(blockPtrs);
      SplitsAll(all, free, live);
      var block := NewBlock();
      SplitsGrow(all, live, block);
      FlattenSnoc(blockPtrs, block);
      blockPtrs := blockPtrs + [block];
      root := block[0];
      free := block;
      assert Splits(Flatten(blockPtrs), free, live);
    }

    static lemma FlattenSnoc<T>(blocks: seq<seq<T>>, block: seq<T>)
      ensures Flatten(blocks + [block]) == Flatten(blocks) + block
    {
      assert (blocks + [block])[..|blocks|] == blocks;
    }

    /** An item that is not live: the head of the free list, or of a new block when that is empty. */
    method Alloc() returns (result: Item)
      requires Valid()
      modifies this
      ensures Valid() && result !in old(live) && live == old(live) + {result}
      ensures old(free) != [] ==> result == old(free)[0] && free == old(free)[1..] && blockPtrs == old(blockPtrs)
      ensures old(free) == [] ==> fresh(result) && |blockPtrs| == |old(blockPtrs)| + 1
      ensures currentAllocs == old(currentAllocs) + 1 && nAllocs == old(nAllocs) + 1
      ensures nUntracked == old(nUntracked) + 1
      ensures maxAllocs == if currentAllocs > old(maxAllocs) then currentAllocs else old(maxAllocs)
    {
      hide Splits, Flatten, NoRepeats, Threaded;
      HeadIsFree();
      if root == null {
        Refill();
      }
      result := TakeHead();
      CountOne();
    }

    lemma HeadIsFree()
      requires Threaded()
      ensures root == if free == [] then null else free[0]
    {
    }

    method CountOne()
      modifies this`currentAllocs, this`maxAllocs, this`nAllocs, this`nUntracked
      ensures currentAllocs == old(currentAllocs) + 1 && nAllocs == old(nAllocs) + 1
      ensures nUntracked == old(nUntracked) + 1
      ensures maxAllocs == if currentAllocs > old(maxAllocs) then currentAllocs else old(maxAllocs)
    {
      currentAllocs := currentAllocs + 1;
      if currentAllocs > maxAllocs {
        maxAllocs := currentAllocs;
      }
      nAllocs := nAllocs + 1;
      nUntracked := nUntracked + 1;
    }

    /** The head leaves the free list. */
    method TakeHead() returns (result: Item)
      requires Valid() && root != null
      modifies this`root, this`free, this`live
      ensures Threaded() && Splits(Flatten(blockPtrs), free, live)
      ensures result == old(free)[0] && free == old(free)[1..] && result !in old(live) && live == old(live) + {result}
      ensures |live| == |old(live)| + 1
    {
      hide Splits, Flatten, NoRepeats;
      SplitsTake(Flatten(blockPtrs), free, live);
      result := root;
      root := root.next;
      free := free[1..];
      live := live + {result};
    }

    /** The item becomes the head of the free list, whatever its memory holds. */
    method Free(mem: Item?)
      requires Valid() && (mem != null ==> mem in live)
      modifies this, live
      ensures Valid() && blockPtrs == old(blockPtrs) && nAllocs == old(nAllocs) && nUntracked == old(nUntracked)
      ensures mem == null ==> live == old(live) && free == old(free)
      ensures mem != null ==> live == old(live) - {mem} && free == [mem] + old(free)
      ensures currentAllocs == old(currentAllocs) - if mem == null then 0 else 1
    {
      hide Splits, Flatten, NoRepeats;
      if mem == null {
        return;
      }
      var item: Item := mem;
      SplitsGive(Flatten(blockPtrs), free, live, item);
      currentAllocs := currentAllocs - 1;
      item.next := root;
      root := item;
      free := [item] + free;
      live := live - {item};
    }

    method SetTracked()
      modifies this`nUntracked
      ensures nUntracked == old(nUntracked) - 1
    {
      nUntracked := nUntracked - 1;
    }

    /** All blocks are given back, the last one first. */
    method Clear()
      requires Valid()
      modifies this
      ensures Valid() && live == {} && free == [] && blockPtrs == []
      ensures currentAllocs == 0 && nAllocs == 0 && maxAllocs == 0 && nUntracked == 0
    {
      while blockPtrs != []
        invariant itemsPerBlock > 0
      {
        blockPtrs := blockPtrs[..|blockPtrs| - 1];
      }
      root := null;
      currentAllocs, nAllocs, maxAllocs, nUntracked := 0, 0, 0, 0;
      free, live := [], {};
    }
  }
}
