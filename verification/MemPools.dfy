/**
  Pools of equally large items.  The free items of a pool form a list through their own memory;
  `free` and `live` are what that list and the callers' use of the items mean.
*/
module MemPools {
  import opened Wrappers

  /** The address of an item: its block and its index there. */
  datatype Item = Item(block: nat, index: nat)

  /** What the link before position `i` of a list holds. */
  ghost function At(items: seq<Item>, i: nat): Option<Item> {
    if i < |items| then Some(items[i]) else None
  }

  /** The list through the memory of the items. */
  ghost predicate Chained(next: map<Item, Option<Item>>, items: seq<Item>) {
    && (forall i :: 0 <= i < |items| ==> items[i] in next && next[items[i]] == At(items, i + 1))
    && (forall i, j :: 0 <= i < j < |items| ==> items[i] != items[j])
  }

  /** The list starts at `root` and holds items of the pool's blocks that are not in use. */
  ghost predicate Shape(next: map<Item, Option<Item>>, blocks: nat, root: Option<Item>, free: seq<Item>,
                        live: set<Item>) {
    && Chained(next, free)
    && root == At(free, 0)
    && (forall item :: item in free ==> item.block < blocks && item !in live)
    && (forall item :: item in live ==> item.block < blocks)
  }

  lemma Taken(next: map<Item, Option<Item>>, blocks: nat, root: Option<Item>, free: seq<Item>, live: set<Item>)
    requires Shape(next, blocks, root, free, live) && root.Some?
    ensures free != [] && root.value == free[0] && root.value in next && root.value !in live
    ensures Shape(next, blocks, next[root.value], free[1..], live + {root.value})
  {
  }

  lemma EmptyList(next: map<Item, Option<Item>>, blocks: nat, root: Option<Item>, free: seq<Item>, live: set<Item>)
    requires Shape(next, blocks, root, free, live)
    ensures root == None <==> free == []
  {
  }

  lemma Returned(next: map<Item, Option<Item>>, blocks: nat, root: Option<Item>, free: seq<Item>, live: set<Item>,
                 item: Item)
    requires Shape(next, blocks, root, free, live) && item in live
    ensures Shape(next[item := root], blocks, Some(item), [item] + free, live - {item})
  {
  }

  ghost function BlockItems(block: nat, n: nat): (items: seq<Item>)
    ensures |items| == n && forall k :: 0 <= k < n ==> items[k] == Item(block, k)
    ensures forall item :: item in items ==> item.block == block
  {
    seq(n, k requires 0 <= k < n => Item(block, k))
  }

  lemma BlockChained(next: map<Item, Option<Item>>, block: nat, n: nat)
    requires n > 0
    requires forall k :: 0 <= k < n - 1 ==> Item(block, k) in next && next[Item(block, k)] == Some(Item(block, k + 1))
    requires Item(block, n - 1) in next && next[Item(block, n - 1)] == None
    ensures Chained(next, BlockItems(block, n))
  {
  }

  lemma Refilled(before: map<Item, Option<Item>>, next: map<Item, Option<Item>>, blocks: nat, n: nat,
                 root: Option<Item>, free: seq<Item>, live: set<Item>)
    requires n > 0 && Chained(next, BlockItems(blocks, n)) && Shape(before, blocks, root, free, live)
    ensures Shape(next, blocks + 1, Some(Item(blocks, 0)), BlockItems(blocks, n), live)
  {
  }

  class MemPool {
    const itemsPerBlock: nat
    var blocks: nat
    var next: map<Item, Option<Item>>
    var root: Option<Item>
    var currentAllocs: int
    var nAllocs: int
    var maxAllocs: int
    var untracked: int
    ghost var free: seq<Item>
    ghost var live: set<Item>

    ghost predicate Valid()
      reads `blocks, `next, `root, `currentAllocs, `nAllocs, `maxAllocs, `free, `live
    {
      && itemsPerBlock > 0
      && Shape(next, blocks, root, free, live)
      && currentAllocs == |live| <= maxAllocs <= nAllocs
    }

    constructor (itemsPerBlock: nat)
      requires itemsPerBlock > 0
      ensures Valid() && live == {} && untracked == 0
    {
      this.itemsPerBlock := itemsPerBlock;
      blocks, next, root := 0, map[], None;
      currentAllocs, nAllocs, maxAllocs, untracked := 0, 0, 0, 0;
      free, live := [], {};
    }

    /** The items of a new block, linked in order. */
    method NewBlock()
      requires Valid() && root == None
      modifies this`blocks, this`next, this`root, this`free
      ensures Valid() && blocks == old(blocks) + 1 && free == BlockItems(old(blocks), itemsPerBlock)
      ensures root == Some(Item(old(blocks), 0))
    {
      hide Shape, Chained;
      var memory := next;
      for i := 0 to itemsPerBlock - 1
        invariant forall k :: 0 <= k < i ==>
                    Item(blocks, k) in memory && memory[Item(blocks, k)] == Some(Item(blocks, k + 1))
        modifies {}
      {
        memory := memory[Item(blocks, i) := Some(Item(blocks, i + 1))];
      }
      memory := memory[Item(blocks, itemsPerBlock - 1) := None];
      BlockChained(memory, blocks, itemsPerBlock);
      Refilled(next, memory, blocks, itemsPerBlock, root, free, live);
      next := memory;
      root := Some(Item(blocks, 0));
      free := BlockItems(blocks, itemsPerBlock);
      blocks := blocks + 1;
    }

    ghost predicate CountedOneMore(current: int, all: int, most: int)
      reads `currentAllocs, `nAllocs, `maxAllocs
    {
      && currentAllocs == current + 1 && nAllocs == all + 1
      && maxAllocs == if current + 1 > most then current + 1 else most
    }

    /** Never gives out an item that is in use; a new block is made exactly when the list is empty. */
    method Alloc() returns (result: Item)
      requires Valid()
      modifies this
      ensures Valid() && result !in old(live) && live == old(live) + {result}
      ensures untracked == old(untracked) + 1
      ensures CountedOneMore(old(currentAllocs), old(nAllocs), old(maxAllocs))
      ensures blocks == if old(free) == [] then old(blocks) + 1 else old(blocks)
      ensures [result] + free == if old(free) == [] then BlockItems(old(blocks), itemsPerBlock) else old(free)
    {
      hide Shape;
      EmptyList(next, blocks, root, free, live);
      if root == None {
        NewBlock();
      }
      result := Take();
    }

    method Take() returns (result: Item)
      requires Valid() && root.Some?
      modifies this
      ensures Valid() && result !in old(live) && live == old(live) + {result}
      ensures untracked == old(untracked) + 1 && blocks == old(blocks)
      ensures CountedOneMore(old(currentAllocs), old(nAllocs), old(maxAllocs))
      ensures [result] + free == old(free)
    {
      hide Shape, At;
      Taken(next, blocks, root, free, live);
      result := root.value;
      root := next[root.value];
      currentAllocs := currentAllocs + 1;
      if currentAllocs > maxAllocs {
        maxAllocs := currentAllocs;
      }
      nAllocs := nAllocs + 1;
      untracked := untracked + 1;
      live := live + {result};
      free := free[1..];
    }

    method Free(mem: Item)
      requires Valid() && mem in live
      modifies this
      ensures Valid() && live == old(live) - {mem} && free == [mem] + old(free)
      ensures untracked == old(untracked) && blocks == old(blocks)
      ensures currentAllocs == old(currentAllocs) - 1 && nAllocs == old(nAllocs) && maxAllocs == old(maxAllocs)
    {
      hide Shape;
      Returned(next, blocks, root, free, live, mem);
      currentAllocs := currentAllocs - 1;
      next := next[mem := root];
      root := Some(mem);
      live := live - {mem};
      free := [mem] + free;
    }

    method SetTracked()
      modifies this`untracked
      ensures untracked == old(untracked) - 1
    {
      untracked := untracked - 1;
    }
  }
}
