/**
  The block of memory of a coroutine: the regions `_mco_create_context` cuts it into, and the byte
  stack kept in one of them.  `header` and `context` are the sizes of `mco_coro` and of the saved
  context; a `size_t` has 64 bits.
*/
module CoroutineLayout {
  const WORD: nat := 0x1_0000_0000_0000_0000
  const MIN_STACK_SIZE: nat := 32768
  const DEFAULT_STACK_SIZE: nat := 57344

  function Wrap(n: nat): nat {
    n % WORD
  }

  /** `_mco_align_forward(addr, 16)`. */
  function AlignForward(addr: nat): nat {
    var a := Wrap(addr + 15);
    a - a % 16
  }

  /** The mask of the source clears what the remainder takes away, from `addr + 15` as from any `a`. */
  lemma MaskClearsRemainder(a: bv64)
    ensures a & !(16 - 1) == a - a % 16
  {
    assert a % 16 == a & 15;
  }

  /** The next multiple of 16, without any width. */
  function Rounded(n: nat): (r: nat)
    ensures n <= r < n + 16 && r % 16 == 0
  {
    (n + 15) / 16 * 16
  }

  lemma AlignRounds(addr: nat)
    requires Rounded(addr) < WORD
    ensures AlignForward(addr) == Rounded(addr)
  {
    assert Rounded(addr) + 16 <= WORD;
    WrapSmall(addr + 15);
  }

  lemma WrapSmall(n: nat)
    requires n < WORD
    ensures Wrap(n) == n
  {
  }

  datatype Desc = Desc(storageSize: nat, coroSize: nat, stackSize: nat)

  /** `mco_desc_init`; `storage` is `MCO_DEFAULT_STORAGE_SIZE`, which is 1024 unless it is set when
      the library is compiled. */
  function DescInit(header: nat, context: nat, storage: nat, stackSize: nat): Desc {
    var s := if stackSize == 0 then DEFAULT_STACK_SIZE
             else if stackSize < MIN_STACK_SIZE then MIN_STACK_SIZE else stackSize;
    var stack := AlignForward(s);
    Desc(storage,
         Wrap(AlignForward(header) + AlignForward(context) + AlignForward(storage) + stack + 16),
         stack)
  }

  datatype Layout = Layout(context: nat, storage: nat, stack: nat)

  /** The addresses of `_mco_create_context`. */
  function CreateContext(base: nat, header: nat, context: nat, desc: Desc): Layout {
    var contextAddr := AlignForward(Wrap(base + header));
    var storageAddr := AlignForward(Wrap(contextAddr + context));
    Layout(contextAddr, storageAddr, AlignForward(Wrap(storageAddr + desc.storageSize)))
  }

  /** The regions follow one another inside the block that starts at `base`. */
  predicate Fits(base: nat, header: nat, context: nat, desc: Desc, l: Layout) {
    && base + header <= l.context
    && l.context + context <= l.storage
    && l.storage + desc.storageSize <= l.stack
    && l.stack + desc.stackSize <= base + desc.coroSize
  }

  /** The sizes add up within the address space, and so does the block at `base`. */
  predicate Addressable(base: nat, header: nat, context: nat, storage: nat, stackSize: nat) {
    base + Rounded(header) + Rounded(context) + Rounded(storage)
      + (if stackSize < DEFAULT_STACK_SIZE then DEFAULT_STACK_SIZE else Rounded(stackSize)) + 16 < WORD
  }

  lemma DescSizes(base: nat, header: nat, context: nat, storage: nat, stackSize: nat)
    requires Addressable(base, header, context, storage, stackSize)
    ensures var d := DescInit(header, context, storage, stackSize);
            && d.coroSize == Rounded(header) + Rounded(context) + Rounded(storage) + d.stackSize + 16
            && d.stackSize % 16 == 0 && d.stackSize >= MIN_STACK_SIZE && d.stackSize >= stackSize
            && base + d.coroSize < WORD
  {
    hide Wrap, Rounded, AlignForward;
    AlignRounds(header);
    AlignRounds(context);
    AlignRounds(storage);
    AlignedAlready(DEFAULT_STACK_SIZE);
    AlignedAlready(MIN_STACK_SIZE);
    if stackSize >= MIN_STACK_SIZE {
      AlignRounds(stackSize);
    }
    WrapSmall(Rounded(header) + Rounded(context) + Rounded(storage)
              + DescInit(header, context, storage, stackSize).stackSize + 16);
  }

  lemma AlignedAlready(n: nat)
    requires n % 16 == 0 && n + 15 < WORD
    ensures AlignForward(n) == n
  {
  }

  /** At any address, aligned or not, header, context, storage and stack are disjoint regions of the
      block, and all but the header are aligned. */
  lemma RegionsFit(base: nat, header: nat, context: nat, storage: nat, stackSize: nat)
    requires Addressable(base, header, context, storage, stackSize)
    ensures var d := DescInit(header, context, storage, stackSize);
            var l := CreateContext(base, header, context, d);
            && Fits(base, header, context, d, l)
            && l.context % 16 == 0 && l.storage % 16 == 0 && l.stack % 16 == 0
  {
    hide Wrap, Rounded, AlignForward, DescInit;
    DescSizes(base, header, context, storage, stackSize);
    StorageIsDefault(header, context, storage, stackSize);
    SlackSuffices(base, header, context);
    var c := Rounded(base + header);
    var s := Rounded(c + context);
    RoundedAfter(s, storage);
    WrapSmall(base + header);
    AlignRounds(base + header);
    WrapSmall(c + context);
    AlignRounds(c + context);
    WrapSmall(s + storage);
    AlignRounds(s + storage);
  }

  lemma StorageIsDefault(header: nat, context: nat, storage: nat, stackSize: nat)
    ensures DescInit(header, context, storage, stackSize).storageSize == storage
  {
  }

  /** The 16 bytes of slack make up for a base that is not aligned. */
  lemma SlackSuffices(base: nat, header: nat, context: nat)
    ensures Rounded(Rounded(base + header) + context) <= base + Rounded(header) + Rounded(context) + 15
  {
    RoundedAfter(Rounded(base + header), context);
  }

  lemma RoundedAfter(aligned: nat, n: nat)
    requires aligned % 16 == 0
    ensures Rounded(aligned + n) == aligned + Rounded(n)
  {
  }

  /** What aligning the context costs more at `base` than at an aligned address; it may gain. */
  function Loss(base: nat, header: nat): int {
    Rounded(base + header) - (base + Rounded(header))
  }

  lemma LossIsSmall(base: nat, header: nat)
    ensures -16 < Loss(base, header) < 16 && (base % 16 == 0 ==> Loss(base, header) == 0)
  {
    if base % 16 == 0 {
      RoundedAfter(base, header);
    }
  }

  /** The storage size may be set after `mco_desc_init`, but the block is not made larger for it: the
      regions fit exactly when rounding up the new size gains at most the 16 bytes of slack less what
      aligning the context costs at that address. */
  lemma OtherStorageFits(base: nat, header: nat, context: nat, storage: nat, stackSize: nat, storageSize: nat)
    requires Addressable(base, header, context, storage, stackSize)
    requires Rounded(base + header) + Rounded(context) + Rounded(storageSize) < WORD
    ensures var d := DescInit(header, context, storage, stackSize).(storageSize := storageSize);
            Fits(base, header, context, d, CreateContext(base, header, context, d))
            <==> Rounded(storageSize) <= Rounded(storage) + 16 - Loss(base, header)
  {
    hide Wrap, Rounded, AlignForward, DescInit;
    DescSizes(base, header, context, storage, stackSize);
    var c := Rounded(base + header);
    var s := c + Rounded(context);
    WrapSmall(base + header);
    AlignRounds(base + header);
    RoundedAfter(c, context);
    WrapSmall(c + context);
    AlignRounds(c + context);
    RoundedAfter(s, storageSize);
    WrapSmall(s + storageSize);
    AlignRounds(s + storageSize);
  }
}

module CoroutineStorage {
  import opened CoroutineLayout

  datatype Code = Success | InvalidPointer | NotEnoughSpace

  // ----- the byte stack -----

  function Pushes(stack: seq<bv8>, blocks: seq<seq<bv8>>): seq<bv8>
    decreases |blocks|
  {
    if blocks == [] then stack else Pushes(stack + blocks[0], blocks[1..])
  }

  /** The blocks popped, in the order of `lens`, and what is left; none when one pop is refused. */
  function Pops(stack: seq<bv8>, lens: seq<nat>): (r: (seq<seq<bv8>>, seq<bv8>))
    decreases |lens|
  {
    if lens == [] || lens[0] > |stack| then ([], stack)
    else
      var n := |stack| - lens[0];
      var rest := Pops(stack[..n], lens[1..]);
      ([stack[n..]] + rest.0, rest.1)
  }

  function Reversed<T>(s: seq<T>): seq<T> {
    if s == [] then [] else Reversed(s[1..]) + [s[0]]
  }

  function Lengths(blocks: seq<seq<bv8>>): seq<nat> {
    seq(|blocks|, i requires 0 <= i < |blocks| => |blocks[i]|)
  }

  /** Blocks of any sizes come back whole in the opposite order, and leave what was there before. */
  lemma {:induction false} PushedComesBack(stack: seq<bv8>, blocks: seq<seq<bv8>>)
    ensures Pops(Pushes(stack, blocks), Lengths(Reversed(blocks))) == (Reversed(blocks), stack)
    decreases |blocks|
  {
    if blocks != [] {
      var rest := Reversed(blocks[1..]);
      PushedComesBack(stack + blocks[0], blocks[1..]);
      PopsOneMore(Pushes(stack, blocks), Lengths(rest), |blocks[0]|);
      assert Lengths(rest + [blocks[0]]) == Lengths(rest) + [|blocks[0]|];
      assert (stack + blocks[0])[|stack|..] == blocks[0];
      assert (stack + blocks[0])[..|stack|] == stack;
    }
  }

  lemma {:induction false} PopsOneMore(stack: seq<bv8>, lens: seq<nat>, len: nat)
    requires var r := Pops(stack, lens); |r.0| == |lens| && len <= |r.1|
    ensures var r := Pops(stack, lens);
            var n := |r.1| - len;
            Pops(stack, lens + [len]) == (r.0 + [r.1[n..]], r.1[..n])
    decreases |lens|
  {
    if lens == [] {
      assert lens + [len] == [len] && [len][1..] == [];
      var n := |stack| - len;
      var one: seq<nat> := [len];
      assert Pops(stack, one) == ([stack[n..]] + Pops(stack[..n], one[1..]).0, Pops(stack[..n], one[1..]).1);
      assert [stack[n..]] + [] == [] + [stack[n..]];
    } else {
      var n := |stack| - lens[0];
      assert (lens + [len])[1..] == lens[1..] + [len];
      PopsOneMore(stack[..n], lens[1..], len);
      var r := Pops(stack[..n], lens[1..]);
      assert [stack[n..]] + (r.0 + [r.1[|r.1| - len..]]) == ([stack[n..]] + r.0) + [r.1[|r.1| - len..]];
    }
  }

  /** The sum of the source may wrap around: its test is the right one exactly when it does not. */
  lemma WrappedTest(stored: nat, len: nat, size: nat)
    requires stored <= size < WORD && len < WORD
    ensures Wrap(stored + len) <= size <==> stored + len <= size || stored + len >= WORD
  {
  }

  class Storage {
    const storage: array<bv8>
    var bytesStored: nat

    ghost predicate Valid()
      reads this
    {
      bytesStored <= storage.Length < WORD
    }

    ghost function Contents(): seq<bv8>
      reads this, storage
      requires Valid()
    {
      storage[..bytesStored]
    }

    constructor (size: nat)
      requires size < WORD
      ensures Valid() && storage.Length == size && Contents() == [] && fresh(storage)
    {
      storage := new bv8[size];
      bytesStored := 0;
    }

    /** `mco_push`.  The source and the storage are different arrays of one address space. */
    method Push(src: array?<bv8>, len: nat) returns (code: Code)
      requires Valid() && len < WORD
      requires src != null ==> len <= src.Length && src != storage && src.Length + storage.Length < WORD
      modifies this, storage
      ensures Valid()
      ensures src != null ==> code == if old(bytesStored) + len <= storage.Length then Success else NotEnoughSpace
      ensures src == null ==> code == if len == 0 then Success
                                      else if storage.Length < old(bytesStored) + len < WORD then NotEnoughSpace
                                      else InvalidPointer
      ensures Contents() == if code == Success && len > 0 then old(Contents()) + src[..len] else old(Contents())
    {
      if len > 0 {
        WrappedTest(bytesStored, len, storage.Length);
        var total := Wrap(bytesStored + len);
        if total > storage.Length {
          return NotEnoughSpace;
        }
        if src == null {
          return InvalidPointer;
        }
        forall i | 0 <= i < len {
          storage[bytesStored + i] := src[i];
        }
        bytesStored := total;
      }
      return Success;
    }

    /** `mco_pop`; a null destination discards. */
    method Pop(dest: array?<bv8>, len: nat) returns (code: Code)
      requires Valid() && (dest != null ==> len <= dest.Length && dest != storage)
      modifies this, dest
      ensures Valid() && code == if len <= old(bytesStored) then Success else NotEnoughSpace
      ensures code == Success ==>
                var popped := Pops(old(Contents()), [len]);
                && Contents() == popped.1
                && (dest != null ==> dest[..len] == popped.0[0] && dest[len..] == old(dest[len..]))
      ensures code != Success ==> Contents() == old(Contents()) && (dest != null ==> dest[..] == old(dest[..]))
    {
      if len > 0 {
        if len > bytesStored {
          return NotEnoughSpace;
        }
        var left := bytesStored - len;
        if dest != null {
          forall i | 0 <= i < len {
            dest[i] := storage[left + i];
          }
        }
        bytesStored := left;
      }
      return Success;
    }

    /** `mco_peek`: what a pop would give, and nothing is taken. */
    method Peek(dest: array?<bv8>, len: nat) returns (code: Code)
      requires Valid() && (dest != null ==> len <= dest.Length && dest != storage)
      modifies dest
      ensures code == if len > bytesStored then NotEnoughSpace
                      else if dest == null && len > 0 then InvalidPointer else Success
      ensures Contents() == old(Contents())
      ensures dest != null ==> dest[len..] == old(dest[len..])
      ensures dest != null ==>
                dest[..len] == if code == Success then Pops(Contents(), [len]).0[0] else old(dest[..len])
    {
      if len > 0 {
        if len > bytesStored {
          return NotEnoughSpace;
        }
        if dest == null {
          return InvalidPointer;
        }
        forall i | 0 <= i < len {
          dest[i] := storage[bytesStored - len + i];
        }
      }
      return Success;
    }
  }
}
