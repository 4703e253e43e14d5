/** `Freelist`: an intrusive list of free blocks, threaded through the arena itself. */
module Freelists {
  import opened Bits
  import opened Memory
  import opened Pools

  class Freelist {
    const mem: array<Byte>
    const stride: nat
    const blockCount: nat
    var head: nat
    var memoryBase: nat
    var memoryEnd: nat

    constructor (mem: array<Byte>, stride: nat, blockCount: nat)
      ensures this.mem == mem && this.stride == stride && this.blockCount == blockCount
      ensures head == 0 && memoryBase == 0 && memoryEnd == 0
    {
      this.mem, this.stride, this.blockCount := mem, stride, blockCount;
      head, memoryBase, memoryEnd := 0, 0, 0;
    }

    function Shape(): Pool
      reads this
    {
      Pool(memoryBase, stride, blockCount)
    }

    predicate Placed()
      reads this
    {
      Shape().Fits(mem.Length) && memoryEnd == Shape().End()
    }

    /** One round of `Initialize`: header and link of block `i`. */
    method InitializeBlock(memory: nat, i: nat, proxyIndex: nat)
      requires Pool(memory, stride, blockCount).Fits(mem.Length)
      requires i < blockCount
      modifies mem
      ensures var p := Pool(memory, stride, blockCount);
              mem[..] == LinkOne(HeadOne(old(mem[..]), p, proxyIndex, i), p, i)
    {
      ghost var p := Pool(memory, stride, blockCount);
      var block := memory + i * stride;
      BlockFormula(p, i);
      BlockBounds(p, i);
      StoreHeader(mem, block, proxyIndex);
      if i + 1 < blockCount {
        var next := memory + (i + 1) * stride;
        BlockFormula(p, i + 1);
        StoreLink(mem, block, next);
      } else {
        StoreLink(mem, block, 0);
      }
    }

    method SetBounds(memory: nat)
      modifies this
      ensures memoryBase == memory && head == memory
      ensures memoryEnd == Pool(memory, stride, blockCount).End()
    {
      BlockFormula(Pool(memory, stride, blockCount), blockCount);
      memoryBase := memory;
      memoryEnd := memory + blockCount * stride;
      head := memory;
    }

    method InitializeBlocks(memory: nat, proxyIndex: nat)
      requires Pool(memory, stride, blockCount).Fits(mem.Length)
      modifies mem
      ensures mem[..] == InitBlocks(old(mem[..]), Pool(memory, stride, blockCount), proxyIndex, blockCount)
    {
      ghost var p, before := Pool(memory, stride, blockCount), mem[..];
      var i := 0;
      while i < blockCount
        invariant i <= blockCount && mem[..] == InitBlocks(before, p, proxyIndex, i)
      {
        InitializeBlock(memory, i, proxyIndex);
        i := i + 1;
      }
    }

    method Initialize(memory: nat, proxyIndex: nat)
      requires Pool(memory, stride, blockCount).Fits(mem.Length)
      requires memory % 8 == 0 && proxyIndex < U16
      modifies this, mem
      ensures Placed() && memoryBase == memory && head == memory
      ensures mem[..] == InitBlocks(old(mem[..]), Pool(memory, stride, blockCount), proxyIndex, blockCount)
    {
      SetBounds(memory);
      InitializeBlocks(memory, proxyIndex);
    }

    /** Takes the first free block, or returns null. */
    method Fetch() returns (block: nat)
      requires head == 0 || head + LINK_BYTES <= mem.Length
      modifies this`head
      ensures block == old(head)
      ensures head == if block == 0 then 0 else ReadLink(mem[..], block)
    {
      if head == 0 {
        return 0;
      }
      block := head;
      head := LoadLink(mem, head);
    }

    method Release(block: nat)
      requires block != 0 && memoryBase <= block < memoryEnd
      requires block + LINK_BYTES <= mem.Length
      modifies this`head, mem
      ensures head == block
      ensures mem[..] == WriteLink(old(mem[..]), block, old(head))
    {
      StoreLink(mem, block, head);
      head := block;
    }

    method Reset()
      requires Placed()
      modifies this`head, mem
      ensures head == memoryBase
      ensures mem[..] == ResetLinks(old(mem[..]), Shape(), blockCount)
    {
      ghost var p := Shape();
      head := memoryBase;
      var current := head;
      var ptr := memoryBase + stride;
      var i := 1;
      BlockBounds(p, 0);
      while i < blockCount
        invariant 1 <= i <= blockCount
        invariant current == p.Block(i - 1) && ptr == p.Block(i - 1) + stride
        invariant head == memoryBase
        invariant mem[..] == ResetLinks(old(mem[..]), p, i - 1)
      {
        BlockBounds(p, i - 1);
        BlockBounds(p, i);
        StoredLink(mem[..], current, ptr);
        StoreLink(mem, current, ptr);
        current := LoadLink(mem, current);
        i, ptr := i + 1, ptr + stride;
      }
      BlockBounds(p, i - 1);
      StoreLink(mem, current, 0);
    }
  }
}
