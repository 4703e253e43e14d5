/** `AllocatorCore`: lookup, fallback, free and reset over the freelists of all pools,
    in place on one array of bytes. */
module Allocators {
  import opened Bits
  import opened Memory
  import opened Pools
  import opened Freelists
  import opened Heaps
  import opened HeapRuns
  import opened Lookup

  datatype Outcome = Served(block: nat) | NoMatch | Exhausted

  ghost function HeadsOf(fs: seq<Freelist>): (heads: seq<nat>)
    reads fs
    ensures |heads| == |fs| && forall k | 0 <= k < |fs| :: heads[k] == fs[k].head
  {
    if fs == [] then [] else HeadsOf(fs[..|fs| - 1]) + [fs[|fs| - 1].head]
  }

  class AllocatorCore {
    const mem: array<Byte>
    const ranges: seq<Range>
    const proxies: seq<Freelist>
    ghost const layout: seq<Pool>
    ghost var free: seq<seq<nat>>

    constructor (mem: array<Byte>, ranges: seq<Range>, proxies: seq<Freelist>, ghost layout: seq<Pool>, ghost free: seq<seq<nat>>)
      ensures this.mem == mem && this.ranges == ranges && this.proxies == proxies
      ensures this.layout == layout && this.free == free
    {
      this.mem, this.ranges, this.proxies := mem, ranges, proxies;
      this.layout, this.free := layout, free;
    }

    ghost function View(): Heap
      reads this, mem, proxies
    {
      Heap(mem[..], HeadsOf(proxies))
    }

    /** Every proxy leads to its own freelist, placed where the layout says. */
    ghost predicate Wired()
      reads this, proxies
    {
      && |proxies| == |layout|
      && (forall j, k | 0 <= j < k < |proxies| :: proxies[j] != proxies[k])
      && forall k | 0 <= k < |proxies| :: proxies[k].mem == mem && proxies[k].Placed() && proxies[k].Shape() == layout[k]
    }

    ghost predicate Valid()
      reads this, mem, proxies
    {
      Wired() && HeapInv(layout, View(), free) && StepsFit(ranges)
    }

    method FetchFrom(i: nat) returns (block: nat)
      requires Wired() && i < |proxies| && HeadsReadable(View())
      modifies proxies
      ensures Wired() && mem[..] == old(mem[..])
      ensures block == old(View()).heads[i]
      ensures block == 0 ==> View() == old(View())
      ensures block != 0 ==>
                && block + LINK_BYTES <= mem.Length
                && View().heads == old(View()).heads[i := ReadLink(mem[..], block)]
    {
      assert View().heads[i] == proxies[i].head;
      block := proxies[i].Fetch();
    }

    /** The fallback loop: steps through larger strides until a freelist has a block. */
    method TakeBlock(first: nat) returns (block: nat)
      requires Wired() && first < |proxies| && HeadsReadable(View())
      modifies proxies
      ensures Wired() && mem[..] == old(mem[..])
      ensures HeadsReadable(old(View()))
      ensures View() == Take(old(View()), first).0 && block == Take(old(View()), first).1
    {
      ghost var h := View();
      var proxyIndex := first;
      block := FetchFrom(proxyIndex);
      while block == 0
        invariant first <= proxyIndex < |proxies| && Wired() && mem[..] == h.mem
        invariant block == 0 ==> View() == h && FirstAvailable(h.heads, first) == FirstAvailable(h.heads, proxyIndex + 1)
        invariant block != 0 ==> View() == Take(h, first).0 && block == Take(h, first).1
        decreases |proxies| - proxyIndex
      {
        proxyIndex := proxyIndex + 1;
        if proxyIndex >= |proxies| {
          return 0;
        }
        block := FetchFrom(proxyIndex);
      }
    }

    /** `alloc`. `NoMatch` and `Exhausted` are the two fatal exits of the code. */
    method Alloc(size: nat, alignment: nat) returns (r: Outcome)
      requires Valid() && size > 0 && alignment < U32
      modifies this`free, proxies
      ensures Valid() && mem[..] == old(mem[..])
      ensures var k := Scan(ranges, AlignedSize(size, alignment));
              if k >= |proxies| then r == NoMatch && View() == old(View()) && free == old(free)
              else
                && HeadsReadable(old(View()))
                && View() == Take(old(View()), k).0
                && r == (if Take(old(View()), k).1 == 0 then Exhausted else Served(Take(old(View()), k).1))
                && free == Popped(old(free), FirstAvailable(old(View()).heads, k))
    {
      var proxyIndex := LookupIndex(ranges, size, alignment);
      if proxyIndex >= |proxies| {
        return NoMatch;
      }
      var block := Serve(proxyIndex);
      r := if block == 0 then Exhausted else Served(block);
    }

    method Serve(first: nat) returns (block: nat)
      requires Valid() && first < |proxies|
      modifies this`free, proxies
      ensures Valid() && mem[..] == old(mem[..])
      ensures HeadsReadable(old(View()))
      ensures View() == Take(old(View()), first).0 && block == Take(old(View()), first).1
      ensures free == Popped(old(free), FirstAvailable(old(View()).heads, first))
    {
      TakeKeepsHeap(layout, View(), free, first);
      ghost var j := FirstAvailable(View().heads, first);
      block := TakeBlock(first);
      free := Popped(free, j);
    }

    method ReleaseTo(k: nat, block: nat)
      requires Wired() && k < |proxies| && layout[k].Fits(mem.Length) && layout[k].IsBlock(block)
      requires block != 0 && Returnable(View(), block) && ReadHeader(mem[..], block) == k
      modifies mem, proxies
      ensures Wired() && Returnable(old(View()), block) && View() == GiveBack(old(View()), block)
    {
      assert View().heads[k] == proxies[k].head && proxies[k].Shape() == layout[k];
      proxies[k].Release(block);
      assert View().heads == old(View()).heads[k := block];
    }

    /** `free`: the header in front of the block names its freelist. `k` is the pool the
        caller knows the block to be from; the code does not use it. */
    method Free(block: nat, ghost k: nat)
      requires Valid() && (block != 0 ==> Live(layout, free, k, block))
      modifies this`free, mem, proxies
      ensures Valid() && Returnable(old(View()), block)
      ensures View() == GiveBack(old(View()), block)
      ensures free == if block == 0 then old(free) else old(free)[k := [block] + old(free)[k]]
    {
      if block == 0 {
        return;
      }
      GiveBackRefines(layout, View(), free, k, block);
      GiveHome(block, k);
      free := free[k := [block] + free[k]];
    }

    method GiveHome(block: nat, ghost k: nat)
      requires Valid() && Live(layout, free, k, block)
      modifies mem, proxies
      ensures Wired() && Returnable(old(View()), block) && View() == GiveBack(old(View()), block)
    {
      HeaderLeadsHome(layout, View(), free, k, block);
      var proxyIndex := LoadHeader(mem, block);
      ReleaseTo(proxyIndex, block);
    }

    method ResetFreelist(i: nat)
      requires Wired() && i < |proxies|
      modifies mem, proxies
      ensures Wired() && layout[i].Fits(mem.Length)
      ensures View() == ResetOne(layout, old(View()), i)
    {
      assert proxies[i].Shape() == layout[i];
      proxies[i].Reset();
      assert View().heads == old(View()).heads[i := layout[i].base];
    }

    method ResetFreelists()
      requires Wired() && forall k | 0 <= k < |layout| :: layout[k].Fits(mem.Length)
      modifies mem, proxies
      ensures Wired() && |old(View()).mem| == mem.Length
      ensures View() == ResetAll(layout, old(View()), |layout|)
    {
      ghost var h := View();
      ghost var g := h;
      var i := 0;
      while i < |proxies|
        invariant i <= |proxies| && Wired() && View() == g
        invariant g == ResetAll(layout, h, i)
      {
        ResetFreelist(i);
        i, g := i + 1, ResetOne(layout, g, i);
      }
    }

    /** `reset`: every freelist in turn, whatever blocks are in use. */
    method Reset()
      requires Valid()
      modifies this`free, mem, proxies
      ensures Valid() && free == AllFree(layout)
      ensures |old(View()).heads| == |layout| && forall k | 0 <= k < |layout| :: layout[k].Fits(|old(View()).mem|)
      ensures View() == ResetAll(layout, old(View()), |layout|)
    {
      ResetRefines(layout, View(), free);
      ResetFreelists();
      free := AllFree(layout);
    }
  }

  /** Sequence `j` without its first element; unchanged when there is none. */
  ghost function Popped(cs: seq<seq<nat>>, j: nat): seq<seq<nat>> {
    if j < |cs| && cs[j] != [] then cs[j := cs[j][1..]] else cs
  }

  lemma {:induction false} TakeKeepsHeap(L: seq<Pool>, h: Heap, cs: seq<seq<nat>>, k: nat)
    requires HeapInv(L, h, cs) && k <= |L|
    ensures HeadsReadable(h) && HeapInv(L, Take(h, k).0, Popped(cs, FirstAvailable(h.heads, k)))
    ensures Take(h, k).0.mem == h.mem
  {
    TakeRefines(L, h, cs, k);
  }
}
