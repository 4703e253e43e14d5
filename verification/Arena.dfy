/** `MonotonicArena`: a bump allocator whose base is aligned to 4096 bytes. Offsets count
    from that base, so aligning an offset aligns the address. */
module Arena {
  import opened Bits

  datatype Fetch = Fetched(address: nat, offset: nat) | NoFit

  /** `fetch`: room for `shift` bytes in front, then `allocSize` aligned bytes. */
  function FetchAt(size: nat, offset: nat, allocSize: nat, alignment: nat, shift: nat): Fetch
    requires alignment > 0 && offset <= size
  {
    if allocSize == 0 then Fetched(0, offset)
    else
      var address := AlignUp(offset + shift, alignment);
      // std::align sees the shifted pointer but the unshifted space
      if address - (offset + shift) + allocSize > size - offset then NoFit
      else if address + allocSize > size then NoFit
      else Fetched(address, address + allocSize)
  }

  class MonotonicArena {
    const size: nat
    var offset: nat

    constructor (size: nat)
      ensures this.size == size && offset == 0
    {
      this.size := size;
      offset := 0;
    }

    method Fetch(allocSize: nat, alignment: nat, shift: nat) returns (r: Fetch)
      requires alignment > 0 && offset <= size
      modifies this
      ensures offset <= size
      ensures r == FetchAt(size, old(offset), allocSize, alignment, shift)
      ensures offset == if r.Fetched? then r.offset else old(offset)
    {
      if allocSize == 0 {
        return Fetched(0, offset);
      }
      AlignUpSpec(offset + shift, alignment);
      var current := offset;
      var available := size - offset;
      var aligned := AlignUp(current + shift, alignment);
      if aligned - (current + shift) + allocSize > available {
        return NoFit;
      }
      var adjustment := aligned - current;
      var total := adjustment + allocSize;
      if offset + total > size {
        return NoFit;
      }
      offset := offset + total;
      r := Fetched(aligned, offset);
    }
  }

  /** A fetch succeeds exactly when some aligned address leaves room for the shift in front
      and for the request behind, and then it takes the least one. The check on the space
      that alignment sees, which forgets the shift, never decides. */
  lemma {:induction false} FetchIff(size: nat, offset: nat, allocSize: nat, alignment: nat, shift: nat)
    requires alignment > 0 && offset <= size && allocSize > 0
    ensures var r := FetchAt(size, offset, allocSize, alignment, shift);
            && (r.Fetched? <==>
                  exists a: nat :: a % alignment == 0 && offset + shift <= a && a + allocSize <= size)
            && (r.Fetched? ==>
                  && r.address % alignment == 0 && offset + shift <= r.address
                  && r.offset == r.address + allocSize <= size
                  && forall a: nat | a % alignment == 0 && offset + shift <= a :: r.address <= a)
  {
    var address := AlignUp(offset + shift, alignment);
    AlignUpSpec(offset + shift, alignment);
    forall a: nat | a % alignment == 0 && offset + shift <= a
      ensures address <= a
    {
      AlignUpLeast(offset + shift, alignment, a);
    }
    if address + allocSize <= size {
      assert address % alignment == 0 && offset + shift <= address;
    }
  }

  /** Serving pages behind a 2-byte shift wastes at most one page, because offsets stay
      multiples of 8. */
  lemma {:induction false} PageCost(size: nat, offset: nat, allocSize: nat)
    requires offset % 8 == 0 && 0 < allocSize && allocSize % 8 == 0
    requires offset + 4096 + allocSize <= size
    ensures var r := FetchAt(size, offset, allocSize, 4096, 2);
            && r.Fetched? && r.address % 4096 == 0 && r.address % 8 == 0 && r.address > 0
            && offset + 2 <= r.address <= offset + 4096
            && r.offset == r.address + allocSize && r.offset % 8 == 0
  {
    AlignUpSpec(offset + 2, 4096);
    var address := AlignUp(offset + 2, 4096);
    ModTrans(address, 8, 4096);
    ModSum(address, offset, 8);
    AtMost(address - offset);
    ModSum(address, allocSize, 8);
  }

  lemma {:induction false} AtMost(d: nat)
    requires d % 8 == 0 && d < 4098
    ensures d <= 4096
  {
  }

  /** The exact condition: only an offset one short of a page costs more. */
  lemma {:induction false} PageCostIff(size: nat, offset: nat, allocSize: nat)
    requires 0 < allocSize && offset + 4097 + allocSize <= size
    ensures var r := FetchAt(size, offset, allocSize, 4096, 2);
            && r.Fetched? && r.address % 4096 == 0
            && (r.offset - offset <= 4096 + allocSize <==> offset % 4096 != 4095)
  {
    var address := AlignUp(offset + 2, 4096);
    AlignUpSpec(offset + 2, 4096);
    DivModUnique(offset, 4096, offset / 4096, offset % 4096);
    assert address == 4096 * ((offset + 2 + 4095) / 4096);
  }
}
