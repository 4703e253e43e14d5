/** The deque as an object: the atomic fields `m_top` and `m_bottom`, the ring, and the
    program counters of the parties. `OwnerStep` and `ThiefStep` perform one access in
    place and are proved equal to one turn of the protocol; the remaining methods run
    an operation to its end while everybody else stands still. */
module ChaseLevDeque {
  import opened Bits
  import opened P = ChaseLevProtocol
  import opened ChaseLevRefinement

  /** `std::bit_ceil`. */
  function BitCeil(n: nat): (p: nat)
    ensures IsPow2(p) && n <= p
    ensures forall k: nat | n <= Pow2(k) :: p <= Pow2(k)
  {
    assert Pow2(0) == 1;
    if n <= 1 then 1
    else
      var h := BitCeil((n + 1) / 2);
      var k: nat :| h == Pow2(k);
      assert 2 * h == Pow2(k + 1);
      assert forall k: nat | n <= Pow2(k) :: 2 * h <= Pow2(k) by {
        forall k: nat | n <= Pow2(k) ensures 2 * h <= Pow2(k) {
          assert k > 0 && (n + 1) / 2 <= Pow2(k - 1);
        }
      }
      2 * h
  }

  class ChaseLev<T(0)> {
    var top: nat
    var bottom: nat
    var data: array<T>
    var owner: OwnerPc<T>
    var thieves: map<nat, ThiefPc<T>>

    ghost function View(): State<T>
      reads this, data
    {
      State(top, bottom, data[..], owner, thieves)
    }

    /** The owner is between operations; thieves may be anywhere. */
    ghost predicate OwnerResting()
      reads this, data
    {
      Inv(View()) && owner.OwnerIdle?
    }

    /** Nobody is inside an operation. */
    ghost predicate Quiescent()
      reads this, data
    {
      OwnerResting() && forall id <- thieves :: thieves[id].ThiefIdle?
    }

    ghost function Items(): seq<T>
      reads this, data
      requires Inv(View())
    {
      Contents(View())
    }

    constructor (thieves: map<nat, ThiefPc<T>>)
      requires forall id <- thieves :: thieves[id].ThiefIdle?
      ensures Init(View()) && Quiescent() && Items() == [] && data.Length == 0 && fresh(data)
      ensures this.thieves == thieves
    {
      top, bottom := 0, 0;
      data := new T[0];
      owner := OwnerIdle;
      this.thieves := thieves;
    }

    // -------------------------------------------------------------- single accesses

    method OwnerStep()
      requires Enabled(View(), OwnerAccess)
      modifies this, data
      ensures data == old(data)
      ensures View() == Next(old(View()), OwnerAccess)
    {
      match owner {
        case PushLoadTop(x) =>
          owner := PushLoadBottom(x, top);
        case PushLoadBottom(x, t) =>
          if data.Length == 0 || bottom - t >= data.Length {
            owner := OwnerReturn(Rejected);
          } else {
            owner := PushWrite(x, bottom);
          }
        case PushWrite(x, b) =>
          data[Slot(b, data.Length)] := x;
          owner := PushPublish(x, b);
        case PushPublish(_, b) =>
          bottom := b + 1;
          owner := OwnerReturn(Accepted);
        case PopLoadBottom =>
          owner := if bottom == 0 then OwnerReturn(Nothing) else PopStoreBottom(bottom - 1);
        case PopStoreBottom(b) =>
          bottom := b;
          owner := PopLoadTop(b);
        case PopLoadTop(b) =>
          owner := if top > b then PopRestoreEmpty(b) else if top == b then PopCas(b) else PopRead(b);
        case PopRestoreEmpty(b) =>
          bottom := b + 1;
          owner := OwnerReturn(Nothing);
        case PopCas(b) =>
          var claimed := top == b;
          if claimed { top := b + 1; }
          owner := PopRestore(b, claimed);
        case PopRestore(b, claimed) =>
          bottom := b + 1;
          owner := if claimed then PopRead(b) else OwnerReturn(Nothing);
        case PopRead(b) =>
          owner := OwnerReturn(Took(data[Slot(b, data.Length)]));
      }
    }

    method ThiefStep(id: nat)
      requires Enabled(View(), ThiefAccess(id))
      modifies this
      ensures data == old(data)
      ensures View() == Next(old(View()), ThiefAccess(id))
    {
      var pc := thieves[id];
      match pc {
        case StealLoadTop =>
          pc := StealLoadBottom(top);
        case StealLoadBottom(t) =>
          pc := if t >= bottom then ThiefReturn(Nothing) else StealRead(t);
        case StealRead(t) =>
          pc := StealCas(t, data[Slot(t, data.Length)]);
        case StealCas(t, x) =>
          if top == t {
            top := t + 1;
            pc := ThiefReturn(Took(x));
          } else {
            pc := ThiefReturn(Nothing);
          }
      }
      thieves := thieves[id := pc];
    }

    // -------------------------------------------------------------- whole operations

    /** `push_bottom`, uninterrupted: appends unless the ring is full. */
    method PushBottom(item: T) returns (ok: bool)
      requires OwnerResting()
      modifies this, data
      ensures OwnerResting() && data == old(data) && thieves == old(thieves)
      ensures ok == (|old(Items())| < data.Length)
      ensures Items() == if ok then old(Items()) + [item] else old(Items())
    {
      var t := top;
      var b := bottom;
      if data.Length == 0 || b - t >= data.Length {
        return false;
      }
      ghost var ring := data[..];
      WriteKeepsOthers(ring, b, item);
      data[Slot(b, data.Length)] := item;
      WindowSame(ring, data[..], top, bottom);
      bottom := b + 1;
      ok := true;
    }

    /** `pop_bottom`, uninterrupted: hands out the newest item, if there is one. */
    method PopBottom() returns (r: Result<T>)
      requires OwnerResting()
      modifies this
      ensures OwnerResting() && data == old(data) && thieves == old(thieves)
      ensures old(Items()) == [] ==> r == Nothing && Items() == []
      ensures old(Items()) != [] ==>
                && r == Took(old(Items())[|old(Items())| - 1])
                && Items() == old(Items())[..|old(Items())| - 1]
    {
      var b := bottom;
      if b == 0 {
        return Nothing;
      }
      b := b - 1;
      bottom := b;
      var t := top;
      if t > b {
        bottom := b + 1;
        return Nothing;
      }
      if t == b {
        var claimed := top == t;
        if claimed { top := t + 1; }
        bottom := b + 1;
        if !claimed {
          return Nothing;
        }
      }
      SlotIsMod(b, data.Length);
      r := Took(data[Slot(b, data.Length)]);
    }

    /** `steal_top`, uninterrupted: hands out the oldest item, if there is one. */
    method StealTop() returns (r: Result<T>)
      requires OwnerResting()
      modifies this
      ensures OwnerResting() && data == old(data) && thieves == old(thieves)
      ensures old(Items()) == [] ==> r == Nothing && Items() == []
      ensures old(Items()) != [] ==> r == Took(old(Items())[0]) && Items() == old(Items())[1..]
    {
      var t := top;
      if t >= bottom {
        return Nothing;
      }
      SlotIsMod(t, data.Length);
      WindowHead(data[..], t, bottom);
      var item := data[Slot(t, data.Length)];
      var claimed := top == t;
      if claimed {
        top := t + 1;
        r := Took(item);
      } else {
        r := Nothing;
      }
    }

    method Clear()
      requires Quiescent()
      modifies this
      ensures Quiescent() && Items() == [] && data == old(data) && thieves == old(thieves)
      ensures top == bottom == 0
    {
      top, bottom := 0, 0;
    }

    /** `reserve`: moves to a larger ring, the items unrolled to start at index 0. */
    method Reserve(desired: nat)
      requires Quiescent()
      modifies this
      ensures Quiescent() && Items() == old(Items()) && thieves == old(thieves)
      ensures desired <= old(data.Length) ==> data == old(data)
      ensures desired > old(data.Length) ==> fresh(data) && data.Length == BitCeil(desired)
      ensures desired <= data.Length
      ensures desired > old(data.Length) && old(Items()) == [] ==> Init(View())
    {
      if desired <= data.Length {
        return;
      }
      var count := if bottom > top then bottom - top else 0;
      var storage := new T[BitCeil(desired)];
      if data.Length > 0 && count > 0 {
        MoveToNewStorage(storage, top, bottom);
      }
      WindowUnrolled(storage[..], data[..], top, count);
      data := storage;
      top, bottom := 0, count;
    }

    /** `move_to_new_storage`: at most two block copies, split where the ring wraps. */
    method MoveToNewStorage(storage: array<T>, top: nat, bottom: nat)
      requires IsPow2(data.Length) && top <= bottom <= top + data.Length
      requires bottom - top <= storage.Length && storage != data
      modifies storage
      ensures forall k: nat | k < bottom - top :: storage[k] == At(data[..], top + k)
    {
      var count := bottom - top;
      if count == 0 {
        return;
      }
      var capacity := data.Length;
      var first := And(top, capacity - 1);
      SlotIsMod(top, capacity);
      var firstLen := if count < capacity - first then count else capacity - first;
      forall k | 0 <= k < firstLen {
        storage[k] := data[first + k];
      }
      var secondLen := count - firstLen;
      forall k | 0 <= k < secondLen {
        storage[firstLen + k] := data[k];
      }
      forall k: nat | k < count
        ensures storage[k] == At(data[..], top + k)
      {
        LapIndex(top, k, capacity);
      }
    }
  }

  /** Counting on from `top` inside a ring of `n` slots wraps at most once per lap. */
  lemma {:induction false} LapIndex(top: nat, k: nat, n: nat)
    requires k < n
    ensures (top + k) % n == if top % n + k < n then top % n + k else top % n + k - n
  {
    var q, r := top / n, top % n;
    assert top == n * q + r;
    if r + k < n {
      DivModUnique(top + k, n, q, r + k);
    } else {
      assert n * (q + 1) == n * q + n;
      DivModUnique(top + k, n, q + 1, r + k - n);
    }
  }

  /** A larger ring that holds the items of `[lo, lo + count)` from slot 0 on has the
      same contents. */
  lemma {:induction false} WindowUnrolled<T>(ring: seq<T>, old_: seq<T>, lo: nat, count: nat)
    requires count <= |ring| && (|old_| == 0 ==> count == 0)
    requires |old_| > 0 ==> forall k: nat | k < count :: ring[k] == At(old_, lo + k)
    ensures Window(ring, 0, count) == Window(old_, lo, lo + count)
  {
    if count > 0 {
      WindowUnrolled(ring, old_, lo, count - 1);
      DivModUnique(count - 1, |ring|, 0, count - 1);
      assert lo + count - 1 == lo + (count - 1);
    } else {
      assert Window(ring, 0, 0) == Window(old_, lo, lo);
    }
  }
}
