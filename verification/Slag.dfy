/** The growable array kept in allocator blocks. Every slot of the storage is tracked, so
    that a placement-new on a slot still holding an object, or a destructor on a slot
    holding none, is a failed precondition. Arguments are values: an argument that refers
    to an element of the array itself is not part of this model. */
module Slags {

  /** A slot holds no object, an object with a value, or a moved-from object. */
  datatype Slot<T> = Raw | Live(value: T) | MovedFrom

  /** What the code asks of the element type at compile time. */
  datatype Traits = Traits(triviallyCopyable: bool, triviallyDestructible: bool, moveAssignable: bool)
  {
    predicate Valid() { triviallyCopyable ==> triviallyDestructible }

    /** A slot whose next use may be a construction: nothing is left to destroy. */
    predicate Vacant<T>(s: Slot<T>) { s.Raw? || triviallyDestructible }
  }

  // ---------------------------------------------------------------- what the array is for

  /** Contents, capacity in slots, and how many elements growing has relocated so far. */
  datatype State<T> = State(items: seq<T>, capacity: nat, relocated: nat)

  const FIRST_CAPACITY: nat := 8

  datatype Op<T> = Push(value: T) | Emplace(at: nat, value: T) | Pop | Erase(at: nat) | EraseSwap(at: nat)

  /** The asserts of the code, and its pointers staying within the array. */
  predicate Legal<T>(s: State<T>, op: Op<T>) {
    match op
    case Push(_) => true
    case Emplace(k, _) => k <= |s.items|
    case Pop => s.items != []
    case Erase(k) => k <= |s.items|
    case EraseSwap(k) => k < |s.items|
  }

  /** A full array moves to twice its capacity; an unallocated one gets its first slots. */
  function Grown<T>(s: State<T>): State<T> {
    if |s.items| == s.capacity
    then s.(capacity := if s.items == [] then FIRST_CAPACITY else 2 * |s.items|,
            relocated := s.relocated + |s.items|)
    else s
  }

  function Inserted<T>(items: seq<T>, k: nat, v: T): seq<T>
    requires k <= |items|
  {
    items[..k] + [v] + items[k..]
  }

  function Removed<T>(items: seq<T>, k: nat): seq<T>
    requires k <= |items|
  {
    if k == |items| then items else items[..k] + items[k + 1..]
  }

  function SwapRemoved<T>(items: seq<T>, k: nat): seq<T>
    requires k < |items|
  {
    items[k := items[|items| - 1]][..|items| - 1]
  }

  function Step<T>(s: State<T>, op: Op<T>): State<T>
    requires Legal(s, op)
  {
    match op
    case Push(v) => Grown(s).(items := s.items + [v])
    case Emplace(k, v) => Grown(s).(items := Inserted(s.items, k, v))
    case Pop => s.(items := s.items[..|s.items| - 1])
    case Erase(k) => s.(items := Removed(s.items, k))
    case EraseSwap(k) => s.(items := SwapRemoved(s.items, k))
  }

  // ---------------------------------------------------------------- object lifetimes

  method ConstructAt<T>(t: Traits, a: array<Slot<T>>, i: nat, v: T)
    requires i < a.Length && (t.triviallyDestructible || a[i].Raw?)
    modifies a
    ensures a[i] == Live(v) && forall j | 0 <= j < a.Length && j != i :: a[j] == old(a[j])
  {
    a[i] := Live(v);
  }

  /** A move construction or move assignment leaves an object behind that is still to be
      destroyed. */
  method MoveOut<T>(a: array<Slot<T>>, i: nat) returns (v: T)
    requires i < a.Length && a[i].Live?
    modifies a
    ensures v == old(a[i]).value
    ensures a[i] == MovedFrom && forall j | 0 <= j < a.Length && j != i :: a[j] == old(a[j])
  {
    v := a[i].value;
    a[i] := MovedFrom;
  }

  /** The destructor call, compiled only for types that need it. */
  method DestroyAt<T>(t: Traits, a: array<Slot<T>>, i: nat)
    requires i < a.Length && (!t.triviallyDestructible ==> !a[i].Raw?)
    modifies a
    ensures t.triviallyDestructible || a[i].Raw?
    ensures forall j | 0 <= j < a.Length && j != i :: a[j] == old(a[j])
  {
    if !t.triviallyDestructible { a[i] := Raw; }
  }

  /** `memmove` of `n` slots within one array. */
  method MemMove<T>(a: array<Slot<T>>, dst: nat, src: nat, n: nat)
    requires dst + n <= a.Length && src + n <= a.Length
    modifies a
    ensures forall j | 0 <= j < a.Length ::
              a[j] == if dst <= j < dst + n then old(a[j - dst + src]) else old(a[j])
  {
    forall j | dst <= j < dst + n { a[j] := a[j - dst + src]; }
  }

  class Slag<T> {
    const traits: Traits
    var store: array<Slot<T>>
    var size: nat
    ghost var items: seq<T>
    ghost var relocated: nat

    /** Exactly the slots below `size` hold objects, those of `items`. */
    ghost predicate Valid()
      reads this, store
    {
      && traits.Valid() && size == |items| && Holds(items, size)
    }

    /** The first `n` slots hold the first `n` of `s`; those from `size` on hold nothing. */
    ghost predicate Holds(s: seq<T>, n: nat)
      reads this, store
    {
      && n <= |s| && n <= size <= store.Length
      && (forall i | 0 <= i < n :: store[i] == Live(s[i]))
      && (forall i | size <= i < store.Length :: traits.Vacant(store[i]))
    }

    ghost function Now(): State<T>
      reads this, store
    {
      State(items, store.Length, relocated)
    }

    constructor (t: Traits)
      requires t.triviallyCopyable ==> t.triviallyDestructible
      ensures Valid() && traits == t && Now() == State([], 0, 0) && fresh(store)
    {
      traits := t;
      store := new Slot<T>[0](_ => Raw);
      size, items, relocated := 0, [], 0;
    }

    method Grow()
      requires Valid() && size == store.Length
      modifies this, store
      ensures Valid() && fresh(store) && Now() == Grown(old(Now())) && size == old(size) < store.Length
      ensures store.Length == if old(store.Length) == 0 then 8 else 2 * old(store.Length)
      ensures forall i | 0 <= i < size :: store[i] == old(store[i])
      ensures forall i | 0 <= i < old(store.Length) :: traits.Vacant(old(store)[i])
    {
      var count := size;
      var capacity := if count == 0 then FIRST_CAPACITY else count * 2;
      var target := new Slot<T>[capacity](_ => Raw);
      if traits.triviallyCopyable {
        forall i | 0 <= i < count { target[i] := store[i]; }
        relocated := relocated + count;
      } else {
        Relocate(target, count);
      }
      store := target;
    }

    /** The move loop of growing: each element is constructed in the new storage and its
        remains destroyed in the old. */
    method Relocate(target: array<Slot<T>>, count: nat)
      requires Valid() && count == size == store.Length <= target.Length && target != store
      requires forall i | 0 <= i < target.Length :: target[i] == Raw
      modifies this`relocated, store, target
      ensures relocated == old(relocated) + count
      ensures forall i | 0 <= i < count :: target[i] == Live(items[i])
      ensures forall i | count <= i < target.Length :: target[i] == Raw
      ensures forall i | 0 <= i < count :: traits.Vacant(store[i])
    {
      var i := 0;
      while i < count
        invariant 0 <= i <= count && relocated == old(relocated) + i
        invariant forall j | 0 <= j < i :: target[j] == Live(items[j]) && traits.Vacant(store[j])
        invariant forall j | i <= j < count :: store[j] == Live(items[j])
        invariant forall j | i <= j < target.Length :: target[j] == Raw
      {
        var v := MoveOut(store, i);
        ConstructAt(traits, target, i, v);
        DestroyAt(traits, store, i);
        relocated := relocated + 1;
        i := i + 1;
      }
    }

    method PushBack(v: T)
      requires Valid()
      modifies this, store
      ensures Valid() && Now() == Step(old(Now()), Push(v))
      ensures size == old(size) + 1 <= store.Length && store[old(size)] == Live(v)
      ensures forall i | 0 <= i < old(size) :: store[i] == old(store[i])
      ensures fresh(store) || store == old(store)
    {
      if size == store.Length { Grow(); }
      ConstructAt(traits, store, size, v);
      size, items := size + 1, items + [v];
    }

    method EmplaceAt(k: nat, v: T) returns (r: nat)
      requires Valid() && k <= size
      modifies this, store
      ensures Valid() && Now() == Step(old(Now()), Emplace(k, v)) && r == k
      ensures size == old(size) + 1 <= store.Length && store[k] == Live(v)
      ensures forall i | 0 <= i < k :: store[i] == old(store[i])
      ensures forall i | k < i < size :: store[i] == old(store[i - 1])
      ensures fresh(store) || store == old(store)
    {
      if size == store.Length { Grow(); }
      MakeRoom(k);
      ConstructAt(traits, store, k, v);
      size, items, r := size + 1, Inserted(items, k, v), k;
    }

    /** What the loop or the `memmove` of insertion leaves: slot `k` free to construct in,
        everything from there on one slot up. */
    ghost predicate RoomAt(k: nat)
      reads this, store
      requires size == |items| < store.Length && k <= size
    {
      && (forall i | 0 <= i < k :: store[i] == Live(items[i]))
      && traits.Vacant(store[k])
      && (forall i | k < i <= size :: store[i] == Live(items[i - 1]))
      && (forall i | size < i < store.Length :: traits.Vacant(store[i]))
    }

    method MakeRoom(k: nat)
      requires Valid() && k <= size < store.Length
      modifies store
      ensures RoomAt(k)
    {
      if k != size {
        if traits.triviallyCopyable { MemMove(store, k + 1, k, size - k); } else { OpenGap(k); }
      }
    }

    /** The backward loop of insertion: everything from `k` on moves up one slot. */
    method OpenGap(k: nat)
      requires Valid() && k < size < store.Length
      modifies store
      ensures RoomAt(k)
    {
      var back := size;
      while back != k
        invariant k <= back <= size
        invariant forall i | 0 <= i < back :: store[i] == Live(items[i])
        invariant traits.Vacant(store[back])
        invariant forall i | back < i <= size :: store[i] == Live(items[i - 1])
        invariant forall i | size < i < store.Length :: traits.Vacant(store[i])
        decreases back
      {
        var v := MoveOut(store, back - 1);
        ConstructAt(traits, store, back, v);
        DestroyAt(traits, store, back - 1);
        back := back - 1;
      }
    }

    /** The last slot holds some object, moved-from or not. */
    ghost predicate ValidButLast()
      reads this, store
    {
      && traits.Valid() && size == |items| > 0 && Holds(items, size - 1)
      && (!traits.triviallyDestructible ==> !store[size - 1].Raw?)
    }

    method PopBack()
      requires ValidButLast()
      modifies this, store
      ensures Valid() && store == old(store) && Now() == Step(old(Now()), Pop)
      ensures size == old(size) - 1 && (!traits.triviallyDestructible ==> store[size].Raw?)
      ensures forall i | 0 <= i < size :: store[i] == old(store[i])
    {
      size := size - 1;
      DestroyAt(traits, store, size);
      items := items[..size];
    }

    method EraseAt(k: nat) returns (r: nat)
      requires Valid() && k <= size
      modifies this, store
      ensures Valid() && store == old(store) && Now() == Step(old(Now()), Erase(k)) && r == k
      ensures size == if k == old(size) then old(size) else old(size) - 1
      ensures forall i | 0 <= i < k :: store[i] == old(store[i])
      ensures forall i | k <= i < size :: store[i] == old(store[i + 1])
    {
      r := k;
      if k == size { return; }
      ShiftDown(k);
      size := size - 1;
      DestroyAt(traits, store, size);
      items := Removed(items, k);
    }

    /** What the loop or the `memmove` of removal leaves: everything after `k` one slot
        down, and some object in the last slot. */
    ghost predicate ShiftedDown(k: nat)
      reads this, store
      requires size == |items| <= store.Length && k < size
    {
      && (forall i | 0 <= i < k :: store[i] == Live(items[i]))
      && (forall i | k <= i < size - 1 :: store[i] == Live(items[i + 1]))
      && !store[size - 1].Raw?
      && (forall i | size <= i < store.Length :: traits.Vacant(store[i]))
    }

    method ShiftDown(k: nat)
      requires Valid() && k < size
      modifies store
      ensures ShiftedDown(k)
    {
      if k != size - 1 {
        if traits.triviallyCopyable { MemMove(store, k, k + 1, size - k - 1); } else { CloseGap(k); }
      }
    }

    /** The forward loop of removal: everything after `k` moves down one slot, over the
        object destroyed there. */
    method CloseGap(k: nat)
      requires Valid() && k < size - 1
      modifies store
      ensures ShiftedDown(k)
    {
      var i := k;
      while i != size - 1
        invariant k <= i <= size - 1
        invariant forall j | 0 <= j < k :: store[j] == Live(items[j])
        invariant forall j | k <= j < i :: store[j] == Live(items[j + 1])
        invariant !store[i].Raw? && forall j | i < j < size :: store[j] == Live(items[j])
        invariant forall j | size <= j < store.Length :: traits.Vacant(store[j])
        decreases size - i
      {
        DestroyAt(traits, store, i);
        var v := MoveOut(store, i + 1);
        ConstructAt(traits, store, i, v);
        i := i + 1;
      }
    }

    method EraseSwapAt(k: nat)
      requires Valid() && k < size
      modifies this, store
      ensures Valid() && store == old(store) && Now() == Step(old(Now()), EraseSwap(k))
      ensures size == old(size) - 1 && (k < size ==> store[k] == old(store[size - 1]))
      ensures forall i | 0 <= i < size && i != k :: store[i] == old(store[i])
    {
      if k != size - 1 { FillFromLast(k); }
      items := items[k := items[size - 1]];
      PopBack();
    }

    /** The three ways of replacing an element by the last one. */
    method FillFromLast(k: nat)
      requires Valid() && k < size - 1
      modifies store
      ensures Holds(items[k := items[size - 1]], size - 1) && !store[size - 1].Raw?
    {
      var last := size - 1;
      if traits.triviallyCopyable {
        store[k] := store[last];
      } else if traits.moveAssignable {
        var v := MoveOut(store, last);
        store[k] := Live(v);
      } else {
        DestroyAt(traits, store, k);
        var v := MoveOut(store, last);
        ConstructAt(traits, store, k, v);
      }
    }
  }

  /** What `Valid` says of the slots: those in use hold the elements in order, and on the
      others there is nothing left to destroy. */
  lemma {:induction false} SlotsInUse<T>(s: Slag<T>)
    requires s.Valid()
    ensures s.size == |s.items| <= s.store.Length
    ensures forall i | 0 <= i < s.size :: s.store[i] == Live(s.items[i])
    ensures !s.traits.triviallyDestructible ==> forall i | s.size <= i < s.store.Length :: s.store[i].Raw?
  {}

  // ---------------------------------------------------------------- laws of the operations

  /** Popping what was just pushed restores the contents. */
  lemma {:induction false} PopUndoesPush<T>(s: State<T>, v: T)
    requires |s.items| <= s.capacity
    ensures Legal(s, Push(v))
    ensures var t := Step(s, Push(v));
            && t.items[|s.items|] == v && |t.items| == |s.items| + 1 <= t.capacity
            && Legal(t, Pop) && Step(t, Pop).items == s.items
  {}

  /** Erasing at the end position changes nothing; elsewhere it takes out the element there
      and what followed it closes up. */
  lemma {:induction false} EraseByIndex<T>(s: State<T>, k: nat)
    requires k <= |s.items|
    ensures Legal(s, Erase(k))
    ensures var t := Step(s, Erase(k));
            && (k == |s.items| ==> t == s)
            && (k < |s.items| ==> |t.items| == |s.items| - 1)
            && (forall i | 0 <= i < k :: t.items[i] == s.items[i])
            && (forall i | k <= i < |t.items| :: t.items[i] == s.items[i + 1])
  {}

  /** The pushes that append `vs`. */
  function Pushes<T>(vs: seq<T>): (ops: seq<Op<T>>)
    ensures |ops| == |vs| && forall i | 0 <= i < |vs| :: ops[i] == Push(vs[i])
  {
    seq(|vs|, i requires 0 <= i < |vs| => Push(vs[i]))
  }

  /** Pushing a sequence gives the sequence, in order. */
  lemma {:induction false} PushedInOrder<T>(s: State<T>, vs: seq<T>)
    ensures LegalRun(s, Pushes(vs)) && RunAll(s, Pushes(vs)).items == s.items + vs
    decreases |vs|
  {
    if vs != [] {
      PushedInOrder(Step(s, Push(vs[0])), vs[1..]);
      assert Pushes(vs)[1..] == Pushes(vs[1..]);
    }
  }

  /** Erasing at the place just inserted restores the contents, moved elements included. */
  lemma {:induction false} EraseUndoesEmplace<T>(s: State<T>, k: nat, v: T)
    requires Legal(s, Emplace(k, v))
    ensures var t := Step(s, Emplace(k, v));
            t.items[k] == v && Legal(t, Erase(k)) && Step(t, Erase(k)).items == s.items
  {
    assert Removed(Inserted(s.items, k, v), k) == s.items[..k] + s.items[k..];
  }

  lemma {:induction false} CutOut<T>(items: seq<T>, k: nat)
    requires k < |items|
    ensures multiset(items) == multiset(Removed(items, k)) + multiset{items[k]}
  {
    assert items == items[..k] + ([items[k]] + items[k + 1..]);
  }

  lemma {:induction false} SwapIsRotated<T>(items: seq<T>, k: nat)
    requires k < |items|
    ensures multiset(SwapRemoved(items, k)) == multiset(Removed(items, k))
  {
    var n := |items| - 1;
    if k < n {
      assert Removed(items, k) == items[..k] + (items[k + 1..n] + [items[n]]);
      assert SwapRemoved(items, k) == items[..k] + ([items[n]] + items[k + 1..n]);
    } else {
      assert SwapRemoved(items, k) == Removed(items, k);
    }
  }

  /** Swap-erasing may reorder, but takes out exactly one copy of the chosen element, and
      everything in front of it stays where it was. */
  lemma {:induction false} EraseSwapTakesOne<T>(s: State<T>, k: nat)
    requires Legal(s, EraseSwap(k))
    ensures var t := Step(s, EraseSwap(k));
            && multiset(s.items) == multiset(t.items) + multiset{s.items[k]}
            && multiset(t.items) == multiset(Step(s, Erase(k)).items)
            && t.items[..k] == s.items[..k]
  {
    CutOut(s.items, k);
    SwapIsRotated(s.items, k);
  }

  // ---------------------------------------------------------------- runs and the cost of growing

  predicate LegalRun<T>(s: State<T>, ops: seq<Op<T>>)
    decreases |ops|
  {
    ops != [] ==> Legal(s, ops[0]) && LegalRun(Step(s, ops[0]), ops[1..])
  }

  function RunAll<T>(s: State<T>, ops: seq<Op<T>>): State<T>
    requires LegalRun(s, ops)
    decreases |ops|
  {
    if ops == [] then s else RunAll(Step(s, ops[0]), ops[1..])
  }

  /** The largest size the array reaches, `seen` being the largest before this run. */
  function Peak<T>(s: State<T>, ops: seq<Op<T>>, seen: nat): (p: nat)
    requires LegalRun(s, ops)
    ensures p >= seen
    decreases |ops|
  {
    var now := if |s.items| > seen then |s.items| else seen;
    if ops == [] then now else Peak(Step(s, ops[0]), ops[1..], now)
  }

  /** The bookkeeping of an array that has only ever grown by doubling. */
  predicate Amortized<T>(s: State<T>, peak: nat) {
    && |s.items| <= s.capacity && |s.items| <= peak
    && if s.capacity == 0 then s.relocated == 0
       else s.relocated + FIRST_CAPACITY == s.capacity && peak >= 1
            && (s.capacity == FIRST_CAPACITY || s.capacity <= 2 * (peak - 1))
  }

  lemma {:induction false} RunAmortized<T>(s: State<T>, ops: seq<Op<T>>, seen: nat)
    requires LegalRun(s, ops) && Amortized(s, seen)
    ensures Amortized(RunAll(s, ops), Peak(s, ops, seen))
    decreases |ops|
  {
    if ops != [] {
      var t := Step(s, ops[0]);
      var now := if |t.items| > seen then |t.items| else seen;
      assert Amortized(t, now);
      RunAmortized(t, ops[1..], now);
      PeakAbsorbs(t, ops[1..], seen, now);
    }
  }

  lemma {:induction false} PeakAbsorbs<T>(s: State<T>, ops: seq<Op<T>>, seen: nat, now: nat)
    requires LegalRun(s, ops) && now == if |s.items| > seen then |s.items| else seen
    ensures Peak(s, ops, now) == Peak(s, ops, seen)
  {}

  /** The peak is a size the array really has at some point. */
  lemma {:induction false} PeakReached<T>(s: State<T>, ops: seq<Op<T>>, seen: nat) returns (n: nat)
    requires LegalRun(s, ops)
    ensures n <= |ops| && LegalRun(s, ops[..n])
    ensures Peak(s, ops, seen) == seen || Peak(s, ops, seen) == |RunAll(s, ops[..n]).items|
    decreases |ops|
  {
    n := 0;
    if ops != [] {
      var now := if |s.items| > seen then |s.items| else seen;
      var t := Step(s, ops[0]);
      var m := PeakReached(t, ops[1..], now);
      if Peak(t, ops[1..], now) != now {
        n := m + 1;
        assert ops[..n][0] == ops[0] && ops[..n][1..] == ops[1..][..m];
      }
    }
  }

  /** Over any run of pushes, insertions, pops and erasures that starts empty, growing has
      relocated exactly `capacity - 8` elements once anything was allocated, and fewer than
      twice the size the array had at some point. */
  lemma {:induction false} RelocationsBounded<T>(ops: seq<Op<T>>)
    requires LegalRun(State([], 0, 0), ops)
    ensures var t := RunAll(State([], 0, 0), ops);
            && |t.items| <= t.capacity
            && (t.capacity != 0 ==> t.relocated == t.capacity - 8)
            && (t.relocated == 0 || exists n | 0 <= n <= |ops| ::
                  LegalRun(State([], 0, 0), ops[..n]) && t.relocated < 2 * |RunAll(State([], 0, 0), ops[..n]).items|)
  {
    RunAmortized(State([], 0, 0), ops, 0);
    var n := PeakReached(State([], 0, 0), ops, 0);
  }
}
