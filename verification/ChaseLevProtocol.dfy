/** The work-stealing deque as a protocol: one owner and any number of thieves take
    turns, each turn being one atomic load, store, compare-and-swap or slot access
    (sequentially consistent interleaving). The deque is shown to be linearizable:
    every interleaving is simulated, turn by turn, by an atomic bounded deque whose
    operations take effect in one indivisible `Perform` between call and return. */
module ChaseLevProtocol {
  import opened Bits

  datatype Result<T> = Accepted | Rejected | Took(value: T) | Nothing

  /** Where the owner stands in `push_bottom` or `pop_bottom`: each constructor names
      the access it makes next and carries the locals that are still live. */
  datatype OwnerPc<T> =
    | OwnerIdle
    | PushLoadTop(item: T)
    | PushLoadBottom(item: T, top: nat)
    | PushWrite(item: T, bottom: nat)
    | PushPublish(item: T, bottom: nat)
    | PopLoadBottom
    | PopStoreBottom(bottom: nat)
    | PopLoadTop(bottom: nat)
    | PopRestoreEmpty(bottom: nat)
    | PopCas(bottom: nat)
    | PopRestore(bottom: nat, claimed: bool)
    | PopRead(bottom: nat)
    | OwnerReturn(result: Result<T>)

  /** Where a thief stands in `steal_top`. */
  datatype ThiefPc<T> =
    | ThiefIdle
    | StealLoadTop
    | StealLoadBottom(top: nat)
    | StealRead(top: nat)
    | StealCas(top: nat, item: T)
    | ThiefReturn(result: Result<T>)

  datatype State<T> = State(top: nat, bottom: nat, ring: seq<T>,
                            owner: OwnerPc<T>, thieves: map<nat, ThiefPc<T>>)

  datatype Step<T> =
    | CallPush(item: T)
    | CallPop
    | OwnerAccess
    | OwnerReturns
    | CallSteal(id: nat)
    | ThiefAccess(id: nat)
    | ThiefReturns(id: nat)

  /** `slot_index`. */
  function Slot(index: nat, capacity: nat): (slot: nat)
    requires capacity > 0
    ensures slot < capacity
  {
    And(index, capacity - 1)
  }

  lemma {:induction false} SlotIsMod(index: nat, capacity: nat)
    requires IsPow2(capacity)
    ensures Slot(index, capacity) == index % capacity
  {
    var k: nat :| capacity == Pow2(k);
    MaskIsMod(index, k);
  }

  // ---------------------------------------------------------------- the machine

  /** The owner's next access touches a ring slot. */
  predicate OwnerTouchesSlot<T>(pc: OwnerPc<T>) {
    pc.PushWrite? || pc.PopRead?
  }

  /** Whether a party may take this turn. The last conjunct of each access is the
      memory safety of a slot access, which `NeverOutOfBounds` shows always holds. */
  predicate AtStep<T>(s: State<T>, step: Step<T>) {
    match step
    case CallPush(_) => s.owner.OwnerIdle?
    case CallPop => s.owner.OwnerIdle?
    case OwnerAccess => !s.owner.OwnerIdle? && !s.owner.OwnerReturn?
    case OwnerReturns => s.owner.OwnerReturn?
    case CallSteal(id) => id in s.thieves && s.thieves[id].ThiefIdle?
    case ThiefAccess(id) => id in s.thieves && !s.thieves[id].ThiefIdle? && !s.thieves[id].ThiefReturn?
    case ThiefReturns(id) => id in s.thieves && s.thieves[id].ThiefReturn?
  }

  predicate InBounds<T>(s: State<T>, step: Step<T>) {
    && (step.OwnerAccess? && OwnerTouchesSlot(s.owner) ==> |s.ring| > 0)
    && (step.ThiefAccess? && step.id in s.thieves && s.thieves[step.id].StealRead? ==> |s.ring| > 0)
  }

  predicate Enabled<T>(s: State<T>, step: Step<T>) {
    AtStep(s, step) && InBounds(s, step)
  }

  /** One access of `push_bottom` or `pop_bottom`. */
  function OwnerNext<T>(s: State<T>): State<T>
    requires Enabled(s, OwnerAccess)
  {
    match s.owner
    case PushLoadTop(x) => s.(owner := PushLoadBottom(x, s.top))
    case PushLoadBottom(x, t) =>
      if |s.ring| == 0 || s.bottom - t >= |s.ring| then s.(owner := OwnerReturn(Rejected))
      else s.(owner := PushWrite(x, s.bottom))
    case PushWrite(x, b) => s.(ring := s.ring[Slot(b, |s.ring|) := x], owner := PushPublish(x, b))
    case PushPublish(_, b) => s.(bottom := b + 1, owner := OwnerReturn(Accepted))
    case PopLoadBottom =>
      if s.bottom == 0 then s.(owner := OwnerReturn(Nothing))
      else s.(owner := PopStoreBottom(s.bottom - 1))
    case PopStoreBottom(b) => s.(bottom := b, owner := PopLoadTop(b))
    case PopLoadTop(b) =>
      if s.top > b then s.(owner := PopRestoreEmpty(b))
      else if s.top == b then s.(owner := PopCas(b))
      else s.(owner := PopRead(b))
    case PopRestoreEmpty(b) => s.(bottom := b + 1, owner := OwnerReturn(Nothing))
    case PopCas(b) =>
      if s.top == b then s.(top := b + 1, owner := PopRestore(b, true))
      else s.(owner := PopRestore(b, false))
    case PopRestore(b, claimed) =>
      s.(bottom := b + 1, owner := if claimed then PopRead(b) else OwnerReturn(Nothing))
    case PopRead(b) => s.(owner := OwnerReturn(Took(s.ring[Slot(b, |s.ring|)])))
  }

  /** One access of `steal_top`. */
  function ThiefNext<T>(s: State<T>, id: nat): State<T>
    requires Enabled(s, ThiefAccess(id))
  {
    match s.thieves[id]
    case StealLoadTop => s.(thieves := s.thieves[id := StealLoadBottom(s.top)])
    case StealLoadBottom(t) =>
      s.(thieves := s.thieves[id := if t >= s.bottom then ThiefReturn(Nothing) else StealRead(t)])
    case StealRead(t) => s.(thieves := s.thieves[id := StealCas(t, s.ring[Slot(t, |s.ring|)])])
    case StealCas(t, x) =>
      if s.top == t then s.(top := t + 1, thieves := s.thieves[id := ThiefReturn(Took(x))])
      else s.(thieves := s.thieves[id := ThiefReturn(Nothing)])
  }

  function Next<T>(s: State<T>, step: Step<T>): State<T>
    requires Enabled(s, step)
  {
    match step
    case CallPush(x) => s.(owner := PushLoadTop(x))
    case CallPop => s.(owner := PopLoadBottom)
    case OwnerAccess => OwnerNext(s)
    case OwnerReturns => s.(owner := OwnerIdle)
    case CallSteal(id) => s.(thieves := s.thieves[id := StealLoadTop])
    case ThiefAccess(id) => ThiefNext(s, id)
    case ThiefReturns(id) => s.(thieves := s.thieves[id := ThiefIdle])
  }

  /** A freshly constructed deque: empty, nobody inside, capacity as `bit_ceil` gives it. */
  ghost predicate Init<T>(s: State<T>) {
    && s.top == s.bottom == 0
    && (|s.ring| == 0 || IsPow2(|s.ring|))
    && s.owner.OwnerIdle?
    && forall id <- s.thieves :: s.thieves[id].ThiefIdle?
  }

  // ---------------------------------------------------------------- the invariant

  /** While a pop holds `m_bottom` down it has not yet removed anything: the deque's
      logical end is one above the stored value. */
  function LogicalBottom<T>(s: State<T>): nat {
    if s.owner.PopLoadTop? || s.owner.PopRestoreEmpty? || s.owner.PopCas? || s.owner.PopRestore?
    then s.bottom + 1 else s.bottom
  }

  /** The item stored for logical index `i`. */
  function At<T>(ring: seq<T>, i: nat): T
    requires |ring| > 0
  {
    ring[i % |ring|]
  }

  ghost predicate OwnerInv<T>(s: State<T>) {
    match s.owner
    case PushLoadBottom(_, t) => t <= s.top
    case PushWrite(_, b) => b == s.bottom < s.top + |s.ring|
    case PushPublish(x, b) => |s.ring| > 0 && b == s.bottom < s.top + |s.ring| && At(s.ring, b) == x
    case PopStoreBottom(b) => s.bottom == b + 1
    case PopLoadTop(b) => s.bottom == b
    case PopRestoreEmpty(b) => s.bottom == b && s.top == b + 1
    case PopCas(b) => s.bottom == b <= s.top
    case PopRestore(b, _) => s.bottom == b && s.top == b + 1
    case PopRead(b) => |s.ring| > 0
    case _ => true
  }

  /** What a thief remembers stays sound although the owner reuses ring slots: as long
      as `m_top` has not moved past the index it loaded, that index is still occupied
      and still holds the item it read. */
  ghost predicate ThiefInv<T>(s: State<T>, pc: ThiefPc<T>) {
    match pc
    case StealLoadBottom(t) => t <= s.top
    case StealRead(t) => t <= s.top && |s.ring| > 0 && (t == s.top ==> t < LogicalBottom(s))
    case StealCas(t, x) =>
      t <= s.top && |s.ring| > 0 && (t == s.top ==> t < LogicalBottom(s) && x == At(s.ring, t))
    case _ => true
  }

  ghost predicate CoreInv<T>(s: State<T>) {
    && (|s.ring| == 0 || IsPow2(|s.ring|))
    && (|s.ring| == 0 ==> LogicalBottom(s) == 0)
    && s.top <= LogicalBottom(s) <= s.top + |s.ring|
    && OwnerInv(s)
  }

  ghost predicate Inv<T>(s: State<T>) {
    && CoreInv(s)
    && forall id <- s.thieves :: ThiefInv(s, s.thieves[id])
  }

  lemma {:induction false} InitInv<T>(s: State<T>)
    requires Init(s)
    ensures Inv(s)
  {}

  lemma {:induction false} ModDistinct(i: nat, j: nat, n: nat)
    requires i < j < i + n
    ensures i % n != j % n
  {
    if i % n == j % n {
      var k := j / n - i / n;
      assert n * k == j - i by {
        assert j == n * (j / n) + j % n && i == n * (i / n) + i % n;
        assert n * k == n * (j / n) - n * (i / n);
      }
      SmallProduct(n, k);
    }
  }

  /** Writing the slot of index `b` disturbs no index within one lap below it. */
  lemma {:induction false} WriteKeepsOthers<T>(ring: seq<T>, b: nat, x: T)
    requires IsPow2(|ring|)
    ensures var ring' := ring[Slot(b, |ring|) := x];
            && At(ring', b) == x
            && forall i: nat | i < b < i + |ring| :: At(ring', i) == At(ring, i)
  {
    SlotIsMod(b, |ring|);
    forall i: nat | i < b < i + |ring|
      ensures At(ring[Slot(b, |ring|) := x], i) == At(ring, i)
    {
      ModDistinct(i, b, |ring|);
    }
  }

  lemma {:induction false} OwnerKeepsCore<T>(s: State<T>)
    requires CoreInv(s) && Enabled(s, OwnerAccess)
    ensures CoreInv(OwnerNext(s))
  {
    if s.owner.PushWrite? { WriteKeepsOthers(s.ring, s.owner.bottom, s.owner.item); }
  }

  lemma {:induction false} OwnerInvPreserved<T>(s: State<T>)
    requires Inv(s) && Enabled(s, OwnerAccess)
    ensures Inv(OwnerNext(s))
  {
    OwnerKeepsCore(s);
    if s.owner.PushWrite? { WriteKeepsOthers(s.ring, s.owner.bottom, s.owner.item); }
  }

  lemma {:induction false} ThiefInvPreserved<T>(s: State<T>, id: nat)
    requires Inv(s) && Enabled(s, ThiefAccess(id))
    ensures Inv(ThiefNext(s, id))
  {
    var pc := s.thieves[id];
    if pc.StealRead? { SlotIsMod(pc.top, |s.ring|); }
  }

  lemma {:induction false} InvPreserved<T>(s: State<T>, step: Step<T>)
    requires Inv(s) && Enabled(s, step)
    ensures Inv(Next(s, step))
  {
    match step
    case OwnerAccess => OwnerInvPreserved(s);
    case ThiefAccess(id) => ThiefInvPreserved(s, id);
    case _ =>
  }

  /** No slot access of any party is ever out of bounds. */
  lemma {:induction false} NeverOutOfBounds<T>(s: State<T>, step: Step<T>)
    requires Inv(s) && AtStep(s, step)
    ensures Enabled(s, step)
  {
    if step.ThiefAccess? { assert ThiefInv(s, s.thieves[step.id]); }
  }
}
