/** What the work-stealing deque is meant to be: a bounded double-ended queue whose
    operations happen in one indivisible `Perform` between call and return. This is
    the specification side of the simulation; it mentions no ring, index or slot. */
module AtomicDeque {
  import opened P = ChaseLevProtocol

  datatype Op<T> = Push(item: T) | Pop

  datatype OwnerCall<T> = Quiet | Pending(op: Op<T>) | Answered(result: Result<T>)

  /** `contended`: an item that was the oldest at some moment of this call has been taken
      by somebody else. */
  datatype ThiefCall<T> = Resting | Stealing(contended: bool) | Finished(result: Result<T>)

  datatype Spec<T> = Spec(q: seq<T>, capacity: nat, owner: OwnerCall<T>, thieves: map<nat, ThiefCall<T>>)

  datatype Action<T> =
    | Internal
    | External(step: Step<T>)
    | PerformOwner
    | PerformSteal(id: nat, wins: bool)

  function Contend<T>(thieves: map<nat, ThiefCall<T>>): map<nat, ThiefCall<T>> {
    map id | id in thieves :: if thieves[id].Stealing? then Stealing(true) else thieves[id]
  }

  predicate Allowed<T>(a: Spec<T>, act: Action<T>) {
    match act
    case Internal => true
    case External(CallPush(_)) => a.owner.Quiet?
    case External(CallPop) => a.owner.Quiet?
    case External(OwnerReturns) => a.owner.Answered?
    case External(CallSteal(id)) => id in a.thieves && a.thieves[id].Resting?
    case External(ThiefReturns(id)) => id in a.thieves && a.thieves[id].Finished?
    case External(_) => false
    case PerformOwner => a.owner.Pending?
    case PerformSteal(id, wins) =>
      && id in a.thieves && a.thieves[id].Stealing?
      // A steal may come back empty-handed only when the deque is empty or when an item
      // it could have gone for is taken.
      && (if wins then a.q != [] else a.q == [] || a.thieves[id].contended)
  }

  /** A pop takes the oldest item only if it is also the last. */
  function Perform<T>(a: Spec<T>, op: Op<T>): Spec<T> {
    match op
    case Push(x) =>
      if |a.q| < a.capacity then a.(q := a.q + [x], owner := Answered(Accepted))
      else a.(owner := Answered(Rejected))
    case Pop =>
      if a.q == [] then a.(owner := Answered(Nothing))
      else a.(q := a.q[..|a.q| - 1], owner := Answered(Took(a.q[|a.q| - 1])),
             thieves := if |a.q| == 1 then Contend(a.thieves) else a.thieves)
  }

  function Do<T>(a: Spec<T>, act: Action<T>): Spec<T>
    requires Allowed(a, act)
  {
    match act
    case Internal => a
    case External(CallPush(x)) => a.(owner := Pending(Push(x)))
    case External(CallPop) => a.(owner := Pending(Pop))
    case External(OwnerReturns) => a.(owner := Quiet)
    case External(CallSteal(id)) => a.(thieves := a.thieves[id := Stealing(false)])
    case External(ThiefReturns(id)) => a.(thieves := a.thieves[id := Resting])
    case PerformOwner => Perform(a, a.owner.op)
    case PerformSteal(id, wins) =>
      if wins then a.(q := a.q[1..], thieves := Contend(a.thieves)[id := Finished(Took(a.q[0]))])
      else a.(thieves := a.thieves[id := Finished(Nothing)])
  }
}

/** Every turn of the protocol is matched by one action of the atomic deque, or by two when
    it makes the last item contested. */
module ChaseLevRefinement {
  import opened Bits
  import opened P = ChaseLevProtocol
  import opened AtomicDeque

  /** The items stored for the indices from `lo` up to `hi`. */
  function Window<T>(ring: seq<T>, lo: nat, hi: nat): (w: seq<T>)
    requires lo <= hi && (|ring| == 0 ==> lo == hi)
    ensures |w| == hi - lo
  {
    if lo == hi then [] else Window(ring, lo, hi - 1) + [At(ring, hi - 1)]
  }

  /** The items of the deque, oldest first. */
  ghost function Contents<T>(s: State<T>): (q: seq<T>)
    requires CoreInv(s)
    ensures |q| == LogicalBottom(s) - s.top
  {
    Window(s.ring, s.top, LogicalBottom(s))
  }

  lemma {:induction false} WindowHead<T>(ring: seq<T>, lo: nat, hi: nat)
    requires lo < hi && |ring| > 0
    ensures Window(ring, lo, hi) == [At(ring, lo)] + Window(ring, lo + 1, hi)
    decreases hi
  {
    if lo + 1 < hi {
      WindowHead(ring, lo, hi - 1);
    } else {
      assert Window(ring, lo, lo) == [];
    }
  }

  lemma {:induction false} WindowSame<T>(ring: seq<T>, ring': seq<T>, lo: nat, hi: nat)
    requires lo <= hi && |ring| > 0 && |ring'| > 0
    requires forall i: nat | lo <= i < hi :: At(ring', i) == At(ring, i)
    ensures Window(ring', lo, hi) == Window(ring, lo, hi)
    decreases hi
  {
    if lo < hi { WindowSame(ring, ring', lo, hi - 1); }
  }

  ghost predicate OwnerSim<T>(s: State<T>, call: OwnerCall<T>)
    requires CoreInv(s)
  {
    match s.owner
    case OwnerIdle => call == Quiet
    case PushLoadTop(x) => call == Pending(Push(x))
    case PushLoadBottom(x, t) =>
      call == if |s.ring| == 0 || s.bottom - t >= |s.ring| then Answered(Rejected) else Pending(Push(x))
    case PushWrite(x, _) => call == Pending(Push(x))
    case PushPublish(x, _) => call == Pending(Push(x))
    case PopRestoreEmpty(_) => call == Answered(Nothing)
    case PopRestore(b, claimed) =>
      |s.ring| > 0 && call == Answered(if claimed then Took(At(s.ring, b)) else Nothing)
    case PopRead(b) => call == Answered(Took(At(s.ring, b)))
    case OwnerReturn(r) => call == Answered(r)
    case _ => call == Pending(Pop)
  }

  /** A thief that has loaded an index below `top` is bound to fail: either its failure
      has taken effect already, or it may at any time. */
  ghost predicate ThiefSim<T>(top: nat, pc: ThiefPc<T>, call: ThiefCall<T>) {
    match pc
    case ThiefIdle => call == Resting
    case StealLoadTop => call.Stealing?
    case StealLoadBottom(t) => Loaded(top, t, call)
    case StealRead(t) => Loaded(top, t, call)
    case StealCas(t, _) => Loaded(top, t, call)
    case ThiefReturn(r) => call == Finished(r)
  }

  ghost predicate Loaded<T>(top: nat, t: nat, call: ThiefCall<T>) {
    if t < top then call == Finished(Nothing) || call == Stealing(true) else call.Stealing?
  }

  ghost predicate CoreSim<T>(s: State<T>, a: Spec<T>) {
    && CoreInv(s)
    && a.q == Contents(s)
    && a.capacity == |s.ring|
    && OwnerSim(s, a.owner)
  }

  ghost predicate Sim<T>(s: State<T>, a: Spec<T>) {
    && Inv(s)
    && CoreSim(s, a)
    && a.thieves.Keys == s.thieves.Keys
    && forall id <- s.thieves :: ThiefSim(s.top, s.thieves[id], a.thieves[id])
  }

  // ---------------------------------------------------------------- the contested item

  /** A pop holds `m_bottom` down and one item is left: whoever moves `m_top` first gets
      it, and until then every thief that arrives finds the deque empty. */
  predicate Held<T>(s: State<T>) {
    (s.owner.PopLoadTop? || s.owner.PopCas?) && s.top == s.owner.bottom
  }

  /** Who gets it. */
  datatype Taker = OwnerTakes | ThiefTakes(id: nat)

  /** A turn that moves `m_top`. */
  predicate Advances<T>(s: State<T>, step: Step<T>) {
    || (step.OwnerAccess? && s.owner.PopCas? && s.top == s.owner.bottom)
    || (step.ThiefAccess? && step.id in s.thieves && s.thieves[step.id].StealCas? && s.thieves[step.id].top == s.top)
  }

  function TakerOf<T>(step: Step<T>): Taker {
    if step.ThiefAccess? then ThiefTakes(step.id) else OwnerTakes
  }

  /** The thief has passed the check of `m_bottom` for the contested item. */
  predicate AtDoor<T>(s: State<T>, id: nat) {
    && id in s.thieves
    && (s.thieves[id].StealRead? || s.thieves[id].StealCas?) && s.thieves[id].top == s.top
  }

  predicate CanTake<T>(s: State<T>, w: Taker) {
    w.ThiefTakes? ==> AtDoor(s, w.id)
  }

  lemma {:induction false} HeldContents<T>(s: State<T>)
    requires CoreInv(s) && Held(s)
    ensures |s.ring| > 0 && s.bottom == s.top && LogicalBottom(s) == s.top + 1
    ensures Contents(s) == [At(s.ring, s.top)]
  {
    assert Window(s.ring, s.top, s.top) == [];
  }

  /** While the last item is contested, the atomic deque has already given it to the party
      that will get it: its callers see an empty deque, and the other thieves are related
      to it as they will be once `m_top` has moved. */
  ghost predicate Ahead<T>(s: State<T>, a: Spec<T>, w: Taker) {
    && Inv(s) && Held(s) && CanTake(s, w) && |s.ring| > 0
    && a.q == [] && a.capacity == |s.ring|
    && a.owner == (if w.OwnerTakes? then Answered(Took(At(s.ring, s.top))) else Pending(Pop))
    && a.thieves.Keys == s.thieves.Keys
    && forall id <- s.thieves :: ThiefAhead(s, a, w, id)
  }

  ghost predicate ThiefAhead<T>(s: State<T>, a: Spec<T>, w: Taker, id: nat)
    requires id in s.thieves && id in a.thieves && |s.ring| > 0
  {
    if w == ThiefTakes(id) then a.thieves[id] == Finished(Took(At(s.ring, s.top)))
    else ThiefSim(s.top + 1, s.thieves[id], a.thieves[id])
  }

  /** The relation between protocol and atomic deque, `w` being the party that will get a
      contested item. */
  ghost predicate Related<T>(s: State<T>, a: Spec<T>, w: Taker) {
    if Held(s) then Ahead(s, a, w) else Sim(s, a)
  }

  /** The atomic deque gives the contested item away. */
  function TakeAction<T>(w: Taker): Action<T> {
    if w.OwnerTakes? then PerformOwner else PerformSteal(w.id, true)
  }

  /** The owner's turns at which its call takes effect. */
  predicate OwnerPerforms<T>(s: State<T>) {
    match s.owner
    case PushLoadTop(_) => |s.ring| == 0 || s.bottom - s.top >= |s.ring|
    case PushPublish(_, _) => true
    case PopLoadBottom => s.bottom == 0
    case PopLoadTop(b) => s.top != b
    case PopCas(b) => s.top != b
    case _ => false
  }

  /** The action of the atomic deque that a turn stands for: pushes take effect when
      published (or are turned down when `top` is read), pops when `top` is read or found
      moved, steals when they fail or at their compare-and-swap. While an item is
      contested, a thief that loads `top` has failed. */
  function ActionOf<T>(s: State<T>, a: Spec<T>, step: Step<T>): Action<T> {
    match step
    case OwnerAccess => if OwnerPerforms(s) then PerformOwner else Internal
    case ThiefAccess(id) => (
      if id !in s.thieves || id !in a.thieves || !a.thieves[id].Stealing? then Internal else
      match s.thieves[id]
      case StealLoadTop => if Held(s) then PerformSteal(id, false) else Internal
      case StealLoadBottom(t) => if t >= s.bottom then PerformSteal(id, false) else Internal
      case StealCas(t, _) => PerformSteal(id, s.top == t)
      case _ => Internal)
    case _ => External(step)
  }

  /** The owner's turn that removes the newest item. */
  predicate OwnerRemoves<T>(s: State<T>) {
    (s.owner.PopLoadTop? && s.top < s.owner.bottom) || (s.owner.PopCas? && s.top == s.owner.bottom)
  }

  /** A push writes the slot behind the newest item, outside the contents. */
  lemma {:induction false} WriteEffect<T>(s: State<T>)
    requires CoreInv(s) && Enabled(s, OwnerAccess) && s.owner.PushWrite?
    ensures CoreInv(OwnerNext(s)) && Contents(OwnerNext(s)) == Contents(s)
  {
    OwnerKeepsCore(s);
    WriteKeepsOthers(s.ring, s.owner.bottom, s.owner.item);
    WindowSame(s.ring, OwnerNext(s).ring, s.top, s.bottom);
  }

  /** Every owner turn leaves the contents alone, appends, or drops the newest item. */
  lemma {:induction false} OwnerEffect<T>(s: State<T>)
    requires CoreInv(s) && Enabled(s, OwnerAccess)
    ensures CoreInv(OwnerNext(s))
    ensures Contents(OwnerNext(s)) ==
            if s.owner.PushPublish? then Contents(s) + [s.owner.item]
            else if OwnerRemoves(s) && Contents(s) != [] then Contents(s)[..|Contents(s)| - 1]
            else Contents(s)
  {
    if s.owner.PushWrite? { WriteEffect(s); } else { OwnerKeepsCore(s); }
  }

  lemma {:induction false} NewestItem<T>(s: State<T>)
    requires CoreInv(s) && OwnerRemoves(s)
    ensures |s.ring| > 0 && Contents(s) != []
    ensures Contents(s)[|Contents(s)| - 1] == At(s.ring, s.owner.bottom)
  {}

  lemma {:induction false} PushSimulation<T>(s: State<T>, a: Spec<T>)
    requires CoreSim(s, a) && Enabled(s, OwnerAccess)
    requires s.owner.PushLoadTop? || s.owner.PushLoadBottom? || s.owner.PushWrite? || s.owner.PushPublish?
    ensures OwnerPerforms(s) ==> a.owner.Pending?
    ensures CoreSim(OwnerNext(s), if OwnerPerforms(s) then Perform(a, a.owner.op) else a)
  {
    OwnerEffect(s);
  }

  lemma {:induction false} PopSimulation<T>(s: State<T>, a: Spec<T>)
    requires CoreSim(s, a) && Enabled(s, OwnerAccess) && !Held(s)
    requires s.owner.PopLoadBottom? || s.owner.PopStoreBottom? || s.owner.PopLoadTop? || s.owner.PopCas?
    ensures OwnerPerforms(s) ==> a.owner.Pending?
    ensures CoreSim(OwnerNext(s), if OwnerPerforms(s) then Perform(a, a.owner.op) else a)
  {
    OwnerEffect(s);
    if OwnerRemoves(s) { NewestItem(s); }
  }

  lemma {:induction false} AfterPopSimulation<T>(s: State<T>, a: Spec<T>)
    requires CoreSim(s, a) && Enabled(s, OwnerAccess)
    requires s.owner.PopRestoreEmpty? || s.owner.PopRestore? || s.owner.PopRead?
    ensures CoreSim(OwnerNext(s), a)
  {
    OwnerEffect(s);
    if s.owner.PopRead? { SlotIsMod(s.owner.bottom, |s.ring|); }
  }

  /** Uncontested, a turn of the owner leaves `m_top` and the thieves alone, and what it
      removes is never the oldest item. */
  lemma {:induction false} OwnerKeepsThieves<T>(s: State<T>, a: Spec<T>)
    requires CoreSim(s, a) && Enabled(s, OwnerAccess) && !Held(s) && Allowed(a, ActionOf(s, a, OwnerAccess))
    ensures OwnerNext(s).top == s.top && OwnerNext(s).thieves == s.thieves
    ensures Do(a, ActionOf(s, a, OwnerAccess)).thieves == a.thieves
  {
    assert |a.q| == LogicalBottom(s) - s.top;
  }

  lemma {:induction false} OwnerSimulation<T>(s: State<T>, a: Spec<T>)
    requires Sim(s, a) && Enabled(s, OwnerAccess) && !Held(s)
    ensures Allowed(a, ActionOf(s, a, OwnerAccess))
    ensures Sim(OwnerNext(s), Do(a, ActionOf(s, a, OwnerAccess)))
  {
    match s.owner {
      case PushLoadTop(_) => PushSimulation(s, a);
      case PushLoadBottom(_, _) => PushSimulation(s, a);
      case PushWrite(_, _) => PushSimulation(s, a);
      case PushPublish(_, _) => PushSimulation(s, a);
      case PopRestoreEmpty(_) => AfterPopSimulation(s, a);
      case PopRestore(_, _) => AfterPopSimulation(s, a);
      case PopRead(_) => AfterPopSimulation(s, a);
      case _ => PopSimulation(s, a);
    }
    OwnerKeepsThieves(s, a);
    OwnerInvPreserved(s);
  }

  /** A winning compare-and-swap: the item the thief read earlier is the oldest one
      now, and it is the one that leaves. */
  lemma {:induction false} WinningStealTakesOldest<T>(s: State<T>, id: nat)
    requires Inv(s) && Enabled(s, ThiefAccess(id))
    requires s.thieves[id].StealCas? && s.thieves[id].top == s.top
    ensures Inv(ThiefNext(s, id)) && Contents(s) != []
    ensures s.thieves[id].item == Contents(s)[0]
    ensures Contents(ThiefNext(s, id)) == Contents(s)[1..]
  {
    InvPreserved(s, ThiefAccess(id));
    assert ThiefInv(s, s.thieves[id]);
    WindowHead(s.ring, s.top, LogicalBottom(s));
  }

  lemma {:induction false} OtherThiefTurn<T>(s: State<T>, id: nat)
    requires Inv(s) && Enabled(s, ThiefAccess(id))
    requires !(s.thieves[id].StealCas? && s.thieves[id].top == s.top)
    ensures Inv(ThiefNext(s, id))
    ensures Contents(ThiefNext(s, id)) == Contents(s)
  {
    InvPreserved(s, ThiefAccess(id));
  }

  /** Uncontested, a thief that finds nothing finds the deque empty or is too late. */
  lemma {:induction false} FindsNothing<T>(s: State<T>, t: nat)
    requires CoreInv(s) && !Held(s) && s.bottom <= t == s.top
    ensures Contents(s) == []
  {}

  lemma {:induction false} ThiefActionMatches<T>(s: State<T>, a: Spec<T>, id: nat)
    requires Sim(s, a) && Enabled(s, ThiefAccess(id)) && !Held(s)
    ensures Allowed(a, ActionOf(s, a, ThiefAccess(id))) && Inv(ThiefNext(s, id))
    ensures Do(a, ActionOf(s, a, ThiefAccess(id))).q == Contents(ThiefNext(s, id))
  {
    assert ThiefInv(s, s.thieves[id]) && ThiefSim(s.top, s.thieves[id], a.thieves[id]);
    if s.thieves[id].StealLoadBottom? && s.bottom <= s.thieves[id].top == s.top { FindsNothing(s, s.top); }
    if s.thieves[id].StealCas? && s.thieves[id].top == s.top {
      WinningStealTakesOldest(s, id);
    } else {
      OtherThiefTurn(s, id);
    }
  }

  /** Thief `i`, the one at work or a bystander, is still related after a turn of `id`. */
  lemma {:induction false} ThiefStaysRelated<T>(s: State<T>, a: Spec<T>, id: nat, i: nat)
    requires Sim(s, a) && Enabled(s, ThiefAccess(id)) && !Held(s) && Allowed(a, ActionOf(s, a, ThiefAccess(id)))
    requires i in s.thieves
    ensures var s', a' := ThiefNext(s, id), Do(a, ActionOf(s, a, ThiefAccess(id)));
            && a'.thieves.Keys == s'.thieves.Keys == s.thieves.Keys
            && ThiefSim(s'.top, s'.thieves[i], a'.thieves[i])
  {
    assert ThiefInv(s, s.thieves[id]) && ThiefSim(s.top, s.thieves[id], a.thieves[id]);
    assert ThiefInv(s, s.thieves[i]) && ThiefSim(s.top, s.thieves[i], a.thieves[i]);
    if s.thieves[id].StealCas? && s.thieves[id].top == s.top {
      WinningStealTakesOldest(s, id);
    }
  }

  lemma {:induction false} ThiefSimulation<T>(s: State<T>, a: Spec<T>, id: nat)
    requires Sim(s, a) && Enabled(s, ThiefAccess(id)) && !Held(s)
    ensures Allowed(a, ActionOf(s, a, ThiefAccess(id)))
    ensures Sim(ThiefNext(s, id), Do(a, ActionOf(s, a, ThiefAccess(id))))
  {
    ThiefActionMatches(s, a, id);
    var s', a' := ThiefNext(s, id), Do(a, ActionOf(s, a, ThiefAccess(id)));
    ThiefStaysRelated(s, a, id, id);
    forall i <- s'.thieves
      ensures ThiefSim(s'.top, s'.thieves[i], a'.thieves[i])
    {
      ThiefStaysRelated(s, a, id, i);
    }
    assert s'.owner == s.owner && s'.ring == s.ring && s'.bottom == s.bottom && a'.owner == a.owner;
  }

  lemma {:induction false} CallSimulation<T>(s: State<T>, a: Spec<T>, step: Step<T>)
    requires Sim(s, a) && Enabled(s, step) && !step.OwnerAccess? && !step.ThiefAccess?
    ensures Allowed(a, External(step))
    ensures Sim(Next(s, step), Do(a, External(step)))
  {
    InvPreserved(s, step);
  }

  /** While nothing is contested: whatever turn is taken next, the atomic deque can take
      the corresponding action, and the two stay related. */
  lemma {:induction false} Uncontested<T>(s: State<T>, a: Spec<T>, step: Step<T>)
    requires Sim(s, a) && Enabled(s, step) && !Held(s)
    ensures Allowed(a, ActionOf(s, a, step))
    ensures Sim(Next(s, step), Do(a, ActionOf(s, a, step)))
  {
    if step.OwnerAccess? {
      OwnerSimulation(s, a);
    } else if step.ThiefAccess? {
      ThiefSimulation(s, a, step.id);
    } else {
      CallSimulation(s, a, step);
    }
  }

  // ---------------------------------------------------------------- contested turns

  /** When the last item becomes contested, the atomic deque gives it to the party that
      will get it. Every other thief inside has then lost. */
  lemma {:induction false} TakeAhead<T>(s: State<T>, a: Spec<T>, w: Taker)
    requires Sim(s, a) && Held(s) && CanTake(s, w)
    ensures Allowed(a, TakeAction(w)) && Ahead(s, Do(a, TakeAction(w)), w)
  {
    HeldContents(s);
    if w.ThiefTakes? { assert ThiefSim(s.top, s.thieves[w.id], a.thieves[w.id]); }
    var a' := Do(a, TakeAction(w));
    forall id <- s.thieves
      ensures id in a'.thieves && ThiefAhead(s, a', w, id)
    {
      assert ThiefInv(s, s.thieves[id]) && ThiefSim(s.top, s.thieves[id], a.thieves[id]);
    }
  }

  /** The owner's turns: it reads `m_top`, or it gets the item. */
  lemma {:induction false} OwnerContests<T>(s: State<T>, a: Spec<T>, w: Taker)
    requires Ahead(s, a, w) && Enabled(s, OwnerAccess) && (Advances(s, OwnerAccess) ==> w.OwnerTakes?)
    ensures ActionOf(s, a, OwnerAccess) == Internal && Related(OwnerNext(s), a, w)
  {
    HeldContents(s);
    OwnerInvPreserved(s);
    var s' := OwnerNext(s);
    forall id <- s'.thieves
      ensures if Held(s') then ThiefAhead(s', a, w, id) else ThiefSim(s'.top, s'.thieves[id], a.thieves[id])
    {
      assert ThiefAhead(s, a, w, id);
    }
    if !Held(s') { assert Contents(s') == []; }
  }

  /** A thief's turn that leaves the item contested. */
  lemma {:induction false} ThiefWaits<T>(s: State<T>, a: Spec<T>, w: Taker, id: nat, i: nat)
    requires Ahead(s, a, w) && Enabled(s, ThiefAccess(id)) && !Advances(s, ThiefAccess(id)) && i in s.thieves
    ensures Allowed(a, ActionOf(s, a, ThiefAccess(id)))
    ensures var s', a' := ThiefNext(s, id), Do(a, ActionOf(s, a, ThiefAccess(id)));
            && a'.thieves.Keys == s'.thieves.Keys == s.thieves.Keys && a' == a.(thieves := a'.thieves)
            && ThiefAhead(s', a', w, i)
  {
    HeldContents(s);
    assert ThiefInv(s, s.thieves[id]) && ThiefAhead(s, a, w, id) && ThiefAhead(s, a, w, i);
  }

  lemma {:induction false} ThiefContests<T>(s: State<T>, a: Spec<T>, w: Taker, id: nat)
    requires Ahead(s, a, w) && Enabled(s, ThiefAccess(id)) && !Advances(s, ThiefAccess(id))
    ensures Allowed(a, ActionOf(s, a, ThiefAccess(id)))
    ensures Ahead(ThiefNext(s, id), Do(a, ActionOf(s, a, ThiefAccess(id))), w)
  {
    ThiefInvPreserved(s, id);
    ThiefWaits(s, a, w, id, id);
    var s', a' := ThiefNext(s, id), Do(a, ActionOf(s, a, ThiefAccess(id)));
    forall i <- s'.thieves
      ensures i in a'.thieves && ThiefAhead(s', a', w, i)
    {
      ThiefWaits(s, a, w, id, i);
    }
  }

  /** The thief that gets the item. */
  lemma {:induction false} ThiefGets<T>(s: State<T>, a: Spec<T>, w: Taker, id: nat)
    requires Ahead(s, a, w) && Enabled(s, ThiefAccess(id)) && Advances(s, ThiefAccess(id)) && w == ThiefTakes(id)
    ensures ActionOf(s, a, ThiefAccess(id)) == Internal && Sim(ThiefNext(s, id), a)
  {
    HeldContents(s);
    assert ThiefInv(s, s.thieves[id]);
    ThiefInvPreserved(s, id);
    var s' := ThiefNext(s, id);
    forall i <- s'.thieves
      ensures ThiefSim(s'.top, s'.thieves[i], a.thieves[i])
    {
      assert ThiefAhead(s, a, w, i);
    }
    assert Contents(s') == [];
  }

  lemma {:induction false} CallContests<T>(s: State<T>, a: Spec<T>, w: Taker, step: Step<T>)
    requires Ahead(s, a, w) && Enabled(s, step) && !step.OwnerAccess? && !step.ThiefAccess?
    ensures Allowed(a, External(step)) && Ahead(Next(s, step), Do(a, External(step)), w)
  {
    InvPreserved(s, step);
    var s', a' := Next(s, step), Do(a, External(step));
    forall i <- s'.thieves
      ensures i in a'.thieves && ThiefAhead(s', a', w, i)
    {
      assert ThiefAhead(s, a, w, i);
    }
  }

  /** While the last item is contested: the two stay related if the next party to move
      `m_top` is the one that was foreseen. */
  lemma {:induction false} Contested<T>(s: State<T>, a: Spec<T>, w: Taker, step: Step<T>)
    requires Ahead(s, a, w) && Enabled(s, step) && (Advances(s, step) ==> w == TakerOf(step))
    ensures Allowed(a, ActionOf(s, a, step))
    ensures Related(Next(s, step), Do(a, ActionOf(s, a, step)), w)
    ensures Held(Next(s, step)) <==> !Advances(s, step)
  {
    if step.OwnerAccess? {
      OwnerContests(s, a, w);
    } else if step.ThiefAccess? {
      if Advances(s, step) { ThiefGets(s, a, w, step.id); } else { ThiefContests(s, a, w, step.id); }
    } else {
      CallContests(s, a, w, step);
    }
  }
}
