/** Whole runs of the work-stealing deque: linearizability, conservation of items and
    the size of the indices, for every interleaving of any number of thieves. */
module ChaseLevRuns {
  import opened P = ChaseLevProtocol
  import opened AtomicDeque
  import opened ChaseLevRefinement

  // ---------------------------------------------------------------- runs and what they show

  ghost predicate Run<T>(s: State<T>, steps: seq<Step<T>>)
    decreases |steps|
  {
    steps == [] || (Enabled(s, steps[0]) && Run(Next(s, steps[0]), steps[1..]))
  }

  ghost function After<T>(s: State<T>, steps: seq<Step<T>>): State<T>
    requires Run(s, steps)
    decreases |steps|
  {
    if steps == [] then s else After(Next(s, steps[0]), steps[1..])
  }

  ghost predicate SpecRun<T>(a: Spec<T>, acts: seq<Action<T>>)
    decreases |acts|
  {
    acts == [] || (Allowed(a, acts[0]) && SpecRun(Do(a, acts[0]), acts[1..]))
  }

  ghost function SpecAfter<T>(a: Spec<T>, acts: seq<Action<T>>): Spec<T>
    requires SpecRun(a, acts)
    decreases |acts|
  {
    if acts == [] then a else SpecAfter(Do(a, acts[0]), acts[1..])
  }

  /** What the callers can see: calls, and answers with their results. */
  datatype Event<T> = Called(step: Step<T>) | OwnerGot(result: Result<T>) | ThiefGot(id: nat, result: Result<T>)

  function Visible<T>(s: State<T>, step: Step<T>): seq<Event<T>>
    requires Enabled(s, step)
  {
    match step
    case OwnerAccess => []
    case ThiefAccess(_) => []
    case OwnerReturns => [OwnerGot(s.owner.result)]
    case ThiefReturns(id) => [ThiefGot(id, s.thieves[id].result)]
    case _ => [Called(step)]
  }

  function SpecVisible<T>(a: Spec<T>, act: Action<T>): seq<Event<T>>
    requires Allowed(a, act)
  {
    match act
    case External(OwnerReturns) => [OwnerGot(a.owner.result)]
    case External(ThiefReturns(id)) => [ThiefGot(id, a.thieves[id].result)]
    case External(step) => [Called(step)]
    case _ => []
  }

  ghost function Trace<T>(s: State<T>, steps: seq<Step<T>>): seq<Event<T>>
    requires Run(s, steps)
    decreases |steps|
  {
    if steps == [] then [] else Visible(s, steps[0]) + Trace(Next(s, steps[0]), steps[1..])
  }

  ghost function SpecTrace<T>(a: Spec<T>, acts: seq<Action<T>>): seq<Event<T>>
    requires SpecRun(a, acts)
    decreases |acts|
  {
    if acts == [] then [] else SpecVisible(a, acts[0]) + SpecTrace(Do(a, acts[0]), acts[1..])
  }

  // ---------------------------------------------------------------- linearizability

  /** Looking ahead in the run: the party that moves `m_top` next, the owner if nobody
      does. */
  ghost function NextTaker<T>(s: State<T>, steps: seq<Step<T>>): Taker
    requires Run(s, steps)
    decreases |steps|
  {
    if steps == [] then OwnerTakes
    else if Advances(s, steps[0]) then TakerOf(steps[0])
    else NextTaker(Next(s, steps[0]), steps[1..])
  }

  /** While an item is contested nobody new gets past the check of `m_bottom`. */
  lemma {:induction false} DoorIsShut<T>(s: State<T>, step: Step<T>, id: nat)
    requires Inv(s) && Held(s) && Enabled(s, step) && !Advances(s, step)
    ensures Held(Next(s, step)) && (AtDoor(Next(s, step), id) ==> AtDoor(s, id))
  {
    HeldContents(s);
  }

  /** So a thief that will get the item has already passed. */
  lemma {:induction false} TakerAtDoor<T>(s: State<T>, steps: seq<Step<T>>)
    requires Inv(s) && Held(s) && Run(s, steps)
    ensures CanTake(s, NextTaker(s, steps))
    decreases |steps|
  {
    if steps != [] && !Advances(s, steps[0]) {
      var s', w := Next(s, steps[0]), NextTaker(s, steps);
      InvPreserved(s, steps[0]);
      if w.ThiefTakes? { DoorIsShut(s, steps[0], w.id); } else { DoorIsShut(s, steps[0], 0); }
      TakerAtDoor(s', steps[1..]);
    }
  }

  lemma {:induction false} VisibleAgrees<T>(s: State<T>, a: Spec<T>, w: Taker, step: Step<T>)
    requires Related(s, a, w) && Enabled(s, step) && Allowed(a, ActionOf(s, a, step))
    ensures SpecVisible(a, ActionOf(s, a, step)) == Visible(s, step)
  {
    match step
    case ThiefReturns(id) =>
      if Held(s) { assert ThiefAhead(s, a, w, id); } else { assert ThiefSim(s.top, s.thieves[id], a.thieves[id]); }
    case _ =>
  }

  lemma {:induction false} OneAction<T>(a: Spec<T>, act: Action<T>)
    requires Allowed(a, act)
    ensures SpecRun(a, [act]) && SpecAfter(a, [act]) == Do(a, act) && SpecTrace(a, [act]) == SpecVisible(a, act)
  {
    ActionFirst(a, act, []);
    assert [act] + [] == [act];
  }

  lemma {:induction false} ActionFirst<T>(a: Spec<T>, act: Action<T>, acts: seq<Action<T>>)
    requires Allowed(a, act) && SpecRun(Do(a, act), acts)
    ensures SpecRun(a, [act] + acts) && SpecAfter(a, [act] + acts) == SpecAfter(Do(a, act), acts)
    ensures SpecTrace(a, [act] + acts) == SpecVisible(a, act) + SpecTrace(Do(a, act), acts)
  {
    assert ([act] + acts)[1..] == acts;
  }

  lemma {:induction false} TwoRuns<T>(a: Spec<T>, acts: seq<Action<T>>, more: seq<Action<T>>)
    requires SpecRun(a, acts) && SpecRun(SpecAfter(a, acts), more)
    ensures SpecRun(a, acts + more) && SpecAfter(a, acts + more) == SpecAfter(SpecAfter(a, acts), more)
    decreases |acts|
  {
    if acts == [] {
      assert acts + more == more;
    } else {
      TwoRuns(Do(a, acts[0]), acts[1..], more);
      ActionFirst(a, acts[0], acts[1..] + more);
      assert acts + more == [acts[0]] + (acts[1..] + more);
    }
  }

  lemma {:induction false} TwoTraces<T>(a: Spec<T>, acts: seq<Action<T>>, more: seq<Action<T>>)
    requires SpecRun(a, acts) && SpecRun(SpecAfter(a, acts), more)
    ensures SpecRun(a, acts + more)
    ensures SpecTrace(a, acts + more) == SpecTrace(a, acts) + SpecTrace(SpecAfter(a, acts), more)
    decreases |acts|
  {
    TwoRuns(a, acts, more);
    if acts == [] {
      assert acts + more == more;
    } else {
      var act, rest := acts[0], acts[1..];
      TwoRuns(Do(a, act), rest, more);
      TwoTraces(Do(a, act), rest, more);
      ActionFirst(a, act, rest + more);
      assert acts + more == [act] + (rest + more);
    }
  }

  /** One turn that leaves nothing contested, or everything as it was. */
  lemma {:induction false} TurnSimulated<T>(s: State<T>, a: Spec<T>, w: Taker, step: Step<T>)
    requires Related(s, a, w) && Enabled(s, step) && (Held(s) && Advances(s, step) ==> w == TakerOf(step))
    ensures var act := ActionOf(s, a, step);
            && Allowed(a, act) && SpecVisible(a, act) == Visible(s, step)
            && (if Held(s) then Related(Next(s, step), Do(a, act), w) else Sim(Next(s, step), Do(a, act)))
    ensures Held(s) ==> (Held(Next(s, step)) <==> !Advances(s, step))
  {
    if Held(s) { Contested(s, a, w, step); } else { Uncontested(s, a, step); }
    VisibleAgrees(s, a, w, step);
  }

  /** The first turn of a run is matched by one action, or by two when it makes the last
      item contested: the atomic deque then gives it at once to the party that will get it. */
  lemma {:induction false} StepSimulated<T>(s: State<T>, a: Spec<T>, steps: seq<Step<T>>) returns (acts: seq<Action<T>>)
    requires Run(s, steps) && steps != [] && Related(s, a, NextTaker(s, steps))
    ensures SpecRun(a, acts) && SpecTrace(a, acts) == Visible(s, steps[0])
    ensures Related(Next(s, steps[0]), SpecAfter(a, acts), NextTaker(Next(s, steps[0]), steps[1..]))
  {
    var step, w := steps[0], NextTaker(s, steps);
    var s', w' := Next(s, step), NextTaker(Next(s, step), steps[1..]);
    TurnSimulated(s, a, w, step);
    var act := ActionOf(s, a, step);
    var a' := Do(a, act);
    OneAction(a, act);
    acts := [act];
    if Held(s') && !Held(s) {
      TakerAtDoor(s', steps[1..]);
      TakeAhead(s', a', w');
      OneAction(a', TakeAction(w'));
      TwoRuns(a, acts, [TakeAction(w')]);
      TwoTraces(a, acts, [TakeAction(w')]);
      acts := acts + [TakeAction(w')];
    }
  }

  /** Every run of the protocol is matched by a run of the atomic deque in which callers
      see the same. */
  lemma {:induction false} SimulatedRun<T>(s: State<T>, a: Spec<T>, steps: seq<Step<T>>) returns (acts: seq<Action<T>>)
    requires Run(s, steps) && Related(s, a, NextTaker(s, steps))
    ensures SpecRun(a, acts) && SpecTrace(a, acts) == Trace(s, steps)
    decreases |steps|
  {
    if steps == [] {
      acts := [];
    } else {
      var first := StepSimulated(s, a, steps);
      var rest := SimulatedRun(Next(s, steps[0]), SpecAfter(a, first), steps[1..]);
      TwoRuns(a, first, rest);
      TwoTraces(a, first, rest);
      acts := first + rest;
    }
  }

  /** The atomic deque that stands for a deque nobody is inside of. */
  ghost function Atomic<T>(s: State<T>): Spec<T>
    requires CoreInv(s)
  {
    Spec(Contents(s), |s.ring|, Quiet, map id | id in s.thieves :: Resting)
  }

  /** Main theorem. Whatever the interleaving, what the callers of the work-stealing deque
      see is exactly what they could have seen from the atomic deque, from any state on in
      which nobody is inside, a fresh deque being one. */
  lemma {:induction false} Linearizable<T>(s: State<T>, steps: seq<Step<T>>)
    requires Inv(s) && s.owner.OwnerIdle? && (forall id <- s.thieves :: s.thieves[id].ThiefIdle?)
    requires Run(s, steps)
    ensures exists acts :: SpecRun(Atomic(s), acts) && SpecTrace(Atomic(s), acts) == Trace(s, steps)
  {
    var acts := SimulatedRun(s, Atomic(s), steps);
  }

  /** One action of the atomic deque takes out its oldest item. */
  ghost predicate TakenAt<T>(a: Spec<T>, acts: seq<Action<T>>, i: nat) {
    && i < |acts| && SpecRun(a, acts[..i]) && SpecRun(a, acts[..i + 1])
    && SpecAfter(a, acts[..i]).q != [] && SpecAfter(a, acts[..i + 1]).q == SpecAfter(a, acts[..i]).q[1..]
  }

  lemma {:induction false} TakenLater<T>(a: Spec<T>, acts: seq<Action<T>>, i: nat)
    requires acts != [] && Allowed(a, acts[0]) && TakenAt(Do(a, acts[0]), acts[1..], i)
    ensures TakenAt(a, acts, i + 1)
  {
    OneAction(a, acts[0]);
    TwoRuns(a, [acts[0]], acts[1..][..i]);
    TwoRuns(a, [acts[0]], acts[1..][..i + 1]);
    assert [acts[0]] + acts[1..][..i] == acts[..i + 1];
    assert [acts[0]] + acts[1..][..i + 1] == acts[..i + 2];
  }

  /** What the specification allows a steal: it fails only on an empty deque, or after the
      oldest item has been taken out since the thief was last known to be uncontended. */
  lemma {:induction false} FailureHasReason<T>(a: Spec<T>, acts: seq<Action<T>>, id: nat)
    requires SpecRun(a, acts) && id in a.thieves && a.thieves[id] != Stealing(true)
    requires Allowed(SpecAfter(a, acts), PerformSteal(id, false))
    ensures SpecAfter(a, acts).q == [] || exists i :: TakenAt(a, acts, i)
    decreases |acts|
  {
    if acts != [] {
      var b := Do(a, acts[0]);
      if b.thieves[id] == Stealing(true) {
        OneAction(a, acts[0]);
        assert acts[..0] == [] && acts[..1] == [acts[0]];
        assert TakenAt(a, acts, 0);
      } else {
        FailureHasReason(b, acts[1..], id);
        if i :| TakenAt(b, acts[1..], i) { TakenLater(a, acts, i); }
      }
    }
  }

  lemma {:induction false} RunKeepsInv<T>(s: State<T>, steps: seq<Step<T>>)
    requires Inv(s) && Run(s, steps)
    ensures Inv(After(s, steps))
    ensures s.top <= After(s, steps).top
    decreases |steps|
  {
    if steps != [] {
      InvPreserved(s, steps[0]);
      RunKeepsInv(Next(s, steps[0]), steps[1..]);
    }
  }

  // ---------------------------------------------------------------- a steal that fails on a full deque

  lemma {:induction false} RunPrefixed<T>(s: State<T>, step: Step<T>, steps: seq<Step<T>>)
    requires Enabled(s, step) && Run(Next(s, step), steps)
    ensures Run(s, [step] + steps) && After(s, [step] + steps) == After(Next(s, step), steps)
    ensures Trace(s, [step] + steps) == Visible(s, step) + Trace(Next(s, step), steps)
  {
    assert ([step] + steps)[1..] == steps;
  }

  lemma {:induction false} RunJoined<T>(s: State<T>, steps: seq<Step<T>>, more: seq<Step<T>>)
    requires Run(s, steps) && Run(After(s, steps), more)
    ensures Run(s, steps + more) && After(s, steps + more) == After(After(s, steps), more)
    ensures Trace(s, steps + more) == Trace(s, steps) + Trace(After(s, steps), more)
    decreases |steps|
  {
    if steps == [] {
      assert steps + more == more;
    } else {
      RunJoined(Next(s, steps[0]), steps[1..], more);
      RunPrefixed(s, steps[0], steps[1..] + more);
      assert steps + more == [steps[0]] + (steps[1..] + more);
    }
  }

  /** A thief alone gets up to its compare-and-swap. */
  lemma {:induction false} Approach<T>(s: State<T>, id: nat) returns (steps: seq<Step<T>>, x: T)
    requires Inv(s) && id in s.thieves && s.thieves[id].ThiefIdle? && s.top < s.bottom
    ensures Run(s, steps) && After(s, steps) == s.(thieves := s.thieves[id := StealCas(s.top, x)])
    ensures Trace(s, steps) == [Called(CallSteal(id))]
    ensures forall i | 0 <= i < |steps| :: steps[i] == CallSteal(id) || steps[i] == ThiefAccess(id)
  {
    var go := ThiefAccess(id);
    x := s.ring[Slot(s.top, |s.ring|)];
    var s1 := Next(s, CallSteal(id));
    var s2 := Next(s1, go);
    var s3 := Next(s2, go);
    var s4 := Next(s3, go);
    assert s4 == s.(thieves := s.thieves[id := StealCas(s.top, x)]);
    RunPrefixed(s3, go, []);
    RunPrefixed(s2, go, [go] + []);
    RunPrefixed(s1, go, [go] + ([go] + []));
    steps := [CallSteal(id)] + ([go] + ([go] + ([go] + [])));
    RunPrefixed(s, CallSteal(id), [go] + ([go] + ([go] + [])));
  }

  /** Two thieves at their compare-and-swap for the same item. */
  lemma {:induction false} Collide<T>(s: State<T>, i: nat, j: nat) returns (steps: seq<Step<T>>)
    requires Inv(s) && i != j && i in s.thieves && j in s.thieves
    requires s.thieves[i].StealCas? && s.thieves[j].StealCas? && s.thieves[i].top == s.thieves[j].top == s.top
    ensures Run(s, steps) && Contents(s) != []
    ensures var s' := After(s, steps);
            && Inv(s') && s'.thieves.Keys == s.thieves.Keys && Contents(s') == Contents(s)[1..]
            && s'.thieves[i] == ThiefReturn(Nothing) && s'.thieves[j] == ThiefReturn(Took(Contents(s)[0]))
  {
    var s1 := Next(s, ThiefAccess(j));
    WinningStealTakesOldest(s, j);
    OtherThiefTurn(s1, i);
    RunPrefixed(s1, ThiefAccess(i), []);
    RunPrefixed(s, ThiefAccess(j), [ThiefAccess(i)] + []);
    steps := [ThiefAccess(j)] + ([ThiefAccess(i)] + []);
  }

  /** `contended` is needed: whenever the owner is idle and two items are inside, two
      thieves can run into each other, and one comes back with nothing although an item is
      still inside. */
  lemma {:induction false} StealLosesRace<T>(s: State<T>, i: nat, j: nat) returns (steps: seq<Step<T>>)
    requires Inv(s) && s.owner.OwnerIdle? && |Contents(s)| >= 2
    requires i != j && i in s.thieves && j in s.thieves && s.thieves[i].ThiefIdle? && s.thieves[j].ThiefIdle?
    ensures Run(s, steps)
    ensures var s' := After(s, steps);
            && Inv(s') && s'.thieves.Keys == s.thieves.Keys
            && s'.thieves[i] == ThiefReturn(Nothing) && s'.thieves[j] == ThiefReturn(Took(Contents(s)[0]))
            && Contents(s') == Contents(s)[1..] != []
  {
    var first, x := Approach(s, i);
    var s1 := After(s, first);
    RunKeepsInv(s, first);
    var second, y := Approach(s1, j);
    var s2 := After(s1, second);
    RunKeepsInv(s1, second);
    var last := Collide(s2, i, j);
    RunJoined(s1, second, last);
    RunJoined(s, first, second + last);
    steps := first + (second + last);
  }

  // ---------------------------------------------------------------- conservation

  function One(b: bool): nat { if b then 1 else 0 }

  /** How many copies of `x` this turn publishes. */
  ghost function PushedBy<T>(s: State<T>, step: Step<T>, x: T): nat {
    One(step.OwnerAccess? && s.owner.PushPublish? && s.owner.item == x)
  }

  /** ... a winning compare-and-swap of a thief carries off. */
  ghost function StolenBy<T>(s: State<T>, step: Step<T>, x: T): nat {
    One(step.ThiefAccess? && step.id in s.thieves && s.thieves[step.id].StealCas? &&
        s.thieves[step.id].top == s.top && s.thieves[step.id].item == x)
  }

  /** ... are handed to the caller of `pop_bottom`. */
  ghost function PoppedBy<T>(s: State<T>, step: Step<T>, x: T): nat {
    One(step.OwnerReturns? && s.owner == OwnerReturn(Took(x)))
  }

  /** Whether a pop under way has already taken `x` out but not yet handed it over. */
  ghost function Reserved<T>(owner: OwnerPc<T>, ring: seq<T>, x: T): nat {
    match owner
    case PopRead(b) => One(|ring| > 0 && At(ring, b) == x)
    case PopRestore(b, true) => One(|ring| > 0 && At(ring, b) == x)
    case OwnerReturn(Took(y)) => One(x == y)
    case _ => 0
  }

  /** Copies of `x` among the items inside. */
  ghost function Inside<T>(s: State<T>, x: T): nat
    requires CoreInv(s)
  {
    multiset(Contents(s))[x]
  }

  lemma {:induction false} CountEnds<T>(q: seq<T>, x: T)
    requires q != []
    ensures multiset(q)[x] == multiset(q[1..])[x] + One(q[0] == x)
    ensures multiset(q)[x] == multiset(q[..|q| - 1])[x] + One(q[|q| - 1] == x)
  {
    assert q == [q[0]] + q[1..];
    assert q == q[..|q| - 1] + [q[|q| - 1]];
  }

  lemma {:induction false} ReservedEffect<T>(s: State<T>, x: T)
    requires CoreInv(s) && Enabled(s, OwnerAccess)
    ensures OwnerRemoves(s) ==> |s.ring| > 0 && Reserved(s.owner, s.ring, x) == 0
    ensures Reserved(OwnerNext(s).owner, OwnerNext(s).ring, x) ==
            if OwnerRemoves(s) then One(At(s.ring, s.owner.bottom) == x) else Reserved(s.owner, s.ring, x)
  {
    if OwnerRemoves(s) { NewestItem(s); }
    if s.owner.PopRead? { SlotIsMod(s.owner.bottom, |s.ring|); }
  }

  lemma {:induction false} InsideEffect<T>(s: State<T>, x: T)
    requires CoreInv(s) && Enabled(s, OwnerAccess)
    ensures CoreInv(OwnerNext(s))
    ensures OwnerRemoves(s) ==> |s.ring| > 0 && Inside(OwnerNext(s), x) == Inside(s, x) - One(At(s.ring, s.owner.bottom) == x)
    ensures !OwnerRemoves(s) ==> Inside(OwnerNext(s), x) == Inside(s, x) + PushedBy(s, OwnerAccess, x)
  {
    OwnerEffect(s);
    if OwnerRemoves(s) {
      NewestItem(s);
      CountEnds(Contents(s), x);
    }
  }

  lemma {:induction false} StealEffect<T>(s: State<T>, id: nat, x: T)
    requires Inv(s) && Enabled(s, ThiefAccess(id))
    ensures CoreInv(ThiefNext(s, id))
    ensures Inside(s, x) == Inside(ThiefNext(s, id), x) + StolenBy(s, ThiefAccess(id), x)
  {
    if s.thieves[id].StealCas? && s.thieves[id].top == s.top {
      WinningStealTakesOldest(s, id);
      CountEnds(Contents(s), x);
    } else {
      OtherThiefTurn(s, id);
    }
  }

  lemma {:induction false} CallKeepsItems<T>(s: State<T>, step: Step<T>)
    requires CoreInv(s) && Enabled(s, step) && !step.OwnerAccess? && !step.ThiefAccess?
    ensures CoreInv(Next(s, step)) && Contents(Next(s, step)) == Contents(s) && Next(s, step).ring == s.ring
  {}

  lemma {:induction false} CallEffect<T>(s: State<T>, step: Step<T>, x: T)
    requires CoreInv(s) && Enabled(s, step) && !step.OwnerAccess? && !step.ThiefAccess?
    ensures CoreInv(Next(s, step)) && Inside(Next(s, step), x) == Inside(s, x)
    ensures Reserved(s.owner, s.ring, x) ==
            Reserved(Next(s, step).owner, Next(s, step).ring, x) + PoppedBy(s, step, x)
  {
    CallKeepsItems(s, step);
  }

  /** No copy of `x` is lost or duplicated between `s` and `s'`. */
  ghost predicate Balanced<T>(s: State<T>, step: Step<T>, s': State<T>, x: T) {
    && CoreInv(s) && CoreInv(s')
    && Inside(s, x) + Reserved(s.owner, s.ring, x) + PushedBy(s, step, x) ==
       Inside(s', x) + Reserved(s'.owner, s'.ring, x) + StolenBy(s, step, x) + PoppedBy(s, step, x)
  }

  lemma {:induction false} OwnerBalanced<T>(s: State<T>, x: T)
    requires CoreInv(s) && Enabled(s, OwnerAccess)
    ensures Balanced(s, OwnerAccess, OwnerNext(s), x)
  {
    InsideEffect(s, x);
    ReservedEffect(s, x);
  }

  lemma {:induction false} ThiefBalanced<T>(s: State<T>, id: nat, x: T)
    requires Inv(s) && Enabled(s, ThiefAccess(id))
    ensures Balanced(s, ThiefAccess(id), ThiefNext(s, id), x)
  {
    StealEffect(s, id, x);
    var s' := ThiefNext(s, id);
    assert s'.owner == s.owner && s'.ring == s.ring;
  }

  /** Turn by turn, no copy of `x` is lost and none is duplicated. */
  lemma {:induction false} StepConserves<T>(s: State<T>, step: Step<T>, x: T)
    requires Inv(s) && Enabled(s, step)
    ensures Inv(Next(s, step)) && Balanced(s, step, Next(s, step), x)
  {
    InvPreserved(s, step);
    if step.OwnerAccess? {
      OwnerBalanced(s, x);
    } else if step.ThiefAccess? {
      ThiefBalanced(s, step.id, x);
    } else {
      CallEffect(s, step, x);
    }
  }

  ghost function Pushed<T>(s: State<T>, steps: seq<Step<T>>, x: T): nat
    requires Run(s, steps)
    decreases |steps|
  {
    if steps == [] then 0 else PushedBy(s, steps[0], x) + Pushed(Next(s, steps[0]), steps[1..], x)
  }

  ghost function Stolen<T>(s: State<T>, steps: seq<Step<T>>, x: T): nat
    requires Run(s, steps)
    decreases |steps|
  {
    if steps == [] then 0 else StolenBy(s, steps[0], x) + Stolen(Next(s, steps[0]), steps[1..], x)
  }

  ghost function Popped<T>(s: State<T>, steps: seq<Step<T>>, x: T): nat
    requires Run(s, steps)
    decreases |steps|
  {
    if steps == [] then 0 else PoppedBy(s, steps[0], x) + Popped(Next(s, steps[0]), steps[1..], x)
  }

  lemma {:induction false} RunConserves<T>(s: State<T>, steps: seq<Step<T>>, x: T)
    requires Inv(s) && Run(s, steps)
    ensures var s' := After(s, steps);
            && Inv(s')
            && Inside(s, x) + Reserved(s.owner, s.ring, x) + Pushed(s, steps, x) ==
               Inside(s', x) + Reserved(s'.owner, s'.ring, x) + Stolen(s, steps, x) + Popped(s, steps, x)
    decreases |steps|
  {
    if steps != [] {
      StepConserves(s, steps[0], x);
      RunConserves(Next(s, steps[0]), steps[1..], x);
    }
  }

  /** Main theorem. Over every run, each value that was inside or has been pushed has been
      stolen, been popped, is still inside, or is held by the one pop under way, exactly as
      often: no item is lost and none is handed out twice. */
  lemma {:induction false} ItemsConserved<T>(s: State<T>, steps: seq<Step<T>>, x: T)
    requires Inv(s) && s.owner.OwnerIdle? && Run(s, steps)
    ensures var s' := After(s, steps);
            && Inv(s')
            && multiset(Contents(s))[x] + Pushed(s, steps, x) ==
               Stolen(s, steps, x) + Popped(s, steps, x) + multiset(Contents(s'))[x] + Reserved(s'.owner, s'.ring, x)
  {
    RunConserves(s, steps, x);
  }

  // ---------------------------------------------------------------- size of the indices

  ghost function Publishes<T>(s: State<T>, steps: seq<Step<T>>): nat
    requires Run(s, steps)
    decreases |steps|
  {
    if steps == [] then 0
    else One(steps[0].OwnerAccess? && s.owner.PushPublish?) + Publishes(Next(s, steps[0]), steps[1..])
  }

  lemma {:induction false} StepGrowth<T>(s: State<T>, step: Step<T>)
    requires Enabled(s, step) && CoreInv(s)
    ensures LogicalBottom(Next(s, step)) <= LogicalBottom(s) + One(step.OwnerAccess? && s.owner.PushPublish?)
  {}

  lemma {:induction false} IndicesGrowByPushes<T>(s: State<T>, steps: seq<Step<T>>)
    requires Inv(s) && Run(s, steps)
    ensures LogicalBottom(After(s, steps)) <= LogicalBottom(s) + Publishes(s, steps)
    decreases |steps|
  {
    if steps != [] {
      InvPreserved(s, steps[0]);
      StepGrowth(s, steps[0]);
      IndicesGrowByPushes(Next(s, steps[0]), steps[1..]);
    }
  }

  /** Both indices stay within the number of items ever pushed, so a run of fewer than
      2^64 pushes cannot wrap a 64-bit index. */
  lemma {:induction false} IndicesBounded<T>(s: State<T>, steps: seq<Step<T>>)
    requires Init(s) && Run(s, steps)
    ensures After(s, steps).top <= Publishes(s, steps)
    ensures After(s, steps).bottom <= Publishes(s, steps)
  {
    RunKeepsInv(s, steps);
    IndicesGrowByPushes(s, steps);
  }
}
