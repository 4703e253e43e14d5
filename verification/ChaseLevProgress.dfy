/** What safety does not say: every operation takes effect and returns. The deque is
    wait-free - a call is over after a fixed number of its own accesses, whatever the
    other parties do - and an operation that is left alone has the effect it is for. */
module ChaseLevProgress {
  import opened P = ChaseLevProtocol
  import opened ChaseLevRefinement
  import opened ChaseLevRuns

  // ---------------------------------------------------------------- wait-freedom

  /** How many accesses the owner has at most before it returns. */
  function OwnerRank<T>(pc: OwnerPc<T>): nat {
    match pc
    case PushLoadTop(_) => 4
    case PushLoadBottom(_, _) => 3
    case PushWrite(_, _) => 2
    case PushPublish(_, _) => 1
    case PopLoadBottom => 6
    case PopStoreBottom(_) => 5
    case PopLoadTop(_) => 4
    case PopRestoreEmpty(_) => 1
    case PopCas(_) => 3
    case PopRestore(_, _) => 2
    case PopRead(_) => 1
    case _ => 0
  }

  function ThiefRank<T>(pc: ThiefPc<T>): nat {
    match pc
    case StealLoadTop => 4
    case StealLoadBottom(_) => 3
    case StealRead(_) => 2
    case StealCas(_, _) => 1
    case _ => 0
  }

  /** Every access of the owner brings it closer to its return, no turn of anybody else
      moves it. */
  lemma {:induction false} OwnerAdvances<T>(s: State<T>, step: Step<T>)
    requires Enabled(s, step) && !s.owner.OwnerIdle? && !step.OwnerReturns?
    ensures step.OwnerAccess? ==> OwnerRank(Next(s, step).owner) < OwnerRank(s.owner)
    ensures !step.OwnerAccess? ==> Next(s, step).owner == s.owner
    ensures !Next(s, step).owner.OwnerIdle?
  {}

  lemma {:induction false} ThiefAdvances<T>(s: State<T>, step: Step<T>, id: nat)
    requires Enabled(s, step) && id in s.thieves && !s.thieves[id].ThiefIdle? && step != ThiefReturns(id)
    ensures id in Next(s, step).thieves && !Next(s, step).thieves[id].ThiefIdle?
    ensures step == ThiefAccess(id) ==> ThiefRank(Next(s, step).thieves[id]) < ThiefRank(s.thieves[id])
    ensures step != ThiefAccess(id) ==> Next(s, step).thieves[id] == s.thieves[id]
  {}

  lemma {:induction false} HeadCount<T>(steps: seq<Step<T>>, x: Step<T>)
    requires steps != []
    ensures multiset(steps)[x] == (if steps[0] == x then 1 else 0) + multiset(steps[1..])[x]
  {
    assert steps == [steps[0]] + steps[1..];
  }

  lemma {:induction false} OwnerBounded<T>(s: State<T>, steps: seq<Step<T>>)
    requires Run(s, steps) && !s.owner.OwnerIdle? && OwnerReturns !in steps
    ensures !After(s, steps).owner.OwnerIdle?
    ensures OwnerRank(After(s, steps).owner) + multiset(steps)[OwnerAccess] <= OwnerRank(s.owner)
    decreases |steps|
  {
    if steps != [] {
      OwnerAdvances(s, steps[0]);
      HeadCount(steps, OwnerAccess);
      assert forall x | x in steps[1..] :: x in steps;
      OwnerBounded(Next(s, steps[0]), steps[1..]);
    }
  }

  lemma {:induction false} ThiefBounded<T>(s: State<T>, steps: seq<Step<T>>, id: nat)
    requires Run(s, steps) && id in s.thieves && !s.thieves[id].ThiefIdle? && ThiefReturns(id) !in steps
    ensures id in After(s, steps).thieves && !After(s, steps).thieves[id].ThiefIdle?
    ensures ThiefRank(After(s, steps).thieves[id]) + multiset(steps)[ThiefAccess(id)] <= ThiefRank(s.thieves[id])
    decreases |steps|
  {
    if steps != [] {
      ThiefAdvances(s, steps[0], id);
      HeadCount(steps, ThiefAccess(id));
      assert forall x | x in steps[1..] :: x in steps;
      ThiefBounded(Next(s, steps[0]), steps[1..], id);
    }
  }

  /** Main theorem. Whatever the thieves do in between, a push has returned after at most 4
      accesses of its own, and as long as it has not it can go on. */
  lemma {:induction false} PushWaitFree<T>(s: State<T>, x: T, steps: seq<Step<T>>)
    requires Inv(s) && s.owner == PushLoadTop(x) && Run(s, steps) && OwnerReturns !in steps
    ensures multiset(steps)[OwnerAccess] <= 4
    ensures var s' := After(s, steps);
            s'.owner.OwnerReturn? || (multiset(steps)[OwnerAccess] < 4 && Enabled(s', OwnerAccess))
  {
    OwnerBounded(s, steps);
    OwnerNotStuck(s, steps);
  }

  /** ... a pop after at most 6 ... */
  lemma {:induction false} PopWaitFree<T>(s: State<T>, steps: seq<Step<T>>)
    requires Inv(s) && s.owner == PopLoadBottom && Run(s, steps) && OwnerReturns !in steps
    ensures multiset(steps)[OwnerAccess] <= 6
    ensures var s' := After(s, steps);
            s'.owner.OwnerReturn? || (multiset(steps)[OwnerAccess] < 6 && Enabled(s', OwnerAccess))
  {
    OwnerBounded(s, steps);
    OwnerNotStuck(s, steps);
  }

  lemma {:induction false} OwnerNotStuck<T>(s: State<T>, steps: seq<Step<T>>)
    requires Inv(s) && !s.owner.OwnerIdle? && Run(s, steps) && OwnerReturns !in steps
    ensures var s' := After(s, steps); s'.owner.OwnerReturn? || (OwnerRank(s'.owner) > 0 && Enabled(s', OwnerAccess))
  {
    OwnerBounded(s, steps);
    RunKeepsInv(s, steps);
    if !After(s, steps).owner.OwnerReturn? { NeverOutOfBounds(After(s, steps), OwnerAccess); }
  }

  /** ... and a steal after at most 4. */
  lemma {:induction false} StealWaitFree<T>(s: State<T>, id: nat, steps: seq<Step<T>>)
    requires Inv(s) && id in s.thieves && s.thieves[id] == StealLoadTop && Run(s, steps) && ThiefReturns(id) !in steps
    ensures multiset(steps)[ThiefAccess(id)] <= 4
    ensures var s' := After(s, steps);
            && id in s'.thieves
            && (s'.thieves[id].ThiefReturn? || (multiset(steps)[ThiefAccess(id)] < 4 && Enabled(s', ThiefAccess(id))))
  {
    ThiefBounded(s, steps, id);
    RunKeepsInv(s, steps);
    if !After(s, steps).thieves[id].ThiefReturn? { NeverOutOfBounds(After(s, steps), ThiefAccess(id)); }
  }

  // ---------------------------------------------------------------- operations left alone

  /** A run of the owner alone that begins with an access. */
  lemma {:induction false} OwnerFirst<T>(s: State<T>, steps: seq<Step<T>>)
    requires Enabled(s, OwnerAccess) && Run(OwnerNext(s), steps) && OwnersOnly(steps)
    ensures Run(s, [OwnerAccess] + steps) && OwnersOnly([OwnerAccess] + steps)
    ensures After(s, [OwnerAccess] + steps) == After(OwnerNext(s), steps)
    ensures Trace(s, [OwnerAccess] + steps) == Trace(OwnerNext(s), steps)
  {
    RunPrefixed(s, OwnerAccess, steps);
  }

  /** Only the owner takes turns. */
  predicate OwnersOnly<T>(steps: seq<Step<T>>) {
    forall i | 0 <= i < |steps| :: !steps[i].CallSteal? && !steps[i].ThiefAccess? && !steps[i].ThiefReturns?
  }

  lemma {:induction false} OwnerLeaves<T>(s: State<T>) returns (steps: seq<Step<T>>)
    requires s.owner.OwnerReturn?
    ensures Run(s, steps) && OwnersOnly(steps) && After(s, steps) == s.(owner := OwnerIdle)
    ensures Trace(s, steps) == [OwnerGot(s.owner.result)]
  {
    steps := [OwnerReturns] + [];
    RunPrefixed(s, OwnerReturns, []);
  }

  /** `push_bottom` left alone appends and reports success, or reports a full ring. */
  lemma {:induction false} PushAlone<T>(s: State<T>, x: T) returns (steps: seq<Step<T>>)
    requires Inv(s) && s.owner.OwnerIdle?
    ensures Run(s, steps) && OwnersOnly(steps)
    ensures var s', room := After(s, steps), |Contents(s)| < |s.ring|;
            && Trace(s, steps) == [Called(CallPush(x)), OwnerGot(if room then Accepted else Rejected)]
            && CoreInv(s') && s'.owner.OwnerIdle? && s'.thieves == s.thieves && |s'.ring| == |s.ring|
            && Contents(s') == if room then Contents(s) + [x] else Contents(s)
  {
    var s0 := Next(s, CallPush(x));
    var s1 := OwnerNext(s0);
    var s2 := OwnerNext(s1);
    assert Contents(s2) == Contents(s);
    if |Contents(s)| < |s.ring| {
      steps := PushGoesOn(s2, x);
    } else {
      steps := OwnerLeaves(s2);
    }
    OwnerFirst(s1, steps);
    OwnerFirst(s0, [OwnerAccess] + steps);
    steps := [OwnerAccess] + ([OwnerAccess] + steps);
    RunPrefixed(s, CallPush(x), steps);
    steps := [CallPush(x)] + steps;
  }

  lemma {:induction false} PushGoesOn<T>(s: State<T>, x: T) returns (steps: seq<Step<T>>)
    requires CoreInv(s) && s.owner == PushWrite(x, s.bottom)
    ensures Run(s, steps) && OwnersOnly(steps) && Trace(s, steps) == [OwnerGot(Accepted)]
    ensures var s' := After(s, steps);
            && CoreInv(s') && s'.owner.OwnerIdle? && s'.thieves == s.thieves && |s'.ring| == |s.ring|
            && Contents(s') == Contents(s) + [x]
  {
    OwnerEffect(s);
    var s1 := OwnerNext(s);
    OwnerEffect(s1);
    var s2 := OwnerNext(s1);
    steps := OwnerLeaves(s2);
    OwnerFirst(s1, steps);
    OwnerFirst(s, [OwnerAccess] + steps);
    steps := [OwnerAccess] + ([OwnerAccess] + steps);
  }

  /** `pop_bottom` left alone takes the newest item, or nothing from an empty deque. */
  lemma {:induction false} PopAlone<T>(s: State<T>) returns (steps: seq<Step<T>>)
    requires Inv(s) && s.owner.OwnerIdle?
    ensures Run(s, steps) && OwnersOnly(steps)
    ensures var s', q := After(s, steps), Contents(s);
            && Trace(s, steps) == [Called(CallPop), OwnerGot(if q == [] then Nothing else Took(q[|q| - 1]))]
            && CoreInv(s') && s'.owner.OwnerIdle? && s'.thieves == s.thieves && s'.ring == s.ring
            && Contents(s') == if q == [] then [] else q[..|q| - 1]
  {
    var s0, s1 := PopStarts(s);
    if s.bottom == 0 {
      steps := OwnerLeaves(s1);
    } else {
      steps := PopGoesOn(s1);
    }
    OwnerFirst(s0, steps);
    steps := [OwnerAccess] + steps;
    RunPrefixed(s, CallPop, steps);
    steps := [CallPop] + steps;
  }

  lemma {:induction false} PopStarts<T>(s: State<T>) returns (s0: State<T>, s1: State<T>)
    requires Inv(s) && s.owner.OwnerIdle?
    ensures s0 == Next(s, CallPop) && Enabled(s0, OwnerAccess) && s1 == OwnerNext(s0)
    ensures CoreInv(s1) && Contents(s1) == Contents(s) && s1 == s.(owner := s1.owner)
    ensures if s.bottom == 0 then Contents(s) == [] && s1.owner == OwnerReturn(Nothing) else s1.owner == PopStoreBottom(s.bottom - 1)
  {
    s0 := Next(s, CallPop);
    s1 := OwnerNext(s0);
  }

  lemma {:induction false} PopGoesOn<T>(s: State<T>) returns (steps: seq<Step<T>>)
    requires CoreInv(s) && s.owner.PopStoreBottom?
    ensures Run(s, steps) && OwnersOnly(steps)
    ensures var s', q := After(s, steps), Contents(s);
            && Trace(s, steps) == [OwnerGot(if q == [] then Nothing else Took(q[|q| - 1]))]
            && CoreInv(s') && s'.owner.OwnerIdle? && s'.thieves == s.thieves && s'.ring == s.ring
            && Contents(s') == if q == [] then [] else q[..|q| - 1]
  {
    OwnerEffect(s);
    var s1 := OwnerNext(s);
    OwnerEffect(s1);
    var s2 := OwnerNext(s1);
    if s.top > s1.bottom {
      OwnerEffect(s2);
      steps := OwnerLeaves(OwnerNext(s2));
      OwnerFirst(s2, steps);
      steps := [OwnerAccess] + steps;
    } else if s.top == s1.bottom {
      steps := PopLast(s2);
    } else {
      NewestItem(s1);
      steps := PopReads(s2);
    }
    OwnerFirst(s1, steps);
    OwnerFirst(s, [OwnerAccess] + steps);
    steps := [OwnerAccess] + ([OwnerAccess] + steps);
  }

  lemma {:induction false} PopReads<T>(s: State<T>) returns (steps: seq<Step<T>>)
    requires CoreInv(s) && s.owner.PopRead?
    ensures Run(s, steps) && OwnersOnly(steps) && Trace(s, steps) == [OwnerGot(Took(At(s.ring, s.owner.bottom)))]
    ensures var s' := After(s, steps);
            && CoreInv(s') && s'.owner.OwnerIdle? && s'.thieves == s.thieves && s'.ring == s.ring
            && Contents(s') == Contents(s)
  {
    SlotIsMod(s.owner.bottom, |s.ring|);
    OwnerEffect(s);
    steps := OwnerLeaves(OwnerNext(s));
    OwnerFirst(s, steps);
    steps := [OwnerAccess] + steps;
  }

  lemma {:induction false} PopLast<T>(s: State<T>) returns (steps: seq<Step<T>>)
    requires CoreInv(s) && s.owner.PopCas? && s.top == s.owner.bottom && |s.ring| > 0
    ensures Run(s, steps) && OwnersOnly(steps) && Trace(s, steps) == [OwnerGot(Took(Contents(s)[0]))]
    ensures var s' := After(s, steps);
            && CoreInv(s') && s'.owner.OwnerIdle? && s'.thieves == s.thieves && s'.ring == s.ring
            && Contents(s) == [Contents(s)[0]] && Contents(s') == []
  {
    HeldContents(s);
    OwnerEffect(s);
    var s1 := OwnerNext(s);
    OwnerEffect(s1);
    var s2 := OwnerNext(s1);
    steps := PopReads(s2);
    OwnerFirst(s1, steps);
    OwnerFirst(s, [OwnerAccess] + steps);
    steps := [OwnerAccess] + ([OwnerAccess] + steps);
  }

  /** `steal_top` left alone takes the oldest item, or nothing from an empty deque. */
  lemma {:induction false} StealAlone<T>(s: State<T>, id: nat) returns (steps: seq<Step<T>>)
    requires Inv(s) && s.owner.OwnerIdle? && id in s.thieves && s.thieves[id].ThiefIdle?
    ensures Run(s, steps) && ThiefOnly(steps, id)
    ensures var s', q := After(s, steps), Contents(s);
            && Trace(s, steps) == [Called(CallSteal(id)), ThiefGot(id, if q == [] then Nothing else Took(q[0]))]
            && CoreInv(s') && s'.owner == s.owner && s'.thieves == s.thieves && s'.ring == s.ring
            && Contents(s') == if q == [] then [] else q[1..]
  {
    if s.top < s.bottom {
      steps := StealOne(s, id);
    } else {
      steps := StealNone(s, id);
    }
  }

  /** Only thief `id` takes turns. */
  predicate ThiefOnly<T>(steps: seq<Step<T>>, id: nat) {
    forall i | 0 <= i < |steps| :: steps[i] == CallSteal(id) || steps[i] == ThiefAccess(id) || steps[i] == ThiefReturns(id)
  }

  lemma {:induction false} ThiefLeaves<T>(s: State<T>, id: nat) returns (steps: seq<Step<T>>)
    requires id in s.thieves && s.thieves[id].ThiefReturn?
    ensures steps == [ThiefReturns(id)] && Run(s, steps) && After(s, steps) == s.(thieves := s.thieves[id := ThiefIdle])
    ensures Trace(s, steps) == [ThiefGot(id, s.thieves[id].result)]
  {
    steps := [ThiefReturns(id)] + [];
    RunPrefixed(s, ThiefReturns(id), []);
  }

  lemma {:induction false} StealOne<T>(s: State<T>, id: nat) returns (steps: seq<Step<T>>)
    requires Inv(s) && s.owner.OwnerIdle? && id in s.thieves && s.thieves[id].ThiefIdle? && s.top < s.bottom
    ensures Run(s, steps) && ThiefOnly(steps, id)
    ensures Contents(s) != [] && Trace(s, steps) == [Called(CallSteal(id)), ThiefGot(id, Took(Contents(s)[0]))]
    ensures var s' := After(s, steps);
            && CoreInv(s') && s'.owner == s.owner && s'.thieves == s.thieves && s'.ring == s.ring
            && Contents(s') == Contents(s)[1..]
  {
    var first, x := Approach(s, id);
    var s1 := After(s, first);
    RunKeepsInv(s, first);
    Approached(s, s1, id, StealCas(s.top, x));
    var last := StealWins(s1, id);
    RunJoined(s, first, last);
    steps := first + last;
  }

  lemma {:induction false} Approached<T>(s: State<T>, s': State<T>, id: nat, pc: ThiefPc<T>)
    requires CoreInv(s) && CoreInv(s') && id in s.thieves && s.thieves[id].ThiefIdle?
    requires s' == s.(thieves := s.thieves[id := pc])
    ensures Contents(s') == Contents(s) && s'.thieves[id := ThiefIdle] == s.thieves
  {
    assert s'.thieves[id := ThiefIdle] == s.thieves;
  }

  lemma {:induction false} StealWins<T>(s: State<T>, id: nat) returns (steps: seq<Step<T>>)
    requires Inv(s) && s.owner.OwnerIdle? && id in s.thieves && s.thieves[id].StealCas? && s.thieves[id].top == s.top
    ensures Run(s, steps) && ThiefOnly(steps, id)
    ensures Contents(s) != [] && Trace(s, steps) == [ThiefGot(id, Took(Contents(s)[0]))]
    ensures var s' := After(s, steps);
            && CoreInv(s') && s'.owner == s.owner && s'.thieves == s.thieves[id := ThiefIdle] && s'.ring == s.ring
            && Contents(s') == Contents(s)[1..]
  {
    WinningStealTakesOldest(s, id);
    var s1 := ThiefNext(s, id);
    steps := ThiefLeaves(s1, id);
    RunPrefixed(s, ThiefAccess(id), steps);
    steps := [ThiefAccess(id)] + steps;
  }

  lemma {:induction false} StealNone<T>(s: State<T>, id: nat) returns (steps: seq<Step<T>>)
    requires Inv(s) && s.owner.OwnerIdle? && id in s.thieves && s.thieves[id].ThiefIdle? && s.top >= s.bottom
    ensures Run(s, steps) && ThiefOnly(steps, id)
    ensures Contents(s) == [] && Trace(s, steps) == [Called(CallSteal(id)), ThiefGot(id, Nothing)]
    ensures After(s, steps) == s
  {
    var go := ThiefAccess(id);
    var s1 := Next(s, CallSteal(id));
    var s2 := Next(s1, go);
    var s3 := Next(s2, go);
    var last := ThiefLeaves(s3, id);
    RunPrefixed(s2, go, last);
    RunPrefixed(s1, go, [go] + last);
    RunPrefixed(s, CallSteal(id), [go] + ([go] + last));
    steps := [CallSteal(id)] + ([go] + ([go] + last));
    assert s3.thieves[id := ThiefIdle] == s.thieves;
  }

  // ---------------------------------------------------------------- steals that fail

  /** Thief `id` is inside a call in which it loaded index `low` or a later one. */
  ghost predicate Since<T>(pc: ThiefPc<T>, low: nat) {
    match pc
    case StealLoadTop => true
    case StealLoadBottom(t) => t >= low
    case StealRead(t) => t >= low
    case StealCas(t, _) => t >= low
    case ThiefReturn(_) => true
    case ThiefIdle => false
  }

  /** At some moment of the run the deque reports to be empty. */
  ghost predicate SeenEmpty<T>(s: State<T>, steps: seq<Step<T>>)
    requires Run(s, steps)
    decreases |steps|
  {
    s.bottom <= s.top || (steps != [] && SeenEmpty(Next(s, steps[0]), steps[1..]))
  }

  lemma {:induction false} FailedSteal<T>(s: State<T>, steps: seq<Step<T>>, id: nat)
    requires Inv(s) && Run(s, steps) && id in s.thieves && !s.thieves[id].ThiefReturn? && Since(s.thieves[id], s.top)
    requires id in After(s, steps).thieves && After(s, steps).thieves[id] == ThiefReturn(Nothing)
    requires ThiefReturns(id) !in steps
    ensures SeenEmpty(s, steps) || After(s, steps).top > s.top
    decreases |steps|
  {
    if steps != [] && s.bottom > s.top {
      var s' := Next(s, steps[0]);
      assert ThiefInv(s, s.thieves[id]);
      InvPreserved(s, steps[0]);
      RunKeepsInv(s', steps[1..]);
      assert forall x | x in steps[1..] :: x in steps;
      if s'.top == s.top {
        StillTrying(s, steps[0], id);
        FailedSteal(s', steps[1..], id);
      } else {
        TopMoves(s, steps[0]);
      }
    }
  }

  lemma {:induction false} SeenWhen<T>(s: State<T>, steps: seq<Step<T>>) returns (n: nat)
    requires Run(s, steps) && SeenEmpty(s, steps)
    ensures n <= |steps| && Run(s, steps[..n]) && After(s, steps[..n]).bottom <= After(s, steps[..n]).top
    decreases |steps|
  {
    if s.bottom <= s.top {
      n := 0;
    } else {
      n := SeenWhen(Next(s, steps[0]), steps[1..]);
      RunPrefixed(s, steps[0], steps[1..][..n]);
      n := n + 1;
      assert steps[..n] == [steps[0]] + steps[1..][..n - 1];
    }
  }

  /** Main theorem. A steal comes back with nothing only if at some moment of its call the
      deque showed itself empty, `m_bottom` being at or below `m_top`, or if somebody else
      has moved `m_top` since the call. */
  lemma {:induction false} FailedStealExplained<T>(s: State<T>, steps: seq<Step<T>>, id: nat)
    requires Inv(s) && Run(s, steps) && id in s.thieves && s.thieves[id] == StealLoadTop
    requires id in After(s, steps).thieves && After(s, steps).thieves[id] == ThiefReturn(Nothing)
    requires ThiefReturns(id) !in steps
    ensures || After(s, steps).top > s.top
            || exists n | 0 <= n <= |steps| :: Run(s, steps[..n]) && After(s, steps[..n]).bottom <= After(s, steps[..n]).top
  {
    FailedSteal(s, steps, id);
    if SeenEmpty(s, steps) { var n := SeenWhen(s, steps); }
  }

  lemma {:induction false} TopMoves<T>(s: State<T>, step: Step<T>)
    requires Inv(s) && Enabled(s, step)
    ensures Next(s, step).top >= s.top
  {}

  /** As long as `m_top` stands and items show, a steal does not fail. */
  lemma {:induction false} StillTrying<T>(s: State<T>, step: Step<T>, id: nat)
    requires Inv(s) && Enabled(s, step) && step != ThiefReturns(id) && s.bottom > s.top && Next(s, step).top == s.top
    requires id in s.thieves && !s.thieves[id].ThiefReturn? && Since(s.thieves[id], s.top)
    ensures id in Next(s, step).thieves && !Next(s, step).thieves[id].ThiefReturn? && Since(Next(s, step).thieves[id], s.top)
  {
    assert ThiefInv(s, s.thieves[id]);
  }
}
