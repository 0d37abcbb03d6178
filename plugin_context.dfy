/**
 * src/main/java/org/basinmc/faucet/plugin/PluginContext.java: the lifecycle
 * states of a legacy plugin, numbered in the order a plugin passes through
 * them, and the step arithmetic over those numbers.
 */
module PluginContext {
  import opened JavaLang

  datatype State = LOADED | RESOLVED | PRE_INITIALIZATION | INITIALIZATION
                 | POST_INITIALIZATION | RUNNING | DE_INITIALIZATION

  /** The numeric each constant declares: 0 to 6 in declaration order. */
  function Numeric(s: State): (n: nat)
    ensures n < 7
  {
    match s
    case LOADED => 0
    case RESOLVED => 1
    case PRE_INITIALIZATION => 2
    case INITIALIZATION => 3
    case POST_INITIALIZATION => 4
    case RUNNING => 5
    case DE_INITIALIZATION => 6
  }

  /** stepMap.get(n): the state declaring numeric n, null for any other n. */
  function StepMap(n: int): (r: Option<State>)
    ensures r.Some? <==> 0 <= n < 7
    ensures r.Some? ==> Numeric(r.value) == n
  {
    if n == 0 then Some(LOADED)
    else if n == 1 then Some(RESOLVED)
    else if n == 2 then Some(PRE_INITIALIZATION)
    else if n == 3 then Some(INITIALIZATION)
    else if n == 4 then Some(POST_INITIALIZATION)
    else if n == 5 then Some(RUNNING)
    else if n == 6 then Some(DE_INITIALIZATION)
    else None
  }

  function Abs(x: int): nat { if x < 0 then -x else x }

  function Min(x: int, y: int): int { if x < y then x else y }

  function Max(x: int, y: int): int { if x < y then y else x }

  /** How many steps apart two states are. */
  function Distance(a: State, b: State): nat
  {
    Abs(Numeric(a) - Numeric(b))
  }

  /** getNextStep(target): this state when it is the target, otherwise the
      state one numeric step toward the target. */
  function NextStep(s: State, target: State): (r: State)
    ensures s == target ==> r == s
    ensures s != target ==> Distance(r, target) == Distance(s, target) - 1 && Distance(s, r) == 1
  {
    if s == target then s
    else
      var direction := Min(1, Max(-1, Numeric(target) - Numeric(s)));
      NumericInjective(s, target);
      StepMap(Numeric(s) + direction).value
  }

  /** isClosestStep(state): equal, or one numeric step apart. */
  predicate IsClosestStep(s: State, x: State)
  {
    s == x || Abs(Numeric(s) - Numeric(x)) == 1
  }

  /** isCloserTo(target, state): never closer than itself; the target itself
      is closer than anything else; otherwise the nearer to the target. */
  predicate IsCloserTo(s: State, target: State, x: State)
  {
    if s == x then false
    else if s == target then true
    else Abs(Numeric(target) - Numeric(s)) < Abs(Numeric(target) - Numeric(x))
  }

  /** getNextStep applied k times. */
  function Steps(s: State, target: State, k: nat): State
    decreases k
  {
    if k == 0 then s else Steps(NextStep(s, target), target, k - 1)
  }

  // ---------------------------------------------------------------------
  // Properties

  /** Each numeric names one state. */
  lemma NumericInjective(a: State, b: State)
    ensures Numeric(a) == Numeric(b) <==> a == b
  {
  }

  /** The map built from values() is the inverse of Numeric. */
  lemma StepMapOfNumeric(s: State)
    ensures StepMap(Numeric(s)) == Some(s)
  {
    NumericInjective(StepMap(Numeric(s)).value, s);
  }

  /** Repeating getNextStep reaches the target after exactly Distance steps,
      and not before. */
  lemma {:induction false} StepsReach(s: State, target: State, k: nat)
    requires k <= Distance(s, target)
    ensures Distance(Steps(s, target, k), target) == Distance(s, target) - k
    decreases k, 1
  {
    if k > 0 {
      StepsReachFrom(s, target, k);
    }
  }

  /** The inductive step of StepsReach, away from the target. */
  lemma {:induction false} StepsReachFrom(s: State, target: State, k: nat)
    requires 0 < k <= Distance(s, target)
    ensures Distance(Steps(s, target, k), target) == Distance(s, target) - k
    decreases k, 0
  {
    var n := NextStep(s, target);
    StepCloser(s, target, k);
    StepsReach(n, target, k - 1);
    Chain(Distance(s, target), Distance(n, target), Distance(Steps(n, target, k - 1), target), k);
  }

  lemma Chain(d0: int, d1: int, d2: int, k: int)
    requires d1 == d0 - 1 && d2 == d1 - (k - 1)
    ensures d2 == d0 - k
  {
  }

  /** The first of k steps brings the state one closer to the target. */
  lemma StepCloser(s: State, target: State, k: nat)
    requires 0 < k <= Distance(s, target)
    ensures Distance(NextStep(s, target), target) == Distance(s, target) - 1
    ensures Steps(s, target, k) == Steps(NextStep(s, target), target, k - 1)
  {
    assert s != target;
  }

  lemma StepsArrive(s: State, target: State)
    ensures Steps(s, target, Distance(s, target)) == target
    ensures forall k :: 0 <= k < Distance(s, target) ==> Steps(s, target, k) != target
  {
    StepsReach(s, target, Distance(s, target));
    NumericInjective(Steps(s, target, Distance(s, target)), target);
    forall k | 0 <= k < Distance(s, target)
      ensures Steps(s, target, k) != target
    {
      StepsReach(s, target, k);
    }
  }

  /** Each next step is a closest step. */
  lemma NextStepIsClosest(s: State, target: State)
    ensures IsClosestStep(s, NextStep(s, target))
  {
  }

  /** isClosestStep is symmetric and reflexive. */
  lemma ClosestStepSymmetric(a: State, b: State)
    ensures IsClosestStep(a, a)
    ensures IsClosestStep(a, b) <==> IsClosestStep(b, a)
  {
  }

  /** isCloserTo ranks states by their distance to the target. */
  lemma CloserByDistance(a: State, target: State, b: State)
    ensures IsCloserTo(a, target, b) <==> Distance(a, target) < Distance(b, target)
  {
    NumericInjective(a, target);
    NumericInjective(b, target);
    NumericInjective(a, b);
  }

  /** So for each target it is a strict order: irreflexive, asymmetric and
      transitive. */
  lemma CloserToOrder(a: State, b: State, c: State, target: State)
    ensures !IsCloserTo(a, target, a)
    ensures IsCloserTo(a, target, b) ==> !IsCloserTo(b, target, a)
    ensures IsCloserTo(a, target, b) && IsCloserTo(b, target, c) ==> IsCloserTo(a, target, c)
  {
    CloserByDistance(a, target, b);
    CloserByDistance(b, target, a);
    CloserByDistance(b, target, c);
    CloserByDistance(a, target, c);
  }

  /** The next step toward a target is closer to it, unless already there. */
  lemma NextStepIsCloser(s: State, target: State)
    requires s != target
    ensures IsCloserTo(NextStep(s, target), target, s)
  {
    CloserByDistance(NextStep(s, target), target, s);
  }
}
