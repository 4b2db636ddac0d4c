/**
 The test-and-test-and-set mutex of the C library under any number of threads. The flag knows nothing of its
 holder; mutual exclusion has to come from the exchange.
 */
module Spinlock {
  import opened Wrappers

  // Away, between the test and the exchange of mtx_lock, about to exchange in mtx_trylock, or past a successful
  // exchange.
  datatype Pc = Away | Testing | Exchanging | Trying | Holding

  datatype State = State(locked: bool, threads: seq<Pc>)

  datatype Action = Lock(t: nat) | Test(t: nat) | Exchange(t: nat) | TryLock(t: nat) | Try(t: nat) | Unlock(t: nat)

  predicate Enabled(s: State, a: Action) {
    a.t < |s.threads| &&
    match a
    case Lock(t) => s.threads[t].Away?
    case TryLock(t) => s.threads[t].Away?
    case Test(t) => s.threads[t].Testing?
    case Exchange(t) => s.threads[t].Exchanging?
    case Try(t) => s.threads[t].Trying?
    case Unlock(t) => s.threads[t].Holding?
  }

  // atomic_load, atomic_exchange and atomic_store are one step each.
  function Step(s: State, a: Action): State
    requires Enabled(s, a)
  {
    match a
    case Lock(t) => s.(threads := s.threads[t := Testing])
    case TryLock(t) => s.(threads := s.threads[t := Trying])
    case Test(t) => s.(threads := s.threads[t := if s.locked then Testing else Exchanging])
    case Exchange(t) => State(true, s.threads[t := if s.locked then Testing else Holding])
    case Try(t) => State(true, s.threads[t := if s.locked then Away else Holding])
    case Unlock(t) => State(false, s.threads[t := Away])
  }

  ghost predicate Run(s: State, acts: seq<Action>)
    decreases |acts|
  {
    acts == [] || (Enabled(s, acts[0]) && Run(Step(s, acts[0]), acts[1..]))
  }

  ghost function After(s: State, acts: seq<Action>): State
    requires Run(s, acts)
    decreases |acts|
  {
    if acts == [] then s else After(Step(s, acts[0]), acts[1..])
  }

  // mtx_init, with every thread away.
  function Init(n: nat): State { State(false, seq(n, _ => Away)) }

  ghost predicate Inv(s: State) {
    && (forall i, j | 0 <= i < |s.threads| && 0 <= j < |s.threads| && s.threads[i].Holding?
      && s.threads[j].Holding? :: i == j)
    && (s.locked <==> exists i :: 0 <= i < |s.threads| && s.threads[i].Holding?)
  }

  lemma StepKeepsInv(s: State, a: Action)
    requires Inv(s) && Enabled(s, a)
    ensures Inv(Step(s, a))
  {
    var s' := Step(s, a);
    assert forall k | 0 <= k < |s.threads| && k != a.t :: s'.threads[k] == s.threads[k];
    if s'.threads[a.t].Holding? {
      assert s'.locked;
    } else if s.locked && !s.threads[a.t].Holding? {
      var i :| 0 <= i < |s.threads| && s.threads[i].Holding?;
      assert s'.threads[i].Holding?;
    }
  }

  lemma {:induction false} RunKeepsInv(s: State, acts: seq<Action>)
    requires Inv(s) && Run(s, acts)
    ensures Inv(After(s, acts))
    decreases |acts|
  {
    if acts != [] {
      StepKeepsInv(s, acts[0]);
      RunKeepsInv(Step(s, acts[0]), acts[1..]);
    }
  }

  /** Mutual exclusion in every run, and the flag is set exactly while somebody is inside. */
  lemma MutualExclusion(n: nat, acts: seq<Action>)
    requires Run(Init(n), acts)
    ensures var s := After(Init(n), acts);
            && (forall i, j | 0 <= i < |s.threads| && 0 <= j < |s.threads| && s.threads[i].Holding?
              && s.threads[j].Holding? :: i == j)
            && (s.locked <==> exists i :: 0 <= i < |s.threads| && s.threads[i].Holding?)
  {
    RunKeepsInv(Init(n), acts);
  }

  // The simple lock the other models use: free, or held by a named thread.
  ghost function Holder(s: State): Option<nat> {
    if exists i :: 0 <= i < |s.threads| && s.threads[i].Holding?
    then var i :| 0 <= i < |s.threads| && s.threads[i].Holding?; Some(i)
    else None
  }

  /** Each step is a stutter, an acquire of the free lock by its thread, or a release by its holder. */
  lemma StepRefinesLock(s: State, a: Action)
    requires Inv(s) && Enabled(s, a)
    ensures var h, h' := Holder(s), Holder(Step(s, a));
            if a.Unlock? then h == Some(a.t) && h' == None
            else if (a.Exchange? || a.Try?) && h == None then h' == Some(a.t)
            else h' == h
  {
    var s' := Step(s, a);
    StepKeepsInv(s, a);
    assert forall k | 0 <= k < |s.threads| && k != a.t :: s'.threads[k] == s.threads[k];
    if Holder(s).Some? && !a.Unlock? {
      assert s'.threads[Holder(s).value].Holding?;
    } else if !a.Unlock? && (a.Exchange? || a.Try?) {
      assert s'.threads[a.t].Holding?;
    }
  }
}
