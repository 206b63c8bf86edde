/** ScopeRunner: a stop/continue protocol on one atomic counter, for any number of threads. */
module ScopeRunner {

  type Thread = nat
  type Lock = nat

  /** Where a thread is inside continue_lock or stop; each step performs one atomic access to the counter. */
  datatype Pc =
    | Outside
    | Loading                  // continue_lock, before the initial load
    | Acquiring(expected: int) // continue_lock, at the loop condition
    | Stopping                 // stop, at the loop condition, where `expected` is 0

  /** `live` holds the SharedLock objects that exist; `stopped` records that some call of stop has returned. */
  datatype State = State(count: int, live: set<Lock>, pcs: map<Thread, Pc>, stopped: bool)

  datatype Action =
    | CallContinue(t: Thread)
    | Load(t: Thread)
    | Acquire(t: Thread, lock: Lock, spurious: bool)
    | GiveUp(t: Thread)
    | CallStop(t: Thread)
    | Stop(t: Thread, spurious: bool)
    | Release(lock: Lock)

  function PcOf(s: State, t: Thread): Pc {
    if t in s.pcs then s.pcs[t] else Outside
  }

  function Goto(s: State, t: Thread, pc: Pc): State {
    s.(pcs := s.pcs[t := pc])
  }

  predicate Init(s: State) {
    s == State(0, {}, map[], false)
  }

  predicate Enabled(s: State, a: Action) {
    match a
    case CallContinue(t) => PcOf(s, t).Outside?
    case Load(t) => PcOf(s, t).Loading?
    case Acquire(t, lock, _) => PcOf(s, t).Acquiring? && PcOf(s, t).expected >= 0 && lock !in s.live
    case GiveUp(t) => PcOf(s, t).Acquiring? && PcOf(s, t).expected < 0
    case CallStop(t) => PcOf(s, t).Outside?
    case Stop(t, _) => PcOf(s, t).Stopping?
    case Release(lock) => lock in s.live
  }

  /** The state after an action. A failed compare_exchange_weak, spurious or not, loads the counter into `expected`. */
  function Next(s: State, a: Action): State
    requires Enabled(s, a)
  {
    match a
    case CallContinue(t) => Goto(s, t, Loading)
    case Load(t) => Goto(s, t, Acquiring(s.count))
    case Acquire(t, lock, spurious) =>
      if s.count == PcOf(s, t).expected && !spurious then
        Goto(s, t, Outside).(count := s.count + 1, live := s.live + {lock})
      else
        Goto(s, t, Acquiring(s.count))
    case GiveUp(t) => Goto(s, t, Outside)
    case CallStop(t) => Goto(s, t, Stopping)
    case Stop(t, spurious) =>
      if s.count == 0 && !spurious then Goto(s, t, Outside).(count := -1, stopped := true)
      else if s.count < 0 then Goto(s, t, Outside).(stopped := true)
      else s
    case Release(lock) => s.(count := s.count - 1, live := s.live - {lock})
  }

  /** The counter is -1 and no lock exists, or it is the number of locks. A stop returns only in the first case. */
  predicate Inv(s: State) {
    && (if s.count == -1 then s.live == {} else s.count == |s.live|)
    && (s.stopped ==> s.count == -1)
  }

  lemma StepKeepsInv(s: State, a: Action)
    requires Inv(s) && Enabled(s, a)
    ensures Inv(Next(s, a))
    ensures s.count == -1 ==> Next(s, a).count == -1
    ensures s.stopped ==> Next(s, a).stopped
  {
    match a
    case Release(lock) =>
      assert |s.live| == |s.live - {lock}| + 1;
    case _ =>
  }

  /** A run: the states passed through, and the actions between them, of all threads interleaved. */
  ghost predicate IsRun(states: seq<State>, actions: seq<Action>) {
    && |states| == |actions| + 1 && Init(states[0])
    && forall i :: 0 <= i < |actions| ==> Enabled(states[i], actions[i]) && states[i + 1] == Next(states[i], actions[i])
  }

  lemma {:induction false} RunKeepsInv(states: seq<State>, actions: seq<Action>, i: nat)
    requires IsRun(states, actions) && i < |states|
    ensures Inv(states[i])
  {
    hide Next, Enabled;
    if i > 0 {
      RunKeepsInv(states, actions, i - 1);
      StepKeepsInv(states[i - 1], actions[i - 1]);
    }
  }

  lemma {:induction false} StoppedForever(states: seq<State>, actions: seq<Action>, i: nat, j: nat)
    requires IsRun(states, actions) && i <= j < |states|
    ensures states[i].count == -1 ==> states[j].count == -1
    ensures states[i].stopped ==> states[j].stopped
  {
    hide Next, Enabled, Inv;
    if i < j {
      StoppedForever(states, actions, i, j - 1);
      RunKeepsInv(states, actions, j - 1);
      StepKeepsInv(states[j - 1], actions[j - 1]);
    }
  }

  /**
    Once any call of stop has returned, no lock exists at any later moment; in particular none is granted again,
    and stop has waited for all that existed.
  */
  lemma StopExcludesLocks(states: seq<State>, actions: seq<Action>, i: nat, j: nat)
    requires IsRun(states, actions) && i <= j < |states| && states[i].stopped
    ensures states[j].live == {} && states[j].count == -1
  {
    StoppedForever(states, actions, i, j);
    RunKeepsInv(states, actions, j);
  }

  /** The value the counter can have at any moment of any run. */
  lemma CounterCountsLocks(states: seq<State>, actions: seq<Action>, i: nat)
    requires IsRun(states, actions) && i < |states|
    ensures states[i].count == if states[i].count == -1 then -1 else |states[i].live|
    ensures states[i].count == -1 ==> states[i].live == {}
  {
    RunKeepsInv(states, actions, i);
  }

  /** continue_lock returns null only when the protocol has been stopped. */
  ghost predicate Informed(s: State) {
    forall t :: t in s.pcs && s.pcs[t].Acquiring? && s.pcs[t].expected < 0 ==> s.count == -1
  }

  lemma {:induction false} GivingUpMeansStopped(states: seq<State>, actions: seq<Action>, i: nat)
    requires IsRun(states, actions) && i < |states|
    ensures Informed(states[i])
  {
    if i > 0 {
      GivingUpMeansStopped(states, actions, i - 1);
      RunKeepsInv(states, actions, i - 1);
      StepKeepsInv(states[i - 1], actions[i - 1]);
    }
  }

  // ---------- the object, one atomic access per method ----------

  class Runner {
    var count: int
    ghost var state: State

    ghost predicate Valid()
      reads this
    {
      count == state.count && Inv(state)
    }

    constructor ()
      ensures Valid() && Init(state)
    {
      count := 0;
      state := State(0, {}, map[], false);
    }

    /** compare_exchange_weak: on failure the current value is reported. */
    method CompareExchangeWeak(expected: int, desired: int, spurious: bool) returns (ok: bool, actual: int)
      modifies `count
      ensures ok == (old(count) == expected && !spurious)
      ensures count == if ok then desired else old(count)
      ensures actual == if ok then expected else old(count)
    {
      ok, actual := count == expected && !spurious, expected;
      if ok { count := desired; } else { actual := count; }
    }

    /** `long expected = count` in continue_lock. */
    method LoadExpected(ghost t: Thread) returns (expected: int)
      requires Valid() && Enabled(state, Load(t))
      modifies this
      ensures Valid() && state == Next(old(state), Load(t)) && PcOf(state, t) == Acquiring(expected)
    {
      expected := count;
      state := Next(state, Load(t));
    }

    /** One evaluation of the loop condition of continue_lock; the lock is handed out when it succeeds. */
    method TryAcquire(ghost t: Thread, expected: int, ghost lock: Lock, spurious: bool) returns (granted: bool, actual: int)
      requires Valid() && PcOf(state, t) == Acquiring(expected) && Enabled(state, Acquire(t, lock, spurious))
      modifies this
      ensures Valid() && state == Next(old(state), Acquire(t, lock, spurious))
      ensures granted <==> lock in state.live
      ensures !granted ==> PcOf(state, t) == Acquiring(actual)
    {
      StepKeepsInv(state, Acquire(t, lock, spurious));
      granted, actual := CompareExchangeWeak(expected, expected + 1, spurious);
      state := Next(state, Acquire(t, lock, spurious));
    }

    /** One round of the loop of stop; `done` tells whether the call returns. */
    method TryStop(ghost t: Thread, spurious: bool) returns (done: bool)
      requires Valid() && Enabled(state, Stop(t, spurious))
      modifies this
      ensures Valid() && state == Next(old(state), Stop(t, spurious))
      ensures done <==> PcOf(state, t) == Outside
      ensures done ==> state.live == {}
    {
      StepKeepsInv(state, Stop(t, spurious));
      var ok, expected := CompareExchangeWeak(0, -1, spurious);
      done := ok || expected < 0;
      state := Next(state, Stop(t, spurious));
    }

    /** The destructor of SharedLock: fetch_sub(1). */
    method ReleaseLock(ghost lock: Lock)
      requires Valid() && Enabled(state, Release(lock))
      modifies this
      ensures Valid() && state == Next(old(state), Release(lock))
    {
      StepKeepsInv(state, Release(lock));
      count := count - 1;
      state := Next(state, Release(lock));
    }
  }
}
