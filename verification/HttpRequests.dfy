/** The life of one request of the pool: the order of its phases, and that it can always be completed. */
module HttpRequests {
  import opened HttpPool

  /** The session whose handler an action runs. */
  predicate Concerns(a: Action, sid: SessionId) {
    match a
    case Request(id, _, _) => id == sid
    case Resolved(id, _, _) => id == sid
    case Connected(id, _, _) => id == sid
    case Written(id, _, _) => id == sid
    case HeaderRead(id, _, _, _) => id == sid
    case BodyRead(id, _, _) => id == sid
    case StopScope => false
    case Close => false
  }

  /** The network did what was asked of it. */
  predicate Succeeds(a: Action) {
    match a
    case Request(_, _, _) => true
    case Resolved(_, ok, _) => ok
    case Connected(_, ok, _) => ok
    case Written(_, ok, _) => ok
    case HeaderRead(_, header, _, _) => header == NoMoreContent || header == MoreContent
    case BodyRead(_, body, _) => body != BodyFailed
    case StopScope => true
    case Close => true
  }

  /** What a session does next when the network succeeds. */
  predicate Follows(before: Phase, after: Phase) {
    || (before == Resolving && after == Connecting)
    || (before == Connecting && after == Writing)
    || (before == Writing && after == ReadingHeader)
    || (before == ReadingHeader && after in {ReadingBody, Done})
    || (before == ReadingBody && after in {ReadingBody, Done})
  }

  /** A successful handler leads to the phase that follows, on the connection of the session. */
  lemma SuccessMovesOn(s: State, a: Action, sid: SessionId)
    requires Enabled(s, a) && sid in s.sessions && Concerns(a, sid) && Succeeds(a) && !s.stopped
    ensures sid in Next(s, a).sessions
    ensures var (before, after) := (s.sessions[sid], Next(s, a).sessions[sid]);
      && Follows(before.phase, after.phase)
      && after.connection == before.connection && after.reconnects == before.reconnects
      && (after.phase == ReadingBody && before.phase == ReadingHeader ==> a.HeaderRead? && a.header == MoreContent)
      && (after.phase == Done ==> (a.HeaderRead? && a.header == NoMoreContent) || (a.BodyRead? && a.body == BodyComplete))
  {
  }

  /** A request starts on an open connection with writing, and with resolving on any other. */
  lemma RequestStarts(s: State, sid: SessionId, c: ConnectionId, isOpen: bool)
    requires Enabled(s, Request(sid, c, isOpen))
    ensures var t := Next(s, Request(sid, c, isOpen));
      sid in t.sessions && t.sessions[sid] == Session(c, if isOpen then Writing else Resolving, 0, 0)
  {
  }

  /** A failure ends the request, or starts it over once on another connection; a stopped scope drops it. */
  lemma FailureEnds(s: State, a: Action, sid: SessionId)
    requires Enabled(s, a) && sid in s.sessions && Concerns(a, sid) && (!Succeeds(a) || s.stopped)
    ensures sid in Next(s, a).sessions
    ensures var (before, after) := (s.sessions[sid], Next(s, a).sessions[sid]);
      if s.stopped then after.phase == Dropped && after.callbacks == before.callbacks
      else || (after.phase == Done && after.callbacks == before.callbacks + 1)
           || (before.phase == ReadingHeader && after.phase == Resolving && after.connection !in s.connections
               && after.reconnects == before.reconnects + 1)
  {
  }

  /** The handlers of other sessions leave a session as it is. */
  lemma OthersStay(s: State, a: Action, sid: SessionId)
    requires Enabled(s, a) && sid in s.sessions && !Concerns(a, sid)
    ensures sid in Next(s, a).sessions && Next(s, a).sessions[sid] == s.sessions[sid]
  {
  }

  // ---------- every run ----------

  function Position(phase: Phase): nat {
    match phase
    case Resolving => 0
    case Connecting => 1
    case Writing => 2
    case ReadingHeader => 3
    case ReadingBody => 4
    case Done => 5
    case Dropped => 6
  }

  /** From i to j every handler of sid succeeded, and ran before the scope was stopped. */
  ghost predicate ErrorFree(states: seq<State>, actions: seq<Action>, i: nat, j: nat, sid: SessionId)
    requires i <= j <= |actions| < |states|
  {
    forall k :: i <= k < j && Concerns(actions[k], sid) ==> Succeeds(actions[k]) && !states[k].stopped
  }

  /** How many handlers of sid ran from i to j, the parts of a body that is not complete left out. */
  function HandlersRun(actions: seq<Action>, i: nat, j: nat, sid: SessionId): nat
    requires i <= j <= |actions|
  {
    if i == j then 0
    else
      var a := actions[j - 1];
      HandlersRun(actions, i, j - 1, sid)
        + if Concerns(a, sid) && !(a.BodyRead? && a.body == NextPart) then 1 else 0
  }

  /** Without errors a request goes through its phases in order, one for each handler, on one connection. */
  lemma {:induction false} PhasesInOrder(states: seq<State>, actions: seq<Action>, i: nat, j: nat, sid: SessionId)
    requires IsRun(states, actions) && i <= j < |states| && sid in states[i].sessions
    requires states[i].sessions[sid].phase !in {Done, Dropped}
    requires ErrorFree(states, actions, i, j, sid)
    ensures sid in states[j].sessions
    ensures var (before, after, n) := (states[i].sessions[sid], states[j].sessions[sid], HandlersRun(actions, i, j, sid));
      && after.connection == before.connection && after.reconnects == before.reconnects && after.phase != Dropped
      && (after.phase != Done ==> Position(after.phase) == Position(before.phase) + n)
      && (after.phase == Done ==> Position(before.phase) + n in {4, 5})
  {
    hide Next, Enabled;
    if i < j {
      PhasesInOrder(states, actions, i, j - 1, sid);
      if Concerns(actions[j - 1], sid) {
        NotWhenDone(states[j - 1], actions[j - 1], sid);
        SuccessMovesOn(states[j - 1], actions[j - 1], sid);
        OnePosition(states[j - 1], actions[j - 1], sid);
      } else {
        OthersStay(states[j - 1], actions[j - 1], sid);
      }
    }
  }

  /** No handler of a finished session is left to run. */
  lemma NotWhenDone(s: State, a: Action, sid: SessionId)
    requires Enabled(s, a) && sid in s.sessions && Concerns(a, sid)
    ensures s.sessions[sid].phase !in {Done, Dropped}
  {
  }

  lemma OnePosition(s: State, a: Action, sid: SessionId)
    requires Enabled(s, a) && sid in s.sessions && Concerns(a, sid) && Succeeds(a) && !s.stopped
    ensures sid in Next(s, a).sessions
    ensures var (before, after) := (s.sessions[sid].phase, Next(s, a).sessions[sid].phase);
      var step := if a.BodyRead? && a.body == NextPart then 0 else 1;
      && (after != Done ==> Position(after) == Position(before) + step)
      && (after == Done ==> step == 1 && Position(before) in {3, 4})
  {
  }

  /** A request is done after at most five successful handlers, and its callback has then been called. */
  lemma FiveHandlersSuffice(states: seq<State>, actions: seq<Action>, i: nat, j: nat, sid: SessionId)
    requires IsRun(states, actions) && i <= j < |states| && sid in states[i].sessions
    requires states[i].sessions[sid].phase !in {Done, Dropped}
    requires ErrorFree(states, actions, i, j, sid)
    requires Position(states[i].sessions[sid].phase) + HandlersRun(actions, i, j, sid) >= 5
    ensures sid in states[j].sessions && states[j].sessions[sid].phase == Done && states[j].sessions[sid].callbacks == 1
  {
    PhasesInOrder(states, actions, i, j, sid);
    CallbackFiresOnce(states, actions, j, sid);
  }

  // ---------- progress ----------

  /** There is always a connection that has not been made yet. */
  lemma {:induction false} Unused(ids: set<ConnectionId>) returns (c: ConnectionId)
    ensures forall d :: d in ids ==> d < c
  {
    c := 0;
    if ids != {} {
      var d :| d in ids;
      var rest := Unused(ids - {d});
      c := if rest <= d then d + 1 else rest;
      forall e | e in ids ensures e < c { assert e != d ==> e in ids - {d}; }
    }
  }

  lemma SuccessIsEnabled(s: State, sid: SessionId) returns (a: Action)
    requires Inv(s) && sid in s.sessions && s.sessions[sid].phase !in {Done, Dropped}
    ensures Enabled(s, a) && Concerns(a, sid) && Succeeds(a) && (a.BodyRead? ==> a.body == BodyComplete)
  {
    hide MayFinish, Counted, Exclusive, OneIdle;
    var keep := MayAlwaysFinish(s, sid, false);
    var new_ := Unused(s.connections.Keys);
    assert new_ !in s.connections;
    match s.sessions[sid].phase
    case Resolving => a := Resolved(sid, true, keep);
    case Connecting => a := Connected(sid, true, keep);
    case Writing => a := Written(sid, true, keep);
    case ReadingHeader => a := HeaderRead(sid, NoMoreContent, new_, keep);
    case ReadingBody => a := BodyRead(sid, BodyComplete, keep);
  }

  lemma OnlyStopStops(s: State, a: Action)
    requires Enabled(s, a)
    ensures Next(s, a).stopped <==> s.stopped || a == StopScope
  {
  }

  /** As long as the scope runs, the next handler of an unfinished request can succeed. */
  lemma NextCanSucceed(s: State, sid: SessionId) returns (a: Action)
    requires Inv(s) && sid in s.sessions && s.sessions[sid].phase !in {Done, Dropped} && !s.stopped
    ensures Enabled(s, a) && Concerns(a, sid) && Succeeds(a) && sid in Next(s, a).sessions
    ensures Inv(Next(s, a)) && !Next(s, a).stopped
    ensures Next(s, a).sessions[sid].phase != Dropped
    ensures Position(Next(s, a).sessions[sid].phase) > Position(s.sessions[sid].phase)
  {
    hide Next, Enabled, Inv;
    a := SuccessIsEnabled(s, sid);
    StepKeepsInv(s, a);
    OnlyStopStops(s, a);
    SuccessMovesOn(s, a, sid);
    OnePosition(s, a, sid);
  }

  /** Whatever else has happened, a request whose scope runs can still be completed, by its own handlers alone. */
  lemma {:induction false} CanComplete(s: State, sid: SessionId) returns (states: seq<State>, actions: seq<Action>)
    requires Inv(s) && sid in s.sessions && s.sessions[sid].phase != Dropped && !s.stopped
    ensures |states| == |actions| + 1 && states[0] == s
    ensures forall i :: 0 <= i < |actions| ==>
      Enabled(states[i], actions[i]) && Concerns(actions[i], sid) && states[i + 1] == Next(states[i], actions[i])
    ensures var t := states[|actions|]; sid in t.sessions && t.sessions[sid].phase == Done && t.sessions[sid].callbacks == 1
    decreases 6 - Position(s.sessions[sid].phase)
  {
    hide Next, Enabled;
    if s.sessions[sid].phase == Done {
      states, actions := [s], [];
      assert Counted(s, sid);
    } else {
      var a := NextCanSucceed(s, sid);
      var moreStates, more := CanComplete(Next(s, a), sid);
      states, actions := [s] + moreStates, [a] + more;
      forall i | 0 <= i < |actions|
        ensures Enabled(states[i], actions[i]) && Concerns(actions[i], sid) && states[i + 1] == Next(states[i], actions[i])
      {
        if i > 0 { assert states[i] == moreStates[i - 1] && actions[i] == more[i - 1]; }
      }
    }
  }
}
