/** The connection pool and the sessions of the HTTP client. Each asynchronous handler is one atomic step. */
module HttpPool {

  type ConnectionId = nat
  type SessionId = nat

  datatype Connection = Connection(inUse: bool, attemptReconnect: bool)

  /** What a session waits for. Dropped: its handler ran after the scope was stopped and returned at once. */
  datatype Phase = Resolving | Connecting | Writing | ReadingHeader | ReadingBody | Done | Dropped

  datatype Session = Session(connection: ConnectionId, phase: Phase, callbacks: nat, reconnects: nat)

  datatype State = State(
    connections: map<ConnectionId, Connection>, // every Connection object ever made
    pool: set<ConnectionId>,                    // the member `connections`
    sessions: map<SessionId, Session>,
    stopped: bool)                              // handler_runner->stop() has returned

  /** The outcome of reading the response header, in the order the handler checks it. */
  datatype HeaderOutcome = BufferFull | Malformed | NoMoreContent | MoreContent | HeaderFailed(aborted: bool)
  datatype BodyOutcome = NextPart | BodyComplete | BodyFailed

  /** The nondeterministic choices: which idle connection, which fresh object, what the network did. */
  datatype Action =
    | Request(sid: SessionId, c: ConnectionId, isOpen: bool)
    | Resolved(sid: SessionId, ok: bool, keep: ConnectionId)
    | Connected(sid: SessionId, ok: bool, keep: ConnectionId)
    | Written(sid: SessionId, ok: bool, keep: ConnectionId)
    | HeaderRead(sid: SessionId, header: HeaderOutcome, fresh_: ConnectionId, keep: ConnectionId)
    | BodyRead(sid: SessionId, body: BodyOutcome, keep: ConnectionId)
    | StopScope
    | Close

  predicate Unfinished(s: State, sid: SessionId) {
    sid in s.sessions && s.sessions[sid].phase != Done
  }

  function Idle(s: State, pool: set<ConnectionId>): set<ConnectionId> {
    set c | c in pool && c in s.connections && !s.connections[c].inUse
  }

  // ---------- the effects of the handlers ----------

  /** get_connection: an idle connection of the pool if there is one, and a new one otherwise. */
  predicate MayGet(s: State, c: ConnectionId) {
    if Idle(s, s.pool) != {} then c in Idle(s, s.pool) else c !in s.connections
  }

  function GetConnection(s: State, c: ConnectionId): State {
    s.(connections := s.connections[c := Connection(true, true)], pool := s.pool + {c})
  }

  /** connect(session): a closed socket is resolved and connected first. */
  function AfterConnect(isOpen: bool): Phase { if isOpen then Writing else Resolving }

  function WithPhase(s: State, sid: SessionId, phase: Phase): State
    requires sid in s.sessions
  {
    s.(sessions := s.sessions[sid := s.sessions[sid].(phase := phase)])
  }

  /** The pool after the session callback: connections in use, and one idle connection if there is any. */
  function Pruned(s: State, failed: set<ConnectionId>, keep: ConnectionId): set<ConnectionId> {
    var rest := s.pool - failed;
    var idle := Idle(s, rest);
    (rest - idle) + if idle == {} then {} else {keep}
  }

  predicate MayKeep(s: State, failed: set<ConnectionId>, keep: ConnectionId) {
    Idle(s, s.pool - failed) == {} || keep in Idle(s, s.pool - failed)
  }

  /** connection->in_use = false. */
  function Released(s: State, sid: SessionId): State
    requires sid in s.sessions && s.sessions[sid].connection in s.connections
  {
    var c := s.sessions[sid].connection;
    s.(connections := s.connections[c := s.connections[c].(inUse := false)])
  }

  function FailedSet(s: State, sid: SessionId, failed: bool): set<ConnectionId>
    requires sid in s.sessions
  {
    if failed then {s.sessions[sid].connection} else {}
  }

  /** session->callback(session->connection, ec): release, prune, and call the user. */
  function Callback(s: State, sid: SessionId, failed: bool, keep: ConnectionId): State
    requires sid in s.sessions && s.sessions[sid].connection in s.connections
  {
    var r := Released(s, sid);
    var session := s.sessions[sid];
    r.(pool := Pruned(r, FailedSet(s, sid, failed), keep),
       sessions := s.sessions[sid := session.(phase := Done, callbacks := session.callbacks + 1)])
  }

  /** A failed header read on a pooled connection: it is replaced by a new one, and the request starts over. */
  predicate Reconnects(s: State, sid: SessionId, aborted: bool)
    requires sid in s.sessions && s.sessions[sid].connection in s.connections
  {
    var c := s.sessions[sid].connection;
    s.connections[c].attemptReconnect && !aborted && c in s.pool
  }

  function Reconnected(s: State, sid: SessionId, new_: ConnectionId): State
    requires sid in s.sessions
  {
    var session := s.sessions[sid];
    s.(connections := s.connections[new_ := Connection(true, false)],
       pool := s.pool - {session.connection} + {new_},
       sessions := s.sessions[sid := session.(connection := new_, phase := Resolving, reconnects := session.reconnects + 1)])
  }

  /** A successfully read header allows the connection to be replaced again. */
  function HeaderAccepted(s: State, sid: SessionId): State
    requires sid in s.sessions && s.sessions[sid].connection in s.connections
  {
    var c := s.sessions[sid].connection;
    s.(connections := s.connections[c := s.connections[c].(attemptReconnect := true)])
  }

  // ---------- steps ----------

  /** The handler of session sid may run now. */
  predicate Waiting(s: State, sid: SessionId, phase: Phase) {
    sid in s.sessions && s.sessions[sid].phase == phase && s.sessions[sid].connection in s.connections
  }

  predicate MayFinish(s: State, sid: SessionId, failed: bool, keep: ConnectionId)
    requires sid in s.sessions && s.sessions[sid].connection in s.connections
  {
    MayKeep(Released(s, sid), FailedSet(s, sid, failed), keep)
  }

  predicate Enabled(s: State, a: Action) {
    match a
    case Request(sid, c, _) => sid !in s.sessions && MayGet(s, c)
    case Resolved(sid, ok, keep) => Waiting(s, sid, Resolving) && (!ok ==> MayFinish(s, sid, true, keep))
    case Connected(sid, ok, keep) => Waiting(s, sid, Connecting) && (!ok ==> MayFinish(s, sid, true, keep))
    case Written(sid, ok, keep) => Waiting(s, sid, Writing) && (!ok ==> MayFinish(s, sid, true, keep))
    case HeaderRead(sid, header, new_, keep) =>
      Waiting(s, sid, ReadingHeader) && new_ !in s.connections && MayFinish(s, sid, header != NoMoreContent, keep)
    case BodyRead(sid, body, keep) => Waiting(s, sid, ReadingBody) && MayFinish(s, sid, body == BodyFailed, keep)
    case StopScope => true
    case Close => true
  }

  /** One step of a handler that either moves on or reports an error. */
  function MoveOn(s: State, sid: SessionId, ok: bool, phase: Phase, keep: ConnectionId): State
    requires sid in s.sessions && s.sessions[sid].connection in s.connections
  {
    if s.stopped then WithPhase(s, sid, Dropped)
    else if ok then WithPhase(s, sid, phase)
    else Callback(s, sid, true, keep)
  }

  function AfterHeader(s: State, sid: SessionId, header: HeaderOutcome, new_: ConnectionId, keep: ConnectionId): State
    requires sid in s.sessions && s.sessions[sid].connection in s.connections
  {
    match header
    case BufferFull => Callback(s, sid, true, keep)
    case Malformed => Callback(HeaderAccepted(s, sid), sid, true, keep)
    case NoMoreContent => Callback(HeaderAccepted(s, sid), sid, false, keep)
    case MoreContent => WithPhase(HeaderAccepted(s, sid), sid, ReadingBody)
    case HeaderFailed(aborted) =>
      if Reconnects(s, sid, aborted) then Reconnected(s, sid, new_) else Callback(s, sid, true, keep)
  }

  function AfterBody(s: State, sid: SessionId, body: BodyOutcome, keep: ConnectionId): State
    requires sid in s.sessions && s.sessions[sid].connection in s.connections
  {
    match body
    case NextPart => s
    case BodyComplete => Callback(s, sid, false, keep)
    case BodyFailed => Callback(s, sid, true, keep)
  }

  function Next(s: State, a: Action): State
    requires Enabled(s, a)
  {
    match a
    case Request(sid, c, isOpen) =>
      GetConnection(s, c).(sessions := s.sessions[sid := Session(c, AfterConnect(isOpen), 0, 0)])
    case Resolved(sid, ok, keep) => MoveOn(s, sid, ok, Connecting, keep)
    case Connected(sid, ok, keep) => MoveOn(s, sid, ok, Writing, keep)
    case Written(sid, ok, keep) => MoveOn(s, sid, ok, ReadingHeader, keep)
    case HeaderRead(sid, header, new_, keep) =>
      if s.stopped then WithPhase(s, sid, Dropped) else AfterHeader(s, sid, header, new_, keep)
    case BodyRead(sid, body, keep) =>
      if s.stopped then WithPhase(s, sid, Dropped) else AfterBody(s, sid, body, keep)
    case StopScope => s.(stopped := true)
    case Close => s.(pool := {})
  }

  // ---------- the invariant ----------

  ghost predicate ConnectionsKnown(s: State) {
    && s.pool <= s.connections.Keys
    && forall sid :: sid in s.sessions ==> s.sessions[sid].connection in s.connections
  }

  /** Every unfinished session has a connection of its own, and it is marked in use. */
  ghost predicate Exclusive(s: State)
    requires ConnectionsKnown(s)
  {
    && (forall sid :: Unfinished(s, sid) ==> s.connections[s.sessions[sid].connection].inUse)
    && (forall p, q :: Unfinished(s, p) && Unfinished(s, q) && p != q ==> s.sessions[p].connection != s.sessions[q].connection)
  }

  /** At most one connection waits in the pool for the next request. */
  ghost predicate OneIdle(s: State)
    requires ConnectionsKnown(s)
  {
    forall c, d :: c in s.pool && d in s.pool && !s.connections[c].inUse && !s.connections[d].inUse ==> c == d
  }

  /** The callback fires when the session finishes; a session that has reconnected cannot do so again. */
  ghost predicate Counted(s: State, sid: SessionId)
    requires sid in s.sessions && s.sessions[sid].connection in s.connections
  {
    var session := s.sessions[sid];
    && session.callbacks == (if session.phase == Done then 1 else 0)
    && session.reconnects <= 1
    && (session.reconnects == 1 && session.phase !in {ReadingBody, Done, Dropped} ==>
          !s.connections[session.connection].attemptReconnect)
  }

  ghost predicate Inv(s: State) {
    ConnectionsKnown(s) && Exclusive(s) && OneIdle(s) && forall sid :: sid in s.sessions ==> Counted(s, sid)
  }

  /** The invariant while the handler of `sid` runs: its connection may already be marked for another attempt. */
  ghost predicate InvBut(s: State, sid: SessionId) {
    && ConnectionsKnown(s) && Exclusive(s) && OneIdle(s) && sid in s.sessions
    && s.sessions[sid].callbacks == 0 && s.sessions[sid].reconnects <= 1
    && forall other :: other in s.sessions && other != sid ==> Counted(s, other)
  }

  /** The pruning leaves no idle connection but the one it keeps. */
  lemma OneIdleAfterCallback(s: State, sid: SessionId, failed: bool, keep: ConnectionId)
    requires ConnectionsKnown(s) && sid in s.sessions && MayFinish(s, sid, failed, keep)
    ensures var t := Callback(s, sid, failed, keep);
      t.pool <= s.pool && forall c :: c in t.pool && !t.connections[c].inUse ==> c == keep
  {
  }

  lemma CallbackKeepsInv(s: State, sid: SessionId, failed: bool, keep: ConnectionId)
    requires InvBut(s, sid) && Unfinished(s, sid) && MayFinish(s, sid, failed, keep)
    ensures Inv(Callback(s, sid, failed, keep))
  {
    hide Pruned, MayFinish;
    var t := Callback(s, sid, failed, keep);
    OneIdleAfterCallback(s, sid, failed, keep);
    assert forall other :: Unfinished(t, other) ==> Unfinished(s, other) && other != sid && t.sessions[other] == s.sessions[other];
    assert forall other :: other in t.sessions && other != sid ==> Counted(s, other);
  }

  /** A connection on which a request has failed is not offered to the next one. */
  lemma FailedConnectionLeavesPool(s: State, sid: SessionId, keep: ConnectionId)
    requires Inv(s) && Unfinished(s, sid) && MayFinish(s, sid, true, keep)
    ensures s.sessions[sid].connection !in Callback(s, sid, true, keep).pool
  {
  }

  lemma ReconnectKeepsInv(s: State, sid: SessionId, aborted: bool, new_: ConnectionId)
    requires Inv(s) && Waiting(s, sid, ReadingHeader) && Reconnects(s, sid, aborted) && new_ !in s.connections
    ensures Inv(Reconnected(s, sid, new_))
  {
    assert Counted(s, sid);
  }

  lemma HeaderAcceptedKeepsInv(s: State, sid: SessionId)
    requires Inv(s) && Waiting(s, sid, ReadingHeader)
    ensures InvBut(HeaderAccepted(s, sid), sid)
    ensures Inv(WithPhase(HeaderAccepted(s, sid), sid, ReadingBody))
  {
    assert Counted(s, sid);
  }

  /** Marking a connection for another attempt changes nothing the pruning of the pool looks at. */
  lemma HeaderAcceptedMayFinish(s: State, sid: SessionId, failed: bool, keep: ConnectionId)
    requires Waiting(s, sid, ReadingHeader)
    ensures MayFinish(HeaderAccepted(s, sid), sid, failed, keep) <==> MayFinish(s, sid, failed, keep)
  {
    var (r, t) := (Released(s, sid), Released(HeaderAccepted(s, sid), sid));
    var rest := s.pool - FailedSet(s, sid, failed);
    assert Idle(r, rest) == Idle(t, rest);
  }

  lemma PhaseKeepsInv(s: State, sid: SessionId, phase: Phase)
    requires Inv(s) && Unfinished(s, sid) && s.sessions[sid].phase in {Resolving, Connecting, Writing, ReadingHeader, ReadingBody}
    requires phase == Dropped || (phase in {Connecting, Writing, ReadingHeader} && s.sessions[sid].phase != ReadingBody)
    ensures Inv(WithPhase(s, sid, phase))
  {
    assert Counted(s, sid);
    var t := WithPhase(s, sid, phase);
    assert forall other :: other in t.sessions && other != sid ==> Counted(s, other);
  }

  /** When a connection is taken, none is left idle in the pool. */
  lemma NoneIdleAfterGet(s: State, c: ConnectionId)
    requires ConnectionsKnown(s) && OneIdle(s) && MayGet(s, c)
    ensures var t := GetConnection(s, c); forall d :: d in t.pool ==> d in t.connections && t.connections[d].inUse
  {
    var t := GetConnection(s, c);
    forall d | d in t.pool ensures t.connections[d].inUse {
      assert d != c && !s.connections[d].inUse ==> d in Idle(s, s.pool);
    }
  }

  /** The connection taken belongs to no unfinished session. */
  lemma TakenIsUnused(s: State, c: ConnectionId, sid: SessionId)
    requires ConnectionsKnown(s) && Exclusive(s) && MayGet(s, c) && Unfinished(s, sid)
    ensures s.sessions[sid].connection != c
  {
  }

  lemma RequestKeepsInv(s: State, sid: SessionId, c: ConnectionId, isOpen: bool)
    requires Inv(s) && Enabled(s, Request(sid, c, isOpen))
    ensures Inv(Next(s, Request(sid, c, isOpen)))
  {
    hide MayGet, Idle;
    var t := Next(s, Request(sid, c, isOpen));
    NoneIdleAfterGet(s, c);
    forall other | Unfinished(t, other) && other != sid
      ensures Unfinished(s, other) && s.sessions[other].connection != c
    {
      assert Unfinished(s, other);
      TakenIsUnused(s, c, other);
    }
    RequestKeepsCounted(s, sid, c, isOpen);
  }

  lemma RequestKeepsCounted(s: State, sid: SessionId, c: ConnectionId, isOpen: bool)
    requires Inv(s) && Enabled(s, Request(sid, c, isOpen))
    ensures var t := Next(s, Request(sid, c, isOpen));
      forall other :: other in t.sessions ==> t.sessions[other].connection in t.connections && Counted(t, other)
  {
    hide MayGet, OneIdle;
    forall other | other in s.sessions ensures Counted(GetConnection(s, c), other) {
      assert Counted(s, other);
      if Unfinished(s, other) { TakenIsUnused(s, c, other); }
    }
  }

  lemma HandlerKeepsInv(s: State, sid: SessionId, ok: bool, phase: Phase, keep: ConnectionId)
    requires Inv(s) && Unfinished(s, sid) && s.sessions[sid].phase in {Resolving, Connecting, Writing}
    requires phase in {Connecting, Writing, ReadingHeader} && (!ok ==> MayFinish(s, sid, true, keep))
    ensures Inv(MoveOn(s, sid, ok, phase, keep))
  {
    if s.stopped {
      PhaseKeepsInv(s, sid, Dropped);
    } else if ok {
      PhaseKeepsInv(s, sid, phase);
    } else {
      assert Counted(s, sid);
      CallbackKeepsInv(s, sid, true, keep);
    }
  }

  lemma HeaderKeepsInv(s: State, sid: SessionId, header: HeaderOutcome, new_: ConnectionId, keep: ConnectionId)
    requires Inv(s) && Enabled(s, HeaderRead(sid, header, new_, keep)) && !s.stopped
    ensures Inv(AfterHeader(s, sid, header, new_, keep))
  {
    assert Counted(s, sid);
    HeaderAcceptedKeepsInv(s, sid);
    HeaderAcceptedMayFinish(s, sid, header != NoMoreContent, keep);
    match header
    case BufferFull => CallbackKeepsInv(s, sid, true, keep);
    case Malformed => CallbackKeepsInv(HeaderAccepted(s, sid), sid, true, keep);
    case NoMoreContent => CallbackKeepsInv(HeaderAccepted(s, sid), sid, false, keep);
    case MoreContent =>
    case HeaderFailed(aborted) =>
      if Reconnects(s, sid, aborted) {
        ReconnectKeepsInv(s, sid, aborted, new_);
      } else {
        CallbackKeepsInv(s, sid, true, keep);
      }
  }

  lemma StepKeepsInv(s: State, a: Action)
    requires Inv(s) && Enabled(s, a)
    ensures Inv(Next(s, a))
  {
    match a
    case Request(sid, c, isOpen) => RequestKeepsInv(s, sid, c, isOpen);
    case Resolved(sid, ok, keep) => HandlerKeepsInv(s, sid, ok, Connecting, keep);
    case Connected(sid, ok, keep) => HandlerKeepsInv(s, sid, ok, Writing, keep);
    case Written(sid, ok, keep) => HandlerKeepsInv(s, sid, ok, ReadingHeader, keep);
    case HeaderRead(sid, header, new_, keep) =>
      if s.stopped { PhaseKeepsInv(s, sid, Dropped); } else { HeaderKeepsInv(s, sid, header, new_, keep); }
    case BodyRead(sid, body, keep) =>
      assert Counted(s, sid);
      if s.stopped {
        PhaseKeepsInv(s, sid, Dropped);
      } else if body != NextPart {
        CallbackKeepsInv(s, sid, body == BodyFailed, keep);
      }
    case StopScope =>
      assert forall sid :: sid in s.sessions ==> Counted(s, sid);
    case Close =>
      assert forall sid :: sid in s.sessions ==> Counted(s, sid);
  }

  // ---------- runs ----------

  predicate Init(s: State) {
    s == State(map[], {}, map[], false)
  }

  ghost predicate IsRun(states: seq<State>, actions: seq<Action>) {
    && |states| == |actions| + 1 && Init(states[0])
    && forall i :: 0 <= i < |actions| ==> Enabled(states[i], actions[i]) && states[i + 1] == Next(states[i], actions[i])
  }

  lemma {:induction false} RunKeepsInv(states: seq<State>, actions: seq<Action>, i: nat)
    requires IsRun(states, actions) && i < |states|
    ensures Inv(states[i])
  {
    if i > 0 {
      RunKeepsInv(states, actions, i - 1);
      StepKeepsInv(states[i - 1], actions[i - 1]);
    }
  }

  /** At every moment of every interleaving: connections are exclusive and marked, and at most one idles in the pool. */
  lemma PoolIsSafe(states: seq<State>, actions: seq<Action>, i: nat)
    requires IsRun(states, actions) && i < |states|
    ensures var s := states[i];
      && (forall p, q :: Unfinished(s, p) && Unfinished(s, q) && p != q ==> s.sessions[p].connection != s.sessions[q].connection)
      && (forall p :: Unfinished(s, p) ==>
            s.sessions[p].connection in s.connections && s.connections[s.sessions[p].connection].inUse)
      && |Idle(s, s.pool)| <= 1
  {
    RunKeepsInv(states, actions, i);
    var s := states[i];
    var idle := Idle(s, s.pool);
    if idle != {} {
      var c :| c in idle;
      assert idle == {c};
    }
  }

  /** The callback of a request fires at most once, and exactly when the request is done; it reconnects at most once. */
  lemma CallbackFiresOnce(states: seq<State>, actions: seq<Action>, i: nat, sid: SessionId)
    requires IsRun(states, actions) && i < |states| && sid in states[i].sessions
    ensures var session := states[i].sessions[sid];
      session.callbacks <= 1 && session.reconnects <= 1 && (session.callbacks == 1 <==> session.phase == Done)
  {
    RunKeepsInv(states, actions, i);
    assert Counted(states[i], sid);
  }

  /** A session that is done stays as it is: nothing calls its callback again. */
  lemma {:induction false} DoneForever(states: seq<State>, actions: seq<Action>, i: nat, j: nat, sid: SessionId)
    requires IsRun(states, actions) && i <= j < |states|
    requires sid in states[i].sessions && states[i].sessions[sid].phase == Done
    ensures sid in states[j].sessions && states[j].sessions[sid] == states[i].sessions[sid]
  {
    hide Next, Enabled;
    if i < j {
      DoneForever(states, actions, i, j - 1, sid);
      DoneStays(states[j - 1], actions[j - 1], sid);
    }
  }

  lemma DoneStays(s: State, a: Action, sid: SessionId)
    requires Enabled(s, a) && sid in s.sessions && s.sessions[sid].phase == Done
    ensures sid in Next(s, a).sessions && Next(s, a).sessions[sid] == s.sessions[sid]
  {
  }

  /** There is always a connection the pruning may keep. */
  lemma MayAlwaysFinish(s: State, sid: SessionId, failed: bool) returns (keep: ConnectionId)
    requires sid in s.sessions && s.sessions[sid].connection in s.connections
    ensures MayFinish(s, sid, failed, keep)
  {
    var r := Released(s, sid);
    var idle := Idle(r, r.pool - FailedSet(s, sid, failed));
    keep := 0;
    if idle != {} { keep :| keep in idle; }
  }

  // ---------- the object ----------

  /** The pool in the order an unordered_set enumerates it: any order, each element once. */
  ghost predicate Enumerates(order: seq<ConnectionId>, pool: set<ConnectionId>) {
    && (forall c :: c in order <==> c in pool)
    && forall i, j :: 0 <= i < j < |order| ==> order[i] != order[j]
  }

  class Client {
    var connections: map<ConnectionId, Connection>
    var pool: set<ConnectionId>
    var sessions: map<SessionId, Session>
    var stopped: bool

    ghost function View(): State
      reads this
    {
      State(connections, pool, sessions, stopped)
    }

    constructor ()
      ensures Init(View()) && Inv(View())
    {
      connections, pool, sessions, stopped := map[], {}, map[], false;
    }

    /** get_connection, the part under the mutex. */
    method GetConnectionOf(order: seq<ConnectionId>, new_: ConnectionId) returns (c: ConnectionId)
      requires ConnectionsKnown(View()) && Enumerates(order, pool) && new_ !in connections
      modifies this
      ensures MayGet(old(View()), c) && View() == GetConnection(old(View()), c)
    {
      var i := 0;
      while i < |order| && connections[order[i]].inUse
        invariant i <= |order| && forall k :: 0 <= k < i ==> connections[order[k]].inUse
      {
        i := i + 1;
      }
      if i < |order| {
        c := order[i];
        assert c in Idle(View(), pool);
      } else {
        c := new_;
        assert Idle(View(), pool) == {};
      }
      pool := pool + {c};
      connections := connections[c := Connection(true, true)];
    }

    /** The session callback, the part under the mutex, and the call of the user's function. */
    method SessionCallback(sid: SessionId, failed: bool, order: seq<ConnectionId>) returns (ghost keep: ConnectionId)
      requires ConnectionsKnown(View()) && sid in sessions && Enumerates(order, pool)
      modifies this
      ensures MayFinish(old(View()), sid, failed, keep) && View() == Callback(old(View()), sid, failed, keep)
    {
      var connection := sessions[sid].connection;
      connections := connections[connection := connections[connection].(inUse := false)];
      ghost var r := View();
      ghost var gone := if failed then {connection} else {};
      ghost var rest := pool - gone;
      keep := 0;
      var unused := 0;
      for i := 0 to |order|
        invariant connections == r.connections && sessions == r.sessions && stopped == r.stopped
        invariant unused > 0 ==> keep in order[..i] && keep in Idle(r, rest)
        invariant unused == 0 ==> forall k :: 0 <= k < i ==> order[k] !in Idle(r, rest)
        invariant forall c :: c in pool <==> c in r.pool && (c in order[..i] ==> c !in gone && (c in Idle(r, rest) ==> c == keep))
      {
        var it := order[i];
        assert order[..i + 1] == order[..i] + [it];
        assert it !in order[..i];
        if failed && it == connection {
          pool := pool - {it};
        } else if !connections[it].inUse {
          unused := unused + 1;
          if unused > 1 { pool := pool - {it}; } else { keep := it; }
        }
      }
      assert order[..|order|] == order;
      assert unused == 0 ==> Idle(r, rest) == {};
      assert pool == Pruned(r, gone, keep);
      sessions := sessions[sid := sessions[sid].(phase := Done, callbacks := sessions[sid].callbacks + 1)];
    }

    /** The error branch of the header handler. */
    method HeaderError(sid: SessionId, aborted: bool, new_: ConnectionId, order: seq<ConnectionId>) returns (ghost keep: ConnectionId)
      requires ConnectionsKnown(View()) && sid in sessions && Enumerates(order, pool) && new_ !in connections
      modifies this
      ensures Reconnects(old(View()), sid, aborted) ==> View() == Reconnected(old(View()), sid, new_)
      ensures !Reconnects(old(View()), sid, aborted) ==>
        MayFinish(old(View()), sid, true, keep) && View() == Callback(old(View()), sid, true, keep)
    {
      keep := 0;
      var session := sessions[sid];
      if connections[session.connection].attemptReconnect && !aborted && session.connection in pool {
        pool := pool - {session.connection};
        connections := connections[new_ := Connection(true, false)];
        pool := pool + {new_};
        sessions := sessions[sid := session.(connection := new_, phase := Resolving, reconnects := session.reconnects + 1)];
      } else {
        keep := SessionCallback(sid, true, order);
      }
    }

    // ---------- whole steps ----------

    /** What a step has done: action a was possible, and it led here. */
    ghost predicate Stepped(s: State, a: Action)
      reads this
    {
      Enabled(s, a) && View() == Next(s, a) && Inv(View())
    }

    /** request, up to the first asynchronous operation of connect. */
    method StartRequest(sid: SessionId, isOpen: bool, order: seq<ConnectionId>, new_: ConnectionId) returns (c: ConnectionId)
      requires Inv(View()) && sid !in sessions && Enumerates(order, pool) && new_ !in connections
      modifies this
      ensures Stepped(old(View()), Request(sid, c, isOpen))
    {
      ghost var s := View();
      c := GetConnectionOf(order, new_);
      sessions := sessions[sid := Session(c, if isOpen then Writing else Resolving, 0, 0)];
      StepKeepsInv(s, Request(sid, c, isOpen));
    }

    /** continue_lock fails: the handler returns at once. */
    method Drop(sid: SessionId)
      requires sid in sessions
      modifies this`sessions
      ensures View() == WithPhase(old(View()), sid, Dropped)
    {
      sessions := sessions[sid := sessions[sid].(phase := Dropped)];
    }

    /** The common form of the handlers of async_resolve, async_connect and async_write. */
    method Advance(sid: SessionId, ok: bool, phase: Phase, order: seq<ConnectionId>) returns (ghost keep: ConnectionId)
      requires Inv(View()) && Unfinished(View(), sid) && Enumerates(order, pool)
      modifies this
      ensures MayFinish(old(View()), sid, true, keep) && View() == MoveOn(old(View()), sid, ok, phase, keep)
    {
      keep := MayAlwaysFinish(View(), sid, true);
      if stopped {
        Drop(sid);
      } else if ok {
        sessions := sessions[sid := sessions[sid].(phase := phase)];
      } else {
        keep := SessionCallback(sid, true, order);
      }
    }

    method OnResolved(sid: SessionId, ok: bool, order: seq<ConnectionId>) returns (ghost keep: ConnectionId)
      requires Inv(View()) && Waiting(View(), sid, Resolving) && Enumerates(order, pool)
      modifies this
      ensures Stepped(old(View()), Resolved(sid, ok, keep))
    {
      ghost var s := View();
      keep := Advance(sid, ok, Connecting, order);
      StepKeepsInv(s, Resolved(sid, ok, keep));
    }

    method OnConnected(sid: SessionId, ok: bool, order: seq<ConnectionId>) returns (ghost keep: ConnectionId)
      requires Inv(View()) && Waiting(View(), sid, Connecting) && Enumerates(order, pool)
      modifies this
      ensures Stepped(old(View()), Connected(sid, ok, keep))
    {
      ghost var s := View();
      keep := Advance(sid, ok, Writing, order);
      StepKeepsInv(s, Connected(sid, ok, keep));
    }

    method OnWritten(sid: SessionId, ok: bool, order: seq<ConnectionId>) returns (ghost keep: ConnectionId)
      requires Inv(View()) && Waiting(View(), sid, Writing) && Enumerates(order, pool)
      modifies this
      ensures Stepped(old(View()), Written(sid, ok, keep))
    {
      ghost var s := View();
      keep := Advance(sid, ok, ReadingHeader, order);
      StepKeepsInv(s, Written(sid, ok, keep));
    }

    /** The handler of the header, after continue_lock has succeeded. */
    method ReadHeader(sid: SessionId, header: HeaderOutcome, new_: ConnectionId, order: seq<ConnectionId>)
      returns (ghost keep: ConnectionId)
      requires Inv(View()) && Waiting(View(), sid, ReadingHeader) && Enumerates(order, pool) && new_ !in connections
      modifies this
      ensures MayFinish(old(View()), sid, header != NoMoreContent, keep)
      ensures View() == AfterHeader(old(View()), sid, header, new_, keep)
    {
      ghost var s := View();
      keep := MayAlwaysFinish(s, sid, header != NoMoreContent);
      if header == BufferFull {
        keep := SessionCallback(sid, true, order);
      } else if header.HeaderFailed? {
        ghost var kept := HeaderError(sid, header.aborted, new_, order);
        if !Reconnects(s, sid, header.aborted) { keep := kept; }
      } else {
        keep := ReadContent(sid, header, order);
      }
    }

    /** The header has been read: the connection may be replaced again, and the content decides what follows. */
    method ReadContent(sid: SessionId, header: HeaderOutcome, order: seq<ConnectionId>) returns (ghost keep: ConnectionId)
      requires Inv(View()) && Waiting(View(), sid, ReadingHeader) && Enumerates(order, pool)
      requires header.Malformed? || header.NoMoreContent? || header.MoreContent?
      modifies this
      ensures MayFinish(old(View()), sid, header != NoMoreContent, keep)
      ensures forall new_ :: View() == AfterHeader(old(View()), sid, header, new_, keep)
    {
      ghost var s := View();
      keep := MayAlwaysFinish(s, sid, header != NoMoreContent);
      var c := sessions[sid].connection;
      connections := connections[c := connections[c].(attemptReconnect := true)];
      if header == MoreContent {
        sessions := sessions[sid := sessions[sid].(phase := ReadingBody)];
      } else {
        keep := SessionCallback(sid, header == Malformed, order);
        HeaderAcceptedMayFinish(s, sid, header == Malformed, keep);
      }
    }

    method OnHeaderRead(sid: SessionId, header: HeaderOutcome, new_: ConnectionId, order: seq<ConnectionId>)
      returns (ghost keep: ConnectionId)
      requires Inv(View()) && Waiting(View(), sid, ReadingHeader) && Enumerates(order, pool) && new_ !in connections
      modifies this
      ensures Stepped(old(View()), HeaderRead(sid, header, new_, keep))
    {
      ghost var s := View();
      if stopped {
        keep := MayAlwaysFinish(s, sid, header != NoMoreContent);
        Drop(sid);
      } else {
        keep := ReadHeader(sid, header, new_, order);
      }
      StepKeepsInv(s, HeaderRead(sid, header, new_, keep));
    }

    method OnBodyRead(sid: SessionId, body: BodyOutcome, order: seq<ConnectionId>) returns (ghost keep: ConnectionId)
      requires Inv(View()) && Waiting(View(), sid, ReadingBody) && Enumerates(order, pool)
      modifies this
      ensures Stepped(old(View()), BodyRead(sid, body, keep))
    {
      ghost var s := View();
      keep := MayAlwaysFinish(s, sid, body == BodyFailed);
      if stopped {
        Drop(sid);
      } else if body != NextPart {
        keep := SessionCallback(sid, body == BodyFailed, order);
      }
      StepKeepsInv(s, BodyRead(sid, body, keep));
    }

    /** handler_runner->stop(). */
    method StopHandlers()
      requires Inv(View())
      modifies this`stopped
      ensures Stepped(old(View()), StopScope)
    {
      ghost var s := View();
      stopped := true;
      StepKeepsInv(s, StopScope);
    }

    /** stop: every connection is taken out of the pool. */
    method Stop(order: seq<ConnectionId>)
      requires Inv(View()) && Enumerates(order, pool)
      modifies this
      ensures Stepped(old(View()), Close)
    {
      ghost var s := View();
      for i := 0 to |order|
        invariant connections == old(connections) && sessions == old(sessions) && stopped == old(stopped)
        invariant forall c :: c in pool <==> c in order[i..]
      {
        assert order[i..] == [order[i]] + order[i + 1..];
        assert order[i] !in order[i + 1..];
        pool := pool - {order[i]};
      }
      assert pool == {};
      StepKeepsInv(s, Close);
    }
  }
}
