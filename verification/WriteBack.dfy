/** What the store holds after a sync, compared with what the session has in memory. */
module WriteBack {
  import opened SessionTypes
  import opened StoreSpec
  import opened SessionSpec

  /** After a sync, memory and store tell the same story: an unchanged state is the content of the
      unexpired record, and a state that does not exist has no such record. */
  ghost predicate Agreement(s: SessionData, m: Records, t: Time) {
    match s.server
    case None => true
    case Some(Unchanged(state, _)) => IsFresh(m, s.id.New(), t) && m[s.id.New()].state == state
    case Some(Changed(_)) => false
    case Some(_) => !IsFresh(m, s.id.New(), t)
  }

  /** A session and the store it works on, at time `t`. `base` is the content of the record when it
      was last loaded or written. `leaked` says that since then a key was removed from a state that
      was marked as unchanged. */
  datatype World = World(s: SessionData, m: Records, base: State, leaked: bool, t: Time)

  datatype Event = Do(op: Op, at: Moment) | TrySync(at1: Moment, at2: Moment)

  function LastReading(w: World, cfg: Config, ev: Event): Time
    requires Valid(w.s)
  {
    match ev
    case Do(_, at) => at.t2
    case TrySync(at1, at2) => SyncEnd(w.s, cfg, w.m, at1, at2)
  }

  predicate IsUnchanged(server: Option<ServerState>) {
    server.Some? && server.value.Unchanged?
  }

  function Step(w: World, cfg: Config, ev: Event): World
    requires Valid(w.s)
  {
    match ev
    case Do(op, at) =>
      var reply := Ask(w.m, OpCall(w.s, op), at).0;
      var (outcome, s') := Perform(w.s, cfg, op, reply);
      var loads := OpCall(w.s, op).Some? && reply.Loaded?;
      var s1 := if loads then AfterLoad(w.s, cfg, reply) else w.s;
      var leaks := op.Remove? && outcome != LoadFailed && IsUnchanged(s1.server) && op.key in s1.server.value.state;
      World(s', w.m,
            if loads then ServerMap(s1.server.value) else w.base,
            IsUnchanged(s'.server) && ((!loads && w.leaked) || leaks),
            at.t2)
    case TrySync(at1, at2) =>
      var (outcome, s', m') := SyncOn(w.s, cfg, w.m, at1, at2);
      var end := SyncEnd(w.s, cfg, w.m, at1, at2);
      if outcome != Synced || IsUnchanged(w.s.server) then World(s', m', w.base, w.leaked, end)
      else World(s', m', if s'.server.Some? then ServerMap(s'.server.value) else w.base, false, end)
  }

  function Steps(w: World, cfg: Config, evs: seq<Event>): (r: World)
    requires Valid(w.s)
    ensures Valid(r.s)
    decreases |evs|
  {
    if evs == [] then w else Steps(Step(w, cfg, evs[0]), cfg, evs[1..])
  }

  /** The circumstances: time moves forward, the record does not expire meanwhile, and generated
      identifiers are new. Any store call may fail. Operations are arbitrary; so are syncs, except
      that a session which gets a new identifier is synced successfully only once. */
  ghost predicate Calm(w: World, cfg: Config, ev: Event)
    requires Valid(w.s)
  {
    && (match ev
        case Do(op, at) => at.After(w.t) && (op.CycleId? ==> !IsFresh(w.m, op.generated, at.t2))
        case TrySync(at1, at2) =>
          && at1.After(w.t) && at2.After(at1.t2)
          && (SyncOn(w.s, cfg, w.m, at1, at2).0 == Synced ==> w.s.id.Existing?))
    && DoesNotExpire(w, LastReading(w, cfg, ev))
  }

  ghost predicate DoesNotExpire(w: World, t: Time) {
    w.s.id.Old().Some? && IsFresh(w.m, w.s.id.Old().value, w.t) ==> IsFresh(w.m, w.s.id.Old().value, t)
  }

  ghost predicate AllCalm(w: World, cfg: Config, evs: seq<Event>)
    requires Valid(w.s)
    decreases |evs|
  {
    evs == [] || (Calm(w, cfg, evs[0]) && AllCalm(Step(w, cfg, evs[0]), cfg, evs[1..]))
  }

  ghost predicate SubState(a: State, b: State) {
    forall k <- a :: k in b && b[k] == a[k]
  }

  /** What ties a session to the store between two syncs. */
  ghost predicate Linked(w: World) {
    && Valid(w.s)
    && (w.leaked ==> IsUnchanged(w.s.server))
    && (w.s.id.Old() != Some(w.s.id.New()) ==> !IsFresh(w.m, w.s.id.New(), w.t))
    && (match w.s.server
        case Some(Unchanged(state, _)) =>
          && w.s.id.Old().Some?
          && IsFresh(w.m, w.s.id.Old().value, w.t) && w.m[w.s.id.Old().value].state == w.base
          && SubState(state, w.base) && (w.leaked <==> state != w.base)
        case Some(DoesNotExist) => w.s.id.Old().Some? ==> !IsFresh(w.m, w.s.id.Old().value, w.t)
        case _ => true)
  }

  /** The load that comes before an operation, if it needs one. */
  lemma LoadKeepsLink(w: World, cfg: Config, at: Moment)
    requires Linked(w) && LoadCall(w.s).Some? && at.After(w.t) && DoesNotExpire(w, at.t2)
    ensures var reply := Exec(w.m, LoadCall(w.s).value, at).0;
      reply.Loaded? ==>
        var s' := AfterLoad(w.s, cfg, reply);
        Linked(World(s', w.m, ServerMap(s'.server.value), false, at.t2))
  {
  }

  lemma LinkedLater(w: World, t: Time)
    requires Linked(w) && w.t <= t && DoesNotExpire(w, t)
    ensures Linked(w.(t := t))
  {
  }

  /** An operation on what is in memory. */
  lemma ApplyKeepsLink(w: World, op: Op)
    requires Linked(w) && (op.NeedsServerState() ==> w.s.server.Some?)
    requires op.CycleId? ==> !IsFresh(w.m, op.generated, w.t)
    ensures var s' := Apply(w.s, op).1;
      var leaks := op.Remove? && IsUnchanged(w.s.server) && op.key in w.s.server.value.state;
      Linked(w.(s := s', leaked := IsUnchanged(s'.server) && (w.leaked || leaks)))
  {
    if op.Remove? && IsUnchanged(w.s.server) {
      var state := w.s.server.value.state;
      if op.key in state {
        assert op.key in w.base && op.key !in state - {op.key};
      } else {
        assert state - {op.key} == state;
      }
    }
  }

  lemma DoKeepsLink(w: World, cfg: Config, op: Op, at: Moment)
    requires Linked(w) && Calm(w, cfg, Do(op, at))
    ensures Linked(Step(w, cfg, Do(op, at)))
  {
    LinkedLater(w, at.t2);
    if OpCall(w.s, op).None? {
      ApplyKeepsLink(w.(t := at.t2), op);
    } else {
      LoadKeepsLink(w, cfg, at);
      var reply := Exec(w.m, LoadCall(w.s).value, at).0;
      if reply.Loaded? {
        var s1 := AfterLoad(w.s, cfg, reply);
        ApplyKeepsLink(World(s1, w.m, ServerMap(s1.server.value), false, at.t2), op);
      }
    }
  }

  lemma SyncKeepsLink(w: World, cfg: Config, at1: Moment, at2: Moment)
    requires Linked(w) && Calm(w, cfg, TrySync(at1, at2)) && 0 < cfg.ttl
    ensures Linked(Step(w, cfg, TrySync(at1, at2)))
  {
    if SyncOn(w.s, cfg, w.m, at1, at2).0 == Synced {
      SuccessKeepsLink(w, cfg, at1, at2);
    } else {
      FailureKeepsLink(w, cfg, at1, at2);
    }
  }

  lemma SuccessKeepsLink(w: World, cfg: Config, at1: Moment, at2: Moment)
    requires Linked(w) && Calm(w, cfg, TrySync(at1, at2)) && 0 < cfg.ttl
    requires SyncOn(w.s, cfg, w.m, at1, at2).0 == Synced
    ensures Linked(Step(w, cfg, TrySync(at1, at2)))
  {
  }

  lemma FailureKeepsLink(w: World, cfg: Config, at1: Moment, at2: Moment)
    requires Linked(w) && Calm(w, cfg, TrySync(at1, at2))
    requires SyncOn(w.s, cfg, w.m, at1, at2).0 != Synced
    ensures Linked(Step(w, cfg, TrySync(at1, at2)))
  {
  }

  lemma {:induction false} RunKeepsLink(w: World, cfg: Config, evs: seq<Event>)
    requires Linked(w) && AllCalm(w, cfg, evs) && 0 < cfg.ttl
    ensures Linked(Steps(w, cfg, evs))
    decreases |evs|
  {
    if evs == [] {
    } else {
      match evs[0] {
        case Do(op, at) => DoKeepsLink(w, cfg, op, at);
        case TrySync(at1, at2) => SyncKeepsLink(w, cfg, at1, at2);
      }
      RunKeepsLink(Step(w, cfg, evs[0]), cfg, evs[1..]);
    }
  }

  /** Where a request starts. */
  function Begin(incoming: Option<IncomingSession>, generated: SessionId, m: Records, t: Time): World {
    World(NewSession(incoming, generated), m, map[], false, t)
  }

  ghost predicate FreshStart(incoming: Option<IncomingSession>, generated: SessionId, m: Records, t: Time) {
    incoming.None? ==> !IsFresh(m, generated, t)
  }

  /** The two ways in which a sync reports success and memory and store still differ. */
  predicate Trap(w: World, cfg: Config) {
    || w.leaked
    || (w.s.server == Some(DoesNotExist) && w.s.id.ToBeRenamed? && cfg.creation.NeverSkip?)
  }

  /** The last sync of a session that is tied to the store: memory and store agree after it, except
      in the two traps, and there they differ. */
  lemma SyncAgreesIff(w: World, cfg: Config, at1: Moment, at2: Moment)
    requires Linked(w) && 0 < cfg.ttl
    requires at1.After(w.t) && at2.After(at1.t2) && DoesNotExpire(w, SyncEnd(w.s, cfg, w.m, at1, at2))
    ensures var (outcome, s', m') := SyncOn(w.s, cfg, w.m, at1, at2);
      outcome == Synced ==> (Agreement(s', m', SyncEnd(w.s, cfg, w.m, at1, at2)) <==> !Trap(w, cfg))
  {
  }

  /** Write-back agreement. Whatever operations, failed syncs and torn syncs came before, after a
      successful sync memory and store agree, except in the two traps, and there they differ. */
  lemma WriteBackAgreement(incoming: Option<IncomingSession>, generated: SessionId, m: Records, t: Time,
                           cfg: Config, evs: seq<Event>, at1: Moment, at2: Moment)
    requires FreshStart(incoming, generated, m, t) && 0 < cfg.ttl
    requires AllCalm(Begin(incoming, generated, m, t), cfg, evs)
    requires var w := Steps(Begin(incoming, generated, m, t), cfg, evs);
      at1.After(w.t) && at2.After(at1.t2) && DoesNotExpire(w, SyncEnd(w.s, cfg, w.m, at1, at2))
    ensures var w := Steps(Begin(incoming, generated, m, t), cfg, evs);
      var (outcome, s', m') := SyncOn(w.s, cfg, w.m, at1, at2);
      outcome == Synced ==> (Agreement(s', m', SyncEnd(w.s, cfg, w.m, at1, at2)) <==> !Trap(w, cfg))
  {
    RunKeepsLink(Begin(incoming, generated, m, t), cfg, evs);
    SyncAgreesIff(Steps(Begin(incoming, generated, m, t), cfg, evs), cfg, at1, at2);
  }

  /** Exactly when a sync with a working store succeeds. In particular a session whose cookie has no
      record cannot gain server state by an insert, and one that is renamed before it was loaded
      needs its record to be there. */
  lemma SyncSucceedsIff(s: SessionData, cfg: Config, m: Records, at1: Moment, at2: Moment)
    requires Valid(s) && !at1.down && !at2.down && at1.Ordered() && at2.After(at1.t2)
    ensures SyncOn(s, cfg, m, at1, at2).0 == Synced <==>
      var oldFresh := s.id.Old().Some? && IsFresh(m, s.id.Old().value, if s.id.ToBeRenamed? then at1.t2 else at1.t1);
      var newTaken := IsFresh(m, s.id.New(), at1.t1);
      match s.server
      case None => s.id.Existing? || (oldFresh && !newTaken)
      case Some(DoesNotExist) => s.id.ToBeRenamed? || (CreateIfEmpty(s, cfg) ==> !newTaken)
      case Some(MarkedForDeletion) => true
      case Some(Unchanged(state, remaining)) =>
        if s.id.Existing? then ShouldExtend(cfg, remaining) ==> oldFresh
        else if s.id.ToBeRenamed? then !newTaken
        else state == map[] && (CreateIfEmpty(s, cfg) ==> !newTaken)
      case Some(Changed(_)) =>
        if s.id.Existing? then oldFresh
        else if s.id.NewlyGenerated? then !newTaken
        else !IsFresh(m, s.id.newId, at2.t1)
  {
  }

  /** Renaming a session whose state is in memory always succeeds, even if the old record expired
      after it was loaded. The old identifier is gone, and the new one holds either the very record
      that was renamed, deadline included, or the state in memory. */
  lemma RenameIsSafe(s: SessionData, cfg: Config, m: Records, at1: Moment, at2: Moment, t: Time)
    requires Valid(s) && s.id.ToBeRenamed? && s.server.Some? && (s.server.value.Unchanged? || s.server.value.Changed?)
    requires at1.Ordered() && at2.After(at1.t2) && at2.t2 <= t
    requires !at1.down && !at2.down && !IsFresh(m, s.id.newId, at1.t1)
    ensures var (outcome, s', m') := SyncOn(s, cfg, m, at1, at2);
      && outcome == Synced
      && !IsFresh(m', s.id.oldId, t)
      && s.id.newId in m'
      && m'[s.id.newId] ==
           (if s.server.value.Unchanged? && IsFresh(m, s.id.oldId, at1.t2) then m[s.id.oldId]
            else StoreRecord(s.server.value.state, at2.t2 + cfg.ttl))
      && s'.server == Some(Unchanged(s.server.value.state,
                                     if s.server.value.Unchanged? then s.server.value.ttl else cfg.ttl))
  {
  }

  /** The most that a failed sync can have done is to delete the old record. The session in memory
      is exactly what it was. */
  lemma FailedSyncEffect(s: SessionData, cfg: Config, m: Records, at1: Moment, at2: Moment)
    requires Valid(s) && SyncOn(s, cfg, m, at1, at2).0.SyncFailed?
    ensures var (_, s', m') := SyncOn(s, cfg, m, at1, at2);
      s' == s && (m' == m || (s.id.ToBeRenamed? && m' == m - {s.id.oldId}))
  {
  }

  /** A torn sync can be retried: however the first attempt to write a renamed session back failed,
      including after the old record was deleted, the next attempt with a working store succeeds
      and the new identifier holds the state in memory. */
  lemma TornSyncIsRetryable(s: SessionData, cfg: Config, m: Records,
                            at1: Moment, at2: Moment, at3: Moment, at4: Moment)
    requires Valid(s) && s.id.ToBeRenamed? && s.server.Some? && (s.server.value.Unchanged? || s.server.value.Changed?)
    requires s.server.value.Unchanged? && s.id.oldId in m ==> m[s.id.oldId].state == s.server.value.state
    requires at1.Ordered() && at2.After(at1.t2) && at3.After(at2.t2) && at4.After(at3.t2)
    requires SyncOn(s, cfg, m, at1, at2).0 != Synced
    requires !IsFresh(m, s.id.newId, at3.t1) && !at3.down && !at4.down
    ensures var (_, s', m') := SyncOn(s, cfg, m, at1, at2);
      var (again, _, m'') := SyncOn(s', cfg, m', at3, at4);
      && again == Synced
      && s.id.newId in m'' && m''[s.id.newId].state == s.server.value.state
      && !IsFresh(m'', s.id.oldId, at4.t2)
  {
    FailedSyncEffect(s, cfg, m, at1, at2);
    RenameIsSafe(s, cfg, SyncOn(s, cfg, m, at1, at2).2, at3, at4, at4.t2);
  }

  /** A request that came without a cookie gets one if and only if there is something to come back
      to, and if it gets none then the store was not touched. */
  lemma NewSessionCookieExact(generated: SessionId, m: Records, t: Time,
                              cfg: Config, evs: seq<Event>, at1: Moment, at2: Moment)
    requires FreshStart(None, generated, m, t) && 0 < cfg.ttl
    requires AllCalm(Begin(None, generated, m, t), cfg, evs)
    requires var w := Steps(Begin(None, generated, m, t), cfg, evs);
      at1.After(w.t) && at2.After(at1.t2) && SyncOn(w.s, cfg, w.m, at1, at2).0 == Synced
    ensures var w := Steps(Begin(None, generated, m, t), cfg, evs);
      var (_, s', m') := SyncOn(w.s, cfg, w.m, at1, at2);
      && s'.id.NewlyGenerated?
      && (CookieFor(s') != NoCookie <==>
           !s'.invalidated && (s'.client.state != map[] || IsFresh(m', s'.id.id, SyncEnd(w.s, cfg, w.m, at1, at2))))
      && (CookieFor(s') != NoCookie ==> CookieFor(s') == SetCookie(Serialize(s'.id.id, s'.client.state)))
      && (CookieFor(s') == NoCookie ==> m' == m)
  {
    var w0 := Begin(None, generated, m, t);
    RunKeepsLink(w0, cfg, evs);
    NewSessionStays(w0, cfg, evs);
    var w := Steps(w0, cfg, evs);
  }

  /** Before its first successful sync, a new session has changed nothing in the store. */
  lemma {:induction false} NewSessionStays(w: World, cfg: Config, evs: seq<Event>)
    requires Linked(w) && AllCalm(w, cfg, evs) && 0 < cfg.ttl && w.s.id.NewlyGenerated?
    ensures Steps(w, cfg, evs).s.id.NewlyGenerated? && Steps(w, cfg, evs).m == w.m
    decreases |evs|
  {
    if evs == [] {
    } else {
      match evs[0] {
        case Do(op, at) => DoKeepsLink(w, cfg, op, at);
        case TrySync(at1, at2) => SyncKeepsLink(w, cfg, at1, at2);
      }
      NewSessionStays(Step(w, cfg, evs[0]), cfg, evs[1..]);
    }
  }
}
