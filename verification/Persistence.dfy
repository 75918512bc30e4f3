/** Many requests of one client, compared with a pair of plain maps. */
module Persistence {
  import opened SessionTypes
  import opened StoreSpec
  import opened SessionSpec
  import opened LazyRefinement
  import opened Clients

  /** What a request sees and has done so far: the server-side view, whether it was written to (as
      opposed to: had keys removed), the client-side map, whether the session is invalidated, and
      whether it was given a new identifier. */
  datatype Work = Work(view: View, dirty: bool, client: State, dead: bool, renamed: bool)

  /** Two plain maps, and the request at work on them. */
  datatype Plain = Plain(server: State, client: State, work: Option<Work>)

  function ClientStep(client: State, dead: bool, op: Op): (Outcome, State)
    requires op.OnClient()
  {
    match op
    case ClientGet(k) => (Found(if dead then None else Lookup(client, k)), client)
    case ClientIsEmpty => (Flag(dead || client == map[]), client)
    case ClientInsert(k, v) => if dead then (Found(None), client) else (Found(Lookup(client, k)), client[k := v])
    case ClientRemove(k) => if dead then (Found(None), client) else (Found(Lookup(client, k)), client - {k})
    case ClientClear => (Finished, if dead then client else map[])
  }

  predicate Writes(v: View, op: Op) {
    v.Live? && (op.Insert? || (op.Clear? && v.state != map[]))
  }

  function PlainOp(w: Work, op: Op): (Outcome, Work) {
    if op.OnClient() then
      var (outcome, client) := ClientStep(w.client, w.dead, op);
      (outcome, w.(client := client))
    else
      var (outcome, view) := ViewStep(w.view, op);
      (outcome, Work(view, w.dirty || Writes(w.view, op), w.client, w.dead || op.Invalidate?, w.renamed || op.CycleId?))
  }

  /** What a request leaves behind. A state that only had keys removed is not written back. */
  function Committed(server: State, w: Work): State {
    if w.view.Doomed? then map[] else if w.dirty then w.view.state else server
  }

  function PlainStep(p: Plain, a: Action, o: Obs): Plain {
    match a
    case Open(_) => if p.work.None? then p.(work := Some(Work(Live(p.server), false, p.client, false, false))) else p
    case Do(op) =>
      if p.work.None? || o == Did(LoadFailed) then p
      else if o == Did(Panicked) then p.(work := None)
      else p.(work := Some(PlainOp(p.work.value, op).1))
    case Close =>
      if p.work.None? then p
      else if o.Failed? then Plain(if o.torn then map[] else p.server, p.client, None)
      else Plain(Committed(p.server, p.work.value), if p.work.value.dead then map[] else p.work.value.client, None)
  }

  /** Does the plain pair of maps account for this observation? */
  predicate Expected(p: Plain, a: Action, o: Obs) {
    match a
    case Open(_) => o == if p.work.None? then Opened else Skipped
    case Do(op) =>
      if p.work.None? then o == Skipped
      else || o == Did(PlainOp(p.work.value, op).0)
           || (o == Did(LoadFailed) && op.NeedsServerState())
           || (o == Did(Panicked) && op.CycleId?)
    case Close =>
      if p.work.None? then o == Skipped
      else if o.Failed? then o.torn ==> p.work.value.dirty && p.work.value.renamed
      else
        && o.Closed?
        && (o.cookie.SetCookie? ==> !p.work.value.dead && Deserialize(o.cookie.wire).client == p.work.value.client)
        && (o.cookie.RemovalCookie? ==> p.work.value.dead)
        && (o.cookie.NoCookie? ==> p.work.value.dead || p.work.value.client == map[])
  }

  /** Do they account for all observations? A failed response leaves both maps as they were before
      the request; a torn one, which only a request that wrote and was renamed can have, loses the
      server-side map. */
  ghost predicate Explained(p: Plain, script: seq<Action>, obs: seq<Obs>)
    decreases |obs|
  {
    obs == [] ||
    (&& script != [] && Expected(p, script[0], obs[0])
     && Explained(PlainStep(p, script[0], obs[0]), script[1..], obs[1..]))
  }

  // ---------------------------------------------------------------- representation

  function Held(m: Records, id: SessionId, t: Time): State {
    if IsFresh(m, id, t) then m[id].state else map[]
  }

  ghost predicate JarRep(jar: Option<WireClientState>, m: Records, p: Plain, t: Time) {
    match jar
    case None => p.server == map[] && p.client == map[]
    case Some(w) => p.server == Held(m, w.sessionId, t) && p.client == Deserialize(w).client
  }

  ghost predicate SessionRep(s: SessionData, jar: Option<WireClientState>, m: Records, server: State, w: Work,
                             t: Time) {
    && Valid(s)
    && s.id.Old() == JarId(jar)
    && s.invalidated == w.dead
    && s.client.state == w.client
    && (s.id.ToBeRenamed? ==> w.renamed)
    && (s.id.Old() != Some(s.id.New()) ==> !IsFresh(m, s.id.New(), t))
    && (match s.server
        case None => w.view == Live(server) && !w.dirty
        case Some(Unchanged(state, _)) =>
          w.view == Live(state) && !w.dirty && jar.Some? && IsFresh(m, jar.value.sessionId, t)
        case Some(DoesNotExist) =>
          w.view == Live(map[]) && !w.dirty && (jar.Some? ==> !IsFresh(m, jar.value.sessionId, t))
        case Some(Changed(state)) => w.view == Live(state) && w.dirty
        case Some(MarkedForDeletion) => w.view == Doomed)
  }

  ghost predicate Rep(c: Client, cfg: Config, m: Records, p: Plain, t: Time) {
    && ValidClient(c)
    && match c.phase
       case Idle => p.work.None? && JarRep(c.jar, m, p, t)
       case Busy(s) => p.work.Some? && JarRep(c.jar, m, p, t) && SessionRep(s, c.jar, m, p.server, p.work.value, t)
       case Midway(s, call) =>
         && s.id.Old() == JarId(c.jar)
         && JarRep(c.jar, m, Plain(map[], p.client, None), t)
         && p.work.Some? && !p.work.value.dead && !s.invalidated && p.work.value.dirty && p.work.value.renamed
         && p.work.value.view == Live(call.state) && s.client.state == p.work.value.client
         && call.ttl == cfg.ttl
         && s.server == Some(Changed(call.state))
         && !IsFresh(m, s.id.newId, t)
  }

  /** A load finds a record, or is allowed not to. */
  ghost predicate MissesAllowed(c: Client, cfg: Config, m: Records, t: Time) {
    cfg.missing == Allow || (c.phase.Busy? && c.jar.Some? ==> IsFresh(m, c.jar.value.sessionId, t))
  }

  lemma JarRepLater(jar: Option<WireClientState>, m: Records, p: Plain, t: Time, later: Time)
    requires JarRep(jar, m, p, t) && t <= later
    requires jar.Some? && IsFresh(m, jar.value.sessionId, t) ==> IsFresh(m, jar.value.sessionId, later)
    ensures JarRep(jar, m, p, later)
  {
  }

  /** The client and the plain maps after a step with these observations. */
  ghost predicate Follows(c: Client, cfg: Config, p: Plain, t: Time, next: (Client, Records, seq<Obs>)) {
    && (next.2 == [] ==> Rep(next.0, cfg, next.1, p, t))
    && (next.2 != [] ==>
         && c.script != [] && Expected(p, c.script[0], next.2[0])
         && Rep(next.0, cfg, next.1, PlainStep(p, c.script[0], next.2[0]), t))
  }

  lemma OpenRefines(c: Client, cfg: Config, m: Records, p: Plain, t: Time, at: Moment)
    requires Rep(c, cfg, m, p, t) && Smooth(c, m, t, at) && c.phase.Idle?
    requires c.script != [] && c.script[0].Open?
    ensures Follows(c, cfg, p, at.t2, Step(c, cfg, m, at))
  {
    JarRepLater(c.jar, m, p, t, at.t2);
  }

  lemma SkipRefines(c: Client, cfg: Config, m: Records, p: Plain, t: Time, at: Moment)
    requires Rep(c, cfg, m, p, t) && Smooth(c, m, t, at)
    requires c.script != [] && (if c.script[0].Open? then c.phase.Busy? else c.phase.Idle?)
    ensures Follows(c, cfg, p, at.t2, Step(c, cfg, m, at))
  {
    JarRepLater(c.jar, m, p, t, at.t2);
    if c.phase.Busy? {
      SessionRepLater(c.phase.s, c.jar, m, p.server, p.work.value, t, at.t2);
    }
  }

  lemma LoadRefines(s: SessionData, cfg: Config, jar: Option<WireClientState>, m: Records, p: Plain, w: Work,
                    t: Time, at: Moment)
    requires SessionRep(s, jar, m, p.server, w, t) && JarRep(jar, m, p, t) && LoadCall(s).Some?
    requires at.After(t) && (IsFresh(m, jar.value.sessionId, t) ==> IsFresh(m, jar.value.sessionId, at.t2))
    requires cfg.missing == Allow || IsFresh(m, jar.value.sessionId, t)
    requires Exec(m, LoadCall(s).value, at).0.Loaded?
    ensures SessionRep(AfterLoad(s, cfg, Exec(m, LoadCall(s).value, at).0), jar, m, p.server, w, at.t2)
  {
  }

  lemma SessionRepLater(s: SessionData, jar: Option<WireClientState>, m: Records, server: State, w: Work, t: Time,
                        later: Time)
    requires SessionRep(s, jar, m, server, w, t) && t <= later
    requires jar.Some? && IsFresh(m, jar.value.sessionId, t) ==> IsFresh(m, jar.value.sessionId, later)
    ensures SessionRep(s, jar, m, server, w, later)
  {
  }

  lemma ClientOpRefines(s: SessionData, jar: Option<WireClientState>, m: Records, server: State, w: Work, op: Op,
                        t: Time)
    requires SessionRep(s, jar, m, server, w, t) && op.OnClient()
    ensures var (outcome, s') := Apply(s, op);
      outcome == PlainOp(w, op).0 && SessionRep(s', jar, m, server, PlainOp(w, op).1, t)
  {
    if op.ClientRemove? && op.key !in s.client.state {
      assert s.client.state - {op.key} == s.client.state;
    }
  }

  lemma ServerOpRefines(s: SessionData, jar: Option<WireClientState>, m: Records, server: State, w: Work, op: Op,
                        t: Time)
    requires SessionRep(s, jar, m, server, w, t) && op.NeedsServerState() && s.server.Some?
    ensures var (outcome, s') := Apply(s, op);
      outcome == PlainOp(w, op).0 && SessionRep(s', jar, m, server, PlainOp(w, op).1, t)
  {
  }

  /** What an operation does to the session and answers, compared with the plain maps. */
  ghost predicate OpRefined(outcome: Outcome, s': SessionData, jar: Option<WireClientState>, m: Records, server: State,
                            w: Work, op: Op, t: Time) {
    if outcome == LoadFailed then op.NeedsServerState() && SessionRep(s', jar, m, server, w, t)
    else if outcome == Panicked then op.CycleId?
    else outcome == PlainOp(w, op).0 && SessionRep(s', jar, m, server, PlainOp(w, op).1, t)
  }

  /** Every operation on a session whose state is in memory (if it needs it) answers and acts as on
      the plain maps. */
  lemma ApplyRefines(s: SessionData, jar: Option<WireClientState>, m: Records, server: State, w: Work, op: Op, t: Time)
    requires SessionRep(s, jar, m, server, w, t)
    requires op.NeedsServerState() ==> s.server.Some?
    requires op.CycleId? && Some(op.generated) != JarId(jar) ==> !IsFresh(m, op.generated, t)
    ensures var (outcome, s') := Apply(s, op);
      outcome != LoadFailed && OpRefined(outcome, s', jar, m, server, w, op, t)
  {
    if op.OnClient() {
      ClientOpRefines(s, jar, m, server, w, op, t);
    } else if op.NeedsServerState() {
      ServerOpRefines(s, jar, m, server, w, op, t);
    }
  }

  lemma PerformRefines(s: SessionData, cfg: Config, jar: Option<WireClientState>, m: Records, p: Plain, w: Work,
                       op: Op, t: Time, at: Moment)
    requires SessionRep(s, jar, m, p.server, w, t) && JarRep(jar, m, p, t)
    requires at.After(t) && (jar.Some? && IsFresh(m, jar.value.sessionId, t) ==> IsFresh(m, jar.value.sessionId, at.t2))
    requires cfg.missing == Allow || (jar.Some? ==> IsFresh(m, jar.value.sessionId, t))
    requires op.CycleId? && Some(op.generated) != JarId(jar) ==> !IsFresh(m, op.generated, at.t2)
    ensures var (outcome, s') := PerformOn(s, cfg, op, m, at);
      OpRefined(outcome, s', jar, m, p.server, w, op, at.t2)
  {
    var reply := Ask(m, OpCall(s, op), at).0;
    SessionRepLater(s, jar, m, p.server, w, t, at.t2);
    if OpCall(s, op).None? {
      ApplyRefines(s, jar, m, p.server, w, op, at.t2);
    } else if reply.Loaded? {
      LoadRefines(s, cfg, jar, m, p, w, t, at);
      ApplyRefines(AfterLoad(s, cfg, reply), jar, m, p.server, w, op, at.t2);
    }
  }

  /** How the client stands after an operation with this outcome. */
  function AfterOp(c: Client, s': SessionData, outcome: Outcome): Client
    requires c.script != []
  {
    Client(c.jar, if outcome == Panicked then Idle else Busy(s'), c.script[1..])
  }

  lemma OpStepIs(c: Client, cfg: Config, m: Records, at: Moment)
    requires ValidClient(c) && c.phase.Busy? && c.script != [] && c.script[0].Do?
    ensures var (outcome, s') := PerformOn(c.phase.s, cfg, c.script[0].op, m, at);
      Step(c, cfg, m, at) == (AfterOp(c, s', outcome), m, [Did(outcome)])
  {
  }

  lemma OpFollows(c: Client, cfg: Config, m: Records, p: Plain, t: Time, outcome: Outcome, s': SessionData)
    requires c.script != [] && c.script[0].Do? && p.work.Some? && JarRep(c.jar, m, p, t)
    requires OpRefined(outcome, s', c.jar, m, p.server, p.work.value, c.script[0].op, t)
    ensures Follows(c, cfg, p, t, (AfterOp(c, s', outcome), m, [Did(outcome)]))
  {
  }

  lemma DoRefines(c: Client, cfg: Config, m: Records, p: Plain, t: Time, at: Moment)
    requires Rep(c, cfg, m, p, t) && Smooth(c, m, t, at) && MissesAllowed(c, cfg, m, t) && c.phase.Busy?
    requires c.script != [] && c.script[0].Do?
    ensures Follows(c, cfg, p, at.t2, Step(c, cfg, m, at))
  {
    var s, op := c.phase.s, c.script[0].op;
    JarRepLater(c.jar, m, p, t, at.t2);
    PerformRefines(s, cfg, c.jar, m, p, p.work.value, op, t, at);
    var (outcome, s') := PerformOn(s, cfg, op, m, at);
    OpFollows(c, cfg, m, p, at.t2, outcome, s');
    OpStepIs(c, cfg, m, at);
  }

  /** What a close needs to know of the session, whatever the store holds. */
  ghost predicate SessionEnds(s: SessionData, jar: Option<WireClientState>, server: State, w: Work) {
    && Valid(s)
    && s.id.Old() == JarId(jar)
    && s.invalidated == w.dead
    && s.client.state == w.client
    && (s.invalidated ==> w.view.Doomed?)
    && (s.id.ToBeRenamed? ==> w.renamed)
    && (s.server == Some(DoesNotExist) || s.server == Some(MarkedForDeletion) || s.server.None? ==>
         jar.None? ==> Committed(server, w) == map[])
  }

  /** The end of a request, given that the store now holds what the request leaves behind. */
  lemma FinishRefines(c: Client, cfg: Config, s: SessionData, m: Records, p: Plain, t: Time)
    requires c.script != [] && c.script[0].Close? && p.work.Some? && Valid(s)
    requires s.id.Old() == JarId(c.jar) && s.invalidated == p.work.value.dead && s.client.state == p.work.value.client
    requires s.invalidated ==> p.work.value.view.Doomed?
    requires !s.invalidated ==> Held(m, s.id.New(), t) == Committed(p.server, p.work.value)
    requires AfterSync(s, cfg).server == Some(DoesNotExist) && s.id.Old().None? ==>
      Committed(p.server, p.work.value) == map[]
    ensures var (c', obs) := Finish(c, cfg, s, Synced);
      Expected(p, c.script[0], obs[0]) && Rep(c', cfg, m, PlainStep(p, c.script[0], obs[0]), t)
  {
  }

  /** What the first half of the final sync leaves in the store. Either it is done, and the store
      holds what the request leaves behind; or it failed, and the store holds what it held before;
      or a changed and renamed state still has to be created, and the old record is gone. */
  ghost predicate HalfCommitted(s: SessionData, cfg: Config, jar: Option<WireClientState>, m': Records, p: Plain,
                                w: Work,
                                step: SyncStep, t: Time)
    requires Valid(s)
  {
    match step
    case Stop(Synced) => !s.invalidated ==> Held(m', s.id.New(), t) == Committed(p.server, w)
    case Stop(_) => JarRep(jar, m', p, t)
    case Await(call) =>
      && s.id.ToBeRenamed? && w.dirty
      && s.server.Some? && s.server.value.Changed? && w.view == Live(s.server.value.state)
      && call == Create(s.id.newId, s.server.value.state, cfg.ttl)
      && !IsFresh(m', s.id.newId, t)
      && JarRep(jar, m', Plain(map[], p.client, None), t)
  }

  /** The reply to the first call of the final sync, the store after it, and what sync does next. */
  function FirstHalf(s: SessionData, cfg: Config, m: Records, at: Moment): (Records, SyncStep)
    requires Valid(s)
  {
    match SyncBegin(s, cfg)
    case Stop(outcome) => (m, Stop(outcome))
    case Await(call) =>
      var (reply, m') := Exec(m, call, at);
      (m', SyncNext(s, cfg, reply))
  }

  lemma SyncCommits(s: SessionData, cfg: Config, jar: Option<WireClientState>, m: Records, p: Plain, w: Work,
                    t: Time, at: Moment)
    requires SessionRep(s, jar, m, p.server, w, t) && JarRep(jar, m, p, t) && 0 < cfg.ttl
    requires at.After(t) && (jar.Some? && IsFresh(m, jar.value.sessionId, t) ==> IsFresh(m, jar.value.sessionId, at.t2))
    ensures var (m', step) := FirstHalf(s, cfg, m, at);
      HalfCommitted(s, cfg, jar, m', p, w, step, at.t2)
  {
    match s.server {
      case None =>
      case Some(Unchanged(state, _)) =>
      case Some(DoesNotExist) =>
      case Some(Changed(state)) =>
      case Some(MarkedForDeletion) =>
    }
  }

  /** Where the client is after the first half of its final sync. */
  function AfterHalf(c: Client, cfg: Config, s: SessionData, step: SyncStep): (Client, seq<Obs>)
    requires c.script != []
  {
    match step
    case Stop(outcome) => Finish(c, cfg, s, outcome)
    case Await(call) => (c.(phase := Midway(s, call)), [])
  }

  lemma HalfRefines(c: Client, cfg: Config, m': Records, p: Plain, step: SyncStep, t: Time)
    requires c.script != [] && c.script[0].Close? && c.phase.Busy? && p.work.Some?
    requires SessionEnds(c.phase.s, c.jar, p.server, p.work.value)
    requires HalfCommitted(c.phase.s, cfg, c.jar, m', p, p.work.value, step, t)
    ensures var (c', obs) := AfterHalf(c, cfg, c.phase.s, step);
      Follows(c, cfg, p, t, (c', m', obs))
  {
    if step == Stop(Synced) {
      FinishRefines(c, cfg, c.phase.s, m', p, t);
    }
  }

  lemma FirstHalfRefines(c: Client, cfg: Config, m: Records, p: Plain, t: Time, at: Moment)
    requires Rep(c, cfg, m, p, t) && Smooth(c, m, t, at) && 0 < cfg.ttl && c.phase.Busy?
    requires c.script != [] && c.script[0].Close?
    ensures Follows(c, cfg, p, at.t2, Step(c, cfg, m, at))
  {
    var (m', step) := FirstHalf(c.phase.s, cfg, m, at);
    SyncCommits(c.phase.s, cfg, c.jar, m, p, p.work.value, t, at);
    HalfRefines(c, cfg, m', p, step, at.t2);
  }

  lemma SecondHalfRefines(c: Client, cfg: Config, m: Records, p: Plain, t: Time, at: Moment)
    requires Rep(c, cfg, m, p, t) && Smooth(c, m, t, at) && 0 < cfg.ttl && c.phase.Midway?
    ensures Follows(c, cfg, p, at.t2, Step(c, cfg, m, at))
  {
    var (reply, m') := Exec(m, c.phase.call, at);
    JarRepLater(c.jar, m, Plain(map[], p.client, None), t, at.t2);
    if reply == Done {
      FinishRefines(c, cfg, c.phase.s, m', p, at.t2);
    }
  }

  lemma CloseRefines(c: Client, cfg: Config, m: Records, p: Plain, t: Time, at: Moment)
    requires Rep(c, cfg, m, p, t) && Smooth(c, m, t, at) && 0 < cfg.ttl
    requires c.script != [] && c.script[0].Close?
    ensures Follows(c, cfg, p, at.t2, Step(c, cfg, m, at))
  {
    match c.phase {
      case Idle => SkipRefines(c, cfg, m, p, t, at);
      case Busy(_) => FirstHalfRefines(c, cfg, m, p, t, at);
      case Midway(_, _) => SecondHalfRefines(c, cfg, m, p, t, at);
    }
  }

  lemma StepRefines(c: Client, cfg: Config, m: Records, p: Plain, t: Time, at: Moment)
    requires Rep(c, cfg, m, p, t) && Smooth(c, m, t, at) && MissesAllowed(c, cfg, m, t) && 0 < cfg.ttl
    ensures Follows(c, cfg, p, at.t2, Step(c, cfg, m, at))
  {
    if c.script == [] {
      JarRepLater(c.jar, m, p, t, at.t2);
      if c.phase.Busy? {
        SessionRepLater(c.phase.s, c.jar, m, p.server, p.work.value, t, at.t2);
      }
    } else if c.script[0].Close? {
      CloseRefines(c, cfg, m, p, t, at);
    } else if c.script[0].Open? && c.phase.Idle? {
      OpenRefines(c, cfg, m, p, t, at);
    } else if c.script[0].Do? && c.phase.Busy? {
      DoRefines(c, cfg, m, p, t, at);
    } else {
      SkipRefines(c, cfg, m, p, t, at);
    }
  }
}
