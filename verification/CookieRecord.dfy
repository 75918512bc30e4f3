/** With records that are always created and never deleted, a cookie is a promise. */
module CookieRecord {
  import opened SessionTypes
  import opened StoreSpec
  import opened SessionSpec
  import opened Clients

  ghost predicate RecordFor(jar: Option<WireClientState>, m: Records, t: Time) {
    jar.Some? ==> IsFresh(m, jar.value.sessionId, t)
  }

  ghost predicate KeptSession(s: SessionData, jar: Option<WireClientState>, m: Records, t: Time) {
    && Valid(s)
    && RecordFor(jar, m, t)
    && s.id.Old() == JarId(jar)
    && (s.id.Old() != Some(s.id.New()) ==> !IsFresh(m, s.id.New(), t))
    && (s.server == Some(DoesNotExist) ==> s.id.NewlyGenerated?)
    && (s.server == Some(MarkedForDeletion) ==> s.invalidated)
    && (s.id.NewlyGenerated? ==> !s.server.value.Unchanged?)
    && (s.id.NewlyGenerated? && s.client.AsReceived? ==> s.client.state == map[])
  }

  /** The client holds a cookie only for a session that has a record in the store. */
  ghost predicate Kept(c: Client, cfg: Config, m: Records, t: Time) {
    && ValidClient(c)
    && match c.phase
       case Idle => RecordFor(c.jar, m, t)
       case Busy(s) => KeptSession(s, c.jar, m, t)
       case Midway(s, call) =>
         && !s.invalidated && s.server.Some? && s.server.value.Changed?
         && call.ttl == cfg.ttl && !IsFresh(m, s.id.newId, t)
  }

  ghost predicate NothingFailed(obs: seq<Obs>) {
    forall o <- obs :: !o.Failed? && o != Did(LoadFailed)
  }

  ghost predicate NeverDeletes(script: seq<Action>) {
    Do(Op.Delete) !in script
  }

  lemma LoadKeeps(s: SessionData, cfg: Config, jar: Option<WireClientState>, m: Records, t: Time, at: Moment)
    requires KeptSession(s, jar, m, t) && LoadCall(s).Some? && !at.down
    requires at.After(t) && RecordFor(jar, m, at.t2)
    ensures var reply := Exec(m, LoadCall(s).value, at).0;
      reply.Loaded? && KeptSession(AfterLoad(s, cfg, reply), jar, m, at.t2)
  {
  }

  lemma ApplyKeeps(s: SessionData, jar: Option<WireClientState>, m: Records, op: Op, t: Time)
    requires KeptSession(s, jar, m, t) && !op.Delete? && (op.NeedsServerState() ==> s.server.Some?)
    requires op.CycleId? && Some(op.generated) != JarId(jar) ==> !IsFresh(m, op.generated, t)
    ensures var (outcome, s') := Apply(s, op);
      outcome != LoadFailed && KeptSession(s', jar, m, t)
  {
  }

  lemma PerformKeeps(s: SessionData, cfg: Config, jar: Option<WireClientState>, m: Records, op: Op, t: Time, at: Moment)
    requires KeptSession(s, jar, m, t) && !op.Delete? && !at.down
    requires at.After(t) && RecordFor(jar, m, at.t2)
    requires op.CycleId? && Some(op.generated) != JarId(jar) ==> !IsFresh(m, op.generated, at.t2)
    ensures var (outcome, s') := PerformOn(s, cfg, op, m, at);
      outcome != LoadFailed && KeptSession(s', jar, m, at.t2)
  {
    if OpCall(s, op).None? {
      ApplyKeeps(s, jar, m, op, at.t2);
    } else {
      LoadKeeps(s, cfg, jar, m, t, at);
      ApplyKeeps(AfterLoad(s, cfg, Exec(m, LoadCall(s).value, at).0), jar, m, op, at.t2);
    }
  }

  /** The first half of the final sync cannot fail, and leaves a record for the cookie. */
  lemma SyncKeeps(s: SessionData, cfg: Config, jar: Option<WireClientState>, m: Records, t: Time, at: Moment)
    requires KeptSession(s, jar, m, t) && cfg.creation == NeverSkip && 0 < cfg.ttl && !at.down
    requires at.After(t) && RecordFor(jar, m, at.t2)
    ensures var begin := SyncBegin(s, cfg);
      var (reply, m') := Ask(m, if begin.Await? then Some(begin.call) else None, at);
      match if begin.Await? then SyncNext(s, cfg, reply) else begin
      case Stop(outcome) =>
        && outcome == Synced
        && RecordFor(Deliver(jar, CookieFor(AfterSync(s, cfg))), m', at.t2)
      case Await(call) =>
        && s.id.ToBeRenamed? && s.server.value.Changed?
        && call == Create(s.id.newId, s.server.value.state, cfg.ttl)
        && !IsFresh(m', s.id.newId, at.t2)
  {
    match s.server {
      case None =>
      case Some(Unchanged(state, _)) =>
      case Some(DoesNotExist) =>
      case Some(Changed(state)) =>
      case Some(MarkedForDeletion) =>
    }
  }

  /** The client and the store after a step. */
  ghost predicate StillKept(cfg: Config, t: Time, next: (Client, Records, seq<Obs>)) {
    Kept(next.0, cfg, next.1, t) && NeverDeletes(next.0.script) && NothingFailed(next.2)
  }

  lemma OpKeeps(c: Client, cfg: Config, m: Records, t: Time, at: Moment)
    requires Kept(c, cfg, m, t) && Smooth(c, m, t, at) && c.phase.Busy?
    requires c.script != [] && c.script[0].Do? && NeverDeletes(c.script) && !at.down
    ensures StillKept(cfg, at.t2, Step(c, cfg, m, at))
  {
    assert c.script[0] != Do(Op.Delete);
    PerformKeeps(c.phase.s, cfg, c.jar, m, c.script[0].op, t, at);
  }

  lemma CloseKeeps(c: Client, cfg: Config, m: Records, t: Time, at: Moment)
    requires Kept(c, cfg, m, t) && Smooth(c, m, t, at) && c.phase.Busy? && 0 < cfg.ttl && cfg.creation == NeverSkip
    requires c.script != [] && c.script[0].Close? && NeverDeletes(c.script) && !at.down
    ensures StillKept(cfg, at.t2, Step(c, cfg, m, at))
  {
    SyncKeeps(c.phase.s, cfg, c.jar, m, t, at);
  }

  lemma StepKeeps(c: Client, cfg: Config, m: Records, t: Time, at: Moment)
    requires Kept(c, cfg, m, t) && Smooth(c, m, t, at) && 0 < cfg.ttl
    requires cfg.creation == NeverSkip && NeverDeletes(c.script) && !at.down
    ensures StillKept(cfg, at.t2, Step(c, cfg, m, at))
  {
    if c.script != [] && c.phase.Busy? {
      match c.script[0] {
        case Open(_) =>
        case Do(_) => OpKeeps(c, cfg, m, t, at);
        case Close => CloseKeeps(c, cfg, m, t, at);
      }
    }
  }
}
