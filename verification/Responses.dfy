/** Which responses fail while the store works, told from the history of a client alone. */
module Responses {
  import opened SessionTypes
  import opened StoreSpec
  import opened SessionSpec
  import opened LazyRefinement
  import opened Clients
  import opened Persistence

  /** What decides it, besides the plain maps: whether the client has a cookie, whether there is a
      record for it, and whether the request at work has its state in memory. */
  datatype Ledger = Ledger(cookie: bool, recorded: bool, loaded: bool)

  const NO_COOKIE := Ledger(false, false, false)

  /** A request whose cookie has no record cannot rename what it never loaded, nor write under its old
      identifier. */
  predicate CannotCommit(l: Ledger, w: Work) {
    l.cookie && !l.recorded && (if w.renamed then !l.loaded else w.dirty && w.view.Live?)
  }

  /** Whether there is a record for the cookie that a request sets. */
  predicate RecordedAfter(l: Ledger, cfg: Config, w: Work) {
    if w.view.Doomed? then false
    else if w.dirty then true
    else if l.cookie then l.recorded || (l.loaded && !w.renamed && cfg.creation.NeverSkip?)
    else cfg.creation.NeverSkip?
  }

  function AfterResponse(l: Ledger, cfg: Config, w: Work, cookie: CookieAction): Ledger {
    match cookie
    case NoCookie => l
    case RemovalCookie => NO_COOKIE
    case SetCookie(_) => Ledger(true, RecordedAfter(l, cfg, w), false)
  }

  function AfterOperation(l: Ledger, op: Op): Ledger {
    l.(loaded := l.loaded || op.NeedsServerState() || op.Delete? || op.Invalidate?)
  }

  function LedgerStep(l: Ledger, cfg: Config, p: Plain, a: Action, o: Obs): Ledger {
    match a
    case Open(_) => if p.work.None? then l.(loaded := false) else l
    case Do(op) =>
      if p.work.None? || o == Did(LoadFailed) then l
      else AfterOperation(l, op)
    case Close => if p.work.Some? && o.Closed? then AfterResponse(l, cfg, p.work.value, o.cookie) else l
  }

  /** The responses that fail are those of requests that cannot commit, and none is torn. */
  ghost predicate FailsAsTold(l: Ledger, p: Plain, cfg: Config, script: seq<Action>, obs: seq<Obs>)
    decreases |obs|
  {
    obs == [] || script == [] ||
    (&& (obs[0].Failed? <==> script[0].Close? && p.work.Some? && CannotCommit(l, p.work.value))
     && (obs[0].Failed? ==> !obs[0].torn)
     && FailsAsTold(LedgerStep(l, cfg, p, script[0], obs[0]), PlainStep(p, script[0], obs[0]), cfg,
                    script[1..], obs[1..]))
  }

  // ---------------------------------------------------------------- representation

  ghost predicate JarLedger(l: Ledger, jar: Option<WireClientState>, m: Records, t: Time) {
    && (l.cookie <==> jar.Some?)
    && (l.cookie ==> (l.recorded <==> IsFresh(m, jar.value.sessionId, t)))
  }

  ghost predicate WorkLedger(l: Ledger, s: SessionData, w: Work) {
    && (l.cookie ==> (l.loaded <==> s.server.Some?) && (w.renamed <==> s.id.ToBeRenamed?))
    && (!l.cookie && s.client.AsReceived? ==> s.client.state == map[])
  }

  ghost predicate LedgerRep(l: Ledger, c: Client, m: Records, p: Plain, t: Time) {
    match c.phase
    case Idle => JarLedger(l, c.jar, m, t)
    case Busy(s) => JarLedger(l, c.jar, m, t) && p.work.Some? && WorkLedger(l, s, p.work.value)
    case Midway(s, _) => (l.cookie <==> c.jar.Some?) && l.loaded
  }

  lemma JarLedgerLater(l: Ledger, jar: Option<WireClientState>, m: Records, t: Time, later: Time)
    requires JarLedger(l, jar, m, t) && t <= later
    requires jar.Some? && IsFresh(m, jar.value.sessionId, t) ==> IsFresh(m, jar.value.sessionId, later)
    ensures JarLedger(l, jar, m, later)
  {
  }

  /** The ledger, the plain maps and the client after a step with these observations. */
  ghost predicate Tells(l: Ledger, c: Client, cfg: Config, p: Plain, t: Time, next: (Client, Records, seq<Obs>)) {
    && (next.2 == [] ==> LedgerRep(l, next.0, next.1, p, t))
    && (next.2 != [] ==>
         && c.script != []
         && var a, o := c.script[0], next.2[0];
            && (o.Failed? <==> a.Close? && p.work.Some? && CannotCommit(l, p.work.value))
            && (o.Failed? ==> !o.torn)
            && LedgerRep(LedgerStep(l, cfg, p, a, o), next.0, next.1, PlainStep(p, a, o), t))
  }

  // ---------------------------------------------------------------- steps

  lemma ApplyTells(s: SessionData, w: Work, op: Op, l: Ledger)
    requires Valid(s) && WorkLedger(l, s, w) && (l.cookie <==> s.id.Old().Some?)
    requires op.NeedsServerState() ==> s.server.Some?
    ensures var (outcome, s') := Apply(s, op);
      && outcome != LoadFailed
      && (outcome != Panicked ==> WorkLedger(AfterOperation(l, op), s', PlainOp(w, op).1))
  {
  }

  lemma OutcomeTells(l: Ledger, c: Client, cfg: Config, m: Records, p: Plain, t: Time, outcome: Outcome,
                     s': SessionData)
    requires c.script != [] && c.script[0].Do? && p.work.Some? && JarLedger(l, c.jar, m, t)
    requires outcome != LoadFailed
    requires outcome != Panicked ==>
      WorkLedger(AfterOperation(l, c.script[0].op), s', PlainOp(p.work.value, c.script[0].op).1)
    ensures Tells(l, c, cfg, p, t, (AfterOp(c, s', outcome), m, [Did(outcome)]))
  {
  }

  lemma OpTells(c: Client, cfg: Config, m: Records, p: Plain, l: Ledger, t: Time, at: Moment)
    requires Rep(c, cfg, m, p, t) && Smooth(c, m, t, at) && !at.down && LedgerRep(l, c, m, p, t)
    requires c.phase.Busy? && c.script != [] && c.script[0].Do?
    ensures Tells(l, c, cfg, p, at.t2, Step(c, cfg, m, at))
  {
    var s, op := c.phase.s, c.script[0].op;
    OpStepIs(c, cfg, m, at);
    JarLedgerLater(l, c.jar, m, t, at.t2);
    var (outcome, s') := PerformOn(s, cfg, op, m, at);
    if OpCall(s, op).None? {
      ApplyTells(s, p.work.value, op, l);
    } else {
      var reply := Exec(m, OpCall(s, op).value, at).0;
      ApplyTells(AfterLoad(s, cfg, reply), p.work.value, op, l.(loaded := true));
    }
    OutcomeTells(l, c, cfg, m, p, at.t2, outcome, s');
  }

  /** What the first call of the final sync means to the ledger. */
  ghost predicate HalfTold(l: Ledger, s: SessionData, cfg: Config, jar: Option<WireClientState>, m': Records, w: Work,
                           step: SyncStep, t: Time) {
    match step
    case Stop(Synced) =>
      && !CannotCommit(l, w)
      && var cookie := CookieFor(AfterSync(s, cfg));
         JarLedger(AfterResponse(l, cfg, w, cookie), Deliver(jar, cookie), m', t)
    case Stop(_) => CannotCommit(l, w) && JarLedger(l, jar, m', t)
    case Await(_) => !CannotCommit(l, w) && l.loaded
  }

  /** The circumstances of that call. */
  ghost predicate BeforeSync(l: Ledger, s: SessionData, cfg: Config, jar: Option<WireClientState>, m: Records, p: Plain,
                             w: Work, t: Time, at: Moment) {
    && SessionRep(s, jar, m, p.server, w, t) && JarLedger(l, jar, m, t) && WorkLedger(l, s, w)
    && 0 < cfg.ttl && !at.down && at.After(t)
    && (jar.Some? && IsFresh(m, jar.value.sessionId, t) ==> IsFresh(m, jar.value.sessionId, at.t2))
  }

  lemma WrittenSyncTells(l: Ledger, s: SessionData, cfg: Config, jar: Option<WireClientState>, m: Records, p: Plain,
                         w: Work, t: Time, at: Moment)
    requires BeforeSync(l, s, cfg, jar, m, p, w, t, at) && s.server.Some? && s.server.value.Changed?
    ensures var (m', step) := FirstHalf(s, cfg, m, at);
      HalfTold(l, s, cfg, jar, m', w, step, at.t2)
  {
  }

  lemma KnownSyncTells(l: Ledger, s: SessionData, cfg: Config, jar: Option<WireClientState>, m: Records, p: Plain,
                       w: Work, t: Time, at: Moment)
    requires BeforeSync(l, s, cfg, jar, m, p, w, t, at)
    requires s.server.Some? && (s.server.value.Unchanged? || s.server.value.DoesNotExist?)
    ensures var (m', step) := FirstHalf(s, cfg, m, at);
      HalfTold(l, s, cfg, jar, m', w, step, at.t2)
  {
  }

  lemma SyncTells(l: Ledger, s: SessionData, cfg: Config, jar: Option<WireClientState>, m: Records, p: Plain,
                  w: Work, t: Time, at: Moment)
    requires BeforeSync(l, s, cfg, jar, m, p, w, t, at)
    ensures var (m', step) := FirstHalf(s, cfg, m, at);
      HalfTold(l, s, cfg, jar, m', w, step, at.t2)
  {
    match s.server {
      case None =>
      case Some(Changed(_)) => WrittenSyncTells(l, s, cfg, jar, m, p, w, t, at);
      case Some(MarkedForDeletion) =>
      case Some(_) => KnownSyncTells(l, s, cfg, jar, m, p, w, t, at);
    }
  }

  lemma FirstHalfTells(c: Client, cfg: Config, m: Records, p: Plain, l: Ledger, t: Time, at: Moment)
    requires Rep(c, cfg, m, p, t) && Smooth(c, m, t, at) && !at.down && 0 < cfg.ttl && LedgerRep(l, c, m, p, t)
    requires c.phase.Busy? && c.script != [] && c.script[0].Close?
    ensures Tells(l, c, cfg, p, at.t2, Step(c, cfg, m, at))
  {
    SyncTells(l, c.phase.s, cfg, c.jar, m, p, p.work.value, t, at);
    var (m', step) := FirstHalf(c.phase.s, cfg, m, at);
    var (c', obs) := AfterHalf(c, cfg, c.phase.s, step);
    assert Step(c, cfg, m, at) == (c', m', obs);
  }

  lemma SecondHalfTells(c: Client, cfg: Config, m: Records, p: Plain, l: Ledger, t: Time, at: Moment)
    requires Rep(c, cfg, m, p, t) && Smooth(c, m, t, at) && !at.down && 0 < cfg.ttl && LedgerRep(l, c, m, p, t)
    requires c.phase.Midway?
    ensures Tells(l, c, cfg, p, at.t2, Step(c, cfg, m, at))
  {
  }

  lemma IdleTells(c: Client, cfg: Config, m: Records, p: Plain, l: Ledger, t: Time, at: Moment)
    requires Rep(c, cfg, m, p, t) && Smooth(c, m, t, at) && LedgerRep(l, c, m, p, t) && c.phase.Idle?
    ensures Tells(l, c, cfg, p, at.t2, Step(c, cfg, m, at))
  {
    JarLedgerLater(l, c.jar, m, t, at.t2);
  }

  lemma WaitingTells(c: Client, cfg: Config, m: Records, p: Plain, l: Ledger, t: Time, at: Moment)
    requires Rep(c, cfg, m, p, t) && Smooth(c, m, t, at) && LedgerRep(l, c, m, p, t) && c.phase.Busy?
    requires c.script == [] || c.script[0].Open?
    ensures Tells(l, c, cfg, p, at.t2, Step(c, cfg, m, at))
  {
    JarLedgerLater(l, c.jar, m, t, at.t2);
  }

  lemma StepTells(c: Client, cfg: Config, m: Records, p: Plain, l: Ledger, t: Time, at: Moment)
    requires Rep(c, cfg, m, p, t) && Smooth(c, m, t, at) && !at.down && 0 < cfg.ttl && LedgerRep(l, c, m, p, t)
    ensures Tells(l, c, cfg, p, at.t2, Step(c, cfg, m, at))
  {
    if c.phase.Midway? {
      SecondHalfTells(c, cfg, m, p, l, t, at);
    } else if c.phase.Idle? {
      IdleTells(c, cfg, m, p, l, t, at);
    } else if c.script == [] || c.script[0].Open? {
      WaitingTells(c, cfg, m, p, l, t, at);
    } else if c.script[0].Do? {
      OpTells(c, cfg, m, p, l, t, at);
    } else {
      FirstHalfTells(c, cfg, m, p, l, t, at);
    }
  }

  lemma {:induction false} RunTells(c: Client, cfg: Config, m: Records, p: Plain, l: Ledger, t: Time, ats: seq<Moment>)
    requires Rep(c, cfg, m, p, t) && AllSmooth(c, cfg, m, t, ats) && 0 < cfg.ttl && LedgerRep(l, c, m, p, t)
    requires cfg.missing == Allow && forall at <- ats :: !at.down
    ensures FailsAsTold(l, p, cfg, c.script, Run(c, cfg, m, ats).2)
    decreases |ats|
  {
    if ats == [] {
    } else {
      assert ats[0] in ats;
      var (c', m', obs) := Step(c, cfg, m, ats[0]);
      var rest := Run(c', cfg, m', ats[1..]).2;
      StepRefines(c, cfg, m, p, t, ats[0]);
      StepTells(c, cfg, m, p, l, t, ats[0]);
      if obs == [] {
        RunTells(c', cfg, m', p, l, ats[0].t2, ats[1..]);
        assert obs + rest == rest;
      } else {
        var p', l' := PlainStep(p, c.script[0], obs[0]), LedgerStep(l, cfg, p, c.script[0], obs[0]);
        RunTells(c', cfg, m', p', l', ats[0].t2, ats[1..]);
        assert (obs + rest)[0] == obs[0] && (obs + rest)[1..] == rest;
      }
    }
  }
}
