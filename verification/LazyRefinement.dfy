/** The lazily loaded cell behaves like a plain value that was there from the start. */
module LazyRefinement {
  import opened SessionTypes
  import opened StoreSpec
  import opened SessionSpec
  import opened SessionInvariants

  /** The server-side state as an application sees it. A record that does not exist reads like an
      empty one. A doomed state ignores everything. */
  datatype View = Live(state: State) | Doomed

  function ViewOf(server: ServerState): View {
    if server.MarkedForDeletion? then Doomed else Live(ServerMap(server))
  }

  function Visible(v: View): State {
    if v.Live? then v.state else map[]
  }

  /** What each operation means to the plain value. */
  function ViewStep(v: View, op: Op): (Outcome, View) {
    match op
    case Get(k) => (Found(Lookup(Visible(v), k)), v)
    case IsEmpty => (Flag(Visible(v) == map[]), v)
    case Insert(k, x) => (Found(Lookup(Visible(v), k)), if v.Live? then Live(v.state[k := x]) else v)
    case Remove(k) => (Found(Lookup(Visible(v), k)), if v.Live? then Live(v.state - {k}) else v)
    case Clear => (Finished, if v.Live? then Live(map[]) else v)
    case Delete => (Finished, Doomed)
    case Invalidate => (Finished, Doomed)
    case _ => (Finished, v)
  }

  /** The eager session: the value, and whether it can never come back. */
  datatype Eager = Eager(view: View, dead: bool)

  function EagerOf(s: SessionData): Eager
    requires s.server.Some?
  {
    Eager(ViewOf(s.server.value), s.invalidated)
  }

  function EagerDo(e: Eager, op: Op): Eager {
    Eager(ViewStep(e.view, op).1, e.dead || op.Invalidate?)
  }

  /** A successful sync turns a deleted state into no state. */
  function EagerSync(e: Eager, synced: bool): Eager {
    if synced && e.view.Doomed? && !e.dead then Eager(Live(map[]), false) else e
  }

  /** Where the eager session starts: with what the store answers to the first load that gets an
      answer. If no load ever does, anything will do. */
  function Start(s: SessionData, cfg: Config, evs: seq<Event>): Eager
    requires Valid(s)
    decreases |evs|
  {
    if s.server.Some? then EagerOf(s)
    else if evs == [] || (evs[0].Do? && (evs[0].op.Delete? || evs[0].op.Invalidate?)) then Eager(Live(map[]), false)
    else if evs[0].Do? && OpCall(s, evs[0].op).Some? && evs[0].reply.Loaded? then
      EagerOf(AfterLoad(s, cfg, evs[0].reply))
    else Start(React(s, cfg, evs[0]), cfg, evs[1..])
  }

  /** Every server-side answer of the lazy session is the one of the eager session, except that a
      load may fail, in which case nothing happened. */
  ghost predicate Explains(e: Eager, s: SessionData, cfg: Config, evs: seq<Event>)
    requires Valid(s)
    decreases |evs|
  {
    evs == [] ||
    match evs[0]
    case Do(op, reply) =>
      var (outcome, s') := Perform(s, cfg, op, reply);
      if outcome == LoadFailed then
        s' == s && op.NeedsServerState() && !reply.Loaded? && Explains(e, s', cfg, evs[1..])
      else
        && (!op.OnClient() && !op.CycleId? ==> outcome == ViewStep(e.view, op).0)
        && Explains(EagerDo(e, op), s', cfg, evs[1..])
    case Sync(r1, r2) =>
      Explains(EagerSync(e, SyncVerdict(s, cfg, r1, r2) == Synced), React(s, cfg, evs[0]), cfg, evs[1..])
  }

  lemma LoadedStepRefines(s: SessionData, op: Op)
    requires Valid(s) && s.server.Some?
    ensures EagerOf(Apply(s, op).1) == EagerDo(EagerOf(s), op)
    ensures !op.OnClient() && !op.CycleId? ==> Apply(s, op).0 == ViewStep(EagerOf(s).view, op).0
  {
  }

  /** A session that is still to be loaded is doomed only by a rejected miss, which is final. */
  lemma {:induction false} DoomedStartIsDead(s: SessionData, cfg: Config, evs: seq<Event>)
    requires Valid(s) && s.server.None?
    ensures Start(s, cfg, evs).view.Doomed? ==> Start(s, cfg, evs).dead
    decreases |evs|
  {
    if evs == [] {
    } else if React(s, cfg, evs[0]).server.None? {
      DoomedStartIsDead(React(s, cfg, evs[0]), cfg, evs[1..]);
    }
  }

  /** Lazy refines eager: for every sequence of operations and syncs, whatever the store holds at
      any time, the answers are those of the plain value that starts with what the store held
      when it was first loaded. */
  lemma {:induction false} LazyRefinesEager(s: SessionData, cfg: Config, evs: seq<Event>)
    requires Valid(s)
    ensures Explains(Start(s, cfg, evs), s, cfg, evs)
    decreases |evs|
  {
    if evs == [] {
    } else {
      var s' := React(s, cfg, evs[0]);
      LazyRefinesEager(s', cfg, evs[1..]);
      match evs[0] {
        case Do(op, reply) => DoIsExplained(s, cfg, evs);
        case Sync(_, _) =>
          if s.server.None? {
            DoomedStartIsDead(s, cfg, evs);
          }
      }
    }
  }

  lemma DoIsExplained(s: SessionData, cfg: Config, evs: seq<Event>)
    requires Valid(s) && evs != [] && evs[0].Do?
    requires var s' := React(s, cfg, evs[0]);
      Explains(Start(s', cfg, evs[1..]), s', cfg, evs[1..])
    ensures Explains(Start(s, cfg, evs), s, cfg, evs)
  {
    var Do(op, reply) := evs[0];
    if s.server.Some? {
      LoadedStepRefines(s, op);
    } else if OpCall(s, op).Some? && reply.Loaded? {
      LoadedStepRefines(AfterLoad(s, cfg, reply), op);
    }
  }
}
