/** Many clients on one store, interleaved between any two store calls, with expiry sweeps in
    between: nobody notices anybody else. */
module Isolation {
  import opened SessionTypes
  import opened StoreSpec
  import opened SessionSpec
  import opened Clients
  import opened Persistence
  import opened CookieRecord
  import opened Responses
  import opened WholeRuns

  /** A client and what has been observed of it. */
  datatype Running = Running(c: Client, log: seq<Obs>)

  datatype Turn = Turn(who: nat, at: Moment) | ExpirySweep(swept: set<SessionId>, now: Time)

  ghost predicate AllValid(rs: seq<Running>) {
    forall r <- rs :: ValidClient(r.c)
  }

  function TakeTurn(rs: seq<Running>, cfg: Config, m: Records, turn: Turn): (r: (seq<Running>, Records))
    requires AllValid(rs)
    ensures AllValid(r.0) && |r.0| == |rs|
  {
    match turn
    case Turn(who, at) =>
      if who >= |rs| then (rs, m) else
      var (c', m', obs) := Step(rs[who].c, cfg, m, at);
      (rs[who := Running(c', rs[who].log + obs)], m')
    case ExpirySweep(swept, now) => (rs, Sweep(m, swept, now))
  }

  function RunAll(rs: seq<Running>, cfg: Config, m: Records, turns: seq<Turn>): (r: (seq<Running>, Records))
    requires AllValid(rs)
    ensures AllValid(r.0) && |r.0| == |rs|
    decreases |turns|
  {
    if turns == [] then (rs, m) else
    var (rs', m') := TakeTurn(rs, cfg, m, turns[0]);
    RunAll(rs', cfg, m', turns[1..])
  }

  function TurnEnd(turn: Turn): Time {
    match turn case Turn(_, at) => at.t2 case ExpirySweep(_, now) => now
  }

  ghost predicate ClockRuns(turns: seq<Turn>, t: Time)
    decreases |turns|
  {
    turns == [] ||
    (&& (match turns[0] case Turn(_, at) => at.After(t) case ExpirySweep(_, now) => t <= now)
     && ClockRuns(turns[1..], TurnEnd(turns[0])))
  }

  function EndOfTurns(turns: seq<Turn>, t: Time): Time
    decreases |turns|
  {
    if turns == [] then t else EndOfTurns(turns[1..], TurnEnd(turns[0]))
  }

  /** The moments at which one client takes its turns. */
  function MomentsOf(turns: seq<Turn>, who: nat): seq<Moment> {
    if turns == [] then []
    else if turns[0].Turn? && turns[0].who == who then [turns[0].at] + MomentsOf(turns[1..], who)
    else MomentsOf(turns[1..], who)
  }

  // ---------------------------------------------------------------- identifiers

  function ActionIds(a: Action): set<SessionId> {
    match a
    case Open(g) => {g}
    case Do(CycleId(g)) => {g}
    case _ => {}
  }

  function ScriptIds(script: seq<Action>): set<SessionId> {
    if script == [] then {} else ActionIds(script[0]) + ScriptIds(script[1..])
  }

  function PhaseIds(phase: Phase): set<SessionId> {
    if phase.Idle? then {} else
    {phase.s.id.New()} + (if phase.s.id.Old().Some? then {phase.s.id.Old().value} else {})
  }

  /** All identifiers a client uses or will ever use. */
  function ClientIds(c: Client): set<SessionId> {
    (if c.jar.Some? then {c.jar.value.sessionId} else {}) + PhaseIds(c.phase) + ScriptIds(c.script)
  }

  lemma PendingWithinIds(c: Client, cfg: Config)
    requires ValidClient(c) && Pending(c, cfg).Some?
    ensures Pending(c, cfg).value.Ids() <= ClientIds(c)
  {
  }

  lemma FinishWithinIds(c: Client, cfg: Config, s: SessionData, outcome: SyncOutcome)
    requires ValidClient(c) && c.script != [] && !c.phase.Idle? && c.phase.s == s
    ensures ClientIds(Finish(c, cfg, s, outcome).0) <= ClientIds(c)
  {
  }

  lemma OpWithinIds(c: Client, cfg: Config, reply: Reply)
    requires ValidClient(c) && c.phase.Busy? && c.script != [] && c.script[0].Do?
    ensures ClientIds(Resume(c, cfg, reply).0) <= ClientIds(c)
  {
    var (_, s') := Perform(c.phase.s, cfg, c.script[0].op, reply);
    assert PhaseIds(Busy(s')) <= PhaseIds(c.phase) + ActionIds(c.script[0]);
  }

  lemma CloseWithinIds(c: Client, cfg: Config, reply: Reply)
    requires ValidClient(c) && c.phase.Busy? && c.script != [] && c.script[0].Close?
    ensures ClientIds(Resume(c, cfg, reply).0) <= ClientIds(c)
  {
    var begin := SyncBegin(c.phase.s, cfg);
    var next := if begin.Await? then SyncNext(c.phase.s, cfg, reply) else begin;
    if next.Stop? {
      FinishWithinIds(c, cfg, c.phase.s, next.outcome);
    }
  }

  lemma IdsOnlyShrink(c: Client, cfg: Config, reply: Reply)
    requires ValidClient(c)
    ensures ClientIds(Resume(c, cfg, reply).0) <= ClientIds(c)
  {
    if c.script == [] {
    } else if c.phase.Midway? {
      FinishWithinIds(c, cfg, c.phase.s, SyncLast(reply));
    } else if c.phase.Busy? {
      match c.script[0] {
        case Open(_) =>
        case Do(_) => OpWithinIds(c, cfg, reply);
        case Close => CloseWithinIds(c, cfg, reply);
      }
    }
  }

  ghost predicate PairwiseDisjoint(rs: seq<Running>) {
    forall i, j :: 0 <= i < j < |rs| ==> ClientIds(rs[i].c) !! ClientIds(rs[j].c)
  }

  // ---------------------------------------------------------------- isolation

  /** A turn of somebody else, or a sweep, does not change what a client can see. */
  lemma OthersLeaveMineAlone(rs: seq<Running>, cfg: Config, m: Records, turn: Turn, i: nat, solo: Records, t: Time)
    requires AllValid(rs) && PairwiseDisjoint(rs) && i < |rs| && ClockRuns([turn], t)
    requires turn.Turn? ==> turn.who != i
    requires AgreeOn(m, solo, ClientIds(rs[i].c), t)
    ensures AgreeOn(TakeTurn(rs, cfg, m, turn).1, solo, ClientIds(rs[i].c), TurnEnd(turn))
  {
    var ids := ClientIds(rs[i].c);
    AgreeLater(m, solo, ids, t, TurnEnd(turn));
    if turn.Turn? && turn.who < |rs| && Pending(rs[turn.who].c, cfg).Some? {
      var call := Pending(rs[turn.who].c, cfg).value;
      PendingWithinIds(rs[turn.who].c, cfg);
      assert ClientIds(rs[turn.who].c) !! ids;
      CallLeavesOthers(m, ids, call, turn.at);
    }
  }

  lemma AgreeLater(m1: Records, m2: Records, ids: set<SessionId>, t: Time, later: Time)
    requires AgreeOn(m1, m2, ids, t) && t <= later
    ensures AgreeOn(m1, m2, ids, later)
  {
    forall id | id in ids
      ensures Peek(m1, id, later) == Peek(m2, id, later)
    {
      assert Peek(m1, id, t) == Peek(m2, id, t);
    }
  }

  /** A turn of its own has the same effect for a client on both stores. */
  lemma MyTurnIsMine(rs: seq<Running>, cfg: Config, m: Records, turn: Turn, i: nat, solo: Records, t: Time)
    requires AllValid(rs) && i < |rs| && ClockRuns([turn], t) && turn.Turn? && turn.who == i
    requires AgreeOn(m, solo, ClientIds(rs[i].c), t)
    ensures var (rs', m') := TakeTurn(rs, cfg, m, turn);
      var (c, store, obs) := Step(rs[i].c, cfg, solo, turn.at);
      && rs'[i] == Running(c, rs[i].log + obs)
      && AgreeOn(m', store, ClientIds(c), TurnEnd(turn))
  {
    var c, at := rs[i].c, turn.at;
    AgreeLater(m, solo, ClientIds(c), t, at.t2);
    if Pending(c, cfg).Some? {
      PendingWithinIds(c, cfg);
      CallDependsOnOwnIds(m, solo, ClientIds(c), Pending(c, cfg).value, at, t);
    }
    IdsOnlyShrink(c, cfg, Ask(m, Pending(c, cfg), at).0);
  }

  lemma TurnKeepsDisjoint(rs: seq<Running>, cfg: Config, m: Records, turn: Turn)
    requires AllValid(rs) && PairwiseDisjoint(rs)
    ensures PairwiseDisjoint(TakeTurn(rs, cfg, m, turn).0)
  {
    if turn.Turn? && turn.who < |rs| {
      IdsOnlyShrink(rs[turn.who].c, cfg, Ask(m, Pending(rs[turn.who].c, cfg), turn.at).0);
    }
  }

  /** The outcome of a run among others is, for client `i` with that log before the run, the outcome
      of a run alone: same state, same observations, same unexpired records. */
  ghost predicate Alike(among: (seq<Running>, Records), alone: (Client, Records, seq<Obs>), log: seq<Obs>, i: nat,
                        t: Time) {
    && i < |among.0| && among.0[i] == Running(alone.0, log + alone.2)
    && AgreeOn(among.1, alone.1, ClientIds(alone.0), t)
  }

  lemma LogsAdd(among: (seq<Running>, Records), c: Client, store: Records, log: seq<Obs>, obs: seq<Obs>, more: seq<Obs>,
                i: nat, t: Time)
    requires Alike(among, (c, store, more), log + obs, i, t)
    ensures Alike(among, (c, store, obs + more), log, i, t)
  {
    assert log + (obs + more) == (log + obs) + more;
  }

  lemma RunUnfolds(c: Client, cfg: Config, m: Records, at: Moment, ats: seq<Moment>, c': Client, m': Records,
                   obs: seq<Obs>)
    requires ValidClient(c) && Step(c, cfg, m, at) == (c', m', obs)
    ensures ValidClient(c')
    ensures var (last, store, more) := Run(c', cfg, m', ats);
      Run(c, cfg, m, [at] + ats) == (last, store, obs + more)
  {
    assert ([at] + ats)[1..] == ats;
  }

  /** Isolation. In any interleaving, at the granularity of single store calls, of clients with
      disjoint identifiers and of expiry sweeps, every client ends up in the state, with the
      observations, and with the unexpired records that it would have had alone on the store,
      at the same clock readings. */
  lemma {:induction false} ClientsAreIsolated(rs: seq<Running>, cfg: Config, m: Records, turns: seq<Turn>, t: Time,
                                              i: nat, solo: Records)
    requires AllValid(rs) && PairwiseDisjoint(rs) && i < |rs| && ClockRuns(turns, t)
    requires AgreeOn(m, solo, ClientIds(rs[i].c), t)
    ensures Alike(RunAll(rs, cfg, m, turns), Run(rs[i].c, cfg, solo, MomentsOf(turns, i)), rs[i].log, i,
                  EndOfTurns(turns, t))
    decreases |turns|
  {
    if turns == [] {
      assert rs[i].log + [] == rs[i].log;
    } else {
      var turn := turns[0];
      assert ClockRuns([turn], t);
      var (rs', m') := TakeTurn(rs, cfg, m, turn);
      TurnKeepsDisjoint(rs, cfg, m, turn);
      if turn.Turn? && turn.who == i {
        MyTurnIsMine(rs, cfg, m, turn, i, solo, t);
        var (c, store, obs) := Step(rs[i].c, cfg, solo, turn.at);
        ClientsAreIsolated(rs', cfg, m', turns[1..], TurnEnd(turn), i, store);
        var (last, final, more) := Run(c, cfg, store, MomentsOf(turns[1..], i));
        RunUnfolds(rs[i].c, cfg, solo, turn.at, MomentsOf(turns[1..], i), c, store, obs);
        LogsAdd(RunAll(rs', cfg, m', turns[1..]), last, final, rs[i].log, obs, more, i, EndOfTurns(turns, t));
      } else {
        OthersLeaveMineAlone(rs, cfg, m, turn, i, solo, t);
        ClientsAreIsolated(rs', cfg, m', turns[1..], TurnEnd(turn), i, solo);
      }
    }
  }

  /** Persistence in company: with any number of clients on one store, what each of them reads is
      still what it wrote, also by the naive reading if its closes are faithful; its responses fail
      when its own history says so; and where cookies guarantee records, none of them does. */
  lemma PersistenceInCompany(rs: seq<Running>, cfg: Config, m: Records, turns: seq<Turn>, t: Time,
                             i: nat, script: seq<Action>)
    requires AllValid(rs) && PairwiseDisjoint(rs) && i < |rs| && ClockRuns(turns, t)
    requires rs[i] == Running(NewClient(script), [])
    requires 0 < cfg.ttl && (cfg.missing == Allow || AlwaysRecorded(cfg, script, MomentsOf(turns, i)))
    requires AllSmooth(NewClient(script), cfg, m, t, MomentsOf(turns, i))
    ensures var log := RunAll(rs, cfg, m, turns).0[i].log;
      && Explained(NOTHING, script, log)
      && (AlwaysRecorded(cfg, script, MomentsOf(turns, i)) ==> NothingFailed(log))
      && (cfg.missing == Allow && (forall at <- MomentsOf(turns, i) :: !at.down) ==>
           Did(LoadFailed) !in log && FailsAsTold(NO_COOKIE, NOTHING, cfg, script, log))
      && (ClosesFaithfully(NOTHING, script, log) ==> NaivelyExplained(NOTHING, script, log))
  {
    ClientsAreIsolated(rs, cfg, m, turns, t, i, m);
    var ats := MomentsOf(turns, i);
    var obs := Run(NewClient(script), cfg, m, ats).2;
    assert [] + obs == obs;
    if AlwaysRecorded(cfg, script, ats) {
      CookieImpliesRecord(script, cfg, m, t, ats);
    }
    if cfg.missing == Allow {
      WholeRunPersistence(script, cfg, m, t, ats);
    }
    NaivePersistence(script, cfg, m, t, ats);
  }

  // ---------------------------------------------------------------- lifetimes

  ghost predicate UsesTtl(c: Client, cfg: Config) {
    c.phase.Midway? && c.phase.call.Create? ==> c.phase.call.ttl == cfg.ttl
  }

  /** In every store that clients with one configuration can reach, no record outlives a full
      time-to-live from now. */
  lemma {:induction false} ReachableStoresAreBounded(rs: seq<Running>, cfg: Config, m: Records, turns: seq<Turn>,
                                                     t: Time)
    requires AllValid(rs) && ClockRuns(turns, t) && Bounded(m, cfg.ttl, t)
    requires forall r <- rs :: UsesTtl(r.c, cfg)
    ensures Bounded(RunAll(rs, cfg, m, turns).1, cfg.ttl, EndOfTurns(turns, t))
    decreases |turns|
  {
    if turns == [] {
    } else {
      var turn := turns[0];
      var (rs', m') := TakeTurn(rs, cfg, m, turn);
      if turn.Turn? && turn.who < |rs| {
        var c := rs[turn.who].c;
        assert UsesTtl(c, cfg);
        if Pending(c, cfg).Some? {
          CallKeepsBound(m, Pending(c, cfg).value, turn.at, cfg.ttl, t);
        }
        assert UsesTtl(Step(c, cfg, m, turn.at).0, cfg);
      }
      ReachableStoresAreBounded(rs', cfg, m', turns[1..], TurnEnd(turn));
    }
  }
}
