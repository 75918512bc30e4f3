/** A concrete run that the naive reading of a session does not explain. */
module RemovalTrap {
  import opened SessionTypes
  import opened StoreSpec
  import opened SessionSpec
  import opened LazyRefinement
  import opened Clients
  import opened Persistence
  import opened WholeRuns

  /** The naive reading fails: a request removes the only key of a loaded state and is answered
      that it is gone, and the next request reads it again. */
  lemma RemovalIsLost(id: SessionId, k: string, v: Value, deadline: Time, cfg: Config, t: Time)
    requires cfg.missing == Allow && cfg.extendTtl == OnStateChanges && 0 < cfg.ttl && t < deadline
    ensures var script := [Open(id), Do(Op.Remove(k)), Close, Open(id), Do(Get(k))];
      var c := Client(Some(Serialize(id, map[])), Idle, script);
      var at := Moment(false, t, t);
      var obs := Run(c, cfg, map[id := StoreRecord(map[k := v], deadline)], [at, at, at, at, at]).2;
      && obs == [Opened, Did(Found(Some(v))), Closed(SetCookie(Serialize(id, map[]))), Opened, Did(Found(Some(v)))]
      && !NaivelyExplained(Plain(map[k := v], map[], None), script, obs)
  {
    var at, wire := Moment(false, t, t), Serialize(id, map[]);
    var m: Records := map[id := StoreRecord(map[k := v], deadline)];
    var a0, a1, a2, a3, a4 := Open(id), Do(Op.Remove(k)), Close, Open(id), Do(Get(k));
    var s0 := NewSession(Some(IncomingSession(id, map[])), id);
    var s1 := s0.(server := Some(Unchanged(map[k := v] - {k}, deadline - t)));
    var o := Did(Found(Some(v)));
    assert [a0] + [a1, a2, a3, a4] == [a0, a1, a2, a3, a4] && [a1] + [a2, a3, a4] == [a1, a2, a3, a4];
    assert [a2] + [a3, a4] == [a2, a3, a4] && [a3] + [a4] == [a3, a4] && [a4] + [] == [a4];
    OpenGoes(wire, id, [a1, a2, a3, a4], cfg, m, at);
    LoadGoes(wire, id, k, v, deadline, a1.op, [a2, a3, a4], cfg, t);
    CloseGoes(wire, id, s1, [a3, a4], cfg, m, at);
    OpenGoes(wire, id, [a4], cfg, m, at);
    LoadGoes(wire, id, k, v, deadline, a4.op, [], cfg, t);
    FiveSteps(cfg, m, at,
              Client(Some(wire), Idle, [a0] + [a1, a2, a3, a4]), Client(Some(wire), Busy(s0), [a1] + [a2, a3, a4]),
              Client(Some(wire), Busy(s1), [Close] + [a3, a4]), Client(Some(wire), Idle, [a3] + [a4]),
              Client(Some(wire), Busy(s0), [a4] + []),
              Client(Some(wire), Busy(s0.(server := Some(Unchanged(map[k := v], deadline - t)))), []),
              Opened, o, Closed(SetCookie(wire)), Opened, o);
    ReadAgain(id, k, v, wire);
  }

  /** The request at work has lost its key, and the next one reads it. */
  lemma ReadAgain(id: SessionId, k: string, v: Value, wire: WireClientState)
    requires wire == Serialize(id, map[])
    ensures !NaivelyExplained(Plain(map[k := v], map[], None),
      [Open(id), Do(Op.Remove(k)), Close, Open(id), Do(Get(k))],
      [Opened, Did(Found(Some(v))), Closed(SetCookie(wire)), Opened, Did(Found(Some(v)))])
  {
    var o, r := Did(Found(Some(v))), Do(Op.Remove(k));
    var p0 := Plain(map[k := v], map[], None);
    var p1 := PlainStep(p0, Open(id), Opened);
    var p2 := PlainStep(p1, r, o);
    var script, obs := [Open(id), r, Close, Open(id), Do(Get(k))], [Opened, o, Closed(SetCookie(wire)), Opened, o];
    assert script[1..][1..] == ReadBack(id, k) && obs[1..][1..] == [Closed(SetCookie(wire)), Opened, o];
    ReadBackUnfolds(p2, Closed(SetCookie(wire)), id, k, o);
    NaiveWhereFaithful(p2, script[1..][1..], obs[1..][1..]);
    assert !NaivelyExplained(p1, script[1..], obs[1..]);
  }

  lemma OpenGoes(wire: WireClientState, id: SessionId, rest: seq<Action>, cfg: Config, m: Records, at: Moment)
    requires wire == Serialize(id, map[])
    ensures Goes(Client(Some(wire), Idle, [Open(id)] + rest), cfg, m, at,
                 Client(Some(wire), Busy(NewSession(Some(IncomingSession(id, map[])), id)), rest), Opened)
  {
    assert ([Open(id)] + rest)[1..] == rest;
  }

  lemma LoadGoes(wire: WireClientState, id: SessionId, k: string, v: Value, deadline: Time, op: Op, rest: seq<Action>,
                 cfg: Config, t: Time)
    requires t < deadline && (op == Op.Remove(k) || op == Get(k))
    ensures var s := NewSession(Some(IncomingSession(id, map[])), id);
      var state := if op.Remove? then map[k := v] - {k} else map[k := v];
      Goes(Client(Some(wire), Busy(s), [Do(op)] + rest), cfg,
           map[id := StoreRecord(map[k := v], deadline)], Moment(false, t, t),
           Client(Some(wire), Busy(s.(server := Some(Unchanged(state, deadline - t)))), rest), Did(Found(Some(v))))
  {
    assert ([Do(op)] + rest)[1..] == rest;
  }

  lemma CloseGoes(wire: WireClientState, id: SessionId, s: SessionData, rest: seq<Action>, cfg: Config, m: Records,
                  at: Moment)
    requires Valid(s) && s.id == Existing(id) && !s.invalidated && s.client.state == map[]
    requires wire == Serialize(id, map[])
    requires s.server.Some? && s.server.value.Unchanged? && cfg.extendTtl == OnStateChanges
    ensures Goes(Client(Some(wire), Busy(s), [Close] + rest), cfg, m, at,
                 Client(Some(wire), Idle, rest), Closed(SetCookie(wire)))
  {
    assert ([Close] + rest)[1..] == rest;
  }

  ghost predicate Goes(c: Client, cfg: Config, m: Records, at: Moment, c': Client, o: Obs) {
    ValidClient(c) && Step(c, cfg, m, at) == (c', m, [o])
  }

  lemma FiveSteps(cfg: Config, m: Records, at: Moment, c0: Client, c1: Client, c2: Client, c3: Client, c4: Client,
                  c5: Client, o0: Obs, o1: Obs, o2: Obs, o3: Obs, o4: Obs)
    requires Goes(c0, cfg, m, at, c1, o0) && Goes(c1, cfg, m, at, c2, o1) && Goes(c2, cfg, m, at, c3, o2)
    requires Goes(c3, cfg, m, at, c4, o3) && Goes(c4, cfg, m, at, c5, o4)
    ensures Run(c0, cfg, m, [at, at, at, at, at]).2 == [o0, o1, o2, o3, o4]
  {
    var two, three, four := [at] + [at], [at] + ([at] + [at]), [at] + ([at] + ([at] + [at]));
    OneStep(cfg, m, at, c4, c5, o4, []);
    assert [at] + [] == [at];
    OneStep(cfg, m, at, c3, c4, o3, [at]);
    OneStep(cfg, m, at, c2, c3, o2, two);
    OneStep(cfg, m, at, c1, c2, o1, three);
    OneStep(cfg, m, at, c0, c1, o0, four);
    assert [at] + four == [at, at, at, at, at];
  }

  lemma OneStep(cfg: Config, m: Records, at: Moment, c: Client, c': Client, o: Obs, ats: seq<Moment>)
    requires Goes(c, cfg, m, at, c', o)
    ensures Run(c, cfg, m, [at] + ats).2 == [o] + Run(c', cfg, m, ats).2
  {
    assert ([at] + ats)[1..] == ats;
  }
}
