/** The main results about whole runs of one client: any number of requests, each with any
    operations, and every response's cookie coming back with the next request. */
module WholeRuns {
  import opened SessionTypes
  import opened StoreSpec
  import opened SessionSpec
  import opened LazyRefinement
  import opened Clients
  import opened Persistence
  import opened CookieRecord
  import opened Responses

  /** A browser without a session, and two empty maps. */
  function NewClient(script: seq<Action>): Client {
    Client(None, Idle, script)
  }

  const NOTHING := Plain(map[], map[], None)

  /** The configuration in which a cookie guarantees a record. */
  ghost predicate AlwaysRecorded(cfg: Config, script: seq<Action>, ats: seq<Moment>) {
    cfg.creation == NeverSkip && NeverDeletes(script) && forall at <- ats :: !at.down
  }

  lemma {:induction false} RunRefines(c: Client, cfg: Config, m: Records, p: Plain, t: Time, ats: seq<Moment>)
    requires Rep(c, cfg, m, p, t) && AllSmooth(c, cfg, m, t, ats) && 0 < cfg.ttl
    requires cfg.missing == Allow || (AlwaysRecorded(cfg, c.script, ats) && Kept(c, cfg, m, t))
    ensures Explained(p, c.script, Run(c, cfg, m, ats).2)
    decreases |ats|
  {
    if ats == [] {
    } else {
      var (c', m', obs) := Step(c, cfg, m, ats[0]);
      var rest := Run(c', cfg, m', ats[1..]).2;
      if cfg.missing != Allow {
        StepKeeps(c, cfg, m, t, ats[0]);
      }
      StepRefines(c, cfg, m, p, t, ats[0]);
      RunRefines(c', cfg, m', if obs == [] then p else PlainStep(p, c.script[0], obs[0]), ats[0].t2, ats[1..]);
      assert obs == [] ==> obs + rest == rest;
      assert obs != [] ==> (obs + rest)[0] == obs[0] && (obs + rest)[1..] == rest;
    }
  }

  lemma {:induction false} RunKeeps(c: Client, cfg: Config, m: Records, t: Time, ats: seq<Moment>)
    requires Kept(c, cfg, m, t) && AllSmooth(c, cfg, m, t, ats) && 0 < cfg.ttl
    requires AlwaysRecorded(cfg, c.script, ats)
    ensures var (c', m', obs) := Run(c, cfg, m, ats);
      && NothingFailed(obs)
      && (!c'.phase.Midway? && c'.jar.Some? ==> c'.jar.value.sessionId in m')
      && (!c'.phase.Midway? && ats != [] ==> RecordFor(c'.jar, m', ats[|ats| - 1].t2))
    decreases |ats|
  {
    if ats == [] {
    } else {
      StepKeeps(c, cfg, m, t, ats[0]);
      var (c', m', _) := Step(c, cfg, m, ats[0]);
      RunKeeps(c', cfg, m', ats[0].t2, ats[1..]);
      if ats[1..] != [] {
        assert ats[1..][|ats[1..]| - 1] == ats[|ats| - 1];
      }
    }
  }

  lemma {:induction false} LoadsFailOnlyIfDown(c: Client, cfg: Config, m: Records, ats: seq<Moment>)
    requires ValidClient(c) && forall at <- ats :: !at.down
    ensures Did(LoadFailed) !in Run(c, cfg, m, ats).2
    decreases |ats|
  {
    if ats == [] {
    } else {
      assert ats[0] in ats;
      var (c', m', obs) := Step(c, cfg, m, ats[0]);
      assert Did(LoadFailed) !in obs;
      LoadsFailOnlyIfDown(c', cfg, m', ats[1..]);
    }
  }

  /** Whole-run persistence. The values read in every request are those of one pair of plain maps
      to which all earlier requests were applied, through renames, failing loads, aborted requests,
      failed responses and the cookie's round trip. While the store works, no load fails, and a
      response fails if and only if the history says so: its request has a cookie without a record,
      and either renamed its session without loading it, or wrote to it without renaming it. */
  lemma WholeRunPersistence(script: seq<Action>, cfg: Config, m: Records, t: Time, ats: seq<Moment>)
    requires cfg.missing == Allow && 0 < cfg.ttl
    requires AllSmooth(NewClient(script), cfg, m, t, ats)
    ensures Explained(NOTHING, script, Run(NewClient(script), cfg, m, ats).2)
    ensures (forall at <- ats :: !at.down) ==>
      && Did(LoadFailed) !in Run(NewClient(script), cfg, m, ats).2
      && FailsAsTold(NO_COOKIE, NOTHING, cfg, script, Run(NewClient(script), cfg, m, ats).2)
  {
    RunRefines(NewClient(script), cfg, m, NOTHING, t, ats);
    if forall at <- ats :: !at.down {
      LoadsFailOnlyIfDown(NewClient(script), cfg, m, ats);
      RunTells(NewClient(script), cfg, m, NOTHING, NO_COOKIE, t, ats);
    }
  }

  /** Cookie implies record. If records are always created, never deleted by the application and
      never expire, then whenever the client has a cookie, at rest or during a request, there is a
      record for it, unless a renamed session is in the middle of its final sync; no response fails,
      no load fails or misses, and persistence holds even where a missing record would invalidate
      the session. */
  lemma CookieImpliesRecord(script: seq<Action>, cfg: Config, m: Records, t: Time, ats: seq<Moment>)
    requires AlwaysRecorded(cfg, script, ats) && 0 < cfg.ttl
    requires AllSmooth(NewClient(script), cfg, m, t, ats)
    ensures var (c', m', obs) := Run(NewClient(script), cfg, m, ats);
      && NothingFailed(obs)
      && (!c'.phase.Midway? && c'.jar.Some? ==>
           ats != [] && IsFresh(m', c'.jar.value.sessionId, ats[|ats| - 1].t2))
      && Explained(NOTHING, script, obs)
  {
    RunKeeps(NewClient(script), cfg, m, t, ats);
    RunRefines(NewClient(script), cfg, m, NOTHING, t, ats);
  }

  // ---------------------------------------------------------------- the naive reading

  /** The documented meaning of a request: what it sees at the end is what it leaves behind. */
  function NaiveStep(p: Plain, a: Action, o: Obs): Plain {
    if a.Close? && p.work.Some? && !o.Failed? then
      Plain(Visible(p.work.value.view), if p.work.value.dead then map[] else p.work.value.client, None)
    else PlainStep(p, a, o)
  }

  ghost predicate NaivelyExplained(p: Plain, script: seq<Action>, obs: seq<Obs>)
    decreases |obs|
  {
    obs == [] ||
    (&& script != [] && Expected(p, script[0], obs[0])
     && NaivelyExplained(NaiveStep(p, script[0], obs[0]), script[1..], obs[1..]))
  }

  /** The request at work leaves behind what it sees. */
  predicate Faithful(p: Plain) {
    p.work.Some? ==> Committed(p.server, p.work.value) == Visible(p.work.value.view)
  }

  /** It does not exactly if all it did to its state was to remove keys. */
  lemma FaithfulUnlessOnlyRemoved(p: Plain)
    requires p.work.Some?
    ensures var w := p.work.value;
      && (!Faithful(p) <==> w.view.Live? && !w.dirty && w.view.state != p.server)
      && (!Faithful(p) <==> exists k :: Lost(p, k))
  {
    var w := p.work.value;
    var left, seen := Committed(p.server, w), Visible(w.view);
    if !Faithful(p) {
      var k := Difference(left, seen);
      assert Lost(p, k);
    }
  }

  lemma Difference(a: State, b: State) returns (k: string)
    requires a != b
    ensures Lookup(a, k) != Lookup(b, k)
  {
    if i :| i in a && (i !in b || a[i] != b[i]) {
      k := i;
    } else {
      k :| k in b && k !in a;
    }
  }

  /** What is left behind under this key is not what is seen. */
  predicate Lost(p: Plain, k: string) {
    && p.work.Some?
    && Lookup(Committed(p.server, p.work.value), k) != Lookup(Visible(p.work.value.view), k)
  }

  /** Every response that does not fail closes a faithful request. */
  ghost predicate ClosesFaithfully(p: Plain, script: seq<Action>, obs: seq<Obs>)
    decreases |obs|
  {
    obs == [] || script == [] ||
    (&& (script[0].Close? && !obs[0].Failed? ==> Faithful(p))
     && ClosesFaithfully(PlainStep(p, script[0], obs[0]), script[1..], obs[1..]))
  }

  /** The action does not bear on what is kept under this key. */
  predicate Spares(a: Action, o: Obs, k: string) {
    match a
    case Open(_) => true
    case Close => !(o.Failed? && o.torn)
    case Do(op) =>
      match op
      case Insert(key, _) => key != k
      case Remove(key) => key != k
      case Clear => false
      case Delete => false
      case Invalidate => false
      case _ => true
  }

  /** Sooner or later, in this request or another one, the key is read and there is an answer, and
      nothing up to then bears on it. */
  ghost predicate ReadsUntouched(script: seq<Action>, obs: seq<Obs>, k: string)
    decreases |obs|
  {
    && obs != [] && script != []
    && ((script[0] == Do(Get(k)) && obs[0].Did? && !obs[0].outcome.LoadFailed?)
        || (Spares(script[0], obs[0], k) && ReadsUntouched(script[1..], obs[1..], k)))
  }

  /** A key that is lost at the first close that is not faithful is read later on. */
  ghost predicate ReadsLostKey(p: Plain, script: seq<Action>, obs: seq<Obs>)
    decreases |obs|
  {
    && obs != [] && script != []
    && if script[0].Close? && !obs[0].Failed? && !Faithful(p) then
         exists k :: Lost(p, k) && ReadsUntouched(script[1..], obs[1..], k)
       else ReadsLostKey(PlainStep(p, script[0], obs[0]), script[1..], obs[1..])
  }

  /** The naive reading is right where every close is faithful, and a lost key that is read shows
      that it is wrong. */
  lemma {:induction false} NaiveWhereFaithful(p: Plain, script: seq<Action>, obs: seq<Obs>)
    requires Explained(p, script, obs)
    ensures ClosesFaithfully(p, script, obs) ==> NaivelyExplained(p, script, obs)
    ensures ReadsLostKey(p, script, obs) ==> !NaivelyExplained(p, script, obs)
    decreases |obs|
  {
    if obs == [] {
    } else if script[0].Close? && !obs[0].Failed? && !Faithful(p) {
      if ReadsLostKey(p, script, obs) {
        var k :| Lost(p, k) && ReadsUntouched(script[1..], obs[1..], k);
        LostKeyIsNoticed(PlainStep(p, Close, obs[0]), NaiveStep(p, Close, obs[0]), script[1..], obs[1..], k);
      }
    } else {
      assert PlainStep(p, script[0], obs[0]) == NaiveStep(p, script[0], obs[0]);
      NaiveWhereFaithful(PlainStep(p, script[0], obs[0]), script[1..], obs[1..]);
    }
  }

  /** Two accounts of a client that differ about a key, also as seen by the request at work. */
  ghost predicate Differ(p: Plain, q: Plain, k: string) {
    && Lookup(p.server, k) != Lookup(q.server, k)
    && (p.work.Some? <==> q.work.Some?)
    && (p.work.Some? ==> Sees(p.work.value, p.server, k) && Sees(q.work.value, q.server, k))
  }

  predicate Sees(w: Work, server: State, k: string) {
    w.view.Live? && Lookup(w.view.state, k) == Lookup(server, k)
  }

  lemma SparedOp(w: Work, server: State, op: Op, k: string)
    requires Sees(w, server, k) && Spares(Do(op), Skipped, k)
    ensures Sees(PlainOp(w, op).1, server, k)
  {
  }

  lemma StillDiffer(p: Plain, q: Plain, a: Action, o: Obs, k: string)
    requires Differ(p, q, k) && Spares(a, o, k) && Expected(p, a, o) && Expected(q, a, o)
    ensures Differ(PlainStep(p, a, o), NaiveStep(q, a, o), k)
  {
    if a.Do? && p.work.Some? {
      SparedOp(p.work.value, p.server, a.op, k);
      SparedOp(q.work.value, q.server, a.op, k);
    }
  }

  lemma {:induction false} LostKeyIsNoticed(p: Plain, q: Plain, script: seq<Action>, obs: seq<Obs>, k: string)
    requires Differ(p, q, k) && Explained(p, script, obs) && ReadsUntouched(script, obs, k)
    ensures !NaivelyExplained(q, script, obs)
    decreases |obs|
  {
    if script[0] == Do(Get(k)) && obs[0].Did? && !obs[0].outcome.LoadFailed? {
    } else if Expected(q, script[0], obs[0]) {
      StillDiffer(p, q, script[0], obs[0], k);
      LostKeyIsNoticed(PlainStep(p, script[0], obs[0]), NaiveStep(q, script[0], obs[0]), script[1..], obs[1..], k);
    }
  }

  /** Exactly when the naive reading of one close is safe: it agrees with everything that the next
      request can be told about a key if and only if the close is faithful. */
  lemma FaithfulIffNeverNoticed(p: Plain, o: Obs, g: SessionId)
    requires p.work.Some? && o.Closed? && Expected(p, Close, o)
    ensures Faithful(p) <==>
      forall k, a :: Explained(p, ReadBack(g, k), [o, Opened, a]) ==>
        NaivelyExplained(p, ReadBack(g, k), [o, Opened, a])
  {
    if Faithful(p) {
      forall k, a | Explained(p, ReadBack(g, k), [o, Opened, a])
        ensures NaivelyExplained(p, ReadBack(g, k), [o, Opened, a])
      {
        ReadBackUnfolds(p, o, g, k, a);
        NaiveWhereFaithful(p, ReadBack(g, k), [o, Opened, a]);
      }
    } else {
      FaithfulUnlessOnlyRemoved(p);
      var k :| Lost(p, k);
      var a := Did(Found(Lookup(Committed(p.server, p.work.value), k)));
      ReadBackUnfolds(p, o, g, k, a);
      NaiveWhereFaithful(p, ReadBack(g, k), [o, Opened, a]);
    }
  }

  /** A request ends, and the next one reads a key. */
  function ReadBack(g: SessionId, k: string): seq<Action> {
    [Close, Open(g), Do(Get(k))]
  }

  lemma ReadBackUnfolds(p: Plain, o: Obs, g: SessionId, k: string, a: Obs)
    requires p.work.Some? && o.Closed? && Expected(p, Close, o)
    ensures var p2 := PlainStep(PlainStep(p, Close, o), Open(g), Opened);
      && (Explained(p, ReadBack(g, k), [o, Opened, a]) <==> Expected(p2, Do(Get(k)), a))
      && (ClosesFaithfully(p, ReadBack(g, k), [o, Opened, a]) <==> Faithful(p))
      && (Lost(p, k) && a.Did? && a != Did(LoadFailed) ==> ReadsLostKey(p, ReadBack(g, k), [o, Opened, a]))
  {
    var script, obs := ReadBack(g, k), [o, Opened, a];
    assert script[1..] == [Open(g), Do(Get(k))] && script[1..][1..] == [Do(Get(k))];
    assert obs[1..] == [Opened, a] && obs[1..][1..] == [a];
    if Lost(p, k) && a.Did? && a != Did(LoadFailed) {
      assert ReadsUntouched([Do(Get(k))], [a], k);
      assert ReadsUntouched([Open(g), Do(Get(k))], [Opened, a], k);
    }
    var p2 := PlainStep(PlainStep(p, Close, o), Open(g), Opened);
    assert Explained(p2, [Do(Get(k))], [a]) <==> Expected(p2, Do(Get(k)), a);
    assert ClosesFaithfully(p2, [Do(Get(k))], [a]);
  }

  /** The naive reading, and persistence with it, of every run in which all closes are faithful;
      and its failure in every run that reads a lost key before anything else bears on it. */
  lemma NaivePersistence(script: seq<Action>, cfg: Config, m: Records, t: Time, ats: seq<Moment>)
    requires 0 < cfg.ttl && (cfg.missing == Allow || AlwaysRecorded(cfg, script, ats))
    requires AllSmooth(NewClient(script), cfg, m, t, ats)
    ensures var obs := Run(NewClient(script), cfg, m, ats).2;
      && (ClosesFaithfully(NOTHING, script, obs) ==> NaivelyExplained(NOTHING, script, obs))
      && (ReadsLostKey(NOTHING, script, obs) ==> !NaivelyExplained(NOTHING, script, obs))
  {
    RunRefines(NewClient(script), cfg, m, NOTHING, t, ats);
    NaiveWhereFaithful(NOTHING, script, Run(NewClient(script), cfg, m, ats).2);
  }
}
