/** The end of a request as the middleware runs it, and how the session class and the client process
    fit together. */
module Middleware {
  import opened SessionTypes
  import opened StoreSpec
  import opened SessionSpec
  import opened Clients
  import opened HttpSession

  /** In the client process a close takes one step or two, depending on how many store calls the
      sync makes; undisturbed, they add up to one whole sync. */
  lemma CloseIsOneSync(c: Client, cfg: Config, m: Records, at1: Moment, at2: Moment)
    requires ValidClient(c) && c.phase.Busy? && c.script != [] && c.script[0].Close?
    ensures var (outcome, _, m') := SyncOn(c.phase.s, cfg, m, at1, at2);
      var (c1, m1, obs1) := Step(c, cfg, m, at1);
      var (last, obs) := Finish(if obs1 != [] then c else c1, cfg, c.phase.s, outcome);
      if obs1 != [] then (c1, m1, obs1) == (last, m', obs)
      else ValidClient(c1) && c1.phase.Midway? && c1.phase.s == c.phase.s && Step(c1, cfg, m1, at2) == (last, m', obs)
  {
  }

  /** Finalize the session and attach the cookie, if there is one, to the response. The jar, the
      store and the response are those of the client process after its close. */
  method FinalizeSession(session: Session, jar: Option<WireClientState>)
    returns (jar': Option<WireClientState>, ok: bool, ghost at1: Moment, ghost at2: Moment)
    requires session.Valid()
    modifies session`server, session.store.backend`records, session.store.backend.clock
    ensures at1.After(old(session.store.backend.clock.now)) && at2.After(at1.t2)
    ensures var s, m := old(session.Data()), old(session.store.backend.records);
      var (outcome, _, m') := SyncOn(s, session.cfg, m, at1, at2);
      && session.store.backend.records == m'
      && var (c, obs) := Finish(Client(jar, Busy(s), [Close]), session.cfg, s, outcome);
         c.jar == jar' && (ok <==> obs[0].Closed?)
  {
    var r;
    r, at1, at2 := session.Finalize();
    match r {
      case Responded(cookie) => jar', ok := Deliver(jar, cookie), true;
      case NotSynced(_) => jar', ok := jar, false;
    }
  }
}
