/** Requests that come without a cookie: exactly which of them leave something behind. */
module Visitors {
  import opened SessionTypes
  import opened StoreSpec
  import opened SessionSpec
  import opened SessionInvariants

  /** What happened in the request, as far as it decides that. */
  ghost predicate Inserts(evs: seq<Event>) {
    exists ev <- evs :: ev.Do? && ev.op.Insert?
  }

  ghost predicate ClientInserts(evs: seq<Event>) {
    exists ev <- evs :: ev.Do? && ev.op.ClientInsert?
  }

  ghost predicate Deletes(evs: seq<Event>) {
    exists ev <- evs :: ev.Do? && ev.op.Delete?
  }

  ghost predicate Invalidates(evs: seq<Event>) {
    exists ev <- evs :: ev.Do? && ev.op.Invalidate?
  }

  /** The identifier drawn last. */
  function LastDrawn(generated: SessionId, evs: seq<Event>): SessionId
    decreases |evs|
  {
    if evs == [] then generated
    else LastDrawn(if evs[0].Do? && evs[0].op.CycleId? then evs[0].op.generated else generated, evs[1..])
  }

  /** A new session that has not been synced, after operations of which these kinds occurred. */
  ghost predicate Reached(s: SessionData, inserted: bool, clientInserted: bool, deleted: bool, invalidated: bool) {
    && Valid(s) && s.id.NewlyGenerated?
    && s.invalidated == invalidated
    && (if deleted || invalidated then s.server == Some(MarkedForDeletion)
        else if inserted then s.server.value.Changed?
        else s.server == Some(DoesNotExist))
    && (s.client.AsReceived? ==> s.client.state == map[])
    && (!invalidated ==> (s.client.Updated? <==> clientInserted))
  }

  lemma EventReaches(s: SessionData, cfg: Config, ev: Event, i: bool, ci: bool, d: bool, inv: bool)
    requires Reached(s, i, ci, d, inv) && NeverSynced(s, cfg, [ev])
    ensures var s' := React(s, cfg, ev);
      if ev.Do? then
        Reached(s', i || ev.op.Insert?, ci || ev.op.ClientInsert?, d || ev.op.Delete?, inv || ev.op.Invalidate?)
      else s' == s
    ensures React(s, cfg, ev).id.id == if ev.Do? && ev.op.CycleId? then ev.op.generated else s.id.id
  {
  }

  lemma {:induction false} EventsReach(s: SessionData, cfg: Config, evs: seq<Event>, i: bool, ci: bool, d: bool,
                                       inv: bool)
    requires Reached(s, i, ci, d, inv) && NeverSynced(s, cfg, evs)
    ensures Reached(After(s, cfg, evs), i || Inserts(evs), ci || ClientInserts(evs), d || Deletes(evs),
                    inv || Invalidates(evs))
    ensures After(s, cfg, evs).id.id == LastDrawn(s.id.id, evs)
    decreases |evs|
  {
    if evs == [] {
    } else {
      var ev, rest := evs[0], evs[1..];
      assert evs == [ev] + rest;
      EventReaches(s, cfg, ev, i, ci, d, inv);
      if ev.Do? {
        EventsReach(React(s, cfg, ev), cfg, rest, i || ev.op.Insert?, ci || ev.op.ClientInsert?, d || ev.op.Delete?,
                    inv || ev.op.Invalidate?);
      } else {
        EventsReach(s, cfg, rest, i, ci, d, inv);
      }
    }
  }

  /** Whether a record is created: for what was inserted; or for a client that got values, where
      empty records are created; but not for a session that was given up. */
  ghost predicate LeavesRecord(cfg: Config, evs: seq<Event>) {
    && !Deletes(evs) && !Invalidates(evs)
    && (Inserts(evs) || (ClientInserts(evs) && cfg.creation.NeverSkip?))
  }

  /** The first successful sync of a new session, after any operations and failed syncs: from the
      operations alone, exactly what it writes and which cookie the response carries. */
  lemma NewVisitor(generated: SessionId, cfg: Config, evs: seq<Event>, m: Records, at1: Moment, at2: Moment)
    requires NeverSynced(NewSession(None, generated), cfg, evs)
    requires LeavesRecord(cfg, evs) ==> !at1.down && !IsFresh(m, LastDrawn(generated, evs), at1.t1)
    ensures var s, id := After(NewSession(None, generated), cfg, evs), LastDrawn(generated, evs);
      var (outcome, s', m') := SyncOn(s, cfg, m, at1, at2);
      && outcome == Synced && s'.client == s.client
      && (if !LeavesRecord(cfg, evs) then m' == m
          else id in m' && m'[id].deadline == at1.t2 + cfg.ttl && m' == m[id := m'[id]])
      && (LeavesRecord(cfg, evs) && !Inserts(evs) ==> m'[id].state == map[])
      && CookieFor(s') ==
           if Invalidates(evs) || (s.client.state == map[] && !LeavesRecord(cfg, evs)) then NoCookie
           else SetCookie(Serialize(id, s.client.state))
  {
    EventsReach(NewSession(None, generated), cfg, evs, false, false, false, false);
  }

  /** In particular, a visitor who inserts nothing, whatever else they do, leaves no trace. */
  lemma IdleVisitor(generated: SessionId, cfg: Config, evs: seq<Event>, m: Records, at1: Moment, at2: Moment)
    requires NeverSynced(NewSession(None, generated), cfg, evs) && !Inserts(evs) && !ClientInserts(evs)
    ensures var (outcome, s', m') := SyncOn(After(NewSession(None, generated), cfg, evs), cfg, m, at1, at2);
      outcome == Synced && m' == m && CookieFor(s') == NoCookie
  {
    EventsReach(NewSession(None, generated), cfg, evs, false, false, false, false);
    NewVisitor(generated, cfg, evs, m, at1, at2);
  }

  /** A request that came with a cookie always gets one back: the removal of the old one if its session
      is invalidated, else its current identifier and client values. */
  lemma ReturningVisitor(incoming: IncomingSession, generated: SessionId, cfg: Config, evs: seq<Event>,
                         m: Records, at1: Moment, at2: Moment)
    ensures var (outcome, s', _) := SyncOn(After(NewSession(Some(incoming), generated), cfg, evs), cfg, m, at1, at2);
      outcome == Synced ==>
        Conclude(outcome, s') ==
          Responded(if s'.invalidated then RemovalCookie else SetCookie(Serialize(s'.id.New(), s'.client.state)))
  {
    assert After(NewSession(Some(incoming), generated), cfg, evs).id.Old() == Some(incoming.id);
  }
}
