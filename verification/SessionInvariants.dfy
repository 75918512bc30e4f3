/** What holds of a session after any sequence of operations and syncs, whatever the store
    replies: any backend, any other writer, any failure. */
module SessionInvariants {
  import opened SessionTypes
  import opened StoreSpec
  import opened SessionSpec

  datatype Event = Do(op: Op, reply: Reply) | Sync(r1: Reply, r2: Reply)

  function React(s: SessionData, cfg: Config, ev: Event): SessionData
    requires Valid(s)
  {
    match ev
    case Do(op, reply) => Perform(s, cfg, op, reply).1
    case Sync(r1, r2) => Settle(s, cfg, SyncVerdict(s, cfg, r1, r2))
  }

  function After(s: SessionData, cfg: Config, evs: seq<Event>): (r: SessionData)
    requires Valid(s)
    ensures Valid(r)
    ensures r.id.Old() == s.id.Old()
    decreases |evs|
  {
    if evs == [] then s else After(React(s, cfg, evs[0]), cfg, evs[1..])
  }

  ghost predicate NeverSynced(s: SessionData, cfg: Config, evs: seq<Event>)
    requires Valid(s)
    decreases |evs|
  {
    evs == [] ||
    (&& (evs[0].Sync? ==> SyncVerdict(s, cfg, evs[0].r1, evs[0].r2) != Synced)
     && NeverSynced(React(s, cfg, evs[0]), cfg, evs[1..]))
  }

  /** A session starts valid and stays valid; the identifier it came with never changes; the arms
      that the code calls unreachable are: a sync never meets an unloaded new session, and the
      cookie is never computed from a state that sync cannot leave behind. */
  lemma ReachableSessions(incoming: Option<IncomingSession>, generated: SessionId, cfg: Config, evs: seq<Event>,
                          r1: Reply, r2: Reply)
    ensures var s := After(NewSession(incoming, generated), cfg, evs);
      && Valid(s)
      && s.id.Old() == (if incoming.Some? then Some(incoming.value.id) else None)
      && !(s.id.NewlyGenerated? && s.server.None?)
      && var s' := After(s, cfg, [Sync(r1, r2)]);
         (SyncVerdict(s, cfg, r1, r2) == Synced && !s'.invalidated ==>
           s'.server.None? || s'.server.value.Unchanged? || s'.server.value.DoesNotExist?)
  {
    var s := After(NewSession(incoming, generated), cfg, evs);
    assert After(s, cfg, [Sync(r1, r2)]) == After(React(s, cfg, Sync(r1, r2)), cfg, []);
  }

  /** Exactly when the integrity check of a sync blows up. */
  lemma IntegrityCheckFailsIff(s: SessionData, cfg: Config, r1: Reply, r2: Reply)
    requires Valid(s)
    ensures SyncVerdict(s, cfg, r1, r2) == SyncPanicked <==>
      && s.id.NewlyGenerated?
      && s.server.value.Unchanged? && s.server.value.state != map[]
      && (CreateIfEmpty(s, cfg) ==> r1 == Done)
  {
  }

  lemma {:induction false} NewSessionHasNothingLoaded(s: SessionData, cfg: Config, evs: seq<Event>)
    requires Valid(s) && NeverSynced(s, cfg, evs)
    requires s.id.NewlyGenerated? ==> !s.server.value.Unchanged?
    ensures After(s, cfg, evs).id.NewlyGenerated? ==> !After(s, cfg, evs).server.value.Unchanged?
    decreases |evs|
  {
    if evs == [] {
    } else {
      NewSessionHasNothingLoaded(React(s, cfg, evs[0]), cfg, evs[1..]);
    }
  }

  /** Until the first successful sync, the integrity check holds, no matter which operations and
      failed syncs came before. */
  lemma FirstSyncNeverPanics(incoming: Option<IncomingSession>, generated: SessionId, cfg: Config, evs: seq<Event>,
                             r1: Reply, r2: Reply)
    requires NeverSynced(NewSession(incoming, generated), cfg, evs)
    ensures SyncVerdict(After(NewSession(incoming, generated), cfg, evs), cfg, r1, r2) != SyncPanicked
  {
    NewSessionHasNothingLoaded(NewSession(incoming, generated), cfg, evs);
    IntegrityCheckFailsIff(After(NewSession(incoming, generated), cfg, evs), cfg, r1, r2);
  }

  /** The operations that can change the server state of a session that has one. */
  predicate ChangesServer(op: Op) {
    op.Insert? || op.Remove? || op.Clear? || op.Delete? || op.Invalidate?
  }

  lemma {:induction false} ServerStays(s: SessionData, cfg: Config, evs: seq<Event>)
    requires Valid(s) && s.id.NewlyGenerated? && s.server.value.Unchanged? && s.server.value.state != map[]
    requires forall ev <- evs :: ev.Do? ==> !ChangesServer(ev.op)
    ensures After(s, cfg, evs).id.NewlyGenerated? && After(s, cfg, evs).server == s.server
    decreases |evs|
  {
    if evs == [] {
    } else {
      assert evs[0] in evs;
      ServerStays(React(s, cfg, evs[0]), cfg, evs[1..]);
    }
  }

  /** It does not survive a successful sync of a new session that has something to write: as long as
      nothing changes the server state again, no later sync succeeds, whatever the store replies. It
      panics unless the creation of an empty record gets in the way. */
  lemma NewSessionSyncsOnce(s: SessionData, cfg: Config, evs: seq<Event>, r1: Reply, r2: Reply)
    requires Valid(s) && s.id.NewlyGenerated? && s.server.value.Changed? && s.server.value.state != map[]
    requires forall ev <- evs :: ev.Do? ==> !ChangesServer(ev.op)
    ensures var s' := After(AfterSync(s, cfg), cfg, evs);
      && SyncVerdict(s', cfg, r1, r2) != Synced
      && (SyncVerdict(s', cfg, r1, r2) == SyncPanicked <==> (CreateIfEmpty(s', cfg) ==> r1 == Done))
  {
    ServerStays(AfterSync(s, cfg), cfg, evs);
    IntegrityCheckFailsIff(After(AfterSync(s, cfg), cfg, evs), cfg, r1, r2);
  }

  /** For example: insert, sync, sync. */
  lemma SecondSyncMayPanic(generated: SessionId, k: string, v: Value, cfg: Config)
    ensures var s := After(NewSession(None, generated), cfg, [Do(Insert(k, v), Done), Sync(Done, Done)]);
      SyncVerdict(s, cfg, Done, Done) == SyncPanicked
  {
    var s0 := NewSession(None, generated);
    var evs := [Do(Insert(k, v), Done), Sync(Done, Done)];
    var s1 := React(s0, cfg, evs[0]);
    assert s1.server == Some(Changed(map[k := v])) && k in map[k := v];
    assert evs[1..] == [Sync(Done, Done)];
    assert After(s1, cfg, evs[1..]) == After(AfterSync(s1, cfg), cfg, []);
    NewSessionSyncsOnce(s1, cfg, [], Done, Done);
  }

  /** A sync swallows no failure of the store: it succeeds only if every call it made was answered with
      `Done`, or with `UnknownId` where that does no harm: to a delete, and to the rename of a session
      that has its state in memory, which is then created. What it reports is what the store said. */
  lemma FailuresAreReported(s: SessionData, cfg: Config, r1: Reply, r2: Reply)
    requires Valid(s) && SyncBegin(s, cfg).Await?
    ensures var call, verdict := SyncBegin(s, cfg).call, SyncVerdict(s, cfg, r1, r2);
      var harmless := r1 == UnknownId && (call.Delete? || (call.ChangeId? && s.server.Some?));
      && (r1 != Done && !harmless ==> verdict == SyncFailed(r1))
      && (SyncNext(s, cfg, r1).Await? ==> verdict == if r2 == Done then Synced else SyncFailed(r2))
      && (SyncNext(s, cfg, r1).Await? <==>
           && s.id.ToBeRenamed?
           && (if call.Delete? then s.server.value.Changed? && (r1 == Done || harmless) else harmless))
  {
  }

  // ---------------------------------------------------------------- invalidation

  /** An answer that gives something away: a value, or that there is one. */
  predicate Reveals(o: Outcome) {
    !(o == Found(None) || o == Flag(true) || o == Finished || o == Panicked)
  }

  /** A load that finds no record invalidates the session if the configuration says so. */
  lemma RejectedMissInvalidates(s: SessionData, cfg: Config, op: Op)
    requires Valid(s) && !s.invalidated && OpCall(s, op).Some?
    ensures Perform(s, cfg, op, Loaded(None)).1.invalidated <==> cfg.missing == Reject
  {
  }

  /** Invalidation is final: from an invalidated session on, no sequence of operations and syncs
      changes the server state or the client map, and no operation shows a value. */
  lemma {:induction false} InvalidationAbsorbs(s: SessionData, cfg: Config, evs: seq<Event>, op: Op, reply: Reply)
    requires Valid(s) && s.invalidated
    ensures var s' := After(s, cfg, evs);
      && s'.invalidated && s'.server == Some(MarkedForDeletion) && s'.client == s.client
      && !Reveals(Perform(s', cfg, op, reply).0)
    decreases |evs|
  {
    if evs == [] {
    } else {
      InvalidationAbsorbs(React(s, cfg, evs[0]), cfg, evs[1..], op, reply);
    }
  }

  /** And its last sync removes whatever the store holds under the incoming identifier, creates
      nothing, and fails only if the store is down; the response removes the cookie if and only
      if the request came with one. */
  lemma InvalidatedSessionLeavesNothing(s: SessionData, cfg: Config, evs: seq<Event>,
                                        m: Records, at1: Moment, at2: Moment)
    requires Valid(s) && s.invalidated
    ensures var oldId := s.id.Old();
      var (outcome, s', m') := SyncOn(After(s, cfg, evs), cfg, m, at1, at2);
      && (outcome == Synced <==> oldId.None? || !at1.down)
      && (outcome == Synced ==>
        && m' == (if oldId.Some? then m - {oldId.value} else m)
        && Conclude(outcome, s') == Responded(if oldId.Some? then RemovalCookie else NoCookie))
      && (outcome != Synced ==> m' == m)
  {
    InvalidationAbsorbs(s, cfg, evs, IsEmpty, Done);
  }
}
