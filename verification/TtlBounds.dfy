/** How long records live. */
module TtlBounds {
  import opened SessionTypes
  import opened StoreSpec
  import opened SessionSpec
  import opened SessionInvariants

  /** With one time-to-live for all, a sync keeps every deadline within a full time-to-live from
      now, and never brings an expiry forward: not of a record that stays, and not of one that a
      renamed session takes along. */
  lemma SyncNeverShortens(s: SessionData, cfg: Config, m: Records, at1: Moment, at2: Moment, t: Time)
    requires Valid(s) && Bounded(m, cfg.ttl, t) && at1.After(t) && at2.After(at1.t2)
    ensures var (outcome, _, m') := SyncOn(s, cfg, m, at1, at2);
      && Bounded(m', cfg.ttl, at2.t2)
      && (forall id :: id in m && id in m' ==> m[id].deadline <= m'[id].deadline)
      && (outcome == Synced && s.id.ToBeRenamed? && s.id.oldId in m
          && s.server != Some(DoesNotExist) && s.server != Some(MarkedForDeletion)
          ==> s.id.newId in m' && m[s.id.oldId].deadline <= m'[s.id.newId].deadline)
  {
    match SyncBegin(s, cfg) {
      case Stop(_) =>
      case Await(call1) =>
        CallKeepsBound(m, call1, at1, cfg.ttl, t);
        var (r1, m1) := Exec(m, call1, at1);
        match SyncNext(s, cfg, r1) {
          case Stop(_) =>
          case Await(call2) =>
            CallKeepsBound(m1, call2, at2, cfg.ttl, at1.t2);
            assert call2.Create? && call2.id == s.id.newId;
        }
    }
  }

  /** Operations that neither give the state up nor change the identifier. */
  ghost predicate KeepsState(evs: seq<Event>) {
    forall ev <- evs :: ev.Do? && !ev.op.Delete? && !ev.op.Invalidate? && !ev.op.CycleId?
  }

  lemma {:induction false} LoadedStaysLoaded(s: SessionData, cfg: Config, evs: seq<Event>, ttl: Duration)
    requires Valid(s) && KeepsState(evs) && s.server.Some?
    requires s.server.value.Changed? || (s.server.value.Unchanged? && s.server.value.ttl == ttl)
    ensures var s' := After(s, cfg, evs);
      && s'.id == s.id && s'.server.Some?
      && (s'.server.value.Changed? || (s'.server.value.Unchanged? && s'.server.value.ttl == ttl))
    decreases |evs|
  {
    if evs == [] {
    } else {
      assert evs[0] in evs;
      LoadedStaysLoaded(React(s, cfg, evs[0]), cfg, evs[1..], ttl);
    }
  }

  /** The deadline after a successful sync of a continued session whose state is in memory. */
  lemma DeadlineAfterSync(s: SessionData, cfg: Config, m: Records, at1: Moment, at2: Moment)
    requires Valid(s) && s.id.Existing? && s.server.Some? && s.id.id in m
    requires s.server.value.Changed? || s.server.value.Unchanged?
    requires SyncOn(s, cfg, m, at1, at2).0 == Synced
    ensures var m' := SyncOn(s, cfg, m, at1, at2).2;
      && s.id.id in m'
      && m'[s.id.id].deadline ==
           if s.server.value.Changed? || ShouldExtend(cfg, s.server.value.ttl) then at1.t2 + cfg.ttl
           else m[s.id.id].deadline
  {
  }

  /** The threshold as a duration: a whole time-to-live if no fraction is configured. */
  function Threshold(cfg: Config): real {
    if cfg.threshold.Some? then cfg.ttl as real * cfg.threshold.value else cfg.ttl as real
  }

  /** A record survives long enough if it was given a full time-to-live after the load, or if the
      extension was skipped because enough of its lifetime was left. */
  lemma EitherIsEnough(cfg: Config, deadline: Time, load: Moment, later: Time, result: Time)
    requires cfg.extendTtl == OnStateLoadsAndChanges && load.Ordered() && load.t1 < deadline && load.t1 <= later
    requires result == later + cfg.ttl || (!ShouldExtend(cfg, Remaining(deadline, load.t2)) && result == deadline)
    ensures result as real >= load.t1 as real + Threshold(cfg)
  {
    assert Threshold(cfg) <= cfg.ttl as real;
  }

  /** If lifetimes are extended on loads, then a request that loads a record, does whatever else
      but give it up, and syncs successfully, leaves a record that lives at least until the given
      fraction of a time-to-live after the load, whether or not the sync extended anything. */
  lemma LoadedRecordsAreKeptAlive(incoming: IncomingSession, cfg: Config, m: Records, load: Moment,
                                  evs: seq<Event>, m2: Records, at1: Moment, at2: Moment)
    requires cfg.extendTtl == OnStateLoadsAndChanges && KeepsState(evs)
    requires load.Ordered() && !load.down && IsFresh(m, incoming.id, load.t1)
    requires at1.After(load.t2) && incoming.id in m2 && m2[incoming.id] == m[incoming.id]
    requires var s := NewSession(Some(incoming), incoming.id);
      SyncOn(After(PerformOn(s, cfg, ForceLoad, m, load).1, cfg, evs), cfg, m2, at1, at2).0 == Synced
    ensures var s := NewSession(Some(incoming), incoming.id);
      var m' := SyncOn(After(PerformOn(s, cfg, ForceLoad, m, load).1, cfg, evs), cfg, m2, at1, at2).2;
      incoming.id in m' && m'[incoming.id].deadline as real >= load.t1 as real + Threshold(cfg)
  {
    var s := PerformOn(NewSession(Some(incoming), incoming.id), cfg, ForceLoad, m, load).1;
    var deadline := m[incoming.id].deadline;
    LoadedStaysLoaded(s, cfg, evs, Remaining(deadline, load.t2));
    var s' := After(s, cfg, evs);
    DeadlineAfterSync(s', cfg, m2, at1, at2);
    EitherIsEnough(cfg, deadline, load, at1.t2, SyncOn(s', cfg, m2, at1, at2).2[incoming.id].deadline);
  }

  // ---------------------------------------------------------------- exact lifetimes

  /** Operations that only look at the server state, or remove keys from it. */
  ghost predicate WritesNothing(evs: seq<Event>) {
    KeepsState(evs) && forall ev <- evs :: !ev.op.Insert? && !ev.op.Clear?
  }

  lemma {:induction false} UnwrittenStaysUnchanged(s: SessionData, cfg: Config, evs: seq<Event>)
    requires Valid(s) && WritesNothing(evs) && s.server.Some? && s.server.value.Unchanged?
    ensures var s' := After(s, cfg, evs);
      s'.id == s.id && s'.server.Some? && s'.server.value.Unchanged? && s'.server.value.ttl == s.server.value.ttl
    decreases |evs|
  {
    if evs == [] {
    } else {
      assert evs[0] in evs;
      UnwrittenStaysUnchanged(React(s, cfg, evs[0]), cfg, evs[1..]);
    }
  }

  /** Exactly when the lifetime of a record that was only read is extended: if extensions on loads are
      configured, and either no threshold is, or less than its share of a time-to-live was left at the
      load. Then its deadline alone changes; else the store does not change at all. */
  lemma ExtensionIsExact(incoming: IncomingSession, cfg: Config, m: Records, load: Moment, evs: seq<Event>,
                         m2: Records, at1: Moment, at2: Moment)
    requires WritesNothing(evs)
    requires load.Ordered() && !load.down && IsFresh(m, incoming.id, load.t1)
    requires at1.After(load.t2) && !at1.down && IsFresh(m2, incoming.id, at1.t1) && m2[incoming.id] == m[incoming.id]
    ensures var s := After(PerformOn(NewSession(Some(incoming), incoming.id), cfg, ForceLoad, m, load).1, cfg, evs);
      var (outcome, s', m') := SyncOn(s, cfg, m2, at1, at2);
      var record := m2[incoming.id];
      var extended := cfg.extendTtl == OnStateLoadsAndChanges
        && (cfg.threshold.None? || (record.deadline - load.t2) as real < cfg.ttl as real * cfg.threshold.value);
      && outcome == Synced && s' == s
      && m' == if extended then m2[incoming.id := StoreRecord(record.state, at1.t2 + cfg.ttl)] else m2
  {
    var s := PerformOn(NewSession(Some(incoming), incoming.id), cfg, ForceLoad, m, load).1;
    UnwrittenStaysUnchanged(s, cfg, evs);
  }

  /** A state that is written gets a full time-to-live, counted from the call that writes it, and the
      session remembers it as such. */
  lemma WrittenLivesFully(s: SessionData, cfg: Config, m: Records, at1: Moment, at2: Moment)
    requires Valid(s) && s.server.Some? && s.server.value.Changed? && SyncOn(s, cfg, m, at1, at2).0 == Synced
    ensures var (_, s', m') := SyncOn(s, cfg, m, at1, at2);
      var written := if s.id.ToBeRenamed? then at2.t2 else at1.t2;
      && s.id.New() in m' && m'[s.id.New()] == StoreRecord(s.server.value.state, written + cfg.ttl)
      && s' == s.(server := Some(Unchanged(s.server.value.state, cfg.ttl)))
  {
  }

  /** So does an empty record that is created where there was none; if none is, nothing changes. A renamed
      session believes that it has one (see `WriteBack.Trap`). */
  lemma CreatedLivesFully(s: SessionData, cfg: Config, m: Records, at1: Moment, at2: Moment)
    requires Valid(s) && s.server == Some(DoesNotExist) && SyncOn(s, cfg, m, at1, at2).0 == Synced
    ensures var (_, s', m') := SyncOn(s, cfg, m, at1, at2);
      && (m' == m || (!s.id.ToBeRenamed? && m' == m[s.id.New() := StoreRecord(map[], at1.t2 + cfg.ttl)]))
      && (s' == s || s' == s.(server := Some(Unchanged(map[], cfg.ttl))))
      && (s' == s ==> m' == m)
      && (s' != s && !s.id.ToBeRenamed? ==> s.id.New() in m' && m'[s.id.New()] == StoreRecord(map[], at1.t2 + cfg.ttl))
  {
  }
}
