/** The session object of one request: a lazily loaded, write-back cache over the session store. */
module HttpSession {
  import opened SessionTypes
  import opened StoreSpec
  import opened MemoryStore
  import opened SessionSpec

  /** Two consecutive random identifiers may coincide; nothing is promised about them. */
  method RandomId() returns (id: SessionId)
  {
    var n: nat := *;
    id := SessionId(n);
  }

  class Session {
    var id: Identity
    var server: Option<ServerState>
    var client: ClientState
    var invalidated: bool
    const store: SessionStore
    const cfg: Config

    function Data(): SessionData
      reads this
    {
      SessionData(id, server, client, invalidated)
    }

    ghost predicate Valid()
      reads this
    {
      SessionSpec.Valid(Data())
    }

    constructor (store: SessionStore, cfg: Config, incoming: Option<IncomingSession>)
      ensures this.store == store && this.cfg == cfg && Valid()
      ensures exists generated :: Data() == NewSession(incoming, generated)
    {
      this.store := store;
      this.cfg := cfg;
      invalidated := false;
      var generated := RandomId();
      match incoming {
        case Some(i) =>
          id, server, client := Existing(i.id), None, AsReceived(i.client);
        case None =>
          id, server, client := NewlyGenerated(generated), Some(DoesNotExist), AsReceived(map[]);
      }
      new;
      assert Data() == NewSession(incoming, generated);
    }

    /** Load the server state from the store, unless it is in memory already. */
    method ForceLoad() returns (r: Outcome, ghost at: Moment)
      requires Valid()
      modifies this`server, this`invalidated, store.backend`records, store.backend.clock
      ensures Valid() && store.backend.records == old(store.backend.records)
      ensures at.After(old(store.backend.clock.now))
      ensures (r, Data()) == PerformOn(old(Data()), cfg, Op.ForceLoad, old(store.backend.records), at)
      ensures r == Finished || (r == LoadFailed && Data() == old(Data()))
      ensures r == Finished ==> server.Some?
    {
      at := Moment(false, store.backend.clock.now, store.backend.clock.now);
      if id.Old().None? || server.Some? {
        return Finished, at;
      }
      var reply;
      reply, at := store.Invoke(Load(id.Old().value));
      if !reply.Loaded? {
        return LoadFailed, at;
      }
      match reply.record {
        case Some(record) =>
          server := Some(Unchanged(record.state, record.ttl));
        case None =>
          match cfg.missing {
            case Allow =>
              server := Some(DoesNotExist);
            case Reject =>
              server := Some(MarkedForDeletion);
              invalidated := true;
          }
      }
      r := Finished;
    }

    method IsEmpty() returns (r: Outcome, ghost at: Moment)
      requires Valid()
      modifies this`server, this`invalidated, store.backend`records, store.backend.clock
      ensures Valid() && store.backend.records == old(store.backend.records)
      ensures at.After(old(store.backend.clock.now))
      ensures (r, Data()) == PerformOn(old(Data()), cfg, Op.IsEmpty, old(store.backend.records), at)
    {
      r, at := ForceLoad();
      if r == Finished {
        match server.value {
          case Unchanged(state, _) => r := Flag(state == map[]);
          case Changed(state) => r := Flag(state == map[]);
          case _ => r := Flag(true);
        }
      }
    }

    method GetRaw(key: string) returns (r: Outcome, ghost at: Moment)
      requires Valid()
      modifies this`server, this`invalidated, store.backend`records, store.backend.clock
      ensures Valid() && store.backend.records == old(store.backend.records)
      ensures at.After(old(store.backend.clock.now))
      ensures (r, Data()) == PerformOn(old(Data()), cfg, Get(key), old(store.backend.records), at)
    {
      r, at := ForceLoad();
      if r == Finished {
        match server.value {
          case Unchanged(state, _) => r := Found(Lookup(state, key));
          case Changed(state) => r := Found(Lookup(state, key));
          case _ => r := Found(None);
        }
      }
    }

    method InsertRaw(key: string, value: Value) returns (r: Outcome, ghost at: Moment)
      requires Valid()
      modifies this`server, this`invalidated, store.backend`records, store.backend.clock
      ensures Valid() && store.backend.records == old(store.backend.records)
      ensures at.After(old(store.backend.clock.now))
      ensures (r, Data()) == PerformOn(old(Data()), cfg, Insert(key, value), old(store.backend.records), at)
    {
      r, at := ForceLoad();
      if r == LoadFailed {
        return;
      }
      var existing: State;
      match server.value {
        case MarkedForDeletion => return Found(None), at;
        case DoesNotExist => existing := map[];
        case Unchanged(state, _) => existing := state;
        case Changed(state) => existing := state;
      }
      r := Found(Lookup(existing, key));
      server := Some(Changed(existing[key := value]));
    }

    /** Note that a loaded, unchanged state stays marked as unchanged. */
    method RemoveRaw(key: string) returns (r: Outcome, ghost at: Moment)
      requires Valid()
      modifies this`server, this`invalidated, store.backend`records, store.backend.clock
      ensures Valid() && store.backend.records == old(store.backend.records)
      ensures at.After(old(store.backend.clock.now))
      ensures (r, Data()) == PerformOn(old(Data()), cfg, Op.Remove(key), old(store.backend.records), at)
    {
      r, at := ForceLoad();
      if r == LoadFailed {
        return;
      }
      match server.value {
        case Unchanged(state, ttl) =>
          r := Found(Lookup(state, key));
          server := Some(Unchanged(state - {key}, ttl));
        case Changed(state) =>
          r := Found(Lookup(state, key));
          server := Some(Changed(state - {key}));
        case _ => r := Found(None);
      }
    }

    method Clear() returns (r: Outcome, ghost at: Moment)
      requires Valid()
      modifies this`server, this`invalidated, store.backend`records, store.backend.clock
      ensures Valid() && store.backend.records == old(store.backend.records)
      ensures at.After(old(store.backend.clock.now))
      ensures (r, Data()) == PerformOn(old(Data()), cfg, Op.Clear, old(store.backend.records), at)
    {
      r, at := ForceLoad();
      if r == LoadFailed {
        return;
      }
      match server.value {
        case Unchanged(state, _) =>
          if state != map[] {
            server := Some(Changed(map[]));
          }
        case Changed(_) => server := Some(Changed(map[]));
        case _ =>
      }
    }

    method Delete()
      requires Valid()
      modifies this`server
      ensures Valid() && Data() == Apply(old(Data()), Op.Delete).1
    {
      server := Some(MarkedForDeletion);
    }

    method Invalidate()
      requires Valid()
      modifies this`server, this`invalidated
      ensures Valid() && Data() == Apply(old(Data()), Op.Invalidate).1
    {
      invalidated := true;
      server := Some(MarkedForDeletion);
    }

    /** Draws identifiers until one differs from the old one, at most 16 times. */
    method CycleId() returns (r: Outcome, ghost draws: seq<SessionId>)
      requires Valid()
      modifies this`id
      ensures Valid() && 1 <= |draws| <= 16
      ensures forall i :: 0 <= i < |draws| - 1 ==> Some(draws[i]) == old(id.Old())
      ensures r == Panicked ==> |draws| == 16
      ensures (r, Data()) == Apply(old(Data()), Op.CycleId(draws[|draws| - 1]))
    {
      var oldId := id.Old();
      draws := [];
      var i := 0;
      var generated;
      while true
        modifies {}
        invariant 0 <= i == |draws| <= 16
        invariant forall j :: 0 <= j < |draws| ==> Some(draws[j]) == oldId
        decreases 16 - i
      {
        if i >= 16 {
          return Panicked, draws;
        }
        generated := RandomId();
        draws := draws + [generated];
        if Some(generated) != oldId {
          break;
        }
        i := i + 1;
      }
      id := if oldId.Some? then ToBeRenamed(oldId.value, generated) else NewlyGenerated(generated);
      r := Finished;
    }

    /** Write back a server state that was loaded, or already synced, and not changed since. */
    method WriteUnchanged(state: State, remaining: Duration)
      returns (r: SyncOutcome, ghost at1: Moment, ghost at2: Moment)
      requires Valid() && server == Some(Unchanged(state, remaining))
      modifies store.backend`records, store.backend.clock
      ensures at1.After(old(store.backend.clock.now)) && at2.After(at1.t2)
      ensures var (outcome, _, m) := SyncOn(Data(), cfg, old(store.backend.records), at1, at2);
        r == outcome && store.backend.records == m
    {
      at1 := Moment(false, store.backend.clock.now, store.backend.clock.now);
      var reply := Done;
      match id {
        case Existing(oldId) =>
          if cfg.extendTtl == OnStateLoadsAndChanges {
            var extend := cfg.threshold.None? || remaining as real < cfg.ttl as real * cfg.threshold.value;
            if extend {
              reply, at1 := store.Invoke(UpdateTtl(oldId, cfg.ttl));
            }
          }
        case ToBeRenamed(oldId, newId) =>
          reply, at1 := store.Invoke(ChangeId(oldId, newId));
          if reply == UnknownId {
            reply, at2 := store.Invoke(Create(newId, state, cfg.ttl));
            return SyncLast(reply), at1, at2;
          }
        case NewlyGenerated(newId) =>
          if client.Updated? && cfg.creation == NeverSkip {
            reply, at1 := store.Invoke(Create(newId, map[], cfg.ttl));
          }
          if reply == Done && state != map[] {
            return SyncPanicked, at1, Moment(false, at1.t2, at1.t2);
          }
      }
      return SyncLast(reply), at1, Moment(false, at1.t2, at1.t2);
    }

    /** Write back a server state that was changed in memory. */
    method WriteChanged(state: State) returns (r: SyncOutcome, ghost at1: Moment, ghost at2: Moment)
      requires Valid() && server == Some(Changed(state))
      modifies store.backend`records, store.backend.clock
      ensures at1.After(old(store.backend.clock.now)) && at2.After(at1.t2)
      ensures var (outcome, _, m) := SyncOn(Data(), cfg, old(store.backend.records), at1, at2);
        r == outcome && store.backend.records == m
    {
      var reply;
      match id {
        case Existing(oldId) =>
          reply, at1 := store.Invoke(Update(oldId, state, cfg.ttl));
        case ToBeRenamed(oldId, newId) =>
          reply, at1 := store.Invoke(StoreCall.Delete(oldId));
          if reply == Done || reply == UnknownId {
            reply, at2 := store.Invoke(Create(newId, state, cfg.ttl));
            return SyncLast(reply), at1, at2;
          }
        case NewlyGenerated(newId) =>
          reply, at1 := store.Invoke(Create(newId, state, cfg.ttl));
      }
      return SyncLast(reply), at1, Moment(false, at1.t2, at1.t2);
    }

    /** Write the server state back to the store. */
    method Sync() returns (r: SyncOutcome, ghost at1: Moment, ghost at2: Moment)
      requires Valid()
      modifies this`server, store.backend`records, store.backend.clock
      ensures Valid()
      ensures at1.After(old(store.backend.clock.now)) && at2.After(at1.t2)
      ensures (r, Data(), store.backend.records) == SyncOn(old(Data()), cfg, old(store.backend.records), at1, at2)
      ensures r != Synced ==> Data() == old(Data())
    {
      var createIfEmpty := (id.Old().Some? || client.Updated?) && cfg.creation == NeverSkip;
      at1 := Moment(false, store.backend.clock.now, store.backend.clock.now);
      var reply := Done;
      r := Synced;
      match server {
        case Some(DoesNotExist) =>
          if !id.ToBeRenamed? && createIfEmpty {
            reply, at1 := store.Invoke(Create(id.id, map[], cfg.ttl));
            r := SyncLast(reply);
          }
          at2 := Moment(false, at1.t2, at1.t2);
        case None =>
          match id {
            case Existing(_) =>
            case ToBeRenamed(oldId, newId) =>
              reply, at1 := store.Invoke(ChangeId(oldId, newId));
              r := SyncLast(reply);
            case NewlyGenerated(_) =>
              assert false;
          }
          at2 := Moment(false, at1.t2, at1.t2);
        case Some(Unchanged(state, remaining)) =>
          r, at1, at2 := WriteUnchanged(state, remaining);
        case Some(MarkedForDeletion) =>
          if id.Old().Some? {
            reply, at1 := store.Invoke(StoreCall.Delete(id.Old().value));
            r := if reply == UnknownId then Synced else SyncLast(reply);
          }
          at2 := Moment(false, at1.t2, at1.t2);
        case Some(Changed(state)) =>
          r, at1, at2 := WriteChanged(state);
      }
      if r != Synced {
        return;
      }
      match server {
        case Some(Changed(state)) => server := Some(Unchanged(state, cfg.ttl));
        case Some(MarkedForDeletion) =>
          if !invalidated {
            server := Some(DoesNotExist);
          }
        case Some(DoesNotExist) =>
          if createIfEmpty {
            server := Some(Unchanged(map[], cfg.ttl));
          }
        case _ =>
      }
    }

    /** Sync, then build the cookie that the response must carry. */
    method Finalize() returns (r: FinalizeOutcome, ghost at1: Moment, ghost at2: Moment)
      requires Valid()
      modifies this`server, store.backend`records, store.backend.clock
      ensures Valid()
      ensures at1.After(old(store.backend.clock.now)) && at2.After(at1.t2)
      ensures var (outcome, s, m) := SyncOn(old(Data()), cfg, old(store.backend.records), at1, at2);
        && r == Conclude(outcome, s) && Data() == s && store.backend.records == m
    {
      var outcome;
      outcome, at1, at2 := Sync();
      if outcome != Synced {
        return NotSynced(outcome), at1, at2;
      }
      if invalidated {
        return Responded(if id.Old().None? then NoCookie else RemovalCookie), at1, at2;
      }
      var recordExists: Option<bool>;
      match server {
        case None => recordExists := None;
        case Some(Unchanged(_, _)) => recordExists := Some(true);
        case Some(DoesNotExist) => recordExists := Some(false);
        case _ => assert false;
      }
      if client.state == map[] && id.Old().None? && recordExists == Some(false) {
        return Responded(NoCookie), at1, at2;
      }
      r := Responded(SetCookie(Serialize(id.New(), client.state)));
    }

    method ClientGetRaw(key: string) returns (r: Outcome)
      ensures (r, Data()) == Apply(Data(), ClientGet(key))
    {
      r := Found(if invalidated then None else Lookup(client.state, key));
    }

    method ClientIsEmpty() returns (r: Outcome)
      ensures (r, Data()) == Apply(Data(), Op.ClientIsEmpty)
    {
      r := Flag(invalidated || client.state == map[]);
    }

    method ClientInsertRaw(key: string, value: Value) returns (r: Outcome)
      modifies this`client
      ensures (r, Data()) == Apply(old(Data()), ClientInsert(key, value))
    {
      if invalidated {
        return Found(None);
      }
      r := Found(Lookup(client.state, key));
      client := Updated(client.state[key := value]);
    }

    method ClientRemoveRaw(key: string) returns (r: Outcome)
      modifies this`client
      ensures (r, Data()) == Apply(old(Data()), ClientRemove(key))
    {
      if invalidated {
        return Found(None);
      }
      match client {
        case Updated(state) =>
          r := Found(Lookup(state, key));
          client := Updated(state - {key});
        case AsReceived(state) =>
          if key !in state {
            return Found(None);
          }
          r := Found(Some(state[key]));
          client := Updated(state - {key});
      }
    }

    method ClientClear() returns (r: Outcome)
      modifies this`client
      ensures (r, Data()) == Apply(old(Data()), Op.ClientClear)
    {
      r := Finished;
      if invalidated {
        return;
      }
      match client {
        case Updated(_) => client := Updated(map[]);
        case AsReceived(state) =>
          if state != map[] {
            client := Updated(map[]);
          }
      }
    }
  }
}
