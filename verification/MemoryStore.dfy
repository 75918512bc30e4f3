/** The in-memory session store: a map that is mutated under a lock, whose entries silently
    expire while a clock moves on. The lock makes each method one atomic step. */
module MemoryStore {
  import opened SessionTypes
  import opened StoreSpec

  /** The system clock. It never runs backwards, and may move between any two readings. */
  class Clock {
    var now: Time

    constructor (start: Time)
      ensures now == start
    {
      now := start;
    }

    method Now() returns (t: Time)
      modifies this
      ensures old(now) <= t == now
    {
      var later: Time :| now <= later;
      now := later;
      return later;
    }
  }

  /** The expired records of a store. */
  function StaleIds(m: Records, now: Time): set<SessionId> {
    set id | id in m && m[id].deadline <= now
  }

  function SweepSize(batch: Option<nat>, stale: nat): nat {
    if batch.Some? && batch.value < stale then batch.value else stale
  }

  function Elements(ids: seq<SessionId>): set<SessionId> {
    set id | id in ids
  }

  lemma ElementsAre(ids: seq<SessionId>, all: set<SessionId>)
    requires forall id :: id in all <==> id in ids
    ensures Elements(ids) == all
  {
  }

  /** What an expiry sweep may drop: as many records as the batch allows, all of them stale.
      Which stale ones go first is not determined. */
  ghost predicate Sweepable(m: Records, batch: Option<nat>, now: Time, gone: set<SessionId>) {
    gone <= StaleIds(m, now) && |gone| == SweepSize(batch, |StaleIds(m, now)|)
  }

  class InMemorySessionStore {
    const clock: Clock
    var records: Records

    constructor (clock: Clock)
      ensures this.clock == clock && records == map[]
    {
      this.clock := clock;
      records := map[];
    }

    method GetIfFresh(id: SessionId) returns (record: Option<StoreRecord>, ghost t: Time)
      modifies clock
      ensures old(clock.now) <= t == clock.now
      ensures record == Peek(records, id, t)
    {
      if id !in records {
        return None, clock.now;
      }
      var now := clock.Now();
      t := now;
      if records[id].deadline <= now {
        return None, t;
      }
      record := Some(records[id]);
    }

    /** Removes first and checks staleness afterwards: an expired record is gone even though the
        caller is told that there was none. */
    method Remove(id: SessionId) returns (record: Option<StoreRecord>, ghost t: Time)
      modifies this`records, clock
      ensures old(clock.now) <= t == clock.now
      ensures record == Peek(old(records), id, t)
      ensures records == old(records) - {id}
    {
      if id !in records {
        return None, clock.now;
      }
      var removed := records[id];
      records := records - {id};
      var now := clock.Now();
      t := now;
      record := if removed.deadline <= now then None else Some(removed);
    }

    method Create(id: SessionId, state: State, ttl: Duration) returns (reply: Reply, ghost at: Moment)
      modifies this`records, clock
      ensures at.After(old(clock.now)) && at.t2 == clock.now && !at.down
      ensures (reply, records) == Exec(old(records), StoreCall.Create(id, state, ttl), at)
    {
      var existing, t1 := GetIfFresh(id);
      if existing.Some? {
        return DuplicateId, Moment(false, t1, t1);
      }
      var now := clock.Now();
      records := records[id := StoreRecord(state, now + ttl)];
      return Done, Moment(false, t1, now);
    }

    method Update(id: SessionId, state: State, ttl: Duration) returns (reply: Reply, ghost at: Moment)
      modifies this`records, clock
      ensures at.After(old(clock.now)) && at.t2 == clock.now && !at.down
      ensures (reply, records) == Exec(old(records), StoreCall.Update(id, state, ttl), at)
    {
      var existing, t1 := GetIfFresh(id);
      if existing.None? {
        return UnknownId, Moment(false, t1, t1);
      }
      var now := clock.Now();
      records := records[id := StoreRecord(state, now + ttl)];
      return Done, Moment(false, t1, now);
    }

    method UpdateTtl(id: SessionId, ttl: Duration) returns (reply: Reply, ghost at: Moment)
      modifies this`records, clock
      ensures at.After(old(clock.now)) && at.t2 == clock.now && !at.down
      ensures (reply, records) == Exec(old(records), StoreCall.UpdateTtl(id, ttl), at)
    {
      var existing, t1 := GetIfFresh(id);
      if existing.None? {
        return UnknownId, Moment(false, t1, t1);
      }
      var now := clock.Now();
      records := records[id := existing.value.(deadline := now + ttl)];
      return Done, Moment(false, t1, now);
    }

    method Load(id: SessionId) returns (reply: Reply, ghost at: Moment)
      modifies clock
      ensures at.After(old(clock.now)) && at.t2 == clock.now && !at.down
      ensures (reply, records) == Exec(old(records), StoreCall.Load(id), at)
    {
      var existing, t1 := GetIfFresh(id);
      if existing.None? {
        return Loaded(None), Moment(false, t1, t1);
      }
      var now := clock.Now();
      var ttl := if existing.value.deadline - now < 0 then 0 else existing.value.deadline - now;
      return Loaded(Some(LoadedRecord(existing.value.state, ttl))), Moment(false, t1, now);
    }

    method Delete(id: SessionId) returns (reply: Reply, ghost at: Moment)
      modifies this`records, clock
      ensures at.After(old(clock.now)) && at.t2 == clock.now && !at.down
      ensures (reply, records) == Exec(old(records), StoreCall.Delete(id), at)
    {
      var removed, t := Remove(id);
      return if removed.Some? then Done else UnknownId, Moment(false, t, t);
    }

    method ChangeId(oldId: SessionId, newId: SessionId) returns (reply: Reply, ghost at: Moment)
      modifies this`records, clock
      ensures at.After(old(clock.now)) && at.t2 == clock.now && !at.down
      ensures (reply, records) == Exec(old(records), StoreCall.ChangeId(oldId, newId), at)
    {
      var existing, t1 := GetIfFresh(newId);
      if existing.Some? {
        return DuplicateId, Moment(false, t1, t1);
      }
      var moved, t2 := Remove(oldId);
      at := Moment(false, t1, t2);
      if moved.None? {
        return UnknownId, at;
      }
      records := records[newId := moved.value];
      reply := Done;
    }

    /** The first half of a sweep: walk the map, in no particular order, and note stale
        identifiers until the batch is full. */
    method CollectStale(batch: Option<nat>, now: Time) returns (staleIds: seq<SessionId>)
      requires batch.Some? ==> 0 < batch.value
      ensures Sweepable(records, batch, now, Elements(staleIds)) && |staleIds| == |Elements(staleIds)|
    {
      staleIds := [];
      ghost var gone: set<SessionId> := {};
      var rest := records.Keys;
      ghost var stale := StaleIds(records, now);
      while rest != {}
        invariant rest <= records.Keys
        invariant gone == stale - rest && |gone| == |staleIds|
        invariant forall id :: id in gone <==> id in staleIds
        invariant batch.Some? ==> |staleIds| < batch.value
      {
        var id :| id in rest;
        rest := rest - {id};
        if records[id].deadline <= now {
          staleIds := staleIds + [id];
          gone := gone + {id};
          if batch.Some? && |staleIds| >= batch.value {
            break;
          }
        }
      }
      SubsetSize(gone, stale);
      ElementsAre(staleIds, gone);
    }

    /** The second half of a sweep. */
    method RemoveAll(ids: seq<SessionId>)
      modifies this`records
      ensures records == old(records) - Elements(ids)
    {
      for i := 0 to |ids|
        invariant records == old(records) - Elements(ids[..i])
      {
        assert ids[..i + 1] == ids[..i] + [ids[i]];
        records := records - {ids[i]};
      }
      assert ids[..|ids|] == ids;
    }

    /** Delete expired records, at most `batch` of them. */
    method DeleteExpired(batch: Option<nat>) returns (count: nat, ghost now: Time, ghost gone: set<SessionId>)
      requires batch.Some? ==> 0 < batch.value
      modifies this`records, clock
      ensures old(clock.now) <= now == clock.now
      ensures Sweepable(old(records), batch, now, gone)
      ensures records == old(records) - gone
      ensures count == |old(records)| - |records|
      ensures batch.None? || count < batch.value ==> NothingStale(records, now)
      ensures batch.Some? ==> count <= batch.value
    {
      var t := clock.Now();
      now := t;
      var staleIds := CollectStale(batch, t);
      gone := Elements(staleIds);
      SubsetSize(gone, records.Keys);
      count := |staleIds|;
      RemoveAll(staleIds);
      assert records.Keys == old(records).Keys - gone;
      SweepIsThorough(old(records), batch, t, gone);
    }
  }

  lemma SubsetSize<T>(a: set<T>, b: set<T>)
    requires a <= b
    ensures |b - a| == |b| - |a|
  {
    assert b * a == a;
  }

  /** A sweep leaves the unexpired content alone, and the stale records it leaves behind are
      exactly those it did not count. */
  lemma SweepIsInvisible(m: Records, batch: Option<nat>, now: Time, gone: set<SessionId>, t: Time)
    requires Sweepable(m, batch, now, gone) && now <= t
    ensures Fresh(m - gone, t) == Fresh(m, t)
    ensures |StaleIds(m - gone, now)| == |StaleIds(m, now)| - |gone|
  {
    assert StaleIds(m - gone, now) == StaleIds(m, now) - gone;
    SubsetSize(gone, StaleIds(m, now));
  }

  ghost predicate NothingStale(m: Records, now: Time) {
    forall id <- m :: now < m[id].deadline
  }

  /** A sweep spares stale records only if it has a batch size, and has dropped that many. */
  lemma SweepIsThorough(m: Records, batch: Option<nat>, now: Time, gone: set<SessionId>)
    requires Sweepable(m, batch, now, gone)
    ensures batch.None? || |gone| < batch.value ==> NothingStale(m - gone, now)
    ensures batch.Some? ==> |gone| <= batch.value
    ensures forall id <- gone :: id in m && !IsFresh(m, id, now)
  {
    if batch.None? || |gone| < batch.value {
      SubsetSize(gone, StaleIds(m, now));
      assert StaleIds(m, now) - gone == {};
      assert StaleIds(m - gone, now) == {};
      forall id | id in m - gone
        ensures now < (m - gone)[id].deadline
      {
        assert id !in StaleIds(m - gone, now);
      }
    }
  }

  function AfterSweeps(m: Records, gones: seq<set<SessionId>>): Records {
    if gones == [] then m else AfterSweeps(m - gones[0], gones[1..])
  }

  ghost predicate AllSweepable(m: Records, batch: nat, now: Time, gones: seq<set<SessionId>>) {
    gones == [] || (Sweepable(m, Some(batch), now, gones[0]) && AllSweepable(m - gones[0], batch, now, gones[1..]))
  }

  /** Sweeping again and again at a standing clock: after `k` sweeps of `batch` records each,
      `k * batch` stale records are gone if there were as many, else all of them. The unexpired
      content never changes. */
  lemma {:induction false} RepeatedSweepsTerminate(m: Records, batch: nat, now: Time, gones: seq<set<SessionId>>,
                                                   t: Time)
    requires AllSweepable(m, batch, now, gones) && now <= t
    ensures var k, stale := |gones|, |StaleIds(m, now)|;
      |StaleIds(AfterSweeps(m, gones), now)| == if k * batch < stale then stale - k * batch else 0
    ensures Fresh(AfterSweeps(m, gones), t) == Fresh(m, t)
  {
    if gones == [] {
    } else {
      SweepIsInvisible(m, Some(batch), now, gones[0], t);
      RepeatedSweepsTerminate(m - gones[0], batch, now, gones[1..], t);
      assert |gones| * batch == (|gones| - 1) * batch + batch;
    }
  }

  /** Any storage backend behind the thin `SessionStore` wrapper: it does what the in-memory
      store does, except that it may be out of order, in which case a call fails and changes
      nothing. */
  class SessionStore {
    const backend: InMemorySessionStore

    constructor (backend: InMemorySessionStore)
      ensures this.backend == backend
    {
      this.backend := backend;
    }

    method Invoke(call: StoreCall) returns (reply: Reply, ghost at: Moment)
      modifies backend`records, backend.clock
      ensures at.After(old(backend.clock.now)) && at.t2 == backend.clock.now
      ensures (reply, backend.records) == Exec(old(backend.records), call, at)
    {
      var down: bool := *;
      if down {
        return Other, Moment(true, backend.clock.now, backend.clock.now);
      }
      match call
      case Create(id, state, ttl) => reply, at := backend.Create(id, state, ttl);
      case Update(id, state, ttl) => reply, at := backend.Update(id, state, ttl);
      case UpdateTtl(id, ttl) => reply, at := backend.UpdateTtl(id, ttl);
      case Load(id) => reply, at := backend.Load(id);
      case Delete(id) => reply, at := backend.Delete(id);
      case ChangeId(id, newId) => reply, at := backend.ChangeId(id, newId);
    }
  }
}
