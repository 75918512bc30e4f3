/** What a session store does, call by call, as a function of the records it holds
    and of the moment at which the call happens. */
module StoreSpec {
  import opened SessionTypes

  datatype StoreRecord = StoreRecord(state: State, deadline: Time)
  type Records = map<SessionId, StoreRecord>

  /** The circumstances of one store call: whether the backend is down (the call fails
      without any effect), and the clock readings taken inside the call. */
  datatype Moment = Moment(down: bool, t1: Time, t2: Time)
  {
    ghost predicate Ordered() { t1 <= t2 }
    ghost predicate After(t: Time) { t <= t1 <= t2 }
  }

  datatype StoreCall =
    | Create(id: SessionId, state: State, ttl: Duration)
    | Update(id: SessionId, state: State, ttl: Duration)
    | UpdateTtl(id: SessionId, ttl: Duration)
    | Load(id: SessionId)
    | Delete(id: SessionId)
    | ChangeId(id: SessionId, newId: SessionId)
  {
    /** The only identifiers the call may look at or change. */
    function Ids(): set<SessionId> {
      if ChangeId? then {id, newId} else {id}
    }
  }

  /** A record as returned by `Load`: the deadline has become a remaining time-to-live. */
  datatype LoadedRecord = LoadedRecord(state: State, ttl: Duration)

  datatype Reply =
    | Done
    | Loaded(record: Option<LoadedRecord>)
    | DuplicateId
    | UnknownId
    | Other

  /** A record is stale from its deadline on. */
  predicate IsFresh(m: Records, id: SessionId, t: Time) {
    id in m && t < m[id].deadline
  }

  /** The unexpired record stored at `id`, if there is one. */
  function Peek(m: Records, id: SessionId, t: Time): Option<StoreRecord> {
    if IsFresh(m, id, t) then Some(m[id]) else None
  }

  /** The unexpired part of the store. */
  function Fresh(m: Records, t: Time): Records {
    map id | id in m && t < m[id].deadline :: m[id]
  }

  function Remaining(deadline: Time, now: Time): Duration {
    if deadline <= now then 0 else deadline - now
  }

  /** The effect of one call on the raw records. Expired records are still there, and may be
      overwritten or swept away as a side effect; the clock is read up to twice. */
  function Exec(m: Records, call: StoreCall, at: Moment): (Reply, Records) {
    if at.down then (Other, m) else
    match call
    case Create(id, state, ttl) =>
      if IsFresh(m, id, at.t1) then (DuplicateId, m)
      else (Done, m[id := StoreRecord(state, at.t2 + ttl)])
    case Update(id, state, ttl) =>
      if IsFresh(m, id, at.t1) then (Done, m[id := StoreRecord(state, at.t2 + ttl)])
      else (UnknownId, m)
    case UpdateTtl(id, ttl) =>
      if IsFresh(m, id, at.t1) then (Done, m[id := m[id].(deadline := at.t2 + ttl)])
      else (UnknownId, m)
    case Load(id) =>
      if IsFresh(m, id, at.t1)
      then (Loaded(Some(LoadedRecord(m[id].state, Remaining(m[id].deadline, at.t2)))), m)
      else (Loaded(None), m)
    case Delete(id) =>
      (if IsFresh(m, id, at.t1) then Done else UnknownId, m - {id})
    case ChangeId(id, newId) =>
      if IsFresh(m, newId, at.t1) then (DuplicateId, m)
      else if IsFresh(m, id, at.t2) then (Done, (m - {id})[newId := m[id]])
      else (UnknownId, m - {id})
  }

  /** The same call on a plain map that holds unexpired records only. There is no clock to
      consult: a record exists or it does not. `now` only stamps deadlines and lifetimes. */
  function Ideal(f: Records, call: StoreCall, down: bool, now: Time): (Reply, Records) {
    if down then (Other, f) else
    match call
    case Create(id, state, ttl) =>
      if id in f then (DuplicateId, f) else (Done, f[id := StoreRecord(state, now + ttl)])
    case Update(id, state, ttl) =>
      if id in f then (Done, f[id := StoreRecord(state, now + ttl)]) else (UnknownId, f)
    case UpdateTtl(id, ttl) =>
      if id in f then (Done, f[id := StoreRecord(f[id].state, now + ttl)]) else (UnknownId, f)
    case Load(id) =>
      (Loaded(if id in f then Some(LoadedRecord(f[id].state, Remaining(f[id].deadline, now))) else None), f)
    case Delete(id) =>
      if id in f then (Done, f - {id}) else (UnknownId, f)
    case ChangeId(id, newId) =>
      if newId in f then (DuplicateId, f)
      else if id in f then (Done, (f - {id})[newId := f[id]])
      else (UnknownId, f)
  }

  /** The instant at which a call takes effect. Only a rename whose target is free is decided
      by its second clock reading. */
  function EffectiveAt(f: Records, call: StoreCall, at: Moment): Time {
    if call.ChangeId? && !IsFresh(f, call.newId, at.t1) then at.t2 else at.t1
  }

  /** Store refinement, one call. Although the clock moves between the readings taken inside a
      call, there is one instant inside the call at which the reply and the effect are those of
      the simple operation on the map of unexpired records. */
  lemma CallRefinesIdeal(m: Records, call: StoreCall, at: Moment, t: Time)
    requires at.Ordered() && at.t2 <= t
    ensures var now := EffectiveAt(m, call, at);
      && at.t1 <= now <= at.t2
      && Exec(m, call, at).0 == Ideal(Fresh(m, now), call, at.down, at.t2).0
      && Fresh(Exec(m, call, at).1, t) == Fresh(Ideal(Fresh(m, now), call, at.down, at.t2).1, t)
  {
    if call.ChangeId? {
      RenameRefinesIdeal(m, call.id, call.newId, at, t);
    } else {
      OneIdRefinesIdeal(m, call, at, t);
    }
  }

  lemma OneIdRefinesIdeal(m: Records, call: StoreCall, at: Moment, t: Time)
    requires at.Ordered() && at.t2 <= t && !call.ChangeId?
    ensures Exec(m, call, at).0 == Ideal(Fresh(m, at.t1), call, at.down, at.t2).0
    ensures Fresh(Exec(m, call, at).1, t) == Fresh(Ideal(Fresh(m, at.t1), call, at.down, at.t2).1, t)
  {
    assert call.id in Fresh(m, at.t1) <==> IsFresh(m, call.id, at.t1);
  }

  lemma RenameRefinesIdeal(m: Records, oldId: SessionId, newId: SessionId, at: Moment, t: Time)
    requires at.Ordered() && at.t2 <= t
    ensures var call := ChangeId(oldId, newId);
      var now := EffectiveAt(m, call, at);
      && Exec(m, call, at).0 == Ideal(Fresh(m, now), call, at.down, at.t2).0
      && Fresh(Exec(m, call, at).1, t) == Fresh(Ideal(Fresh(m, now), call, at.down, at.t2).1, t)
  {
    var now := EffectiveAt(m, ChangeId(oldId, newId), at);
    assert forall id :: id in Fresh(m, now) <==> IsFresh(m, id, now);
  }

  /** One step in the life of a store: an expiry sweep that drops the stale ones among the
      `swept` identifiers, then a call. */
  datatype Beat = Beat(swept: set<SessionId>, call: StoreCall, at: Moment)

  function Sweep(m: Records, swept: set<SessionId>, now: Time): Records {
    map id | id in m && !(id in swept && m[id].deadline <= now) :: m[id]
  }

  ghost predicate InOrder(beats: seq<Beat>, t: Time)
    decreases |beats|
  {
    beats == [] || (beats[0].at.After(t) && InOrder(beats[1..], beats[0].at.t2))
  }

  function EndOf(beats: seq<Beat>, t: Time): Time
    decreases |beats|
  {
    if beats == [] then t else EndOf(beats[1..], beats[0].at.t2)
  }

  function Play(m: Records, beats: seq<Beat>): (seq<Reply>, Records)
    decreases |beats|
  {
    if beats == [] then ([], m) else
    var (reply, m') := Exec(Sweep(m, beats[0].swept, beats[0].at.t1), beats[0].call, beats[0].at);
    var (replies, last) := Play(m', beats[1..]);
    ([reply] + replies, last)
  }

  /** The reference store: a plain map that forgets records the instant they expire, and has
      no sweeps. */
  function PlayIdeal(f: Records, beats: seq<Beat>): (seq<Reply>, Records)
    decreases |beats|
  {
    if beats == [] then ([], f) else
    var Beat(_, call, at) := beats[0];
    var (reply, f') := Ideal(Fresh(f, EffectiveAt(f, call, at)), call, at.down, at.t2);
    var (replies, last) := PlayIdeal(f', beats[1..]);
    ([reply] + replies, last)
  }

  lemma FreshOfLaterFresh(m1: Records, m2: Records, t: Time, later: Time)
    requires t <= later && Fresh(m1, t) == Fresh(m2, t)
    ensures Fresh(m1, later) == Fresh(m2, later)
    ensures forall id :: IsFresh(m1, id, later) == IsFresh(m2, id, later)
  {
    forall id
      ensures IsFresh(m1, id, later) == IsFresh(m2, id, later)
      ensures Peek(m1, id, later) == Peek(m2, id, later)
    {
      assert id in Fresh(m1, t) <==> IsFresh(m1, id, t);
      assert id in Fresh(m2, t) <==> IsFresh(m2, id, t);
      if id in Fresh(m1, t) { assert Fresh(m1, t)[id] == Fresh(m2, t)[id]; }
    }
    assert forall id :: id in Fresh(m1, later) <==> IsFresh(m1, id, later);
    assert forall id :: id in Fresh(m2, later) <==> IsFresh(m2, id, later);
    assert forall id :: id in Fresh(m1, later) ==> Peek(m1, id, later) == Peek(m2, id, later);
  }

  lemma SweepKeepsFresh(m: Records, swept: set<SessionId>, now: Time, t: Time)
    requires now <= t
    ensures Fresh(Sweep(m, swept, now), t) == Fresh(m, t)
  {
  }

  /** Store refinement, whole life. For any sequence of calls and sweeps on any clock, every
      reply is that of the reference store and so is the unexpired content at the end: stale
      leftovers, and when they are swept, can never be observed. */
  lemma {:induction false} StoreRefinement(m: Records, f: Records, beats: seq<Beat>, t: Time)
    requires InOrder(beats, t) && Fresh(m, t) == Fresh(f, t)
    ensures Play(m, beats).0 == PlayIdeal(f, beats).0
    ensures Fresh(Play(m, beats).1, EndOf(beats, t)) == Fresh(PlayIdeal(f, beats).1, EndOf(beats, t))
    decreases |beats|
  {
    if beats == [] {
    } else {
      var Beat(swept, call, at) := beats[0];
      var swe := Sweep(m, swept, at.t1);
      SweepKeepsFresh(m, swept, at.t1, at.t1);
      FreshOfLaterFresh(m, f, t, at.t1);
      var now := EffectiveAt(swe, call, at);
      FreshOfLaterFresh(swe, f, at.t1, at.t1);
      assert now == EffectiveAt(f, call, at);
      FreshOfLaterFresh(swe, f, at.t1, now);
      CallRefinesIdeal(swe, call, at, at.t2);
      var next := Exec(swe, call, at).1;
      StoreRefinement(next, Ideal(Fresh(f, now), call, at.down, at.t2).1, beats[1..], at.t2);
    }
  }

  // ---------------------------------------------------------------- footprints

  /** Both stores hold the same unexpired records at `ids`. */
  ghost predicate AgreeOn(m1: Records, m2: Records, ids: set<SessionId>, t: Time) {
    forall id <- ids :: Peek(m1, id, t) == Peek(m2, id, t)
  }

  lemma SameFreshness(m1: Records, m2: Records, ids: set<SessionId>, id: SessionId, t: Time, later: Time)
    requires AgreeOn(m1, m2, ids, t) && id in ids && t <= later
    ensures IsFresh(m1, id, later) == IsFresh(m2, id, later)
    ensures IsFresh(m1, id, later) ==> m1[id] == m2[id]
  {
    assert Peek(m1, id, t) == Peek(m2, id, t);
  }

  /** A call reads and writes nothing but its own identifiers, and no stale record influences
      it: stores that agree on the identifiers reply alike and still agree afterwards. */
  lemma CallDependsOnOwnIds(m1: Records, m2: Records, ids: set<SessionId>, call: StoreCall, at: Moment, t: Time)
    requires AgreeOn(m1, m2, ids, t) && call.Ids() <= ids && at.After(t)
    ensures Exec(m1, call, at).0 == Exec(m2, call, at).0
    ensures AgreeOn(Exec(m1, call, at).1, Exec(m2, call, at).1, ids, at.t2)
  {
    assert call.id in ids;
    SameFreshness(m1, m2, ids, call.id, t, at.t1);
    if call.ChangeId? {
      assert call.newId in ids;
      SameFreshness(m1, m2, ids, call.newId, t, at.t1);
      SameFreshness(m1, m2, ids, call.id, t, at.t2);
    }
    forall id | id in ids
      ensures Peek(Exec(m1, call, at).1, id, at.t2) == Peek(Exec(m2, call, at).1, id, at.t2)
    {
      SameFreshness(m1, m2, ids, id, t, at.t2);
    }
  }

  lemma CallLeavesOthers(m: Records, ids: set<SessionId>, call: StoreCall, at: Moment)
    requires call.Ids() !! ids
    ensures AgreeOn(m, Exec(m, call, at).1, ids, at.t2)
  {
  }

  // ---------------------------------------------------------------- renaming and lifetimes

  /** A successful rename moves the record with its deadline, and the number of unexpired
      records stays what it was. */
  lemma RenameConserves(m: Records, oldId: SessionId, newId: SessionId, at: Moment, t: Time)
    requires at.Ordered() && at.t2 <= t
    requires Exec(m, ChangeId(oldId, newId), at).0 == Done
    ensures var m' := Exec(m, ChangeId(oldId, newId), at).1;
      && oldId in m && newId in m' && m'[newId] == m[oldId]
      && oldId !in m'
      && |Fresh(m', t)| == |Fresh(m, t)|
  {
    var m' := Exec(m, ChangeId(oldId, newId), at).1;
    var before, after := Fresh(m, t), Fresh(m', t);
    if t < m[oldId].deadline {
      SwapKeepsSize(before.Keys, after.Keys, oldId, newId);
    } else {
      assert after == before;
    }
  }

  /** One element out, one element in. */
  lemma SwapKeepsSize<T>(before: set<T>, after: set<T>, x: T, y: T)
    requires x in before && y in after && before - {x} == after - {y}
    ensures |before| == |after|
  {
    assert before == before - {x} + {x} && after == after - {y} + {y};
  }

  /** No record outlives a full time-to-live from now. */
  ghost predicate Bounded(m: Records, ttl: Duration, now: Time) {
    forall id <- m :: m[id].deadline <= now + ttl
  }

  function TtlOf(call: StoreCall): Option<Duration> {
    match call
    case Create(_, _, ttl) => Some(ttl)
    case Update(_, _, ttl) => Some(ttl)
    case UpdateTtl(_, ttl) => Some(ttl)
    case _ => None
  }

  /** With one fixed time-to-live the bound is kept by every call, and no call brings forward
      the expiry of a record: not of one it rewrites, and not of one it moves. */
  lemma CallKeepsBound(m: Records, call: StoreCall, at: Moment, ttl: Duration, t: Time)
    requires Bounded(m, ttl, t) && at.After(t)
    requires TtlOf(call).Some? ==> TtlOf(call).value == ttl
    ensures var m' := Exec(m, call, at).1;
      && Bounded(m', ttl, at.t2)
      && (forall id :: id in m && id in m' ==> m[id].deadline <= m'[id].deadline)
      && (call.ChangeId? && Exec(m, call, at).0 == Done ==> m'[call.newId].deadline == m[call.id].deadline)
  {
  }

  /** A record that was created or overwritten can be loaded until its time-to-live is over, and not
      from then on; what is loaded is what was written, with exactly the rest of its lifetime. */
  lemma RecordLivesExactly(m: Records, call: StoreCall, at: Moment, load: Moment)
    requires (call.Create? || call.Update?) && Exec(m, call, at).0 == Done && load.After(at.t2) && !load.down
    ensures var reply := Exec(Exec(m, call, at).1, Load(call.id), load).0;
      && reply.Loaded?
      && (reply.record.Some? <==> load.t1 < at.t2 + call.ttl)
      && (reply.record.Some? ==>
           && reply.record.value.state == call.state
           && (load.t2 <= at.t2 + call.ttl ==> load.t2 + reply.record.value.ttl == at.t2 + call.ttl)
           && (at.t2 + call.ttl < load.t2 ==> reply.record.value.ttl == 0))
  {
  }

  /** The replies of all calls tell the same story. At one instant, a record is found by a load if and
      only if it can be deleted, updated and extended, and cannot be created; and if and only if it can
      be renamed to an identifier at which none is found. What was deleted is not found again. */
  lemma RepliesAgree(m: Records, id: SessionId, newId: SessionId, state: State, ttl: Duration, t: Time, later: Moment)
    requires newId != id && later.After(t) && !later.down
    ensures var at := Moment(false, t, t);
      var found := Exec(m, Load(id), at).0 != Loaded(None);
      var taken := Exec(m, Load(newId), at).0 != Loaded(None);
      && Exec(m, StoreCall.Delete(id), at).0 == (if found then Done else UnknownId)
      && Exec(m, Update(id, state, ttl), at).0 == (if found then Done else UnknownId)
      && Exec(m, UpdateTtl(id, ttl), at).0 == (if found then Done else UnknownId)
      && Exec(m, Create(id, state, ttl), at).0 == (if found then DuplicateId else Done)
      && Exec(m, ChangeId(id, newId), at).0 == (if taken then DuplicateId else if found then Done else UnknownId)
      && Exec(Exec(m, StoreCall.Delete(id), at).1, Load(id), later).0 == Loaded(None)
  {
  }
}
