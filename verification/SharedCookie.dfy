/** Two requests that carry the same cookie: one logs out while the other is still at work. */
module SharedCookie {
  import opened SessionTypes
  import opened StoreSpec
  import opened SessionSpec

  /** The final sync of an invalidated session is one store call, that of another session up to two.
      Hence three interleavings. */
  datatype Order = LogoutFirst | LogoutBetween | LogoutLast

  /** The verdict of the other session's sync, and the store after both. */
  function BothSynced(a: SessionData, b: SessionData, cfg: Config, m: Records, order: Order,
                      at: Moment, bt1: Moment, bt2: Moment): (SyncOutcome, Records)
    requires Valid(a) && Valid(b)
  {
    match order
    case LogoutFirst =>
      var (outcome, _, m') := SyncOn(b, cfg, SyncOn(a, cfg, m, at, at).2, bt1, bt2);
      (outcome, m')
    case LogoutLast =>
      var (outcome, _, m') := SyncOn(b, cfg, m, bt1, bt2);
      (outcome, SyncOn(a, cfg, m', at, at).2)
    case LogoutBetween =>
      match SyncBegin(b, cfg)
      case Stop(outcome) => (outcome, SyncOn(a, cfg, m, at, at).2)
      case Await(call1) =>
        var (r1, m1) := Exec(m, call1, bt1);
        var m2 := SyncOn(a, cfg, m1, at, at).2;
        match SyncNext(b, cfg, r1)
        case Stop(outcome) => (outcome, m2)
        case Await(call2) =>
          var (r2, m3) := Exec(m2, call2, bt2);
          (SyncLast(r2), m3)
  }

  /** The clock follows the interleaving, and the two requests end before `end`, within a
      time-to-live of when they began to sync. */
  ghost predicate InOrder(order: Order, at: Moment, bt1: Moment, bt2: Moment, cfg: Config, end: Time) {
    && at.Ordered() && bt1.Ordered() && bt2.After(bt1.t2)
    && (match order
        case LogoutFirst => at.t2 <= bt1.t1
        case LogoutBetween => bt1.t2 <= at.t1 && at.t2 <= bt2.t1
        case LogoutLast => bt2.t2 <= at.t1)
    && at.t2 <= end && bt2.t2 <= end < bt1.t1 + cfg.ttl
  }

  /** What the circumstances are: both sessions came with the same cookie, one of them is invalidated,
      the store works, its record does not expire meanwhile, and a new identifier is new. */
  ghost predicate SameCookie(a: SessionData, b: SessionData, id: SessionId, m: Records,
                             at: Moment, bt1: Moment, bt2: Moment, end: Time) {
    && Valid(a) && a.invalidated && Valid(b) && a.id.Old() == b.id.Old() == Some(id)
    && !at.down && !bt1.down && !bt2.down
    && (b.id.ToBeRenamed? ==> !IsFresh(m, b.id.newId, bt1.t1))
    && (IsFresh(m, id, bt1.t1) ==> IsFresh(m, id, end))
  }

  /** A session that found no record, where empty records are created. */
  predicate CreatesEmpty(s: SessionData, cfg: Config) {
    s.id.Existing? && s.server == Some(DoesNotExist) && cfg.creation.NeverSkip?
  }

  /** The state that a renamed session has in memory. */
  predicate InMemory(s: SessionData) {
    s.server.Some? && (s.server.value.Unchanged? || s.server.value.Changed?)
  }

  /** The record that the new identifier of a renamed session ends up with: the very record that was
      there, if the rename came before the logout and there is nothing new to write; else what is in
      memory, with a full time-to-live; else none. */
  function RenamedRecord(s: SessionData, cfg: Config, m: Records, order: Order, bt1: Moment,
                         bt2: Moment): Option<StoreRecord>
    requires s.id.ToBeRenamed?
  {
    var moved := order != LogoutFirst && IsFresh(m, s.id.oldId, bt1.t1);
    match s.server
    case None => if moved then Some(m[s.id.oldId]) else None
    case Some(Unchanged(state, _)) => Some(if moved then m[s.id.oldId] else StoreRecord(state, bt2.t2 + cfg.ttl))
    case Some(Changed(state)) => Some(StoreRecord(state, bt2.t2 + cfg.ttl))
    case _ => None
  }

  /** Everything that the two requests leave behind, in each interleaving: under the old identifier at
      most an empty record, and that only if the logout came first; under the new one a record as
      above. */
  lemma LeftBehind(a: SessionData, b: SessionData, id: SessionId, cfg: Config, m: Records, order: Order,
                   at: Moment, bt1: Moment, bt2: Moment, end: Time)
    requires SameCookie(a, b, id, m, at, bt1, bt2, end) && InOrder(order, at, bt1, bt2, cfg, end)
    ensures var (_, m') := BothSynced(a, b, cfg, m, order, at, bt1, bt2);
      && Peek(m', id, end)
           == (if order != LogoutFirst || !CreatesEmpty(b, cfg) then None
               else Some(StoreRecord(map[], bt1.t2 + cfg.ttl)))
      && (b.id.ToBeRenamed? ==> Peek(m', b.id.newId, end) == RenamedRecord(b, cfg, m, order, bt1, bt2))
  {
    match order {
      case LogoutFirst => AfterLogout(a, b, id, cfg, m, at, bt1, bt2, end);
      case LogoutBetween => AroundLogout(a, b, id, cfg, m, at, bt1, bt2, end);
      case LogoutLast => BeforeLogout(a, b, id, cfg, m, at, bt1, bt2, end);
    }
  }

  lemma LogoutDeletes(a: SessionData, id: SessionId, cfg: Config, m: Records, at: Moment)
    requires Valid(a) && a.invalidated && a.id.Old() == Some(id) && !at.down
    ensures SyncOn(a, cfg, m, at, at).0 == Synced && SyncOn(a, cfg, m, at, at).2 == m - {id}
  {
  }

  lemma AfterLogout(a: SessionData, b: SessionData, id: SessionId, cfg: Config, m: Records,
                    at: Moment, bt1: Moment, bt2: Moment, end: Time)
    requires SameCookie(a, b, id, m, at, bt1, bt2, end)
    requires InOrder(LogoutFirst, at, bt1, bt2, cfg, end)
    ensures var (_, m') := BothSynced(a, b, cfg, m, LogoutFirst, at, bt1, bt2);
      && Peek(m', id, end) == (if CreatesEmpty(b, cfg) then Some(StoreRecord(map[], bt1.t2 + cfg.ttl)) else None)
      && (b.id.ToBeRenamed? ==> Peek(m', b.id.newId, end) == RenamedRecord(b, cfg, m, LogoutFirst, bt1, bt2))
  {
    LogoutDeletes(a, id, cfg, m, at);
  }

  lemma AroundLogout(a: SessionData, b: SessionData, id: SessionId, cfg: Config, m: Records,
                     at: Moment, bt1: Moment, bt2: Moment, end: Time)
    requires SameCookie(a, b, id, m, at, bt1, bt2, end)
    requires InOrder(LogoutBetween, at, bt1, bt2, cfg, end)
    ensures var (_, m') := BothSynced(a, b, cfg, m, LogoutBetween, at, bt1, bt2);
      && Peek(m', id, end) == None
      && (b.id.ToBeRenamed? ==> Peek(m', b.id.newId, end) == RenamedRecord(b, cfg, m, LogoutBetween, bt1, bt2))
  {
    match SyncBegin(b, cfg) {
      case Stop(_) => LogoutDeletes(a, id, cfg, m, at);
      case Await(call) => LogoutDeletes(a, id, cfg, Exec(m, call, bt1).1, at);
    }
  }

  lemma BeforeLogout(a: SessionData, b: SessionData, id: SessionId, cfg: Config, m: Records,
                     at: Moment, bt1: Moment, bt2: Moment, end: Time)
    requires SameCookie(a, b, id, m, at, bt1, bt2, end)
    requires InOrder(LogoutLast, at, bt1, bt2, cfg, end)
    ensures var (_, m') := BothSynced(a, b, cfg, m, LogoutLast, at, bt1, bt2);
      && Peek(m', id, end) == None
      && (b.id.ToBeRenamed? ==> Peek(m', b.id.newId, end) == RenamedRecord(b, cfg, m, LogoutLast, bt1, bt2))
  {
    LogoutDeletes(a, id, cfg, SyncOn(b, cfg, m, bt1, bt2).2, at);
  }

  /** Whether the other session leaves a record in spite of the logout. */
  predicate Revives(s: SessionData, cfg: Config, order: Order, hadRecord: bool) {
    if s.id.ToBeRenamed? then InMemory(s) || (s.server.None? && order != LogoutFirst && hadRecord)
    else order == LogoutFirst && CreatesEmpty(s, cfg)
  }

  /** Logging out in one request is undone by another one with the same cookie if and only if the
      other's session is renamed and has its state in memory, in every interleaving; or is renamed
      without having been loaded, and its rename came first; or found no record, creates an empty one,
      and the logout came first. Then the other sync succeeds, and its response sets a cookie for
      the record. */
  lemma LogoutUndoneIff(a: SessionData, b: SessionData, id: SessionId, cfg: Config, m: Records, order: Order,
                        at: Moment, bt1: Moment, bt2: Moment, end: Time)
    requires SameCookie(a, b, id, m, at, bt1, bt2, end) && InOrder(order, at, bt1, bt2, cfg, end)
    ensures var (outcome, m') := BothSynced(a, b, cfg, m, order, at, bt1, bt2);
      var undone := Revives(b, cfg, order, IsFresh(m, id, bt1.t1));
      && (IsFresh(m', id, end) || IsFresh(m', b.id.New(), end) <==> undone)
      && (undone ==>
           && outcome == Synced && IsFresh(m', b.id.New(), end)
           && CookieFor(AfterSync(b, cfg)) == SetCookie(Serialize(b.id.New(), b.client.state)))
  {
    LeftBehind(a, b, id, cfg, m, order, at, bt1, bt2, end);
    if Revives(b, cfg, order, IsFresh(m, id, bt1.t1)) {
      ReviversSync(a, b, id, cfg, m, order, at, bt1, bt2, end);
    }
  }

  lemma ReviversSync(a: SessionData, b: SessionData, id: SessionId, cfg: Config, m: Records, order: Order,
                     at: Moment, bt1: Moment, bt2: Moment, end: Time)
    requires SameCookie(a, b, id, m, at, bt1, bt2, end) && InOrder(order, at, bt1, bt2, cfg, end)
    requires Revives(b, cfg, order, IsFresh(m, id, bt1.t1))
    ensures BothSynced(a, b, cfg, m, order, at, bt1, bt2).0 == Synced
  {
    match order {
      case LogoutFirst => LogoutDeletes(a, id, cfg, m, at);
      case LogoutBetween =>
        if SyncBegin(b, cfg).Await? {
          LogoutDeletes(a, id, cfg, Exec(m, SyncBegin(b, cfg).call, bt1).1, at);
        }
      case LogoutLast =>
    }
  }

  /** A session that does so in every interleaving is easy to come by: load the record and rename the
      session before either of them syncs. */
  lemma LoadAndRenameRevives(incoming: IncomingSession, generated: SessionId, cfg: Config, m: Records, at: Moment,
                             order: Order, hadRecord: bool)
    requires IsFresh(m, incoming.id, at.t1) && generated != incoming.id && !at.down
    ensures var (_, loaded) := PerformOn(NewSession(Some(incoming), generated), cfg, ForceLoad, m, at);
      var (_, renamed) := Perform(loaded, cfg, CycleId(generated), Done);
      && Revives(renamed, cfg, order, hadRecord) && renamed.id.Old() == Some(incoming.id)
      && renamed.id.New() == generated && ServerMap(renamed.server.value) == m[incoming.id].state
  {
  }
}
