/** One HTTP session as a value: what each operation answers, how it changes the session, and
    which store calls it makes. A session sees the store only through the replies it gets. */
module SessionSpec {
  import opened SessionTypes
  import opened StoreSpec

  datatype Identity =
    | Existing(id: SessionId)
    | ToBeRenamed(oldId: SessionId, newId: SessionId)
    | NewlyGenerated(id: SessionId)
  {
    function New(): SessionId {
      if ToBeRenamed? then newId else id
    }

    function Old(): Option<SessionId> {
      match this
      case Existing(id) => Some(id)
      case ToBeRenamed(oldId, _) => Some(oldId)
      case NewlyGenerated(_) => None
    }
  }

  datatype ServerState =
    | Unchanged(state: State, ttl: Duration)
    | DoesNotExist
    | MarkedForDeletion
    | Changed(state: State)

  datatype ClientState = AsReceived(state: State) | Updated(state: State)

  /** `server` is `None` until the server state is loaded, or until it no longer matters. */
  datatype SessionData = SessionData(
    id: Identity,
    server: Option<ServerState>,
    client: ClientState,
    invalidated: bool)

  /** The documented internal invariants of a session. */
  ghost predicate Valid(s: SessionData) {
    && (s.invalidated ==> s.server == Some(MarkedForDeletion))
    && (s.id.NewlyGenerated? ==> s.server.Some?)
    && (s.id.ToBeRenamed? ==> s.id.oldId != s.id.newId)
  }

  datatype IncomingSession = IncomingSession(id: SessionId, client: State)

  function NewSession(incoming: Option<IncomingSession>, generated: SessionId): (s: SessionData)
    ensures Valid(s)
  {
    match incoming
    case Some(i) => SessionData(Existing(i.id), None, AsReceived(i.client), false)
    case None => SessionData(NewlyGenerated(generated), Some(DoesNotExist), AsReceived(map[]), false)
  }

  // ---------------------------------------------------------------- operations

  datatype Op =
    | Get(key: string) | IsEmpty | ForceLoad
    | Insert(key: string, value: Value) | Remove(key: string) | Clear
    | Delete | Invalidate
    | CycleId(generated: SessionId)
    | ClientGet(key: string) | ClientIsEmpty
    | ClientInsert(key: string, value: Value) | ClientRemove(key: string) | ClientClear
  {
    /** The operations that look at the server-side state, and load it first. */
    predicate NeedsServerState() {
      Get? || IsEmpty? || ForceLoad? || Insert? || Remove? || Clear?
    }

    predicate OnClient() {
      ClientGet? || ClientIsEmpty? || ClientInsert? || ClientRemove? || ClientClear?
    }
  }

  datatype Outcome =
    | Found(value: Option<Value>)
    | Flag(flag: bool)
    | Finished
    | LoadFailed
    | Panicked

  /** The store call that loads the server state, unless there is nothing (left) to load. */
  function LoadCall(s: SessionData): Option<StoreCall> {
    if s.id.Old().Some? && s.server.None? then Some(Load(s.id.Old().value)) else None
  }

  /** How a reply to that call fills the cell. */
  function AfterLoad(s: SessionData, cfg: Config, reply: Reply): SessionData
    requires reply.Loaded?
  {
    match reply.record
    case Some(r) => s.(server := Some(Unchanged(r.state, r.ttl)))
    case None =>
      match cfg.missing
      case Allow => s.(server := Some(DoesNotExist))
      case Reject => s.(server := Some(MarkedForDeletion), invalidated := true)
  }

  function ServerMap(server: ServerState): State {
    if server.Unchanged? || server.Changed? then server.state else map[]
  }

  /** An operation on a session whose server state is in memory if the operation needs it. */
  function Apply(s: SessionData, op: Op): (Outcome, SessionData)
    requires op.NeedsServerState() ==> s.server.Some?
  {
    match op
    case Get(k) => (Found(Lookup(ServerMap(s.server.value), k)), s)
    case IsEmpty => (Flag(ServerMap(s.server.value) == map[]), s)
    case ForceLoad => (Finished, s)
    case Insert(k, v) => (
      match s.server.value
      case MarkedForDeletion => (Found(None), s)
      case DoesNotExist => (Found(None), s.(server := Some(Changed(map[k := v]))))
      case _ =>
        var state := s.server.value.state;
        (Found(Lookup(state, k)), s.(server := Some(Changed(state[k := v]))))
    )
    case Remove(k) => (
      match s.server.value
      case Unchanged(state, ttl) => (Found(Lookup(state, k)), s.(server := Some(Unchanged(state - {k}, ttl))))
      case Changed(state) => (Found(Lookup(state, k)), s.(server := Some(Changed(state - {k}))))
      case _ => (Found(None), s)
    )
    case Clear => (
      match s.server.value
      case Unchanged(state, _) => (Finished, if state == map[] then s else s.(server := Some(Changed(map[]))))
      case Changed(_) => (Finished, s.(server := Some(Changed(map[]))))
      case _ => (Finished, s)
    )
    case Delete => (Finished, s.(server := Some(MarkedForDeletion)))
    case Invalidate => (Finished, s.(server := Some(MarkedForDeletion), invalidated := true))
    case CycleId(generated) => (
      match s.id.Old()
      case None => (Finished, s.(id := NewlyGenerated(generated)))
      case Some(oldId) =>
        // Every attempt produced the old identifier again.
        if generated == oldId then (Panicked, s) else (Finished, s.(id := ToBeRenamed(oldId, generated)))
    )
    case ClientGet(k) => (Found(if s.invalidated then None else Lookup(s.client.state, k)), s)
    case ClientIsEmpty => (Flag(s.invalidated || s.client.state == map[]), s)
    case ClientInsert(k, v) =>
      if s.invalidated then (Found(None), s)
      else (Found(Lookup(s.client.state, k)), s.(client := Updated(s.client.state[k := v])))
    case ClientRemove(k) =>
      if s.invalidated then (Found(None), s)
      else if s.client.AsReceived? && k !in s.client.state then (Found(None), s)
      else (Found(Lookup(s.client.state, k)), s.(client := Updated(s.client.state - {k})))
    case ClientClear =>
      if s.invalidated || (s.client.AsReceived? && s.client.state == map[]) then (Finished, s)
      else (Finished, s.(client := Updated(map[])))
  }

  /** The store call an operation makes on this session, if any. */
  function OpCall(s: SessionData, op: Op): Option<StoreCall> {
    if op.NeedsServerState() then LoadCall(s) else None
  }

  /** An operation, given the store's reply in case it makes a call. */
  function Perform(s: SessionData, cfg: Config, op: Op, reply: Reply): (r: (Outcome, SessionData))
    requires Valid(s)
    ensures Valid(r.1)
    ensures r.1.id.Old() == s.id.Old()
  {
    if OpCall(s, op).None? then Apply(s, op)
    else if reply.Loaded? then Apply(AfterLoad(s, cfg, reply), op)
    else (LoadFailed, s)
  }

  /** The store's answer to a call, where there is one. */
  function Ask(m: Records, call: Option<StoreCall>, at: Moment): (Reply, Records) {
    if call.Some? then Exec(m, call.value, at) else (Done, m)
  }

  function PerformOn(s: SessionData, cfg: Config, op: Op, m: Records, at: Moment): (Outcome, SessionData)
    requires Valid(s)
  {
    Perform(s, cfg, op, Ask(m, OpCall(s, op), at).0)
  }

  // ---------------------------------------------------------------- sync

  datatype SyncOutcome = Synced | SyncFailed(reply: Reply) | SyncPanicked

  /** Sync is a conversation with the store of at most two calls. */
  datatype SyncStep = Stop(outcome: SyncOutcome) | Await(call: StoreCall)

  function CreateIfEmpty(s: SessionData, cfg: Config): bool {
    (s.id.Old().Some? || s.client.Updated?) && cfg.creation.NeverSkip?
  }

  function ShouldExtend(cfg: Config, remaining: Duration): bool {
    cfg.extendTtl.OnStateLoadsAndChanges?
    && (cfg.threshold.None? || remaining as real < cfg.ttl as real * cfg.threshold.value)
  }

  function IntegrityCheck(state: State): SyncStep {
    Stop(if state == map[] then Synced else SyncPanicked)
  }

  function SyncBegin(s: SessionData, cfg: Config): SyncStep
    requires Valid(s)
  {
    match s.server
    case Some(DoesNotExist) =>
      if !s.id.ToBeRenamed? && CreateIfEmpty(s, cfg) then Await(Create(s.id.id, map[], cfg.ttl)) else Stop(Synced)
    case None =>
      if s.id.ToBeRenamed? then Await(ChangeId(s.id.oldId, s.id.newId)) else Stop(Synced)
    case Some(Unchanged(state, remaining)) => (
      match s.id
      case Existing(id) => if ShouldExtend(cfg, remaining) then Await(UpdateTtl(id, cfg.ttl)) else Stop(Synced)
      case ToBeRenamed(oldId, newId) => Await(ChangeId(oldId, newId))
      case NewlyGenerated(id) =>
        if CreateIfEmpty(s, cfg) then Await(Create(id, map[], cfg.ttl)) else IntegrityCheck(state)
    )
    case Some(MarkedForDeletion) =>
      if s.id.Old().Some? then Await(StoreCall.Delete(s.id.Old().value)) else Stop(Synced)
    case Some(Changed(state)) => (
      match s.id
      case Existing(id) => Await(Update(id, state, cfg.ttl))
      case ToBeRenamed(oldId, _) => Await(StoreCall.Delete(oldId))
      case NewlyGenerated(id) => Await(Create(id, state, cfg.ttl))
    )
  }

  /** How sync goes on after the reply to its first call. */
  function SyncNext(s: SessionData, cfg: Config, reply: Reply): SyncStep
    requires Valid(s)
  {
    match s.server
    case Some(Unchanged(state, _)) =>
      if s.id.ToBeRenamed? && reply.UnknownId? then
        // The old record expired meanwhile, but its content is known.
        Await(Create(s.id.newId, state, cfg.ttl))
      else if reply != Done then Stop(SyncFailed(reply))
      else if s.id.NewlyGenerated? then IntegrityCheck(state)
      else Stop(Synced)
    case Some(MarkedForDeletion) =>
      Stop(if reply.Done? || reply.UnknownId? then Synced else SyncFailed(reply))
    case Some(Changed(state)) =>
      if s.id.ToBeRenamed? && (reply.Done? || reply.UnknownId?) then Await(Create(s.id.newId, state, cfg.ttl))
      else Stop(if reply.Done? then Synced else SyncFailed(reply))
    case _ => Stop(if reply.Done? then Synced else SyncFailed(reply))
  }

  function SyncLast(reply: Reply): SyncOutcome {
    if reply.Done? then Synced else SyncFailed(reply)
  }

  /** The session after a successful sync. */
  function AfterSync(s: SessionData, cfg: Config): SessionData {
    match s.server
    case Some(Changed(state)) => s.(server := Some(Unchanged(state, cfg.ttl)))
    case Some(MarkedForDeletion) => if s.invalidated then s else s.(server := Some(DoesNotExist))
    case Some(DoesNotExist) => if CreateIfEmpty(s, cfg) then s.(server := Some(Unchanged(map[], cfg.ttl))) else s
    case _ => s
  }

  /** The verdict of a sync that gets these replies. */
  function SyncVerdict(s: SessionData, cfg: Config, r1: Reply, r2: Reply): SyncOutcome
    requires Valid(s)
  {
    match SyncBegin(s, cfg)
    case Stop(outcome) => outcome
    case Await(_) =>
      match SyncNext(s, cfg, r1)
      case Stop(outcome) => outcome
      case Await(_) => SyncLast(r2)
  }

  /** A sync that fails leaves the session as it was. */
  function Settle(s: SessionData, cfg: Config, outcome: SyncOutcome): SessionData {
    if outcome.Synced? then AfterSync(s, cfg) else s
  }

  /** A whole sync against a store that nobody else changes between the two calls. */
  function SyncOn(s: SessionData, cfg: Config, m: Records, at1: Moment, at2: Moment): (SyncOutcome, SessionData,
                  Records)
    requires Valid(s)
  {
    match SyncBegin(s, cfg)
    case Stop(outcome) => (outcome, Settle(s, cfg, outcome), m)
    case Await(call1) =>
      var (r1, m1) := Exec(m, call1, at1);
      match SyncNext(s, cfg, r1)
      case Stop(outcome) => (outcome, Settle(s, cfg, outcome), m1)
      case Await(call2) =>
        var (r2, m2) := Exec(m1, call2, at2);
        (SyncLast(r2), Settle(s, cfg, SyncLast(r2)), m2)
  }

  /** The last clock reading of such a sync: the second moment only counts if there is a second call. */
  function SyncEnd(s: SessionData, cfg: Config, m: Records, at1: Moment, at2: Moment): Time
    requires Valid(s)
  {
    match SyncBegin(s, cfg)
    case Await(call) => if SyncNext(s, cfg, Exec(m, call, at1).0).Await? then at2.t2 else at1.t2
    case _ => at1.t2
  }

  // ---------------------------------------------------------------- cookies

  /** The cookie payload. Empty values are left out when it is written, and a missing field reads
      as no values. */
  datatype WireClientState = WireClientState(sessionId: SessionId, userValues: Option<State>)

  function Serialize(id: SessionId, client: State): WireClientState {
    WireClientState(id, if client == map[] then None else Some(client))
  }

  function Deserialize(w: WireClientState): IncomingSession {
    IncomingSession(w.sessionId, if w.userValues.Some? then w.userValues.value else map[])
  }

  /** A cookie value as it arrives: ours, or something that does not parse. */
  datatype CookieValue = Payload(wire: WireClientState) | Garbage

  function Extract(cookies: map<string, CookieValue>, name: string): Option<IncomingSession> {
    if name in cookies && cookies[name].Payload? then Some(Deserialize(cookies[name].wire)) else None
  }

  lemma WireRoundTrip(cookies: map<string, CookieValue>, name: string, id: SessionId, client: State)
    ensures Extract(cookies[name := Payload(Serialize(id, client))], name) == Some(IncomingSession(id, client))
    ensures Serialize(id, client).userValues == if client == map[] then None else Some(client)
  {
  }

  datatype CookieAction = NoCookie | RemovalCookie | SetCookie(wire: WireClientState)

  /** The cookie for a session that has just been synced. */
  function CookieFor(s: SessionData): CookieAction {
    if s.invalidated then
      if s.id.Old().None? then NoCookie else RemovalCookie
    else if s.client.state == map[] && s.id.Old().None? && s.server == Some(DoesNotExist) then NoCookie
    else SetCookie(Serialize(s.id.New(), s.client.state))
  }

  datatype FinalizeOutcome = Responded(cookie: CookieAction) | NotSynced(outcome: SyncOutcome)

  /** The response to a sync with this verdict, given the session it left. */
  function Conclude(outcome: SyncOutcome, s: SessionData): FinalizeOutcome {
    if outcome.Synced? then Responded(CookieFor(s)) else NotSynced(outcome)
  }
}
