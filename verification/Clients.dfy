/** A browser and the requests it makes: a reactive process that talks to the session store one call
    at a time. Each request opens a session from the cookie jar, performs operations and closes
    the session; the cookie of the response goes back into the jar. */
module Clients {
  import opened SessionTypes
  import opened StoreSpec
  import opened SessionSpec

  datatype Action = Open(generated: SessionId) | Do(op: Op) | Close

  /** `Midway` is a session that waits for the second store call of its final sync. */
  datatype Phase = Idle | Busy(s: SessionData) | Midway(s: SessionData, call: StoreCall)

  datatype Client = Client(jar: Option<WireClientState>, phase: Phase, script: seq<Action>)

  /** What comes of each action. `Failed` is a response without a session, because the final sync
      failed; it was torn if the old record was already given up. `Skipped` is an action that makes
      no sense at this point. */
  datatype Obs = Opened | Did(outcome: Outcome) | Closed(cookie: CookieAction) | Failed(torn: bool) | Skipped

  ghost predicate ValidClient(c: Client) {
    match c.phase
    case Idle => true
    case Busy(s) => Valid(s)
    case Midway(s, call) =>
      && Valid(s) && c.script != [] && c.script[0].Close?
      && s.id.ToBeRenamed? && call.Create? && call.id == s.id.newId
  }

  const COOKIE_NAME := "id"

  function Request(jar: Option<WireClientState>): map<string, CookieValue> {
    if jar.Some? then map[COOKIE_NAME := Payload(jar.value)] else map[]
  }

  function Deliver(jar: Option<WireClientState>, cookie: CookieAction): Option<WireClientState> {
    match cookie
    case NoCookie => jar
    case RemovalCookie => None
    case SetCookie(wire) => Some(wire)
  }

  /** The next store call of the client, if its next step makes one. */
  function Pending(c: Client, cfg: Config): Option<StoreCall>
    requires ValidClient(c)
  {
    if c.script == [] then None else
    match c.phase
    case Idle => None
    case Midway(_, call) => Some(call)
    case Busy(s) =>
      match c.script[0]
      case Open(_) => None
      case Do(op) => OpCall(s, op)
      case Close => if SyncBegin(s, cfg).Await? then Some(SyncBegin(s, cfg).call) else None
  }

  function Finish(c: Client, cfg: Config, s: SessionData, outcome: SyncOutcome): (Client, seq<Obs>)
    requires c.script != []
  {
    match Conclude(outcome, Settle(s, cfg, outcome))
    case Responded(cookie) => (Client(Deliver(c.jar, cookie), Idle, c.script[1..]), [Closed(cookie)])
    case NotSynced(_) => (Client(c.jar, Idle, c.script[1..]), [Failed(c.phase.Midway?)])
  }

  /** How the client goes on, given the reply to that call. A panic ends the request. */
  function Resume(c: Client, cfg: Config, reply: Reply): (r: (Client, seq<Obs>))
    requires ValidClient(c)
    ensures ValidClient(r.0) && |r.1| <= 1 && |r.1| <= |c.script|
    ensures r.0.script == c.script[|r.1|..]
  {
    if c.script == [] then (c, []) else
    var rest := c.script[1..];
    match c.phase
    case Idle =>
      if c.script[0].Open? then
        (Client(c.jar, Busy(NewSession(Extract(Request(c.jar), COOKIE_NAME), c.script[0].generated)), rest), [Opened])
      else (c.(script := rest), [Skipped])
    case Midway(s, _) => Finish(c, cfg, s, SyncLast(reply))
    case Busy(s) =>
      match c.script[0]
      case Open(_) => (c.(script := rest), [Skipped])
      case Do(op) =>
        var (outcome, s') := Perform(s, cfg, op, reply);
        (Client(c.jar, if outcome == Panicked then Idle else Busy(s'), rest), [Did(outcome)])
      case Close =>
        match SyncBegin(s, cfg)
        case Stop(outcome) => Finish(c, cfg, s, outcome)
        case Await(_) =>
          match SyncNext(s, cfg, reply)
          case Stop(outcome) => Finish(c, cfg, s, outcome)
          case Await(call) => (c.(phase := Midway(s, call)), [])
  }

  function Step(c: Client, cfg: Config, m: Records, at: Moment): (Client, Records, seq<Obs>)
    requires ValidClient(c)
  {
    var (reply, m') := Ask(m, Pending(c, cfg), at);
    var (c', obs) := Resume(c, cfg, reply);
    (c', m', obs)
  }

  function Run(c: Client, cfg: Config, m: Records, ats: seq<Moment>): (Client, Records, seq<Obs>)
    requires ValidClient(c)
    decreases |ats|
  {
    if ats == [] then (c, m, []) else
    var (c', m', obs) := Step(c, cfg, m, ats[0]);
    var (last, store, more) := Run(c', cfg, m', ats[1..]);
    (last, store, obs + more)
  }

  // ---------------------------------------------------------------- circumstances

  function JarId(jar: Option<WireClientState>): Option<SessionId> {
    if jar.Some? then Some(jar.value.sessionId) else None
  }

  /** The identifier that the next action generates, if it does. */
  function Generates(c: Client): Option<SessionId> {
    if c.script == [] then None else
    match c.script[0]
    case Open(g) => if c.jar.None? then Some(g) else None
    case Do(CycleId(g)) => Some(g)
    case _ => None
  }

  /** Time moves forward, the client's record does not expire meanwhile, and a generated identifier
      is either the old one or not visible in the store. */
  ghost predicate Smooth(c: Client, m: Records, t: Time, at: Moment) {
    && at.After(t)
    && (c.jar.Some? && IsFresh(m, c.jar.value.sessionId, t) ==> IsFresh(m, c.jar.value.sessionId, at.t2))
    && (Generates(c).Some? && Generates(c) != JarId(c.jar) ==> !IsFresh(m, Generates(c).value, at.t2))
  }

  ghost predicate AllSmooth(c: Client, cfg: Config, m: Records, t: Time, ats: seq<Moment>)
    requires ValidClient(c)
    decreases |ats|
  {
    ats == [] ||
    (&& Smooth(c, m, t, ats[0])
     && var (c', m', _) := Step(c, cfg, m, ats[0]);
        AllSmooth(c', cfg, m', ats[0].t2, ats[1..]))
  }
}
