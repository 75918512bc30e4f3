/** The values that sessions, their configuration and the session store are made of. */
module SessionTypes {

  datatype Option<+T> = None | Some(value: T)

  /** A session identifier, compared but never inspected. */
  datatype SessionId = SessionId(uuid: nat)

  /** A JSON value, stored and returned but never inspected. */
  datatype Value = Json(text: string)

  /** The key-value pairs of one side (server or client) of a session. */
  type State = map<string, Value>

  function Lookup(state: State, key: string): Option<Value> {
    if key in state then Some(state[key]) else None
  }

  /** Clock readings and durations are whole nanoseconds. */
  type Time = int
  type Duration = nat

  /** The fraction of the time-to-live below which an extension is worth a store call. */
  type Ratio = r: real | 0.0 <= r <= 1.0 witness 0.8

  datatype TtlExtensionTrigger = OnStateLoadsAndChanges | OnStateChanges
  datatype ServerStateCreation = SkipIfEmpty | NeverSkip
  datatype MissingServerState = Allow | Reject

  datatype Config = Config(
    ttl: Duration,
    extendTtl: TtlExtensionTrigger,
    threshold: Option<Ratio>,
    creation: ServerStateCreation,
    missing: MissingServerState)
}
