/** Several tasks of one request share a session that is not loaded yet. Each of them checks the
    cell, asks the store, waits, and tries to fill the cell; the tasks are interleaved at the wait,
    and other sessions change the store meanwhile. */
module ConcurrentLoad {
  import opened SessionTypes
  import opened StoreSpec
  import opened SessionSpec

  /** A task that forces a load: before it starts, while the store works on its request, with the
      reply at hand but not resumed yet, and when it is done. */
  datatype Task = Ready | Fetching | Fetched(reply: Reply) | Read(seen: ServerState) | LoadError

  /** `writes` are the replies that made it into the cell. */
  datatype Shared = Shared(s: SessionData, tasks: seq<Task>, writes: seq<Reply>)

  /** `Answer` is the store working on a request, on whatever it holds at that moment. */
  datatype Event = Start(i: nat) | Answer(i: nat, m: Records, at: Moment) | Wake(i: nat)

  function Step(c: Shared, cfg: Config, ev: Event): Shared
    requires Valid(c.s)
  {
    if ev.i >= |c.tasks| then c else
    match (ev, c.tasks[ev.i])
    case (Start(i), Ready) =>
      c.(tasks := c.tasks[i := if LoadCall(c.s).Some? then Fetching else Read(c.s.server.value)])
    case (Answer(i, m, at), Fetching) =>
      if c.s.id.Old().None? then c
      else c.(tasks := c.tasks[i := Fetched(Exec(m, Load(c.s.id.Old().value), at).0)])
    case (Wake(i), Fetched(reply)) =>
      if !reply.Loaded? then c.(tasks := c.tasks[i := LoadError])
      else if c.s.server.Some? then
        // Somebody else was faster: this reply is discarded, and does not invalidate anything.
        c.(tasks := c.tasks[i := Read(c.s.server.value)])
      else
        var s := AfterLoad(c.s, cfg, reply);
        Shared(s, c.tasks[i := Read(s.server.value)], c.writes + [reply])
    case _ => c
  }

  function Run(c: Shared, cfg: Config, evs: seq<Event>): (r: Shared)
    requires Valid(c.s)
    ensures Valid(r.s)
    decreases |evs|
  {
    if evs == [] then c else Run(Step(c, cfg, evs[0]), cfg, evs[1..])
  }

  /** The invariant: nothing but one write separates the session from how it started, and every
      task that is done has read what is in the cell. */
  ghost predicate Coherent(c: Shared, cfg: Config, s0: SessionData) {
    && Valid(c.s) && Valid(s0)
    && |c.writes| <= 1
    && (c.writes == [] ==> c.s == s0)
    && (c.writes != [] ==> s0.server.None? && c.writes[0].Loaded? && c.s == AfterLoad(s0, cfg, c.writes[0]))
    && forall task <- c.tasks :: task.Read? ==> c.s.server == Some(task.seen)
  }

  lemma {:induction false} RunIsCoherent(c: Shared, cfg: Config, evs: seq<Event>, s0: SessionData)
    requires Coherent(c, cfg, s0)
    ensures Coherent(Run(c, cfg, evs), cfg, s0)
    decreases |evs|
  {
    if evs == [] {
    } else {
      RunIsCoherent(Step(c, cfg, evs[0]), cfg, evs[1..], s0);
    }
  }

  /** Concurrent lazy loading. For any number of tasks and any interleaving: the cell is written
      at most once; the session ends up invalidated exactly when that one write marked it for
      deletion; nothing else about the session changes; and all tasks whose load succeeded read
      the same state, the one in the cell, so that they answer every question alike. */
  lemma ConcurrentLoadsAgree(s: SessionData, n: nat, cfg: Config, evs: seq<Event>, key: string)
    requires Valid(s) && s.server.None?
    ensures var c := Run(Shared(s, seq(n, _ => Ready), []), cfg, evs);
      && |c.writes| <= 1
      && (c.writes == [] ==> c.s == s)
      && (c.s.invalidated <==> c.writes != [] && c.s.server == Some(MarkedForDeletion))
      && (c.s.invalidated <==> c.writes == [Loaded(None)] && cfg.missing == Reject)
      && c.s.id == s.id && c.s.client == s.client
      && (forall task <- c.tasks :: task.Read? ==>
           && c.writes != [] && c.s.server == Some(task.seen)
           && Apply(c.s, Get(key)).0 == Found(Lookup(ServerMap(task.seen), key)))
  {
    var c0 := Shared(s, seq(n, _ => Ready), []);
    assert forall task <- c0.tasks :: task == Ready;
    RunIsCoherent(c0, cfg, evs, s);
  }

  // ---------------------------------------------------------------- success

  /** The store is up whenever it works on a request. */
  ghost predicate NoOutage(evs: seq<Event>) {
    forall ev <- evs :: ev.Answer? ==> !ev.at.down
  }

  ghost predicate NoError(tasks: seq<Task>) {
    forall task <- tasks :: task != LoadError && (task.Fetched? ==> task.reply.Loaded?)
  }

  lemma {:induction false} NoOutageNoError(c: Shared, cfg: Config, evs: seq<Event>)
    requires Valid(c.s) && NoOutage(evs) && NoError(c.tasks)
    ensures NoError(Run(c, cfg, evs).tasks)
    decreases |evs|
  {
    if evs == [] {
    } else {
      assert evs[0] in evs;
      var c' := Step(c, cfg, evs[0]);
      forall task | task in c'.tasks
        ensures task != LoadError && (task.Fetched? ==> task.reply.Loaded?)
      {
        var j :| 0 <= j < |c'.tasks| && c'.tasks[j] == task;
        assert j < |c.tasks| && c.tasks[j] in c.tasks;
      }
      NoOutageNoError(c', cfg, evs[1..]);
    }
  }

  /** How far a task is. */
  function Stage(task: Task): nat {
    match task
    case Ready => 0
    case Fetching => 1
    case Fetched(_) => 2
    case _ => 3
  }

  /** How many of its three steps a task has taken, one after the other. */
  function StepsTaken(evs: seq<Event>, i: nat, k: nat): nat
    decreases |evs|
  {
    if evs == [] then k
    else if evs[0].i == i && match evs[0] case Start(_) => k == 0 case Answer(_, _, _) => k == 1 case Wake(_) => k == 2
    then StepsTaken(evs[1..], i, k + 1)
    else StepsTaken(evs[1..], i, k)
  }

  lemma {:induction false} StepsAreTaken(c: Shared, cfg: Config, evs: seq<Event>, i: nat, k: nat)
    requires Valid(c.s) && c.s.id.Old().Some? && i < |c.tasks| && k <= Stage(c.tasks[i])
    ensures var c' := Run(c, cfg, evs);
      |c'.tasks| == |c.tasks| && StepsTaken(evs, i, k) <= Stage(c'.tasks[i])
    decreases |evs|
  {
    if evs == [] {
    } else {
      var c' := Step(c, cfg, evs[0]);
      var taken := evs[0].i == i
        && match evs[0] case Start(_) => k == 0 case Answer(_, _, _) => k == 1 case Wake(_) => k == 2;
      StepsAreTaken(c', cfg, evs[1..], i, if taken then k + 1 else k);
    }
  }

  /** Concurrent loads succeed. While the store is up, no load fails, and every task that was started,
      answered and woken has read the state in the cell, whoever put it there. */
  lemma ConcurrentLoadsSucceed(s: SessionData, n: nat, cfg: Config, evs: seq<Event>, i: nat)
    requires Valid(s) && s.server.None? && s.id.Old().Some? && i < n && NoOutage(evs)
    ensures var c := Run(Shared(s, seq(n, _ => Ready), []), cfg, evs);
      && LoadError !in c.tasks && |c.tasks| == n
      && (StepsTaken(evs, i, 0) == 3 ==> c.s.server.Some? && c.tasks[i] == Read(c.s.server.value))
  {
    var c0 := Shared(s, seq(n, _ => Ready), []);
    assert forall task <- c0.tasks :: task == Ready;
    NoOutageNoError(c0, cfg, evs);
    RunIsCoherent(c0, cfg, evs, s);
    StepsAreTaken(c0, cfg, evs, i, 0);
    var c := Run(c0, cfg, evs);
    assert c.tasks[i] in c.tasks;
  }

  /** A reply that arrives first fills the cell; one that arrives later is dropped. Either way its task
      reads what is in the cell. A failure concerns its own task alone. */
  lemma WakeUsesOrDrops(c: Shared, cfg: Config, i: nat, reply: Reply)
    requires Valid(c.s) && i < |c.tasks| && c.tasks[i] == Fetched(reply)
    ensures var c' := Step(c, cfg, Wake(i));
      && (c'.tasks[i] == LoadError <==> !reply.Loaded?)
      && (forall j :: 0 <= j < |c.tasks| && j != i ==> c'.tasks[j] == c.tasks[j])
      && (!reply.Loaded? || c.s.server.Some? ==> c'.s == c.s)
      && (reply.Loaded? && c.s.server.None? ==> c'.s == AfterLoad(c.s, cfg, reply))
      && (reply.Loaded? ==> c'.s.server.Some? && c'.tasks[i] == Read(c'.s.server.value))
  {
  }

  /** A task that has the session to itself does what a single forced load does. */
  lemma LoneTask(s: SessionData, cfg: Config, m: Records, at: Moment)
    requires Valid(s)
    ensures var c := Run(Shared(s, [Ready], []), cfg, [Start(0), Answer(0, m, at), Wake(0)]);
      var (outcome, s') := PerformOn(s, cfg, ForceLoad, m, at);
      && c.s == s'
      && (if outcome == Finished then s'.server.Some? && c.tasks == [Read(s'.server.value)] else c.tasks == [LoadError])
  {
    var c0 := Shared(s, [Ready], []);
    var evs := [Start(0), Answer(0, m, at), Wake(0)];
    var c1 := Step(c0, cfg, evs[0]);
    var c2 := Step(c1, cfg, evs[1]);
    assert evs[1..] == [evs[1], evs[2]] && evs[1..][1..] == [evs[2]] && evs[1..][1..][1..] == [];
    assert Run(c1, cfg, evs[1..]) == Run(c2, cfg, [evs[2]]);
    assert Run(c2, cfg, [evs[2]]) == Run(Step(c2, cfg, evs[2]), cfg, []);
  }
}
