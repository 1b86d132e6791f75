/** The pool of git subprocesses: an event loop with a cap on how many run
    (cli/gitd-lib/src/processes.rs). */
module Processes {
  type Id = nat

  const MAX_IN_FLIGHT_GITS: nat := 10

  datatype Message = Data(id: Id) | Eof(id: Id) | Signal(id: Id) | Stop

  /** What the loop can be woken by: a process that ends or crashes, a request to start one, or a
      message.  `gone` says whether the receiver of the message is gone. */
  datatype Event =
    | Completed(id: Id) | Crashed(id: Id) | NoneRunning
    | Exec(id: Id) | ExecClosed
    | Incoming(message: Message, gone: bool) | IncomingClosed

  /** The ids with a sender, and the ids of the running processes. */
  datatype Pool = Pool(sends: set<Id>, running: multiset<Id>, stopping: bool)

  datatype Ending = Looping | Finished | Disappeared(id: Id) | Unwound

  datatype Status = Status(pool: Pool, ending: Ending)

  const INIT := Pool({}, multiset{}, false)

  // ---------- The steps ----------

  /** Requests are taken while the cap is not exceeded and the pool is not stopping. */
  predicate TakesRequests(p: Pool) {
    |p.running| <= MAX_IN_FLIGHT_GITS && !p.stopping
  }

  predicate Enabled(p: Pool, e: Event) {
    match e
    case Completed(id) => id in p.running
    case Crashed(id) => id in p.running
    case NoneRunning => p.running == multiset{}
    case Exec(_) => TakesRequests(p)
    case ExecClosed => TakesRequests(p)
    case Incoming(_, _) => true
    case IncomingClosed => true
  }

  function Next(p: Pool, e: Event): Pool {
    match e
    case Completed(id) => p.(sends := p.sends - {id}, running := p.running - multiset{id})
    case Exec(id) => p.(sends := p.sends + {id}, running := p.running + multiset{id})
    case Incoming(Stop, _) => p.(stopping := true)
    case _ => p
  }

  function EndingOf(p: Pool, e: Event): Ending {
    match e
    case Crashed(_) => Unwound
    case Incoming(Data(id), gone) => if gone && id in p.sends then Disappeared(id) else Settled(p)
    case _ => Settled(Next(p, e))
  }

  /** The test at the head of the loop. */
  function Settled(p: Pool): Ending {
    if p.stopping && p.running == multiset{} then Finished else Looping
  }

  function Step(p: Pool, e: Event): Status {
    if Enabled(p, e) then Status(Next(p, e), EndingOf(p, e)) else Status(p, Looping)
  }

  /** The status after a run of the loop on events, from the beginning. */
  function After(start: Pool, events: seq<Event>): Status {
    if events == [] then Status(start, Looping) else
      var s := After(start, events[..|events| - 1]);
      if s.ending != Looping then s else Step(s.pool, events[|events| - 1])
  }

  // ---------- The loop ----------

  class Processes {
    var sends: set<Id>
    var running: multiset<Id>
    var stopping: bool

    ghost function View(): Pool
      reads this
    {
      Pool(sends, running, stopping)
    }

    constructor ()
      ensures View() == INIT
    {
      sends, running, stopping := {}, multiset{}, false;
    }

    method ExecGit(id: Id)
      modifies this
      ensures View() == Next(old(View()), Exec(id))
    {
      running := running + multiset{id};
      sends := sends + {id};
    }

    method HandleCompleted(e: Event) returns (r: Ending)
      requires e.Completed? || e.Crashed? || e.NoneRunning?
      modifies this
      ensures View() == Next(old(View()), e)
      ensures r == if e.Crashed? then Unwound else Looping
    {
      match e {
        case Completed(id) =>
          running := running - multiset{id};
          sends := sends - {id};
          return Looping;
        case Crashed(_) => return Unwound;
        case NoneRunning => return Looping;
      }
    }

    method HandleIncoming(message: Message, gone: bool) returns (r: Ending)
      modifies this
      ensures View() == Next(old(View()), Incoming(message, gone))
      ensures r == if message.Data? && gone && message.id in old(sends) then Disappeared(message.id) else Looping
    {
      match message {
        case Data(id) =>
          if id in sends && gone { return Disappeared(id); }
        case Eof(_) =>
        case Signal(_) =>
        case Stop => stopping := true;
      }
      return Looping;
    }

    /** One turn of the loop, and the test at its head. */
    method Handle(e: Event) returns (r: Ending)
      requires Settled(View()) == Looping
      modifies this
      ensures Status(View(), r) == Step(old(View()), e)
    {
      var takesRequests := !(|running| > MAX_IN_FLIGHT_GITS || stopping);
      r := Looping;
      match e {
        case Completed(id) => if id in running { r := HandleCompleted(e); }
        case Crashed(id) => if id in running { r := HandleCompleted(e); }
        case NoneRunning => if running == multiset{} { r := HandleCompleted(e); }
        case Exec(id) => if takesRequests { ExecGit(id); }
        case ExecClosed =>
        case Incoming(message, gone) => r := HandleIncoming(message, gone);
        case IncomingClosed =>
      }
      if r == Looping && stopping && running == multiset{} { r := Finished; }
    }

    /** The event loop, on the events that occur; one that cannot be taken is not. */
    method Run(events: seq<Event>) returns (r: Ending)
      requires !stopping
      modifies this
      ensures Status(View(), r) == After(old(View()), events)
    {
      ghost var start := View();
      for i := 0 to |events|
        invariant After(start, events[..i]) == Status(View(), Looping) && Settled(View()) == Looping
      {
        assert events[..i + 1][..i] == events[..i];
        r := Handle(events[i]);
        if r != Looping {
          Ended(start, events, i + 1);
          return;
        }
      }
      assert events[..|events|] == events;
      r := Looping;
    }
  }

  /** Nothing happens after the end. */
  lemma {:induction false} Ended(start: Pool, events: seq<Event>, i: nat)
    requires i <= |events| && After(start, events[..i]).ending != Looping
    ensures After(start, events) == After(start, events[..i])
  {
    if i < |events| {
      var rest := events[..|events| - 1];
      assert rest[..i] == events[..i];
      Ended(start, rest, i);
    } else {
      assert events[..i] == events;
    }
  }

  // ---------- What every run keeps ----------

  ghost predicate WithinCap(p: Pool) {
    |p.running| <= MAX_IN_FLIGHT_GITS + 1
  }

  /** Only running processes have a sender. */
  ghost predicate SendersRun(p: Pool) {
    forall id :: id in p.sends ==> id in p.running
  }

  /** Each running process has an id of its own, and a sender. */
  ghost predicate OneSenderEach(p: Pool) {
    (forall id :: id in p.sends <==> id in p.running) && forall id :: p.running[id] <= 1
  }

  lemma StepKeepsCap(p: Pool, e: Event)
    requires WithinCap(p)
    ensures WithinCap(Step(p, e).pool)
  {
  }

  /** At most one process more than the cap ever runs. */
  lemma {:induction false} RunsWithinCap(events: seq<Event>)
    ensures WithinCap(After(INIT, events).pool)
  {
    if events != [] {
      RunsWithinCap(events[..|events| - 1]);
      var s := After(INIT, events[..|events| - 1]);
      if s.ending == Looping { StepKeepsCap(s.pool, events[|events| - 1]); }
    }
  }

  /** Whatever the ids, only running processes have a sender. */
  lemma {:induction false} SendersAlwaysRun(events: seq<Event>)
    ensures SendersRun(After(INIT, events).pool)
  {
    if events != [] {
      SendersAlwaysRun(events[..|events| - 1]);
      var s := After(INIT, events[..|events| - 1]);
      if s.ending == Looping { StepKeepsSendersRun(s.pool, events[|events| - 1]); }
    }
  }

  lemma StepKeepsSendersRun(p: Pool, e: Event)
    requires SendersRun(p)
    ensures SendersRun(Step(p, e).pool)
  {
  }

  /** The event at `i` starts a process. */
  ghost predicate Starts(start: Pool, events: seq<Event>, i: int) {
    && 0 <= i < |events| && events[i].Exec?
    && After(start, events[..i]).ending == Looping && TakesRequests(After(start, events[..i]).pool)
  }

  /** No id is started while a process with that id runs. */
  ghost predicate NoReuse(start: Pool, events: seq<Event>) {
    forall i {:trigger Starts(start, events, i)} | Starts(start, events, i) ::
      events[i].id !in After(start, events[..i]).pool.running
  }

  /** At every moment of the run each running process has an id of its own, and a sender. */
  ghost predicate SendersThroughout(start: Pool, events: seq<Event>) {
    forall n {:trigger events[..n]} | 0 <= n <= |events| :: OneSenderEach(After(start, events[..n]).pool)
  }

  lemma AfterStep(start: Pool, events: seq<Event>, n: nat)
    requires n < |events|
    ensures After(start, events[..n + 1])
            == var s := After(start, events[..n]); if s.ending != Looping then s else Step(s.pool, events[n])
  {
    assert events[..n + 1][..n] == events[..n];
  }

  lemma StepKeepsSenders(p: Pool, e: Event)
    requires OneSenderEach(p) && (e.Exec? && TakesRequests(p) ==> e.id !in p.running)
    ensures OneSenderEach(Step(p, e).pool)
  {
  }

  lemma {:induction false} PrefixSenders(events: seq<Event>, n: nat)
    requires n <= |events| && NoReuse(INIT, events)
    ensures OneSenderEach(After(INIT, events[..n]).pool)
  {
    if n > 0 {
      PrefixSenders(events, n - 1);
      AfterStep(INIT, events, n - 1);
      var s := After(INIT, events[..n - 1]);
      if s.ending == Looping {
        assert events[n - 1].Exec? && TakesRequests(s.pool) ==> Starts(INIT, events, n - 1);
        StepKeepsSenders(s.pool, events[n - 1]);
      }
    }
  }

  lemma ReuseDoubles(events: seq<Event>, i: nat)
    requires Starts(INIT, events, i) && events[i].id in After(INIT, events[..i]).pool.running
    ensures !OneSenderEach(After(INIT, events[..i + 1]).pool)
  {
    AfterStep(INIT, events, i);
    assert After(INIT, events[..i + 1]).pool.running[events[i].id] >= 2;
  }

  /** The ids with a sender are those of the running processes, one each and all along the run, if
      and only if no id is started while it is in use. */
  lemma SendersIffNoReuse(events: seq<Event>)
    ensures SendersThroughout(INIT, events) <==> NoReuse(INIT, events)
  {
    if NoReuse(INIT, events) {
      forall n | 0 <= n <= |events| ensures OneSenderEach(After(INIT, events[..n]).pool) { PrefixSenders(events, n); }
    }
    if SendersThroughout(INIT, events) {
      forall i | Starts(INIT, events, i)
        ensures events[i].id !in After(INIT, events[..i]).pool.running
      {
        if events[i].id in After(INIT, events[..i]).pool.running { ReuseDoubles(events, i); }
      }
    }
  }

  /** A process whose id is started again loses its sender to the end of the other. */
  lemma ReuseLosesSender(p: Pool, id: Id)
    requires TakesRequests(p) && id in p.running
    ensures var q := Step(Step(p, Exec(id)).pool, Completed(id)).pool; id in q.running && id !in q.sends
  {
  }

  /** The run ends well only when it was told to stop and nothing runs any more. */
  lemma {:induction false} FinishedMeans(events: seq<Event>)
    requires After(INIT, events).ending == Finished
    ensures After(INIT, events).pool.stopping && After(INIT, events).pool.running == multiset{}
  {
    var s := After(INIT, events[..|events| - 1]);
    if s.ending != Looping { FinishedMeans(events[..|events| - 1]); }
  }

  // ---------- After the stop ----------

  lemma StoppingStep(p: Pool, e: Event)
    requires p.stopping
    ensures Step(p, e).pool.stopping && Step(p, e).pool.running <= p.running
    ensures |Step(p, e).pool.running| == |p.running| - if e.Completed? && e.id in p.running then 1 else 0
  {
  }

  /** Nothing is started once the pool is stopping. */
  lemma {:induction false} NothingStarts(start: Pool, before: seq<Event>, later: seq<Event>)
    requires After(start, before).pool.stopping
    ensures After(start, before + later).pool.stopping
    ensures After(start, before + later).pool.running <= After(start, before).pool.running
  {
    if later == [] {
      assert before + later == before;
    } else {
      var all := before + later;
      assert all[..|all| - 1] == before + later[..|later| - 1];
      NothingStarts(start, before, later[..|later| - 1]);
      var s := After(start, all[..|all| - 1]);
      if s.ending == Looping {
        StoppingStep(s.pool, all[|all| - 1]);
        AtMostTransitive(Step(s.pool, all[|all| - 1]).pool.running, s.pool.running, After(start, before).pool.running);
      }
    }
  }

  lemma AtMostTransitive(a: multiset<Id>, b: multiset<Id>, c: multiset<Id>)
    requires a <= b <= c
    ensures a <= c
  {
  }

  /** Every event taken: the completion of a running process. */
  ghost predicate AllEnd(p: Pool, events: seq<Event>) {
    forall i | 0 <= i < |events| :: events[i].Completed? && events[i].id in After(p, events[..i]).pool.running
  }

  /** A stopping pool has come to its end when as many processes have ended as were running. */
  lemma {:induction false} StoppingEnds(p: Pool, events: seq<Event>)
    requires p.stopping && AllEnd(p, events)
    ensures |After(p, events).pool.running| == |p.running| - |events| && After(p, events).pool.stopping
    ensures After(p, events).ending == if events != [] && |events| == |p.running| then Finished else Looping
  {
    if events != [] {
      var n := |events| - 1;
      var rest := events[..n];
      AllEndPrefix(p, events);
      StoppingEnds(p, rest);
      assert events[n].id in After(p, rest).pool.running;
      StoppingStep(After(p, rest).pool, events[n]);
      EndingStep(After(p, rest).pool, events[n]);
    }
  }

  lemma AllEndPrefix(p: Pool, events: seq<Event>)
    requires events != [] && AllEnd(p, events)
    ensures AllEnd(p, events[..|events| - 1])
  {
    var rest := events[..|events| - 1];
    forall i | 0 <= i < |rest|
      ensures rest[i].Completed? && rest[i].id in After(p, rest[..i]).pool.running
    {
      assert rest[..i] == events[..i];
    }
  }

  lemma EndingStep(p: Pool, e: Event)
    requires p.stopping && e.Completed? && e.id in p.running
    ensures Step(p, e).ending == if |p.running| == 1 then Finished else Looping
  {
    var q := Step(p, e).pool;
    assert |q.running| == |p.running| - 1;
    assert q.running == multiset{} <==> |q.running| == 0;
  }

  // ---------- The cap is reached ----------

  /** Requests for `n` processes with ids of their own. */
  function Requests(n: nat): seq<Event> {
    seq(n, i requires 0 <= i < n => Exec(i))
  }

  /** One more than the cap can run. */
  lemma {:induction false} CapReached(n: nat)
    requires n <= MAX_IN_FLIGHT_GITS + 1
    ensures |After(INIT, Requests(n)).pool.running| == n
    ensures After(INIT, Requests(n)).ending == Looping && !After(INIT, Requests(n)).pool.stopping
  {
    if n == 0 {
      assert Requests(n) == [];
    } else {
      CapReached(n - 1);
      assert Requests(n)[..n - 1] == Requests(n - 1);
    }
  }
}
