/** A future that drives the tasks of a stream (link-async/src/tasks.rs). */
module Tasks {
  type Task = nat
  type Failure = nat

  // ---------- The stream of tasks ----------

  datatype Event = Item(task: Task) | End | NotReady

  /** A stream answers polls from a script; its items are counted. */
  class Stream {
    var script: seq<Event>
    ghost var polls: nat
    ghost var yielded: seq<Task>
    ghost var last: Event

    constructor (events: seq<Event>)
      ensures script == events && polls == 0 && yielded == []
    {
      script, polls, yielded, last := events, 0, [], NotReady;
    }

    method PollNext() returns (e: Event)
      modifies this
      ensures e == if old(script) == [] then NotReady else old(script)[0]
      ensures script == if old(script) == [] then [] else old(script)[1..]
      ensures polls == old(polls) + 1 && last == e
      ensures yielded == if e.Item? then old(yielded) + [e.task] else old(yielded)
    {
      e := NotReady;
      if script != [] { e, script := script[0], script[1..]; }
      polls, last := polls + 1, e;
      if e.Item? { yielded := yielded + [e.task]; }
    }
  }

  // ---------- The tasks ----------

  /** How a task ends: with a value, with an error, cancelled, or in a panic. */
  datatype Ending = Value | Error(failure: Failure) | Cancelled | Panic

  /** One of the tasks that are ready when the ongoing ones are polled. */
  datatype Completion = Completion(task: Task, ending: Ending)

  datatype State =
    | Servicing(ongoing: multiset<Task>, finishing: bool)
    | Idle(timeout: bool)
    | Dead

  datatype Poll = Pending | Done | Failed(failure: Failure, remaining: multiset<Task>) | Unwound

  /** What a poll meets: which tasks are ready, in order, and whether the idle time is over. */
  datatype Context = Context(ready: seq<Completion>, timeUp: bool)

  /** What is left of `o` when those that are ready are taken away. */
  ghost function Remaining(o: multiset<Task>, ready: seq<Completion>): multiset<Task> {
    if ready == [] then o else Remaining(o, ready[..|ready| - 1]) - multiset{ready[|ready| - 1].task}
  }

  lemma {:induction false} NoneRemaining(o: multiset<Task>, ready: seq<Completion>)
    requires o == multiset{}
    ensures Remaining(o, ready) == multiset{}
  {
    if ready != [] { NoneRemaining(o, ready[..|ready| - 1]); }
  }

  lemma NothingCame(y: seq<Task>, o: multiset<Task>)
    ensures o + multiset(y[|y|..]) == o
  {
    assert y[|y|..] == [];
  }

  lemma RemainingStep(o: multiset<Task>, ready: seq<Completion>, i: nat)
    requires i < |ready|
    ensures var before, t := Remaining(o, ready[..i]), ready[i].task;
            Remaining(o, ready[..i + 1]) == if t in before then before - multiset{t} else before
  {
    assert ready[..i + 1][..i] == ready[..i];
  }

  lemma MoveOne(f: multiset<Task>, o: multiset<Task>, h: multiset<Task>, t: Task)
    requires t in o
    ensures f + o + h == (f + multiset{t}) + (o - multiset{t}) + h
  {
  }

  lemma HandBack(f: multiset<Task>, o: multiset<Task>, h: multiset<Task>)
    ensures f + o + h == f + multiset{} + (h + o)
  {
  }

  class TaskRunner {
    const stream: Stream
    const idleTimeout: bool
    const returnOnError: bool
    var state: State
    ghost var finished: multiset<Task>
    ghost var handedBack: multiset<Task>

    /** Every task the stream ever yielded is finished, ongoing, or was handed back. */
    ghost predicate Valid()
      reads this, stream
    {
      multiset(stream.yielded) == finished + Outstanding() + handedBack
    }

    ghost function Outstanding(): multiset<Task>
      reads this
    {
      if state.Servicing? then state.ongoing else multiset{}
    }

    predicate Listening()
      reads this
    {
      state.Idle? || (state.Servicing? && !state.finishing)
    }

    constructor (s: Stream, timeout: bool, onError: bool)
      requires s.yielded == []
      ensures Valid() && stream == s && idleTimeout == timeout && returnOnError == onError && state == Idle(timeout)
      ensures finished == handedBack == multiset{}
    {
      stream, idleTimeout, returnOnError := s, timeout, onError;
      state, finished, handedBack := Idle(timeout), multiset{}, multiset{};
    }

    /** Takes from the stream what it has, up to its end. */
    method Pull() returns (tasks: seq<Task>, finish: bool)
      modifies stream
      ensures stream.yielded == old(stream.yielded) + tasks
      ensures stream.polls > old(stream.polls)
      ensures finish <==> stream.last == End
    {
      tasks, finish := [], false;
      var e := stream.PollNext();
      while e.Item?
        invariant e == stream.last && stream.polls > old(stream.polls)
        invariant stream.yielded == old(stream.yielded) + tasks + if e.Item? then [e.task] else []
        decreases |stream.script|, if e.Item? then 1 else 0
      {
        tasks := tasks + [e.task];
        e := stream.PollNext();
      }
      finish := e.End?;
    }

    /** Looks for new tasks.  The end of the stream is recorded where there are tasks to finish,
        and forgotten otherwise. */
    method TakeNew()
      requires Valid() && Listening()
      modifies this`state, stream
      ensures Valid() && (state.Servicing? || state == old(state))
      ensures old(state.Servicing?) ==> state.Servicing?
      ensures state.Servicing? ==> (state.finishing <==> stream.last == End)
      ensures state.Idle? <==> old(state.Idle?) && stream.yielded == old(stream.yielded)
      ensures |stream.yielded| >= |old(stream.yielded)|
      ensures Outstanding() == old(Outstanding()) + multiset(stream.yielded[|old(stream.yielded)|..])
    {
      var tasks, finish := Pull();
      assert stream.yielded[|old(stream.yielded)|..] == tasks;
      if state.Servicing? {
        state := Servicing(state.ongoing + multiset(tasks), finish);
      } else if tasks != [] {
        state := Servicing(multiset(tasks), finish);
      }
    }

    /** Takes the result of a task that is ready. */
    method Complete(c: Completion) returns (r: Poll)
      requires Valid() && state.Servicing? && c.task in state.ongoing
      modifies this`state, this`finished, this`handedBack
      ensures Valid() && state.Servicing? && state.finishing == old(state.finishing)
      ensures finished == old(finished) + multiset{c.task}
      ensures !r.Failed? ==> state.ongoing == old(state.ongoing) - multiset{c.task}
      ensures r.Unwound? <==> c.ending == Panic
      ensures r.Failed? ==> c.ending == Error(r.failure)
      ensures r.Pending? || r.Failed? || r.Unwound?
      ensures r.Failed? <==> returnOnError && c.ending.Error?
      ensures r.Failed? ==> state.ongoing == multiset{} && handedBack == old(handedBack) + r.remaining
      ensures !r.Failed? ==> handedBack == old(handedBack)
    {
      MoveOne(finished, state.ongoing, handedBack, c.task);
      state := state.(ongoing := state.ongoing - multiset{c.task});
      finished := finished + multiset{c.task};
      match c.ending {
        case Panic => return Unwound;
        case Error(failure) =>
          if returnOnError {
            var remaining := state.ongoing;
            HandBack(finished, remaining, handedBack);
            handedBack := handedBack + remaining;
            state := state.(ongoing := multiset{});
            return Failed(failure, remaining);
          }
        case _ =>
      }
      return Pending;
    }

    /** Takes the results of the tasks that are ready, until one fails and failures are returned. */
    method Service(ready: seq<Completion>) returns (r: Poll)
      requires Valid() && state.Servicing?
      modifies this`state, this`finished, this`handedBack
      ensures Valid() && state.Servicing? && state.finishing == old(state.finishing)
      ensures r.Pending? || r.Failed? || r.Unwound?
      ensures r.Failed? ==> returnOnError && state.ongoing == multiset{} && handedBack == old(handedBack) + r.remaining
      ensures !r.Failed? ==> handedBack == old(handedBack)
      ensures r.Pending? ==> state.ongoing == Remaining(old(state.ongoing), ready)
      ensures r.Failed? ==> exists i :: 0 <= i < |ready| && ready[i].ending == Error(r.failure)
    {
      r := Pending;
      for i := 0 to |ready|
        invariant Valid() && state.Servicing? && state.finishing == old(state.finishing)
        invariant handedBack == old(handedBack) && r == Pending
        invariant state.ongoing == Remaining(old(state.ongoing), ready[..i])
      {
        RemainingStep(old(state.ongoing), ready, i);
        if ready[i].task in state.ongoing {
          r := Complete(ready[i]);
          if !r.Pending? { return; }
        }
      }
      assert ready[..|ready|] == ready;
    }

    /** Serves the ongoing tasks, or waits for the idle time to pass. */
    method Advance(cx: Context) returns (r: Poll)
      requires Valid()
      modifies this`state, this`finished, this`handedBack
      ensures Valid()
      ensures r == Done ==> state == Dead
      ensures r == Done <== old(state) == Dead || (old(state) == Idle(true) && cx.timeUp)
      ensures r == Done ==>
                || old(state) == Dead || (old(state) == Idle(true) && cx.timeUp)
                || (old(state.Servicing?) && old(state.finishing))
      ensures !old(Listening()) ==> !Listening()
      ensures r.Pending? || r.Done? ==> Outstanding() == Remaining(old(Outstanding()), cx.ready)
      ensures r.Pending? ==> state.Idle? || (state.Servicing? && state.ongoing != multiset{})
      ensures r.Failed? ==> returnOnError && Outstanding() == multiset{} && handedBack == old(handedBack) + r.remaining
      ensures !r.Failed? ==> handedBack == old(handedBack)
    {
      match state {
        case Servicing(_, _) =>
          r := Service(cx.ready);
          if r.Pending? && state.ongoing == multiset{} {
            if state.finishing {
              state := Dead;
              r := Done;
            } else {
              state := Idle(idleTimeout);
            }
          }
        case Idle(timeout) =>
          r := Pending;
          NoneRemaining(Outstanding(), cx.ready);
          if timeout && cx.timeUp {
            state := Dead;
            r := Done;
          }
        case Dead =>
          r := Done;
          NoneRemaining(Outstanding(), cx.ready);
      }
    }

    method PollOnce(cx: Context) returns (r: Poll)
      requires Valid()
      modifies this`state, this`finished, this`handedBack, stream
      ensures Valid() && |stream.yielded| >= |old(stream.yielded)|
      // Done is reported only when nothing is outstanding, and then forever.
      ensures r == Done ==> state == Dead && Outstanding() == multiset{}
      ensures old(state) == Dead ==> r == Done
      ensures old(state) == Idle(true) && cx.timeUp && stream.yielded == old(stream.yielded) ==> r == Done
      // A stream is not polled again once it is known to have ended.
      ensures !old(Listening()) ==>
                stream.polls == old(stream.polls) && stream.yielded == old(stream.yielded) && !Listening()
      // What is outstanding afterwards is what was, and what came in, less what was ready.
      ensures r.Pending? || r.Done? ==>
                Outstanding()
                  == Remaining(old(Outstanding()) + multiset(stream.yielded[|old(stream.yielded)|..]), cx.ready)
      ensures r.Pending? ==> state.Idle? || (state.Servicing? && state.ongoing != multiset{})
      // An error hands back exactly what was still ongoing.
      ensures r.Failed? ==> returnOnError && Outstanding() == multiset{} && handedBack == old(handedBack) + r.remaining
      ensures !r.Failed? ==> handedBack == old(handedBack)
    {
      if state.Idle? || (state.Servicing? && !state.finishing) {
        TakeNew();
      } else {
        NothingCame(stream.yielded, Outstanding());
      }
      r := Advance(cx);
    }

    /** Polls until there is a result, as an executor does. */
    method Run(polls: seq<Context>) returns (r: Poll)
      requires Valid() && handedBack == multiset{}
      modifies this`state, this`finished, this`handedBack, stream
      ensures Valid()
      // Once done, every task that was ever taken from the stream is finished.
      ensures r == Done ==> multiset(stream.yielded) == finished
      // On an error those that are not finished are handed back.
      ensures r.Failed? ==> multiset(stream.yielded) == finished + r.remaining
      ensures r == Pending ==> multiset(stream.yielded) == finished + Outstanding()
    {
      r := Pending;
      for i := 0 to |polls|
        invariant Valid() && r == Pending && handedBack == multiset{}
      {
        r := PollOnce(polls[i]);
        if !r.Pending? { return; }
      }
    }
  }
}
