/**
 * The server side of SocketListener.cpp as a labelled transition system: the accept loop and
 * any number of worker threads, the map of children guarded by its lock, the shutdown flag, and
 * an operating system that hands out descriptor numbers again once they are closed.
 */
module Workers {
  import opened Basics

  /** Where SocketListener::run stands. */
  datatype Loop =
    | Top          // about to test the shutdown flag
    | Selecting    // the flag was clear
    | Draining     // waiting for all children to exit
    | Returned

  /** Where a worker stands, from its constructor to its destructor. */
  datatype Phase =
    | Created      // not yet in the map of children
    | Looping      // registered, about to test the shutdown flag
    | Polling      // the flag was clear
    | InJob        // inside ServerThread::job
    | Closing      // job failed or saw the connection closed
    | Leaving      // run has returned, the destructor has not run
    | Dead
  {
    predicate Registered() { !Created? && !Dead? }
    predicate Serving() { Polling? || InJob? || Closing? }
  }

  datatype Worker = Worker(fd: nat, phase: Phase)

  /** descriptors maps the open descriptor numbers to the connections they stand for. */
  datatype State = State(
    loop: Loop, shutdown: bool, workers: seq<Worker>,
    children: map<nat, nat>, descriptors: map<nat, Option<nat>>)

  /** The process starts with some descriptors open already, among them the listening socket. */
  function Init(others: set<nat>): State {
    State(Top, false, [], map[], map fd | fd in others :: None)
  }

  datatype Step =
    | Signal                     // somebody asks for shutdown
    | TestLoop                   // run tests the flag
    | Accept(fd: nat)            // a connection is accepted and its worker created
    | AcceptLost(fd: nat)        // a connection is accepted but no thread can be started
    | Idle                       // select times out or is interrupted, or accept fails
    | SelectFails                // select fails: run asks for shutdown itself
    | Return                     // run finds no children and returns
    | Register(w: nat)           // the worker takes its descriptor number
    | Test(w: nat)               // the worker tests the flag
    | Tick(w: nat)               // its select times out or is interrupted
    | PollFails(w: nat)          // its select fails
    | EnterJob(w: nat)           // its connection is readable
    | JobDone(w: nat)            // job returns 0
    | JobOver(w: nat)            // job returns 1 or -1
    | Close(w: nat)              // the worker closes its descriptor
    | Erase(w: nat)              // its destructor runs

  predicate At(s: State, w: nat, p: Phase) { w < |s.workers| && s.workers[w].phase == p }

  predicate Enabled(s: State, step: Step) {
    match step
    case Signal => true
    case TestLoop => s.loop.Top?
    case Accept(fd) => s.loop.Selecting? && fd !in s.descriptors
    case AcceptLost(fd) => s.loop.Selecting? && fd !in s.descriptors
    case Idle => s.loop.Selecting?
    case SelectFails => s.loop.Selecting?
    case Return => s.loop.Draining? && s.children == map[]
    case Register(w) => At(s, w, Created) && s.workers[w].fd !in s.children
    case Test(w) => At(s, w, Looping)
    case Tick(w) => At(s, w, Polling)
    case PollFails(w) => At(s, w, Polling)
    case EnterJob(w) => At(s, w, Polling)
    case JobDone(w) => At(s, w, InJob)
    case JobOver(w) => At(s, w, InJob)
    case Close(w) => At(s, w, Closing)
    case Erase(w) => At(s, w, Leaving)
  }

  function Move(s: State, w: nat, p: Phase): State
    requires w < |s.workers|
  {
    s.(workers := s.workers[w := s.workers[w].(phase := p)])
  }

  function Apply(s: State, step: Step): State
    requires Enabled(s, step)
  {
    match step
    case Signal => s.(shutdown := true)
    case TestLoop => s.(loop := if s.shutdown then Draining else Selecting)
    case Accept(fd) =>
      s.(loop := Top, workers := s.workers + [Worker(fd, Created)],
         descriptors := s.descriptors[fd := Some(|s.workers|)])
    case AcceptLost(fd) => s.(loop := Top, descriptors := s.descriptors[fd := None])
    case Idle => s.(loop := Top)
    case SelectFails => s.(loop := Top, shutdown := true)
    case Return => s.(loop := Returned)
    case Register(w) => Move(s, w, Looping).(children := s.children[s.workers[w].fd := w])
    case Test(w) => Move(s, w, if s.shutdown then Leaving else Polling)
    case Tick(w) => Move(s, w, Looping)
    case PollFails(w) => Move(s, w, Leaving)
    case EnterJob(w) => Move(s, w, InJob)
    case JobDone(w) => Move(s, w, Looping)
    case JobOver(w) => Move(s, w, Closing)
    case Close(w) => Move(s, w, Leaving).(descriptors := s.descriptors - {s.workers[w].fd})
    case Erase(w) => Move(s, w, Dead).(children := s.children - {s.workers[w].fd})
  }

  // ---- The invariant ----

  ghost predicate WorkerOk(s: State, w: nat)
    requires w < |s.workers|
  {
    var fd, p := s.workers[w].fd, s.workers[w].phase;
    && (p.Registered() ==> fd in s.children && s.children[fd] == w)
    && (p.Created? || p.Looping? || p.Serving() ==> fd in s.descriptors && s.descriptors[fd] == Some(w))
    && (s.loop.Returned? ==> !p.Serving())
  }

  ghost predicate ChildOk(s: State, fd: nat) {
    && fd in s.children && s.children[fd] < |s.workers|
    && s.workers[s.children[fd]].fd == fd && s.workers[s.children[fd]].phase.Registered()
  }

  ghost predicate Inv(s: State) {
    && (forall w {:trigger WorkerOk(s, w)} | 0 <= w < |s.workers| :: WorkerOk(s, w))
    && (forall fd {:trigger ChildOk(s, fd)} | fd in s.children :: ChildOk(s, fd))
    && (s.loop.Draining? || s.loop.Returned? ==> s.shutdown)
  }

  lemma InitInv(others: set<nat>)
    ensures Inv(Init(others))
  {
  }

  lemma WorkerStep(s: State, step: Step, w: nat)
    requires Inv(s) && Enabled(s, step) && w < |Apply(s, step).workers|
    ensures WorkerOk(Apply(s, step), w)
  {
    assert w < |s.workers| ==> WorkerOk(s, w);
    if step.Erase? || step.Close? {
      assert WorkerOk(s, step.w);
    }
  }

  lemma ChildStep(s: State, step: Step, fd: nat)
    requires Inv(s) && Enabled(s, step) && fd in Apply(s, step).children
    ensures ChildOk(Apply(s, step), fd)
  {
    assert fd in s.children ==> ChildOk(s, fd);
    if step.Erase? {
      assert WorkerOk(s, step.w);
    }
  }

  /** Every step keeps the invariant. */
  lemma StepInv(s: State, step: Step)
    requires Inv(s) && Enabled(s, step)
    ensures Inv(Apply(s, step))
  {
    var t := Apply(s, step);
    forall w | 0 <= w < |t.workers|
      ensures WorkerOk(t, w)
    {
      WorkerStep(s, step, w);
    }
    forall fd | fd in t.children
      ensures ChildOk(t, fd)
    {
      ChildStep(s, step, fd);
    }
  }

  // ---- Over all runs ----

  predicate Possible(s: State, steps: seq<Step>)
    decreases |steps|
  {
    steps == [] || (Enabled(s, steps[0]) && Possible(Apply(s, steps[0]), steps[1..]))
  }

  function After(s: State, steps: seq<Step>): State
    requires Possible(s, steps)
    decreases |steps|
  {
    if steps == [] then s else After(Apply(s, steps[0]), steps[1..])
  }

  lemma {:induction false} RunInv(s: State, steps: seq<Step>)
    requires Inv(s) && Possible(s, steps)
    ensures Inv(After(s, steps))
    decreases |steps|
  {
    if steps == [] {
    } else {
      StepInv(s, steps[0]);
      RunInv(Apply(s, steps[0]), steps[1..]);
    }
  }

  ghost predicate Reachable(s: State) {
    exists others, steps {:trigger Possible(Init(others), steps)} ::
        Possible(Init(others), steps) && s == After(Init(others), steps)
  }

  lemma ReachableInv(s: State)
    requires Reachable(s)
    ensures Inv(s)
  {
    var others, steps :| Possible(Init(others), steps) && s == After(Init(others), steps);
    InitInv(others);
    RunInv(Init(others), steps);
  }

  /** Two workers never serve the same descriptor number at once. */
  lemma OneWorkerPerDescriptor(s: State, v: nat, w: nat)
    requires Reachable(s) && v < |s.workers| && w < |s.workers|
    requires s.workers[v].phase.Registered() && s.workers[w].phase.Registered() && s.workers[v].fd == s.workers[w].fd
    ensures v == w
  {
    ReachableInv(s);
    assert WorkerOk(s, v) && WorkerOk(s, w);
  }

  /** While a worker may still read, write or close its descriptor, the number stands for its own connection. */
  lemma ServesOwnConnection(s: State, w: nat)
    requires Reachable(s) && w < |s.workers|
    requires s.workers[w].phase.Created? || s.workers[w].phase.Looping? || s.workers[w].phase.Serving()
    ensures s.workers[w].fd in s.descriptors && s.descriptors[s.workers[w].fd] == Some(w)
  {
    ReachableInv(s);
    assert WorkerOk(s, w);
  }

  /** The destructor of a worker erases the registration of that worker and no other. */
  lemma EraseOwnOnly(s: State, w: nat)
    requires Reachable(s) && Enabled(s, Erase(w))
    ensures s.workers[w].fd in s.children && s.children[s.workers[w].fd] == w
    ensures forall fd | fd in s.children && s.children[fd] != w ::
              fd in Apply(s, Erase(w)).children && Apply(s, Erase(w)).children[fd] == s.children[fd]
    ensures forall fd | fd in Apply(s, Erase(w)).children :: Apply(s, Erase(w)).children[fd] != w
  {
    ReachableInv(s);
    assert WorkerOk(s, w);
    forall fd | fd in s.children
      ensures ChildOk(s, fd)
    {
    }
  }

  lemma {:induction false} RunOn(s: State, steps: seq<Step>, step: Step)
    requires Possible(s, steps) && Enabled(After(s, steps), step)
    ensures Possible(s, steps + [step]) && After(s, steps + [step]) == Apply(After(s, steps), step)
    decreases |steps|
  {
    var more := steps + [step];
    if steps == [] {
      assert more == [step] && more[1..] == [];
    } else {
      assert more[0] == steps[0] && more[1..] == steps[1..] + [step];
      RunOn(Apply(s, steps[0]), steps[1..], step);
    }
  }

  lemma ReachableNext(s: State, step: Step) returns (t: State)
    requires Reachable(s) && Enabled(s, step)
    ensures t == Apply(s, step) && Reachable(t)
  {
    t := Apply(s, step);
    var others, steps :| Possible(Init(others), steps) && s == After(Init(others), steps);
    RunOn(Init(others), steps, step);
    assert Possible(Init(others), steps + [step]);
  }

  lemma {:induction false} ReachableOn(s: State, more: seq<Step>)
    requires Reachable(s) && Possible(s, more)
    ensures Reachable(After(s, more))
    decreases |more|
  {
    if more == [] {
    } else {
      var t := ReachableNext(s, more[0]);
      ReachableOn(t, more[1..]);
    }
  }

  lemma OneWorkerInJob() returns (s: State)
    ensures Reachable(s) && s.loop.Top? && !s.shutdown && s.workers == [Worker(3, InJob)]
    ensures s.children == map[3 := 0] && s.descriptors == map[3 := Some(0)]
  {
    assert Possible(Init({}), []) && After(Init({}), []) == Init({});
    s := ReachableNext(Init({}), TestLoop);
    s := ReachableNext(s, Accept(3));
    assert s.workers == [Worker(3, Created)];
    s := ReachableNext(s, Register(0));
    s := ReachableNext(s, Test(0));
    s := ReachableNext(s, EnterJob(0));
  }

  lemma OneWorkerLeaves() returns (s: State)
    ensures Reachable(s) && s.loop.Top? && !s.shutdown && s.workers == [Worker(3, Leaving)] && 3 !in s.descriptors
  {
    s := OneWorkerInJob();
    s := ReachableNext(s, JobOver(0));
    s := ReachableNext(s, Close(0));
  }

  /**
   * The wait in ServerThread::run is needed: a number does get handed out again before its old
   * worker has deregistered.
   */
  lemma ReuseHappens() returns (s: State)
    ensures Reachable(s) && |s.workers| == 2 && s.workers[0].fd == s.workers[1].fd == 3
    ensures s.workers[0].phase.Leaving? && s.workers[1].phase.Created? && 3 in s.descriptors
            && s.descriptors[3] == Some(1)
  {
    s := OneWorkerLeaves();
    s := ReachableNext(s, TestLoop);
    s := ReachableNext(s, Accept(3));
  }

  lemma NoJobNow(s: State, step: Step)
    requires Inv(s) && s.loop.Returned? && Enabled(s, step)
    ensures !step.EnterJob? && !step.Accept? && Apply(s, step).loop.Returned?
  {
    forall w | 0 <= w < |s.workers|
      ensures !s.workers[w].phase.Serving()
    {
      assert WorkerOk(s, w);
    }
  }

  lemma {:induction false} QuietRun(s: State, steps: seq<Step>)
    requires Inv(s) && s.loop.Returned? && Possible(s, steps)
    ensures forall i | 0 <= i < |steps| :: !steps[i].EnterJob? && !steps[i].Accept?
    ensures Inv(After(s, steps)) && After(s, steps).loop.Returned?
    decreases |steps|
  {
    if steps == [] {
    } else {
      NoJobNow(s, steps[0]);
      StepInv(s, steps[0]);
      QuietRun(Apply(s, steps[0]), steps[1..]);
    }
  }

  /**
   * Shutdown safety: once run has returned no worker is inside job, and none enters it again,
   * however the threads are scheduled; this covers workers that have not registered yet.
   */
  lemma NoJobAfterReturn(s: State, steps: seq<Step>)
    requires Reachable(s) && s.loop.Returned? && Possible(s, steps)
    ensures forall i | 0 <= i < |steps| :: !steps[i].EnterJob? && !steps[i].Accept?
    ensures forall w | 0 <= w < |After(s, steps).workers| :: !After(s, steps).workers[w].phase.Serving()
  {
    ReachableInv(s);
    QuietRun(s, steps);
    var t := After(s, steps);
    forall w | 0 <= w < |t.workers|
      ensures !t.workers[w].phase.Serving()
    {
      assert WorkerOk(t, w);
    }
  }
}
