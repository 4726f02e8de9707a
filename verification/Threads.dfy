/**
 * The code of SocketListener.cpp that starts, runs and ends worker threads, each method shown to
 * take only steps of the transition system in Workers.dfy.
 *
 * world is the state of all threads and descriptors. Before each of its own actions a thread lets
 * the others run for as long as they like. Loops that wait or serve without an end are followed
 * for any given number of rounds.
 */
module Threads {
  import opened Basics
  import opened Workers

  /** The worker that takes a step, if one does. */
  function Actor(step: Step): Option<nat> {
    match step
    case Register(w) => Some(w)
    case Test(w) => Some(w)
    case Tick(w) => Some(w)
    case PollFails(w) => Some(w)
    case EnterJob(w) => Some(w)
    case JobDone(w) => Some(w)
    case JobOver(w) => Some(w)
    case Close(w) => Some(w)
    case Erase(w) => Some(w)
    case _ => None
  }

  /** The steps of SocketListener::run. */
  predicate ByLoop(step: Step) {
    step.TestLoop? || step.Accept? || step.AcceptLost? || step.Idle? || step.SelectFails? || step.Return?
  }

  predicate Spares(steps: seq<Step>, w: nat) {
    forall i | 0 <= i < |steps| :: Actor(steps[i]) != Some(w)
  }

  predicate SparesLoop(steps: seq<Step>) {
    forall i | 0 <= i < |steps| :: !ByLoop(steps[i])
  }

  lemma {:induction false} RunSpares(s: State, steps: seq<Step>, w: nat)
    requires Possible(s, steps) && w < |s.workers| && Spares(steps, w)
    ensures w < |After(s, steps).workers| && After(s, steps).workers[w] == s.workers[w]
    ensures s.shutdown ==> After(s, steps).shutdown
    decreases |steps|
  {
    if steps == [] {
    } else {
      assert Actor(steps[0]) != Some(w);
      RunSpares(Apply(s, steps[0]), steps[1..], w);
    }
  }

  lemma {:induction false} RunSparesLoop(s: State, steps: seq<Step>)
    requires Possible(s, steps) && SparesLoop(steps)
    ensures After(s, steps).loop == s.loop && |After(s, steps).workers| == |s.workers|
    ensures s.shutdown ==> After(s, steps).shutdown
    decreases |steps|
  {
    if steps == [] {
    } else {
      assert !ByLoop(steps[0]);
      RunSparesLoop(Apply(s, steps[0]), steps[1..]);
    }
  }

  /** What a worker's select reports, and the result of job if it is called. */
  datatype Poll = Timeout | Interrupted | SelectError | Readable(result: int)

  /** The worker goes on: only a failing select and a job that does not return 0 end it. */
  predicate GoesOn(poll: Poll) {
    !poll.SelectError? && (poll.Readable? ==> poll.result == 0)
  }

  /** How many of the reports lead to a job. */
  function Jobs(polls: seq<Poll>): nat {
    if polls == [] then 0 else Jobs(polls[..|polls| - 1]) + if polls[|polls| - 1].Readable? then 1 else 0
  }

  /** Whether the worker of an accepted connection could be created, and what was thrown if not. */
  datatype Start = Started | Exception | UnknownError

  /** What the select of the accept loop reports, and what becomes of an accepted connection. */
  datatype Incoming = SelectFailed | SelectInterrupted | Nothing | AcceptFailed | Accepted(fd: nat, start: Start)

  class Listener {
    var world: State
    var shutdown: bool              // *m_shutdown
    var children: map<nat, nat>     // m_children
    const catchAll: bool            // m_catchAll

    ghost predicate Valid()
      reads this
    {
      Reachable(world) && shutdown == world.shutdown && children == world.children
    }

    constructor (others: set<nat>, catchAll: bool)
      ensures Valid() && world == Init(others) && this.catchAll == catchAll
    {
      world, shutdown, children := Init(others), false, map[];
      this.catchAll := catchAll;
      new;
      assert Possible(Init(others), []) && After(Init(others), []) == Init(others);
    }

    /** One step of the transition system. */
    method Take(step: Step)
      requires Reachable(world) && Enabled(world, step)
      modifies this`world
      ensures Reachable(world) && world == Apply(old(world), step)
    {
      ghost var t := ReachableNext(world, step);
      world := Apply(world, step);
    }

    /** Everybody but worker w runs. */
    method Others(w: nat)
      requires Valid() && w < |world.workers|
      modifies this
      ensures Valid() && w < |world.workers| && world.workers[w] == old(world.workers[w])
      ensures old(shutdown) ==> shutdown
    {
      var steps: seq<Step> := *;
      if !Possible(world, steps) || !Spares(steps, w) {
        steps := [];
      }
      RunSpares(world, steps, w);
      ReachableOn(world, steps);
      world := After(world, steps);
      shutdown, children := world.shutdown, world.children;
    }

    /** The workers run. */
    method OtherThreads()
      requires Valid()
      modifies this
      ensures Valid() && world.loop == old(world.loop) && |world.workers| == |old(world.workers)|
      ensures old(shutdown) ==> shutdown
    {
      var steps: seq<Step> := *;
      if !Possible(world, steps) || !SparesLoop(steps) {
        steps := [];
      }
      RunSparesLoop(world, steps);
      ReachableOn(world, steps);
      world := After(world, steps);
      shutdown, children := world.shutdown, world.children;
    }

    /** The first part of ServerThread::run: wait until nobody owns the descriptor number, then own it. */
    method Own(w: nat, sock: nat, rounds: nat) returns (owned: bool)
      requires Valid() && At(world, w, Created) && world.workers[w].fd == sock
      modifies this
      ensures Valid() && At(world, w, if owned then Looping else Created) && world.workers[w].fd == sock
      ensures old(shutdown) ==> shutdown
      ensures owned ==> sock in children && children[sock] == w
      ensures owned ==> forall v | 0 <= v < |world.workers| && v != w && world.workers[v].phase.Registered() ::
          world.workers[v].fd != sock
    {
      Others(w);
      var left := rounds;
      while sock in children && left > 0
        invariant Valid() && At(world, w, Created) && world.workers[w].fd == sock && (old(shutdown) ==> shutdown)
      {
        left := left - 1;
        Others(w);
      }
      owned := sock !in children;
      if owned {
        children := children[sock := w];
        Take(Register(w));
        forall v | 0 <= v < |world.workers| && v != w && world.workers[v].phase.Registered()
          ensures world.workers[v].fd != sock
        {
          if world.workers[v].fd == sock {
            OneWorkerPerDescriptor(world, v, w);
          }
        }
      }
    }

    /** The worker closes its descriptor, which is still its own. */
    method CloseOwn(w: nat, sock: nat)
      requires Valid() && At(world, w, Closing) && world.workers[w].fd == sock
      modifies this
      ensures Valid() && At(world, w, Leaving) && world.workers[w].fd == sock
      ensures sock !in world.descriptors && (old(shutdown) ==> shutdown)
    {
      Others(w);
      ServesOwnConnection(world, w);
      Take(Close(w));
    }

    /** What run does with the result of job: anything but 0 closes the connection and ends the worker. */
    method EndJob(w: nat, sock: nat, result: int) returns (over: bool)
      requires Valid() && At(world, w, InJob) && world.workers[w].fd == sock
      modifies this
      ensures Valid() && At(world, w, if over then Leaving else Looping) && world.workers[w].fd == sock
      ensures over <==> result != 0
      ensures over ==> sock !in world.descriptors
      ensures old(shutdown) ==> shutdown
    {
      Others(w);
      over := result != 0;
      if over {
        Take(JobOver(w));
        CloseOwn(w, sock);
      } else {
        Take(JobDone(w));
      }
    }

    /** One round of the loop in ServerThread::run: test the flag, poll the connection, serve it. */
    method Round(w: nat, sock: nat, poll: Poll) returns (over: bool, stopped: bool)
      requires Valid() && At(world, w, Looping) && world.workers[w].fd == sock
      modifies this
      ensures Valid() && At(world, w, if over then Leaving else Looping) && world.workers[w].fd == sock
      ensures over <==> stopped || !GoesOn(poll)
      ensures old(shutdown) ==> stopped
      ensures stopped ==> shutdown
      ensures over && !stopped && poll.Readable? ==> sock !in world.descriptors
    {
      over := true;
      Others(w);
      Take(Test(w));
      stopped := shutdown;
      if stopped {
        return;
      }
      Others(w);
      match poll {
        case SelectError => Take(PollFails(w));
        case Readable(result) =>
          Take(EnterJob(w));
          over := EndJob(w, sock, result);
        case _ =>
          Take(Tick(w));
          over := false;
      }
    }

    /**
     * ServerThread::run, for what its polls report: finished says that it returned, which is before the
     * destructor runs, and stopped that it did so because of shutdown.
     */
    method RunWorker(w: nat, sock: nat, rounds: nat, polls: seq<Poll>)
      returns (finished: bool, stopped: bool, ghost made: nat, jobs: nat)
      requires Valid() && At(world, w, Created) && world.workers[w].fd == sock
      modifies this
      ensures Valid() && w < |world.workers| && world.workers[w].fd == sock
      ensures if finished then At(world, w, Leaving) else At(world, w, Created) || At(world, w, Looping)
      ensures made <= |polls| && jobs == Jobs(polls[..made])
      ensures forall i | 0 <= i < made - 1 :: GoesOn(polls[i])
      ensures finished <==> stopped || (made > 0 && !GoesOn(polls[made - 1]))
      ensures At(world, w, Looping) ==> made == |polls|
      ensures stopped ==> shutdown
      ensures old(shutdown) ==> jobs == 0
    {
      finished, stopped, made, jobs := false, false, 0, 0;
      var owned := Own(w, sock, rounds);
      if !owned {
        return;
      }
      var i := 0;
      while i < |polls| && !finished
        invariant Valid() && At(world, w, if finished then Leaving else Looping) && world.workers[w].fd == sock
        invariant 0 <= i <= |polls| && made <= |polls| && jobs == Jobs(polls[..made])
        invariant forall j | 0 <= j < made - 1 :: GoesOn(polls[j])
        invariant finished <==> stopped || (made > 0 && !GoesOn(polls[made - 1]))
        invariant !finished ==> made == i
        invariant (stopped ==> shutdown) && (old(shutdown) ==> shutdown && jobs == 0)
        decreases |polls| - i, !finished
      {
        finished, stopped := Round(w, sock, polls[i]);
        if !stopped {
          made := i + 1;
          assert polls[..made][..i] == polls[..i];
          jobs := if polls[i].Readable? then jobs + 1 else jobs;
        }
        i := i + 1;
      }
    }

    /** ServerThread::~ServerThread. */
    method Erase(w: nat, sock: nat)
      requires Valid() && At(world, w, Leaving) && world.workers[w].fd == sock
      modifies this
      ensures Valid() && At(world, w, Dead)
      ensures sock !in children && forall fd | fd in children :: children[fd] != w
    {
      Others(w);
      EraseOwnOnly(world, w);
      children := children - {sock};
      Take(Step.Erase(w));
    }


    /** Wait for all children to exit. */
    method Drain(rounds: nat) returns (returned: bool)
      requires Valid() && world.loop.Draining?
      modifies this
      ensures Valid() && (if returned then world.loop.Returned? else world.loop.Draining?)
      ensures returned ==> shutdown
      ensures returned ==> forall w | 0 <= w < |world.workers| :: !world.workers[w].phase.Serving()
    {
      OtherThreads();
      var left := rounds;
      while children != map[] && left > 0
        invariant Valid() && world.loop.Draining?
      {
        left := left - 1;
        OtherThreads();
      }
      returned := children == map[];
      if returned {
        ReachableInv(world);
        Take(Return);
        assert After(world, []) == world;
        NoJobAfterReturn(world, []);
      }
    }

    /**
     * One pass through the body of the accept loop; before is the state in which its select returned. A
     * new worker is the last one and has the accepted connection; only a failing select asks for shutdown,
     * and an unknown error in creating a worker unless all errors are to be caught.
     */
    method Serve(incoming: Incoming) returns (ghost before: State)
      requires Valid() && world.loop.Selecting?
      modifies this
      ensures Valid() && world.loop.Top? && Reachable(before) && |before.workers| == |old(world.workers)|
      ensures old(shutdown) ==> before.shutdown
      ensures shutdown <==>
                || before.shutdown || incoming.SelectFailed?
                || (!catchAll && incoming.Accepted? && incoming.start.UnknownError?
                    && incoming.fd !in before.descriptors)
      ensures children == before.children
      ensures incoming.Accepted? && incoming.fd !in before.descriptors ==>
                && world.workers ==
                   before.workers + (if incoming.start.Started? then [Worker(incoming.fd, Created)] else [])
                && incoming.fd in world.descriptors
      ensures !incoming.Accepted? ==> world.workers == before.workers && world.descriptors == before.descriptors
    {
      OtherThreads();
      before := world;
      match incoming {
        case SelectFailed =>
          shutdown := true;
          Take(SelectFails);
        case Accepted(newsock, start) =>
          if newsock in world.descriptors {
            Take(Idle);
          } else if start.Started? {
            Take(Accept(newsock));
          } else {
            Take(AcceptLost(newsock));
            if start.UnknownError? && !catchAll {
              shutdown := true;
              Take(Signal);
            }
          }
        case _ => Take(Idle);
      }
    }

    /**
     * SocketListener::run, for what its selects report: it stops testing them when it sees the flag, and
     * a failing select makes it see the flag in the next round.
     */
    method Run(incoming: seq<Incoming>, rounds: nat) returns (returned: bool, seen: nat)
      requires Valid() && world.loop.Top?
      modifies this
      ensures Valid() && seen <= |incoming|
      ensures returned ==> shutdown && world.loop.Returned?
      ensures returned ==> forall w | 0 <= w < |world.workers| :: !world.workers[w].phase.Serving()
      ensures forall i | 0 <= i < seen - 1 :: !incoming[i].SelectFailed?
      ensures old(shutdown) ==> seen == 0
      ensures world.loop.Top? ==> seen == |incoming|
    {
      returned, seen := false, 0;
      while seen < |incoming|
        invariant Valid() && world.loop.Top? && seen <= |incoming|
        invariant forall i | 0 <= i < seen :: incoming[i].SelectFailed? ==> shutdown && i == seen - 1
        invariant old(shutdown) ==> shutdown && seen == 0
      {
        OtherThreads();
        var stop := shutdown;
        Take(TestLoop);
        if stop {
          returned := Drain(rounds);
          return;
        }
        ghost var before;
        before := Serve(incoming[seen]);
        seen := seen + 1;
      }
    }
  }
}
