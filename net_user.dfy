/** Net::Net_user: the owner of the network thread and of the inbound queue.
    The thread, the asio::io_context and the jobs posted to it are abstract:
    the model keeps whether the thread handle is joinable, whether the context
    is stopped, and how many jobs were posted. */
module NetUsers {
  import opened Exceptions
  import opened Deques
  import opened Sequences

  /** m_asio_thread_stop_flag, m_thread_handle.joinable(),
      m_asio_context.stopped(), and the number of jobs posted to the context. */
  datatype Lifecycle = Lifecycle(stopFlag: bool, threadJoinable: bool, contextStopped: bool, postedJobs: nat)

  /** A new Net_user: stop flag set, no thread, a context that has not run. */
  const Initial: Lifecycle := Lifecycle(true, false, false, 0)

  /** The stop flag is clear exactly while a worker thread exists. */
  predicate Consistent(s: Lifecycle)
  {
    s.stopFlag == !s.threadJoinable
  }

  /** start_asio_thread */
  function Start(s: Lifecycle): (r: (Outcome, Lifecycle))
    ensures r.0 == Pass <==> !s.threadJoinable
    ensures r.0 == Pass ==> && !r.1.stopFlag && r.1.threadJoinable && !r.1.contextStopped
                            && r.1.postedJobs == s.postedJobs
    ensures r.0 != Pass ==> r == (Fail(RuntimeError), s)
  {
    if !s.threadJoinable then
      (Pass, s.(contextStopped := false, stopFlag := false, threadJoinable := true))
    else
      (Fail(RuntimeError), s)
  }

  /** stop_asio_thread */
  function Stop(s: Lifecycle): (r: Lifecycle)
    ensures r.stopFlag && r.postedJobs == s.postedJobs
    ensures !s.stopFlag ==> r.contextStopped && !r.threadJoinable
    ensures s.stopFlag ==> r == s
  {
    if !s.stopFlag then
      s.(stopFlag := true, contextStopped := true, threadJoinable := false)
    else
      s
  }

  /** give_asio_job */
  function GiveJob(s: Lifecycle): (r: (Outcome, Lifecycle))
    ensures r.0 == Pass <==> !s.stopFlag
    ensures r.0 == Pass ==> r.1 == s.(postedJobs := s.postedJobs + 1)
    ensures r.0 != Pass ==> r == (Fail(RuntimeError), s)
  {
    if !s.stopFlag then (Pass, s.(postedJobs := s.postedJobs + 1)) else (Fail(RuntimeError), s)
  }

  /** Every transition keeps the stop flag and the thread in step. */
  lemma TransitionsKeepConsistent(s: Lifecycle)
    requires Consistent(s)
    ensures Consistent(Start(s).1) && Consistent(Stop(s)) && Consistent(GiveJob(s).1)
  {
  }

  /** Before any start the stop flag is set, so a job is refused. */
  lemma NoJobBeforeStart()
    ensures GiveJob(Initial) == (Fail(RuntimeError), Initial)
  {
  }

  /** Starting succeeds exactly when no thread is joinable; starting while
      one is throws runtime_error and changes nothing. */
  lemma StartOutcome(s: Lifecycle)
    ensures Start(s).0 == Pass <==> !s.threadJoinable
    ensures Start(s).0 == Pass ==> !Start(s).1.stopFlag && Start(s).1.threadJoinable && !Start(s).1.contextStopped
    ensures s.threadJoinable ==> Start(s) == (Fail(RuntimeError), s)
  {
  }

  /** Stopping leaves no joinable thread behind when the state was
      consistent, and a second stop does nothing. */
  lemma StopIdempotent(s: Lifecycle)
    requires Consistent(s)
    ensures Stop(s).stopFlag && !Stop(s).threadJoinable
    ensures Stop(Stop(s)) == Stop(s)
  {
  }

  /** After a start and a stop, the thread can be started again. */
  lemma Restart(s: Lifecycle)
    requires Start(s).0 == Pass
    ensures Start(Stop(Start(s).1)).0 == Pass
  {
  }

  /** A call a program can make on the lifecycle. */
  datatype Call = StartCall | StopCall | JobCall

  function Apply(s: Lifecycle, c: Call): Lifecycle
  {
    match c
    case StartCall => Start(s).1
    case StopCall => Stop(s)
    case JobCall => GiveJob(s).1
  }

  /** The state after `calls`, made in order, whatever each one threw. */
  function Run(s: Lifecycle, calls: seq<Call>): Lifecycle
    decreases |calls|
  {
    if calls == [] then s else Run(Apply(s, calls[0]), calls[1..])
  }

  /** Every state reachable from a new Net_user is consistent. */
  lemma {:induction false} RunKeepsConsistent(s: Lifecycle, calls: seq<Call>)
    requires Consistent(s)
    ensures Consistent(Run(s, calls))
    decreases |calls|
  {
    if calls != [] {
      TransitionsKeepConsistent(s);
      RunKeepsConsistent(Apply(s, calls[0]), calls[1..]);
    }
  }

  /** In every reachable state a job is accepted exactly while a worker
      thread is running. */
  lemma JobAcceptedIffRunning(calls: seq<Call>)
    ensures GiveJob(Run(Initial, calls)).0 == Pass <==> Run(Initial, calls).threadJoinable
  {
    RunKeepsConsistent(Initial, calls);
  }

  /** start_asio_thread when the std::thread constructor throws
      std::system_error: the stop flag is already cleared and the context
      restarted, but no thread exists. */
  function StartThreadThrows(s: Lifecycle): (r: (Outcome, Lifecycle))
    ensures r.0 != Pass
    ensures !s.threadJoinable ==> && r.0 == Fail(SystemError)
                                  && !r.1.stopFlag && !r.1.threadJoinable && !r.1.contextStopped
                                  && r.1.postedJobs == s.postedJobs
    ensures s.threadJoinable ==> r == (Fail(RuntimeError), s)
  {
    if !s.threadJoinable then
      (Fail(SystemError), s.(contextStopped := false, stopFlag := false))
    else
      (Fail(RuntimeError), s)
  }

  /** stop_asio_thread when join throws std::system_error. As join is only
      called on a joinable handle, that happens when a job running on the
      worker thread stops its own Net_user. The stop flag is set and the
      context stopped, but the thread handle stays joinable. */
  function StopJoinThrows(s: Lifecycle): (r: (Outcome, Lifecycle))
    ensures r.1.stopFlag && r.1.threadJoinable == s.threadJoinable && r.1.postedJobs == s.postedJobs
    ensures r.0 == Fail(SystemError) <==> !s.stopFlag && s.threadJoinable
    ensures s.stopFlag ==> r == (Pass, s)
  {
    if !s.stopFlag then
      if s.threadJoinable then
        (Fail(SystemError), s.(stopFlag := true, contextStopped := true))
      else
        (Pass, s.(stopFlag := true, contextStopped := true))
    else
      (Pass, s)
  }

  /** A thread that cannot be created leaves the stop flag cleared with no
      thread: the state is no longer consistent, and give_asio_job accepts
      jobs while no thread exists to run them; they wait in the context for
      a later successful start. */
  lemma ThreadCreationFailureAcceptsJobs(s: Lifecycle)
    requires Consistent(s) && !s.threadJoinable
    ensures StartThreadThrows(s).0 == Fail(SystemError)
    ensures !Consistent(StartThreadThrows(s).1) && !StartThreadThrows(s).1.threadJoinable
    ensures GiveJob(StartThreadThrows(s).1).0 == Pass
  {
  }

  /** With the stop flag set and the thread still joinable, no sequence of
      calls changes the state. */
  lemma {:induction false} StuckStateIsPermanent(t: Lifecycle, calls: seq<Call>)
    requires t.stopFlag && t.threadJoinable
    ensures Run(t, calls) == t
    decreases |calls|
  {
    if calls != [] {
      assert Apply(t, calls[0]) == t;
      StuckStateIsPermanent(t, calls[1..]);
    }
  }

  /** A join that throws leaves a running Net_user stuck: whatever is called
      afterwards, start keeps throwing runtime_error and every job is
      refused. A program sees this state only if the job that called stop
      catches the exception: otherwise it leaves the worker thread and ends
      the program, and destroying the Net_user with the handle still
      joinable ends it as well. */
  lemma JoinFailureIsPermanent(s: Lifecycle, calls: seq<Call>)
    requires Consistent(s) && !s.stopFlag
    ensures StopJoinThrows(s).0 == Fail(SystemError)
    ensures Run(StopJoinThrows(s).1, calls) == StopJoinThrows(s).1
    ensures Start(Run(StopJoinThrows(s).1, calls)).0 == Fail(RuntimeError)
    ensures GiveJob(Run(StopJoinThrows(s).1, calls)).0 == Fail(RuntimeError)
  {
    StuckStateIsPermanent(StopJoinThrows(s).1, calls);
  }

  class NetUser<M> {
    /** m_asio_thread_stop_flag */
    var stopFlag: bool
    /** m_thread_handle.joinable() */
    var threadJoinable: bool
    /** m_asio_context.stopped() */
    var contextStopped: bool
    /** the number of jobs posted to m_asio_context */
    var postedJobs: nat
    /** m_in_queue */
    const inQueue: Deque<M>

    function State(): Lifecycle
      reads this
    {
      Lifecycle(stopFlag, threadJoinable, contextStopped, postedJobs)
    }

    ghost predicate Valid()
      reads this
    {
      Consistent(State())
    }

    constructor ()
      ensures Valid() && State() == Initial
      ensures fresh(inQueue) && inQueue.contents == []
    {
      stopFlag, threadJoinable, contextStopped, postedJobs := true, false, false, 0;
      inQueue := new Deque<M>();
    }

    /** is_in_queue_empty: the inbound queue's empty(). */
    method IsInQueueEmpty() returns (b: bool)
      ensures b <==> inQueue.contents == []
    {
      b := inQueue.Empty();
    }

    /** in_queue_pop_front as written: it calls pop_back, so it removes and
        returns the NEWEST message. */
    method InQueuePopFront() returns (message: M)
      requires inQueue.contents != []
      modifies inQueue
      ensures message == old(inQueue.contents)[|old(inQueue.contents)| - 1]
      ensures inQueue.contents == old(inQueue.contents)[..|old(inQueue.contents)| - 1]
    {
      message := inQueue.PopBack();
    }

    /** in_queue_pop_front as its name and the queue's use intend: removes
        and returns the OLDEST message. */
    method InQueuePopOldest() returns (message: M)
      requires inQueue.contents != []
      modifies inQueue
      ensures message == old(inQueue.contents)[0]
      ensures inQueue.contents == old(inQueue.contents)[1..]
    {
      message := inQueue.PopFront();
    }

    /** in_queue_push_back */
    method InQueuePushBack(message: M)
      modifies inQueue
      ensures inQueue.contents == old(inQueue.contents) + [message]
    {
      inQueue.PushBack(message);
    }

    /** start_asio_thread */
    method StartAsioThread() returns (r: Outcome)
      requires Valid()
      modifies this
      ensures Valid()
      ensures (r, State()) == Start(old(State()))
    {
      if !threadJoinable {
        if contextStopped {
          contextStopped := false;
        }
        stopFlag := false;
        threadJoinable := true;
        r := Pass;
      } else {
        r := Fail(RuntimeError);
      }
    }

    /** stop_asio_thread */
    method StopAsioThread()
      requires Valid()
      modifies this
      ensures Valid()
      ensures State() == Stop(old(State()))
    {
      if !stopFlag {
        stopFlag := true;
        contextStopped := true;
        if threadJoinable {
          threadJoinable := false;
        }
      }
    }

    /** give_asio_job */
    method GiveAsioJob() returns (r: Outcome)
      requires Valid()
      modifies this
      ensures Valid()
      ensures (r, State()) == GiveJob(old(State()))
    {
      if !stopFlag {
        postedJobs := postedJobs + 1;
        r := Pass;
      } else {
        r := Fail(RuntimeError);
      }
    }
  }

  /** Messages arrive through in_queue_push_back and the application drains
      the inbound queue with is_in_queue_empty and in_queue_pop_front, as
      written: it receives them in reverse order of arrival. */
  method DrainAsWritten<M>(arrived: seq<M>) returns (handled: seq<M>)
    ensures handled == Reversed(arrived)
  {
    var user := new NetUser<M>();
    for i := 0 to |arrived|
      invariant user.inQueue.contents == arrived[..i]
    {
      user.InQueuePushBack(arrived[i]);
    }
    assert user.inQueue.contents == arrived;
    handled := [];
    var empty := user.IsInQueueEmpty();
    while !empty
      invariant empty <==> user.inQueue.contents == []
      invariant handled + Reversed(user.inQueue.contents) == Reversed(arrived)
      decreases |user.inQueue.contents|
    {
      var message := user.InQueuePopFront();
      handled := handled + [message];
      empty := user.IsInQueueEmpty();
    }
  }

  /** The same drain with the front taken: the application receives the
      messages in order of arrival. */
  method DrainIntended<M>(arrived: seq<M>) returns (handled: seq<M>)
    ensures handled == arrived
  {
    var user := new NetUser<M>();
    for i := 0 to |arrived|
      invariant user.inQueue.contents == arrived[..i]
    {
      user.InQueuePushBack(arrived[i]);
    }
    handled := [];
    var empty := user.IsInQueueEmpty();
    while !empty
      invariant empty <==> user.inQueue.contents == []
      invariant |handled| <= |arrived|
      invariant handled == arrived[..|handled|] && user.inQueue.contents == arrived[|handled|..]
      decreases |user.inQueue.contents|
    {
      var message := user.InQueuePopOldest();
      handled := handled + [message];
      empty := user.IsInQueueEmpty();
    }
  }

  /** Two messages that arrive in order a, b reach the application as b, a. */
  lemma AsWrittenReordersTwo<M>(a: M, b: M)
    requires a != b
    ensures Reversed([a, b]) == [b, a] != [a, b]
  {
  }

  /** A Net_user through its whole lifecycle: a job before start is refused,
      a second start is refused, stopping twice is harmless, and the thread
      restarts. */
  method LifecycleScenario<M>()
      returns (jobBeforeStart: Outcome, firstStart: Outcome, job: Outcome, secondStart: Outcome,
               jobAfterStop: Outcome, restart: Outcome)
    ensures jobBeforeStart == Fail(RuntimeError) && firstStart == Pass && job == Pass
    ensures secondStart == Fail(RuntimeError) && jobAfterStop == Fail(RuntimeError) && restart == Pass
  {
    var user := new NetUser<M>();
    jobBeforeStart := user.GiveAsioJob();
    firstStart := user.StartAsioThread();
    job := user.GiveAsioJob();
    secondStart := user.StartAsioThread();
    user.StopAsioThread();
    user.StopAsioThread();
    jobAfterStop := user.GiveAsioJob();
    restart := user.StartAsioThread();
  }
}
