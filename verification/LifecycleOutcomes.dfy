/** What becomes of failures and requests in the lifecycle: an error shows and stays, a stop is obeyed, a start is
    carried out or kept, and the daemon shuts down. */
module LifecycleOutcomes {
  import opened Lifecycle

  // ----- failures -----

  /** Nobody else moves a thread that has not ended. */
  lemma OthersKeepThread(s: System, e: Event)
    requires Inv(s) && s.threads != [] && s.threads[0] != End(Gone) && !(e.Capturing? && e.thread == 0)
    ensures Next(s, e).threads == s.threads
  {
    hide ReapStep, StopStep, PollStep, StartStep, ServeStep, CaptureStep;
    match e {
      case Supervise(hasVidpid, opens) =>
        match s.supervisor {
          case Reap(at) => ReapFrame(s, at);
          case Stop(at) => StopFrame(s, at);
          case Poll(at) => PollSame(s, at, hasVidpid);
          case Start(at) =>
        }
      case Capturing(_, _) =>
      case Signal =>
      case _ => ServeFrame(s, e);
    }
  }

  lemma {:induction false} ThreadStays(s: System, es: seq<Event>)
    requires Inv(s) && s.threads != [] && s.threads[0] != End(Gone) && Moves(es) == 0
    ensures After(s, es).threads == s.threads && Inv(After(s, es))
    decreases |es|
  {
    hide Inv, Next;
    if es == [] {
    } else {
      OthersKeepThread(s, es[0]);
      NextInv(s, es[0]);
      ThreadStays(Next(s, es[0]), es[1..]);
    }
  }

  lemma OneOfOne(s: System)
    requires Inv(s) && s.threads != []
    ensures s.threads == [s.threads[0]]
  {
  }

  /** The adapter fails while it is brought up or read from: whatever happens in between, with the thread's next
      move the state reads Error, and the thread has left its loop. */
  lemma FailureShows(s: System, es: seq<Event>, ok: bool)
    requires Inv(s) && (s.threads == [Work(Read)] || s.threads == [Work(BringUp)]) && Moves(es) == 0
    ensures var t := Next(After(Next(s, Capturing(0, false)), es), Capturing(0, ok));
            t.state.Error? && t.threads == [End(LastLoad)]
  {
    hide Inv;
    var t := Next(s, Capturing(0, false));
    assert t.threads == [Work(Fault)];
    NextInv(s, Capturing(0, false));
    ThreadStays(t, es);
  }

  /** The thread is gone or will not write the state again. */
  predicate Quiet(s: System) {
    s.threads == [] || Past(s.threads[0])
  }

  ghost predicate GetsQuiet(s: System, es: seq<Event>)
    decreases |es|
  {
    Quiet(s) || (es != [] && GetsQuiet(Next(s, es[0]), es[1..]))
  }

  /** A thread that has left its loop makes its last write of the state within two moves of its own, in every
      interleaving. */
  lemma {:induction false} LeavesQuietly(s: System, es: seq<Event>)
    requires Inv(s)
    requires (s.threads == [End(LastLoad)] && Moves(es) >= 2) || (s.threads == [End(LastStore)] && Moves(es) >= 1)
    ensures GetsQuiet(s, es)
    decreases |es|
  {
    hide Inv;
    assert es != [];
    var e := es[0];
    NextInv(s, e);
    if e.Capturing? && e.thread == 0 {
      if !Quiet(Next(s, e)) {
        LeavesQuietly(Next(s, e), es[1..]);
      } else {
        assert GetsQuiet(Next(s, e), es[1..]);
      }
    } else {
      OthersKeepThread(s, e);
      LeavesQuietly(Next(s, e), es[1..]);
    }
  }

  /** The supervisor's move stores another state over an error: Stop saw the session active, or a new session
      begins. */
  ghost predicate Overwrites(s: System, e: Event) {
    && e.Supervise?
    && ((s.supervisor.Stop? && s.supervisor.stop.StopStore? && Active(s.supervisor.stop.seen))
        || (s.supervisor == Poll(StartGuard) && !s.joinable))
  }

  /** The thread is not about to store Idle. */
  predicate NoStore(s: System) {
    s.threads == [] || s.threads[0] != End(LastStore)
  }

  lemma ErrorStep(s: System, e: Event)
    requires Inv(s) && s.state.Error? && NoStore(s)
    ensures Next(s, e).state.Error? <==> !Overwrites(s, e)
    ensures NoStore(Next(s, e))
  {
    hide ReapStep, StopStep, PollStep, StartStep, ServeStep, CaptureStep;
    match e {
      case Supervise(hasVidpid, opens) => SuperviseError(s, hasVidpid, opens);
      case Capturing(i, ok) => if i < |s.threads| { CaptureError(s, ok); }
      case Signal =>
      case _ => ServeFrame(s, e);
    }
  }

  lemma SuperviseError(s: System, hasVidpid: bool, opens: bool)
    requires Inv(s) && s.state.Error? && NoStore(s)
    ensures SuperviseStep(s, hasVidpid, opens).state.Error? <==> !Overwrites(s, Supervise(hasVidpid, opens))
    ensures NoStore(SuperviseStep(s, hasVidpid, opens))
  {
    hide ReapStep, StopStep, PollStep, StartStep;
    match s.supervisor {
      case Reap(at) => ReapFrame(s, at);
      case Stop(at) => StopFrame(s, at);
      case Poll(at) =>
        PollSame(s, at, hasVidpid);
        PollMoves(s, at, hasVidpid);
      case Start(at) =>
    }
  }

  lemma CaptureError(s: System, ok: bool)
    requires Inv(s) && s.state.Error? && NoStore(s) && s.threads != []
    ensures CaptureStep(s, 0, ok).state.Error? && NoStore(CaptureStep(s, 0, ok))
  {
    hide Inv, WorkStep, EndStep;
    match s.threads[0] {
      case Work(at) =>
        WorkFrame(s, 0, at, ok);
        WorkLeads(s, at, ok);
      case End(at) => EndError(s, at);
    }
  }

  lemma WorkLeads(s: System, at: Working, ok: bool)
    requires s.threads != []
    ensures var t := WorkStep(s, 0, at, ok); t.threads != [] && t.threads[0] != End(LastStore)
  {
    hide Taken, Moved;
    match at {
      case BringUp => MovedOrders(s, 0, Work(if ok then LoopTop else Fault));
      case LoopTop => MovedOrders(s, 0, if s.shouldStop then End(LastLoad) else Work(TakeTune));
      case TakeTune =>
        TakenOrders(s);
        MovedOrders(Taken(s), 0, Work(TakeKey));
      case TakeKey => MovedOrders(if ok then s else s.(state := Error), 0, Work(Read));
      case Read => MovedOrders(s, 0, Work(if ok then LoopTop else Fault));
      case Fault => MovedOrders(s.(state := Error), 0, End(LastLoad));
    }
  }

  lemma EndError(s: System, at: Ending)
    requires s.state.Error? && s.threads != [] && s.threads[0] == End(at) && !at.LastStore?
    ensures var t := EndStep(s, 0, at); t.state.Error? && t.threads != [] && t.threads[0] != End(LastStore)
  {
    match at {
      case LastLoad =>
      case LastStore =>
      case Finish =>
      case Gone =>
    }
  }

  ghost predicate NeverOverwritten(s: System, es: seq<Event>)
    decreases |es|
  {
    es != [] ==> !Overwrites(s, es[0]) && NeverOverwritten(Next(s, es[0]), es[1..])
  }

  ghost predicate AlwaysError(s: System, es: seq<Event>)
    decreases |es|
  {
    s.state.Error? && (es != [] ==> AlwaysError(Next(s, es[0]), es[1..]))
  }

  /** An error is read by everyone exactly until Stop stores over it or a new session begins: the thread that failed
      leaves it alone. */
  lemma {:induction false} ErrorStays(s: System, es: seq<Event>)
    requires Inv(s) && s.state.Error? && NoStore(s)
    ensures AlwaysError(s, es) <==> NeverOverwritten(s, es)
    decreases |es|
  {
    hide Inv, NoStore, Overwrites, Next;
    if es == [] {
    } else {
      ErrorStep(s, es[0]);
      NextInv(s, es[0]);
      if !Overwrites(s, es[0]) {
        ErrorStays(Next(s, es[0]), es[1..]);
      }
    }
  }

  /** The device does not open: the state reads Error, there is no thread, and the supervisor goes on. */
  lemma OpenFails(s: System, hasVidpid: bool)
    requires Inv(s) && s.supervisor == Start(OpenDevice)
    ensures Next(s, Supervise(hasVidpid, false)) == s.(state := Error, supervisor := Reap(Top))
    ensures s.threads == [] && !s.joinable
  {
  }

  /** A key that cannot be loaded shows as an error, though the thread goes on reading. */
  lemma KeyFails(s: System)
    requires s.threads == [Work(TakeKey)]
    ensures Next(s, Capturing(0, false)) == s.(state := Error, threads := [Work(Read)])
    ensures Next(s, Capturing(0, true)) == s.(threads := [Work(Read)])
  {
  }

  /** Joining waits for the thread. */
  lemma JoinWaits(s: System, hasVidpid: bool, opens: bool)
    requires s.supervisor == Reap(FinalJoin) || s.supervisor == Reap(Joining)
    requires s.joinable && |s.threads| == 1 && s.threads[0] != End(Gone)
    ensures Next(s, Supervise(hasVidpid, opens)) == s
  {
  }

  // ----- stop requests -----

  /** How many moves the supervisor makes at most before it tells the thread, once a stop is requested. */
  function UntilFlag(at: Supervisor): (moves: nat) {
    match at
    case Stop(stop) =>
      (match stop
       case StopPoll => 4
       case StopLoad => 3
       case StopStore(_) => 2
       case StopFlag => 1)
    case Reap(reap) =>
      (match reap
       case Top => 8
       case ReapCheck => 7
       case Joining => 6
       case Unfinish => 5
       case FinalJoin => 0
       case Down => 0)
    case Start(start) =>
      (match start
       case Spawn => 9
       case MarkStreaming => 10
       case OpenDevice => 11
       case StartClear => 12
       case StartReset => 13)
    case Poll(poll) =>
      (match poll
       case NoAdapter => 9
       case StartGuard => 14
       case StartDecide(_) => 15
       case StartLoad => 16
       case StartPoll => 17)
  }

  /** A stop is requested, or the supervisor is at it. */
  ghost predicate ToBeStopped(s: System) {
    && Inv(s) && s.supervisor != Reap(FinalJoin) && s.supervisor != Reap(Down)
    && (s.stopPending || (s.supervisor.Stop? && !s.supervisor.stop.StopPoll?))
  }

  /** The supervisor's move raises the flag, or brings it nearer. */
  ghost predicate FlagNearer(s: System, t: System) {
    if s.supervisor == Stop(StopFlag) then t.shouldStop
    else ToBeStopped(t) && UntilFlag(t.supervisor) < UntilFlag(s.supervisor)
  }

  lemma FlagReap(s: System, at: Reaping)
    requires ToBeStopped(s) && s.supervisor == Reap(at)
    ensures FlagNearer(s, ReapStep(s, at))
  {
    ReapInv(s, at);
    hide Inv, Joined;
    match at {
      case Top =>
      case ReapCheck =>
      case Joining => JoinsAtOnce(s);
      case Unfinish =>
      case FinalJoin =>
      case Down =>
    }
  }

  lemma JoinsAtOnce(s: System)
    requires Inv(s) && s.supervisor == Reap(Joining)
    ensures JoinReturns(s) && Joined(s).stopPending == s.stopPending
  {
  }

  lemma FlagStop(s: System, at: StopCall)
    requires ToBeStopped(s) && s.supervisor == Stop(at)
    ensures FlagNearer(s, StopStep(s, at))
  {
    StopInv(s, at);
    hide Inv;
    match at {
      case StopPoll =>
      case StopLoad =>
      case StopStore(_) =>
      case StopFlag =>
    }
  }

  lemma FlagPoll(s: System, at: StartRequest, hasVidpid: bool)
    requires ToBeStopped(s) && s.supervisor == Poll(at)
    ensures FlagNearer(s, PollStep(s, at, hasVidpid))
  {
    PollInv(s, at, hasVidpid);
    hide Inv;
    match at {
      case StartPoll =>
      case StartLoad =>
      case StartDecide(_) =>
      case NoAdapter =>
      case StartGuard =>
    }
  }

  lemma FlagStart(s: System, at: StartCall, opens: bool)
    requires ToBeStopped(s) && s.supervisor == Start(at)
    ensures FlagNearer(s, StartStep(s, at, opens))
  {
    StartInv(s, at, opens);
    hide Inv;
    match at {
      case StartReset =>
      case StartClear =>
      case OpenDevice =>
      case MarkStreaming =>
      case Spawn =>
    }
  }

  lemma FlagMove(s: System, hasVidpid: bool, opens: bool)
    requires ToBeStopped(s)
    ensures FlagNearer(s, Next(s, Supervise(hasVidpid, opens)))
  {
    hide ToBeStopped, FlagNearer, ReapStep, StopStep, PollStep, StartStep;
    match s.supervisor {
      case Reap(at) => FlagReap(s, at);
      case Stop(at) => FlagStop(s, at);
      case Poll(at) => FlagPoll(s, at, hasVidpid);
      case Start(at) => FlagStart(s, at, opens);
    }
  }

  /** Requests and orders stand, and the supervisor is where it was. */
  ghost predicate SameOrders(s: System, t: System) {
    && (s.stopPending ==> t.stopPending) && (s.startPending ==> t.startPending) && t.running == s.running
    && t.quitting == s.quitting && t.supervisor == s.supervisor && t.session == s.session
  }

  lemma WorkOrders(s: System, i: nat, at: Working, ok: bool)
    requires i < |s.threads|
    ensures SameOrders(s, WorkStep(s, i, at, ok))
  {
    hide Taken, Moved;
    TakenOrders(s);
    forall r: System, to | i < |r.threads|
      ensures SameOrders(r, Moved(r, i, to))
    {
      MovedOrders(r, i, to);
    }
    match at {
      case BringUp =>
      case LoopTop =>
      case TakeTune =>
      case TakeKey =>
      case Read =>
      case Fault =>
    }
  }

  lemma MovedOrders(s: System, i: nat, to: Capture)
    requires i < |s.threads|
    ensures SameOrders(s, Moved(s, i, to)) && Moved(s, i, to).threads == s.threads[i := to]
  {
  }

  lemma TakenOrders(s: System)
    ensures SameOrders(s, Taken(s)) && Taken(s).threads == s.threads
  {
  }

  lemma EndOrders(s: System, i: nat, at: Ending)
    requires i < |s.threads|
    ensures SameOrders(s, EndStep(s, i, at))
  {
    match at {
      case LastLoad =>
      case LastStore =>
      case Finish =>
      case Gone =>
    }
  }

  lemma StageOrders(s: System, at: Server)
    ensures SameOrders(s, StageStep(s, at))
  {
    match at {
      case Ready =>
      case StageStart =>
      case StageTune(_, _, _) =>
    }
  }

  lemma ServeOrders(s: System, e: Event)
    ensures SameOrders(s, ServeStep(s, e))
  {
    hide StageStep;
    match e {
      case Stage => StageOrders(s, s.server);
      case PostStart(_) =>
      case PostStop =>
      case PostTune(_, _) =>
      case _ => assert ServeStep(s, e) == s;
    }
  }

  /** The others keep the request and the supervisor's place. */
  lemma OthersKeepRequests(s: System, e: Event)
    requires !e.Supervise?
    ensures var t := Next(s, e);
            && (s.stopPending ==> t.stopPending) && (s.startPending ==> t.startPending) && (t.running ==> s.running)
            && t.quitting == s.quitting && t.supervisor == s.supervisor && t.session == s.session
  {
    hide WorkStep, EndStep, ServeStep;
    match e {
      case Capturing(i, ok) =>
        if i < |s.threads| {
          match s.threads[i] {
            case Work(at) => WorkOrders(s, i, at, ok);
            case End(at) => EndOrders(s, i, at);
          }
        }
      case Signal =>
      case _ => ServeOrders(s, e);
    }
  }

  /** At some moment of the run the supervisor tells the thread to stop. */
  ghost predicate GetsTold(s: System, es: seq<Event>)
    decreases |es|
  {
    && es != []
    && ((s.supervisor == Stop(StopFlag) && es[0].Supervise? && Next(s, es[0]).shouldStop)
        || GetsTold(Next(s, es[0]), es[1..]))
  }

  lemma {:induction false} StopTells(s: System, es: seq<Event>)
    requires ToBeStopped(s) && Supervisions(es) >= UntilFlag(s.supervisor) > 0
    ensures GetsTold(s, es)
    decreases |es|
  {
    hide Inv, Next;
    assert es != [];
    var e := es[0];
    if e.Supervise? {
      FlagMove(s, e.hasVidpid, e.opens);
      if s.supervisor != Stop(StopFlag) {
        hide UntilFlag;
        FarFromFlag(Next(s, e));
        StopTells(Next(s, e), es[1..]);
      }
    } else {
      OthersKeepRequests(s, e);
      NextInv(s, e);
      StopTells(Next(s, e), es[1..]);
    }
  }

  lemma FarFromFlag(s: System)
    requires ToBeStopped(s)
    ensures 17 >= UntilFlag(s.supervisor) > 0
  {
    hide Inv;
  }

  /** A stop request that a ready server takes is obeyed: in every interleaving, within seventeen moves of a supervisor
      that is not shutting down, the thread is told to stop. */
  lemma StopObeyed(s: System, es: seq<Event>)
    requires Inv(s) && s.server.Ready? && s.supervisor != Reap(FinalJoin) && s.supervisor != Reap(Down)
    requires Supervisions(es) >= 17
    ensures GetsTold(Next(s, PostStop), es)
  {
    hide Inv, GetsTold;
    var t := Next(s, PostStop);
    NextInv(s, PostStop);
    FarFromFlag(t);
    StopTells(t, es);
  }

  /** Stop on a session it sees active stores Stopping, whoever moves in between. */
  lemma {:induction false} StopMarks(s: System, es: seq<Event>, hasVidpid: bool, opens: bool)
    requires s.supervisor == Stop(StopLoad) && (s.state.Streaming? || s.state.Starting?) && Supervisions(es) == 0
    ensures var t := After(Next(s, Supervise(hasVidpid, opens)), es);
            Next(t, Supervise(hasVidpid, opens)) == t.(state := Stopping, supervisor := Stop(StopFlag))
  {
    SupervisorWaits(Next(s, Supervise(hasVidpid, opens)), es);
  }

  lemma {:induction false} SupervisorWaits(s: System, es: seq<Event>)
    requires Supervisions(es) == 0
    ensures After(s, es).supervisor == s.supervisor
    decreases |es|
  {
    hide Next;
    if es == [] {
    } else {
      OthersKeepRequests(s, es[0]);
      SupervisorWaits(Next(s, es[0]), es[1..]);
    }
  }

  /** On the way to a clean end, with this many moves of the thread left. */
  predicate Closing(s: System, left: nat) {
    || (s.threads == [Work(LoopTop)] && s.shouldStop && !s.state.Error? && left == 4)
    || (s.threads == [End(LastLoad)] && !s.state.Error? && left == 3)
    || (s.threads == [End(LastStore)] && left == 2)
    || (s.threads == [End(Finish)] && s.state.Idle? && left == 1)
    || (s.threads == [End(Gone)] && s.state.Idle? && s.finished && left == 0)
  }

  lemma ClosingMove(s: System, left: nat, ok: bool)
    requires Closing(s, left)
    ensures Closing(Next(s, Capturing(0, ok)), if left == 0 then 0 else left - 1)
  {
    if left == 4 {
      hide EndStep;
    } else {
      hide WorkStep;
      ClosingEnd(s, left, s.threads[0].end);
    }
  }

  lemma ClosingEnd(s: System, left: nat, at: Ending)
    requires Closing(s, left) && left < 4 && s.threads[0] == End(at)
    ensures Closing(EndStep(s, 0, at), if left == 0 then 0 else left - 1)
  {
    match at {
      case LastLoad =>
      case LastStore =>
      case Finish =>
      case Gone =>
    }
  }

  lemma ClosingStays(s: System, left: nat, e: Event)
    requires Inv(s) && Closing(s, left) && !e.Supervise? && !(e.Capturing? && e.thread == 0)
    ensures Closing(Next(s, e), left)
  {
    hide Inv, ServeStep;
    FlagStays(s, e);
    if e.Capturing? {
      assert Next(s, e) == s;
    } else if !e.Signal? {
      ServeFrame(s, e);
    }
  }

  lemma {:induction false} ClosesWithin(s: System, left: nat, es: seq<Event>)
    requires Inv(s) && Closing(s, left) && Supervisions(es) == 0 && Moves(es) >= left
    ensures Closing(After(s, es), 0)
    decreases |es|
  {
    hide Inv, Next, Closing;
    if es == [] {
    } else {
      var e := es[0];
      NextInv(s, e);
      if e.Capturing? && e.thread == 0 {
        ClosingMove(s, left, e.ok);
        ClosesWithin(Next(s, e), if left == 0 then 0 else left - 1, es[1..]);
      } else {
        ClosingStays(s, left, e);
        ClosesWithin(Next(s, e), left, es[1..]);
      }
    }
  }

  /** A thread told to stop at the head of its loop ends the session in Idle with its last flag up, unless there was an
      error before; the supervisor does not move in between. */
  lemma StopEndsIdle(s: System, es: seq<Event>)
    requires Inv(s) && s.threads == [Work(LoopTop)] && s.shouldStop && !s.state.Error?
    requires Supervisions(es) == 0 && Moves(es) >= 4
    ensures var t := After(s, es); t.state.Idle? && t.finished && t.threads == [End(Gone)]
  {
    hide Inv;
    ClosesWithin(s, 4, es);
  }

  // ----- retunes -----

  /** A retune is accepted exactly while streaming, for channels 1 to 177 and widths 0 to 2 or the one in use, and
      staged with the next move of its handler. */
  lemma TuneAccepted(s: System, channel: int, width: int)
    requires s.server.Ready?
    ensures s.state.Streaming? && 1 <= channel <= 177 && (width == -1 || width == 0 || width == 1 || width == 2) ==>
              && Next(s, PostTune(channel, width)) == s.(server := StageTune(channel, width, s.session))
              && Next(Next(s, PostTune(channel, width)), Stage)
                 == s.(mail := Staged(Tune(channel, width, s.session, s.session)))
    ensures !(s.state.Streaming? && 1 <= channel <= 177 && (width == -1 || width == 0 || width == 1 || width == 2)) ==>
              Next(s, PostTune(channel, width)) == s
  {
  }

  // ----- start requests -----

  /** The handler accepts a start exactly if it is well formed and the state is Idle or Error, whoever moves before it
      stages. */
  lemma StartAccepted(s: System, valid: bool)
    requires s.server.Ready?
    ensures valid && (s.state.Idle? || s.state.Error?) ==> Next(s, PostStart(valid)) == s.(server := StageStart)
    ensures !(valid && (s.state.Idle? || s.state.Error?)) ==> Next(s, PostStart(valid)) == s
    ensures Next(s.(server := StageStart), Stage) == s.(startPending := true)
  {
  }

  /** A start request that has been taken up is being looked at. */
  ghost predicate Requested(s: System) {
    s.startPending || (s.supervisor.Poll? && !s.supervisor.poll.StartPoll?)
  }

  /** A start request is not lost before a session begins, the lack of an adapter shows, or the thread of the
      session before turns out unjoined. */
  lemma RequestKept(s: System, e: Event)
    requires Requested(s)
    ensures var t := Next(s, e);
            || Requested(t) || t.session == s.session + 1
            || (s.supervisor == Poll(NoAdapter) && t.state.Error?) || (s.supervisor == Poll(StartGuard) && s.joinable)
  {
    hide ReapStep, StopStep, PollStep, StartStep;
    if !e.Supervise? {
      OthersKeepRequests(s, e);
    } else {
      match s.supervisor {
        case Reap(at) => ReapKeepsRequest(s, at);
        case Stop(at) => StopKeepsRequest(s, at);
        case Poll(at) => PollKeepsRequest(s, at, e.hasVidpid);
        case Start(at) => StartKeepsRequest(s, at, e.opens);
      }
    }
  }

  lemma ReapKeepsRequest(s: System, at: Reaping)
    ensures ReapStep(s, at).startPending == s.startPending
  {
    match at {
      case Top =>
      case ReapCheck =>
      case Joining =>
      case Unfinish =>
      case FinalJoin =>
      case Down =>
    }
  }

  lemma StopKeepsRequest(s: System, at: StopCall)
    ensures StopStep(s, at).startPending == s.startPending
  {
    match at {
      case StopPoll =>
      case StopLoad =>
      case StopStore(_) =>
      case StopFlag =>
    }
  }

  lemma PollKeepsRequest(s: System, at: StartRequest, hasVidpid: bool)
    requires s.supervisor == Poll(at) && Requested(s)
    ensures var t := PollStep(s, at, hasVidpid);
            || Requested(t) || t.session == s.session + 1 || (at.NoAdapter? && t.state.Error?)
            || (at.StartGuard? && s.joinable)
  {
    match at {
      case StartPoll =>
      case StartLoad =>
      case StartDecide(_) =>
      case NoAdapter =>
      case StartGuard =>
    }
  }

  lemma StartKeepsRequest(s: System, at: StartCall, opens: bool)
    ensures StartStep(s, at, opens).startPending == s.startPending
  {
    match at {
      case StartReset =>
      case StartClear =>
      case OpenDevice =>
      case MarkStreaming =>
      case Spawn =>
    }
  }

  /** While a session is stopping or its thread not yet reaped, a start request goes back to where it was taken from. */
  lemma StartWaits(s: System, seen: SessionState, hasVidpid: bool, opens: bool)
    requires s.supervisor == Poll(StartDecide(seen))
    ensures seen.Stopping? || seen.Starting? || seen.Streaming? || s.finished ==>
              Next(s, Supervise(hasVidpid, opens)) == s.(startPending := true, supervisor := Reap(Top))
  {
  }

  /** The supervisor alone, n times. */
  function Alone(n: nat, hasVidpid: bool, opens: bool): (es: seq<Event>) {
    if n == 0 then [] else [Supervise(hasVidpid, opens)] + Alone(n - 1, hasVidpid, opens)
  }

  lemma AloneNext(s: System, n: nat, hasVidpid: bool, opens: bool)
    requires n > 0
    ensures After(s, Alone(n, hasVidpid, opens))
         == After(Next(s, Supervise(hasVidpid, opens)), Alone(n - 1, hasVidpid, opens))
  {
    hide Next;
    var es := Alone(n, hasVidpid, opens);
    assert es[1..] == Alone(n - 1, hasVidpid, opens);
  }

  /** A pending start that nothing stands in the way of, up to the guard of Start. */
  lemma StartTaken(s: System, n: nat, opens: bool)
    requires s.supervisor == Stop(StopPoll) && !s.finished && !s.joinable && s.startPending && !s.stopPending
    requires s.state.Idle? || s.state.Error?
    ensures After(s, Alone(n + 5, true, opens))
         == After(s.(state := Starting, startPending := false, session := s.session + 1,
                     supervisor := Start(StartReset)), Alone(n, true, opens))
  {
    hide After, Alone;
    AloneNext(s, n + 5, true, opens);
    var t := s.(supervisor := Poll(StartPoll));
    AloneNext(t, n + 4, true, opens);
    t := t.(startPending := false, supervisor := Poll(StartLoad));
    AloneNext(t, n + 3, true, opens);
    t := t.(supervisor := Poll(StartDecide(s.state)));
    AloneNext(t, n + 2, true, opens);
    t := t.(supervisor := Poll(StartGuard));
    AloneNext(t, n + 1, true, opens);
  }

  /** A pending start in a state that allows one: with an adapter that opens there is a running session with a clear
      mailbox, cleared flags and one thread; with one that does not open there is an error, and without one there is
      an error and no session. */
  lemma StartOutcome(s: System)
    requires s.supervisor == Stop(StopPoll) && !s.finished && !s.joinable && s.startPending && !s.stopPending
    requires (s.state.Idle? || s.state.Error?) && s.threads == []
    ensures After(s, Alone(10, true, true))
         == s.(state := Streaming, shouldStop := false, startPending := false, mail := Empty, joinable := true,
               threads := [Work(BringUp)], session := s.session + 1, supervisor := Reap(Top))
    ensures After(s, Alone(8, true, false))
         == s.(state := Error, shouldStop := false, startPending := false, mail := Empty,
               session := s.session + 1, supervisor := Reap(Top))
    ensures After(s, Alone(5, false, true)) == s.(state := Error, startPending := false, supervisor := Reap(Top))
  {
    hide After, Alone, Next;
    StartTaken(s, 5, true);
    StartTaken(s, 3, false);
    var t := s.(state := Starting, startPending := false, session := s.session + 1, supervisor := Start(StartReset));
    Opening(t, 3, true);
    Opening(t, 1, false);
    t := t.(finished := false, shouldStop := false, mail := Empty, supervisor := Start(OpenDevice));
    OpenWorks(t);
    OpenErrs(t);
    NoAdapterOutcome(s);
  }

  lemma Opening(t: System, n: nat, opens: bool)
    requires t.supervisor == Start(StartReset)
    ensures After(t, Alone(n + 2, true, opens))
         == After(t.(finished := false, shouldStop := false, mail := Empty, supervisor := Start(OpenDevice)),
                  Alone(n, true, opens))
  {
    hide After, Alone;
    AloneNext(t, n + 2, true, opens);
    AloneNext(t.(finished := false, shouldStop := false, supervisor := Start(StartClear)), n + 1, true, opens);
  }

  lemma OpenWorks(t: System)
    requires t.supervisor == Start(OpenDevice) && t.threads == []
    ensures After(t, Alone(3, true, true))
         == t.(state := Streaming, joinable := true, threads := [Work(BringUp)], supervisor := Reap(Top))
  {
    hide After, Alone;
    AloneNext(t, 3, true, true);
    var u := t.(supervisor := Start(MarkStreaming));
    AloneNext(u, 2, true, true);
    u := u.(state := Streaming, supervisor := Start(Spawn));
    AloneNext(u, 1, true, true);
    assert t.threads + [Work(BringUp)] == [Work(BringUp)];
    u := u.(joinable := true, threads := [Work(BringUp)], supervisor := Reap(Top));
    AloneNone(u, true, true);
  }

  lemma OpenErrs(t: System)
    requires t.supervisor == Start(OpenDevice)
    ensures After(t, Alone(1, true, false)) == t.(state := Error, supervisor := Reap(Top))
  {
    hide After, Alone;
    AloneNone(t.(state := Error, supervisor := Reap(Top)), true, false);
    AloneNext(t, 1, true, false);
  }

  lemma AloneNone(t: System, hasVidpid: bool, opens: bool)
    ensures After(t, Alone(0, hasVidpid, opens)) == t
  {
  }

  lemma NoAdapterOutcome(s: System)
    requires s.supervisor == Stop(StopPoll) && !s.finished && s.startPending && !s.stopPending
    requires s.state.Idle? || s.state.Error?
    ensures After(s, Alone(5, false, true)) == s.(state := Error, startPending := false, supervisor := Reap(Top))
  {
    hide After, Alone;
    AloneNext(s, 5, false, true);
    var t := s.(supervisor := Poll(StartPoll));
    AloneNext(t, 4, false, true);
    t := t.(startPending := false, supervisor := Poll(StartLoad));
    AloneNext(t, 3, false, true);
    t := t.(supervisor := Poll(StartDecide(s.state)));
    AloneNext(t, 2, false, true);
    t := t.(supervisor := Poll(NoAdapter));
    AloneNext(t, 1, false, true);
    AloneNone(t.(state := Error, supervisor := Reap(Top)), false, true);
  }

  // ----- shutting down -----

  /** Once the supervisor has decided to quit it stops the session, waits for the thread, and is down. */
  ghost predicate QuitInv(s: System) {
    && (s.quitting ==> (s.supervisor.Stop? && !s.supervisor.stop.StopPoll?)
                       || s.supervisor == Reap(FinalJoin) || s.supervisor == Reap(Down))
    && (s.supervisor == Reap(FinalJoin) || s.supervisor == Reap(Down) ==> s.quitting && s.shouldStop)
    && (s.supervisor == Reap(Down) ==> s.threads == [] && !s.joinable)
    && (s.quitting ==> !s.running)
  }

  lemma QuitReap(s: System, at: Reaping)
    requires Inv(s) && QuitInv(s) && s.supervisor == Reap(at)
    ensures QuitInv(ReapStep(s, at))
  {
    hide Joined;
    JoinedThreads(s);
    JoinedOrders(s);
    match at {
      case Top =>
      case ReapCheck =>
      case Joining =>
      case Unfinish =>
      case FinalJoin =>
      case Down =>
    }
  }

  lemma JoinedOrders(s: System)
    ensures SameOrders(s, Joined(s)) && Joined(s).shouldStop == s.shouldStop
  {
  }

  lemma QuitStop(s: System, at: StopCall)
    requires QuitInv(s) && s.supervisor == Stop(at)
    ensures QuitInv(StopStep(s, at))
  {
    match at {
      case StopPoll =>
      case StopLoad =>
      case StopStore(_) =>
      case StopFlag =>
    }
  }

  lemma QuitPoll(s: System, at: StartRequest, hasVidpid: bool)
    requires QuitInv(s) && s.supervisor == Poll(at)
    ensures QuitInv(PollStep(s, at, hasVidpid))
  {
    match at {
      case StartPoll =>
      case StartLoad =>
      case StartDecide(_) =>
      case NoAdapter =>
      case StartGuard =>
    }
  }

  lemma QuitStart(s: System, at: StartCall, opens: bool)
    requires QuitInv(s) && s.supervisor == Start(at)
    ensures QuitInv(StartStep(s, at, opens))
  {
    match at {
      case StartReset =>
      case StartClear =>
      case OpenDevice =>
      case MarkStreaming =>
      case Spawn =>
    }
  }

  lemma FlagStays(s: System, e: Event)
    requires !e.Supervise?
    ensures Next(s, e).shouldStop == s.shouldStop
  {
    hide WorkStep, EndStep, ServeStep;
    match e {
      case Capturing(i, ok) =>
        if i < |s.threads| {
          match s.threads[i] {
            case Work(at) => WorkKeepsFlag(s, i, at, ok);
            case End(at) => EndKeepsFlag(s, i, at);
          }
        }
      case Signal =>
      case _ => ServeKeepsFlag(s, e);
    }
  }

  lemma ThreadsStay(s: System, e: Event)
    requires !e.Supervise?
    ensures |Next(s, e).threads| == |s.threads| && Next(s, e).joinable == s.joinable
  {
    hide CaptureStep, ServeStep;
    match e {
      case Capturing(i, ok) => if i < |s.threads| { CaptureFrame(s, i, ok); }
      case Signal =>
      case _ => ServeFrame(s, e);
    }
  }

  lemma QuitStep(s: System, e: Event)
    requires Inv(s) && QuitInv(s)
    ensures QuitInv(Next(s, e))
  {
    hide Inv, ReapStep, StopStep, PollStep, StartStep;
    if !e.Supervise? {
      hide Next;
      OthersKeepRequests(s, e);
      FlagStays(s, e);
      ThreadsStay(s, e);
    } else {
      hide QuitInv;
      match s.supervisor {
        case Reap(at) => QuitReap(s, at);
        case Stop(at) => QuitStop(s, at);
        case Poll(at) => QuitPoll(s, at, e.hasVidpid);
        case Start(at) => QuitStart(s, at, e.opens);
      }
    }
  }

  lemma {:induction false} QuitAfter(s: System, es: seq<Event>)
    requires Inv(s) && QuitInv(s)
    ensures Inv(After(s, es)) && QuitInv(After(s, es))
    decreases |es|
  {
    hide Inv, QuitInv, Next;
    if es == [] {
    } else {
      NextInv(s, es[0]);
      QuitStep(s, es[0]);
      QuitAfter(Next(s, es[0]), es[1..]);
    }
  }

  /** The order to quit has been given. */
  ghost predicate Ordered(s: System) {
    Inv(s) && QuitInv(s) && !s.running
  }

  predicate Waiting(s: System) {
    s.supervisor == Reap(FinalJoin) || s.supervisor == Reap(Down)
  }

  /** How many moves the supervisor makes at most until it waits for the last thread. */
  function UntilWaiting(s: System): (moves: nat) {
    match s.supervisor
    case Stop(stop) =>
      (match stop
       case StopPoll => 17
       case StopLoad => if s.quitting then 3 else 16
       case StopStore(_) => if s.quitting then 2 else 15
       case StopFlag => if s.quitting then 1 else 14)
    case Reap(reap) =>
      (match reap
       case Top => 4
       case ReapCheck => 20
       case Joining => 19
       case Unfinish => 18
       case FinalJoin => 0
       case Down => 0)
    case Start(start) =>
      (match start
       case Spawn => 5
       case MarkStreaming => 6
       case OpenDevice => 7
       case StartClear => 8
       case StartReset => 9)
    case Poll(poll) =>
      (match poll
       case NoAdapter => 5
       case StartGuard => 10
       case StartDecide(_) => 11
       case StartLoad => 12
       case StartPoll => 13)
  }

  /** The supervisor's own move brings it nearer. */
  ghost predicate WaitingNearer(s: System, t: System) {
    !t.running && (UntilWaiting(t) < UntilWaiting(s) || (Waiting(s) && Waiting(t)))
  }

  lemma NearerReap(s: System, at: Reaping)
    requires Ordered(s) && s.supervisor == Reap(at)
    ensures WaitingNearer(s, ReapStep(s, at))
  {
    hide Joined;
    JoinedOrders(s);
    match at {
      case Top =>
      case ReapCheck =>
      case Joining => JoinsAtOnce(s);
      case Unfinish =>
      case FinalJoin =>
      case Down =>
    }
  }

  lemma NearerStop(s: System, at: StopCall)
    requires Ordered(s) && s.supervisor == Stop(at)
    ensures WaitingNearer(s, StopStep(s, at))
  {
    hide Inv;
    match at {
      case StopPoll =>
      case StopLoad =>
      case StopStore(_) =>
      case StopFlag =>
    }
  }

  lemma NearerPoll(s: System, at: StartRequest, hasVidpid: bool)
    requires Ordered(s) && s.supervisor == Poll(at)
    ensures WaitingNearer(s, PollStep(s, at, hasVidpid))
  {
    hide Inv;
    match at {
      case StartPoll =>
      case StartLoad =>
      case StartDecide(_) =>
      case NoAdapter =>
      case StartGuard =>
    }
  }

  lemma NearerStart(s: System, at: StartCall, opens: bool)
    requires Ordered(s) && s.supervisor == Start(at)
    ensures WaitingNearer(s, StartStep(s, at, opens))
  {
    hide Inv;
    match at {
      case StartReset =>
      case StartClear =>
      case OpenDevice =>
      case MarkStreaming =>
      case Spawn =>
    }
  }

  lemma WaitingMove(s: System, hasVidpid: bool, opens: bool)
    requires Ordered(s)
    ensures WaitingNearer(s, Next(s, Supervise(hasVidpid, opens)))
  {
    hide Ordered, WaitingNearer, ReapStep, StopStep, PollStep, StartStep;
    match s.supervisor {
      case Reap(at) => NearerReap(s, at);
      case Stop(at) => NearerStop(s, at);
      case Poll(at) => NearerPoll(s, at, hasVidpid);
      case Start(at) => NearerStart(s, at, opens);
    }
  }

  lemma OrderedStep(s: System, e: Event)
    requires Ordered(s)
    ensures Ordered(Next(s, e))
    ensures e.Supervise? ==> WaitingNearer(s, Next(s, e))
    ensures !e.Supervise? ==> UntilWaiting(Next(s, e)) == UntilWaiting(s) && (Waiting(s) <==> Waiting(Next(s, e)))
  {
    hide Inv, QuitInv, Next;
    NextInv(s, e);
    QuitStep(s, e);
    if e.Supervise? {
      WaitingMove(s, e.hasVidpid, e.opens);
    } else {
      hide UntilWaiting;
      OthersKeepRequests(s, e);
      SamePlace(s, Next(s, e));
    }
  }

  lemma SamePlace(s: System, t: System)
    requires t.supervisor == s.supervisor && t.quitting == s.quitting
    ensures UntilWaiting(t) == UntilWaiting(s)
  {
  }

  lemma {:induction false} WaitsWithin(s: System, es: seq<Event>)
    requires Ordered(s) && Supervisions(es) >= UntilWaiting(s)
    ensures Ordered(After(s, es)) && Waiting(After(s, es))
    decreases |es|
  {
    hide Ordered, Next, UntilWaiting, Waiting;
    WaitingIsZero(s);
    if es == [] {
    } else {
      OrderedStep(s, es[0]);
      WaitingIsZero(Next(s, es[0]));
      WaitsWithin(Next(s, es[0]), es[1..]);
    }
  }

  lemma WaitingIsZero(s: System)
    ensures UntilWaiting(s) == 0 <==> Waiting(s)
    ensures UntilWaiting(s) <= 20
  {
  }

  /** While the supervisor waits, a thread that is over stays over, and once down it stays down. */
  lemma {:induction false} StaysOver(s: System, es: seq<Event>)
    requires Ordered(s) && Waiting(s) && GetsOver(s, es)
    ensures Ordered(After(s, es)) && Waiting(After(s, es)) && Over(After(s, es))
    decreases |es|
  {
    hide Ordered, Next, UntilWaiting, Waiting, Over;
    if es == [] {
    } else {
      OrderedStep(s, es[0]);
      WaitingIsZero(s);
      WaitingIsZero(Next(s, es[0]));
      if Over(s) {
        OverStep(s, es[0]);
        assert GetsOver(Next(s, es[0]), es[1..]);
      }
      StaysOver(Next(s, es[0]), es[1..]);
    }
  }

  lemma OverStep(s: System, e: Event)
    requires Ordered(s) && Waiting(s) && Over(s)
    ensures Over(Next(s, e))
    ensures e.Supervise? ==> Next(s, e).supervisor == Reap(Down) && Next(s, e).threads == []
  {
    hide ServeStep;
    if e.Capturing? || e.Supervise? || e.Signal? {
    } else {
      ServeFrame(s, e);
    }
  }

  lemma {:induction false} DownWithin(s: System, es: seq<Event>)
    requires Ordered(s) && Waiting(s) && Over(s) && (Supervisions(es) >= 1 || s.supervisor == Reap(Down))
    ensures After(s, es).supervisor == Reap(Down) && After(s, es).threads == [] && !After(s, es).joinable
    decreases |es|
  {
    hide Inv, Next, UntilWaiting;
    if es == [] {
    } else {
      OrderedStep(s, es[0]);
      WaitingIsZero(s);
      WaitingIsZero(Next(s, es[0]));
      OverStep(s, es[0]);
      if !es[0].Supervise? {
        OthersKeepRequests(s, es[0]);
      }
      DownWithin(Next(s, es[0]), es[1..]);
    }
  }

  /** The daemon shuts down: in every interleaving, once it has been told to quit, twenty moves of the supervisor,
      then seven of a thread if there is one, then one of the supervisor, leave it down with no thread and nothing
      to join. */
  lemma ShutsDown(s0: System, es: seq<Event>, first: seq<Event>, second: seq<Event>, third: seq<Event>)
    requires Initial(s0) && !After(s0, es).running
    requires Supervisions(first) >= 20 && Moves(second) >= 7 && Supervisions(third) >= 1
    ensures var t := After(After(After(After(s0, es), first), second), third);
            t.supervisor == Reap(Down) && t.threads == [] && !t.joinable
  {
    hide After, Next, UntilWaiting, Inv;
    InitialInv(s0);
    QuitAfter(s0, es);
    var s := After(s0, es);
    WaitingIsZero(s);
    WaitsWithin(s, first);
    var t := After(s, first);
    StopsInSeven(t, second);
    StaysOver(t, second);
    DownWithin(After(t, second), third);
  }
}
