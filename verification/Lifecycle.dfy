/** The session lifecycle: the supervisor loop of openprlx_main.cpp, the capture threads of WFBReceiver.cpp and the
    handlers of ControlServer.h, interleaved between any two of their accesses to what they share. */
module Lifecycle {

  datatype SessionState = Idle | Starting | Streaming | Error | Stopping

  predicate Terminal(s: SessionState) {
    s.Idle? || s.Error?
  }

  predicate Active(s: SessionState) {
    s.Streaming? || s.Starting?
  }

  predicate Busy(s: SessionState) {
    Active(s) || s.Stopping?
  }

  /** A retune, with the session in which its handler saw Streaming and the one in which it was staged. */
  datatype Tune = Tune(channel: int, width: int, checkedIn: nat, stagedIn: nat)

  datatype Mail = Empty | Staged(tune: Tune)

  /** Where a capture thread stands. At Finish it has made its last write of the state, at Gone its last write of
      all. */
  datatype Working = BringUp | LoopTop | TakeTune | TakeKey | Read | Fault
  datatype Ending = LastLoad | LastStore | Finish | Gone

  datatype Capture = Work(work: Working) | End(end: Ending)

  /** Where the supervisor stands in each part of its loop, with the state it has loaded and not yet acted on. */
  datatype Reaping = Top | ReapCheck | Joining | Unfinish | FinalJoin | Down
  datatype StopCall = StopPoll | StopLoad | StopStore(seen: SessionState) | StopFlag
  datatype StartRequest = StartPoll | StartLoad | StartDecide(seen: SessionState) | NoAdapter | StartGuard
  datatype StartCall = StartReset | StartClear | OpenDevice | MarkStreaming | Spawn

  datatype Supervisor = Reap(reap: Reaping) | Stop(stop: StopCall) | Poll(poll: StartRequest) | Start(start: StartCall)

  /** Where the control server stands: a handler that has passed its check has yet to stage its request. */
  datatype Server = Ready | StageStart | StageTune(channel: int, width: int, checkedIn: nat)

  datatype System = System(
    state: SessionState, finished: bool, shouldStop: bool,
    startPending: bool, stopPending: bool, mail: Mail,
    joinable: bool, threads: seq<Capture>,
    supervisor: Supervisor, running: bool, quitting: bool, server: Server,
    session: nat, applied: seq<(Tune, nat)>)

  /** Who moves next, and how what lies outside turns out. */
  datatype Event =
    | Supervise(hasVidpid: bool, opens: bool)
    | Capturing(thread: nat, ok: bool)
    | PostStart(valid: bool)
    | PostStop
    | PostTune(channel: int, width: int)
    | Stage
    | Signal

  predicate ValidTune(channel: int, width: int) {
    1 <= channel <= 177 && (width == -1 || 0 <= width <= 2)
  }

  /** Joining waits for the thread; without one it returns at once. */
  predicate JoinReturns(s: System) {
    !s.joinable || (s.threads != [] && s.threads[|s.threads| - 1] == End(Gone))
  }

  function Joined(s: System): (s': System) {
    if s.joinable && s.threads != [] then s.(joinable := false, threads := s.threads[..|s.threads| - 1]) else s
  }

  /** The loop head: leave the loop when told to, else reap a finished thread; and the join after the loop. */
  function ReapStep(s: System, at: Reaping): (s': System) {
    match at
    case Top =>
      if s.running then s.(supervisor := if s.finished then Reap(ReapCheck) else Stop(StopPoll))
      else s.(quitting := true, supervisor := Stop(StopLoad))
    case ReapCheck => s.(supervisor := if Terminal(s.state) then Reap(Joining) else Stop(StopPoll))
    case Joining => if JoinReturns(s) then Joined(s).(supervisor := Reap(Unfinish)) else s
    case Unfinish => s.(finished := false, supervisor := Stop(StopPoll))
    case FinalJoin => if JoinReturns(s) then Joined(s).(supervisor := Reap(Down)) else s
    case Down => s
  }

  /** A stop request, and Stop itself: the state is loaded first and stored later. */
  function StopStep(s: System, at: StopCall): (s': System) {
    match at
    case StopPoll => s.(stopPending := false, supervisor := if s.stopPending then Stop(StopLoad) else Poll(StartPoll))
    case StopLoad => s.(supervisor := Stop(StopStore(s.state)))
    case StopStore(seen) => s.(state := if Active(seen) then Stopping else s.state, supervisor := Stop(StopFlag))
    case StopFlag => s.(shouldStop := true, supervisor := if s.quitting then Reap(FinalJoin) else Poll(StartPoll))
  }

  /** A start request, up to the guard of Start. */
  function PollStep(s: System, at: StartRequest, hasVidpid: bool): (s': System) {
    match at
    case StartPoll => s.(startPending := false, supervisor := if s.startPending then Poll(StartLoad) else Reap(Top))
    case StartLoad => s.(supervisor := Poll(StartDecide(s.state)))
    case StartDecide(seen) =>
      if Busy(seen) || s.finished then s.(startPending := true, supervisor := Reap(Top))
      else s.(supervisor := Poll(if hasVidpid then StartGuard else NoAdapter))
    case NoAdapter => s.(state := Error, supervisor := Reap(Top))
    case StartGuard =>
      if s.joinable then s.(supervisor := Reap(Top))
      else s.(state := Starting, session := s.session + 1, supervisor := Start(StartReset))
  }

  /** The rest of Start. */
  function StartStep(s: System, at: StartCall, opens: bool): (s': System) {
    match at
    case StartReset => s.(finished := false, shouldStop := false, supervisor := Start(StartClear))
    case StartClear => s.(mail := Empty, supervisor := Start(OpenDevice))
    case OpenDevice => if opens then s.(supervisor := Start(MarkStreaming))
        else s.(state := Error, supervisor := Reap(Top))
    case MarkStreaming => s.(state := Streaming, supervisor := Start(Spawn))
    case Spawn => s.(joinable := true, threads := s.threads + [Work(BringUp)], supervisor := Reap(Top))
  }

  function SuperviseStep(s: System, hasVidpid: bool, opens: bool): (s': System) {
    match s.supervisor
    case Reap(at) => ReapStep(s, at)
    case Stop(at) => StopStep(s, at)
    case Poll(at) => PollStep(s, at, hasVidpid)
    case Start(at) => StartStep(s, at, opens)
  }

  /** Thread i goes to another place. */
  function Moved(s: System, i: nat, to: Capture): (s': System)
    requires i < |s.threads|
  {
    s.(threads := s.threads[i := to])
  }

  /** Thread i brings the adapter up and runs the receive loop, until it is told to stop or fails. */
  function WorkStep(s: System, i: nat, at: Working, ok: bool): (s': System)
    requires i < |s.threads|
  {
    match at
    case BringUp => Moved(s, i, Work(if ok then LoopTop else Fault))
    case LoopTop => Moved(s, i, if s.shouldStop then End(LastLoad) else Work(TakeTune))
    case TakeTune => Moved(Taken(s), i, Work(TakeKey))
    case TakeKey => Moved(if ok then s else s.(state := Error), i, Work(Read))
    case Read => Moved(s, i, Work(if ok then LoopTop else Fault))
    case Fault => Moved(s.(state := Error), i, End(LastLoad))
  }

  /** Thread i settles the state and leaves its flag behind. */
  function EndStep(s: System, i: nat, at: Ending): (s': System)
    requires i < |s.threads|
  {
    match at
    case LastLoad => Moved(s, i, End(if s.state.Error? then Finish else LastStore))
    case LastStore => Moved(s.(state := Idle), i, End(Finish))
    case Finish => Moved(s.(finished := true), i, End(Gone))
    case Gone => s
  }

  function CaptureStep(s: System, i: nat, ok: bool): (s': System)
    requires i < |s.threads|
  {
    match s.threads[i]
    case Work(at) => WorkStep(s, i, at, ok)
    case End(at) => EndStep(s, i, at)
  }

  /** The staged retune, if any, is taken out and applied. */
  function Taken(s: System): (s': System) {
    if s.mail.Staged? then s.(mail := Empty, applied := s.applied + [(s.mail.tune, s.session)]) else s
  }

  function PostStartStep(s: System, valid: bool): (s': System) {
    if s.server.Ready? && !Busy(s.state) && valid then s.(server := StageStart) else s
  }

  function PostStopStep(s: System): (s': System) {
    if s.server.Ready? then s.(stopPending := true) else s
  }

  function PostTuneStep(s: System, channel: int, width: int): (s': System) {
    if s.server.Ready? && s.state.Streaming? && ValidTune(channel, width)
    then s.(server := StageTune(channel, width, s.session)) else s
  }

  function StageStep(s: System, at: Server): (s': System) {
    match at
    case Ready => s
    case StageStart => s.(startPending := true, server := Ready)
    case StageTune(channel, width, checkedIn) =>
      s.(mail := Staged(Tune(channel, width, checkedIn, s.session)), server := Ready)
  }

  function ServeStep(s: System, e: Event): (s': System) {
    match e
    case PostStart(valid) => PostStartStep(s, valid)
    case PostStop => PostStopStep(s)
    case PostTune(channel, width) => PostTuneStep(s, channel, width)
    case Stage => StageStep(s, s.server)
    case _ => s
  }

  function Next(s: System, e: Event): (s': System) {
    match e
    case Supervise(hasVidpid, opens) => SuperviseStep(s, hasVidpid, opens)
    case Capturing(i, ok) => if i < |s.threads| then CaptureStep(s, i, ok) else s
    case Signal => s.(running := false)
    case _ => ServeStep(s, e)
  }

  /** The daemon has just entered its supervisor loop; a start may already be pending from the command line. */
  ghost predicate Initial(s: System) {
    && s.state.Idle? && !s.finished && !s.shouldStop && !s.stopPending && s.mail.Empty? && !s.joinable
       && s.threads == []
    && s.supervisor == Reap(Top) && s.running && !s.quitting && s.server.Ready? && s.session == 0 && s.applied == []
  }

  function After(s: System, es: seq<Event>): (s': System)
    decreases |es|
  {
    if es == [] then s else After(Next(s, es[0]), es[1..])
  }

  /** The thread will not write the state again. */
  predicate Past(c: Capture) {
    c == End(Finish) || c == End(Gone)
  }

  /** Places about which the invariant says nothing in particular. */
  predicate Plain(at: Supervisor) {
    at.Stop? || at.Poll? || at == Reap(Top) || at == Reap(FinalJoin)
  }

  // ----- what each kind of step changes -----

  lemma ReapFrame(s: System, at: Reaping)
    ensures var t := ReapStep(s, at);
            && t.state == s.state && t.mail == s.mail && t.applied == s.applied && t.server == s.server
               && t.session == s.session
            && (t.supervisor.Reap? || t.supervisor.Stop? || t == s)
            && (t.threads == s.threads || (JoinReturns(s) && s.joinable && t.threads == s.threads[..|s.threads| - 1]))
  {
    match at {
      case Top =>
      case ReapCheck =>
      case Joining =>
      case Unfinish =>
      case FinalJoin =>
      case Down =>
    }
  }

  lemma StopFrame(s: System, at: StopCall)
    ensures var t := StopStep(s, at);
            && t.threads == s.threads && t.joinable == s.joinable && t.finished == s.finished
            && t.mail == s.mail && t.applied == s.applied && t.server == s.server && t.session == s.session
            && t.state == (if at.StopStore? && Active(at.seen) then Stopping else s.state)
            && Plain(t.supervisor)
  {
    match at {
      case StopPoll =>
      case StopLoad =>
      case StopStore(_) =>
      case StopFlag =>
    }
  }

  lemma PollSame(s: System, at: StartRequest, hasVidpid: bool)
    ensures var t := PollStep(s, at, hasVidpid);
            && t.threads == s.threads && t.joinable == s.joinable && t.finished == s.finished
            && t.mail == s.mail && t.applied == s.applied && t.server == s.server && t.shouldStop == s.shouldStop
  {
    hide PollStep;
    PollSameThreads(s, at, hasVidpid);
    PollSameMail(s, at, hasVidpid);
  }

  lemma PollSameThreads(s: System, at: StartRequest, hasVidpid: bool)
    ensures var t := PollStep(s, at, hasVidpid);
            && t.threads == s.threads && t.joinable == s.joinable && t.finished == s.finished
            && t.shouldStop == s.shouldStop
  {
    match at {
      case StartPoll =>
      case StartLoad =>
      case StartDecide(_) =>
      case NoAdapter =>
      case StartGuard =>
    }
  }

  lemma PollSameMail(s: System, at: StartRequest, hasVidpid: bool)
    ensures var t := PollStep(s, at, hasVidpid); t.mail == s.mail && t.applied == s.applied && t.server == s.server
  {
    match at {
      case StartPoll =>
      case StartLoad =>
      case StartDecide(_) =>
      case NoAdapter =>
      case StartGuard =>
    }
  }

  lemma PollMoves(s: System, at: StartRequest, hasVidpid: bool)
    ensures var t := PollStep(s, at, hasVidpid);
            if at.StartGuard? && !s.joinable
            then t.state.Starting? && t.session == s.session + 1 && t.supervisor == Start(StartReset)
            else && t.session == s.session && Plain(t.supervisor)
                 && (t.state == s.state || (at.NoAdapter? && t.state.Error?))
  {
    match at {
      case StartPoll =>
      case StartLoad =>
      case StartDecide(_) =>
      case NoAdapter =>
      case StartGuard =>
    }
  }

  lemma StartFrame(s: System, at: StartCall, opens: bool)
    ensures var t := StartStep(s, at, opens);
            && t.applied == s.applied && t.server == s.server && t.session == s.session
            && (at.StartClear? ==> t.mail.Empty?) && (!at.StartClear? ==> t.mail == s.mail)
            && (at.StartReset? ==> t.supervisor == Start(StartClear))
            && (!at.StartReset? ==> t.supervisor != Start(StartReset) && t.supervisor != Start(StartClear))
            && (at.Spawn? ==> t.threads == s.threads + [Work(BringUp)]) && (!at.Spawn? ==> t.threads == s.threads)
  {
    match at {
      case StartReset =>
      case StartClear =>
      case OpenDevice =>
      case MarkStreaming =>
      case Spawn =>
    }
  }

  lemma TakenFrame(s: System)
    ensures var t := Taken(s);
            && t.supervisor == s.supervisor && t.server == s.server && t.session == s.session
               && t.joinable == s.joinable
            && t.threads == s.threads && t.state == s.state && t.finished == s.finished
            && ((t.mail == s.mail && t.applied == s.applied)
                || (s.mail.Staged? && t.mail.Empty? && t.applied == s.applied + [(s.mail.tune, s.session)]))
  {
  }

  ghost predicate SameBut(s: System, t: System) {
    && t.supervisor == s.supervisor && t.server == s.server && t.session == s.session && t.joinable == s.joinable
    && t.finished == s.finished
    && ((t.mail == s.mail && t.applied == s.applied)
        || (s.mail.Staged? && t.mail.Empty? && t.applied == s.applied + [(s.mail.tune, s.session)]))
  }

  lemma WorkFrame(s: System, i: nat, at: Working, ok: bool)
    requires i < |s.threads| && s.threads[i] == Work(at)
    ensures var t := WorkStep(s, i, at, ok);
            && SameBut(s, t) && (t.state == s.state || t.state.Error?)
            && |t.threads| == |s.threads| && t.threads == s.threads[i := t.threads[i]] && !Past(t.threads[i])
  {
    match at {
      case BringUp =>
      case LoopTop =>
      case TakeTune =>
        hide Taken;
        TakenFrame(s);
      case TakeKey =>
      case Read =>
      case Fault =>
    }
  }

  lemma EndFrame(s: System, i: nat, at: Ending)
    requires i < |s.threads| && s.threads[i] == End(at)
    ensures var t := EndStep(s, i, at);
            && t.supervisor == s.supervisor && t.server == s.server && t.session == s.session
               && t.joinable == s.joinable
            && t.mail == s.mail && t.applied == s.applied
            && |t.threads| == |s.threads| && t.threads == s.threads[i := t.threads[i]]
            && (Past(End(at)) ==> t.state == s.state && Past(t.threads[i]))
            && (!Past(End(at)) ==> t.threads[i] != End(Gone) && if Past(t.threads[i]) then Terminal(t.state)
               else t.state == s.state)
            && (at.Gone? ==> t == s)
            && if t.threads[i] == End(Gone) then t.finished || t == s else t.finished == s.finished
  {
    match at {
      case LastLoad =>
      case LastStore =>
      case Finish =>
      case Gone =>
    }
  }

  /** A move of a capture thread: it does not touch the others, and past its last write of the state it leaves it
      alone. */
  ghost predicate Captured(s: System, i: nat, t: System)
    requires i < |s.threads|
  {
    && t.supervisor == s.supervisor && t.server == s.server && t.session == s.session && t.joinable == s.joinable
    && |t.threads| == |s.threads| && t.threads == s.threads[i := t.threads[i]]
    && (t.state == s.state || Terminal(t.state))
    && (Past(s.threads[i]) ==> t.state == s.state && Past(t.threads[i]))
    && (!Past(s.threads[i]) && Past(t.threads[i]) ==> Terminal(t.state))
    && (t.threads[i] == End(Gone) ==> t.finished || t == s)
    && (t.threads[i] != End(Gone) ==> t.finished == s.finished && s.threads[i] != End(Gone))
    && ((t.mail == s.mail && t.applied == s.applied)
        || (s.mail.Staged? && t.mail.Empty? && t.applied == s.applied + [(s.mail.tune, s.session)]))
  }

  lemma CaptureFrame(s: System, i: nat, ok: bool)
    requires i < |s.threads|
    ensures Captured(s, i, CaptureStep(s, i, ok))
  {
    hide WorkStep, EndStep;
    match s.threads[i] {
      case Work(at) => WorkFrame(s, i, at, ok);
      case End(at) => EndFrame(s, i, at);
    }
  }

  /** A handler changes nothing but the mailbox and its own place. */
  ghost predicate Served(s: System, t: System) {
    && t.state == s.state && t.finished == s.finished && t.threads == s.threads && t.joinable == s.joinable
    && t.supervisor == s.supervisor && t.session == s.session && t.applied == s.applied
    && (t.mail == s.mail
        || (s.server.StageTune?
            && t.mail == Staged(Tune(s.server.channel, s.server.width, s.server.checkedIn, s.session))))
    && (t.server == s.server || t.server.Ready? || t.server.StageStart?
        || (s.state.Streaming? && t.server.StageTune? && t.server.checkedIn == s.session
            && ValidTune(t.server.channel, t.server.width)))
  }

  lemma StageFrame(s: System, at: Server)
    requires s.server == at
    ensures Served(s, StageStep(s, at))
  {
    match at {
      case Ready =>
      case StageStart =>
      case StageTune(_, _, _) =>
    }
  }

  lemma PostFrame(s: System, valid: bool, channel: int, width: int)
    ensures Served(s, PostStartStep(s, valid))
    ensures Served(s, PostStopStep(s))
    ensures Served(s, PostTuneStep(s, channel, width))
  {
  }

  lemma ServeFrame(s: System, e: Event)
    ensures Served(s, ServeStep(s, e))
  {
    hide PostStartStep, PostStopStep, PostTuneStep, StageStep;
    match e {
      case PostStart(valid) => PostFrame(s, valid, 0, 0);
      case PostStop => PostFrame(s, false, 0, 0);
      case PostTune(channel, width) => PostFrame(s, false, channel, width);
      case Stage => StageFrame(s, s.server);
      case _ => assert ServeStep(s, e) == s;
    }
  }

  // ----- threads -----

  /** What holds of the threads, the flag they leave behind and the place of the supervisor. */
  ghost predicate ThreadInv(joinable: bool, threads: seq<Capture>, finished: bool, at: Supervisor) {
    && (threads == [] || (|threads| == 1 && (finished <==> threads[0] == End(Gone))))
    && (joinable <==> threads != [])
    && (at.Start? || at == Reap(Unfinish) ==> threads == [])
    && (at == Reap(ReapCheck) || at == Reap(Joining) || at == Reap(Unfinish) ==> finished)
    && (finished && threads == [] ==> at == Reap(Unfinish) || at == Reap(Down))
  }

  /** What holds of the state: it reads active only while a session starts or its thread has yet to settle it. */
  ghost predicate StateInv(state: SessionState, threads: seq<Capture>, at: Supervisor) {
    && (Active(state) ==> at.Start? || (threads != [] && !Past(threads[0])))
    && (at.Start? ==> state == if at.start.Spawn? then Streaming else Starting)
    && (at == Reap(Joining) ==> Terminal(state))
  }

  ghost predicate Inv(s: System) {
    ThreadInv(s.joinable, s.threads, s.finished, s.supervisor) && StateInv(s.state, s.threads, s.supervisor)
  }

  /** Moving between plain places keeps the invariant, unless the state is made active. */
  lemma PlainMove(s: System, t: System)
    requires Inv(s) && Plain(s.supervisor) && Plain(t.supervisor)
    requires t.joinable == s.joinable && t.threads == s.threads && t.finished == s.finished
    requires t.state == s.state || !Active(t.state)
    ensures Inv(t)
  {
  }

  lemma JoinedThreads(s: System)
    requires ThreadInv(s.joinable, s.threads, s.finished, s.supervisor)
    ensures !Joined(s).joinable && Joined(s).threads == []
    ensures Joined(s).finished == s.finished && Joined(s).state == s.state
  {
    assert s.threads != [] ==> s.threads[..|s.threads| - 1] == [];
  }

  lemma ReapThreads(s: System, at: Reaping)
    requires ThreadInv(s.joinable, s.threads, s.finished, s.supervisor) && s.supervisor == Reap(at)
    ensures var t := ReapStep(s, at); ThreadInv(t.joinable, t.threads, t.finished, t.supervisor)
  {
    hide Joined;
    JoinedThreads(s);
    match at {
      case Top =>
      case ReapCheck =>
      case Joining =>
      case Unfinish =>
      case FinalJoin =>
      case Down =>
    }
  }

  lemma ReapState(s: System, at: Reaping)
    requires Inv(s) && s.supervisor == Reap(at)
    ensures var t := ReapStep(s, at); StateInv(t.state, t.threads, t.supervisor)
  {
    hide Joined;
    JoinedThreads(s);
    match at {
      case Top =>
      case ReapCheck =>
      case Joining =>
      case Unfinish =>
      case FinalJoin =>
      case Down =>
    }
  }

  lemma ReapInv(s: System, at: Reaping)
    requires Inv(s) && s.supervisor == Reap(at)
    ensures Inv(ReapStep(s, at))
  {
    hide ThreadInv, StateInv, ReapStep;
    ReapThreads(s, at);
    ReapState(s, at);
  }

  lemma StopInv(s: System, at: StopCall)
    requires Inv(s) && s.supervisor == Stop(at)
    ensures Inv(StopStep(s, at))
  {
    hide Inv, StopStep;
    StopFrame(s, at);
    PlainMove(s, StopStep(s, at));
  }

  lemma PollInv(s: System, at: StartRequest, hasVidpid: bool)
    requires Inv(s) && s.supervisor == Poll(at)
    ensures Inv(PollStep(s, at, hasVidpid))
  {
    hide PollStep;
    PollSame(s, at, hasVidpid);
    PollMoves(s, at, hasVidpid);
  }

  lemma StartThreads(s: System, at: StartCall, opens: bool)
    requires ThreadInv(s.joinable, s.threads, s.finished, s.supervisor) && s.supervisor == Start(at)
    ensures var t := StartStep(s, at, opens); ThreadInv(t.joinable, t.threads, t.finished, t.supervisor)
  {
    assert s.threads == [];
    match at {
      case StartReset =>
      case StartClear =>
      case OpenDevice =>
      case MarkStreaming =>
      case Spawn => assert [] + [Work(BringUp)] == [Work(BringUp)];
    }
  }

  lemma StartState(s: System, at: StartCall, opens: bool)
    requires Inv(s) && s.supervisor == Start(at)
    ensures var t := StartStep(s, at, opens); StateInv(t.state, t.threads, t.supervisor)
  {
    assert s.threads == [];
    match at {
      case StartReset =>
      case StartClear =>
      case OpenDevice =>
      case MarkStreaming =>
      case Spawn => assert [] + [Work(BringUp)] == [Work(BringUp)];
    }
  }

  lemma StartInv(s: System, at: StartCall, opens: bool)
    requires Inv(s) && s.supervisor == Start(at)
    ensures Inv(StartStep(s, at, opens))
  {
    hide ThreadInv, StateInv, StartStep;
    StartThreads(s, at, opens);
    StartState(s, at, opens);
  }

  lemma SuperviseInv(s: System, hasVidpid: bool, opens: bool)
    requires Inv(s)
    ensures Inv(SuperviseStep(s, hasVidpid, opens))
  {
    hide Inv, ReapStep, StopStep, PollStep, StartStep;
    match s.supervisor {
      case Reap(at) => ReapInv(s, at);
      case Stop(at) => StopInv(s, at);
      case Poll(at) => PollInv(s, at, hasVidpid);
      case Start(at) => StartInv(s, at, opens);
    }
  }

  lemma CaptureInv(s: System, i: nat, ok: bool)
    requires Inv(s) && i < |s.threads|
    ensures Inv(CaptureStep(s, i, ok))
  {
    hide CaptureStep;
    CaptureFrame(s, i, ok);

  }

  lemma ServeInv(s: System, e: Event)
    requires Inv(s)
    ensures Inv(ServeStep(s, e))
  {
    hide ThreadInv, StateInv, ServeStep;
    ServeFrame(s, e);
  }

  lemma NextInv(s: System, e: Event)
    requires Inv(s)
    ensures Inv(Next(s, e))
  {
    hide SuperviseStep, CaptureStep, ServeStep, ThreadInv, StateInv;
    match e {
      case Supervise(hasVidpid, opens) => SuperviseInv(s, hasVidpid, opens);
      case Capturing(i, ok) => if i < |s.threads| { CaptureInv(s, i, ok); }
      case Signal =>
      case _ => ServeInv(s, e);
    }
  }

  lemma {:induction false} AfterInv(s: System, es: seq<Event>)
    requires Inv(s)
    ensures Inv(After(s, es))
    decreases |es|
  {
    hide Inv, Next;
    if es == [] {
    } else {
      NextInv(s, es[0]);
      AfterInv(Next(s, es[0]), es[1..]);
    }
  }

  lemma InitialInv(s: System)
    requires Initial(s)
    ensures Inv(s) && Settled(s)
  {
  }

  /** In every interleaving there is at most one capture thread, and once captureFinished reads true it has made its
      last write. */
  lemma OneThread(s0: System, es: seq<Event>)
    requires Initial(s0)
    ensures |After(s0, es).threads| <= 1
    ensures After(s0, es).finished ==> forall i :: 0 <= i < |After(s0, es).threads| ==>
            After(s0, es).threads[i] == End(Gone)
  {
    hide After;
    InitialInv(s0);
    AfterInv(s0, es);
  }

  // ----- stopping -----

  /** How many moves a thread that has been told to stop still makes at most. */
  function Remaining(c: Capture): (moves: nat) {
    match c
    case Work(at) =>
      (match at
       case TakeTune => 7
       case TakeKey => 6
       case Read => 5
       case BringUp => 5
       case LoopTop => 4
       case Fault => 4)
    case End(at) =>
      (match at
       case LastLoad => 3
       case LastStore => 2
       case Finish => 1
       case Gone => 0)
  }

  lemma ReapKeepsFlag(s: System, at: Reaping)
    ensures ReapStep(s, at).shouldStop == s.shouldStop
  {
    match at {
      case Top =>
      case ReapCheck =>
      case Joining =>
      case Unfinish =>
      case FinalJoin =>
      case Down =>
    }
  }

  lemma StopKeepsFlag(s: System, at: StopCall)
    ensures StopStep(s, at).shouldStop == (s.shouldStop || at.StopFlag?)
  {
    match at {
      case StopPoll =>
      case StopLoad =>
      case StopStore(_) =>
      case StopFlag =>
    }
  }

  lemma WorkKeepsFlag(s: System, i: nat, at: Working, ok: bool)
    requires i < |s.threads|
    ensures var t := WorkStep(s, i, at, ok);
            && t.shouldStop == s.shouldStop && i < |t.threads|
            && (s.shouldStop ==> Remaining(t.threads[i]) < Remaining(Work(at)))
  {
    match at {
      case BringUp =>
      case LoopTop =>
      case TakeTune =>
      case TakeKey =>
      case Read =>
      case Fault =>
    }
  }

  lemma EndKeepsFlag(s: System, i: nat, at: Ending)
    requires i < |s.threads| && s.threads[i] == End(at)
    ensures var t := EndStep(s, i, at);
            && t.shouldStop == s.shouldStop && i < |t.threads|
            && (if at.Gone? then t == s else Remaining(t.threads[i]) < Remaining(End(at)))
  {
    match at {
      case LastLoad =>
      case LastStore =>
      case Finish =>
      case Gone =>
    }
  }

  lemma ServeKeepsFlag(s: System, e: Event)
    ensures ServeStep(s, e).shouldStop == s.shouldStop
  {
    match e {
      case Stage => match s.server { case Ready => case StageStart => case StageTune(_, _, _) => }
      case PostStart(_) =>
      case PostStop =>
      case PostTune(_, _) =>
      case _ => assert ServeStep(s, e) == s;
    }
  }

  lemma CaptureStops(s: System, ok: bool)
    requires Inv(s) && s.shouldStop && s.threads != []
    ensures var t := CaptureStep(s, 0, ok);
            && t.shouldStop && t.threads != []
            && (s.threads[0] == End(Gone) || Remaining(t.threads[0]) < Remaining(s.threads[0]))
            && (s.threads[0] == End(Gone) ==> t == s)
  {
    hide WorkStep, EndStep;
    match s.threads[0] {
      case Work(at) => WorkKeepsFlag(s, 0, at, ok);
      case End(at) => EndKeepsFlag(s, 0, at);
    }
  }

  /** A thread told to stop stays told, whoever moves next, and each of its own moves brings it nearer to its end: after
      at most seven of them it is gone and can be joined. */
  lemma StopEnds(s: System, e: Event)
    requires Inv(s) && s.shouldStop && s.threads != []
    ensures var t := Next(s, e);
            t.threads == []
            || (t.shouldStop && Remaining(t.threads[0]) <= Remaining(s.threads[0])
                && (e.Capturing? && e.thread == 0 && s.threads[0] != End(Gone) ==>
                      Remaining(t.threads[0]) < Remaining(s.threads[0])))
  {
    hide ReapStep, StopStep, PollStep, StartStep, CaptureStep, ServeStep;
    match e {
      case Supervise(hasVidpid, opens) =>
        match s.supervisor {
          case Reap(at) =>
            ReapFrame(s, at);
            ReapKeepsFlag(s, at);
          case Stop(at) =>
            StopFrame(s, at);
            StopKeepsFlag(s, at);
          case Poll(at) =>
            PollSame(s, at, hasVidpid);
            PollMoves(s, at, hasVidpid);
          case Start(at) =>
        }
      case Capturing(i, ok) => if i < |s.threads| { CaptureStops(s, ok); }
      case Signal =>
      case _ =>
        ServeFrame(s, e);
        ServeKeepsFlag(s, e);
    }
  }

  /** There is no thread, or it has made its last write. */
  predicate Over(s: System) {
    s.threads == [] || s.threads[0] == End(Gone)
  }

  /** At some moment of the run the thread is over. */
  ghost predicate GetsOver(s: System, es: seq<Event>)
    decreases |es|
  {
    Over(s) || (es != [] && GetsOver(Next(s, es[0]), es[1..]))
  }

  /** The moves of the thread in a run. */
  function Moves(es: seq<Event>): (n: nat) {
    if es == [] then 0 else (if es[0].Capturing? && es[0].thread == 0 then 1 else 0) + Moves(es[1..])
  }

  lemma {:induction false} StopEndsWithin(s: System, es: seq<Event>)
    requires Inv(s) && s.shouldStop && s.threads != [] && Moves(es) >= Remaining(s.threads[0])
    ensures GetsOver(s, es)
    decreases |es|
  {
    hide Inv, Next;
    if !Over(s) {
      assert es != [];
      NextInv(s, es[0]);
      StopEnds(s, es[0]);
      if !Over(Next(s, es[0])) {
        StopEndsWithin(Next(s, es[0]), es[1..]);
      } else {
        assert GetsOver(Next(s, es[0]), es[1..]);
      }
    }
  }

  /** In every interleaving a thread that has been told to stop is over after seven moves of its own. */
  lemma StopsInSeven(s: System, es: seq<Event>)
    requires Inv(s) && s.shouldStop && Moves(es) >= 7
    ensures GetsOver(s, es)
  {
    hide Inv, Next;
    if s.threads != [] {
      StopEndsWithin(s, es);
    }
  }

  /** While the state reads Stopping the thread has been told to stop, or is about to be by the supervisor's next
      move. */
  ghost predicate Told(s: System) {
    s.state.Stopping? ==> s.shouldStop || s.supervisor == Stop(StopFlag)
  }

  lemma ToldStep(s: System, e: Event)
    requires Inv(s) && Told(s)
    ensures Told(Next(s, e))
  {
    hide ReapStep, StopStep, PollStep, StartStep, CaptureStep, ServeStep;
    match e {
      case Supervise(hasVidpid, opens) =>
        match s.supervisor {
          case Reap(at) =>
            ReapFrame(s, at);
            ReapKeepsFlag(s, at);
          case Stop(at) => StopTold(s, at);
          case Poll(at) =>
            PollSame(s, at, hasVidpid);
            PollMoves(s, at, hasVidpid);
          case Start(at) => StartTold(s, at, opens);
        }
      case Capturing(i, ok) => if i < |s.threads| { CaptureTold(s, i, ok); }
      case Signal =>
      case _ =>
        ServeFrame(s, e);
        ServeKeepsFlag(s, e);
    }
  }

  lemma StopTold(s: System, at: StopCall)
    requires Told(s) && s.supervisor == Stop(at)
    ensures Told(StopStep(s, at))
  {
    match at {
      case StopPoll =>
      case StopLoad =>
      case StopStore(_) =>
      case StopFlag =>
    }
  }

  lemma StartTold(s: System, at: StartCall, opens: bool)
    requires Inv(s) && s.supervisor == Start(at)
    ensures Told(StartStep(s, at, opens))
  {
    match at {
      case StartReset =>
      case StartClear =>
      case OpenDevice =>
      case MarkStreaming =>
      case Spawn =>
    }
  }

  lemma CaptureTold(s: System, i: nat, ok: bool)
    requires Inv(s) && Told(s) && i < |s.threads|
    ensures Told(CaptureStep(s, i, ok))
  {
    hide WorkStep, EndStep, Inv;
    match s.threads[i] {
      case Work(at) =>
        WorkFrame(s, i, at, ok);
        WorkKeepsFlag(s, i, at, ok);
      case End(at) =>
        EndFrame(s, i, at);
        EndKeepsFlag(s, i, at);
    }
  }

  /** In every reachable state that reads Stopping, the thread has been told to stop or is told by the supervisor's
      next move. */
  lemma {:induction false} StoppingIsTold(s: System, es: seq<Event>)
    requires Inv(s) && Told(s)
    ensures Told(After(s, es))
    decreases |es|
  {
    hide Inv, Told, Next;
    if es == [] {
    } else {
      NextInv(s, es[0]);
      ToldStep(s, es[0]);
      StoppingIsTold(Next(s, es[0]), es[1..]);
    }
  }

  // ----- the state a finished thread leaves behind -----

  ghost predicate SomePast(s: System) {
    exists i :: 0 <= i < |s.threads| && Past(s.threads[i])
  }

  /** Once a thread will not write the state again, the state is one that lets the supervisor reap it. */
  ghost predicate Settled(s: System) {
    SomePast(s) ==> Terminal(s.state)
  }

  /** Stop stores Stopping although the thread it saw running has settled the state in the meantime. */
  ghost predicate Late(s: System, e: Event) {
    e.Supervise? && s.supervisor.Stop? && s.supervisor.stop.StopStore? && Active(s.supervisor.stop.seen) && SomePast(s)
  }

  lemma SettledStep(s: System, e: Event)
    requires Inv(s) && Settled(s)
    ensures Settled(Next(s, e)) <==> !Late(s, e)
  {
    hide ReapStep, StopStep, PollStep, StartStep, CaptureStep, ServeStep;
    match e {
      case Supervise(hasVidpid, opens) => SuperviseSettled(s, hasVidpid, opens);
      case Capturing(i, ok) => if i < |s.threads| { CaptureFrame(s, i, ok); }
      case Signal =>
      case _ => ServeFrame(s, e);
    }
  }

  lemma SuperviseSettled(s: System, hasVidpid: bool, opens: bool)
    requires Inv(s) && Settled(s)
    ensures Settled(SuperviseStep(s, hasVidpid, opens)) <==> !Late(s, Supervise(hasVidpid, opens))
  {
    hide ReapStep, StopStep, PollStep, StartStep;
    match s.supervisor {
      case Reap(at) => ReapFrame(s, at);
      case Stop(at) => StopFrame(s, at);
      case Poll(at) =>
        PollSame(s, at, hasVidpid);
        PollMoves(s, at, hasVidpid);
      case Start(at) => StartFrame(s, at, opens);
    }
  }

  ghost predicate AlwaysSettled(s: System, es: seq<Event>)
    decreases |es|
  {
    Settled(s) && (es != [] ==> AlwaysSettled(Next(s, es[0]), es[1..]))
  }

  ghost predicate NeverLate(s: System, es: seq<Event>)
    decreases |es|
  {
    es != [] ==> !Late(s, es[0]) && NeverLate(Next(s, es[0]), es[1..])
  }

  lemma {:induction false} SettledIff(s: System, es: seq<Event>)
    requires Inv(s) && Settled(s)
    ensures AlwaysSettled(s, es) <==> NeverLate(s, es)
    decreases |es|
  {
    hide Inv, Settled, Late, Next;
    if es == [] {
    } else {
      NextInv(s, es[0]);
      SettledStep(s, es[0]);
      if !Late(s, es[0]) {
        SettledIff(Next(s, es[0]), es[1..]);
      } else {
        assert !Settled(Next(s, es[0]));
      }
    }
  }

  /** A run leaves the supervisor able to reap at every moment exactly if Stop is never late in it. */
  lemma ReapableIff(s0: System, es: seq<Event>)
    requires Initial(s0)
    ensures AlwaysSettled(s0, es) <==> NeverLate(s0, es)
  {
    InitialInv(s0);
    SettledIff(s0, es);
  }

  /** How many moves the supervisor still makes until a finished thread has been reaped. */
  function UntilReaped(at: Supervisor): (moves: nat) {
    if at == Reap(Top) then 4
    else if at == Reap(ReapCheck) then 3
    else if at == Reap(Joining) then 2
    else if at == Reap(Unfinish) then 1
    else 0
  }

  /** The supervisor is on its way to reap a finished thread. */
  ghost predicate ToBeReaped(s: System) {
    && Inv(s) && Settled(s) && s.finished && s.running && UntilReaped(s.supervisor) > 0
    && (s.threads != [] || s.supervisor == Reap(Unfinish))
  }

  predicate Reaped(s: System) {
    s.threads == [] && !s.joinable && !s.finished
  }

  /** The supervisor's own move brings it nearer, and it never has to wait. */
  lemma ReapMove(s: System, hasVidpid: bool, opens: bool)
    requires ToBeReaped(s)
    ensures var t := SuperviseStep(s, hasVidpid, opens);
            Reaped(t) || (ToBeReaped(t) && UntilReaped(t.supervisor) == UntilReaped(s.supervisor) - 1)
  {
    assert s.threads != [] ==> Past(s.threads[0]);
    SuperviseInv(s, hasVidpid, opens);
    match s.supervisor.reap {
      case Top =>
      case ReapCheck =>
      case Joining =>
      case Unfinish =>
      case FinalJoin =>
      case Down =>
    }
  }

  lemma ReapStays(s: System, e: Event)
    requires ToBeReaped(s) && !e.Supervise? && !e.Signal?
    ensures ToBeReaped(Next(s, e)) && Next(s, e).supervisor == s.supervisor
  {
    hide CaptureStep, ServeStep, SuperviseStep;
    assert !Late(s, e);
    SettledStep(s, e);
    NextInv(s, e);
    match e {
      case Capturing(i, ok) => if i < |s.threads| { GoneStays(s, i, ok); }
      case _ =>
        ServeFrame(s, e);
        ServeRuns(s, e);
    }
  }

  lemma GoneStays(s: System, i: nat, ok: bool)
    requires Inv(s) && s.finished && i < |s.threads|
    ensures CaptureStep(s, i, ok) == s
  {
  }

  lemma ServeRuns(s: System, e: Event)
    ensures ServeStep(s, e).running == s.running
  {
    match e {
      case Stage => match s.server { case Ready => case StageStart => case StageTune(_, _, _) => }
      case PostStart(_) =>
      case PostStop =>
      case PostTune(_, _) =>
      case _ => assert ServeStep(s, e) == s;
    }
  }

  /** At some moment of the run the finished thread has been reaped. */
  ghost predicate GetsReaped(s: System, es: seq<Event>)
    decreases |es|
  {
    Reaped(s) || (es != [] && GetsReaped(Next(s, es[0]), es[1..]))
  }

  function Supervisions(es: seq<Event>): (n: nat) {
    if es == [] then 0 else (if es[0].Supervise? then 1 else 0) + Supervisions(es[1..])
  }

  /** Whatever the others do in between, a finished thread that left Idle or Error is joined and its flag cleared
      within four moves of a supervisor that is at the top of its loop, unless the daemon is told to quit. */
  lemma {:induction false} Reaps(s: System, es: seq<Event>)
    requires ToBeReaped(s) && (forall i :: 0 <= i < |es| ==> !es[i].Signal?)
             && Supervisions(es) >= UntilReaped(s.supervisor)
    ensures GetsReaped(s, es)
    decreases |es|
  {
    hide ToBeReaped, Next, SuperviseStep, Reaped, UntilReaped;
    FarFromReaped(s);
    assert es != [];
    var e := es[0];
    if e.Supervise? {
      ReapMove(s, e.hasVidpid, e.opens);
      SupervisedNext(s, e.hasVidpid, e.opens);
      if Reaped(Next(s, e)) {
        assert GetsReaped(Next(s, e), es[1..]);
      } else {
        Reaps(Next(s, e), es[1..]);
      }
    } else {
      ReapStays(s, e);
      Reaps(Next(s, e), es[1..]);
    }
  }

  lemma FarFromReaped(s: System)
    requires ToBeReaped(s)
    ensures UntilReaped(s.supervisor) > 0
  {
  }

  lemma SupervisedNext(s: System, hasVidpid: bool, opens: bool)
    ensures Next(s, Supervise(hasVidpid, opens)) == SuperviseStep(s, hasVidpid, opens)
  {
  }

  // ----- what a late Stop leads to -----

  /** The state reads Stopping and nothing will change it. */
  ghost predicate Stuck(s: System) {
    && s.state.Stopping? && (forall i :: 0 <= i < |s.threads| ==> Past(s.threads[i]))
    && match s.supervisor
       case Reap(at) => (s.threads != [] && s.joinable && (at.Top? || at.ReapCheck? || at.FinalJoin?)) || at.Down?
       case Stop(at) => s.threads != [] && s.joinable
       case Poll(at) =>
         && s.threads != [] && s.joinable
         && (at.StartPoll? || at.StartLoad? || (at.StartDecide? && at.seen.Stopping?))
       case Start(_) => false
  }

  lemma LateSticks(s: System, e: Event)
    requires Inv(s) && Late(s, e)
    ensures Stuck(Next(s, e)) && Next(s, e).session == s.session
  {
  }

  lemma StuckReap(s: System, at: Reaping)
    requires Stuck(s) && s.supervisor == Reap(at)
    ensures Stuck(ReapStep(s, at)) && ReapStep(s, at).session == s.session
  {
    match at {
      case Top =>
      case ReapCheck =>
      case Joining =>
      case Unfinish =>
      case FinalJoin =>
      case Down =>
    }
  }

  lemma StuckStop(s: System, at: StopCall)
    requires Stuck(s) && s.supervisor == Stop(at)
    ensures Stuck(StopStep(s, at)) && StopStep(s, at).session == s.session
  {
    match at {
      case StopPoll =>
      case StopLoad =>
      case StopStore(_) =>
      case StopFlag =>
    }
  }

  lemma StuckPoll(s: System, at: StartRequest, hasVidpid: bool)
    requires Stuck(s) && s.supervisor == Poll(at)
    ensures Stuck(PollStep(s, at, hasVidpid)) && PollStep(s, at, hasVidpid).session == s.session
  {
    match at {
      case StartPoll =>
      case StartLoad =>
      case StartDecide(_) =>
      case NoAdapter =>
      case StartGuard =>
    }
  }

  lemma StuckStep(s: System, e: Event)
    requires Stuck(s)
    ensures Stuck(Next(s, e)) && Next(s, e).session == s.session
  {
    hide ReapStep, StopStep, PollStep, StartStep, CaptureStep, ServeStep;
    match e {
      case Supervise(hasVidpid, opens) =>
        match s.supervisor {
           case Reap(at) => StuckReap(s, at);
           case Stop(at) => StuckStop(s, at);
           case Poll(at) => StuckPoll(s, at, hasVidpid);
           case Start(_) =>
        }
      case Capturing(i, ok) => if i < |s.threads| { CaptureFrame(s, i, ok); }
      case Signal =>
      case _ => ServeFrame(s, e);
    }
  }

  lemma {:induction false} StuckForever(s: System, es: seq<Event>)
    requires Stuck(s)
    ensures Stuck(After(s, es)) && After(s, es).session == s.session
    decreases |es|
  {
    hide Stuck, Next;
    if es == [] {
    } else {
      StuckStep(s, es[0]);
      StuckForever(Next(s, es[0]), es[1..]);
    }
  }

  /** After a late Stop no session ever starts again: the state reads Stopping whatever happens, and the thread
      stays unjoined until the daemon is down. */
  lemma LateIsFinal(s: System, e: Event, es: seq<Event>)
    requires Inv(s) && Late(s, e)
    ensures var t := After(s, [e] + es);
            && t.state.Stopping? && t.session == s.session
            && (t.supervisor == Reap(Down) || (t.joinable && t.threads != []))
  {
    hide Next;
    LateSticks(s, e);
    assert ([e] + es)[1..] == es;
    StuckForever(Next(s, e), es);
  }

  // ----- retunes -----

  /** Every retune staged or applied is in range, and the ones applied were staged in the session they are applied
      to. */
  ghost predicate TuneInv(s: System) {
    && (s.server.StageTune? ==> s.server.checkedIn <= s.session && ValidTune(s.server.channel, s.server.width))
    && (s.mail.Staged? ==>
          && s.mail.tune.checkedIn <= s.mail.tune.stagedIn <= s.session
             && ValidTune(s.mail.tune.channel, s.mail.tune.width)
          && (s.mail.tune.stagedIn == s.session || s.supervisor == Start(StartReset)
             || s.supervisor == Start(StartClear)))
    && forall i :: 0 <= i < |s.applied| ==> OwnTune(s.applied[i])
  }

  ghost predicate OwnTune(a: (Tune, nat)) {
    a.0.checkedIn <= a.0.stagedIn == a.1 && ValidTune(a.0.channel, a.0.width)
  }

  lemma TuneStep(s: System, e: Event)
    requires Inv(s) && TuneInv(s)
    ensures TuneInv(Next(s, e))
  {
    hide ReapStep, StopStep, PollStep, StartStep, CaptureStep, ServeStep;
    match e {
      case Supervise(hasVidpid, opens) =>
        match s.supervisor {
          case Reap(at) => ReapFrame(s, at);
          case Stop(at) => StopFrame(s, at);
          case Poll(at) =>
            PollSame(s, at, hasVidpid);
            PollMoves(s, at, hasVidpid);
          case Start(at) => StartFrame(s, at, opens);
        }
      case Capturing(i, ok) => if i < |s.threads| { CaptureFrame(s, i, ok); }
      case Signal =>
      case _ =>
        ServeFrame(s, e);
    }
  }

  lemma {:induction false} TunesStaged(s: System, es: seq<Event>)
    requires Inv(s) && TuneInv(s)
    ensures TuneInv(After(s, es))
    decreases |es|
  {
    hide Inv, TuneInv, Next;
    if es == [] {
    } else {
      NextInv(s, es[0]);
      TuneStep(s, es[0]);
      TunesStaged(Next(s, es[0]), es[1..]);
    }
  }

  /** A new session begins while a handler is between its check and its staging. */
  ghost predicate Straddles(s: System, e: Event) {
    e.Supervise? && s.supervisor == Poll(StartGuard) && !s.joinable && s.server.StageTune?
  }

  ghost predicate NeverStraddles(s: System, es: seq<Event>)
    decreases |es|
  {
    es != [] ==> !Straddles(s, es[0]) && NeverStraddles(Next(s, es[0]), es[1..])
  }

  /** No retune is held by its handler, staged or applied in another session than the one it was accepted in. */
  ghost predicate CheckedInv(s: System) {
    && (s.server.StageTune? ==> s.server.checkedIn == s.session)
    && (s.mail.Staged? ==> s.mail.tune.checkedIn == s.mail.tune.stagedIn)
    && forall i :: 0 <= i < |s.applied| ==> s.applied[i].0.checkedIn == s.applied[i].0.stagedIn
  }

  /** A step makes a retune foreign exactly if a session begins during its handler. */
  lemma CheckedStep(s: System, e: Event)
    requires Inv(s) && CheckedInv(s)
    ensures CheckedInv(Next(s, e)) <==> !Straddles(s, e)
  {
    hide ReapStep, StopStep, PollStep, StartStep, CaptureStep, ServeStep;
    match e {
      case Supervise(hasVidpid, opens) =>
        match s.supervisor {
          case Reap(at) => ReapFrame(s, at);
          case Stop(at) => StopFrame(s, at);
          case Poll(at) =>
            PollSame(s, at, hasVidpid);
            PollMoves(s, at, hasVidpid);
          case Start(at) => StartFrame(s, at, opens);
        }
      case Capturing(i, ok) => if i < |s.threads| { CaptureFrame(s, i, ok); }
      case Signal =>
      case _ =>
        ServeFrame(s, e);
    }
  }

  ghost predicate AlwaysChecked(s: System, es: seq<Event>)
    decreases |es|
  {
    CheckedInv(s) && (es != [] ==> AlwaysChecked(Next(s, es[0]), es[1..]))
  }

  lemma {:induction false} CheckedIff(s: System, es: seq<Event>)
    requires Inv(s) && CheckedInv(s)
    ensures AlwaysChecked(s, es) <==> NeverStraddles(s, es)
    decreases |es|
  {
    hide Inv, CheckedInv, Straddles, Next;
    if es == [] {
    } else {
      NextInv(s, es[0]);
      CheckedStep(s, es[0]);
      if !Straddles(s, es[0]) {
        CheckedIff(Next(s, es[0]), es[1..]);
      } else {
        assert !CheckedInv(Next(s, es[0]));
      }
    }
  }

  lemma {:induction false} CheckedAtEnd(s: System, es: seq<Event>)
    requires AlwaysChecked(s, es)
    ensures CheckedInv(After(s, es))
    decreases |es|
  {
    hide CheckedInv, Next;
    if es == [] {
    } else {
      CheckedAtEnd(Next(s, es[0]), es[1..]);
    }
  }

  /** A retune applied in a session was staged in it, after it had dropped what was staged before. No retune is ever
      held, staged or applied in another session than the one it was accepted in exactly if no session begins
      between a handler's check and its staging. */
  lemma TunesBelong(s0: System, es: seq<Event>)
    requires Initial(s0)
    ensures forall i :: 0 <= i < |After(s0, es).applied| ==> OwnTune(After(s0, es).applied[i])
    ensures AlwaysChecked(s0, es) <==> NeverStraddles(s0, es)
    ensures NeverStraddles(s0, es) ==>
              forall i :: 0 <= i < |After(s0, es).applied| ==>
                After(s0, es).applied[i].0.checkedIn == After(s0, es).applied[i].1
  {
    hide After, NeverStraddles, AlwaysChecked;
    InitialInv(s0);
    TunesStaged(s0, es);
    CheckedIff(s0, es);
    if NeverStraddles(s0, es) {
      CheckedAtEnd(s0, es);
    }
  }

  /** How many moves it takes until the session's thread looks into the mailbox, if its adapter works. */
  function UntilDrained(s: System): (moves: nat) {
    if s.threads != [] && s.threads[0].Work? then
      match s.threads[0].work
      case TakeTune => 1
      case LoopTop => 2
      case Read => 3
      case BringUp => 3
      case TakeKey => 4
      case Fault => 0
    else if s.supervisor == Start(OpenDevice) then 6
    else if s.supervisor == Start(MarkStreaming) then 5
    else if s.supervisor == Start(Spawn) then 4
    else 0
  }

  /** The next move towards that. */
  function Towards(s: System): (e: Event) {
    if s.threads != [] then Capturing(0, true) else Supervise(true, true)
  }

  /** The move brings the draining nearer and leaves the mailbox alone. */
  ghost predicate Nearer(s: System, t: System) {
    && t.mail == s.mail && t.applied == s.applied && t.session == s.session && !t.shouldStop
    && UntilDrained(t) == UntilDrained(s) - 1
  }

  lemma TowardsSpawn(s: System, at: StartCall)
    requires Inv(s) && !s.shouldStop && s.supervisor == Start(at) && UntilDrained(s) > 1
    ensures Nearer(s, StartStep(s, at, true))
  {
    match at {
      case StartReset =>
      case StartClear =>
      case OpenDevice =>
      case MarkStreaming =>
      case Spawn => assert s.threads + [Work(BringUp)] == [Work(BringUp)];
    }
  }

  lemma TowardsDrain(s: System, at: Working)
    requires !s.shouldStop && s.threads == [Work(at)] && UntilDrained(s) > 1
    ensures Nearer(s, WorkStep(s, 0, at, true))
  {
    match at {
      case BringUp =>
      case LoopTop =>
      case TakeKey =>
      case Read =>
      case TakeTune =>
      case Fault =>
    }
  }

  lemma TowardsStep(s: System)
    requires Inv(s) && !s.shouldStop && UntilDrained(s) > 1
    ensures Nearer(s, Next(s, Towards(s)))
  {
    hide Nearer, StartStep, WorkStep;
    if s.threads == [] {
      TowardsSpawn(s, s.supervisor.start);
    } else {
      assert s.threads == [s.threads[0]];
      TowardsDrain(s, s.threads[0].work);
    }
  }

  /** What is staged is applied when the session's thread gets to it. */
  lemma {:induction false} Drains(s: System) returns (es: seq<Event>)
    requires Inv(s) && s.mail.Staged? && !s.shouldStop && UntilDrained(s) > 0
    ensures After(s, es).applied == s.applied + [(s.mail.tune, s.session)]
    decreases UntilDrained(s)
  {
    if UntilDrained(s) == 1 {
      es := [Capturing(0, true)];
      assert After(s, es) == Next(s, es[0]) by { assert es[1..] == []; }
    } else {
      hide Inv, UntilDrained, Towards, Next;
      TowardsStep(s);
      NextInv(s, Towards(s));
      var rest := Drains(Next(s, Towards(s)));
      es := [Towards(s)] + rest;
      assert es[1..] == rest;
    }
  }

  /** From every state in which a handler still holds a retune accepted in an earlier session, and a running session has
      cleared its mailbox, staging it leads to its being applied in the wrong session. */
  lemma ForeignTuneApplies(s: System) returns (es: seq<Event>)
    requires Inv(s) && s.server.StageTune? && s.server.checkedIn < s.session && !s.shouldStop && UntilDrained(s) > 0
    ensures After(s, [Stage] + es).applied
         == s.applied + [(Tune(s.server.channel, s.server.width, s.server.checkedIn, s.session), s.session)]
  {
    var t := Next(s, Stage);
    NextInv(s, Stage);
    es := Drains(t);
    assert ([Stage] + es)[1..] == es;
  }

  // ----- interleavings that do happen -----

  ghost predicate Reachable(s: System) {
    exists s0, es :: Initial(s0) && After(s0, es) == s
  }

  lemma {:induction false} AfterSnoc(s: System, es: seq<Event>, e: Event)
    ensures After(s, es + [e]) == Next(After(s, es), e)
    decreases |es|
  {
    hide Next;
    if es == [] {
      assert [] + [e] == [e] && [e][1..] == [];
    } else {
      assert (es + [e])[1..] == es[1..] + [e];
      AfterSnoc(Next(s, es[0]), es[1..], e);
    }
  }

  lemma Reach(s: System, e: Event) returns (t: System)
    requires Reachable(s)
    ensures t == Next(s, e) && Reachable(t)
  {
    hide Initial, Next, After;
    var s0, es :| Initial(s0) && After(s0, es) == s;
    AfterSnoc(s0, es, e);
    t := Next(s, e);
  }

  /** The supervisor takes a pending start and brings the session up. */
  lemma Launches(s0: System) returns (s: System)
    requires Reachable(s0) && s0.supervisor == Stop(StopPoll) && !s0.finished && !s0.joinable && s0.threads == []
    requires s0.startPending && !s0.stopPending && Terminal(s0.state)
    ensures Reachable(s)
    ensures s == s0.(state := Streaming, finished := false, shouldStop := false, startPending := false, mail := Empty,
                     joinable := true, threads := [Work(BringUp)], session := s0.session + 1, supervisor := Reap(Top))
  {
    hide Reachable;
    var go := Supervise(true, true);
    s := Reach(s0, go);
    s := Reach(s, go);
    s := Reach(s, go);
    assert s.supervisor == Poll(StartDecide(s0.state));
    s := Reach(s, go);
    s := Reach(s, go);
    assert s == s0.(startPending := false, state := Starting, session := s0.session + 1,
           supervisor := Start(StartReset));
    s := Reach(s, go);
    s := Reach(s, go);
    s := Reach(s, go);
    s := Reach(s, go);
    s := Reach(s, go);
    assert [] + [Work(BringUp)] == [Work(BringUp)];
  }

  /** The daemon boots with a start pending from its command line, and its supervisor enters the loop. */
  lemma Boots() returns (s: System)
    ensures Reachable(s)
    ensures s == System(Idle, false, false, true, false, Empty, false, [], Stop(StopPoll), true, false, Ready, 0, [])
  {
    var s0 := System(Idle, false, false, true, false, Empty, false, [], Reap(Top), true, false, Ready, 0, []);
    assert After(s0, []) == s0;
    s := Reach(s0, Supervise(true, true));
  }

  /** The adapter fails between the two halves of Stop: Stopping is stored over the Error of a thread that is
      already gone. */
  lemma LateHappens() returns (s: System, e: Event)
    ensures Reachable(s) && Late(s, e)
  {
    hide Reachable;
    s := Boots();
    s := Launches(s);
    s := Reach(s, PostStop);
    var go := Supervise(true, true);
    s := Reach(s, go);
    s := Reach(s, go);
    s := Reach(s, go);
    assert s.supervisor == Stop(StopStore(Streaming)) && s.threads == [Work(BringUp)];
    s := Reach(s, Capturing(0, false));
    assert s.threads == [Work(Fault)];
    s := Reach(s, Capturing(0, false));
    assert s.threads == [End(LastLoad)] && s.state.Error?;
    s := Reach(s, Capturing(0, false));
    assert s.threads == [End(Finish)];
    e := go;
    assert Past(s.threads[0]);
  }

  /** A session has ended by a fault of its adapter and its thread has been reaped. */
  lemma Ends(s0: System) returns (s: System)
    requires Reachable(s0) && s0.supervisor == Reap(Top) && s0.running && !s0.finished && s0.joinable
    requires s0.threads == [Work(BringUp)]
    ensures Reachable(s)
    ensures s == s0.(state := Error, joinable := false, threads := [], finished := false, supervisor := Stop(StopPoll))
  {
    hide Reachable;
    s := s0;
    s := Reach(s, Capturing(0, false));
    assert s.threads == [Work(Fault)];
    s := Reach(s, Capturing(0, false));
    assert s.threads == [End(LastLoad)];
    s := Reach(s, Capturing(0, false));
    assert s.threads == [End(Finish)];
    s := Reach(s, Capturing(0, false));
    assert s == s0.(state := Error, threads := [End(Gone)], finished := true);
    var go := Supervise(true, true);
    s := Reach(s, go);
    s := Reach(s, go);
    s := Reach(s, go);
    assert s.threads == [];
    s := Reach(s, go);
  }

  /** A retune accepted in one session can be staged in, and applied to, the next one: here a second start was accepted
      while the first one was being taken, so that the next session begins as soon as the first has failed. */
  lemma StraddleHappens() returns (s: System)
    ensures Reachable(s) && |s.applied| == 1 && s.applied[0].0.checkedIn != s.applied[0].1
  {
    hide Reachable;
    s := Boots();
    s := Reach(s, PostStart(true));
    s := Launches(s);
    s := Reach(s, Stage);
    s := Reach(s, PostTune(36, -1));
    assert s.server == StageTune(36, -1, 1) && s.startPending;
    s := Ends(s);
    s := Launches(s);
    s := Reach(s, Stage);
    assert s.mail == Staged(Tune(36, -1, 1, 2));
    s := Reach(s, Capturing(0, true));
    assert s.threads == [Work(LoopTop)];
    s := Reach(s, Capturing(0, true));
    assert s.threads == [Work(TakeTune)];
    s := Reach(s, Capturing(0, true));
  }
}
