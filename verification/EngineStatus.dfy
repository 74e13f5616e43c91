/**
 * What the GPS engine tells its listener: the engine and fix-session statuses driven by modem
 * events and by stops, the mute state beside them, and the notifications sent on changes.
 */
module EngineStatus {

  datatype Status = NoStatus | SessionBegin | SessionEnd | EngineOn | EngineOff

  datatype Mute = NotMuted | Wait | InSession

  /** A status report from the modem. */
  datatype Report = EngineState(on: bool) | FixSession(begin: bool) | OtherReport

  datatype State = State(
    engine: Status,
    fix: Status,
    mute: Mute,
    last: Status,      // the last notification; static, so it outlives a re-initialisation
    log: seq<Status>,  // notifications delivered since initialisation
    restored: bool,    // whether a session begin was ever repeated
    listening: bool)   // whether there is a status callback

  // ----- The engine, as functions of its state -----

  function Inform(s: State, status: Status): State {
    var again := status == EngineOn && s.last == SessionBegin;
    if !s.listening then s.(last := status)
    else
      s.(last := status, log := s.log + [status] + (if again then [SessionBegin] else []),
         restored := s.restored || again)
  }

  /** The statuses after a report. */
  function Settle(s: State, report: Report): State {
    match report
    case EngineState(true) => s.(engine := EngineOn)
    case EngineState(false) => s.(engine := EngineOff, fix := SessionEnd)
    case FixSession(true) => s.(engine := EngineOn, fix := SessionBegin)
    case FixSession(false) => s
    case OtherReport => s
  }

  function NextMute(mute: Mute, engine: Status): Mute {
    if mute == Wait && engine == EngineOn then InSession
    else if mute == InSession && engine == EngineOff then NotMuted
    else mute
  }

  function AfterReport(s: State, report: Report): State {
    var s1 := Settle(s, report);
    var s2 := if s1.fix != SessionBegin && s1.engine != s.engine then Inform(s1, s1.engine) else s1;
    var s3 := if s1.engine != EngineOff && s1.fix != s.fix then Inform(s2, s1.fix) else s2;
    s3.(mute := NextMute(s.mute, s1.engine))
  }

  /** `stopped` says whether the modem accepted the stop. */
  function AfterStop(s: State, agpsPending: bool, stopped: bool): State {
    if agpsPending || !stopped || s.fix == SessionEnd then s
    else
      var s1 := s.(fix := SessionEnd);
      if s.engine != EngineOff then Inform(s1, SessionEnd) else s1
  }

  /** The last status when a re-initialisation resets the rest: a navigating engine is stopped first. */
  function LastAtReset(s: State, navigating: bool, agpsPending: bool, stopped: bool): Status {
    if navigating then AfterStop(s, agpsPending, stopped).last else s.last
  }

  /** Initialisation resets everything but the static last status. */
  function Initial(last: Status, listening: bool): State {
    State(NoStatus, NoStatus, NotMuted, last, [], false, listening)
  }

  // ----- The engine itself -----

  class Engine {
    var engineStatus: Status
    var fixSessionStatus: Status
    var muteSessionState: Mute
    var lastStatus: Status
    var agpsRequestPending: bool
    var stopRequestPending: bool
    var navigating: bool
    ghost var log: seq<Status>
    ghost var restored: bool
    var statusCb: bool

    ghost function View(): State
      reads this
    {
      State(engineStatus, fixSessionStatus, muteSessionState, lastStatus, log, restored, statusCb)
    }

    /** `lastStatus` starts as no status. */
    constructor (statusCb: bool)
      ensures View() == Initial(NoStatus, statusCb)
    {
      this.statusCb := statusCb;
      engineStatus, fixSessionStatus, muteSessionState := NoStatus, NoStatus, NotMuted;
      lastStatus, log, restored := NoStatus, [], false;
      agpsRequestPending, stopRequestPending, navigating := false, false, false;
    }

    /** `loc_eng_start`; `started` says whether the modem accepted. */
    method Start(started: bool)
      modifies this`navigating
      ensures navigating == (old(navigating) || started)
    {
      if started {
        navigating := true;
      }
    }

    /** `loc_eng_init` of an initialised engine: `loc_eng_deinit`, which may stop, and a reset. */
    method Reinitialise(statusCb: bool, stopped: bool)
      modifies this
      ensures View() == Initial(LastAtReset(old(View()), old(navigating), old(agpsRequestPending), stopped), statusCb)
      ensures !navigating && !agpsRequestPending && !stopRequestPending
      ensures engineStatus == fixSessionStatus == NoStatus && muteSessionState == NotMuted
      ensures log == [] && !restored && this.statusCb == statusCb
    {
      if navigating {
        Stop(stopped);
        navigating := false;
      }
      this.statusCb := statusCb;
      engineStatus, fixSessionStatus, muteSessionState := NoStatus, NoStatus, NotMuted;
      agpsRequestPending, stopRequestPending, navigating := false, false, false;
      log, restored := [], false;
    }

    /** `loc_inform_gps_status` */
    method InformGpsStatus(status: Status)
      modifies this`lastStatus, this`log, this`restored
      ensures View() == Inform(old(View()), status)
      ensures lastStatus == status
      ensures log == old(log) + if !statusCb then []
                                else if status == EngineOn && old(lastStatus) == SessionBegin
                                then [EngineOn, SessionBegin]
                                else [status]
    {
      if statusCb {
        log := log + [status];
        if status == EngineOn && lastStatus == SessionBegin {
          log, restored := log + [SessionBegin], true;
        }
      }
      lastStatus := status;
    }

    method ReportStatus(report: Report)
      modifies this`engineStatus, this`fixSessionStatus, this`muteSessionState
      modifies this`lastStatus, this`log, this`restored
      ensures View() == AfterReport(old(View()), report)
    {
      var engine, fix := engineStatus, fixSessionStatus;
      match report {
        case EngineState(on) =>
          if on {
            engineStatus := EngineOn;
          } else {
            engineStatus, fixSessionStatus := EngineOff, SessionEnd;
          }
        case FixSession(begin) =>
          if begin {
            engineStatus, fixSessionStatus := EngineOn, SessionBegin;
          }
        case OtherReport =>
      }
      if fixSessionStatus != SessionBegin && engine != engineStatus {
        InformGpsStatus(engineStatus);
      }
      if engineStatus != EngineOff && fix != fixSessionStatus {
        InformGpsStatus(fixSessionStatus);
      }
      if engineStatus == EngineOn {
        if muteSessionState == Wait {
          muteSessionState := InSession;
        }
      } else if engineStatus == EngineOff {
        if muteSessionState == InSession {
          muteSessionState := NotMuted;
        }
      }
    }

    method Stop(stopped: bool)
      modifies this
      ensures View() == AfterStop(old(View()), old(agpsRequestPending), stopped)
      ensures agpsRequestPending == old(agpsRequestPending)
      ensures stopRequestPending == (old(stopRequestPending) || agpsRequestPending)
      ensures navigating == (old(navigating) && (agpsRequestPending || !stopped))
    {
      if agpsRequestPending {
        stopRequestPending := true;
        return;
      }
      if stopped {
        if fixSessionStatus != SessionEnd {
          fixSessionStatus := SessionEnd;
          if engineStatus != EngineOff {
            InformGpsStatus(fixSessionStatus);
          }
        }
        navigating := false;
      }
    }

    method MuteOneSession()
      modifies this`muteSessionState
      ensures View() == old(View()).(mute := Wait)
    {
      muteSessionState := Wait;
    }
  }

  // ----- Runs, and the listener -----

  datatype Event = Reported(report: Report) | Stopped(agpsPending: bool, stopped: bool) | Muted

  function Step(s: State, e: Event): State {
    match e
    case Reported(report) => AfterReport(s, report)
    case Stopped(agpsPending, stopped) => AfterStop(s, agpsPending, stopped)
    case Muted => s.(mute := Wait)
  }

  function Play(s: State, run: seq<Event>): State
    decreases |run|
  {
    if run == [] then s else Play(Step(s, run[0]), run[1..])
  }

  /** The statuses as a listener that only hears notifications has them. */
  datatype Heard = Heard(engine: Status, fix: Status)

  /** A session begin implies engine on, and engine off implies session end. */
  function Hear(h: Heard, status: Status): Heard {
    match status
    case EngineOn => h.(engine := EngineOn)
    case EngineOff => Heard(EngineOff, SessionEnd)
    case SessionBegin => Heard(EngineOn, SessionBegin)
    case SessionEnd => h.(fix := SessionEnd)
    case NoStatus => h
  }

  function Listen(log: seq<Status>): Heard {
    if log == [] then Heard(NoStatus, NoStatus) else Hear(Listen(log[..|log| - 1]), log[|log| - 1])
  }

  predicate Agrees(s: State) {
    Listen(s.log) == Heard(s.engine, s.fix)
  }

  lemma ListenTo(log: seq<Status>, status: Status)
    ensures Listen(log + [status]) == Hear(Listen(log), status)
  {
    assert (log + [status])[..|log|] == log;
  }

  /** What ties the statuses to each other. */
  predicate StatusInv(s: State) {
    && s.engine in {NoStatus, EngineOn, EngineOff} && s.fix in {NoStatus, SessionBegin, SessionEnd}
    && (s.fix == SessionBegin ==> s.engine == EngineOn)
    && (s.engine == EngineOff ==> s.fix == SessionEnd)
    && (s.mute == InSession ==> s.engine == EngineOn)
    && (s.last == SessionBegin <==> s.fix == SessionBegin)
    && !s.restored
  }

  predicate Consistent(s: State) {
    StatusInv(s) && s.listening && Agrees(s)
  }

  lemma InformIsHeard(s: State, status: Status)
    requires s.listening && (status == EngineOn ==> s.last != SessionBegin)
    ensures var s' := Inform(s, status);
            s' == s.(last := status, log := s.log + [status]) && Listen(s'.log) == Hear(Listen(s.log), status)
  {
    assert s.log + [status] + [] == s.log + [status];
    ListenTo(s.log, status);
  }

  /** The one notification a report brings, or none. */
  function Notice(s: State, report: Report): Status {
    var s1 := Settle(s, report);
    if s1.engine == s.engine && s1.fix == s.fix then NoStatus
    else if s1.engine == EngineOff || s1.fix == s.fix then s1.engine
    else SessionBegin
  }

  lemma OneNotice(s: State, report: Report)
    requires StatusInv(s)
    ensures var s1, notice := Settle(s, report), Notice(s, report);
            && (notice == EngineOn ==> s.last != SessionBegin)
            && AfterReport(s, report)
               == (if notice == NoStatus then s1 else Inform(s1, notice)).(mute := NextMute(s.mute, s1.engine))
  {
  }

  /** What each report does to the statuses, and which notification it brings. */
  lemma ReportsDo(s: State, report: Report)
    requires StatusInv(s) && s.listening
    ensures var s' := AfterReport(s, report);
            match report
            case EngineState(true) =>
              && s'.engine == EngineOn && s'.fix == s.fix
              && s'.log == s.log + if s.engine == EngineOn then [] else [EngineOn]
            case EngineState(false) =>
              && s'.engine == EngineOff && s'.fix == SessionEnd
              && s'.log == s.log + if s.engine == EngineOff then [] else [EngineOff]
            case FixSession(true) =>
              && s'.engine == EngineOn && s'.fix == SessionBegin
              && s'.log == s.log + if s.fix == SessionBegin then [] else [SessionBegin]
            case _ => s'.engine == s.engine && s'.fix == s.fix && s'.log == s.log
  {
    OneNotice(s, report);
    InformIsHeard(Settle(s, report), Notice(s, report));
  }

  /** A stop that goes through ends a session, which is notified unless the engine is off. */
  lemma StopDoes(s: State, agpsPending: bool, stopped: bool)
    requires s.listening
    ensures var s' := AfterStop(s, agpsPending, stopped);
            && s'.engine == s.engine && s'.mute == s.mute
            && if agpsPending || !stopped || s.fix == SessionEnd then s' == s
               else s'.fix == SessionEnd && s'.log == s.log + if s.engine == EngineOff then [] else [SessionEnd]
  {
    InformIsHeard(s.(fix := SessionEnd), SessionEnd);
  }

  lemma ReportKeepsStatuses(s: State, report: Report)
    requires StatusInv(s)
    ensures StatusInv(AfterReport(s, report))
  {
    OneNotice(s, report);
  }

  lemma ReportKeepsConsistent(s: State, report: Report)
    requires Consistent(s)
    ensures Consistent(AfterReport(s, report))
  {
    OneNotice(s, report);
    ReportKeepsStatuses(s, report);
    InformIsHeard(Settle(s, report), Notice(s, report));
  }

  lemma StopKeepsConsistent(s: State, agpsPending: bool, stopped: bool)
    requires Consistent(s)
    ensures Consistent(AfterStop(s, agpsPending, stopped))
  {
    InformIsHeard(s.(fix := SessionEnd), SessionEnd);
  }

  lemma StepKeepsConsistent(s: State, e: Event)
    requires Consistent(s)
    ensures Consistent(Step(s, e))
  {
    match e
    case Reported(report) => ReportKeepsConsistent(s, report);
    case Stopped(agpsPending, stopped) => StopKeepsConsistent(s, agpsPending, stopped);
    case Muted =>
  }

  lemma {:induction false} PlayKeepsConsistent(s: State, run: seq<Event>)
    requires Consistent(s)
    ensures Consistent(Play(s, run))
    decreases |run|
  {
    if run != [] {
      StepKeepsConsistent(s, run[0]);
      PlayKeepsConsistent(Step(s, run[0]), run[1..]);
    }
  }

  /**
   * In every run after an initialisation that did not inherit an open session, the listener's
   * statuses are the engine's; a begun session means the engine is on, a muted session too, and
   * no session begin is repeated. An open session is what a later initialisation inherits.
   */
  lemma ListenerAgrees(last: Status, run: seq<Event>)
    requires last != SessionBegin
    ensures var s := Play(Initial(last, true), run);
            && Listen(s.log) == Heard(s.engine, s.fix)
            && (s.fix == SessionBegin ==> s.engine == EngineOn)
            && (s.engine == EngineOff ==> s.fix == SessionEnd)
            && (s.mute == InSession ==> s.engine == EngineOn)
            && !s.restored
            && (s.last == SessionBegin <==> s.fix == SessionBegin)
  {
    PlayKeepsConsistent(Initial(last, true), run);
  }

  /** With or without a callback the engine's own statuses are tied to each other in every run. */
  lemma {:induction false} StatusesAreTied(s: State, run: seq<Event>)
    requires StatusInv(s)
    ensures StatusInv(Play(s, run))
    decreases |run|
  {
    if run != [] {
      if run[0].Reported? {
        ReportKeepsStatuses(s, run[0].report);
      }
      StatusesAreTied(Step(s, run[0]), run[1..]);
    }
  }

  /**
   * Every run agrees exactly when there is a listener and the last notification before
   * initialisation was no session begin.
   */
  lemma AgreementNeedsClosedSession(last: Status, listening: bool)
    ensures (forall run :: Agrees(Play(Initial(last, listening), run))) <==> listening && last != SessionBegin
  {
    if listening && last != SessionBegin {
      forall run ensures Agrees(Play(Initial(last, true), run)) {
        ListenerAgrees(last, run);
      }
    } else {
      var run := DisagreeingRun(last, listening);
    }
  }

  /** The first "engine on" after such an initialisation. */
  lemma DisagreeingRun(last: Status, listening: bool) returns (run: seq<Event>)
    requires !listening || last == SessionBegin
    ensures !Agrees(Play(Initial(last, listening), run))
  {
    run := [Reported(EngineState(true))];
    var s := Initial(last, listening);
    var s' := Step(s, run[0]);
    assert Play(s, run) == s' by {
      assert run[1..] == [];
    }
    if listening {
      assert s'.log == [EngineOn] + [SessionBegin];
      ListenTo([EngineOn], SessionBegin);
    }
  }

  /**
   * A re-initialisation inherits a session begin exactly if the session is open and nothing
   * stops it: the engine is not navigating, or the stop is deferred or fails.
   */
  lemma OpenSessionIsInherited(
      last: Status, listening: bool, run: seq<Event>, navigating: bool, agpsPending: bool, stopped: bool)
    requires last != SessionBegin
    ensures var s := Play(Initial(last, listening), run);
            LastAtReset(s, navigating, agpsPending, stopped) == SessionBegin
            <==> s.fix == SessionBegin && (!navigating || agpsPending || !stopped)
  {
    StatusesAreTied(Initial(last, listening), run);
  }

  /** One report of a begun session opens it. */
  lemma BeginOpensSession(s: State)
    ensures Step(s, Reported(FixSession(true))).fix == SessionBegin
  {
  }

  /** What a report makes of each mute state, by the engine status it leaves. */
  lemma MuteFollowsTheEngine(s: State, report: Report)
    ensures var s' := AfterReport(s, report);
            match s.mute
            case NotMuted => s'.mute == NotMuted
            case Wait => s'.mute == if s'.engine == EngineOn then InSession else Wait
            case InSession => s'.mute == if s'.engine == EngineOff then NotMuted else InSession
  {
  }

  /**
   * A waiting mute is taken by the next session: in every run without an "engine off" it is
   * waiting or taken, and any "engine on" or "session begin" takes it.
   */
  lemma {:induction false} WaitingMuteIsTaken(s: State, run: seq<Event>)
    requires StatusInv(s) && s.mute != NotMuted && Reported(EngineState(false)) !in run
    ensures Play(s, run).mute in {Wait, InSession}
    ensures Play(s, run + [Reported(EngineState(true))]).mute == InSession
    ensures Play(s, run + [Reported(FixSession(true))]).mute == InSession
    decreases |run|
  {
    var on, begin := Reported(EngineState(true)), Reported(FixSession(true));
    if run == [] {
      assert run + [on] == [on] && [on][1..] == [] && run + [begin] == [begin] && [begin][1..] == [];
      MuteFollowsTheEngine(s, EngineState(true));
      MuteFollowsTheEngine(s, FixSession(true));
    } else {
      assert (run + [on])[1..] == run[1..] + [on] && (run + [begin])[1..] == run[1..] + [begin];
      StatusesAreTied(s, [run[0]]);
      assert [run[0]][1..] == [] && Play(s, [run[0]]) == Step(s, run[0]);
      WaitingMuteIsTaken(Step(s, run[0]), run[1..]);
    }
  }

  /** A muted session ends when the engine goes off, whatever happens in between. */
  lemma {:induction false} MuteEndsWithTheEngine(s: State, run: seq<Event>)
    requires s.mute == InSession && Muted !in run
    ensures Play(s, run).mute in {InSession, NotMuted}
    ensures Play(s, run + [Reported(EngineState(false))]).mute == NotMuted
    decreases |run|
  {
    var off := Reported(EngineState(false));
    if run == [] {
      assert run + [off] == [off] && [off][1..] == [];
    } else {
      assert (run + [off])[1..] == run[1..] + [off];
      var next := Step(s, run[0]);
      if next.mute == InSession {
        MuteEndsWithTheEngine(next, run[1..]);
      } else {
        NotMutedStays(next, run[1..]);
        NotMutedStays(next, run[1..] + [off]);
      }
    }
  }

  lemma {:induction false} NotMutedStays(s: State, run: seq<Event>)
    requires s.mute == NotMuted && Muted !in run
    ensures Play(s, run).mute == NotMuted
    decreases |run|
  {
    if run != [] {
      NotMutedStays(Step(s, run[0]), run[1..]);
    }
  }
}
