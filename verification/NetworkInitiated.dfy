/**
 * Network-initiated location requests: a callback thread that accepts one request at a time, a
 * thread per request that waits for the user and answers the modem, and user responses coming
 * in from any number of other threads.
 */
module NetworkInitiated {
  import opened Basics

  type Tid = nat

  type Request = nat

  datatype User = UserAccept | UserDeny | UserNoResp | UserOther

  datatype Resp = Accept | Deny | NoResp

  function RespOf(user: User): Option<Resp> {
    match user
    case UserAccept => Some(Accept)
    case UserDeny => Some(Deny)
    case UserNoResp => Some(NoResp)
    case UserOther => None
  }

  // ----- The shared data, and what each critical section does to it -----

  datatype Core = Core(inProgress: bool, saved: Request, notifId: int, received: bool, resp: Resp)

  /** What a pass of the waiting thread comes to: it sleeps, or answers the saved request. */
  datatype Pass = Sleeps | Answers(resp: Resp, request: Request)

  function HandleCore(c: Core, request: Request, id: nat): Core {
    if c.inProgress then c else c.(saved := request, inProgress := true, notifId := id)
  }

  function RespondCore(c: Core, user: User): Core {
    match RespOf(user)
    case Some(resp) => c.(resp := resp, received := true)
    case None => c
  }

  function PassCore(c: Core, timedOut: bool): (Pass, Core) {
    if timedOut then (Answers(NoResp, c.saved), c.(resp := NoResp, received := false))
    else if !c.received then (Sleeps, c)
    else (Answers(c.resp, c.saved), c.(received := false))
  }

  function ClearCore(c: Core): Core { c.(inProgress := false, notifId := -1) }

  class NiData {
    var loc_ni_request: Request
    var notif_in_progress: bool
    var current_notif_id: int
    var user_response_received: bool
    var resp: Resp

    ghost function View(): Core
      reads this
    {
      Core(notif_in_progress, loc_ni_request, current_notif_id, user_response_received, resp)
    }

    /** `loc_eng_ni_init`, on the static data. */
    constructor ()
      ensures View() == Init.core
    {
      notif_in_progress, current_notif_id, user_response_received := false, -1, false;
      loc_ni_request, resp := 0, Accept;
    }

    /** `id` is the random notification number. */
    method RequestHandler(request: Request, id: nat)
      modifies this
      ensures View() == HandleCore(old(View()), request, id)
      ensures notif_in_progress && user_response_received == old(user_response_received) && resp == old(resp)
      ensures loc_ni_request == if old(notif_in_progress) then old(loc_ni_request) else request
      ensures current_notif_id == if old(notif_in_progress) then old(current_notif_id) else id
    {
      if !notif_in_progress {
        loc_ni_request := request;
        notif_in_progress := true;
        current_notif_id := id;
      }
    }

    method ProcessUserResponse(user: User) returns (rc: int)
      modifies this
      ensures View() == RespondCore(old(View()), user) && rc == if user == UserOther then -1 else 0
      ensures user == UserAccept ==> resp == Accept
      ensures user == UserDeny ==> resp == Deny
      ensures user == UserNoResp ==> resp == NoResp
      ensures if user == UserOther then View() == old(View())
              else user_response_received && View() == old(View()).(resp := resp, received := true)
    {
      var answer;
      match user {
        case UserAccept => answer := Accept;
        case UserDeny => answer := Deny;
        case UserNoResp => answer := NoResp;
        case UserOther => return -1;
      }
      resp := answer;
      user_response_received := true;
      return 0;
    }

    /** The waiting thread from where it takes the mutex to a wait, or to the answer it sends. */
    method ThreadPass(timedOut: bool) returns (pass: Pass)
      modifies this
      ensures (pass, View()) == PassCore(old(View()), timedOut)
      ensures pass == if timedOut then Answers(NoResp, old(loc_ni_request))
                      else if old(user_response_received) then Answers(old(resp), old(loc_ni_request))
                      else Sleeps
      ensures View() == old(View()).(received := false, resp := if timedOut then NoResp else old(resp))
    {
      if timedOut {
        resp := NoResp;
      } else if !user_response_received {
        return Sleeps;
      }
      if user_response_received {
        user_response_received := false;
      }
      return Answers(resp, loc_ni_request);
    }

    method ClearSession()
      modifies this
      ensures View() == ClearCore(old(View()))
      ensures View() == old(View()).(inProgress := false, notifId := -1)
    {
      notif_in_progress := false;
      current_notif_id := -1;
    }
  }

  // ----- Interleavings -----

  /** The thread of the accepted request: not there, created, waiting, or about to clear up. */
  datatype Phase = Idle | Started | Sleeping | Clearing

  /** A response on its way: the request current when its number was compared, and how far it is. */
  datatype Response = Response(session: int, user: User, checked: bool)

  /** A response stored by its thread: the request it was for, and what the user said. */
  datatype Commit = Commit(session: int, user: User)

  /** What was sent to the modem, and the commit it came from, or -1 after a timeout. */
  datatype Answer = Answer(request: Request, resp: Resp, origin: int)

  datatype State = State(
    core: Core,
    phase: Phase,
    inFlight: map<Tid, Response>,
    // History
    accepted: seq<Request>,
    answers: seq<Answer>,
    commits: seq<Commit>)

  const Init: State := State(Core(false, 0, -1, false, Accept), Idle, map[], [], [], [])

  datatype Step =
    | NewRequest(request: Request, id: nat)
    | ReadId(t: Tid, number: int, user: User) // the two unlocked tests of `loc_eng_ni_respond`
    | ReadInProgress(t: Tid)
    | CommitResponse(t: Tid)
    | ThreadRuns                          // started, signalled or woken without cause
    | ThreadTimesOut
    | ThreadClears

  predicate Enabled(s: State, a: Step) {
    match a
    case NewRequest(_, _) => true
    case ReadId(t, _, _) => t !in s.inFlight
    case ReadInProgress(t) => t in s.inFlight && !s.inFlight[t].checked
    case CommitResponse(t) => t in s.inFlight && s.inFlight[t].checked
    case ThreadRuns => s.phase in {Started, Sleeping}
    case ThreadTimesOut => s.phase == Sleeping
    case ThreadClears => s.phase == Clearing
  }

  function RunThread(s: State, timedOut: bool): State {
    var (pass, core) := PassCore(s.core, timedOut);
    match pass
    case Sleeps => s.(phase := Sleeping)
    case Answers(resp, request) =>
      s.(core := core, phase := Clearing,
         answers := s.answers + [Answer(request, resp, if timedOut then -1 else |s.commits| - 1)])
  }

  function Do(s: State, a: Step): State
    requires Enabled(s, a)
  {
    match a
    case NewRequest(request, id) =>
      var core := HandleCore(s.core, request, id);
      if s.core.inProgress then s.(core := core)
      else s.(core := core, phase := Started, accepted := s.accepted + [request])
    case ReadId(t, number, user) =>
      if number != s.core.notifId then s
      else s.(inFlight := s.inFlight[t := Response(|s.accepted| - 1, user, false)])
    case ReadInProgress(t) =>
      if s.core.inProgress then s.(inFlight := s.inFlight[t := s.inFlight[t].(checked := true)])
      else s.(inFlight := s.inFlight - {t})
    case CommitResponse(t) =>
      var r := s.inFlight[t];
      s.(core := RespondCore(s.core, r.user), inFlight := s.inFlight - {t},
         commits := if r.user == UserOther then s.commits else s.commits + [Commit(r.session, r.user)])
    case ThreadRuns => RunThread(s, false)
    case ThreadTimesOut => RunThread(s, true)
    case ThreadClears => s.(core := ClearCore(s.core), phase := Idle)
  }

  predicate Run(s: State, steps: seq<Step>, s': State)
    decreases |steps|
  {
    if steps == [] then s == s' else Enabled(s, steps[0]) && Run(Do(s, steps[0]), steps[1..], s')
  }

  predicate Waiting(s: State) { s.phase in {Started, Sleeping} }

  /** Requests, responses and time-outs come whenever they please. */
  lemma WhatMayCome(s: State, request: Request, id: nat, t: Tid, number: int, user: User)
    ensures Enabled(s, NewRequest(request, id))
    ensures t !in s.inFlight ==> Enabled(s, ReadId(t, number, user))
    ensures t in s.inFlight ==>
              if s.inFlight[t].checked then Enabled(s, CommitResponse(t)) else Enabled(s, ReadInProgress(t))
    ensures s.phase == Started ==> Enabled(s, ThreadRuns)
    ensures s.phase == Sleeping ==> Enabled(s, ThreadRuns) && Enabled(s, ThreadTimesOut)
    ensures s.phase == Clearing ==> Enabled(s, ThreadClears)
  {
  }

  /** A response goes on exactly if its number is the current one, and a request is in progress. */
  lemma ResponsesPassIff(s: State, t: Tid, number: int, user: User)
    requires Enabled(s, ReadId(t, number, user))
    ensures var s1 := Do(s, ReadId(t, number, user));
            && s1.core == s.core && s1.commits == s.commits
            && (t in s1.inFlight <==> number == s.core.notifId)
            && (t in s1.inFlight ==>
                  && s1.inFlight[t] == Response(|s.accepted| - 1, user, false)
                  && var s2 := Do(s1, ReadInProgress(t));
                     s2.core == s.core && s2.commits == s.commits
                     && if s.core.inProgress then s2.inFlight == s.inFlight[t := Response(|s.accepted| - 1, user, true)]
                        else s2.inFlight == s.inFlight)
  {
  }

  // ----- One at a time, each answered once -----

  /** The modem is told what the user said. */
  predicate Conveys(resp: Resp, user: User) {
    && (resp == Accept <==> user == UserAccept)
    && (resp == Deny <==> user == UserDeny)
    && (resp == NoResp <==> user == UserNoResp)
  }

  /** Answer `i` is to request `i`, and is "no response" or what the user of its commit said. */
  predicate Faithful(s: State, i: nat)
    requires i < |s.answers| <= |s.accepted|
  {
    var a := s.answers[i];
    && a.request == s.accepted[i]
    && (a.origin == -1 ==> a.resp == NoResp)
    && (a.origin != -1 ==> 0 <= a.origin < |s.commits| && Conveys(a.resp, s.commits[a.origin].user))
  }

  predicate Inv(s: State) {
    && (s.core.inProgress <==> s.phase != Idle)
    && |s.accepted| == |s.answers| + (if Waiting(s) then 1 else 0)
    && (Waiting(s) ==> s.core.saved == s.accepted[|s.accepted| - 1])
    && (forall i | 0 <= i < |s.answers| :: Faithful(s, i))
    && (forall i, j | 0 <= i < j < |s.answers| && s.answers[j].origin != -1 ::
          s.answers[i].origin < s.answers[j].origin)
    && (s.core.received ==>
          && s.commits != [] && Conveys(s.core.resp, s.commits[|s.commits| - 1].user)
          && forall i | 0 <= i < |s.answers| :: s.answers[i].origin < |s.commits| - 1)
    && (forall t | t in s.inFlight :: s.inFlight[t].session < |s.accepted|)
    && (forall c | 0 <= c < |s.commits| :: s.commits[c].session < |s.accepted|)
  }

  lemma StepKeepsInv(s: State, a: Step)
    requires Inv(s) && Enabled(s, a)
    ensures Inv(Do(s, a))
  {
    var s' := Do(s, a);
    forall i | 0 <= i < |s.answers| ensures Faithful(s', i) {
      assert Faithful(s, i);
      assert s'.answers[i] == s.answers[i] && s'.accepted[i] == s.accepted[i];
    }
    forall i | 0 <= i < |s.answers| ensures s.answers[i].origin < |s.commits| {
      assert Faithful(s, i);
    }
  }

  lemma {:induction false} RunKeepsInv(s: State, steps: seq<Step>, s': State)
    requires Inv(s) && Run(s, steps, s')
    ensures Inv(s')
    decreases |steps|
  {
    if steps != [] {
      StepKeepsInv(s, steps[0]);
      RunKeepsInv(Do(s, steps[0]), steps[1..], s');
    }
  }

  /** Where an answer comes from. */
  predicate FromUser(s: State, a: Answer) {
    match a.resp
    case Accept => 0 <= a.origin < |s.commits| && s.commits[a.origin].user == UserAccept
    case Deny => 0 <= a.origin < |s.commits| && s.commits[a.origin].user == UserDeny
    case NoResp => a.origin == -1 || (0 <= a.origin < |s.commits| && s.commits[a.origin].user == UserNoResp)
  }

  /**
   * In every interleaving: requests are answered once each, in the order of acceptance, each
   * with its own saved request, and none is accepted while one is unanswered. "Accept" answers a
   * user's accept, "deny" a deny and "no response" a timeout or a user who did not respond; no
   * response supplies two answers.
   */
  lemma AnsweredOnceInOrder(steps: seq<Step>, s: State)
    requires Run(Init, steps, s)
    ensures |s.answers| <= |s.accepted| <= |s.answers| + 1
    ensures |s.accepted| == |s.answers| + 1 <==> s.phase in {Started, Sleeping}
    ensures s.phase != Idle ==> forall request, id: nat :: Do(s, NewRequest(request, id)) == s
    ensures forall i | 0 <= i < |s.answers| :: s.answers[i].request == s.accepted[i] && FromUser(s, s.answers[i])
    ensures forall i, j | 0 <= i < j < |s.answers| && s.answers[j].origin != -1 ::
              s.answers[i].origin < s.answers[j].origin
  {
    RunKeepsInv(Init, steps, s);
    forall i | 0 <= i < |s.answers| ensures s.answers[i].request == s.accepted[i] && FromUser(s, s.answers[i]) {
      assert Faithful(s, i);
    }
  }

  // ----- Whose response is it? -----

  /** Commit `c` answered at most the request whose number it was sent for. */
  predicate Attributed(s: State, c: nat)
    requires c < |s.commits|
  {
    forall i | 0 <= i < |s.answers| && s.answers[i].origin == c :: s.commits[c].session == i
  }

  /** The thread of the request a response is for is still waiting. */
  predicate InTime(s: State, session: int) {
    Waiting(s) && session == |s.accepted| - 1
  }

  /** Commit `c` is used up, or waits to be used by its own request. */
  predicate Safe(s: State, c: nat) {
    && c < |s.commits| && Attributed(s, c)
    && (s.core.received && c == |s.commits| - 1 ==> InTime(s, s.commits[c].session))
  }

  lemma StepKeepsSafe(s: State, a: Step, c: nat)
    requires Inv(s) && Safe(s, c) && Enabled(s, a)
    ensures Safe(Do(s, a), c)
  {
    var s' := Do(s, a);
    assert s'.commits[c] == s.commits[c];
    forall i | 0 <= i < |s'.answers| && s'.answers[i].origin == c ensures s'.commits[c].session == i {
      assert i < |s.answers| ==> s'.answers[i] == s.answers[i];
    }
  }

  lemma {:induction false} RunKeepsSafe(s: State, steps: seq<Step>, s': State, c: nat)
    requires Inv(s) && Safe(s, c) && Run(s, steps, s')
    ensures c < |s'.commits| && Attributed(s', c)
    decreases |steps|
  {
    if steps != [] {
      StepKeepsInv(s, steps[0]);
      StepKeepsSafe(s, steps[0], c);
      RunKeepsSafe(Do(s, steps[0]), steps[1..], s', c);
    }
  }

  ghost predicate AlwaysAttributed(s: State, c: nat) {
    forall steps, s' | Run(s, steps, s') :: c < |s'.commits| && Attributed(s', c)
  }

  /** A continuation in which the latest commit answers the next request, or the current one. */
  function Misuse(s: State): seq<Step> {
    if Waiting(s) then [ThreadRuns]
    else if s.phase == Clearing then [ThreadClears, NewRequest(0, 0), ThreadRuns]
    else [NewRequest(0, 0), ThreadRuns]
  }

  lemma MisuseMisattributes(s: State)
    requires Inv(s) && s.core.received && !InTime(s, s.commits[|s.commits| - 1].session)
    ensures !AlwaysAttributed(s, |s.commits| - 1)
  {
    var steps, c := Misuse(s), |s.commits| - 1;
    var s1 := if s.phase == Clearing then Do(s, ThreadClears) else s;
    var s2 := if Waiting(s) then s else Do(s1, NewRequest(0, 0));
    var s3 := Do(s2, ThreadRuns);
    assert Run(s2, [ThreadRuns], s3) by {
      assert [ThreadRuns][1..] == [];
    }
    if !Waiting(s) {
      assert Run(s1, [NewRequest(0, 0), ThreadRuns], s3) by {
        assert [NewRequest(0, 0), ThreadRuns][1..] == [ThreadRuns];
      }
      assert s.phase == Clearing ==> steps[1..] == [NewRequest(0, 0), ThreadRuns];
    }
    assert Run(s, steps, s3);
    var last := |s3.answers| - 1;
    assert s3.answers[last].origin == c && s3.commits[c].session != last;
  }

  /**
   * The flag and the value outlive the request they were set for, so a response that commits
   * late can answer another request. From any reachable state, a response that passed both
   * tests is never used for another request exactly when its request is still waiting.
   */
  lemma AttributedExactlyWhenInTime(steps: seq<Step>, s: State, t: Tid)
    requires Run(Init, steps, s) && Enabled(s, CommitResponse(t)) && s.inFlight[t].user != UserOther
    ensures AlwaysAttributed(Do(s, CommitResponse(t)), |s.commits|) <==> InTime(s, s.inFlight[t].session)
  {
    RunKeepsInv(Init, steps, s);
    var s', c := Do(s, CommitResponse(t)), |s.commits|;
    StepKeepsInv(s, CommitResponse(t));
    assert s'.core.received && s'.commits[c].session == s.inFlight[t].session;
    if InTime(s, s.inFlight[t].session) {
      assert Safe(s', c) by {
        assert forall i | 0 <= i < |s.answers| :: s'.answers[i].origin < c;
      }
      forall later, s'' | Run(s', later, s'') ensures c < |s''.commits| && Attributed(s'', c) {
        RunKeepsSafe(s', later, s'', c);
      }
    } else {
      MisuseMisattributes(s');
    }
  }

  /** Late responses are reachable: the answer times out between the tests and the commit. */
  lemma AResponseCanBeLate()
    ensures exists steps, s ::
              && Run(Init, steps, s) && Enabled(s, CommitResponse(5))
              && !AlwaysAttributed(Do(s, CommitResponse(5)), |s.commits|)
  {
    var s1 := Do(Init, NewRequest(1, 10));
    var s2 := Do(s1, ThreadRuns);
    var s3 := Do(s2, ReadId(5, 10, UserAccept));
    var s4 := Do(s3, ReadInProgress(5));
    var s5 := Do(s4, ThreadTimesOut);
    var steps := [ThreadTimesOut];
    Extend(s4, ThreadTimesOut, [], s5);
    Extend(s3, ReadInProgress(5), steps, s5);
    steps := [ReadInProgress(5)] + steps;
    Extend(s2, ReadId(5, 10, UserAccept), steps, s5);
    steps := [ReadId(5, 10, UserAccept)] + steps;
    Extend(s1, ThreadRuns, steps, s5);
    steps := [ThreadRuns] + steps;
    Extend(Init, NewRequest(1, 10), steps, s5);
    steps := [NewRequest(1, 10)] + steps;
    AttributedExactlyWhenInTime(steps, s5, 5);
  }

  lemma Extend(s: State, a: Step, steps: seq<Step>, s': State)
    requires Enabled(s, a) && Run(Do(s, a), steps, s')
    ensures Run(s, [a] + steps, s')
  {
    assert ([a] + steps)[1..] == steps;
  }
}
